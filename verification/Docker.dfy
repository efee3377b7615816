/** The privileged-port and sensitive-mount controls, in both profiles that have them. */
module Docker {
  import opened Numerals
  import opened Text
  import opened CheckLog

  /** A host binding; its `HostPort` may be nil, and `nil.to_i` is 0. */
  datatype Host = Host(hostPort: Option<string>)

  /** `ports`: one entry per container port, nil when it is not published; the whole hash may be nil too. */
  datatype Container = Container(ports: Option<seq<Option<seq<Host>>>>, mounts: seq<string>)

  // ---- Privileged ports ----

  predicate Privileged(h: Host) {
    h.hostPort.Some? && 1 <= ToI(h.hostPort.value) <= 1024
  }

  function HostEntry(h: Host): Entry {
    Describe([!Privileged(h)])
  }

  function HostsLog(hosts: seq<Host>): (log: seq<Entry>)
    ensures |log| == |hosts| && forall k | 0 <= k < |hosts| :: log[k] == HostEntry(hosts[k])
  {
    seq(|hosts|, k requires 0 <= k < |hosts| => HostEntry(hosts[k]))
  }

  /** The entries for one container; `nilEntry` is what an unpublished port emits. */
  function PortsLog(ports: seq<Option<seq<Host>>>, nilEntry: seq<Entry>): seq<Entry> {
    if ports == [] then []
    else PortsLog(ports[..|ports| - 1], nilEntry)
         + match ports[|ports| - 1] case None => nilEntry case Some(hosts) => HostsLog(hosts)
  }

  function ContainersLog(cs: seq<Container>, nilEntry: seq<Entry>): seq<Entry> {
    if cs == [] then []
    else ContainersLog(cs[..|cs| - 1], nilEntry)
         + match cs[|cs| - 1].ports case None => [] case Some(ports) => PortsLog(ports, nilEntry)
  }

  function DockerPortsLog(cs: seq<Container>): seq<Entry> {
    ContainersLog(cs, [])
  }

  function CePortsLog(cs: seq<Container>): seq<Entry> {
    if cs == [] then [Skipped] else ContainersLog(cs, [Skipped])
  }

  /** Every binding of every container, in order. */
  function PortBindings(ports: seq<Option<seq<Host>>>): seq<Host> {
    if ports == [] then []
    else PortBindings(ports[..|ports| - 1])
         + match ports[|ports| - 1] case None => [] case Some(hosts) => hosts
  }

  function Bindings(cs: seq<Container>): seq<Host> {
    if cs == [] then []
    else Bindings(cs[..|cs| - 1])
         + match cs[|cs| - 1].ports case None => [] case Some(ports) => PortBindings(ports)
  }

  lemma Assoc<T>(a: seq<T>, b: seq<T>, c: seq<T>)
    ensures a + (b + c) == a + b + c
  {}

  /** One more port, on top of what the log held before. */
  lemma PortsStep(start: seq<Entry>, ports: seq<Option<seq<Host>>>, nilEntry: seq<Entry>, p: nat)
    requires p < |ports|
    ensures start + PortsLog(ports[..p + 1], nilEntry)
         == start + PortsLog(ports[..p], nilEntry)
            + match ports[p] case None => nilEntry case Some(hosts) => HostsLog(hosts)
  {
    assert ports[..p + 1][..p] == ports[..p];
    var emitted := match ports[p] case None => nilEntry case Some(hosts) => HostsLog(hosts);
    assert PortsLog(ports[..p + 1], nilEntry) == PortsLog(ports[..p], nilEntry) + emitted;
    Assoc(start, PortsLog(ports[..p], nilEntry), emitted);
  }

  /** One more container, on top of what the log held before. */
  lemma ContainersStep(start: seq<Entry>, cs: seq<Container>, nilEntry: seq<Entry>, c: nat)
    requires c < |cs|
    ensures start + ContainersLog(cs[..c + 1], nilEntry)
         == match cs[c].ports
            case None => start + ContainersLog(cs[..c], nilEntry)
            case Some(ports) => start + ContainersLog(cs[..c], nilEntry) + PortsLog(ports, nilEntry)
  {
    assert cs[..c + 1][..c] == cs[..c];
    var emitted := match cs[c].ports case None => [] case Some(ports) => PortsLog(ports, nilEntry);
    assert ContainersLog(cs[..c + 1], nilEntry) == ContainersLog(cs[..c], nilEntry) + emitted;
    Assoc(start, ContainersLog(cs[..c], nilEntry), emitted);
  }

  /** The innermost loop, the same in both controls. */
  method EmitHosts(hosts: seq<Host>, report: Report)
    modifies report`log
    ensures report.log == old(report.log) + HostsLog(hosts)
  {
    for h := 0 to |hosts|
      invariant report.log == old(report.log) + HostsLog(hosts)[..h]
    {
      var port := if hosts[h].hostPort.Some? then ToI(hosts[h].hostPort.value) else 0;
      report.Emit(Describe([!(1 <= port <= 1024)]));
      assert HostEntry(hosts[h]) == HostsLog(hosts)[h];
    }
  }

  /** The ports of one container in docker-5.7: an unpublished port is passed over. */
  method EmitPorts(ports: seq<Option<seq<Host>>>, report: Report)
    modifies report`log
    ensures report.log == old(report.log) + PortsLog(ports, [])
  {
    for p := 0 to |ports|
      invariant report.log == old(report.log) + PortsLog(ports[..p], [])
    {
      PortsStep(old(report.log), ports, [], p);
      if ports[p].None? {
        continue;
      }
      EmitHosts(ports[p].value, report);
    }
    assert ports[..|ports|] == ports;
  }

  /** The ports of one container in M-5.7: an unpublished port leaves a skip. */
  method EmitPortsOrSkip(ports: seq<Option<seq<Host>>>, report: Report)
    modifies report`log
    ensures report.log == old(report.log) + PortsLog(ports, [Skipped])
  {
    for p := 0 to |ports|
      invariant report.log == old(report.log) + PortsLog(ports[..p], [Skipped])
    {
      PortsStep(old(report.log), ports, [Skipped], p);
      if ports[p].Some? {
        EmitHosts(ports[p].value, report);
      } else {
        report.Emit(Skipped);
      }
    }
    assert ports[..|ports|] == ports;
  }

  /** Control docker-5.7. */
  method DockerPortsControl(cs: seq<Container>, report: Report)
    modifies report`log
    ensures report.log == old(report.log) + DockerPortsLog(cs)
  {
    for c := 0 to |cs|
      invariant report.log == old(report.log) + ContainersLog(cs[..c], [])
    {
      ContainersStep(old(report.log), cs, [], c);
      if cs[c].ports.None? {
        continue;
      }
      EmitPorts(cs[c].ports.value, report);
    }
    assert cs[..|cs|] == cs;
  }

  /** Control M-5.7. */
  method CePortsControl(cs: seq<Container>, report: Report)
    modifies report
    ensures report.log == old(report.log) + CePortsLog(cs)
    ensures report.impact == if cs == [] then 0.0 else old(report.impact)
    ensures cs == [] ==> report.log == old(report.log) + [Skipped]
  {
    if cs != [] {
      for c := 0 to |cs|
        invariant report.log == old(report.log) + ContainersLog(cs[..c], [Skipped])
        invariant report.impact == old(report.impact)
      {
        ContainersStep(old(report.log), cs, [Skipped], c);
        if cs[c].ports.None? {
          continue;
        }
        EmitPortsOrSkip(cs[c].ports.value, report);
      }
      assert cs[..|cs|] == cs;
    } else {
      report.impact := 0.0;
      report.Emit(Skipped);
    }
  }

  function WithoutSkips(log: seq<Entry>): seq<Entry> {
    if log == [] then []
    else WithoutSkips(log[..|log| - 1]) + if log[|log| - 1] == Skipped then [] else [log[|log| - 1]]
  }

  lemma {:induction false} WithoutSkipsConcat(a: seq<Entry>, b: seq<Entry>)
    ensures WithoutSkips(a + b) == WithoutSkips(a) + WithoutSkips(b)
    decreases |b|
  {
    if b == [] {
      assert a + b == a;
    } else {
      var n := |b| - 1;
      WithoutSkipsConcat(a, b[..n]);
      assert (a + b)[..|a| + n] == a + b[..n];
    }
  }

  lemma {:induction false} NoSkips(log: seq<Entry>)
    requires Skipped !in log
    ensures WithoutSkips(log) == log
    decreases |log|
  {
    if log != [] { NoSkips(log[..|log| - 1]); }
  }

  lemma {:induction false} SkipsPass(log: seq<Entry>)
    ensures Verdict(log) <==> Verdict(WithoutSkips(log))
    decreases |log|
  {
    if log != [] {
      var n := |log| - 1;
      SkipsPass(log[..n]);
      var last := if log[n] == Skipped then [] else [log[n]];
      VerdictOfConcat(WithoutSkips(log[..n]), last);
      VerdictOfConcat(log[..n], [log[n]]);
      assert log[..n] + [log[n]] == log;
      assert Passes(log[n]) <==> Verdict(last) by { if log[n] != Skipped { assert last[0] == log[n]; } }
      assert Passes(log[n]) <==> Verdict([log[n]]) by { assert [log[n]][0] == log[n]; }
    }
  }

  lemma HostsLogConcat(a: seq<Host>, b: seq<Host>)
    ensures HostsLog(a + b) == HostsLog(a) + HostsLog(b)
  {}

  lemma {:induction false} PortsExamined(ports: seq<Option<seq<Host>>>, nilEntry: seq<Entry>)
    requires nilEntry == [] || nilEntry == [Skipped]
    ensures WithoutSkips(PortsLog(ports, nilEntry)) == HostsLog(PortBindings(ports))
    decreases |ports|
  {
    if ports != [] {
      var n := |ports| - 1;
      PortsExamined(ports[..n], nilEntry);
      var hosts := match ports[n] case None => [] case Some(hs) => hs;
      var last := match ports[n] case None => nilEntry case Some(hs) => HostsLog(hs);
      WithoutSkipsConcat(PortsLog(ports[..n], nilEntry), last);
      NoSkips(HostsLog(hosts));
      HostsLogConcat(PortBindings(ports[..n]), hosts);
    }
  }

  /** In both loops the checks are, in order, one per non-nil binding. */
  lemma {:induction false} EveryBindingOnce(cs: seq<Container>, nilEntry: seq<Entry>)
    requires nilEntry == [] || nilEntry == [Skipped]
    ensures WithoutSkips(ContainersLog(cs, nilEntry)) == HostsLog(Bindings(cs))
    decreases |cs|
  {
    if cs != [] {
      var n := |cs| - 1;
      EveryBindingOnce(cs[..n], nilEntry);
      var ports := match cs[n].ports case None => [] case Some(ps) => ps;
      PortsExamined(ports, nilEntry);
      WithoutSkipsConcat(ContainersLog(cs[..n], nilEntry), PortsLog(ports, nilEntry));
      HostsLogConcat(Bindings(cs[..n]), PortBindings(ports));
    }
  }

  lemma HostsVerdict(hosts: seq<Host>)
    ensures Verdict(HostsLog(hosts)) <==> forall h | h in hosts :: !Privileged(h)
  {
    var log := HostsLog(hosts);
    forall k | 0 <= k < |log| ensures Passes(log[k]) <==> !Privileged(hosts[k]) {
      assert AllPass(log[k].results) <==> log[k].results[0];
    }
    if Verdict(log) {
      forall h | h in hosts ensures !Privileged(h) {
        var k :| 0 <= k < |log| && hosts[k] == h;
        assert Passes(log[k]);
      }
    }
  }

  /** Both profiles fail on the same container lists: those with a privileged binding. */
  lemma PortControlsAgree(cs: seq<Container>)
    ensures WithoutSkips(CePortsLog(cs)) == WithoutSkips(DockerPortsLog(cs)) == HostsLog(Bindings(cs))
    ensures Verdict(CePortsLog(cs)) <==> forall h | h in Bindings(cs) :: !Privileged(h)
    ensures Verdict(DockerPortsLog(cs)) <==> forall h | h in Bindings(cs) :: !Privileged(h)
  {
    EveryBindingOnce(cs, []);
    if cs == [] {
      NoSkips([]);
      assert WithoutSkips([Skipped]) == [] by { assert [Skipped][..0] == []; }
    } else {
      EveryBindingOnce(cs, [Skipped]);
    }
    SkipsPass(CePortsLog(cs));
    SkipsPass(DockerPortsLog(cs));
    HostsVerdict(Bindings(cs));
  }

  predicate PortsHave(ports: seq<Option<seq<Host>>>, h: Host) {
    exists p | 0 <= p < |ports| :: ports[p].Some? && h in ports[p].value
  }

  /** Some published port of the container is bound by `h`. */
  predicate ContainerHas(c: Container, h: Host) {
    c.ports.Some? && PortsHave(c.ports.value, h)
  }

  lemma {:induction false} PortBindingsMean(ports: seq<Option<seq<Host>>>, h: Host)
    ensures h in PortBindings(ports) <==> PortsHave(ports, h)
    decreases |ports|
  {
    if ports != [] {
      var n := |ports| - 1;
      PortBindingsMean(ports[..n], h);
      InConcat(PortBindings(ports[..n]), match ports[n] case None => [] case Some(hs) => hs, h);
      PortsHaveStep(ports, h);
    }
  }

  lemma PortsHaveStep(ports: seq<Option<seq<Host>>>, h: Host)
    requires ports != []
    ensures var n := |ports| - 1;
            PortsHave(ports, h) <==> PortsHave(ports[..n], h) || (ports[n].Some? && h in ports[n].value)
  {
    var n := |ports| - 1;
    assert forall p | 0 <= p < n :: ports[..n][p] == ports[p];
  }

  function HostsOf(c: Container): seq<Host> {
    match c.ports case None => [] case Some(ports) => PortBindings(ports)
  }

  lemma HostsOfMean(c: Container, h: Host)
    ensures h in HostsOf(c) <==> ContainerHas(c, h)
  {
    if c.ports.Some? { PortBindingsMean(c.ports.value, h); }
  }

  lemma BindingsStep(cs: seq<Container>)
    requires cs != []
    ensures Bindings(cs) == Bindings(cs[..|cs| - 1]) + HostsOf(cs[|cs| - 1])
  {}

  predicate SomeHas(cs: seq<Container>, h: Host) {
    exists c | 0 <= c < |cs| :: ContainerHas(cs[c], h)
  }

  lemma SomeHasStep(cs: seq<Container>, h: Host)
    requires cs != []
    ensures SomeHas(cs, h) <==> SomeHas(cs[..|cs| - 1], h) || ContainerHas(cs[|cs| - 1], h)
  {
    assert forall c | 0 <= c < |cs| - 1 :: cs[..|cs| - 1][c] == cs[c];
  }

  /** The bindings are the hosts of the published ports of the containers. */
  lemma {:induction false} BindingsMean(cs: seq<Container>, h: Host)
    ensures h in Bindings(cs) <==> SomeHas(cs, h)
    decreases |cs|
  {
    if cs != [] {
      var front, last := cs[..|cs| - 1], cs[|cs| - 1];
      BindingsMean(front, h);
      BindingsStep(cs);
      HostsOfMean(last, h);
      InConcat(Bindings(front), HostsOf(last), h);
      SomeHasStep(cs, h);
    }
  }

  lemma FrontOfConcat(a: seq<Container>, b: seq<Container>)
    requires b != []
    ensures (a + b)[..|a + b| - 1] == a + b[..|b| - 1] && (a + b)[|a + b| - 1] == b[|b| - 1]
  {}

  /** Their order is that of the containers. */
  lemma {:induction false} BindingsInOrder(a: seq<Container>, b: seq<Container>)
    ensures Bindings(a + b) == Bindings(a) + Bindings(b)
    decreases |b|
  {
    if b == [] {
      assert a + b == a;
    } else {
      var front, last := b[..|b| - 1], b[|b| - 1];
      BindingsInOrder(a, front);
      FrontOfConcat(a, b);
      BindingsStep(a + b);
      BindingsStep(b);
      Assoc(Bindings(a), Bindings(front), HostsOf(last));
    }
  }

  /** A binding without a port is not privileged. */
  lemma NilPortPasses()
    ensures !Privileged(Host(None))
  {}

  function NilCount(ports: seq<Option<seq<Host>>>): nat {
    if ports == [] then 0 else NilCount(ports[..|ports| - 1]) + if ports[|ports| - 1].None? then 1 else 0
  }

  /** How many container ports are known but not published. */
  function NilPorts(cs: seq<Container>): nat {
    if cs == [] then 0
    else NilPorts(cs[..|cs| - 1]) + match cs[|cs| - 1].ports case None => 0 case Some(ports) => NilCount(ports)
  }

  lemma {:induction false} PortsCounted(ports: seq<Option<seq<Host>>>, nilEntry: seq<Entry>)
    requires |nilEntry| <= 1
    ensures |PortsLog(ports, nilEntry)| == |PortBindings(ports)| + if nilEntry == [] then 0 else NilCount(ports)
    decreases |ports|
  {
    if ports != [] {
      PortsCounted(ports[..|ports| - 1], nilEntry);
      LastPortCounted(ports, nilEntry);
    }
  }

  lemma LastPortCounted(ports: seq<Option<seq<Host>>>, nilEntry: seq<Entry>)
    requires ports != []
    ensures var front, last := ports[..|ports| - 1], ports[|ports| - 1];
            && |PortsLog(ports, nilEntry)|
               == |PortsLog(front, nilEntry)| + (if last.None? then |nilEntry| else |last.value|)
            && |PortBindings(ports)| == |PortBindings(front)| + (if last.None? then 0 else |last.value|)
  {}

  /** One entry per binding, and one more per unpublished port where those are skipped. */
  lemma {:induction false} ContainersCounted(cs: seq<Container>, nilEntry: seq<Entry>)
    requires |nilEntry| <= 1
    ensures |ContainersLog(cs, nilEntry)| == |Bindings(cs)| + if nilEntry == [] then 0 else NilPorts(cs)
    decreases |cs|
  {
    if cs != [] {
      ContainersCounted(cs[..|cs| - 1], nilEntry);
      if cs[|cs| - 1].ports.Some? { PortsCounted(cs[|cs| - 1].ports.value, nilEntry); }
    }
  }

  /** A binding published on a decimal port is privileged exactly for ports 1..1024. */
  lemma PrivilegedNumeral(n: nat)
    ensures Privileged(Host(Some(Numeral(n, Decimal)))) <==> 1 <= n <= 1024
  {
    ToIOfNumeral(n, "");
    assert Numeral(n, Decimal) + "" == Numeral(n, Decimal);
  }

  /** Some container port is known but not published. */
  predicate HasNilPort(cs: seq<Container>) {
    exists c | 0 <= c < |cs| :: cs[c].ports.Some? && None in cs[c].ports.value
  }

  lemma InConcat<T>(a: seq<T>, b: seq<T>, x: T)
    ensures x in a + b <==> x in a || x in b
  {}

  lemma NoSkippedHost(hosts: seq<Host>)
    ensures Skipped !in HostsLog(hosts)
  {}

  /** What one more port adds to the log. */
  lemma PortEmits(last: Option<seq<Host>>, nilEntry: seq<Entry>)
    requires nilEntry == [] || nilEntry == [Skipped]
    ensures var emitted := match last case None => nilEntry case Some(hosts) => HostsLog(hosts);
            Skipped in emitted <==> nilEntry == [Skipped] && last.None?
  {
    if last.Some? { NoSkippedHost(last.value); }
  }

  lemma NoneInPush(ports: seq<Option<seq<Host>>>)
    requires ports != []
    ensures None in ports <==> None in ports[..|ports| - 1] || ports[|ports| - 1].None?
  {
    assert ports == ports[..|ports| - 1] + [ports[|ports| - 1]];
    InConcat(ports[..|ports| - 1], [ports[|ports| - 1]], None);
  }

  lemma {:induction false} PortsReport(ports: seq<Option<seq<Host>>>, nilEntry: seq<Entry>)
    requires nilEntry == [] || nilEntry == [Skipped]
    ensures Skipped in PortsLog(ports, nilEntry) <==> nilEntry == [Skipped] && None in ports
    decreases |ports|
  {
    if ports != [] {
      var front, last := ports[..|ports| - 1], ports[|ports| - 1];
      PortsReport(front, nilEntry);
      NoneInPush(ports);
      PortEmits(last, nilEntry);
      var emitted := match last case None => nilEntry case Some(hosts) => HostsLog(hosts);
      InConcat(PortsLog(front, nilEntry), emitted, Skipped);
    }
  }

  lemma {:induction false} ContainersReport(cs: seq<Container>, nilEntry: seq<Entry>)
    requires nilEntry == [] || nilEntry == [Skipped]
    ensures Skipped in ContainersLog(cs, nilEntry) <==> nilEntry == [Skipped] && HasNilPort(cs)
    decreases |cs|
  {
    if cs != [] {
      var n := |cs| - 1;
      ContainersReport(cs[..n], nilEntry);
      if cs[n].ports.Some? { PortsReport(cs[n].ports.value, nilEntry); }
      NilPortStep(cs);
    }
  }

  lemma NilPortStep(cs: seq<Container>)
    requires cs != []
    ensures HasNilPort(cs)
       <==> HasNilPort(cs[..|cs| - 1]) || (cs[|cs| - 1].ports.Some? && None in cs[|cs| - 1].ports.value)
  {
    var front := cs[..|cs| - 1];
    assert forall k | 0 <= k < |front| :: front[k] == cs[k];
  }
}
