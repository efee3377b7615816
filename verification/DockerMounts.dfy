/** The sensitive-mount controls, and what Heimdall shows for all four container controls. */
module DockerMounts {
  import opened Regex
  import opened Matching
  import opened Text
  import opened CheckLog
  import opened HdfStatus
  import opened Docker

  const FRAGMENTS: seq<string> := ["/boot", "/dev", "/etc", "/lib", "/proc", "/sys", "/usr"]

  function MountEntry(source: string): Entry {
    Describe([source != "/"] + seq(|FRAGMENTS|, k requires 0 <= k < |FRAGMENTS| => !Search(Lit(FRAGMENTS[k]), source)))
  }

  function MountsLog(mounts: seq<string>): (log: seq<Entry>)
    ensures |log| == |mounts| && forall k | 0 <= k < |mounts| :: log[k] == MountEntry(mounts[k])
  {
    seq(|mounts|, k requires 0 <= k < |mounts| => MountEntry(mounts[k]))
  }

  /** `noMounts` is what a container without mounts emits. */
  function AllMountsLog(cs: seq<Container>, noMounts: seq<Entry>): seq<Entry> {
    if cs == [] then []
    else
      var mounts := cs[|cs| - 1].mounts;
      AllMountsLog(cs[..|cs| - 1], noMounts) + if mounts == [] then noMounts else MountsLog(mounts)
  }

  function DockerMountsLog(cs: seq<Container>): seq<Entry> {
    AllMountsLog(cs, [])
  }

  function CeMountsLog(cs: seq<Container>): seq<Entry> {
    if cs == [] then [Skipped] else AllMountsLog(cs, [Skipped])
  }

  /** There is no container, or one of them has no mounts. */
  predicate SomethingUnmounted(cs: seq<Container>) {
    cs == [] || HasUnmounted(cs)
  }

  predicate HasUnmounted(cs: seq<Container>) {
    exists c | 0 <= c < |cs| :: cs[c].mounts == []
  }

  lemma MountsStep(start: seq<Entry>, cs: seq<Container>, noMounts: seq<Entry>, c: nat)
    requires c < |cs|
    ensures start + AllMountsLog(cs[..c + 1], noMounts)
         == start + AllMountsLog(cs[..c], noMounts) + if cs[c].mounts == [] then noMounts else MountsLog(cs[c].mounts)
  {
    assert cs[..c + 1][..c] == cs[..c];
    var emitted := if cs[c].mounts == [] then noMounts else MountsLog(cs[c].mounts);
    assert AllMountsLog(cs[..c + 1], noMounts) == AllMountsLog(cs[..c], noMounts) + emitted;
    Assoc(start, AllMountsLog(cs[..c], noMounts), emitted);
  }

  method EmitMounts(mounts: seq<string>, report: Report)
    modifies report`log
    ensures report.log == old(report.log) + MountsLog(mounts)
  {
    for m := 0 to |mounts|
      invariant report.log == old(report.log) + MountsLog(mounts)[..m]
    {
      report.Emit(MountEntry(mounts[m]));
      assert MountEntry(mounts[m]) == MountsLog(mounts)[m];
    }
  }

  /** Control docker-5.5. */
  method DockerMountsControl(cs: seq<Container>, report: Report)
    modifies report`log
    ensures report.log == old(report.log) + DockerMountsLog(cs)
  {
    for c := 0 to |cs|
      invariant report.log == old(report.log) + AllMountsLog(cs[..c], [])
    {
      MountsStep(old(report.log), cs, [], c);
      EmitMounts(cs[c].mounts, report);
    }
    assert cs[..|cs|] == cs;
  }

  /** Control M-5.5: a container without mounts sets the impact of the whole control to zero. */
  method CeMountsControl(cs: seq<Container>, report: Report)
    modifies report
    ensures report.log == old(report.log) + CeMountsLog(cs)
    ensures report.impact == if SomethingUnmounted(cs) then 0.0 else old(report.impact)
    ensures cs == [] ==> report.log == old(report.log) + [Skipped]
  {
    if cs != [] {
      for c := 0 to |cs|
        invariant report.log == old(report.log) + AllMountsLog(cs[..c], [Skipped])
        invariant report.impact
               == if exists q | 0 <= q < c :: cs[q].mounts == [] then 0.0 else old(report.impact)
      {
        MountsStep(old(report.log), cs, [Skipped], c);
        if cs[c].mounts != [] {
          EmitMounts(cs[c].mounts, report);
        } else {
          report.impact := 0.0;
          report.Emit(Skipped);
        }
      }
      assert cs[..|cs|] == cs;
    } else {
      report.impact := 0.0;
      report.Emit(Skipped);
    }
  }

  // ---- What they decide ----

  predicate Sensitive(source: string) {
    || source == "/" || Occurs("/boot", source) || Occurs("/dev", source) || Occurs("/etc", source)
    || Occurs("/lib", source) || Occurs("/proc", source) || Occurs("/sys", source) || Occurs("/usr", source)
  }

  lemma SensitiveIsListed(source: string)
    ensures Sensitive(source) <==> source == "/" || exists k | 0 <= k < |FRAGMENTS| :: Occurs(FRAGMENTS[k], source)
  {
    assert |FRAGMENTS| == 7;
    assert FRAGMENTS[0] == "/boot" && FRAGMENTS[1] == "/dev" && FRAGMENTS[2] == "/etc" && FRAGMENTS[3] == "/lib"
           && FRAGMENTS[4] == "/proc" && FRAGMENTS[5] == "/sys" && FRAGMENTS[6] == "/usr";
  }

  predicate SomeSensitive(mounts: seq<string>) {
    exists m | 0 <= m < |mounts| :: Sensitive(mounts[m])
  }

  predicate MountsSensitive(cs: seq<Container>) {
    exists c | 0 <= c < |cs| :: SomeSensitive(cs[c].mounts)
  }

  predicate AnyMount(cs: seq<Container>) {
    exists c | 0 <= c < |cs| :: cs[c].mounts != []
  }

  lemma MountEntryMeans(source: string)
    ensures Passes(MountEntry(source)) <==> !Sensitive(source)
  {
    var rs := MountEntry(source).results;
    SensitiveIsListed(source);
    forall k | 0 <= k < |FRAGMENTS| ensures rs[k + 1] <==> !Occurs(FRAGMENTS[k], source) {
      LitSearch(FRAGMENTS[k], source);
    }
    if AllPass(rs) {
      assert rs[0];
      forall k | 0 <= k < |FRAGMENTS| ensures !Occurs(FRAGMENTS[k], source) { assert rs[k + 1]; }
    }
    if !Sensitive(source) {
      forall q | 0 <= q < |rs| ensures rs[q] {
        if q > 0 { assert rs[(q - 1) + 1]; }
      }
    }
  }

  /** What a log of mount checks reports: failures, passes and skips. */
  predicate Summary(log: seq<Entry>, sensitive: bool, clean: bool, skip: bool) {
    && (Verdict(log) <==> !sensitive)
    && (!sensitive ==> (Reports(log, Passed) <==> clean))
    && (Reports(log, Skip) <==> skip)
  }

  lemma SummaryConcat(a: seq<Entry>, b: seq<Entry>, sa: bool, ca: bool, ka: bool, sb: bool, cb: bool, kb: bool)
    requires Summary(a, sa, ca, ka) && Summary(b, sb, cb, kb)
    ensures Summary(a + b, sa || sb, ca || cb, ka || kb)
  {
    VerdictOfConcat(a, b);
    ReportsConcat(a, b, Passed);
    ReportsConcat(a, b, Skip);
  }

  lemma ReportsConcat(a: seq<Entry>, b: seq<Entry>, s: Segment)
    ensures Reports(a + b, s) <==> Reports(a, s) || Reports(b, s)
  {
    if k :| 0 <= k < |a| && s in EntrySegments(a[k]) { assert (a + b)[k] == a[k]; }
    if k :| 0 <= k < |b| && s in EntrySegments(b[k]) { assert (a + b)[|a| + k] == b[k]; }
  }

  lemma SummaryOfMounts(mounts: seq<string>)
    ensures Summary(MountsLog(mounts), SomeSensitive(mounts), mounts != [], false)
  {
    var log := MountsLog(mounts);
    forall m | 0 <= m < |mounts|
      ensures Passes(log[m]) <==> !Sensitive(mounts[m])
      ensures Passes(log[m]) ==> Passed in EntrySegments(log[m])
      ensures Skip !in EntrySegments(log[m])
    {
      MountEntryMeans(mounts[m]);
      assert EntrySegments(log[m])[0] == if log[m].results[0] then Passed else Failed;
    }
    if mounts != [] && Verdict(log) { assert Passes(log[0]); }
  }

  lemma {:induction false} SummaryOfContainers(cs: seq<Container>, noMounts: seq<Entry>)
    requires noMounts == [] || noMounts == [Skipped]
    ensures Summary(AllMountsLog(cs, noMounts), MountsSensitive(cs), AnyMount(cs), noMounts != [] && HasUnmounted(cs))
    decreases |cs|
  {
    if cs != [] {
      var front, mounts := cs[..|cs| - 1], cs[|cs| - 1].mounts;
      SummaryOfContainers(front, noMounts);
      SummaryOfMounts(mounts);
      SkippedSummary(noMounts);
      SummaryConcat(AllMountsLog(front, noMounts), if mounts == [] then noMounts else MountsLog(mounts),
        MountsSensitive(front), AnyMount(front), noMounts != [] && HasUnmounted(front),
        SomeSensitive(mounts), mounts != [], noMounts != [] && mounts == []);
      MountsSplit(cs);
    }
  }

  lemma SkippedSummary(log: seq<Entry>)
    requires log == [] || log == [Skipped]
    ensures Summary(log, false, false, log != [])
  {
    if log != [] { assert Skip in EntrySegments(log[0]); }
  }

  lemma MountsSplit(cs: seq<Container>)
    requires cs != []
    ensures var front, mounts := cs[..|cs| - 1], cs[|cs| - 1].mounts;
            && (MountsSensitive(cs) <==> MountsSensitive(front) || SomeSensitive(mounts))
            && (AnyMount(cs) <==> AnyMount(front) || mounts != [])
            && (HasUnmounted(cs) <==> HasUnmounted(front) || mounts == [])
  {
    var front := cs[..|cs| - 1];
    assert forall c | 0 <= c < |front| :: front[c] == cs[c];
  }

  function MountCount(cs: seq<Container>): nat {
    if cs == [] then 0 else MountCount(cs[..|cs| - 1]) + |cs[|cs| - 1].mounts|
  }

  function UnmountedCount(cs: seq<Container>): nat {
    if cs == [] then 0 else UnmountedCount(cs[..|cs| - 1]) + if cs[|cs| - 1].mounts == [] then 1 else 0
  }

  /** Each entry is a skip or eight checks. */
  predicate EightChecks(log: seq<Entry>) {
    forall k | 0 <= k < |log| :: log[k].Skipped? || (log[k].Describe? && |log[k].results| == 8)
  }

  /** One entry of eight checks per mount, and one more per container without mounts where those are skipped. */
  lemma {:induction false} MountsCounted(cs: seq<Container>, noMounts: seq<Entry>)
    requires noMounts == [] || noMounts == [Skipped]
    ensures |AllMountsLog(cs, noMounts)| == MountCount(cs) + if noMounts == [] then 0 else UnmountedCount(cs)
    ensures EightChecks(AllMountsLog(cs, noMounts))
    decreases |cs|
  {
    if cs != [] {
      MountsCounted(cs[..|cs| - 1], noMounts);
    }
  }

  /** Both mount controls fail on the same container lists. */
  lemma MountControlsAgree(cs: seq<Container>)
    ensures Verdict(CeMountsLog(cs)) <==> !MountsSensitive(cs)
    ensures Verdict(DockerMountsLog(cs)) <==> !MountsSensitive(cs)
  {
    SummaryOfContainers(cs, []);
    SummaryOfContainers(cs, [Skipped]);
    SkippedSummary([Skipped]);
  }

  // ---- What Heimdall shows ----

  /** The impact M-5.5 ends with. */
  function CeMountsImpact(cs: seq<Container>, impact: real): real {
    if SomethingUnmounted(cs) then 0.0 else impact
  }

  /** For M-5.5 one container without mounts hides every sensitive mount of the others:
      the status is Failed exactly when there is a sensitive mount and every container has mounts. */
  lemma {:induction false} CeMountsStatus(cs: seq<Container>, impact: real)
    requires impact != 0.0
    ensures StatusOf(CeMountsLog(cs), CeMountsImpact(cs, impact))
         == if SomethingUnmounted(cs) then NotApplicable
            else if MountsSensitive(cs) then StatusFailed else StatusPassed
  {
    StatusOfLog(CeMountsLog(cs), CeMountsImpact(cs, impact));
    SummaryOfContainers(cs, [Skipped]);
    if !SomethingUnmounted(cs) { assert cs[0].mounts != []; }
  }

  lemma DockerMountsStatus(cs: seq<Container>)
    ensures StatusOf(DockerMountsLog(cs), 1.0)
         == if MountsSensitive(cs) then StatusFailed else if AnyMount(cs) then StatusPassed else ProfileError
  {
    StatusOfLog(DockerMountsLog(cs), 1.0);
    SummaryOfContainers(cs, []);
  }

  /** One container mounts /etc, the other mounts nothing: the check fails and is shown as Not Applicable. */
  lemma {:induction false} SensitiveMountHidden()
    ensures var cs := [Container(None, ["/etc"]), Container(None, [])];
            !Verdict(CeMountsLog(cs)) && StatusOf(CeMountsLog(cs), CeMountsImpact(cs, 0.5)) == NotApplicable
  {
    var cs := [Container(None, ["/etc"]), Container(None, [])];
    MountControlsAgree(cs);
    CeMountsStatus(cs, 0.5);
    assert OccursAt(FRAGMENTS[2], "/etc", 0);
    assert Sensitive(cs[0].mounts[0]);
    assert cs[1].mounts == [];
  }

  /** Although both controls fail on the same lists, they show the same status exactly when there is
      a container and every container has mounts. */
  lemma MountStatusesAgree(cs: seq<Container>)
    ensures StatusOf(CeMountsLog(cs), CeMountsImpact(cs, 0.5)) == StatusOf(DockerMountsLog(cs), 1.0)
       <==> !SomethingUnmounted(cs)
  {
    CeMountsStatus(cs, 0.5);
    DockerMountsStatus(cs);
    if !SomethingUnmounted(cs) { assert cs[0].mounts != []; }
  }

  // ---- The same for the port controls ----

  lemma SummaryOfHosts(hosts: seq<Host>)
    ensures Summary(HostsLog(hosts), exists h | h in hosts :: Privileged(h), hosts != [], false)
  {
    var log := HostsLog(hosts);
    HostsVerdict(hosts);
    forall k | 0 <= k < |log|
      ensures Skip !in EntrySegments(log[k]) && (Passes(log[k]) ==> Passed in EntrySegments(log[k]))
    {
      assert EntrySegments(log[k])[0] == if log[k].results[0] then Passed else Failed;
    }
    if hosts != [] && Verdict(log) { assert Passes(log[0]); }
  }

  lemma {:induction false} SkipsReport(log: seq<Entry>)
    ensures Reports(log, Passed) <==> Reports(WithoutSkips(log), Passed)
    ensures Reports(log, Skip) <==> Skipped in log || Reports(WithoutSkips(log), Skip)
    decreases |log|
  {
    if log != [] {
      var front, last := log[..|log| - 1], log[|log| - 1];
      SkipsReport(front);
      ReportsStep(log, Passed);
      ReportsStep(log, Skip);
      assert log == front + [last];
      if last == Skipped {
        assert WithoutSkips(log) == WithoutSkips(front);
      } else {
        ReportsPush(WithoutSkips(front), last, Passed);
        ReportsPush(WithoutSkips(front), last, Skip);
      }
    }
  }

  lemma ReportsPush(log: seq<Entry>, e: Entry, s: Segment)
    ensures Reports(log + [e], s) <==> Reports(log, s) || s in EntrySegments(e)
  {
    assert (log + [e])[..|log|] == log;
    ReportsStep(log + [e], s);
  }

  lemma {:induction false} SummaryOfPorts(cs: seq<Container>, nilEntry: seq<Entry>)
    requires nilEntry == [] || nilEntry == [Skipped]
    ensures Summary(ContainersLog(cs, nilEntry), exists h | h in Bindings(cs) :: Privileged(h),
              Bindings(cs) != [], nilEntry != [] && HasNilPort(cs))
  {
    var log := ContainersLog(cs, nilEntry);
    EveryBindingOnce(cs, nilEntry);
    SkipsPass(log);
    SkipsReport(log);
    ContainersReport(cs, nilEntry);
    SummaryOfHosts(Bindings(cs));
  }

  /** The statuses of the port controls, and exactly when they agree: there is a container, and either
      something is published or no port is known to be unpublished. */
  lemma {:induction false} PortStatuses(cs: seq<Container>)
    ensures var privileged := exists h | h in Bindings(cs) :: Privileged(h);
            var ce := StatusOf(CePortsLog(cs), if cs == [] then 0.0 else 0.5);
            var docker := StatusOf(DockerPortsLog(cs), 1.0);
            && ce == (if cs == [] then NotApplicable else if privileged then StatusFailed
                      else if Bindings(cs) != [] then StatusPassed
                      else if HasNilPort(cs) then NotReviewed else ProfileError)
            && docker == (if privileged then StatusFailed
                          else if Bindings(cs) != [] then StatusPassed else ProfileError)
            && (ce == docker <==> cs != [] && (Bindings(cs) != [] || !HasNilPort(cs)))
  {
    StatusOfLog(CePortsLog(cs), if cs == [] then 0.0 else 0.5);
    StatusOfLog(DockerPortsLog(cs), 1.0);
    SummaryOfPorts(cs, []);
    SummaryOfPorts(cs, [Skipped]);
  }
}
