/** The connector checks over `server.xml`: an indexed loop per attribute, run over every document shape. */
module TomcatConnectors {
  import opened CheckLog
  import opened HdfStatus

  datatype Attribute = Server | XPoweredBy | AllowTrace

  /** A `Connector` element, by the attributes it carries. */
  type Connector = map<Attribute, string>

  /** The `Service` elements, each with its `Connector` children. */
  type Document = seq<seq<Connector>>

  /** Which connector: the service it is in, and its place there counted from 0. */
  datatype Place = Place(service: nat, index: nat)

  predicate Exists(doc: Document, p: Place) {
    p.service < |doc| && p.index < |doc[p.service]|
  }

  predicate Carries(doc: Document, p: Place, a: Attribute) {
    Exists(doc, p) && a in doc[p.service][p.index]
  }

  function ValueOf(doc: Document, p: Place, a: Attribute): string
    requires Carries(doc, p, a)
  {
    doc[p.service][p.index][a]
  }

  function Enumerate(service: nat, count: nat): seq<Place> {
    seq(count, k requires 0 <= k < count => Place(service, k))
  }

  /** `Server/Service/Connector` */
  function Connectors(doc: Document): seq<Place> {
    if doc == [] then [] else
      var n := |doc| - 1;
      Connectors(doc[..n]) + Enumerate(n, |doc[n]|)
  }

  /** `Server/Service/Connector[i]`: positions count from 1 within each parent (XPath 1.0, section 2.4). */
  function Selected(doc: Document, i: nat): seq<Place> {
    if doc == [] then [] else
      var n := |doc| - 1;
      Selected(doc[..n], i) + if 1 <= i <= |doc[n]| then [Place(n, i - 1)] else []
  }

  /** `…/@a` on the given connectors. */
  function Attrs(doc: Document, ps: seq<Place>, a: Attribute): seq<string> {
    if ps == [] then []
    else if Carries(doc, ps[0], a) then [ValueOf(doc, ps[0], a)] + Attrs(doc, ps[1..], a)
    else Attrs(doc, ps[1..], a)
  }

  function AttrsAt(doc: Document, i: nat, a: Attribute): seq<string> {
    Attrs(doc, Selected(doc, i), a)
  }

  // ---- The loops ----

  function ServerEntry(doc: Document, same: Comparison, i: nat): Entry {
    var found := AttrsAt(doc, i, Server);
    Describe([found != [], !Cmp(same, found, "Apache Tomcat")])
  }

  function FalseEntry(doc: Document, same: Comparison, a: Attribute, i: nat): Entry {
    var found := AttrsAt(doc, i, a);
    DescribeOne([[Cmp(same, found, "false")], [found == []]])
  }

  // One entry for each index 1..n.

  function ServerEntries(doc: Document, same: Comparison, n: nat): (log: seq<Entry>)
    ensures |log| == n && forall k | 0 <= k < n :: log[k] == ServerEntry(doc, same, k + 1)
  {
    seq(n, k requires 0 <= k < n => ServerEntry(doc, same, k + 1))
  }

  function FalseEntries(doc: Document, same: Comparison, a: Attribute, n: nat): (log: seq<Entry>)
    ensures |log| == n && forall k | 0 <= k < n :: log[k] == FalseEntry(doc, same, a, k + 1)
  {
    seq(n, k requires 0 <= k < n => FalseEntry(doc, same, a, k + 1))
  }

  function ServerLog(doc: Document, same: Comparison): seq<Entry> {
    ServerEntries(doc, same, |Connectors(doc)|)
  }

  function FalseLog(doc: Document, same: Comparison, a: Attribute): seq<Entry> {
    if Attrs(doc, Connectors(doc), a) != []
    then FalseEntries(doc, same, a, |Connectors(doc)|)
    else [Describe([true])]
  }

  lemma ServerStep(start: seq<Entry>, doc: Document, same: Comparison, n: nat)
    ensures start + ServerEntries(doc, same, n) + [ServerEntry(doc, same, n + 1)]
         == start + ServerEntries(doc, same, n + 1)
  {}

  lemma FalseStep(start: seq<Entry>, doc: Document, same: Comparison, a: Attribute, n: nat)
    ensures start + FalseEntries(doc, same, a, n) + [FalseEntry(doc, same, a, n + 1)]
         == start + FalseEntries(doc, same, a, n + 1)
  {}

  /** The number of connectors, service by service. */
  function ConnectorCount(doc: Document): nat {
    if doc == [] then 0 else ConnectorCount(doc[..|doc| - 1]) + |doc[|doc| - 1]|
  }

  lemma {:induction false} ConnectorsCounted(doc: Document)
    ensures |Connectors(doc)| == ConnectorCount(doc)
    decreases |doc|
  {
    if doc != [] { ConnectorsCounted(doc[..|doc| - 1]); }
  }

  /** Some connector of the document has the attribute. */
  ghost predicate Present(doc: Document, a: Attribute) {
    exists p :: Carries(doc, p, a)
  }

  /** What the loop leaves: a single passing check without the attribute, else a `describe.one` per connector. */
  ghost predicate LeavesFalseChecks(doc: Document, a: Attribute, log: seq<Entry>) {
    if !Present(doc, a) then log == [Describe([true])]
    else |log| == ConnectorCount(doc) && forall k | 0 <= k < |log| :: log[k].DescribeOne?
  }

  /** What the server loop leaves: two checks per connector. */
  ghost predicate LeavesServerChecks(doc: Document, log: seq<Entry>) {
    |log| == ConnectorCount(doc) && forall k | 0 <= k < |log| :: log[k].Describe? && |log[k].results| == 2
  }

  lemma FalseLogLeaves(doc: Document, same: Comparison, a: Attribute)
    ensures LeavesFalseChecks(doc, a, FalseLog(doc, same, a))
  {
    ConnectorsCounted(doc);
    NobodyCarries(doc, a);
  }

  lemma ServerLogLeaves(doc: Document, same: Comparison)
    ensures LeavesServerChecks(doc, ServerLog(doc, same))
  {
    ConnectorsCounted(doc);
  }

  /** The query for all attributes is empty exactly when no connector has one. */
  lemma NobodyCarries(doc: Document, a: Attribute)
    ensures Attrs(doc, Connectors(doc), a) == [] <==> !Present(doc, a)
  {
    var all := Connectors(doc);
    AttrsEmpty(doc, all, a);
    if p :| Carries(doc, p, a) {
      ConnectorsMean(doc, p);
      var k :| 0 <= k < |all| && all[k] == p;
      assert Carries(doc, all[k], a);
    }
  }

  /** The loop over `xpoweredBy` or `allowTrace`, and the fallback for documents without it. */
  method CheckFalse(doc: Document, same: Comparison, a: Attribute, report: Report)
    modifies report`log
    ensures report.log == old(report.log) + FalseLog(doc, same, a)
    ensures |old(report.log)| <= |report.log| && LeavesFalseChecks(doc, a, report.log[|old(report.log)|..])
  {
    var i: nat := 1;
    var all := Attrs(doc, Connectors(doc), a);
    if all != [] {
      var numConnectors := |Connectors(doc)|;
      while i <= numConnectors
        invariant 1 <= i <= numConnectors + 1
        invariant report.log == old(report.log) + FalseEntries(doc, same, a, i - 1)
        decreases numConnectors + 1 - i
      {
        var found := AttrsAt(doc, i, a);
        FalseStep(old(report.log), doc, same, a, i - 1);
        report.Emit(DescribeOne([[Cmp(same, found, "false")], [found == []]]));
        i := i + 1;
      }
    }
    if all == [] {
      report.Emit(Describe([all == []]));
    }
    FalseLogLeaves(doc, same, a);
    assert report.log[|old(report.log)|..] == FalseLog(doc, same, a);
  }

  /** Control M-2.6. */
  method AllowTraceControl(doc: Document, same: Comparison, report: Report)
    modifies report`log
    ensures report.log == old(report.log) + FalseLog(doc, same, AllowTrace)
    ensures Verdict(report.log)
       <==> Verdict(old(report.log)) && AbsentOrFalse(doc, same, AllowTrace) && NoCollision(doc, AllowTrace)
  {
    CheckFalse(doc, same, AllowTrace, report);
    FalseVerdict(doc, same, AllowTrace);
    VerdictOfConcat(old(report.log), FalseLog(doc, same, AllowTrace));
  }

  /** Control M-2.4. */
  method ServerControl(doc: Document, same: Comparison, report: Report)
    modifies report`log
    ensures report.log == old(report.log) + ServerLog(doc, same) + FalseLog(doc, same, XPoweredBy)
    ensures Verdict(report.log) <==> Verdict(old(report.log)) && OneService(doc)
                                     && ServersHidden(doc, same) && AbsentOrFalse(doc, same, XPoweredBy)
  {
    var serverIter: nat := 1;
    var numConnectors := |Connectors(doc)|;
    while serverIter <= numConnectors
      invariant 1 <= serverIter <= numConnectors + 1
      invariant report.log == old(report.log) + ServerEntries(doc, same, serverIter - 1)
      decreases numConnectors + 1 - serverIter
    {
      var found := AttrsAt(doc, serverIter, Server);
      ServerStep(old(report.log), doc, same, serverIter - 1);
      report.Emit(Describe([found != [], !Cmp(same, found, "Apache Tomcat")]));
      serverIter := serverIter + 1;
    }
    CheckFalse(doc, same, XPoweredBy, report);
    VerdictAfterServer(old(report.log), doc, same);
  }

  // ---- What the loops select ----

  lemma {:induction false} ConnectorsMean(doc: Document, p: Place)
    ensures p in Connectors(doc) <==> Exists(doc, p)
    decreases |doc|
  {
    if doc != [] {
      var n := |doc| - 1;
      ConnectorsMean(doc[..n], p);
      var last := Enumerate(n, |doc[n]|);
      if Exists(doc, p) && p.service == n { assert last[p.index] == p; }
    }
  }

  predicate Precedes(p: Place, q: Place) {
    p.service < q.service || (p.service == q.service && p.index < q.index)
  }

  /** The connectors come in document order. */
  lemma {:induction false} ConnectorsInOrder(doc: Document, i: nat, j: nat)
    requires i < j < |Connectors(doc)|
    ensures Precedes(Connectors(doc)[i], Connectors(doc)[j])
    decreases |doc|
  {
    var n := |doc| - 1;
    var front := Connectors(doc[..n]);
    if j < |front| {
      ConnectorsInOrder(doc[..n], i, j);
    } else if i < |front| {
      ConnectorsMean(doc[..n], front[i]);
    }
  }

  lemma {:induction false} ConnectorsBound(doc: Document, s: nat)
    requires s < |doc|
    ensures |doc[s]| <= |Connectors(doc)|
    decreases |doc|
  {
    var n := |doc| - 1;
    if s < n { ConnectorsBound(doc[..n], s); }
  }

  lemma {:induction false} TwoServicesBound(doc: Document, s: nat, t: nat)
    requires s < t < |doc|
    ensures |doc[s]| + |doc[t]| <= |Connectors(doc)|
    decreases |doc|
  {
    var n := |doc| - 1;
    if t < n { TwoServicesBound(doc[..n], s, t); } else { ConnectorsBound(doc[..n], s); }
  }

  /** How often `p` stands in the list. */
  function Occurrences(ps: seq<Place>, p: Place): nat {
    if ps == [] then 0
    else Occurrences(ps[..|ps| - 1], p) + if ps[|ps| - 1] == p then 1 else 0
  }

  lemma {:induction false} OccursIn(ps: seq<Place>, k: nat)
    requires k < |ps|
    ensures Occurrences(ps, ps[k]) >= 1
    decreases |ps|
  {
    if k < |ps| - 1 { OccursIn(ps[..|ps| - 1], k); }
  }

  lemma {:induction false} OccursTwice(ps: seq<Place>, j: nat, k: nat)
    requires j < k < |ps| && ps[j] == ps[k]
    ensures Occurrences(ps, ps[k]) >= 2
    decreases |ps|
  {
    var front := ps[..|ps| - 1];
    if k < |ps| - 1 { OccursTwice(front, j, k); } else { OccursIn(front, j); }
  }

  lemma {:induction false} OccursSomewhere(ps: seq<Place>, p: Place) returns (k: nat)
    requires Occurrences(ps, p) > 0
    ensures k < |ps| && ps[k] == p
    decreases |ps|
  {
    if ps[|ps| - 1] == p { k := |ps| - 1; } else { k := OccursSomewhere(ps[..|ps| - 1], p); }
  }

  /** Index `i` selects a connector once if it is its position in its own service, and otherwise not at all. */
  lemma {:induction false} SelectedMean(doc: Document, i: nat, p: Place)
    ensures Occurrences(Selected(doc, i), p) == if Exists(doc, p) && i == p.index + 1 then 1 else 0
    decreases |doc|
  {
    if doc != [] {
      var n := |doc| - 1;
      var before := Selected(doc[..n], i);
      SelectedMean(doc[..n], i, p);
      if 1 <= i <= |doc[n]| {
        assert (before + [Place(n, i - 1)])[..|before|] == before;
      } else {
        assert before + [] == before;
      }
    }
  }

  /** How often the loop selects connector `p` for i = 1..n. */
  function VisitCount(doc: Document, n: nat, p: Place): nat {
    if n == 0 then 0 else VisitCount(doc, n - 1, p) + Occurrences(Selected(doc, n), p)
  }

  lemma {:induction false} VisitsMean(doc: Document, n: nat, p: Place)
    ensures VisitCount(doc, n, p) == if Exists(doc, p) && p.index < n then 1 else 0
    decreases n
  {
    if n > 0 {
      VisitsMean(doc, n - 1, p);
      SelectedMean(doc, n, p);
    }
  }

  /** However the connectors are spread over services, the loop selects each of them exactly once. */
  lemma EachConnectorOnce(doc: Document, p: Place)
    ensures VisitCount(doc, |Connectors(doc)|, p) == if Exists(doc, p) then 1 else 0
  {
    VisitsMean(doc, |Connectors(doc)|, p);
    if Exists(doc, p) { ConnectorsBound(doc, p.service); }
  }

  // ---- What the verdicts decide ----

  lemma {:induction false} AttrsEmpty(doc: Document, ps: seq<Place>, a: Attribute)
    ensures Attrs(doc, ps, a) == [] <==> forall k | 0 <= k < |ps| :: !Carries(doc, ps[k], a)
    decreases |ps|
  {
    if ps != [] {
      AttrsEmpty(doc, ps[1..], a);
      if Carries(doc, ps[0], a) { assert Attrs(doc, ps, a) != []; }
      else if k :| 0 <= k < |ps| && Carries(doc, ps[k], a) { assert ps[1..][k - 1] == ps[k]; }
    }
  }

  lemma {:induction false} AttrsSingle(doc: Document, ps: seq<Place>, a: Attribute, k: nat)
    requires k < |ps| && Carries(doc, ps[k], a)
    ensures |Attrs(doc, ps, a)| == 1 <==> forall q | 0 <= q < |ps| && q != k :: !Carries(doc, ps[q], a)
    ensures |Attrs(doc, ps, a)| == 1 ==> Attrs(doc, ps, a)[0] == ValueOf(doc, ps[k], a)
    ensures Attrs(doc, ps, a) != []
    decreases |ps|
  {
    var rest := ps[1..];
    AttrsEmpty(doc, rest, a);
    forall q | 0 < q < |ps| ensures ps[q] == rest[q - 1] {}
    if k > 0 { AttrsSingle(doc, rest, a, k - 1); }
  }

  /** Another service has a connector at the same place that carries the attribute too. */
  predicate Collides(doc: Document, p: Place, a: Attribute) {
    exists s | 0 <= s < |doc| :: s != p.service && Carries(doc, Place(s, p.index), a)
  }

  lemma OthersEmpty(doc: Document, p: Place)
    requires OneService(doc) && Exists(doc, p)
    ensures forall s | 0 <= s < |doc| && s != p.service :: doc[s] == []
    ensures forall a :: !Collides(doc, p, a)
  {}

  /** The query at a connector's index: its own value alone, unless another service collides. */
  lemma QueryAt(doc: Document, p: Place, a: Attribute)
    requires Carries(doc, p, a)
    ensures var found := AttrsAt(doc, p.index + 1, a);
            && found != []
            && (|found| == 1 <==> !Collides(doc, p, a))
            && (|found| == 1 ==> found[0] == ValueOf(doc, p, a))
  {
    var i := p.index + 1;
    var ps := Selected(doc, i);
    SelectedMean(doc, i, p);
    var k := OccursSomewhere(ps, p);
    AttrsSingle(doc, ps, a, k);
    forall q | 0 <= q < |ps| && q != k ensures ps[q].service != p.service && ps[q].index == p.index {
      SelectedMean(doc, i, ps[q]);
      OccursIn(ps, q);
      if ps[q] == p && q < k { OccursTwice(ps, q, k); }
      if ps[q] == p && k < q { OccursTwice(ps, k, q); }
    }
    if s :| 0 <= s < |doc| && s != p.service && Carries(doc, Place(s, p.index), a) {
      SelectedMean(doc, i, Place(s, p.index));
      var q := OccursSomewhere(ps, Place(s, p.index));
      assert q != k && Carries(doc, ps[q], a);
    }
  }

  lemma QueryNothing(doc: Document, i: nat, a: Attribute)
    requires forall p | Exists(doc, p) && p.index + 1 == i :: !Carries(doc, p, a)
    ensures AttrsAt(doc, i, a) == []
  {
    var ps := Selected(doc, i);
    AttrsEmpty(doc, ps, a);
    forall k | 0 <= k < |ps| ensures !Carries(doc, ps[k], a) {
      SelectedMean(doc, i, ps[k]);
      OccursIn(ps, k);
    }
  }

  ghost predicate AbsentOrFalse(doc: Document, same: Comparison, a: Attribute) {
    forall p | Carries(doc, p, a) :: same(ValueOf(doc, p, a), "false")
  }

  ghost predicate NoCollision(doc: Document, a: Attribute) {
    forall p | Carries(doc, p, a) :: !Collides(doc, p, a)
  }

  lemma FalseEntryMeans(doc: Document, same: Comparison, a: Attribute, i: nat)
    ensures Passes(FalseEntry(doc, same, a, i))
       <==> forall p | Carries(doc, p, a) && p.index + 1 == i ::
              same(ValueOf(doc, p, a), "false") && !Collides(doc, p, a)
  {
    var found := AttrsAt(doc, i, a);
    var alts := [[Cmp(same, found, "false")], [found == []]];
    assert AllPass(alts[0]) <==> alts[0][0];
    assert AllPass(alts[1]) <==> alts[1][0];
    assert Passes(FalseEntry(doc, same, a, i)) <==> Cmp(same, found, "false") || found == [];
    forall q | Carries(doc, q, a) && q.index + 1 == i
      ensures found != []
      ensures Cmp(same, found, "false") <==> same(ValueOf(doc, q, a), "false") && !Collides(doc, q, a)
    {
      QueryAt(doc, q, a);
    }
    if !exists p :: Carries(doc, p, a) && p.index + 1 == i {
      QueryNothing(doc, i, a);
    }
  }

  /** On every document: the loop with its fallback passes exactly when each connector lacks the attribute
      or has it false, and no two connectors at the same place in different services both carry it. */
  lemma FalseVerdict(doc: Document, same: Comparison, a: Attribute)
    ensures Verdict(FalseLog(doc, same, a)) <==> AbsentOrFalse(doc, same, a) && NoCollision(doc, a)
  {
    var all := Connectors(doc);
    var log := FalseLog(doc, same, a);
    AttrsEmpty(doc, all, a);
    if Attrs(doc, all, a) == [] {
      forall p ensures !Carries(doc, p, a) {
        ConnectorsMean(doc, p);
        if Exists(doc, p) { var k :| 0 <= k < |all| && all[k] == p; }
      }
      assert log == [Describe([true])];
    } else {
      forall k | 0 <= k < |all|
        ensures Passes(log[k])
           <==> forall p | Carries(doc, p, a) && p.index == k ::
                  same(ValueOf(doc, p, a), "false") && !Collides(doc, p, a)
      {
        FalseEntryMeans(doc, same, a, k + 1);
      }
      forall p | Carries(doc, p, a) ensures p.index < |all| { ConnectorsBound(doc, p.service); }
      if Verdict(log) {
        forall p | Carries(doc, p, a) ensures same(ValueOf(doc, p, a), "false") && !Collides(doc, p, a) {
          assert Passes(log[p.index]);
        }
      }
    }
  }

  /** What Heimdall shows for M-2.6, on every document: never a Profile Error. */
  lemma FalseStatus(doc: Document, same: Comparison, a: Attribute, impact: real)
    requires impact != 0.0
    ensures StatusOf(FalseLog(doc, same, a), impact)
         == if AbsentOrFalse(doc, same, a) && NoCollision(doc, a) then StatusPassed else StatusFailed
  {
    FalseLogChecks(doc, same, a);
    StatusOfChecks(FalseLog(doc, same, a), impact);
    FalseVerdict(doc, same, a);
  }

  lemma FalseLogChecks(doc: Document, same: Comparison, a: Attribute)
    ensures FalseLog(doc, same, a) != [] && IsCheck(FalseLog(doc, same, a)[0])
  {
    FalseLogLeaves(doc, same, a);
    if p :| Carries(doc, p, a) {
      ConnectorsBound(doc, p.service);
      ConnectorsCounted(doc);
    }
  }

  /** With a single service: exactly the documented requirement. */
  lemma FalseVerdictOneService(doc: Document, same: Comparison, a: Attribute)
    requires |doc| == 1
    ensures Verdict(FalseLog(doc, same, a))
       <==> forall k | 0 <= k < |doc[0]| :: a in doc[0][k] ==> same(doc[0][k][a], "false")
  {
    FalseVerdict(doc, same, a);
    forall p | Carries(doc, p, a) ensures !Collides(doc, p, a) && p == Place(0, p.index) {}
    forall k | 0 <= k < |doc[0]| && a in doc[0][k] ensures Carries(doc, Place(0, k), a) {}
  }

  /** Two services whose only connectors both turn the trace off, as required: the control rejects them. */
  lemma CompliantServicesRejected(same: Comparison)
    requires same("false", "false")
    ensures var doc: Document := [[map[AllowTrace := "false"]], [map[AllowTrace := "false"]]];
            AbsentOrFalse(doc, same, AllowTrace) && !Verdict(FalseLog(doc, same, AllowTrace))
  {
    var doc: Document := [[map[AllowTrace := "false"]], [map[AllowTrace := "false"]]];
    FalseVerdict(doc, same, AllowTrace);
    assert Carries(doc, Place(0, 0), AllowTrace) && Carries(doc, Place(1, 0), AllowTrace);
    assert Collides(doc, Place(0, 0), AllowTrace);
  }

  ghost predicate ServersHidden(doc: Document, same: Comparison) {
    forall p | Exists(doc, p) :: Carries(doc, p, Server) && !same(ValueOf(doc, p, Server), "Apache Tomcat")
  }

  predicate OneService(doc: Document) {
    forall s, t | 0 <= s < t < |doc| :: doc[s] == [] || doc[t] == []
  }

  lemma ServerEntryMeans(doc: Document, same: Comparison, p: Place)
    requires OneService(doc) && Exists(doc, p)
    ensures Passes(ServerEntry(doc, same, p.index + 1))
       <==> Carries(doc, p, Server) && !same(ValueOf(doc, p, Server), "Apache Tomcat")
  {
    var found := AttrsAt(doc, p.index + 1, Server);
    var results := [found != [], !Cmp(same, found, "Apache Tomcat")];
    assert AllPass(results) <==> results[0] && results[1];
    OthersEmpty(doc, p);
    if Carries(doc, p, Server) {
      QueryAt(doc, p, Server);
    } else {
      forall q | Exists(doc, q) && q.index == p.index ensures q == p {}
      QueryNothing(doc, p.index + 1, Server);
    }
  }

  /** When two services have connectors the last index selects nothing, so the check fails. */
  lemma SeveralServicesFail(doc: Document, same: Comparison)
    requires !OneService(doc)
    ensures !Verdict(ServerLog(doc, same))
  {
    var n := |Connectors(doc)|;
    var s, t :| 0 <= s < t < |doc| && doc[s] != [] && doc[t] != [];
    forall p | Exists(doc, p) ensures p.index + 1 < n {
      var other := if p.service == s then t else s;
      if p.service < other {
        TwoServicesBound(doc, p.service, other);
      } else {
        TwoServicesBound(doc, other, p.service);
      }
    }
    TwoServicesBound(doc, s, t);
    QueryNothing(doc, n, Server);
    var entry := ServerEntry(doc, same, n);
    assert !entry.results[0];
    assert ServerLog(doc, same)[n - 1] == entry;
  }

  /** On every document: M-2.4 passes exactly when at most one service has connectors, each of them has a
      server attribute other than 'Apache Tomcat', and xpoweredBy is absent or false. */
  lemma ServerVerdict(doc: Document, same: Comparison)
    ensures Verdict(ServerLog(doc, same) + FalseLog(doc, same, XPoweredBy))
       <==> OneService(doc) && ServersHidden(doc, same) && AbsentOrFalse(doc, same, XPoweredBy)
  {
    VerdictOfConcat(ServerLog(doc, same), FalseLog(doc, same, XPoweredBy));
    FalseVerdict(doc, same, XPoweredBy);
    if !OneService(doc) {
      SeveralServicesFail(doc, same);
    } else {
      ServersOfOneService(doc, same);
      forall p | Carries(doc, p, XPoweredBy) ensures !Collides(doc, p, XPoweredBy) { OthersEmpty(doc, p); }
    }
  }

  /** What Heimdall shows for M-2.4, on every document: never a Profile Error. */
  lemma ServerStatus(doc: Document, same: Comparison, impact: real)
    requires impact != 0.0
    ensures StatusOf(ServerLog(doc, same) + FalseLog(doc, same, XPoweredBy), impact)
         == if OneService(doc) && ServersHidden(doc, same) && AbsentOrFalse(doc, same, XPoweredBy)
            then StatusPassed else StatusFailed
  {
    var before, last := ServerLog(doc, same), FalseLog(doc, same, XPoweredBy);
    FalseLogChecks(doc, same, XPoweredBy);
    assert (before + last)[|before|] == last[0];
    StatusOfChecks(before + last, impact);
    ServerVerdict(doc, same);
  }

  lemma VerdictAfterServer(before: seq<Entry>, doc: Document, same: Comparison)
    ensures Verdict(before + ServerLog(doc, same) + FalseLog(doc, same, XPoweredBy))
       <==> Verdict(before) && OneService(doc) && ServersHidden(doc, same) && AbsentOrFalse(doc, same, XPoweredBy)
  {
    ServerVerdict(doc, same);
    VerdictOfConcat(before + ServerLog(doc, same), FalseLog(doc, same, XPoweredBy));
    VerdictOfConcat(before, ServerLog(doc, same));
    VerdictOfConcat(ServerLog(doc, same), FalseLog(doc, same, XPoweredBy));
  }

  /** Two services whose only connectors both hide the server, as required: the control rejects them. */
  lemma HiddenServersRejected(doc: Document, same: Comparison)
    requires !same("hidden", "Apache Tomcat")
    requires |doc| == 2 && forall s | 0 <= s < 2 :: doc[s] == [map[Server := "hidden"]]
    ensures ServersHidden(doc, same) && AbsentOrFalse(doc, same, XPoweredBy)
    ensures !Verdict(ServerLog(doc, same) + FalseLog(doc, same, XPoweredBy))
  {
    assert doc[0] != [] && doc[1] != [];
    SeveralServicesFail(doc, same);
    VerdictOfConcat(ServerLog(doc, same), FalseLog(doc, same, XPoweredBy));
  }

  lemma ServersOfOneService(doc: Document, same: Comparison)
    requires OneService(doc)
    ensures Verdict(ServerLog(doc, same)) <==> ServersHidden(doc, same)
  {
    if Verdict(ServerLog(doc, same)) {
      forall p | Exists(doc, p)
        ensures Carries(doc, p, Server) && !same(ValueOf(doc, p, Server), "Apache Tomcat")
      {
        ConnectorsBound(doc, p.service);
        EntryPassed(doc, same, p.index);
        ServerEntryMeans(doc, same, p);
      }
    }
    if ServersHidden(doc, same) { PassedIfHidden(doc, same); }
  }

  lemma ServerLogAt(doc: Document, same: Comparison, k: nat)
    requires k < |Connectors(doc)|
    ensures |ServerLog(doc, same)| == |Connectors(doc)| && ServerLog(doc, same)[k] == ServerEntry(doc, same, k + 1)
  {}

  lemma EntryPassed(doc: Document, same: Comparison, k: nat)
    requires k < |Connectors(doc)| && Verdict(ServerLog(doc, same))
    ensures Passes(ServerEntry(doc, same, k + 1))
  {
    ServerLogAt(doc, same, k);
  }

  lemma EntryPassesIfHidden(doc: Document, same: Comparison, k: nat)
    requires OneService(doc) && ServersHidden(doc, same) && k < |Connectors(doc)|
    ensures Passes(ServerEntry(doc, same, k + 1))
  {
    var p := ConnectorPlace(doc, k);
    ServerEntryMeans(doc, same, p);
  }

  lemma ConnectorPlace(doc: Document, k: nat) returns (p: Place)
    requires OneService(doc) && k < |Connectors(doc)|
    ensures Exists(doc, p) && p.index == k
  {
    ConnectorsOfOneService(doc);
    var s :| 0 <= s < |doc| && |doc[s]| == |Connectors(doc)|;
    p := Place(s, k);
  }

  lemma PassedIfHidden(doc: Document, same: Comparison)
    requires OneService(doc) && ServersHidden(doc, same)
    ensures Verdict(ServerLog(doc, same))
  {
    forall k | 0 <= k < |ServerLog(doc, same)| ensures Passes(ServerLog(doc, same)[k]) {
      ServerLogAt(doc, same, k);
      EntryPassesIfHidden(doc, same, k);
    }
  }

  lemma {:induction false} ConnectorsOfOneService(doc: Document)
    requires OneService(doc)
    ensures Connectors(doc) != [] ==> exists s | 0 <= s < |doc| :: |doc[s]| == |Connectors(doc)|
    decreases |doc|
  {
    if doc != [] {
      var n := |doc| - 1;
      ConnectorsOfOneService(doc[..n]);
      if doc[n] != [] {
        NoConnectors(doc[..n]);
        assert |doc[n]| == |Connectors(doc)|;
      } else if Connectors(doc) != [] {
        var s :| 0 <= s < n && |doc[..n][s]| == |Connectors(doc[..n])|;
        assert |doc[s]| == |Connectors(doc)|;
      }
    }
  }

  lemma {:induction false} NoConnectors(doc: Document)
    requires forall s | 0 <= s < |doc| :: doc[s] == []
    ensures Connectors(doc) == []
    decreases |doc|
  {
    if doc != [] { NoConnectors(doc[..|doc| - 1]); }
  }
}
