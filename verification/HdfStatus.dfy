/** The status Heimdall computes for a control from its results and its impact. */
module HdfStatus {
  import opened CheckLog
  import opened Text

  datatype Segment = Passed | Failed | Skip | Error | NoStatus

  /** `FromProfile` is the status of a control that was never run. */
  datatype Status = NotApplicable | FromProfile | ProfileError | StatusPassed | StatusFailed | NotReviewed

  /** No result that says anything. */
  predicate Silent(segments: seq<Segment>) {
    Passed !in segments && Failed !in segments && Skip !in segments && Error !in segments
  }

  /** `compute_status`: each status, exactly when the documented rules give it. */
  function ComputeStatus(segments: seq<Segment>, waived: bool, impact: real): (r: Status)
    ensures r == NotApplicable <==> Error !in segments && (waived || impact == 0.0)
    ensures r == ProfileError <==> Error in segments || (!waived && impact != 0.0 && Silent(segments))
    ensures r == StatusFailed <==> !waived && impact != 0.0 && Error !in segments && Failed in segments
    ensures r == StatusPassed
       <==> !waived && impact != 0.0 && Error !in segments && Failed !in segments && Passed in segments
    ensures r == NotReviewed <==> !waived && impact != 0.0 && Skip in segments
                                  && Passed !in segments && Failed !in segments && Error !in segments
    ensures r != FromProfile
  {
    if Error in segments then ProfileError
    else if waived || impact == 0.0 then NotApplicable
    else if segments == [] then ProfileError
    else if Failed in segments then StatusFailed
    else if Passed in segments then StatusPassed
    else if Skip in segments then NotReviewed
    else ProfileError
  }

  function Results(rs: seq<bool>): (segments: seq<Segment>)
    ensures |segments| == |rs|
    ensures forall k | 0 <= k < |rs| :: segments[k] == if rs[k] then Passed else Failed
  {
    seq(|rs|, k requires 0 <= k < |rs| => if rs[k] then Passed else Failed)
  }

  /** The results one entry reports; `describe.one` counts as a single one. */
  function EntrySegments(e: Entry): seq<Segment> {
    match e
    case Describe(rs) => Results(rs)
    case DescribeOne(_) => [if Passes(e) then Passed else Failed]
    case Skipped => [Skip]
  }

  function Segments(log: seq<Entry>): seq<Segment> {
    if log == [] then [] else Segments(log[..|log| - 1]) + EntrySegments(log[|log| - 1])
  }

  lemma SegmentsStep(log: seq<Entry>, e: Entry)
    ensures Segments(log + [e]) == Segments(log) + EntrySegments(e)
  {
    assert (log + [e])[..|log|] == log;
  }

  lemma Regroup<T>(a: seq<T>, b: seq<T>, c: seq<T>)
    ensures (a + b) + c == a + (b + c)
  {}

  /** The results stand in the order of the entries. */
  lemma {:induction false} SegmentsInOrder(a: seq<Entry>, b: seq<Entry>)
    ensures Segments(a + b) == Segments(a) + Segments(b)
    decreases |b|
  {
    if b == [] {
      assert a + b == a;
    } else {
      var front, e := b[..|b| - 1], b[|b| - 1];
      SegmentsInOrder(a, front);
      SegmentsStep(a + front, e);
      SegmentsStep(front, e);
      Regroup(a, front, [e]);
      Regroup(Segments(a), Segments(front), EntrySegments(e));
      assert b == front + [e];
    }
  }

  predicate Reports(log: seq<Entry>, s: Segment) {
    exists k | 0 <= k < |log| :: s in EntrySegments(log[k])
  }

  lemma {:induction false} SegmentsReport(log: seq<Entry>, s: Segment)
    ensures s in Segments(log) <==> Reports(log, s)
    decreases |log|
  {
    if log != [] {
      SegmentsReport(log[..|log| - 1], s);
      ReportsStep(log, s);
    }
  }

  lemma ReportsStep(log: seq<Entry>, s: Segment)
    requires log != []
    ensures Reports(log, s) <==> Reports(log[..|log| - 1], s) || s in EntrySegments(log[|log| - 1])
  {
    var front := log[..|log| - 1];
    assert forall k | 0 <= k < |front| :: front[k] == log[k];
  }

  lemma EntryFails(e: Entry)
    ensures Failed in EntrySegments(e) <==> !Passes(e)
    ensures Error !in EntrySegments(e) && NoStatus !in EntrySegments(e)
  {
    match e
    case Describe(rs) =>
      if k :| 0 <= k < |rs| && !rs[k] { assert Results(rs)[k] == Failed; }
    case _ =>
  }

  /** What Heimdall shows for a control that was run: a failing check decides the status only
      if the impact was not set to zero. */
  lemma StatusOfLog(log: seq<Entry>, impact: real)
    ensures ComputeStatus(Segments(log), false, impact)
         == if impact == 0.0 then NotApplicable
            else if !Verdict(log) then StatusFailed
            else if Reports(log, Passed) then StatusPassed
            else if Reports(log, Skip) then NotReviewed
            else ProfileError
  {
    SegmentsReport(log, Failed);
    SegmentsReport(log, Passed);
    SegmentsReport(log, Skip);
    SegmentsReport(log, Error);
    forall k | 0 <= k < |log|
      ensures Failed in EntrySegments(log[k]) <==> !Passes(log[k])
      ensures Error !in EntrySegments(log[k])
    {
      EntryFails(log[k]);
    }
    assert Segments(log) == [] ==> Failed !in Segments(log) && Passed !in Segments(log) && Skip !in Segments(log);
  }

  /** The status of a finished control. */
  function StatusOf(log: seq<Entry>, impact: real): Status {
    ComputeStatus(Segments(log), false, impact)
  }

  /** The entry checks something. */
  predicate IsCheck(e: Entry) {
    e.DescribeOne? || (e.Describe? && e.results != [])
  }

  lemma CheckReports(e: Entry)
    requires IsCheck(e) && Passes(e)
    ensures Passed in EntrySegments(e)
  {
    if e.Describe? { assert e.results[0] && Results(e.results)[0] == Passed; }
  }

  /** A control that has checked something, and has an impact, is shown by its verdict. */
  lemma StatusOfChecks(log: seq<Entry>, impact: real)
    requires impact != 0.0 && exists k | 0 <= k < |log| :: IsCheck(log[k])
    ensures StatusOf(log, impact) == if Verdict(log) then StatusPassed else StatusFailed
  {
    StatusOfLog(log, impact);
    var k :| 0 <= k < |log| && IsCheck(log[k]);
    if Verdict(log) { CheckReports(log[k]); }
  }

  /** A control that has left nothing is an error of the profile. */
  lemma StatusOfNothing(impact: real)
    ensures StatusOf([], impact) == if impact == 0.0 then NotApplicable else ProfileError
  {
    StatusOfLog([], impact);
  }

  // ---- Precedence ----

  /** The documented order of severity, `Empty` (no control at all) coming before everything else. */
  function Precedence(s: Option<Status>): nat {
    match s
    case None => 0
    case Some(FromProfile) => 1
    case Some(NotApplicable) => 2
    case Some(NotReviewed) => 3
    case Some(StatusPassed) => 4
    case Some(StatusFailed) => 5
    case Some(ProfileError) => 6
  }

  /** No control, From Profile, Not Applicable, Not Reviewed, Passed, Failed, Profile Error. */
  lemma PrecedenceIsDocumented()
    ensures Precedence(None) < Precedence(Some(FromProfile)) < Precedence(Some(NotApplicable))
    ensures Precedence(Some(NotApplicable)) < Precedence(Some(NotReviewed)) < Precedence(Some(StatusPassed))
    ensures Precedence(Some(StatusPassed)) < Precedence(Some(StatusFailed)) < Precedence(Some(ProfileError))
  {}

  /** The worse of two statuses. */
  function Worse(a: Status, b: Status): Status {
    if Precedence(Some(a)) < Precedence(Some(b)) then b else a
  }

  /** The status of two lists of results together is the worse of their statuses exactly when the control was
      waived or has no impact, or there is an error, or both say something, or neither does. */
  lemma StatusOfConcat(a: seq<Segment>, b: seq<Segment>, waived: bool, impact: real)
    ensures ComputeStatus(a + b, waived, impact)
         == Worse(ComputeStatus(a, waived, impact), ComputeStatus(b, waived, impact))
       <==> waived || impact == 0.0 || Error in a + b || (Silent(a) <==> Silent(b))
  {
    forall s ensures s in a + b <==> s in a || s in b {}
  }

  function Flatten(parts: seq<seq<Segment>>): seq<Segment> {
    if parts == [] then [] else Flatten(parts[..|parts| - 1]) + parts[|parts| - 1]
  }

  /** The worst status among the parts. */
  function WorstOf(parts: seq<seq<Segment>>, waived: bool, impact: real): Status
    requires parts != []
  {
    var n := |parts| - 1;
    var last := ComputeStatus(parts[n], waived, impact);
    if n == 0 then last else Worse(WorstOf(parts[..n], waived, impact), last)
  }

  predicate AllSilent(parts: seq<seq<Segment>>) {
    forall k | 0 <= k < |parts| :: Silent(parts[k])
  }

  predicate NoneSilent(parts: seq<seq<Segment>>) {
    forall k | 0 <= k < |parts| :: !Silent(parts[k])
  }

  predicate AnyError(parts: seq<seq<Segment>>) {
    exists k | 0 <= k < |parts| :: Error in parts[k]
  }

  /** What the whole and the worst part come to, by what the parts say. */
  lemma {:induction false} WholeAndWorst(parts: seq<seq<Segment>>, waived: bool, impact: real)
    requires parts != []
    ensures Silent(Flatten(parts)) <==> AllSilent(parts)
    ensures Error in Flatten(parts) <==> AnyError(parts)
    ensures var worst := WorstOf(parts, waived, impact);
            if AnyError(parts) then worst == ProfileError
            else if waived || impact == 0.0 then worst == NotApplicable
            else if NoneSilent(parts) then worst == ComputeStatus(Flatten(parts), waived, impact)
            else worst == ProfileError
    decreases |parts|
  {
    var n := |parts| - 1;
    var front, last := parts[..n], parts[n];
    PartsStep(parts);
    StatusOfConcat(Flatten(front), last, waived, impact);
    forall s ensures s in Flatten(parts) <==> s in Flatten(front) || s in last {}
    if n > 0 {
      WholeAndWorst(front, waived, impact);
    } else {
      assert front == [] && Flatten(front) == [];
    }
  }

  lemma PartsStep(parts: seq<seq<Segment>>)
    requires parts != []
    ensures var front, last := parts[..|parts| - 1], parts[|parts| - 1];
            && (AllSilent(parts) <==> AllSilent(front) && Silent(last))
            && (NoneSilent(parts) <==> NoneSilent(front) && !Silent(last))
            && (AnyError(parts) <==> AnyError(front) || Error in last)
  {
    var front := parts[..|parts| - 1];
    assert forall k | 0 <= k < |front| :: front[k] == parts[k];
  }

  /** However the results of a control are split into parts, the status of the whole is the worst of the
      statuses of the parts exactly when the control was waived or has no impact, or there is an error, or
      all parts say something, or none does. */
  lemma StatusOfParts(parts: seq<seq<Segment>>, waived: bool, impact: real)
    requires parts != []
    ensures ComputeStatus(Flatten(parts), waived, impact) == WorstOf(parts, waived, impact)
       <==> waived || impact == 0.0 || AnyError(parts) || AllSilent(parts) || NoneSilent(parts)
  {
    WholeAndWorst(parts, waived, impact);
  }

  /** A part without results beside a passed one: the whole has passed, the worst part is a Profile Error. */
  lemma EmptyPartIsWorse()
    ensures var parts := [[], [Passed]];
            && ComputeStatus(Flatten(parts), false, 1.0) == StatusPassed
            && WorstOf(parts, false, 1.0) == ProfileError
  {
    var parts: seq<seq<Segment>> := [[], [Passed]];
    assert Silent(parts[0]) && !Silent(parts[1]);
    WholeAndWorst(parts, false, 1.0);
    assert parts[..1] == [[]] && parts[..1][..0] == [];
    assert Flatten([[]]) == Flatten(parts[..1][..0]) + [] == [];
    assert Flatten(parts) == [] + [Passed];
  }

  // ---- The status of a group ----

  /** `compare_statuses`, in the sense of its sign. */
  function CompareStatuses(a: Option<Status>, b: Option<Status>): int {
    Precedence(a) as int - Precedence(b) as int
  }

  /** `updateStatus`: the group's status after a control joins it. */
  function UpdateStatus(group: Option<Status>, control: Status): Option<Status> {
    if CompareStatuses(group, Some(control)) > 0 then Some(control) else group
  }

  /** The group's status after all of these have joined it, one after the other. */
  function GroupStatus(group: Option<Status>, controls: seq<Status>): Option<Status>
    decreases |controls|
  {
    if controls == [] then group else GroupStatus(UpdateStatus(group, controls[0]), controls[1..])
  }

  /** The group began as `s`, or a control with status `s` joined it. */
  predicate Among(s: Option<Status>, group: Option<Status>, controls: seq<Status>) {
    s == group || (s.Some? && s.value in controls)
  }

  lemma {:induction false} GroupIsLeast(group: Option<Status>, controls: seq<Status>)
    ensures var r := GroupStatus(group, controls);
            && Among(r, group, controls)
            && forall s | Among(s, group, controls) :: Precedence(r) <= Precedence(s)
    decreases |controls|
  {
    if controls != [] {
      var next := UpdateStatus(group, controls[0]);
      GroupIsLeast(next, controls[1..]);
      forall s | Among(s, group, controls)
        ensures Precedence(GroupStatus(group, controls)) <= Precedence(s)
      {
        if Among(s, next, controls[1..]) {} else { assert Among(next, next, controls[1..]); }
      }
    }
  }

  /** Whatever a group starts from and whatever joins it, in whatever order, it ends with the mildest status of
      all, so an empty group stays empty; that is the worst, as documented, exactly when all are the same. */
  lemma {:induction false} GroupStatusIsMildest(group: Option<Status>, controls: seq<Status>, m: Option<Status>)
    ensures m == GroupStatus(group, controls)
       <==> Among(m, group, controls) && forall s | Among(s, group, controls) :: Precedence(m) <= Precedence(s)
    ensures (forall s | Among(s, group, controls) :: Precedence(s) <= Precedence(GroupStatus(group, controls)))
       <==> forall s | Among(s, group, controls) :: s == group
    ensures group.None? ==> GroupStatus(group, controls) == None
  {
    var r := GroupStatus(group, controls);
    GroupIsLeast(group, controls);
    assert Among(group, group, controls);
    if forall s | Among(s, group, controls) :: Precedence(s) <= Precedence(r) {
      forall s | Among(s, group, controls) ensures s == group {
        PrecedenceIsOrder(s, r);
        PrecedenceIsOrder(group, r);
      }
    }
    if Among(m, group, controls) && forall s | Among(s, group, controls) :: Precedence(m) <= Precedence(s) {
      PrecedenceIsOrder(m, r);
    }
  }

  /** No two statuses have the same precedence. */
  lemma PrecedenceIsOrder(a: Option<Status>, b: Option<Status>)
    ensures Precedence(a) == Precedence(b) ==> a == b
  {}
}
