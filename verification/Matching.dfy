/** Unanchored search, first matches, captures and deletion, built on `Regex.Ends`,
    and what they amount to for the shapes of expression the profiles use. */
module Matching {
  import opened Regex

  predicate Accepts(re: Re, s: string, i: nat)
    requires i <= |s|
  {
    Ends(re, s, i) != []
  }

  /** `s.match(re)` is not nil. */
  predicate Search(re: Re, s: string) {
    exists i | 0 <= i <= |s| :: Accepts(re, s, i)
  }

  /** The match an engine reports at `i`: the first in backtracking order. */
  function First(re: Re, s: string, i: nat): (m: Match)
    requires i <= |s| && Accepts(re, s, i)
    ensures i <= m.end <= |s|
  {
    Ends(re, s, i)[0]
  }

  /** `s.scan(re)` from `i` on: the text of capture `id` in each leftmost, non-overlapping match. */
  function Scan(re: Re, id: nat, s: string, i: nat): seq<string>
    requires i <= |s|
    decreases |s| - i
  {
    var rest := if i == |s| then [] else Scan(re, id, s, i + 1);
    if !Accepts(re, s, i) then rest
    else
      var m := First(re, s, i);
      var text := if id in m.caps then m.caps[id] else "";
      [text] + if m.end == i then rest else Scan(re, id, s, m.end)
  }

  /** `s.gsub(re, '')` from `i` on. */
  function Delete(re: Re, s: string, i: nat): string
    requires i <= |s|
    decreases |s| - i
  {
    if i == |s| then ""
    else if Accepts(re, s, i) && First(re, s, i).end > i then Delete(re, s, First(re, s, i).end)
    else [s[i]] + Delete(re, s, i + 1)
  }

  lemma AcceptsMeans(re: Re, s: string, i: nat)
    requires i <= |s|
    ensures Accepts(re, s, i) <==> exists j | i <= j <= |s| :: Denotes(re, s, i, j)
  {
    if Accepts(re, s, i) {
      var m := First(re, s, i);
      assert EndsAt(Ends(re, s, i), m.end);
      EndsAreDenotations(re, s, i, m.end);
    }
    if j :| i <= j <= |s| && Denotes(re, s, i, j) {
      EndsAreDenotations(re, s, i, j);
    }
  }

  lemma DenotesAccepts(re: Re, s: string, i: nat, j: nat)
    requires i <= j <= |s| && Denotes(re, s, i, j)
    ensures Accepts(re, s, i)
  {
    EndsAreDenotations(re, s, i, j);
  }

  /** An unanchored search finds a match exactly when some part of the text is in the language. */
  lemma SearchMeans(re: Re, s: string)
    ensures Search(re, s) <==> exists i: nat, j: nat | i <= j <= |s| :: Denotes(re, s, i, j)
  {
    if Search(re, s) {
      var i :| 0 <= i <= |s| && Accepts(re, s, i);
      AcceptsMeans(re, s, i);
      var j :| i <= j <= |s| && Denotes(re, s, i, j);
    }
    if i: nat, j: nat :| i <= j <= |s| && Denotes(re, s, i, j) {
      DenotesAccepts(re, s, i, j);
    }
  }

  lemma LitSearch(w: string, s: string)
    ensures Search(Lit(w), s) <==> Occurs(w, s)
  {
    forall i | 0 <= i <= |s| ensures Accepts(Lit(w), s, i) <==> OccursAt(w, s, i) {}
  }

  // ---- Sequencing: where the parts of a match may lie ----

  /** Some match of `ms` can be continued by `re`. */
  predicate CanContinue(ms: seq<Match>, re: Re, s: string)
    requires Between(ms, 0, |s|)
  {
    exists k | 0 <= k < |ms| :: Accepts(re, s, ms[k].end)
  }

  lemma {:induction false} ChainAccepts(ms: seq<Match>, re: Re, s: string, lo: nat)
    requires lo <= |s| && Between(ms, lo, |s|)
    ensures Chain(ms, re, s, lo) != [] <==> CanContinue(ms, re, s)
    decreases |ms|
  {
    if ms != [] {
      ChainAccepts(ms[1..], re, s, lo);
      CanContinueStep(ms, re, s);
    }
  }

  lemma CanContinueStep(ms: seq<Match>, re: Re, s: string)
    requires ms != [] && Between(ms, 0, |s|)
    ensures CanContinue(ms, re, s) <==> Accepts(re, s, ms[0].end) || CanContinue(ms[1..], re, s)
  {
    var rest := ms[1..];
    if k :| 0 <= k < |rest| && Accepts(re, s, rest[k].end) { assert ms[k + 1] == rest[k]; }
    if k :| 0 <= k < |ms| && Accepts(re, s, ms[k].end) {
      if k > 0 { assert rest[k - 1] == ms[k]; }
    }
  }

  /** The first match of a chain continues the first candidate that can be continued. */
  lemma {:induction false} ChainFirst(ms: seq<Match>, re: Re, s: string, lo: nat, k: nat)
    requires lo <= |s| && Between(ms, lo, |s|)
    requires k < |ms| && Accepts(re, s, ms[k].end)
    requires forall q | 0 <= q < k :: !Accepts(re, s, ms[q].end)
    ensures Chain(ms, re, s, lo) != []
    ensures var m := First(re, s, ms[k].end);
            Chain(ms, re, s, lo)[0] == Match(m.end, ms[k].caps + m.caps)
    decreases k
  {
    if k > 0 {
      assert !Accepts(re, s, ms[0].end);
      ChainFirst(ms[1..], re, s, lo, k - 1);
    }
  }

  /** When the part before has a single match, without captures. */
  lemma AfterSingle(a: Re, re: Re, s: string, i: nat, e: nat)
    requires i <= e <= |s| && Ends(a, s, i) == [Match(e, map[])]
    ensures Ends(Then(a, re), s, i) == Ends(re, s, e)
  {
    ChainOfOne(e, re, s, i);
  }

  lemma AfterNothing(a: Re, re: Re, s: string, i: nat)
    requires i <= |s| && Ends(a, s, i) == []
    ensures Ends(Then(a, re), s, i) == []
  {}

  lemma AcceptsLitThen(w: string, re: Re, s: string, i: nat)
    requires i <= |s|
    ensures Accepts(Then(Lit(w), re), s, i) <==> OccursAt(w, s, i) && Accepts(re, s, i + |w|)
    ensures Accepts(Then(Lit(w), re), s, i) ==> First(Then(Lit(w), re), s, i) == First(re, s, i + |w|)
  {
    if OccursAt(w, s, i) { AfterSingle(Lit(w), re, s, i, i + |w|); } else { AfterNothing(Lit(w), re, s, i); }
  }

  lemma AcceptsOneThen(c: Class, re: Re, s: string, i: nat)
    requires i <= |s|
    ensures Accepts(Then(One(c), re), s, i) <==> i < |s| && c.Has(s[i]) && Accepts(re, s, i + 1)
    ensures Accepts(Then(One(c), re), s, i) ==> First(Then(One(c), re), s, i) == First(re, s, i + 1)
  {
    if i < |s| && c.Has(s[i]) { AfterSingle(One(c), re, s, i, i + 1); } else { AfterNothing(One(c), re, s, i); }
  }

  lemma AcceptsLineStartThen(re: Re, s: string, i: nat)
    requires i <= |s|
    ensures Accepts(Then(LineStart, re), s, i) <==> AtLineStart(s, i) && Accepts(re, s, i)
    ensures Accepts(Then(LineStart, re), s, i) ==> First(Then(LineStart, re), s, i) == First(re, s, i)
  {
    if AtLineStart(s, i) { AfterSingle(LineStart, re, s, i, i); } else { AfterNothing(LineStart, re, s, i); }
  }

  lemma ExtendNothing(ms: seq<Match>)
    ensures Extend(map[], ms) == ms
  {
    forall k | 0 <= k < |ms| ensures Extend(map[], ms)[k] == ms[k] { NoCaptures(ms[k].caps); }
  }

  /** `w?` before `re`, longest first. */
  lemma OptionalThen(w: string, re: Re, s: string, i: nat)
    requires i <= |s|
    ensures Ends(Then(Or(Lit(w), Eps), re), s, i)
         == (if OccursAt(w, s, i) then Ends(re, s, i + |w|) else []) + Ends(re, s, i)
  {
    OptionalEnds(w, s, i);
    if OccursAt(w, s, i) {
      AfterPair(Or(Lit(w), Eps), re, s, i, i + |w|);
    } else {
      AfterSingle(Or(Lit(w), Eps), re, s, i, i);
      assert [] + Ends(re, s, i) == Ends(re, s, i);
    }
  }

  lemma OptionalEnds(w: string, s: string, i: nat)
    requires i <= |s|
    ensures Ends(Or(Lit(w), Eps), s, i)
         == if OccursAt(w, s, i) then [Match(i + |w|, map[]), Match(i, map[])] else [Match(i, map[])]
  {}

  /** When the part before has two matches without captures, the second of them empty. */
  lemma AfterPair(a: Re, re: Re, s: string, i: nat, e: nat)
    requires i <= e <= |s| && Ends(a, s, i) == [Match(e, map[]), Match(i, map[])]
    ensures Ends(Then(a, re), s, i) == Ends(re, s, e) + Ends(re, s, i)
  {
    var ms := [Match(e, map[]), Match(i, map[])];
    ExtendNothing(Ends(re, s, e));
    ChainOfOne(i, re, s, i);
    assert ms[1..] == [Match(i, map[])];
    assert Chain(ms, re, s, i) == Ends(re, s, e) + Ends(re, s, i);
  }

  lemma ChainOfOne(e: nat, re: Re, s: string, lo: nat)
    requires lo <= e <= |s|
    ensures Chain([Match(e, map[])], re, s, lo) == Ends(re, s, e)
  {
    ExtendNothing(Ends(re, s, e));
    assert [Match(e, map[])][1..] == [];
  }

  lemma NoCaptures(caps: map<nat, string>)
    ensures map[] + caps == caps
  {}

  // ---- Runs of one character class ----

  /** Where the longest run of class `c` starting at `i` ends. */
  function RunEnd(c: Class, s: string, i: nat): (e: nat)
    requires i <= |s|
    ensures i <= e <= |s|
    decreases |s| - i
  {
    if i < |s| && c.Has(s[i]) then RunEnd(c, s, i + 1) else i
  }

  lemma {:induction false} RunEndMeans(c: Class, s: string, i: nat)
    requires i <= |s|
    ensures var e := RunEnd(c, s, i);
            (forall k | i <= k < e :: c.Has(s[k])) && (e < |s| ==> !c.Has(s[e]))
    decreases |s| - i
  {
    if i < |s| && c.Has(s[i]) { RunEndMeans(c, s, i + 1); }
  }

  lemma RunEndIs(c: Class, s: string, i: nat, e: nat)
    requires i <= e <= |s|
    requires forall k | i <= k < e :: c.Has(s[k])
    requires e < |s| ==> !c.Has(s[e])
    ensures RunEnd(c, s, i) == e
  {
    RunEndMeans(c, s, i);
  }

  /** Where the run of class `c` that ends at `hi` starts, not before `lo`. */
  function RunStart(c: Class, s: string, lo: nat, hi: nat): (k: nat)
    requires lo <= hi <= |s|
    ensures lo <= k <= hi
    decreases hi
  {
    if lo < hi && c.Has(s[hi - 1]) then RunStart(c, s, lo, hi - 1) else hi
  }

  lemma {:induction false} RunStartMeans(c: Class, s: string, lo: nat, hi: nat)
    requires lo <= hi <= |s|
    ensures var k := RunStart(c, s, lo, hi);
            (forall q | k <= q < hi :: c.Has(s[q])) && (lo < k ==> !c.Has(s[k - 1]))
    decreases hi
  {
    if lo < hi && c.Has(s[hi - 1]) { RunStartMeans(c, s, lo, hi - 1); }
  }

  /** The text without the characters of class `c` at its ends. */
  function Trim(c: Class, s: string): string {
    var a := RunEnd(c, s, 0);
    s[a..RunStart(c, s, a, |s|)]
  }

  lemma {:induction false} RunEndShift(c: Class, s: string, t: string, lo: nat, i: nat)
    requires lo + |t| <= |s| && t == s[lo..lo + |t|] && i <= |t| && RunEnd(c, s, lo + i) <= lo + |t|
    ensures RunEnd(c, s, lo + i) == lo + RunEnd(c, t, i)
    decreases |t| - i
  {
    if i < |t| && c.Has(t[i]) { RunEndShift(c, s, t, lo, i + 1); }
  }

  function RunMatches(i: nat, e: nat, greedy: bool): (ms: seq<Match>)
    requires i <= e
    ensures |ms| == e - i + 1
    ensures forall k | 0 <= k < |ms| :: ms[k] == Match(if greedy then e - k else i + k, map[])
  {
    seq(e - i + 1, k requires 0 <= k <= e - i => Match(if greedy then e - k else i + k, map[]))
  }

  lemma RepeatStep(c: Class, greedy: bool, s: string, i: nat)
    requires i < |s| && c.Has(s[i])
    ensures var next := Ends(Many(One(c), greedy), s, i + 1);
            Ends(Many(One(c), greedy), s, i)
              == if greedy then next + [Match(i, map[])] else [Match(i, map[])] + next
  {
    var re := Many(One(c), greedy);
    var next := Ends(re, s, i + 1);
    var steps := [Match(i + 1, map[])];
    assert Ends(One(c), s, i) == steps;
    assert steps[1..] == [];
    assert Advancing(steps, i, |s|) == steps;
    ExtendNothing(next);
    assert Chain(steps, re, s, i + 1) == next;
  }

  /** A repeated class matches every initial part of the run: longest first if greedy, shortest first if lazy. */
  lemma {:induction false} RunEnds(c: Class, greedy: bool, s: string, i: nat)
    requires i <= |s|
    ensures Ends(Many(One(c), greedy), s, i) == RunMatches(i, RunEnd(c, s, i), greedy)
    decreases |s| - i
  {
    if i < |s| && c.Has(s[i]) {
      RunEnds(c, greedy, s, i + 1);
      RunEndsStep(c, greedy, s, i, RunEnd(c, s, i));
    } else {
      RepeatStop(c, greedy, s, i);
    }
  }

  lemma RunEndsStep(c: Class, greedy: bool, s: string, i: nat, e: nat)
    requires i < e && i < |s| && c.Has(s[i])
    requires Ends(Many(One(c), greedy), s, i + 1) == RunMatches(i + 1, e, greedy)
    ensures Ends(Many(One(c), greedy), s, i) == RunMatches(i, e, greedy)
  {
    RepeatStep(c, greedy, s, i);
    RunMatchesStep(i, e, greedy);
  }

  lemma RepeatStop(c: Class, greedy: bool, s: string, i: nat)
    requires i <= |s| && (i < |s| ==> !c.Has(s[i]))
    ensures Ends(Many(One(c), greedy), s, i) == [Match(i, map[])]
  {
    assert Ends(One(c), s, i) == [];
  }

  lemma RunMatchesStep(i: nat, e: nat, greedy: bool)
    requires i < e
    ensures RunMatches(i, e, greedy)
         == if greedy then RunMatches(i + 1, e, greedy) + [Match(i, map[])]
            else [Match(i, map[])] + RunMatches(i + 1, e, greedy)
  {}

  lemma AcceptsRunThen(c: Class, greedy: bool, re: Re, s: string, i: nat)
    requires i <= |s|
    ensures Accepts(Then(Many(One(c), greedy), re), s, i)
       <==> exists k | i <= k <= RunEnd(c, s, i) :: Accepts(re, s, k)
  {
    var e := RunEnd(c, s, i);
    var ms := RunMatches(i, e, greedy);
    RunEnds(c, greedy, s, i);
    ChainAccepts(ms, re, s, i);
    RunContinues(i, e, greedy, re, s);
  }

  lemma RunContinues(i: nat, e: nat, greedy: bool, re: Re, s: string)
    requires i <= e <= |s| && Between(RunMatches(i, e, greedy), 0, |s|)
    ensures CanContinue(RunMatches(i, e, greedy), re, s) <==> exists k | i <= k <= e :: Accepts(re, s, k)
  {
    var ms := RunMatches(i, e, greedy);
    if k :| i <= k <= e && Accepts(re, s, k) {
      assert ms[if greedy then e - k else k - i].end == k;
    }
    if q :| 0 <= q < |ms| && Accepts(re, s, ms[q].end) {
      assert i <= ms[q].end <= e;
    }
  }

  /** Of matches that end at each place from `i` to `e`, in trial order, those before the one that ends at `k`
      cannot be continued if no place before `k` in that order can. */
  lemma TrialsBefore(ms: seq<Match>, greedy: bool, re: Re, s: string, i: nat, e: nat, k: nat)
    requires i <= k <= e <= |s| && |ms| == e - i + 1
    requires forall q | 0 <= q < |ms| :: ms[q].end == if greedy then e - q else i + q
    requires greedy ==> forall q | k < q <= e :: !Accepts(re, s, q)
    requires !greedy ==> forall q | i <= q < k :: !Accepts(re, s, q)
    ensures var index := if greedy then e - k else k - i;
            ms[index].end == k && forall q | 0 <= q < index :: !Accepts(re, s, ms[q].end)
  {}

  /** The match a run followed by `re` reports: the run stops at `k`, the first place in trial order
      from which `re` matches. */
  lemma RunThenFirst(c: Class, greedy: bool, re: Re, s: string, i: nat, k: nat)
    requires i <= k <= |s| && k <= RunEnd(c, s, i) && Accepts(re, s, k)
    requires greedy ==> forall q | k < q <= RunEnd(c, s, i) :: !Accepts(re, s, q)
    requires !greedy ==> forall q | i <= q < k :: !Accepts(re, s, q)
    ensures Accepts(Then(Many(One(c), greedy), re), s, i)
    ensures First(Then(Many(One(c), greedy), re), s, i) == First(re, s, k)
  {
    var e := RunEnd(c, s, i);
    RunEnds(c, greedy, s, i);
    var index := if greedy then e - k else k - i;
    TrialsBefore(RunMatches(i, e, greedy), greedy, re, s, i, e, k);
    ThenFirst(Many(One(c), greedy), re, s, i, index);
    NoCaptures(First(re, s, k).caps);
  }

  /** As `RunThenFirst`, with the run captured. */
  lemma CapturedRunThenFirst(id: nat, c: Class, greedy: bool, re: Re, s: string, i: nat, k: nat)
    requires i <= k <= |s| && k <= RunEnd(c, s, i) && Accepts(re, s, k)
    requires greedy ==> forall q | k < q <= RunEnd(c, s, i) :: !Accepts(re, s, q)
    requires !greedy ==> forall q | i <= q < k :: !Accepts(re, s, q)
    ensures Accepts(Then(Group(id, Many(One(c), greedy)), re), s, i)
    ensures var m := First(re, s, k);
            First(Then(Group(id, Many(One(c), greedy)), re), s, i) == Match(m.end, map[id := s[i..k]] + m.caps)
  {
    var e, run := RunEnd(c, s, i), Group(id, Many(One(c), greedy));
    CapturedRunEnds(id, c, greedy, s, i);
    var ms := Ends(run, s, i);
    var index := if greedy then e - k else k - i;
    TrialsBefore(ms, greedy, re, s, i, e, k);
    ThenFirst(run, re, s, i, index);
  }

  lemma CapturedRunEnds(id: nat, c: Class, greedy: bool, s: string, i: nat)
    requires i <= |s|
    ensures var e, ms := RunEnd(c, s, i), Ends(Group(id, Many(One(c), greedy)), s, i);
            && |ms| == e - i + 1
            && forall q | 0 <= q < |ms| ::
                 var k := if greedy then e - q else i + q;
                 ms[q] == Match(k, map[id := s[i..k]])
  {
    RunEnds(c, greedy, s, i);
    var e := RunEnd(c, s, i);
    var runs := RunMatches(i, e, greedy);
    var ms := Capture(runs, id, s, i);
    forall q | 0 <= q < |ms|
      ensures var k := if greedy then e - q else i + q; ms[q] == Match(k, map[id := s[i..k]])
    {
      assert runs[q].caps == map[];
    }
  }

  lemma ThenFirst(a: Re, b: Re, s: string, i: nat, k: nat)
    requires i <= |s| && k < |Ends(a, s, i)| && Accepts(b, s, Ends(a, s, i)[k].end)
    requires forall q | 0 <= q < k :: !Accepts(b, s, Ends(a, s, i)[q].end)
    ensures Accepts(Then(a, b), s, i)
    ensures var m := First(b, s, Ends(a, s, i)[k].end);
            First(Then(a, b), s, i) == Match(m.end, Ends(a, s, i)[k].caps + m.caps)
  {
    assert Ends(Then(a, b), s, i) == Chain(Ends(a, s, i), b, s, i);
    ChainFirst(Ends(a, s, i), b, s, i, k);
  }

  // ---- Fixed rows of classes ----

  /** One character of each class in turn. */
  function Row(cs: seq<Class>): Re {
    if cs == [] then Eps else Then(One(cs[0]), Row(cs[1..]))
  }

  predicate RowAt(cs: seq<Class>, s: string, i: nat) {
    i + |cs| <= |s| && forall k | 0 <= k < |cs| :: cs[k].Has(s[i + k])
  }

  lemma {:induction false} RowDenotes(cs: seq<Class>, s: string, i: nat, j: nat)
    requires i <= j <= |s|
    ensures Denotes(Row(cs), s, i, j) <==> j == i + |cs| && RowAt(cs, s, i)
    decreases |cs|
  {
    if cs != [] {
      var rest := cs[1..];
      if Denotes(Row(cs), s, i, j) {
        var k := ThenSplit(One(cs[0]), Row(rest), s, i, j);
        RowDenotes(rest, s, k, j);
        forall q | 0 <= q < |cs| ensures cs[q].Has(s[i + q]) {
          if q > 0 { assert rest[q - 1].Has(s[k + (q - 1)]); }
        }
      }
      if j == i + |cs| && RowAt(cs, s, i) {
        forall q | 0 <= q < |rest| ensures rest[q].Has(s[i + 1 + q]) { assert cs[q + 1].Has(s[i + (q + 1)]); }
        RowDenotes(rest, s, i + 1, j);
        assert Denotes(One(cs[0]), s, i, i + 1);
      }
    }
  }

  /** Between 0 and `n` repetitions, longest first: `re{0,n}`. */
  function UpTo(re: Re, n: nat): Re {
    if n == 0 then Eps else Or(Then(re, UpTo(re, n - 1)), Eps)
  }

  lemma {:induction false} UpToDenotes(c: Class, n: nat, s: string, i: nat, j: nat)
    requires i <= j <= |s|
    ensures Denotes(UpTo(One(c), n), s, i, j) <==> j <= i + n && forall k | i <= k < j :: c.Has(s[k])
    decreases n
  {
    if n > 0 {
      if Denotes(Then(One(c), UpTo(One(c), n - 1)), s, i, j) {
        var k := ThenSplit(One(c), UpTo(One(c), n - 1), s, i, j);
        UpToDenotes(c, n - 1, s, k, j);
      }
      if i < j && j <= i + n && forall k | i <= k < j :: c.Has(s[k]) {
        UpToDenotes(c, n - 1, s, i + 1, j);
        assert Denotes(One(c), s, i, i + 1);
      }
    }
  }
}
