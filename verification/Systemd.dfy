/** Two readings of one `Key=value` line: the assignment expression, and strip-index-slice. */
module Systemd {
  import opened Regex
  import opened Matching
  import opened Text

  const NOT_EQUALS := Except({'='})

  // `^\s*([^=]*?)\s*=\s*(.*?)\s*$`, named from its end backwards
  const TAIL := Then(Many(One(SPACE), true), LineEnd)
  const VALUE := Then(Group(2, Many(One(DOT), false)), TAIL)
  const RIGHT := Then(Many(One(SPACE), true), VALUE)
  const EQUALS := Then(Lit("="), RIGHT)
  const MIDDLE := Then(Many(One(SPACE), true), EQUALS)
  const KEY := Then(Group(1, Many(One(NOT_EQUALS), false)), MIDDLE)
  const LEFT := Then(Many(One(SPACE), true), KEY)
  const ASSIGNMENT := Then(LineStart, LEFT)

  /** Ruby's `strip`. */
  function Strip(s: string): string {
    Trim(SPACE, s)
  }

  /** docker_helper: what the expression captures on one line. */
  function Captures(line: string): Option<map<nat, string>> {
    if Accepts(ASSIGNMENT, line, 0) then Some(First(ASSIGNMENT, line, 0).caps) else None
  }

  function AfterEquals(f: string): Result<string> {
    var q := Cut(f, '=');
    if q == |f| then Raised else Ok(f[q + 1..])
  }

  function Slice(stdout: string): Result<string> {
    AfterEquals(Strip(stdout))
  }

  /** `v` is `s` without the blanks at its end. */
  predicate IsRightTrimmed(s: string, v: string) {
    v <= s && (forall k | |v| <= k < |s| :: SPACE.Has(s[k])) && (v != "" ==> !SPACE.Has(v[|v| - 1]))
  }

  /** Control M-1.8: all that follows the first `=` of the output, however many lines it has, without the
      blanks at its end; without an `=` it raises. */
  method SliceForm(stdout: string) returns (r: Result<string>)
    ensures r.Raised? <==> '=' !in stdout
    ensures r.Ok? ==> Cut(stdout, '=') < |stdout| && IsRightTrimmed(stdout[Cut(stdout, '=') + 1..], r.value)
    ensures r == Slice(stdout)
  {
    SliceMeans(stdout);
    var dockerServiceFile := Strip(stdout);
    var equalSign := Cut(dockerServiceFile, '=');
    if equalSign == |dockerServiceFile| {
      return Raised;  // nil + 1
    }
    dockerServiceFile := dockerServiceFile[equalSign + 1..];
    r := Ok(dockerServiceFile);
  }

  lemma SliceMeans(s: string)
    ensures Slice(s).Raised? <==> '=' !in s
    ensures Slice(s).Ok? ==> Cut(s, '=') < |s| && IsRightTrimmed(s[Cut(s, '=') + 1..], Slice(s).value)
  {
    var a, b := StripParts(s);
    var q := Cut(s, '=');
    if q < |s| { SliceAt(s, a, b, q); } else { NoEquals(s, a, b); }
  }

  lemma StripParts(s: string) returns (a: nat, b: nat)
    ensures a <= b <= |s| && Strip(s) == s[a..b] && forall k | 0 <= k < a || b <= k < |s| :: SPACE.Has(s[k])
    ensures a < b ==> !SPACE.Has(s[b - 1])
  {
    a := RunEnd(SPACE, s, 0);
    b := RunStart(SPACE, s, a, |s|);
    RunEndMeans(SPACE, s, 0);
    RunStartMeans(SPACE, s, a, |s|);
  }

  /** With blanks around `s[a..b]` only, and the first `=` at `q`. */
  lemma SliceAt(s: string, a: nat, b: nat, q: nat)
    requires a <= b <= |s| && (forall k | 0 <= k < a || b <= k < |s| :: SPACE.Has(s[k]))
    requires a < b ==> !SPACE.Has(s[b - 1])
    requires q < |s| && s[q] == '=' && forall k | 0 <= k < q :: s[k] != '='
    ensures AfterEquals(s[a..b]).Ok? && IsRightTrimmed(s[q + 1..], AfterEquals(s[a..b]).value)
  {
    EqualsInside(s, a, b, q);
    PartsAround(s, a, q, b);
    SliceAfterEquals(s[a..b], s[a..q], s[q + 1..b]);
    TrimmedPart(s, q + 1, b);
  }

  lemma EqualsInside(s: string, a: nat, b: nat, q: nat)
    requires a <= b <= |s| && q < |s| && s[q] == '='
    requires forall k | 0 <= k < a || b <= k < |s| :: SPACE.Has(s[k])
    ensures a <= q < b
  {
    assert !SPACE.Has('=');
  }

  lemma PartsAround(s: string, a: nat, q: nat, b: nat)
    requires a <= q < b <= |s| && s[q] == '=' && forall k | 0 <= k < q :: s[k] != '='
    ensures s[a..b] == s[a..q] + "=" + s[q + 1..b] && '=' !in s[a..q]
  {}

  lemma NoEquals(s: string, a: nat, b: nat)
    requires a <= b <= |s| && '=' !in s
    ensures AfterEquals(s[a..b]) == Raised
  {
    assert '=' !in s[a..b];
  }

  lemma TrimmedPart(s: string, lo: nat, hi: nat)
    requires lo <= hi <= |s| && (forall k | hi <= k < |s| :: SPACE.Has(s[k])) && (lo < hi ==> !SPACE.Has(s[hi - 1]))
    ensures IsRightTrimmed(s[lo..], s[lo..hi])
  {
    assert s[lo..][..hi - lo] == s[lo..hi];
  }

  /** There is only one such text. */
  lemma RightTrimmedOnce(s: string, v: string, w: string)
    requires IsRightTrimmed(s, v) && IsRightTrimmed(s, w)
    ensures v == w
  {}

  lemma SliceAfterEquals(f: string, key: string, value: string)
    requires f == key + "=" + value && '=' !in key
    ensures AfterEquals(f) == Ok(value)
  {
    assert f == key + ['='] + value;
    CutAfter(key, '=', value);
    assert f[|key| + 1..] == value;
  }

  // ---- The expression, part by part ----

  lemma TailAccepts(s: string, k: nat)
    requires '\n' !in s && k <= |s|
    ensures Accepts(TAIL, s, k) <==> RunEnd(SPACE, s, k) == |s|
    ensures Accepts(TAIL, s, k) ==> First(TAIL, s, k) == Match(|s|, map[])
  {
    var e := RunEnd(SPACE, s, k);
    AcceptsRunThen(SPACE, true, LineEnd, s, k);
    if e == |s| { RunThenFirst(SPACE, true, LineEnd, s, k, |s|); }
  }

  lemma RunReaches(c: Class, s: string, lo: nat, hi: nat, k: nat)
    requires lo <= k <= hi <= |s|
    ensures RunEnd(c, s, k) >= hi <==> k >= RunStart(c, s, lo, hi)
  {
    RunEndMeans(c, s, k);
    RunStartMeans(c, s, lo, hi);
  }

  lemma ValueFirst(s: string, v: nat)
    requires '\n' !in s && v <= |s|
    ensures Accepts(VALUE, s, v)
    ensures First(VALUE, s, v) == Match(|s|, map[2 := s[v..RunStart(SPACE, s, v, |s|)]])
  {
    var k := RunStart(SPACE, s, v, |s|);
    forall q | v <= q <= |s| ensures Accepts(TAIL, s, q) <==> k <= q {
      TailAccepts(s, q);
      RunReaches(SPACE, s, v, |s|, q);
    }
    RunEndIs(DOT, s, v, |s|);
    TailAccepts(s, k);
    CapturedRunThenFirst(2, DOT, false, TAIL, s, v, k);
    var m := First(TAIL, s, k);
    assert map[2 := s[v..k]] + m.caps == map[2 := s[v..k]];
  }

  lemma RightFirst(s: string, p: nat)
    requires '\n' !in s && p <= |s|
    ensures var v := RunEnd(SPACE, s, p);
            && Accepts(RIGHT, s, p)
            && First(RIGHT, s, p) == Match(|s|, map[2 := s[v..RunStart(SPACE, s, v, |s|)]])
  {
    var v := RunEnd(SPACE, s, p);
    ValueFirst(s, v);
    RunThenFirst(SPACE, true, VALUE, s, p, v);
  }

  lemma EqualsFirst(s: string, j: nat)
    requires '\n' !in s && j <= |s|
    ensures Accepts(EQUALS, s, j) <==> j < |s| && s[j] == '='
    ensures Accepts(EQUALS, s, j) ==> Accepts(RIGHT, s, j + 1) && First(EQUALS, s, j) == First(RIGHT, s, j + 1)
  {
    AcceptsLitThen("=", RIGHT, s, j);
    if j < |s| {
      RightFirst(s, j + 1);
      assert s[j..j + 1] == [s[j]];
    }
  }

  /** From `k`, optional blanks and the first `=` at `q`. */
  lemma MiddleFirst(s: string, k: nat, q: nat)
    requires '\n' !in s && k <= q < |s| && s[q] == '=' && forall j | k <= j < q :: s[j] != '='
    ensures Accepts(MIDDLE, s, k) <==> RunEnd(SPACE, s, k) >= q
    ensures Accepts(MIDDLE, s, k) ==> Accepts(RIGHT, s, q + 1) && First(MIDDLE, s, k) == First(RIGHT, s, q + 1)
  {
    var e := RunEnd(SPACE, s, k);
    RunEndMeans(SPACE, s, k);
    assert !SPACE.Has('=');
    assert e <= q;
    forall j | k <= j <= e ensures Accepts(EQUALS, s, j) <==> j == q { EqualsFirst(s, j); }
    AcceptsRunThen(SPACE, true, EQUALS, s, k);
    if e == q {
      EqualsFirst(s, q);
      RunThenFirst(SPACE, true, EQUALS, s, k, q);
    }
  }

  lemma KeyFirst(s: string, a: nat, q: nat)
    requires '\n' !in s && a <= q < |s| && s[q] == '=' && forall j | a <= j < q :: s[j] != '='
    ensures Accepts(KEY, s, a)
    ensures var v := RunEnd(SPACE, s, q + 1);
            First(KEY, s, a)
              == Match(|s|, map[1 := s[a..RunStart(SPACE, s, a, q)], 2 := s[v..RunStart(SPACE, s, v, |s|)]])
  {
    var k := RunStart(SPACE, s, a, q);
    RunEndIs(NOT_EQUALS, s, a, q);
    forall j | a <= j <= q ensures Accepts(MIDDLE, s, j) <==> k <= j {
      MiddleFirst(s, j, q);
      RunReaches(SPACE, s, a, q, j);
    }
    CapturedRunThenFirst(1, NOT_EQUALS, false, MIDDLE, s, a, k);
    MiddleFirst(s, k, q);
    RightFirst(s, q + 1);
    var v := RunEnd(SPACE, s, q + 1);
    var value := s[v..RunStart(SPACE, s, v, |s|)];
    assert map[1 := s[a..k]] + map[2 := value] == map[1 := s[a..k], 2 := value];
  }

  lemma AssignmentFirst(s: string, q: nat)
    requires '\n' !in s && q < |s| && s[q] == '=' && forall j | 0 <= j < q :: s[j] != '='
    ensures var a, v := RunEnd(SPACE, s, 0), RunEnd(SPACE, s, q + 1);
            && a <= q
            && Captures(s) == Some(map[1 := s[a..RunStart(SPACE, s, a, q)], 2 := s[v..RunStart(SPACE, s, v, |s|)]])
  {
    var a := RunEnd(SPACE, s, 0);
    assert !SPACE.Has('=');
    RunEndMeans(SPACE, s, 0);
    KeyFirst(s, a, q);
    RunThenFirst(SPACE, true, KEY, s, 0, a);
    AcceptsLineStartThen(LEFT, s, 0);
  }

  // ---- What it means ----

  /** A trimmed text is the only part that has `c` all around it and not at its ends. */
  lemma TrimIs(c: Class, t: string, a: nat, b: nat)
    requires a <= b <= |t|
    requires forall k | 0 <= k < a :: c.Has(t[k])
    requires forall k | b <= k < |t| :: c.Has(t[k])
    requires a < b ==> !c.Has(t[a]) && !c.Has(t[b - 1])
    ensures Trim(c, t) == t[a..b]
  {
    if a < b {
      RunEndIs(c, t, 0, a);
      RunStartMeans(c, t, a, |t|);
      assert RunStart(c, t, a, |t|) == b;
    } else {
      RunEndIs(c, t, 0, |t|);
    }
  }

  lemma {:induction false} RunStartShift(c: Class, s: string, t: string, lo: nat, i: nat, j: nat)
    requires lo + |t| <= |s| && t == s[lo..lo + |t|] && i <= j <= |t|
    ensures RunStart(c, s, lo + i, lo + j) == lo + RunStart(c, t, i, j)
    decreases j
  {
    if i < j && c.Has(t[j - 1]) { RunStartShift(c, s, t, lo, i, j - 1); }
  }

  lemma TrimOfPart(c: Class, s: string, t: string, lo: nat, a: nat, b: nat)
    requires lo + |t| <= |s| && t == s[lo..lo + |t|]
    requires a == RunEnd(c, s, lo) <= lo + |t| && b == RunStart(c, s, a, lo + |t|)
    ensures Trim(c, t) == s[a..b]
  {
    var x, y := TrimInside(c, s, t, lo, a, b);
    assert t[x..y] == s[a..b] by { PartSlice(s, t, lo, x, y); }
  }

  lemma TrimInside(c: Class, s: string, t: string, lo: nat, a: nat, b: nat) returns (x: nat, y: nat)
    requires lo + |t| <= |s| && t == s[lo..lo + |t|]
    requires a == RunEnd(c, s, lo) <= lo + |t| && b == RunStart(c, s, a, lo + |t|)
    ensures x <= y <= |t| && a == lo + x && b == lo + y && Trim(c, t) == t[x..y]
  {
    x := RunEnd(c, t, 0);
    y := RunStart(c, t, x, |t|);
    RunEndShift(c, s, t, lo, 0);
    RunStartShift(c, s, t, lo, x, |t|);
  }

  lemma AssignmentParts(key: string, rest: string, s: string)
    requires s == key + "=" + rest && '\n' !in key && '\n' !in rest && '=' !in key
    ensures |s| == |key| + 1 + |rest| && s[|key|] == '=' && '\n' !in s && forall j | 0 <= j < |key| :: s[j] != '='
    ensures key == s[0..0 + |key|] && rest == s[|key| + 1..|key| + 1 + |rest|]
  {
    assert forall j | 0 <= j < |key| :: s[j] == key[j] && key[j] != '=';
  }

  lemma CapturesAt(s: string, q: nat, key: string, rest: string)
    requires '\n' !in s && q == |key| && |s| == q + 1 + |rest| && s[q] == '=' && forall j | 0 <= j < q :: s[j] != '='
    requires key == s[0..0 + |key|] && rest == s[q + 1..q + 1 + |rest|]
    ensures Captures(s) == Some(map[1 := Strip(key), 2 := Strip(rest)])
  {
    AssignmentFirst(s, q);
    var a, v := RunEnd(SPACE, s, 0), RunEnd(SPACE, s, q + 1);
    TrimOfPart(SPACE, s, key, 0, a, RunStart(SPACE, s, a, q));
    TrimOfPart(SPACE, s, rest, q + 1, v, RunStart(SPACE, s, v, |s|));
  }

  /** On every line with an `=`, the expression captures the stripped texts before and after the first one. */
  lemma CapturesOfLine(key: string, rest: string)
    requires '\n' !in key && '\n' !in rest && '=' !in key
    ensures Captures(key + "=" + rest) == Some(map[1 := Strip(key), 2 := Strip(rest)])
  {
    var s := key + "=" + rest;
    AssignmentParts(key, rest, s);
    CapturesAt(s, |key|, key, rest);
  }

  /** A line feed at the end makes no difference. */
  lemma TrimmedLine(rest: string, v: string)
    requires IsRightTrimmed(rest, v)
    ensures IsRightTrimmed(rest + "\n", v)
  {}

  lemma TrimmedPrefix(s: string, k: nat)
    requires k <= |s| && (forall q | k <= q < |s| :: SPACE.Has(s[q])) && (0 < k ==> !SPACE.Has(s[k - 1]))
    ensures IsRightTrimmed(s, s[..k])
  {}

  /** On one line the slice form strips the value on the right only. */
  lemma SliceOfLine(key: string, rest: string, v: string)
    requires '=' !in key && IsRightTrimmed(rest, v)
    ensures Slice(key + "=" + rest + "\n") == Ok(v)
  {
    LineParts(key, rest, key + "=" + rest + "\n");
    TrimmedLine(rest, v);
    SliceIs(key + "=" + rest + "\n", rest + "\n", v);
  }

  lemma SliceIs(t: string, line: string, v: string)
    requires '=' in t && Cut(t, '=') < |t| && t[Cut(t, '=') + 1..] == line && IsRightTrimmed(line, v)
    ensures Slice(t) == Ok(v)
  {
    SliceMeans(t);
    RightTrimmedOnce(line, Slice(t).value, v);
  }

  lemma LineParts(key: string, rest: string, t: string)
    requires '=' !in key && t == key + "=" + rest + "\n"
    ensures '=' in t && Cut(t, '=') == |key| < |t| && t[|key| + 1..] == rest + "\n"
  {
    assert t == key + ['='] + (rest + "\n");
    CutAfter(key, '=', rest + "\n");
    assert t[|key|] == '=';
  }

  /** The two forms read the same value exactly when it does not begin with a blank, blank values aside. */
  lemma FormsAgree(key: string, rest: string)
    requires '\n' !in key && '\n' !in rest && '=' !in key
    ensures Captures(key + "=" + rest).Some? && 2 in Captures(key + "=" + rest).value
    ensures Slice(key + "=" + rest + "\n") == Ok(Captures(key + "=" + rest).value[2])
       <==> rest == "" || !SPACE.Has(rest[0]) || forall k | 0 <= k < |rest| :: SPACE.Has(rest[k])
  {
    CapturesOfLine(key, rest);
    var a := RunEnd(SPACE, rest, 0);
    var k := RunStart(SPACE, rest, 0, |rest|);
    var y := RunStart(SPACE, rest, a, |rest|);
    RunEndMeans(SPACE, rest, 0);
    RunStartMeans(SPACE, rest, 0, |rest|);
    TrimmedPrefix(rest, k);
    SliceOfLine(key, rest, rest[..k]);
    RunStartMeans(SPACE, rest, a, |rest|);
    if a < |rest| {
      assert y == k;
      assert a > 0 ==> |rest[a..y]| < |rest[..k]|;
    } else {
      assert k == 0;
    }
  }

  /** Every path without line breaks and leading blanks is read the same by both, further `=` included. */
  lemma FragmentPathAgrees(path: string)
    requires '\n' !in path && (path != "" ==> !SPACE.Has(path[0]))
    ensures Captures("FragmentPath=" + path).Some?
    ensures var caps := Captures("FragmentPath=" + path).value;
            && 1 in caps && caps[1] == "FragmentPath"
            && 2 in caps && Slice("FragmentPath=" + path + "\n") == Ok(caps[2])
  {
    var key := "FragmentPath";
    assert key + "=" + path == "FragmentPath=" + path;
    CapturesOfLine(key, path);
    FormsAgree(key, path);
    assert key[0] == 'F' && key[|key| - 1] == 'h';
    TrimIs(SPACE, key, 0, |key|);
    assert key[0..|key|] == key;
  }
}
