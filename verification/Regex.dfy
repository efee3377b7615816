/** The regular expressions the profiles use, as syntax trees, with two meanings:
    the positional language `Denotes`, and the backtracking search `Ends`, which lists
    every match in the order a Ruby or JavaScript engine tries them, with captures. */
module Regex {

  /** Tab, line feed, vertical tab, form feed, carriage return and space. */
  predicate Blank(c: char) {
    c == ' ' || '\t' <= c <= '\r'
  }

  /** What JavaScript counts as white space. */
  predicate WideBlank(c: char) {
    var n := c as int;
    Blank(c) || n == 0xA0 || n == 0x1680 || 0x2000 <= n <= 0x200A || n == 0x2028 || n == 0x2029
    || n == 0x202F || n == 0x205F || n == 0x3000 || n == 0xFEFF
  }

  lemma BlanksMean(c: char)
    ensures Blank(c) <==> c in {'\t', '\n', '\U{0B}', '\U{0C}', '\r', ' '}
    ensures WideBlank(c)
       <==> Blank(c) || '\U{2000}' <= c <= '\U{200A}'
            || c in {'\U{A0}', '\U{1680}', '\U{2028}', '\U{2029}', '\U{202F}', '\U{205F}', '\U{3000}', '\U{FEFF}'}
  {}

  /** `Space` is Ruby's `\s` and `NonSpace` its `\S`; `WideSpace` is JavaScript's `\s` with further characters. */
  datatype Class =
    | Only(chars: set<char>)
    | Except(chars: set<char>)
    | Range(lo: char, hi: char)
    | Space
    | NonSpace
    | WideSpace(further: set<char>)
  {
    predicate Has(c: char) {
      match this
      case Only(cs) => c in cs
      case Except(cs) => c !in cs
      case Range(a, b) => a <= c <= b
      case Space => Blank(c)
      case NonSpace => !Blank(c)
      case WideSpace(cs) => WideBlank(c) || c in cs
    }
  }

  const DIGIT := Range('0', '9')
  const SPACE := Space
  const NON_SPACE := NonSpace
  const DOT := Except({'\n'})

  predicate AllDigits(s: string) {
    s != "" && forall k | 0 <= k < |s| :: DIGIT.Has(s[k])
  }

  datatype Re =
    | Eps
    | Lit(word: string)
    | One(cls: Class)
    | Then(left: Re, right: Re)
    | Or(left: Re, right: Re)
    | Many(body: Re, greedy: bool)
    | Group(id: nat, body: Re)
    | LineStart
    | LineEnd
    | TextEnd

  datatype Match = Match(end: nat, caps: map<nat, string>)

  predicate OccursAt(w: string, s: string, i: nat) {
    i + |w| <= |s| && s[i..i + |w|] == w
  }

  predicate Occurs(w: string, s: string) {
    exists i | 0 <= i <= |s| :: OccursAt(w, s, i)
  }

  predicate AtLineStart(s: string, i: nat)
    requires i <= |s|
  {
    i == 0 || (i < |s| && s[i - 1] == '\n')
  }

  predicate AtLineEnd(s: string, i: nat)
    requires i <= |s|
  {
    i == |s| || s[i] == '\n'
  }

  /** `re` matches exactly the part of `s` between `i` and `j`. */
  ghost predicate Denotes(re: Re, s: string, i: nat, j: nat)
    requires i <= j <= |s|
    decreases re, j - i
  {
    match re
    case Eps => i == j
    case Lit(w) => s[i..j] == w
    case One(c) => j == i + 1 && c.Has(s[i])
    case Then(a, b) => exists k | i <= k <= j :: Denotes(a, s, i, k) && Denotes(b, s, k, j)
    case Or(a, b) => Denotes(a, s, i, j) || Denotes(b, s, i, j)
    case Many(a, _) => i == j || exists k | i < k <= j :: Denotes(a, s, i, k) && Denotes(re, s, k, j)
    case Group(_, a) => Denotes(a, s, i, j)
    case LineStart => i == j && AtLineStart(s, i)
    case LineEnd => i == j && AtLineEnd(s, i)
    case TextEnd => i == j == |s|
  }

  /** All matches that start at `i`, in the order backtracking finds them. */
  function Ends(re: Re, s: string, i: nat): (ms: seq<Match>)
    requires i <= |s|
    ensures Between(ms, i, |s|)
    decreases re, |s| - i, 0, 0
  {
    match re
    case Eps => [Match(i, map[])]
    case Lit(w) => if OccursAt(w, s, i) then [Match(i + |w|, map[])] else []
    case One(c) => if i < |s| && c.Has(s[i]) then [Match(i + 1, map[])] else []
    case Then(a, b) => Chain(Ends(a, s, i), b, s, i)
    case Or(a, b) => Ends(a, s, i) + Ends(b, s, i)
    case Many(a, greedy) =>
      var again := if i < |s| then Chain(Advancing(Ends(a, s, i), i, |s|), re, s, i + 1) else [];
      if greedy then again + [Match(i, map[])] else [Match(i, map[])] + again
    case Group(id, a) => Capture(Ends(a, s, i), id, s, i)
    case LineStart => if AtLineStart(s, i) then [Match(i, map[])] else []
    case LineEnd => if AtLineEnd(s, i) then [Match(i, map[])] else []
    case TextEnd => if i == |s| then [Match(i, map[])] else []
  }

  predicate Between(ms: seq<Match>, lo: nat, hi: nat) {
    forall k | 0 <= k < |ms| :: lo <= ms[k].end <= hi
  }

  /** Continues each match of `ms` with `re`, first match first. */
  function Chain(ms: seq<Match>, re: Re, s: string, lo: nat): (r: seq<Match>)
    requires lo <= |s| && Between(ms, lo, |s|)
    ensures Between(r, lo, |s|)
    decreases re, |s| - lo, 1, |ms|
  {
    if ms == [] then []
    else Extend(ms[0].caps, Ends(re, s, ms[0].end)) + Chain(ms[1..], re, s, lo)
  }

  function Extend(caps: map<nat, string>, ms: seq<Match>): (r: seq<Match>)
    ensures |r| == |ms| && forall k | 0 <= k < |ms| :: r[k] == Match(ms[k].end, caps + ms[k].caps)
  {
    seq(|ms|, k requires 0 <= k < |ms| => Match(ms[k].end, caps + ms[k].caps))
  }

  /** The matches that consume something; a loop body that consumes nothing is not repeated. */
  function Advancing(ms: seq<Match>, i: nat, hi: nat): (r: seq<Match>)
    requires Between(ms, 0, hi)
    ensures Between(r, i + 1, hi)
  {
    if ms == [] then []
    else if i < ms[0].end then [ms[0]] + Advancing(ms[1..], i, hi)
    else Advancing(ms[1..], i, hi)
  }

  function Capture(ms: seq<Match>, id: nat, s: string, i: nat): (r: seq<Match>)
    requires Between(ms, i, |s|)
    ensures |r| == |ms|
    ensures forall k | 0 <= k < |ms| :: r[k] == Match(ms[k].end, ms[k].caps[id := s[i..ms[k].end]])
  {
    seq(|ms|, k requires 0 <= k < |ms| => Match(ms[k].end, ms[k].caps[id := s[i..ms[k].end]]))
  }

  // ---- The search against the language ----

  predicate EndsAt(ms: seq<Match>, j: nat) {
    exists k | 0 <= k < |ms| :: ms[k].end == j
  }

  /** Some match of `ms` can be continued by `re` up to `j`. */
  predicate Continues(ms: seq<Match>, re: Re, s: string, j: nat)
    requires Between(ms, 0, |s|)
  {
    exists k | 0 <= k < |ms| :: EndsAt(Ends(re, s, ms[k].end), j)
  }

  lemma ConcatEnds(a: seq<Match>, b: seq<Match>, j: nat)
    ensures EndsAt(a + b, j) <==> EndsAt(a, j) || EndsAt(b, j)
  {
    if k :| 0 <= k < |a| && a[k].end == j { assert (a + b)[k] == a[k]; }
    if k :| 0 <= k < |b| && b[k].end == j { assert (a + b)[|a| + k] == b[k]; }
  }

  lemma ExtendEnds(caps: map<nat, string>, ms: seq<Match>, j: nat)
    ensures EndsAt(Extend(caps, ms), j) <==> EndsAt(ms, j)
  {
    if k :| 0 <= k < |ms| && ms[k].end == j { assert Extend(caps, ms)[k].end == j; }
  }

  lemma CaptureEnds(ms: seq<Match>, id: nat, s: string, i: nat, j: nat)
    requires Between(ms, i, |s|)
    ensures EndsAt(Capture(ms, id, s, i), j) <==> EndsAt(ms, j)
  {
    if k :| 0 <= k < |ms| && ms[k].end == j { assert Capture(ms, id, s, i)[k].end == j; }
  }

  lemma SingleEnd(e: nat, j: nat)
    ensures EndsAt([Match(e, map[])], j) <==> e == j
    ensures !EndsAt([], j)
  {
    assert [Match(e, map[])][0].end == e;
  }

  lemma {:induction false} AdvancingEnds(ms: seq<Match>, i: nat, hi: nat, j: nat)
    requires Between(ms, 0, hi)
    ensures EndsAt(Advancing(ms, i, hi), j) <==> EndsAt(ms, j) && i < j
    decreases |ms|
  {
    if ms != [] {
      var rest := ms[1..];
      AdvancingEnds(rest, i, hi, j);
      ConcatEnds([ms[0]], rest, j);
      ConcatEnds([ms[0]], Advancing(rest, i, hi), j);
      assert ms == [ms[0]] + rest;
      assert EndsAt([ms[0]], j) <==> [ms[0]][0].end == j;
    }
  }

  lemma {:induction false} ChainEnds(ms: seq<Match>, re: Re, s: string, lo: nat, j: nat)
    requires lo <= |s| && Between(ms, lo, |s|)
    ensures EndsAt(Chain(ms, re, s, lo), j) <==> Continues(ms, re, s, j)
    decreases |ms|
  {
    if ms != [] {
      var rest := ms[1..];
      var first := Ends(re, s, ms[0].end);
      ChainEnds(rest, re, s, lo, j);
      ExtendEnds(ms[0].caps, first, j);
      ConcatEnds(Extend(ms[0].caps, first), Chain(rest, re, s, lo), j);
      ContinuesStep(ms, re, s, j);
    }
  }

  lemma ContinuesStep(ms: seq<Match>, re: Re, s: string, j: nat)
    requires ms != [] && Between(ms, 0, |s|)
    ensures Continues(ms, re, s, j) <==> EndsAt(Ends(re, s, ms[0].end), j) || Continues(ms[1..], re, s, j)
  {
    var rest := ms[1..];
    if k :| 0 <= k < |rest| && EndsAt(Ends(re, s, rest[k].end), j) { assert ms[k + 1] == rest[k]; }
    if k :| 0 <= k < |ms| && EndsAt(Ends(re, s, ms[k].end), j) {
      if k > 0 { assert rest[k - 1] == ms[k]; }
    }
  }

  lemma ThenSplit(a: Re, b: Re, s: string, i: nat, j: nat) returns (k: nat)
    requires i <= j <= |s| && Denotes(Then(a, b), s, i, j)
    ensures i <= k <= j && Denotes(a, s, i, k) && Denotes(b, s, k, j)
  {
    k :| i <= k <= j && Denotes(a, s, i, k) && Denotes(b, s, k, j);
  }

  lemma ManySplit(re: Re, s: string, i: nat, j: nat) returns (k: nat)
    requires i < j <= |s| && re.Many? && Denotes(re, s, i, j)
    ensures i < k <= j && Denotes(re.body, s, i, k) && Denotes(re, s, k, j)
  {
    k :| i < k <= j && Denotes(re.body, s, i, k) && Denotes(re, s, k, j);
  }

  /** The backtracking search is sound and complete for the language. */
  lemma {:induction false} EndsAreDenotations(re: Re, s: string, i: nat, j: nat)
    requires i <= j <= |s|
    ensures EndsAt(Ends(re, s, i), j) <==> Denotes(re, s, i, j)
    decreases re, |s| - i
  {
    match re
    case Eps => SingleEnd(i, j);
    case Lit(w) => SingleEnd(i + |w|, j);
    case One(c) => SingleEnd(i + 1, j);
    case Then(a, b) =>
      forall k | i <= k <= j
        ensures EndsAt(Ends(a, s, i), k) <==> Denotes(a, s, i, k)
        ensures EndsAt(Ends(b, s, k), j) <==> Denotes(b, s, k, j)
      {
        EndsAreDenotations(a, s, i, k);
        EndsAreDenotations(b, s, k, j);
      }
      ThenEnds(a, b, s, i, j);
    case Or(a, b) =>
      EndsAreDenotations(a, s, i, j);
      EndsAreDenotations(b, s, i, j);
      ConcatEnds(Ends(a, s, i), Ends(b, s, i), j);
    case Many(a, greedy) =>
      forall k | i < k <= j
        ensures EndsAt(Ends(a, s, i), k) <==> Denotes(a, s, i, k)
        ensures EndsAt(Ends(re, s, k), j) <==> Denotes(re, s, k, j)
      {
        EndsAreDenotations(a, s, i, k);
        EndsAreDenotations(re, s, k, j);
      }
      ManyEnds(a, greedy, s, i, j);
    case Group(id, a) =>
      EndsAreDenotations(a, s, i, j);
      CaptureEnds(Ends(a, s, i), id, s, i, j);
    case LineStart => SingleEnd(i, j);
    case LineEnd => SingleEnd(i, j);
    case TextEnd => SingleEnd(i, j);
  }

  lemma ThenEnds(a: Re, b: Re, s: string, i: nat, j: nat)
    requires i <= j <= |s|
    requires forall k | i <= k <= j :: EndsAt(Ends(a, s, i), k) <==> Denotes(a, s, i, k)
    requires forall k | i <= k <= j :: EndsAt(Ends(b, s, k), j) <==> Denotes(b, s, k, j)
    ensures EndsAt(Ends(Then(a, b), s, i), j) <==> Denotes(Then(a, b), s, i, j)
  {
    var ms := Ends(a, s, i);
    ChainEnds(ms, b, s, i, j);
    ContinuesMeans(ms, Then(a, b), s, i, j);
  }

  lemma ContinuesMeans(ms: seq<Match>, re: Re, s: string, i: nat, j: nat)
    requires i <= j <= |s| && re.Then? && Between(ms, i, |s|)
    requires forall k | i <= k <= j :: EndsAt(ms, k) <==> Denotes(re.left, s, i, k)
    requires forall k | i <= k <= j :: EndsAt(Ends(re.right, s, k), j) <==> Denotes(re.right, s, k, j)
    ensures Continues(ms, re.right, s, j) <==> Denotes(re, s, i, j)
  {
    if Continues(ms, re.right, s, j) {
      var q :| 0 <= q < |ms| && EndsAt(Ends(re.right, s, ms[q].end), j);
      assert EndsAt(ms, ms[q].end);
    }
    if Denotes(re, s, i, j) {
      var k := ThenSplit(re.left, re.right, s, i, j);
      var q :| 0 <= q < |ms| && ms[q].end == k;
      assert EndsAt(Ends(re.right, s, ms[q].end), j);
    }
  }

  lemma ManyEnds(a: Re, greedy: bool, s: string, i: nat, j: nat)
    requires i <= j <= |s|
    requires forall k | i < k <= j :: EndsAt(Ends(a, s, i), k) <==> Denotes(a, s, i, k)
    requires forall k | i < k <= j :: EndsAt(Ends(Many(a, greedy), s, k), j) <==> Denotes(Many(a, greedy), s, k, j)
    ensures EndsAt(Ends(Many(a, greedy), s, i), j) <==> Denotes(Many(a, greedy), s, i, j)
  {
    var re := Many(a, greedy);
    SingleEnd(i, j);
    if i < |s| {
      var again := Chain(Advancing(Ends(a, s, i), i, |s|), re, s, i + 1);
      AgainEnds(a, greedy, s, i, j);
      ConcatEnds(again, [Match(i, map[])], j);
      ConcatEnds([Match(i, map[])], again, j);
    } else {
      assert Ends(re, s, i) == [Match(i, map[])];
    }
  }

  /** The matches that begin with at least one repetition. */
  lemma AgainEnds(a: Re, greedy: bool, s: string, i: nat, j: nat)
    requires i <= j <= |s| && i < |s|
    requires forall k | i < k <= j :: EndsAt(Ends(a, s, i), k) <==> Denotes(a, s, i, k)
    requires forall k | i < k <= j :: EndsAt(Ends(Many(a, greedy), s, k), j) <==> Denotes(Many(a, greedy), s, k, j)
    ensures EndsAt(Chain(Advancing(Ends(a, s, i), i, |s|), Many(a, greedy), s, i + 1), j)
       <==> i < j && Denotes(Many(a, greedy), s, i, j)
  {
    var re := Many(a, greedy);
    var steps := Advancing(Ends(a, s, i), i, |s|);
    ChainEnds(steps, re, s, i + 1, j);
    forall k | i < k <= j ensures EndsAt(steps, k) <==> Denotes(a, s, i, k) {
      AdvancingEnds(Ends(a, s, i), i, |s|, k);
    }
    if i < j { RepeatedEnds(steps, a, re, s, i, j); }
  }

  lemma RepeatedEnds(steps: seq<Match>, a: Re, re: Re, s: string, i: nat, j: nat)
    requires i < j <= |s| && re.Many? && re.body == a && Between(steps, i + 1, |s|)
    requires forall k | i < k <= j :: EndsAt(steps, k) <==> Denotes(a, s, i, k)
    requires forall k | i < k <= j :: EndsAt(Ends(re, s, k), j) <==> Denotes(re, s, k, j)
    ensures Continues(steps, re, s, j) <==> Denotes(re, s, i, j)
  {
    if Continues(steps, re, s, j) {
      var q :| 0 <= q < |steps| && EndsAt(Ends(re, s, steps[q].end), j);
      assert EndsAt(steps, steps[q].end);
    }
    if Denotes(re, s, i, j) {
      var k := ManySplit(re, s, i, j);
      var q :| 0 <= q < |steps| && steps[q].end == k;
      assert EndsAt(Ends(re, s, steps[q].end), j);
    }
  }
}
