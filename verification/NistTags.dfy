/** Reading NIST tags and writing them in a canonical form. */
module NistTags {
  import opened Regex
  import opened Matching
  import opened NistHierarchy
  import opened Text

  // ---- Reading a tag ----

  const CAPITAL := Range('A', 'Z')
  const SCRIPT_DOT := Except({'\n', '\r', '\U{2028}', '\U{2029}'})
  const SCRIPT_SPACE := WideSpace({})

  /** `[\s\(\)\.]` */
  const SEPARATOR := WideSpace({'(', ')', '.'})

  function Plus(c: Class): Re {
    Then(One(c), Many(One(c), true))
  }

  const REVISION_SPACE := WideSpace({'_', '.'})
  const REVISION_NUMBER := Then(Group(1, Plus(DIGIT)), TextEnd)

  // From the start of the tag: `rev[\s_.]+(\d+)$` in any case, `[A-Z]{2}$` and `([A-Z]{2})-([0-9]+)(.{0,60})$`.
  const REVISION :=
    Then(One(Only({'r', 'R'})), Then(One(Only({'e', 'E'})), Then(One(Only({'v', 'V'})),
      Then(Plus(REVISION_SPACE), REVISION_NUMBER))))
  const FAMILY := Then(One(CAPITAL), Then(One(CAPITAL), TextEnd))
  const PARTS := Then(Group(3, UpTo(One(SCRIPT_DOT), 60)), TextEnd)
  const NUMBER := Then(Group(2, Plus(DIGIT)), PARTS)
  const CONTROL := Then(Group(1, Then(One(CAPITAL), One(CAPITAL))), Then(Lit("-"), NUMBER))

  /** The characters the expressions speak of. */
  lemma ClassesMean(c: char)
    ensures CAPITAL.Has(c) <==> 'A' <= c <= 'Z'
    ensures SCRIPT_DOT.Has(c) <==> c !in {'\n', '\r', '\U{2028}', '\U{2029}'}
    ensures SCRIPT_SPACE.Has(c) <==> WideBlank(c)
    ensures SEPARATOR.Has(c) <==> WideBlank(c) || c == '(' || c == ')' || c == '.'
  {}

  datatype Tag = Revision(digits: string) | NistControl(parts: Control) | NotATag

  /** What is left between separators, empty pieces aside. */
  function Tokens(s: string): seq<string>
    decreases |s|
  {
    if s == "" then []
    else if SEPARATOR.Has(s[0]) then Tokens(s[1..])
    else
      var e := WordEnd(s);
      [s[..e]] + Tokens(s[e..])
  }

  /** Where the word at the start of `s` ends. */
  function WordEnd(s: string): (e: nat)
    requires s != "" && !SEPARATOR.Has(s[0])
    ensures 0 < e <= |s|
    ensures forall k | 0 <= k < e :: !SEPARATOR.Has(s[k])
    ensures e < |s| ==> SEPARATOR.Has(s[e])
    decreases |s|
  {
    if |s| == 1 || SEPARATOR.Has(s[1]) then 1 else 1 + WordEnd(s[1..])
  }

  function CapAt(m: Match, id: nat): string {
    if id in m.caps then m.caps[id] else ""
  }

  function Parse(raw: string): Tag {
    if Accepts(REVISION, raw, 0) then Revision(CapAt(First(REVISION, raw, 0), 1))
    else if Accepts(FAMILY, raw, 0) then NistControl([raw])
    else if Accepts(CONTROL, raw, 0) then
      var m := First(CONTROL, raw, 0);
      NistControl([CapAt(m, 1), CapAt(m, 2)] + Tokens(Trim(SCRIPT_SPACE, CapAt(m, 3))))
    else NotATag
  }

  // ---- Writing it ----

  datatype Config =
    Config(maxSpecifiers: int, padZeros: bool, allowLetters: bool, addSpaces: bool, addParens: bool, addPeriods: bool)

  predicate HexDigit(c: char) {
    DIGIT.Has(c) || 'a' <= c <= 'f' || 'A' <= c <= 'F'
  }

  function DropSign(s: string): string {
    if s != "" && (s[0] == '+' || s[0] == '-') then s[1..] else s
  }

  /** Hexadecimal digits after `0x`, or decimal digits. */
  predicate StartsNumber(s: string) {
    if |s| > 1 && s[0] == '0' && (s[1] == 'x' || s[1] == 'X') then |s| > 2 && HexDigit(s[2])
    else s != "" && DIGIT.Has(s[0])
  }

  /** `parseInt` gives a number: white space, a sign and digits. */
  predicate IsNumber(spec: string) {
    if spec != "" && SCRIPT_SPACE.Has(spec[0]) then IsNumber(spec[1..]) else StartsNumber(DropSign(spec))
  }

  function Padded(spec: string, config: Config): string {
    if config.padZeros && |spec| < 2 then "0" + spec else spec
  }

  function Before(config: Config): string {
    if config.addSpaces then " " else ""
  }

  function NumberText(i: nat, spec: string, config: Config): string {
    if i <= 1 then Padded(spec, config)
    else if config.addParens then Before(config) + "(" + Padded(spec, config) + ")"
    else Before(config) + Padded(spec, config)
  }

  function LetterText(spec: string, config: Config): string {
    if config.addPeriods then Before(config) + spec + "." else Before(config) + spec
  }

  /** What the loop adds for sub-specifier `i`. */
  function Written(i: nat, spec: string, config: Config): string {
    if IsNumber(spec) then NumberText(i, spec, config)
    else if config.allowLetters then LetterText(spec, config)
    else ""
  }

  /** The sub-specifiers from `i` on, written one after the other. */
  function WrittenFrom(c: Control, i: nat, config: Config): string
    decreases |c| - i
  {
    if i < |c| && i < config.maxSpecifiers then Written(i, c[i], config) + WrittenFrom(c, i + 1, config) else ""
  }

  function Canonical(c: Control, config: Config): string {
    (if c == [] then "" else c[0]) + (if |c| > 1 then "-" else "") + WrittenFrom(c, 1, config)
  }

  method WriteNumber(i: nat, specifier: string, config: Config) returns (spec: string)
    ensures spec == NumberText(i, specifier, config)
  {
    spec := specifier;
    if config.padZeros && |spec| < 2 {
      spec := "0" + spec;
    }
    if i > 1 {
      if config.addParens {
        spec := "(" + spec + ")";
      }
      if config.addSpaces {
        spec := " " + spec;
      }
      assert "" + spec == spec;
    }
  }

  method WriteLetter(spec: string, config: Config) returns (r: string)
    ensures r == LetterText(spec, config)
  {
    r := "";
    if config.addSpaces {
      r := r + " ";
    }
    r := r + spec;
    if config.addPeriods {
      r := r + ".";
    }
  }

  lemma WrittenStep(before: string, after: string, c: Control, i: nat, config: Config)
    requires i < |c| && i < config.maxSpecifiers && after == before + Written(i, c[i], config)
    ensures after + WrittenFrom(c, i + 1, config) == before + WrittenFrom(c, i, config)
  {
    Assoc(before, Written(i, c[i], config), WrittenFrom(c, i + 1, config));
  }

  lemma Assoc(a: string, b: string, c: string)
    ensures a + (b + c) == a + b + c
  {}

  // ---- The expressions on a tag ----

  lemma AfterCaptured(a: Re, re: Re, s: string, i: nat, e: nat, caps: map<nat, string>)
    requires i <= e <= |s| && Ends(a, s, i) == [Match(e, caps)]
    ensures Ends(Then(a, re), s, i) == Extend(caps, Ends(re, s, e))
  {
    var ms := [Match(e, caps)];
    assert ms[1..] == [];
    assert Chain(ms, re, s, i) == Extend(caps, Ends(re, s, e));
  }

  lemma PlusEnds(c: Class, s: string, i: nat)
    requires i < |s| && c.Has(s[i])
    ensures i < RunEnd(c, s, i) && Ends(Plus(c), s, i) == RunMatches(i + 1, RunEnd(c, s, i), true)
  {
    AfterSingle(One(c), Many(One(c), true), s, i, i + 1);
    RunEnds(c, true, s, i + 1);
  }

  /** A repeated class, at least once, captured: longest first. */
  lemma CapturedPlusEnds(id: nat, c: Class, s: string, i: nat)
    requires i < |s| && c.Has(s[i])
    ensures var e, ms := RunEnd(c, s, i), Ends(Group(id, Plus(c)), s, i);
            && |ms| == e - i
            && forall q | 0 <= q < |ms| :: ms[q] == Match(e - q, map[id := s[i..e - q]])
  {
    PlusEnds(c, s, i);
    CaptureRuns(id, s, i, RunEnd(c, s, i));
  }

  lemma CaptureRuns(id: nat, s: string, i: nat, e: nat)
    requires i < e <= |s|
    ensures var ms := Capture(RunMatches(i + 1, e, true), id, s, i);
            |ms| == e - i && forall q | 0 <= q < |ms| :: ms[q] == Match(e - q, map[id := s[i..e - q]])
  {
    var runs := RunMatches(i + 1, e, true);
    var ms := Capture(runs, id, s, i);
    forall q | 0 <= q < |ms| ensures ms[q] == Match(e - q, map[id := s[i..e - q]]) {
      assert runs[q] == Match(e - q, map[]);
    }
  }

  lemma PlusNothing(id: nat, c: Class, s: string, i: nat)
    requires i <= |s| && (i < |s| ==> !c.Has(s[i]))
    ensures Ends(Group(id, Plus(c)), s, i) == []
  {
    AfterNothing(One(c), Many(One(c), true), s, i);
  }

  /** At most 60 characters, none of them a line end. */
  predicate ShortLine(s: string) {
    |s| <= 60 && forall k | 0 <= k < |s| :: SCRIPT_DOT.Has(s[k])
  }

  lemma {:induction false} UpToHasNoCaptures(c: Class, n: nat, s: string, i: nat)
    requires i <= |s|
    ensures forall k | 0 <= k < |Ends(UpTo(One(c), n), s, i)| :: Ends(UpTo(One(c), n), s, i)[k].caps == map[]
    decreases n
  {
    if n > 0 {
      if i < |s| && c.Has(s[i]) {
        AfterSingle(One(c), UpTo(One(c), n - 1), s, i, i + 1);
        UpToHasNoCaptures(c, n - 1, s, i + 1);
      } else {
        AfterNothing(One(c), UpTo(One(c), n - 1), s, i);
      }
    }
  }

  /** The first match that ends at `j`. */
  lemma {:induction false} FirstEndingAt(ms: seq<Match>, j: nat) returns (k: nat)
    requires EndsAt(ms, j)
    ensures k < |ms| && ms[k].end == j && forall q | 0 <= q < k :: ms[q].end != j
    decreases |ms|
  {
    if ms[0].end == j {
      k := 0;
    } else {
      var q :| 0 <= q < |ms| && ms[q].end == j;
      assert ms[1..][q - 1] == ms[q];
      var r := FirstEndingAt(ms[1..], j);
      k := r + 1;
    }
  }

  lemma PartsMatch(s: string, i: nat)
    requires i <= |s|
    ensures Accepts(PARTS, s, i) <==> ShortLine(s[i..])
    ensures Accepts(PARTS, s, i) ==> First(PARTS, s, i) == Match(|s|, map[3 := s[i..]])
  {
    var ms := Ends(Group(3, UpTo(One(SCRIPT_DOT), 60)), s, i);
    ShortLineEnds(s, i);
    ChainAccepts(ms, TextEnd, s, i);
    if EndsAt(ms, |s|) {
      var k := FirstEndingAt(ms, |s|);
      WholeCaptured(s, i, k);
      ThenFirst(Group(3, UpTo(One(SCRIPT_DOT), 60)), TextEnd, s, i, k);
    }
  }

  lemma ShortLineEnds(s: string, i: nat)
    requires i <= |s|
    ensures EndsAt(Ends(Group(3, UpTo(One(SCRIPT_DOT), 60)), s, i), |s|) <==> ShortLine(s[i..])
  {
    UpToDenotes(SCRIPT_DOT, 60, s, i, |s|);
    EndsAreDenotations(Group(3, UpTo(One(SCRIPT_DOT), 60)), s, i, |s|);
    assert forall k | i <= k < |s| :: s[i..][k - i] == s[k];
  }

  lemma WholeCaptured(s: string, i: nat, k: nat)
    requires i <= |s|
    requires var ms := Ends(Group(3, UpTo(One(SCRIPT_DOT), 60)), s, i); k < |ms| && ms[k].end == |s|
    ensures Ends(Group(3, UpTo(One(SCRIPT_DOT), 60)), s, i)[k] == Match(|s|, map[3 := s[i..]])
  {
    UpToHasNoCaptures(SCRIPT_DOT, 60, s, i);
    assert s[i..|s|] == s[i..];
  }

  lemma ShortSuffix(s: string, i: nat, j: nat)
    requires i <= j <= |s| && ShortLine(s[i..])
    ensures ShortLine(s[j..])
  {
    assert forall k | 0 <= k < |s| - j :: s[j..][k] == s[i..][j - i + k];
  }

  lemma NotShorter(s: string, i: nat, j: nat)
    requires i <= j <= |s| && !ShortLine(s[j..])
    ensures !ShortLine(s[i..])
  {
    if ShortLine(s[i..]) { ShortSuffix(s, i, j); }
  }

  /** The digits are all taken, whatever follows them. */
  lemma NumberMatch(s: string, i: nat)
    requires i <= |s|
    ensures var e := RunEnd(DIGIT, s, i);
            && (Accepts(NUMBER, s, i) <==> i < e && ShortLine(s[e..]))
            && (Accepts(NUMBER, s, i) ==> First(NUMBER, s, i) == Match(|s|, map[2 := s[i..e], 3 := s[e..]]))
  {
    var e := RunEnd(DIGIT, s, i);
    if i == e {
      PlusNothing(2, DIGIT, s, i);
      AfterNothing(Group(2, Plus(DIGIT)), PARTS, s, i);
    } else {
      CapturedPlusEnds(2, DIGIT, s, i);
      NumberFirst(s, i, e, Ends(Group(2, Plus(DIGIT)), s, i));
    }
  }

  lemma NumberFirst(s: string, i: nat, e: nat, ms: seq<Match>)
    requires i < e <= |s| && ms == Ends(Group(2, Plus(DIGIT)), s, i) && |ms| == e - i
    requires forall q | 0 <= q < |ms| :: ms[q] == Match(e - q, map[2 := s[i..e - q]])
    ensures Accepts(NUMBER, s, i) <==> ShortLine(s[e..])
    ensures Accepts(NUMBER, s, i) ==> First(NUMBER, s, i) == Match(|s|, map[2 := s[i..e], 3 := s[e..]])
  {
    PartsMatch(s, e);
    if ShortLine(s[e..]) {
      assert ms[0] == Match(e, map[2 := s[i..e]]);
      ThenFirst(Group(2, Plus(DIGIT)), PARTS, s, i, 0);
      assert map[2 := s[i..e]] + map[3 := s[e..]] == map[2 := s[i..e], 3 := s[e..]];
    } else {
      forall q | 0 <= q < |ms| ensures !Accepts(PARTS, s, ms[q].end) {
        PartsMatch(s, e - q);
        NotShorter(s, e - q, e);
      }
      ChainAccepts(ms, PARTS, s, i);
    }
  }

  predicate TwoCapitals(f: string) {
    |f| == 2 && CAPITAL.Has(f[0]) && CAPITAL.Has(f[1])
  }

  lemma CapitalsEnds(s: string)
    ensures var pair := Then(One(CAPITAL), One(CAPITAL));
            Ends(Group(1, pair), s, 0)
              == if |s| >= 2 && TwoCapitals(s[..2]) then [Match(2, map[1 := s[..2]])] else []
  {
    var pair := Then(One(CAPITAL), One(CAPITAL));
    if s != "" && CAPITAL.Has(s[0]) {
      AfterSingle(One(CAPITAL), One(CAPITAL), s, 0, 1);
    } else {
      AfterNothing(One(CAPITAL), One(CAPITAL), s, 0);
    }
    if |s| >= 2 && TwoCapitals(s[..2]) {
      assert Ends(pair, s, 0) == [Match(2, map[])];
      assert s[0..2] == s[..2];
    } else {
      assert Ends(pair, s, 0) == [];
    }
  }

  lemma DashNumber(s: string)
    requires |s| > 2 && s[2] == '-'
    ensures var re, e := Then(Lit("-"), NUMBER), RunEnd(DIGIT, s, 3);
            && (Accepts(re, s, 2) <==> 3 < e && ShortLine(s[e..]))
            && (Accepts(re, s, 2) ==> First(re, s, 2) == Match(|s|, map[2 := s[3..e], 3 := s[e..]]))
  {
    assert s[2..3] == "-";
    AcceptsLitThen("-", NUMBER, s, 2);
    NumberMatch(s, 3);
  }

  lemma ControlAt(s: string, f: string)
    requires |s| > 2 && s[..2] == f && TwoCapitals(f) && s[2] == '-'
    ensures var e := RunEnd(DIGIT, s, 3);
            && (Accepts(CONTROL, s, 0) <==> 3 < e && ShortLine(s[e..]))
            && (Accepts(CONTROL, s, 0) ==>
                  First(CONTROL, s, 0) == Match(|s|, map[1 := f, 2 := s[3..e], 3 := s[e..]]))
  {
    CapitalsEnds(s);
    AfterCaptured(Group(1, Then(One(CAPITAL), One(CAPITAL))), Then(Lit("-"), NUMBER), s, 0, 2, map[1 := f]);
    DashNumber(s);
    var e := RunEnd(DIGIT, s, 3);
    assert map[1 := f] + map[2 := s[3..e], 3 := s[e..]] == map[1 := f, 2 := s[3..e], 3 := s[e..]];
  }

  lemma TagParts(f: string, t: string, s: string)
    requires s == f + "-" + t && |f| == 2
    ensures |s| == 3 + |t| && s[..2] == f && s[2] == '-' && t == s[3..3 + |t|]
    ensures forall e | 0 <= e <= |t| :: s[3..3 + e] == t[..e] && s[3 + e..] == t[e..]
  {}

  /** A family, a dash, and then the digits and the rest. */
  lemma ControlMatch(f: string, t: string)
    requires TwoCapitals(f)
    ensures var s, e := f + "-" + t, RunEnd(DIGIT, t, 0);
            && (Accepts(CONTROL, s, 0) <==> 0 < e && ShortLine(t[e..]))
            && (Accepts(CONTROL, s, 0) ==>
                  First(CONTROL, s, 0) == Match(|s|, map[1 := f, 2 := t[..e], 3 := t[e..]]))
  {
    var s := f + "-" + t;
    TagParts(f, t, s);
    RunEndInside(DIGIT, s, t);
    ControlAt(s, f);
  }

  lemma RunEndInside(c: Class, s: string, t: string)
    requires |s| == 3 + |t| && t == s[3..3 + |t|]
    ensures RunEnd(c, s, 3) == 3 + RunEnd(c, t, 0)
  {
    RunEndShift(c, s, t, 3, 0);
  }

  lemma FamilyMatch(s: string)
    ensures Accepts(FAMILY, s, 0) <==> TwoCapitals(s)
  {
    AcceptsOneThen(CAPITAL, Then(One(CAPITAL), TextEnd), s, 0);
    if s != "" { AcceptsOneThen(CAPITAL, TextEnd, s, 1); }
  }

  lemma NoRevision(s: string)
    requires |s| > 2 ==> s[2] != 'v' && s[2] != 'V'
    ensures !Accepts(REVISION, s, 0)
  {
    var last := Then(Plus(WideSpace({'_', '.'})), Then(Group(1, Plus(DIGIT)), TextEnd));
    var third := Then(One(Only({'v', 'V'})), last);
    var second := Then(One(Only({'e', 'E'})), third);
    AcceptsOneThen(Only({'r', 'R'}), second, s, 0);
    if s != "" {
      AcceptsOneThen(Only({'e', 'E'}), third, s, 1);
      if |s| > 1 { AcceptsOneThen(Only({'v', 'V'}), last, s, 2); }
    }
  }

  // ---- Tokens ----

  lemma {:induction false} WordEndIs(s: string, e: nat)
    requires 0 < e <= |s| && (forall k | 0 <= k < e :: !SEPARATOR.Has(s[k])) && (e < |s| ==> SEPARATOR.Has(s[e]))
    ensures WordEnd(s) == e
  {
    var d := WordEnd(s);
  }

  lemma SkipSeparator(x: string, y: string)
    requires x != "" && SEPARATOR.Has(x[0])
    ensures Tokens(x + y) == Tokens(x[1..] + y)
  {
    assert (x + y)[1..] == x[1..] + y;
  }

  lemma TakeWord(x: string, y: string, e: nat)
    requires 0 < e <= |x| && (forall k | 0 <= k < e :: !SEPARATOR.Has(x[k]))
    requires if e < |x| then SEPARATOR.Has(x[e]) else y != "" ==> SEPARATOR.Has(y[0])
    ensures Tokens(x + y) == [x[..e]] + Tokens(x[e..] + y)
  {
    var s := x + y;
    ConcatParts(x, y, e);
    assert forall k | 0 <= k < e :: s[k] == x[k];
    assert e < |s| ==> s[e] == if e < |x| then x[e] else y[0];
    FirstWord(s, e);
  }

  lemma ConcatParts(x: string, y: string, e: nat)
    requires e <= |x|
    ensures (x + y)[..e] == x[..e] && (x + y)[e..] == x[e..] + y
  {}

  lemma FirstWord(s: string, e: nat)
    requires 0 < e <= |s| && (forall k | 0 <= k < e :: !SEPARATOR.Has(s[k])) && (e < |s| ==> SEPARATOR.Has(s[e]))
    ensures Tokens(s) == [s[..e]] + Tokens(s[e..])
  {
    WordEndIs(s, e);
  }

  /** Texts that do not run into each other are split one after the other. */
  lemma {:induction false} TokensConcat(x: string, y: string)
    requires x != "" && y != "" ==> SEPARATOR.Has(x[|x| - 1]) || SEPARATOR.Has(y[0])
    ensures Tokens(x + y) == Tokens(x) + Tokens(y)
    decreases |x|
  {
    if x == "" {
      assert x + y == y;
    } else if SEPARATOR.Has(x[0]) {
      TokensConcat(x[1..], y);
      SkipSeparator(x, y);
    } else {
      var e := WordEnd(x);
      TokensConcat(x[e..], y);
      TakeWord(x, y, e);
    }
  }

  predicate AllSeparators(s: string) {
    forall k | 0 <= k < |s| :: SEPARATOR.Has(s[k])
  }

  predicate IsWord(s: string) {
    s != "" && forall k | 0 <= k < |s| :: !SEPARATOR.Has(s[k])
  }

  lemma {:induction false} NoTokens(s: string)
    requires AllSeparators(s)
    ensures Tokens(s) == []
    decreases |s|
  {
    if s != "" { NoTokens(s[1..]); }
  }

  lemma TokenOfWord(s: string)
    requires IsWord(s)
    ensures Tokens(s) == [s]
  {
    WordEndIs(s, |s|);
    assert s[..|s|] == s && s[|s|..] == "";
  }

  /** Trimming first makes no difference. */
  lemma TokensOfTrim(s: string)
    ensures Tokens(Trim(SCRIPT_SPACE, s)) == Tokens(s)
  {
    var a := RunEnd(SCRIPT_SPACE, s, 0);
    var b := RunStart(SCRIPT_SPACE, s, a, |s|);
    RunEndMeans(SCRIPT_SPACE, s, 0);
    RunStartMeans(SCRIPT_SPACE, s, a, |s|);
    BlanksSeparate(s[..a]);
    BlanksSeparate(s[b..]);
    ThreeParts(s, a, b);
    TrimmedTokens(s[..a], s[a..b], s[b..]);
  }

  lemma BlanksSeparate(s: string)
    requires forall k | 0 <= k < |s| :: SCRIPT_SPACE.Has(s[k])
    ensures AllSeparators(s)
  {}

  lemma ThreeParts(s: string, a: nat, b: nat)
    requires a <= b <= |s|
    ensures s == s[..a] + (s[a..b] + s[b..])
  {}

  lemma TrimmedTokens(x: string, y: string, z: string)
    requires AllSeparators(x) && AllSeparators(z)
    ensures Tokens(x + (y + z)) == Tokens(y)
  {
    TokensConcat(x, y + z);
    TokensConcat(y, z);
    NoTokens(x);
    NoTokens(z);
  }

  // ---- Words between separators ----

  datatype Piece = Piece(left: string, body: string, right: string) {
    function Text(): string { left + body + right }
    predicate Good() { AllSeparators(left) && IsWord(body) && AllSeparators(right) }
  }

  function PiecesText(ps: seq<Piece>): string {
    if ps == [] then "" else ps[0].Text() + PiecesText(ps[1..])
  }

  function Bodies(ps: seq<Piece>): (r: seq<string>)
    ensures |r| == |ps| && forall k | 0 <= k < |ps| :: r[k] == ps[k].body
  {
    seq(|ps|, k requires 0 <= k < |ps| => ps[k].body)
  }

  predicate AllGood(ps: seq<Piece>) {
    forall k | 0 <= k < |ps| :: ps[k].Good()
  }

  /** There is something between any two bodies. */
  predicate Apart(ps: seq<Piece>) {
    forall k | 0 < k < |ps| :: ps[k - 1].right != "" || ps[k].left != ""
  }

  /** Two words that run into each other are one. */
  lemma MergedTokens(x: string, y: string)
    requires IsWord(x) && y != "" && !SEPARATOR.Has(y[0])
    ensures |Tokens(x + y)| == |Tokens(y)|
  {
    var e := WordEnd(y);
    WordEndIs(x + y, |x| + e);
    assert (x + y)[|x| + e..] == y[e..];
  }

  lemma TokensOfFirst(p: Piece, rest: string)
    requires p.Good()
    ensures Tokens(p.Text() + rest) == Tokens(p.body + (p.right + rest))
  {
    assert p.Text() + rest == p.left + (p.body + (p.right + rest));
    TokensConcat(p.left, p.body + (p.right + rest));
    NoTokens(p.left);
  }

  /** When the body of the first piece does not run into what follows. */
  lemma FirstApart(p: Piece, rest: string)
    requires p.Good() && (p.right != "" || rest == "" || SEPARATOR.Has(rest[0]))
    ensures Tokens(p.Text() + rest) == [p.body] + Tokens(rest)
  {
    TokensOfFirst(p, rest);
    WordThenRest(p.body, p.right, rest);
  }

  lemma WordThenRest(w: string, right: string, rest: string)
    requires IsWord(w) && AllSeparators(right) && (right != "" || rest == "" || SEPARATOR.Has(rest[0]))
    ensures Tokens(w + (right + rest)) == [w] + Tokens(rest)
  {
    if right == "" { assert right + rest == rest; }
    TokensConcat(w, right + rest);
    TokenOfWord(w);
    TokensConcat(right, rest);
    NoTokens(right);
    assert [] + Tokens(rest) == Tokens(rest);
  }

  lemma FirstMerged(p: Piece, rest: string)
    requires p.Good() && p.right == "" && rest != "" && !SEPARATOR.Has(rest[0])
    ensures |Tokens(p.Text() + rest)| == |Tokens(rest)|
  {
    TokensOfFirst(p, rest);
    assert p.right + rest == rest;
    MergedTokens(p.body, rest);
  }

  lemma TextStart(ps: seq<Piece>)
    requires ps != [] && AllGood(ps)
    ensures PiecesText(ps) != "" && (SEPARATOR.Has(PiecesText(ps)[0]) <==> ps[0].left != "")
    ensures ps[0].left == "" ==> PiecesText(ps)[0] == ps[0].body[0]
  {}

  /** Splitting gives at most one word per piece, and exactly one per piece when no two of them meet;
      then the words are the bodies. */
  lemma {:induction false} TokensOfPieces(ps: seq<Piece>)
    requires AllGood(ps)
    ensures |Tokens(PiecesText(ps))| <= |ps|
    ensures |Tokens(PiecesText(ps))| == |ps| <==> Apart(ps)
    ensures Apart(ps) ==> Tokens(PiecesText(ps)) == Bodies(ps)
    decreases |ps|
  {
    if ps != [] {
      var p, rest := ps[0], ps[1..];
      TokensOfPieces(rest);
      ApartStep(ps);
      FirstBody(p, rest);
      assert Bodies(ps) == [p.body] + Bodies(rest);
    }
  }

  /** The first piece adds a word exactly when its body does not meet the next one. */
  lemma FirstBody(p: Piece, rest: seq<Piece>)
    requires p.Good() && AllGood(rest)
    ensures var apart := p.right != "" || rest == [] || rest[0].left != "";
            if apart then Tokens(p.Text() + PiecesText(rest)) == [p.body] + Tokens(PiecesText(rest))
            else |Tokens(p.Text() + PiecesText(rest))| == |Tokens(PiecesText(rest))|
  {
    if rest != [] { TextStart(rest); }
    if p.right != "" || rest == [] || rest[0].left != "" {
      FirstApart(p, PiecesText(rest));
    } else {
      FirstMerged(p, PiecesText(rest));
    }
  }

  lemma ApartStep(ps: seq<Piece>)
    requires ps != []
    ensures Apart(ps)
       <==> Apart(ps[1..]) && (|ps| > 1 ==> ps[0].right != "" || ps[1].left != "")
  {
    var rest := ps[1..];
    forall k | 0 < k < |rest| ensures rest[k - 1] == ps[k] && rest[k] == ps[k + 1] {}
    if Apart(rest) && (|ps| > 1 ==> ps[0].right != "" || ps[1].left != "") {
      forall k | 0 < k < |ps| ensures ps[k - 1].right != "" || ps[k].left != "" {
        if k > 1 { assert rest[k - 2] == ps[k - 1] && rest[k - 1] == ps[k]; }
      }
    }
  }

  // ---- Parsing the canonical form ----

  /** A family and a tag after the dash. */
  lemma ParseTag(f: string, t: string)
    requires TwoCapitals(f)
    ensures var e := RunEnd(DIGIT, t, 0);
            Parse(f + "-" + t)
              == if 0 < e && ShortLine(t[e..]) then NistControl([f, t[..e]] + Tokens(t[e..])) else NotATag
  {
    var s, e := f + "-" + t, RunEnd(DIGIT, t, 0);
    TagParts(f, t, s);
    NoRevision(s);
    FamilyMatch(s);
    ControlMatch(f, t);
    TokensOfTrim(t[e..]);
  }

  lemma ParseFamily(f: string)
    requires TwoCapitals(f)
    ensures Parse(f) == NistControl([f])
  {
    NoRevision(f);
    FamilyMatch(f);
  }

  /** A family, or a family with a number and further specifiers, each one word. */
  predicate WellFormed(c: Control) {
    && c != [] && TwoCapitals(c[0]) && (|c| > 1 ==> AllDigits(c[1]))
    && forall i | 2 <= i < |c| :: IsWord(c[i])
  }

  lemma DigitsAreNumber(s: string)
    requires AllDigits(s)
    ensures IsNumber(s)
  {
    assert !SCRIPT_SPACE.Has(s[0]);
  }

  function PieceOf(spec: string, config: Config): Piece {
    if IsNumber(spec)
    then Piece(if config.addParens then Before(config) + "(" else Before(config), Padded(spec, config),
               if config.addParens then ")" else "")
    else Piece(Before(config), spec, if config.addPeriods then "." else "")
  }

  predicate Kept(spec: string, config: Config) {
    IsNumber(spec) || config.allowLetters
  }

  /** The pieces written from specifier `i` on. */
  function Pieces(c: Control, i: nat, config: Config): seq<Piece>
    decreases |c| - i
  {
    if i < |c| && i < config.maxSpecifiers
    then (if Kept(c[i], config) then [PieceOf(c[i], config)] else []) + Pieces(c, i + 1, config)
    else []
  }

  lemma PieceIsWritten(i: nat, spec: string, config: Config)
    requires i > 1 && Kept(spec, config)
    ensures PieceOf(spec, config).Text() == Written(i, spec, config)
  {}

  lemma PieceIsGood(spec: string, config: Config)
    requires IsWord(spec)
    ensures PieceOf(spec, config).Good()
  {
    assert !SEPARATOR.Has('0');
  }

  lemma {:induction false} WrittenInPieces(c: Control, i: nat, config: Config)
    requires i > 1
    ensures WrittenFrom(c, i, config) == PiecesText(Pieces(c, i, config))
    decreases |c| - i
  {
    if i < |c| && i < config.maxSpecifiers {
      WrittenInPieces(c, i + 1, config);
      var rest := Pieces(c, i + 1, config);
      if Kept(c[i], config) {
        PieceIsWritten(i, c[i], config);
        assert ([PieceOf(c[i], config)] + rest)[1..] == rest;
      } else {
        assert [] + rest == rest;
      }
    }
  }

  lemma {:induction false} PiecesAreGood(c: Control, i: nat, config: Config)
    requires i > 1 && WellFormed(c)
    ensures AllGood(Pieces(c, i, config))
    decreases |c| - i
  {
    if i < |c| && i < config.maxSpecifiers {
      PiecesAreGood(c, i + 1, config);
      if Kept(c[i], config) { PieceIsGood(c[i], config); }
    }
  }

  /** From `i` on nothing is left out. */
  predicate NothingDropped(c: Control, i: nat, config: Config) {
    (i < |c| ==> |c| <= config.maxSpecifiers) && forall q | i <= q < |c| :: Kept(c[q], config)
  }

  predicate KeptFrom(c: Control, i: nat, config: Config)
    decreases |c| - i
  {
    i < |c| ==> Kept(c[i], config) && KeptFrom(c, i + 1, config)
  }

  lemma {:induction false} KeptFromMeans(c: Control, i: nat, config: Config)
    ensures KeptFrom(c, i, config) <==> forall q | i <= q < |c| :: Kept(c[q], config)
    decreases |c| - i
  {
    if i < |c| { KeptFromMeans(c, i + 1, config); }
  }

  lemma DroppedStep(c: Control, i: nat, config: Config)
    requires i < |c| && i < config.maxSpecifiers
    ensures NothingDropped(c, i, config) <==> Kept(c[i], config) && NothingDropped(c, i + 1, config)
  {}

  lemma {:induction false} CountPieces(c: Control, i: nat, config: Config)
    requires i <= |c|
    ensures |Pieces(c, i, config)| <= |c| - i
    ensures |Pieces(c, i, config)| == |c| - i <==> i == |c| || (|c| <= config.maxSpecifiers && KeptFrom(c, i, config))
    decreases |c| - i
  {
    if i < |c| && i < config.maxSpecifiers {
      CountPieces(c, i + 1, config);
      PiecesStep(c, i, config);
    }
  }

  lemma PieceCount(c: Control, i: nat, config: Config)
    requires i <= |c|
    ensures |Pieces(c, i, config)| <= |c| - i
    ensures |Pieces(c, i, config)| == |c| - i <==> NothingDropped(c, i, config)
  {
    CountPieces(c, i, config);
    KeptFromMeans(c, i, config);
  }

  lemma PiecesStep(c: Control, i: nat, config: Config)
    requires i < |c| && i < config.maxSpecifiers
    ensures var ps, rest := Pieces(c, i, config), Pieces(c, i + 1, config);
            if Kept(c[i], config) then ps == [PieceOf(c[i], config)] + rest else ps == rest
  {
    var rest := Pieces(c, i + 1, config);
    assert [] + rest == rest;
  }

  lemma {:induction false} PieceOfKept(c: Control, i: nat, config: Config, j: nat)
    requires |c| <= config.maxSpecifiers && KeptFrom(c, i, config) && i <= j < |c|
    ensures j - i < |Pieces(c, i, config)| && Pieces(c, i, config)[j - i] == PieceOf(c[j], config)
    decreases j - i
  {
    PiecesStep(c, i, config);
    if i < j { PieceOfKept(c, i + 1, config, j); }
  }

  lemma PieceAt(c: Control, i: nat, config: Config, k: nat)
    requires NothingDropped(c, i, config) && i + k < |c|
    ensures k < |Pieces(c, i, config)| && Pieces(c, i, config)[k] == PieceOf(c[i + k], config)
  {
    KeptFromMeans(c, i, config);
    PieceOfKept(c, i, config, i + k);
  }

  /** The canonical form sets specifier `i` off from the one before it. */
  predicate SetOff(c: Control, i: nat, config: Config)
    requires 2 <= i < |c| && IsWord(c[i])
  {
    || config.addSpaces
    || (IsNumber(c[i]) && config.addParens)
    || (if i == 2 then !DIGIT.Has(c[i][0])
        else if IsNumber(c[i - 1]) then config.addParens else config.addPeriods)
  }

  /** From `i` on no number is padded. */
  predicate UnpaddedFrom(c: Control, i: nat, config: Config) {
    forall q | i <= q < |c| && IsNumber(c[q]) :: Padded(c[q], config) == c[q]
  }

  /** No specifier is dropped or padded, each is set off from the one before it, and what follows the number is
      short enough to be read. */
  predicate Recoverable(c: Control, config: Config)
    requires WellFormed(c)
  {
    |c| > 1 ==>
      && NothingDropped(c, 1, config) && UnpaddedFrom(c, 1, config)
      && (forall i | 2 <= i < |c| :: SetOff(c, i, config))
      && |WrittenFrom(c, 2, config)| <= 60
  }

  // ---- Exactly when it is the control again ----

  lemma PiecesOfAll(c: Control, config: Config)
    requires WellFormed(c) && |c| > 1 && NothingDropped(c, 2, config)
    ensures var ps := Pieces(c, 2, config);
            && |ps| == |c| - 2
            && forall k | 0 <= k < |ps| :: ps[k] == PieceOf(c[k + 2], config)
  {
    PieceCount(c, 2, config);
    forall k | 0 <= k < |c| - 2 ensures Pieces(c, 2, config)[k] == PieceOf(c[k + 2], config) {
      PieceAt(c, 2, config, k);
    }
  }

  lemma BodiesAreSpecifiers(c: Control, config: Config)
    requires WellFormed(c) && |c| > 1 && NothingDropped(c, 2, config)
    ensures Bodies(Pieces(c, 2, config)) == c[2..] <==> UnpaddedFrom(c, 2, config)
  {
    PiecesOfAll(c, config);
    var bodies := Bodies(Pieces(c, 2, config));
    forall k | 0 <= k < |c| - 2
      ensures bodies[k] == c[2..][k] <==> (IsNumber(c[k + 2]) ==> Padded(c[k + 2], config) == c[k + 2])
    {
      assert c[2..][k] == c[k + 2];
    }
    if bodies == c[2..] {
      forall q | 2 <= q < |c| && IsNumber(c[q]) ensures Padded(c[q], config) == c[q] {
        assert bodies[q - 2] == c[2..][q - 2];
      }
    }
  }

  lemma SetOffMeans(c: Control, i: nat, config: Config)
    requires 3 <= i < |c| && IsWord(c[i])
    ensures SetOff(c, i, config) <==> PieceOf(c[i - 1], config).right != "" || PieceOf(c[i], config).left != ""
  {}

  lemma ApartIsSetOff(c: Control, config: Config)
    requires WellFormed(c) && |c| > 1 && NothingDropped(c, 2, config)
    ensures Apart(Pieces(c, 2, config)) <==> forall i | 3 <= i < |c| :: SetOff(c, i, config)
  {
    PiecesOfAll(c, config);
    ApartOf(Pieces(c, 2, config), c, config);
  }

  lemma ApartOf(ps: seq<Piece>, c: Control, config: Config)
    requires WellFormed(c) && |c| > 1 && |ps| == |c| - 2
    requires forall k | 0 <= k < |ps| :: ps[k] == PieceOf(c[k + 2], config)
    ensures Apart(ps) <==> forall i | 3 <= i < |c| :: SetOff(c, i, config)
  {
    forall k | 0 < k < |ps|
      ensures ps[k - 1].right != "" || ps[k].left != "" <==> SetOff(c, k + 2, config)
    {
      assert ps[k - 1] == PieceOf(c[(k - 1) + 2], config);
      SetOffMeans(c, k + 2, config);
    }
    if Apart(ps) {
      forall i | 3 <= i < |c| ensures SetOff(c, i, config) {
        var k := i - 2;
        assert ps[k - 1].right != "" || ps[k].left != "";
      }
    }
    if forall i | 3 <= i < |c| :: SetOff(c, i, config) {
      forall k | 0 < k < |ps| ensures ps[k - 1].right != "" || ps[k].left != "" { assert SetOff(c, k + 2, config); }
    }
  }

  /** What follows the number gives the further specifiers back exactly when none of them is dropped, padded or
      run into the one before it. */
  lemma TailTokens(c: Control, config: Config)
    requires WellFormed(c) && |c| > 1
    ensures Tokens(WrittenFrom(c, 2, config)) == c[2..]
       <==> && NothingDropped(c, 2, config) && UnpaddedFrom(c, 2, config)
            && forall i | 3 <= i < |c| :: SetOff(c, i, config)
  {
    var ps := Pieces(c, 2, config);
    WrittenInPieces(c, 2, config);
    PiecesAreGood(c, 2, config);
    TokensOfPieces(ps);
    PieceCount(c, 2, config);
    if NothingDropped(c, 2, config) {
      ApartIsSetOff(c, config);
      BodiesAreSpecifiers(c, config);
    }
  }

  /** Whether the digits of the number go on in what follows. */
  lemma TailStart(c: Control, config: Config)
    requires WellFormed(c) && |c| > 1 && NothingDropped(c, 2, config) && UnpaddedFrom(c, 2, config)
    ensures var w := WrittenFrom(c, 2, config);
            (w == "" || !DIGIT.Has(w[0])) <==> |c| == 2 || SetOff(c, 2, config)
  {
    var ps := Pieces(c, 2, config);
    WrittenInPieces(c, 2, config);
    PiecesAreGood(c, 2, config);
    PiecesOfAll(c, config);
    if |c| > 2 {
      TextStart(ps);
      assert ps[0] == PieceOf(c[2], config);
      NoDigitSeparates(PiecesText(ps)[0]);
    }
  }

  lemma NoDigitSeparates(x: char)
    ensures SEPARATOR.Has(x) ==> !DIGIT.Has(x)
  {}

  predicate IsLine(s: string) {
    forall k | 0 <= k < |s| :: SCRIPT_DOT.Has(s[k])
  }

  lemma LineConcat(a: string, b: string)
    requires IsLine(a) && IsLine(b)
    ensures IsLine(a + b)
  {}

  lemma WrittenIsLine(i: nat, spec: string, config: Config)
    requires IsWord(spec)
    ensures IsLine(Written(i, spec, config))
  {
    var p, before := Padded(spec, config), Before(config);
    WordIsLine(spec);
    assert IsLine("0") && IsLine(before) && IsLine("(") && IsLine(")") && IsLine(".");
    LineConcat("0", spec);
    LineConcat(before, p);
    LineConcat(before, "(");
    LineConcat(before + "(", p);
    LineConcat(before + "(" + p, ")");
    LineConcat(before, spec);
    LineConcat(before + spec, ".");
  }

  lemma WordIsLine(spec: string)
    requires IsWord(spec)
    ensures IsLine(spec)
  {}

  lemma {:induction false} TailIsLine(c: Control, i: nat, config: Config)
    requires WellFormed(c) && i > 1
    ensures IsLine(WrittenFrom(c, i, config))
    decreases |c| - i
  {
    if i < |c| && i < config.maxSpecifiers {
      TailIsLine(c, i + 1, config);
      WrittenIsLine(i, c[i], config);
      LineConcat(Written(i, c[i], config), WrittenFrom(c, i + 1, config));
    }
  }

  /** A number and what follows it. */
  lemma DigitsThen(n: string, w: string)
    requires AllDigits(n)
    ensures RunEnd(DIGIT, n + w, 0) == |n| + RunEnd(DIGIT, w, 0)
    ensures RunEnd(DIGIT, w, 0) == 0 <==> w == "" || !DIGIT.Has(w[0])
    ensures (n + w)[..|n|] == n && (n + w)[|n|..] == w
  {
    var e := RunEnd(DIGIT, w, 0);
    RunEndMeans(DIGIT, w, 0);
    forall k | 0 <= k < |n| + e ensures DIGIT.Has((n + w)[k]) {}
    RunEndIs(DIGIT, n + w, 0, |n| + e);
  }

  lemma PaddedNumber(n: string, config: Config)
    requires AllDigits(n)
    ensures AllDigits(Padded(n, config)) && |Padded(n, config)| >= |n|
    ensures |Padded(n, config)| == |n| ==> Padded(n, config) == n
  {}

  lemma CanonicalText(c: Control, config: Config)
    requires WellFormed(c) && |c| > 1
    ensures Canonical(c, config)
         == c[0] + "-" + if config.maxSpecifiers > 1 then Padded(c[1], config) + WrittenFrom(c, 2, config) else ""
  {
    DigitsAreNumber(c[1]);
  }

  /** After the number, `w` is read as the further specifiers. */
  predicate Readable(c: Control, w: string)
    requires |c| > 1
  {
    (w == "" || !DIGIT.Has(w[0])) && |w| <= 60 && Tokens(w) == c[2..]
  }

  /** The number is read back together with the digits that follow it, so all depends on what follows. */
  lemma ParseCanonical(c: Control, config: Config)
    requires WellFormed(c) && |c| > 1 && config.maxSpecifiers > 1
    ensures Parse(Canonical(c, config)) == NistControl(c)
       <==> Padded(c[1], config) == c[1] && Readable(c, WrittenFrom(c, 2, config))
  {
    var n, w := Padded(c[1], config), WrittenFrom(c, 2, config);
    var t, e := n + w, RunEnd(DIGIT, n + w, 0);
    CanonicalText(c, config);
    PaddedNumber(c[1], config);
    DigitsThen(n, w);
    ParseTag(c[0], t);
    TailIsLine(c, 2, config);
    assert NistControl([c[0], t[..e]] + Tokens(t[e..])) == NistControl(c)
      <==> t[..e] == c[1] && Tokens(t[e..]) == c[2..] by {
      PartsOfControl(c, t[..e], Tokens(t[e..]));
    }
    if t[..e] == c[1] { assert |t[..e]| == e == |c[1]|; }
  }

  lemma PartsOfControl(c: Control, n: string, rest: seq<string>)
    requires |c| > 1
    ensures [c[0], n] + rest == c <==> n == c[1] && rest == c[2..]
  {
    var d := [c[0], n] + rest;
    assert d[1] == n && d[2..] == rest;
    assert c == [c[0], c[1]] + c[2..];
  }

  lemma ReadableIff(c: Control, config: Config)
    requires WellFormed(c) && |c| > 1
    ensures Readable(c, WrittenFrom(c, 2, config))
       <==> && NothingDropped(c, 2, config) && UnpaddedFrom(c, 2, config)
            && (forall i | 2 <= i < |c| :: SetOff(c, i, config)) && |WrittenFrom(c, 2, config)| <= 60
  {
    TailTokens(c, config);
    if NothingDropped(c, 2, config) && UnpaddedFrom(c, 2, config) {
      TailStart(c, config);
      SetOffFromTwo(c, config);
    }
  }

  lemma SetOffFromTwo(c: Control, config: Config)
    requires WellFormed(c) && |c| > 1
    ensures (forall i | 2 <= i < |c| :: SetOff(c, i, config))
       <==> (|c| == 2 || SetOff(c, 2, config)) && forall i | 3 <= i < |c| :: SetOff(c, i, config)
  {}

  lemma UnpaddedStep(c: Control, config: Config)
    requires WellFormed(c) && |c| > 1
    ensures UnpaddedFrom(c, 1, config) <==> Padded(c[1], config) == c[1] && UnpaddedFrom(c, 2, config)
    ensures config.maxSpecifiers > 1 ==> (NothingDropped(c, 1, config) <==> NothingDropped(c, 2, config))
  {
    DigitsAreNumber(c[1]);
    if config.maxSpecifiers > 1 { DroppedStep(c, 1, config); }
  }

  /** For every control and every setting, parsing the canonical form gives the control back exactly when
      nothing is dropped, padded or run together, and what follows the number is no longer than 60 characters. */
  lemma RoundTripIff(c: Control, config: Config)
    requires WellFormed(c)
    ensures Parse(Canonical(c, config)) == NistControl(c) <==> Recoverable(c, config)
  {
    if |c| == 1 {
      ParseFamily(c[0]);
      assert c[0] + "" + "" == c[0] && c == [c[0]];
    } else if config.maxSpecifiers <= 1 {
      CanonicalText(c, config);
      ParseTag(c[0], "");
    } else {
      ParseCanonical(c, config);
      ReadableIff(c, config);
      UnpaddedStep(c, config);
    }
  }

  method WriteSpecifier(i: nat, spec: string, config: Config) returns (text: string)
    ensures text == Written(i, spec, config)
  {
    text := "";
    if IsNumber(spec) {
      text := WriteNumber(i, spec, config);
    } else if config.allowLetters {
      text := WriteLetter(spec, config);
    }
  }

  /** `canonize`: the canonical form, and when it can be read back. */
  method Canonize(c: Control, config: Config) returns (s: string)
    ensures s == Canonical(c, config)
    ensures WellFormed(c) ==> (Parse(s) == NistControl(c) <==> Recoverable(c, config))
  {
    s := if c == [] then "" else c[0];
    if |c| > 1 {
      s := s + "-";
    }
    var i := 1;
    while i < |c| && i < config.maxSpecifiers
      invariant s + WrittenFrom(c, i, config) == Canonical(c, config)
      decreases |c| - i
    {
      var text := WriteSpecifier(i, c[i], config);
      WrittenStep(s, s + text, c, i, config);
      s := s + text;
      i := i + 1;
    }
    assert s + "" == s;
    if WellFormed(c) { RoundTripIff(c, config); }
  }

  // ---- What parsing gives ----

  lemma {:induction false} TokensAreWords(s: string)
    ensures forall k | 0 <= k < |Tokens(s)| :: IsWord(Tokens(s)[k])
    decreases |s|
  {
    if s != "" {
      if SEPARATOR.Has(s[0]) {
        TokensAreWords(s[1..]);
      } else {
        var e := WordEnd(s);
        TokensAreWords(s[e..]);
        assert IsWord(s[..e]);
      }
    }
  }

  lemma ControlStarts(s: string)
    requires Accepts(CONTROL, s, 0)
    ensures |s| > 2 && TwoCapitals(s[..2]) && s[2] == '-'
  {
    var group, rest := Group(1, Then(One(CAPITAL), One(CAPITAL))), Then(Lit("-"), NUMBER);
    CapitalsEnds(s);
    if |s| >= 2 && TwoCapitals(s[..2]) {
      AfterCaptured(group, rest, s, 0, 2, map[1 := s[..2]]);
      AcceptsLitThen("-", NUMBER, s, 2);
      assert s[2..3][0] == s[2];
    } else {
      AfterNothing(group, rest, s, 0);
    }
  }

  /** Whatever is read as a control is well formed. */
  lemma ParsedIsWellFormed(raw: string)
    requires Parse(raw).NistControl?
    ensures WellFormed(Parse(raw).parts)
  {
    var c := Parse(raw).parts;
    if Accepts(FAMILY, raw, 0) {
      FamilyMatch(raw);
    } else {
      ControlStarts(raw);
      ControlAt(raw, raw[..2]);
      var e := RunEnd(DIGIT, raw, 3);
      RunEndMeans(DIGIT, raw, 3);
      assert AllDigits(raw[3..e]);
      TokensAreWords(Trim(SCRIPT_SPACE, raw[e..]));
    }
  }

  /** With spaces and letters and without padding, as by default, only the number of specifiers and the length
      can stand in the way. */
  lemma DefaultRoundTrip(raw: string, config: Config)
    requires Parse(raw).NistControl? && !config.padZeros && config.allowLetters && config.addSpaces
    ensures var c := Parse(raw).parts;
            Parse(Canonical(c, config)) == NistControl(c)
            <==> |c| == 1 || (|c| <= config.maxSpecifiers && |WrittenFrom(c, 2, config)| <= 60)
  {
    ParsedIsWellFormed(raw);
    RoundTripIff(Parse(raw).parts, config);
  }

  /** Some specifier is a number of one digit. */
  predicate HasOneDigit(c: Control) {
    exists i | 1 <= i < |c| :: |c[i]| < 2 && IsNumber(c[i])
  }

  /** The settings in use: for looking up descriptions, for the links to the catalogue and for the CAAT export. */
  const DESCRIPTIONS := Config(5, true, true, true, false, false)
  const LINKS := Config(2, false, false, false, true, true)
  const CAAT := Config(3, true, false, false, true, true)

  lemma PaddingMeans(c: Control, config: Config)
    requires config.padZeros
    ensures UnpaddedFrom(c, 1, config) <==> !HasOneDigit(c)
  {
    if !HasOneDigit(c) {
      forall q | 1 <= q < |c| && IsNumber(c[q]) ensures Padded(c[q], config) == c[q] {}
    }
    if i :| 1 <= i < |c| && |c[i]| < 2 && IsNumber(c[i]) { assert |Padded(c[i], config)| == |c[i]| + 1; }
  }

  /** What the settings in use give back. A description is looked up under a form that is read as the same control
      exactly when that has no number of one digit, no more than five parts and a short enough tail. */
  lemma RoundTripForDescriptions(c: Control)
    requires WellFormed(c)
    ensures Parse(Canonical(c, DESCRIPTIONS)) == NistControl(c)
       <==> |c| == 1 || (|c| <= 5 && !HasOneDigit(c) && |WrittenFrom(c, 2, DESCRIPTIONS)| <= 60)
  {
    RoundTripIff(c, DESCRIPTIONS);
    PaddingMeans(c, DESCRIPTIONS);
  }

  /** A link keeps the family and the number. */
  lemma RoundTripForLinks(c: Control)
    requires WellFormed(c)
    ensures Parse(Canonical(c, LINKS)) == NistControl(c) <==> |c| <= 2
    ensures |c| >= 2 ==> Parse(Canonical(c, LINKS)) == NistControl(c[..2])
  {
    RoundTripIff(c, LINKS);
    if |c| >= 2 {
      DigitsAreNumber(c[1]);
      assert WrittenFrom(c, 2, LINKS) == "" && WrittenFrom(c[..2], 2, LINKS) == "";
      assert Canonical(c, LINKS) == Canonical(c[..2], LINKS);
      RoundTripIff(c[..2], LINKS);
    }
  }

  /** The export keeps what has at most one further specifier, a number, and no number of one digit. */
  lemma RoundTripForCaat(c: Control)
    requires WellFormed(c)
    ensures Parse(Canonical(c, CAAT)) == NistControl(c)
       <==> |c| == 1
            || (|c| <= 3 && !HasOneDigit(c) && (|c| == 3 ==> IsNumber(c[2]) && |WrittenFrom(c, 2, CAAT)| <= 60))
  {
    RoundTripIff(c, CAAT);
    PaddingMeans(c, CAAT);
    if |c| > 1 { DigitsAreNumber(c[1]); }
  }

  // ---- Revisions ----

  /** `rev` in any case, then blanks, underscores and periods up to `p`, then digits only. */
  predicate IsRevision(raw: string, p: nat) {
    && 4 <= p < |raw|
    && (raw[0] == 'r' || raw[0] == 'R') && (raw[1] == 'e' || raw[1] == 'E') && (raw[2] == 'v' || raw[2] == 'V')
    && (forall k | 3 <= k < p :: WideBlank(raw[k]) || raw[k] == '_' || raw[k] == '.')
    && (forall k | p <= k < |raw| :: '0' <= raw[k] <= '9')
  }

  lemma DigitsToEnd(s: string, i: nat)
    requires i <= |s|
    ensures AllDigits(s[i..]) <==> i < |s| && RunEnd(DIGIT, s, i) == |s|
  {
    RunEndMeans(DIGIT, s, i);
    assert forall k | i <= k < |s| :: s[i..][k - i] == s[k];
    if AllDigits(s[i..]) { RunEndIs(DIGIT, s, i, |s|); }
  }

  lemma RevisionNumberMatch(s: string, i: nat)
    requires i <= |s|
    ensures Accepts(REVISION_NUMBER, s, i) <==> AllDigits(s[i..])
    ensures Accepts(REVISION_NUMBER, s, i) ==> First(REVISION_NUMBER, s, i) == Match(|s|, map[1 := s[i..]])
  {
    var e := RunEnd(DIGIT, s, i);
    DigitsToEnd(s, i);
    if i == e {
      PlusNothing(1, DIGIT, s, i);
      AfterNothing(Group(1, Plus(DIGIT)), TextEnd, s, i);
    } else {
      CapturedPlusEnds(1, DIGIT, s, i);
      var ms := Ends(Group(1, Plus(DIGIT)), s, i);
      ChainAccepts(ms, TextEnd, s, i);
      assert ms[0] == Match(e, map[1 := s[i..e]]);
      if e == |s| {
        ThenFirst(Group(1, Plus(DIGIT)), TextEnd, s, i, 0);
        assert s[i..e] == s[i..] && map[1 := s[i..]] + map[] == map[1 := s[i..]];
      }
    }
  }

  /** At least one of a class, and then what cannot begin inside the run. */
  lemma PlusThen(c: Class, re: Re, s: string, i: nat)
    requires i < |s| && c.Has(s[i])
    requires forall q | i < q < RunEnd(c, s, i) :: !Accepts(re, s, q)
    ensures var e := RunEnd(c, s, i);
            && (Accepts(Then(Plus(c), re), s, i) <==> Accepts(re, s, e))
            && (Accepts(re, s, e) ==> First(Then(Plus(c), re), s, i) == First(re, s, e))
  {
    PlusEnds(c, s, i);
    var e := RunEnd(c, s, i);
    var ms := RunMatches(i + 1, e, true);
    ChainAccepts(ms, re, s, i);
    if Accepts(re, s, e) {
      assert ms[0] == Match(e, map[]);
      ThenFirst(Plus(c), re, s, i, 0);
      NoCaptures(First(re, s, e).caps);
    }
  }

  lemma RevisionSpaceMatch(s: string, i: nat)
    requires i <= |s|
    ensures var re, e := Then(Plus(REVISION_SPACE), REVISION_NUMBER), RunEnd(REVISION_SPACE, s, i);
            && (Accepts(re, s, i) <==> i < e && AllDigits(s[e..]))
            && (Accepts(re, s, i) ==> First(re, s, i) == Match(|s|, map[1 := s[e..]]))
  {
    var e := RunEnd(REVISION_SPACE, s, i);
    if i == e {
      AfterNothing(One(REVISION_SPACE), Many(One(REVISION_SPACE), true), s, i);
      AfterNothing(Plus(REVISION_SPACE), REVISION_NUMBER, s, i);
    } else {
      RunEndMeans(REVISION_SPACE, s, i);
      forall q | i < q < e ensures !Accepts(REVISION_NUMBER, s, q) { NoNumberInside(s, q); }
      RevisionNumberMatch(s, e);
      PlusThen(REVISION_SPACE, REVISION_NUMBER, s, i);
    }
  }

  lemma NoNumberInside(s: string, q: nat)
    requires q < |s| && REVISION_SPACE.Has(s[q])
    ensures !Accepts(REVISION_NUMBER, s, q)
  {
    RevisionNumberMatch(s, q);
    assert s[q..][0] == s[q];
  }

  lemma RevisionMatch(s: string)
    ensures Accepts(REVISION, s, 0) <==> |s| > 3 && RevisionAt(s, RunEnd(REVISION_SPACE, s, 3))
    ensures Accepts(REVISION, s, 0) ==>
              |s| > 3 && First(REVISION, s, 0) == Match(|s|, map[1 := s[RunEnd(REVISION_SPACE, s, 3)..]])
  {
    var last := Then(Plus(REVISION_SPACE), REVISION_NUMBER);
    var third := Then(One(Only({'v', 'V'})), last);
    var second := Then(One(Only({'e', 'E'})), third);
    AcceptsOneThen(Only({'r', 'R'}), second, s, 0);
    if |s| > 0 { AcceptsOneThen(Only({'e', 'E'}), third, s, 1); }
    if |s| > 1 { AcceptsOneThen(Only({'v', 'V'}), last, s, 2); }
    if |s| > 2 { RevisionSpaceMatch(s, 3); }
  }

  predicate RevisionAt(s: string, e: nat) {
    && 3 < e <= |s|
    && s[0] in {'r', 'R'} && s[1] in {'e', 'E'} && s[2] in {'v', 'V'} && AllDigits(s[e..])
  }

  lemma RevisionPlace(raw: string, p: nat)
    requires IsRevision(raw, p)
    ensures RunEnd(REVISION_SPACE, raw, 3) == p && RevisionAt(raw, p)
  {
    RunEndIs(REVISION_SPACE, raw, 3, p);
    assert forall k | 0 <= k < |raw| - p :: raw[p..][k] == raw[p + k];
  }

  /** A tag is read as a revision exactly when it has that shape, and the digits are the revision. */
  lemma ParseRevision(raw: string)
    ensures Parse(raw).Revision? <==> exists p: nat :: IsRevision(raw, p)
    ensures forall p: nat | IsRevision(raw, p) :: Parse(raw) == Revision(raw[p..])
  {
    RevisionMatch(raw);
    forall p: nat | IsRevision(raw, p) ensures Parse(raw) == Revision(raw[p..]) { RevisionPlace(raw, p); }
    if Parse(raw).Revision? {
      var e := RunEnd(REVISION_SPACE, raw, 3);
      RunEndMeans(REVISION_SPACE, raw, 3);
      assert forall k | e <= k < |raw| :: raw[e..][k - e] == raw[k];
      assert IsRevision(raw, e);
    }
  }

  /** `f` is a family, and `n` and `rest` the number and what follows it in the tag. */
  predicate IsControlTag(raw: string, f: string, n: string, rest: string) {
    && raw == f + "-" + (n + rest) && TwoCapitals(f) && AllDigits(n)
    && (rest == "" || !DIGIT.Has(rest[0])) && ShortLine(rest)
  }

  /** A tag is read as a control exactly when it is a family, or a family, a dash, a number and a short enough
      rest on one line; the words of the rest are the further specifiers. */
  lemma ParseControl(raw: string)
    ensures TwoCapitals(raw) ==> Parse(raw) == NistControl([raw])
    ensures forall f, n, rest | IsControlTag(raw, f, n, rest) :: Parse(raw) == NistControl([f, n] + Tokens(rest))
    ensures Parse(raw).NistControl? ==> TwoCapitals(raw) || exists f, n, rest :: IsControlTag(raw, f, n, rest)
  {
    if TwoCapitals(raw) { ParseFamily(raw); }
    forall f, n, rest | IsControlTag(raw, f, n, rest) ensures Parse(raw) == NistControl([f, n] + Tokens(rest)) {
      DigitsThen(n, rest);
      ParseTag(f, n + rest);
    }
    if Parse(raw).NistControl? && !TwoCapitals(raw) {
      FamilyMatch(raw);
      ControlStarts(raw);
      ControlAt(raw, raw[..2]);
      ControlParts(raw);
    }
  }

  lemma ControlParts(raw: string)
    requires |raw| > 2 && TwoCapitals(raw[..2]) && raw[2] == '-'
    requires var e := RunEnd(DIGIT, raw, 3); 3 < e && ShortLine(raw[e..])
    ensures var e := RunEnd(DIGIT, raw, 3); IsControlTag(raw, raw[..2], raw[3..e], raw[e..])
  {
    var e := RunEnd(DIGIT, raw, 3);
    RunEndMeans(DIGIT, raw, 3);
    DigitsBetween(raw, 3, e);
    TagSplit(raw, e);
  }

  lemma DigitsBetween(s: string, i: nat, e: nat)
    requires i < e <= |s| && (forall k | i <= k < e :: DIGIT.Has(s[k])) && (e < |s| ==> !DIGIT.Has(s[e]))
    ensures AllDigits(s[i..e]) && (s[e..] == "" || !DIGIT.Has(s[e..][0]))
  {}

  lemma TagSplit(raw: string, e: nat)
    requires |raw| > 2 && raw[2] == '-' && 3 <= e <= |raw|
    ensures raw == raw[..2] + "-" + (raw[3..e] + raw[e..])
  {
    assert raw[3..e] + raw[e..] == raw[3..];
    assert raw[..2] + "-" + raw[3..] == raw;
  }

  // ---- What is written ----

  /** The specifier `d` at place `i` as a number is written: with a space and in parentheses, if that is set,
      except for the first. */
  predicate IsNumberText(i: nat, d: string, config: Config, text: string) {
    if i <= 1 then text == d
    else if config.addSpaces && config.addParens then text == " (" + d + ")"
    else if config.addSpaces then text == " " + d
    else if config.addParens then text == "(" + d + ")"
    else text == d
  }

  predicate IsLetterText(spec: string, config: Config, text: string) {
    if config.addSpaces && config.addPeriods then text == " " + spec + "."
    else if config.addSpaces then text == " " + spec
    else if config.addPeriods then text == spec + "."
    else text == spec
  }

  /** The text of one specifier: a number of one digit gets a zero before it, if that is set; what is not a number
      is left out unless letters are allowed. */
  predicate IsSpecifierText(i: nat, spec: string, config: Config, text: string) {
    if IsNumber(spec) then IsNumberText(i, if config.padZeros && |spec| == 1 then "0" + spec else spec, config, text)
    else if config.allowLetters then IsLetterText(spec, config, text)
    else text == ""
  }

  lemma NumberNotEmpty(spec: string)
    requires IsNumber(spec)
    ensures spec != ""
  {}

  lemma NumberWritten(i: nat, spec: string, config: Config)
    requires spec != ""
    ensures IsNumberText(i, if config.padZeros && |spec| == 1 then "0" + spec else spec, config,
                         NumberText(i, spec, config))
  {
    var d := Padded(spec, config);
    assert d == if config.padZeros && |spec| == 1 then "0" + spec else spec;
    Parenthesised(d);
  }

  lemma Parenthesised(d: string)
    ensures "" + d == d && "" + "(" + d + ")" == "(" + d + ")" && " " + "(" + d + ")" == " (" + d + ")"
  {
    assert "" + "(" == "(" && " " + "(" == " (";
  }

  lemma LetterWritten(spec: string, config: Config)
    ensures IsLetterText(spec, config, LetterText(spec, config))
  {
    assert "" + spec == spec;
  }

  lemma WrittenText(i: nat, spec: string, config: Config)
    ensures IsSpecifierText(i, spec, config, Written(i, spec, config))
  {
    if IsNumber(spec) {
      NumberNotEmpty(spec);
      NumberWritten(i, spec, config);
    } else if config.allowLetters {
      LetterWritten(spec, config);
    }
  }

  /** The texts of the specifiers from `i` on. */
  predicate AreTexts(c: Control, i: nat, config: Config, texts: seq<string>) {
    forall k | 0 <= k < |texts| :: i + k < |c| && IsSpecifierText(i + k, c[i + k], config, texts[k])
  }

  lemma AnotherText(c: Control, i: nat, config: Config, text: string, rest: seq<string>)
    requires i < |c| && IsSpecifierText(i, c[i], config, text) && AreTexts(c, i + 1, config, rest)
    ensures AreTexts(c, i, config, [text] + rest)
  {
    var texts := [text] + rest;
    forall k | 0 < k < |texts| ensures i + k < |c| && IsSpecifierText(i + k, c[i + k], config, texts[k]) {
      assert texts[k] == rest[k - 1];
    }
  }

  /** The texts of the specifiers from `i` on that are written, in order. */
  lemma {:induction false} TextsFrom(c: Control, i: nat, config: Config) returns (texts: seq<string>)
    ensures WrittenFrom(c, i, config) == Concat(texts)
    ensures |texts| == if i < |c| && i < config.maxSpecifiers then Smaller(|c|, config.maxSpecifiers) - i else 0
    ensures AreTexts(c, i, config, texts)
    decreases |c| - i
  {
    if i < |c| && i < config.maxSpecifiers {
      var text := Written(i, c[i], config);
      var rest := TextsFrom(c, i + 1, config);
      WrittenText(i, c[i], config);
      AnotherText(c, i, config, text, rest);
      texts := [text] + rest;
      assert texts[1..] == rest;
    } else {
      texts := [];
    }
  }

  function Smaller(a: int, b: int): int {
    if a < b then a else b
  }

  /** For every control and setting: the canonical form is the family, if any, a dash if more follows, and the texts of
      the specifiers, as many as there may be. */
  lemma CanonicalTexts(c: Control, config: Config) returns (texts: seq<string>)
    ensures Canonical(c, config)
         == if c == [] then "" else c[0] + (if |c| > 1 then "-" else "") + Concat(texts)
    ensures |texts| == if |c| > 1 && config.maxSpecifiers > 1 then Smaller(|c|, config.maxSpecifiers) - 1 else 0
    ensures forall k | 0 <= k < |texts| :: k + 1 < |c| && IsSpecifierText(k + 1, c[k + 1], config, texts[k])
  {
    texts := TextsFrom(c, 1, config);
    forall k | 0 <= k < |texts| ensures k + 1 < |c| && IsSpecifierText(k + 1, c[k + 1], config, texts[k]) {
      assert 1 + k < |c| && IsSpecifierText(1 + k, c[1 + k], config, texts[k]);
    }
  }

  /** When a text is a number: blanks, a sign or none, and then a digit, or `0x` and a hexadecimal digit. */
  lemma {:induction false} NumberMeans(blanks: string, sign: string, t: string)
    requires (forall k | 0 <= k < |blanks| :: WideBlank(blanks[k])) && sign in {"", "+", "-"}
    requires t != "" && !WideBlank(t[0]) && t[0] != '+' && t[0] != '-'
    ensures IsNumber(blanks + (sign + t))
       <==> if |t| > 1 && t[0] == '0' && (t[1] == 'x' || t[1] == 'X')
            then |t| > 2 && ('0' <= t[2] <= '9' || 'a' <= t[2] <= 'f' || 'A' <= t[2] <= 'F')
            else '0' <= t[0] <= '9'
    decreases |blanks|
  {
    if blanks == "" {
      assert blanks + (sign + t) == sign + t;
      if sign == "" { assert sign + t == t; } else { assert (sign + t)[0] == sign[0] && (sign + t)[1..] == t; }
    } else {
      NumberMeans(blanks[1..], sign, t);
      assert (blanks + (sign + t))[1..] == blanks[1..] + (sign + t);
    }
  }

  // ---- What is read back when numbers are padded ----

  /** A number that starts with a sign is not padded. */
  lemma PaddedStart(c: Control, config: Config)
    requires WellFormed(c) && |c| > 2 && SetOff(c, 2, config) && Kept(c[2], config)
    ensures PieceOf(c[2], config).left != "" || !DIGIT.Has(PieceOf(c[2], config).body[0])
  {
    if IsNumber(c[2]) && |c[2]| == 1 { OneCharNumber(c[2]); }
  }

  lemma OneCharNumber(s: string)
    requires IsNumber(s) && |s| == 1 && IsWord(s)
    ensures DIGIT.Has(s[0])
  {
    assert !SCRIPT_SPACE.Has(s[0]);
  }

  /** With nothing dropped or run together, what is read back is the control with its numbers as they were written:
      with a zero before a single digit, if that is set. */
  lemma ReadBack(c: Control, config: Config)
    requires WellFormed(c) && |c| > 1 && NothingDropped(c, 1, config)
    requires (forall i | 2 <= i < |c| :: SetOff(c, i, config)) && |WrittenFrom(c, 2, config)| <= 60
    ensures var t := Parse(Canonical(c, config));
            && t.NistControl? && |t.parts| == |c| && t.parts[0] == c[0]
            && forall i | 1 <= i < |c| ::
                 t.parts[i] == if IsNumber(c[i]) && config.padZeros && |c[i]| == 1 then "0" + c[i] else c[i]
  {
    var n, w := Padded(c[1], config), WrittenFrom(c, 2, config);
    DroppedStep(c, 1, config);
    DigitsAreNumber(c[1]);
    PaddedNumber(c[1], config);
    TailReadBack(c, config);
    DigitsThen(n, w);
    CanonicalText(c, config);
    ParseTag(c[0], n + w);
    TailIsLine(c, 2, config);
  }

  lemma TailReadBack(c: Control, config: Config)
    requires WellFormed(c) && |c| > 1 && NothingDropped(c, 2, config)
    requires forall i | 2 <= i < |c| :: SetOff(c, i, config)
    ensures var w := WrittenFrom(c, 2, config);
            && (w == "" || !DIGIT.Has(w[0]))
            && |Tokens(w)| == |c| - 2
            && forall k | 0 <= k < |c| - 2 ::
                 Tokens(w)[k] == if IsNumber(c[k + 2]) && config.padZeros && |c[k + 2]| == 1
                                 then "0" + c[k + 2] else c[k + 2]
  {
    var ps := Pieces(c, 2, config);
    WrittenInPieces(c, 2, config);
    PiecesAreGood(c, 2, config);
    PiecesOfAll(c, config);
    ApartIsSetOff(c, config);
    TokensOfPieces(ps);
    BodiesWritten(ps, c, config);
    if |c| > 2 {
      PaddedStart(c, config);
      StartOfPieces(ps);
    }
  }

  lemma BodiesWritten(ps: seq<Piece>, c: Control, config: Config)
    requires WellFormed(c) && |ps| == |c| - 2 && forall k | 0 <= k < |ps| :: ps[k] == PieceOf(c[k + 2], config)
    ensures forall k | 0 <= k < |ps| ::
              Bodies(ps)[k] == if IsNumber(c[k + 2]) && config.padZeros && |c[k + 2]| == 1
                               then "0" + c[k + 2] else c[k + 2]
  {
    forall k | 0 <= k < |ps|
      ensures ps[k].body == if IsNumber(c[k + 2]) && config.padZeros && |c[k + 2]| == 1
                            then "0" + c[k + 2] else c[k + 2]
    {
      assert IsWord(c[k + 2]);
    }
  }

  lemma StartOfPieces(ps: seq<Piece>)
    requires ps != [] && AllGood(ps) && (ps[0].left != "" || !DIGIT.Has(ps[0].body[0]))
    ensures PiecesText(ps) != "" && !DIGIT.Has(PiecesText(ps)[0])
  {
    TextStart(ps);
    NoDigitSeparates(PiecesText(ps)[0]);
  }

  /** The forms in use: a description is looked up as AC-01 a 02, a link leads to AC-1, an export names AC-02(03). */
  lemma FormsInUse()
    ensures Canonical(["AC", "1", "a", "2"], DESCRIPTIONS) == "AC-01 a 02"
    ensures Canonical(["AC", "1", "a", "2"], LINKS) == "AC-1"
    ensures Canonical(["AC", "2", "3"], CAAT) == "AC-02(03)"
  {
    assert IsNumber("1") && IsNumber("2") && IsNumber("3") && !IsNumber("a");
    var c := ["AC", "1", "a", "2"];
    assert WrittenFrom(c, 4, DESCRIPTIONS) == "" && WrittenFrom(c, 3, DESCRIPTIONS) == " 02";
    assert WrittenFrom(c, 2, DESCRIPTIONS) == " a 02" && WrittenFrom(c, 1, DESCRIPTIONS) == "01 a 02";
    assert WrittenFrom(c, 2, LINKS) == "" && WrittenFrom(c, 1, LINKS) == "1";
    var d := ["AC", "2", "3"];
    assert WrittenFrom(d, 3, CAAT) == "" && WrittenFrom(d, 2, CAAT) == "(03)" && WrittenFrom(d, 1, CAAT) == "02(03)";
    assert "AC" + "-" + "01 a 02" == "AC-01 a 02" && "AC" + "-" + "1" == "AC-1" && "AC" + "-" + "02(03)" == "AC-02(03)";
  }
}
