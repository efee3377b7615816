/** The text the data directory is looked for in: a list of command lines, printed the way Ruby prints an array
    of strings, and what the search captures in it. */
module EtcdCommands {
  import opened Regex
  import opened Matching
  import opened Text
  import opened EtcdDataDir

  // ---- Printing: `Array#to_s` and `String#inspect` ----

  function HexDigit(d: nat): char
    requires d < 16
  {
    ['0', '1', '2', '3', '4', '5', '6', '7', '8', '9', 'A', 'B', 'C', 'D', 'E', 'F'][d]
  }

  /** What follows the backslash for a control character. */
  function ControlCode(n: nat): (r: string)
    requires n < 32 || n == 127
    ensures r != ""
    ensures forall k | 0 <= k < |r| :: r[k] != '-' && !Blank(r[k])
  {
    if 7 <= n <= 13 then [['a', 'b', 't', 'n', 'v', 'f', 'r'][n - 7]]
    else if n == 27 then "e"
    else if n == 127 then "x7F"
    else ['u', '0', '0', HexDigit(n / 16), HexDigit(n % 16)]
  }

  predicate IsControl(c: char) {
    c as int < 32 || c as int == 127
  }

  /** The character, followed by `rest`, stands for itself. */
  predicate IsLiteral(c: char, rest: string) {
    && c != '"' && c != '\\' && !IsControl(c)
    && (c == '#' && rest != "" ==> rest[0] !in {'{', '$', '@'})
  }

  function EscapeChar(c: char, rest: string): (r: string)
    ensures IsLiteral(c, rest) ==> r == [c]
    ensures !IsLiteral(c, rest) ==> |r| > 1 && r[0] == '\\'
    ensures !IsLiteral(c, rest) ==> forall k | 0 <= k < |r| :: r[k] != '-' && !Blank(r[k])
  {
    if IsLiteral(c, rest) then [c]
    else if IsControl(c) then "\\" + ControlCode(c as int)
    else ['\\', c]
  }

  function Escape(s: string): string {
    if s == "" then "" else EscapeChar(s[0], s[1..]) + Escape(s[1..])
  }

  /** The commands from the first of `cs` on, up to the closing bracket. */
  function Items(cs: seq<string>): string
    requires cs != []
  {
    if |cs| == 1 then "\"" + Escape(cs[0]) + "\"]" else "\"" + Escape(cs[0]) + "\", " + Items(cs[1..])
  }

  function Inspect(cs: seq<string>): string {
    if cs == [] then "[]" else "[" + Items(cs)
  }

  // ---- Reading it back ----

  function HexValue(c: char): (n: nat)
    ensures n < 16
  {
    if '0' <= c <= '9' then (c - '0') as nat
    else if 'A' <= c <= 'F' then 10 + (c - 'A') as nat
    else 0
  }

  function NamedControl(c: char): nat {
    if c == 'a' then 7 else if c == 'b' then 8 else if c == 't' then 9 else if c == 'n' then 10
    else if c == 'v' then 11 else if c == 'f' then 12 else if c == 'r' then 13 else 27
  }

  /** The text a Ruby literal with these characters between its quotes stands for. */
  function Unescape(t: string): string {
    if t == "" then ""
    else if t[0] != '\\' || |t| == 1 then [t[0]] + Unescape(t[1..])
    else if t[1] in {'a', 'b', 't', 'n', 'v', 'f', 'r', 'e'} then [NamedControl(t[1]) as char] + Unescape(t[2..])
    else if t[1] == 'x' && |t| >= 4 then [(HexValue(t[2]) * 16 + HexValue(t[3])) as char] + Unescape(t[4..])
    else if t[1] == 'u' && |t| >= 6 then [(HexValue(t[4]) * 16 + HexValue(t[5])) as char] + Unescape(t[6..])
    else [t[1]] + Unescape(t[2..])
  }

  lemma HexRead(d: nat)
    requires d < 16
    ensures HexValue(HexDigit(d)) == d
  {}

  /** Two characters that stand for `c`. */
  lemma ReadTwo(x: char, tail: string)
    requires x !in {'a', 'b', 't', 'n', 'v', 'f', 'r', 'e', 'x', 'u'}
    ensures Unescape(['\\', x] + tail) == [x] + Unescape(tail)
  {
    assert (['\\', x] + tail)[2..] == tail;
  }

  lemma ReadNamed(x: char, tail: string)
    requires x in {'a', 'b', 't', 'n', 'v', 'f', 'r', 'e'}
    ensures Unescape(['\\', x] + tail) == [NamedControl(x) as char] + Unescape(tail)
  {
    assert (['\\', x] + tail)[2..] == tail;
  }

  lemma ReadHex(h: nat, l: nat, tail: string)
    requires h < 16 && l < 16
    ensures Unescape(['\\', 'u', '0', '0', HexDigit(h), HexDigit(l)] + tail) == [(h * 16 + l) as char] + Unescape(tail)
  {
    HexRead(h);
    HexRead(l);
    var t := ['\\', 'u', '0', '0', HexDigit(h), HexDigit(l)] + tail;
    assert t[6..] == tail && t[4] == HexDigit(h) && t[5] == HexDigit(l);
  }

  lemma ReadDelete(tail: string)
    ensures Unescape("\\x7F" + tail) == [127 as char] + Unescape(tail)
  {
    var t := "\\x7F" + tail;
    assert t[4..] == tail && t[2] == '7' && t[3] == 'F';
  }

  lemma ReadControl(n: nat, tail: string)
    requires n < 32 || n == 127
    ensures Unescape("\\" + ControlCode(n) + tail) == [n as char] + Unescape(tail)
  {
    var code := ControlCode(n);
    if 7 <= n <= 13 || n == 27 {
      assert "\\" + code == ['\\', code[0]];
      ReadNamed(code[0], tail);
    } else if n == 127 {
      assert "\\" + code == "\\x7F";
      ReadDelete(tail);
    } else {
      assert "\\" + code == ['\\', 'u', '0', '0', HexDigit(n / 16), HexDigit(n % 16)];
      ReadHex(n / 16, n % 16, tail);
    }
  }

  lemma ReadChar(c: char, rest: string, tail: string)
    ensures Unescape(EscapeChar(c, rest) + tail) == [c] + Unescape(tail)
  {
    var e := EscapeChar(c, rest);
    if IsLiteral(c, rest) {
      assert (e + tail)[1..] == tail;
    } else if IsControl(c) {
      ReadControl(c as int, tail);
    } else {
      ReadTwo(c, tail);
    }
  }

  /** Escaping can be undone, so nothing of a command line is lost in printing. */
  lemma {:induction false} UnescapeUndoes(s: string)
    ensures Unescape(Escape(s)) == s
    decreases |s|
  {
    if s != "" {
      UnescapeUndoes(s[1..]);
      ReadChar(s[0], s[1..], Escape(s[1..]));
    }
  }

  /** A text that can stand between the quotes of a Ruby literal: a backslash takes the character after it along,
      and bare are neither quotes, nor control characters, nor a `#` that starts an interpolation. */
  predicate IsQuotable(t: string) {
    if t == "" then true
    else if t[0] == '\\' then |t| > 1 && IsQuotable(t[2..])
    else
      && t[0] != '"' && 32 <= t[0] as int != 127
      && (t[0] == '#' && |t| > 1 ==> t[1] != '{' && t[1] != '$' && t[1] != '@')
      && IsQuotable(t[1..])
  }

  lemma {:induction false} PlainBefore(t: string, tail: string)
    requires forall k | 0 <= k < |t| :: '0' <= t[k] <= '9' || 'A' <= t[k] <= 'F'
    requires IsQuotable(tail)
    ensures IsQuotable(t + tail)
    decreases |t|
  {
    if t == "" {
      assert t + tail == tail;
    } else {
      PlainBefore(t[1..], tail);
      assert (t + tail)[1..] == t[1..] + tail;
    }
  }

  lemma EscapedBefore(c: char, code: string, tail: string)
    requires forall k | 0 <= k < |code| :: '0' <= code[k] <= '9' || 'A' <= code[k] <= 'F'
    requires IsQuotable(tail)
    ensures IsQuotable(['\\', c] + code + tail)
  {
    var t := ['\\', c] + code + tail;
    PlainBefore(code, tail);
    assert t[2..] == code + tail;
  }

  lemma ControlBefore(n: nat, tail: string)
    requires (n < 32 || n == 127) && IsQuotable(tail)
    ensures IsQuotable("\\" + ControlCode(n) + tail)
  {
    var code := ControlCode(n);
    EscapedBefore(code[0], code[1..], tail);
    assert "\\" + code == ['\\', code[0]] + code[1..];
  }

  lemma CharBefore(c: char, rest: string, tail: string)
    requires IsQuotable(tail)
    requires c == '#' && tail != "" && tail[0] in {'{', '$', '@'} ==> rest != "" && rest[0] == tail[0]
    ensures IsQuotable(EscapeChar(c, rest) + tail)
  {
    var e := EscapeChar(c, rest);
    if IsLiteral(c, rest) {
      assert (e + tail)[1..] == tail;
    } else if IsControl(c) {
      ControlBefore(c as int, tail);
    } else {
      assert (e + tail)[2..] == tail;
    }
  }

  /** What is printed between the quotes is such a text, */
  lemma {:induction false} EscapeIsQuotable(s: string)
    ensures IsQuotable(Escape(s))
    decreases |s|
  {
    if s != "" {
      var rest := s[1..];
      EscapeIsQuotable(rest);
      if rest != "" { assert Escape(rest)[0] in {rest[0], '\\'}; }
      CharBefore(s[0], rest, Escape(rest));
    }
  }

  /** and no character is escaped that need not be. */
  lemma {:induction false} EscapeOnlyIfNeeded(s: string)
    requires '\\' !in s && IsQuotable(s)
    ensures Escape(s) == s
    decreases |s|
  {
    if s != "" {
      EscapeOnlyIfNeeded(s[1..]);
      assert IsLiteral(s[0], s[1..]);
    }
  }

  /** The layout: brackets around the list, quotes around each text, a comma and a space between two. */
  lemma InspectLayout(c: string, cs: seq<string>)
    ensures Inspect([]) == "[]" && (cs != [] ==> Inspect(cs) == "[" + Items(cs))
    ensures Items([c]) == "\"" + Escape(c) + "\"]"
    ensures cs != [] ==> Items([c] + cs) == "\"" + Escape(c) + "\", " + Items(cs)
  {
    assert ([c] + cs)[1..] == cs;
  }

  // ---- What is given on the command lines ----

  /** What follows the first flag of the word, if there is one. */
  function FirstValue(w: string): (v: Option<string>)
    ensures v.Some? ==> |v.value| + |FLAG| <= |w| && v.value == w[|w| - |v.value|..]
  {
    if w == "" then None else if FLAG <= w then Some(w[|FLAG|..]) else FirstValue(w[1..])
  }

  /** A flag with its value up to the next space or the end of its command, and what is printed right after that:
      nothing if a space follows. */
  datatype Given = Given(value: string, tail: string) {
    function Printed(): string { Escape(value) + tail }
  }

  function GivenInWord(w: string, tail: string): seq<Given> {
    match FirstValue(w)
    case None => []
    case Some(v) => if v == "" && tail == "" then [] else [Given(v, tail)]
  }

  /** The flags given in a command line, one per word that has one. */
  function GivenIn(c: string, tail: string): seq<Given>
    decreases |c|
  {
    var k := Cut(c, ' ');
    if k == |c| then GivenInWord(c, tail) else GivenInWord(c[..k], "") + GivenIn(c[k + 1..], tail)
  }

  function AllGiven(cs: seq<string>): seq<Given> {
    if cs == [] then []
    else GivenIn(cs[0], if |cs| == 1 then "\"]" else "\",") + AllGiven(cs[1..])
  }

  function PrintedAll(gs: seq<Given>): (r: seq<string>)
    ensures |r| == |gs| && forall k | 0 <= k < |r| :: r[k] == gs[k].Printed()
  {
    seq(|gs|, k requires 0 <= k < |gs| => gs[k].Printed())
  }

  // ---- The scan, word by word ----

  /** What a scan from `i` on captures. */
  function Captures(s: string, i: nat): seq<string>
    requires i <= |s|
    decreases |s| - i
  {
    if ValueAt(s, i) then [s[i + |FLAG|..ValueEnd(s, i)]] + Captures(s, ValueEnd(s, i))
    else if i < |s| then Captures(s, i + 1)
    else []
  }

  lemma {:induction false} ScanCaptures(s: string, i: nat)
    requires i <= |s|
    ensures Scan(DATA_DIR, 1, s, i) == Captures(s, i)
    decreases |s| - i
  {
    ScanMatch(s, i);
    if ValueAt(s, i) { ScanCaptures(s, ValueEnd(s, i)); } else if i < |s| { ScanCaptures(s, i + 1); }
  }

  lemma ValueShift(s: string, t: string, n: nat, i: nat)
    requires n <= |s| && t == s[n..] && i <= |t|
    ensures ValueAt(s, n + i) <==> ValueAt(t, i)
    ensures ValueAt(t, i) ==> ValueEnd(s, n + i) == n + ValueEnd(t, i)
    ensures ValueAt(t, i) ==> s[n + i + |FLAG|..n + ValueEnd(t, i)] == t[i + |FLAG|..ValueEnd(t, i)]
  {
    if i + |FLAG| <= |t| { assert s[n + i..n + i + |FLAG|] == t[i..i + |FLAG|]; }
    if ValueAt(t, i) {
      assert t == s[n..n + |t|];
      RunEndShift(NON_SPACE, s, t, n, i + |FLAG|);
      PartSlice(s, t, n, i + |FLAG|, ValueEnd(t, i));
    }
  }

  /** What is found at a place: the value, and where the search goes on. */
  datatype Found = Found(end: nat, value: string)

  function FoundAt(s: string, i: nat): (f: Option<Found>)
    requires i <= |s|
    ensures f.Some? ==> i < f.value.end <= |s|
  {
    if ValueAt(s, i) then Some(Found(ValueEnd(s, i), s[i + |FLAG|..ValueEnd(s, i)])) else None
  }

  function Finds(s: string): (fs: seq<Option<Found>>)
    ensures |fs| == |s| + 1 && forall i | 0 <= i < |fs| :: fs[i] == FoundAt(s, i)
  {
    seq(|s| + 1, i requires 0 <= i <= |s| => FoundAt(s, i))
  }

  predicate Forward(fs: seq<Option<Found>>) {
    forall i | 0 <= i < |fs| && fs[i].Some? :: i < fs[i].value.end < |fs|
  }

  function Collect(fs: seq<Option<Found>>, i: nat): seq<string>
    requires i < |fs| && Forward(fs)
    decreases |fs| - i
  {
    if fs[i].Some? then [fs[i].value.value] + Collect(fs, fs[i].value.end)
    else if i + 1 < |fs| then Collect(fs, i + 1)
    else []
  }

  lemma {:induction false} CapturesCollect(s: string, i: nat)
    requires i <= |s|
    ensures Forward(Finds(s)) && Captures(s, i) == Collect(Finds(s), i)
    decreases |s| - i
  {
    assert Finds(s)[i] == FoundAt(s, i);
    if ValueAt(s, i) { CapturesCollect(s, ValueEnd(s, i)); } else if i < |s| { CapturesCollect(s, i + 1); }
  }

  function Later(f: Option<Found>, n: nat): Option<Found> {
    if f.Some? then Some(Found(n + f.value.end, f.value.value)) else None
  }

  /** The finds `gs` are those of `fs` from `n` on. */
  predicate Shifted(fs: seq<Option<Found>>, gs: seq<Option<Found>>, n: nat) {
    |fs| == n + |gs| && forall k | 0 <= k < |gs| :: fs[n + k] == Later(gs[k], n)
  }

  lemma {:induction false} CollectShift(fs: seq<Option<Found>>, gs: seq<Option<Found>>, n: nat, i: nat)
    requires Forward(fs) && Forward(gs) && Shifted(fs, gs, n) && i < |gs|
    ensures Collect(fs, n + i) == Collect(gs, i)
    decreases |gs| - i
  {
    var f, g := fs[n + i], gs[i];
    assert f == Later(g, n);
    if g.Some? { CollectShift(fs, gs, n, g.value.end); }
    else if i + 1 < |gs| { CollectShift(fs, gs, n, i + 1); }
  }

  lemma FoundShift(s: string, t: string, n: nat, i: nat)
    requires n <= |s| && t == s[n..] && i <= |t|
    ensures FoundAt(s, n + i) == Later(FoundAt(t, i), n)
  {
    ValueShift(s, t, n, i);
  }

  lemma FindsShift(s: string, t: string, n: nat)
    requires n <= |s| && t == s[n..]
    ensures Shifted(Finds(s), Finds(t), n)
  {
    forall k | 0 <= k < |Finds(t)| ensures Finds(s)[n + k] == Later(Finds(t)[k], n) { FoundShift(s, t, n, k); }
  }

  /** What precedes the place where a scan starts makes no difference. */
  lemma ScanShift(s: string, t: string, n: nat, i: nat)
    requires n <= |s| && t == s[n..] && i <= |t|
    ensures Captures(s, n + i) == Captures(t, i)
  {
    CapturesCollect(s, n + i);
    CapturesCollect(t, i);
    FindsShift(s, t, n);
    CollectShift(Finds(s), Finds(t), n, i);
  }

  /** A character that begins no flag is passed over. */
  lemma ScanSkips(x: char, t: string)
    requires x != '-'
    ensures Captures([x] + t, 0) == Captures(t, 0)
  {
    var s := [x] + t;
    assert |FLAG| <= |s| ==> s[0..|FLAG|][0] == x && FLAG[0] == '-';
    assert s[1..] == t;
    ScanShift(s, t, 1, 0);
  }

  predicate NoBlanks(w: string) {
    forall k | 0 <= k < |w| :: !Blank(w[k])
  }

  function CapOf(v: Option<string>): seq<string> {
    if v.Some? && v.value != "" then [v.value] else []
  }

  /** The word begins with a flag and goes on after it. */
  predicate HasValue(w: string) {
    FLAG <= w && |w| > |FLAG|
  }

  /** A flag at the start of a word, with a space or nothing after the word. */
  lemma FlagFirst(w: string, rest: string)
    requires NoBlanks(w) && (rest != "" ==> rest[0] == ' ')
    ensures ValueAt(w + rest, 0) <==> HasValue(w)
    ensures ValueAt(w + rest, 0) ==> ValueEnd(w + rest, 0) == |w| && (w + rest)[|FLAG|..|w|] == w[|FLAG|..]
  {
    var s := w + rest;
    assert rest != "" ==> s[|w|] == ' ';
    if OccursAt(FLAG, s, 0) {
      assert forall q | 0 <= q < |FLAG| :: FLAG[q] != ' ';
      assert forall q | 0 <= q < |FLAG| :: s[q] == s[0..|FLAG|][q];
      assert w[..|FLAG|] == s[0..|FLAG|];
    }
    if FLAG <= w { assert s[0..|FLAG|] == w[..|FLAG|]; }
    if ValueAt(s, 0) { RunEndIs(NON_SPACE, s, |FLAG|, |w|); }
  }

  lemma CaptureNow(w: string, rest: string)
    requires NoBlanks(w) && (rest != "" ==> rest[0] == ' ') && HasValue(w)
    ensures Captures(w + rest, 0) == CapOf(FirstValue(w)) + Captures(rest, 0)
  {
    FlagFirst(w, rest);
    assert (w + rest)[|w|..] == rest;
    ScanShift(w + rest, rest, |w|, 0);
  }

  lemma CaptureLater(w: string, rest: string)
    requires NoBlanks(w) && (rest != "" ==> rest[0] == ' ') && w != "" && !HasValue(w)
    ensures Captures(w + rest, 0) == Captures(w[1..] + rest, 0)
  {
    FlagFirst(w, rest);
    assert (w + rest)[1..] == w[1..] + rest;
    ScanShift(w + rest, w[1..] + rest, 1, 0);
  }

  lemma ValueLater(w: string)
    requires w != "" && !HasValue(w)
    ensures CapOf(FirstValue(w)) == CapOf(FirstValue(w[1..]))
  {
    if FLAG <= w {
      assert FirstValue(w) == Some(w[|FLAG|..]) && |w[|FLAG|..]| == 0;
      assert |w[1..]| < |FLAG|;
    }
  }

  lemma NoBlanksTail(w: string)
    requires NoBlanks(w) && w != ""
    ensures NoBlanks(w[1..])
  {}

  /** One word, and the rest after the space that follows it. */
  lemma {:induction false} ScanWord(w: string, rest: string)
    requires NoBlanks(w) && (rest != "" ==> rest[0] == ' ')
    ensures Captures(w + rest, 0) == CapOf(FirstValue(w)) + Captures(rest, 0)
    decreases |w|
  {
    if w == "" {
      assert w + rest == rest && [] + Captures(rest, 0) == Captures(rest, 0);
    } else if HasValue(w) {
      CaptureNow(w, rest);
    } else {
      CaptureLater(w, rest);
      ValueLater(w);
      NoBlanksTail(w);
      ScanWord(w[1..], rest);
    }
  }

  // ---- The flags in printed text ----

  lemma {:induction false} EscapeHasNoBlanks(w: string)
    requires ' ' !in w
    ensures NoBlanks(Escape(w))
    decreases |w|
  {
    if w != "" {
      EscapeHasNoBlanks(w[1..]);
      assert w[0] != ' ';
      var e := EscapeChar(w[0], w[1..]);
      assert NoBlanks(e);
      NoBlanksConcat(e, Escape(w[1..]));
    }
  }

  lemma NoBlanksConcat(a: string, b: string)
    requires NoBlanks(a) && NoBlanks(b)
    ensures NoBlanks(a + b)
  {}

  lemma EscapeCons(c: char, s: string)
    ensures Escape([c] + s) == EscapeChar(c, s) + Escape(s)
  {
    assert ([c] + s)[1..] == s;
  }

  lemma FirstOfEscape(w: string)
    requires w != ""
    ensures var e := EscapeChar(w[0], w[1..]);
            Escape(w) == e + Escape(w[1..]) && Escape(w) != "" && Escape(w)[0] == e[0]
  {}

  /** Whether a character is escaped does not depend on what follows the next space. */
  lemma SameEscape(c: char, s: string, rest: string)
    requires rest != "" ==> rest[0] == ' '
    ensures EscapeChar(c, s + rest) == EscapeChar(c, s)
  {
    if s == "" {
      assert s + rest == rest;
    } else {
      assert (s + rest)[0] == s[0];
    }
  }

  lemma Assoc(a: string, b: string, c: string)
    ensures a + (b + c) == a + b + c
  {}

  lemma {:induction false} EscapeConcat(w: string, rest: string)
    requires rest != "" ==> rest[0] == ' '
    ensures Escape(w + rest) == Escape(w) + Escape(rest)
    decreases |w|
  {
    if w == "" {
      assert w + rest == rest;
    } else {
      EscapeConcat(w[1..], rest);
      HeadOfConcat(w, rest);
      EscapeCons(w[0], w[1..] + rest);
      FirstOfEscape(w);
      SameEscape(w[0], w[1..], rest);
      Assoc(EscapeChar(w[0], w[1..]), Escape(w[1..]), Escape(rest));
    }
  }

  lemma HeadOfConcat(a: string, b: string)
    requires a != ""
    ensures a + b == [a[0]] + (a[1..] + b)
  {}

  /** Characters that are never escaped. */
  predicate Safe(f: string) {
    forall k | 0 <= k < |f| :: f[k] != '"' && f[k] != '\\' && f[k] != '#' && !IsControl(f[k])
  }

  lemma FlagIsSafe()
    ensures Safe(FLAG) && FLAG[0] == '-' && '"' !in FLAG
  {}

  lemma PrefixStep(f: string, s: string)
    requires f != "" && s != ""
    ensures f <= s <==> f[0] == s[0] && f[1..] <= s[1..]
  {
    if f[0] == s[0] && f[1..] <= s[1..] {
      assert f == [f[0]] + f[1..] && s == [s[0]] + s[1..];
      assert s[..|f|] == [s[0]] + s[1..][..|f| - 1];
    }
    if f <= s { assert s[1..][..|f| - 1] == f[1..]; }
  }

  lemma {:induction false} PrefixOfEscape(f: string, w: string, tail: string)
    requires Safe(f) && (tail != "" ==> tail[0] == '"')
    ensures f <= Escape(w) + tail <==> f <= w
    ensures f <= w ==> Escape(w) == f + Escape(w[|f|..])
    decreases |f|
  {
    if f == "" {
      assert w[0..] == w;
    } else if w == "" {
      assert Escape(w) + tail == tail;
      if tail != "" { PrefixStep(f, tail); }
    } else {
      PrefixStep(f, w);
      PrefixOfPrinted(f, w, tail);
      if IsLiteral(w[0], w[1..]) {
        PrefixOfEscape(f[1..], w[1..], tail);
        if f <= w { PrefixPeels(f, w); }
      }
    }
  }

  lemma PrefixOfPrinted(f: string, w: string, tail: string)
    requires f != "" && w != "" && Safe(f)
    ensures f <= Escape(w) + tail
       <==> IsLiteral(w[0], w[1..]) && f[0] == w[0] && f[1..] <= Escape(w[1..]) + tail
    ensures f[0] == w[0] ==> IsLiteral(w[0], w[1..])
  {
    var e, next := EscapeChar(w[0], w[1..]), Escape(w[1..]);
    FirstOfEscape(w);
    Assoc(e, next, tail);
    PrefixStep(f, e + (next + tail));
    if IsLiteral(w[0], w[1..]) { assert (e + (next + tail))[1..] == next + tail; }
  }

  lemma PrefixPeels(f: string, w: string)
    requires f != "" && f <= w && IsLiteral(w[0], w[1..]) && Escape(w[1..]) == f[1..] + Escape(w[1..][|f| - 1..])
    ensures Escape(w) == f + Escape(w[|f|..])
  {
    assert w[1..][|f| - 1..] == w[|f|..];
    assert f == [w[0]] + f[1..];
    Assoc([w[0]], f[1..], Escape(w[|f|..]));
  }

  lemma SkipOne(x: char, s: string)
    requires x != '-'
    ensures FirstValue([x] + s) == FirstValue(s)
  {
    FlagIsSafe();
    PrefixStep(FLAG, [x] + s);
    assert ([x] + s)[1..] == s;
  }

  /** Text without a dash holds no flag and begins none. */
  lemma {:induction false} SkipNoDash(e: string, rest: string)
    requires '-' !in e
    ensures FirstValue(e + rest) == FirstValue(rest)
    decreases |e|
  {
    if e == "" {
      assert e + rest == rest;
    } else {
      SkipNoDash(e[1..], rest);
      HeadOfConcat(e, rest);
      SkipOne(e[0], e[1..] + rest);
    }
  }

  predicate IsTail(tail: string) {
    '-' !in tail && NoBlanks(tail) && (tail != "" ==> tail[0] == '"')
  }

  lemma {:induction false} FirstValueOfEscape(w: string, tail: string)
    requires IsTail(tail)
    ensures FirstValue(Escape(w) + tail)
         == match FirstValue(w) case None => None case Some(v) => Some(Escape(v) + tail)
    decreases |w|
  {
    if w == "" {
      assert Escape(w) + tail == tail == tail + "";
      SkipNoDash(tail, "");
    } else {
      FlagIsSafe();
      PrefixOfEscape(FLAG, w, tail);
      if FLAG <= w {
        var v := w[|FLAG|..];
        Assoc(FLAG, Escape(v), tail);
        ValueAfterFlag(Escape(v) + tail);
      } else {
        FirstValueOfEscape(w[1..], tail);
        NoFlagFirst(w, tail);
      }
    }
  }

  lemma ValueAfterFlag(v: string)
    ensures FirstValue(FLAG + v) == Some(v)
  {
    assert (FLAG + v)[|FLAG|..] == v;
  }

  lemma NoFlagFirst(w: string, tail: string)
    requires w != "" && !(FLAG <= Escape(w) + tail)
    ensures FirstValue(Escape(w) + tail) == FirstValue(Escape(w[1..]) + tail)
  {
    var e, rest := EscapeChar(w[0], w[1..]), Escape(w[1..]) + tail;
    FirstOfEscape(w);
    Assoc(e, Escape(w[1..]), tail);
    if IsLiteral(w[0], w[1..]) {
      assert (e + rest)[1..] == rest;
    } else {
      SkipNoDash(e, rest);
    }
  }

  lemma WordCaptures(w: string, tail: string)
    requires IsTail(tail)
    ensures CapOf(FirstValue(Escape(w) + tail)) == PrintedAll(GivenInWord(w, tail))
  {
    FirstValueOfEscape(w, tail);
    if FirstValue(w).Some? { PrintedNotEmpty(FirstValue(w).value, tail); }
  }

  lemma PrintedNotEmpty(v: string, tail: string)
    ensures Escape(v) + tail == "" <==> v == "" && tail == ""
  {
    if v != "" { FirstOfEscape(v); }
  }

  lemma PrintedConcat(a: seq<Given>, b: seq<Given>)
    ensures PrintedAll(a + b) == PrintedAll(a) + PrintedAll(b)
  {}

  /** One command line, printed, with `tail` after it and then a space or nothing. */
  lemma {:induction false} ScanCommand(c: string, tail: string, rest: string)
    requires IsTail(tail) && (rest != "" ==> rest[0] == ' ')
    ensures Captures(Escape(c) + tail + rest, 0)
         == PrintedAll(GivenIn(c, tail)) + Captures(rest, 0)
    decreases |c|
  {
    var k := Cut(c, ' ');
    var w := c[..k];
    assert ' ' !in w;
    EscapeHasNoBlanks(w);
    if k == |c| {
      assert w == c;
      NoBlanksConcat(Escape(c), tail);
      ScanWord(Escape(c) + tail, rest);
      WordCaptures(c, tail);
    } else {
      ScanCommand(c[k + 1..], tail, rest);
      SplitAtSpace(c, k);
      ScanToNext(w, c[k + 1..], tail + rest);
      Assoc(Escape(c), tail, rest);
      Assoc(Escape(c[k + 1..]), tail, rest);
      PrintedConcat(GivenInWord(w, ""), GivenIn(c[k + 1..], tail));
      AssocAll(PrintedAll(GivenInWord(w, "")), PrintedAll(GivenIn(c[k + 1..], tail)), Captures(rest, 0));
    }
  }

  lemma AssocAll(a: seq<string>, b: seq<string>, c: seq<string>)
    ensures a + (b + c) == a + b + c
  {}

  /** Up to a space in a command. */
  lemma ScanToNext(w: string, next: string, rest: string)
    requires ' ' !in w
    ensures Captures(Escape(w + ([' '] + next)) + rest, 0)
         == PrintedAll(GivenInWord(w, "")) + Captures(Escape(next) + rest, 0)
  {
    SplitCommand(w, next, rest);
    ScanFirstWord(w, Escape(next) + rest);
  }

  lemma SplitAtSpace(c: string, k: nat)
    requires k < |c| && c[k] == ' '
    ensures c == c[..k] + ([' '] + c[k + 1..])
  {}

  lemma SplitCommand(w: string, next: string, rest: string)
    ensures Escape(w + ([' '] + next)) + rest == Escape(w) + ([' '] + (Escape(next) + rest))
  {
    EscapeConcat(w, [' '] + next);
    EscapeCons(' ', next);
    assert EscapeChar(' ', next) == [' '];
    Assoc([' '], Escape(next), rest);
    Assoc(Escape(w), [' '] + Escape(next), rest);
  }

  lemma ScanFirstWord(w: string, rest: string)
    requires ' ' !in w
    ensures Captures(Escape(w) + ([' '] + rest), 0)
         == PrintedAll(GivenInWord(w, "")) + Captures(rest, 0)
  {
    EscapeHasNoBlanks(w);
    ScanWord(Escape(w), [' '] + rest);
    ScanSkips(' ', rest);
    WordCaptures(w, "");
    assert Escape(w) + "" == Escape(w);
  }

  lemma TailsAreTails()
    ensures IsTail("\"]") && IsTail("\",")
  {}

  lemma ScanLastItem(c: string)
    ensures Captures("\"" + Escape(c) + "\"]", 0) == PrintedAll(GivenIn(c, "\"]"))
  {
    var text := Escape(c) + "\"]" + "";
    TailsAreTails();
    assert "\"" + Escape(c) + "\"]" == ['"'] + text;
    ScanSkips('"', text);
    ScanCommand(c, "\"]", "");
  }

  lemma ScanNextItem(c: string, rest: string)
    ensures Captures("\"" + Escape(c) + "\", " + rest, 0) == PrintedAll(GivenIn(c, "\",")) + Captures(rest, 0)
  {
    var text := Escape(c) + "\"," + ([' '] + rest);
    TailsAreTails();
    assert "\"" + Escape(c) + "\", " + rest == ['"'] + text;
    ScanSkips('"', text);
    ScanCommand(c, "\",", [' '] + rest);
    ScanSkips(' ', rest);
  }

  lemma {:induction false} ScanItems(cs: seq<string>)
    requires cs != []
    ensures Captures(Items(cs), 0) == PrintedAll(AllGiven(cs))
    decreases |cs|
  {
    if |cs| == 1 {
      ScanLastItem(cs[0]);
      assert AllGiven(cs) == GivenIn(cs[0], "\"]") + [];
    } else {
      ScanNextItem(cs[0], Items(cs[1..]));
      ScanItems(cs[1..]);
      PrintedConcat(GivenIn(cs[0], "\","), AllGiven(cs[1..]));
    }
  }

  /** For every list of command lines: the scan captures, in order, each flag that is given, printed. */
  lemma ScanOfCommands(cs: seq<string>)
    ensures Scan(DATA_DIR, 1, Inspect(cs), 0) == PrintedAll(AllGiven(cs))
  {
    ScanCaptures(Inspect(cs), 0);
    if cs == [] {
      ScanSkips('[', "]");
      ScanSkips(']', "");
      assert "[]" == ['['] + "]" && "]" == [']'] + "";
    } else {
      assert Inspect(cs) == ['['] + Items(cs);
      ScanSkips('[', Items(cs));
      ScanItems(cs);
    }
  }

  // ---- When the captured text is the path given ----

  /** The path on the command line: up to the first white space. */
  function Path(value: string): string {
    value[..RunEnd(NON_SPACE, value, 0)]
  }

  /** No character of the value is printed as something else. */
  predicate Literal(value: string) {
    forall k | 0 <= k < |value| :: IsLiteral(value[k], value[k + 1..])
  }

  lemma {:induction false} EscapeLonger(v: string)
    ensures |Escape(v)| >= |v|
    ensures |Escape(v)| == |v| <==> Literal(v)
    ensures Literal(v) ==> Escape(v) == v
    decreases |v|
  {
    if v != "" {
      var rest := v[1..];
      EscapeLonger(rest);
      assert Literal(v) <==> IsLiteral(v[0], rest) && Literal(rest) by {
        if IsLiteral(v[0], rest) && Literal(rest) {
          forall k | 0 <= k < |v| ensures IsLiteral(v[k], v[k + 1..]) {
            if k > 0 { assert rest[k - 1] == v[k] && rest[k..] == v[k + 1..]; }
          }
        }
        if Literal(v) {
          forall k | 0 <= k < |rest| ensures IsLiteral(rest[k], rest[k + 1..]) {
            assert rest[k] == v[k + 1] && rest[k + 1..] == v[k + 1 + 1..];
          }
        }
      }
    }
  }

  lemma PrintedIsPath(g: Given)
    requires ' ' !in g.value
    ensures g.Printed() == Path(g.value) <==> g.tail == "" && Literal(g.value)
  {
    EscapeLonger(g.value);
    RunEndMeans(NON_SPACE, g.value, 0);
    if Literal(g.value) {
      forall k | 0 <= k < |g.value| ensures !Blank(g.value[k]) { assert IsLiteral(g.value[k], g.value[k + 1..]); }
      RunEndIs(NON_SPACE, g.value, 0, |g.value|);
      assert Path(g.value) == g.value;
    }
  }

  lemma WordHasNoSpace(w: string, tail: string)
    requires ' ' !in w
    ensures forall g | g in GivenInWord(w, tail) :: ' ' !in g.value
  {}

  lemma {:induction false} ValuesHaveNoSpace(c: string, tail: string)
    ensures forall g | g in GivenIn(c, tail) :: ' ' !in g.value
    decreases |c|
  {
    var k := Cut(c, ' ');
    CutParts(c, ' ');
    if k < |c| {
      WordHasNoSpace(c[..k], "");
      ValuesHaveNoSpace(c[k + 1..], tail);
    } else {
      WordHasNoSpace(c, tail);
    }
  }

  lemma {:induction false} AllValuesHaveNoSpace(cs: seq<string>)
    ensures forall g | g in AllGiven(cs) :: ' ' !in g.value
    decreases |cs|
  {
    if cs != [] {
      ValuesHaveNoSpace(cs[0], if |cs| == 1 then "\"]" else "\",");
      AllValuesHaveNoSpace(cs[1..]);
    }
  }

  /** For every list of command lines: the directory is that of the last flag given, as printed, and it is the path
      on the command line exactly when another word follows the flag in its command and no character of the value
      is escaped. Without a flag it is looked up in the environment. */
  lemma DirOfCommands(cs: seq<string>, environ: Option<string>)
    ensures var gs := AllGiven(cs);
            if gs == [] then environ.Some? ==> DataDir(true, Inspect(cs), environ) == Ok(AdHocLookup(environ.value))
            else
              var g := gs[|gs| - 1];
              && DataDir(true, Inspect(cs), environ) == Ok(g.Printed())
              && (g.Printed() == Path(g.value) <==> g.tail == "" && Literal(g.value))
  {
    var gs := AllGiven(cs);
    ScanOfCommands(cs);
    if gs != [] {
      AllValuesHaveNoSpace(cs);
      PrintedIsPath(gs[|gs| - 1]);
    }
  }

  lemma GivenFlagLast(first: string, path: string, tail: string)
    requires '-' !in first && ' ' !in first && ' ' !in path && tail != ""
    ensures GivenIn(first + [' '] + (FLAG + path), tail) == [Given(path, tail)]
  {
    var c, w := first + [' '] + (FLAG + path), FLAG + path;
    CutAfter(first, ' ', w);
    assert c[..|first|] == first && c[|first| + 1..] == w;
    SkipNoDash(first, "");
    assert first + "" == first;
    assert ' ' !in w;
    ValueAfterFlag(path);
  }

  /** The usual call, the flag last: the closing quote and bracket end up in the path. */
  lemma FlagLast(first: string, path: string, environ: Option<string>)
    requires '-' !in first && ' ' !in first && ' ' !in path && Literal(path)
    ensures DataDir(true, Inspect([first + " " + FLAG + path]), environ) == Ok(path + "\"]")
  {
    var c := first + " " + FLAG + path;
    assert c == first + [' '] + (FLAG + path);
    GivenFlagLast(first, path, "\"]");
    EscapeLonger(path);
    assert [c][1..] == [];
    assert AllGiven([c]) == [Given(path, "\"]")];
    DirOfCommands([c], environ);
  }
}
