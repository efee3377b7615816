/** Finding etcd's data directory: the last `--data-dir=` on the command line, else the environment. */
module EtcdDataDir {
  import opened Regex
  import opened Matching
  import opened Text
  import opened ProcessEnv

  const FLAG := "--data-dir="
  const KEY := "ETCD_DATA_DIR"

  /** `--data-dir=(\S+)` */
  const WORD := Then(One(NON_SPACE), Many(One(NON_SPACE), true))
  const DATA_DIR := Then(Lit(FLAG), Group(1, WORD))

  /** `^ETCD_DATA_DIR` */
  const KEY_LINE := Then(LineStart, Lit(KEY))

  function Last(xs: seq<string>): Option<string> {
    if xs == [] then None else Some(xs[|xs| - 1])
  }

  function Select(entries: seq<string>): seq<string> {
    if entries == [] then []
    else if Search(KEY_LINE, entries[0]) then [entries[0]] + Select(entries[1..])
    else Select(entries[1..])
  }

  /** The first entry that the expression finds something in, and of it what follows its first `=`;
      all of the entry if it has none, and nothing if there is no such entry. */
  function AdHocLookup(content: string): string {
    var selected := Select(RubySplit(content, '\0'));
    var parts := SplitOnce(if selected == [] then "" else selected[0], '=');
    Last(parts).GetOr("")
  }

  /** The resolved directory; reading the environment of a process without one raises. */
  function DataDir(running: bool, commands: string, environ: Option<string>): Result<string> {
    if !running then Ok("")
    else match Last(Scan(DATA_DIR, 1, commands, 0))
      case Some(dir) => Ok(dir)
      case None => if environ.None? then Raised else Ok(AdHocLookup(environ.value))
  }

  /** The `catch(:stop)` block. `dataDir` may hold nil (`None`) along the way but never at the end. */
  method FindDataDir(running: bool, commands: string, environ: Option<string>) returns (r: Result<string>)
    ensures r == DataDir(running, commands, environ)
    ensures !running ==> r == Ok("")
    ensures running && !FlagGiven(commands) && environ.None? ==> r == Raised
    ensures running && !FlagGiven(commands) && environ.Some? && !KeyGiven(environ.value) ==> r == Ok("")
    ensures running && FlagGiven(commands) ==>
              exists k | 0 <= k <= |commands| ::
                IsLastFlag(commands, 0, k) && r == Ok(commands[k + |FLAG|..ValueEnd(commands, k)])
  {
    CommandLineDir(commands, environ);
    if environ.Some? { AdHocMeans(environ.value); }
    var dataDir: Option<string> := Some("");
    label stop: {
      if running {
        dataDir := Last(Scan(DATA_DIR, 1, commands, 0));
        if dataDir.Some? {
          break stop;
        }
        if environ.None? {
          return Raised;
        }
        dataDir := Some(AdHocLookup(environ.value));
        if dataDir.Some? {
          break stop;
        }
      }
    }
    r := Ok(dataDir.value);
  }

  // ---- What the scan finds ----

  /** A `--data-dir=` with a value starts at `i`. */
  predicate ValueAt(s: string, i: nat) {
    OccursAt(FLAG, s, i) && i + |FLAG| < |s| && NON_SPACE.Has(s[i + |FLAG|])
  }

  function ValueEnd(s: string, i: nat): (e: nat)
    requires ValueAt(s, i)
    ensures i + |FLAG| < e <= |s|
  {
    RunEnd(NON_SPACE, s, i + |FLAG|)
  }

  predicate FlagGiven(commands: string) {
    exists k | 0 <= k <= |commands| :: ValueAt(commands, k)
  }

  /** What is searched for. */
  lemma SearchedTexts()
    ensures FLAG == "--data-dir=" && KEY == "ETCD_DATA_DIR"
  {}

  lemma ScanMatch(s: string, i: nat)
    requires i <= |s|
    ensures Accepts(DATA_DIR, s, i) <==> ValueAt(s, i)
    ensures ValueAt(s, i) ==>
              First(DATA_DIR, s, i) == Match(ValueEnd(s, i), map[1 := s[i + |FLAG|..ValueEnd(s, i)]])
  {
    AcceptsLitThen(FLAG, Group(1, WORD), s, i);
    if OccursAt(FLAG, s, i) {
      var p := i + |FLAG|;
      AcceptsOneThen(NON_SPACE, Many(One(NON_SPACE), true), s, p);
      if p < |s| {
        RunEnds(NON_SPACE, true, s, p + 1);
      }
    }
  }

  lemma {:induction false} SameRun(c: Class, s: string, i: nat, j: nat)
    requires i <= j <= |s| && j <= RunEnd(c, s, i)
    ensures RunEnd(c, s, j) == RunEnd(c, s, i)
    decreases j - i
  {
    if i < j { SameRun(c, s, i + 1, j); }
  }

  /** Flags inside the word that starts with a flag share its end. */
  lemma FlagInsideWord(s: string, i: nat, j: nat)
    requires ValueAt(s, i) && i <= j < ValueEnd(s, i) && ValueAt(s, j)
    ensures ValueEnd(s, j) == ValueEnd(s, i)
  {
    var e := ValueEnd(s, i);
    forall p | j <= p <= j + |FLAG| ensures NON_SPACE.Has(s[p]) {
      if p < j + |FLAG| { assert s[p] == s[j..j + |FLAG|][p - j] == FLAG[p - j]; }
    }
    RunEndMeans(NON_SPACE, s, i + |FLAG|);
    assert j + |FLAG| < e;
    SameRun(NON_SPACE, s, i + |FLAG|, j + |FLAG|);
  }

  /** `k` is the flag the scan ends with: no flag with a value stands after its word, and any flag
      before it stands in an earlier word. */
  predicate IsLastFlag(s: string, from: nat, k: nat) {
    && ValueAt(s, k)
    && (forall j | ValueEnd(s, k) <= j <= |s| :: !ValueAt(s, j))
    && (forall j | from <= j < k && ValueAt(s, j) :: ValueEnd(s, j) <= k)
  }

  /** The last of the captures found from `i` on, as a statement about `s`. */
  ghost predicate EndsWithLast(s: string, i: nat, caps: seq<string>)
    requires i <= |s|
  {
    && (caps == [] <==> forall j | i <= j <= |s| :: !ValueAt(s, j))
    && (caps != [] ==>
          exists k | i <= k <= |s| ::
            IsLastFlag(s, i, k) && caps[|caps| - 1] == s[k + |FLAG|..ValueEnd(s, k)])
  }

  lemma LastFromHere(s: string, i: nat, rest: seq<string>)
    requires i < |s| && ValueAt(s, i) && EndsWithLast(s, ValueEnd(s, i), rest)
    ensures EndsWithLast(s, i, [s[i + |FLAG|..ValueEnd(s, i)]] + rest)
  {
    var e := ValueEnd(s, i);
    forall j | i <= j < e && ValueAt(s, j) ensures ValueEnd(s, j) == e { FlagInsideWord(s, i, j); }
    if rest == [] {
      assert IsLastFlag(s, i, i);
    } else {
      var k :| e <= k <= |s| && IsLastFlag(s, e, k) && rest[|rest| - 1] == s[k + |FLAG|..ValueEnd(s, k)];
      assert IsLastFlag(s, i, k);
    }
  }

  lemma LastFromNext(s: string, i: nat, caps: seq<string>)
    requires i < |s| && !ValueAt(s, i) && EndsWithLast(s, i + 1, caps)
    ensures EndsWithLast(s, i, caps)
  {
    if caps != [] {
      var k :| i < k <= |s| && IsLastFlag(s, i + 1, k) && caps[|caps| - 1] == s[k + |FLAG|..ValueEnd(s, k)];
      assert IsLastFlag(s, i, k);
    }
  }

  lemma {:induction false} ScanFindsLast(s: string, i: nat)
    requires i <= |s|
    ensures EndsWithLast(s, i, Scan(DATA_DIR, 1, s, i))
    decreases |s| - i
  {
    ScanMatch(s, i);
    if ValueAt(s, i) {
      ScanFindsLast(s, ValueEnd(s, i));
      LastFromHere(s, i, Scan(DATA_DIR, 1, s, ValueEnd(s, i)));
    } else if i < |s| {
      ScanFindsLast(s, i + 1);
      LastFromNext(s, i, Scan(DATA_DIR, 1, s, i + 1));
    }
  }

  /** The directory taken from the command line is the value of the first flag in the last word that
      has one; it is not empty and holds no white space. */
  lemma CommandLineDir(commands: string, environ: Option<string>)
    ensures FlagGiven(commands) ==>
              exists k | 0 <= k <= |commands| ::
                && IsLastFlag(commands, 0, k)
                && DataDir(true, commands, environ) == Ok(commands[k + |FLAG|..ValueEnd(commands, k)])
                && forall q | k + |FLAG| <= q < ValueEnd(commands, k) :: NON_SPACE.Has(commands[q])
    ensures !FlagGiven(commands) ==>
              DataDir(true, commands, environ)
                == if environ.None? then Raised else Ok(AdHocLookup(environ.value))
  {
    ScanFindsLast(commands, 0);
    forall k | 0 <= k <= |commands| && ValueAt(commands, k)
      ensures forall q | k + |FLAG| <= q < ValueEnd(commands, k) :: NON_SPACE.Has(commands[q])
    {
      RunEndMeans(NON_SPACE, commands, k + |FLAG|);
    }
  }

  // ---- The two readings of the environment block ----

  /** Some line of the entry begins with the key. */
  predicate HasKeyLine(entry: string) {
    exists i | 0 <= i <= |entry| :: AtLineStart(entry, i) && OccursAt(KEY, entry, i)
  }

  lemma KeyLineSearch(entry: string)
    ensures Search(KEY_LINE, entry) <==> HasKeyLine(entry)
  {
    forall i | 0 <= i <= |entry|
      ensures Accepts(KEY_LINE, entry, i) <==> AtLineStart(entry, i) && OccursAt(KEY, entry, i)
    {
      AcceptsLineStartThen(Lit(KEY), entry, i);
    }
  }

  predicate KeyGiven(content: string) {
    exists k | 0 <= k < |RubySplit(content, '\0')| :: HasKeyLine(RubySplit(content, '\0')[k])
  }

  predicate IsFirstKeyLine(es: seq<string>, k: nat) {
    k < |es| && HasKeyLine(es[k]) && forall q | 0 <= q < k :: !HasKeyLine(es[q])
  }

  lemma {:induction false} SelectNothing(es: seq<string>)
    requires forall k | 0 <= k < |es| :: !HasKeyLine(es[k])
    ensures Select(es) == []
    decreases |es|
  {
    if es != [] {
      KeyLineSearch(es[0]);
      SelectNothing(es[1..]);
    }
  }

  lemma {:induction false} SelectHead(es: seq<string>, k: nat)
    requires IsFirstKeyLine(es, k)
    ensures Select(es) != [] && Select(es)[0] == es[k]
    decreases k
  {
    KeyLineSearch(es[0]);
    if k > 0 { SelectHead(es[1..], k - 1); }
  }

  lemma {:induction false} FindFirst(es: seq<string>) returns (k: nat)
    requires exists q | 0 <= q < |es| :: HasKeyLine(es[q])
    ensures IsFirstKeyLine(es, k)
    decreases |es|
  {
    if HasKeyLine(es[0]) {
      k := 0;
    } else {
      k := FindFirst(es[1..]);
      k := k + 1;
    }
  }

  /** The ad hoc lookup on any content: '' without an entry that has a line beginning with the key; else, of the
      first such entry, what follows its first `=`, or all of it without one. */
  lemma AdHocMeans(content: string)
    ensures !KeyGiven(content) ==> AdHocLookup(content) == ""
    ensures KeyGiven(content) ==> exists k: nat :: IsFirstKeyLine(RubySplit(content, '\0'), k)
    ensures forall k: nat | IsFirstKeyLine(RubySplit(content, '\0'), k) ::
              AdHocLookup(content) == AfterFirst(RubySplit(content, '\0')[k], '=')
  {
    var es := RubySplit(content, '\0');
    if KeyGiven(content) { var k := FindFirst(es); } else { SelectNothing(es); }
    forall k: nat | IsFirstKeyLine(es, k) ensures AdHocLookup(content) == AfterFirst(es[k], '=') {
      SelectHead(es, k);
    }
  }

  /** What follows the first `c`, or all of the text without one. */
  function AfterFirst(s: string, c: char): (r: string)
    ensures c !in s ==> r == s
    ensures c in s ==> Cut(s, c) < |s| && r == s[Cut(s, c) + 1..]
  {
    if Cut(s, c) == |s| then s else s[Cut(s, c) + 1..]
  }

  /** The first binding whose printed entry has a line that begins with the key. */
  function FirstKeyLine(bs: seq<Binding>): Option<nat> {
    if bs == [] then None
    else if HasKeyLine(Entry(bs[0])) then Some(0)
    else match FirstKeyLine(bs[1..]) case None => None case Some(k) => Some(k + 1)
  }

  lemma {:induction false} SelectFirst(bs: seq<Binding>)
    ensures var k, selected := FirstKeyLine(bs), Select(Entries(bs));
            && (selected == [] <==> k.None?)
            && (k.Some? ==> k.value < |bs| && selected[0] == Entry(bs[k.value]))
    decreases |bs|
  {
    if bs != [] {
      KeyLineSearch(Entry(bs[0]));
      SelectFirst(bs[1..]);
      assert Entries(bs)[1..] == Entries(bs[1..]);
    }
  }

  /** The ad hoc lookup returns the value of the first entry that has a line beginning with the key. */
  lemma {:induction false} AdHocOfPrint(bs: seq<Binding>)
    requires forall k | 0 <= k < |bs| :: WellFormed(bs[k])
    ensures AdHocLookup(Print(bs))
         == match FirstKeyLine(bs) case None => "" case Some(k) => if k < |bs| then bs[k].value else ""
  {
    SplitOfPrint(bs);
    SelectFirst(bs);
    if FirstKeyLine(bs).Some? {
      var b := bs[FirstKeyLine(bs).value];
      assert Entry(b) == b.name + ['='] + b.value;
      SplitOnceAt(b.name, '=', b.value);
    }
  }

  /** The value of the binding at `k`, if any. */
  function ValueAtBinding(bs: seq<Binding>, k: Option<nat>): string {
    if k.Some? && k.value < |bs| then bs[k.value].value else ""
  }

  /** On this environment both lookups give the same. */
  ghost predicate AgreeOn(bs: seq<Binding>) {
    var block := Print(bs);
    Parse(block).Ok? && AdHocLookup(block) == Lookup(Parse(block).value, KEY)
  }

  /** On every well-formed block, line breaks included, the lookups agree exactly when the first binding with
      a line that begins with the key has the value of the last binding of the key. */
  lemma LookupsAgreeOn(bs: seq<Binding>)
    requires forall k | 0 <= k < |bs| :: WellFormed(bs[k])
    ensures AgreeOn(bs)
       <==> ValueAtBinding(bs, FirstKeyLine(bs)) == ValueAtBinding(bs, LastBinding(bs, KEY))
  {
    RoundTrip(bs);
    AdHocOfPrint(bs);
    LookupIsLast(bs, KEY);
  }

  // ---- When the names alone decide ----

  function Zip(names: seq<string>, values: seq<string>): (bs: seq<Binding>)
    requires |names| == |values|
    ensures |bs| == |names| && forall k | 0 <= k < |bs| :: bs[k] == Binding(names[k], values[k])
  {
    seq(|names|, k requires 0 <= k < |names| => Binding(names[k], values[k]))
  }

  predicate NoNul(ss: seq<string>) {
    forall k | 0 <= k < |ss| :: '\0' !in ss[k]
  }

  predicate Names(ss: seq<string>) {
    NoNul(ss) && forall k | 0 <= k < |ss| :: '=' !in ss[k]
  }

  predicate OneLine(ss: seq<string>) {
    forall k | 0 <= k < |ss| :: '\n' !in ss[k]
  }

  /** Some line of the text other than its first begins with the key. */
  predicate HasLaterKeyLine(s: string) {
    exists i | 0 < i <= |s| :: AtLineStart(s, i) && OccursAt(KEY, s, i)
  }

  lemma KeyHasNoEquals()
    ensures '=' !in KEY && '\0' !in KEY && '\n' !in KEY && |KEY| == 13
  {}

  lemma PlaceInName(b: Binding, i: nat)
    requires i <= |b.name|
    ensures AtLineStart(Entry(b), i) && OccursAt(KEY, Entry(b), i)
       <==> AtLineStart(b.name, i) && OccursAt(KEY, b.name, i)
  {
    KeyHasNoEquals();
    var e := Entry(b);
    assert e[|b.name|] == '=';
    if OccursAt(KEY, e, i) {
      assert forall p | i <= p < i + |KEY| :: e[p] == e[i..i + |KEY|][p - i] && e[p] != '=';
    }
    if i + |KEY| <= |b.name| { assert e[i..i + |KEY|] == b.name[i..i + |KEY|]; }
  }

  lemma PlaceInValue(b: Binding, i: nat)
    requires i <= |b.value|
    ensures var p := |b.name| + 1 + i;
            AtLineStart(Entry(b), p) && OccursAt(KEY, Entry(b), p)
            <==> i > 0 && AtLineStart(b.value, i) && OccursAt(KEY, b.value, i)
  {
    var e := Entry(b);
    var p := |b.name| + 1 + i;
    assert e[|b.name|] == '=';
    if i > 0 { assert e[p - 1] == b.value[i - 1]; }
    if i + |KEY| <= |b.value| { assert e[p..p + |KEY|] == b.value[i..i + |KEY|]; }
  }

  /** The expression finds the key at the start of a line of the name, or of a later line of the value. */
  lemma KeyLineOfEntry(b: Binding)
    ensures HasKeyLine(Entry(b)) <==> HasKeyLine(b.name) || HasLaterKeyLine(b.value)
  {
    var e := Entry(b);
    if HasKeyLine(e) {
      var p :| 0 <= p <= |e| && AtLineStart(e, p) && OccursAt(KEY, e, p);
      if p <= |b.name| { PlaceInName(b, p); } else { PlaceInValue(b, p - |b.name| - 1); }
    }
    if i :| 0 <= i <= |b.name| && AtLineStart(b.name, i) && OccursAt(KEY, b.name, i) { PlaceInName(b, i); }
    if i :| 0 < i <= |b.value| && AtLineStart(b.value, i) && OccursAt(KEY, b.value, i) { PlaceInValue(b, i); }
  }

  /** The first name with a line that begins with the key. */
  function FirstKeyed(names: seq<string>): Option<nat> {
    if names == [] then None
    else if HasKeyLine(names[0]) then Some(0)
    else match FirstKeyed(names[1..]) case None => None case Some(k) => Some(k + 1)
  }

  function LastExact(names: seq<string>): (k: Option<nat>)
    ensures k.Some? ==> k.value < |names| && names[k.value] == KEY
  {
    if names == [] then None
    else if names[|names| - 1] == KEY then Some(|names| - 1)
    else LastExact(names[..|names| - 1])
  }

  lemma {:induction false} FirstDependsOnNames(names: seq<string>, values: seq<string>)
    requires |names| == |values| && OneLine(values)
    ensures FirstKeyLine(Zip(names, values)) == FirstKeyed(names)
    decreases |names|
  {
    if names != [] {
      KeyLineOfEntry(Binding(names[0], values[0]));
      FirstDependsOnNames(names[1..], values[1..]);
      assert Zip(names, values)[1..] == Zip(names[1..], values[1..]);
    }
  }

  lemma {:induction false} LastDependsOnNames(names: seq<string>, values: seq<string>)
    requires |names| == |values|
    ensures LastBinding(Zip(names, values), KEY) == LastExact(names)
    decreases |names|
  {
    if names != [] {
      var n := |names| - 1;
      LastDependsOnNames(names[..n], values[..n]);
      assert Zip(names, values)[..n] == Zip(names[..n], values[..n]);
    }
  }

  ghost predicate Agree(names: seq<string>, values: seq<string>)
    requires |names| == |values|
  {
    AgreeOn(Zip(names, values))
  }

  /** Both lookups, in terms of the chosen positions. */
  lemma BothLookups(names: seq<string>, values: seq<string>)
    requires |names| == |values| && Names(names) && NoNul(values)
    ensures var bs := Zip(names, values);
            Agree(names, values) <==> ValueAtBinding(bs, FirstKeyLine(bs)) == ValueAtBinding(bs, LastExact(names))
  {
    var bs := Zip(names, values);
    forall k | 0 <= k < |bs| ensures WellFormed(bs[k]) {}
    LookupsAgreeOn(bs);
    LastDependsOnNames(names, values);
  }

  lemma {:induction false} FirstKeyedInRange(names: seq<string>)
    ensures FirstKeyed(names).Some? ==> FirstKeyed(names).value < |names|
    decreases |names|
  {
    if names != [] { FirstKeyedInRange(names[1..]); }
  }

  /** With one-line values the lookups agree, whatever the values, exactly when the first name that has a line
      beginning with ETCD_DATA_DIR is the last name equal to it. */
  lemma {:induction false} LookupsAgreeOnLines(names: seq<string>)
    requires Names(names)
    ensures (forall values | |values| == |names| && NoNul(values) && OneLine(values) :: Agree(names, values))
       <==> FirstKeyed(names) == LastExact(names)
  {
    if FirstKeyed(names) == LastExact(names) {
      forall values: seq<string> | |values| == |names| && NoNul(values) && OneLine(values)
        ensures Agree(names, values)
      {
        BothLookups(names, values);
        FirstDependsOnNames(names, values);
      }
    } else {
      var values := TellingValues(names);
    }
  }

  lemma {:induction false} TellingValues(names: seq<string>) returns (values: seq<string>)
    requires Names(names) && FirstKeyed(names) != LastExact(names)
    ensures |values| == |names| && NoNul(values) && OneLine(values) && !Agree(names, values)
  {
    FirstKeyedInRange(names);
    var k := if FirstKeyed(names).Some? then FirstKeyed(names).value else LastExact(names).value;
    values := seq(|names|, _ => "")[k := "x"];
    BothLookups(names, values);
    FirstDependsOnNames(names, values);
  }

  /** A value that the expression takes for the setting, whatever its name. */
  const BROKEN := "x\n" + KEY

  lemma BrokenIsTaken(name: string)
    ensures HasKeyLine(Entry(Binding(name, BROKEN))) && '\0' !in BROKEN
  {
    KeyHasNoEquals();
    assert AtLineStart(BROKEN, 2) && BROKEN[2..2 + |KEY|] == KEY;
    assert OccursAt(KEY, BROKEN, 2);
    KeyLineOfEntry(Binding(name, BROKEN));
  }

  lemma KeyIsKeyed()
    ensures HasKeyLine(KEY)
  {
    assert KEY[0..|KEY|] == KEY;
    assert OccursAt(KEY, KEY, 0);
  }

  /** The lookups agree, whatever the values, line breaks included, exactly when the environment is empty or
      ETCD_DATA_DIR is the first variable and is bound only once. */
  lemma {:induction false} LookupsAgree(names: seq<string>)
    requires Names(names)
    ensures (forall values | |values| == |names| && NoNul(values) :: Agree(names, values))
       <==> names == [] || (names[0] == KEY && KEY !in names[1..])
  {
    LastExactIsFirst(names);
    if names == [] || (names[0] == KEY && KEY !in names[1..]) {
      forall values: seq<string> | |values| == |names| && NoNul(values) ensures Agree(names, values) {
        BothLookups(names, values);
        if names != [] {
          KeyIsKeyed();
          KeyLineOfEntry(Binding(names[0], values[0]));
        }
      }
    } else {
      var values := BreakingValues(names);
    }
  }

  lemma {:induction false} LastExactIsFirst(names: seq<string>)
    ensures LastExact(names) == Some(0) <==> names != [] && names[0] == KEY && KEY !in names[1..]
    ensures LastExact(names).None? <==> KEY !in names
    decreases |names|
  {
    if names != [] {
      var n := |names| - 1;
      LastExactIsFirst(names[..n]);
      assert names == names[..n] + [names[n]];
      if n > 0 { assert names[1..] == names[..n][1..] + [names[n]]; }
    }
  }

  lemma {:induction false} BreakingValues(names: seq<string>) returns (values: seq<string>)
    requires Names(names) && names != [] && LastExact(names) != Some(0)
    ensures |values| == |names| && NoNul(values) && !Agree(names, values)
  {
    values := seq(|names|, _ => "")[0 := BROKEN];
    BrokenIsTaken(names[0]);
    BothLookups(names, values);
  }

  /** In particular a value with a line break can be taken for the setting. */
  lemma {:induction false} LookupsDifferOnLineBreak()
    ensures var block := Print([Binding("A", BROKEN)]);
            && AdHocLookup(block) == BROKEN
            && Parse(block).Ok? && Lookup(Parse(block).value, KEY) == ""
  {
    var b := Binding("A", BROKEN);
    BrokenIsTaken("A");
    assert WellFormed(b);
    AdHocOfPrint([b]);
    RoundTrip([b]);
    LookupIsLast([b], KEY);
  }
}
