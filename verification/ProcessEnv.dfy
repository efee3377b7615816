/** Looking up a process's environment: the `process_env_var` resource. */
module ProcessEnv {
  import opened Text

  type Env = map<string, string>

  datatype Binding = Binding(name: string, value: string)

  /** The hash of the entries, each split at its first `=`; raises when one does not split in two. */
  function ToHash(entries: seq<string>): Result<Env> {
    if entries == [] then Ok(map[])
    else
      var front, pair := ToHash(entries[..|entries| - 1]), SplitOnce(entries[|entries| - 1], '=');
      if front.Raised? || |pair| != 2 then Raised else Ok(front.value[pair[0] := pair[1]])
  }

  function Parse(content: string): Result<Env> {
    ToHash(RubySplit(content, '\0'))
  }

  /** The value of the name, or '' if it has none. */
  function Lookup(env: Env, name: string): string {
    if name in env then env[name] else ""
  }

  // ---- The block as the kernel prints it ----

  function Entry(b: Binding): string {
    b.name + "=" + b.value
  }

  function Print(bs: seq<Binding>): string {
    if bs == [] then "" else Entry(bs[0]) + "\0" + Print(bs[1..])
  }

  function LastWins(bs: seq<Binding>): Env {
    if bs == [] then map[] else LastWins(bs[..|bs| - 1])[bs[|bs| - 1].name := bs[|bs| - 1].value]
  }

  predicate WellFormed(b: Binding) {
    '\0' !in b.name && '\0' !in b.value && '=' !in b.name
  }

  function Entries(bs: seq<Binding>): (es: seq<string>)
    ensures |es| == |bs| && forall k | 0 <= k < |bs| :: es[k] == Entry(bs[k])
  {
    seq(|bs|, k requires 0 <= k < |bs| => Entry(bs[k]))
  }

  lemma {:induction false} FieldsOfPrint(bs: seq<Binding>)
    requires forall k | 0 <= k < |bs| :: WellFormed(bs[k])
    ensures Fields(Print(bs), '\0') == Entries(bs) + [""]
    decreases |bs|
  {
    if bs != [] {
      var rest := Print(bs[1..]);
      FieldsOfPrint(bs[1..]);
      EntryStep(bs[0], rest);
      assert Entries(bs) == [Entry(bs[0])] + Entries(bs[1..]);
    }
  }

  lemma EntryStep(b: Binding, rest: string)
    requires WellFormed(b)
    ensures Fields(Entry(b) + "\0" + rest, '\0') == [Entry(b)] + Fields(rest, '\0')
  {
    assert Entry(b) + "\0" + rest == Entry(b) + ['\0'] + rest;
    FieldsStep(Entry(b), '\0', rest);
  }

  lemma {:induction false} SplitOfPrint(bs: seq<Binding>)
    requires forall k | 0 <= k < |bs| :: WellFormed(bs[k])
    ensures RubySplit(Print(bs), '\0') == Entries(bs)
  {
    FieldsOfPrint(bs);
    DropOneEmpty(Entries(bs));
  }

  lemma {:induction false} HashOfEntries(bs: seq<Binding>)
    requires forall k | 0 <= k < |bs| :: WellFormed(bs[k])
    ensures ToHash(Entries(bs)) == Ok(LastWins(bs))
    decreases |bs|
  {
    if bs != [] {
      var n := |bs| - 1;
      HashOfEntries(bs[..n]);
      assert Entries(bs)[..n] == Entries(bs[..n]);
      var b := bs[n];
      assert Entry(b) == b.name + ['='] + b.value;
      SplitOnceAt(b.name, '=', b.value);
    }
  }

  /** Parsing undoes printing, up to last-wins; values may contain `=`. */
  lemma {:induction false} RoundTrip(bs: seq<Binding>)
    requires forall k | 0 <= k < |bs| :: WellFormed(bs[k])
    ensures Parse(Print(bs)) == Ok(LastWins(bs))
  {
    SplitOfPrint(bs);
    HashOfEntries(bs);
  }

  /** The parse raises exactly when some entry, trailing empty ones aside, has no `=`. */
  lemma {:induction false} HashRaises(entries: seq<string>)
    ensures ToHash(entries).Raised? <==> exists k | 0 <= k < |entries| :: '=' !in entries[k]
    decreases |entries|
  {
    if entries != [] {
      var n := |entries| - 1;
      HashRaises(entries[..n]);
      var e := entries[n];
      assert |SplitOnce(e, '=')| == 2 <==> '=' in e by {
        if '=' in e { var q :| 0 <= q < |e| && e[q] == '='; assert Cut(e, '=') <= q; }
      }
      if k :| 0 <= k < |entries| && '=' !in entries[k] {
        if k < n { assert entries[..n][k] == entries[k]; }
      }
    }
  }

  lemma ParseRaises(content: string)
    ensures Parse(content).Raised? <==> exists e :: e in RubySplit(content, '\0') && '=' !in e
  {
    var es := RubySplit(content, '\0');
    HashRaises(es);
    if e :| e in es && '=' !in e { var k :| 0 <= k < |es| && es[k] == e; }
  }

  /** The last binding of `name`, if any. */
  function LastBinding(bs: seq<Binding>, name: string): Option<nat> {
    if bs == [] then None
    else if bs[|bs| - 1].name == name then Some(|bs| - 1)
    else LastBinding(bs[..|bs| - 1], name)
  }

  /** `k` is the last place that binds `name`. */
  predicate IsLast(bs: seq<Binding>, name: string, k: nat) {
    k < |bs| && bs[k].name == name && forall q | k < q < |bs| :: bs[q].name != name
  }

  predicate Unbound(bs: seq<Binding>, name: string) {
    forall q | 0 <= q < |bs| :: bs[q].name != name
  }

  lemma {:induction false} LookupIsLast(bs: seq<Binding>, name: string)
    ensures match LastBinding(bs, name)
            case Some(k) => IsLast(bs, name, k) && Lookup(LastWins(bs), name) == bs[k].value
            case None => Unbound(bs, name) && Lookup(LastWins(bs), name) == ""
    decreases |bs|
  {
    if bs != [] && bs[|bs| - 1].name != name {
      var front := bs[..|bs| - 1];
      LookupIsLast(front, name);
      assert forall q | 0 <= q < |front| :: front[q] == bs[q];
    }
  }

  lemma LastIsUnique(bs: seq<Binding>, name: string, k: nat)
    requires IsLast(bs, name, k)
    ensures LastBinding(bs, name) == Some(k)
  {
    LookupIsLast(bs, name);
  }

  /** A lookup answers '' exactly when the name is unbound or last bound to ''. */
  lemma LookupIsEmpty(bs: seq<Binding>, name: string)
    ensures Lookup(LastWins(bs), name) == ""
       <==> Unbound(bs, name) || exists k: nat :: IsLast(bs, name, k) && bs[k].value == ""
  {
    LookupIsLast(bs, name);
    if k: nat :| IsLast(bs, name, k) && bs[k].value == "" { LastIsUnique(bs, name, k); }
  }

  // ---- The resource and its memo ----

  /** What the file system would answer now for `/proc/<pid>/environ`. */
  datatype EnvironFile = EnvironFile(isFile: bool, content: string, isEmpty: bool)

  /** What a first, unmemoised `read_params` returns. */
  function FirstRead(file: EnvironFile): Result<Env> {
    if !file.isFile then Ok(map[])
    else if file.content == "" && !file.isEmpty then Ok(map[])
    else Parse(file.content)
  }

  /** The memo, and how often the file has been read. */
  datatype Memo = Memo(params: Option<Env>, fileReads: nat)

  function AfterRead(m: Memo, file: EnvironFile): Memo {
    if m.params.Some? then m
    else Memo(if FirstRead(file).Ok? then Some(FirstRead(file).value) else None, m.fileReads + 1)
  }

  function ReadAnswer(m: Memo, file: EnvironFile): Result<Env> {
    if m.params.Some? then Ok(m.params.value) else FirstRead(file)
  }

  class ProcessEnvVar {
    var params: Option<Env>
    ghost var fileReads: nat

    ghost function State(): Memo
      reads this
    {
      Memo(params, fileReads)
    }

    constructor ()
      ensures State() == Memo(None, 0)
    {
      params := None;
      fileReads := 0;
    }

    method ReadParams(file: EnvironFile) returns (r: Result<Env>)
      modifies this
      ensures r == ReadAnswer(old(State()), file) && State() == AfterRead(old(State()), file)
      ensures old(params).Some? ==> r == Ok(old(params).value) && fileReads == old(fileReads)
      ensures old(params).None? ==> fileReads == old(fileReads) + 1
      ensures old(params).None? && (!file.isFile || file.content == "") ==> r == Ok(map[])
      ensures old(params).None? && file.isFile && file.content != "" ==> r == Parse(file.content)
      ensures params == if r.Ok? then Some(r.value) else None
    {
      if params.Some? {
        return Ok(params.value);
      }
      fileReads := fileReads + 1;
      if !file.isFile {
        params := Some(map[]);
        return Ok(map[]);
      }
      if file.content == "" && !file.isEmpty {
        params := Some(map[]);
        return Ok(map[]);
      }
      r := Parse(file.content);
      if r.Ok? {
        params := Some(r.value);
      }
    }

    /** `method_missing`. */
    method Get(file: EnvironFile, name: string) returns (r: Result<string>)
      modifies this
      ensures r == Answer(ReadAnswer(old(State()), file), name)
      ensures State() == AfterRead(old(State()), file)
    {
      var env := ReadParams(file);
      r := if env.Ok? then Ok(Lookup(env.value, name)) else Raised;
    }

    /** A run of lookups by the controls of a profile, the file changing in between at will. */
    method GetAll(calls: seq<Call>) returns (answers: seq<Result<string>>)
      modifies this
      ensures (State(), answers) == Run(old(State()), calls)
    {
      answers := [];
      assert calls[0..] == calls && [] + Run(State(), calls).1 == Run(State(), calls).1;
      for i := 0 to |calls|
        invariant Run(old(State()), calls) == Prepend(answers, Run(State(), calls[i..]))
      {
        RunStep(State(), calls, i, answers);
        var r := Get(calls[i].file, calls[i].name);
        answers := answers + [r];
      }
      assert calls[|calls|..] == [] && answers + [] == answers;
    }
  }

  lemma RunStep(m: Memo, calls: seq<Call>, i: nat, answers: seq<Result<string>>)
    requires i < |calls|
    ensures var r := Answer(ReadAnswer(m, calls[i].file), calls[i].name);
            Prepend(answers, Run(m, calls[i..]))
              == Prepend(answers + [r], Run(AfterRead(m, calls[i].file), calls[i + 1..]))
  {
    assert calls[i..][1..] == calls[i + 1..];
    var r := Answer(ReadAnswer(m, calls[i].file), calls[i].name);
    var rest := Run(AfterRead(m, calls[i].file), calls[i + 1..]).1;
    assert answers + ([r] + rest) == answers + [r] + rest;
  }

  function Prepend(answers: seq<Result<string>>, rest: (Memo, seq<Result<string>>)): (Memo, seq<Result<string>>) {
    (rest.0, answers + rest.1)
  }

  function Answer(env: Result<Env>, name: string): Result<string> {
    if env.Ok? then Ok(Lookup(env.value, name)) else Raised
  }

  /** One lookup: the file as it is at that moment, and the name asked for. */
  datatype Call = Call(file: EnvironFile, name: string)

  /** What a whole run of lookups on one resource leaves and answers. */
  function Run(m: Memo, calls: seq<Call>): (r: (Memo, seq<Result<string>>))
    ensures |r.1| == |calls|
    decreases |calls|
  {
    if calls == [] then (m, [])
    else
      var (end, answers) := Run(AfterRead(m, calls[0].file), calls[1..]);
      (end, [Answer(ReadAnswer(m, calls[0].file), calls[0].name)] + answers)
  }

  lemma {:induction false} RunWithMemo(m: Memo, calls: seq<Call>)
    requires m.params.Some?
    ensures Run(m, calls).0 == m
    ensures forall i | 0 <= i < |calls| :: Run(m, calls).1[i] == Ok(Lookup(m.params.value, calls[i].name))
    decreases |calls|
  {
    if calls != [] {
      RunWithMemo(m, calls[1..]);
      forall i | 0 < i < |calls| ensures Run(m, calls).1[i] == Ok(Lookup(m.params.value, calls[i].name)) {
        assert calls[i] == calls[1..][i - 1];
      }
    }
  }

  /** Over every run: lookups raise until one read returns normally; that read is the last one made,
      and every answer from then on is the parse of the file as it was at that moment. */
  lemma {:induction false} MemoOverRuns(n: nat, calls: seq<Call>)
    ensures var (end, answers) := Run(Memo(None, n), calls);
            var k := FirstGood(calls);
            && end.fileReads == n + (if k < |calls| then k + 1 else |calls|)
            && (forall i | 0 <= i < k :: answers[i] == Raised)
            && (forall i | k <= i < |calls| ::
                  answers[i] == Ok(Lookup(FirstRead(calls[k].file).value, calls[i].name)))
    decreases |calls|
  {
    if calls != [] {
      var next := AfterRead(Memo(None, n), calls[0].file);
      if next.params.Some? {
        RunWithMemo(next, calls[1..]);
      } else {
        MemoOverRuns(n + 1, calls[1..]);
      }
    }
  }

  /** The first call whose read returns normally. */
  function FirstGood(calls: seq<Call>): (k: nat)
    ensures k <= |calls|
    ensures k < |calls| ==> FirstRead(calls[k].file).Ok?
  {
    if calls == [] || FirstRead(calls[0].file).Ok? then 0 else 1 + FirstGood(calls[1..])
  }

  // ---- Whole runs, in terms of the bindings in the files ----

  /** Reading this file raises: some entry has no `=`. */
  predicate Malformed(file: EnvironFile) {
    file.isFile && exists k | 0 <= k < |RubySplit(file.content, '\0')| :: '=' !in RubySplit(file.content, '\0')[k]
  }

  /** The file holds these bindings; one that is missing holds none. */
  predicate Binds(file: EnvironFile, bs: seq<Binding>) {
    && (forall k | 0 <= k < |bs| :: WellFormed(bs[k]))
    && if file.isFile then RubySplit(file.content, '\0') == Entries(bs) else bs == []
  }

  /** The printed block holds the bindings printed. */
  lemma PrintedBinds(bs: seq<Binding>, isEmpty: bool)
    requires forall k | 0 <= k < |bs| :: WellFormed(bs[k])
    ensures Binds(EnvironFile(true, Print(bs), isEmpty), bs)
  {
    SplitOfPrint(bs);
  }

  /** An empty content, as a missing file, holds no binding. */
  lemma EmptyBinds(isFile: bool, isEmpty: bool)
    ensures Binds(EnvironFile(isFile, "", isEmpty), [])
  {
    assert Fields("", '\0') == [""];
    assert DropTrailingEmpty([""]) == DropTrailingEmpty([""][..0]) == [];
  }

  /** Every file that is not malformed holds some bindings. */
  lemma FileBinds(file: EnvironFile) returns (bs: seq<Binding>)
    requires !Malformed(file)
    ensures Binds(file, bs)
  {
    bs := [];
    if file.isFile {
      var es := RubySplit(file.content, '\0');
      FieldsMean(file.content, '\0');
      RubySplitMeans(file.content, '\0');
      forall k | 0 <= k < |es| ensures '=' in es[k] && '\0' !in es[k] { assert es[k] == Fields(file.content, '\0')[k]; }
      bs := EntriesBind(es);
    }
  }

  lemma {:induction false} EntriesBind(es: seq<string>) returns (bs: seq<Binding>)
    requires forall k | 0 <= k < |es| :: '=' in es[k] && '\0' !in es[k]
    ensures Entries(bs) == es && forall k | 0 <= k < |bs| :: WellFormed(bs[k])
    decreases |es|
  {
    if es == [] {
      bs := [];
    } else {
      var rest := EntriesBind(es[1..]);
      var b := EntryBinds(es[0]);
      bs := [b] + rest;
      assert es == [es[0]] + es[1..];
    }
  }

  lemma EntryBinds(e: string) returns (b: Binding)
    requires '=' in e && '\0' !in e
    ensures Entry(b) == e && WellFormed(b)
  {
    var k := Cut(e, '=');
    CutParts(e, '=');
    var q :| 0 <= q < |e| && e[q] == '=';
    assert k <= q;
    b := Binding(e[..k], e[k + 1..]);
  }

  lemma FirstReadBinds(file: EnvironFile, bs: seq<Binding>)
    requires Binds(file, bs)
    ensures FirstRead(file) == Ok(LastWins(bs))
  {
    if file.isFile {
      HashOfEntries(bs);
      if file.content == "" {
        EmptyBinds(true, file.isEmpty);
        assert Entries(bs) == [];
        assert bs == [];
      }
    }
  }

  lemma FirstReadRaises(file: EnvironFile)
    requires Malformed(file)
    ensures FirstRead(file) == Raised
  {
    HashRaises(RubySplit(file.content, '\0'));
    if file.content == "" { EmptyBinds(true, file.isEmpty); }
  }

  lemma {:induction false} FirstGoodIs(calls: seq<Call>, k: nat)
    requires k <= |calls| && (forall i | 0 <= i < k :: Malformed(calls[i].file))
    requires k < |calls| ==> !Malformed(calls[k].file)
    ensures FirstGood(calls) == k
    decreases k
  {
    if k > 0 {
      FirstReadRaises(calls[0].file);
      FirstGoodIs(calls[1..], k - 1);
    } else if calls != [] {
      var bs := FileBinds(calls[0].file);
      FirstReadBinds(calls[0].file, bs);
    }
  }

  /** The value of the last binding of the name, and '' if there is none. */
  ghost predicate IsAnswer(bs: seq<Binding>, name: string, answer: Result<string>) {
    && (forall j: nat | IsLast(bs, name, j) :: answer == Ok(bs[j].value))
    && (Unbound(bs, name) ==> answer == Ok(""))
  }

  lemma LookupAnswers(bs: seq<Binding>, name: string)
    ensures IsAnswer(bs, name, Ok(Lookup(LastWins(bs), name)))
  {
    LookupIsLast(bs, name);
    forall j: nat | IsLast(bs, name, j) ensures Lookup(LastWins(bs), name) == bs[j].value {
      LastIsUnique(bs, name, j);
    }
  }

  /** Over every run on a new resource: while the file is malformed every lookup raises; the first file that is not
      is the last one read, and every lookup from then on answers from the bindings in it. */
  lemma {:induction false} RunOverBindings(calls: seq<Call>, k: nat, bs: seq<Binding>)
    requires k <= |calls| && (forall i | 0 <= i < k :: Malformed(calls[i].file))
    requires k < |calls| ==> !Malformed(calls[k].file) && Binds(calls[k].file, bs)
    ensures var (end, answers) := Run(Memo(None, 0), calls);
            && end.fileReads == (if k < |calls| then k + 1 else k)
            && (forall i | 0 <= i < k :: answers[i] == Raised)
            && (forall i | k <= i < |calls| :: IsAnswer(bs, calls[i].name, answers[i]))
  {
    MemoOverRuns(0, calls);
    FirstGoodIs(calls, k);
    if k < |calls| {
      FirstReadBinds(calls[k].file, bs);
      forall i | k <= i < |calls| ensures IsAnswer(bs, calls[i].name, Run(Memo(None, 0), calls).1[i]) {
        LookupAnswers(bs, calls[i].name);
      }
    }
  }
}
