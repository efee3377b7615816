/** What a control leaves behind: one entry per `describe`, in the order they were run. */
module CheckLog {

  /** `Describe` holds the outcome of each `it`; `DescribeOne` the outcomes of each alternative
      `describe` inside `describe.one`; `Skipped` is a `describe` whose body is `skip`. */
  datatype Entry =
    | Describe(results: seq<bool>)
    | DescribeOne(alternatives: seq<seq<bool>>)
    | Skipped

  predicate AllPass(results: seq<bool>) {
    forall k | 0 <= k < |results| :: results[k]
  }

  predicate Passes(e: Entry) {
    match e
    case Describe(rs) => AllPass(rs)
    case DescribeOne(alts) => exists k | 0 <= k < |alts| :: AllPass(alts[k])
    case Skipped => true
  }

  /** The control has no failing entry. */
  predicate Verdict(log: seq<Entry>) {
    forall k | 0 <= k < |log| :: Passes(log[k])
  }

  lemma VerdictOfConcat(a: seq<Entry>, b: seq<Entry>)
    ensures Verdict(a + b) <==> Verdict(a) && Verdict(b)
  {
    if Verdict(a + b) {
      forall k | 0 <= k < |a| ensures Passes(a[k]) { assert (a + b)[k] == a[k]; }
      forall k | 0 <= k < |b| ensures Passes(b[k]) { assert (a + b)[|a| + k] == b[k]; }
    }
  }

  /** InSpec's comparison of two strings; the results below hold for any such relation. */
  type Comparison = (string, string) -> bool

  /** `cmp 'text'` on a query result: a single result is compared, anything else is a different value. */
  predicate Cmp(same: Comparison, actual: seq<string>, expected: string) {
    |actual| == 1 && same(actual[0], expected)
  }

  /** The control being run: its log so far and its current impact. */
  class Report {
    var log: seq<Entry>
    var impact: real

    constructor (impact: real)
      ensures this.log == [] && this.impact == impact
    {
      this.log := [];
      this.impact := impact;
    }

    method Emit(e: Entry)
      modifies this`log
      ensures log == old(log) + [e]
    {
      log := log + [e];
    }
  }
}
