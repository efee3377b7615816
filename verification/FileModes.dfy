/** The permission checks: regular expressions searched in `mode.to_s(8)`. */
module FileModes {
  import opened Regex
  import opened Matching
  import opened Numerals
  import opened CheckLog
  import opened HdfStatus

  const MODE_644 := Row([Only({'0', '2', '4', '6'}), Only({'0', '2', '4'}), Only({'0', '2', '4'})])
  const MODE_700 := Row([Range('0', '7'), Only({'0'}), Only({'0'})])

  predicate Mode644Check(mode: nat) {
    Search(MODE_644, Numeral(mode, Octal))
  }

  predicate Mode700Check(mode: nat) {
    Search(MODE_700, Numeral(mode, Octal))
  }

  lemma RowSearch(cs: seq<Class>, s: string)
    ensures Search(Row(cs), s) <==> exists i: nat :: RowAt(cs, s, i)
  {
    SearchMeans(Row(cs), s);
    if i: nat, j: nat :| i <= j <= |s| && Denotes(Row(cs), s, i, j) { RowDenotes(cs, s, i, j); }
    if i: nat :| RowAt(cs, s, i) { RowDenotes(cs, s, i, i + |cs|); }
  }

  /** Three octal digits of `n` in a row, the lowest being digit `k`. */
  predicate DigitsFrom(n: nat, k: nat, a: set<nat>, b: set<nat>, c: set<nat>) {
    && Pow(Octal, k + 2) <= n
    && DigitAt(n, k + 2, Octal) in a && DigitAt(n, k + 1, Octal) in b && DigitAt(n, k, Octal) in c
  }

  /** Class `c` is the digits in `ds`. */
  ghost predicate Describes(c: Class, ds: set<nat>) {
    forall x | DIGIT.Has(x) :: c.Has(x) <==> DigitValue(x) in ds
  }

  lemma RowOfThree(cs: seq<Class>, s: string, i: nat)
    requires |cs| == 3 && i + 3 <= |s|
    ensures RowAt(cs, s, i) <==> cs[0].Has(s[i]) && cs[1].Has(s[i + 1]) && cs[2].Has(s[i + 2])
  {}

  lemma WindowMeans(n: nat, k: nat, cs: seq<Class>, a: set<nat>, b: set<nat>, c: set<nat>)
    requires |cs| == 3 && Describes(cs[0], a) && Describes(cs[1], b) && Describes(cs[2], c)
    ensures var s := Numeral(n, Octal);
            DigitsFrom(n, k, a, b, c) <==> |s| > k + 2 && RowAt(cs, s, |s| - 3 - k)
  {
    var s := Numeral(n, Octal);
    NumeralLength(n, k + 2, Octal);
    if |s| > k + 2 {
      RowOfThree(cs, s, |s| - 3 - k);
      DigitChar(n, k);
      DigitChar(n, k + 1);
      DigitChar(n, k + 2);
    }
  }

  lemma DigitChar(n: nat, k: nat)
    requires |Numeral(n, Octal)| > k
    ensures var x := Numeral(n, Octal)[|Numeral(n, Octal)| - 1 - k];
            DIGIT.Has(x) && DigitValue(x) == DigitAt(n, k, Octal)
  {
    NumeralDigit(n, k, Octal);
  }

  lemma WindowSearch(n: nat, cs: seq<Class>, a: set<nat>, b: set<nat>, c: set<nat>)
    requires |cs| == 3 && Describes(cs[0], a) && Describes(cs[1], b) && Describes(cs[2], c)
    ensures Search(Row(cs), Numeral(n, Octal)) <==> exists k: nat :: DigitsFrom(n, k, a, b, c)
  {
    var s := Numeral(n, Octal);
    RowSearch(cs, s);
    if i: nat :| RowAt(cs, s, i) {
      WindowMeans(n, |s| - 3 - i, cs, a, b, c);
    }
    if k: nat :| DigitsFrom(n, k, a, b, c) {
      WindowMeans(n, k, cs, a, b, c);
    }
  }

  /** The 644 check accepts a mode exactly when three consecutive octal digits fit, wherever they stand. */
  lemma Mode644Means(n: nat)
    ensures Mode644Check(n) <==> exists k: nat :: DigitsFrom(n, k, {0, 2, 4, 6}, {0, 2, 4}, {0, 2, 4})
  {
    WindowSearch(n, [Only({'0', '2', '4', '6'}), Only({'0', '2', '4'}), Only({'0', '2', '4'})],
      {0, 2, 4, 6}, {0, 2, 4}, {0, 2, 4});
  }

  lemma Mode700Means(n: nat)
    ensures Mode700Check(n) <==> exists k: nat :: DigitsFrom(n, k, {0, 1, 2, 3, 4, 5, 6, 7}, {0}, {0})
  {
    WindowSearch(n, [Range('0', '7'), Only({'0'}), Only({'0'})], {0, 1, 2, 3, 4, 5, 6, 7}, {0}, {0});
  }

  // ---- Modes: twelve bits, so at most four octal digits ----

  const MODES := 4096

  /** No permission bit outside 0644 is set: the documented "644 or more restrictive". */
  predicate Within644(n: nat) {
    n < 512 && DigitAt(n, 2, Octal) in {0, 2, 4, 6} && DigitAt(n, 1, Octal) in {0, 4} && DigitAt(n, 0, Octal) in {0, 4}
  }

  /** No permission bit outside 0700 is set: "700 or more restrictive". */
  predicate Within700(n: nat) {
    n < 512 && DigitAt(n, 1, Octal) == 0 && DigitAt(n, 0, Octal) == 0
  }

  /** Some of the nine execute bits is set. */
  predicate Executable(n: nat) {
    exists k | 0 <= k < 3 :: DigitAt(n, k, Octal) in {1, 3, 5, 7}
  }

  lemma {:induction false} PowGrows(k: nat)
    ensures Pow(Octal, k + 2) >= 64
    ensures k == 1 ==> Pow(Octal, k + 2) == 512
    ensures k > 1 ==> Pow(Octal, k + 2) >= MODES
    decreases k
  {
    if k > 0 { PowGrows(k - 1); }
    assert Pow(Octal, 1) == 8 && Pow(Octal, 2) == 64;
  }

  /** A mode has only two windows: the low three digits, and the high three if there are four. */
  lemma WindowsOfMode(n: nat, a: set<nat>, b: set<nat>, c: set<nat>)
    requires n < MODES
    ensures (exists k: nat :: DigitsFrom(n, k, a, b, c)) <==> DigitsFrom(n, 0, a, b, c) || DigitsFrom(n, 1, a, b, c)
    ensures Pow(Octal, 2) == 64 && Pow(Octal, 3) == 512
  {
    forall k: nat | k > 1 ensures !DigitsFrom(n, k, a, b, c) { PowGrows(k); }
    PowGrows(1);
    assert Pow(Octal, 1) == 8 && Pow(Octal, 2) == 64;
  }

  /** The low three digits of a mode fit the expression. */
  predicate LowFit(n: nat) {
    && n >= 64
    && DigitAt(n, 2, Octal) in {0, 2, 4, 6} && DigitAt(n, 1, Octal) in {0, 2, 4} && DigitAt(n, 0, Octal) in {0, 2, 4}
  }

  /** The special digit and the two after it fit the expression. */
  predicate HighFit(n: nat) {
    && n >= 512
    && DigitAt(n, 3, Octal) in {0, 2, 4, 6} && DigitAt(n, 2, Octal) in {0, 2, 4} && DigitAt(n, 1, Octal) in {0, 2, 4}
  }

  lemma Mode644OfMode(n: nat)
    requires n < MODES
    ensures Mode644Check(n) <==> LowFit(n) || HighFit(n)
  {
    Mode644Means(n);
    WindowsOfMode(n, {0, 2, 4, 6}, {0, 2, 4}, {0, 2, 4});
  }

  /** For every mode, exactly when the check decides "644 or more restrictive": below 0100 it rejects, from
      0100 to 0777 it goes wrong on a group or other digit of 2 alone, and from 01000 on on everything it accepts. */
  lemma {:induction false} Mode644Decides(n: nat)
    requires n < MODES
    ensures (Mode644Check(n) <==> Within644(n))
       <==> if n < 64 then !Within644(n)
            else if n < 512 then !LowFit(n) || (DigitAt(n, 1, Octal) != 2 && DigitAt(n, 0, Octal) != 2)
            else !LowFit(n) && !HighFit(n)
    ensures Within644(n) && 64 <= n ==> Mode644Check(n)
  {
    Mode644OfMode(n);
  }

  /** For every mode, exactly when an accepted one is executable, and when one that is not is rejected. */
  lemma {:induction false} Mode644AndExecution(n: nat)
    requires n < MODES
    ensures Mode644Check(n) && Executable(n) <==> HighFit(n) && DigitAt(n, 0, Octal) in {1, 3, 5, 7}
    ensures !Mode644Check(n) && !Executable(n)
       <==> !Executable(n) && (n < 64 || (!HighFit(n) && (DigitAt(n, 1, Octal) == 6 || DigitAt(n, 0, Octal) == 6)))
  {
    Mode644OfMode(n);
    assert Executable(n) <==> DigitAt(n, 0, Octal) in {1, 3, 5, 7} || DigitAt(n, 1, Octal) in {1, 3, 5, 7}
                              || DigitAt(n, 2, Octal) in {1, 3, 5, 7};
    assert forall k | 0 <= k < 3 :: DigitAt(n, k, Octal) < 8;
  }

  /** For every mode, exactly when the data directory check decides "700 or more restrictive". */
  lemma {:induction false} Mode700Decides(n: nat)
    requires n < MODES
    ensures (Mode700Check(n) <==> Within700(n))
       <==> if n < 64 then n != 0
            else n < 512
                 || !(DigitAt(n, 1, Octal) == 0 && (DigitAt(n, 0, Octal) == 0 || DigitAt(n, 2, Octal) == 0))
  {
    Mode700Means(n);
    WindowsOfMode(n, {0, 1, 2, 3, 4, 5, 6, 7}, {0}, {0});
    LowDigits(n);
  }

  lemma DigitStep(n: nat, k: nat)
    ensures DigitAt(n, k + 1, Octal) == DigitAt(n / 8, k, Octal)
    ensures DigitAt(n, 0, Octal) == n % 8
  {}

  lemma LowDigits(n: nat)
    ensures DigitAt(n, 0, Octal) == n % 8 && DigitAt(n, 1, Octal) == n / 8 % 8
  {
    DigitStep(n, 0);
    DigitStep(n / 8, 0);
  }

  /** Writing one more digit shifts the others. */
  lemma DigitsShift(m: nat, d: nat, k: nat)
    requires d < 8
    ensures DigitAt(m * 8 + d, 0, Octal) == d && DigitAt(m * 8 + d, k + 1, Octal) == DigitAt(m, k, Octal)
  {
    DigitStep(m * 8 + d, k);
  }

  /** The digits of a number written with four of them. */
  lemma FourDigits(d3: nat, d2: nat, d1: nat, d0: nat)
    requires d3 < 8 && d2 < 8 && d1 < 8 && d0 < 8
    ensures var n := ((d3 * 8 + d2) * 8 + d1) * 8 + d0;
            && DigitAt(n, 0, Octal) == d0 && DigitAt(n, 1, Octal) == d1
            && DigitAt(n, 2, Octal) == d2 && DigitAt(n, 3, Octal) == d3
  {
    var n2 := d3 * 8 + d2;
    var n1 := n2 * 8 + d1;
    forall k: nat ensures DigitAt(n1 * 8 + d0, k + 1, Octal) == DigitAt(n1, k, Octal) { DigitsShift(n1, d0, k); }
    forall k: nat ensures DigitAt(n1, k + 1, Octal) == DigitAt(n2, k, Octal) { DigitsShift(n2, d1, k); }
    DigitsShift(n1, d0, 0);
    DigitsShift(n2, d1, 0);
    DigitsShift(d3, d2, 0);
    DigitStep(d3, 0);
  }

  /** Mode 6447 is accepted by the 644 check and is world-executable. */
  lemma Mode644AcceptsExecutable()
    ensures var n: nat := ((6 * 8 + 4) * 8 + 4) * 8 + 7;
            Mode644Check(n) && Executable(n)
  {
    FourDigits(6, 4, 4, 7);
    Mode644AndExecution(((6 * 8 + 4) * 8 + 4) * 8 + 7);
  }

  /** Mode 1007 is accepted by the 700 check although the world may do anything with the directory. */
  lemma Mode700AcceptsWorld()
    ensures var n: nat := ((1 * 8 + 0) * 8 + 0) * 8 + 7;
            Mode700Check(n) && !Within700(n)
  {
    FourDigits(1, 0, 0, 7);
    Mode700Decides(((1 * 8 + 0) * 8 + 0) * 8 + 7);
  }

  /** The control on the data directory, whose mode is `mode`: skipped without a directory. */
  function DirectoryLog(dir: string, mode: nat): seq<Entry> {
    if dir != "" then [Describe([Mode700Check(mode)])] else [Skipped]
  }

  lemma DirectoryStatus(dir: string, mode: nat, impact: real)
    requires impact != 0.0
    ensures StatusOf(DirectoryLog(dir, mode), impact)
         == if dir == "" then NotReviewed else if Mode700Check(mode) then StatusPassed else StatusFailed
  {
    var log := DirectoryLog(dir, mode);
    if dir == "" {
      StatusOfLog(log, impact);
      assert Skip in EntrySegments(log[0]);
    } else {
      assert IsCheck(log[0]);
      StatusOfChecks(log, impact);
      assert AllPass(log[0].results) <==> log[0].results[0];
    }
  }
}
