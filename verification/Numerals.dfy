/** Numerals as the profiles print and read them: `n.to_s`, `n.to_s(8)` and `String#to_i`. */
module Numerals {
  import opened Regex
  import opened Text

  datatype Radix = Octal | Decimal {
    function Base(): nat { if Octal? then 8 else 10 }
    function Times(m: nat): nat { if Octal? then 8 * m else 10 * m }
    function Quotient(n: nat): nat { if Octal? then n / 8 else n / 10 }
    function Remainder(n: nat): nat { if Octal? then n % 8 else n % 10 }
  }

  function Digit(d: nat): (c: char)
    requires d < 10
    ensures DigitValue(c) == d
    ensures DIGIT.Has(c)
  {
    ['0', '1', '2', '3', '4', '5', '6', '7', '8', '9'][d]
  }

  function DigitValue(c: char): (d: nat)
    ensures d < 10
  {
    if '0' <= c <= '9' then (c - '0') as nat else 0
  }

  lemma DigitOfValue(c: char)
    requires DIGIT.Has(c)
    ensures Digit(DigitValue(c)) == c
  {}

  /** `n.to_s` in the given radix. */
  function Numeral(n: nat, r: Radix): (s: string)
    ensures |s| > 0 && forall k | 0 <= k < |s| :: DIGIT.Has(s[k]) && DigitValue(s[k]) < r.Base()
  {
    if n < r.Base() then [Digit(n)] else Numeral(r.Quotient(n), r) + [Digit(r.Remainder(n))]
  }

  function Value(s: string, r: Radix): nat {
    if s == "" then 0 else r.Times(Value(s[..|s| - 1], r)) + DigitValue(s[|s| - 1])
  }

  /** A digit string with no superfluous leading zero. */
  predicate Canonical(s: string) {
    && s != ""
    && (forall k | 0 <= k < |s| :: DIGIT.Has(s[k]))
    && (s[0] == '0' ==> |s| == 1)
  }

  /** Reading a numeral gives back its number, and numerals have no superfluous leading zero. */
  lemma {:induction false} ValueOfNumeral(n: nat, r: Radix)
    ensures Value(Numeral(n, r), r) == n
    ensures Canonical(Numeral(n, r))
    ensures Numeral(n, r)[0] == '0' <==> n == 0
  {
    var s := Numeral(n, r);
    if n < r.Base() {
      assert s[..0] == "";
      assert Value(s[..0], r) == 0;
    } else {
      ValueOfNumeral(r.Quotient(n), r);
      assert s[..|s| - 1] == Numeral(r.Quotient(n), r);
      assert r.Quotient(n) > 0;
    }
  }

  lemma AppendDigit(n: nat, d: nat)
    requires n > 0 && d < 10
    ensures Numeral(10 * n + d, Decimal) == Numeral(n, Decimal) + [Digit(d)]
  {
    LastDigit(n, d);
  }

  lemma LastDigit(n: nat, d: nat)
    requires d < 10
    ensures Decimal.Quotient(10 * n + d) == n && Decimal.Remainder(10 * n + d) == d
  {}

  /** Every canonical decimal string is the numeral of its value. */
  lemma {:induction false} NumeralOfValue(s: string)
    requires Canonical(s)
    ensures Numeral(Value(s, Decimal), Decimal) == s
    ensures s[0] != '0' ==> Value(s, Decimal) > 0
    decreases |s|
  {
    if |s| == 1 {
      SingleNumeral(s);
    } else {
      CanonicalFront(s);
      NumeralOfValue(s[..|s| - 1]);
      assert s == s[..|s| - 1] + [s[|s| - 1]];
      NumeralOfAppend(s, s[..|s| - 1], s[|s| - 1]);
    }
  }

  lemma SingleNumeral(s: string)
    requires Canonical(s) && |s| == 1
    ensures Numeral(Value(s, Decimal), Decimal) == s && (s[0] != '0' ==> Value(s, Decimal) > 0)
  {
    ValueOfAppend("", s[0]);
    assert s == "" + [s[0]];
    DigitOfValue(s[0]);
  }

  lemma ValueOfAppend(front: string, last: char)
    ensures Value(front + [last], Decimal) == 10 * Value(front, Decimal) + DigitValue(last)
    ensures front == "" ==> Value(front + [last], Decimal) == DigitValue(last)
  {
    assert (front + [last])[..|front|] == front;
  }

  lemma NumeralGrows(v: nat, n: nat, d: nat, front: string)
    requires v == 10 * n + d && n > 0 && d < 10 && Numeral(n, Decimal) == front
    ensures Numeral(v, Decimal) == front + [Digit(d)]
  {
    AppendDigit(n, d);
  }

  lemma NumeralOfAppend(s: string, front: string, last: char)
    requires s == front + [last] && DIGIT.Has(last)
    requires Value(front, Decimal) > 0 && Numeral(Value(front, Decimal), Decimal) == front
    ensures Numeral(Value(s, Decimal), Decimal) == s && Value(s, Decimal) > 0
  {
    ValueOfAppend(front, last);
    DigitOfValue(last);
    NumeralGrows(Value(s, Decimal), Value(front, Decimal), DigitValue(last), front);
  }

  lemma CanonicalFront(s: string)
    requires Canonical(s) && |s| > 1
    ensures Canonical(s[..|s| - 1]) && s[..|s| - 1][0] == s[0] != '0'
  {}

  function Pow(r: Radix, k: nat): nat {
    if k == 0 then 1 else r.Times(Pow(r, k - 1))
  }

  /** Digit `k` of `n`, the least significant being digit 0. */
  function DigitAt(n: nat, k: nat, r: Radix): (d: nat)
    ensures d < r.Base()
    decreases k
  {
    if k == 0 then r.Remainder(n) else DigitAt(r.Quotient(n), k - 1, r)
  }

  /** The length of a numeral. */
  lemma {:induction false} NumeralLength(n: nat, k: nat, r: Radix)
    ensures |Numeral(n, r)| > k <==> k == 0 || Pow(r, k) <= n
    decreases k
  {
    if n < r.Base() {
      if k > 0 { PowAtLeastBase(r, k); }
    } else if k > 0 {
      NumeralLength(r.Quotient(n), k - 1, r);
      FirstQuotient(n, k, r);
    }
  }

  /** Its digits. */
  lemma {:induction false} NumeralDigit(n: nat, k: nat, r: Radix)
    requires |Numeral(n, r)| > k
    ensures DigitValue(Numeral(n, r)[|Numeral(n, r)| - 1 - k]) == DigitAt(n, k, r)
    decreases k
  {
    if k > 0 {
      var front := Numeral(r.Quotient(n), r);
      AppendIndex(Numeral(n, r), front, Digit(r.Remainder(n)), k);
      NumeralDigit(r.Quotient(n), k - 1, r);
    }
  }

  /** From the end, the digits of the front of a text are one place further left in the whole. */
  lemma AppendIndex(s: string, front: string, c: char, k: nat)
    requires s == front + [c] && 0 < k <= |front|
    ensures |s| == |front| + 1 && s[|s| - 1 - k] == front[|front| - 1 - (k - 1)]
  {}

  lemma FirstQuotient(n: nat, k: nat, r: Radix)
    requires k > 0 && n >= r.Base()
    ensures Pow(r, k) <= n <==> k == 1 || Pow(r, k - 1) <= r.Quotient(n)
  {
    QuotientBound(n, Pow(r, k - 1), r);
  }

  lemma QuotientBound(n: nat, p: nat, r: Radix)
    ensures p <= r.Quotient(n) <==> r.Times(p) <= n
  {}

  lemma {:induction false} PowAtLeastBase(r: Radix, k: nat)
    requires k > 0
    ensures Pow(r, k) >= r.Base()
    decreases k
  {
    if k > 1 { PowAtLeastBase(r, k - 1); }
  }

  // ---- String#to_i ----

  /** The digits `to_i` reads: leading digits, single underscores between digits skipped. */
  function LeadingDigits(s: string): (r: string)
    ensures forall k | 0 <= k < |r| :: DIGIT.Has(r[k])
  {
    if s == "" || !DIGIT.Has(s[0]) then ""
    else if |s| > 2 && s[1] == '_' && DIGIT.Has(s[2]) then [s[0]] + LeadingDigits(s[2..])
    else [s[0]] + LeadingDigits(s[1..])
  }

  function SkipBlanks(s: string): string {
    if s != "" && SPACE.Has(s[0]) then SkipBlanks(s[1..]) else s
  }

  /** In base 10 a `0d` before the digits is passed over. */
  function SkipPrefix(s: string): string {
    if |s| > 1 && s[0] == '0' && (s[1] == 'd' || s[1] == 'D') then s[2..] else s
  }

  function Magnitude(s: string): nat {
    Value(LeadingDigits(SkipPrefix(s)), Decimal)
  }

  /** Ruby's `String#to_i`: blanks, an optional sign, then as many digits as there are; 0 if none. */
  function ToI(s: string): int {
    var t := SkipBlanks(s);
    if t != "" && t[0] == '-' then -(Magnitude(t[1..]) as int)
    else if t != "" && t[0] == '+' then Magnitude(t[1..])
    else Magnitude(t)
  }

  lemma {:induction false} LeadingDigitsOfDigits(s: string, rest: string)
    requires forall k | 0 <= k < |s| :: DIGIT.Has(s[k])
    requires rest != "" ==> !DIGIT.Has(rest[0]) && rest[0] != '_'
    ensures LeadingDigits(s + rest) == s
    decreases |s|
  {
    if s != "" {
      LeadingDigitsOfDigits(s[1..], rest);
      assert (s + rest)[1..] == s[1..] + rest;
    } else {
      assert s + rest == rest;
    }
  }

  /** A numeral is not mistaken for a prefix, unless it is 0 and a `d` follows. */
  lemma NumeralHasNoPrefix(n: nat, rest: string)
    requires n == 0 && rest != "" ==> rest[0] !in {'d', 'D'}
    ensures SkipPrefix(Numeral(n, Decimal) + rest) == Numeral(n, Decimal) + rest
  {
    var s := Numeral(n, Decimal);
    ValueOfNumeral(n, Decimal);
    assert (s + rest)[0] == s[0];
    if |s| > 1 { assert (s + rest)[1] == s[1] && DIGIT.Has(s[1]); }
    else if rest != "" { assert (s + rest)[1] == rest[0]; }
  }

  lemma MagnitudeOfNumeral(n: nat, rest: string)
    requires rest != "" ==> !DIGIT.Has(rest[0]) && rest[0] != '_'
    requires n == 0 && rest != "" ==> rest[0] !in {'d', 'D'}
    ensures Magnitude(Numeral(n, Decimal) + rest) == n
  {
    NumeralHasNoPrefix(n, rest);
    LeadingDigitsOfDigits(Numeral(n, Decimal), rest);
    ValueOfNumeral(n, Decimal);
  }

  lemma ToIOfDigits(t: string)
    requires t != "" && DIGIT.Has(t[0])
    ensures ToI(t) == Magnitude(t) && ToI("-" + t) == -(Magnitude(t) as int)
  {
    NoBlankToSkip(t);
    NoBlankToSkip("-" + t);
    assert ("-" + t)[1..] == t;
  }

  /** `to_i` undoes `to_s`, whatever follows the numeral, as long as it is neither a digit nor an underscore,
      nor turns a 0 into the `0d` prefix. */
  lemma ToIOfNumeral(n: nat, rest: string)
    requires rest != "" ==> !DIGIT.Has(rest[0]) && rest[0] != '_'
    requires n == 0 && rest != "" ==> rest[0] !in {'d', 'D'}
    ensures ToI(Numeral(n, Decimal) + rest) == n
    ensures ToI("-" + Numeral(n, Decimal) + rest) == -(n as int)
  {
    var t := Numeral(n, Decimal) + rest;
    MagnitudeOfNumeral(n, rest);
    assert t[0] == Numeral(n, Decimal)[0];
    ToIOfDigits(t);
    assert "-" + Numeral(n, Decimal) + rest == "-" + t;
  }

  /** A numeral after the prefix is read all the same. */
  lemma ToIAfterPrefix(n: nat, rest: string)
    requires rest != "" ==> !DIGIT.Has(rest[0]) && rest[0] != '_'
    ensures ToI("0d" + Numeral(n, Decimal) + rest) == n
  {
    var s := Numeral(n, Decimal);
    var t := "0d" + s + rest;
    assert t == "0d" + (s + rest) && t[2..] == s + rest;
    NoBlankToSkip(t);
    LeadingDigitsOfDigits(s, rest);
    ValueOfNumeral(n, Decimal);
  }

  lemma NoBlankToSkip(t: string)
    requires t != "" && (DIGIT.Has(t[0]) || t[0] == '-')
    ensures SkipBlanks(t) == t
  {}

  // ---- A number as it may be written ----

  /** Groups of digits with an underscore between any two. */
  function Underscored(groups: seq<string>): string
    requires groups != []
  {
    if |groups| == 1 then groups[0] else groups[0] + ("_" + Underscored(groups[1..]))
  }

  lemma {:induction false} GroupThen(x: string, next: string)
    requires AllDigits(x) && next != "" && DIGIT.Has(next[0])
    ensures LeadingDigits(x + ("_" + next)) == x + LeadingDigits(next)
    decreases |x|
  {
    var s := x + ("_" + next);
    if |x| == 1 {
      assert s[1] == '_' && s[2] == next[0] && s[2..] == next && x == [x[0]];
    } else {
      GroupThen(x[1..], next);
      LongerGroup(x, "_" + next);
      assert x == [x[0]] + x[1..];
    }
  }

  lemma LongerGroup(x: string, tail: string)
    requires AllDigits(x) && |x| > 1
    ensures LeadingDigits(x + tail) == [x[0]] + LeadingDigits(x[1..] + tail)
  {
    assert (x + tail)[1..] == x[1..] + tail && (x + tail)[1] == x[1] && DIGIT.Has(x[1]);
  }

  lemma {:induction false} LeadingGroups(groups: seq<string>, rest: string)
    requires groups != [] && forall k | 0 <= k < |groups| :: AllDigits(groups[k])
    requires rest != "" ==> !DIGIT.Has(rest[0]) && rest[0] != '_'
    ensures Underscored(groups) != "" && DIGIT.Has(Underscored(groups)[0])
    ensures LeadingDigits(Underscored(groups) + rest) == Concat(groups)
    decreases |groups|
  {
    if |groups| == 1 {
      LeadingDigitsOfDigits(groups[0], rest);
      assert Concat(groups) == groups[0] + Concat(groups[1..]) == groups[0];
    } else {
      LeadingGroups(groups[1..], rest);
      GroupThen(groups[0], Underscored(groups[1..]) + rest);
      assert Underscored(groups) + rest == groups[0] + ("_" + (Underscored(groups[1..]) + rest));
    }
  }

  lemma DigitsHaveNoPrefix(x: string, tail: string)
    requires AllDigits(x) && (tail != "" ==> tail[0] !in {'d', 'D'})
    ensures SkipPrefix(x + tail) == x + tail
  {
    if |x| > 1 { assert (x + tail)[1] == x[1] && DIGIT.Has(x[1]); }
    else if tail != "" { assert (x + tail)[1] == tail[0]; }
  }

  lemma GroupsHaveNoPrefix(groups: seq<string>, rest: string)
    requires groups != [] && forall k | 0 <= k < |groups| :: AllDigits(groups[k])
    requires rest != "" ==> rest[0] !in {'d', 'D'}
    ensures SkipPrefix(Underscored(groups) + rest) == Underscored(groups) + rest
  {
    if |groups| == 1 {
      DigitsHaveNoPrefix(groups[0], rest);
    } else {
      UnderscoreRest(groups[0], Underscored(groups[1..]), rest);
      DigitsHaveNoPrefix(groups[0], "_" + (Underscored(groups[1..]) + rest));
    }
  }

  lemma UnderscoreRest(x: string, u: string, rest: string)
    ensures x + ("_" + u) + rest == x + ("_" + (u + rest))
  {}

  lemma {:induction false} BlanksSkipped(blanks: string, t: string)
    requires (forall k | 0 <= k < |blanks| :: SPACE.Has(blanks[k])) && (t != "" ==> !SPACE.Has(t[0]))
    ensures SkipBlanks(blanks + t) == t
    decreases |blanks|
  {
    if blanks == "" {
      assert blanks + t == t;
    } else {
      BlanksSkipped(blanks[1..], t);
      assert (blanks + t)[1..] == blanks[1..] + t;
    }
  }

  /** `to_i` of blanks, a sign or none, and groups of digits is the number all the digits make up. */
  lemma ToIOfWritten(blanks: string, sign: string, groups: seq<string>, rest: string)
    requires forall k | 0 <= k < |blanks| :: SPACE.Has(blanks[k])
    requires sign in {"", "+", "-"} && groups != [] && forall k | 0 <= k < |groups| :: AllDigits(groups[k])
    requires rest != "" ==> !DIGIT.Has(rest[0]) && rest[0] !in {'_', 'd', 'D'}
    ensures ToI(blanks + (sign + (Underscored(groups) + rest)))
         == if sign == "-" then -(Value(Concat(groups), Decimal) as int) else Value(Concat(groups), Decimal)
  {
    var text := Underscored(groups) + rest;
    LeadingGroups(groups, rest);
    GroupsHaveNoPrefix(groups, rest);
    assert text[0] == Underscored(groups)[0];
    SignSkipped(sign, text);
    BlanksSkipped(blanks, sign + text);
  }

  lemma SignSkipped(sign: string, text: string)
    requires sign in {"", "+", "-"} && text != "" && DIGIT.Has(text[0])
    ensures sign + text != "" && !SPACE.Has((sign + text)[0])
    ensures (sign + text)[0] == '-' <==> sign == "-"
    ensures (sign + text)[0] == '+' <==> sign == "+"
    ensures sign != "" ==> (sign + text)[1..] == text
    ensures sign == "" ==> sign + text == text
  {}
}
