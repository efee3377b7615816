/** The API server's command-line checks: the secure-port range and the `--flag=…Token…` checks. */
module ApiServer {
  import opened Regex
  import opened Matching
  import opened Numerals
  import opened CheckLog
  import opened HdfStatus

  const PORT_FLAG := "--secure-port="
  const NONZERO := Range('1', '9')

  /** The digit classes of the five-digit alternatives, in source order. */
  function Pattern(k: nat): (cs: seq<Class>)
    requires 1 <= k < 6
    ensures |cs| == 5
  {
    match k
    case 1 => [Range('1', '5'), DIGIT, DIGIT, DIGIT, DIGIT]
    case 2 => [Only({'6'}), Range('0', '4'), DIGIT, DIGIT, DIGIT]
    case 3 => [Only({'6'}), Only({'5'}), Range('0', '4'), DIGIT, DIGIT]
    case 4 => [Only({'6'}), Only({'5'}), Only({'5'}), Range('0', '2'), DIGIT]
    case _ => [Only({'6'}), Only({'5'}), Only({'5'}), Only({'3'}), Range('0', '5')]
  }

  /** The six alternatives of the port expression. */
  function Alternative(k: nat): Re
    requires k < 6
  {
    if k == 0 then Then(One(NONZERO), UpTo(One(DIGIT), 3)) else Row(Pattern(k))
  }

  /** Alternatives `k`, `k + 1`, …, 5. */
  function AlternativesFrom(k: nat): Re
    requires k < 6
    decreases 6 - k
  {
    if k == 5 then Alternative(5) else Or(Alternative(k), AlternativesFrom(k + 1))
  }

  const PORT := AlternativesFrom(0)
  const SECURE_PORT := Then(Lit(PORT_FLAG), Group(1, PORT))

  function Lo(k: nat): nat
    requires k < 6
  {
    match k case 0 => 1 case 1 => 10000 case 2 => 60000 case 3 => 65000 case 4 => 65500 case _ => 65530
  }

  function Hi(k: nat): nat
    requires k < 6
  {
    match k case 0 => 9999 case 1 => 59999 case 2 => 64999 case 3 => 65499 case 4 => 65529 case _ => 65535
  }

  lemma ValueOfFive(s: string)
    requires |s| == 5
    ensures Value(s, Decimal) == 10000 * DigitValue(s[0]) + 1000 * DigitValue(s[1])
                                 + 100 * DigitValue(s[2]) + 10 * DigitValue(s[3]) + DigitValue(s[4])
  {
    assert s[..4][..3] == s[..3] && s[..3][..2] == s[..2] && s[..2][..1] == s[..1] && s[..1][..0] == "";
    assert Value(s[..0], Decimal) == 0;
    assert Value(s[..1], Decimal) == DigitValue(s[0]);
    assert Value(s[..2], Decimal) == 10 * DigitValue(s[0]) + DigitValue(s[1]);
    assert Value(s[..3], Decimal) == 10 * Value(s[..2], Decimal) + DigitValue(s[2]);
    assert Value(s[..4], Decimal) == 10 * Value(s[..3], Decimal) + DigitValue(s[3]);
  }

  lemma LengthOfCanonical(s: string)
    requires Canonical(s)
    ensures |s| <= 4 <==> Value(s, Decimal) <= 9999
    ensures |s| <= 5 <==> Value(s, Decimal) <= 99999
    ensures s[0] != '0' <==> Value(s, Decimal) > 0
  {
    var n := Value(s, Decimal);
    NumeralOfValue(s);
    ValueOfNumeral(n, Decimal);
    NumeralLength(n, 4, Decimal);
    NumeralLength(n, 5, Decimal);
    assert Pow(Decimal, 4) == 10000 && Pow(Decimal, 5) == 100000 by {
      assert Pow(Decimal, 1) == 10 && Pow(Decimal, 2) == 100 && Pow(Decimal, 3) == 1000;
    }
  }

  /** Each alternative, as a whole word, is one interval of canonical decimal numerals. */
  lemma {:induction false} AlternativeMeans(k: nat, s: string)
    requires k < 6
    ensures Denotes(Alternative(k), s, 0, |s|)
       <==> Canonical(s) && Lo(k) <= Value(s, Decimal) <= Hi(k)
  {
    if Canonical(s) { LengthOfCanonical(s); }
    if k == 0 {
      ShortAlternative(s);
    } else {
      if |s| == 5 { ValueOfFive(s); }
      FiveDigitAlternative(k, s);
    }
  }

  lemma ShortAlternative(s: string)
    ensures Denotes(Alternative(0), s, 0, |s|) <==> Canonical(s) && s[0] != '0' && |s| <= 4
  {
    if Denotes(Alternative(0), s, 0, |s|) {
      var k := ThenSplit(One(NONZERO), UpTo(One(DIGIT), 3), s, 0, |s|);
      UpToDenotes(DIGIT, 3, s, k, |s|);
    }
    if Canonical(s) && s[0] != '0' && |s| <= 4 {
      UpToDenotes(DIGIT, 3, s, 1, |s|);
      assert Denotes(One(NONZERO), s, 0, 1);
    }
  }

  lemma FiveDigitAlternative(k: nat, s: string)
    requires 1 <= k < 6
    ensures Denotes(Alternative(k), s, 0, |s|)
       <==> |s| == 5 && Canonical(s) && Lo(k) <= Value(s, Decimal) <= Hi(k)
  {
    var cs := Pattern(k);
    RowDenotes(cs, s, 0, |s|);
    if |s| == 5 {
      RowOfFive(cs, s);
      if q :| 0 <= q < 5 && !DIGIT.Has(s[q]) {
        PatternIsDigits(k, q, s[q]);
        assert !cs[q].Has(s[q]);
      } else {
        ValueOfFive(s);
        PatternMeans(k, s[0], s[1], s[2], s[3], s[4]);
        assert Canonical(s) <==> s[0] != '0';
      }
    }
  }

  lemma RowOfFive(cs: seq<Class>, s: string)
    requires |cs| == |s| == 5
    ensures RowAt(cs, s, 0)
       <==> cs[0].Has(s[0]) && cs[1].Has(s[1]) && cs[2].Has(s[2]) && cs[3].Has(s[3]) && cs[4].Has(s[4])
  {}

  lemma PatternIsDigits(k: nat, q: nat, c: char)
    requires 1 <= k < 6 && q < 5 && !DIGIT.Has(c)
    ensures !Pattern(k)[q].Has(c)
  {}

  lemma PatternMeans(k: nat, a: char, b: char, c: char, d: char, e: char)
    requires 1 <= k < 6
    requires DIGIT.Has(a) && DIGIT.Has(b) && DIGIT.Has(c) && DIGIT.Has(d) && DIGIT.Has(e)
    ensures Pattern(k)[0].Has(a) && Pattern(k)[1].Has(b) && Pattern(k)[2].Has(c)
              && Pattern(k)[3].Has(d) && Pattern(k)[4].Has(e)
       <==> Lo(k) <= 10000 * DigitValue(a) + 1000 * DigitValue(b) + 100 * DigitValue(c)
                        + 10 * DigitValue(d) + DigitValue(e) <= Hi(k)
  {
    var u, v, w, x := DigitValue(a), DigitValue(b), DigitValue(c), DigitValue(d);
    assert a == '6' <==> u == 6;
    assert b == '5' <==> v == 5;
    assert c == '5' <==> w == 5;
    assert d == '3' <==> x == 3;
  }

  lemma {:induction false} AlternativesMean(k: nat, s: string)
    requires k < 6
    ensures Denotes(AlternativesFrom(k), s, 0, |s|)
       <==> exists q | k <= q < 6 :: Denotes(Alternative(q), s, 0, |s|)
    decreases 6 - k
  {
    if k < 5 { AlternativesMean(k + 1, s); }
  }

  lemma {:induction false} PortWordValue(s: string)
    ensures Denotes(PORT, s, 0, |s|) <==> Canonical(s) && 1 <= Value(s, Decimal) <= 65535
  {
    if Denotes(PORT, s, 0, |s|) { PortWordInRange(s); }
    if Canonical(s) && 1 <= Value(s, Decimal) <= 65535 { InRangeIsPortWord(s); }
  }

  lemma PortWordInRange(s: string)
    requires Denotes(PORT, s, 0, |s|)
    ensures Canonical(s) && 1 <= Value(s, Decimal) <= 65535
  {
    var k := SomeAlternative(s);
    AlternativeMeans(k, s);
    IntervalsInRange(k);
  }

  lemma SomeAlternative(s: string) returns (k: nat)
    requires Denotes(PORT, s, 0, |s|)
    ensures k < 6 && Denotes(Alternative(k), s, 0, |s|)
  {
    AlternativesMean(0, s);
    k :| k < 6 && Denotes(Alternative(k), s, 0, |s|);
  }

  lemma IntervalsInRange(k: nat)
    requires k < 6
    ensures 1 <= Lo(k) && Hi(k) <= 65535
  {}

  lemma InRangeIsPortWord(s: string)
    requires Canonical(s) && 1 <= Value(s, Decimal) <= 65535
    ensures Denotes(PORT, s, 0, |s|)
  {
    var k := IntervalOf(Value(s, Decimal));
    AlternativeMeans(k, s);
    AlternativesMean(0, s);
  }

  /** As a whole word the port expression is the decimal numerals of 1..65535. */
  lemma {:induction false} PortWordMeans(s: string)
    ensures Denotes(PORT, s, 0, |s|) <==> exists n: nat :: 1 <= n <= 65535 && s == Numeral(n, Decimal)
  {
    PortWordValue(s);
    if Canonical(s) { NumeralOfValue(s); }
    if n: nat :| 1 <= n <= 65535 && s == Numeral(n, Decimal) { ValueOfNumeral(n, Decimal); }
  }

  lemma IntervalsAreDisjoint(a: nat, b: nat, v: nat)
    requires a < b < 6
    ensures !(Lo(a) <= v <= Hi(a) && Lo(b) <= v <= Hi(b))
  {}

  /** No word is in two alternatives. */
  lemma AlternativesAreDisjoint(a: nat, b: nat, s: string)
    requires a < b < 6
    ensures !(Denotes(Alternative(a), s, 0, |s|) && Denotes(Alternative(b), s, 0, |s|))
  {
    AlternativeMeans(a, s);
    AlternativeMeans(b, s);
    IntervalsAreDisjoint(a, b, Value(s, Decimal));
  }

  lemma IntervalOf(n: nat) returns (k: nat)
    requires 1 <= n <= 65535
    ensures k < 6 && Lo(k) <= n <= Hi(k)
  {
    k := if n <= 9999 then 0 else if n <= 59999 then 1 else if n <= 64999 then 2
         else if n <= 65499 then 3 else if n <= 65529 then 4 else 5;
  }

  // ---- The check as it is run: an unanchored search ----

  /** A `--secure-port=` followed by a digit other than zero. */
  predicate NonzeroPortAt(s: string, i: nat) {
    OccursAt("--secure-port=", s, i) && i + 14 < |s| && '1' <= s[i + 14] <= '9'
  }

  lemma FlagLength()
    ensures |PORT_FLAG| == 14 && PORT_FLAG == "--secure-port="
  {}

  lemma {:induction false} AlternativesStartNonzero(k: nat, s: string, i: nat, j: nat)
    requires k < 6 && i <= j <= |s| && Denotes(AlternativesFrom(k), s, i, j)
    ensures i < |s| && NONZERO.Has(s[i])
    decreases 6 - k
  {
    if Denotes(Alternative(k), s, i, j) {
      if k == 0 {
        var m := ThenSplit(One(NONZERO), UpTo(One(DIGIT), 3), s, i, j);
      } else {
        RowDenotes(Pattern(k), s, i, j);
        assert Pattern(k)[0].Has(s[i + 0]);
      }
    } else {
      AlternativesStartNonzero(k + 1, s, i, j);
    }
  }

  lemma PortAccepts(s: string, i: nat)
    requires i <= |s|
    ensures Accepts(Group(1, PORT), s, i) <==> i < |s| && NONZERO.Has(s[i])
  {
    var re := Group(1, PORT);
    if Accepts(re, s, i) {
      AcceptsMeans(re, s, i);
      var j :| i <= j <= |s| && Denotes(re, s, i, j);
      AlternativesStartNonzero(0, s, i, j);
    }
    if i < |s| && NONZERO.Has(s[i]) {
      OneDigitPort(s, i);
      DenotesAccepts(re, s, i, i + 1);
    }
  }

  lemma OneDigitPort(s: string, i: nat)
    requires i < |s| && NONZERO.Has(s[i])
    ensures Denotes(Group(1, PORT), s, i, i + 1)
  {
    UpToDenotes(DIGIT, 3, s, i + 1, i + 1);
    assert Denotes(One(NONZERO), s, i, i + 1);
    assert Denotes(Alternative(0), s, i, i + 1);
    assert Denotes(PORT, s, i, i + 1);
  }

  lemma PortSearch(s: string)
    ensures Search(SECURE_PORT, s) <==> exists i | 0 <= i <= |s| :: NonzeroPortAt(s, i)
  {
    forall i | 0 <= i <= |s| ensures Accepts(SECURE_PORT, s, i) <==> NonzeroPortAt(s, i) {
      AcceptsLitThen(PORT_FLAG, Group(1, PORT), s, i);
      FlagLength();
      if OccursAt(PORT_FLAG, s, i) { PortAccepts(s, i + |PORT_FLAG|); }
    }
  }

  /** Control 1.2.20. */
  function SecurePortControl(commands: string): seq<Entry> {
    [DescribeOne([[Search(SECURE_PORT, commands)], [!Search(Lit("--secure-port"), commands)]])]
  }

  /** What control 1.2.20 decides: it looks at one digit only. */
  lemma SecurePortVerdict(commands: string)
    ensures Verdict(SecurePortControl(commands))
       <==> !Occurs("--secure-port", commands)
            || exists i | 0 <= i <= |commands| :: NonzeroPortAt(commands, i)
  {
    PortSearch(commands);
    LitSearch("--secure-port", commands);
    var alts := [[Search(SECURE_PORT, commands)], [!Search(Lit("--secure-port"), commands)]];
    assert AllPass(alts[0]) <==> alts[0][0];
    assert AllPass(alts[1]) <==> alts[1][0];
    assert Verdict(SecurePortControl(commands)) <==> Passes(DescribeOne(alts)) by {
      assert SecurePortControl(commands)[0] == DescribeOne(alts);
    }
  }

  /** Heimdall shows the verdict. */
  lemma SecurePortStatus(commands: string, impact: real)
    requires impact != 0.0
    ensures StatusOf(SecurePortControl(commands), impact)
         == if Verdict(SecurePortControl(commands)) then StatusPassed else StatusFailed
  {
    assert IsCheck(SecurePortControl(commands)[0]);
    StatusOfChecks(SecurePortControl(commands), impact);
  }

  /** Whatever surrounds it, one flag with a port other than 0 is enough, 65536 and beyond included. */
  lemma NonzeroPortPasses(pre: string, n: nat, post: string)
    requires n != 0
    ensures Verdict(SecurePortControl(pre + "--secure-port=" + Numeral(n, Decimal) + post))
  {
    var digits := Numeral(n, Decimal);
    SecurePortVerdict(pre + PORT_FLAG + digits + post);
    ValueOfNumeral(n, Decimal);
    FlagThenDigits(pre, digits, post);
    assert NonzeroPortAt(pre + PORT_FLAG + digits + post, |pre|);
  }

  /** With the flag given once, with a decimal port, the control rejects port 0 and nothing else:
      ports beyond 65535 pass, so it decides the documented range exactly when `n <= 65535`. */
  lemma SecurePortGivenOnce(pre: string, n: nat, post: string)
    requires var s := pre + "--secure-port=" + Numeral(n, Decimal) + post;
             forall i: nat | OccursAt("--secure-port", s, i) :: i == |pre|
    ensures Verdict(SecurePortControl(pre + "--secure-port=" + Numeral(n, Decimal) + post)) <==> n != 0
  {
    if n != 0 { NonzeroPortPasses(pre, n, post); } else { PortZeroFails(pre, post); }
  }

  lemma PortZeroFails(pre: string, post: string)
    requires var s := pre + "--secure-port=" + Numeral(0, Decimal) + post;
             forall i: nat | OccursAt("--secure-port", s, i) :: i == |pre|
    ensures !Verdict(SecurePortControl(pre + "--secure-port=" + Numeral(0, Decimal) + post))
  {
    var digits := Numeral(0, Decimal);
    var s := pre + PORT_FLAG + digits + post;
    SecurePortVerdict(s);
    ValueOfNumeral(0, Decimal);
    FlagThenDigits(pre, digits, post);
    FlagPrefix(s, |pre|);
    forall i: nat ensures !NonzeroPortAt(s, i) {
      if NonzeroPortAt(s, i) { FlagPrefix(s, i); }
    }
  }

  lemma FlagThenDigits(pre: string, digits: string, post: string)
    requires digits != ""
    ensures var s := pre + PORT_FLAG + digits + post;
            OccursAt(PORT_FLAG, s, |pre|) && |pre| + |PORT_FLAG| < |s| && s[|pre| + |PORT_FLAG|] == digits[0]
  {
    var s := pre + PORT_FLAG + digits + post;
    assert s[|pre|..|pre| + |PORT_FLAG|] == PORT_FLAG;
  }

  lemma FlagPrefix(s: string, i: nat)
    requires OccursAt(PORT_FLAG, s, i)
    ensures OccursAt("--secure-port", s, i)
  {
    var w := "--secure-port";
    assert PORT_FLAG[..|w|] == w;
    assert s[i..i + |w|] == s[i..i + |PORT_FLAG|][..|w|];
  }

  // ---- `--flag=(?:.)*Token,*(?:.)*` ----

  function TokenCheck(flag: string, token: string): Re {
    Then(Lit(flag), Then(Many(One(DOT), true),
      Then(Lit(token), Then(Many(One(Only({','})), true), Many(One(DOT), true)))))
  }

  /** `token` stands at or after the end of an occurrence of `flag`, on the same line. */
  predicate TokenFollows(flag: string, token: string, s: string) {
    exists i, k | 0 <= i <= |s| && i + |flag| <= k <= |s| ::
      OccursAt(flag, s, i) && OccursAt(token, s, k) && forall q | i + |flag| <= q < k :: s[q] != '\n'
  }

  lemma RunAlwaysAccepts(c: Class, s: string, i: nat)
    requires i <= |s|
    ensures Accepts(Many(One(c), true), s, i)
  {
    RunEnds(c, true, s, i);
  }

  lemma TokenAccepts(token: string, s: string, i: nat)
    requires i <= |s|
    ensures Accepts(Then(Lit(token), Then(Many(One(Only({','})), true), Many(One(DOT), true))), s, i)
       <==> OccursAt(token, s, i)
  {
    var tail := Then(Many(One(Only({','})), true), Many(One(DOT), true));
    AcceptsLitThen(token, tail, s, i);
    if OccursAt(token, s, i) {
      var e := i + |token|;
      RunAlwaysAccepts(DOT, s, e);
      AcceptsRunThen(Only({','}), true, Many(One(DOT), true), s, e);
    }
  }

  lemma TokenMeans(flag: string, token: string, s: string)
    ensures Search(TokenCheck(flag, token), s) <==> TokenFollows(flag, token, s)
  {
    var last := Then(Lit(token), Then(Many(One(Only({','})), true), Many(One(DOT), true)));
    forall i | 0 <= i <= |s|
      ensures Accepts(TokenCheck(flag, token), s, i)
         <==> OccursAt(flag, s, i) && exists k | i + |flag| <= k <= |s| ::
                OccursAt(token, s, k) && forall q | i + |flag| <= q < k :: s[q] != '\n'
    {
      AcceptsLitThen(flag, Then(Many(One(DOT), true), last), s, i);
      if OccursAt(flag, s, i) {
        AcceptsRunThen(DOT, true, last, s, i + |flag|);
        RunEndMeans(DOT, s, i + |flag|);
        forall k | i + |flag| <= k <= |s| ensures Accepts(last, s, k) <==> OccursAt(token, s, k) {
          TokenAccepts(token, s, k);
        }
      }
    }
  }

  const ADMISSION := "--enable-admission-plugins="

  /** Control 1.2.13. */
  function AdmissionControl(commands: string): seq<Entry> {
    var deny := Search(TokenCheck(ADMISSION, "SecurityContextDeny"), commands);
    var policy := Search(TokenCheck(ADMISSION, "PodSecurityPolicy"), commands);
    [DescribeOne([[deny, !policy], [policy]])]
  }

  lemma AdmissionVerdict(commands: string)
    ensures Verdict(AdmissionControl(commands))
       <==> TokenFollows("--enable-admission-plugins=", "SecurityContextDeny", commands)
            || TokenFollows("--enable-admission-plugins=", "PodSecurityPolicy", commands)
  {
    TokenMeans(ADMISSION, "SecurityContextDeny", commands);
    TokenMeans(ADMISSION, "PodSecurityPolicy", commands);
    var deny := Search(TokenCheck(ADMISSION, "SecurityContextDeny"), commands);
    var policy := Search(TokenCheck(ADMISSION, "PodSecurityPolicy"), commands);
    var alts := [[deny, !policy], [policy]];
    assert AllPass(alts[0]) <==> alts[0][0] && alts[0][1];
    assert AllPass(alts[1]) <==> alts[1][0];
    assert AdmissionControl(commands)[0] == DescribeOne(alts);
  }

  lemma AdmissionStatus(commands: string, impact: real)
    requires impact != 0.0
    ensures StatusOf(AdmissionControl(commands), impact)
         == if Verdict(AdmissionControl(commands)) then StatusPassed else StatusFailed
  {
    assert IsCheck(AdmissionControl(commands)[0]);
    StatusOfChecks(AdmissionControl(commands), impact);
  }

  /** The checks do not stop at the end of the argument: the token may stand in a later one. */
  lemma TokenInLaterArgument(flag: string, value: string, other: string, token: string)
    requires '\n' !in value && '\n' !in other
    ensures Search(TokenCheck(flag, token), flag + value + " " + other + token)
  {
    var s := flag + value + " " + other + token;
    var k := |flag| + |value| + 1 + |other|;
    assert s[0..|flag|] == flag && s[k..k + |token|] == token;
    forall q | |flag| <= q < k ensures s[q] != '\n' {
      var line := value + " " + other;
      assert s[q] == line[q - |flag|];
    }
    assert OccursAt(flag, s, 0) && OccursAt(token, s, k);
    TokenMeans(flag, token, s);
  }
}
