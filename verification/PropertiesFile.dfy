/** Joining the lines of a properties file that a backslash continues. */
module PropertiesFile {
  import opened Regex
  import opened Matching

  const BREAK_TAIL := Then(Or(Lit("\r"), Eps), Lit("\n"))
  const CONTINUATION := Then(Lit("\\"), BREAK_TAIL)

  /** The content of the file, with every backslash that ends a line deleted together with the line break. */
  function Join(content: string): string {
    Delete(CONTINUATION, content, 0)
  }

  /** A line break hidden behind a backslash. */
  datatype Break = LF | CRLF {
    function Text(): string {
      if LF? then "\\\n" else "\\\r\n"
    }
  }

  function Breaks(bs: seq<Break>): string {
    if bs == [] then "" else bs[0].Text() + Breaks(bs[1..])
  }

  /** `t` with the breaks `gaps[k]` inserted before its character `k`, and `gaps[|t|]` at its end. */
  function Weave(t: string, gaps: seq<seq<Break>>): string
    requires |gaps| == |t| + 1
  {
    Breaks(gaps[0]) + if t == "" then "" else [t[0]] + Weave(t[1..], gaps[1..])
  }

  function CountBreaks(gaps: seq<seq<Break>>, b: Break): nat {
    if gaps == [] then 0 else multiset(gaps[0])[b] + CountBreaks(gaps[1..], b)
  }

  /** A continuation of `t` itself starts at `k` and no break was inserted inside it. */
  predicate UnbrokenAt(t: string, gaps: seq<seq<Break>>, k: nat)
    requires |gaps| == |t| + 1
  {
    && k + 1 < |t| && t[k] == '\\' && gaps[k + 1] == []
    && (t[k + 1] == '\n' || (k + 2 < |t| && t[k + 1] == '\r' && gaps[k + 2] == [] && t[k + 2] == '\n'))
  }

  // ---- The deletion, read from the left ----

  function BreakLength(u: string): (n: nat)
    ensures n <= |u|
  {
    if |u| >= 2 && u[0] == '\\' && u[1] == '\n' then 2
    else if |u| >= 3 && u[0] == '\\' && u[1] == '\r' && u[2] == '\n' then 3
    else 0
  }

  function JoinText(u: string): string {
    if u == "" then ""
    else if BreakLength(u) > 0 then JoinText(u[BreakLength(u)..])
    else [u[0]] + JoinText(u[1..])
  }

  lemma TailMatch(s: string, i: nat)
    requires i <= |s|
    ensures Ends(BREAK_TAIL, s, i)
         == if i < |s| && s[i] == '\n' then [Match(i + 1, map[])]
            else if i + 1 < |s| && s[i] == '\r' && s[i + 1] == '\n' then [Match(i + 2, map[])]
            else []
  {
    OptionalThen("\r", Lit("\n"), s, i);
    OneCharAt('\r', s, i);
    OneCharAt('\n', s, i);
    if i < |s| { OneCharAt('\n', s, i + 1); }
  }

  lemma OneCharAt(c: char, s: string, i: nat)
    requires i <= |s|
    ensures OccursAt([c], s, i) <==> i < |s| && s[i] == c
  {
    if i < |s| { assert s[i..i + 1] == [s[i]]; }
  }

  lemma ContinuationMatch(s: string, i: nat)
    requires i <= |s|
    ensures Accepts(CONTINUATION, s, i) <==> BreakLength(s[i..]) > 0
    ensures Accepts(CONTINUATION, s, i) ==> First(CONTINUATION, s, i).end == i + BreakLength(s[i..])
  {
    AcceptsLitThen("\\", BREAK_TAIL, s, i);
    if i < |s| {
      assert s[i..i + 1] == [s[i]];
      TailMatch(s, i + 1);
    }
  }

  lemma {:induction false} DeleteIsJoin(s: string, i: nat)
    requires i <= |s|
    ensures Delete(CONTINUATION, s, i) == JoinText(s[i..])
    decreases |s| - i
  {
    if i < |s| {
      ContinuationMatch(s, i);
      var n := BreakLength(s[i..]);
      if n > 0 {
        DeleteIsJoin(s, i + n);
        assert s[i..][n..] == s[i + n..];
      } else {
        DeleteIsJoin(s, i + 1);
        assert s[i..][1..] == s[i + 1..];
      }
    }
  }

  // ---- Inserting breaks and joining ----

  lemma WeaveBreak(t: string, gaps: seq<seq<Break>>)
    requires |gaps| == |t| + 1 && gaps[0] != []
    ensures JoinText(Weave(t, gaps)) == JoinText(Weave(t, gaps[0 := gaps[0][1..]]))
  {
    var less := gaps[0 := gaps[0][1..]];
    var b, rest := gaps[0][0].Text(), Weave(t, less);
    assert less[1..] == gaps[1..];
    assert Weave(t, gaps) == b + rest;
    JoinBreak(gaps[0][0], rest);
  }

  lemma JoinBreak(b: Break, rest: string)
    ensures JoinText(b.Text() + rest) == JoinText(rest)
  {
    var u := b.Text() + rest;
    assert u[|b.Text()|..] == rest;
    assert BreakLength(u) == |b.Text()|;
  }

  lemma WeaveChar(t: string, gaps: seq<seq<Break>>)
    requires |gaps| == |t| + 1 && gaps[0] == [] && t != ""
    ensures Weave(t, gaps) == [t[0]] + Weave(t[1..], gaps[1..])
    ensures Weave(t, gaps)[1..] == Weave(t[1..], gaps[1..])
  {
    assert ([t[0]] + Weave(t[1..], gaps[1..]))[1..] == Weave(t[1..], gaps[1..]);
  }

  /** A woven text begins with `c`, which no break does, exactly when the text itself does and no break precedes. */
  lemma WeaveHead(t: string, gaps: seq<seq<Break>>, c: char)
    requires |gaps| == |t| + 1 && c != '\\'
    ensures Weave(t, gaps) != "" && Weave(t, gaps)[0] == c <==> gaps[0] == [] && t != "" && t[0] == c
  {
    if gaps[0] != [] { assert Weave(t, gaps)[0] == '\\'; }
  }

  /** The length of the text's own continuation that starts at its head and was left unbroken, or 0. */
  function UnbrokenLength(t: string, gaps: seq<seq<Break>>): (n: nat)
    requires |gaps| == |t| + 1
    ensures n <= |t|
    ensures n > 0 <==> UnbrokenAt(t, gaps, 0)
  {
    if |t| < 2 || t[0] != '\\' || gaps[1] != [] then 0
    else if t[1] == '\n' then 2
    else if |t| >= 3 && t[1] == '\r' && gaps[2] == [] && t[2] == '\n' then 3
    else 0
  }

  /** Joining finds a continuation at a character of the text exactly when it is the text's own, unbroken. */
  lemma HeadContinuation(t: string, gaps: seq<seq<Break>>)
    requires |gaps| == |t| + 1 && gaps[0] == [] && t != ""
    ensures BreakLength(Weave(t, gaps)) == UnbrokenLength(t, gaps)
  {
    var u, u1 := Weave(t, gaps), Weave(t[1..], gaps[1..]);
    WeaveChar(t, gaps);
    WeaveHead(t[1..], gaps[1..], '\n');
    WeaveHead(t[1..], gaps[1..], '\r');
    assert |u| > 1 ==> u[1] == u1[0];
    if |t| > 1 && gaps[1] == [] {
      WeaveChar(t[1..], gaps[1..]);
      WeaveHead(t[2..], gaps[2..], '\n');
      assert t[1..][1..] == t[2..] && gaps[1..][1..] == gaps[2..];
      assert |u| > 2 ==> u[2] == u1[1] == Weave(t[2..], gaps[2..])[0];
    }
  }

  lemma {:induction false} WeaveDrop(t: string, gaps: seq<seq<Break>>, n: nat)
    requires |gaps| == |t| + 1 && n <= |t| && forall k | 0 <= k < n :: gaps[k] == []
    ensures n <= |Weave(t, gaps)| && Weave(t, gaps)[n..] == Weave(t[n..], gaps[n..])
    decreases n
  {
    if n > 0 {
      WeaveChar(t, gaps);
      WeaveDrop(t[1..], gaps[1..], n - 1);
      assert t[1..][n - 1..] == t[n..] && gaps[1..][n - 1..] == gaps[n..];
      assert Weave(t, gaps)[n..] == Weave(t, gaps)[1..][n - 1..];
    } else {
      assert t[0..] == t && gaps[0..] == gaps;
    }
  }

  lemma {:induction false} JoinShrinks(t: string, gaps: seq<seq<Break>>)
    requires |gaps| == |t| + 1
    ensures |JoinText(Weave(t, gaps))| <= |t|
    decreases |t|, |gaps[0]|
  {
    if gaps[0] != [] {
      WeaveBreak(t, gaps);
      JoinShrinks(t, gaps[0 := gaps[0][1..]]);
    } else if t != "" {
      var n := UnbrokenLength(t, gaps);
      HeadContinuation(t, gaps);
      WeaveChar(t, gaps);
      WeaveDrop(t, gaps, n);
      if n > 0 { JoinShrinks(t[n..], gaps[n..]); } else { JoinShrinks(t[1..], gaps[1..]); }
    }
  }

  lemma UnbrokenShift(t: string, gaps: seq<seq<Break>>)
    requires |gaps| == |t| + 1 && t != ""
    ensures (exists k: nat :: UnbrokenAt(t, gaps, k))
       <==> UnbrokenAt(t, gaps, 0) || exists k: nat :: UnbrokenAt(t[1..], gaps[1..], k)
  {
    if k: nat :| UnbrokenAt(t, gaps, k) && k > 0 { assert UnbrokenAt(t[1..], gaps[1..], k - 1); }
    if k: nat :| UnbrokenAt(t[1..], gaps[1..], k) { assert UnbrokenAt(t, gaps, k + 1); }
  }

  lemma {:induction false} JoinTextOfWeave(t: string, gaps: seq<seq<Break>>)
    requires |gaps| == |t| + 1
    ensures JoinText(Weave(t, gaps)) == t <==> !exists k: nat :: UnbrokenAt(t, gaps, k)
    decreases |t|, |gaps[0]|
  {
    if gaps[0] != [] {
      var less := gaps[0 := gaps[0][1..]];
      WeaveBreak(t, gaps);
      JoinTextOfWeave(t, less);
      assert forall k: nat :: UnbrokenAt(t, less, k) <==> UnbrokenAt(t, gaps, k);
    } else if t != "" {
      var n := UnbrokenLength(t, gaps);
      HeadContinuation(t, gaps);
      WeaveChar(t, gaps);
      WeaveDrop(t, gaps, n);
      UnbrokenShift(t, gaps);
      if n > 0 {
        JoinShrinks(t[n..], gaps[n..]);
      } else {
        JoinTextOfWeave(t[1..], gaps[1..]);
        assert Weave(t, gaps)[1..] == Weave(t[1..], gaps[1..]);
        assert t == [t[0]] + t[1..];
      }
    }
  }

  lemma CountStep(bs: seq<Break>, b: Break)
    requires bs != []
    ensures multiset(bs)[b] == (if bs[0] == b then 1 else 0) + multiset(bs[1..])[b]
  {
    assert bs == [bs[0]] + bs[1..];
  }

  lemma {:induction false} BreaksLength(bs: seq<Break>)
    ensures |Breaks(bs)| == 2 * multiset(bs)[LF] + 3 * multiset(bs)[CRLF]
    decreases |bs|
  {
    if bs != [] {
      BreaksLength(bs[1..]);
      CountStep(bs, LF);
      CountStep(bs, CRLF);
    }
  }

  lemma {:induction false} WeaveLength(t: string, gaps: seq<seq<Break>>)
    requires |gaps| == |t| + 1
    ensures |Weave(t, gaps)| == |t| + 2 * CountBreaks(gaps, LF) + 3 * CountBreaks(gaps, CRLF)
    decreases |t|
  {
    BreaksLength(gaps[0]);
    if t != "" {
      WeaveLength(t[1..], gaps[1..]);
    } else {
      assert gaps[1..] == [];
    }
  }

  /** For every text and every choice of inserted breaks, joining gives back the text exactly when every
      continuation the text has of its own was broken up; what joining removes is then 2 characters per
      LF break and 3 per CRLF break. */
  lemma JoinUndoesBreaks(t: string, gaps: seq<seq<Break>>)
    requires |gaps| == |t| + 1
    ensures Join(Weave(t, gaps)) == t <==> !exists k: nat :: UnbrokenAt(t, gaps, k)
    ensures Join(Weave(t, gaps)) == t ==>
              |Join(Weave(t, gaps))|
                == |Weave(t, gaps)| - 2 * CountBreaks(gaps, LF) - 3 * CountBreaks(gaps, CRLF)
  {
    var u := Weave(t, gaps);
    DeleteIsJoin(u, 0);
    assert u[0..] == u;
    JoinTextOfWeave(t, gaps);
    WeaveLength(t, gaps);
  }

  /** In particular for every text without backslashes. */
  lemma {:induction false} JoinOfPlainText(t: string, gaps: seq<seq<Break>>)
    requires |gaps| == |t| + 1 && '\\' !in t
    ensures Join(Weave(t, gaps)) == t
  {
    JoinUndoesBreaks(t, gaps);
  }
}
