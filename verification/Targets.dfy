/** The target list of the console: one `userinfo@host:port` per line, the host of each handed to a scan. */
module Targets {
  import opened Text

  /** Python's `readlines()`: every line keeps its line feed. */
  function ReadLines(content: string): (lines: seq<string>)
    decreases |content|
  {
    if content == "" then []
    else
      var k := Cut(content, '\n');
      if k == |content| then [content] else [content[..k + 1]] + ReadLines(content[k + 1..])
  }

  /** A line ends with the only line feed in it, except that the last line may have none. */
  predicate IsLine(line: string, isLast: bool) {
    && line != "" && '\n' !in line[..|line| - 1] && (!isLast ==> line[|line| - 1] == '\n')
  }

  lemma {:induction false} ReadLinesMean(content: string)
    ensures Concat(ReadLines(content)) == content
    ensures forall k | 0 <= k < |ReadLines(content)| :: IsLine(ReadLines(content)[k], k + 1 == |ReadLines(content)|)
    decreases |content|
  {
    if content != "" {
      var k := Cut(content, '\n');
      CutParts(content, '\n');
      if k == |content| {
        OneLine(content);
      } else {
        ReadLinesMean(content[k + 1..]);
        FirstLine(content, k);
      }
    }
  }

  lemma OneLine(s: string)
    requires s != "" && '\n' !in s
    ensures Concat([s]) == s && IsLine(s, true)
  {
    assert [s][1..] == [];
  }

  lemma FirstLine(s: string, k: nat)
    requires k < |s| && s[k] == '\n' && '\n' !in s[..k]
    ensures IsLine(s[..k + 1], false)
    ensures Concat([s[..k + 1]] + ReadLines(s[k + 1..])) == s[..k + 1] + Concat(ReadLines(s[k + 1..]))
    ensures s == s[..k + 1] + s[k + 1..]
  {
    assert s[..k + 1][..k] == s[..k];
    assert ([s[..k + 1]] + ReadLines(s[k + 1..]))[1..] == ReadLines(s[k + 1..]);
  }

  function Remove(s: string, c: char): (r: string)
    ensures c !in r
    ensures c !in s ==> r == s
  {
    if s == "" then "" else (if s[0] == c then "" else [s[0]]) + Remove(s[1..], c)
  }

  /** The second field of a split at the last `c`; there is none without a `c`, and taking it raises. */
  function AfterLast(s: string, c: char): (r: Option<string>)
    ensures r.None? <==> c !in s
  {
    if s == "" then None
    else match AfterLast(s[1..], c)
      case Some(rest) => Some(rest)
      case None => if s[0] == c then Some(s[1..]) else None
  }

  /** The host the loop body takes from one line. */
  function HostOf(line: string): Option<string> {
    Host(AfterLast(Remove(line, '\n'), '@'))
  }

  /** The text up to its first `:`, or all of it without one. */
  function Host(rest: Option<string>): Option<string> {
    if rest.None? then None else Some(rest.value[..Cut(rest.value, ':')])
  }

  /** The lines before the first one without an `@`. */
  function Readable(lines: seq<string>): (n: nat)
    ensures n <= |lines|
    ensures forall k | 0 <= k < n :: HostOf(lines[k]).Some?
    ensures n < |lines| ==> HostOf(lines[n]).None?
  {
    if lines == [] || HostOf(lines[0]).None? then 0 else 1 + Readable(lines[1..])
  }

  lemma {:induction false} ReadableIs(lines: seq<string>, n: nat)
    requires n <= |lines| && (forall k | 0 <= k < n :: HostOf(lines[k]).Some?)
    requires n < |lines| ==> HostOf(lines[n]).None?
    ensures Readable(lines) == n
    decreases n
  {
    if n > 0 { ReadableIs(lines[1..], n - 1); }
  }

  /** The first hosts are those of the first lines. */
  predicate AreHosts(url: seq<string>, hosts: seq<string>) {
    |hosts| <= |url| && forall k | 0 <= k < |hosts| :: HostOf(url[k]) == Some(hosts[k])
  }

  lemma AnotherHost(url: seq<string>, hosts: seq<string>, host: string)
    requires AreHosts(url, hosts) && |hosts| < |url| && HostOf(url[|hosts|]) == Some(host)
    ensures AreHosts(url, hosts + [host])
  {}

  /** The loop of `poolmana`: the value of the `ip` variable at each scan, in order; raises at the first bad line. */
  method ScanLines(url: seq<string>) returns (scanned: seq<string>, raised: bool)
    ensures |scanned| == Readable(url)
    ensures forall k | 0 <= k < |scanned| :: HostOf(url[k]) == Some(scanned[k])
    ensures raised <==> Readable(url) < |url|
  {
    scanned := [];
    raised := false;
    var k := 0;
    while k < |url|
      invariant 0 <= k <= |url| && |scanned| == k && AreHosts(url, scanned)
    {
      var i := Remove(url[k], '\n');
      var ip := AfterLast(i, '@');
      if ip.None? {
        ReadableIs(url, k);
        return scanned, true;
      }
      ip := Host(ip);
      AnotherHost(url, scanned, ip.value);
      scanned := scanned + [ip.value];
      k := k + 1;
    }
    ReadableIs(url, k);
  }

  /** `poolmana`, over the lines of the file. */
  method Poolmana(content: string) returns (scanned: seq<string>, raised: bool)
    ensures var lines := ReadLines(content);
            && |scanned| == Readable(lines)
            && (forall k | 0 <= k < |scanned| :: HostOf(lines[k]) == Some(scanned[k]))
            && (raised <==> Readable(lines) < |lines|)
  {
    scanned, raised := ScanLines(ReadLines(content));
  }

  // ---- Printing a list of targets ----

  datatype Target = Target(userinfo: string, host: string, port: string) {
    function Text(): string {
      userinfo + "@" + host + ":" + port
    }
  }

  /** One target per line, with or without a line feed after the last. */
  function Print(ts: seq<Target>, endLine: bool): string {
    if ts == [] then ""
    else if |ts| == 1 && !endLine then ts[0].Text()
    else ts[0].Text() + "\n" + Print(ts[1..], endLine)
  }

  lemma {:induction false} AfterLastOf(a: string, c: char, b: string)
    ensures AfterLast(a + [c] + b, c) == if c in b then AfterLast(b, c) else Some(b)
    decreases |a|
  {
    var s := a + [c] + b;
    if a == "" {
      assert s[1..] == b;
    } else {
      AfterLastOf(a[1..], c, b);
      assert s[1..] == a[1..] + [c] + b;
      assert c in s[1..] by { assert s[1..][|a| - 1] == c; }
    }
  }

  lemma {:induction false} AfterLastShortens(s: string, c: char)
    requires c in s
    ensures |AfterLast(s, c).value| < |s|
    decreases |s|
  {
    if c in s[1..] { AfterLastShortens(s[1..], c); }
  }

  lemma {:induction false} RemoveLast(s: string)
    requires '\n' !in s
    ensures Remove(s + "\n", '\n') == s
    decreases |s|
  {
    if s != "" {
      RemoveLast(s[1..]);
      assert (s + "\n")[1..] == s[1..] + "\n";
    }
  }

  /** On any line the host is what stands between the last `@` and the first `:` after it, or the end of the line. */
  lemma HostOfLine(before: string, rest: string, ended: bool)
    requires '\n' !in before && '\n' !in rest && '@' !in rest
    ensures HostOf(before + "@" + rest + if ended then "\n" else "") == Some(rest[..Cut(rest, ':')])
  {
    var line := before + "@" + rest;
    assert line == before + ['@'] + rest;
    AfterLastOf(before, '@', rest);
    if ended { RemoveLast(line); } else { assert line + "" == line; }
  }

  /** A host that contains `:` is cut short at the first one. */
  lemma HostIsCut(t: Target)
    requires '\n' !in t.Text() && '@' !in t.host && '@' !in t.port && ':' in t.host
    ensures HostOf(t.Text()) == Some(t.host[..Cut(t.host, ':')]) && Cut(t.host, ':') < |t.host|
  {
    RestOfTarget(t);
    CutFinds(t.host);
    CutOfLonger(t.host, ":" + t.port);
    assert t.host + ":" + t.port == t.host + (":" + t.port);
  }

  /** What is left after the last `@`, if the host has none. */
  lemma RestOfTarget(t: Target)
    requires '\n' !in t.Text() && '@' !in t.host && '@' !in t.port
    ensures HostOf(t.Text()) == Host(Some(t.host + ":" + t.port))
  {
    var rest := t.host + ":" + t.port;
    assert t.Text() == t.userinfo + ['@'] + rest;
    AfterLastOf(t.userinfo, '@', rest);
  }

  lemma CutOfLonger(s: string, tail: string)
    requires Cut(s, ':') < |s|
    ensures Cut(s + tail, ':') == Cut(s, ':') && (s + tail)[..Cut(s, ':')] == s[..Cut(s, ':')]
  {
    var k := Cut(s, ':');
    assert (s + tail)[k] == ':' && forall q | 0 <= q < k :: (s + tail)[q] == s[q];
  }

  lemma CutFinds(s: string)
    requires ':' in s
    ensures Cut(s, ':') < |s|
  {
    var q :| 0 <= q < |s| && s[q] == ':';
    assert Cut(s, ':') <= q;
  }

  /** So of the IPv6 address of the local host nothing is left. */
  lemma AddressWithColons(userinfo: string, port: string)
    requires '\n' !in userinfo && '\n' !in port && '@' !in port
    ensures HostOf(Target(userinfo, "::1", port).Text()) == Some("")
  {
    var t := Target(userinfo, "::1", port);
    assert t.host[0] == ':';
    HostIsCut(t);
    assert Cut(t.host, ':') == 0;
  }

  /** With no line feed and no `@` in the port, the loop reads the host of a target exactly when the host
      has neither `:` nor `@`; the user part may have both. */
  lemma HostOfTarget(t: Target)
    requires '\n' !in t.Text() && '@' !in t.port
    ensures HostOf(t.Text()) == Some(t.host) <==> ':' !in t.host && '@' !in t.host
  {
    if '@' in t.host {
      var rest := t.host + ":" + t.port;
      assert t.Text() == t.userinfo + ['@'] + rest && rest == t.host + (":" + t.port);
      AfterLastOf(t.userinfo, '@', rest);
      HostWithAt(t.host, ":" + t.port);
    } else if ':' in t.host {
      HostIsCut(t);
    } else {
      RestOfTarget(t);
      assert t.host + ":" + t.port == t.host + [':'] + t.port;
      CutAfter(t.host, ':', t.port);
      assert (t.host + ":" + t.port)[..|t.host|] == t.host;
    }
  }

  /** What follows the last `@` of a host, cut at the first `:`, is shorter than the host. */
  lemma HostWithAt(host: string, tail: string)
    requires '@' in host && '@' !in tail && tail != "" && tail[0] == ':'
    ensures '@' in host + tail
    ensures var r := AfterLast(host + tail, '@'); r.Some? && Cut(r.value, ':') < |host|
  {
    var k := LastIndex(host, '@');
    assert host == host[..k] + ['@'] + host[k + 1..];
    var b := host[k + 1..] + tail;
    assert host + tail == host[..k] + ['@'] + b;
    AfterLastOf(host[..k], '@', b);
    assert '@' !in b;
    assert b[|host| - k - 1] == ':';
    assert Cut(b, ':') <= |host| - k - 1;
  }

  lemma LastIndex(s: string, c: char) returns (k: nat)
    requires c in s
    ensures k < |s| && s[k] == c && c !in s[k + 1..]
  {
    k := |s| - 1;
    while s[k] != c
      invariant 0 <= k < |s| && c in s[..k + 1] && c !in s[k + 1..]
      decreases k
    {
      assert s[..k + 1] == s[..k] + [s[k]];
      assert s[k..] == [s[k]] + s[k + 1..];
      k := k - 1;
    }
  }

  lemma {:induction false} LinesOfPrint(ts: seq<Target>, endLine: bool)
    requires forall k | 0 <= k < |ts| :: '\n' !in ts[k].Text()
    ensures var lines := ReadLines(Print(ts, endLine));
            |lines| == |ts| && forall k | 0 <= k < |ts| :: Remove(lines[k], '\n') == ts[k].Text()
    decreases |ts|
  {
    if ts != [] {
      var first := ts[0].Text();
      assert first != "";
      if |ts| == 1 && !endLine {
        CutAfter(first, '\n', "");
        assert ReadLines(first) == [first];
      } else {
        ReadLinesStep(first, Print(ts[1..], endLine));
        RemoveLast(first);
        LinesOfPrint(ts[1..], endLine);
        LinesShift(ts, [first + "\n"] + ReadLines(Print(ts[1..], endLine)));
      }
    }
  }

  lemma ReadLinesStep(first: string, rest: string)
    requires '\n' !in first
    ensures ReadLines(first + "\n" + rest) == [first + "\n"] + ReadLines(rest)
  {
    var s := first + ['\n'] + rest;
    assert s == first + "\n" + rest;
    CutAfter(first, '\n', rest);
    assert s[..|first| + 1] == first + "\n" && s[|first| + 1..] == rest;
  }

  lemma LinesShift(ts: seq<Target>, lines: seq<string>)
    requires ts != [] && |lines| == |ts| && Remove(lines[0], '\n') == ts[0].Text()
    requires forall k | 0 <= k < |ts| - 1 :: Remove(lines[1..][k], '\n') == ts[1..][k].Text()
    ensures forall k | 0 <= k < |ts| :: Remove(lines[k], '\n') == ts[k].Text()
  {
    forall k | 0 < k < |ts| ensures Remove(lines[k], '\n') == ts[k].Text() {
      assert lines[k] == lines[1..][k - 1] && ts[k] == ts[1..][k - 1];
    }
  }

  /** For every list of targets whose hosts have neither `:` nor `@`, the lines read back give the hosts,
      one per line and in order. */
  lemma {:induction false} HostsOfPrint(ts: seq<Target>, endLine: bool)
    requires forall k | 0 <= k < |ts| ::
      '\n' !in ts[k].Text() && '@' !in ts[k].port && ':' !in ts[k].host && '@' !in ts[k].host
    ensures var lines := ReadLines(Print(ts, endLine));
            && |lines| == Readable(lines) == |ts|
            && forall k | 0 <= k < |ts| :: HostOf(lines[k]) == Some(ts[k].host)
  {
    LinesOfPrint(ts, endLine);
    var lines := ReadLines(Print(ts, endLine));
    forall k | 0 <= k < |ts| ensures HostOf(lines[k]) == Some(ts[k].host) { HostOfTarget(ts[k]); }
    ReadableIs(lines, |ts|);
  }
}
