/** Ruby and Python string splitting, and the result types of operations that may raise. */
module Text {

  datatype Option<+T> = None | Some(value: T) {
    function GetOr(default: T): T {
      if Some? then value else default
    }
  }

  datatype Result<+T> = Ok(value: T) | Raised

  function Concat(parts: seq<string>): string {
    if parts == [] then "" else parts[0] + Concat(parts[1..])
  }

  /** The index of the first `c` in `s`, or `|s|` if there is none. */
  function Cut(s: string, c: char): (k: nat)
    ensures k <= |s|
    ensures forall q | 0 <= q < k :: s[q] != c
    ensures k < |s| ==> s[k] == c
  {
    if s == "" || s[0] == c then 0 else 1 + Cut(s[1..], c)
  }

  lemma CutAfter(a: string, c: char, b: string)
    requires c !in a
    ensures Cut(a + [c] + b, c) == |a|
    ensures Cut(a, c) == |a|
  {
    var s := a + [c] + b;
    assert s[|a|] == c && forall q | 0 <= q < |a| :: s[q] == a[q] && a[q] in a;
    assert forall q | 0 <= q < |a| :: a[q] != c;
  }

  /** Every field between occurrences of `c`, the empty ones included. */
  function Fields(s: string, c: char): (fs: seq<string>)
    ensures |fs| > 0
    decreases |s|
  {
    var k := Cut(s, c);
    if k == |s| then [s] else [s[..k]] + Fields(s[k + 1..], c)
  }

  lemma FieldsStep(a: string, c: char, b: string)
    requires c !in a
    ensures Fields(a + [c] + b, c) == [a] + Fields(b, c)
  {
    CutAfter(a, c, b);
    var s := a + [c] + b;
    assert s[|a| + 1..] == b && s[..|a|] == a;
  }

  function DropTrailingEmpty(fs: seq<string>): (r: seq<string>)
    ensures r <= fs
    ensures r != [] ==> r[|r| - 1] != ""
  {
    if fs != [] && fs[|fs| - 1] == "" then DropTrailingEmpty(fs[..|fs| - 1]) else fs
  }

  /** Ruby's `s.split(c)`: trailing empty fields are dropped. */
  function RubySplit(s: string, c: char): seq<string> {
    DropTrailingEmpty(Fields(s, c))
  }

  /** Ruby's `s.split(c, 2)`: no field at all for the empty string. */
  function SplitOnce(s: string, c: char): seq<string> {
    var k := Cut(s, c);
    if s == "" then [] else if k == |s| then [s] else [s[..k], s[k + 1..]]
  }

  lemma SplitOnceAt(a: string, c: char, b: string)
    requires c !in a
    ensures SplitOnce(a + [c] + b, c) == [a, b]
  {
    CutAfter(a, c, b);
    var s := a + [c] + b;
    assert s[|a| + 1..] == b && s[..|a|] == a;
  }

  lemma DropOneEmpty(fs: seq<string>)
    requires fs != [] ==> fs[|fs| - 1] != ""
    ensures DropTrailingEmpty(fs + [""]) == fs
  {
    assert (fs + [""])[..|fs|] == fs;
  }

  lemma SliceOfSlice(s: string, lo: nat, hi: nat, x: nat, y: nat)
    requires lo <= hi <= |s| && x <= y <= hi - lo
    ensures s[lo..hi][x..y] == s[lo + x..lo + y]
  {
    var a, b := s[lo..hi][x..y], s[lo + x..lo + y];
    forall k | 0 <= k < |a| ensures a[k] == b[k] {
      assert a[k] == s[lo..hi][x + k] == s[lo + x + k];
    }
    assert a == b;
  }

  lemma PartSlice(s: string, t: string, lo: nat, x: nat, y: nat)
    requires lo + |t| <= |s| && t == s[lo..lo + |t|] && x <= y <= |t|
    ensures t[x..y] == s[lo + x..lo + y]
  {
    SliceOfSlice(s, lo, lo + |t|, x, y);
  }

  // ---- What the splits are ----

  function Join(fs: seq<string>, c: char): string
    requires fs != []
  {
    if |fs| == 1 then fs[0] else fs[0] + [c] + Join(fs[1..], c)
  }

  lemma JoinStep(f: string, fs: seq<string>, c: char)
    requires fs != []
    ensures Join([f] + fs, c) == f + [c] + Join(fs, c)
  {
    assert ([f] + fs)[1..] == fs;
  }

  lemma CutParts(s: string, c: char)
    ensures var k := Cut(s, c);
            && c !in s[..k] && (k < |s| ==> s == s[..k] + [c] + s[k + 1..])
            && (k == |s| ==> s[..k] == s)
  {
    var k := Cut(s, c);
    assert forall q | 0 <= q < k :: s[..k][q] == s[q];
  }

  /** The fields are what stands between the separators: no separator in them, and joined they give the text. */
  lemma {:induction false} FieldsMean(s: string, c: char)
    ensures Join(Fields(s, c), c) == s
    ensures forall f | f in Fields(s, c) :: c !in f
    decreases |s|
  {
    var k := Cut(s, c);
    CutParts(s, c);
    if k < |s| {
      FieldsMean(s[k + 1..], c);
      JoinStep(s[..k], Fields(s[k + 1..], c), c);
    }
  }

  /** Dropped are the empty fields at the end, and no others. */
  lemma {:induction false} RubySplitMeans(s: string, c: char)
    ensures var fs, r := Fields(s, c), RubySplit(s, c);
            && r <= fs && (forall k | |r| <= k < |fs| :: fs[k] == "")
            && (r != [] ==> r[|r| - 1] != "")
  {
    DroppedAreEmpty(Fields(s, c));
  }

  lemma {:induction false} DroppedAreEmpty(fs: seq<string>)
    ensures forall k | |DropTrailingEmpty(fs)| <= k < |fs| :: fs[k] == ""
    decreases |fs|
  {
    if fs != [] && fs[|fs| - 1] == "" { DroppedAreEmpty(fs[..|fs| - 1]); }
  }
}
