/** How Heimdall connects the profiles and controls of one evaluation: which control overlays which,
    and when following those links comes to an end. */
module Overlay {
  import opened Text

  /** `results` is the number of result segments; a control with none did not run. */
  datatype ControlData = ControlData(id: string, results: nat)

  datatype ProfileData = ProfileData(name: string, parentProfile: Option<string>, controls: seq<ControlData>)

  type Evaluation = seq<ProfileData>

  /** The first place of `key`. */
  function IndexOf(keys: seq<string>, key: string): (r: Option<nat>)
    ensures r.Some? ==> r.value < |keys| && keys[r.value] == key
    ensures r.None? ==> key !in keys
  {
    if keys == [] then None
    else if keys[0] == key then Some(0)
    else match IndexOf(keys[1..], key) case None => None case Some(k) => Some(k + 1)
  }

  lemma {:induction false} IndexOfIsFirst(keys: seq<string>, key: string, k: nat)
    requires k < |keys| && keys[k] == key
    ensures IndexOf(keys, key).Some? && IndexOf(keys, key).value <= k
    decreases |keys|
  {
    if keys[0] != key { IndexOfIsFirst(keys[1..], key, k - 1); }
  }

  // ---- Profiles ----

  function ProfileNames(ev: Evaluation): (r: seq<string>)
    ensures |r| == |ev| && forall k | 0 <= k < |ev| :: r[k] == ev[k].name
  {
    seq(|ev|, k requires 0 <= k < |ev| => ev[k].name)
  }

  /** The first profile with this name. */
  function FirstNamed(ev: Evaluation, name: string): (r: Option<nat>)
    ensures r.Some? ==> r.value < |ev| && ev[r.value].name == name
  {
    IndexOf(ProfileNames(ev), name)
  }

  function ParentOf(ev: Evaluation, p: nat): (r: Option<nat>)
    requires p < |ev|
    ensures r.Some? ==> r.value < |ev|
  {
    match ev[p].parentProfile case None => None case Some(name) => FirstNamed(ev, name)
  }

  /** The parent is the first profile with the name given, if a name is given and some profile has it. */
  lemma ParentMeans(ev: Evaluation, p: nat)
    requires p < |ev|
    ensures ParentOf(ev, p).None?
       <==> ev[p].parentProfile.None? || forall q | 0 <= q < |ev| :: ev[q].name != ev[p].parentProfile.value
    ensures ParentOf(ev, p).Some? ==>
              var q := ParentOf(ev, p).value;
              && ev[p].parentProfile == Some(ev[q].name)
              && forall r | 0 <= r < q :: ev[r].name != ev[q].name
  {
    if ev[p].parentProfile.Some? {
      var name := ev[p].parentProfile.value;
      forall q | 0 <= q < |ev| && ev[q].name == name
        ensures FirstNamed(ev, name).Some? && FirstNamed(ev, name).value <= q
      {
        IndexOfIsFirst(ProfileNames(ev), name, q);
      }
    }
  }

  function Parents(ev: Evaluation): (r: seq<Option<nat>>)
    ensures |r| == |ev| && forall p | 0 <= p < |ev| :: r[p] == ParentOf(ev, p)
  {
    seq(|ev|, p requires 0 <= p < |ev| => ParentOf(ev, p))
  }

  /** The places among the first `n` that point to `x`, in order. */
  function PointingTo(links: seq<Option<nat>>, x: nat, n: nat): (qs: seq<nat>)
    requires n <= |links|
    ensures forall k | 0 <= k < |qs| :: qs[k] < n
  {
    if n == 0 then []
    else PointingTo(links, x, n - 1) + if links[n - 1] == Some(x) then [n - 1] else []
  }

  lemma {:induction false} PointingMeans(links: seq<Option<nat>>, x: nat, n: nat, q: nat)
    requires n <= |links|
    ensures q in PointingTo(links, x, n) <==> q < n && links[q] == Some(x)
    decreases n
  {
    if n > 0 { PointingMeans(links, x, n - 1, q); }
  }

  /** What profile `p` extends from: the profiles whose parent it is. */
  function Children(ev: Evaluation, p: nat): (qs: seq<nat>)
    ensures forall k | 0 <= k < |qs| :: qs[k] < |ev|
  {
    PointingTo(Parents(ev), p, |ev|)
  }

  lemma ChildrenMean(ev: Evaluation, p: nat, q: nat)
    ensures q in Children(ev, p) <==> q < |ev| && ParentOf(ev, q) == Some(p)
  {
    PointingMeans(Parents(ev), p, |ev|, q);
  }

  /** The profile takes part in a well-formed dependency. */
  predicate IsLinked(ev: Evaluation, p: nat)
    requires p < |ev|
  {
    Children(ev, p) != [] || ParentOf(ev, p).Some?
  }

  // ---- Controls, numbered through the whole evaluation ----

  function Start(ev: Evaluation, p: nat): nat
    requires p <= |ev|
  {
    if p == 0 then 0 else Start(ev, p - 1) + |ev[p - 1].controls|
  }

  function Total(ev: Evaluation): nat {
    Start(ev, |ev|)
  }

  function OwnerBelow(ev: Evaluation, p: nat, g: nat): (o: nat)
    requires p <= |ev| && g < Start(ev, p)
    ensures o < p && Start(ev, o) <= g < Start(ev, o) + |ev[o].controls|
  {
    if Start(ev, p - 1) <= g then p - 1 else OwnerBelow(ev, p - 1, g)
  }

  /** The profile control `g` belongs to. */
  function OwnerOf(ev: Evaluation, g: nat): (o: nat)
    requires g < Total(ev)
    ensures o < |ev| && Start(ev, o) <= g < Start(ev, o) + |ev[o].controls|
  {
    OwnerBelow(ev, |ev|, g)
  }

  function ControlAt(ev: Evaluation, g: nat): ControlData
    requires g < Total(ev)
  {
    ev[OwnerOf(ev, g)].controls[g - Start(ev, OwnerOf(ev, g))]
  }

  lemma {:induction false} StartMonotone(ev: Evaluation, p: nat, q: nat)
    requires p <= q <= |ev|
    ensures Start(ev, p) <= Start(ev, q)
    ensures p < q ==> Start(ev, p) + |ev[p].controls| <= Start(ev, q)
    decreases q
  {
    if p < q { StartMonotone(ev, p, q - 1); }
  }

  lemma {:induction false} OwnerIs(ev: Evaluation, p: nat, i: nat)
    requires p < |ev| && i < |ev[p].controls|
    ensures Start(ev, p) + i < Total(ev)
    ensures OwnerOf(ev, Start(ev, p) + i) == p
    ensures ControlAt(ev, Start(ev, p) + i) == ev[p].controls[i]
  {
    StartMonotone(ev, p, |ev|);
    var o := OwnerOf(ev, Start(ev, p) + i);
    if o < p { StartMonotone(ev, o, p); }
    if p < o { StartMonotone(ev, p, o); }
  }

  // ---- Which control a control extends ----

  function Ids(cs: seq<ControlData>): (r: seq<string>)
    ensures |r| == |cs| && forall k | 0 <= k < |cs| :: r[k] == cs[k].id
  {
    seq(|cs|, k requires 0 <= k < |cs| => cs[k].id)
  }

  /** The first control with this id. */
  function FindId(cs: seq<ControlData>, id: string): (r: Option<nat>)
    ensures r.Some? ==> r.value < |cs| && cs[r.value].id == id
  {
    IndexOf(Ids(cs), id)
  }

  /** The first extended profile that has the control decides. */
  function FirstIn(ev: Evaluation, qs: seq<nat>, id: string): (r: Option<nat>)
    requires forall k | 0 <= k < |qs| :: qs[k] < |ev|
  {
    if qs == [] then None
    else match FindId(ev[qs[0]].controls, id)
      case Some(i) => Some(Start(ev, qs[0]) + i)
      case None => FirstIn(ev, qs[1..], id)
  }

  /** The first control from `g` on with this id, results being required or not. */
  function FirstSameId(ev: Evaluation, id: string, populated: bool, g: nat): (r: Option<nat>)
    requires g <= Total(ev)
    ensures r.Some? ==> g <= r.value < Total(ev) && ControlAt(ev, r.value).id == id
    decreases Total(ev) - g
  {
    if g == Total(ev) then None
    else if ControlAt(ev, g).id == id && (populated ==> ControlAt(ev, g).results > 0) then Some(g)
    else FirstSameId(ev, id, populated, g + 1)
  }

  /** Without profile dependencies: the first populated control with the id, else the first at all. */
  function Fallback(ev: Evaluation, id: string): (r: Option<nat>)
    ensures r.Some? ==> r.value < Total(ev) && ControlAt(ev, r.value).id == id
  {
    match FirstSameId(ev, id, true, 0)
    case Some(g) => Some(g)
    case None => FirstSameId(ev, id, false, 0)
  }

  /** The control that control `g` is linked to, if any. */
  function AncestorOf(ev: Evaluation, g: nat): Option<nat>
    requires g < Total(ev)
  {
    var o, id := OwnerOf(ev, g), ControlAt(ev, g).id;
    if IsLinked(ev, o) then FirstIn(ev, Children(ev, o), id)
    else if Fallback(ev, id) == Some(g) then None
    else Fallback(ev, id)
  }

  lemma {:induction false} FirstInMeans(ev: Evaluation, qs: seq<nat>, id: string)
    requires forall k | 0 <= k < |qs| :: qs[k] < |ev|
    ensures var r := FirstIn(ev, qs, id);
            && (r.Some? ==> r.value < Total(ev) && OwnerOf(ev, r.value) in qs && ControlAt(ev, r.value).id == id)
            && (r.None? ==> forall k | 0 <= k < |qs| :: FindId(ev[qs[k]].controls, id).None?)
    decreases |qs|
  {
    if qs != [] {
      var i := FindId(ev[qs[0]].controls, id);
      if i.Some? {
        OwnerIs(ev, qs[0], i.value);
      } else {
        FirstInMeans(ev, qs[1..], id);
        forall k | 0 < k < |qs| && FirstIn(ev, qs, id).None? ensures FindId(ev[qs[k]].controls, id).None? {
          assert qs[1..][k - 1] == qs[k];
        }
      }
    }
  }

  lemma {:induction false} FirstSameIdSkips(ev: Evaluation, id: string, populated: bool, from: nat, g: nat)
    requires from <= g < Total(ev)
    requires ControlAt(ev, g).id == id && (populated ==> ControlAt(ev, g).results > 0)
    ensures FirstSameId(ev, id, populated, from).Some? && FirstSameId(ev, id, populated, from).value <= g
    decreases g - from
  {
    if from < g { FirstSameIdSkips(ev, id, populated, from + 1, g); }
  }

  lemma FallbackExists(ev: Evaluation, g: nat)
    requires g < Total(ev)
    ensures Fallback(ev, ControlAt(ev, g).id).Some?
  {
    FirstSameIdSkips(ev, ControlAt(ev, g).id, false, 0, g);
  }

  /** A link joins controls of the same id, and inside a dependency it goes from a profile to one it extends. */
  lemma AncestorMeans(ev: Evaluation, g: nat)
    requires g < Total(ev) && AncestorOf(ev, g).Some?
    ensures var a := AncestorOf(ev, g).value;
            && a < Total(ev) && ControlAt(ev, a).id == ControlAt(ev, g).id
            && (IsLinked(ev, OwnerOf(ev, g)) ==>
                  IsLinked(ev, OwnerOf(ev, a)) && ParentOf(ev, OwnerOf(ev, a)) == Some(OwnerOf(ev, g)))
            && (!IsLinked(ev, OwnerOf(ev, g)) ==> a != g && Fallback(ev, ControlAt(ev, g).id) == Some(a))
  {
    var o, a := OwnerOf(ev, g), AncestorOf(ev, g).value;
    FirstInMeans(ev, Children(ev, o), ControlAt(ev, g).id);
    if a < Total(ev) { ChildrenMean(ev, o, OwnerOf(ev, a)); }
  }

  lemma {:induction false} PointingSorted(links: seq<Option<nat>>, x: nat, n: nat)
    requires n <= |links|
    ensures forall i, j | 0 <= i < j < |PointingTo(links, x, n)| ::
              PointingTo(links, x, n)[i] < PointingTo(links, x, n)[j]
    decreases n
  {
    if n > 0 { PointingSorted(links, x, n - 1); }
  }

  lemma {:induction false} FirstInIsLeast(ev: Evaluation, qs: seq<nat>, id: string, h: nat)
    requires forall k | 0 <= k < |qs| :: qs[k] < |ev|
    requires forall i, j | 0 <= i < j < |qs| :: qs[i] < qs[j]
    requires h < Total(ev) && OwnerOf(ev, h) in qs && ControlAt(ev, h).id == id
    ensures FirstIn(ev, qs, id).Some? && FirstIn(ev, qs, id).value <= h
    decreases |qs|
  {
    var q, o := qs[0], OwnerOf(ev, h);
    if o == q {
      IndexOfIsFirst(Ids(ev[q].controls), id, h - Start(ev, q));
    } else {
      assert o in qs[1..];
      assert q < o;
      StartMonotone(ev, q, o);
      if FindId(ev[q].controls, id).None? { FirstInIsLeast(ev, qs[1..], id, h); }
    }
  }

  /** Inside a dependency a control is linked to the first control of its id, in file order, among the
      profiles its own profile extends; with `AncestorMeans`, that is exactly what it is linked to. */
  lemma LinkedToFirst(ev: Evaluation, g: nat, h: nat)
    requires g < Total(ev) && h < Total(ev)
    requires ParentOf(ev, OwnerOf(ev, h)) == Some(OwnerOf(ev, g)) && ControlAt(ev, h).id == ControlAt(ev, g).id
    ensures AncestorOf(ev, g).Some? && AncestorOf(ev, g).value <= h
  {
    var o := OwnerOf(ev, g);
    ChildrenMean(ev, o, OwnerOf(ev, h));
    PointingSorted(Parents(ev), o, |ev|);
    FirstInIsLeast(ev, Children(ev, o), ControlAt(ev, g).id, h);
  }

  /** The profile extends another, or another extends it. */
  lemma LinkedMeans(ev: Evaluation, p: nat)
    requires p < |ev|
    ensures IsLinked(ev, p) <==> ParentOf(ev, p).Some? || exists q | 0 <= q < |ev| :: ParentOf(ev, q) == Some(p)
  {
    var qs := Children(ev, p);
    if qs != [] { ChildrenMean(ev, p, qs[0]); }
    if q :| 0 <= q < |ev| && ParentOf(ev, q) == Some(p) {
      ChildrenMean(ev, p, q);
      assert qs != [];
    }
  }

  /** `root` is the first control of the id with results, or the first of the id if none has results. */
  predicate IsShared(ev: Evaluation, id: string, root: nat) {
    && root < Total(ev) && ControlAt(ev, root).id == id
    && if ControlAt(ev, root).results > 0
       then forall h | 0 <= h < root && ControlAt(ev, h).id == id :: ControlAt(ev, h).results == 0
       else forall h | 0 <= h < Total(ev) && ControlAt(ev, h).id == id :: root <= h && ControlAt(ev, h).results == 0
  }

  lemma FallbackIsShared(ev: Evaluation, g: nat)
    requires g < Total(ev)
    ensures var id := ControlAt(ev, g).id; Fallback(ev, id).Some? && IsShared(ev, id, Fallback(ev, id).value)
  {
    var id := ControlAt(ev, g).id;
    FallbackExists(ev, g);
    PopulatedHasResults(ev, id, 0);
    forall h | 0 <= h < Total(ev) && ControlAt(ev, h).id == id
      ensures ControlAt(ev, h).results > 0 ==> Fallback(ev, id).value <= h && FirstSameId(ev, id, true, 0).Some?
      ensures FirstSameId(ev, id, true, 0).None? ==> Fallback(ev, id).value <= h
    {
      FirstSameIdSkips(ev, id, false, 0, h);
      if ControlAt(ev, h).results > 0 { FirstSameIdSkips(ev, id, true, 0, h); }
    }
  }

  /** Outside the profile dependencies a control is bound to the shared control of its id, unless it is that one. */
  lemma UnlinkedShareRoot(ev: Evaluation, g: nat, root: nat)
    requires g < Total(ev) && IsShared(ev, ControlAt(ev, g).id, root)
    requires !IsLinked(ev, OwnerOf(ev, g))
    ensures AncestorOf(ev, g) == if root == g then None else Some(root)
    ensures !IsLinked(ev, OwnerOf(ev, root)) ==> AncestorOf(ev, root).None?
  {
    FallbackIsShared(ev, g);
    OneShared(ev, ControlAt(ev, g).id, root, Fallback(ev, ControlAt(ev, g).id).value);
  }

  lemma OneShared(ev: Evaluation, id: string, a: nat, b: nat)
    requires IsShared(ev, id, a) && IsShared(ev, id, b)
    ensures a == b
  {}

  lemma {:induction false} PopulatedHasResults(ev: Evaluation, id: string, g: nat)
    requires g <= Total(ev)
    ensures var r := FirstSameId(ev, id, true, g); r.Some? ==> ControlAt(ev, r.value).results > 0
    decreases Total(ev) - g
  {
    if g < Total(ev) { PopulatedHasResults(ev, id, g + 1); }
  }

  // ---- Following the links: `root` ----

  function ControlAncestors(ev: Evaluation): (r: seq<Option<nat>>)
    ensures |r| == Total(ev) && forall g | 0 <= g < Total(ev) :: r[g] == AncestorOf(ev, g)
  {
    seq(Total(ev), g requires 0 <= g < Total(ev) => AncestorOf(ev, g))
  }

  /** The place reached from `g` after `n` links, or nothing once the chain has ended. */
  function Follow(links: seq<Option<nat>>, g: nat, n: nat): (r: Option<nat>)
    requires g < |links|
    ensures r.Some? ==> r.value < |links|
    decreases n
  {
    if n == 0 then Some(g)
    else match links[g]
      case None => None
      case Some(a) => if a < |links| then Follow(links, a, n - 1) else None
  }

  /** Reading `root` of the control returns, instead of recursing for ever. */
  ghost predicate RootReturns(ev: Evaluation, g: nat)
    requires g < Total(ev)
  {
    exists n: nat :: Follow(ControlAncestors(ev), g, n).None?
  }

  /** The profile reached from `p` by going to the parent `m` times. */
  function ParentIter(ev: Evaluation, p: nat, m: nat): (r: Option<nat>)
    requires p < |ev|
    ensures r.Some? ==> r.value < |ev|
    decreases m
  {
    if m == 0 then Some(p)
    else match ParentOf(ev, p) case None => None case Some(q) => ParentIter(ev, q, m - 1)
  }

  ghost predicate IsAncestor(ev: Evaluation, p: nat, q: nat)
    requires p < |ev|
  {
    exists m: nat | m > 0 :: ParentIter(ev, p, m) == Some(q)
  }

  /** The profile is among its own parents. */
  ghost predicate OnCycle(ev: Evaluation, p: nat) {
    p < |ev| && IsAncestor(ev, p, p)
  }

  ghost function Ancestors(ev: Evaluation, p: nat): set<nat>
    requires p < |ev|
  {
    set q: nat | q < |ev| && IsAncestor(ev, p, q)
  }

  lemma {:induction false} IterLast(ev: Evaluation, p: nat, m: nat)
    requires p < |ev| && ParentIter(ev, p, m + 1).Some?
    ensures ParentIter(ev, p, m).Some?
    ensures ParentOf(ev, ParentIter(ev, p, m).value) == ParentIter(ev, p, m + 1)
    decreases m
  {
    if m > 0 { IterLast(ev, ParentOf(ev, p).value, m - 1); }
    else { assert ParentIter(ev, ParentOf(ev, p).value, 0) == ParentOf(ev, p); }
  }

  lemma {:induction false} IterAdd(ev: Evaluation, p: nat, m: nat, n: nat)
    requires p < |ev| && ParentIter(ev, p, m).Some?
    ensures ParentIter(ev, p, m + n) == ParentIter(ev, ParentIter(ev, p, m).value, n)
    decreases m
  {
    if m > 0 { IterAdd(ev, ParentOf(ev, p).value, m - 1, n); }
  }

  /** Going round a cycle of `m` steps `k` times leads back to where it started. */
  lemma {:induction false} IterRound(ev: Evaluation, p: nat, m: nat, k: nat)
    requires p < |ev| && ParentIter(ev, p, m) == Some(p)
    ensures ParentIter(ev, p, m * k) == Some(p)
    decreases k
  {
    if k > 0 {
      IterRound(ev, p, m, k - 1);
      IterAdd(ev, p, m, m * (k - 1));
      assert m * k == m + m * (k - 1);
    }
  }

  /** Parents of profiles on a cycle are on it, and back from them it is some more steps. */
  lemma ParentsOnCycle(ev: Evaluation, p: nat, m: nat) returns (d: nat)
    requires OnCycle(ev, p) && ParentIter(ev, p, m).Some?
    ensures var q := ParentIter(ev, p, m).value;
            OnCycle(ev, q) && ParentIter(ev, q, d) == Some(p)
  {
    var n: nat :| n > 0 && ParentIter(ev, p, n) == Some(p);
    IterRound(ev, p, n, m + 1);
    assert n * (m + 1) > m by { assert n * (m + 1) >= 1 * (m + 1); }
    d := n * (m + 1) - m;
    IterAdd(ev, p, m, d);
    var q := ParentIter(ev, p, m).value;
    IterAdd(ev, q, d, m);
    assert ParentIter(ev, q, d + m) == Some(q);
  }

  /** A profile has at most one child that is on a cycle. */
  lemma OneChildOnCycle(ev: Evaluation, p: nat, q: nat, r: nat)
    requires OnCycle(ev, q) && OnCycle(ev, r) && ParentOf(ev, q) == Some(p) && ParentOf(ev, r) == Some(p)
    ensures q == r
  {
    var m: nat :| m > 0 && ParentIter(ev, q, m) == Some(q);
    var n: nat :| n > 0 && ParentIter(ev, r, n) == Some(r);
    IterRound(ev, q, m, n);
    IterRound(ev, r, n, m);
    assert m * n == n * m > 0 by { assert m * n >= 1 * n; }
    assert ParentIter(ev, q, m * n) == ParentIter(ev, p, m * n - 1) == ParentIter(ev, r, n * m);
  }

  /** Going from a profile that is on no cycle to one it extends adds at least one to the set of ancestors. */
  lemma AncestorsGrow(ev: Evaluation, p: nat, child: nat)
    requires p < |ev| && child < |ev| && ParentOf(ev, child) == Some(p) && !OnCycle(ev, p)
    ensures |Ancestors(ev, p)| < |Ancestors(ev, child)| <= |ev|
  {
    forall q | q in Ancestors(ev, p) ensures q in Ancestors(ev, child) {
      var m: nat :| m > 0 && ParentIter(ev, p, m) == Some(q);
      assert ParentIter(ev, child, m + 1) == Some(q);
    }
    assert ParentIter(ev, child, 1) == Some(p) by { assert ParentIter(ev, p, 0) == Some(p); }
    assert IsAncestor(ev, child, p);
    assert p in Ancestors(ev, child) && p !in Ancestors(ev, p);
    SetSizes(Ancestors(ev, p), Ancestors(ev, child), |ev|);
  }

  lemma SetSizes(a: set<nat>, b: set<nat>, n: nat)
    requires a < b && forall x | x in b :: x < n
    ensures |a| < |b| <= n
  {
    assert b == a + (b - a) && |b - a| > 0;
    Bounded(b, n);
  }

  lemma {:induction false} Bounded(b: set<nat>, n: nat)
    requires forall x | x in b :: x < n
    ensures |b| <= n
    decreases n
  {
    if n == 0 {
      assert b == {};
    } else {
      Bounded(b - {n - 1}, n - 1);
    }
  }

  // ---- Exactly when `root` returns ----

  /** The first of these profiles that has a control with the id. */
  function FirstHolder(ev: Evaluation, qs: seq<nat>, id: string): (r: Option<nat>)
    requires forall k | 0 <= k < |qs| :: qs[k] < |ev|
    ensures r.Some? ==> r.value in qs && r.value < |ev|
  {
    if qs == [] then None
    else if FindId(ev[qs[0]].controls, id).Some? then Some(qs[0])
    else FirstHolder(ev, qs[1..], id)
  }

  /** The first profile, in file order, that `p` extends and that has a control with the id. */
  function NextHolder(ev: Evaluation, p: nat, id: string): (r: Option<nat>)
    ensures r.Some? ==> r.value < |ev|
  {
    FirstHolder(ev, Children(ev, p), id)
  }

  /** Profile `p` is on a cycle all along which the next holder of the id is on the cycle too. */
  ghost predicate Endless(ev: Evaluation, p: nat, id: string) {
    OnCycle(ev, p)
    && forall q: nat | q < |ev| && IsAncestor(ev, p, q) ::
         NextHolder(ev, q, id).Some? && OnCycle(ev, NextHolder(ev, q, id).value)
  }

  /** Where the chain of a control enters the profile dependencies, if it does: at the control itself if its
      profile takes part in them, and otherwise at the control the fallback finds. */
  function ChainStart(ev: Evaluation, g: nat): (s: nat)
    requires g < Total(ev)
    ensures s < Total(ev) && ControlAt(ev, s).id == ControlAt(ev, g).id
  {
    FallbackExists(ev, g);
    if IsLinked(ev, OwnerOf(ev, g)) then g else Fallback(ev, ControlAt(ev, g).id).value
  }

  lemma {:induction false} FirstInHolder(ev: Evaluation, qs: seq<nat>, id: string)
    requires forall k | 0 <= k < |qs| :: qs[k] < |ev|
    ensures var r, h := FirstIn(ev, qs, id), FirstHolder(ev, qs, id);
            && (r.Some? <==> h.Some?)
            && (r.Some? ==> r.value < Total(ev) && OwnerOf(ev, r.value) == h.value)
    decreases |qs|
  {
    if qs != [] {
      var i := FindId(ev[qs[0]].controls, id);
      if i.Some? { OwnerIs(ev, qs[0], i.value); } else { FirstInHolder(ev, qs[1..], id); }
    }
  }

  /** In a linked profile the chain goes on in the next holder, if there is one. */
  lemma NextLink(ev: Evaluation, g: nat)
    requires g < Total(ev) && IsLinked(ev, OwnerOf(ev, g))
    ensures var o, a := OwnerOf(ev, g), AncestorOf(ev, g);
            var h := NextHolder(ev, o, ControlAt(ev, g).id);
            && (a.Some? <==> h.Some?)
            && (a.Some? ==>
                  && a.value < Total(ev) && OwnerOf(ev, a.value) == h.value
                  && ControlAt(ev, a.value).id == ControlAt(ev, g).id
                  && ParentOf(ev, h.value) == Some(o) && IsLinked(ev, h.value))
  {
    FirstInHolder(ev, Children(ev, OwnerOf(ev, g)), ControlAt(ev, g).id);
    if AncestorOf(ev, g).Some? { AncestorMeans(ev, g); }
  }

  lemma NoLink(ev: Evaluation, g: nat)
    requires g < Total(ev) && AncestorOf(ev, g).None?
    ensures RootReturns(ev, g)
  {
    assert Follow(ControlAncestors(ev), g, 1).None?;
  }

  lemma FollowOn(ev: Evaluation, g: nat, a: nat)
    requires g < Total(ev) && a < Total(ev) && AncestorOf(ev, g) == Some(a)
    ensures RootReturns(ev, g) <==> RootReturns(ev, a)
  {
    var links := ControlAncestors(ev);
    if RootReturns(ev, a) {
      var n: nat :| Follow(links, a, n).None?;
      assert Follow(links, g, n + 1).None?;
    }
    if RootReturns(ev, g) {
      var n: nat :| Follow(links, g, n).None?;
      assert n > 0;
      assert Follow(links, a, n - 1).None?;
    }
  }

  /** From a profile that is on no cycle the chain ends: it never enters one. */
  lemma {:induction false} OffCycleReturns(ev: Evaluation, g: nat)
    requires g < Total(ev) && IsLinked(ev, OwnerOf(ev, g)) && !OnCycle(ev, OwnerOf(ev, g))
    ensures RootReturns(ev, g)
    decreases |ev| - |Ancestors(ev, OwnerOf(ev, g))|
  {
    NextLink(ev, g);
    if AncestorOf(ev, g).None? {
      NoLink(ev, g);
    } else {
      var o, a := OwnerOf(ev, g), AncestorOf(ev, g).value;
      var q := OwnerOf(ev, a);
      if OnCycle(ev, q) {
        assert ParentIter(ev, q, 1) == Some(o) by { assert ParentIter(ev, o, 0) == Some(o); }
        var d := ParentsOnCycle(ev, q, 1);
        assert false;
      }
      AncestorsGrow(ev, o, q);
      OffCycleReturns(ev, a);
      FollowOn(ev, g, a);
    }
  }

  /** On a cycle, when the chain leaves it `d` steps further on, at profile `p`. */
  lemma {:induction false} LeavingReturns(ev: Evaluation, g: nat, p: nat, d: nat)
    requires g < Total(ev) && OnCycle(ev, OwnerOf(ev, g)) && IsLinked(ev, OwnerOf(ev, g))
    requires OnCycle(ev, p) && ParentIter(ev, p, d) == Some(OwnerOf(ev, g))
    requires var h := NextHolder(ev, p, ControlAt(ev, g).id); h.None? || !OnCycle(ev, h.value)
    ensures RootReturns(ev, g)
    decreases d
  {
    NextLink(ev, g);
    if AncestorOf(ev, g).None? {
      NoLink(ev, g);
    } else {
      var a := AncestorOf(ev, g).value;
      if !OnCycle(ev, OwnerOf(ev, a)) {
        OffCycleReturns(ev, a);
      } else {
        assert d > 0;
        IterLast(ev, p, d - 1);
        var r := ParentIter(ev, p, d - 1).value;
        var back := ParentsOnCycle(ev, p, d - 1);
        OneChildOnCycle(ev, OwnerOf(ev, g), OwnerOf(ev, a), r);
        LeavingReturns(ev, a, p, d - 1);
      }
      FollowOn(ev, g, a);
    }
  }

  /** Where the next holder is always on the cycle the chain stays on it. */
  lemma {:induction false} StayingNeverEnds(ev: Evaluation, p: nat, g: nat, n: nat)
    requires g < Total(ev) && p < |ev| && Endless(ev, p, ControlAt(ev, g).id) && IsAncestor(ev, p, OwnerOf(ev, g))
    ensures Follow(ControlAncestors(ev), g, n).Some?
    decreases n
  {
    if n > 0 {
      var o, id := OwnerOf(ev, g), ControlAt(ev, g).id;
      var h := NextHolder(ev, o, id).value;
      HolderIsChild(ev, o, id);
      NextLink(ev, g);
      var a := AncestorOf(ev, g).value;
      StaysAncestor(ev, p, o, h);
      StayingNeverEnds(ev, p, a, n - 1);
    }
  }

  lemma HolderIsChild(ev: Evaluation, o: nat, id: string)
    requires o < |ev| && NextHolder(ev, o, id).Some?
    ensures ParentOf(ev, NextHolder(ev, o, id).value) == Some(o) && IsLinked(ev, o)
  {
    ChildrenMean(ev, o, NextHolder(ev, o, id).value);
  }

  /** A child that is on a cycle is an ancestor of all below its parent. */
  lemma StaysAncestor(ev: Evaluation, p: nat, o: nat, h: nat)
    requires p < |ev| && IsAncestor(ev, p, o) && OnCycle(ev, h) && ParentOf(ev, h) == Some(o)
    ensures IsAncestor(ev, p, h)
  {
    var k: nat :| k > 0 && ParentIter(ev, p, k) == Some(o);
    var m: nat :| m > 0 && ParentIter(ev, h, m) == Some(h);
    assert ParentIter(ev, o, m - 1) == Some(h);
    IterAdd(ev, p, k, m - 1);
    assert ParentIter(ev, p, k + (m - 1)) == Some(h);
  }

  /** For a control of a profile that takes part in a dependency. */
  lemma LinkedReturnsIff(ev: Evaluation, g: nat)
    requires g < Total(ev) && IsLinked(ev, OwnerOf(ev, g))
    ensures RootReturns(ev, g) <==> !Endless(ev, OwnerOf(ev, g), ControlAt(ev, g).id)
  {
    var o, id := OwnerOf(ev, g), ControlAt(ev, g).id;
    if Endless(ev, o, id) {
      forall n: nat ensures Follow(ControlAncestors(ev), g, n).Some? { StayingNeverEnds(ev, o, g, n); }
    } else if !OnCycle(ev, o) {
      OffCycleReturns(ev, g);
    } else {
      var p: nat :| p < |ev| && IsAncestor(ev, o, p)
               && (NextHolder(ev, p, id).None? || !OnCycle(ev, NextHolder(ev, p, id).value));
      var m: nat :| m > 0 && ParentIter(ev, o, m) == Some(p);
      var d := ParentsOnCycle(ev, o, m);
      LeavingReturns(ev, g, p, d);
    }
  }

  lemma ChainStartMeans(ev: Evaluation, g: nat)
    requires g < Total(ev)
    ensures var s := ChainStart(ev, g);
            && (s != g ==> AncestorOf(ev, g) == Some(s))
            && (!IsLinked(ev, OwnerOf(ev, s)) ==> AncestorOf(ev, s).None?)
  {
    FallbackExists(ev, g);
  }

  /** For every control of every evaluation: `root` recurses for ever exactly when the chain starts in a profile
      that is among its own parents, and for each profile of that cycle the first profile it extends that has the
      id is on the cycle as well. */
  lemma RootReturnsIff(ev: Evaluation, g: nat)
    requires g < Total(ev)
    ensures RootReturns(ev, g) <==> !Endless(ev, OwnerOf(ev, ChainStart(ev, g)), ControlAt(ev, g).id)
  {
    var s := ChainStart(ev, g);
    ChainStartMeans(ev, g);
    if IsLinked(ev, OwnerOf(ev, s)) {
      LinkedReturnsIff(ev, s);
    } else {
      NoLink(ev, s);
      if OnCycle(ev, OwnerOf(ev, s)) { CycleIsLinked(ev, OwnerOf(ev, s)); }
    }
    if s != g { FollowOn(ev, g, s); }
  }

  lemma CycleIsLinked(ev: Evaluation, p: nat)
    requires OnCycle(ev, p)
    ensures ParentOf(ev, p).Some? && IsLinked(ev, p)
  {
    var m: nat :| m > 0 && ParentIter(ev, p, m) == Some(p);
  }

  // ---- Over all ways of filling the profiles with controls ----

  /** The same profiles, with other controls. */
  predicate SameProfiles(a: Evaluation, b: Evaluation) {
    |a| == |b| && forall p | 0 <= p < |a| :: a[p].name == b[p].name && a[p].parentProfile == b[p].parentProfile
  }

  lemma ParentsDecided(a: Evaluation, b: Evaluation, p: nat)
    requires SameProfiles(a, b) && p < |a|
    ensures ParentOf(a, p) == ParentOf(b, p)
  {
    assert ProfileNames(a) == ProfileNames(b);
  }

  lemma {:induction false} ItersDecided(a: Evaluation, b: Evaluation, p: nat, m: nat)
    requires SameProfiles(a, b) && p < |a|
    ensures ParentIter(a, p, m) == ParentIter(b, p, m)
    decreases m
  {
    ParentsDecided(a, b, p);
    if m > 0 && ParentOf(a, p).Some? { ItersDecided(a, b, ParentOf(a, p).value, m - 1); }
  }

  lemma CyclesDecided(a: Evaluation, b: Evaluation, p: nat)
    requires SameProfiles(a, b)
    ensures OnCycle(a, p) <==> OnCycle(b, p)
  {
    if p < |a| {
      forall m: nat ensures ParentIter(a, p, m) == ParentIter(b, p, m) { ItersDecided(a, b, p, m); }
    }
  }

  /** A profile on a cycle extends a profile on a cycle. */
  lemma ChildOnCycle(ev: Evaluation, p: nat) returns (q: nat)
    requires OnCycle(ev, p)
    ensures q < |ev| && ParentOf(ev, q) == Some(p) && OnCycle(ev, q)
  {
    var m: nat :| m > 0 && ParentIter(ev, p, m) == Some(p);
    IterLast(ev, p, m - 1);
    q := ParentIter(ev, p, m - 1).value;
    var d := ParentsOnCycle(ev, p, m - 1);
  }

  /** One control, of the same id, in every profile on a cycle and none elsewhere. */
  ghost function OnlyOnCycles(ev: Evaluation): (r: Evaluation)
    ensures SameProfiles(ev, r)
    ensures forall p: nat | p < |r| :: r[p].controls == if OnCycle(ev, p) then [ControlData("x", 0)] else []
  {
    seq(|ev|, p requires 0 <= p < |ev| =>
      ev[p].(controls := if OnCycle(ev, p) then [ControlData("x", 0)] else []))
  }

  lemma {:induction false} HolderExists(ev: Evaluation, qs: seq<nat>, id: string, q: nat)
    requires (forall k | 0 <= k < |qs| :: qs[k] < |ev|) && q in qs && FindId(ev[q].controls, id).Some?
    ensures FirstHolder(ev, qs, id).Some? && FindId(ev[FirstHolder(ev, qs, id).value].controls, id).Some?
    decreases |qs|
  {
    if FindId(ev[qs[0]].controls, id).None? {
      assert q in qs[1..];
      HolderExists(ev, qs[1..], id, q);
    }
  }

  lemma EndlessOnCycles(ev: Evaluation, r: Evaluation, p: nat)
    requires r == OnlyOnCycles(ev) && OnCycle(ev, p)
    ensures Endless(r, p, "x")
  {
    CyclesDecided(ev, r, p);
    forall q: nat | q < |r| && IsAncestor(r, p, q)
      ensures NextHolder(r, q, "x").Some? && OnCycle(r, NextHolder(r, q, "x").value)
    {
      var m: nat :| m > 0 && ParentIter(r, p, m) == Some(q);
      var d := ParentsOnCycle(r, p, m);
      var child := ChildOnCycle(r, q);
      CyclesDecided(ev, r, child);
      ChildrenMean(r, q, child);
      IndexOfIsFirst(Ids(r[child].controls), "x", 0);
      HolderExists(r, Children(r, q), "x", child);
      CyclesDecided(ev, r, NextHolder(r, q, "x").value);
    }
  }

  lemma CycleIfEndless(ev: Evaluation, r: Evaluation, g: nat) returns (p: nat)
    requires SameProfiles(ev, r) && g < Total(r) && !RootReturns(r, g)
    ensures OnCycle(ev, p)
  {
    RootReturnsIff(r, g);
    p := OwnerOf(r, ChainStart(r, g));
    CyclesDecided(ev, r, p);
  }

  lemma FirstControl(ev: Evaluation, p: nat) returns (g: nat)
    requires p < |ev| && |ev[p].controls| > 0
    ensures g < Total(ev) && OwnerOf(ev, g) == p && ControlAt(ev, g) == ev[p].controls[0]
  {
    OwnerIs(ev, p, 0);
    g := Start(ev, p) + 0;
  }

  lemma EndlessLinked(ev: Evaluation, g: nat, p: nat, id: string)
    requires g < Total(ev) && OwnerOf(ev, g) == p && ControlAt(ev, g).id == id && Endless(ev, p, id)
    ensures !RootReturns(ev, g)
  {
    CycleIsLinked(ev, p);
    LinkedReturnsIff(ev, g);
  }

  lemma EndlessControl(ev: Evaluation, p: nat) returns (r: Evaluation, g: nat)
    requires OnCycle(ev, p)
    ensures SameProfiles(ev, r) && g < Total(r) && !RootReturns(r, g)
  {
    r := OnlyOnCycles(ev);
    g := FirstControl(r, p);
    EndlessOnCycles(ev, r, p);
    EndlessLinked(r, g, p, "x");
  }

  /** For given profiles, `root` returns on every control, whatever controls the profiles hold,
      exactly when no profile is among its own parents. */
  lemma RootAlwaysReturnsIff(ev: Evaluation)
    ensures (forall r, g: nat | SameProfiles(ev, r) && g < Total(r) :: RootReturns(r, g))
       <==> forall p: nat :: !OnCycle(ev, p)
  {
    forall r, g: nat | SameProfiles(ev, r) && g < Total(r) && !RootReturns(r, g)
      ensures exists p: nat :: OnCycle(ev, p)
    {
      var p := CycleIfEndless(ev, r, g);
    }
    if p: nat :| OnCycle(ev, p) { var r, g := EndlessControl(ev, p); }
  }

  // ---- The smallest cycles ----

  /** A profile named as its own parent: `root` never returns on any of its controls. */
  lemma OwnParentNeverReturns(ev: Evaluation, g: nat)
    requires |ev| == 1 && ev[0].parentProfile == Some(ev[0].name) && g < Total(ev)
    ensures !RootReturns(ev, g)
  {
    OwnParent(ev);
    OwnHolder(ev, ControlAt(ev, g).id, g - Start(ev, 0));
    EndlessLinked(ev, g, 0, ControlAt(ev, g).id);
  }

  lemma OwnHolder(ev: Evaluation, id: string, i: nat)
    requires |ev| == 1 && ParentOf(ev, 0) == Some(0) && OnCycle(ev, 0)
    requires i < |ev[0].controls| && ev[0].controls[i].id == id
    ensures Endless(ev, 0, id)
  {
    ChildrenMean(ev, 0, 0);
    IndexOfIsFirst(Ids(ev[0].controls), id, i);
    HolderExists(ev, Children(ev, 0), id, 0);
  }

  lemma OwnParent(ev: Evaluation)
    requires |ev| == 1 && ev[0].parentProfile == Some(ev[0].name)
    ensures ParentOf(ev, 0) == Some(0) && OnCycle(ev, 0)
  {
    IndexOfIsFirst(ProfileNames(ev), ev[0].name, 0);
    assert ParentIter(ev, 0, 1) == Some(0) by { assert ParentIter(ev, 0, 0) == Some(0); }
  }

  /** Two profiles that are each other's parent. */
  predicate EachOther(ev: Evaluation) {
    && |ev| == 2 && ev[0].name != ev[1].name
    && ev[0].parentProfile == Some(ev[1].name) && ev[1].parentProfile == Some(ev[0].name)
  }

  lemma TwoOnCycle(ev: Evaluation, p: nat)
    requires EachOther(ev) && p < 2
    ensures ParentOf(ev, p) == Some(1 - p) && OnCycle(ev, p) && IsLinked(ev, p)
  {
    IndexOfIsFirst(ProfileNames(ev), ev[0].name, 0);
    IndexOfIsFirst(ProfileNames(ev), ev[1].name, 1);
    assert ParentIter(ev, p, 2) == ParentIter(ev, 1 - p, 1) == ParentIter(ev, p, 0);
  }

  /** A cycle by itself does no harm: if the two profiles share no id, `root` returns on every control. */
  lemma CycleWithoutSharedIdReturns(ev: Evaluation, g: nat)
    requires EachOther(ev) && g < Total(ev)
    requires forall i, j | 0 <= i < |ev[0].controls| && 0 <= j < |ev[1].controls| ::
               ev[0].controls[i].id != ev[1].controls[j].id
    ensures OnCycle(ev, OwnerOf(ev, g)) && RootReturns(ev, g)
  {
    var o := OwnerOf(ev, g);
    TwoOnCycle(ev, o);
    if AncestorOf(ev, g).Some? {
      AncestorMeans(ev, g);
      TwoOnCycle(ev, OwnerOf(ev, AncestorOf(ev, g).value));
      SharedId(ev, g, AncestorOf(ev, g).value);
    } else {
      NoLink(ev, g);
    }
  }

  lemma SharedId(ev: Evaluation, g: nat, h: nat)
    requires |ev| == 2 && g < Total(ev) && h < Total(ev)
    requires OwnerOf(ev, g) != OwnerOf(ev, h) && ControlAt(ev, g).id == ControlAt(ev, h).id
    ensures exists i, j | 0 <= i < |ev[0].controls| && 0 <= j < |ev[1].controls| ::
              ev[0].controls[i].id == ev[1].controls[j].id
  {
    var i, j := g - Start(ev, OwnerOf(ev, g)), h - Start(ev, OwnerOf(ev, h));
    if OwnerOf(ev, g) == 0 {
      assert ev[0].controls[i].id == ev[1].controls[j].id;
    } else {
      assert ev[0].controls[j].id == ev[1].controls[i].id;
    }
  }
}
