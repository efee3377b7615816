/** The object graph Heimdall builds for one evaluation, in the steps of `contextualizeEvaluation`.
    Profiles and controls are named by their numbers; a list of objects is the list of their numbers. */
module OverlayGraph {
  import opened Text
  import opened Overlay

  function AsList(x: Option<nat>): seq<nat> {
    if x.Some? then [x.value] else []
  }

  // The two lists per object after the first `n` steps of a linking loop.

  function ForwardLists(links: seq<Option<nat>>, n: nat): (r: seq<seq<nat>>)
    ensures |r| == |links|
  {
    seq(|links|, k requires 0 <= k < |links| => if k < n then AsList(links[k]) else [])
  }

  function BackwardLists(links: seq<Option<nat>>, n: nat): (r: seq<seq<nat>>)
    requires n <= |links|
    ensures |r| == |links|
  {
    seq(|links|, k requires 0 <= k < |links| => PointingTo(links, k, n))
  }

  /** `x` is pushed onto the list of `to`. */
  function PushTo(lists: seq<seq<nat>>, to: Option<nat>, x: nat): seq<seq<nat>>
    requires to.Some? ==> to.value < |lists|
  {
    if to.Some? then lists[to.value := lists[to.value] + [x]] else lists
  }

  /** `x`, if any, is pushed onto the list of `to`. */
  function PushOption(lists: seq<seq<nat>>, to: nat, x: Option<nat>): seq<seq<nat>>
    requires to < |lists|
  {
    if x.Some? then lists[to := lists[to] + [x.value]] else lists
  }

  lemma BackwardStep(links: seq<Option<nat>>, n: nat)
    requires n < |links| && (links[n].Some? ==> links[n].value < |links|)
    ensures BackwardLists(links, n + 1) == PushTo(BackwardLists(links, n), links[n], n)
  {
    var back, pushed := BackwardLists(links, n + 1), PushTo(BackwardLists(links, n), links[n], n);
    forall k | 0 <= k < |links| ensures back[k] == pushed[k] {
      assert back[k] == PointingTo(links, k, n) + if links[n] == Some(k) then [n] else [];
    }
    assert back == pushed;
  }

  lemma ForwardStep(links: seq<Option<nat>>, n: nat)
    requires n < |links|
    ensures ForwardLists(links, n + 1) == PushOption(ForwardLists(links, n), n, links[n])
  {
    var forward, appended := ForwardLists(links, n + 1), PushOption(ForwardLists(links, n), n, links[n]);
    forall k | 0 <= k < |links| ensures forward[k] == appended[k] {}
    assert forward == appended;
  }

  lemma ProfileStep(ev: Evaluation, p: nat, parent: Option<nat>)
    requires p < |ev| && parent == ParentOf(ev, p)
    ensures BackwardLists(Parents(ev), p + 1) == PushTo(BackwardLists(Parents(ev), p), parent, p)
    ensures ForwardLists(Parents(ev), p + 1) == PushOption(ForwardLists(Parents(ev), p), p, parent)
  {
    BackwardStep(Parents(ev), p);
    ForwardStep(Parents(ev), p);
  }

  lemma ControlStep(ev: Evaluation, g: nat, ancestor: Option<nat>)
    requires g < Total(ev) && ancestor == AncestorOf(ev, g)
    ensures ancestor.Some? ==> ancestor.value < Total(ev)
    ensures BackwardLists(ControlAncestors(ev), g + 1) == PushTo(BackwardLists(ControlAncestors(ev), g), ancestor, g)
    ensures ForwardLists(ControlAncestors(ev), g + 1)
         == PushOption(ForwardLists(ControlAncestors(ev), g), g, ancestor)
  {
    if ancestor.Some? { AncestorMeans(ev, g); }
    BackwardStep(ControlAncestors(ev), g);
    ForwardStep(ControlAncestors(ev), g);
  }

  class Context {
    const ev: Evaluation

    // profile links
    var extendsFrom: seq<seq<nat>>
    var extendedBy: seq<seq<nat>>

    // control links
    var controlExtendsFrom: seq<seq<nat>>
    var controlExtendedBy: seq<seq<nat>>

    /** The first `n` profiles have been linked to their parents. */
    ghost predicate ProfilesLinked(n: nat)
      requires n <= |ev|
      reads this
    {
      extendsFrom == BackwardLists(Parents(ev), n) && extendedBy == ForwardLists(Parents(ev), n)
    }

    /** The first `n` controls have been linked to their ancestors. */
    ghost predicate ControlsLinked(n: nat)
      requires n <= Total(ev)
      reads this
    {
      && controlExtendsFrom == ForwardLists(ControlAncestors(ev), n)
      && controlExtendedBy == BackwardLists(ControlAncestors(ev), n)
    }

    /** Pushes a profile and its parent, if found, onto each other's lists. */
    method LinkUp(p: nat, parent: Option<nat>)
      requires p < |extendedBy| && (parent.Some? ==> parent.value < |extendsFrom|)
      modifies this`extendsFrom, this`extendedBy
      ensures extendsFrom == PushTo(old(extendsFrom), parent, p)
      ensures extendedBy == PushOption(old(extendedBy), p, parent)
    {
      if parent.Some? {
        var q := parent.value;
        extendsFrom := extendsFrom[q := extendsFrom[q] + [p]];
        extendedBy := extendedBy[p := extendedBy[p] + [q]];
      }
    }

    /** Establishes parentage between the profiles. */
    method LinkProfiles()
      requires ProfilesLinked(0)
      modifies this`extendsFrom, this`extendedBy
      ensures ProfilesLinked(|ev|)
    {
      for p := 0 to |ev|
        invariant ProfilesLinked(p)
      {
        var parent: Option<nat> := None;
        if ev[p].parentProfile.Some? {
          parent := FirstNamed(ev, ev[p].parentProfile.value);
        }
        ProfileStep(ev, p, parent);
        LinkUp(p, parent);
      }
    }

    /** The object to bind control `g` to, if any: the body of the linking loop. */
    method FindAncestor(g: nat) returns (a: Option<nat>)
      requires g < Total(ev) && ProfilesLinked(|ev|)
      ensures a == AncestorOf(ev, g)
    {
      var owner, id := OwnerOf(ev, g), ControlAt(ev, g).id;
      if extendsFrom[owner] != [] || extendedBy[owner] != [] {
        if extendsFrom[owner] == [] {
          return None;
        }
        var qs := extendsFrom[owner];
        var k := 0;
        while k < |qs|
          invariant 0 <= k <= |qs|
          invariant FirstIn(ev, qs, id) == FirstIn(ev, qs[k..], id)
        {
          var found := FindId(ev[qs[k]].controls, id);
          if found.Some? {
            return Some(Start(ev, qs[k]) + found.value);
          }
          k := k + 1;
        }
        return None;
      }
      var sameIdPopulated := FirstSameId(ev, id, true, 0);
      if sameIdPopulated.None? {
        sameIdPopulated := FirstSameId(ev, id, false, 0);
      }
      if sameIdPopulated == Some(g) {
        return None;
      }
      return sameIdPopulated;
    }

    /** Pushes a control and its ancestor, if any, onto each other's lists. */
    method Bind(g: nat, ancestor: Option<nat>)
      requires g < |controlExtendsFrom| && (ancestor.Some? ==> ancestor.value < |controlExtendedBy|)
      modifies this`controlExtendsFrom, this`controlExtendedBy
      ensures controlExtendedBy == PushTo(old(controlExtendedBy), ancestor, g)
      ensures controlExtendsFrom == PushOption(old(controlExtendsFrom), g, ancestor)
    {
      if ancestor.Some? {
        var a := ancestor.value;
        controlExtendedBy := controlExtendedBy[a := controlExtendedBy[a] + [g]];
        controlExtendsFrom := controlExtendsFrom[g := controlExtendsFrom[g] + [a]];
      }
    }

    /** Links each control to its ancestor. */
    method LinkControls()
      requires ProfilesLinked(|ev|) && ControlsLinked(0)
      modifies this`controlExtendsFrom, this`controlExtendedBy
      ensures ControlsLinked(Total(ev))
    {
      for g := 0 to Total(ev)
        invariant ControlsLinked(g)
      {
        var ancestor := FindAncestor(g);
        ControlStep(ev, g, ancestor);
        Bind(g, ancestor);
      }
    }

    /** `contextualizeEvaluation` */
    constructor Contextualize(evaluation: Evaluation)
      ensures ev == evaluation && ProfilesLinked(|ev|) && ControlsLinked(Total(ev))
    {
      ev := evaluation;
      extendsFrom, extendedBy := seq(|evaluation|, _ => []), seq(|evaluation|, _ => []);
      controlExtendsFrom := seq(Total(evaluation), _ => []);
      controlExtendedBy := seq(Total(evaluation), _ => []);
      new;
      LinkProfiles();
      LinkControls();
    }

    /** The `root` getter: follows the first link until there is none. It is only called where it returns. */
    method Root(g: nat, ghost n: nat) returns (root: nat)
      requires ControlsLinked(Total(ev))
      requires g < Total(ev) && Follow(ControlAncestors(ev), g, n).None?
      ensures root < Total(ev) && controlExtendsFrom[root] == []
      ensures ControlAt(ev, root).id == ControlAt(ev, g).id
      ensures exists k: nat :: k < n && Follow(ControlAncestors(ev), g, k) == Some(root)
      decreases n
    {
      if controlExtendsFrom[g] != [] {
        AncestorMeans(ev, g);
        var a := controlExtendsFrom[g][0];
        root := Root(a, n - 1);
        ghost var k: nat :| k < n - 1 && Follow(ControlAncestors(ev), a, k) == Some(root);
        assert Follow(ControlAncestors(ev), g, k + 1) == Some(root);
      } else {
        root := g;
        assert Follow(ControlAncestors(ev), g, 0) == Some(g);
      }
    }
  }

  /** The two link lists are inverse to each other, and no control extends more than one. */
  lemma LinksAreInverse(c: Context, g: nat, a: nat)
    requires c.ControlsLinked(Total(c.ev)) && g < Total(c.ev) && a < Total(c.ev)
    ensures a in c.controlExtendsFrom[g] <==> g in c.controlExtendedBy[a]
    ensures |c.controlExtendsFrom[g]| <= 1
    ensures a in c.controlExtendsFrom[g] ==> ControlAt(c.ev, a).id == ControlAt(c.ev, g).id
  {
    PointingMeans(ControlAncestors(c.ev), a, Total(c.ev), g);
    if AncestorOf(c.ev, g).Some? { AncestorMeans(c.ev, g); }
  }
}
