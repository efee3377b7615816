/** The tree of NIST controls Heimdall builds from its flat list, and which controls its roots lead to.
    Nodes are named by their numbers, in the order they are made. */
module NistHierarchy {
  import opened Text

  /** The parts of a parsed control: a family, a number and further sub-specifiers. */
  type Control = seq<string>

  function Parent(c: Control): Control
    requires c != []
  {
    c[..|c| - 1]
  }

  /** The key of a control: its parts, joined by dashes. */
  function Key(c: Control): string {
    if c == [] then "" else if |c| == 1 then c[0] else Key(Parent(c)) + "-" + c[|c| - 1]
  }

  /** All nodes with their controls and children, the node of each key, and the roots. */
  datatype Tree = Tree(controls: seq<Control>, children: seq<seq<nat>>, index: map<string, nat>, roots: seq<nat>)

  // ---- What the tree is to be ----

  /** The keys of the listed controls whose parent has this key, in order. */
  function ChildKeys(listed: seq<Control>, key: string): seq<string> {
    if listed == [] then []
    else
      var c := listed[|listed| - 1];
      ChildKeys(listed[..|listed| - 1], key) + if c != [] && Key(Parent(c)) == key then [Key(c)] else []
  }

  predicate HasKey(c: Control, key: string) {
    Key(c) == key || (c != [] && Key(Parent(c)) == key)
  }

  predicate Known(families: seq<string>, listed: seq<Control>, key: string) {
    key in families || exists c | c in listed :: HasKey(c, key)
  }

  /** The nodes `xs` are those of `keys`, in order. */
  predicate Named(index: map<string, nat>, xs: seq<nat>, keys: seq<string>) {
    |xs| == |keys| && forall j | 0 <= j < |keys| :: keys[j] in index && xs[j] == index[keys[j]]
  }

  predicate Unnamed(t: Tree, x: nat) {
    forall key | key in t.index :: t.index[key] != x
  }

  /** Each key has a node of its own, and only nodes with a key have children. */
  predicate Shape(t: Tree) {
    && |t.controls| == |t.children|
    && (forall key | key in t.index :: t.index[key] < |t.children|)
    && (forall a, b | a in t.index && b in t.index :: t.index[a] == t.index[b] ==> a == b)
    && (forall x: nat | x < |t.children| && Unnamed(t, x) :: t.children[x] == [])
  }

  ghost predicate Keys(t: Tree, families: seq<string>, listed: seq<Control>) {
    forall key :: key in t.index <==> Known(families, listed, key)
  }

  predicate Lists(t: Tree, listed: seq<Control>)
    requires Shape(t)
  {
    forall key | key in t.index :: Named(t.index, t.children[t.index[key]], ChildKeys(listed, key))
  }

  /** The last of the listed controls that has this key. */
  function LastWith(listed: seq<Control>, key: string): (c: Option<Control>)
    ensures c.Some? ==> c.value in listed && Key(c.value) == key
  {
    if listed == [] then None
    else if Key(listed[|listed| - 1]) == key then Some(listed[|listed| - 1])
    else LastWith(listed[..|listed| - 1], key)
  }

  /** The node of `key` may hold `c`: a control with that key, the last listed one if one is listed. */
  predicate Holds(listed: seq<Control>, key: string, c: Control) {
    Key(c) == key && (LastWith(listed, key).Some? ==> c == LastWith(listed, key).value)
  }

  predicate Controls(t: Tree, listed: seq<Control>)
    requires Shape(t)
  {
    forall key | key in t.index :: Holds(listed, key, t.controls[t.index[key]])
  }

  /** The roots are the first nodes, one per family, and after them nodes without a key. */
  predicate Roots(t: Tree, families: seq<string>)
    requires Shape(t)
  {
    && |families| <= |t.roots| && |families| <= |t.children|
    && (forall i | 0 <= i < |families| :: t.roots[i] == i && Key(t.controls[i]) == families[i])
    && (forall i | |families| <= i < |t.roots| :: t.roots[i] < |t.children| && Unnamed(t, t.roots[i]))
    && (forall key | key in t.index :: t.index[key] < |families| <==> key in families)
  }

  ghost predicate Built(t: Tree, families: seq<string>, listed: seq<Control>) {
    Shape(t) && Keys(t, families, listed) && Lists(t, listed) && Controls(t, listed) && Roots(t, families)
  }

  // ---- One step at a time ----

  function AddNode(t: Tree, key: string, c: Control): Tree {
    Tree(t.controls + [c], t.children + [[]], t.index[key := |t.children|], t.roots)
  }

  function Replace(t: Tree, key: string, c: Control): Tree
    requires Shape(t) && key in t.index
  {
    t.(controls := t.controls[t.index[key] := c])
  }

  function PushChild(t: Tree, p: nat, x: nat): Tree
    requires p < |t.children|
  {
    t.(children := t.children[p := t.children[p] + [x]])
  }

  function AddRoot(t: Tree, c: Control): Tree {
    Tree(t.controls + [c], t.children + [[]], t.index, t.roots + [|t.children|])
  }

  /** The tree with the children lists of `listed` and the controls of `seen`. */
  ghost predicate Sound(t: Tree, families: seq<string>, listed: seq<Control>, seen: seq<Control>) {
    Shape(t) && Lists(t, listed) && Controls(t, seen) && Roots(t, families)
  }

  lemma AddNodeShape(t: Tree, key: string, c: Control)
    requires Shape(t) && key !in t.index
    ensures Shape(AddNode(t, key, c))
  {
    var u := AddNode(t, key, c);
    forall x: nat | x < |u.children| && Unnamed(u, x) ensures u.children[x] == [] {
      assert u.index[key] == |t.children|;
      if x < |t.children| {
        forall k | k in t.index ensures t.index[k] != x { assert u.index[k] == t.index[k]; }
      }
    }
  }

  lemma AddNodeLists(t: Tree, listed: seq<Control>, key: string, c: Control)
    requires Shape(t) && key !in t.index && Lists(t, listed) && ChildKeys(listed, key) == []
    requires Shape(AddNode(t, key, c))
    ensures Lists(AddNode(t, key, c), listed)
  {
    var u := AddNode(t, key, c);
    forall k | k in u.index ensures Named(u.index, u.children[u.index[k]], ChildKeys(listed, k)) {
      if k != key { assert Named(t.index, t.children[t.index[k]], ChildKeys(listed, k)); }
    }
  }

  lemma AddNodeKeeps(
    t: Tree, families: seq<string>, listed: seq<Control>, seen: seq<Control>, key: string, c: Control)
    requires Sound(t, families, listed, seen) && key !in t.index && key !in families
    requires ChildKeys(listed, key) == [] && Holds(seen, key, c)
    ensures Sound(AddNode(t, key, c), families, listed, seen)
  {
    var u := AddNode(t, key, c);
    AddNodeShape(t, key, c);
    AddNodeLists(t, listed, key, c);
    forall i | |families| <= i < |u.roots| ensures u.roots[i] < |u.children| && Unnamed(u, u.roots[i]) {
      assert Unnamed(t, t.roots[i]);
    }
  }

  lemma LastWithStep(listed: seq<Control>, c: Control, key: string)
    ensures LastWith(listed + [c], key) == if Key(c) == key then Some(c) else LastWith(listed, key)
  {
    assert (listed + [c])[..|listed|] == listed;
  }

  lemma ReplaceKeeps(t: Tree, families: seq<string>, listed: seq<Control>, c: Control)
    requires Sound(t, families, listed, listed) && Key(c) in t.index
    ensures Sound(Replace(t, Key(c), c), families, listed, listed + [c])
  {
    var u := Replace(t, Key(c), c);
    forall x: nat | x < |u.children| && Unnamed(u, x) ensures u.children[x] == [] { assert Unnamed(t, x); }
    forall i | |families| <= i < |u.roots| ensures Unnamed(u, u.roots[i]) { assert Unnamed(t, t.roots[i]); }
    forall k | k in u.index ensures Named(u.index, u.children[u.index[k]], ChildKeys(listed, k)) {
      assert Named(t.index, t.children[t.index[k]], ChildKeys(listed, k));
    }
    forall i | 0 <= i < |families| ensures Key(u.controls[i]) == families[i] {
      if i == t.index[Key(c)] { assert Key(t.controls[i]) == Key(c); }
    }
    forall k | k in u.index ensures Holds(listed + [c], k, u.controls[u.index[k]]) {
      LastWithStep(listed, c, k);
      assert Holds(listed, k, t.controls[t.index[k]]);
    }
  }

  lemma ChildKeysStep(listed: seq<Control>, c: Control, key: string)
    ensures ChildKeys(listed + [c], key)
         == ChildKeys(listed, key) + if c != [] && Key(Parent(c)) == key then [Key(c)] else []
  {
    assert (listed + [c])[..|listed|] == listed;
  }

  lemma PushShape(t: Tree, key: string, x: nat)
    requires Shape(t) && key in t.index
    ensures Shape(PushChild(t, t.index[key], x))
  {
    var u := PushChild(t, t.index[key], x);
    forall y: nat | y < |u.children| && Unnamed(u, y) ensures u.children[y] == [] { assert Unnamed(t, y); }
  }

  lemma PushLists(t: Tree, listed: seq<Control>, c: Control)
    requires Shape(t) && Lists(t, listed) && c != [] && Key(c) in t.index && Key(Parent(c)) in t.index
    requires Shape(PushChild(t, t.index[Key(Parent(c))], t.index[Key(c)]))
    ensures Lists(PushChild(t, t.index[Key(Parent(c))], t.index[Key(c)]), listed + [c])
  {
    var u := PushChild(t, t.index[Key(Parent(c))], t.index[Key(c)]);
    forall k | k in u.index ensures Named(u.index, u.children[u.index[k]], ChildKeys(listed + [c], k)) {
      ChildKeysStep(listed, c, k);
      assert Named(t.index, t.children[t.index[k]], ChildKeys(listed, k));
    }
  }

  lemma PushKeeps(t: Tree, families: seq<string>, listed: seq<Control>, seen: seq<Control>, c: Control)
    requires Sound(t, families, listed, seen) && c != [] && Key(c) in t.index && Key(Parent(c)) in t.index
    ensures Sound(PushChild(t, t.index[Key(Parent(c))], t.index[Key(c)]), families, listed + [c], seen)
  {
    var u := PushChild(t, t.index[Key(Parent(c))], t.index[Key(c)]);
    PushShape(t, Key(Parent(c)), t.index[Key(c)]);
    PushLists(t, listed, c);
    forall i | |families| <= i < |u.roots| ensures Unnamed(u, u.roots[i]) { assert Unnamed(t, t.roots[i]); }
  }

  lemma AddRootKeeps(t: Tree, families: seq<string>, listed: seq<Control>, seen: seq<Control>)
    requires Sound(t, families, listed, seen)
    ensures Sound(AddRoot(t, []), families, listed + [[]], seen)
  {
    var u := AddRoot(t, []);
    forall x: nat | x < |u.children| && Unnamed(u, x) ensures u.children[x] == [] {
      if x < |t.children| { assert Unnamed(t, x); }
    }
    forall k | k in u.index ensures Named(u.index, u.children[u.index[k]], ChildKeys(listed + [[]], k)) {
      ChildKeysStep(listed, [], k);
      assert Named(t.index, t.children[t.index[k]], ChildKeys(listed, k));
    }
    forall i | |families| <= i < |u.roots| ensures u.roots[i] < |u.children| && Unnamed(u, u.roots[i]) {
      if i < |t.roots| { assert Unnamed(t, t.roots[i]); }
    }
  }

  lemma {:induction false} ChildKeysMean(listed: seq<Control>, key: string, k: string)
    ensures k in ChildKeys(listed, key)
       <==> exists c | c in listed :: c != [] && Key(Parent(c)) == key && Key(c) == k
    decreases |listed|
  {
    if listed != [] {
      var front, last := listed[..|listed| - 1], listed[|listed| - 1];
      ChildKeysMean(front, key, k);
      assert forall c :: c in listed <==> c in front || c == last;
    }
  }

  lemma UnknownHasNoChildren(families: seq<string>, listed: seq<Control>, key: string)
    requires !Known(families, listed, key)
    ensures ChildKeys(listed, key) == []
  {
    var ks := ChildKeys(listed, key);
    if ks != [] { ChildKeysMean(listed, key, ks[0]); }
  }

  /** A control met for the first time. */
  lemma AddNewKeeps(t: Tree, families: seq<string>, listed: seq<Control>, c: Control)
    requires Sound(t, families, listed, listed) && Keys(t, families, listed) && Key(c) !in t.index
    ensures Sound(AddNode(t, Key(c), c), families, listed, listed + [c])
  {
    UnknownHasNoChildren(families, listed, Key(c));
    LastWithStep(listed, c, Key(c));
    forall k | k in t.index ensures Holds(listed + [c], k, t.controls[t.index[k]]) {
      LastWithStep(listed, c, k);
      assert Holds(listed, k, t.controls[t.index[k]]);
    }
    AddNodeKeeps(t, families, listed, listed + [c], Key(c), c);
  }

  lemma KeysStep(t: Tree, u: Tree, families: seq<string>, listed: seq<Control>, c: Control)
    requires Keys(t, families, listed)
    requires u.index.Keys == t.index.Keys + {Key(c)} + if c == [] then {} else {Key(Parent(c))}
    ensures Keys(u, families, listed + [c])
  {
    forall key ensures key in u.index <==> Known(families, listed + [c], key) {
      assert key in u.index <==> key in t.index || HasKey(c, key);
      assert forall d :: d in listed + [c] <==> d in listed || d == c;
    }
  }

  /** A node for the parent that has the node `x` for its only child. */
  function AddStub(t: Tree, c: Control, x: nat): Tree
    requires c != []
  {
    Tree(t.controls + [Parent(c)], t.children + [[x]], t.index[Key(Parent(c)) := |t.children|], t.roots)
  }

  lemma StubIsPush(t: Tree, c: Control, x: nat)
    requires c != []
    ensures AddStub(t, c, x) == PushChild(AddNode(t, Key(Parent(c)), Parent(c)), |t.children|, x)
  {
    var n, empty: seq<nat> := |t.children|, [];
    assert empty + [x] == [x];
    assert (t.children + [empty])[n := empty + [x]] == t.children + [[x]];
  }

  lemma UnlistedHasNone(families: seq<string>, listed: seq<Control>, key: string)
    requires !Known(families, listed, key)
    ensures LastWith(listed, key).None?
  {}

  lemma PushKeepsAt(
    t: Tree, families: seq<string>, listed: seq<Control>, seen: seq<Control>, c: Control, p: nat, x: nat)
    requires Sound(t, families, listed, seen) && c != [] && Key(c) in t.index && Key(Parent(c)) in t.index
    requires p == t.index[Key(Parent(c))] && x == t.index[Key(c)]
    ensures Sound(PushChild(t, p, x), families, listed + [c], seen)
  {
    PushKeeps(t, families, listed, seen, c);
  }

  lemma AddStubKeeps(t: Tree, families: seq<string>, listed: seq<Control>, c: Control)
    requires Sound(t, families, listed, listed + [c]) && c != [] && Key(c) in t.index
    requires Key(Parent(c)) !in t.index && !Known(families, listed, Key(Parent(c)))
    ensures Sound(AddStub(t, c, t.index[Key(c)]), families, listed + [c], listed + [c])
  {
    var parentKey, x := Key(Parent(c)), t.index[Key(c)];
    UnknownHasNoChildren(families, listed, parentKey);
    UnlistedHasNone(families, listed, parentKey);
    LastWithStep(listed, c, parentKey);
    AddNodeKeeps(t, families, listed, listed + [c], parentKey, Parent(c));
    StubIsPush(t, c, x);
    PushKeepsAt(AddNode(t, parentKey, Parent(c)), families, listed, listed + [c], c, |t.children|, x);
  }

  /** The tree before any control is added. */
  predicate OnlyFamilies(t: Tree, families: seq<string>) {
    && |t.controls| == |t.children| == |t.roots| == |families|
    && (forall i | 0 <= i < |families| :: t.controls[i] == [families[i]] && t.children[i] == [] && t.roots[i] == i)
    && (forall key | key in t.index :: t.index[key] < |families| && families[t.index[key]] == key)
    && (forall f | f in families :: f in t.index)
  }

  lemma FamiliesBuilt(t: Tree, families: seq<string>)
    requires OnlyFamilies(t, families)
    ensures Built(t, families, [])
  {
    forall key | key in t.index ensures key in families { assert families[t.index[key]] == key; }
  }

  /** How many of the listed controls have no parts. */
  function Rootless(listed: seq<Control>): nat {
    if listed == [] then 0
    else Rootless(listed[..|listed| - 1]) + if listed[|listed| - 1] == [] then 1 else 0
  }

  lemma Longer(listed: seq<Control>, k: nat)
    requires k < |listed|
    ensures listed[..k + 1] == listed[..k] + [listed[k]]
    ensures Rootless(listed[..k + 1]) == Rootless(listed[..k]) + if listed[k] == [] then 1 else 0
  {
    assert listed[..k + 1] == listed[..k] + [listed[k]] && listed[..k + 1][..k] == listed[..k];
  }

  class Hierarchy {
    var controls: seq<Control>
    var children: seq<seq<nat>>
    var index: map<string, nat>
    var roots: seq<nat>

    ghost function State(): Tree
      reads this
    {
      Tree(controls, children, index, roots)
    }

    /** A new node without children. */
    method Register(key: string, c: Control)
      modifies this
      ensures State() == AddNode(old(State()), key, c)
    {
      controls, children, index := controls + [c], children + [[]], index[key := |children|];
    }

    /** The node of the control, made if there is none yet; its control is replaced if there is. */
    method Locate(c: Control, ghost families: seq<string>, ghost listed: seq<Control>) returns (node: nat)
      requires Sound(State(), families, listed, listed) && Keys(State(), families, listed)
      modifies this
      ensures Sound(State(), families, listed, listed + [c])
      ensures index.Keys == old(index.Keys) + {Key(c)} && index[Key(c)] == node && roots == old(roots)
    {
      var key := Key(c);
      if key in index {
        ReplaceKeeps(State(), families, listed, c);
        node := index[key];
        controls := controls[node := c];
      } else {
        AddNewKeeps(State(), families, listed, c);
        node := |children|;
        Register(key, c);
      }
    }

    method PushOnto(p: nat, node: nat)
      requires p < |children|
      modifies this
      ensures State() == PushChild(old(State()), p, node)
    {
      children := children[p := children[p] + [node]];
    }

    /** The node of a parent that is met for the first time. */
    method MakeStub(c: Control, node: nat)
      requires c != []
      modifies this
      ensures State() == AddStub(old(State()), c, node)
    {
      var stub := |children|;
      controls, children, index := controls + [Parent(c)], children + [[node]], index[Key(Parent(c)) := stub];
    }

    /** The node becomes a child of its parent's node; a parent not met so far gets a node of its own,
        which is nobody's child as yet. */
    method Attach(c: Control, node: nat, ghost families: seq<string>, ghost listed: seq<Control>)
      requires c != [] && Sound(State(), families, listed, listed + [c]) && Key(c) in index && index[Key(c)] == node
      requires Key(Parent(c)) in index || !Known(families, listed, Key(Parent(c)))
      modifies this
      ensures Sound(State(), families, listed + [c], listed + [c])
      ensures index.Keys == old(index.Keys) + {Key(Parent(c))} && roots == old(roots)
    {
      var parentKey := Key(Parent(c));
      if parentKey in index {
        PushKeepsAt(State(), families, listed, listed + [c], c, index[parentKey], node);
        PushOnto(index[parentKey], node);
      } else {
        AddStubKeeps(State(), families, listed, c);
        MakeStub(c, node);
      }
    }

    /** A root of its own for a control without parts. */
    method PushRoot(ghost families: seq<string>, ghost listed: seq<Control>)
      requires Sound(State(), families, listed, listed + [[]])
      modifies this
      ensures Sound(State(), families, listed + [[]], listed + [[]]) && index == old(index)
      ensures roots == old(roots) + [|old(children)|] && controls == old(controls) + [[]]
    {
      AddRootKeeps(State(), families, listed, listed + [[]]);
      roots := roots + [|children|];
      controls, children := controls + [[]], children + [[]];
    }

    /** One control of the list. */
    method Add(c: Control, ghost families: seq<string>, ghost listed: seq<Control>)
      requires Built(State(), families, listed)
      modifies this
      ensures Built(State(), families, listed + [c])
      ensures |roots| == |old(roots)| + if c == [] then 1 else 0
    {
      var node := Locate(c, families, listed);
      if c == [] {
        PushRoot(families, listed);
      } else {
        Attach(c, node, families, listed);
      }
      KeysStep(old(State()), State(), families, listed, c);
    }

    /** A root for each family. */
    method AddFamilies(families: seq<string>)
      requires controls == [] && children == [] && roots == [] && index == map[]
      modifies this
      ensures OnlyFamilies(State(), families)
    {
      for i := 0 to |families|
        invariant OnlyFamilies(State(), families[..i])
      {
        index := index[families[i] := i];
        controls, children, roots := controls + [[families[i]]], children + [[]], roots + [i];
      }
      assert families[..|families|] == families;
    }

    method AddAll(families: seq<string>, listed: seq<Control>)
      requires Built(State(), families, [])
      modifies this
      ensures Built(State(), families, listed) && |roots| == |old(roots)| + Rootless(listed)
    {
      assert listed[..0] == [];
      for k := 0 to |listed|
        invariant Built(State(), families, listed[..k]) && |roots| == |old(roots)| + Rootless(listed[..k])
      {
        Add(listed[k], families, listed[..k]);
        Longer(listed, k);
      }
      assert listed[..|listed|] == listed;
    }

    /** The tree of all controls of the list. */
    constructor Generate(families: seq<string>, listed: seq<Control>)
      ensures Built(State(), families, listed) && |roots| == |families| + Rootless(listed)
    {
      controls, children, index, roots := [], [], map[], [];
      new;
      AddFamilies(families);
      FamiliesBuilt(State(), families);
      AddAll(families, listed);
    }
  }

  // ---- What the roots lead to ----

  /** A root leads to the node in at most `n` steps from parent to child. */
  ghost predicate ReachedIn(t: Tree, x: nat, n: nat)
    decreases n
  {
    x in t.roots || (n > 0 && exists p: nat | p < |t.children| && x in t.children[p] :: ReachedIn(t, p, n - 1))
  }

  ghost predicate Reached(t: Tree, x: nat) {
    exists n: nat :: ReachedIn(t, x, n)
  }

  /** From a family, at most `n` listed controls lead to the key, the parent of each having the key of the one
      before. */
  ghost predicate LedToIn(families: seq<string>, listed: seq<Control>, key: string, n: nat)
    decreases n
  {
    key in families
    || (n > 0 && exists c | c in listed ::
          c != [] && Key(c) == key && LedToIn(families, listed, Key(Parent(c)), n - 1))
  }

  ghost predicate LedTo(families: seq<string>, listed: seq<Control>, key: string) {
    exists n: nat :: LedToIn(families, listed, key, n)
  }

  lemma RootsAreFamilies(t: Tree, families: seq<string>, key: string)
    requires Shape(t) && Roots(t, families) && key in t.index
    ensures t.index[key] in t.roots <==> key in families
  {
    if key in families { assert t.roots[t.index[key]] == t.index[key]; }
    forall i | |families| <= i < |t.roots| ensures t.roots[i] != t.index[key] { assert Unnamed(t, t.roots[i]); }
  }

  /** The children of a node are the nodes of the controls listed under its key. */
  lemma ChildrenAreListed(t: Tree, listed: seq<Control>, key: string, parentKey: string)
    requires Shape(t) && Lists(t, listed) && key in t.index && parentKey in t.index
    ensures t.index[key] in t.children[t.index[parentKey]]
       <==> exists c | c in listed :: c != [] && Key(Parent(c)) == parentKey && Key(c) == key
  {
    var xs, keys := t.children[t.index[parentKey]], ChildKeys(listed, parentKey);
    assert Named(t.index, xs, keys);
    ChildKeysMean(listed, parentKey, key);
    if key in keys {
      var j :| 0 <= j < |keys| && keys[j] == key;
      assert xs[j] == t.index[key];
    }
    if t.index[key] in xs {
      var j :| 0 <= j < |xs| && xs[j] == t.index[key];
      assert keys[j] == key;
    }
  }

  lemma {:induction false} ReachedWhereLed(t: Tree, families: seq<string>, listed: seq<Control>, key: string, n: nat)
    requires Built(t, families, listed) && key in t.index
    ensures ReachedIn(t, t.index[key], n) <==> LedToIn(families, listed, key, n)
    decreases n
  {
    var x := t.index[key];
    RootsAreFamilies(t, families, key);
    if n > 0 {
      if p: nat :| p < |t.children| && x in t.children[p] && ReachedIn(t, p, n - 1) {
        assert !Unnamed(t, p);
        var parentKey :| parentKey in t.index && t.index[parentKey] == p;
        ChildrenAreListed(t, listed, key, parentKey);
        ReachedWhereLed(t, families, listed, parentKey, n - 1);
      }
      if c :| c in listed && c != [] && Key(c) == key && LedToIn(families, listed, Key(Parent(c)), n - 1) {
        assert HasKey(c, Key(Parent(c)));
        ChildrenAreListed(t, listed, key, Key(Parent(c)));
        ReachedWhereLed(t, families, listed, Key(Parent(c)), n - 1);
      }
    }
  }

  /** Whatever is listed, in whatever order: the roots lead to the node of a key exactly when some chain of
      listed controls leads from a family to it. Stubs are never attached to anything. */
  lemma ReachedIff(t: Tree, families: seq<string>, listed: seq<Control>, key: string)
    requires Built(t, families, listed) && key in t.index
    ensures Reached(t, t.index[key]) <==> LedTo(families, listed, key)
  {
    forall n: nat ensures ReachedIn(t, t.index[key], n) <==> LedToIn(families, listed, key, n) {
      ReachedWhereLed(t, families, listed, key, n);
    }
  }

  // ---- In terms of prefixes, when no part contains a dash ----

  /** At least a family, and no part with a dash in it. */
  predicate Plain(c: Control) {
    c != [] && c[0] != "" && forall k | 0 <= k < |c| :: '-' !in c[k]
  }

  predicate AllPlain(families: seq<string>, listed: seq<Control>) {
    (forall f | f in families :: f != "" && '-' !in f) && forall c | c in listed :: Plain(c)
  }

  /** The family of the control is one of the families, and all that is left of it by dropping parts from its end,
      down to two parts, is listed. */
  predicate PrefixesListed(families: seq<string>, listed: seq<Control>, c: Control)
    requires c != []
  {
    c[0] in families && forall j | 2 <= j <= |c| :: c[..j] in listed
  }

  lemma {:induction false} KeyHasDash(c: Control)
    requires c != []
    ensures '-' in Key(c) || (|c| == 1 && Key(c) == c[0])
  {}

  /** What precedes and what follows the last dash. */
  lemma LastDash(a: string, b: string, x: string, y: string)
    requires a + "-" + x == b + "-" + y && '-' !in x && '-' !in y
    ensures a == b && x == y
  {
    var s := a + "-" + x;
    assert s[|a|] == '-' && s[|b|] == '-';
    assert forall k | |a| < k < |s| :: s[k] == x[k - |a| - 1];
    assert forall k | |b| < k < |s| :: s[k] == y[k - |b| - 1];
    assert s[..|a|] == a && s[..|b|] == b && s[|a| + 1..] == x && s[|b| + 1..] == y;
  }

  lemma {:induction false} KeysDiffer(c: Control, d: Control)
    requires Plain(c) && Plain(d) && Key(c) == Key(d)
    ensures c == d
    decreases |c|
  {
    KeyHasDash(c);
    KeyHasDash(d);
    if |c| > 1 && |d| > 1 {
      LastDash(Key(Parent(c)), Key(Parent(d)), c[|c| - 1], d[|d| - 1]);
      KeysDiffer(Parent(c), Parent(d));
      assert c == Parent(c) + [c[|c| - 1]] && d == Parent(d) + [d[|d| - 1]];
    } else {
      assert c == [c[0]] && d == [d[0]];
    }
  }

  lemma PrefixesStep(families: seq<string>, listed: seq<Control>, c: Control)
    requires |c| > 1
    ensures PrefixesListed(families, listed, c) <==> PrefixesListed(families, listed, Parent(c)) && c in listed
  {
    var p := Parent(c);
    assert c[..|c|] == c && forall j | 2 <= j <= |p| :: p[..j] == c[..j];
  }

  lemma FamilyHasNoDash(families: seq<string>, c: Control)
    requires Plain(c) && AllPlain(families, [])
    ensures Key(c) in families <==> |c| == 1 && c[0] in families
  {
    KeyHasDash(c);
  }

  lemma {:induction false} LedToPrefixes(families: seq<string>, listed: seq<Control>, c: Control, n: nat)
    requires Plain(c) && AllPlain(families, listed)
    requires LedToIn(families, listed, Key(c), n)
    ensures PrefixesListed(families, listed, c)
    decreases n
  {
    FamilyHasNoDash(families, c);
    if Key(c) !in families {
      var d :| d in listed && d != [] && Key(d) == Key(c) && LedToIn(families, listed, Key(Parent(d)), n - 1);
      KeysDiffer(c, d);
      if |c| > 1 {
        LedToPrefixes(families, listed, Parent(c), n - 1);
        PrefixesStep(families, listed, c);
      } else {
        NothingLedToEmpty(families, listed, n - 1);
      }
    }
  }

  lemma NothingLedToEmpty(families: seq<string>, listed: seq<Control>, n: nat)
    requires AllPlain(families, listed)
    ensures !LedToIn(families, listed, "", n)
  {
    forall c | c in listed ensures Key(c) != "" { KeyHasDash(c); }
  }

  lemma {:induction false} PrefixesLead(families: seq<string>, listed: seq<Control>, c: Control)
    requires c != [] && PrefixesListed(families, listed, c)
    ensures LedToIn(families, listed, Key(c), |c|)
    decreases |c|
  {
    if |c| > 1 {
      PrefixesStep(families, listed, c);
      PrefixesLead(families, listed, Parent(c));
    }
  }

  /** Whatever is listed, in whatever order: the roots lead to the node of a control exactly when its family is
      one of the families, and it and all its proper prefixes from two parts on are listed. */
  lemma ReachedIffPrefixes(t: Tree, families: seq<string>, listed: seq<Control>, c: Control)
    requires Built(t, families, listed) && AllPlain(families, listed) && Plain(c) && Key(c) in t.index
    ensures Reached(t, t.index[Key(c)]) <==> PrefixesListed(families, listed, c)
  {
    ReachedIff(t, families, listed, Key(c));
    if LedTo(families, listed, Key(c)) {
      var n: nat :| LedToIn(families, listed, Key(c), n);
      LedToPrefixes(families, listed, c, n);
    }
    if PrefixesListed(families, listed, c) { PrefixesLead(families, listed, c); }
  }

  /** Nothing listed is lost exactly when each listed control has its family among the families and its proper
      prefixes from two parts on in the list. */
  lemma AllReachedIff(t: Tree, families: seq<string>, listed: seq<Control>)
    requires Built(t, families, listed) && AllPlain(families, listed)
    ensures forall c | c in listed :: Key(c) in t.index
    ensures (forall c | c in listed :: Reached(t, t.index[Key(c)]))
       <==> forall c | c in listed :: PrefixesListed(families, listed, c)
  {
    forall c | c in listed
      ensures Key(c) in t.index && (Reached(t, t.index[Key(c)]) <==> PrefixesListed(families, listed, c))
    {
      assert HasKey(c, Key(c));
      ReachedIffPrefixes(t, families, listed, c);
    }
  }

  /** In another list, a control whose parent is not listed would be lost: the stub made for the parent is
      nobody's child. */
  lemma OrphanNotReached(t: Tree, listed: seq<Control>)
    requires listed == [["AC", "1", "a"]] && Built(t, ["AC"], listed)
    ensures Key(listed[0]) in t.index && !Reached(t, t.index[Key(listed[0])])
  {
    var c := listed[0];
    assert HasKey(c, Key(c));
    ReachedIffPrefixes(t, ["AC"], listed, c);
    assert |c[..2]| == 2;
  }

  lemma {:induction false} CountNamed(index: map<string, nat>, xs: seq<nat>, keys: seq<string>, key: string)
    requires Named(index, xs, keys) && key in index
    requires forall a, b | a in index && b in index :: index[a] == index[b] ==> a == b
    ensures multiset(xs)[index[key]] == multiset(keys)[key]
    decreases |xs|
  {
    if xs != [] {
      var n := |xs| - 1;
      CountNamed(index, xs[..n], keys[..n], key);
      assert xs == xs[..n] + [xs[n]] && keys == keys[..n] + [keys[n]];
      assert index[keys[n]] == xs[n];
    }
  }

  lemma {:induction false} CountChildKeys(listed: seq<Control>, c: Control)
    requires Plain(c) && |c| > 1 && forall d | d in listed :: Plain(d)
    ensures multiset(ChildKeys(listed, Key(Parent(c))))[Key(c)] == multiset(listed)[c]
    decreases |listed|
  {
    if listed != [] {
      var front, last := listed[..|listed| - 1], listed[|listed| - 1];
      CountChildKeys(front, c);
      assert listed == front + [last];
      if Key(last) == Key(c) { KeysDiffer(last, c); }
    }
  }

  /** A control is a child of its parent as often as it is listed. */
  lemma ChildAsOftenAsListed(t: Tree, families: seq<string>, listed: seq<Control>, c: Control)
    requires Built(t, families, listed) && AllPlain(families, listed) && Plain(c) && |c| > 1 && c in listed
    ensures Key(c) in t.index && Key(Parent(c)) in t.index
    ensures multiset(t.children[t.index[Key(Parent(c))]])[t.index[Key(c)]] == multiset(listed)[c]
  {
    assert HasKey(c, Key(c)) && HasKey(c, Key(Parent(c)));
    CountNamed(t.index, t.children[t.index[Key(Parent(c))]], ChildKeys(listed, Key(Parent(c))), Key(c));
    CountChildKeys(listed, c);
  }

  lemma ReachedByKey(t: Tree, families: seq<string>, listed: seq<Control>, c: Control, d: Control)
    requires Built(t, families, listed) && d in listed && Key(c) == Key(d)
    requires d != [] && PrefixesListed(families, listed, d)
    ensures Key(c) in t.index && Reached(t, t.index[Key(c)])
  {
    assert HasKey(d, Key(c));
    PrefixesLead(families, listed, d);
    ReachedIff(t, families, listed, Key(c));
  }

  lemma SharedKey()
    ensures Key(["AC", "1", "2-3"]) == Key(["AC", "1", "2", "3"])
  {
    var a, b, c, d := ["AC", "1"], ["AC", "1", "2-3"], ["AC", "1", "2", "3"], ["AC", "1", "2"];
    assert Parent(a) == ["AC"] && Parent(b) == a && Parent(c) == d && Parent(d) == a;
    assert Key(a) == "AC-1";
    assert Key(b) == "AC-1-2-3";
    assert Key(d) == "AC-1-2";
    assert Key(c) == "AC-1-2-3";
  }

  lemma PrefixesOfThree(families: seq<string>, listed: seq<Control>, d: Control)
    requires |d| == 3 && d[0] in families && d[..2] in listed && d in listed
    ensures PrefixesListed(families, listed, d)
  {
    assert d[..3] == d;
  }

  /** In another list, with a dash inside a part, two controls could share a node: then AC-1 (2)(3) is reached
      without AC-1 (2). */
  lemma SharedNodeReached(t: Tree, listed: seq<Control>)
    requires listed == [["AC", "1"], ["AC", "1", "2-3"], ["AC", "1", "2", "3"]] && Built(t, ["AC"], listed)
    ensures var c := ["AC", "1", "2", "3"];
            c in listed && c[..3] !in listed && Key(c) in t.index && Reached(t, t.index[Key(c)])
  {
    var c, d := listed[2], listed[1];
    SharedKey();
    assert d[..2] == listed[0];
    PrefixesOfThree(["AC"], listed, d);
    ReachedByKey(t, ["AC"], listed, c, d);
    assert c[..3][2] == "2" && d[2] == "2-3" && |d[2]| != |c[..3][2]|;
  }
}
