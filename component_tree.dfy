/** The component tree as an arena: every component created by
    `createComponent` (src/recycle.js:13-307) is a node with an integer id; its
    parent back-reference and its children table hold ids. Ids are handed out
    in creation order, and a child is always created after its parent, so
    children carry larger ids than their parent: this is what makes the
    whole-tree walks of src/recycle.js:387-426 terminate. */
module ComponentTree {
  import opened Wrappers
  import opened JsValues
  import opened Sequences
  import opened ChildTable

  /** What a name on a component's sources object holds (src/recycle.js:27-31).
      `FalsyValue` stands for a null, undefined, false, 0 or empty source. */
  datatype Source = DomSelect | ChildrenActions | ActionBus | Supplied(handle: nat) | FalsyValue

  /** The per-component state that the engine itself keeps. `dom` is the
      `domNodes` table: selector, then event name, then the id of the Subject
      that carries that event. */
  datatype Node = Node(
    ctor: Ctor,
    key: Key,
    name: string,
    parent: Option<NodeId>,
    children: Table,
    timesRendered: nat,
    sources: map<string, Source>,
    dom: map<string, map<string, nat>>)

  /** All components ever created, and the next id to hand out. */
  datatype Arena = Arena(nodes: map<NodeId, Node>, next: NodeId)

  /** The slot (c, n) may hold x: x was built by constructor c with a key
      whose property name is n. */
  predicate SlotHolds(a: Arena, c: Ctor, n: string, x: NodeId)
  {
    x in a.nodes && a.nodes[x].ctor == c && PropertyName(a.nodes[x].key) == n
  }

  /** The children table of p lists existing nodes whose parent is p, each
      once, each under its own constructor and key. */
  ghost predicate TableFits(a: Arena, p: NodeId)
    requires p in a.nodes
  {
    var t := a.nodes[p].children;
    && ChildTable.Wf(t)
    && Distinct(Entries(t))
    && (forall x {:trigger x in Entries(t)} :: x in Entries(t) ==> x in a.nodes && a.nodes[x].parent == Some(p))
    && (forall c, n :: Lookup(t, c, n).Some? ==> SlotHolds(a, c, n, Lookup(t, c, n).value))
  }

  ghost predicate WellFormed(a: Arena)
  {
    && (forall id :: id in a.nodes ==> id < a.next)
    && (forall id {:trigger a.nodes[id]} :: id in a.nodes && a.nodes[id].parent.Some? ==>
          a.nodes[id].parent.value in a.nodes && a.nodes[id].parent.value < id)
    && (forall id {:trigger TableFits(a, id)} :: id in a.nodes ==> TableFits(a, id))
  }

  /** `getChildren` of node id. */
  function Kids(a: Arena, id: NodeId): (cs: seq<NodeId>)
    requires WellFormed(a) && id in a.nodes
    ensures Distinct(cs)
    ensures forall i :: 0 <= i < |cs| ==> cs[i] in a.nodes && id < cs[i] && a.nodes[cs[i]].parent == Some(id)
  {
    assert TableFits(a, id);
    var cs := Entries(a.nodes[id].children);
    assert forall i :: 0 <= i < |cs| ==> cs[i] in cs;
    cs
  }

  /** The order `getAllComponents` (src/recycle.js:387-401) visits the subtree
      of id in: the node, then the subtrees of its children in `getChildren`
      order. */
  function PreOrder(a: Arena, id: NodeId): (r: seq<NodeId>)
    requires WellFormed(a) && id in a.nodes
    ensures |r| >= 1 && r[0] == id
    ensures forall x :: x in r ==> x in a.nodes && id <= x
    decreases a.next - id, 1
  {
    [id] + Forest(a, id, Kids(a, id))
  }

  function Forest(a: Arena, p: NodeId, cs: seq<NodeId>): (r: seq<NodeId>)
    requires WellFormed(a) && p in a.nodes
    requires forall i :: 0 <= i < |cs| ==> cs[i] in a.nodes && p < cs[i]
    ensures forall x :: x in r ==> x in a.nodes && p < x
    decreases a.next - p, 0, |cs|
  {
    if cs == [] then [] else PreOrder(a, cs[0]) + Forest(a, p, cs[1..])
  }

  /** y hangs below r by registered links: following parent references from y
      reaches r, and every node on the way is listed in its parent's table. */
  predicate Attached(a: Arena, y: NodeId, r: NodeId)
    requires WellFormed(a) && y in a.nodes
    decreases y
  {
    y == r ||
    match a.nodes[y].parent
    case None => false
    case Some(q) => y in Entries(a.nodes[q].children) && Attached(a, q, r)
  }

  /** The ancestor of y (y itself included) whose parent is p, if any. */
  function Up(a: Arena, y: NodeId, p: NodeId): Option<NodeId>
    requires WellFormed(a) && y in a.nodes
    decreases y
  {
    match a.nodes[y].parent
    case None => None
    case Some(q) => if q == p then Some(y) else Up(a, q, p)
  }

  lemma {:induction false} AttachedAbove(a: Arena, y: NodeId, r: NodeId)
    requires WellFormed(a) && y in a.nodes && Attached(a, y, r)
    ensures r <= y
    decreases y
  {
    if y != r {
      AttachedAbove(a, a.nodes[y].parent.value, r);
    }
  }

  lemma {:induction false} AttachedTrans(a: Arena, y: NodeId, c: NodeId, r: NodeId)
    requires WellFormed(a) && y in a.nodes && c in a.nodes
    requires Attached(a, y, c) && Attached(a, c, r)
    ensures Attached(a, y, r)
    decreases y
  {
    if y != c {
      AttachedTrans(a, a.nodes[y].parent.value, c, r);
    }
  }

  /** Below a child c of p, the way up to p always passes through c. */
  lemma {:induction false} UpThrough(a: Arena, y: NodeId, c: NodeId, p: NodeId)
    requires WellFormed(a) && y in a.nodes && c in a.nodes && a.nodes[c].parent == Some(p)
    requires Attached(a, y, c)
    ensures Up(a, y, p) == Some(c)
    decreases y
  {
    if y != c {
      var q := a.nodes[y].parent.value;
      AttachedAbove(a, q, c);
      UpThrough(a, q, c, p);
    }
  }

  /** A child's subtree starts with the child. */
  lemma {:induction false} ForestContains(a: Arena, p: NodeId, cs: seq<NodeId>, i: nat)
    requires WellFormed(a) && p in a.nodes && (forall i :: 0 <= i < |cs| ==> cs[i] in a.nodes && p < cs[i])
    requires i < |cs|
    ensures cs[i] in Forest(a, p, cs)
    decreases i
  {
    if i > 0 {
      ForestContains(a, p, cs[1..], i - 1);
    }
  }

  /** Every node of a forest lies in the subtree of one of its roots. */
  lemma {:induction false} ForestMember(a: Arena, p: NodeId, cs: seq<NodeId>, y: NodeId) returns (k: nat)
    requires WellFormed(a) && p in a.nodes && (forall i :: 0 <= i < |cs| ==> cs[i] in a.nodes && p < cs[i])
    requires y in Forest(a, p, cs)
    ensures k < |cs| && y in PreOrder(a, cs[k])
    decreases |cs|
  {
    if y in PreOrder(a, cs[0]) {
      k := 0;
    } else {
      var k' := ForestMember(a, p, cs[1..], y);
      k := k' + 1;
    }
  }

  /** The subtree of any node x of the subtree of r is one contiguous block of
      PreOrder(r): x comes before all of its descendants, and they follow it
      without interruption. */
  lemma {:induction false} PreOrderBlock(a: Arena, r: NodeId, x: NodeId) returns (pre: seq<NodeId>, post: seq<NodeId>)
    requires WellFormed(a) && r in a.nodes && x in PreOrder(a, r)
    ensures x in a.nodes && PreOrder(a, r) == pre + PreOrder(a, x) + post
    decreases a.next - r, 1
  {
    if x == r {
      pre, post := [], [];
    } else {
      var pre', post' := ForestBlock(a, r, Kids(a, r), x);
      pre, post := [r] + pre', post';
    }
  }

  lemma {:induction false} ForestBlock(a: Arena, p: NodeId, cs: seq<NodeId>, x: NodeId) returns (pre: seq<NodeId>, post: seq<NodeId>)
    requires WellFormed(a) && p in a.nodes && (forall i :: 0 <= i < |cs| ==> cs[i] in a.nodes && p < cs[i])
    requires x in Forest(a, p, cs)
    ensures x in a.nodes && Forest(a, p, cs) == pre + PreOrder(a, x) + post
    decreases a.next - p, 0, |cs|, 1
  {
    if x in PreOrder(a, cs[0]) {
      pre, post := HeadBlock(a, p, cs, x);
    } else {
      pre, post := TailBlock(a, p, cs, x);
    }
  }

  lemma {:induction false} HeadBlock(a: Arena, p: NodeId, cs: seq<NodeId>, x: NodeId) returns (pre: seq<NodeId>, post: seq<NodeId>)
    requires WellFormed(a) && p in a.nodes && (forall i :: 0 <= i < |cs| ==> cs[i] in a.nodes && p < cs[i])
    requires cs != [] && x in PreOrder(a, cs[0])
    ensures x in a.nodes && Forest(a, p, cs) == pre + PreOrder(a, x) + post
    decreases a.next - p, 0, |cs|, 0
  {
    var tail := Forest(a, p, cs[1..]);
    assert Forest(a, p, cs) == PreOrder(a, cs[0]) + tail;
    var pre', post' := PreOrderBlock(a, cs[0], x);
    pre, post := pre', post' + tail;
    AppendAssoc(pre' + PreOrder(a, x), post', tail);
  }

  lemma {:induction false} TailBlock(a: Arena, p: NodeId, cs: seq<NodeId>, x: NodeId) returns (pre: seq<NodeId>, post: seq<NodeId>)
    requires WellFormed(a) && p in a.nodes && (forall i :: 0 <= i < |cs| ==> cs[i] in a.nodes && p < cs[i])
    requires cs != [] && x in Forest(a, p, cs) && x !in PreOrder(a, cs[0])
    ensures x in a.nodes && Forest(a, p, cs) == pre + PreOrder(a, x) + post
    decreases a.next - p, 0, |cs|, 0
  {
    var head, rest := PreOrder(a, cs[0]), cs[1..];
    assert Forest(a, p, cs) == head + Forest(a, p, rest);
    assert x in Forest(a, p, rest);
    var pre', post' := ForestBlock(a, p, rest, x);
    pre, post := head + pre', post';
    AppendAssoc(head, pre' + PreOrder(a, x), post');
    AppendAssoc(head, pre', PreOrder(a, x));
  }

  /** What getAllComponents lists is attached below the root ... */
  lemma {:induction false} PreOrderAttached(a: Arena, r: NodeId, y: NodeId)
    requires WellFormed(a) && r in a.nodes && y in a.nodes
    ensures y in PreOrder(a, r) ==> Attached(a, y, r)
    decreases a.next - r
  {
    if y in PreOrder(a, r) && y != r {
      var cs := Kids(a, r);
      var k := ForestMember(a, r, cs, y);
      PreOrderAttached(a, cs[k], y);
      assert Attached(a, cs[k], r);
      AttachedTrans(a, y, cs[k], r);
    }
  }

  /** ... and everything attached below the root is listed. */
  lemma {:induction false} AttachedPreOrder(a: Arena, r: NodeId, y: NodeId)
    requires WellFormed(a) && r in a.nodes && y in a.nodes
    ensures Attached(a, y, r) ==> y in PreOrder(a, r)
    decreases y
  {
    if Attached(a, y, r) && y != r {
      var q := a.nodes[y].parent.value;
      AttachedPreOrder(a, r, q);
      var cs := Kids(a, q);
      var i :| 0 <= i < |cs| && cs[i] == y;
      ForestContains(a, q, cs, i);
      var pre, post := PreOrderBlock(a, r, q);
    }
  }

  /** getAllComponents lists exactly the components attached below the root. */
  lemma PreOrderExactly(a: Arena, r: NodeId, y: NodeId)
    requires WellFormed(a) && r in a.nodes && y in a.nodes
    ensures y in PreOrder(a, r) <==> Attached(a, y, r)
  {
    PreOrderAttached(a, r, y);
    AttachedPreOrder(a, r, y);
  }

  /** A node of the subtree of a child c of p reaches p through c. */
  lemma InSubtree(a: Arena, p: NodeId, c: NodeId, y: NodeId)
    requires WellFormed(a) && c in a.nodes && a.nodes[c].parent == Some(p) && y in a.nodes
    ensures y in PreOrder(a, c) ==> Up(a, y, p) == Some(c)
  {
    if y in PreOrder(a, c) {
      PreOrderAttached(a, c, y);
      UpThrough(a, y, c, p);
    }
  }

  lemma {:induction false} ForestUp(a: Arena, p: NodeId, cs: seq<NodeId>, y: NodeId)
    requires WellFormed(a) && p in a.nodes && y in a.nodes
    requires forall i :: 0 <= i < |cs| ==> cs[i] in a.nodes && p < cs[i] && a.nodes[cs[i]].parent == Some(p)
    ensures y in Forest(a, p, cs) ==> Up(a, y, p).Some? && Up(a, y, p).value in cs
    decreases |cs|
  {
    if cs != [] {
      InSubtree(a, p, cs[0], y);
      ForestUp(a, p, cs[1..], y);
    }
  }

  /** getAllComponents lists no component twice. */
  lemma {:induction false} PreOrderDistinct(a: Arena, r: NodeId)
    requires WellFormed(a) && r in a.nodes
    ensures Distinct(PreOrder(a, r))
    decreases a.next - r, 1
  {
    var cs := Kids(a, r);
    ForestDistinct(a, r, cs);
    DistinctConcat([r], Forest(a, r, cs));
  }

  lemma {:induction false} ForestDistinct(a: Arena, p: NodeId, cs: seq<NodeId>)
    requires WellFormed(a) && p in a.nodes && Distinct(cs)
    requires forall i :: 0 <= i < |cs| ==> cs[i] in a.nodes && p < cs[i] && a.nodes[cs[i]].parent == Some(p)
    ensures Distinct(Forest(a, p, cs))
    decreases a.next - p, 0, |cs|
  {
    if cs != [] {
      var rest := cs[1..];
      assert Distinct(rest);
      assert cs[0] !in rest;
      PreOrderDistinct(a, cs[0]);
      ForestDistinct(a, p, rest);
      forall y | y in PreOrder(a, cs[0]) ensures y !in Forest(a, p, rest) {
        InSubtree(a, p, cs[0], y);
        ForestUp(a, p, rest, y);
      }
      DistinctConcat(PreOrder(a, cs[0]), Forest(a, p, rest));
    }
  }

  /** The tree snapshot of getComponentStructure (src/recycle.js:403-426). */
  datatype Structure = Structure(component: NodeId, name: string, children: seq<Structure>)

  function StructureOf(a: Arena, id: NodeId): (s: Structure)
    requires WellFormed(a) && id in a.nodes
    ensures s.component == id && s.name == a.nodes[id].name
    decreases a.next - id, 1
  {
    Structure(id, a.nodes[id].name, Substructures(a, id, Kids(a, id)))
  }

  function Substructures(a: Arena, p: NodeId, cs: seq<NodeId>): (ss: seq<Structure>)
    requires WellFormed(a) && p in a.nodes
    requires forall i :: 0 <= i < |cs| ==> cs[i] in a.nodes && p < cs[i]
    ensures |ss| == |cs| && forall i :: 0 <= i < |cs| ==> ss[i].component == cs[i]
    decreases a.next - p, 0, |cs|
  {
    if cs == [] then [] else [StructureOf(a, cs[0])] + Substructures(a, p, cs[1..])
  }

  /** The components of a structure, parent before children. */
  function Flatten(s: Structure): seq<NodeId>
    decreases s, 1
  {
    [s.component] + FlattenAll(s.children)
  }

  function FlattenAll(ss: seq<Structure>): seq<NodeId>
    decreases ss, 0
  {
    if ss == [] then [] else Flatten(ss[0]) + FlattenAll(ss[1..])
  }

  /** getComponentStructure and getAllComponents describe the same tree:
      flattening the structure gives getAllComponents' order. */
  lemma {:induction false} StructureFlattens(a: Arena, id: NodeId)
    requires WellFormed(a) && id in a.nodes
    ensures Flatten(StructureOf(a, id)) == PreOrder(a, id)
    decreases a.next - id, 1
  {
    SubstructuresFlatten(a, id, Kids(a, id));
  }

  lemma {:induction false} SubstructuresFlatten(a: Arena, p: NodeId, cs: seq<NodeId>)
    requires WellFormed(a) && p in a.nodes
    requires forall i :: 0 <= i < |cs| ==> cs[i] in a.nodes && p < cs[i]
    ensures FlattenAll(Substructures(a, p, cs)) == Forest(a, p, cs)
    decreases a.next - p, 0, |cs|
  {
    if cs != [] {
      var ss := Substructures(a, p, cs);
      assert ss[0] == StructureOf(a, cs[0]) && ss[1..] == Substructures(a, p, cs[1..]);
      StructureFlattens(a, cs[0]);
      SubstructuresFlatten(a, p, cs[1..]);
    }
  }

  /** Walking two runs of children one after the other. */
  lemma {:induction false} ForestConcat(a: Arena, p: NodeId, xs: seq<NodeId>, ys: seq<NodeId>)
    requires WellFormed(a) && p in a.nodes
    requires forall i :: 0 <= i < |xs| ==> xs[i] in a.nodes && p < xs[i]
    requires forall i :: 0 <= i < |ys| ==> ys[i] in a.nodes && p < ys[i]
    ensures Forest(a, p, xs + ys) == Forest(a, p, xs) + Forest(a, p, ys)
    decreases |xs|
  {
    if xs == [] {
      assert xs + ys == ys;
    } else {
      assert (xs + ys)[1..] == xs[1..] + ys;
      ForestConcat(a, p, xs[1..], ys);
    }
  }

  lemma {:induction false} SubstructuresConcat(a: Arena, p: NodeId, xs: seq<NodeId>, ys: seq<NodeId>)
    requires WellFormed(a) && p in a.nodes
    requires forall i :: 0 <= i < |xs| ==> xs[i] in a.nodes && p < xs[i]
    requires forall i :: 0 <= i < |ys| ==> ys[i] in a.nodes && p < ys[i]
    ensures Substructures(a, p, xs + ys) == Substructures(a, p, xs) + Substructures(a, p, ys)
    decreases |xs|
  {
    if xs == [] {
      assert xs + ys == ys;
    } else {
      assert (xs + ys)[1..] == xs[1..] + ys;
      SubstructuresConcat(a, p, xs[1..], ys);
    }
  }

  /** One more child walked. */
  lemma ForestStep(a: Arena, p: NodeId, cs: seq<NodeId>, i: nat)
    requires WellFormed(a) && p in a.nodes && i < |cs|
    requires forall j :: 0 <= j < |cs| ==> cs[j] in a.nodes && p < cs[j]
    ensures Forest(a, p, cs[..i + 1]) == Forest(a, p, cs[..i]) + PreOrder(a, cs[i])
  {
    assert cs[..i + 1] == cs[..i] + [cs[i]];
    ForestSnoc(a, p, cs[..i], cs[i]);
  }

  /** One more child walked, after what was listed before. */
  lemma ForestExtend(a: Arena, p: NodeId, cs: seq<NodeId>, i: nat, head: seq<NodeId>)
    requires WellFormed(a) && p in a.nodes && i < |cs|
    requires forall j :: 0 <= j < |cs| ==> cs[j] in a.nodes && p < cs[j]
    ensures head + Forest(a, p, cs[..i + 1]) == head + Forest(a, p, cs[..i]) + PreOrder(a, cs[i])
  {
    ForestStep(a, p, cs, i);
    AppendAssoc(head, Forest(a, p, cs[..i]), PreOrder(a, cs[i]));
  }

  lemma ForestSnoc(a: Arena, p: NodeId, xs: seq<NodeId>, c: NodeId)
    requires WellFormed(a) && p in a.nodes && c in a.nodes && p < c
    requires forall j :: 0 <= j < |xs| ==> xs[j] in a.nodes && p < xs[j]
    ensures Forest(a, p, xs + [c]) == Forest(a, p, xs) + PreOrder(a, c)
  {
    ForestConcat(a, p, xs, [c]);
    assert [c][1..] == [];
  }

  /** One more child's structure built. */
  lemma SubstructuresStep(a: Arena, p: NodeId, cs: seq<NodeId>, i: nat)
    requires WellFormed(a) && p in a.nodes && i < |cs|
    requires forall j :: 0 <= j < |cs| ==> cs[j] in a.nodes && p < cs[j]
    ensures Substructures(a, p, cs[..i + 1]) == Substructures(a, p, cs[..i]) + [StructureOf(a, cs[i])]
  {
    assert cs[..i + 1] == cs[..i] + [cs[i]];
    SubstructuresSnoc(a, p, cs[..i], cs[i]);
  }

  lemma SubstructuresSnoc(a: Arena, p: NodeId, xs: seq<NodeId>, c: NodeId)
    requires WellFormed(a) && p in a.nodes && c in a.nodes && p < c
    requires forall j :: 0 <= j < |xs| ==> xs[j] in a.nodes && p < xs[j]
    ensures Substructures(a, p, xs + [c]) == Substructures(a, p, xs) + [StructureOf(a, c)]
  {
    SubstructuresConcat(a, p, xs, [c]);
    assert [c][1..] == [];
  }
}
