/** The edits the engine makes to the arena, each shown to keep it well
    formed: creating a component (src/recycle.js:13-307), registering it in its
    parent's table (src/recycle.js:178-179, 374-385), removing it
    (src/recycle.js:244-252) and updating a component's own bookkeeping. */
module TreeEdits {
  import opened Wrappers
  import opened JsValues
  import opened Sequences
  import opened ChildTable
  import opened ComponentTree

  /** The sources every component starts with (src/recycle.js:27-31). */
  function InitialSources(): (m: map<string, Source>)
    ensures m.Keys == {"DOM", "childrenActions", "actions"}
  {
    map["DOM" := DomSelect, "childrenActions" := ChildrenActions, "actions" := ActionBus]
  }

  /** A component as createComponent leaves it: no children, not rendered,
      no DOM subjects yet. */
  function NewNode(ctor: Ctor, key: Key, name: string, parent: Option<NodeId>): Node
  {
    Node(ctor, key, name, parent, [], 0, InitialSources(), map[])
  }

  /** The arena with p's children table replaced. */
  function WithChildren(a: Arena, p: NodeId, t: Table): (b: Arena)
    requires p in a.nodes
    ensures b.next == a.next && b.nodes.Keys == a.nodes.Keys
    ensures b.nodes[p].children == t
    ensures forall x :: x in a.nodes && x != p ==> b.nodes[x] == a.nodes[x]
  {
    Arena(a.nodes[p := a.nodes[p].(children := t)], a.next)
  }

  /** b keeps every node of a with the same identity and the same parent. */
  predicate Extends(a: Arena, b: Arena)
  {
    forall x :: x in a.nodes ==>
      && x in b.nodes
      && b.nodes[x].ctor == a.nodes[x].ctor
      && b.nodes[x].key == a.nodes[x].key
      && b.nodes[x].parent == a.nodes[x].parent
  }

  /** A children table that fits in a still fits in an extension of a. */
  lemma TableFitsTransfer(a: Arena, b: Arena, p: NodeId)
    requires p in a.nodes && p in b.nodes && TableFits(a, p) && Extends(a, b)
    requires b.nodes[p].children == a.nodes[p].children
    ensures TableFits(b, p)
  {
    var t := a.nodes[p].children;
    forall c, n | Lookup(t, c, n).Some? ensures SlotHolds(b, c, n, Lookup(t, c, n).value) {
      assert SlotHolds(a, c, n, Lookup(t, c, n).value);
    }
  }

  /** The node ids an arena is well formed with are below `next`, so the
      next id is in no children table. */
  lemma NextIsNew(a: Arena, p: NodeId)
    requires WellFormed(a) && p in a.nodes
    ensures a.next !in Entries(a.nodes[p].children)
  {
    assert TableFits(a, p);
  }

  /** The arena with n added under the next id. */
  function Created(a: Arena, n: Node): (b: Arena)
    ensures b.next == a.next + 1 && b.nodes == a.nodes[a.next := n]
  {
    Arena(a.nodes[a.next := n], a.next + 1)
  }

  /** Every table still fits after a childless component is added. */
  lemma CreatedTablesFit(a: Arena, n: Node)
    requires WellFormed(a) && n.children == []
    ensures var b := Created(a, n);
      forall id :: id in b.nodes ==> TableFits(b, id)
  {
    var b := Created(a, n);
    assert a.next !in a.nodes;
    assert Extends(a, b);
    forall id | id in b.nodes ensures TableFits(b, id) {
      if id == a.next {
        assert Entries(n.children) == [];
      } else {
        assert TableFits(a, id);
        TableFitsTransfer(a, b, id);
      }
    }
  }

  /** Adding a childless component with the next id keeps the arena well
      formed. */
  lemma CreateKeepsWellFormed(a: Arena, n: Node)
    requires WellFormed(a) && n.children == []
    requires n.parent.Some? ==> n.parent.value in a.nodes
    ensures WellFormed(Created(a, n))
  {
    assert a.next !in a.nodes;
    CreatedTablesFit(a, n);
  }

  /** Replacing a node by one with the same identity, parent and children keeps
      the arena well formed. */
  lemma ReplaceKeepsWellFormed(a: Arena, id: NodeId, n: Node)
    requires WellFormed(a) && id in a.nodes
    requires n.ctor == a.nodes[id].ctor && n.key == a.nodes[id].key
    requires n.parent == a.nodes[id].parent && n.children == a.nodes[id].children
    ensures WellFormed(Arena(a.nodes[id := n], a.next))
  {
    ReplacedTablesFit(a, id, n);
  }

  lemma ReplacedTablesFit(a: Arena, id: NodeId, n: Node)
    requires WellFormed(a) && id in a.nodes
    requires n.ctor == a.nodes[id].ctor && n.key == a.nodes[id].key
    requires n.parent == a.nodes[id].parent && n.children == a.nodes[id].children
    ensures var b := Arena(a.nodes[id := n], a.next);
      forall x :: x in b.nodes ==> TableFits(b, x)
  {
    var b := Arena(a.nodes[id := n], a.next);
    assert Extends(a, b);
    forall x | x in b.nodes ensures TableFits(b, x) {
      assert TableFits(a, x);
      TableFitsTransfer(a, b, x);
    }
  }

  /** Changing only p's children table keeps the arena well formed when the
      new table fits. */
  lemma RetableKeepsWellFormed(a: Arena, p: NodeId, t': Table)
    requires WellFormed(a) && p in a.nodes && TableFits(WithChildren(a, p, t'), p)
    ensures WellFormed(WithChildren(a, p, t'))
  {
    var b := WithChildren(a, p, t');
    assert Extends(a, b);
    forall y | y in b.nodes ensures TableFits(b, y) {
      if y != p {
        assert TableFits(a, y);
        TableFitsTransfer(a, b, y);
      }
    }
  }

  /** Registering a node that is not listed yet lists it once more. */
  lemma RegisterListsOnce(t: Table, c: Ctor, key: Key, x: NodeId, name: string)
    requires Register(t, c, key, x, name).Ok? && Distinct(Entries(t)) && x !in Entries(t)
    ensures var e := Entries(Register(t, c, key, x, name).value);
      Distinct(e) && forall y :: y in e <==> y in Entries(t) || y == x
  {
    RegisterEntries(t, c, key, x, name);
    match GroupIndex(t, c)
    case None =>
      var e := Entries(t);
      assert e + [x] + [] == e + [x] && e + [] == e;
      DistinctInsert(e, x, []);
    case Some(g) =>
      EntriesAround(t, g);
      DistinctInsert(Entries(t[..g + 1]), x, Entries(t[g + 1..]));
  }

  lemma EntriesAround(t: Table, g: nat)
    requires g < |t|
    ensures Entries(t) == Entries(t[..g + 1]) + Entries(t[g + 1..])
  {
    assert t == t[..g + 1] + t[g + 1..];
    EntriesConcat(t[..g + 1], t[g + 1..]);
  }

  /** Registering a component in its parent's table, under its own constructor
      and key, keeps the arena well formed, provided its slot is free and it is
      not registered yet. */
  lemma RegisterKeepsWellFormed(a: Arena, p: NodeId, x: NodeId, ctor: Ctor, key: Key, name: string)
    requires WellFormed(a) && p in a.nodes && x in a.nodes && a.nodes[x].parent == Some(p)
    requires a.nodes[x].ctor == ctor && a.nodes[x].key == key
    requires Lookup(a.nodes[p].children, ctor, PropertyName(key)).None?
    requires x !in Entries(a.nodes[p].children)
    ensures WellFormed(WithChildren(a, p, Register(a.nodes[p].children, ctor, key, x, name).value))
  {
    var t := a.nodes[p].children;
    var t' := Register(t, ctor, key, x, name).value;
    var b := WithChildren(a, p, t');
    assert Extends(a, b);
    assert TableFits(a, p);
    RegisterLookup(t, ctor, key, x, name);
    RegisterListsOnce(t, ctor, key, x, name);
    forall c, m | Lookup(t', c, m).Some? ensures SlotHolds(b, c, m, Lookup(t', c, m).value) {
      if c != ctor || m != PropertyName(key) {
        assert SlotHolds(a, c, m, Lookup(t, c, m).value);
      }
    }
    assert TableFits(b, p);
    RetableKeepsWellFormed(a, p, t');
  }

  /** Removing a slot lists every other node as before and the node in that
      slot no more. */
  lemma RemoveUnlists(t: Table, c: Ctor, key: Key)
    requires ChildTable.Wf(t) && Distinct(Entries(t)) && Remove(t, c, key).Ok?
    ensures var e := Entries(Remove(t, c, key).value);
      && Distinct(e)
      && (forall y :: y in e <==> y in Entries(t) && Lookup(t, c, PropertyName(key)) != Some(y))
  {
    if Lookup(t, c, PropertyName(key)).Some? {
      var k := RemoveEntries(t, c, key);
      DistinctWithout(Entries(t), k);
    } else {
      assert Remove(t, c, key).value == t;
      forall y | y in Entries(t) ensures Lookup(t, c, PropertyName(key)) != Some(y) { }
    }
  }

  /** Removing a slot from a table keeps the arena well formed, and takes the
      component in that slot, and only it, out of the table. */
  lemma RemoveKeepsWellFormed(a: Arena, p: NodeId, c: Ctor, key: Key)
    requires WellFormed(a) && p in a.nodes && Remove(a.nodes[p].children, c, key).Ok?
    ensures var t := a.nodes[p].children;
      var t' := Remove(t, c, key).value;
      && WellFormed(WithChildren(a, p, t'))
      && (forall y :: y in Entries(t') <==> y in Entries(t) && Lookup(t, c, PropertyName(key)) != Some(y))
  {
    var t := a.nodes[p].children;
    var t' := Remove(t, c, key).value;
    var b := WithChildren(a, p, t');
    assert Extends(a, b);
    assert TableFits(a, p);
    RemoveLookup(t, c, key);
    RemoveUnlists(t, c, key);
    forall c', m | Lookup(t', c', m).Some? ensures SlotHolds(b, c', m, Lookup(t', c', m).value) {
      assert SlotHolds(a, c', m, Lookup(t, c', m).value);
    }
    assert TableFits(b, p);
    RetableKeepsWellFormed(a, p, t');
  }

  /** A listed child sits in the slot of its own constructor and key. */
  lemma ListedUnderOwnSlot(a: Arena, p: NodeId, x: NodeId)
    requires WellFormed(a) && p in a.nodes && x in Entries(a.nodes[p].children)
    ensures x in a.nodes
    ensures Lookup(a.nodes[p].children, a.nodes[x].ctor, PropertyName(a.nodes[x].key)) == Some(x)
  {
    var t := a.nodes[p].children;
    assert TableFits(a, p);
    EntriesMember(t, x);
    var c, n :| Lookup(t, c, n) == Some(x);
    assert SlotHolds(a, c, n, x);
  }

  /** Once unlisted from its parent's table, a component hangs below no other
      component. */
  lemma UnlistedDetached(a: Arena, x: NodeId, r: NodeId)
    requires WellFormed(a) && x in a.nodes && r in a.nodes && x != r
    requires a.nodes[x].parent.Some?
    requires x !in Entries(a.nodes[a.nodes[x].parent.value].children)
    ensures x !in PreOrder(a, r)
  {
    PreOrderAttached(a, r, x);
  }

  /** jsxHandler's new child (src/recycle.js:178-179): a component created
      below p with the next id, then registered in p's table. */
  function AddChild(a: Arena, p: NodeId, ctor: Ctor, key: Key, name: string): (b: Arena)
    requires p in a.nodes && Lookup(a.nodes[p].children, ctor, PropertyName(key)).None?
    ensures b.next == a.next + 1 && b.nodes.Keys == a.nodes.Keys + {a.next}
  {
    var c := Created(a, NewNode(ctor, key, name, Some(p)));
    WithChildren(c, p, Register(c.nodes[p].children, ctor, key, a.next, name).value)
  }

  lemma AddChildWellFormed(a: Arena, p: NodeId, ctor: Ctor, key: Key, name: string)
    requires WellFormed(a) && p in a.nodes && Lookup(a.nodes[p].children, ctor, PropertyName(key)).None?
    ensures WellFormed(AddChild(a, p, ctor, key, name))
  {
    var n := NewNode(ctor, key, name, Some(p));
    CreateKeepsWellFormed(a, n);
    NextIsNew(a, p);
    RegisterKeepsWellFormed(Created(a, n), p, a.next, ctor, key, name);
  }

  /** The new child is the only new node; p is the only node whose table
      changes, and it changes by listing the new child, under its
      constructor and key; the arena stays well formed. */
  lemma AddChildFacts(a: Arena, p: NodeId, ctor: Ctor, key: Key, name: string)
    requires WellFormed(a) && p in a.nodes && Lookup(a.nodes[p].children, ctor, PropertyName(key)).None?
    ensures var b := AddChild(a, p, ctor, key, name);
      && WellFormed(b)
      && b.nodes[a.next] == NewNode(ctor, key, name, Some(p))
      && b.nodes[p] == a.nodes[p].(children := b.nodes[p].children)
      && (forall x :: x in a.nodes && x != p ==> b.nodes[x] == a.nodes[x])
      && GetByConstructor(b.nodes[p].children, ctor, key) == Child(a.next)
      && (forall y :: y in Entries(b.nodes[p].children) <==> y in Entries(a.nodes[p].children) || y == a.next)
  {
    AddChildWellFormed(a, p, ctor, key, name);
    NextIsNew(a, p);
    assert TableFits(a, p);
    var t := a.nodes[p].children;
    RegisterThenGet(t, ctor, key, a.next, name);
    RegisterListsOnce(t, ctor, key, a.next, name);
  }
}
