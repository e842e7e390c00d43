/** A component's `children` table (src/recycle.js:16): a Map from constructor
    identity to a plain object from key to child component.

    The Map keeps its constructors in insertion order; each inner object keeps
    its property names in insertion order. The table is therefore a sequence
    of groups, one per constructor, each a sequence of (property name, child)
    slots. Child components are named by their arena id. */
module ChildTable {
  import opened Wrappers
  import opened JsValues
  import opened Errors
  import opened Sequences

  type NodeId = nat
  /** Identity of a component constructor function. */
  type Ctor = nat

  datatype Slot = Slot(name: string, node: NodeId)
  datatype Group = Group(ctor: Ctor, slots: seq<Slot>)
  type Table = seq<Group>

  predicate NamesDistinct(s: seq<Slot>)
  {
    forall i, j :: 0 <= i < j < |s| ==> s[i].name != s[j].name
  }

  /** A Map holds each constructor once; an object holds each name once. */
  predicate Wf(t: Table)
  {
    && (forall i, j :: 0 <= i < j < |t| ==> t[i].ctor != t[j].ctor)
    && (forall i :: 0 <= i < |t| ==> NamesDistinct(t[i].slots))
  }

  /** Position of constructor `c` in the Map (`children.has` / `children.get`). */
  function GroupIndex(t: Table, c: Ctor): (r: Option<nat>)
    ensures r.Some? ==> r.value < |t| && t[r.value].ctor == c
    ensures r.Some? ==> forall j :: 0 <= j < r.value ==> t[j].ctor != c
    ensures r.None? ==> forall j :: 0 <= j < |t| ==> t[j].ctor != c
  {
    if t == [] then None
    else if t[0].ctor == c then Some(0)
    else match GroupIndex(t[1..], c)
      case None => None
      case Some(i) => Some(i + 1)
  }

  /** Position of property `name` in an inner object. */
  function SlotIndex(s: seq<Slot>, name: string): (r: Option<nat>)
    ensures r.Some? ==> r.value < |s| && s[r.value].name == name
    ensures r.Some? ==> forall j :: 0 <= j < r.value ==> s[j].name != name
    ensures r.None? ==> forall j :: 0 <= j < |s| ==> s[j].name != name
  {
    if s == [] then None
    else if s[0].name == name then Some(0)
    else match SlotIndex(s[1..], name)
      case None => None
      case Some(i) => Some(i + 1)
  }

  predicate Has(t: Table, c: Ctor)
  {
    GroupIndex(t, c).Some?
  }

  /** `children.get(c)[name]`, when the constructor has an entry. */
  function Lookup(t: Table, c: Ctor, name: string): Option<NodeId>
  {
    match GroupIndex(t, c)
    case None => None
    case Some(g) =>
      match SlotIndex(t[g].slots, name)
      case None => None
      case Some(s) => Some(t[g].slots[s].node)
  }

  /** In a well-formed table every slot is found by its own constructor and name. */
  lemma LookupAt(t: Table, g: nat, s: nat)
    requires Wf(t) && g < |t| && s < |t[g].slots|
    ensures Lookup(t, t[g].ctor, t[g].slots[s].name) == Some(t[g].slots[s].node)
  {
    var gi := GroupIndex(t, t[g].ctor);
    assert gi == Some(g);
    assert SlotIndex(t[g].slots, t[g].slots[s].name) == Some(s);
  }

  /** What `getByConstructor` can return: `false`, `undefined` or the child. */
  datatype Found = NoConstructor | Missing | Child(node: NodeId)

  /** `getByConstructor` (src/recycle.js:201-203). */
  function GetByConstructor(t: Table, c: Ctor, key: Key): (r: Found)
    ensures r.NoConstructor? <==> !Has(t, c)
    ensures r.Missing? <==> Has(t, c) && Lookup(t, c, PropertyName(key)).None?
    ensures r.Child? <==> Lookup(t, c, PropertyName(key)).Some?
    ensures r.Child? ==> Lookup(t, c, PropertyName(key)) == Some(r.node)
  {
    if !Has(t, c) then NoConstructor
    else match Lookup(t, c, PropertyName(key))
      case None => Missing
      case Some(x) => Child(x)
  }

  /** `registerComponent` (src/recycle.js:374-385): the child goes under its
      constructor and key; an occupied slot throws and changes nothing. A new
      constructor is appended to the Map, a new name to the end of its object. */
  function Register(t: Table, c: Ctor, key: Key, node: NodeId, name: string): (r: Result<Table, Error>)
    ensures r.Err? <==> Lookup(t, c, PropertyName(key)).Some?
    ensures r.Err? ==> r.error == KeyInUse(name, key)
    ensures r.Ok? ==> |r.value| == if Has(t, c) then |t| else |t| + 1
  {
    var pn := PropertyName(key);
    if Lookup(t, c, pn).Some? then Err(KeyInUse(name, key))
    else match GroupIndex(t, c)
      case None => Ok(t + [Group(c, [Slot(pn, node)])])
      case Some(g) => Ok(t[g := Group(c, t[g].slots + [Slot(pn, node)])])
  }

  /** `removeChild` (src/recycle.js:244-252) after its null check: `delete` of
      the (constructor, key) property. A constructor without an entry makes
      `delete undefined[key]` throw; the constructor's entry is kept even when
      its object becomes empty. */
  function Remove(t: Table, c: Ctor, key: Key): (r: Result<Table, Error>)
    ensures r.Err? <==> !Has(t, c)
    ensures r.Err? ==> r.error == TypeError
    ensures r.Ok? ==> |r.value| == |t|
  {
    match GroupIndex(t, c)
    case None => Err(TypeError)
    case Some(g) =>
      match SlotIndex(t[g].slots, PropertyName(key))
      case None => Ok(t)
      case Some(s) => Ok(t[g := Group(c, t[g].slots[..s] + t[g].slots[s + 1..])])
  }

  /** Appending a slot keeps the position of a name already present. */
  lemma SlotIndexAppendKeeps(s: seq<Slot>, x: Slot, n: string)
    requires SlotIndex(s, n).Some?
    ensures SlotIndex(s + [x], n) == SlotIndex(s, n)
  {
    var v := SlotIndex(s, n).value;
    forall m | 0 <= m <= v ensures (s + [x])[m] == s[m] {
    }
    SlotIndexIs(s + [x], n, v);
  }

  /** Appending a slot does not make another absent name present. */
  lemma {:induction false} SlotIndexAppendMisses(s: seq<Slot>, x: Slot, n: string)
    requires SlotIndex(s, n).None? && x.name != n
    ensures SlotIndex(s + [x], n).None?
    decreases |s|
  {
    if s == [] {
      assert [x][1..] == [];
    } else {
      assert (s + [x])[0] == s[0] && (s + [x])[1..] == s[1..] + [x];
      SlotIndexAppendMisses(s[1..], x, n);
    }
  }

  /** An appended slot with a fresh name is found at the end. */
  lemma SlotIndexAppendFinds(s: seq<Slot>, x: Slot)
    requires SlotIndex(s, x.name).None?
    ensures SlotIndex(s + [x], x.name) == Some(|s|)
  {
    forall m | 0 <= m < |s| ensures (s + [x])[m].name != x.name {
      assert (s + [x])[m] == s[m];
    }
    SlotIndexIs(s + [x], x.name, |s|);
  }

  /** Appending a slot with a fresh name keeps every earlier position. */
  lemma SlotIndexAppend(s: seq<Slot>, x: Slot, n: string)
    requires SlotIndex(s, x.name).None?
    ensures SlotIndex(s + [x], n)
         == if SlotIndex(s, n).Some? then SlotIndex(s, n) else if x.name == n then Some(|s|) else None
  {
    if SlotIndex(s, n).Some? {
      SlotIndexAppendKeeps(s, x, n);
    } else if x.name == n {
      SlotIndexAppendFinds(s, x);
    } else {
      SlotIndexAppendMisses(s, x, n);
    }
  }

  /** Only the constructors decide `GroupIndex`. */
  lemma GroupIndexSameCtors(t: Table, t': Table, c: Ctor)
    requires |t| == |t'| && forall i :: 0 <= i < |t| ==> t[i].ctor == t'[i].ctor
    ensures GroupIndex(t', c) == GroupIndex(t, c)
  {
    var a, b := GroupIndex(t, c), GroupIndex(t', c);
    if a.Some? && b.Some? {
      assert a.value <= b.value && b.value <= a.value;
    }
  }

  /** Appending a group with a fresh constructor keeps every earlier position. */
  lemma {:induction false} GroupIndexAppend(t: Table, g: Group, c: Ctor)
    requires GroupIndex(t, g.ctor).None?
    ensures GroupIndex(t + [g], c)
         == if GroupIndex(t, c).Some? then GroupIndex(t, c) else if g.ctor == c then Some(|t|) else None
    decreases |t|
  {
    if t == [] {
      assert [g][1..] == [];
    } else {
      assert (t + [g])[0] == t[0] && (t + [g])[1..] == t[1..] + [g];
      if t[0].ctor != c {
        GroupIndexAppend(t[1..], g, c);
      }
    }
  }

  /** Registering fills exactly the (constructor, key) slot and keeps every
      other lookup; no constructor entry is lost. */
  lemma RegisterLookup(t: Table, c: Ctor, key: Key, node: NodeId, name: string)
    requires Wf(t) && Register(t, c, key, node, name).Ok?
    ensures var t' := Register(t, c, key, node, name).value;
      && Wf(t')
      && Lookup(t', c, PropertyName(key)) == Some(node)
      && (forall c', n' :: c' != c || n' != PropertyName(key) ==> Lookup(t', c', n') == Lookup(t, c', n'))
      && (forall c' :: Has(t', c') <==> Has(t, c') || c' == c)
  {
    var x := Slot(PropertyName(key), node);
    match GroupIndex(t, c)
    case None =>
      AppendGroupLookup(t, Group(c, [x]));
    case Some(g) =>
      assert SlotIndex(t[g].slots, x.name).None?;
      AppendSlotLookup(t, g, x);
  }

  /** A new constructor with one slot: only that slot becomes visible. */
  lemma AppendGroupLookup(t: Table, gr: Group)
    requires Wf(t) && GroupIndex(t, gr.ctor).None? && |gr.slots| == 1
    ensures var t', x := t + [gr], gr.slots[0];
      && Wf(t')
      && Lookup(t', gr.ctor, x.name) == Some(x.node)
      && (forall c', n' :: c' != gr.ctor || n' != x.name ==> Lookup(t', c', n') == Lookup(t, c', n'))
      && (forall c' :: Has(t', c') <==> Has(t, c') || c' == gr.ctor)
  {
    var t', c, x := t + [gr], gr.ctor, gr.slots[0];
    assert gr.slots == [x];
    forall c' ensures GroupIndex(t', c') == if GroupIndex(t, c').Some? then GroupIndex(t, c') else if c == c' then Some(|t|) else None {
      GroupIndexAppend(t, gr, c');
    }
    forall c', n' ensures Lookup(t', c', n') == if c' == c then (if n' == x.name then Some(x.node) else None) else Lookup(t, c', n') {
      match GroupIndex(t, c')
      case Some(g') => assert t'[g'] == t[g'];
      case None =>
    }
  }

  /** A fresh name appended to group g: only that slot becomes visible. */
  lemma AppendSlotLookup(t: Table, g: nat, x: Slot)
    requires Wf(t) && g < |t| && SlotIndex(t[g].slots, x.name).None?
    ensures var c := t[g].ctor;
      var t' := t[g := Group(c, t[g].slots + [x])];
      && Wf(t')
      && Lookup(t', c, x.name) == Some(x.node)
      && (forall c', n' :: c' != c || n' != x.name ==> Lookup(t', c', n') == Lookup(t, c', n'))
      && (forall c' :: Has(t', c') <==> Has(t, c'))
  {
    var c, slots := t[g].ctor, t[g].slots;
    var t' := t[g := Group(c, slots + [x])];
    assert GroupIndex(t, c) == Some(g);
    AppendSlotDistinct(slots, x);
    forall n' ensures SlotIndex(slots + [x], n')
       == if SlotIndex(slots, n').Some? then SlotIndex(slots, n') else if x.name == n' then Some(|slots|) else None {
      SlotIndexAppend(slots, x, n');
    }
    forall c' ensures GroupIndex(t', c') == GroupIndex(t, c') {
      GroupIndexSameCtors(t, t', c');
    }
    forall c', n' ensures Lookup(t', c', n') == if c' == c && n' == x.name then Some(x.node) else Lookup(t, c', n') {
      match GroupIndex(t, c')
      case None =>
      case Some(g') =>
        if g' != g { assert t'[g'] == t[g']; }
    }
  }

  lemma AppendSlotDistinct(slots: seq<Slot>, x: Slot)
    requires NamesDistinct(slots) && SlotIndex(slots, x.name).None?
    ensures NamesDistinct(slots + [x])
  {
    forall i, j | 0 <= i < j < |slots + [x]| ensures (slots + [x])[i].name != (slots + [x])[j].name {
      if j == |slots| { assert (slots + [x])[i] == slots[i]; }
      else { assert (slots + [x])[i] == slots[i] && (slots + [x])[j] == slots[j]; }
    }
  }

  /** Dropping a slot keeps the remaining names distinct. */
  lemma DistinctRemove(s: seq<Slot>, k: nat)
    requires NamesDistinct(s) && k < |s|
    ensures NamesDistinct(s[..k] + s[k + 1..])
  {
    var r := s[..k] + s[k + 1..];
    assert forall i :: 0 <= i < |r| ==> r[i] == s[if i < k then i else i + 1];
  }

  /** The dropped name is no longer found. */
  lemma SlotIndexRemoveGone(s: seq<Slot>, k: nat)
    requires NamesDistinct(s) && k < |s|
    ensures SlotIndex(s[..k] + s[k + 1..], s[k].name).None?
  {
    var r := s[..k] + s[k + 1..];
    assert forall i :: 0 <= i < |r| ==> r[i] == s[if i < k then i else i + 1];
  }

  /** The first slot carrying the name is the one found. */
  lemma SlotIndexIs(s: seq<Slot>, n: string, v: nat)
    requires v < |s| && s[v].name == n && forall m :: 0 <= m < v ==> s[m].name != n
    ensures SlotIndex(s, n) == Some(v)
  {
    var r := SlotIndex(s, n);
    assert r.Some?;
    assert r.value <= v && v <= r.value;
  }

  /** A name absent before a removal stays absent. */
  lemma SlotIndexRemoveMiss(s: seq<Slot>, k: nat, n: string)
    requires k < |s| && SlotIndex(s, n).None?
    ensures SlotIndex(s[..k] + s[k + 1..], n).None?
  {
    var r := s[..k] + s[k + 1..];
    assert forall i :: 0 <= i < k ==> r[i] == s[i];
    assert forall i :: k <= i < |r| ==> r[i] == s[i + 1];
  }

  /** A name found at j != k is found at j, or at j - 1 past k. */
  lemma SlotIndexRemoveHit(s: seq<Slot>, k: nat, n: string, j: nat)
    requires k < |s| && SlotIndex(s, n) == Some(j) && j != k
    ensures SlotIndex(s[..k] + s[k + 1..], n) == Some(if j < k then j else j - 1)
  {
    var r := s[..k] + s[k + 1..];
    var j' := if j < k then j else j - 1;
    assert r[j'] == s[j];
    forall m | 0 <= m < j' ensures r[m].name != n {
      if m < k {
        assert r[m] == s[m];
      } else {
        assert r[m] == s[m + 1];
      }
    }
    SlotIndexIs(r, n, j');
  }

  /** Every other name keeps its position, shifted down past k. */
  lemma SlotIndexRemoveShift(s: seq<Slot>, k: nat, n: string)
    requires k < |s| && n != s[k].name
    ensures SlotIndex(s[..k] + s[k + 1..], n) ==
      match SlotIndex(s, n)
      case None => None
      case Some(j) => Some(if j < k then j else j - 1)
  {
    match SlotIndex(s, n)
    case None =>
      SlotIndexRemoveMiss(s, k, n);
    case Some(j) =>
      SlotIndexRemoveHit(s, k, n, j);
  }

  /** Dropping the slot at k shifts the later positions down by one. */
  lemma SlotIndexRemove(s: seq<Slot>, k: nat, n: string)
    requires NamesDistinct(s) && k < |s|
    ensures var r := s[..k] + s[k + 1..];
      && NamesDistinct(r)
      && SlotIndex(r, n) == if n == s[k].name then None else
           match SlotIndex(s, n)
           case None => None
           case Some(j) => Some(if j < k then j else j - 1)
  {
    DistinctRemove(s, k);
    if n == s[k].name {
      SlotIndexRemoveGone(s, k);
    } else {
      SlotIndexRemoveShift(s, k, n);
    }
  }

  /** Removing empties exactly the (constructor, key) slot and keeps every
      other lookup and every constructor entry. */
  lemma RemoveLookup(t: Table, c: Ctor, key: Key)
    requires Wf(t) && Remove(t, c, key).Ok?
    ensures var t' := Remove(t, c, key).value;
      && Wf(t')
      && Lookup(t', c, PropertyName(key)).None?
      && (forall c', n' :: c' != c || n' != PropertyName(key) ==> Lookup(t', c', n') == Lookup(t, c', n'))
      && (forall c' :: Has(t', c') <==> Has(t, c'))
  {
    var pn := PropertyName(key);
    var t' := Remove(t, c, key).value;
    var g := GroupIndex(t, c).value;
    var slots := t[g].slots;
    match SlotIndex(slots, pn)
    case None =>
    case Some(k) =>
      var rest := slots[..k] + slots[k + 1..];
      forall n' ensures NamesDistinct(rest) && SlotIndex(rest, n') == if n' == pn then None else
           match SlotIndex(slots, n')
           case None => None
           case Some(j) => Some(if j < k then j else j - 1) {
        SlotIndexRemove(slots, k, n');
      }
      forall c' ensures GroupIndex(t', c') == GroupIndex(t, c') {
        GroupIndexSameCtors(t, t', c');
      }
      forall c', n' ensures Lookup(t', c', n') == if c' == c && n' == pn then None else Lookup(t, c', n') {
        match GroupIndex(t, c')
        case None =>
        case Some(g') =>
          if g' != g {
            assert t'[g'] == t[g'];
          } else {
            match SlotIndex(slots, n')
            case None =>
            case Some(j) =>
              if j != k {
                assert rest[if j < k then j else j - 1] == slots[j];
              }
          }
      }
  }

  /** `getChildren`'s order: constructors in Map order, each object's names in
      insertion order. */
  function SlotNodes(s: seq<Slot>): seq<NodeId>
  {
    seq(|s|, i requires 0 <= i < |s| => s[i].node)
  }

  function Entries(t: Table): seq<NodeId>
  {
    if t == [] then [] else Entries(t[..|t| - 1]) + SlotNodes(t[|t| - 1].slots)
  }

  /** The number of registered children, constructor by constructor. */
  function Count(t: Table): nat
  {
    if t == [] then 0 else |t[0].slots| + Count(t[1..])
  }

  lemma {:induction false} EntriesConcat(a: Table, b: Table)
    ensures Entries(a + b) == Entries(a) + Entries(b)
    decreases |b|
  {
    if b == [] {
      assert a + b == a;
    } else {
      var b', l := b[..|b| - 1], b[|b| - 1];
      assert (a + b)[..|a + b| - 1] == a + b' && (a + b)[|a + b| - 1] == l;
      assert Entries(a + b) == Entries(a + b') + SlotNodes(l.slots);
      EntriesConcat(a, b');
      assert Entries(b) == Entries(b') + SlotNodes(l.slots);
      AppendAssoc(Entries(a), Entries(b'), SlotNodes(l.slots));
    }
  }

  /** `getChildren` returns as many children as there are registered slots. */
  lemma {:induction false} EntriesCount(t: Table)
    ensures |Entries(t)| == Count(t)
    decreases |t|
  {
    if t != [] {
      assert t == [t[0]] + t[1..];
      EntriesConcat([t[0]], t[1..]);
      assert Entries([t[0]]) == SlotNodes(t[0].slots) by {
        assert [t[0]][..0] == [];
      }
      EntriesCount(t[1..]);
    }
  }

  /** The child of slot s of group g sits at a known position of `Entries`. */
  lemma EntriesSplit(t: Table, g: nat)
    requires g < |t|
    ensures Entries(t) == Entries(t[..g]) + SlotNodes(t[g].slots) + Entries(t[g + 1..])
  {
    var p, q := t[..g + 1], t[g + 1..];
    assert t == p + q;
    EntriesConcat(p, q);
    assert p[..|p| - 1] == t[..g] && p[|p| - 1] == t[g];
    assert Entries(p) == Entries(t[..g]) + SlotNodes(t[g].slots);
  }

  lemma EntryAt(t: Table, g: nat, s: nat)
    requires g < |t| && s < |t[g].slots|
    ensures t[g].slots[s].node in Entries(t)
  {
    EntriesSplit(t, g);
    assert SlotNodes(t[g].slots)[s] == t[g].slots[s].node;
  }

  lemma {:induction false} EntryIndex(t: Table, x: NodeId) returns (g: nat, s: nat)
    requires x in Entries(t)
    ensures g < |t| && s < |t[g].slots| && t[g].slots[s].node == x
    decreases |t|
  {
    var last := t[|t| - 1];
    if x in SlotNodes(last.slots) {
      g := |t| - 1;
      s :| 0 <= s < |last.slots| && SlotNodes(last.slots)[s] == x;
    } else {
      g, s := EntryIndex(t[..|t| - 1], x);
    }
  }

  /** `getChildren` lists a node exactly when some (constructor, key) slot holds it. */
  lemma EntriesMember(t: Table, x: NodeId)
    requires Wf(t)
    ensures x in Entries(t) <==> exists c, n :: Lookup(t, c, n) == Some(x)
  {
    if x in Entries(t) {
      var g, s := EntryIndex(t, x);
      LookupAt(t, g, s);
    }
    if exists c, n :: Lookup(t, c, n) == Some(x) {
      var c, n :| Lookup(t, c, n) == Some(x);
      var g := GroupIndex(t, c).value;
      var s := SlotIndex(t[g].slots, n).value;
      EntryAt(t, g, s);
    }
  }

  lemma SlotNodesAppend(s: seq<Slot>, x: Slot)
    ensures SlotNodes(s + [x]) == SlotNodes(s) + [x.node]
  {
    assert forall i :: 0 <= i < |s| ==> (s + [x])[i] == s[i];
  }

  lemma SlotNodesRemove(s: seq<Slot>, k: nat)
    requires k < |s|
    ensures var sn := SlotNodes(s);
      SlotNodes(s[..k] + s[k + 1..]) == sn[..k] + sn[k + 1..]
  {
    var r := s[..k] + s[k + 1..];
    assert forall i :: 0 <= i < |r| ==> r[i] == s[if i < k then i else i + 1];
  }

  /** The entries of a prefix that ends with group g. */
  lemma EntriesThrough(t: Table, g: nat)
    requires g < |t|
    ensures Entries(t[..g + 1]) == Entries(t[..g]) + SlotNodes(t[g].slots)
  {
    var p := t[..g + 1];
    assert p[..|p| - 1] == t[..g] && p[|p| - 1] == t[g];
  }

  /** A child of a new constructor goes to the very end of the entries. */
  lemma RegisterEntriesNew(t: Table, c: Ctor, pn: string, node: NodeId)
    ensures Entries(t + [Group(c, [Slot(pn, node)])]) == Entries(t) + [node]
  {
    var t' := t + [Group(c, [Slot(pn, node)])];
    EntriesThrough(t', |t|);
    assert t'[..|t|] == t && t'[..|t|  + 1] == t';
  }

  /** A child of a known constructor goes right after that constructor's group. */
  lemma RegisterEntriesOld(t: Table, g: nat, x: Slot)
    requires g < |t|
    ensures Entries(t[g := Group(t[g].ctor, t[g].slots + [x])])
         == Entries(t[..g + 1]) + [x.node] + Entries(t[g + 1..])
  {
    var t' := t[g := Group(t[g].ctor, t[g].slots + [x])];
    EntriesSplit(t', g);
    EntriesThrough(t, g);
    assert t'[..g] == t[..g] && t'[g + 1..] == t[g + 1..];
    SlotNodesAppend(t[g].slots, x);
  }

  /** Registering adds the child right after its constructor's group, or at the
      very end for a new constructor: `getChildren` stays grouped by constructor
      in insertion order. */
  lemma RegisterEntries(t: Table, c: Ctor, key: Key, node: NodeId, name: string)
    requires Register(t, c, key, node, name).Ok?
    ensures var e := Entries(Register(t, c, key, node, name).value);
      match GroupIndex(t, c)
      case None => e == Entries(t) + [node]
      case Some(g) => e == Entries(t[..g + 1]) + [node] + Entries(t[g + 1..])
  {
    var pn := PropertyName(key);
    match GroupIndex(t, c)
    case None =>
      RegisterEntriesNew(t, c, pn, node);
    case Some(g) =>
      RegisterEntriesOld(t, g, Slot(pn, node));
  }

  /** Dropping slot s of group g drops one position of the entries. */
  lemma EntriesDropSlot(t: Table, g: nat, s: nat)
    requires g < |t| && s < |t[g].slots|
    ensures var e, k := Entries(t), |Entries(t[..g])| + s;
      var slots := t[g].slots;
      && k < |e| && e[k] == slots[s].node
      && Entries(t[g := Group(t[g].ctor, slots[..s] + slots[s + 1..])]) == e[..k] + e[k + 1..]
  {
    var slots := t[g].slots;
    var t' := t[g := Group(t[g].ctor, slots[..s] + slots[s + 1..])];
    EntriesSplit(t, g);
    EntriesSplit(t', g);
    assert t'[..g] == t[..g] && t'[g + 1..] == t[g + 1..];
    SlotNodesRemove(slots, s);
    SliceAround(Entries(t[..g]), SlotNodes(slots), Entries(t[g + 1..]), s);
  }

  /** Removing a registered child drops exactly its one position from
      `getChildren`. */
  lemma RemoveEntries(t: Table, c: Ctor, key: Key) returns (k: nat)
    requires Wf(t) && Lookup(t, c, PropertyName(key)).Some?
    ensures Remove(t, c, key).Ok?
    ensures var e := Entries(t);
      && k < |e| && Lookup(t, c, PropertyName(key)) == Some(e[k])
      && Entries(Remove(t, c, key).value) == e[..k] + e[k + 1..]
  {
    var g := GroupIndex(t, c).value;
    var s := SlotIndex(t[g].slots, PropertyName(key)).value;
    EntriesDropSlot(t, g, s);
    k := |Entries(t[..g])| + s;
  }

  /** A registered child is found again under its constructor and key. */
  lemma RegisterThenGet(t: Table, c: Ctor, key: Key, node: NodeId, name: string)
    requires Wf(t) && Register(t, c, key, node, name).Ok?
    ensures GetByConstructor(Register(t, c, key, node, name).value, c, key) == Child(node)
  {
    RegisterLookup(t, c, key, node, name);
  }

  /** A second registration under a key with the same property name throws,
      whatever the second node (registerComponent's test). */
  lemma RegisterTwiceFails(t: Table, c: Ctor, k1: Key, k2: Key, n1: NodeId, n2: NodeId, name1: string, name2: string)
    requires Wf(t) && Register(t, c, k1, n1, name1).Ok?
    requires PropertyName(k1) == PropertyName(k2)
    ensures Register(Register(t, c, k1, n1, name1).value, c, k2, n2, name2) == Err(KeyInUse(name2, k2))
  {
    RegisterLookup(t, c, k1, n1, name1);
  }

  /** After a removal the key is unused again: `getByConstructor` yields
      `undefined`, never `false`, because the constructor entry survives. */
  lemma RemoveThenGet(t: Table, c: Ctor, key: Key, k2: Key)
    requires Wf(t) && Remove(t, c, key).Ok? && PropertyName(k2) == PropertyName(key)
    ensures GetByConstructor(Remove(t, c, key).value, c, k2) == Missing
  {
    RemoveLookup(t, c, key);
  }

  /** Removing the only slot of a just-appended constructor leaves it empty. */
  lemma RemoveAppended(t: Table, c: Ctor, key: Key, node: NodeId)
    requires !Has(t, c)
    ensures Remove(t + [Group(c, [Slot(PropertyName(key), node)])], c, key) == Ok(t + [Group(c, [])])
  {
    var x := Slot(PropertyName(key), node);
    var t' := t + [Group(c, [x])];
    GroupIndexAppend(t, Group(c, [x]), c);
    assert SlotIndex([x], PropertyName(key)) == Some(0);
    assert [x][..0] + [x][1..] == [];
    assert t'[|t| := Group(c, [])] == t + [Group(c, [])];
  }

  /** Removing a slot just appended to group g restores the table. */
  lemma RemoveLastSlot(t: Table, g: nat, key: Key, node: NodeId)
    requires g < |t| && GroupIndex(t, t[g].ctor) == Some(g)
    requires SlotIndex(t[g].slots, PropertyName(key)).None?
    ensures var x := Slot(PropertyName(key), node);
      Remove(t[g := Group(t[g].ctor, t[g].slots + [x])], t[g].ctor, key) == Ok(t)
  {
    var c, slots, pn := t[g].ctor, t[g].slots, PropertyName(key);
    var x := Slot(pn, node);
    var t' := t[g := Group(c, slots + [x])];
    GroupIndexSameCtors(t, t', c);
    SlotIndexAppendFinds(slots, x);
    var rest := (slots + [x])[..|slots|] + (slots + [x])[|slots| + 1..];
    assert rest == slots;
    assert Remove(t', c, key) == Ok(t'[g := Group(c, rest)]);
    assert t'[g := Group(c, rest)] == t;
  }

  /** Register then remove restores the table, except that a constructor seen
      for the first time keeps an empty entry. */
  lemma RegisterThenRemove(t: Table, c: Ctor, key: Key, node: NodeId, name: string)
    requires Wf(t) && Register(t, c, key, node, name).Ok?
    ensures Remove(Register(t, c, key, node, name).value, c, key)
         == Ok(if Has(t, c) then t else t + [Group(c, [])])
  {
    match GroupIndex(t, c)
    case None =>
      RemoveAppended(t, c, key, node);
    case Some(g) =>
      assert SlotIndex(t[g].slots, PropertyName(key)).None?;
      RemoveLastSlot(t, g, key, node);
  }
}
