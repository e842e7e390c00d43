/** The engine the factory of src/recycle.js:1-372 returns, reduced to the
    state it keeps: every component created so far (the closures of
    createComponent become one node each, see ComponentTree.Node), the next
    id to hand out, the root component and the number of DOM Subjects made
    so far. Each state-changing operation is a step function on that state
    (what the operation returns and the state after it); the class Recycle
    at the end holds the state in fields and performs the steps. */
module Engine {
  import opened Wrappers
  import opened JsValues
  import opened Errors
  import opened Sequences
  import opened ChildTable
  import opened ComponentTree
  import opened TreeEdits

  datatype EngineState = EngineState(arena: Arena, root: Option<NodeId>, subjects: nat)

  /** What an operation returns, and the state it leaves. */
  datatype Step<T> = Step(result: T, after: EngineState)

  /** The error jsxHandler throws when a child is met again during the
      first render: which one depends on whether the child's key is falsy. */
  function DuplicateCall(child: Node): Error
  {
    if Falsy(child.key) then CalledWithoutKey(child.name) else CalledWithSameKey(child.name, child.key)
  }

  /** A source holding a value `componentSources[name]` is truthy for. */
  predicate Truthy(s: Source)
  {
    !s.FalsyValue?
  }

  /** The three sources every component is created with are still there. */
  predicate BuiltInSources(m: map<string, Source>)
  {
    && "DOM" in m && m["DOM"] == DomSelect
    && "childrenActions" in m && m["childrenActions"] == ChildrenActions
    && "actions" in m && m["actions"] == ActionBus
  }

  predicate SubjectsBelow(d: map<string, map<string, nat>>, bound: nat)
  {
    forall s, e :: s in d && e in d[s] ==> d[s][e] < bound
  }

  /** A component keeps its three built-in sources, and its DOM Subjects
      are numbered below the number of Subjects made. */
  predicate NodeOk(n: Node, subjects: nat)
  {
    BuiltInSources(n.sources) && SubjectsBelow(n.dom, subjects)
  }

  /** There is at most one parentless component and it is the root
      (createComponent throws for a second one). */
  ghost predicate SingleRoot(s: EngineState)
  {
    && (s.root.Some? ==> s.root.value in s.arena.nodes && s.arena.nodes[s.root.value].parent.None?)
    && (forall id {:trigger s.arena.nodes[id]} :: id in s.arena.nodes && s.arena.nodes[id].parent.None? ==> s.root == Some(id))
  }

  ghost predicate NodesOk(s: EngineState)
  {
    forall id {:trigger s.arena.nodes[id]} :: id in s.arena.nodes ==> NodeOk(s.arena.nodes[id], s.subjects)
  }

  /** The invariant of the engine: the arena is well formed, there is one
      root, and every component is as NodeOk says. */
  ghost predicate Inv(s: EngineState)
  {
    WellFormed(s.arena) && SingleRoot(s) && NodesOk(s)
  }

  /** The `domNodes` table after `events(event)` on `select(selector)` made a
      Subject for a pair that had none (src/recycle.js:313-319). */
  function AddEvent(d: map<string, map<string, nat>>, selector: string, event: string, subject: nat)
    : (d': map<string, map<string, nat>>)
    ensures selector in d' && event in d'[selector] && d'[selector][event] == subject
    ensures forall s :: s in d && s != selector ==> s in d' && d'[s] == d[s]
    ensures selector in d ==> forall e :: e in d[selector] && e != event ==> e in d'[selector] && d'[selector][e] == d[selector][e]
    ensures d'.Keys == d.Keys + {selector}
  {
    d[selector := (if selector in d then d[selector] else map[])[event := subject]]
  }

  /** The state with component id replaced by n and the Subject count set
      to subjects'. */
  function WithNode(s: EngineState, id: NodeId, n: Node, subjects': nat): EngineState
  {
    EngineState(Arena(s.arena.nodes[id := n], s.arena.next), s.root, subjects')
  }

  function WithArena(s: EngineState, a: Arena): EngineState
  {
    EngineState(a, s.root, s.subjects)
  }

  /** A component after one more render. */
  function Rendered(n: Node): Node
  {
    n.(timesRendered := n.timesRendered + 1)
  }

  /** A component after `componentSources[name] = source`. */
  function WithSource(n: Node, name: string, source: Source): Node
  {
    n.(sources := n.sources[name := source])
  }

  /** A component with a new `domNodes` table. */
  function WithDom(n: Node, d: map<string, map<string, nat>>): Node
  {
    n.(dom := d)
  }

  /** n takes m's place in the tree: same constructor, key, parent and
      children. */
  predicate SamePlace(m: Node, n: Node)
  {
    m.ctor == n.ctor && m.key == n.key && m.parent == n.parent && m.children == n.children
  }

  lemma NodeOkLater(n: Node, subjects: nat, subjects': nat)
    requires NodeOk(n, subjects) && subjects <= subjects'
    ensures NodeOk(n, subjects')
  {
  }

  /** A component replaced by one with the same place in the tree, which
      is as NodeOk says for the (new) Subject count, keeps Inv. */
  lemma InvReplace(s: EngineState, id: NodeId, n: Node, subjects': nat)
    requires Inv(s) && id in s.arena.nodes && s.subjects <= subjects'
    requires SamePlace(s.arena.nodes[id], n) && NodeOk(n, subjects')
    ensures Inv(WithNode(s, id, n, subjects'))
  {
    ReplaceKeepsWellFormed(s.arena, id, n);
    NodesOkReplace(s, id, n, subjects');
  }

  lemma NodesOkReplace(s: EngineState, id: NodeId, n: Node, subjects': nat)
    requires NodesOk(s) && s.subjects <= subjects' && NodeOk(n, subjects')
    ensures NodesOk(WithNode(s, id, n, subjects'))
  {
    var b := WithNode(s, id, n, subjects').arena;
    forall x | x in b.nodes ensures NodeOk(b.nodes[x], subjects') {
      if x != id {
        NodeOkLater(s.arena.nodes[x], s.subjects, subjects');
      }
    }
  }

  // ---------------------------------------------------------------- createComponent

  /** createComponent (src/recycle.js:13-307): a new component with the
      next id, whose key is `props.key` or null without props; a component
      without a parent becomes the root, unless there is one already, in
      which case it throws (src/recycle.js:299-303). */
  function CreateStep(s: EngineState, ctor: Ctor, props: Option<Props>, name: string, parent: Option<NodeId>)
    : Step<Result<NodeId, Error>>
  {
    if parent.None? && s.root.Some? then Step(Err(RootAlreadySet), s)
    else
      var n := NewNode(ctor, ComponentKey(props), name, parent);
      Step(Ok(s.arena.next), EngineState(Created(s.arena, n), if parent.None? then Some(s.arena.next) else s.root, s.subjects))
  }

  lemma CreateKeepsInv(s: EngineState, ctor: Ctor, props: Option<Props>, name: string, parent: Option<NodeId>)
    requires Inv(s) && (parent.Some? ==> parent.value in s.arena.nodes)
    ensures Inv(CreateStep(s, ctor, props, name, parent).after)
  {
    if !(parent.None? && s.root.Some?) {
      var n := NewNode(ctor, ComponentKey(props), name, parent);
      CreateKeepsWellFormed(s.arena, n);
      var root' := if parent.None? then Some(s.arena.next) else s.root;
      CreatedNodesOk(s, n, root');
      CreatedSingleRoot(s, n, root');
    }
  }

  lemma NewNodeOk(ctor: Ctor, key: Key, name: string, parent: Option<NodeId>, subjects: nat)
    ensures NodeOk(NewNode(ctor, key, name, parent), subjects)
  {
  }

  lemma CreatedNodesOk(s: EngineState, n: Node, root': Option<NodeId>)
    requires NodesOk(s) && n == NewNode(n.ctor, n.key, n.name, n.parent)
    ensures NodesOk(EngineState(Created(s.arena, n), root', s.subjects))
  {
    NewNodeOk(n.ctor, n.key, n.name, n.parent, s.subjects);
  }

  lemma CreatedSingleRoot(s: EngineState, n: Node, root': Option<NodeId>)
    requires SingleRoot(s) && (forall id :: id in s.arena.nodes ==> id < s.arena.next)
    requires n.parent.None? ==> s.root.None?
    requires root' == if n.parent.None? then Some(s.arena.next) else s.root
    ensures SingleRoot(EngineState(Created(s.arena, n), root', s.subjects))
  {
    assert s.arena.next !in s.arena.nodes;
  }

  /** A new component gets an id no component had, with the given parent
      and key, and every existing component stays as it was. */
  lemma CreateFresh(s: EngineState, ctor: Ctor, props: Option<Props>, name: string, parent: Option<NodeId>)
    requires Inv(s)
    ensures var st := CreateStep(s, ctor, props, name, parent);
      st.result.Ok? ==>
        && st.result.value !in s.arena.nodes && st.result.value in st.after.arena.nodes
        && st.after.arena.nodes[st.result.value].parent == parent
        && st.after.arena.nodes[st.result.value].key == ComponentKey(props)
        && forall x :: x in s.arena.nodes ==> x in st.after.arena.nodes && st.after.arena.nodes[x] == s.arena.nodes[x]
  {
    assert s.arena.next !in s.arena.nodes;
  }

  /** There is one root: after a parentless component is created it is
      the only parentless component, and creating another throws and
      changes nothing. */
  lemma RootOnce(s: EngineState, ctor: Ctor, props: Option<Props>, name: string,
                 ctor': Ctor, props': Option<Props>, name': string)
    requires Inv(s)
    ensures var first := CreateStep(s, ctor, props, name, None);
      first.result.Ok? ==>
        && first.after.root == Some(first.result.value)
        && (forall x :: x in first.after.arena.nodes && first.after.arena.nodes[x].parent.None? ==> x == first.result.value)
        && CreateStep(first.after, ctor', props', name', None) == Step(Err(RootAlreadySet), first.after)
  {
    CreateKeepsInv(s, ctor, props, name, None);
  }

  // ---------------------------------------------------------------- render

  /** The `render` of a component's React class (src/recycle.js:143-147)
      counts the render; what the view returns is left out. */
  function RenderStep(s: EngineState, id: NodeId): EngineState
    requires id in s.arena.nodes
  {
    WithNode(s, id, Rendered(s.arena.nodes[id]), s.subjects)
  }

  lemma RenderKeepsInv(s: EngineState, id: NodeId)
    requires Inv(s) && id in s.arena.nodes
    ensures Inv(RenderStep(s, id))
  {
    var n := s.arena.nodes[id];
    assert NodeOk(n, s.subjects);
    InvReplace(s, id, Rendered(n), s.subjects);
  }

  // ---------------------------------------------------------------- jsxHandler

  /** jsxHandler of component p called with a Recycle constructor
      (src/recycle.js:156-181): the child already registered under the
      constructor and key is reused, except during p's first render, where
      meeting it again throws; otherwise a child is created and
      registered. */
  function JsxStep(s: EngineState, p: NodeId, ctor: Ctor, props: Option<Props>, name: string)
    : Step<Result<NodeId, Error>>
    requires Inv(s) && p in s.arena.nodes
  {
    var key := ChildProps(props).key;
    var n := s.arena.nodes[p];
    match GetByConstructor(n.children, ctor, key)
    case Child(x) =>
      assert TableFits(s.arena, p);
      if n.timesRendered == 1 then Step(Err(DuplicateCall(s.arena.nodes[x])), s) else Step(Ok(x), s)
    case _ => Step(Ok(s.arena.next), WithArena(s, AddChild(s.arena, p, ctor, key, name)))
  }

  lemma JsxKeepsInv(s: EngineState, p: NodeId, ctor: Ctor, props: Option<Props>, name: string)
    requires Inv(s) && p in s.arena.nodes
    ensures Inv(JsxStep(s, p, ctor, props, name).after)
  {
    var key := ChildProps(props).key;
    if GetByConstructor(s.arena.nodes[p].children, ctor, key).Child? {
      assert JsxStep(s, p, ctor, props, name).after == s;
    } else {
      assert JsxStep(s, p, ctor, props, name).after == WithArena(s, AddChild(s.arena, p, ctor, key, name));
      InvAddChild(s, p, ctor, key, name);
    }
  }

  lemma InvAddChild(s: EngineState, p: NodeId, ctor: Ctor, key: Key, name: string)
    requires Inv(s) && p in s.arena.nodes && Lookup(s.arena.nodes[p].children, ctor, PropertyName(key)).None?
    ensures Inv(WithArena(s, AddChild(s.arena, p, ctor, key, name)))
  {
    var n := NewNode(ctor, key, name, Some(p));
    var s1 := EngineState(Created(s.arena, n), s.root, s.subjects);
    CreateKeepsWellFormed(s.arena, n);
    CreatedNodesOk(s, n, s.root);
    CreatedSingleRoot(s, n, s.root);
    AddChildWellFormed(s.arena, p, ctor, key, name);
    InvRetable(s1, p, Register(s1.arena.nodes[p].children, ctor, key, s.arena.next, name).value);
  }

  /** A child that jsxHandler returns is a child of p, registered under the
      constructor and key; an error changes nothing; p's render count is
      untouched. */
  lemma JsxFacts(s: EngineState, p: NodeId, ctor: Ctor, props: Option<Props>, name: string)
    requires Inv(s) && p in s.arena.nodes
    ensures var st := JsxStep(s, p, ctor, props, name);
      && Inv(st.after)
      && (st.result.Err? ==> st.after == s)
      && p in st.after.arena.nodes
      && st.after.arena.nodes[p].timesRendered == s.arena.nodes[p].timesRendered
      && (st.result.Ok? ==>
            && st.result.value in Kids(st.after.arena, p)
            && GetByConstructor(st.after.arena.nodes[p].children, ctor, ChildProps(props).key) == Child(st.result.value))
  {
    JsxKeepsInv(s, p, ctor, props, name);
    var key := ChildProps(props).key;
    var st := JsxStep(s, p, ctor, props, name);
    if GetByConstructor(s.arena.nodes[p].children, ctor, key).Child? {
      if st.result.Ok? {
        EntriesLookup(s.arena, p, ctor, PropertyName(key));
      }
    } else {
      AddChildFacts(s.arena, p, ctor, key, name);
    }
  }

  lemma EntriesLookup(a: Arena, p: NodeId, c: Ctor, m: string)
    requires WellFormed(a) && p in a.nodes && Lookup(a.nodes[p].children, c, m).Some?
    ensures Lookup(a.nodes[p].children, c, m).value in Kids(a, p)
  {
    var t := a.nodes[p].children;
    assert TableFits(a, p);
    EntriesMember(t, Lookup(t, c, m).value);
  }

  /** During p's first render, meeting a constructor again with the same key
      (as a property name) throws the duplicate-call error for the child
      the first meeting returned (src/recycle.js:164-171). */
  lemma RepeatOnFirstRenderThrows(s: EngineState, p: NodeId, ctor: Ctor, props: Option<Props>, name: string,
                                  props': Option<Props>, name': string)
    requires Inv(s) && p in s.arena.nodes && s.arena.nodes[p].timesRendered == 1
    requires PropertyName(ChildProps(props).key) == PropertyName(ChildProps(props').key)
    ensures var first := JsxStep(s, p, ctor, props, name);
      first.result.Ok? ==>
        && Inv(first.after) && p in first.after.arena.nodes
        && first.result.value in first.after.arena.nodes
        && JsxStep(first.after, p, ctor, props', name').result
             == Err(DuplicateCall(first.after.arena.nodes[first.result.value]))
  {
    JsxFacts(s, p, ctor, props, name);
  }

  /** After the first render the same constructor and key give back the
      same child, and nothing changes (src/recycle.js:172). */
  lemma LaterRenderReuses(s: EngineState, p: NodeId, ctor: Ctor, props: Option<Props>, name: string,
                          props': Option<Props>, name': string)
    requires Inv(s) && p in s.arena.nodes && s.arena.nodes[p].timesRendered != 1
    requires PropertyName(ChildProps(props).key) == PropertyName(ChildProps(props').key)
    ensures var first := JsxStep(s, p, ctor, props, name);
      first.result.Ok? ==>
        && Inv(first.after) && p in first.after.arena.nodes
        && JsxStep(first.after, p, ctor, props', name') == Step(first.result, first.after)
  {
    JsxFacts(s, p, ctor, props, name);
  }

  /** A child constructor met twice without a key during a component's
      first render: the first meeting creates the child, the second throws
      the keyless error (src/recycle.js:165-170). */
  lemma KeylessRepeatThrows(s: EngineState, p: NodeId, ctor: Ctor, name: string)
    requires Inv(s) && p in s.arena.nodes
    requires s.arena.nodes[p].timesRendered == 0 && s.arena.nodes[p].children == []
    ensures var s1 := RenderStep(s, p);
      && Inv(s1) && p in s1.arena.nodes
      && var first := JsxStep(s1, p, ctor, None, name);
      && first.result == Ok(s.arena.next)
      && Inv(first.after) && p in first.after.arena.nodes
      && JsxStep(first.after, p, ctor, None, name).result == Err(CalledWithoutKey(name))
  {
    var s1 := RenderStep(s, p);
    RenderKeepsInv(s, p);
    var first := JsxStep(s1, p, ctor, None, name);
    assert !Has(s1.arena.nodes[p].children, ctor);
    JsxFacts(s1, p, ctor, None, name);
    RepeatOnFirstRenderThrows(s1, p, ctor, None, name, None, name);
    AddChildFacts(s1.arena, p, ctor, ChildProps(None).key, name);
  }

  // ---------------------------------------------------------------- removeChild and unmounting

  /** removeChild of component p (src/recycle.js:244-252): nothing for no
      component; a TypeError when p's table has no entry for the
      component's constructor; otherwise its slot is emptied. */
  function RemoveChildStep(s: EngineState, p: NodeId, c: Option<NodeId>): Step<Outcome<Error>>
    requires p in s.arena.nodes && (c.Some? ==> c.value in s.arena.nodes)
  {
    if c.None? then Step(Pass, s)
    else
      var x := s.arena.nodes[c.value];
      match Remove(s.arena.nodes[p].children, x.ctor, x.key)
      case Err(e) => Step(Fail(e), s)
      case Ok(t) => Step(Pass, WithArena(s, WithChildren(s.arena, p, t)))
  }

  lemma RemoveChildKeepsInv(s: EngineState, p: NodeId, c: Option<NodeId>)
    requires Inv(s) && p in s.arena.nodes && (c.Some? ==> c.value in s.arena.nodes)
    ensures Inv(RemoveChildStep(s, p, c).after)
  {
    if c.Some? {
      var x := s.arena.nodes[c.value];
      var rm := Remove(s.arena.nodes[p].children, x.ctor, x.key);
      if rm.Ok? {
        RemoveKeepsWellFormed(s.arena, p, x.ctor, x.key);
        InvRetable(s, p, rm.value);
      }
    }
  }

  lemma InvRetable(s: EngineState, p: NodeId, t: Table)
    requires Inv(s) && p in s.arena.nodes && WellFormed(WithChildren(s.arena, p, t))
    ensures Inv(WithArena(s, WithChildren(s.arena, p, t)))
  {
    RetableNodesOk(s, p, t);
    RetableSingleRoot(s, p, t);
  }

  lemma RetableNodesOk(s: EngineState, p: NodeId, t: Table)
    requires NodesOk(s) && p in s.arena.nodes
    ensures NodesOk(WithArena(s, WithChildren(s.arena, p, t)))
  {
    var b := WithChildren(s.arena, p, t);
    forall x | x in b.nodes ensures NodeOk(b.nodes[x], s.subjects) {
      assert NodeOk(s.arena.nodes[x], s.subjects);
    }
  }

  lemma RetableSingleRoot(s: EngineState, p: NodeId, t: Table)
    requires SingleRoot(s) && p in s.arena.nodes
    ensures SingleRoot(WithArena(s, WithChildren(s.arena, p, t)))
  {
    var b := WithChildren(s.arena, p, t);
    forall x | x in b.nodes && b.nodes[x].parent.None? ensures s.root == Some(x) {
      assert s.arena.nodes[x].parent.None?;
    }
  }

  /** removeChild fails, with a TypeError and no change, exactly when p has
      no entry for the component's constructor. */
  lemma RemoveChildFails(s: EngineState, p: NodeId, c: Option<NodeId>)
    requires p in s.arena.nodes && (c.Some? ==> c.value in s.arena.nodes)
    ensures var st := RemoveChildStep(s, p, c);
      && (st.result.Fail? <==> c.Some? && !Has(s.arena.nodes[p].children, s.arena.nodes[c.value].ctor))
      && (st.result.Fail? ==> st == Step(Fail(TypeError), s))
  {
  }

  /** removeChild deletes by key, not by identity: p loses exactly the child
      in the slot of c's constructor and key, whichever component that is,
      and gains none. So c is no child of p afterwards, and when c was p's
      child it is the only one p loses. */
  lemma RemoveChildUnlists(s: EngineState, p: NodeId, c: NodeId)
    requires Inv(s) && p in s.arena.nodes && c in s.arena.nodes
    ensures var st := RemoveChildStep(s, p, Some(c));
      var t := s.arena.nodes[p].children;
      var slot := Lookup(t, s.arena.nodes[c].ctor, PropertyName(s.arena.nodes[c].key));
      var before := Entries(t);
      var after := Entries(st.after.arena.nodes[p].children);
      && p in st.after.arena.nodes
      && (st.result.Pass? ==> forall y :: y in after <==> y in before && slot != Some(y))
      && (st.result.Fail? ==> after == before)
      && (st.result.Pass? ==> c !in after)
      && (c in before ==> forall y :: y in after <==> y in before && y != c)
  {
    var a := s.arena;
    var t := a.nodes[p].children;
    var rm := Remove(t, a.nodes[c].ctor, a.nodes[c].key);
    if c in Entries(t) {
      ListedUnderOwnSlot(a, p, c);
    }
    if rm.Ok? {
      assert RemoveChildStep(s, p, Some(c)).after.arena.nodes[p].children == rm.value;
      RemoveKeepsWellFormed(a, p, a.nodes[c].ctor, a.nodes[c].key);
    } else {
      assert RemoveChildStep(s, p, Some(c)).after == s;
    }
  }

  /** componentWillUnmount (src/recycle.js:130-141): a component with a
      parent asks it to remove it. */
  function UnmountStep(s: EngineState, id: NodeId): Step<Outcome<Error>>
    requires Inv(s) && id in s.arena.nodes
  {
    match s.arena.nodes[id].parent
    case None => Step(Pass, s)
    case Some(p) => RemoveChildStep(s, p, Some(id))
  }

  lemma UnmountKeepsInv(s: EngineState, id: NodeId)
    requires Inv(s) && id in s.arena.nodes
    ensures Inv(UnmountStep(s, id).after)
  {
    if s.arena.nodes[id].parent.Some? {
      RemoveChildKeepsInv(s, s.arena.nodes[id].parent.value, Some(id));
    }
  }

  /** Once unmounting succeeds getAllComponents no longer lists the
      component (unless it is the root). */
  lemma UnmountDetaches(s: EngineState, id: NodeId)
    requires Inv(s) && id in s.arena.nodes
    ensures var st := UnmountStep(s, id);
      st.result.Pass? && s.root.Some? && s.root.value != id ==>
        && Inv(st.after) && id in st.after.arena.nodes && s.root.value in st.after.arena.nodes
        && id !in PreOrder(st.after.arena, s.root.value)
  {
    var st := UnmountStep(s, id);
    UnmountKeepsInv(s, id);
    if s.arena.nodes[id].parent.Some? {
      var p := s.arena.nodes[id].parent.value;
      RemoveChildUnlists(s, p, id);
      if st.result.Pass? && s.root.Some? && s.root.value != id {
        UnlistedDetached(st.after.arena, id, s.root.value);
      }
    }
  }

  // ---------------------------------------------------------------- setSource

  /** setSource (src/recycle.js:273-278): a name whose source is truthy
      cannot be set again. */
  function SetSourceStep(s: EngineState, id: NodeId, sourceName: string, source: Source): Step<Outcome<Error>>
    requires id in s.arena.nodes
  {
    var n := s.arena.nodes[id];
    if sourceName in n.sources && Truthy(n.sources[sourceName]) then Step(Fail(SourceAlreadyDefined(sourceName)), s)
    else Step(Pass, WithNode(s, id, WithSource(n, sourceName, source), s.subjects))
  }

  lemma SetSourceKeepsInv(s: EngineState, id: NodeId, sourceName: string, source: Source)
    requires Inv(s) && id in s.arena.nodes
    ensures Inv(SetSourceStep(s, id, sourceName, source).after)
  {
    var n := s.arena.nodes[id];
    assert NodeOk(n, s.subjects);
    if !(sourceName in n.sources && Truthy(n.sources[sourceName])) {
      InvReplace(s, id, WithSource(n, sourceName, source), s.subjects);
    }
  }

  /** The three built-in names always fail; a successful call makes
      getSource answer the new source, and a truthy one cannot be replaced
      afterwards. */
  lemma SetSourceFacts(s: EngineState, id: NodeId, sourceName: string, source: Source, source': Source)
    requires Inv(s) && id in s.arena.nodes
    ensures var st := SetSourceStep(s, id, sourceName, source);
      && (sourceName in {"DOM", "childrenActions", "actions"} ==> st == Step(Fail(SourceAlreadyDefined(sourceName)), s))
      && (st.result.Pass? ==>
            && id in st.after.arena.nodes && sourceName in st.after.arena.nodes[id].sources
            && st.after.arena.nodes[id].sources[sourceName] == source)
      && (st.result.Pass? && Truthy(source) ==>
            SetSourceStep(st.after, id, sourceName, source').result == Fail(SourceAlreadyDefined(sourceName)))
  {
    assert NodeOk(s.arena.nodes[id], s.subjects);
  }

  // ---------------------------------------------------------------- DOM sources

  /** `sources.DOM.select(selector).events(event)` of component id
      (src/recycle.js:309-325): the Subject for the pair is made on first
      use, from a fresh id, and the same one is handed out afterwards. */
  function DomEventsStep(s: EngineState, id: NodeId, selector: string, event: string): Step<nat>
    requires id in s.arena.nodes
  {
    var n := s.arena.nodes[id];
    if selector in n.dom && event in n.dom[selector] then Step(n.dom[selector][event], s)
    else Step(s.subjects, WithNode(s, id, WithDom(n, AddEvent(n.dom, selector, event, s.subjects)), s.subjects + 1))
  }

  lemma DomEventsKeepsInv(s: EngineState, id: NodeId, selector: string, event: string)
    requires Inv(s) && id in s.arena.nodes
    ensures Inv(DomEventsStep(s, id, selector, event).after)
  {
    var n := s.arena.nodes[id];
    assert NodeOk(n, s.subjects);
    if !(selector in n.dom && event in n.dom[selector]) {
      var d := AddEvent(n.dom, selector, event, s.subjects);
      AddEventBelow(n.dom, selector, event, s.subjects);
      InvReplace(s, id, WithDom(n, d), s.subjects + 1);
    }
  }

  lemma AddEventBelow(d: map<string, map<string, nat>>, selector: string, event: string, subject: nat)
    requires SubjectsBelow(d, subject)
    ensures SubjectsBelow(AddEvent(d, selector, event, subject), subject + 1)
  {
    var d' := AddEvent(d, selector, event, subject);
    forall sel, e | sel in d' && e in d'[sel] ensures d'[sel][e] < subject + 1 {
      if sel != selector || e != event {
        assert sel in d && e in d[sel] && d'[sel][e] == d[sel][e];
      }
    }
  }

  /** A Subject made now differs from every Subject of every component so
      far; asking again for the same pair gives the same Subject and
      changes nothing. */
  lemma DomEventsFacts(s: EngineState, id: NodeId, selector: string, event: string)
    requires Inv(s) && id in s.arena.nodes
    ensures var st := DomEventsStep(s, id, selector, event);
      && (!(selector in s.arena.nodes[id].dom && event in s.arena.nodes[id].dom[selector]) ==>
            forall x, sel, e :: x in s.arena.nodes && sel in s.arena.nodes[x].dom && e in s.arena.nodes[x].dom[sel] ==>
              s.arena.nodes[x].dom[sel][e] != st.result)
      && id in st.after.arena.nodes
      && DomEventsStep(st.after, id, selector, event) == Step(st.result, st.after)
  {
    forall x, sel, e | x in s.arena.nodes && sel in s.arena.nodes[x].dom && e in s.arena.nodes[x].dom[sel]
      ensures s.arena.nodes[x].dom[sel][e] != s.subjects
    {
      assert NodeOk(s.arena.nodes[x], s.subjects);
    }
  }

  // ---------------------------------------------------------------- the engine object

  class Recycle {
    var nodes: map<NodeId, Node>
    var next: NodeId
    var root: Option<NodeId>
    var subjects: nat

    function State(): EngineState
      reads this
    {
      EngineState(Arena(nodes, next), root, subjects)
    }

    /** See Inv. */
    ghost predicate Valid()
      reads this
    {
      Inv(State())
    }

    constructor ()
      ensures Valid()
      ensures nodes == map[] && next == 0 && root == None && subjects == 0
    {
      nodes, next, root, subjects := map[], 0, None, 0;
    }

    /** Puts the nodes and the next id of b in place. */
    method SetArena(b: Arena)
      modifies this
      ensures State() == WithArena(old(State()), b)
    {
      nodes, next := b.nodes, b.next;
    }

    /** See CreateStep. */
    method CreateComponent(ctor: Ctor, props: Option<Props>, name: string, parent: Option<NodeId>)
      returns (r: Result<NodeId, Error>)
      requires Valid() && (parent.Some? ==> parent.value in nodes)
      modifies this
      ensures Valid()
      ensures Step(r, State()) == old(CreateStep(State(), ctor, props, name, parent))
    {
      ghost var st := CreateStep(State(), ctor, props, name, parent);
      CreateKeepsInv(State(), ctor, props, name, parent);
      if parent.None? && root.Some? {
        r := Err(RootAlreadySet);
      } else {
        nodes := nodes[next := NewNode(ctor, ComponentKey(props), name, parent)];
        if parent.None? {
          root := Some(next);
        }
        r := Ok(next);
        next := next + 1;
      }
      assert Step(r, State()) == st;
    }

    /** See RenderStep. */
    method Render(id: NodeId)
      requires Valid() && id in nodes
      modifies this
      ensures Valid()
      ensures State() == old(RenderStep(State(), id))
    {
      ghost var s' := RenderStep(State(), id);
      RenderKeepsInv(State(), id);
      nodes := nodes[id := Rendered(nodes[id])];
      assert State() == s';
    }

    /** See JsxStep. */
    method JsxChild(p: NodeId, ctor: Ctor, props: Option<Props>, name: string) returns (r: Result<NodeId, Error>)
      requires Valid() && p in nodes
      modifies this
      ensures Valid()
      ensures Step(r, State()) == old(JsxStep(State(), p, ctor, props, name))
    {
      ghost var st := JsxStep(State(), p, ctor, props, name);
      JsxKeepsInv(State(), p, ctor, props, name);
      var key := ChildProps(props).key;
      var found := GetByConstructor(nodes[p].children, ctor, key);
      if found.Child? {
        assert TableFits(State().arena, p);
        if nodes[p].timesRendered == 1 {
          r := Err(DuplicateCall(nodes[found.node]));
        } else {
          r := Ok(found.node);
        }
      } else {
        r := Ok(next);
        SetArena(AddChild(State().arena, p, ctor, key, name));
      }
      assert Step(r, State()) == st;
    }

    /** See RemoveChildStep. */
    method RemoveChild(p: NodeId, c: Option<NodeId>) returns (r: Outcome<Error>)
      requires Valid() && p in nodes && (c.Some? ==> c.value in nodes)
      modifies this
      ensures Valid()
      ensures Step(r, State()) == old(RemoveChildStep(State(), p, c))
    {
      ghost var st := RemoveChildStep(State(), p, c);
      RemoveChildKeepsInv(State(), p, c);
      r := Pass;
      if c.Some? {
        var x := nodes[c.value];
        var rm := Remove(nodes[p].children, x.ctor, x.key);
        if rm.Err? {
          r := Fail(rm.error);
        } else {
          SetArena(WithChildren(State().arena, p, rm.value));
        }
      }
      assert Step(r, State()) == st;
    }

    /** See UnmountStep. */
    method Unmount(id: NodeId) returns (r: Outcome<Error>)
      requires Valid() && id in nodes
      modifies this
      ensures Valid()
      ensures Step(r, State()) == old(UnmountStep(State(), id))
    {
      r := Pass;
      if nodes[id].parent.Some? {
        r := RemoveChild(nodes[id].parent.value, Some(id));
      }
    }

    /** See SetSourceStep. */
    method SetSource(id: NodeId, sourceName: string, source: Source) returns (r: Outcome<Error>)
      requires Valid() && id in nodes
      modifies this
      ensures Valid()
      ensures Step(r, State()) == old(SetSourceStep(State(), id, sourceName, source))
    {
      ghost var st := SetSourceStep(State(), id, sourceName, source);
      SetSourceKeepsInv(State(), id, sourceName, source);
      var s := nodes[id].sources;
      if sourceName in s && Truthy(s[sourceName]) {
        r := Fail(SourceAlreadyDefined(sourceName));
      } else {
        nodes := nodes[id := WithSource(nodes[id], sourceName, source)];
        r := Pass;
      }
      assert Step(r, State()) == st;
    }

    /** See DomEventsStep. */
    method DomEvents(id: NodeId, selector: string, event: string) returns (subject: nat)
      requires Valid() && id in nodes
      modifies this
      ensures Valid()
      ensures Step(subject, State()) == old(DomEventsStep(State(), id, selector, event))
    {
      ghost var st := DomEventsStep(State(), id, selector, event);
      DomEventsKeepsInv(State(), id, selector, event);
      var d := nodes[id].dom;
      if selector in d && event in d[selector] {
        subject := d[selector][event];
      } else {
        subject := subjects;
        nodes := nodes[id := WithDom(nodes[id], AddEvent(d, selector, event, subject))];
        subjects := subjects + 1;
      }
      assert Step(subject, State()) == st;
    }

    /** getChildren of component id (src/recycle.js:205-216): the children,
        constructor by constructor in the order the constructors were first
        registered, and within one constructor in key order. */
    method GetChildren(id: NodeId) returns (cs: seq<NodeId>)
      requires id in nodes
      ensures cs == Entries(nodes[id].children)
    {
      var t := nodes[id].children;
      cs := [];
      for i := 0 to |t|
        invariant cs == Entries(t[..i])
      {
        var slots := t[i].slots;
        for j := 0 to |slots|
          invariant cs == Entries(t[..i]) + SlotNodes(slots[..j])
        {
          assert slots[..j + 1] == slots[..j] + [slots[j]];
          SlotNodesAppend(slots[..j], slots[j]);
          cs := cs + [slots[j].node];
        }
        assert slots[..|slots|] == slots;
        EntriesThrough(t, i);
      }
      assert t[..|t|] == t;
    }

    /** addInArray of getAllComponents (src/recycle.js:389-397): appends the
        subtree of id, parent first. */
    method AddInArray(id: NodeId, components: seq<NodeId>) returns (out: seq<NodeId>)
      requires WellFormed(State().arena) && id in nodes
      ensures out == components + PreOrder(State().arena, id)
      decreases next - id
    {
      ghost var a := State().arena;
      out := components + [id];
      ghost var head := out;
      var cs := GetChildren(id);
      assert cs == Kids(a, id);
      for i := 0 to |cs|
        invariant out == head + Forest(a, id, cs[..i])
      {
        out := AddInArray(cs[i], out);
        ForestExtend(a, id, cs, i, head);
      }
      assert cs[..|cs|] == cs;
      AppendAssoc(components, [id], Forest(a, id, cs));
    }

    /** getAllComponents (src/recycle.js:387-401): every component attached
        below the root, each once, parent before children; a TypeError
        without a root. */
    method GetAllComponents() returns (r: Result<seq<NodeId>, Error>)
      requires Valid()
      ensures root.None? ==> r == Err(TypeError)
      ensures root.Some? ==> r == Ok(PreOrder(State().arena, root.value))
      ensures r.Ok? ==> Distinct(r.value)
      ensures r.Ok? ==> forall y :: y in nodes ==> (y in r.value <==> Attached(State().arena, y, root.value))
    {
      if root.None? {
        return Err(TypeError);
      }
      var all := AddInArray(root.value, []);
      assert all == PreOrder(State().arena, root.value);
      PreOrderDistinct(State().arena, root.value);
      forall y | y in nodes ensures y in all <==> Attached(State().arena, y, root.value) {
        PreOrderExactly(State().arena, root.value, y);
      }
      r := Ok(all);
    }

    /** addInStructure of getComponentStructure (src/recycle.js:404-421):
        the structure of the subtree of id. */
    method AddInStructure(id: NodeId) returns (s: Structure)
      requires WellFormed(State().arena) && id in nodes
      ensures s == StructureOf(State().arena, id)
      decreases next - id
    {
      ghost var a := State().arena;
      var cs := GetChildren(id);
      assert cs == Kids(a, id);
      var kids := [];
      for i := 0 to |cs|
        invariant kids == Substructures(a, id, cs[..i])
      {
        var child := AddInStructure(cs[i]);
        SubstructuresStep(a, id, cs, i);
        kids := kids + [child];
      }
      assert cs[..|cs|] == cs;
      s := Structure(id, nodes[id].name, kids);
    }

    /** getComponentStructure (src/recycle.js:403-426): the tree below the
        root, which lists the same components in the same order as
        getAllComponents; a TypeError without a root. */
    method GetComponentStructure() returns (r: Result<Structure, Error>)
      requires Valid()
      ensures root.None? ==> r == Err(TypeError)
      ensures root.Some? ==> r == Ok(StructureOf(State().arena, root.value))
      ensures r.Ok? ==> Flatten(r.value) == PreOrder(State().arena, root.value)
    {
      if root.None? {
        return Err(TypeError);
      }
      var s := AddInStructure(root.value);
      StructureFlattens(State().arena, root.value);
      r := Ok(s);
    }
  }
}
