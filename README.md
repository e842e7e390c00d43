# Recycle, modelled in Dafny

Recycle is a JavaScript library. It builds React components out of plain
"constructor" functions whose state is a stream of reducer applications. This
project models the core of its engine, src/recycle.js, together with the
list reducers of its TodoMVC example.

The modelled parts of the engine are:

- **The component tree.** Every component made by `createComponent` is a node of an
  arena, named by an integer id. Its `children` table holds child ids.
  - The `children` table is a `Map` from constructor to a plain object from
    key to child. It is modelled as a sequence of constructor groups, each a
    sequence of (property name, child) slots, so the Map's and the objects'
    insertion orders are kept.
  - Keys are coerced to property names the way JavaScript coerces them, for
    the keys the model admits: `null` becomes `"null"`, a missing key
    `"undefined"`, and an integer below 10^21 in magnitude its decimal text.
  - Children are created after their parent, so their ids are larger. This
    makes the whole-tree walks terminate.
- **Registry operations** on a table (module `ChildTable`):
  - `registerComponent`;
  - `removeChild`;
  - `getByConstructor`;
  - the order `getChildren` lists the children in.
- **The engine's state changes** (module `Engine`). Each of the following is a step function
  on `EngineState` that gives the result and the state after it:
  - `createComponent`, which sets the single root;
  - `render`, which counts the renders;
  - `jsxHandler`'s reuse, creation and duplicate checks;
  - `removeChild`;
  - `componentWillUnmount`;
  - `setSource`;
  - the lazy `domNodes` table of `generateDOMSource`.

  The class `Engine.Recycle` holds that state in fields. Its methods perform
  the steps and are proved to refine the step functions while keeping the
  invariant `Inv`:
  - the arena is well formed;
  - there is one root;
  - the built-in sources stay in place;
  - the Subject ids are fresh.
- **Whole-tree walks.** `getChildren`, `getAllComponents` and `getComponentStructure` are
  imperative methods proved against the pre-order `ComponentTree.PreOrder` and the
  structure `ComponentTree.StructureOf`. Lemmas prove three facts about them:
  - `getAllComponents` lists exactly the components attached below the root;
  - it lists each of them once;
  - the structure flattens to the same order.
- **The state stream of `getStateStream`** (module `StatePipeline`). It is modelled as a
  computation over a finite, already merged sequence of `{reducer, action}`
  deliveries. Each emitted state is the left fold of the deliveries so far.
  `setState` is modelled as a delivery whose reducer ignores the state.
- **`forceArray`** and the error messages the engine throws.

The TodoMVC reducers are modelled in module `TodoReducers`.
`examples/TodoMVC/components/TodoList/reducers.js` defines seven of them:

- insertTodo
- editTodo
- toggleTodo
- toggleAll
- deleteTodo
- deleteCompleted
- inputVal

The class `TodoReducers.TodoList` holds the `{list, inputVal}` state that the reducers change
in place. It has one method per reducer and a `Dispatch` for the action-type
routing. Each method is proved against a pure function on the list, and lemmas
state what the reducers promise.

Two behaviours of the code that the model keeps:

- `removeChild` throws a TypeError when the parent has never registered the
  component's constructor, because it evaluates `delete undefined[key]`.
- Meeting an existing (constructor, key) pair in `jsxHandler` is an error
  only during the parent's first render. On later renders the existing child
  is reused.

## Model

| member | source | states |
|---|---|---|
| JsValues.ForceArray | src/recycle.js:462-465 | a non-array value becomes the one-element array holding it; an array is returned unchanged |
| JsValues.ForceArrayIdempotent | src/recycle.js:462-465 | normalising twice is normalising once |
| JsValues.KeylessSlots | src/recycle.js:14 | examples: a missing key (`undefined`) and a `null` key go under different property names; `7` and `"7"` share one; `-12` is spelled `"-12"` |
| JsValues.DecimalInjective | src/recycle.js:202 | different natural numbers have different decimal spellings |
| JsValues.NumberSlots | src/recycle.js:202 | for all integers: two number keys share a slot exactly when they are equal; no number key shares a slot with a `null` key or a keyless child |
| JsValues.NumberSpelling | src/recycle.js:202 | a number key's name is a minus sign exactly when the number is negative, followed by decimal digits |
| Errors.DuplicateMessagesDiffer | src/recycle.js:169-173 | the keyless and the same-key duplicate messages differ for all names and keys |
| ChildTable.GetByConstructor | src/recycle.js:201-203 | `false` exactly when the constructor has no entry; `undefined` exactly when it has one but the key's slot is empty; otherwise the child found in that slot |
| ChildTable.Register | src/recycle.js:374-385 | throws "already in use" exactly when the (constructor, key) slot is occupied; a new constructor adds one group and a known one adds none |
| ChildTable.RegisterLookup | src/recycle.js:374-385 | after registering, the slot holds the new child and every other (constructor, name) lookup is unchanged; the table stays well formed; only the constructor may become newly known |
| ChildTable.RegisterEntries | src/recycle.js:374-385 | the child is listed by getChildren right after its constructor's children, or at the end when the constructor is new |
| ChildTable.RegisterThenGet | src/recycle.js:374-385 | a registered child is found again by getByConstructor with the same constructor and key |
| ChildTable.RegisterTwiceFails | src/recycle.js:381 | a second registration under a key with the same property name throws, whatever the node |
| ChildTable.Remove | src/recycle.js:244-252 | throws a TypeError exactly when the constructor has no entry; otherwise keeps the number of constructor groups |
| ChildTable.RemoveLookup | src/recycle.js:249-251 | after removing, the (constructor, key) slot is empty and every other lookup and constructor entry is unchanged |
| ChildTable.RemoveEntries | src/recycle.js:249-251 | removing a registered child drops exactly its one position from getChildren's list |
| ChildTable.RemoveThenGet | src/recycle.js:249-251 | after removing, getByConstructor with the same key gives `undefined`, never `false`, because the constructor entry survives |
| ChildTable.RegisterThenRemove | src/recycle.js:244-252 | register then remove restores the table, except that a constructor seen for the first time keeps an empty entry |
| ChildTable.EntriesMember | src/recycle.js:205-216 | getChildren lists a node exactly when some (constructor, key) slot holds it |
| ChildTable.EntriesCount | src/recycle.js:205-216 | getChildren lists as many children as there are filled slots |
| ComponentTree.PreOrderExactly | src/recycle.js:387-401 | getAllComponents lists a component exactly when it is attached below the root by registered parent links |
| ComponentTree.PreOrderDistinct | src/recycle.js:387-401 | getAllComponents lists no component twice |
| ComponentTree.StructureFlattens | src/recycle.js:403-426 | flattening getComponentStructure's tree gives getAllComponents' order |
| TreeEdits.CreateKeepsWellFormed | src/recycle.js:13-16 | adding a childless component whose parent exists keeps the arena well formed |
| TreeEdits.RegisterKeepsWellFormed | src/recycle.js:178-179 | registering a new child of p under its own constructor and key keeps the arena well formed |
| TreeEdits.RemoveKeepsWellFormed | src/recycle.js:244-252 | removing a slot keeps the arena well formed and unlists that slot's component and only it |
| TreeEdits.UnlistedDetached | src/recycle.js:387-401 | a component no longer listed in its parent's table is not reached from any other component |
| TreeEdits.AddChildFacts | src/recycle.js:178-179 | jsxHandler's new child is the only new node, is a child of p, and is found under its constructor and key |
| Engine.CreateKeepsInv | src/recycle.js:13-307 | createComponent keeps the engine invariant |
| Engine.CreateFresh | src/recycle.js:13-31 | a new component gets an id no component had, with the given parent and key (`props.key`, or null without props); existing components are unchanged |
| Engine.RootOnce | src/recycle.js:299-303 | after a parentless component is created it is the root and the only parentless component; a second parentless creation throws and changes nothing |
| Engine.RenderKeepsInv | src/recycle.js:143-147 | counting a render keeps the engine invariant |
| Engine.JsxKeepsInv | src/recycle.js:156-181 | jsxHandler keeps the engine invariant |
| Engine.JsxFacts | src/recycle.js:156-181 | a returned child is a child of p registered under the constructor and key; an error changes nothing; p's render count is untouched |
| Engine.RepeatOnFirstRenderThrows | src/recycle.js:165-174 | during the first render, meeting a constructor again with a key of the same property name throws the duplicate error for the first child |
| Engine.LaterRenderReuses | src/recycle.js:165-175 | after the first render, the same constructor and key give back the same child and change nothing |
| Engine.KeylessRepeatThrows | src/recycle.js:165-170 | a keyless child constructor met twice in a first render is created once, then throws "called multiple times without the key property" |
| Engine.RemoveChildKeepsInv | src/recycle.js:244-252 | removeChild keeps the engine invariant |
| Engine.RemoveChildFails | src/recycle.js:244-252 | removeChild fails, with a TypeError and no change, exactly when the parent has no entry for the component's constructor |
| Engine.RemoveChildUnlists | src/recycle.js:244-252 | removeChild deletes by key: when it succeeds, p loses exactly the child in the slot of c's constructor and key, whichever component that is, and gains none; a failure leaves p's children as they were; c is no child of p afterwards, and when c was p's child it is the only one p loses |
| Engine.UnmountKeepsInv | src/recycle.js:130-141 | unmounting keeps the engine invariant |
| Engine.UnmountDetaches | src/recycle.js:130-141 | after a successful unmount getAllComponents no longer lists the component (unless it is the root) |
| Engine.SetSourceKeepsInv | src/recycle.js:273-278 | setSource keeps the engine invariant |
| Engine.SetSourceFacts | src/recycle.js:273-278 | DOM, childrenActions and actions can never be set; a successful call makes the name hold the new source; a truthy source cannot be replaced later |
| Engine.DomEventsKeepsInv | src/recycle.js:309-325 | making a DOM Subject keeps the engine invariant |
| Engine.DomEventsFacts | src/recycle.js:309-325 | a Subject made for a new (selector, event) pair differs from every existing Subject; asking for the same pair again gives the same Subject and changes nothing |
| Engine.Recycle.constructor | src/recycle.js:1-11 | an engine starts with no components and no root |
| Engine.Recycle.CreateComponent | src/recycle.js:13-307 | performs CreateStep and keeps the invariant |
| Engine.Recycle.Render | src/recycle.js:143-147 | performs RenderStep and keeps the invariant |
| Engine.Recycle.JsxChild | src/recycle.js:156-181 | performs JsxStep and keeps the invariant |
| Engine.Recycle.RemoveChild | src/recycle.js:244-252 | performs RemoveChildStep and keeps the invariant |
| Engine.Recycle.Unmount | src/recycle.js:130-141 | performs UnmountStep and keeps the invariant |
| Engine.Recycle.SetSource | src/recycle.js:273-278 | performs SetSourceStep and keeps the invariant |
| Engine.Recycle.DomEvents | src/recycle.js:309-325 | performs DomEventsStep and keeps the invariant |
| Engine.Recycle.GetChildren | src/recycle.js:205-216 | returns the children constructor by constructor, in Map order, and in key insertion order within one constructor |
| Engine.Recycle.AddInArray | src/recycle.js:389-397 | appends the subtree of a component, parent first, to the array built so far |
| Engine.Recycle.GetAllComponents | src/recycle.js:387-401 | lists every component attached below the root, each once, parent before children; a TypeError without a root |
| Engine.Recycle.AddInStructure | src/recycle.js:404-421 | builds the structure of a component's subtree |
| Engine.Recycle.GetComponentStructure | src/recycle.js:403-426 | the tree below the root, which flattens to getAllComponents' order; a TypeError without a root |
| StatePipeline.StateStream | src/recycle.js:229-240 | the stream starts with the initial state and has one more element per delivery, each the delivered reducer applied to the previous state with the delivered action |
| StatePipeline.FoldSnoc | src/recycle.js:234-240 | folding one more delivery applies it to the folded state |
| StatePipeline.FoldConcat | src/recycle.js:234-240 | folding a concatenation folds the second part from where the first left off |
| StatePipeline.StateIsFold | src/recycle.js:229-240 | the n-th emitted state is the fold of the first n deliveries |
| StatePipeline.LastStateIsFold | src/recycle.js:229-240 | the last emitted state is the fold of all deliveries |
| StatePipeline.StreamPrefix | src/recycle.js:229-240 | one more delivery extends the stream without changing what was emitted |
| StatePipeline.SetState | src/recycle.js:254-259 | setState delivers its action with a reducer that yields the new state whatever state it is given |
| StatePipeline.SetStateOverrides | src/recycle.js:254-259 | after a setState the stream carries exactly the new state, and later deliveries continue from it |
| TodoReducers.Find | examples/TodoMVC/components/TodoList/reducers.js:48 | the position of the first item with the id; none exactly when no item has it |
| TodoReducers.InsertAppends | examples/TodoMVC/components/TodoList/reducers.js:34-45 | insertTodo appends one active item titled with the payload, with id one past the last id (1 on an empty list), after the unchanged list |
| TodoReducers.InsertKeepsIncreasing | examples/TodoMVC/components/TodoList/reducers.js:34-45 | on a list of increasing ids the new id is above every id, so it is fresh, and the ids still increase |
| TodoReducers.EditFacts | examples/TodoMVC/components/TodoList/reducers.js:47-52 | editTodo throws exactly when no item has the id; otherwise it retitles the first such item and changes nothing else |
| TodoReducers.EditIdempotent | examples/TodoMVC/components/TodoList/reducers.js:47-52 | editing twice with the same title is editing once |
| TodoReducers.ToggleFacts | examples/TodoMVC/components/TodoList/reducers.js:54-59 | toggleTodo throws exactly when no item has the id; otherwise it flips the first such item's completion and changes nothing else |
| TodoReducers.ToggleTwice | examples/TodoMVC/components/TodoList/reducers.js:54-59 | toggling the same item twice restores the list |
| TodoReducers.FindSameIds | examples/TodoMVC/components/TodoList/reducers.js:48-55 | lists with the same ids position by position find the same item |
| TodoReducers.Filter | examples/TodoMVC/components/TodoList/reducers.js:62-84 | keeps exactly the items that pass the test, never more items than the list has |
| TodoReducers.FilterConcat | examples/TodoMVC/components/TodoList/reducers.js:75-87 | filtering keeps the kept items in list order |
| TodoReducers.FilterIdempotent | examples/TodoMVC/components/TodoList/reducers.js:82-87 | deleteCompleted (or any filter) applied twice is applied once |
| TodoReducers.FilterKeepsAll | examples/TodoMVC/components/TodoList/reducers.js:62-66 | the filtered count equals the list length exactly when every item passes |
| TodoReducers.FilterAllKept | examples/TodoMVC/components/TodoList/reducers.js:75-87 | when every item passes, filtering changes nothing |
| TodoReducers.FilterKeepsIncreasing | examples/TodoMVC/components/TodoList/reducers.js:75-87 | filtering keeps increasing ids increasing |
| TodoReducers.DeleteTodoFacts | examples/TodoMVC/components/TodoList/reducers.js:75-80 | deleteTodo keeps exactly the items with another id; with no such id it changes nothing |
| TodoReducers.SetCompleted | examples/TodoMVC/components/TodoList/reducers.js:68-70 | every item gets the given completion, keeping its id and title, in the same order |
| TodoReducers.ActiveMeaning | examples/TodoMVC/components/TodoList/reducers.js:62-66 | `amountActive` is non-zero exactly when some item is not completed |
| TodoReducers.ToggleAllFacts | examples/TodoMVC/components/TodoList/reducers.js:61-73 | toggleAll completes everything when some item is active and clears everything otherwise, keeping ids, titles and order |
| TodoReducers.ToggleAllTwice | examples/TodoMVC/components/TodoList/reducers.js:61-73 | toggleAll always leaves a list whose items all agree, and on any such list a second toggleAll undoes the first |
| TodoReducers.ReduceKeepsIncreasing | examples/TodoMVC/components/TodoList/reducers.js:1-31 | every routed reducer keeps the ids increasing, so insertTodo's ids stay fresh |
| TodoReducers.TodoList.InsertTodo | examples/TodoMVC/components/TodoList/reducers.js:34-45 | pushes the new item in place: the new list is Inserted of the old one; inputVal is untouched |
| TodoReducers.TodoList.EditTodo | examples/TodoMVC/components/TodoList/reducers.js:47-52 | retitles the found item in place, or fails with a TypeError and changes nothing |
| TodoReducers.TodoList.ToggleTodo | examples/TodoMVC/components/TodoList/reducers.js:54-59 | flips the found item in place, or fails with a TypeError and changes nothing |
| TodoReducers.TodoList.ToggleAll | examples/TodoMVC/components/TodoList/reducers.js:61-73 | the counting and the `forEach` loop leave the list as AllToggled of the old list |
| TodoReducers.TodoList.DeleteTodo | examples/TodoMVC/components/TodoList/reducers.js:75-80 | reassigns the list to the items with another id |
| TodoReducers.TodoList.DeleteCompleted | examples/TodoMVC/components/TodoList/reducers.js:82-87 | reassigns the list to the active items |
| TodoReducers.TodoList.InputVal | examples/TodoMVC/components/TodoList/reducers.js:89-93 | assigns only inputVal |
| TodoReducers.TodoList.Dispatch | examples/TodoMVC/components/TodoList/reducers.js:1-31 | each action type reaches its own reducer; an error leaves the state unchanged; an unrouted type changes nothing |

## Left out

- RxJS itself: the interleaving `Observable.merge` produces, `switch`,
  `share`, subscriptions and their timing. The state stream is modelled over
  a given, already merged sequence of deliveries.
- StatePipeline.StateStream: a reducer that throws, which ends the RxJS
  stream, is not modelled, so the TodoMVC reducers are not fed through it.
  Their own `Result` models the throw.
- React: `createReactElement`, `isReactComponent`, the React class's lifecycle
  beyond render counting and unmount, `findDOMNode`, `updateDomStreams`, and
  what a view returns. These call into code outside this model.
- The events hub (`on`, `unbind`, `emit`), `applyRecycleObservable`,
  `updateChildrenActions`, `setConfig` on prop updates, `get`, `set` and
  `getSource`. They only pass values to RxJS, React or the caller's
  configuration.
- The constructor's configuration object (`config`), and the child's React
  element that `jsxHandler` returns. Children are identified by arena id.
- Engine.DomEventsStep: the Subject itself and its `switch().share()` are
  left out. A Subject is identified by a fresh number.
- JsValues.PropertyName: only `null`, a missing key, strings and integral
  numbers are modelled as keys. Non-integral numbers, objects, and names
  inherited from `Object.prototype` are left out. Integers of magnitude
  10^21 or more are spelled in decimal, where JavaScript uses exponent form
  (`"1e+21"`). Integers beyond 2^53 are kept distinct, where JavaScript
  numbers can no longer tell them apart.
- ChildTable.Entries: the JavaScript rule that lists integer-like property
  names before the others in `Object.keys` is left out. Insertion order is
  used throughout.
- Engine.Recycle.GetComponentStructure: the structure holds component ids,
  not the component objects that the JavaScript structure shares with the
  live tree.
- TodoReducers.TodoList: the reducers mutate the state object they are given
  and return it. The model holds that state in one object. Another reference
  to the same todo objects is not modelled.
- TodoReducers.NextId: ids are unbounded integers. JavaScript numbers lose
  precision above 2^53, which is not modelled.
- TodoReducers.Action: the `filterByType` routing is by a string type. Each
  routed type is a constructor of `Action`, and every other type is
  `OtherAction`. What an action holds beyond the fields each reducer reads
  is left out.
