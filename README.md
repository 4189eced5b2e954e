# FormKit node tree and verbose watcher, in Dafny

This project models two pieces of FormKit.

**The verbose watcher** (`watchVerbose`). The watcher takes a Vue `Ref` or a
reactive object. It lists every key path inside it (`getPaths`) and installs
one watcher per path. It reports each change to a callback, with the changed
path and its new value.

Within one tick, a change below a path that was already reported is
suppressed (the dispatcher's dedup window). When a reported value is an
object, the paths inside it are re-watched, and the watcher already under the
same `__str` is stopped first.

The model is split in two:
- module `ObjectPaths` holds the pure functions `get`, `touch` and `getPaths`;
- module `VerboseWatch` holds the watcher table and the dispatcher closure, as
  the class `Watcher`.

**The FormKit node tree** (`createNode`). Nodes are kept in an arena: a
sequence of node records addressed by their position, inside the class
`NodeForest.Forest`. Each node has:
- a type and a name. An anonymous node is auto-named `${type}_${n}`, with one
  counter per type. A `useIndex` node is named by its index;
- a parent pointer and an ordered child list, which always agree with each
  other;
- a value, and a configuration store. All nodes of one tree share one store.

The operations are:
- `add`, `remove`, and assigning `parent`, which move nodes between parents;
- assigning `index`, which is clamped to the parent's child list;
- reading `root` and `address`;
- `at(address)`, which understands `$root`, `$parent`, `$self`, child names,
  indices and `find(value[, property])`;
- `find`, a depth-first search of the subtree.

The tree rules and the pure operations are in `NodeTree`. Addresses and
traversal are in `NodeAddress`.

Supporting modules:
- `Wrappers`: `Option`;
- `Decimal`: natural numbers written in decimal, used for auto-names and for
  array keys;
- `JsValue`: the JavaScript values the watcher sees.

## Model

| member | source | states |
|---|---|---|
| ObjectPaths.Descend | packages/vue/src/composables/watchVerbose.ts:111-116 | the `reduce` of `get`: one key per step, left to right, a `null` or non-object value passed on unchanged; its meaning is stated by `Get`, `DescendAppend`, `LeafAbsorbs` and `DescendStopsAtLeaf` |
| ObjectPaths.Get | packages/vue/src/composables/watchVerbose.ts:106-117 | `get` unwraps a `Ref` (its value at the empty path), then follows the keys, and a `null` or non-object value absorbs the rest of the path |
| ObjectPaths.DescendAppend | packages/vue/src/composables/watchVerbose.ts:111-116 | reading along `a + b` is reading `b` from the value found at `a` |
| ObjectPaths.LeafAbsorbs | packages/vue/src/composables/watchVerbose.ts:112-114 | once the walk reaches a value that is not an object, every further key returns that value unchanged |
| ObjectPaths.DescendStopsAtLeaf | packages/vue/src/composables/watchVerbose.ts:111-116 | if some prefix of the path already reaches a non-object, `get` of the whole path is the value at that prefix |
| ObjectPaths.LookupChild | packages/vue/src/composables/watchVerbose.ts:115 | looking up the `i`-th enumerated key of a record or an array yields the `i`-th property value |
| ObjectPaths.Touch | packages/vue/src/composables/watchVerbose.ts:95-98 | `touch` yields the key list exactly when the value at the path is an object (a record or an array), and otherwise the value itself |
| ObjectPaths.Walk | packages/vue/src/composables/watchVerbose.ts:159-169 | the depth-first list of the property paths below a value, in key order; `WalkListsKeyPaths`, `WalkOnce`, `SiblingsInKeyOrder`, `SubtreeContiguous` and `WalkProperties` state what it lists |
| ObjectPaths.PathsOf | packages/vue/src/composables/watchVerbose.ts:141-171 | the list `getPaths` returns, branch by branch (`null`, a `Ref` to a non-object, a `Ref` to an object, a reactive object); `GetPaths` is proved to return it |
| ObjectPaths.GetPaths | packages/vue/src/composables/watchVerbose.ts:141-171 | the method returns exactly the path list of the specification `PathsOf`: `null` gives `paths` back, a non-object `Ref` gives only the empty path, and an object `Ref` gives the deep empty path followed by the walk of its value |
| ObjectPaths.WalkPropertiesLoop | packages/vue/src/composables/watchVerbose.ts:159-169 | the `for...in` loop appends to `paths` exactly the depth-first walk of the object's properties |
| ObjectPaths.WalkUpToBelow | packages/vue/src/composables/watchVerbose.ts:160 | every path listed under `parents` starts with `parents` and is one key or more longer |
| ObjectPaths.WalkUpToFaithful | packages/vue/src/composables/watchVerbose.ts:160-168 | every listed path extends `parents`; its `__str` is its keys joined by '.'; it is marked `__deep` exactly when the value reached along it is a record or an array |
| ObjectPaths.WalkUpToParentsFirst | packages/vue/src/composables/watchVerbose.ts:163-165 | every path below the first level is preceded in the list by its parent's path, which is marked deep (depth-first, parents first) |
| ObjectPaths.WalkProperties | packages/vue/src/composables/watchVerbose.ts:141-171 | every listed path is faithful (prefix, `__str`, `__deep`) and every deeper path comes after its deep parent path |
| ObjectPaths.IsKeyPath | packages/vue/src/composables/watchVerbose.ts:119-135 | an independent definition of a key path: each key is one of `Object.keys` of the value reached so far |
| ObjectPaths.WalkListsKeyPaths | packages/vue/src/composables/watchVerbose.ts:119-171 | a path is listed if and only if its keys, read in turn, name existing enumerable properties; its `__str` is the joined keys and it is `__deep` exactly when the value there is a record or an array |
| ObjectPaths.WalkComplete | packages/vue/src/composables/watchVerbose.ts:159-169 | every non-empty key path of the value is listed |
| ObjectPaths.WalkUpToSound | packages/vue/src/composables/watchVerbose.ts:159-169 | every listed path is a non-empty key path of the value, with `__deep` set exactly when its value is an object |
| ObjectPaths.WalkOnce | packages/vue/src/composables/watchVerbose.ts:159-169 | no two listed paths have the same keys: each key path is listed once |
| ObjectPaths.SiblingsInKeyOrder | packages/vue/src/composables/watchVerbose.ts:159-169 | for two keys `i < j` of any object met on the way down, the path of key `i` is listed before the path of key `j` (the `for...in` order) |
| ObjectPaths.SubtreeContiguous | packages/vue/src/composables/watchVerbose.ts:159-169 | depth first: the paths below any key path form one unbroken stretch of the list, so between two listed paths that extend a key path every listed path extends it too, and a subtree is listed in full before the next sibling |
| ObjectPaths.WalkExample | packages/vue/src/composables/watchVerbose.ts:119-135 | the documented example: `{a: {b: 123}, c: 567}` gives `a` (deep), `a.b`, `c` |
| ObjectPaths.PathsOfEdgeCases | packages/vue/src/composables/watchVerbose.ts:146-157 | `null` returns the accumulator; a `Ref` to a non-object gives just the empty path; a `Ref` to an object starts with the deep empty path |
| VerboseWatch.Covers | packages/vue/src/composables/watchVerbose.ts:64-67 | the dispatcher's `startsWith` test with the `!==` guard; `CoversMeaning` states what it means |
| VerboseWatch.Suppressed | packages/vue/src/composables/watchVerbose.ts:62-70 | a path is suppressed when some path in the window covers it; `IsNewMutation` is proved to decide it |
| VerboseWatch.CoversMeaning | packages/vue/src/composables/watchVerbose.ts:64-67 | a dispatched `d` suppresses `s` exactly when `s` is strictly longer and starts with `d` followed by '.' (any non-empty `s` when `d` is the empty `Ref` path) |
| VerboseWatch.CoversIrreflexive | packages/vue/src/composables/watchVerbose.ts:66 | a path never suppresses itself |
| VerboseWatch.CoversTransitive | packages/vue/src/composables/watchVerbose.ts:64-67 | suppression passes down: if `a` covers `b` and `b` covers `c`, then `a` covers `c` |
| VerboseWatch.CoversExamples | packages/vue/src/composables/watchVerbose.ts:64-67 | `a.b` covers `a.b.c` but not `a.bc`, `a` or itself; the empty path covers every non-empty path |
| VerboseWatch.AncestorCovers | packages/vue/src/composables/watchVerbose.ts:65 | the `__str` of a key path covers the `__str` of every strict extension of it |
| VerboseWatch.WindowSuppressesBelow | packages/vue/src/composables/watchVerbose.ts:62-70 | once a path is in the window, every path below it is suppressed |
| VerboseWatch.RefPathCovers | packages/vue/src/composables/watchVerbose.ts:65 | the empty `Ref` path covers exactly the non-empty strings |
| VerboseWatch.EmptyWindow | packages/vue/src/composables/watchVerbose.ts:62-70 | with an empty window nothing is suppressed |
| VerboseWatch.DottedKeyCollides | packages/vue/src/composables/watchVerbose.ts:161 | a key that contains '.' gets the same `__str` as the path that splits it at the dot |
| VerboseWatch.Installed | packages/vue/src/composables/watchVerbose.ts:25-36 | the table after `applyWatch`, one path at a time; `InstalledKeys`, `InstalledUntouched` and `InstalledLatest` state its keys and values |
| VerboseWatch.InstalledKeys | packages/vue/src/composables/watchVerbose.ts:23-37 | after `applyWatch` the table has a watcher for each earlier key and for each `__str` of the batch, and no others |
| VerboseWatch.InstalledUntouched | packages/vue/src/composables/watchVerbose.ts:23-37 | a key outside the batch keeps its watcher |
| VerboseWatch.InstalledLatest | packages/vue/src/composables/watchVerbose.ts:27-28 | each key of the batch ends up watching the last path of the batch with that `__str` |
| VerboseWatch.CollidingPathsShareWatcher | packages/vue/src/composables/watchVerbose.ts:27-28 | `["a.b"]` and `["a","b"]` share one table slot, and the later path wins |
| VerboseWatch.Rewatch | packages/vue/src/composables/watchVerbose.ts:74-75 | an object value (including `null`) is re-walked starting with the changed path itself; any other value adds no watcher |
| VerboseWatch.Watcher.constructor | packages/vue/src/composables/watchVerbose.ts:21-39 | the table watches exactly the paths of `getPaths(obj)`; the window is empty and nothing has been reported |
| VerboseWatch.InstallOk | packages/vue/src/composables/watchVerbose.ts:27-35 | installing one path: the key's previous handle leaves the table (it is stopped), a fresh handle watching the path takes its place, and the fresh handle was never used before |
| VerboseWatch.Reinstalled | packages/vue/src/composables/watchVerbose.ts:23-37 | what `applyWatch(paths)` does to the table: each batch key watches the last path with its `__str` through a fresh handle, the handle it had is stopped, other keys keep their handles, and no handle is rebound |
| VerboseWatch.Watcher.ApplyWatch | packages/vue/src/composables/watchVerbose.ts:23-37 | the table becomes `Installed(old table, paths)` and the new state is `Reinstalled`: every replaced handle is stopped and untouched keys keep their handles; the window and the reports are unchanged |
| VerboseWatch.Watcher.InstallEach | packages/vue/src/composables/watchVerbose.ts:25-36 | the loop installs the paths in order: the table becomes `Installed(old table, paths)`, each batch key gets a new handle, untouched keys keep theirs, and no handle's path changes |
| VerboseWatch.Watcher.IsNewMutation | packages/vue/src/composables/watchVerbose.ts:62-70 | the loop over the window answers true exactly when no dispatched path covers the incoming one |
| VerboseWatch.Watcher.Record | packages/vue/src/composables/watchVerbose.ts:71-83 | the path enters the window, the reset is scheduled, the callback gets the path and its current value, and the table is `Reinstalled` with the paths inside an object value |
| VerboseWatch.Watcher.WatchBelow | packages/vue/src/composables/watchVerbose.ts:73-75 | re-watching leaves the table `Reinstalled` with `Rewatch(path, value)` (nothing changes for a non-object value) and leaves the window and the reports alone |
| VerboseWatch.Watcher.Dispatch | packages/vue/src/composables/watchVerbose.ts:61-84 | the new state is `Dispatched(path, current)` |
| VerboseWatch.Watcher.Dispatched | packages/vue/src/composables/watchVerbose.ts:61-84 | a suppressed path changes no field at all; otherwise the path enters the window, the reset is scheduled, the change is reported once with its current value, and the table is `Reinstalled` below it (replaced handles stopped) |
| VerboseWatch.Watcher.Fire | packages/vue/src/composables/watchVerbose.ts:27-30 | a stopped handle changes no field at all; a live one has the whole effect `Dispatched` of the path it was created for |
| VerboseWatch.Watcher.ClearWindow | packages/vue/src/composables/watchVerbose.ts:77-82 | the end-of-tick reset empties the window and clears the scheduled flag; the table and the reports are unchanged |
| VerboseWatch.StrsStep | packages/vue/src/composables/watchVerbose.ts:25-28 | the keys of a batch grow by one `__str` per path |
| VerboseWatch.ParentThenChild | packages/vue/src/composables/watchVerbose.ts:42-47 | a change to `a` and then to `a.b` in the same tick is reported once, whatever the watched object holds |
| NodeTree.Root | packages/core/__tests__/node.spec.ts:165-179 | `root` is a parentless node that the node lies under |
| NodeTree.RootIsTheAncestorRoot | packages/core/__tests__/node.spec.ts:165-179 | any parentless ancestor is the root: after `parent.add(L1)` the nested child's root is `parent` |
| NodeTree.UnderTrans | packages/core/__tests__/node.spec.ts:165-179 | the ancestor relation is transitive |
| NodeTree.RootUnderOnlyItself | packages/core/__tests__/node.spec.ts:165-179 | a root lies under a node exactly when that node is the root itself |
| NodeTree.StoreOfRoot | packages/core/__tests__/node.spec.ts:11-22 | every node uses its root's configuration store |
| NodeTree.SameTreeSameStore | packages/core/__tests__/node.spec.ts:11-42 | two nodes of one tree share one store, so configuration flows both down and up |
| NodeTree.ExactlyOneParent | packages/core/__tests__/node.spec.ts:24-30 | a node is listed as a child by exactly one node, its parent |
| NodeTree.IndexOf | packages/core/__tests__/node.spec.ts:138-144 | the index of a listed child is its first position in the child list |
| NodeTree.Index | packages/core/__tests__/node.spec.ts:138-144 | `index` is the node's position in its parent's child list |
| NodeTree.MoveTo | packages/core/__tests__/node.spec.ts:146-163 | the child list after `index = i`: the child taken out and put back at the clamped position; `MoveToSpec` states its meaning |
| NodeTree.Clamp | packages/core/__tests__/node.spec.ts:146-163 | an index assignment is clamped to `[0, hi]`: a negative index becomes 0, a too-large one becomes `hi`, and an index in range is kept |
| NodeTree.MoveToSpec | packages/core/__tests__/node.spec.ts:146-163 | moving a child within the list is a permutation with the same length, and puts the child at the clamped index |
| NodeTree.MoveToExamples | packages/core/__tests__/node.spec.ts:151-162 | in a list of four, indices 1, 3, -1 and 99 place the child at 1, 3, 0 and 3 |
| NodeTree.WithoutMultiset | packages/core/__tests__/node.spec.ts:91-99 | removing a child from a list removes exactly that child |
| NodeTree.WithoutDistinct | packages/core/__tests__/node.spec.ts:96-97 | removing a listed child shortens a list without duplicates by one |
| NodeTree.Added | packages/core/__tests__/node.spec.ts:83-89 | `add` keeps the arena a tree of linked parent and child pointers |
| NodeTree.AddedWellFormed | packages/core/__tests__/node.spec.ts:44-59 | `add` keeps the tree well formed, with one configuration store per tree |
| NodeTree.AddMoves | packages/core/__tests__/node.spec.ts:101-114 | `add` moves the child under the parent, appends it to the parent's list, takes it out of its old parent's list, and gives its whole subtree the new tree's store; names, types and values are unchanged |
| NodeTree.AddIdempotent | packages/core/__tests__/node.spec.ts:24-30 | adding the same child twice is the same as adding it once |
| NodeTree.AddAppends | packages/core/__tests__/node.spec.ts:83-89 | a newly added child points to its parent, ends the parent's list, and its index is the old list length |
| NodeTree.AddTakesFromOldParent | packages/core/__tests__/node.spec.ts:101-114 | the old parent's list loses the moved child and shrinks by one |
| NodeTree.RemoveDetaches | packages/core/__tests__/node.spec.ts:91-99 | `remove` clears the child's parent and takes it out of the list; nothing else is touched and stores stay as they were |
| NodeTree.Removed | packages/core/__tests__/node.spec.ts:91-99 | `remove` keeps the arena a tree of the same size; `RemoveDetaches` and `RemoveOfNonChild` give its effect |
| NodeTree.RemoveOfNonChild | packages/core/__tests__/node.spec.ts:91-99 | removing a node that is not a child changes nothing |
| NodeTree.RemovedWellFormed | packages/core/__tests__/node.spec.ts:91-99 | `remove` keeps the tree well formed |
| NodeTree.Reparented | packages/core/__tests__/node.spec.ts:116-129 | assigning `parent` keeps the arena a tree of the same size: the node is detached and then added to the new parent, if any |
| NodeTree.ReparentedWellFormed | packages/core/__tests__/node.spec.ts:116-129 | assigning `parent` keeps the tree well formed |
| NodeTree.Repositioned | packages/core/__tests__/node.spec.ts:146-163 | an index assignment keeps the arena a tree |
| NodeTree.RepositionedShape | packages/core/__tests__/node.spec.ts:146-163 | an index assignment keeps every parent, every store and every child set, and only reorders lists |
| NodeTree.RepositionedWellFormed | packages/core/__tests__/node.spec.ts:146-163 | an index assignment keeps the tree well formed |
| NodeTree.RepositionedIndex | packages/core/__tests__/node.spec.ts:146-163 | after `index = i` the node's index is `i` clamped to its parent's list, and the list keeps its length |
| NodeAddress.Address | packages/core/__tests__/node.spec.ts:181-209 | `address` has one segment per level from the root to the node: the root's name first and the node's own name last |
| NodeAddress.AddressThroughIndexedNode | packages/core/__tests__/node.spec.ts:181-205 | in the test's shape, `email` has the address `['form', 'input2', 1, 'email']` |
| NodeAddress.AddressAfterAddToRoot | packages/core/__tests__/node.spec.ts:206-208 | adding a node to a root gives it the address `[root name, own name]` |
| NodeAddress.DescendantsMeaning | packages/core/__tests__/node.spec.ts:275-278 | the searched list holds exactly the nodes strictly below the node |
| NodeAddress.Find | packages/core/__tests__/node.spec.ts:275-278 | `find` is the first match among the strict descendants in document order; `FindMeaning` states its meaning |
| NodeAddress.FirstMatch | packages/core/__tests__/node.spec.ts:275-290 | the search gives the first listed node that matches, or none when no listed node matches |
| NodeAddress.FindMeaning | packages/core/__tests__/node.spec.ts:275-290 | `find` gives a matching node strictly below, and no descendant before it in depth-first order matches; `None` means no node below matches |
| NodeAddress.SplitJoin | packages/core/__tests__/node.spec.ts:246-247 | splitting a string address and joining it with the same delimiter gives the string back |
| NodeAddress.JoinSplit | packages/core/__tests__/node.spec.ts:246-247 | joining delimiter-free segments and splitting them again gives the segments back |
| NodeAddress.TrimMeaning | packages/core/__tests__/node.spec.ts:287 | a trimmed selector argument is a contiguous slice of its text, with whitespace only outside it, and has no whitespace at either end |
| NodeAddress.TrimDropsLeading | packages/core/__tests__/node.spec.ts:287 | trimming ignores leading whitespace |
| NodeAddress.Select | packages/core/__tests__/node.spec.ts:280-290 | a `find(value[, property])` segment searches below the current node by name or type, and anything else fails; `SelectByName` and `SelectByProperty` state it |
| NodeAddress.SelectorText | packages/core/__tests__/node.spec.ts:280-290 | a `find(...)` segment without line breaks gives the trimmed, comma-split arguments |
| NodeAddress.SelectByName | packages/core/__tests__/node.spec.ts:280-283 | `find(v)` searches by the trimmed name `v` |
| NodeAddress.SelectByProperty | packages/core/__tests__/node.spec.ts:285-290 | `find(v, name)` searches by name, `find(v, type)` searches by type, and any other property gives no node |
| NodeAddress.SelectSeat | packages/core/__tests__/node.spec.ts:280-283 | `find(seat)` is `find` by the name `seat` |
| NodeAddress.SelectSelectType | packages/core/__tests__/node.spec.ts:287 | `find(select, type)` is `find` by the type `select` |
| NodeAddress.Step | packages/core/__tests__/node.spec.ts:246-290 | one segment: `$root`, `$parent`, `$self`, the first child whose name text equals the segment, or else a `find(...)` selector; a result is a node of the arena |
| NodeAddress.Resolve | packages/core/__tests__/node.spec.ts:246-250 | the segments in turn, stopping at the first miss; `ResolveAppend` states how it composes |
| NodeAddress.At | packages/core/__tests__/node.spec.ts:246-273 | `at` starts at the parent (a root at itself, skipping its own name) and drops a leading `$parent`; a result is a node of the arena |
| NodeAddress.AtRootKeyword | packages/core/__tests__/node.spec.ts:253-256 | a leading `$root` jumps to the root, and `at('$root')` is the root |
| NodeAddress.AtSelfKeyword | packages/core/__tests__/node.spec.ts:269-273 | a leading `$self` continues from the node itself |
| NodeAddress.AtParentElided | packages/core/__tests__/node.spec.ts:263-267 | `at('$parent.x')` is `at('x')` for a node that has a parent |
| NodeAddress.ParentChaining | packages/core/__tests__/node.spec.ts:258-261 | `at('$parent.$parent.rest')` resolves `rest` as `at` does for the parent |
| NodeAddress.StepPosAsKey | packages/core/__tests__/node.spec.ts:246-249 | a numeric segment matches the same child as its decimal spelling |
| NodeAddress.ResolveAppend | packages/core/__tests__/node.spec.ts:246-250 | resolving `a + b` is resolving `b` from where `a` leads, and a failed `a` fails the whole address |
| NodeAddress.StepToChild | packages/core/__tests__/node.spec.ts:246-250 | with unique sibling names, a node's name segment leads from its parent to the node itself |
| NodeAddress.AddressRoundTrip | packages/core/__tests__/node.spec.ts:250 | with unique sibling names and no keyword names, `root.at(n.address)` is `n` |
| NodeAddress.AtString | packages/core/__tests__/node.spec.ts:246-248 | a string address is split on the delimiter; `AtStringMeaning` states its meaning |
| NodeAddress.AtStringMeaning | packages/core/__tests__/node.spec.ts:246-248 | a string address is the array address of its delimiter-separated parts |
| NodeAddress.AtFindSegment | packages/core/__tests__/node.spec.ts:280-283 | when no child is named literally `find(v)`, `root.at(['find(v)'])` is `root.find(trim(v))` |
| NodeForest.KindOf | packages/core/__tests__/node.spec.ts:6-9 | an absent or empty type defaults to `text` |
| NodeForest.NameOf | packages/core/__tests__/node.spec.ts:66-72 | an absent or empty name is generated from the type's counter; `AutoNameAfterReset`, `AutoNamesDiffer` and `SuccessiveAutoNames` state it |
| NodeForest.AutoNameAfterReset | packages/core/__tests__/node.spec.ts:66-72 | after `resetCount`, an anonymous node of type `t` is named `t_1` |
| NodeForest.AutoNamesDiffer | packages/core/__tests__/node.spec.ts:66-72 | two auto-names of one type are equal exactly when their counters are equal |
| NodeForest.SuccessiveAutoNames | packages/core/__tests__/node.spec.ts:66-72 | two nodes created one after the other never get the same name from the counter, and the counter of the first node's type goes up by one |
| NodeForest.AddAll | packages/core/__tests__/node.spec.ts:74-81 | adding a list of children keeps the arena a tree |
| NodeForest.AddAllWellFormed | packages/core/__tests__/node.spec.ts:11-22 | adding a list of children keeps one store per tree |
| NodeForest.AddAllKeeps | packages/core/__tests__/node.spec.ts:74-81 | adding children changes no node's type, name or value |
| NodeForest.AddAllChildren | packages/core/__tests__/node.spec.ts:74-81 | a fresh root that adopts distinct children lists exactly those children, in order; each points back to it and shares its store |
| NodeForest.AddChildToRoot | packages/core/__tests__/node.spec.ts:83-89 | adding one more child to a root appends it to the root's children; the earlier children keep their parent and their store |
| NodeForest.ChildOfRootStays | packages/core/__tests__/node.spec.ts:95 | adding another child to a root leaves each existing child under that root, with its store |
| NodeForest.ChildlessBelow | packages/core/__tests__/node.spec.ts:74-81 | no other node lies under a childless node |
| NodeForest.Created | packages/core/__tests__/node.spec.ts:74-136 | creating a node appends exactly one node to the arena |
| NodeForest.CreatedWithChildren | packages/core/__tests__/node.spec.ts:74-81 | `createNode({children})` lists those children, in order, and each one's parent is the new node |
| NodeForest.CreatedUnderParent | packages/core/__tests__/node.spec.ts:131-136 | `createNode({parent})` appends the new node to the parent's children and points it at the parent |
| NodeForest.ConfigOf | packages/core/__tests__/node.spec.ts:19-21 | `node.config[key]` reads the node's tree store, `undefined` for an absent key; `ConfigShared` and `ConfigAfterMove` state what it sees |
| NodeForest.ConfigShared | packages/core/__tests__/node.spec.ts:11-42 | a configuration write through any node is read back through every node of the same tree |
| NodeForest.ConfigAfterMove | packages/core/__tests__/node.spec.ts:44-59 | a node moved into another tree reads that tree's configuration, and so does its subtree |
| NodeForest.ChildrenReadNewConfig | packages/core/__tests__/node.spec.ts:11-19 | the children given to `createNode({config})` read the new node's configuration |
| NodeForest.Delimiter | packages/core/__tests__/node.spec.ts:14-21 | the address delimiter is the one-character `config.delimiter`, and '.' otherwise |
| NodeForest.Forest.constructor | packages/core/__tests__/node.spec.ts:1 | an empty arena, with no stores and no counters |
| NodeForest.Forest.ResetCount | packages/core/__tests__/node.spec.ts:68 | `resetCount` clears every per-type counter and changes nothing else |
| NodeForest.Forest.AppendFresh | packages/core/__tests__/node.spec.ts:6-9 | a new parentless node with the defaulted type and name, and a fresh store holding the given config; the counter of its type advances |
| NodeForest.Forest.AddChildren | packages/core/__tests__/node.spec.ts:74-81 | the loop adds each given child in turn; the arena becomes `AddAll` of the old one |
| NodeForest.Forest.CreateNode | packages/core/__tests__/node.spec.ts:74-136 | `createNode` appends the node and adopts its children, then joins its parent when one is given; the result is the well-formed arena `Created(...)` |
| NodeForest.Forest.Add | packages/core/__tests__/node.spec.ts:83-95 | `add` returns the parent (chainable) and makes the arena `Added(...)` |
| NodeForest.Forest.Remove | packages/core/__tests__/node.spec.ts:91-99 | `remove` returns the parent and makes the arena `Removed(...)` |
| NodeForest.Forest.SetParent | packages/core/__tests__/node.spec.ts:116-129 | assigning `parent` makes the arena `Reparented(...)` |
| NodeForest.Forest.SetIndex | packages/core/__tests__/node.spec.ts:146-163 | assigning `index` makes the arena `Repositioned(...)` |
| NodeForest.Forest.ConfigGet | packages/core/__tests__/node.spec.ts:19-21 | reading `config[key]` reads the node's tree store |
| NodeForest.Forest.ConfigSet | packages/core/__tests__/node.spec.ts:20-21 | writing `config[key]` updates the node's tree store only |
| NodeForest.Forest.PathAt | packages/core/__tests__/node.spec.ts:246-248 | `node.at("a.b")` splits on the delimiter of the node's store and resolves as `AtString` |

## Left out

- The Vue runtime is not modelled. `watch`, `isRef` and the `sync` flush are
  replaced by explicit handles in the `Watcher` class, a `Ref` variant of the
  watched root, and the `Fire` method. `nextTick` is replaced by the
  `ClearWindow` method, which the environment calls at the end of a tick.
- `isPojo` is taken to be "a plain record". Class instances, `Map`s, `Date`s
  and prototype-inherited enumerable keys are not modelled. A JavaScript
  number is an `int`.
- The callback runs no user code. Re-entrant mutations from inside the
  callback are not modelled.
- VerboseWatch.DottedKeyCollides: a key containing '.' shares a watcher slot
  with the path that splits it at the dot. This is recorded as a limitation
  of the `__str` scheme, not corrected.
- The node implementation (`packages/core/src/node`) is not part of this
  model, so the tree follows what `packages/core/__tests__/node.spec.ts`
  asserts. The following are not modelled:
  - plugins, hooks and `__FKNode__` (test line 61-64);
  - the `token` helper;
  - the `createTicketTree` fixture (tests 253-290 are stated as lemmas over
    any tree of the matching shape);
  - the optional index argument of `add`;
  - events and values beyond a stored `Value`.
- The scenario tests are stated as general lemmas about every tree, not
  replayed step by step on a concrete arena.
- Where the tests and some prose descriptions of FormKit disagree, the model
  follows the tests, in the following places (the two `NodeAddress.Step`
  lines below are two more):
  - in `at`, `$parent.$parent` (test 258-261) drops a leading `$parent` and
    then steps once to the parent, and the parent is the starting point for
    resolution;
  - in `address`, `useIndex` nodes appear by their index (test 205).
- NodeAddress.Step: an integer segment is not a position. It matches the
  child whose name text is that number, as `useIndex` children have (test
  246-249). Taking the child at that position of a list of named children is
  not modelled, so there `at([0])` finds nothing.
- NodeAddress.Step: a name that matches no child is not looked for one level
  deeper inside index-named children. It goes to the `find(...)` selector
  instead, so anonymous wrapper nodes are not transparent in addresses.
- Attaching a node under its own descendant would form a cycle. The model
  treats it as a no-op.
- Configuration: a moved node and its whole subtree take the new tree's
  store; `remove` keeps the store the node had.
- The delimiter is `config.delimiter` when it is a one-character string, and
  '.' otherwise. Multi-character delimiters are not modelled.
- NodeAddress.Select: `find(v)` compares names and types as strings only.
  JavaScript loose equality (a name `1` matching `"01"` after number
  conversion) and searches by any property other than `name` and `type` are
  not modelled.
- NodeAddress.Trim: only ASCII whitespace and the vertical tab and form feed
  count as whitespace. The other Unicode spaces that `String.prototype.trim`
  removes are not modelled.
- The other files around the core (`autoAnimatePlugin.ts`, `FormKit.ts`,
  `fieldset.ts`) only call into it, and are not modelled.
