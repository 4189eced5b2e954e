/**
 * The node arena as a mutable object: `createNode`, `add`, `remove`,
 * `parent` and `index` assignment, and the shared `config` store. Each
 * method is specified by the pure operation of `NodeTree` it performs.
 */
module NodeForest {
  import opened Wrappers
  import opened Decimal
  import opened JsValue
  import opened NodeTree
  import opened NodeAddress

  /** The `name` option of `createNode`: absent, author text, or `useIndex`. */
  datatype NameOption = NoName | Given(text: string) | IndexName

  /** The options of `createNode`; `parent` and `children` are node ids. */
  datatype Options = Options(
    kind: Option<string>,
    name: NameOption,
    value: Value,
    config: Option<map<string, Value>>,
    parent: Option<nat>,
    children: seq<nat>)

  // ---------------------------------------------------------------- type and name

  /** `options.type || 'text'`. */
  function KindOf(opts: Options): string {
    if opts.kind.Some? && opts.kind.value != "" then opts.kind.value else "text"
  }

  /** `options.name || ...`: an absent or empty name is generated. */
  predicate AutoNamed(opts: Options) {
    opts.name.NoName? || (opts.name.Given? && opts.name.text == "")
  }

  /** The per-type counter of generated names. */
  function CountOf(counts: map<string, nat>, kind: string): nat {
    if kind in counts then counts[kind] else 0
  }

  /** A generated name: `${type}_${n}`. */
  function AutoName(kind: string, i: nat): string {
    kind + "_" + NatToString(i)
  }

  function NameOf(opts: Options, counts: map<string, nat>): NodeName {
    if AutoNamed(opts) then Named(AutoName(KindOf(opts), CountOf(counts, KindOf(opts)) + 1))
    else if opts.name.IndexName? then UseIndex
    else Named(opts.name.text)
  }

  /** Generating a name advances the counter of that type. */
  function Counted(counts: map<string, nat>, opts: Options): map<string, nat> {
    if AutoNamed(opts) then counts[KindOf(opts) := CountOf(counts, KindOf(opts)) + 1] else counts
  }

  /** After `resetCount`, the first unnamed node of type `t` is named `t_1`. */
  lemma AutoNameAfterReset(opts: Options)
    requires AutoNamed(opts)
    ensures NameOf(opts, map[]) == Named(KindOf(opts) + "_1")
  {
    assert NatToString(1) == [DigitChar(1)];
  }

  /** Generated names of one type differ whenever their numbers do. */
  lemma AutoNamesDiffer(kind: string, i: nat, j: nat)
    ensures AutoName(kind, i) == AutoName(kind, j) <==> i == j
  {
    if AutoName(kind, i) == AutoName(kind, j) {
      var pre := kind + "_";
      assert AutoName(kind, i)[|pre|..] == NatToString(i);
      assert AutoName(kind, j)[|pre|..] == NatToString(j);
      NatToStringInjective(i, j);
    }
  }

  /** Two unnamed nodes of the same type created one after the other never share a name. */
  lemma SuccessiveAutoNames(counts: map<string, nat>, o1: Options, o2: Options)
    requires AutoNamed(o1) && AutoNamed(o2) && KindOf(o1) == KindOf(o2)
    ensures NameOf(o1, counts) != NameOf(o2, Counted(counts, o1))
    ensures CountOf(Counted(counts, o1), KindOf(o1)) == CountOf(counts, KindOf(o1)) + 1
  {
    var k := KindOf(o1);
    AutoNamesDiffer(k, CountOf(counts, k) + 1, CountOf(counts, k) + 2);
  }

  // ---------------------------------------------------------------- creation

  /** Appending a parentless, childless node keeps the forest a forest. */
  lemma AppendRootTree(ns: seq<Node>, node: Node)
    requires Tree(ns) && node.parent.None? && node.children == []
    ensures Tree(ns + [node])
  {
    var r := ns + [node];
    forall n | 0 <= n < |r| && r[n].parent.Some?
      ensures r[n].parent.value < |r| && n in r[r[n].parent.value].children
    {
      assert r[n] == ns[n];
    }
    forall p, i | 0 <= p < |r| && 0 <= i < |r[p].children|
      ensures r[p].children[i] < |r| && r[r[p].children[i]].parent == Some(p)
    {
      assert r[p] == ns[p];
    }
    assert Linked(r);
    var d := Depth(ns);
    var d2 := d + [0];
    forall n | 0 <= n < |r|
      ensures if r[n].parent.None? then d2[n] == 0
              else r[n].parent.value < |d2| && d2[n] == d2[r[n].parent.value] + 1
    {
      if n < |ns| {
        assert r[n] == ns[n] && d2[n] == d[n];
      }
    }
    assert Layered(r, d2);
  }

  /** ... and, with a new store for it, well formed. */
  lemma AppendRootWellFormed(ns: seq<Node>, storeCount: nat, node: Node)
    requires WellFormed(ns, storeCount) && node.parent.None? && node.children == [] && node.store <= storeCount
    ensures WellFormed(ns + [node], storeCount + 1)
  {
    AppendRootTree(ns, node);
    var r := ns + [node];
    forall n | 0 <= n < |r|
      ensures r[n].store < storeCount + 1
      ensures r[n].parent.Some? && r[n].parent.value < |r| ==> r[n].store == r[r[n].parent.value].store
    {
      if n < |ns| {
        assert r[n] == ns[n];
      }
    }
  }

  /** `children.forEach(child => node.add(child))`. */
  function AddAll(ns: seq<Node>, p: nat, cs: seq<nat>): (r: seq<Node>)
    requires Tree(ns) && p < |ns| && forall k :: 0 <= k < |cs| ==> cs[k] < |ns|
    ensures |r| == |ns| && Tree(r)
    decreases |cs|
  {
    if cs == [] then ns
    else Added(AddAll(ns, p, cs[..|cs| - 1]), p, cs[|cs| - 1])
  }

  lemma {:induction false} AddAllWellFormed(ns: seq<Node>, storeCount: nat, p: nat, cs: seq<nat>)
    requires WellFormed(ns, storeCount) && p < |ns| && forall k :: 0 <= k < |cs| ==> cs[k] < |ns|
    ensures WellFormed(AddAll(ns, p, cs), storeCount)
    decreases |cs|
  {
    if cs != [] {
      AddAllWellFormed(ns, storeCount, p, cs[..|cs| - 1]);
      AddedWellFormed(AddAll(ns, p, cs[..|cs| - 1]), storeCount, p, cs[|cs| - 1]);
    }
  }

  /** One more child: the loop step of `AddChildren`. */
  lemma AddAllSnoc(ns: seq<Node>, p: nat, cs: seq<nat>, i: nat)
    requires Tree(ns) && p < |ns| && forall k :: 0 <= k < |cs| ==> cs[k] < |ns|
    requires i < |cs|
    ensures AddAll(ns, p, cs[..i + 1]) == Added(AddAll(ns, p, cs[..i]), p, cs[i])
  {
    assert cs[..i + 1][..i] == cs[..i];
  }

  /** Adding children keeps every node's kind, name and value. */
  lemma {:induction false} AddAllKeeps(ns: seq<Node>, p: nat, cs: seq<nat>, m: nat)
    requires Tree(ns) && p < |ns| && m < |ns| && forall k :: 0 <= k < |cs| ==> cs[k] < |ns|
    ensures AddAll(ns, p, cs)[m].kind == ns[m].kind
    ensures AddAll(ns, p, cs)[m].name == ns[m].name
    ensures AddAll(ns, p, cs)[m].value == ns[m].value
    decreases |cs|
  {
    if cs != [] {
      var prev := AddAll(ns, p, cs[..|cs| - 1]);
      var c := cs[|cs| - 1];
      AddAllKeeps(ns, p, cs[..|cs| - 1], m);
      if c !in prev[p].children && !Under(prev, p, c) {
        AddMoves(prev, p, c, m);
      }
    }
  }

  /** `p` is a root whose children are exactly `cs`, in order, all reading the store `store`. */
  ghost predicate RootWithChildren(ns: seq<Node>, p: nat, cs: seq<nat>, store: nat)
    requires p < |ns| && forall k :: 0 <= k < |cs| ==> cs[k] < |ns|
  {
    && ns[p].children == cs && ns[p].parent.None? && ns[p].store == store
    && forall k :: 0 <= k < |cs| ==> ns[cs[k]].parent == Some(p) && ns[cs[k]].store == store
  }

  /**
   * Adding distinct children to a childless root makes them its children,
   * in order, each with that root as parent and reading the root's store.
   */
  lemma {:induction false} AddAllChildren(ns: seq<Node>, p: nat, cs: seq<nat>)
    requires Tree(ns) && p < |ns| && forall k :: 0 <= k < |cs| ==> cs[k] < |ns|
    requires ns[p].parent.None? && ns[p].children == [] && Distinct(cs) && p !in cs
    ensures RootWithChildren(AddAll(ns, p, cs), p, cs, ns[p].store)
    decreases |cs|
  {
    if cs != [] {
      var init, c := cs[..|cs| - 1], cs[|cs| - 1];
      var prev := AddAll(ns, p, init);
      assert AddAll(ns, p, cs) == Added(prev, p, c);
      assert init + [c] == cs;
      assert Distinct(init) && c !in init;
      AddAllChildren(ns, p, init);
      AddChildToRoot(prev, p, init, c, ns[p].store);
    }
  }

  /** One step of `AddAllChildren`: a new child joins the end of a root's children. */
  lemma AddChildToRoot(ns: seq<Node>, p: nat, cs: seq<nat>, c: nat, store: nat)
    requires Tree(ns) && p < |ns| && c < |ns| && forall k :: 0 <= k < |cs| ==> cs[k] < |ns|
    requires RootWithChildren(ns, p, cs, store) && c !in cs && c != p
    ensures RootWithChildren(Added(ns, p, c), p, cs + [c], store)
  {
    RootUnderOnlyItself(ns, p, c);
    AddAppends(ns, p, c);
    AddMoves(ns, p, c, p);
    AddMoves(ns, p, c, c);
    var r, cs2 := Added(ns, p, c), cs + [c];
    forall k | 0 <= k < |cs2| ensures r[cs2[k]].parent == Some(p) && r[cs2[k]].store == store {
      if k < |cs| {
        assert cs2[k] == cs[k];
        ChildOfRootStays(ns, p, c, cs[k]);
      }
    }
  }

  /** Adding another child to a root leaves an existing child of that root in place. */
  lemma ChildOfRootStays(ns: seq<Node>, p: nat, c: nat, x: nat)
    requires Tree(ns) && p < |ns| && c < |ns| && x < |ns|
    requires ns[p].parent.None? && c != p && c !in ns[p].children && x != c && ns[x].parent == Some(p)
    ensures Added(ns, p, c)[x].parent == Some(p) && Added(ns, p, c)[x].store == ns[x].store
  {
    RootUnderOnlyItself(ns, p, c);
    assert !Under(ns, x, c);
    AddMoves(ns, p, c, x);
  }

  /** The node `createNode` makes before it links anything. */
  function FreshNode(opts: Options, counts: map<string, nat>, store: nat): Node {
    Node(KindOf(opts), NameOf(opts, counts), opts.value, None, [], store)
  }

  /**
   * The arena after `createNode`: the fresh node is appended, its
   * children are added one by one, and then it is added to its parent.
   */
  function Created(ns: seq<Node>, node: Node, children: seq<nat>, parent: Option<nat>): (r: seq<Node>)
    requires Tree(ns) && node.parent.None? && node.children == []
    requires forall k :: 0 <= k < |children| ==> children[k] < |ns|
    requires parent.Some? ==> parent.value < |ns|
    ensures |r| == |ns| + 1
  {
    AppendRootTree(ns, node);
    var withChildren := AddAll(ns + [node], |ns|, children);
    match parent
    case None => withChildren
    case Some(p) => Added(withChildren, p, |ns|)
  }

  /** Nothing lies strictly below a childless node. */
  lemma {:induction false} ChildlessBelow(ns: seq<Node>, c: nat, m: nat)
    requires Tree(ns) && m < |ns| && c < |ns| && ns[c].children == [] && m != c
    ensures !Under(ns, m, c)
    decreases Depth(ns)[m]
  {
    match ns[m].parent
    case None =>
    case Some(q) =>
      assert m in ns[q].children;
      ChildlessBelow(ns, c, q);
  }

  /**
   * `createNode({children})` without a parent: the new node is a root whose
   * children are exactly the given ones, in order, each now pointing to it
   * and reading its store; its type, name and value are those it was made with.
   */
  lemma CreatedWithChildren(ns: seq<Node>, node: Node, cs: seq<nat>)
    requires Tree(ns) && node.parent.None? && node.children == []
    requires (forall k :: 0 <= k < |cs| ==> cs[k] < |ns|) && Distinct(cs)
    ensures var r := Created(ns, node, cs, None);
      && r[|ns|].parent.None? && r[|ns|].children == cs
      && r[|ns|].kind == node.kind && r[|ns|].name == node.name && r[|ns|].value == node.value
      && forall k :: 0 <= k < |cs| ==> r[cs[k]].parent == Some(|ns|) && r[cs[k]].store == node.store
  {
    AppendRootTree(ns, node);
    var ns1 := ns + [node];
    AddAllChildren(ns1, |ns|, cs);
    AddAllKeeps(ns1, |ns|, cs, |ns|);
  }

  /**
   * `createNode({parent})` without children: the new node is appended to
   * the parent's children, points to the parent and reads its store.
   */
  lemma CreatedUnderParent(ns: seq<Node>, node: Node, p: nat)
    requires Tree(ns) && node.parent.None? && node.children == [] && p < |ns|
    ensures var r := Created(ns, node, [], Some(p));
      && r[|ns|].parent == Some(p) && r[p].children == ns[p].children + [|ns|]
      && r[|ns|].store == ns[p].store
      && r[|ns|].kind == node.kind && r[|ns|].name == node.name && r[|ns|].value == node.value
  {
    AppendRootTree(ns, node);
    var ns1 := ns + [node];
    var n := |ns|;
    assert AddAll(ns1, n, []) == ns1;
    RootNotListed(ns1, n, p);
    ChildlessBelow(ns1, n, p);
    AddAppends(ns1, p, n);
    AddMoves(ns1, p, n, n);
  }

  // ---------------------------------------------------------------- config

  /** `node.config[key]`: a read through the node's store. */
  function ConfigOf(ns: seq<Node>, stores: seq<map<string, Value>>, n: nat, key: string): Value
    requires n < |ns| && ns[n].store < |stores|
  {
    if key in stores[ns[n].store] then stores[ns[n].store][key] else Undefined
  }

  /** `node.config[key] = v`: a write into the node's store. */
  function ConfigWritten(ns: seq<Node>, stores: seq<map<string, Value>>, n: nat, key: string, v: Value): (r: seq<map<string, Value>>)
    requires n < |ns| && ns[n].store < |stores|
    ensures |r| == |stores|
  {
    stores[ns[n].store := stores[ns[n].store][key := v]]
  }

  /** A write through one node is read back through every node of its tree. */
  lemma ConfigShared(ns: seq<Node>, stores: seq<map<string, Value>>, n: nat, m: nat, key: string, v: Value)
    requires WellFormed(ns, |stores|) && n < |ns| && m < |ns| && Root(ns, n) == Root(ns, m)
    ensures ConfigOf(ns, ConfigWritten(ns, stores, n, key, v), m, key) == v
  {
    SameTreeSameStore(ns, |stores|, m, n);
  }

  /** A write changes no other key, and nothing read through a node with another store. */
  lemma ConfigWriteLocal(ns: seq<Node>, stores: seq<map<string, Value>>, n: nat, m: nat, key: string, other: string, v: Value)
    requires WellFormed(ns, |stores|) && n < |ns| && m < |ns|
    requires ns[m].store != ns[n].store || other != key
    ensures ConfigOf(ns, ConfigWritten(ns, stores, n, key, v), m, other) == ConfigOf(ns, stores, m, other)
  {
  }

  /** After `parent.add(child)`, the child and everything below it read the new parent's config. */
  lemma ConfigAfterMove(ns: seq<Node>, stores: seq<map<string, Value>>, p: nat, c: nat, m: nat, key: string)
    requires WellFormed(ns, |stores|) && p < |ns| && c < |ns| && m < |ns|
    requires c !in ns[p].children && !Under(ns, p, c) && Under(ns, m, c)
    ensures Added(ns, p, c)[m].store == ns[p].store
    ensures ConfigOf(Added(ns, p, c), stores, m, key) == ConfigOf(ns, stores, p, key)
  {
    AddMoves(ns, p, c, m);
  }

  /** `createNode({config, children})`: the children read the config the node was made with. */
  lemma ChildrenReadNewConfig(ns: seq<Node>, stores: seq<map<string, Value>>, opts: Options, counts: map<string, nat>, k: nat, key: string)
    requires WellFormed(ns, |stores|)
    requires (forall j :: 0 <= j < |opts.children| ==> opts.children[j] < |ns|) && Distinct(opts.children)
    requires k < |opts.children|
    ensures var r := Created(ns, FreshNode(opts, counts, |stores|), opts.children, None);
      && r[opts.children[k]].store == |stores|
      && ConfigOf(r, stores + [opts.config.GetOr(map[])], opts.children[k], key)
         == (if key in opts.config.GetOr(map[]) then opts.config.GetOr(map[])[key] else Undefined)
  {
    CreatedWithChildren(ns, FreshNode(opts, counts, |stores|), opts.children);
  }

  /** `config.delimiter || '.'`; a delimiter longer than one character is not modelled. */
  function Delimiter(config: map<string, Value>): char {
    if "delimiter" in config && config["delimiter"].Str? && |config["delimiter"].s| == 1
    then config["delimiter"].s[0] else '.'
  }

  // ---------------------------------------------------------------- the arena

  class Forest {
    var nodes: seq<Node>
    var stores: seq<map<string, Value>>
    var counts: map<string, nat>

    ghost predicate Valid()
      reads this
    {
      WellFormed(nodes, |stores|)
    }

    constructor()
      ensures Valid() && nodes == [] && stores == [] && counts == map[]
    {
      nodes := [];
      stores := [];
      counts := map[];
      assert Layered([], []);
    }

    /** `resetCount()`: generated names start again from 1. */
    method ResetCount()
      modifies this
      ensures counts == map[] && nodes == old(nodes) && stores == old(stores)
    {
      counts := map[];
    }

    /** The first step of `createNode`: a new parentless node with a store of its own. */
    method AppendFresh(opts: Options) returns (n: nat)
      requires Valid()
      modifies this
      ensures Valid()
      ensures n == old(|nodes|)
      ensures nodes == old(nodes) + [FreshNode(opts, old(counts), old(|stores|))]
      ensures stores == old(stores) + [opts.config.GetOr(map[])]
      ensures counts == Counted(old(counts), opts)
    {
      var node := FreshNode(opts, counts, |stores|);
      n := |nodes|;
      AppendRootWellFormed(nodes, |stores|, node);
      nodes := nodes + [node];
      stores := stores + [opts.config.GetOr(map[])];
      counts := Counted(counts, opts);
    }

    /** `children.forEach(child => node.add(child))`. */
    method AddChildren(p: nat, cs: seq<nat>)
      requires Valid() && p < |nodes| && forall k :: 0 <= k < |cs| ==> cs[k] < |nodes|
      modifies this
      ensures Valid()
      ensures nodes == AddAll(old(nodes), p, cs) && stores == old(stores) && counts == old(counts)
    {
      var ns0 := nodes;
      var i := 0;
      while i < |cs|
        invariant 0 <= i <= |cs|
        invariant nodes == AddAll(ns0, p, cs[..i])
        invariant stores == old(stores) && counts == old(counts)
      {
        AddAllSnoc(ns0, p, cs, i);
        nodes := Added(nodes, p, cs[i]);
        i := i + 1;
      }
      assert cs[..i] == cs;
      AddAllWellFormed(ns0, |stores|, p, cs);
    }

    /** `createNode(options)`: returns the id of the new node. */
    method CreateNode(opts: Options) returns (n: nat)
      requires Valid()
      requires forall k :: 0 <= k < |opts.children| ==> opts.children[k] < |nodes|
      requires opts.parent.Some? ==> opts.parent.value < |nodes|
      modifies this
      ensures Valid()
      ensures n == old(|nodes|) && |nodes| == n + 1
      ensures nodes == Created(old(nodes), FreshNode(opts, old(counts), old(|stores|)), opts.children, opts.parent)
      ensures stores == old(stores) + [opts.config.GetOr(map[])]
      ensures counts == Counted(old(counts), opts)
    {
      n := AppendFresh(opts);
      AddChildren(n, opts.children);
      if opts.parent.Some? {
        var _ := Add(opts.parent.value, n);
      }
    }

    /** `parent.add(child)`: returns the parent, so calls chain. */
    method Add(p: nat, c: nat) returns (r: nat)
      requires Valid() && p < |nodes| && c < |nodes|
      modifies this
      ensures Valid() && r == p
      ensures nodes == Added(old(nodes), p, c) && stores == old(stores) && counts == old(counts)
    {
      AddedWellFormed(nodes, |stores|, p, c);
      nodes := Added(nodes, p, c);
      r := p;
    }

    /** `parent.remove(child)`: returns the parent. */
    method Remove(p: nat, c: nat) returns (r: nat)
      requires Valid() && p < |nodes| && c < |nodes|
      modifies this
      ensures Valid() && r == p
      ensures nodes == Removed(old(nodes), p, c) && stores == old(stores) && counts == old(counts)
    {
      RemovedWellFormed(nodes, |stores|, p, c);
      nodes := Removed(nodes, p, c);
      r := p;
    }

    /** `child.parent = newParent` (or `null`). */
    method SetParent(c: nat, np: Option<nat>)
      requires Valid() && c < |nodes| && (np.Some? ==> np.value < |nodes|)
      modifies this
      ensures Valid()
      ensures nodes == Reparented(old(nodes), c, np) && stores == old(stores) && counts == old(counts)
    {
      ReparentedWellFormed(nodes, |stores|, c, np);
      nodes := Reparented(nodes, c, np);
    }

    /** `node.index = i`: move among the siblings, clamped to their range. */
    method SetIndex(c: nat, i: int)
      requires Valid() && c < |nodes|
      modifies this
      ensures Valid()
      ensures nodes == Repositioned(old(nodes), c, i) && stores == old(stores) && counts == old(counts)
    {
      RepositionedWellFormed(nodes, |stores|, c, i);
      nodes := Repositioned(nodes, c, i);
    }

    /** `node.config[key]`. */
    method ConfigGet(n: nat, key: string) returns (v: Value)
      requires Valid() && n < |nodes|
      ensures v == ConfigOf(nodes, stores, n, key)
    {
      var s := stores[nodes[n].store];
      v := if key in s then s[key] else Undefined;
    }

    /** `node.config[key] = v`. */
    method ConfigSet(n: nat, key: string, v: Value)
      requires Valid() && n < |nodes|
      modifies this
      ensures Valid()
      ensures nodes == old(nodes) && counts == old(counts)
      ensures stores == ConfigWritten(old(nodes), old(stores), n, key, v)
    {
      var k := nodes[n].store;
      stores := stores[k := stores[k][key := v]];
    }

    /** `node.at(path)` with the path split on the node's configured delimiter. */
    function PathAt(n: nat, path: string): Option<nat>
      reads this
      requires Valid() && n < |nodes|
    {
      AtString(nodes, n, path, Delimiter(stores[nodes[n].store]))
    }
  }
}
