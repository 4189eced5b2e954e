/**
 * The form node tree as an arena: node `n` is `ns[n]`; `parent` and
 * `children` hold node ids; `store` is the id of the shared config object.
 * This module holds the shape invariants and the pure effect of each
 * structural operation (`add`, `remove`, `parent` assignment, `index`
 * assignment).
 */
module NodeTree {
  import opened Wrappers
  import opened JsValue

  /** A node's name: author-supplied text, or `useIndex` (named by its position). */
  datatype NodeName = Named(text: string) | UseIndex

  datatype Node = Node(
    kind: string,
    name: NodeName,
    value: Value,
    parent: Option<nat>,
    children: seq<nat>,
    store: nat)

  predicate Distinct(cs: seq<nat>) {
    forall i, j :: 0 <= i < j < |cs| ==> cs[i] != cs[j]
  }

  /** `parent` and `children` agree, and no child is listed twice. */
  ghost predicate Linked(ns: seq<Node>) {
    && (forall n :: 0 <= n < |ns| && ns[n].parent.Some? ==>
          ns[n].parent.value < |ns| && n in ns[ns[n].parent.value].children)
    && (forall p, i :: 0 <= p < |ns| && 0 <= i < |ns[p].children| ==>
          ns[p].children[i] < |ns| && ns[ns[p].children[i]].parent == Some(p))
    && (forall p :: 0 <= p < |ns| ==> Distinct(ns[p].children))
  }

  /** `d` gives every node its depth: a root is at 0, a child one below its parent. */
  ghost predicate Layered(ns: seq<Node>, d: seq<nat>) {
    && |d| == |ns|
    && forall n :: 0 <= n < |ns| ==>
         if ns[n].parent.None? then d[n] == 0
         else ns[n].parent.value < |d| && d[n] == d[ns[n].parent.value] + 1
  }

  /** A well-formed forest: links agree and no node is its own ancestor. */
  ghost predicate Tree(ns: seq<Node>) {
    Linked(ns) && exists d :: Layered(ns, d)
  }

  /** Every node uses the config store of its parent, and every store exists. */
  ghost predicate SharedStores(ns: seq<Node>, storeCount: nat) {
    forall n :: 0 <= n < |ns| ==>
      ns[n].store < storeCount
      && (ns[n].parent.Some? && ns[n].parent.value < |ns| ==> ns[n].store == ns[ns[n].parent.value].store)
  }

  ghost predicate WellFormed(ns: seq<Node>, storeCount: nat) {
    Tree(ns) && SharedStores(ns, storeCount)
  }

  ghost function Depth(ns: seq<Node>): (d: seq<nat>)
    requires Tree(ns)
    ensures Layered(ns, d)
  {
    var d :| Layered(ns, d); d
  }

  /** `m` is `c` or lies below it. */
  predicate Under(ns: seq<Node>, m: nat, c: nat)
    requires Tree(ns) && m < |ns|
    decreases Depth(ns)[m]
  {
    m == c || (ns[m].parent.Some? && Under(ns, ns[m].parent.value, c))
  }

  /** `root`: follow `parent` to the node that has none. */
  function Root(ns: seq<Node>, n: nat): (r: nat)
    requires Tree(ns) && n < |ns|
    ensures r < |ns| && ns[r].parent.None? && Under(ns, n, r)
    decreases Depth(ns)[n]
  {
    match ns[n].parent
    case None => n
    case Some(p) => Root(ns, p)
  }

  lemma {:induction false} UnderDepth(ns: seq<Node>, m: nat, c: nat)
    requires Tree(ns) && m < |ns| && Under(ns, m, c)
    ensures c < |ns| && Depth(ns)[m] >= Depth(ns)[c]
    ensures m != c ==> Depth(ns)[m] > Depth(ns)[c]
    decreases Depth(ns)[m]
  {
    if m != c {
      UnderDepth(ns, ns[m].parent.value, c);
    }
  }

  lemma {:induction false} UnderTrans(ns: seq<Node>, m: nat, b: nat, c: nat)
    requires Tree(ns) && m < |ns| && b < |ns| && Under(ns, m, b) && Under(ns, b, c)
    ensures Under(ns, m, c)
    decreases Depth(ns)[m]
  {
    if m != b {
      UnderTrans(ns, ns[m].parent.value, b, c);
    }
  }

  /** A root is below nothing but itself. */
  lemma RootUnderOnlyItself(ns: seq<Node>, r: nat, c: nat)
    requires Tree(ns) && r < |ns| && ns[r].parent.None?
    ensures Under(ns, r, c) <==> r == c
  {
  }

  /** Two nodes are in the same tree exactly when they lie below the same root. */
  lemma {:induction false} RootIsTheAncestorRoot(ns: seq<Node>, n: nat, r: nat)
    requires Tree(ns) && n < |ns| && r < |ns| && ns[r].parent.None? && Under(ns, n, r)
    ensures Root(ns, n) == r
    decreases Depth(ns)[n]
  {
    if n != r {
      RootIsTheAncestorRoot(ns, ns[n].parent.value, r);
    }
  }

  /** Every node reads the config store of its tree's root. */
  lemma {:induction false} StoreOfRoot(ns: seq<Node>, storeCount: nat, n: nat)
    requires WellFormed(ns, storeCount) && n < |ns|
    ensures ns[n].store == ns[Root(ns, n)].store
    decreases Depth(ns)[n]
  {
    if ns[n].parent.Some? {
      StoreOfRoot(ns, storeCount, ns[n].parent.value);
    }
  }

  /** Nodes of one tree share one config store: a write through one is read through the other. */
  lemma SameTreeSameStore(ns: seq<Node>, storeCount: nat, m: nat, n: nat)
    requires WellFormed(ns, storeCount) && m < |ns| && n < |ns| && Root(ns, m) == Root(ns, n)
    ensures ns[m].store == ns[n].store
  {
    StoreOfRoot(ns, storeCount, m);
    StoreOfRoot(ns, storeCount, n);
  }

  /** A listed child has exactly one parent: the node whose `children` list it. */
  lemma ExactlyOneParent(ns: seq<Node>, p: nat, q: nat, c: nat)
    requires Linked(ns) && p < |ns| && q < |ns| && c in ns[p].children && c in ns[q].children
    ensures p == q && ns[c].parent == Some(p)
  {
    var i :| 0 <= i < |ns[p].children| && ns[p].children[i] == c;
    var j :| 0 <= j < |ns[q].children| && ns[q].children[j] == c;
  }

  // ---------------------------------------------------------------- sibling lists

  /** `cs` with `c` taken out, the others in their order. */
  function Without(cs: seq<nat>, c: nat): seq<nat> {
    if cs == [] then []
    else (if cs[0] == c then [] else [cs[0]]) + Without(cs[1..], c)
  }

  /** Taking out `c` removes every occurrence of `c` and keeps every other element with its count. */
  lemma {:induction false} WithoutMultiset(cs: seq<nat>, c: nat)
    ensures multiset(Without(cs, c)) == multiset(cs)[c := 0]
    ensures forall x :: x in Without(cs, c) <==> x in cs && x != c
  {
    if cs != [] {
      WithoutMultiset(cs[1..], c);
      assert cs == [cs[0]] + cs[1..];
      var r := Without(cs, c);
      forall x ensures x in r <==> x in cs && x != c {
        assert x in r <==> x in multiset(r);
        assert x in cs <==> x in multiset(cs);
      }
    }
  }

  /** Taking out an absent element changes nothing. */
  lemma {:induction false} WithoutAbsent(cs: seq<nat>, c: nat)
    requires c !in cs
    ensures Without(cs, c) == cs
  {
    if cs != [] {
      WithoutAbsent(cs[1..], c);
    }
  }

  /** Taking out an element keeps a list without repeats; a listed element shortens it by one. */
  lemma {:induction false} WithoutDistinct(cs: seq<nat>, c: nat)
    requires Distinct(cs)
    ensures Distinct(Without(cs, c))
    ensures c in cs ==> |Without(cs, c)| == |cs| - 1
  {
    if cs != [] {
      WithoutDistinct(cs[1..], c);
      var rest := Without(cs[1..], c);
      assert cs[0] !in cs[1..];
      WithoutMultiset(cs[1..], c);
      if c in cs && cs[0] != c {
        assert c in cs[1..];
      }
      if cs[0] == c {
        WithoutAbsent(cs[1..], c);
      }
    }
  }

  lemma {:induction false} WithoutAppend(a: seq<nat>, b: seq<nat>, c: nat)
    ensures Without(a + b, c) == Without(a, c) + Without(b, c)
    decreases |a|
  {
    if a == [] {
      assert a + b == b;
    } else {
      var ab := a + b;
      var head := if a[0] == c then [] else [a[0]];
      assert ab[0] == a[0] && ab[1..] == a[1..] + b;
      assert Without(ab, c) == head + Without(a[1..] + b, c);
      WithoutAppend(a[1..], b, c);
      assert Without(a, c) == head + Without(a[1..], c);
    }
  }

  /** The position of `c` in `cs` (0 when absent). */
  function IndexOf(cs: seq<nat>, c: nat): (r: nat)
    ensures c in cs ==> r < |cs| && cs[r] == c && forall j :: 0 <= j < r ==> cs[j] != c
  {
    if cs == [] || cs[0] == c then 0 else 1 + IndexOf(cs[1..], c)
  }

  /** The `index` getter: the position among the parent's children; a root's index is 0. */
  function Index(ns: seq<Node>, n: nat): (r: nat)
    requires Linked(ns) && n < |ns|
    ensures ns[n].parent.Some? ==> r < |ns[ns[n].parent.value].children| && ns[ns[n].parent.value].children[r] == n
  {
    match ns[n].parent
    case None => 0
    case Some(p) => IndexOf(ns[p].children, n)
  }

  /** `i` clamped to `0 .. hi`. */
  function Clamp(i: int, hi: nat): (k: nat)
    ensures k <= hi
    ensures 0 <= i <= hi ==> k == i
    ensures i < 0 ==> k == 0
    ensures i > hi ==> k == hi
  {
    if i < 0 then 0 else if i > hi then hi else i
  }

  /** The `index` setter on a sibling list: take `c` out and put it back at the clamped position. */
  function MoveTo(cs: seq<nat>, c: nat, i: int): seq<nat> {
    var rest := Without(cs, c);
    var k := Clamp(i, |rest|);
    rest[..k] + [c] + rest[k..]
  }

  /** An element of a list without repeats occurs exactly once. */
  lemma {:induction false} CountOne(cs: seq<nat>, c: nat)
    requires Distinct(cs) && c in cs
    ensures multiset(cs)[c] == 1
  {
    assert cs == [cs[0]] + cs[1..];
    if cs[0] == c {
      assert c !in cs[1..];
    } else {
      CountOne(cs[1..], c);
    }
  }

  /** Putting `c` back into `rest` at position `k` keeps the elements and their count. */
  lemma InsertPerm(rest: seq<nat>, k: nat, c: nat)
    requires k <= |rest|
    ensures multiset(rest[..k] + [c] + rest[k..]) == multiset(rest) + multiset{c}
  {
    assert rest == rest[..k] + rest[k..];
  }

  /** Taking `c` out again after inserting it into a list without `c` gives the list back. */
  lemma InsertWithout(rest: seq<nat>, k: nat, c: nat)
    requires k <= |rest| && c !in rest
    ensures Without(rest[..k] + [c] + rest[k..], c) == rest
  {
    var a, b := rest[..k], rest[k..];
    assert rest == a + b;
    assert c !in a && c !in b;
    WithoutAppend(a + [c], b, c);
    WithoutAppend(a, [c], c);
    WithoutAbsent(a, c);
    WithoutAbsent(b, c);
    assert [c][1..] == [];
    assert Without([c], c) == [];
    assert Without(a + [c], c) == a;
    assert Without(a + [c] + b, c) == a + b;
  }

  /**
   * Assigning `index` keeps the siblings (same count, same multiset), puts
   * `c` at the requested position clamped to the list, and keeps the order
   * of the other siblings.
   */
  lemma MoveToSpec(cs: seq<nat>, c: nat, i: int)
    requires Distinct(cs) && c in cs
    ensures |MoveTo(cs, c, i)| == |cs|
    ensures multiset(MoveTo(cs, c, i)) == multiset(cs)
    ensures MoveTo(cs, c, i)[Clamp(i, |cs| - 1)] == c
    ensures Without(MoveTo(cs, c, i), c) == Without(cs, c)
    ensures Distinct(MoveTo(cs, c, i))
  {
    var rest := Without(cs, c);
    var k := Clamp(i, |rest|);
    WithoutDistinct(cs, c);
    WithoutMultiset(cs, c);
    CountOne(cs, c);
    assert multiset(cs) == multiset(rest) + multiset{c};
    assert c !in rest;
    InsertPerm(rest, k, c);
    InsertWithout(rest, k, c);
    DistinctInsert(rest, k, c);
    assert |multiset(cs)| == |multiset(rest)| + 1;
  }

  /** Inserting a new element into a list without repeats keeps it without repeats. */
  lemma DistinctInsert(rest: seq<nat>, k: nat, c: nat)
    requires Distinct(rest) && c !in rest && k <= |rest|
    ensures Distinct(rest[..k] + [c] + rest[k..])
  {
    var r := rest[..k] + [c] + rest[k..];
    forall i, j | 0 <= i < j < |r| ensures r[i] != r[j] {
      var ri := if i < k then i else i - 1;
      var rj := if j < k then j else j - 1;
      if i != k && j != k {
        assert r[i] == rest[ri] && r[j] == rest[rj] && ri < rj;
      } else if i == k {
        assert r[j] == rest[rj];
      } else {
        assert r[i] == rest[ri];
      }
    }
  }

  /** The clamping the tests exercise on four siblings: 1 and 3 land there, -1 lands at 0, 99 at 3. */
  lemma MoveToExamples(cs: seq<nat>, c: nat)
    requires |cs| == 4 && Distinct(cs) && c in cs
    ensures |MoveTo(cs, c, 1)| == 4 && MoveTo(cs, c, 1)[1] == c
    ensures |MoveTo(cs, c, 3)| == 4 && MoveTo(cs, c, 3)[3] == c
    ensures |MoveTo(cs, c, -1)| == 4 && MoveTo(cs, c, -1)[0] == c
    ensures |MoveTo(cs, c, 99)| == 4 && MoveTo(cs, c, 99)[3] == c
  {
    MoveToSpec(cs, c, 1);
    MoveToSpec(cs, c, 3);
    MoveToSpec(cs, c, -1);
    MoveToSpec(cs, c, 99);
  }

  // ---------------------------------------------------------------- detaching

  /** Take `c` out of its parent's `children` and clear its `parent`; a root is left as it is. */
  function Detach(ns: seq<Node>, c: nat): (r: seq<Node>)
    requires Linked(ns) && c < |ns|
    ensures |r| == |ns| && r[c].parent.None?
  {
    match ns[c].parent
    case None => ns
    case Some(q) =>
      var ns1 := ns[c := ns[c].(parent := None)];
      ns1[q := ns1[q].(children := Without(ns1[q].children, c))]
  }

  /** What detaching changes: `c`'s parent link and its old parent's `children`, nothing else. */
  lemma DetachShape(ns: seq<Node>, c: nat, n: nat)
    requires Tree(ns) && c < |ns| && n < |ns|
    ensures Detach(ns, c)[n].kind == ns[n].kind && Detach(ns, c)[n].name == ns[n].name
    ensures Detach(ns, c)[n].value == ns[n].value && Detach(ns, c)[n].store == ns[n].store
    ensures Detach(ns, c)[n].parent == if n == c then None else ns[n].parent
    ensures Detach(ns, c)[n].children ==
      if ns[c].parent == Some(n) then Without(ns[n].children, c) else ns[n].children
  {
    if ns[c].parent.Some? {
      assert ns[c].parent.value != c by { var d := Depth(ns); }
    }
  }

  lemma DetachParentsListed(ns: seq<Node>, c: nat, n: nat)
    requires Tree(ns) && c < |ns| && n < |ns|
    ensures Detach(ns, c)[n].parent.Some? ==>
      Detach(ns, c)[n].parent.value < |ns| && n in Detach(ns, c)[Detach(ns, c)[n].parent.value].children
  {
    DetachShape(ns, c, n);
    if n != c && ns[n].parent.Some? {
      var m := ns[n].parent.value;
      DetachShape(ns, c, m);
      if ns[c].parent == Some(m) {
        WithoutMultiset(ns[m].children, c);
      }
    }
  }

  lemma DetachChildrenPointBack(ns: seq<Node>, c: nat, p: nat, i: nat)
    requires Tree(ns) && c < |ns| && p < |ns| && i < |Detach(ns, c)[p].children|
    ensures Detach(ns, c)[p].children[i] < |ns|
    ensures Detach(ns, c)[Detach(ns, c)[p].children[i]].parent == Some(p)
    ensures Distinct(Detach(ns, c)[p].children)
  {
    DetachShape(ns, c, p);
    WithoutDistinct(ns[p].children, c);
    var x := Detach(ns, c)[p].children[i];
    if ns[c].parent == Some(p) {
      WithoutMultiset(ns[p].children, c);
    }
    assert x in ns[p].children && x != c;
    DetachShape(ns, c, x);
  }

  lemma DetachLinked(ns: seq<Node>, c: nat)
    requires Tree(ns) && c < |ns|
    ensures Linked(Detach(ns, c))
  {
    var r := Detach(ns, c);
    forall n | 0 <= n < |r| && r[n].parent.Some?
      ensures r[n].parent.value < |r| && n in r[r[n].parent.value].children
    {
      DetachParentsListed(ns, c, n);
    }
    forall p, i | 0 <= p < |r| && 0 <= i < |r[p].children|
      ensures r[p].children[i] < |r| && r[r[p].children[i]].parent == Some(p)
    {
      DetachChildrenPointBack(ns, c, p, i);
    }
    forall p | 0 <= p < |r| ensures Distinct(r[p].children) {
      DetachShape(ns, c, p);
      WithoutDistinct(ns[p].children, c);
    }
  }

  /** Depths after detaching `c`: the subtree of `c` moves up by the old depth of `c`. */
  ghost function DetachDepth(ns: seq<Node>, c: nat): (d2: seq<nat>)
    requires Tree(ns) && c < |ns|
    ensures |d2| == |ns|
  {
    var d := Depth(ns);
    seq(|ns|, m requires 0 <= m < |ns| =>
      if Under(ns, m, c) then (UnderDepth(ns, m, c); d[m] - d[c]) else d[m])
  }

  lemma DetachDepthAt(ns: seq<Node>, c: nat, n: nat)
    requires Tree(ns) && c < |ns| && n < |ns|
    ensures var r, d2 := Detach(ns, c), DetachDepth(ns, c);
      if r[n].parent.None? then d2[n] == 0
      else r[n].parent.value < |d2| && d2[n] == d2[r[n].parent.value] + 1
  {
    DetachShape(ns, c, n);
    var d := Depth(ns);
    if n != c && ns[n].parent.Some? {
      var m := ns[n].parent.value;
      assert Under(ns, n, c) <==> Under(ns, m, c);
      if Under(ns, m, c) {
        UnderDepth(ns, m, c);
      }
    }
  }

  lemma DetachLayered(ns: seq<Node>, c: nat)
    requires Tree(ns) && c < |ns|
    ensures exists d :: Layered(Detach(ns, c), d)
  {
    var r, d2 := Detach(ns, c), DetachDepth(ns, c);
    forall n | 0 <= n < |r|
      ensures if r[n].parent.None? then d2[n] == 0
              else r[n].parent.value < |d2| && d2[n] == d2[r[n].parent.value] + 1
    {
      DetachDepthAt(ns, c, n);
    }
    assert Layered(r, d2);
  }

  lemma DetachTree(ns: seq<Node>, storeCount: nat, c: nat)
    requires WellFormed(ns, storeCount) && c < |ns|
    ensures WellFormed(Detach(ns, c), storeCount)
  {
    DetachLinked(ns, c);
    DetachLayered(ns, c);
    var r := Detach(ns, c);
    forall n | 0 <= n < |r|
      ensures r[n].store < storeCount
      ensures r[n].parent.Some? && r[n].parent.value < |r| ==> r[n].store == r[r[n].parent.value].store
    {
      DetachShape(ns, c, n);
      if r[n].parent.Some? {
        DetachShape(ns, c, r[n].parent.value);
      }
    }
  }

  /** Detaching `c` leaves the subtree below `c` as it was. */
  lemma {:induction false} DetachUnder(ns: seq<Node>, c: nat, m: nat)
    requires Tree(ns) && c < |ns| && m < |ns|
    requires Tree(Detach(ns, c))
    ensures Under(Detach(ns, c), m, c) <==> Under(ns, m, c)
    decreases Depth(ns)[m]
  {
    var r := Detach(ns, c);
    if m != c {
      assert r[m].parent == ns[m].parent by {
        if ns[c].parent.Some? && m == ns[c].parent.value {
        }
      }
      if ns[m].parent.Some? {
        DetachUnder(ns, c, ns[m].parent.value);
      }
    }
  }

  // ---------------------------------------------------------------- attaching

  /** Node `m` after attaching the root `c` below `p`: the subtree of `c` adopts the store of `p`. */
  function AttachNode(ns: seq<Node>, p: nat, c: nat, m: nat): Node
    requires Tree(ns) && p < |ns| && m < |ns|
  {
    var x := if Under(ns, m, c) then ns[m].(store := ns[p].store) else ns[m];
    if m == c then x.(parent := Some(p))
    else if m == p then x.(children := x.children + [c])
    else x
  }

  /** Append the root `c` to the `children` of `p` and point `c` at `p`. */
  function Attach(ns: seq<Node>, p: nat, c: nat): (r: seq<Node>)
    requires Tree(ns) && p < |ns| && c < |ns| && ns[c].parent.None? && !Under(ns, p, c)
    ensures |r| == |ns|
  {
    seq(|ns|, m requires 0 <= m < |ns| => AttachNode(ns, p, c, m))
  }

  /** What attaching changes: `c`'s parent, `p`'s children and the stores of `c`'s subtree. */
  lemma AttachShape(ns: seq<Node>, p: nat, c: nat, n: nat)
    requires Tree(ns) && p < |ns| && c < |ns| && ns[c].parent.None? && !Under(ns, p, c) && n < |ns|
    ensures Attach(ns, p, c)[n].kind == ns[n].kind && Attach(ns, p, c)[n].name == ns[n].name
    ensures Attach(ns, p, c)[n].value == ns[n].value
    ensures Attach(ns, p, c)[n].store == if Under(ns, n, c) then ns[p].store else ns[n].store
    ensures Attach(ns, p, c)[n].parent == if n == c then Some(p) else ns[n].parent
    ensures Attach(ns, p, c)[n].children == if n == p then ns[p].children + [c] else ns[n].children
  {
    assert p != c;
    assert Attach(ns, p, c)[n] == AttachNode(ns, p, c, n);
  }

  /** A root is in nobody's `children`. */
  lemma RootNotListed(ns: seq<Node>, c: nat, q: nat)
    requires Linked(ns) && c < |ns| && q < |ns| && ns[c].parent.None?
    ensures c !in ns[q].children
  {
    forall i | 0 <= i < |ns[q].children| ensures ns[q].children[i] != c {
      assert ns[ns[q].children[i]].parent == Some(q);
    }
  }

  lemma AttachParentsListed(ns: seq<Node>, p: nat, c: nat, n: nat)
    requires Tree(ns) && p < |ns| && c < |ns| && ns[c].parent.None? && !Under(ns, p, c) && n < |ns|
    ensures Attach(ns, p, c)[n].parent.Some? ==>
      Attach(ns, p, c)[n].parent.value < |ns| && n in Attach(ns, p, c)[Attach(ns, p, c)[n].parent.value].children
  {
    AttachShape(ns, p, c, n);
    if Attach(ns, p, c)[n].parent.Some? {
      AttachShape(ns, p, c, Attach(ns, p, c)[n].parent.value);
    }
  }

  lemma AttachChildrenPointBack(ns: seq<Node>, p: nat, c: nat, q: nat, i: nat)
    requires Tree(ns) && p < |ns| && c < |ns| && ns[c].parent.None? && !Under(ns, p, c)
    requires q < |ns| && i < |Attach(ns, p, c)[q].children|
    ensures Attach(ns, p, c)[q].children[i] < |ns|
    ensures Attach(ns, p, c)[Attach(ns, p, c)[q].children[i]].parent == Some(q)
  {
    AttachShape(ns, p, c, q);
    var x := Attach(ns, p, c)[q].children[i];
    if !(q == p && i == |ns[p].children|) {
      assert x == ns[q].children[i];
      RootNotListed(ns, c, q);
    }
    AttachShape(ns, p, c, x);
  }

  lemma AttachLinked(ns: seq<Node>, p: nat, c: nat)
    requires Tree(ns) && p < |ns| && c < |ns| && ns[c].parent.None? && !Under(ns, p, c)
    ensures Linked(Attach(ns, p, c))
  {
    var r := Attach(ns, p, c);
    forall n | 0 <= n < |r| && r[n].parent.Some?
      ensures r[n].parent.value < |r| && n in r[r[n].parent.value].children
    {
      AttachParentsListed(ns, p, c, n);
    }
    forall q, i | 0 <= q < |r| && 0 <= i < |r[q].children|
      ensures r[q].children[i] < |r| && r[r[q].children[i]].parent == Some(q)
    {
      AttachChildrenPointBack(ns, p, c, q, i);
    }
    forall q | 0 <= q < |r| ensures Distinct(r[q].children) {
      AttachShape(ns, p, c, q);
      RootNotListed(ns, c, q);
    }
  }

  /** Depths after attaching: the subtree of `c` moves down by one more than the depth of `p`. */
  ghost function AttachDepth(ns: seq<Node>, p: nat, c: nat): (d2: seq<nat>)
    requires Tree(ns) && p < |ns|
    ensures |d2| == |ns|
  {
    var d := Depth(ns);
    seq(|ns|, m requires 0 <= m < |ns| => if Under(ns, m, c) then d[m] + d[p] + 1 else d[m])
  }

  lemma AttachDepthAt(ns: seq<Node>, p: nat, c: nat, n: nat)
    requires Tree(ns) && p < |ns| && c < |ns| && ns[c].parent.None? && !Under(ns, p, c) && n < |ns|
    ensures var r, d2 := Attach(ns, p, c), AttachDepth(ns, p, c);
      if r[n].parent.None? then d2[n] == 0
      else r[n].parent.value < |d2| && d2[n] == d2[r[n].parent.value] + 1
  {
    AttachShape(ns, p, c, n);
    if n != c && ns[n].parent.Some? {
      var m := ns[n].parent.value;
      assert Under(ns, n, c) <==> Under(ns, m, c);
    }
  }

  lemma AttachLayered(ns: seq<Node>, p: nat, c: nat)
    requires Tree(ns) && p < |ns| && c < |ns| && ns[c].parent.None? && !Under(ns, p, c)
    ensures exists d :: Layered(Attach(ns, p, c), d)
  {
    var r, d2 := Attach(ns, p, c), AttachDepth(ns, p, c);
    forall n | 0 <= n < |r|
      ensures if r[n].parent.None? then d2[n] == 0
              else r[n].parent.value < |d2| && d2[n] == d2[r[n].parent.value] + 1
    {
      AttachDepthAt(ns, p, c, n);
    }
    assert Layered(r, d2);
  }

  lemma AttachTree(ns: seq<Node>, storeCount: nat, p: nat, c: nat)
    requires WellFormed(ns, storeCount) && p < |ns| && c < |ns| && ns[c].parent.None? && !Under(ns, p, c)
    ensures WellFormed(Attach(ns, p, c), storeCount)
  {
    AttachLinked(ns, p, c);
    AttachLayered(ns, p, c);
    var r := Attach(ns, p, c);
    forall n | 0 <= n < |r|
      ensures r[n].store < storeCount
      ensures r[n].parent.Some? && r[n].parent.value < |r| ==> r[n].store == r[r[n].parent.value].store
    {
      AttachShape(ns, p, c, n);
      if r[n].parent.Some? {
        var m := r[n].parent.value;
        AttachShape(ns, p, c, m);
        if n != c {
          assert Under(ns, n, c) <==> Under(ns, m, c);
        }
      }
    }
  }

  // ---------------------------------------------------------------- the public operations

  /**
   * `p.add(c)`: a child already listed is left alone (identity-based), and so
   * is an add that would make a node its own ancestor; otherwise `c` leaves
   * its old parent and is appended to `p`'s children.
   */
  function Added(ns: seq<Node>, p: nat, c: nat): (r: seq<Node>)
    requires Tree(ns) && p < |ns| && c < |ns|
    ensures |r| == |ns| && Tree(r)
  {
    if c in ns[p].children || Under(ns, p, c) then ns
    else
      DetachLinked(ns, c);
      DetachLayered(ns, c);
      var ns1 := Detach(ns, c);
      DetachUnder(ns, c, p);
      AttachLinked(ns1, p, c);
      AttachLayered(ns1, p, c);
      Attach(ns1, p, c)
  }

  /** `p.remove(c)`: only a listed child is detached. */
  function Removed(ns: seq<Node>, p: nat, c: nat): (r: seq<Node>)
    requires Tree(ns) && p < |ns| && c < |ns|
    ensures |r| == |ns| && Tree(r)
  {
    DetachLinked(ns, c);
    DetachLayered(ns, c);
    if c in ns[p].children then Detach(ns, c) else ns
  }

  /** `c.parent = np`: `null` detaches, a node adds `c` to it. */
  function Reparented(ns: seq<Node>, c: nat, np: Option<nat>): (r: seq<Node>)
    requires Tree(ns) && c < |ns| && (np.Some? ==> np.value < |ns|)
    ensures |r| == |ns| && Tree(r)
  {
    DetachLinked(ns, c);
    DetachLayered(ns, c);
    match np
    case None => Detach(ns, c)
    case Some(p) => Added(ns, p, c)
  }

  /** `c.index = i`: move `c` within its parent's children; a root is left alone. */
  function Repositioned(ns: seq<Node>, c: nat, i: int): (r: seq<Node>)
    requires Linked(ns) && c < |ns|
    ensures |r| == |ns|
  {
    match ns[c].parent
    case None => ns
    case Some(p) => ns[p := ns[p].(children := MoveTo(ns[p].children, c, i))]
  }

  lemma AddedWellFormed(ns: seq<Node>, storeCount: nat, p: nat, c: nat)
    requires WellFormed(ns, storeCount) && p < |ns| && c < |ns|
    ensures WellFormed(Added(ns, p, c), storeCount)
  {
    if !(c in ns[p].children || Under(ns, p, c)) {
      DetachTree(ns, storeCount, c);
      DetachUnder(ns, c, p);
      AttachTree(Detach(ns, c), storeCount, p, c);
    }
  }

  /**
   * What `p.add(c)` does to node `n` when `c` is new to `p`: `c` points at
   * `p`, is appended to `p`'s children and taken out of its old parent's;
   * the subtree of `c` adopts `p`'s config store; nothing else changes.
   */
  lemma AddMoves(ns: seq<Node>, p: nat, c: nat, n: nat)
    requires Tree(ns) && p < |ns| && c < |ns| && n < |ns|
    requires c !in ns[p].children && !Under(ns, p, c)
    ensures Added(ns, p, c)[n].parent == if n == c then Some(p) else ns[n].parent
    ensures Added(ns, p, c)[n].children ==
      if n == p then ns[p].children + [c]
      else if ns[c].parent == Some(n) then Without(ns[n].children, c)
      else ns[n].children
    ensures Added(ns, p, c)[n].store == if Under(ns, n, c) then ns[p].store else ns[n].store
    ensures Added(ns, p, c)[n].name == ns[n].name && Added(ns, p, c)[n].kind == ns[n].kind
    ensures Added(ns, p, c)[n].value == ns[n].value
  {
    DetachLinked(ns, c);
    DetachLayered(ns, c);
    var ns1 := Detach(ns, c);
    DetachUnder(ns, c, p);
    DetachUnder(ns, c, n);
    DetachShape(ns, c, n);
    DetachShape(ns, c, p);
    AttachShape(ns1, p, c, n);
    assert ns[c].parent != Some(p);
  }

  /** Adding the same child twice has the effect of adding it once. */
  lemma AddIdempotent(ns: seq<Node>, p: nat, c: nat)
    requires Tree(ns) && p < |ns| && c < |ns|
    ensures Added(Added(ns, p, c), p, c) == Added(ns, p, c)
  {
    if !(c in ns[p].children || Under(ns, p, c)) {
      AddMoves(ns, p, c, p);
      assert Added(ns, p, c)[p].children[|ns[p].children|] == c;
    }
  }

  /** After `p.add(c)` (when not refused), `c` is the last child of `p`, listed once. */
  lemma AddAppends(ns: seq<Node>, p: nat, c: nat)
    requires Tree(ns) && p < |ns| && c < |ns| && c !in ns[p].children && !Under(ns, p, c)
    ensures Added(ns, p, c)[c].parent == Some(p)
    ensures Added(ns, p, c)[p].children == ns[p].children + [c]
    ensures Index(Added(ns, p, c), c) == |ns[p].children|
  {
    AddMoves(ns, p, c, c);
    AddMoves(ns, p, c, p);
    var cs := ns[p].children + [c];
    assert forall j :: 0 <= j < |ns[p].children| ==> cs[j] != c;
  }

  /** Moving `c` from `q` to `p` shortens the children of `q` by one and keeps the others in order. */
  lemma AddTakesFromOldParent(ns: seq<Node>, p: nat, c: nat, q: nat)
    requires Tree(ns) && p < |ns| && c < |ns| && c !in ns[p].children && !Under(ns, p, c)
    requires ns[c].parent == Some(q)
    ensures Added(ns, p, c)[q].children == Without(ns[q].children, c)
    ensures c !in Added(ns, p, c)[q].children
    ensures |Added(ns, p, c)[q].children| == |ns[q].children| - 1
  {
    AddMoves(ns, p, c, q);
    assert q != p;
    assert c in ns[q].children;
    WithoutDistinct(ns[q].children, c);
    WithoutMultiset(ns[q].children, c);
  }

  /** `p.remove(c)`: `c` loses its parent, `p` loses exactly `c`, every other node is unchanged. */
  lemma RemoveDetaches(ns: seq<Node>, p: nat, c: nat, n: nat)
    requires Tree(ns) && p < |ns| && c < |ns| && n < |ns| && c in ns[p].children
    ensures Removed(ns, p, c)[c].parent.None?
    ensures Removed(ns, p, c)[p].children == Without(ns[p].children, c)
    ensures |Removed(ns, p, c)[p].children| == |ns[p].children| - 1
    ensures n != c ==> Removed(ns, p, c)[n].parent == ns[n].parent
    ensures n != p ==> Removed(ns, p, c)[n].children == ns[n].children
    ensures Removed(ns, p, c)[n].store == ns[n].store
  {
    var i :| 0 <= i < |ns[p].children| && ns[p].children[i] == c;
    assert ns[c].parent == Some(p);
    DetachShape(ns, c, n);
    DetachShape(ns, c, p);
    WithoutDistinct(ns[p].children, c);
  }

  /** Removing a node that is not a child changes nothing. */
  lemma RemoveOfNonChild(ns: seq<Node>, p: nat, c: nat)
    requires Tree(ns) && p < |ns| && c < |ns| && c !in ns[p].children
    ensures Removed(ns, p, c) == ns
  {
  }

  lemma RemovedWellFormed(ns: seq<Node>, storeCount: nat, p: nat, c: nat)
    requires WellFormed(ns, storeCount) && p < |ns| && c < |ns|
    ensures WellFormed(Removed(ns, p, c), storeCount)
  {
    DetachTree(ns, storeCount, c);
  }

  lemma ReparentedWellFormed(ns: seq<Node>, storeCount: nat, c: nat, np: Option<nat>)
    requires WellFormed(ns, storeCount) && c < |ns| && (np.Some? ==> np.value < |ns|)
    ensures WellFormed(Reparented(ns, c, np), storeCount)
  {
    match np
    case None => DetachTree(ns, storeCount, c);
    case Some(p) => AddedWellFormed(ns, storeCount, p, c);
  }

  /** A list position holds the first occurrence when the list has no repeats. */
  lemma IndexOfDistinct(cs: seq<nat>, k: nat)
    requires Distinct(cs) && k < |cs|
    ensures IndexOf(cs, cs[k]) == k
  {
  }

  /** `c.index = i` changes only the order of one `children` list. */
  lemma RepositionedShape(ns: seq<Node>, c: nat, i: int, n: nat)
    requires Tree(ns) && c < |ns| && n < |ns|
    ensures Repositioned(ns, c, i)[n].parent == ns[n].parent
    ensures Repositioned(ns, c, i)[n].store == ns[n].store
    ensures forall x :: x in Repositioned(ns, c, i)[n].children <==> x in ns[n].children
    ensures Distinct(Repositioned(ns, c, i)[n].children)
  {
    if ns[c].parent == Some(n) {
      var cs := ns[n].children;
      assert c in cs;
      MoveToSpec(cs, c, i);
      var cs2 := MoveTo(cs, c, i);
      forall x ensures x in cs2 <==> x in cs {
        assert x in cs2 <==> x in multiset(cs2);
        assert x in cs <==> x in multiset(cs);
      }
    }
  }

  lemma RepositionedWellFormed(ns: seq<Node>, storeCount: nat, c: nat, i: int)
    requires WellFormed(ns, storeCount) && c < |ns|
    ensures WellFormed(Repositioned(ns, c, i), storeCount)
  {
    var r := Repositioned(ns, c, i);
    forall n | 0 <= n < |r|
      ensures r[n].parent == ns[n].parent && r[n].store == ns[n].store
      ensures forall x :: x in r[n].children <==> x in ns[n].children
      ensures Distinct(r[n].children)
    {
      RepositionedShape(ns, c, i, n);
    }
    var d := Depth(ns);
    assert Layered(r, d);
    forall q, j | 0 <= q < |r| && 0 <= j < |r[q].children|
      ensures r[q].children[j] < |r| && r[r[q].children[j]].parent == Some(q)
    {
      var x := r[q].children[j];
      assert x in ns[q].children;
    }
  }

  /** After `c.index = i`, the `index` getter reads `i` clamped to the sibling positions. */
  lemma RepositionedIndex(ns: seq<Node>, storeCount: nat, c: nat, i: int)
    requires WellFormed(ns, storeCount) && c < |ns| && ns[c].parent.Some?
    ensures WellFormed(Repositioned(ns, c, i), storeCount)
    ensures Index(Repositioned(ns, c, i), c) == Clamp(i, |ns[ns[c].parent.value].children| - 1)
    ensures |Repositioned(ns, c, i)[ns[c].parent.value].children| == |ns[ns[c].parent.value].children|
  {
    RepositionedWellFormed(ns, storeCount, c, i);
    var p := ns[c].parent.value;
    MoveToSpec(ns[p].children, c, i);
    IndexOfDistinct(MoveTo(ns[p].children, c, i), Clamp(i, |ns[p].children| - 1));
  }
}
