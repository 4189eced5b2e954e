/**
 * The pure half of the verbose watcher: listing every key path of a watched
 * object (`getPaths`), reading the value at a path (`get`) and the value a
 * path's watcher depends on (`touch`).
 */
module ObjectPaths {
  import opened Wrappers
  import opened Decimal
  import opened JsValue

  /** The object handed to the watcher: a `Ref` wrapping a value, or a reactive object. */
  datatype Root = Ref(value: Value) | Reactive(value: Value)

  /** A key path with its `__str` (the keys joined by '.') and its `__deep` marker. */
  datatype ObjectPath = ObjectPath(segs: seq<string>, str: string, deep: bool)

  /** `path.join('.')`. */
  function Join(segs: seq<string>): string {
    if segs == [] then ""
    else if |segs| == 1 then segs[0]
    else Join(segs[..|segs| - 1]) + "." + segs[|segs| - 1]
  }

  /** A path as `getPaths` builds it for a property: `__str` is the joined keys. */
  function MakePath(segs: seq<string>, deep: bool): ObjectPath {
    ObjectPath(segs, Join(segs), deep)
  }

  /** The empty path `getPaths` emits for a top-level `Ref`; its `__str` is "". */
  function RefPath(deep: bool): ObjectPath {
    ObjectPath([], "", deep)
  }

  // ---------------------------------------------------------------- get

  /** A record's property `k` (the first field so named), or `undefined`. */
  function FieldValue(fs: seq<Field>, k: string): Value {
    if fs == [] then Undefined
    else if fs[0].key == k then fs[0].val
    else FieldValue(fs[1..], k)
  }

  /** `value[k]` on a record or an array (`length` included, as JavaScript arrays have it). */
  function Lookup(v: Value, k: string): Value
    requires Structured(v)
  {
    match v
    case Record(fs) => FieldValue(fs, k)
    case Array(xs) =>
      if k == "length" then Num(|xs|)
      else match ParseIndex(k)
        case Some(i) => if i < |xs| then xs[i] else Undefined
        case None => Undefined
  }

  /** One step of the `reduce` in `get`: a `null` or non-object value is passed on unchanged. */
  function Step(v: Value, k: string): Value {
    if v.Null? || !IsObjectType(v) then v else Lookup(v, k)
  }

  /** The `reduce` in `get`: descend one key per segment, left to right. */
  function Descend(v: Value, segs: seq<string>): Value
    decreases |segs|
  {
    if segs == [] then v else Descend(Step(v, segs[0]), segs[1..])
  }

  /** `get(obj, path)`: a `Ref` is unwrapped once; the empty path on a `Ref` is its value. */
  function Get(obj: Root, path: seq<string>): (r: Value)
    ensures r == Descend(obj.value, path)
  {
    match obj
    case Ref(x) => if |path| == 0 then x else Descend(x, path)
    case Reactive(x) => Descend(x, path)
  }

  /** What `touch` returns: the key list of an object, or the value itself. */
  datatype Touched = KeyList(keys: seq<string>) | Scalar(value: Value)

  /**
   * `touch(obj, path)`: the value the watcher of `path` depends on. For an
   * object only its keys count, since each property has a watcher of its own.
   */
  function Touch(obj: Root, path: seq<string>): (r: Touched)
    ensures r.KeyList? <==> Structured(Get(obj, path))
    ensures r.KeyList? ==> r.keys == Keys(Get(obj, path))
    ensures r.Scalar? ==> r.value == Get(obj, path)
  {
    var v := Get(obj, path);
    if Truthy(v) && IsObjectType(v) then KeyList(Keys(v)) else Scalar(v)
  }

  // ---------------------------------------------------------------- getPaths

  /**
   * The paths `getPaths` lists for the first `n` properties of `v`, under the
   * key prefix `parents`.
   */
  function WalkUpTo(v: Value, parents: seq<string>, n: nat): seq<ObjectPath>
    requires n <= Count(v)
    decreases v, n
  {
    if n == 0 then [] else WalkUpTo(v, parents, n - 1) + Visit(v, parents, n - 1)
  }

  /**
   * The paths one iteration of the `for...in` loop adds for property `i`: the
   * property's own path, and right after a record or array the paths inside it.
   */
  function Visit(v: Value, parents: seq<string>, i: nat): seq<ObjectPath>
    requires i < Count(v)
    decreases v, i
  {
    var path := parents + [KeyAt(v, i)];
    var child := if v.Record? then v.fields[i].val else v.items[i];
    if Structured(child) then [MakePath(path, true)] + WalkUpTo(child, path, Count(child))
    else [MakePath(path, false)]
  }

  /** All key paths below `v`, depth first, in key order. */
  function Walk(v: Value, parents: seq<string>): seq<ObjectPath> {
    WalkUpTo(v, parents, Count(v))
  }

  /**
   * What `getPaths` may be given: the top-level `Ref` (never with parents), or
   * `null`, a record or an array (its TypeScript parameter type).
   */
  predicate Enumerable(obj: Root, parents: seq<string>) {
    match obj
    case Ref(_) => parents == []
    case Reactive(v) => IsObjectType(v)
  }

  /** The list `getPaths(obj, paths, ...parents)` returns. */
  function PathsOf(obj: Root, paths: seq<ObjectPath>, parents: seq<string>): seq<ObjectPath>
    requires Enumerable(obj, parents)
  {
    match obj
    case Reactive(v) => if v.Null? then paths else paths + Walk(v, parents)
    case Ref(x) =>
      if Structured(x) then paths + [RefPath(true)] + Walk(x, [])
      else [RefPath(false)]
  }

  /** `getPaths`: appends to `paths` while walking the properties, recursing into objects. */
  method GetPaths(obj: Root, paths: seq<ObjectPath>, parents: seq<string>) returns (r: seq<ObjectPath>)
    requires Enumerable(obj, parents)
    ensures r == PathsOf(obj, paths, parents)
    decreases obj.value, 2
  {
    if obj.Reactive? && obj.value.Null? {
      return paths;
    }
    var v := obj.value;
    if obj.Ref? {
      if Truthy(v) && IsObjectType(v) {
        r := WalkPropertiesLoop(v, paths + [RefPath(true)], []);
      } else {
        r := [RefPath(false)];
      }
    } else {
      r := WalkPropertiesLoop(v, paths, parents);
    }
  }

  /** The `for...in` loop of `getPaths` over the properties of `v`. */
  method WalkPropertiesLoop(v: Value, paths: seq<ObjectPath>, parents: seq<string>) returns (r: seq<ObjectPath>)
    ensures r == paths + Walk(v, parents)
    decreases v, 1
  {
    r := paths;
    var i := 0;
    while i < Count(v)
      invariant i <= Count(v)
      invariant r == paths + WalkUpTo(v, parents, i)
    {
      var found := VisitProperty(v, parents, i);
      assert WalkUpTo(v, parents, i + 1) == WalkUpTo(v, parents, i) + found;
      assert r + found == paths + (WalkUpTo(v, parents, i) + found);
      r := r + found;
      i := i + 1;
    }
  }

  /** One iteration of the loop: the property's own path, then the paths inside a record or array. */
  method VisitProperty(v: Value, parents: seq<string>, i: nat) returns (found: seq<ObjectPath>)
    requires i < Count(v)
    ensures found == Visit(v, parents, i)
    decreases v, 0
  {
    var path := parents + [KeyAt(v, i)];
    var child := if v.Record? then v.fields[i].val else v.items[i];
    if Structured(child) {
      var sub := GetPaths(Reactive(child), [], path);
      found := [MakePath(path, true)] + sub;
    } else {
      found := [MakePath(path, false)];
    }
  }

  // ---------------------------------------------------------------- properties of get

  /** Descending along `a + b` is descending along `a`, then along `b`. */
  lemma {:induction false} DescendAppend(v: Value, a: seq<string>, b: seq<string>)
    ensures Descend(v, a + b) == Descend(Descend(v, a), b)
    decreases |a|
  {
    if a != [] {
      assert (a + b)[0] == a[0] && (a + b)[1..] == a[1..] + b;
      DescendAppend(Step(v, a[0]), a[1..], b);
    } else {
      assert a + b == b;
    }
  }

  /** Once a `null` or non-object value is reached, the remaining segments are ignored. */
  lemma {:induction false} LeafAbsorbs(v: Value, segs: seq<string>)
    requires !Structured(v)
    ensures Descend(v, segs) == v
    decreases |segs|
  {
    if segs != [] {
      LeafAbsorbs(v, segs[1..]);
    }
  }

  /** `get` returns the first `null` or non-object value met on the way down. */
  lemma DescendStopsAtLeaf(obj: Root, segs: seq<string>, i: nat)
    requires i <= |segs| && !Structured(Get(obj, segs[..i]))
    ensures Get(obj, segs) == Get(obj, segs[..i])
  {
    assert segs == segs[..i] + segs[i..];
    DescendAppend(obj.value, segs[..i], segs[i..]);
    LeafAbsorbs(Descend(obj.value, segs[..i]), segs[i..]);
  }

  /** With distinct keys, a record's property is the field of that key. */
  lemma {:induction false} FieldValueAt(fs: seq<Field>, i: nat)
    requires i < |fs|
    requires forall a, b :: 0 <= a < b < |fs| ==> fs[a].key != fs[b].key
    ensures FieldValue(fs, fs[i].key) == fs[i].val
  {
    if i > 0 {
      assert fs[0].key != fs[i].key;
      FieldValueAt(fs[1..], i - 1);
    }
  }

  /** Reading the `i`-th enumerated key of an object gives the `i`-th property value. */
  lemma LookupChild(v: Value, i: nat)
    requires WellKeyed(v) && i < Count(v)
    ensures Structured(v) && Lookup(v, KeyAt(v, i)) == ChildAt(v, i)
  {
    if v.Record? {
      FieldValueAt(v.fields, i);
    } else {
      ParseNatToString(i);
      assert NatToString(i) != "length";
    }
  }

  // ---------------------------------------------------------------- properties of getPaths

  /** Every path in `ps` lies strictly below `parents`, and its `__str` is its keys joined. */
  predicate Below(ps: seq<ObjectPath>, parents: seq<string>) {
    forall k :: 0 <= k < |ps| ==>
      |ps[k].segs| > |parents| && ps[k].segs[..|parents|] == parents && ps[k].str == Join(ps[k].segs)
  }

  lemma {:induction false} WalkUpToBelow(v: Value, parents: seq<string>, n: nat)
    requires n <= Count(v)
    ensures Below(WalkUpTo(v, parents, n), parents)
    decreases v, n
  {
    if n > 0 {
      WalkUpToBelow(v, parents, n - 1);
      VisitBelow(v, parents, n - 1);
    }
  }

  lemma {:induction false} VisitBelow(v: Value, parents: seq<string>, i: nat)
    requires i < Count(v)
    ensures Below(Visit(v, parents, i), parents)
    decreases v, i
  {
    var path := parents + [KeyAt(v, i)];
    var child := if v.Record? then v.fields[i].val else v.items[i];
    if Structured(child) {
      WalkUpToBelow(child, path, Count(child));
      var sub := WalkUpTo(child, path, Count(child));
      forall k | 0 <= k < |sub|
        ensures sub[k].segs[..|parents|] == parents
      {
        assert sub[k].segs[..|parents|] == sub[k].segs[..|path|][..|parents|];
      }
    }
  }

  /** Every listed path has the right `__str`, and `__deep` exactly when its value is a record or array. */
  predicate Faithful(v: Value, parents: seq<string>, p: ObjectPath) {
    && |p.segs| > |parents|
    && p.segs[..|parents|] == parents
    && p.str == Join(p.segs)
    && p.deep == Structured(Descend(v, p.segs[|parents|..]))
  }

  lemma {:induction false} WalkUpToFaithful(v: Value, parents: seq<string>, n: nat)
    requires WellKeyed(v) && n <= Count(v)
    ensures forall k :: 0 <= k < |WalkUpTo(v, parents, n)| ==> Faithful(v, parents, WalkUpTo(v, parents, n)[k])
    decreases v, n
  {
    if n > 0 {
      WalkUpToFaithful(v, parents, n - 1);
      VisitFaithful(v, parents, n - 1);
      var a, b := WalkUpTo(v, parents, n - 1), Visit(v, parents, n - 1);
      assert WalkUpTo(v, parents, n) == a + b;
      forall k | 0 <= k < |a + b| ensures Faithful(v, parents, (a + b)[k]) {
        if k >= |a| {
          assert (a + b)[k] == b[k - |a|];
        }
      }
    }
  }

  lemma {:induction false} VisitFaithful(v: Value, parents: seq<string>, i: nat)
    requires WellKeyed(v) && i < Count(v)
    ensures forall k :: 0 <= k < |Visit(v, parents, i)| ==> Faithful(v, parents, Visit(v, parents, i)[k])
    decreases v, i
  {
    var path := parents + [KeyAt(v, i)];
    var child := ChildAt(v, i);
    var vis := Visit(v, parents, i);
    LiftFaithful(v, parents, i, MakePath(path, Structured(child)));
    if Structured(child) {
      assert WellKeyed(child);
      WalkUpToBelow(child, path, Count(child));
      WalkUpToFaithful(child, path, Count(child));
      var sub := WalkUpTo(child, path, Count(child));
      assert vis == [MakePath(path, true)] + sub;
      forall k | 0 <= k < |vis| ensures Faithful(v, parents, vis[k]) {
        if k > 0 {
          assert vis[k] == sub[k - 1];
          LiftFaithful(v, parents, i, sub[k - 1]);
        }
      }
    }
  }

  /** A path faithful below property `i` of `v` (or that property's own path) is faithful below `v`. */
  lemma LiftFaithful(v: Value, parents: seq<string>, i: nat, p: ObjectPath)
    requires WellKeyed(v) && i < Count(v)
    requires p == MakePath(parents + [KeyAt(v, i)], Structured(ChildAt(v, i)))
          || Faithful(ChildAt(v, i), parents + [KeyAt(v, i)], p)
    ensures Faithful(v, parents, p)
  {
    var key := KeyAt(v, i);
    var path := parents + [key];
    LookupChild(v, i);
    assert Descend(v, [key]) == ChildAt(v, i);
    var segs := p.segs;
    if p == MakePath(path, Structured(ChildAt(v, i))) {
      assert segs[..|parents|] == parents && segs[|parents|..] == [key];
    } else {
      assert segs[..|parents|] == segs[..|path|][..|parents|];
      assert segs[|parents|..] == [key] + segs[|path|..];
      DescendAppend(v, [key], segs[|path|..]);
    }
  }

  /**
   * Depth-first order: every path more than one key below `base` comes after
   * its parent path, and that parent is marked `__deep`.
   */
  predicate ParentsFirst(ps: seq<ObjectPath>, base: nat) {
    forall j :: 0 <= j < |ps| && |ps[j].segs| > base + 1 ==>
      exists i :: 0 <= i < j && ps[i].deep && ps[i].segs == ps[j].segs[..|ps[j].segs| - 1]
  }

  lemma ParentsFirstConcat(a: seq<ObjectPath>, b: seq<ObjectPath>, base: nat)
    requires ParentsFirst(a, base) && ParentsFirst(b, base)
    ensures ParentsFirst(a + b, base)
  {
    var ab := a + b;
    forall j | 0 <= j < |ab| && |ab[j].segs| > base + 1
      ensures exists i :: 0 <= i < j && ab[i].deep && ab[i].segs == ab[j].segs[..|ab[j].segs| - 1]
    {
      if j < |a| {
        var i :| 0 <= i < j && a[i].deep && a[i].segs == a[j].segs[..|a[j].segs| - 1];
        assert ab[i] == a[i];
      } else {
        assert ab[j] == b[j - |a|];
        var i :| 0 <= i < j - |a| && b[i].deep && b[i].segs == b[j - |a|].segs[..|b[j - |a|].segs| - 1];
        assert ab[i + |a|] == b[i];
      }
    }
  }

  lemma {:induction false} WalkUpToParentsFirst(v: Value, parents: seq<string>, n: nat)
    requires n <= Count(v)
    ensures ParentsFirst(WalkUpTo(v, parents, n), |parents|)
    decreases v, n
  {
    if n > 0 {
      WalkUpToParentsFirst(v, parents, n - 1);
      VisitParentsFirst(v, parents, n - 1);
      ParentsFirstConcat(WalkUpTo(v, parents, n - 1), Visit(v, parents, n - 1), |parents|);
    }
  }

  /** A `__deep` path followed by paths below it keeps parents first. */
  lemma PrependParent(head: ObjectPath, sub: seq<ObjectPath>, base: nat)
    requires head.deep && |head.segs| == base + 1
    requires Below(sub, head.segs) && ParentsFirst(sub, base + 1)
    ensures ParentsFirst([head] + sub, base)
  {
    var vis := [head] + sub;
    forall j | 0 <= j < |vis| && |vis[j].segs| > base + 1
      ensures exists i :: 0 <= i < j && vis[i].deep && vis[i].segs == vis[j].segs[..|vis[j].segs| - 1]
    {
      var i := ParentIndex(head, sub, base, j);
    }
  }

  /** Where the parent of entry `j` of `[head] + sub` sits: `head` itself, or its place in `sub`. */
  lemma ParentIndex(head: ObjectPath, sub: seq<ObjectPath>, base: nat, j: nat) returns (i: nat)
    requires head.deep && |head.segs| == base + 1
    requires Below(sub, head.segs) && ParentsFirst(sub, base + 1)
    requires j < |sub| + 1 && |([head] + sub)[j].segs| > base + 1
    ensures i < j && ([head] + sub)[i].deep && ([head] + sub)[i].segs == ([head] + sub)[j].segs[..|([head] + sub)[j].segs| - 1]
  {
    var vis := [head] + sub;
    assert j > 0 && vis[j] == sub[j - 1];
    var segs := sub[j - 1].segs;
    if |segs| > base + 2 {
      assert 0 <= j - 1 < |sub| && |sub[j - 1].segs| > base + 1;
      var i0 :| 0 <= i0 < j - 1 && sub[i0].deep && sub[i0].segs == segs[..|segs| - 1];
      i := i0 + 1;
      assert vis[i] == sub[i0];
    } else {
      i := 0;
      assert |segs| == base + 2;
      assert segs[..base + 1] == head.segs;
      assert segs[..|segs| - 1] == segs[..base + 1];
    }
  }


  lemma {:induction false} VisitParentsFirst(v: Value, parents: seq<string>, i: nat)
    requires i < Count(v)
    ensures ParentsFirst(Visit(v, parents, i), |parents|)
    decreases v, i
  {
    var path := parents + [KeyAt(v, i)];
    var child := if v.Record? then v.fields[i].val else v.items[i];
    if Structured(child) {
      WalkUpToParentsFirst(child, path, Count(child));
      WalkUpToBelow(child, path, Count(child));
      PrependParent(MakePath(path, true), WalkUpTo(child, path, Count(child)), |parents|);
    }
  }

  /** `getPaths` lists parents before descendants, with right `__str` and `__deep` markers. */
  lemma WalkProperties(v: Value, parents: seq<string>)
    requires WellKeyed(v)
    ensures forall k :: 0 <= k < |Walk(v, parents)| ==> Faithful(v, parents, Walk(v, parents)[k])
    ensures ParentsFirst(Walk(v, parents), |parents|)
  {
    WalkUpToFaithful(v, parents, Count(v));
    WalkUpToParentsFirst(v, parents, Count(v));
  }

  // ---------------------------------------------------------------- getPaths lists exactly the key paths

  /** `q` names an enumerable property at every step down from `v`, as `Object.keys` lists them. */
  predicate IsKeyPath(v: Value, q: seq<string>)
    decreases |q|
  {
    q == [] || (Structured(v) && q[0] in Keys(v) && IsKeyPath(Lookup(v, q[0]), q[1..]))
  }

  /** The position of an enumerated key. */
  lemma KeyIndex(v: Value, k: string) returns (i: nat)
    requires k in Keys(v)
    ensures i < Count(v) && KeyAt(v, i) == k
  {
    var ks := Keys(v);
    var j :| 0 <= j < |ks| && ks[j] == k;
    i := j;
  }

  /** Distinct property positions have distinct keys. */
  lemma KeysDistinct(v: Value, i: nat, j: nat)
    requires WellKeyed(v) && i < Count(v) && j < Count(v) && i != j
    ensures KeyAt(v, i) != KeyAt(v, j)
  {
    if !v.Record? {
      NatToStringInjective(i, j);
    }
  }

  /** A key path through property `i` is that property's key followed by a key path of its value. */
  lemma KeyStep(v: Value, i: nat, rest: seq<string>)
    requires WellKeyed(v) && i < Count(v)
    ensures IsKeyPath(v, [KeyAt(v, i)] + rest) <==> IsKeyPath(ChildAt(v, i), rest)
    ensures Descend(v, [KeyAt(v, i)] + rest) == Descend(ChildAt(v, i), rest)
  {
    var q := [KeyAt(v, i)] + rest;
    assert q[0] == KeyAt(v, i) && q[1..] == rest;
    LookupChild(v, i);
    assert KeyAt(v, i) in Keys(v) by { assert Keys(v)[i] == KeyAt(v, i); }
  }

  lemma ChildWellKeyed(v: Value, i: nat)
    requires WellKeyed(v) && i < Count(v)
    ensures WellKeyed(ChildAt(v, i))
  {
    if v.Record? {
      assert ChildAt(v, i) == v.fields[i].val;
    } else {
      assert ChildAt(v, i) == v.items[i];
    }
  }

  /** A non-empty key path is its first key followed by the rest. */
  lemma ConsPath(parents: seq<string>, q: seq<string>)
    requires |q| > 0
    ensures parents + [q[0]] + q[1..] == parents + q
  {
    assert q == [q[0]] + q[1..];
  }

  /** Membership in the first `n` iterations is membership in one of them. */
  lemma WalkUpToMember(v: Value, parents: seq<string>, n: nat, p: ObjectPath)
    requires n <= Count(v)
    ensures p in WalkUpTo(v, parents, n) <==> exists i :: 0 <= i < n && p in Visit(v, parents, i)
  {
    if p in WalkUpTo(v, parents, n) {
      var i := ListedBy(v, parents, n, p);
    }
    if exists i :: 0 <= i < n && p in Visit(v, parents, i) {
      var i :| 0 <= i < n && p in Visit(v, parents, i);
      ListedIn(v, parents, n, i, p);
    }
  }

  /** The iteration that listed `p`. */
  lemma {:induction false} ListedBy(v: Value, parents: seq<string>, n: nat, p: ObjectPath) returns (i: nat)
    requires n <= Count(v) && p in WalkUpTo(v, parents, n)
    ensures i < n && p in Visit(v, parents, i)
  {
    var a, b := WalkUpTo(v, parents, n - 1), Visit(v, parents, n - 1);
    assert WalkUpTo(v, parents, n) == a + b;
    if p in a {
      i := ListedBy(v, parents, n - 1, p);
    } else {
      i := n - 1;
    }
  }

  /** A path listed by one of the first `n` iterations is in their list. */
  lemma {:induction false} ListedIn(v: Value, parents: seq<string>, n: nat, i: nat, p: ObjectPath)
    requires i < n <= Count(v) && p in Visit(v, parents, i)
    ensures p in WalkUpTo(v, parents, n)
  {
    var a, b := WalkUpTo(v, parents, n - 1), Visit(v, parents, n - 1);
    assert WalkUpTo(v, parents, n) == a + b;
    if i < n - 1 {
      ListedIn(v, parents, n - 1, i, p);
      assert p in a;
    } else {
      assert p in b;
    }
  }

  /** Every listed path spells a key path, and is `__deep` exactly when the value there is an object. */
  lemma {:induction false} WalkUpToSound(v: Value, parents: seq<string>, n: nat, p: ObjectPath) returns (q: seq<string>)
    requires WellKeyed(v) && n <= Count(v) && p in WalkUpTo(v, parents, n)
    ensures |q| > 0 && IsKeyPath(v, q) && p == MakePath(parents + q, Structured(Descend(v, q)))
    decreases v, n
  {
    if p in WalkUpTo(v, parents, n - 1) {
      q := WalkUpToSound(v, parents, n - 1, p);
    } else {
      q := VisitSound(v, parents, n - 1, p);
    }
  }

  lemma {:induction false} VisitSound(v: Value, parents: seq<string>, i: nat, p: ObjectPath) returns (q: seq<string>)
    requires WellKeyed(v) && i < Count(v) && p in Visit(v, parents, i)
    ensures |q| > 0 && IsKeyPath(v, q) && p == MakePath(parents + q, Structured(Descend(v, q)))
    decreases v, i
  {
    var key := KeyAt(v, i);
    var sub: seq<string> := [];
    if p != MakePath(parents + [key], Structured(ChildAt(v, i))) {
      sub := VisitSoundBelow(v, parents, i, p);
    }
    q := [key] + sub;
    KeyStep(v, i, sub);
    assert q[0] == key && q[1..] == sub;
    ConsPath(parents, q);
  }

  /** A path of property `i` other than its own lies in the walk of the property's value. */
  lemma VisitSoundBelow(v: Value, parents: seq<string>, i: nat, p: ObjectPath) returns (sub: seq<string>)
    requires WellKeyed(v) && i < Count(v) && p in Visit(v, parents, i)
    requires p != MakePath(parents + [KeyAt(v, i)], Structured(ChildAt(v, i)))
    ensures Structured(ChildAt(v, i)) && |sub| > 0 && IsKeyPath(ChildAt(v, i), sub)
    ensures p == MakePath(parents + [KeyAt(v, i)] + sub, Structured(Descend(ChildAt(v, i), sub)))
    decreases v, i, 0
  {
    var path := parents + [KeyAt(v, i)];
    var child := if v.Record? then v.fields[i].val else v.items[i];
    assert Structured(child);
    assert WellKeyed(child);
    sub := WalkUpToSound(child, path, Count(child), p);
  }

  /** Every key path below `v` is listed, with its `__deep` marker. */
  lemma {:induction false} WalkComplete(v: Value, parents: seq<string>, q: seq<string>)
    requires WellKeyed(v) && |q| > 0 && IsKeyPath(v, q)
    ensures MakePath(parents + q, Structured(Descend(v, q))) in Walk(v, parents)
    decreases |q|
  {
    var i := KeyIndex(v, q[0]);
    var path := parents + [q[0]];
    var child := ChildAt(v, i);
    assert q == [KeyAt(v, i)] + q[1..];
    KeyStep(v, i, q[1..]);
    var p := MakePath(parents + q, Structured(Descend(v, q)));
    ConsPath(parents, q);
    if |q| == 1 {
      assert q[1..] == [] && path + q[1..] == path;
      assert Visit(v, parents, i)[0] == p;
    } else {
      assert Structured(child) && WellKeyed(child) by { ChildWellKeyed(v, i); }
      WalkComplete(child, path, q[1..]);
      assert p in Visit(v, parents, i);
    }
    WalkUpToMember(v, parents, Count(v), p);
  }

  /**
   * `getPaths` lists exactly the key paths of the object: a path is listed
   * if and only if its keys, read one after another, name existing
   * properties, and it is `__deep` exactly when the value there is an object.
   */
  lemma WalkListsKeyPaths(v: Value, parents: seq<string>, p: ObjectPath)
    requires WellKeyed(v)
    ensures p in Walk(v, parents) <==>
      exists q :: |q| > 0 && IsKeyPath(v, q) && p == MakePath(parents + q, Structured(Descend(v, q)))
  {
    if p in Walk(v, parents) {
      var q := WalkUpToSound(v, parents, Count(v), p);
    }
    if exists q :: |q| > 0 && IsKeyPath(v, q) && p == MakePath(parents + q, Structured(Descend(v, q))) {
      var q :| |q| > 0 && IsKeyPath(v, q) && p == MakePath(parents + q, Structured(Descend(v, q)));
      WalkComplete(v, parents, q);
    }
  }

  /** No two entries of a list share their keys. */
  predicate SegsDistinct(ps: seq<ObjectPath>) {
    forall a, b :: 0 <= a < b < |ps| ==> ps[a].segs != ps[b].segs
  }

  /** Every path of iteration `i` starts with the parents and the `i`-th key. */
  lemma VisitKey(v: Value, parents: seq<string>, i: nat, p: ObjectPath)
    requires i < Count(v) && p in Visit(v, parents, i)
    ensures |p.segs| > |parents| && p.segs[|parents|] == KeyAt(v, i)
  {
    var path := parents + [KeyAt(v, i)];
    var child := if v.Record? then v.fields[i].val else v.items[i];
    if p != MakePath(path, Structured(child)) {
      var sub := WalkUpTo(child, path, Count(child));
      WalkUpToBelow(child, path, Count(child));
      var k :| 0 <= k < |sub| && sub[k] == p;
      assert p.segs[..|path|] == path;
      assert p.segs[|parents|] == p.segs[..|path|][|parents|];
    }
  }

  /** Each key path is listed once. */
  lemma {:induction false} WalkUpToDistinct(v: Value, parents: seq<string>, n: nat)
    requires WellKeyed(v) && n <= Count(v)
    ensures SegsDistinct(WalkUpTo(v, parents, n))
    decreases v, n
  {
    if n > 0 {
      var a, b := WalkUpTo(v, parents, n - 1), Visit(v, parents, n - 1);
      WalkUpToDistinct(v, parents, n - 1);
      VisitDistinct(v, parents, n - 1);
      forall x, y | 0 <= x < |a| && 0 <= y < |b| ensures a[x].segs != b[y].segs {
        WalkUpToMember(v, parents, n - 1, a[x]);
        var i :| 0 <= i < n - 1 && a[x] in Visit(v, parents, i);
        VisitKey(v, parents, i, a[x]);
        VisitKey(v, parents, n - 1, b[y]);
        KeysDistinct(v, i, n - 1);
      }
      SegsDistinctConcat(a, b);
    }
  }

  lemma SegsDistinctConcat(a: seq<ObjectPath>, b: seq<ObjectPath>)
    requires SegsDistinct(a) && SegsDistinct(b)
    requires forall x, y :: 0 <= x < |a| && 0 <= y < |b| ==> a[x].segs != b[y].segs
    ensures SegsDistinct(a + b)
  {
    var ab := a + b;
    forall x, y | 0 <= x < y < |ab| ensures ab[x].segs != ab[y].segs {
      if y < |a| {
        assert ab[x] == a[x] && ab[y] == a[y];
      } else if x >= |a| {
        assert ab[x] == b[x - |a|] && ab[y] == b[y - |a|];
      } else {
        assert ab[x] == a[x] && ab[y] == b[y - |a|];
      }
    }
  }

  lemma {:induction false} VisitDistinct(v: Value, parents: seq<string>, i: nat)
    requires WellKeyed(v) && i < Count(v)
    ensures SegsDistinct(Visit(v, parents, i))
    decreases v, i
  {
    var path := parents + [KeyAt(v, i)];
    var child := if v.Record? then v.fields[i].val else v.items[i];
    if Structured(child) {
      assert WellKeyed(child);
      var sub := WalkUpTo(child, path, Count(child));
      WalkUpToDistinct(child, path, Count(child));
      WalkUpToBelow(child, path, Count(child));
      SegsDistinctConcat([MakePath(path, true)], sub);
    }
  }

  /** The paths of iteration `m` sit in the walk right after those of the iterations before it. */
  lemma {:induction false} VisitPlaced(v: Value, parents: seq<string>, m: nat, n: nat, t: nat)
    requires m < n <= Count(v) && t < |Visit(v, parents, m)|
    ensures |WalkUpTo(v, parents, m)| + t < |WalkUpTo(v, parents, n)|
    ensures WalkUpTo(v, parents, n)[|WalkUpTo(v, parents, m)| + t] == Visit(v, parents, m)[t]
    decreases n
  {
    if m < n - 1 {
      VisitPlaced(v, parents, m, n - 1, t);
    }
  }

  /** The walk of property `m`'s value sits, in order, in the walk of `v`, right after the property's own path. */
  lemma LiftPositions(v: Value, parents: seq<string>, m: nat, path: seq<string>, a0: nat, b0: nat)
    returns (a: nat, b: nat)
    requires m < Count(v) && Structured(ChildAt(v, m)) && path == parents + [KeyAt(v, m)]
    requires a0 < b0 < |Walk(ChildAt(v, m), path)|
    ensures a < b < |Walk(v, parents)|
    ensures Walk(v, parents)[a] == Walk(ChildAt(v, m), path)[a0]
    ensures Walk(v, parents)[b] == Walk(ChildAt(v, m), path)[b0]
  {
    var sub := Walk(ChildAt(v, m), path);
    var w, vis := WalkUpTo(v, parents, Count(v)), Visit(v, parents, m);
    assert Walk(v, parents) == w;
    assert vis == [MakePath(path, true)] + sub;
    assert vis[1 + a0] == sub[a0] && vis[1 + b0] == sub[b0];
    VisitPlaced(v, parents, m, Count(v), 1 + a0);
    VisitPlaced(v, parents, m, Count(v), 1 + b0);
    a, b := |WalkUpTo(v, parents, m)| + 1 + a0, |WalkUpTo(v, parents, m)| + 1 + b0;
    assert w[a] == vis[1 + a0] && w[b] == vis[1 + b0];
  }

  /** Where the paths of keys `i < j` of the object at key path `q` are listed. */
  lemma {:induction false} SiblingPositions(v: Value, parents: seq<string>, q: seq<string>, i: nat, j: nat)
    returns (a: nat, b: nat)
    requires WellKeyed(v) && IsKeyPath(v, q) && i < j < Count(Descend(v, q))
    ensures a < b < |Walk(v, parents)|
    ensures Walk(v, parents)[a].segs == parents + q + [KeyAt(Descend(v, q), i)]
    ensures Walk(v, parents)[b].segs == parents + q + [KeyAt(Descend(v, q), j)]
    decreases |q|
  {
    if q == [] {
      assert parents + q == parents;
      a, b := TopSiblingPositions(v, parents, i, j);
    } else {
      var m := KeyIndex(v, q[0]);
      var path := parents + [q[0]];
      var child := ChildAt(v, m);
      var u := Descend(v, q);
      assert q == [KeyAt(v, m)] + q[1..];
      KeyStep(v, m, q[1..]);
      ChildWellKeyed(v, m);
      var a0, b0 := SiblingPositions(child, path, q[1..], i, j);
      ConsPath(parents, q);
      a, b := LiftPositions(v, parents, m, path, a0, b0);
    }
  }

  /** The paths of keys `i < j` of `v` itself are listed at the start of their iterations. */
  lemma TopSiblingPositions(v: Value, parents: seq<string>, i: nat, j: nat) returns (a: nat, b: nat)
    requires i < j < Count(v)
    ensures a < b < |Walk(v, parents)|
    ensures Walk(v, parents)[a].segs == parents + [KeyAt(v, i)]
    ensures Walk(v, parents)[b].segs == parents + [KeyAt(v, j)]
  {
    VisitHead(v, parents, i);
    VisitHead(v, parents, j);
    VisitPlaced(v, parents, i, Count(v), 0);
    VisitPlaced(v, parents, j, Count(v), 0);
    VisitPlaced(v, parents, i, j, 0);
    a, b := |WalkUpTo(v, parents, i)|, |WalkUpTo(v, parents, j)|;
  }

  /** Each iteration starts with the property's own path. */
  lemma VisitHead(v: Value, parents: seq<string>, i: nat)
    requires i < Count(v)
    ensures |Visit(v, parents, i)| > 0 && Visit(v, parents, i)[0].segs == parents + [KeyAt(v, i)]
  {
  }

  /**
   * Siblings come in key order: for keys `i < j` of the object at key path
   * `q`, the path of key `i` is listed before the path of key `j`.
   */
  lemma SiblingsInKeyOrder(v: Value, parents: seq<string>, q: seq<string>, i: nat, j: nat)
    requires WellKeyed(v) && IsKeyPath(v, q) && i < j < Count(Descend(v, q))
    ensures exists a, b :: (0 <= a < b < |Walk(v, parents)|
      && Walk(v, parents)[a].segs == parents + q + [KeyAt(Descend(v, q), i)]
      && Walk(v, parents)[b].segs == parents + q + [KeyAt(Descend(v, q), j)])
  {
    var a, b := SiblingPositions(v, parents, q, i, j);
  }

  /** The keys of `p` start with `pre`. */
  predicate Extends(p: ObjectPath, pre: seq<string>) {
    |pre| <= |p.segs| && p.segs[..|pre|] == pre
  }

  /** The iteration that listed entry `a` of the first `n` iterations, and where in it. */
  lemma {:induction false} BlockOf(v: Value, parents: seq<string>, n: nat, a: nat) returns (i: nat)
    requires n <= Count(v) && a < |WalkUpTo(v, parents, n)|
    ensures i < n && |WalkUpTo(v, parents, i)| <= a < |WalkUpTo(v, parents, i)| + |Visit(v, parents, i)|
    ensures WalkUpTo(v, parents, n)[a] == Visit(v, parents, i)[a - |WalkUpTo(v, parents, i)|]
  {
    var prev := WalkUpTo(v, parents, n - 1);
    assert WalkUpTo(v, parents, n) == prev + Visit(v, parents, n - 1);
    if a < |prev| {
      assert WalkUpTo(v, parents, n)[a] == prev[a];
      i := BlockOf(v, parents, n - 1, a);
    } else {
      i := n - 1;
    }
  }

  /** Every path of iteration `i` extends the parents by the `i`-th key. */
  lemma VisitExtends(v: Value, parents: seq<string>, i: nat, t: nat)
    requires i < Count(v) && t < |Visit(v, parents, i)|
    ensures Extends(Visit(v, parents, i)[t], parents + [KeyAt(v, i)])
  {
    var p := Visit(v, parents, i)[t];
    VisitKey(v, parents, i, p);
    VisitBelow(v, parents, i);
    assert p.segs[..|parents| + 1] == p.segs[..|parents|] + [p.segs[|parents|]];
  }

  /**
   * Depth first: the paths below any key path form one unbroken stretch of
   * the list, so a subtree is listed in full before the next sibling.
   */
  lemma {:induction false} SubtreeContiguous(v: Value, parents: seq<string>, r: seq<string>, a: nat, b: nat, c: nat)
    requires WellKeyed(v) && |r| > 0 && a <= c <= b < |Walk(v, parents)|
    requires Extends(Walk(v, parents)[a], parents + r) && Extends(Walk(v, parents)[b], parents + r)
    ensures Extends(Walk(v, parents)[c], parents + r)
    decreases v, 1
  {
    ExtendsKey(Walk(v, parents)[a], parents, r);
    ExtendsKey(Walk(v, parents)[b], parents, r);
    var i, base := CommonIteration(v, parents, Count(v), r[0], a, b, c);
    if |r| == 1 {
      VisitExtends(v, parents, i, c - base);
    } else {
      InsideChild(v, parents, r, i, a - base, b - base, c - base);
    }
  }

  /** A path that extends `parents + r` has `r[0]` right after the parents. */
  lemma ExtendsKey(p: ObjectPath, parents: seq<string>, r: seq<string>)
    requires |r| > 0 && Extends(p, parents + r)
    ensures |p.segs| > |parents| && p.segs[|parents|] == r[0]
  {
    assert p.segs[|parents|] == p.segs[..|parents + r|][|parents|];
  }

  /** Entry `a` of the first `n` iterations, with the iteration that listed it and that iteration's key. */
  lemma EntryOf(v: Value, parents: seq<string>, n: nat, a: nat) returns (i: nat, base: nat)
    requires n <= Count(v) && a < |WalkUpTo(v, parents, n)|
    ensures i < n && base == |WalkUpTo(v, parents, i)| && base <= a < base + |Visit(v, parents, i)|
    ensures WalkUpTo(v, parents, n)[a] == Visit(v, parents, i)[a - base]
    ensures |WalkUpTo(v, parents, n)[a].segs| > |parents| && WalkUpTo(v, parents, n)[a].segs[|parents|] == KeyAt(v, i)
  {
    i := BlockOf(v, parents, n, a);
    base := |WalkUpTo(v, parents, i)|;
    VisitKey(v, parents, i, Visit(v, parents, i)[a - base]);
  }

  /** Entries `a` to `b` of the first `n` iterations with the same key after the parents come from the one iteration of that key. */
  lemma CommonIteration(v: Value, parents: seq<string>, n: nat, key: string, a: nat, b: nat, c: nat) returns (i: nat, base: nat)
    requires WellKeyed(v) && n <= Count(v) && a <= c <= b < |WalkUpTo(v, parents, n)|
    requires |WalkUpTo(v, parents, n)[a].segs| > |parents| && WalkUpTo(v, parents, n)[a].segs[|parents|] == key
    requires |WalkUpTo(v, parents, n)[b].segs| > |parents| && WalkUpTo(v, parents, n)[b].segs[|parents|] == key
    ensures i < n && KeyAt(v, i) == key && base <= a && b - base < |Visit(v, parents, i)|
    ensures WalkUpTo(v, parents, n)[a] == Visit(v, parents, i)[a - base]
    ensures WalkUpTo(v, parents, n)[b] == Visit(v, parents, i)[b - base]
    ensures WalkUpTo(v, parents, n)[c] == Visit(v, parents, i)[c - base]
  {
    i, base := EntryOf(v, parents, n, a);
    var ib, baseB := EntryOf(v, parents, n, b);
    if i != ib {
      KeysDistinct(v, i, ib);
      assert false;
    }
    VisitPlaced(v, parents, i, n, c - base);
  }

  /** The recursive step of `SubtreeContiguous`, inside iteration `i`. */
  lemma {:induction false} InsideChild(v: Value, parents: seq<string>, r: seq<string>, i: nat, a: nat, b: nat, c: nat)
    requires WellKeyed(v) && |r| > 1 && i < Count(v) && KeyAt(v, i) == r[0]
    requires a <= c <= b < |Visit(v, parents, i)|
    requires Extends(Visit(v, parents, i)[a], parents + r) && Extends(Visit(v, parents, i)[b], parents + r)
    ensures Extends(Visit(v, parents, i)[c], parents + r)
    decreases v, 0
  {
    var key := KeyAt(v, i);
    var path := parents + [key];
    ConsPath(parents, r);
    assert path + r[1..] == parents + r;
    VisitHead(v, parents, i);
    assert a > 0;
    var child := if v.Record? then v.fields[i].val else v.items[i];
    ChildWellKeyed(v, i);
    assert Structured(child);
    var sub := Walk(child, path);
    assert Visit(v, parents, i) == [MakePath(path, true)] + sub;
    SubtreeContiguous(child, path, r[1..], a - 1, b - 1, c - 1);
  }

  /** `getPaths` lists each key path exactly once. */
  lemma WalkOnce(v: Value, parents: seq<string>)
    requires WellKeyed(v)
    ensures SegsDistinct(Walk(v, parents))
  {
    WalkUpToDistinct(v, parents, Count(v));
  }

  /** The documented example: `{a: {b: 123}, c: 567}` gives `a`, `a.b`, `c`. */
  lemma WalkExample()
    ensures Walk(Record([Field("a", Record([Field("b", Num(123))])), Field("c", Num(567))]), [])
      == [MakePath(["a"], true), MakePath(["a", "b"], false), MakePath(["c"], false)]
  {
    var inner := Record([Field("b", Num(123))]);
    var v := Record([Field("a", inner), Field("c", Num(567))]);
    assert ["a"] + [KeyAt(inner, 0)] == ["a", "b"];
    assert [] + [KeyAt(v, 0)] == ["a"] && [] + [KeyAt(v, 1)] == ["c"];
    assert Visit(inner, ["a"], 0) == [MakePath(["a", "b"], false)];
    assert WalkUpTo(inner, ["a"], 1) == [MakePath(["a", "b"], false)];
    assert Visit(v, [], 0) == [MakePath(["a"], true), MakePath(["a", "b"], false)];
    assert Visit(v, [], 1) == [MakePath(["c"], false)];
    assert WalkUpTo(v, [], 1) == Visit(v, [], 0);
  }

  /** `getPaths(null, acc)` is `acc`; a `Ref` to a non-object gives only the empty path. */
  lemma PathsOfEdgeCases(acc: seq<ObjectPath>, x: Value)
    ensures PathsOf(Reactive(Null), acc, []) == acc
    ensures !Structured(x) ==> PathsOf(Ref(x), acc, []) == [RefPath(false)]
    ensures Structured(x) ==> PathsOf(Ref(x), acc, [])[..|acc| + 1] == acc + [RefPath(true)]
  {
  }
}
