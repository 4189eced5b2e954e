/**
 * The read-only queries over the node arena: `address`, `find`, and the
 * `at` path resolver with its `$root`, `$parent`, `$self` and
 * `find(value[, property])` segments.
 */
module NodeAddress {
  import opened Wrappers
  import opened Decimal
  import opened JsValue
  import opened NodeTree

  /** An address segment: a name, or a numeric index. */
  datatype Segment = Key(s: string) | Pos(i: nat)

  /** `String(segment)`: segments and names are compared as strings. */
  function SegText(g: Segment): string {
    match g
    case Key(s) => s
    case Pos(i) => NatToString(i)
  }

  /** The segment a node contributes to addresses: its name, or its index when named by `useIndex`. */
  function NameSegment(ns: seq<Node>, n: nat): Segment
    requires Linked(ns) && n < |ns|
  {
    match ns[n].name
    case Named(s) => Key(s)
    case UseIndex => Pos(Index(ns, n))
  }

  function NameText(ns: seq<Node>, n: nat): string
    requires Linked(ns) && n < |ns|
  {
    SegText(NameSegment(ns, n))
  }

  /** `address`: the names from the root down to the node itself. */
  function Address(ns: seq<Node>, n: nat): (a: seq<Segment>)
    requires Tree(ns) && n < |ns|
    ensures |a| == Depth(ns)[n] + 1
    ensures a[0] == NameSegment(ns, Root(ns, n)) && a[|a| - 1] == NameSegment(ns, n)
    decreases Depth(ns)[n]
  {
    match ns[n].parent
    case None => [NameSegment(ns, n)]
    case Some(p) => Address(ns, p) + [NameSegment(ns, n)]
  }

  // ---------------------------------------------------------------- descendants in document order

  ghost function Subtree(ns: seq<Node>, n: nat): set<nat>
    requires Tree(ns) && n < |ns|
  {
    set m | 0 <= m < |ns| && Under(ns, m, n)
  }

  /** Under `m` implies at least as deep as the ancestor. */
  lemma DepthOrder(ns: seq<Node>, m: nat, c: nat)
    requires Tree(ns) && m < |ns| && c < |ns|
    ensures Under(ns, m, c) ==> Depth(ns)[m] >= Depth(ns)[c]
  {
    if Under(ns, m, c) {
      UnderDepth(ns, m, c);
    }
  }

  lemma ChildSubtreeSmaller(ns: seq<Node>, p: nat, i: nat)
    requires Tree(ns) && p < |ns| && i < |ns[p].children|
    ensures ns[p].children[i] < |ns|
    ensures |Subtree(ns, ns[p].children[i])| < |Subtree(ns, p)|
  {
    var c := ns[p].children[i];
    assert ns[c].parent == Some(p);
    assert Under(ns, c, p);
    forall m | m in Subtree(ns, c) ensures m in Subtree(ns, p) {
      UnderTrans(ns, m, c, p);
    }
    DepthOrder(ns, p, c);
    assert p in Subtree(ns, p) - Subtree(ns, c);
    assert Subtree(ns, p) == Subtree(ns, c) + (Subtree(ns, p) - Subtree(ns, c));
  }

  /** The strict descendants of `n` in document (pre-)order. */
  function Descendants(ns: seq<Node>, n: nat): (ds: seq<nat>)
    requires Tree(ns) && n < |ns|
    ensures forall k :: 0 <= k < |ds| ==> ds[k] < |ns|
    decreases |Subtree(ns, n)|, |ns[n].children| + 1
  {
    DescendantsFrom(ns, n, 0)
  }

  /** The children of `n` from position `i` on, each followed by its own descendants. */
  function DescendantsFrom(ns: seq<Node>, n: nat, i: nat): (ds: seq<nat>)
    requires Tree(ns) && n < |ns| && i <= |ns[n].children|
    ensures forall k :: 0 <= k < |ds| ==> ds[k] < |ns|
    decreases |Subtree(ns, n)|, |ns[n].children| - i
  {
    if i == |ns[n].children| then []
    else
      ChildSubtreeSmaller(ns, n, i);
      var c := ns[n].children[i];
      [c] + Descendants(ns, c) + DescendantsFrom(ns, n, i + 1)
  }

  /** A strict descendant of `n` lies below one of the children of `n`. */
  lemma {:induction false} BelowSomeChild(ns: seq<Node>, n: nat, m: nat)
    requires Tree(ns) && n < |ns| && m < |ns| && m != n && Under(ns, m, n)
    ensures exists j :: 0 <= j < |ns[n].children| && Under(ns, m, ns[n].children[j])
    decreases Depth(ns)[m]
  {
    var q := ns[m].parent.value;
    if q == n {
      var j :| 0 <= j < |ns[n].children| && ns[n].children[j] == m;
    } else {
      BelowSomeChild(ns, n, q);
      var j :| 0 <= j < |ns[n].children| && Under(ns, q, ns[n].children[j]);
      assert Under(ns, m, ns[n].children[j]);
    }
  }

  lemma {:induction false} DescendantsMembers(ns: seq<Node>, n: nat, m: nat)
    requires Tree(ns) && n < |ns| && m < |ns|
    ensures m in Descendants(ns, n) <==> exists j :: 0 <= j < |ns[n].children| && Under(ns, m, ns[n].children[j])
    decreases |Subtree(ns, n)|, |ns[n].children| + 1
  {
    DescendantsFromMembers(ns, n, 0, m);
  }

  lemma {:induction false} DescendantsFromMembers(ns: seq<Node>, n: nat, i: nat, m: nat)
    requires Tree(ns) && n < |ns| && i <= |ns[n].children| && m < |ns|
    ensures m in DescendantsFrom(ns, n, i) <==>
      exists j :: i <= j < |ns[n].children| && Under(ns, m, ns[n].children[j])
    decreases |Subtree(ns, n)|, |ns[n].children| - i
  {
    if i < |ns[n].children| {
      ChildSubtreeSmaller(ns, n, i);
      var c := ns[n].children[i];
      DescendantsMembers(ns, c, m);
      DescendantsFromMembers(ns, n, i + 1, m);
      InChildMeaning(ns, c, m);
      var ds := DescendantsFrom(ns, n, i);
      assert ds == [c] + Descendants(ns, c) + DescendantsFrom(ns, n, i + 1);
      assert m in ds <==> (m == c || m in Descendants(ns, c)) || m in DescendantsFrom(ns, n, i + 1);
      if exists j :: i <= j < |ns[n].children| && Under(ns, m, ns[n].children[j]) {
        var j :| i <= j < |ns[n].children| && Under(ns, m, ns[n].children[j]);
        if j > i {
          assert m in DescendantsFrom(ns, n, i + 1);
        }
      }
    }
  }

  /** `c` followed by its descendants holds exactly the nodes below `c`. */
  lemma InChildMeaning(ns: seq<Node>, c: nat, m: nat)
    requires Tree(ns) && c < |ns| && m < |ns|
    requires m in Descendants(ns, c) <==> exists j :: 0 <= j < |ns[c].children| && Under(ns, m, ns[c].children[j])
    ensures (m == c || m in Descendants(ns, c)) <==> Under(ns, m, c)
  {
    if m != c && Under(ns, m, c) {
      BelowSomeChild(ns, c, m);
    }
    if m in Descendants(ns, c) {
      var j :| 0 <= j < |ns[c].children| && Under(ns, m, ns[c].children[j]);
      assert ns[ns[c].children[j]].parent == Some(c);
      UnderTrans(ns, m, ns[c].children[j], c);
    }
  }

  /** The strict descendants of `n` are exactly the nodes below `n` other than `n`. */
  lemma DescendantsMeaning(ns: seq<Node>, n: nat, m: nat)
    requires Tree(ns) && n < |ns| && m < |ns|
    ensures m in Descendants(ns, n) <==> m != n && Under(ns, m, n)
  {
    DescendantsMembers(ns, n, m);
    if m != n && Under(ns, m, n) {
      BelowSomeChild(ns, n, m);
    }
    if exists j :: 0 <= j < |ns[n].children| && Under(ns, m, ns[n].children[j]) {
      var j :| 0 <= j < |ns[n].children| && Under(ns, m, ns[n].children[j]);
      var c := ns[n].children[j];
      assert ns[c].parent == Some(n);
      UnderTrans(ns, m, c, n);
      UnderDepth(ns, m, c);
    }
  }

  // ---------------------------------------------------------------- find

  /** `find(value, property)`: match the name (the default) or the type. */
  datatype Search = ByName(text: string) | ByType(kind: string)

  predicate Matches(ns: seq<Node>, n: nat, s: Search)
    requires Linked(ns) && n < |ns|
  {
    match s
    case ByName(t) => NameText(ns, n) == t
    case ByType(t) => ns[n].kind == t
  }

  /** The first node of `ds` that matches. */
  function FirstMatch(ns: seq<Node>, ds: seq<nat>, s: Search): (r: Option<nat>)
    requires Linked(ns) && forall k :: 0 <= k < |ds| ==> ds[k] < |ns|
    ensures r.Some? ==> exists k :: 0 <= k < |ds| && ds[k] == r.value && Matches(ns, r.value, s)
                          && forall j :: 0 <= j < k ==> !Matches(ns, ds[j], s)
    ensures r.None? ==> forall k :: 0 <= k < |ds| ==> !Matches(ns, ds[k], s)
  {
    if ds == [] then None
    else if Matches(ns, ds[0], s) then Some(ds[0])
    else
      var r := FirstMatch(ns, ds[1..], s);
      assert forall k :: 1 <= k < |ds| ==> ds[k] == ds[1..][k - 1];
      r
  }

  /** `node.find(value, property)`: the first matching strict descendant in document order. */
  function Find(ns: seq<Node>, n: nat, s: Search): Option<nat>
    requires Tree(ns) && n < |ns|
  {
    FirstMatch(ns, Descendants(ns, n), s)
  }

  /**
   * `find` returns a matching node strictly below the start, with no
   * matching node before it in document order; it misses only when no
   * node below the start matches.
   */
  lemma FindMeaning(ns: seq<Node>, n: nat, s: Search)
    requires Tree(ns) && n < |ns|
    ensures Find(ns, n, s).Some? ==>
      var m := Find(ns, n, s).value;
      m < |ns| && m != n && Under(ns, m, n) && Matches(ns, m, s)
    ensures Find(ns, n, s).Some? ==>
      exists k :: 0 <= k < |Descendants(ns, n)| && Descendants(ns, n)[k] == Find(ns, n, s).value
        && forall j :: 0 <= j < k ==> !Matches(ns, Descendants(ns, n)[j], s)
    ensures Find(ns, n, s).None? ==>
      forall m :: 0 <= m < |ns| && m != n && Under(ns, m, n) ==> !Matches(ns, m, s)
  {
    var ds := Descendants(ns, n);
    if Find(ns, n, s).Some? {
      var m := Find(ns, n, s).value;
      DescendantsMeaning(ns, n, m);
    } else {
      forall m | 0 <= m < |ns| && m != n && Under(ns, m, n) ensures !Matches(ns, m, s) {
        DescendantsMeaning(ns, n, m);
        var k :| 0 <= k < |ds| && ds[k] == m;
      }
    }
  }

  // ---------------------------------------------------------------- splitting and trimming

  /** `s.split(sep)`: the pieces between separators, empty ones included. */
  function Split(s: string, sep: char): (parts: seq<string>)
    ensures |parts| >= 1
    ensures forall k :: 0 <= k < |parts| ==> sep !in parts[k]
  {
    if s == [] then [""]
    else
      var rest := Split(s[1..], sep);
      if s[0] == sep then [""] + rest
      else [[s[0]] + rest[0]] + rest[1..]
  }

  /** `parts.join(sep)`. */
  function JoinWith(parts: seq<string>, sep: char): string
    requires |parts| >= 1
  {
    if |parts| == 1 then parts[0] else parts[0] + [sep] + JoinWith(parts[1..], sep)
  }

  /** Splitting and joining again gives back the string. */
  lemma {:induction false} SplitJoin(s: string, sep: char)
    ensures JoinWith(Split(s, sep), sep) == s
  {
    if s != [] {
      var rest := Split(s[1..], sep);
      SplitJoin(s[1..], sep);
      if s[0] == sep {
        assert ([""] + rest)[1..] == rest;
      } else if |rest| > 1 {
        var parts := [[s[0]] + rest[0]] + rest[1..];
        assert parts[1..] == rest[1..];
        assert s == [s[0]] + s[1..];
      } else {
        assert s == [s[0]] + s[1..];
      }
    }
  }

  /** A piece free of the separator stays whole at the head of a split. */
  lemma {:induction false} SplitPrefix(w: string, t: string, sep: char)
    requires sep !in w
    ensures Split(w + t, sep) == [w + Split(t, sep)[0]] + Split(t, sep)[1..]
  {
    if w != [] {
      SplitPrefix(w[1..], t, sep);
      assert (w + t)[1..] == w[1..] + t;
      assert [w[0]] + (w[1..] + Split(t, sep)[0]) == w + Split(t, sep)[0];
    } else {
      var st := Split(t, sep);
      assert w + t == t && w + st[0] == st[0];
      assert [st[0]] + st[1..] == st;
    }
  }

  /** Joining pieces free of the separator and splitting again gives back the pieces. */
  lemma {:induction false} JoinSplit(parts: seq<string>, sep: char)
    requires |parts| >= 1 && forall k :: 0 <= k < |parts| ==> sep !in parts[k]
    ensures Split(JoinWith(parts, sep), sep) == parts
  {
    if |parts| == 1 {
      SplitPrefix(parts[0], "", sep);
      assert parts[0] + "" == parts[0];
    } else {
      var tail := JoinWith(parts[1..], sep);
      JoinSplit(parts[1..], sep);
      assert parts[0] + [sep] + tail == parts[0] + ([sep] + tail);
      SplitPrefix(parts[0], [sep] + tail, sep);
      assert ([sep] + tail)[1..] == tail;
      assert Split([sep] + tail, sep) == [""] + parts[1..];
      assert parts[0] + "" == parts[0];
      assert parts == [parts[0]] + parts[1..];
    }
  }

  /** The whitespace `trim` removes. */
  predicate IsSpace(ch: char) {
    ch == ' ' || ch == '\t' || ch == '\n' || ch == '\r' || ch == '\U{000B}' || ch == '\U{000C}'
  }

  function TrimStart(s: string): string {
    if s != [] && IsSpace(s[0]) then TrimStart(s[1..]) else s
  }

  function TrimEnd(s: string): string {
    if s != [] && IsSpace(s[|s| - 1]) then TrimEnd(s[..|s| - 1]) else s
  }

  /** `s.trim()`: the middle of `s` between leading and trailing whitespace. */
  function Trim(s: string): string {
    TrimEnd(TrimStart(s))
  }

  lemma {:induction false} TrimStartMeaning(s: string)
    ensures var r := TrimStart(s);
      && |r| <= |s| && r == s[|s| - |r|..]
      && (forall k :: 0 <= k < |s| - |r| ==> IsSpace(s[k]))
      && (r != [] ==> !IsSpace(r[0]))
  {
    if s != [] && IsSpace(s[0]) {
      var t := s[1..];
      TrimStartMeaning(t);
      var r := TrimStart(t);
      assert TrimStart(s) == r;
      assert r == t[|t| - |r|..];
      assert t[|t| - |r|..] == s[|s| - |r|..];
      forall k | 0 <= k < |s| - |r| ensures IsSpace(s[k]) {
        if k > 0 {
          assert s[k] == t[k - 1];
        }
      }
    }
  }

  lemma {:induction false} TrimEndMeaning(s: string)
    ensures var r := TrimEnd(s);
      && |r| <= |s| && r == s[..|r|]
      && (forall k :: |r| <= k < |s| ==> IsSpace(s[k]))
      && (r != [] ==> !IsSpace(r[|r| - 1]))
  {
    if s != [] && IsSpace(s[|s| - 1]) {
      TrimEndMeaning(s[..|s| - 1]);
    }
  }

  /** `trim` keeps a contiguous run of `s` with no whitespace at either end, dropping only whitespace. */
  lemma TrimMeaning(s: string)
    ensures exists i, j ::
              && 0 <= i <= j <= |s| && Trim(s) == s[i..j]
              && (forall k :: 0 <= k < i ==> IsSpace(s[k]))
              && (forall k :: j <= k < |s| ==> IsSpace(s[k]))
    ensures Trim(s) != [] ==> !IsSpace(Trim(s)[0]) && !IsSpace(Trim(s)[|Trim(s)| - 1])
  {
    var a := TrimStart(s);
    TrimStartMeaning(s);
    TrimEndMeaning(a);
    var i := |s| - |a|;
    var j := i + |Trim(s)|;
    assert Trim(s) == a[..|Trim(s)|];
    assert Trim(s) == s[i..j];
    forall k | j <= k < |s| ensures IsSpace(s[k]) {
      assert s[k] == a[k - i];
    }
  }

  /** A string with no whitespace at either end is its own trim. */
  lemma TrimKeeps(s: string)
    requires s != [] ==> !IsSpace(s[0]) && !IsSpace(s[|s| - 1])
    ensures Trim(s) == s
  {
  }

  /** Leading whitespace does not survive `trim`. */
  lemma TrimDropsLeading(c: char, s: string)
    requires IsSpace(c)
    ensures Trim([c] + s) == Trim(s)
  {
    assert ([c] + s)[1..] == s;
  }

  /** `map(arg => arg.trim())`. */
  function TrimAll(parts: seq<string>): (r: seq<string>)
    ensures |r| == |parts|
  {
    if parts == [] then [] else [Trim(parts[0])] + TrimAll(parts[1..])
  }

  // ---------------------------------------------------------------- the `find(...)` selector

  /** `.` in a regular expression does not match a line terminator. */
  predicate NoLineBreak(s: string) {
    forall k :: 0 <= k < |s| ==> s[k] != '\n' && s[k] != '\r' && s[k] != '\U{2028}' && s[k] != '\U{2029}'
  }

  /** `/^(find)\((.*)\)$/` with its argument text split on `,` and trimmed. */
  function SelectorArgs(t: string): (r: Option<seq<string>>)
    ensures r.Some? ==> |r.value| >= 1
  {
    if |t| >= 6 && t[..5] == "find(" && t[|t| - 1] == ')' && NoLineBreak(t[5..|t| - 1]) then
      Some(TrimAll(Split(t[5..|t| - 1], ',')))
    else None
  }

  /** The property compared: `name` when absent or `name`, `type` when `type`; any other misses. */
  function SearchOf(args: seq<string>): Option<Search>
    requires |args| >= 1
  {
    if |args| == 1 || args[1] == "name" then Some(ByName(args[0]))
    else if args[1] == "type" then Some(ByType(args[0]))
    else None
  }

  /** `select`: a segment that names no child may be a `find(...)` selector, searched below `p`, the node resolution has reached. */
  function Select(ns: seq<Node>, p: nat, t: string): (r: Option<nat>)
    requires Tree(ns) && p < |ns|
  {
    match SelectorArgs(t)
    case None => None
    case Some(args) =>
      match SearchOf(args)
      case None => None
      case Some(s) => Find(ns, p, s)
  }

  lemma SelectorText(inner: string)
    requires NoLineBreak(inner)
    ensures SelectorArgs("find(" + inner + ")") == Some(TrimAll(Split(inner, ',')))
  {
    var t := "find(" + inner + ")";
    assert t[..5] == "find(" && t[5..|t| - 1] == inner;
  }

  /** `find(value)` has the one argument `value`, trimmed. */
  lemma SelectorOne(v: string)
    requires ',' !in v && NoLineBreak(v)
    ensures SelectorArgs("find(" + v + ")") == Some([Trim(v)])
  {
    SelectorText(v);
    JoinSplit([v], ',');
    assert TrimAll([v]) == [Trim(v)];
  }

  /** `find(value,property)` has the two arguments `value` and `property`, trimmed. */
  lemma SelectorTwo(v: string, prop: string)
    requires ',' !in v && ',' !in prop && NoLineBreak(v + "," + prop)
    ensures SelectorArgs("find(" + v + "," + prop + ")") == Some([Trim(v), Trim(prop)])
  {
    var inner := v + "," + prop;
    assert "find(" + v + "," + prop + ")" == "find(" + inner + ")";
    SelectorText(inner);
    JoinSplit([v, prop], ',');
    assert JoinWith([v, prop], ',') == inner by {
      assert [v, prop][1..] == [prop];
    }
    assert TrimAll([v, prop]) == [Trim(v), Trim(prop)] by {
      assert [v, prop][1..] == [prop];
    }
  }

  /** `find(value)` searches the subtree by name. */
  lemma SelectByName(ns: seq<Node>, p: nat, v: string)
    requires Tree(ns) && p < |ns|
    requires ',' !in v && NoLineBreak(v)
    ensures Select(ns, p, "find(" + v + ")") == Find(ns, p, ByName(Trim(v)))
  {
    SelectorOne(v);
  }

  /** `find(value, property)` searches by name or type, and misses for any other property. */
  lemma SelectByProperty(ns: seq<Node>, p: nat, v: string, prop: string)
    requires Tree(ns) && p < |ns|
    requires ',' !in v && ',' !in prop && NoLineBreak(v + "," + prop)
    ensures Select(ns, p, "find(" + v + "," + prop + ")") ==
      if Trim(prop) == "name" then Find(ns, p, ByName(Trim(v)))
      else if Trim(prop) == "type" then Find(ns, p, ByType(Trim(v)))
      else None
  {
    SelectorTwo(v, prop);
  }

  /** `find(seat)` searches by name. */
  lemma SelectSeat(ns: seq<Node>, p: nat)
    requires Tree(ns) && p < |ns|
    ensures Select(ns, p, "find(seat)") == Find(ns, p, ByName("seat"))
  {
    assert "find(seat)" == "find(" + "seat" + ")";
    SelectByName(ns, p, "seat");
    TrimKeeps("seat");
  }

  lemma SelectTypeWords()
    ensures Trim("select") == "select" && Trim(" type") == "type"
    ensures ',' !in "select" && ',' !in " type" && NoLineBreak("select" + "," + " type")
  {
    TrimKeeps("select");
    assert " type" == [' '] + "type";
    TrimDropsLeading(' ', "type");
    TrimKeeps("type");
  }

  /** `find(select, type)` searches by type. */
  lemma SelectSelectType(ns: seq<Node>, p: nat)
    requires Tree(ns) && p < |ns|
    ensures Select(ns, p, "find(select, type)") == Find(ns, p, ByType("select"))
  {
    assert "find(select, type)" == "find(" + "select" + "," + " type" + ")";
    SelectTypeWords();
    SelectByProperty(ns, p, "select", " type");
  }

  // ---------------------------------------------------------------- `at`

  /** One step of resolution from `ptr`, for a call made on `self`. */
  function Step(ns: seq<Node>, self: nat, ptr: nat, g: Segment): (r: Option<nat>)
    requires Tree(ns) && self < |ns| && ptr < |ns|
    ensures r.Some? ==> r.value < |ns|
  {
    if g == Key("$root") then Some(Root(ns, self))
    else if g == Key("$parent") then ns[ptr].parent
    else if g == Key("$self") then Some(self)
    else
      match FirstMatch(ns, ns[ptr].children, ByName(SegText(g)))
      case Some(c) => Some(c)
      case None => Select(ns, ptr, SegText(g))
  }

  /** Apply the segments one after another; a miss ends resolution. */
  function Resolve(ns: seq<Node>, self: nat, ptr: nat, segs: seq<Segment>): (r: Option<nat>)
    requires Tree(ns) && self < |ns| && ptr < |ns|
    ensures r.Some? ==> r.value < |ns|
    decreases |segs|
  {
    if segs == [] then Some(ptr)
    else
      match Step(ns, self, ptr, segs[0])
      case None => None
      case Some(q) => Resolve(ns, self, q, segs[1..])
  }

  /**
   * `node.at(address)`: resolution starts at the parent (a root starts at
   * itself and drops a leading segment that repeats its own name), and a
   * leading `$parent` is dropped.
   */
  function At(ns: seq<Node>, n: nat, addr: seq<Segment>): (r: Option<nat>)
    requires Tree(ns) && n < |ns|
    ensures r.Some? ==> r.value < |ns|
  {
    if addr == [] then None
    else
      var first := addr[0];
      var start := if ns[n].parent.Some? then ns[n].parent.value else n;
      var segs := if ns[n].parent.None? && SegText(first) == NameText(ns, n) then addr[1..] else addr;
      var segs' := if first == Key("$parent") && segs != [] then segs[1..] else segs;
      Resolve(ns, n, start, segs')
  }

  /** The string form of an address: its pieces between delimiters are names. */
  function NameKeys(parts: seq<string>): (r: seq<Segment>)
    ensures |r| == |parts| && forall k :: 0 <= k < |r| ==> r[k] == Key(parts[k])
  {
    seq(|parts|, k requires 0 <= k < |parts| => Key(parts[k]))
  }

  /** `node.at("a.b.c")`: the string is split on the delimiter. */
  function AtString(ns: seq<Node>, n: nat, s: string, delimiter: char): Option<nat>
    requires Tree(ns) && n < |ns|
  {
    At(ns, n, NameKeys(Split(s, delimiter)))
  }

  /** Resolving `a + b` is resolving `a`, then `b` from where `a` ended. */
  lemma {:induction false} ResolveAppend(ns: seq<Node>, self: nat, ptr: nat, a: seq<Segment>, b: seq<Segment>)
    requires Tree(ns) && self < |ns| && ptr < |ns|
    ensures Resolve(ns, self, ptr, a + b) ==
      match Resolve(ns, self, ptr, a)
      case None => None
      case Some(q) => Resolve(ns, self, q, b)
    decreases |a|
  {
    if a == [] {
      assert a + b == b;
    } else {
      assert (a + b)[0] == a[0] && (a + b)[1..] == a[1..] + b;
      match Step(ns, self, ptr, a[0])
      case None =>
      case Some(q) => ResolveAppend(ns, self, q, a[1..], b);
    }
  }

  /** A numeric segment and its decimal text resolve alike. */
  lemma StepPosAsKey(ns: seq<Node>, self: nat, ptr: nat, i: nat)
    requires Tree(ns) && self < |ns| && ptr < |ns|
    ensures Step(ns, self, ptr, Pos(i)) == Step(ns, self, ptr, Key(NatToString(i)))
  {
    var t := NatToString(i);
    assert !IsDigit('$');
    assert t != "$root" && t != "$parent" && t != "$self" by {
      assert IsDigit(t[0]);
    }
  }

  /** `$root` moves to the root of the node the call was made on. */
  lemma AtRootKeyword(ns: seq<Node>, n: nat, rest: seq<Segment>)
    requires Tree(ns) && n < |ns|
    requires ns[n].parent.Some? || NameText(ns, n) != "$root"
    ensures At(ns, n, [Key("$root")] + rest) == Resolve(ns, n, Root(ns, n), rest)
    ensures At(ns, n, [Key("$root")]) == Some(Root(ns, n))
  {
    assert ([Key("$root")] + rest)[1..] == rest;
  }

  /** `$self` moves to the node the call was made on, so what follows names its own children. */
  lemma AtSelfKeyword(ns: seq<Node>, n: nat, rest: seq<Segment>)
    requires Tree(ns) && n < |ns|
    requires ns[n].parent.Some? || NameText(ns, n) != "$self"
    ensures At(ns, n, [Key("$self")] + rest) == Resolve(ns, n, n, rest)
  {
    assert ([Key("$self")] + rest)[1..] == rest;
  }

  /** A leading `$parent` is dropped: `$parent.password` resolves like `password`. */
  lemma AtParentElided(ns: seq<Node>, n: nat, rest: seq<Segment>)
    requires Tree(ns) && n < |ns| && ns[n].parent.Some?
    requires rest != [] && rest[0] != Key("$parent")
    ensures At(ns, n, [Key("$parent")] + rest) == At(ns, n, rest)
  {
    assert ([Key("$parent")] + rest)[1..] == rest;
  }

  /** Resolution that never meets `$self` does not depend on which node of the tree made the call. */
  lemma {:induction false} ResolveCaller(ns: seq<Node>, s1: nat, s2: nat, ptr: nat, segs: seq<Segment>)
    requires Tree(ns) && s1 < |ns| && s2 < |ns| && ptr < |ns|
    requires Root(ns, s1) == Root(ns, s2) && Key("$self") !in segs
    ensures Resolve(ns, s1, ptr, segs) == Resolve(ns, s2, ptr, segs)
    decreases |segs|
  {
    if segs != [] {
      assert Step(ns, s1, ptr, segs[0]) == Step(ns, s2, ptr, segs[0]);
      match Step(ns, s1, ptr, segs[0])
      case None =>
      case Some(q) =>
        assert Key("$self") !in segs[1..] by {
          assert forall k :: 0 <= k < |segs[1..]| ==> segs[1..][k] == segs[k + 1];
        }
        ResolveCaller(ns, s1, s2, q, segs[1..]);
    }
  }

  /**
   * `$parent.$parent` from a node reaches what its parent reaches with the
   * rest of the address: both resolve the rest from the grandparent.
   */
  lemma ParentChaining(ns: seq<Node>, n: nat, rest: seq<Segment>)
    requires Tree(ns) && n < |ns| && ns[n].parent.Some?
    requires ns[ns[n].parent.value].parent.Some?
    requires rest != [] && rest[0] != Key("$parent") && Key("$self") !in rest
    ensures At(ns, n, [Key("$parent"), Key("$parent")] + rest) == At(ns, ns[n].parent.value, rest)
  {
    var b := ns[n].parent.value;
    var a := ns[b].parent.value;
    var addr := [Key("$parent"), Key("$parent")] + rest;
    assert addr[1..] == [Key("$parent")] + rest;
    assert addr[1..][1..] == rest;
    assert Resolve(ns, n, b, addr[1..]) == Resolve(ns, n, a, rest);
    ResolveCaller(ns, n, b, a, rest);
  }

  // ---------------------------------------------------------------- address round trip

  /** No two children of a node share a name. */
  ghost predicate UniqueNames(ns: seq<Node>)
    requires Linked(ns)
  {
    forall p, i, j :: 0 <= p < |ns| && 0 <= i < j < |ns[p].children| ==>
      NameText(ns, ns[p].children[i]) != NameText(ns, ns[p].children[j])
  }

  /** No node is named like a path keyword. */
  ghost predicate NoKeywordNames(ns: seq<Node>)
    requires Linked(ns)
  {
    forall m :: 0 <= m < |ns| ==> NameText(ns, m) != "$root" && NameText(ns, m) != "$parent" && NameText(ns, m) != "$self"
  }

  /** A node's name, looked up among its parent's children, finds the node. */
  lemma StepToChild(ns: seq<Node>, self: nat, n: nat)
    requires Tree(ns) && self < |ns| && n < |ns| && ns[n].parent.Some?
    requires UniqueNames(ns) && NoKeywordNames(ns)
    ensures Step(ns, self, ns[n].parent.value, NameSegment(ns, n)) == Some(n)
  {
    var p := ns[n].parent.value;
    var cs := ns[p].children;
    var j := Index(ns, n);
    assert Matches(ns, cs[j], ByName(NameText(ns, n)));
    var r := FirstMatch(ns, cs, ByName(NameText(ns, n)));
    var k :| 0 <= k < |cs| && cs[k] == r.value && Matches(ns, r.value, ByName(NameText(ns, n)));
    assert k == j;
  }

  lemma {:induction false} ResolveAddress(ns: seq<Node>, self: nat, n: nat)
    requires Tree(ns) && self < |ns| && n < |ns|
    requires UniqueNames(ns) && NoKeywordNames(ns)
    ensures Resolve(ns, self, Root(ns, n), Address(ns, n)[1..]) == Some(n)
    decreases Depth(ns)[n]
  {
    match ns[n].parent
    case None =>
    case Some(p) =>
      var ap := Address(ns, p);
      assert Address(ns, n)[1..] == ap[1..] + [NameSegment(ns, n)];
      ResolveAddress(ns, self, p);
      ResolveAppend(ns, self, Root(ns, n), ap[1..], [NameSegment(ns, n)]);
      StepToChild(ns, self, n);
  }

  /** `root.at(node.address)` is the node, when sibling names are unique and none is a keyword. */
  lemma AddressRoundTrip(ns: seq<Node>, n: nat)
    requires Tree(ns) && n < |ns|
    requires UniqueNames(ns) && NoKeywordNames(ns)
    ensures At(ns, Root(ns, n), Address(ns, n)) == Some(n)
  {
    var r := Root(ns, n);
    ResolveAddress(ns, r, n);
    assert NameText(ns, r) != "$parent";
  }

  /** The string form of an address made of separator-free names resolves like the names themselves. */
  lemma AtStringMeaning(ns: seq<Node>, n: nat, parts: seq<string>, delimiter: char)
    requires Tree(ns) && n < |ns|
    requires |parts| >= 1 && forall k :: 0 <= k < |parts| ==> delimiter !in parts[k]
    ensures AtString(ns, n, JoinWith(parts, delimiter), delimiter) == At(ns, n, NameKeys(parts))
  {
    JoinSplit(parts, delimiter);
  }

  /** `at(['find(value)'])` from a root runs `find` when no child has that name. */
  lemma AtFindSegment(ns: seq<Node>, n: nat, v: string)
    requires Tree(ns) && n < |ns| && ns[n].parent.None?
    requires ',' !in v && NoLineBreak(v)
    requires NameText(ns, n) != "find(" + v + ")"
    requires forall k :: 0 <= k < |ns[n].children| ==> NameText(ns, ns[n].children[k]) != "find(" + v + ")"
    ensures At(ns, n, [Key("find(" + v + ")")]) == Find(ns, n, ByName(Trim(v)))
  {
    var t := "find(" + v + ")";
    assert t != "$root" && t != "$parent" && t != "$self" by {
      assert t[0] == 'f';
    }
    assert FirstMatch(ns, ns[n].children, ByName(t)).None?;
    SelectByName(ns, n, v);
    assert Step(ns, n, n, Key(t)) == Find(ns, n, ByName(Trim(v)));
    assert [Key(t)][1..] == [];
    assert At(ns, n, [Key(t)]) == Resolve(ns, n, n, [Key(t)]);
  }

  /** A node's address lists the names of its ancestors and the index of a `useIndex` ancestor. */
  lemma AddressThroughIndexedNode(ns: seq<Node>, form: nat, list: nat, item: nat, leaf: nat)
    requires Tree(ns) && form < |ns| && list < |ns| && item < |ns| && leaf < |ns|
    requires ns[form].parent.None? && ns[form].name == Named("form")
    requires ns[list].parent == Some(form) && ns[list].name == Named("input2")
    requires ns[item].parent == Some(list) && ns[item].name == UseIndex
    requires |ns[list].children| >= 2 && ns[list].children[1] == item
    requires ns[leaf].parent == Some(item) && ns[leaf].name == Named("email")
    ensures Address(ns, leaf) == [Key("form"), Key("input2"), Pos(1), Key("email")]
  {
    var cs := ns[list].children;
    assert Distinct(cs);
    assert Index(ns, item) == 1;
  }

  /** Adding a node to a fresh root makes its address that root's name followed by its own. */
  lemma AddressAfterAddToRoot(ns: seq<Node>, p: nat, c: nat)
    requires Tree(ns) && p < |ns| && c < |ns| && p != c
    requires ns[p].parent.None? && ns[p].children == []
    requires ns[p].name.Named? && ns[c].name.Named?
    ensures Address(Added(ns, p, c), c) == [Key(ns[p].name.text), Key(ns[c].name.text)]
  {
    if Under(ns, p, c) {
      RootUnderOnlyItself(ns, p, c);
    }
    var r := Added(ns, p, c);
    AddMoves(ns, p, c, c);
    AddMoves(ns, p, c, p);
  }
}
