/**
 * The stateful half of the verbose watcher: the table of one watcher per
 * `__str` (`applyWatch`) and the synchronous dispatcher that reports a change
 * once per tick and suppresses the changes of paths below a path already
 * reported in the same tick.
 */
module VerboseWatch {
  import opened JsValue
  import opened ObjectPaths

  // ---------------------------------------------------------------- the dedup test

  /**
   * The dispatcher's test: `s` starts with `d` followed by '.' (or with
   * nothing, when `d` is the empty path of a `Ref`) and is not `d` itself.
   */
  predicate Covers(d: string, s: string) {
    (d + (if d != "" then "." else "")) <= s && s != d
  }

  /** A path is suppressed when some path already dispatched in this tick covers it. */
  predicate Suppressed(window: set<string>, s: string) {
    exists d :: d in window && Covers(d, s)
  }

  /** `Covers` means: `s` is longer, starts with `d`, and has a '.' right after `d` unless `d` is empty. */
  lemma CoversMeaning(d: string, s: string)
    ensures Covers(d, s) <==> |s| > |d| && s[..|d|] == d && (d == "" || s[|d|] == '.')
  {
    if Covers(d, s) && d != "" {
      assert s[..|d| + 1] == d + ".";
      assert s[..|d|] == (d + ".")[..|d|];
    }
    if |s| > |d| && s[..|d|] == d && d != "" && s[|d|] == '.' {
      assert s[..|d| + 1] == d + ".";
    }
  }

  /** No path covers itself, so a path already dispatched is dispatched again. */
  lemma CoversIrreflexive(s: string)
    ensures !Covers(s, s) && !Suppressed({s}, s)
  {
  }

  /** Suppression is transitive: what a covered path covers is covered too. */
  lemma CoversTransitive(a: string, b: string, c: string)
    requires Covers(a, b) && Covers(b, c)
    ensures Covers(a, c)
  {
    CoversMeaning(a, b);
    CoversMeaning(b, c);
    assert c[..|b|][..|a|] == c[..|a|];
    if a != "" {
      assert c[|a|] == c[..|b|][|a|];
    }
    CoversMeaning(a, c);
  }

  /** The separator matters: `a.b` covers `a.b.c` but neither `a.bc` nor `a`. */
  lemma CoversExamples()
    ensures Covers("a.b", "a.b.c")
    ensures !Covers("a.b", "a.bc") && !Covers("a.b", "a") && !Covers("a.b", "a.b")
    ensures Covers("", "a") && !Covers("", "")
  {
    assert "a.b" + "." == "a.b.";
    assert "a.b." <= "a.b.c";
    assert !("a.b." <= "a.bc") by { assert "a.bc"[3] != "a.b."[3]; }
  }

  /** Joining a longer key list extends the joined string by '.' and the joined rest. */
  lemma {:induction false} JoinAppend(a: seq<string>, b: seq<string>)
    requires a != [] && b != []
    ensures Join(a + b) == Join(a) + "." + Join(b)
    decreases |b|
  {
    var ab := a + b;
    assert ab[..|ab| - 1] == a + b[..|b| - 1];
    if |b| == 1 {
      assert ab[..|ab| - 1] == a;
    } else {
      var b0 := b[..|b| - 1];
      JoinAppend(a, b0);
      assert ab[|ab| - 1] == b[|b| - 1];
      assert Join(ab) == Join(a + b0) + "." + b[|b| - 1];
      assert Join(b) == Join(b0) + "." + b[|b| - 1];
    }
  }

  /** The `__str` of a path covers the `__str` of every path strictly below it. */
  lemma AncestorCovers(a: seq<string>, b: seq<string>)
    requires a != [] && b != []
    ensures Covers(Join(a), Join(a + b))
  {
    JoinAppend(a, b);
    var d := Join(a);
    if d != "" {
      assert d + "." <= d + "." + Join(b);
    }
  }

  /** Once a path is in the window, every path strictly below it is suppressed. */
  lemma WindowSuppressesBelow(window: set<string>, a: seq<string>, b: seq<string>)
    requires a != [] && b != [] && Join(a) in window
    ensures Suppressed(window, Join(a + b))
  {
    AncestorCovers(a, b);
  }

  /** The empty path of a `Ref` covers every other `__str`. */
  lemma RefPathCovers(s: string)
    ensures Covers(RefPath(true).str, s) <==> s != ""
  {
  }

  /** An empty window suppresses nothing: after the tick, every change is reported again. */
  lemma EmptyWindow(s: string)
    ensures !Suppressed({}, s)
  {
  }

  /** A key containing '.' has the same `__str` as the two-key path it spells. */
  lemma DottedKeyCollides()
    ensures Join(["a.b"]) == Join(["a", "b"])
    ensures Covers(Join(["a"]), Join(["a.b"]))
  {
    assert ["a", "b"][..1] == ["a"];
    assert Join(["a", "b"]) == "a" + "." + "b";
    assert "a" + "." + "b" == "a.b";
    assert "a." <= "a.b";
  }

  // ---------------------------------------------------------------- the watcher table

  /** The set of `__str` keys of a list of paths. */
  function Strs(ps: seq<ObjectPath>): set<string> {
    set i | 0 <= i < |ps| :: ps[i].str
  }

  /** Which path each key watches after `applyWatch(ps)`: the last path of each `__str` wins. */
  function Installed(table: map<string, ObjectPath>, ps: seq<ObjectPath>): map<string, ObjectPath>
    decreases |ps|
  {
    if ps == [] then table
    else Installed(table, ps[..|ps| - 1])[ps[|ps| - 1].str := ps[|ps| - 1]]
  }

  /** One more path: the loop step of `applyWatch`. */
  lemma InstalledStep(table: map<string, ObjectPath>, ps: seq<ObjectPath>, i: nat)
    requires i < |ps|
    ensures Installed(table, ps[..i + 1]) == Installed(table, ps[..i])[ps[i].str := ps[i]]
  {
    assert ps[..i + 1][..i] == ps[..i];
  }

  /** `applyWatch` adds exactly the keys of its paths to the table. */
  lemma {:induction false} InstalledKeys(table: map<string, ObjectPath>, ps: seq<ObjectPath>)
    ensures Installed(table, ps).Keys == table.Keys + Strs(ps)
    decreases |ps|
  {
    if ps != [] {
      var init := ps[..|ps| - 1];
      InstalledKeys(table, init);
      assert Strs(ps) == Strs(init) + {ps[|ps| - 1].str} by {
        forall k | k in Strs(ps) ensures k in Strs(init) + {ps[|ps| - 1].str} {
          var i :| 0 <= i < |ps| && ps[i].str == k;
          if i < |ps| - 1 {
            assert init[i] == ps[i];
          }
        }
        forall k | k in Strs(init) ensures k in Strs(ps) {
          var i :| 0 <= i < |init| && init[i].str == k;
          assert ps[i] == init[i];
        }
      }
    }
  }

  /** A key none of the paths mentions keeps the path it watched. */
  lemma {:induction false} InstalledUntouched(table: map<string, ObjectPath>, ps: seq<ObjectPath>, k: string)
    requires k in table && k !in Strs(ps)
    ensures k in Installed(table, ps) && Installed(table, ps)[k] == table[k]
    decreases |ps|
  {
    if ps != [] {
      var init := ps[..|ps| - 1];
      forall i | 0 <= i < |init| ensures init[i].str != k {
        assert init[i] == ps[i];
      }
      InstalledUntouched(table, init, k);
    }
  }

  /** The path watched under a key is the last path in the list with that `__str`. */
  lemma {:induction false} InstalledLatest(table: map<string, ObjectPath>, ps: seq<ObjectPath>, i: nat)
    requires i < |ps|
    requires forall j :: i < j < |ps| ==> ps[j].str != ps[i].str
    ensures ps[i].str in Installed(table, ps) && Installed(table, ps)[ps[i].str] == ps[i]
    decreases |ps|
  {
    if i < |ps| - 1 {
      var init := ps[..|ps| - 1];
      assert init[i] == ps[i];
      InstalledLatest(table, init, i);
    }
  }

  /** Two paths with the same `__str` share one watcher: the later replaces the earlier. */
  lemma CollidingPathsShareWatcher()
    ensures Installed(map[], [MakePath(["a.b"], false), MakePath(["a", "b"], false)]).Keys == {"a.b"}
    ensures Installed(map[], [MakePath(["a.b"], false), MakePath(["a", "b"], false)])["a.b"].segs == ["a", "b"]
  {
    DottedKeyCollides();
    var ps := [MakePath(["a.b"], false), MakePath(["a", "b"], false)];
    assert ps[..1] == [MakePath(["a.b"], false)];
    assert ps[..1][..0] == [];
  }

  /** What `callback(path, value, obj)` reports. */
  datatype Notification = Notification(path: ObjectPath, value: Value)

  /**
   * The paths the dispatcher re-watches after a change: when the new value is
   * an object (or `null`), the changed path itself followed by every path below it.
   */
  function Rewatch(path: ObjectPath, v: Value): (r: seq<ObjectPath>)
    ensures IsObjectType(v) ==> |r| >= 1 && r[0] == path
    ensures !IsObjectType(v) ==> r == []
  {
    if IsObjectType(v) then PathsOf(Reactive(v), [path], path.segs) else []
  }

  /** Each key's handle watches a path with that `__str`; handles are numbered below `next`. */
  ghost predicate TableOk(w: map<string, nat>, b: map<nat, ObjectPath>, next: nat) {
    && (forall k :: k in w ==> w[k] in b && b[w[k]].str == k)
    && (forall h :: h in b ==> h < next)
  }

  /** The path each key's current handle watches. */
  ghost function WatchingOf(w: map<string, nat>, b: map<nat, ObjectPath>): map<string, ObjectPath>
    requires forall k :: k in w ==> w[k] in b
  {
    map k | k in w :: b[w[k]]
  }

  /**
   * One step of `applyWatch`: the handle under `p.__str`, if any, leaves the
   * table (it is stopped) and a new handle watching `p` takes its place.
   */
  lemma InstallOk(w: map<string, nat>, b: map<nat, ObjectPath>, next: nat, p: ObjectPath)
    requires TableOk(w, b, next)
    ensures TableOk(w[p.str := next], b[next := p], next + 1)
    ensures WatchingOf(w[p.str := next], b[next := p]) == WatchingOf(w, b)[p.str := p]
    ensures next !in b && (forall k :: k in w ==> w[k] != next)
  {
    var w2, b2 := w[p.str := next], b[next := p];
    forall k | k in w2 ensures w2[k] in b2 && b2[w2[k]].str == k {
      if k != p.str {
        assert w[k] in b && w[k] < next;
      }
    }
  }

  /**
   * What `applyWatch(paths)` does to a table `w0` over handles `b0`, giving
   * `w` over `b`: each key of `paths` now watches the last path with that
   * `__str` through a fresh handle, the old handle of such a key is stopped,
   * every other key keeps its handle, and handles are never rebound.
   */
  ghost predicate Reinstalled(w0: map<string, nat>, b0: map<nat, ObjectPath>, next0: nat,
                              w: map<string, nat>, b: map<nat, ObjectPath>, next: nat, paths: seq<ObjectPath>)
  {
    && TableOk(w0, b0, next0)
    && TableOk(w, b, next)
    && WatchingOf(w, b) == Installed(WatchingOf(w0, b0), paths)
    && next == next0 + |paths|
    && (forall k :: k in Strs(paths) ==> k in w && w[k] >= next0)
    && (forall k :: k in w0 && k !in Strs(paths) ==> k in w && w[k] == w0[k])
    && (forall h :: h in b0 ==> h in b && b[h] == b0[h])
    && (forall k :: k in w0 && k in Strs(paths) ==> w0[k] !in w.Values)
  }

  /**
   * The state of one `watchVerbose` call: its watcher table, the watchers
   * ever created (a handle is live while the table holds it; a replaced one
   * is stopped), and the dispatcher's window of paths reported this tick.
   */
  class Watcher {
    /** `watchers`: the current watcher handle of each `__str`. */
    var watchers: map<string, nat>
    /** The path each handle ever created watches. */
    var bound: map<nat, ObjectPath>
    var nextHandle: nat
    /** `dispatchedPaths`. */
    var dispatched: map<string, ObjectPath>
    /** `clear !== null`: the end-of-tick reset is scheduled. */
    var clearPending: bool
    /** The callback invocations so far. */
    var notified: seq<Notification>

    ghost predicate TableValid()
      reads this
    {
      TableOk(watchers, bound, nextHandle)
    }

    /** The window holds each reported path under its `__str`, and is non-empty exactly while a reset is scheduled. */
    ghost predicate Valid()
      reads this
    {
      && TableValid()
      && (forall k :: k in dispatched ==> dispatched[k].str == k)
      && (clearPending <==> dispatched != map[])
    }

    /** The path each key's current watcher watches. */
    ghost function Watching(): map<string, ObjectPath>
      reads this
      requires TableValid()
    {
      WatchingOf(watchers, bound)
    }

    /** A handle still in the table; every other handle ever created has been stopped. */
    predicate Live(h: nat)
      reads this
    {
      h in watchers.Values
    }

    /** `watchVerbose(obj, callback)`: watch every path of `obj`. */
    constructor (obj: Root)
      requires Enumerable(obj, [])
      ensures Valid()
      ensures Watching() == Installed(map[], PathsOf(obj, [], []))
      ensures dispatched == map[] && notified == []
    {
      watchers, bound, nextHandle := map[], map[], 0;
      dispatched, clearPending, notified := map[], false, [];
      new;
      var ps := GetPaths(obj, [], []);
      ApplyWatch(ps);
    }

    /**
     * `applyWatch(paths)`: for each path, stop the watcher already under its
     * `__str` and install a new one.
     */
    method ApplyWatch(paths: seq<ObjectPath>)
      requires TableValid()
      modifies this
      ensures TableValid()
      ensures Watching() == Installed(old(Watching()), paths)
      ensures Reinstalled(old(watchers), old(bound), old(nextHandle), watchers, bound, nextHandle, paths)
      ensures dispatched == old(dispatched) && clearPending == old(clearPending) && notified == old(notified)
    {
      ghost var watchers0, bound0 := watchers, bound;
      InstallEach(paths);
      forall k | k in watchers0 && k in Strs(paths) ensures !Live(watchers0[k]) {
        var oh := watchers0[k];
        assert oh in bound0 && bound0[oh].str == k && oh < old(nextHandle);
        forall k2 | k2 in watchers ensures watchers[k2] != oh {
          assert bound[watchers[k2]].str == k2;
          if k2 == k {
            assert watchers[k] >= old(nextHandle);
          } else {
            assert bound[oh].str == k;
          }
        }
      }
    }

    /** The loop of `applyWatch`: install a watcher for each path in turn. */
    method InstallEach(paths: seq<ObjectPath>)
      requires TableValid()
      modifies this
      ensures TableValid()
      ensures Watching() == Installed(old(Watching()), paths)
      ensures nextHandle == old(nextHandle) + |paths|
      ensures forall k :: k in Strs(paths) ==> k in watchers && watchers[k] >= old(nextHandle)
      ensures forall k :: k in old(watchers) && k !in Strs(paths) ==> k in watchers && watchers[k] == old(watchers)[k]
      ensures forall h :: h in old(bound) ==> h in bound && bound[h] == old(bound)[h]
      ensures dispatched == old(dispatched) && clearPending == old(clearPending) && notified == old(notified)
    {
      ghost var table0 := Watching();
      var w0, b0, next0 := watchers, bound, nextHandle;
      var w: map<string, nat>, b: map<nat, ObjectPath>, next: nat := w0, b0, next0;
      ghost var done: set<string> := {};
      var i := 0;
      while i < |paths|
        invariant i <= |paths| && done == Strs(paths[..i])
        invariant unchanged(this)
        invariant TableOk(w, b, next)
        invariant WatchingOf(w, b) == Installed(table0, paths[..i])
        invariant next == next0 + i
        invariant forall k :: k in done ==> k in w && w[k] >= next0
        invariant forall k :: k in w0 && k !in done ==> k in w && w[k] == w0[k]
        invariant forall h :: h in b0 ==> h in b && b[h] == b0[h]
      {
        var p := paths[i];
        InstallOk(w, b, next, p);
        InstalledStep(table0, paths, i);
        StrsStep(paths, i);
        ghost var w1 := w;
        w, b, next := w[p.str := next], b[next := p], next + 1;
        forall k | k in done + {p.str} ensures k in w && w[k] >= next0 {
          if k != p.str {
            assert k in done && w[k] == w1[k];
          }
        }
        done := done + {p.str};
        i := i + 1;
      }
      assert paths[..i] == paths;
      watchers, bound, nextHandle := w, b, next;
    }

    /**
     * The dispatcher bound to `path`, run when that path's watcher fires while
     * the watched object is `current`: report the change unless a path already
     * reported this tick covers it; re-watch below the path when its value is
     * an object; schedule the end-of-tick reset.
     */
    method Dispatch(path: ObjectPath, current: Root)
      requires Valid()
      modifies this
      ensures Valid()
      ensures Dispatched(path, current)
    {
      var newMutation := IsNewMutation(path);
      if newMutation {
        Record(path, current);
      }
    }

    /**
     * The whole effect of dispatching `path` while the watched object is
     * `current`: nothing changes when a path in the window covers it;
     * otherwise it enters the window, the reset is scheduled, the change is
     * reported with the value read now, and the paths below it are re-watched.
     */
    twostate predicate Dispatched(path: ObjectPath, current: Root)
      reads this
    {
      if Suppressed(old(dispatched).Keys, path.str) then
        && watchers == old(watchers) && bound == old(bound) && nextHandle == old(nextHandle)
        && dispatched == old(dispatched) && clearPending == old(clearPending) && notified == old(notified)
      else
        var value := Get(current, path.segs);
        && dispatched == old(dispatched)[path.str := path]
        && clearPending
        && notified == old(notified) + [Notification(path, value)]
        && Reinstalled(old(watchers), old(bound), old(nextHandle), watchers, bound, nextHandle, Rewatch(path, value))
    }

    /** The scan over the window: no dispatched path covers `path`. */
    method IsNewMutation(path: ObjectPath) returns (newMutation: bool)
      ensures newMutation <==> !Suppressed(dispatched.Keys, path.str)
    {
      newMutation := true;
      var pending := dispatched.Keys;
      while pending != {}
        invariant pending <= dispatched.Keys
        invariant newMutation <==> !exists d :: d in dispatched.Keys - pending && Covers(d, path.str)
        decreases |pending|
      {
        var d :| d in pending;
        if Covers(d, path.str) {
          newMutation := false;
        }
        pending := pending - {d};
      }
    }

    /** A new mutation: enter it in the window, re-watch below an object, notify, schedule the reset. */
    method Record(path: ObjectPath, current: Root)
      requires Valid()
      modifies this
      ensures Valid()
      ensures dispatched == old(dispatched)[path.str := path]
      ensures clearPending
      ensures notified == old(notified) + [Notification(path, Get(current, path.segs))]
      ensures Reinstalled(old(watchers), old(bound), old(nextHandle), watchers, bound, nextHandle,
                          Rewatch(path, Get(current, path.segs)))
    {
      var value := Get(current, path.segs);
      WatchBelow(path, value);
      dispatched := dispatched[path.str := path];
      notified := notified + [Notification(path, value)];
      if !clearPending {
        clearPending := true;
      }
      assert path.str in dispatched;
    }

    /** `if (typeof value === 'object') applyWatch(getPaths(value, [path], ...path.__path))`. */
    method WatchBelow(path: ObjectPath, value: Value)
      requires TableValid()
      modifies this
      ensures TableValid()
      ensures Reinstalled(old(watchers), old(bound), old(nextHandle), watchers, bound, nextHandle, Rewatch(path, value))
      ensures dispatched == old(dispatched) && clearPending == old(clearPending) && notified == old(notified)
    {
      if IsObjectType(value) {
        var ps := GetPaths(Reactive(value), [path], path.segs);
        ApplyWatch(ps);
      } else {
        assert Rewatch(path, value) == [];
        assert Strs([]) == {};
      }
    }

    /** A watcher firing: a live handle dispatches its path; a stopped one does nothing. */
    method Fire(h: nat, current: Root)
      requires Valid()
      modifies this
      ensures Valid()
      ensures !old(Live(h)) ==>
        && watchers == old(watchers) && bound == old(bound) && nextHandle == old(nextHandle)
        && dispatched == old(dispatched) && clearPending == old(clearPending) && notified == old(notified)
      ensures old(Live(h)) ==> h in old(bound) && Dispatched(old(bound)[h], current)
    {
      if h in watchers.Values {
        Dispatch(bound[h], current);
      }
    }

    /** The `nextTick` callback: empty the window and forget the scheduled reset. */
    method ClearWindow()
      requires Valid()
      modifies this
      ensures Valid()
      ensures dispatched == map[] && !clearPending
      ensures watchers == old(watchers) && bound == old(bound) && nextHandle == old(nextHandle)
      ensures notified == old(notified)
    {
      if clearPending {
        dispatched := map[];
        clearPending := false;
      }
    }
  }

  lemma StrsStep(all: seq<ObjectPath>, n: nat)
    requires n < |all|
    ensures Strs(all[..n + 1]) == Strs(all[..n]) + {all[n].str}
  {
    var ps, p := all[..n], all[n];
    var qs := all[..n + 1];
    assert qs == ps + [p];
    forall k | k in Strs(qs) ensures k in Strs(ps) + {p.str} {
      var i :| 0 <= i < |qs| && qs[i].str == k;
      if i < |ps| {
        assert qs[i] == ps[i];
      }
    }
    forall k | k in Strs(ps) ensures k in Strs(qs) {
      var i :| 0 <= i < |ps| && ps[i].str == k;
      assert qs[i] == ps[i];
    }
    assert qs[|ps|] == p;
  }

  /**
   * A change to `a` followed, in the same tick, by the change it causes to
   * `a.b` is reported once: the second dispatch is suppressed, whatever the
   * watched object holds.
   */
  method ParentThenChild(obj: Root) returns (reports: nat)
    requires Enumerable(obj, [])
    ensures reports == 1
  {
    var w := new Watcher(obj);
    w.Dispatch(MakePath(["a"], true), obj);
    assert |w.notified| == 1;
    assert "a" in w.dispatched.Keys;
    assert Covers("a", "a.b") by { assert "a." <= "a.b"; }
    assert Join(["a", "b"]) == "a.b" by { assert ["a", "b"][..1] == ["a"]; }
    assert Suppressed(w.dispatched.Keys, "a.b");
    w.Dispatch(MakePath(["a", "b"], false), obj);
    reports := |w.notified|;
  }
}
