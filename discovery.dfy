/**
 * Descendant discovery over one process snapshot (getChildren, containsInt and
 * GetChildrenRecursive in pkg/mf/mf.go).
 *
 * The snapshot is the list of (pid, ppid) rows taken once by ps.Processes(). The
 * traversal expands level by level; a `checked` list makes sure that the children
 * of a PID are looked up at most once. The Go code hands each level's lookups to a
 * pool of goroutines; here they run one after the other, in the order they are
 * dispatched, and each lookup appends its batch of children to the next level.
 */
module Discovery {
  import opened Util

  /** One row of the process snapshot: a process and its parent. */
  datatype Entry = Entry(pid: int, ppid: int)

  /** The PIDs the snapshot lists. */
  function Pids(list: seq<Entry>): set<int>
  {
    set e | e in list :: e.pid
  }

  /** The snapshot lists every PID once, as a consistent `ps` listing does. */
  predicate UniquePids(list: seq<Entry>)
  {
    forall i, j :: 0 <= i < j < |list| ==> list[i].pid != list[j].pid
  }

  // ---------------------------------------------------------------------------
  // getChildren and containsInt
  // ---------------------------------------------------------------------------

  /** The PIDs of the rows whose parent is `pid`, in snapshot order; none at all for PID 0. */
  function ChildrenOf(list: seq<Entry>, pid: int): (r: seq<int>)
    ensures |r| <= |list|
    ensures pid == 0 ==> r == []
    decreases |list|
  {
    if pid == 0 || list == [] then []
    else
      var last := list[|list| - 1];
      ChildrenOf(list[..|list| - 1], pid) + (if last.ppid == pid then [last.pid] else [])
  }

  /** A PID is a child of `pid` exactly when the snapshot has a row for it with parent `pid`. */
  lemma {:induction false} ChildrenOfMembers(list: seq<Entry>, pid: int)
    ensures forall x :: x in ChildrenOf(list, pid) <==> pid != 0 && Entry(x, pid) in list
    decreases |list|
  {
    if pid != 0 && list != [] {
      var n := |list|;
      ChildrenOfMembers(list[..n - 1], pid);
      assert list == list[..n - 1] + [list[n - 1]];
    }
  }

  /** Every child found is a PID of the snapshot. */
  lemma ChildrenInPids(list: seq<Entry>, pid: int)
    ensures Elems(ChildrenOf(list, pid)) <= Pids(list)
  {
    ChildrenOfMembers(list, pid);
    forall x | x in ChildrenOf(list, pid) ensures x in Pids(list) {
      assert Entry(x, pid) in list;
    }
  }

  /** When every PID is listed once, no child is reported twice. */
  lemma {:induction false} ChildrenOfDistinct(list: seq<Entry>, pid: int)
    requires UniquePids(list)
    ensures Distinct(ChildrenOf(list, pid))
    decreases |list|
  {
    if pid != 0 && list != [] {
      var n := |list|;
      var front := list[..n - 1];
      assert UniquePids(front);
      ChildrenOfDistinct(front, pid);
      ChildrenOfMembers(front, pid);
      if list[n - 1].ppid == pid {
        var x := list[n - 1].pid;
        assert x !in ChildrenOf(front, pid);
        DistinctConcat(ChildrenOf(front, pid), [x]);
      }
    }
  }

  /** A snapshot whose rows all have parent `pid` gives `pid` one child per row. */
  lemma {:induction false} ChildrenOfAll(list: seq<Entry>, pid: int)
    requires pid != 0
    requires forall i :: 0 <= i < |list| ==> list[i].ppid == pid
    ensures |ChildrenOf(list, pid)| == |list|
    decreases |list|
  {
    if list != [] {
      ChildrenOfAll(list[..|list| - 1], pid);
    }
  }

  lemma DistinctConcat(a: seq<int>, b: seq<int>)
    requires Distinct(a) && Distinct(b)
    requires forall x :: x in a ==> x !in b
    ensures Distinct(a + b)
  {
    forall i, j | 0 <= i < j < |a + b| ensures (a + b)[i] != (a + b)[j] {
      if j < |a| {
        assert (a + b)[i] == a[i] && (a + b)[j] == a[j];
      } else if i >= |a| {
        assert (a + b)[i] == b[i - |a|] && (a + b)[j] == b[j - |a|];
      } else {
        assert (a + b)[i] == a[i] && (a + b)[j] == b[j - |a|];
        assert a[i] in a && b[j - |a|] in b;
      }
    }
  }

  /** getChildren: a scan of the snapshot that collects the children of `pid`. */
  method GetChildren(list: seq<Entry>, pid: int) returns (children: seq<int>)
    ensures children == ChildrenOf(list, pid)
  {
    if pid == 0 {
      return [];
    }
    children := [];
    for i := 0 to |list|
      invariant children == ChildrenOf(list[..i], pid)
    {
      assert list[..i + 1][..i] == list[..i];
      if list[i].ppid == pid {
        children := children + [list[i].pid];
      }
    }
    assert list[..|list|] == list;
  }

  /** containsInt: a linear search. */
  method ContainsInt(s: seq<int>, e: int) returns (found: bool)
    ensures found <==> e in s
  {
    for i := 0 to |s|
      invariant e !in s[..i]
    {
      if s[i] == e {
        return true;
      }
    }
    assert s[..|s|] == s;
    return false;
  }

  // ---------------------------------------------------------------------------
  // One level of GetChildrenRecursive
  // ---------------------------------------------------------------------------

  /**
   * The PIDs of a level that are sent for lookup, in order: a frontier PID is sent
   * unless it is already checked, and it is checked as it is sent.
   */
  function Dispatch(frontier: seq<int>, checked: seq<int>): seq<int>
    decreases |frontier|
  {
    if frontier == [] then []
    else
      var d := Dispatch(frontier[..|frontier| - 1], checked);
      var c := frontier[|frontier| - 1];
      if c in checked || c in d then d else d + [c]
  }

  /** A level sends each unchecked frontier PID exactly once, and nothing else. */
  lemma {:induction false} DispatchMembers(frontier: seq<int>, checked: seq<int>)
    ensures Distinct(Dispatch(frontier, checked))
    ensures forall x :: x in Dispatch(frontier, checked) <==> x in frontier && x !in checked
    ensures |Dispatch(frontier, checked)| <= |frontier|
    decreases |frontier|
  {
    if frontier != [] {
      var n := |frontier|;
      var front := frontier[..n - 1];
      DispatchMembers(front, checked);
      assert frontier == front + [frontier[n - 1]];
      var d := Dispatch(front, checked);
      var c := frontier[n - 1];
      if !(c in checked || c in d) {
        DistinctConcat(d, [c]);
      }
    }
  }

  /** A level sends one PID per frontier entry exactly when the frontier is duplicate-free and unchecked. */
  lemma {:induction false} DispatchAll(frontier: seq<int>, checked: seq<int>)
    ensures |Dispatch(frontier, checked)| == |frontier| <==>
            Distinct(frontier) && forall x :: x in frontier ==> x !in checked
    decreases |frontier|
  {
    if frontier != [] {
      var n := |frontier|;
      var front := frontier[..n - 1];
      var c := frontier[n - 1];
      DispatchAll(front, checked);
      DispatchMembers(front, checked);
      assert frontier == front + [c];
      var d := Dispatch(front, checked);
      if |Dispatch(frontier, checked)| == n {
        assert |Dispatch(frontier, checked)| <= |d| + 1;
        assert |d| == n - 1 && c !in checked && c !in d;
        assert c !in front;
        DistinctConcat(front, [c]);
      }
      if Distinct(frontier) && forall x :: x in frontier ==> x !in checked {
        assert Distinct(front) by {
          forall i, j | 0 <= i < j < |front| ensures front[i] != front[j] {
            assert front[i] == frontier[i] && front[j] == frontier[j];
          }
        }
        assert c !in front by {
          forall i | 0 <= i < n - 1 ensures front[i] != c {
            assert front[i] == frontier[i];
          }
        }
        assert c !in checked && c !in d;
        assert Dispatch(frontier, checked) == d + [c];
      }
    }
  }

  /** A frontier with no repeats and no checked PID is handed out whole, in order. */
  lemma {:induction false} DispatchKeeps(frontier: seq<int>, checked: seq<int>)
    requires Distinct(frontier) && forall x :: x in frontier ==> x !in checked
    ensures Dispatch(frontier, checked) == frontier
    decreases |frontier|
  {
    if frontier != [] {
      var n := |frontier|;
      var front := frontier[..n - 1];
      var c := frontier[n - 1];
      assert frontier == front + [c];
      assert Distinct(front) by {
        forall i, j | 0 <= i < j < |front| ensures front[i] != front[j] {
          assert front[i] == frontier[i] && front[j] == frontier[j];
        }
      }
      assert c !in front by {
        forall i | 0 <= i < n - 1 ensures front[i] != c {
          assert front[i] == frontier[i];
        }
      }
      DispatchKeeps(front, checked);
    }
  }

  /** The children of each PID of `pids`, batch after batch. */
  function Gather(list: seq<Entry>, pids: seq<int>): seq<int>
    decreases |pids|
  {
    if pids == [] then []
    else Gather(list, pids[..|pids| - 1]) + ChildrenOf(list, pids[|pids| - 1])
  }

  lemma {:induction false} GatherAppend(list: seq<Entry>, a: seq<int>, b: seq<int>)
    ensures Gather(list, a + b) == Gather(list, a) + Gather(list, b)
    decreases |b|
  {
    if b == [] {
      assert a + b == a;
    } else {
      var n := |b|;
      assert (a + b)[..|a + b| - 1] == a + b[..n - 1];
      assert (a + b)[|a + b| - 1] == b[n - 1];
      GatherAppend(list, a, b[..n - 1]);
      assert Gather(list, a + b) == Gather(list, a + b[..n - 1]) + ChildrenOf(list, b[n - 1]);
    }
  }

  /** A gathered PID is a child of one of the looked-up PIDs, and every such child is gathered. */
  lemma {:induction false} GatherMembers(list: seq<Entry>, pids: seq<int>)
    ensures forall x :: x in Gather(list, pids) <==> exists p :: p in pids && x in ChildrenOf(list, p)
    decreases |pids|
  {
    if pids != [] {
      var n := |pids|;
      var front, last := pids[..n - 1], pids[n - 1];
      GatherMembers(list, front);
      assert pids == front + [last];
      forall x ensures x in Gather(list, pids) <==> exists p :: p in pids && x in ChildrenOf(list, p) {
        if x in Gather(list, front) {
          var p :| p in front && x in ChildrenOf(list, p);
          assert p in pids;
        }
        if x in ChildrenOf(list, last) {
          assert last in pids;
        }
        if exists p :: p in pids && x in ChildrenOf(list, p) {
          var p :| p in pids && x in ChildrenOf(list, p);
          if p != last {
            assert p in front;
          }
        }
      }
    }
  }

  lemma GatherInPids(list: seq<Entry>, pids: seq<int>)
    ensures Elems(Gather(list, pids)) <= Pids(list)
  {
    GatherMembers(list, pids);
    forall x | x in Gather(list, pids) ensures x in Pids(list) {
      var p :| p in pids && x in ChildrenOf(list, p);
      ChildrenInPids(list, p);
    }
  }

  /** Looking up distinct PIDs in a snapshot that lists each PID once finds each child once. */
  lemma {:induction false} GatherDistinct(list: seq<Entry>, pids: seq<int>)
    requires UniquePids(list) && Distinct(pids)
    ensures Distinct(Gather(list, pids))
    decreases |pids|
  {
    if pids != [] {
      var n := |pids|;
      var front := pids[..n - 1];
      var p := pids[n - 1];
      GatherDistinct(list, front);
      ChildrenOfDistinct(list, p);
      GatherMembers(list, front);
      ChildrenOfMembers(list, p);
      forall x | x in Gather(list, front) ensures x !in ChildrenOf(list, p) {
        var q :| q in front && x in ChildrenOf(list, q);
        ChildrenOfMembers(list, q);
      }
      DistinctConcat(Gather(list, front), ChildrenOf(list, p));
    }
  }

  /** The PIDs of the snapshot whose children have not been looked up yet: the traversal's measure. */
  function Unchecked(list: seq<Entry>, checked: seq<int>): nat
  {
    |Pids(list) - Elems(checked)|
  }

  /** Checking one more PID of the snapshot lowers the measure. */
  lemma MeasureDrops(list: seq<Entry>, checked: seq<int>, d: seq<int>)
    requires d != [] && d[0] in Pids(list) && d[0] !in checked
    ensures Unchecked(list, checked + d) < Unchecked(list, checked)
  {
    var x := d[0];
    var b := Pids(list) - Elems(checked);
    var a := Pids(list) - Elems(checked + d);
    assert x in b;
    assert a <= b - {x};
    SubsetCard(a, b - {x});
    assert b == (b - {x}) + {x};
  }

  /**
   * After a level: the lookups of the next level are PIDs of the snapshot, and either
   * the level checked a new PID of the snapshot or it found nothing at all.
   */
  lemma LevelShrinks(list: seq<Entry>, frontier: seq<int>, checked: seq<int>)
    requires Elems(frontier) <= Pids(list)
    ensures Elems(Gather(list, Dispatch(frontier, checked))) <= Pids(list)
    ensures Dispatch(frontier, checked) == [] ==>
              Gather(list, Dispatch(frontier, checked)) == [] && checked + Dispatch(frontier, checked) == checked
    ensures Dispatch(frontier, checked) != [] ==>
              Unchecked(list, checked + Dispatch(frontier, checked)) < Unchecked(list, checked)
  {
    var d := Dispatch(frontier, checked);
    GatherInPids(list, d);
    if d != [] {
      DispatchMembers(frontier, checked);
      assert d[0] in d;
      MeasureDrops(list, checked, d);
    } else {
      assert checked + d == checked;
    }
  }

  // ---------------------------------------------------------------------------
  // GetChildrenRecursive
  // ---------------------------------------------------------------------------

  /**
   * The remaining levels of the traversal from `frontier`, given the PIDs already
   * checked: the PIDs found by those levels, and the checked list at the end.
   */
  function Explore(list: seq<Entry>, frontier: seq<int>, checked: seq<int>): (r: (seq<int>, seq<int>))
    requires Elems(frontier) <= Pids(list)
    ensures Elems(r.0) <= Pids(list)
    decreases Unchecked(list, checked), |frontier|
  {
    if frontier == [] then ([], checked)
    else
      var d := Dispatch(frontier, checked);
      var next := Gather(list, d);
      LevelShrinks(list, frontier, checked);
      var rest := Explore(list, next, checked + d);
      (next + rest.0, rest.1)
  }

  /** What GetChildrenRecursive returns for `root`: its children, then each later level. */
  function Descendants(list: seq<Entry>, root: int): (r: seq<int>)
    ensures Elems(r) <= Pids(list)
    ensures root == 0 ==> r == []
  {
    var first := ChildrenOf(list, root);
    ChildrenInPids(list, root);
    first + Explore(list, first, [root]).0
  }

  /** The PIDs whose children GetChildrenRecursive looks up, in order, starting with the root. */
  function Visited(list: seq<Entry>, root: int): seq<int>
  {
    var first := ChildrenOf(list, root);
    ChildrenInPids(list, root);
    Explore(list, first, [root]).1
  }

  /** `x` is reached from `a` by following exactly n + 1 parent-to-child rows. */
  ghost predicate ReachIn(list: seq<Entry>, a: int, x: int, n: nat)
    decreases n
  {
    if n == 0 then x in ChildrenOf(list, a)
    else exists y :: ReachIn(list, a, y, n - 1) && x in ChildrenOf(list, y)
  }

  /** `x` descends from `a` in the snapshot: a child, a child of a child, and so on. */
  ghost predicate IsDescendant(list: seq<Entry>, a: int, x: int)
  {
    exists n: nat :: ReachIn(list, a, x, n)
  }

  lemma ChildOfDescendant(list: seq<Entry>, root: int, p: int, x: int)
    requires p == root || IsDescendant(list, root, p)
    requires x in ChildrenOf(list, p)
    ensures IsDescendant(list, root, x)
  {
    if p == root {
      assert ReachIn(list, root, x, 0);
    } else {
      var n: nat :| ReachIn(list, root, p, n);
      assert ReachIn(list, root, x, n + 1);
    }
  }

  /**
   * The remaining levels extend the checked list, and what they find is exactly the
   * children of the PIDs they add to it.
   */
  lemma {:induction false} ExploreShape(list: seq<Entry>, frontier: seq<int>, checked: seq<int>)
    requires Elems(frontier) <= Pids(list)
    ensures var r := Explore(list, frontier, checked);
            |checked| <= |r.1| && r.1[..|checked|] == checked &&
            r.0 == Gather(list, r.1[|checked|..])
    decreases Unchecked(list, checked), |frontier|
  {
    if frontier == [] {
      assert checked[|checked|..] == [];
    } else {
      var d := Dispatch(frontier, checked);
      var next := Gather(list, d);
      LevelShrinks(list, frontier, checked);
      ExploreShape(list, next, checked + d);
      var visited := Explore(list, next, checked + d).1;
      PrefixSplit(visited, checked, d);
      GatherAppend(list, d, visited[|checked + d|..]);
    }
  }

  lemma PrefixSplit(s: seq<int>, a: seq<int>, b: seq<int>)
    requires |a + b| <= |s| && s[..|a + b|] == a + b
    ensures |a| <= |s| && s[..|a|] == a && s[|a|..] == b + s[|a + b|..]
  {
    assert s == (a + b) + s[|a + b|..];
  }

  /** The remaining levels check only PIDs of the snapshot, and none of them twice. */
  lemma {:induction false} ExploreChecks(list: seq<Entry>, frontier: seq<int>, checked: seq<int>)
    requires Elems(frontier) <= Pids(list)
    ensures forall y :: y in Explore(list, frontier, checked).1 ==> y in checked || y in Pids(list)
    ensures Distinct(checked) ==> Distinct(Explore(list, frontier, checked).1)
    decreases Unchecked(list, checked), |frontier|
  {
    if frontier != [] {
      var d := Dispatch(frontier, checked);
      var next := Gather(list, d);
      LevelShrinks(list, frontier, checked);
      DispatchMembers(frontier, checked);
      ExploreChecks(list, next, checked + d);
      if Distinct(checked) {
        DistinctConcat(checked, d);
      }
    }
  }

  /**
   * If every child of a checked PID is checked or still in the frontier, then at the
   * end every child of a checked PID is checked: no descendant is missed.
   */
  lemma {:induction false} ExploreClosed(list: seq<Entry>, frontier: seq<int>, checked: seq<int>)
    requires Elems(frontier) <= Pids(list)
    requires forall y :: y in Gather(list, checked) ==> y in checked || y in frontier
    ensures forall y :: y in Gather(list, Explore(list, frontier, checked).1) ==>
              y in Explore(list, frontier, checked).1
    decreases Unchecked(list, checked), |frontier|
  {
    if frontier != [] {
      var d := Dispatch(frontier, checked);
      var next := Gather(list, d);
      LevelShrinks(list, frontier, checked);
      DispatchMembers(frontier, checked);
      GatherAppend(list, checked, d);
      ExploreClosed(list, next, checked + d);
    }
  }

  /** Every PID the traversal checks is the root or one of its descendants. */
  lemma {:induction false} ExploreSound(list: seq<Entry>, root: int, frontier: seq<int>, checked: seq<int>)
    requires Elems(frontier) <= Pids(list)
    requires forall y :: y in checked ==> y == root || IsDescendant(list, root, y)
    requires forall y :: y in frontier ==> IsDescendant(list, root, y)
    ensures forall y :: y in Explore(list, frontier, checked).1 ==> y == root || IsDescendant(list, root, y)
    decreases Unchecked(list, checked), |frontier|
  {
    if frontier != [] {
      var d := Dispatch(frontier, checked);
      var next := Gather(list, d);
      LevelShrinks(list, frontier, checked);
      DispatchMembers(frontier, checked);
      GatherMembers(list, d);
      forall y | y in next ensures IsDescendant(list, root, y) {
        var p :| p in d && y in ChildrenOf(list, p);
        ChildOfDescendant(list, root, p, y);
      }
      ExploreSound(list, root, next, checked + d);
    }
  }

  /**
   * The result is the children of the looked-up PIDs; the lookups start at the root,
   * never repeat a PID, and touch only the root and PIDs of the snapshot, so the
   * traversal ends even on a snapshot with a cycle.
   */
  lemma VisitedOnce(list: seq<Entry>, root: int)
    ensures |Visited(list, root)| >= 1 && Visited(list, root)[0] == root
    ensures Distinct(Visited(list, root))
    ensures Elems(Visited(list, root)) <= {root} + Pids(list)
    ensures Descendants(list, root) == Gather(list, Visited(list, root))
  {
    var first := ChildrenOf(list, root);
    ChildrenInPids(list, root);
    ExploreShape(list, first, [root]);
    ExploreChecks(list, first, [root]);
    var visited := Visited(list, root);
    assert visited == [root] + visited[1..];
    assert Gather(list, [root]) == first by {
      assert [root][..0] == [];
    }
    GatherAppend(list, [root], visited[1..]);
  }

  /** Soundness and completeness: the result holds exactly the descendants of the root. */
  lemma DescendantsExact(list: seq<Entry>, root: int)
    ensures forall x :: x in Descendants(list, root) <==> IsDescendant(list, root, x)
  {
    var first := ChildrenOf(list, root);
    ChildrenInPids(list, root);
    var visited := Visited(list, root);
    VisitedOnce(list, root);
    GatherMembers(list, visited);
    // soundness
    ChildrenOfMembers(list, root);
    forall y | y in first ensures IsDescendant(list, root, y) {
      assert ReachIn(list, root, y, 0);
    }
    ExploreSound(list, root, first, [root]);
    forall x | x in Descendants(list, root) ensures IsDescendant(list, root, x) {
      var p :| p in visited && x in ChildrenOf(list, p);
      ChildOfDescendant(list, root, p, x);
    }
    // completeness
    assert Gather(list, [root]) == first by {
      assert [root][..0] == [];
    }
    ExploreClosed(list, first, [root]);
    forall x | IsDescendant(list, root, x) ensures x in Descendants(list, root) {
      var n: nat :| ReachIn(list, root, x, n);
      ReachedIsFound(list, root, x, n);
    }
  }

  lemma {:induction false} ReachedIsFound(list: seq<Entry>, root: int, x: int, n: nat)
    requires ReachIn(list, root, x, n)
    requires forall y :: y in Gather(list, Visited(list, root)) ==> y in Visited(list, root)
    ensures x in Descendants(list, root)
    decreases n
  {
    VisitedOnce(list, root);
    var visited := Visited(list, root);
    GatherMembers(list, visited);
    if n == 0 {
      assert root in visited;
    } else {
      var y :| ReachIn(list, root, y, n - 1) && x in ChildrenOf(list, y);
      ReachedIsFound(list, root, y, n - 1);
      assert y in visited;
    }
  }

  /** When the snapshot lists each PID once, the result has no duplicates. */
  lemma DescendantsDistinct(list: seq<Entry>, root: int)
    requires UniquePids(list)
    ensures Distinct(Descendants(list, root))
  {
    VisitedOnce(list, root);
    GatherDistinct(list, Visited(list, root));
  }

  /**
   * One pass of GetChildrenRecursive's outer loop: every frontier PID not yet checked is
   * checked and its children looked up, and the batches found make up the next level.
   */
  method Level(list: seq<Entry>, frontier: seq<int>, checked: seq<int>)
    returns (next: seq<int>, checked': seq<int>)
    ensures checked' == checked + Dispatch(frontier, checked)
    ensures next == Gather(list, Dispatch(frontier, checked))
  {
    checked' := checked;
    next := [];
    for i := 0 to |frontier|
      invariant checked' == checked + Dispatch(frontier[..i], checked)
      invariant next == Gather(list, Dispatch(frontier[..i], checked))
    {
      assert frontier[..i + 1][..i] == frontier[..i];
      var child := frontier[i];
      var seen := ContainsInt(checked', child);
      if !seen {
        checked' := checked' + [child];
        var kids := GetChildren(list, child);
        ghost var d := Dispatch(frontier[..i], checked);
        assert (d + [child])[..|d + [child]| - 1] == d;
        next := next + kids;
      }
    }
    assert frontier[..|frontier|] == frontier;
  }

  /**
   * GetChildrenRecursive's traversal, once the snapshot is taken: the root's children,
   * then level after level, until a level finds nothing.
   */
  method Discover(list: seq<Entry>, root: int) returns (all: seq<int>)
    ensures all == Descendants(list, root)
  {
    var first := GetChildren(list, root);
    ChildrenInPids(list, root);
    all := first;
    var checked := [root];
    var frontier := first;
    while frontier != []
      invariant Elems(frontier) <= Pids(list)
      invariant all + Explore(list, frontier, checked).0 == Descendants(list, root)
      decreases Unchecked(list, checked), |frontier|
    {
      ExploreStep(list, frontier, checked);
      var next, checked' := Level(list, frontier, checked);
      all := all + next;
      frontier, checked := next, checked';
    }
  }

  /**
   * One level of the traversal, unfolded: the next level is made of PIDs of the
   * snapshot, the measure goes down unless the next level is empty, and what remains to
   * be found is the next level followed by what the levels after it find.
   */
  lemma ExploreStep(list: seq<Entry>, frontier: seq<int>, checked: seq<int>)
    requires Elems(frontier) <= Pids(list) && frontier != []
    ensures var d := Dispatch(frontier, checked);
            Elems(Gather(list, d)) <= Pids(list) &&
            (Unchecked(list, checked + d) < Unchecked(list, checked) || (checked + d == checked && Gather(list, d) == [])) &&
            Explore(list, frontier, checked).0 == Gather(list, d) + Explore(list, Gather(list, d), checked + d).0
  {
    LevelShrinks(list, frontier, checked);
  }
}
