/**
 * Whether GetChildrenRecursive and Stop, as pkg/mf/mf.go writes them, return at all, and
 * what they return when they do; next to the counterexamples that reach their hangs.
 *
 * A level of GetChildrenRecursive hands its PIDs to ten workers over unbuffered
 * channels and reads the workers' results only after it has handed them all out, so a
 * level that hands out more than ten PIDs blocks on the eleventh. It then waits for one
 * result per frontier entry although only the unchecked, not yet repeated entries were
 * handed out, so a level that skips an entry waits for a result that never comes.
 * Stop waits for its descendant goroutine, which gives up without a word when no
 * snapshot can be taken.
 *
 * Discovery.Discover and Control.StopTree are the corrected behaviour that the rest of
 * the model uses; where the code below returns at all, it agrees with them.
 */
module AsWritten {
  import opened Util
  import opened Discovery
  import opened Control

  /** The number of getChildrenWorker goroutines each level starts. */
  const Workers := 10

  /**
   * One level as written: the next level and the new checked list, or None when the
   * level blocks forever (more than Workers PIDs handed out, or fewer PIDs handed out
   * than results awaited). It completes exactly when its frontier has at most Workers
   * entries, none repeated and none already checked; it has then handed out the whole
   * frontier, in order, as the corrected level does.
   */
  function LevelAsWritten(list: seq<Entry>, frontier: seq<int>, checked: seq<int>): (r: Option<(seq<int>, seq<int>)>)
    ensures r.Some? <==> |frontier| <= Workers && Distinct(frontier) && forall x :: x in frontier ==> x !in checked
    ensures r.Some? ==> r.value == (Gather(list, frontier), checked + frontier)
  {
    var d := Dispatch(frontier, checked);
    DispatchAll(frontier, checked);
    DispatchMembers(frontier, checked);
    if |d| > Workers || |d| < |frontier| then None
    else
      DispatchKeeps(frontier, checked);
      Some((Gather(list, d), checked + d))
  }

  /** The remaining levels as written: the PIDs they find, or None when one of them blocks. */
  function ExploreAsWritten(list: seq<Entry>, frontier: seq<int>, checked: seq<int>): Option<seq<int>>
    requires Elems(frontier) <= Pids(list)
    decreases Unchecked(list, checked), |frontier|
  {
    if frontier == [] then Some([])
    else
      var level := LevelAsWritten(list, frontier, checked);
      if level.None? then None
      else
        LevelShrinks(list, frontier, checked);
        var d := Dispatch(frontier, checked);
        var rest := ExploreAsWritten(list, Gather(list, d), checked + d);
        if rest.None? then None else Some(Gather(list, d) + rest.value)
  }

  /**
   * GetChildrenRecursive's traversal as written, once the snapshot is taken. It blocks
   * at the first level already when the root has more than Workers children, a child
   * listed twice, or itself as a child; it returns nothing when the root has no child.
   */
  function DiscoverAsWritten(list: seq<Entry>, root: int): (r: Option<seq<int>>)
    ensures var first := ChildrenOf(list, root);
            (|first| > Workers || !Distinct(first) || root in first ==> r.None?) &&
            (first == [] ==> r == Some([]))
  {
    var first := ChildrenOf(list, root);
    ChildrenInPids(list, root);
    var rest := ExploreAsWritten(list, first, [root]);
    assert first == [] ==> first + [] == [];
    if rest.None? then None else Some(first + rest.value)
  }

  /** Where the levels as written return, they find what the corrected levels find. */
  lemma {:induction false} ExploreAsWrittenAgrees(list: seq<Entry>, frontier: seq<int>, checked: seq<int>)
    requires Elems(frontier) <= Pids(list)
    ensures ExploreAsWritten(list, frontier, checked).Some? ==>
            ExploreAsWritten(list, frontier, checked).value == Explore(list, frontier, checked).0
    decreases Unchecked(list, checked), |frontier|
  {
    if frontier != [] && LevelAsWritten(list, frontier, checked).Some? {
      LevelShrinks(list, frontier, checked);
      var d := Dispatch(frontier, checked);
      ExploreAsWrittenAgrees(list, Gather(list, d), checked + d);
    }
  }

  /** Where GetChildrenRecursive as written returns, it returns the descendants. */
  lemma DiscoverAsWrittenAgrees(list: seq<Entry>, root: int)
    ensures DiscoverAsWritten(list, root).Some? ==> DiscoverAsWritten(list, root).value == Descendants(list, root)
  {
    ChildrenInPids(list, root);
    ExploreAsWrittenAgrees(list, ChildrenOf(list, root), [root]);
  }

  /**
   * Where the levels as written return, no PID is found twice, none repeats a frontier
   * PID, and none was checked before.
   */
  lemma {:induction false} ExploreAsWrittenNoRepeats(list: seq<Entry>, frontier: seq<int>, checked: seq<int>)
    requires Elems(frontier) <= Pids(list)
    ensures var r := ExploreAsWritten(list, frontier, checked);
            r.Some? ==> Distinct(frontier + r.value) && forall x :: x in frontier + r.value ==> x !in checked
    decreases Unchecked(list, checked), |frontier|
  {
    var r := ExploreAsWritten(list, frontier, checked);
    if frontier != [] && r.Some? {
      LevelShrinks(list, frontier, checked);
      var d := Dispatch(frontier, checked);
      DispatchMembers(frontier, checked);
      var next := Gather(list, d);
      ExploreAsWrittenNoRepeats(list, next, checked + d);
      var rest := ExploreAsWritten(list, next, checked + d).value;
      assert r.value == next + rest;
      assert forall x :: x in next + rest ==> x !in frontier;
      DistinctConcat(frontier, next + rest);
      assert frontier + r.value == frontier + (next + rest);
    }
  }

  /**
   * Where GetChildrenRecursive as written returns, it returns no PID twice and never the
   * root. The corrected traversal keeps a PID that the snapshot lists twice and returns
   * the root when a cycle leads back to it; DescendantsDistinct rules out repeats only
   * for a snapshot that lists each PID once.
   */
  lemma DiscoverAsWrittenNoRepeats(list: seq<Entry>, root: int)
    ensures var r := DiscoverAsWritten(list, root);
            r.Some? ==> Distinct(r.value) && root !in r.value
  {
    ChildrenInPids(list, root);
    ExploreAsWrittenNoRepeats(list, ChildrenOf(list, root), [root]);
  }

  /**
   * A snapshot in which the root reappears as a child of its own child: the second
   * level skips the root, already checked, and then waits for its result forever. The
   * corrected traversal returns the two PIDs found.
   */
  lemma DrainBlocksOnRevisit(list: seq<Entry>)
    requires list == [Entry(2, 1), Entry(1, 2)]
    ensures DiscoverAsWritten(list, 1) == None
    ensures Descendants(list, 1) == [2, 1]
  {
    RevisitLevels(list);
    ChildrenInPids(list, 1);
    assert Descendants(list, 1) == [2] + Explore(list, [2], [1]).0;
  }

  /** The first level of the traversal of DrainBlocksOnRevisit's snapshot finds the root again. */
  lemma RevisitLevels(list: seq<Entry>)
    requires |list| == 2 && list[0] == Entry(2, 1) && list[1] == Entry(1, 2)
    ensures ChildrenOf(list, 1) == [2]
    ensures Elems([2]) <= Pids(list)
    ensures ExploreAsWritten(list, [2], [1]) == None
    ensures Explore(list, [2], [1]).0 == [1]
  {
    RevisitChildren(list);
    RevisitFirstLevel(list);
    RevisitSecondLevel(list);
    ExploreStep(list, [2], [1]);
    ExploreAsWrittenStep(list, [2], [1]);
  }

  /** The first level of DrainBlocksOnRevisit's snapshot hands out PID 2 and finds PID 1. */
  lemma RevisitFirstLevel(list: seq<Entry>)
    requires |list| == 2 && list[0] == Entry(2, 1) && list[1] == Entry(1, 2)
    ensures Dispatch([2], [1]) == [2] && [1] + Dispatch([2], [1]) == [1, 2]
    ensures Gather(list, Dispatch([2], [1])) == [1]
    ensures LevelAsWritten(list, [2], [1]).Some?
  {
    RevisitChildren(list);
    assert Dispatch([2], [1]) == [2];
    assert Gather(list, [2]) == Gather(list, []) + ChildrenOf(list, 2);
  }

  /** A level as written either blocks, or hands its result on to the levels after it. */
  lemma ExploreAsWrittenStep(list: seq<Entry>, frontier: seq<int>, checked: seq<int>)
    requires Elems(frontier) <= Pids(list) && frontier != []
    ensures Elems(Gather(list, Dispatch(frontier, checked))) <= Pids(list)
    ensures var d := Dispatch(frontier, checked);
            var rest := ExploreAsWritten(list, Gather(list, d), checked + d);
            ExploreAsWritten(list, frontier, checked) ==
              if LevelAsWritten(list, frontier, checked).None? || rest.None? then None
              else Some(Gather(list, d) + rest.value)
  {
    LevelShrinks(list, frontier, checked);
  }

  /** The second level of the traversal of DrainBlocksOnRevisit's snapshot skips the root and blocks. */
  lemma RevisitSecondLevel(list: seq<Entry>)
    requires |list| == 2 && list[0] == Entry(2, 1) && list[1] == Entry(1, 2)
    ensures Elems([1]) <= Pids(list)
    ensures ExploreAsWritten(list, [1], [1, 2]) == None
    ensures Explore(list, [1], [1, 2]).0 == []
  {
    RevisitChildren(list);
    assert Dispatch([1], [1, 2]) == [];
    ExploreStep(list, [1], [1, 2]);
    ExploreAsWrittenStep(list, [1], [1, 2]);
    assert Gather(list, []) == [];
    assert LevelAsWritten(list, [1], [1, 2]) == None;
  }

  /** The children of PIDs 1 and 2 in DrainBlocksOnRevisit's snapshot, and its PIDs. */
  lemma RevisitChildren(list: seq<Entry>)
    requires |list| == 2 && list[0] == Entry(2, 1) && list[1] == Entry(1, 2)
    ensures ChildrenOf(list, 1) == [2] && ChildrenOf(list, 2) == [1]
    ensures Elems([2]) <= Pids(list) && Elems([1]) <= Pids(list)
  {
    var front := list[..1];
    assert front[..0] == [];
    assert ChildrenOf(front, 1) == [2] && ChildrenOf(front, 2) == [];
    assert list[0] in list && list[1] in list;
  }

  /** A snapshot in which PID 1 has the eleven children 2 to 12 and nothing else has any. */
  function Fan(): (list: seq<Entry>)
    ensures |list| == 11 && forall i :: 0 <= i < 11 ==> list[i] == Entry(i + 2, 1)
  {
    seq(11, i => Entry(i + 2, 1))
  }

  /**
   * A root with eleven children: the first level hands out an eleventh PID while all
   * ten workers wait to deliver their results, and blocks. The corrected traversal
   * returns exactly the eleven children.
   */
  lemma DispatchBlocksPastTenWorkers()
    ensures DiscoverAsWritten(Fan(), 1) == None
    ensures |Descendants(Fan(), 1)| == 11
    ensures forall x :: x in Descendants(Fan(), 1) <==> 2 <= x <= 12
  {
    var list := Fan();
    var first := ChildrenOf(list, 1);
    FanChildren();
    ChildrenInPids(list, 1);
    assert LevelAsWritten(list, first, [1]).None?;
    assert ExploreAsWritten(list, first, [1]) == None;
    FanNoGrandchildren();
  }

  /** The children of PID 1 in Fan(): eleven PIDs, 2 to 12, none repeated. */
  lemma FanChildren()
    ensures |ChildrenOf(Fan(), 1)| == 11 && Distinct(ChildrenOf(Fan(), 1))
    ensures forall x :: x in ChildrenOf(Fan(), 1) <==> 2 <= x <= 12
  {
    var list := Fan();
    ChildrenOfAll(list, 1);
    ChildrenOfDistinct(list, 1);
    ChildrenOfMembers(list, 1);
    forall x ensures x in ChildrenOf(list, 1) <==> 2 <= x <= 12 {
      if 2 <= x <= 12 {
        assert list[x - 2] == Entry(x, 1);
      }
    }
  }

  /** In Fan() the children of PID 1 have no children, so the corrected traversal stops after them. */
  lemma FanNoGrandchildren()
    ensures Descendants(Fan(), 1) == ChildrenOf(Fan(), 1)
  {
    var list := Fan();
    var first := ChildrenOf(list, 1);
    FanChildren();
    ChildrenInPids(list, 1);
    var d := Dispatch(first, [1]);
    DispatchMembers(first, [1]);
    forall p | p in d ensures ChildrenOf(list, p) == [] {
      NoChildren(list, p);
    }
    GatherEmpty(list, d);
    ExploreStep(list, first, [1]);
    assert Explore(list, [], [1] + d).0 == [];
  }

  /** No row of the snapshot has `pid` as its parent: `pid` has no children. */
  lemma {:induction false} NoChildren(list: seq<Entry>, pid: int)
    requires forall i :: 0 <= i < |list| ==> list[i].ppid != pid
    ensures ChildrenOf(list, pid) == []
    decreases |list|
  {
    if pid != 0 && list != [] {
      NoChildren(list[..|list| - 1], pid);
    }
  }

  /** No PID of `pids` has children: their batches are all empty. */
  lemma {:induction false} GatherEmpty(list: seq<Entry>, pids: seq<int>)
    requires forall p :: p in pids ==> ChildrenOf(list, p) == []
    ensures Gather(list, pids) == []
    decreases |pids|
  {
    if pids != [] {
      GatherEmpty(list, pids[..|pids| - 1]);
    }
  }

  /**
   * Whether Stop as written returns: it returns at once on its guards and when pausing
   * the root fails; otherwise it waits for the descendant goroutine, which signals
   * completion only when it could take a snapshot and its traversal of that snapshot
   * did not block.
   */
  function StopReturnsAsWritten(t: Tree, snapshot: Option<seq<Entry>>, refused: set<int>): (r: bool)
    ensures !r ==> t.pid != 0 && t.state != Stopped &&
                   StopTree(t, snapshot, refused).result == Pass && StopTree(t, snapshot, refused).after.state == Stopped
    ensures snapshot.None? || |ChildrenOf(snapshot.value, t.pid)| > Workers ==>
              (r <==> t.pid == 0 || t.state == Stopped || t.pid in refused)
    ensures snapshot.Some? && ChildrenOf(snapshot.value, t.pid) == [] ==> r
  {
    t.pid == 0 || t.state == Stopped || Deliver(t.pid, refused).Fail? ||
    (snapshot.Some? && DiscoverAsWritten(snapshot.value, t.pid).Some?)
  }

  /**
   * Stop as written hangs when the root pause succeeds but no snapshot can be taken
   * (its other hang, a traversal that blocks, is StopHangsOnBlockedDiscovery); the
   * corrected Stop returns then, with the root paused and marked Stopped.
   */
  lemma StopHangsOnSnapshotFailure(t: Tree, refused: set<int>)
    requires t.pid != 0 && t.state == Running && t.pid !in refused
    ensures !StopReturnsAsWritten(t, None, refused)
    ensures StopTree(t, None, refused) == Effect(Pass, Tree(t.pid, t.children, Stopped), [t.pid])
  {
  }

  /**
   * Stop as written also hangs when the snapshot is taken but the traversal blocks: a
   * running root with eleven children. The corrected Stop returns, pausing the root and
   * then its eleven children.
   */
  lemma StopHangsOnBlockedDiscovery(refused: set<int>)
    requires 1 !in refused
    ensures !StopReturnsAsWritten(Tree(1, [], Running), Some(Fan()), refused)
    ensures var r := StopTree(Tree(1, [], Running), Some(Fan()), refused);
            r.result == Pass && r.after.state == Stopped && r.after.children == Descendants(Fan(), 1) &&
            r.signalled == [1] + Descendants(Fan(), 1) && |r.signalled| == 12
  {
    DispatchBlocksPastTenWorkers();
  }
}
