/**
 The indexes of a rendering with compaction: elements are numbered by how many
 records there are, so after a compaction an index that is still in use can be
 given again. When that happens is stated for every tree.
*/
module IndexNumbering {
  import opened AccessibleNodes
  import opened RenderedLines
  import opened RenderedTree
  import opened RenderingActs
  import opened TabCompaction
  import opened TreeRenderer

  // ---- Elements shown after a compaction ----

  /** None of the `m` indexes from `next` on is in use, as far as can be told before the call. */
  ghost predicate LeavesFree(s: Rendering, start: nat, depth: nat, next: nat, m: nat) {
    forall k :: 0 <= k < |s.records| && !IsOmitted(s, start, depth, s.records[k].index) ==>
                  !(next <= s.records[k].index < next + m)
  }

  /**
   After any call of the compaction, on any records, the elements shown next are
   numbered on from the records there were less those removed. All indexes
   differ exactly when the call leaves no two records of one index and none with
   an index that one of the new elements gets.
  */
  lemma DistinctAfterCompaction(s: Rendering, start: nat, depth: nat, visits: seq<Visit>)
    ensures var next := |s.records| - Removed(s, start, depth);
            && |Compacted(s, start, depth).records| == next
            && (DistinctIndexes(Compacted(s, start, depth).records + RecordsOf(visits, next)) <==>
                LeavesDistinct(s, start, depth) && LeavesFree(s, start, depth, next, |visits|))
  {
    hide Compacted, Removed, IsOmitted, LeavesDistinct;
    var t := Compacted(s, start, depth).records;
    var next := |s.records| - Removed(s, start, depth);
    RemovedIsMissing(s, start, depth);
    LeftAreDistinct(s, start, depth);
    DistinctTogether(t, visits);
    IndexesLeft(s, start, depth);
    assert LeavesFree(s, start, depth, next, |visits|) <==> Free(t, next, |visits|) by {
      FreeLeft(s, start, depth, next, |visits|);
    }
  }

  ghost predicate Free(records: seq<Record>, next: nat, m: nat) {
    forall x: nat :: next <= x < next + m ==> !HasIndex(records, x)
  }

  lemma FreeLeft(s: Rendering, start: nat, depth: nat, next: nat, m: nat)
    ensures LeavesFree(s, start, depth, next, m) <==> Free(Compacted(s, start, depth).records, next, m)
  {
    hide Compacted, IsOmitted;
    IndexesLeft(s, start, depth);
    var t := Compacted(s, start, depth).records;
    if k :| 0 <= k < |s.records| && !IsOmitted(s, start, depth, s.records[k].index)
            && next <= s.records[k].index < next + m
    {
      assert HasIndex(s.records, s.records[k].index);
      assert HasIndex(t, s.records[k].index);
    }
  }

  lemma DistinctTogether(records: seq<Record>, visits: seq<Visit>)
    ensures DistinctIndexes(records + RecordsOf(visits, |records|)) <==>
            DistinctIndexes(records) && Free(records, |records|, |visits|)
  {
    var n, all := |records|, records + RecordsOf(visits, |records|);
    assert forall k :: 0 <= k < n ==> all[k] == records[k];
    assert forall j :: n <= j < |all| ==> all[j].index == j;
    if x: nat :| n <= x < n + |visits| && HasIndex(records, x) {
      var k :| 0 <= k < n && records[k].index == x;
      assert all[k].index == all[x].index;
    }
    if DistinctIndexes(records) && Free(records, n, |visits|) {
      forall i, j | 0 <= i < j < |all|
        ensures all[i].index != all[j].index
      {
        if i < n <= j {
          assert !HasIndex(records, j);
        }
      }
    }
  }

  /** The same of any element walked after the compaction, with whatever there is room for below it. */
  lemma DistinctAfterWalk(s: Rendering, start: nat, depth: nat, node: Node, at: nat, path: seq<nat>)
    requires |s.records| - Removed(s, start, depth) <= MAX_NODES
    ensures var t, next := Compacted(s, start, depth), |s.records| - Removed(s, start, depth);
            DistinctIndexes(Walked(t, node, at, path, false).records) <==>
            && LeavesDistinct(s, start, depth)
            && LeavesFree(s, start, depth, next, |Fitting(Preorder(node, at, path, MAX_DEPTH), next)|)
  {
    hide Compacted, Removed, IsOmitted, LeavesDistinct, LeavesFree, Walked, Preorder, RecordOf, LineOf, DistinctIndexes,
      Fitting, FlagsTell;
    RemovedIsMissing(s, start, depth);
    var next := |s.records| - Removed(s, start, depth);
    WalkRenders(Compacted(s, start, depth), node, at, path);
    DistinctAfterCompaction(s, start, depth, Fitting(Preorder(node, at, path, MAX_DEPTH), next));
  }

  // ---- Whole renderings ----

  ghost predicate Compactionless(acts: seq<Act>) {
    forall k :: 0 <= k < |acts| ==> !acts[k].Compact?
  }

  /** Where the last compaction is. */
  function LastCompaction(acts: seq<Act>): (k: int)
    ensures -1 <= k < |acts|
    ensures k >= 0 ==> acts[k].Compact?
    ensures forall i :: k < i < |acts| ==> !acts[i].Compact?
  {
    if acts == [] || acts[|acts| - 1].Compact? then |acts| - 1 else LastCompaction(acts[..|acts| - 1])
  }

  lemma {:induction false} NumberedOn(s: Rendering, acts: seq<Act>)
    requires Compactionless(acts)
    ensures Performed(s, acts).records == s.records + RecordsOf(ShownBy(acts), |s.records|)
  {
    hide RecordsOf, Done;
    if acts == [] {
      assert RecordsOf([], |s.records|) == [];
    } else {
      var n := |acts| - 1;
      NumberedOn(s, acts[..n]);
      OneMore(Performed(s, acts[..n]), acts[n]);
      if acts[n].Show? {
        RecordsOfMore(ShownBy(acts[..n]), acts[n].visit, |s.records|);
      } else {
        assert ShownBy(acts) == ShownBy(acts[..n]);
      }
    }
  }

  lemma OneMore(s: Rendering, act: Act)
    requires !act.Compact?
    ensures Done(s, act).records
         == if act.Show? then s.records + RecordsOf([act.visit], |s.records|) else s.records
  {
    hide RecordOf, LineOf;
  }

  lemma RecordsOfMore(visits: seq<Visit>, visit: Visit, from: nat)
    ensures RecordsOf(visits + [visit], from) == RecordsOf(visits, from) + RecordsOf([visit], from + |visits|)
  {
    hide RecordOf;
  }

  /**
   A rendering with compaction, of any tree: where no compaction omits anything
   all indexes differ. Otherwise they do exactly when the last one that omits
   something leaves no two records of one index and no record with an index that
   one of the elements shown after it gets.
  */
  lemma IndexesAreDistinct(root: Node, path: seq<nat>)
    ensures var acts := Acts(NOTHING, root, 0, path);
            var records, k := Walked(NOTHING, root, 0, path, true).records, LastCompaction(acts);
            if k < 0 then DistinctIndexes(records)
            else
              var before, start, depth := Performed(NOTHING, acts[..k]), acts[k].start, acts[k].depth;
              var next := |before.records| - Removed(before, start, depth);
              DistinctIndexes(records) <==>
              LeavesDistinct(before, start, depth) && LeavesFree(before, start, depth, next, |ShownBy(acts[k + 1..])|)
  {
    hide Walked, Acts, LeavesDistinct, LeavesFree, Removed, Compacted, Performed, DistinctIndexes, LastCompaction;
    var acts := Acts(NOTHING, root, 0, path);
    WalkPerforms(NOTHING, root, 0, path);
    var k := LastCompaction(acts);
    if k < 0 {
      NumberedOn(NOTHING, acts);
      DistinctFromNothing(ShownBy(acts));
      assert [] + RecordsOf(ShownBy(acts), 0) == RecordsOf(ShownBy(acts), 0);
    } else {
      var before, later := Performed(NOTHING, acts[..k]), acts[k + 1..];
      var t := Compacted(before, acts[k].start, acts[k].depth);
      assert acts == acts[..k] + ([acts[k]] + later);
      PerformedThen(NOTHING, acts[..k], [acts[k]] + later);
      PerformedThen(before, [acts[k]], later);
      PerformedOne(before, acts[k]);
      NumberedOn(t, later);
      DistinctAfterCompaction(before, acts[k].start, acts[k].depth, ShownBy(later));
    }
  }

  lemma DistinctFromNothing(visits: seq<Visit>)
    ensures DistinctIndexes(RecordsOf(visits, 0))
  {
  }
}
