/**
 The accessibility tree renderer: a walk with a budget of elements and a bound
 on depth, which appends a record and a line for each element it shows.
*/
module TreeRenderer {
  import opened AccessibleNodes
  import opened RenderedLines
  import opened TabCompaction
  import opened Text
  import opened Wrappers

  // ---- The traversal the renderer refines ----

  /** An element as the traversal meets it: where it is shown, and how to get there from the application. */
  datatype Visit = Visit(node: Node, depth: nat, path: seq<nat>)

  /**
   The elements to show, parents before children and children in order, down to
   depth `deepest`. An elided element gives its place and depth to its child;
   what is under a closed element is not shown.
  */
  function Preorder(node: Node, depth: nat, path: seq<nat>, deepest: nat): seq<Visit>
    decreases node, |node.slots| + 1
  {
    if depth > deepest then []
    else if Elided(node) then PreorderSlots(node, 0, depth, path, deepest)
    else
      [Visit(node, depth, path)]
      + if Closed(node) then [] else PreorderSlots(node, 0, depth + 1, path, deepest)
  }

  function PreorderSlots(node: Node, i: nat, depth: nat, path: seq<nat>, deepest: nat): seq<Visit>
    requires i <= |node.slots|
    decreases node, |node.slots| - i
  {
    if i == |node.slots| then []
    else
      (match node.slots[i]
       case None => []
       case Some(child) => Preorder(child, depth, path + [i], deepest))
      + PreorderSlots(node, i + 1, depth, path, deepest)
  }

  /** Whether the traversal comes to an element below the greatest depth that is rendered. */
  predicate Deep(node: Node, depth: nat)
    decreases node, |node.slots| + 1
  {
    || depth > MAX_DEPTH
    || (Elided(node) && DeepSlots(node, 0, depth))
    || (!Elided(node) && !Closed(node) && DeepSlots(node, 0, depth + 1))
  }

  predicate DeepSlots(node: Node, i: nat, depth: nat)
    requires i <= |node.slots|
    decreases node, |node.slots| - i
  {
    && i < |node.slots|
    && (|| (node.slots[i].Some? && Deep(node.slots[i].value, depth))
        || DeepSlots(node, i + 1, depth))
  }

  // ---- The walk ----

  function Appended(s: Rendering, node: Node, depth: nat, path: seq<nat>): Rendering {
    s.(records := s.records + [RecordOf(node, |s.records|, path)],
       lines := s.lines + [LineOf(node, depth, |s.records|)])
  }

  function Refused(s: Rendering, depth: nat): Rendering {
    s.(truncated := true, maxDepthReached := s.maxDepthReached || depth > MAX_DEPTH)
  }

  function Walked(s: Rendering, node: Node, depth: nat, path: seq<nat>, compact: bool): Rendering
    decreases node, |node.slots| + 1
  {
    if |s.records| >= MAX_NODES || depth > MAX_DEPTH then Refused(s, depth)
    else if Elided(node) then WalkedSlots(s, node, 0, depth, path, compact)
    else
      var t := Appended(s, node, depth, path);
      if Closed(node) then t
      else
        var u := WalkedSlots(t, node, 0, depth + 1, path, compact);
        if compact then Compacted(u, |t.lines|, depth + 1) else u
  }

  function WalkedSlots(
    s: Rendering, node: Node, i: nat, depth: nat, path: seq<nat>, compact: bool): Rendering
    requires i <= |node.slots|
    decreases node, |node.slots| - i
  {
    if i == |node.slots| then s
    else WalkedSlots(WalkedSlot(s, node, i, depth, path, compact), node, i + 1, depth, path, compact)
  }

  function WalkedSlot(
    s: Rendering, node: Node, i: nat, depth: nat, path: seq<nat>, compact: bool): Rendering
    requires i < |node.slots|
    decreases node, 0
  {
    match node.slots[i]
    case None => s
    case Some(child) => Walked(s, child, depth, path + [i], compact)
  }

  class Renderer {
    var records: seq<Record>
    var lines: seq<string>
    var truncated: bool
    var maxDepthReached: bool

    ghost function State(): Rendering
      reads this
    {
      Rendering(records, lines, truncated, maxDepthReached)
    }

    constructor ()
      ensures State() == Rendering([], [], false, false)
    {
      records := [];
      lines := [];
      truncated := false;
      maxDepthReached := false;
    }

    method Walk(node: Node, depth: nat, path: seq<nat>, compact: bool)
      modifies this
      ensures State() == Walked(old(State()), node, depth, path, compact)
      decreases node, |node.slots| + 1
    {
      hide Elided, Closed, Compacted, LineOf, WalkedSlots;
      if |records| >= MAX_NODES || depth > MAX_DEPTH {
        truncated := true;
        if depth > MAX_DEPTH {
          maxDepthReached := true;
        }
        return;
      }
      var item := RecordOf(node, |records|, path);
      if Elided(node) {
        WalkChildren(node, depth, path, compact);
        return;
      }
      records := records + [item];
      lines := lines + [LineOf(node, depth, item.index)];
      if Closed(node) {
        return;
      }
      var childLineStart := |lines|;
      WalkChildren(node, depth + 1, path, compact);
      if compact {
        CompactTabs(childLineStart, depth + 1);
      }
    }

    /** The loop over the children, those in empty slots passed over. */
    method WalkChildren(node: Node, depth: nat, path: seq<nat>, compact: bool)
      modifies this
      ensures State() == WalkedSlots(old(State()), node, 0, depth, path, compact)
      decreases node, |node.slots|
    {
      hide Walked, WalkedSlots;
      ghost var all := WalkedSlots(State(), node, 0, depth, path, compact);
      for i := 0 to |node.slots|
        invariant WalkedSlots(State(), node, i, depth, path, compact) == all
      {
        NextSlot(State(), node, i, depth, path, compact);
        match node.slots[i]
        case None =>
        case Some(child) => Walk(child, depth, path + [i], compact);
      }
      NextSlot(State(), node, |node.slots|, depth, path, compact);
    }

    /** Deletes the inactive tabs among the lines from `startLine` on, in place and from the last to the first. */
    method CompactTabs(startLine: nat, depth: nat)
      modifies this
      ensures State() == Compacted(old(State()), startLine, depth)
    {
      hide IsTabLine, IsActiveTab, ByIndex, Without, OmittedLine, ElementIndex, TabLines, Omitted, Kept;
      var tabs := FindTabs(lines, startLine, depth);
      if |tabs| < TABS_WORTH_COMPACTING {
        return;
      }
      var byIndex := MapByIndex(records);
      var active := set p | p in tabs && IsActiveTab(lines[p], depth, byIndex);
      ActiveTabs(lines, startLine, depth, byIndex, active);
      if active == {} {
        return;
      }
      DeleteInactive(startLine, depth, tabs, active, byIndex);
    }

    method DeleteInactive(
      startLine: nat, depth: nat, tabs: seq<nat>, active: set<nat>, byIndex: map<nat, Record>)
      requires tabs == TabLines(lines, startLine, depth) && |tabs| >= TABS_WORTH_COMPACTING
      requires byIndex == ByIndex(records)
      requires active != {} && forall p :: p in active <==> p in tabs && IsActiveTab(lines[p], depth, byIndex)
      modifies this
      ensures State() == Compacted(old(State()), startLine, depth)
    {
      hide IsTabLine, IsActiveTab, ByIndex, Without, OmittedLine, ElementIndex, Kept, TabLines, Omitted, IndexesNamed,
        Compacted;
      ghost var before := State();
      var omittedIndexes: set<nat> := {};
      var omittedCount := 0;
      var insertion := tabs[0];
      var k := |tabs|;
      ghost var p := |lines|;
      NothingAtEnd(before.lines, depth, byIndex);
      ActiveTabs(lines, startLine, depth, byIndex, active);
      while k > 0
        invariant 0 <= k <= |tabs| && p == (if k == |tabs| then |before.lines| else tabs[k])
        invariant records == before.records
        invariant truncated == before.truncated && maxDepthReached == before.maxDepthReached
        invariant Deleted(before.lines, p, depth, byIndex, lines, omittedCount, omittedIndexes)
      {
        k := k - 1;
        var i := tabs[k];
        assert i in tabs;
        TabBefore(before.lines, startLine, depth, tabs, k);
        DeletionStep(before.lines, i, p, depth, byIndex, lines, omittedCount, omittedIndexes);
        assert Omits(before.lines[i], depth, byIndex) <==> i !in active;
        p := i;
        if i !in active {
          var index := ElementIndex(lines[i], depth);
          if index.Some? {
            omittedIndexes := omittedIndexes + {index.value};
          }
          lines := lines[..i] + lines[i + 1..];
          omittedCount := omittedCount + 1;
        }
      }
      DeletionEnds(before, startLine, depth, lines, omittedCount, omittedIndexes);
      if omittedCount <= 0 {
        return;
      }
      records := FilterRecords(records, omittedIndexes);
      lines := lines[..insertion] + [OmittedLine(depth, omittedCount)] + lines[insertion..];
    }
  }

  method FindTabs(lines: seq<string>, startLine: nat, depth: nat) returns (tabs: seq<nat>)
    ensures tabs == TabLines(lines, startLine, depth)
  {
    hide IsTabLine, Ascending;
    tabs := [];
    var i := startLine;
    while i < |lines|
      invariant tabs + TabLines(lines, i, depth) == TabLines(lines, startLine, depth)
      decreases |lines| - i
    {
      if IsTabLine(lines[i], depth) {
        tabs := tabs + [i];
      }
      i := i + 1;
    }
  }

  method MapByIndex(records: seq<Record>) returns (byIndex: map<nat, Record>)
    ensures byIndex == ByIndex(records)
  {
    byIndex := map[];
    for i := 0 to |records|
      invariant byIndex == ByIndex(records[..i])
    {
      assert records[..i + 1][..i] == records[..i];
      byIndex := byIndex[records[i].index := records[i]];
    }
    assert records[..|records|] == records;
  }

  method FilterRecords(records: seq<Record>, omitted: set<nat>) returns (kept: seq<Record>)
    ensures kept == Without(records, omitted)
  {
    kept := [];
    for i := 0 to |records|
      invariant kept == Without(records[..i], omitted)
    {
      assert records[..i + 1][..i] == records[..i];
      if records[i].index !in omitted {
        kept := kept + [records[i]];
      }
    }
    assert records[..|records|] == records;
  }

  // ---- Steps of the loops ----

  lemma NextSlot(s: Rendering, node: Node, i: nat, depth: nat, path: seq<nat>, compact: bool)
    requires i <= |node.slots|
    ensures WalkedSlots(s, node, i, depth, path, compact)
         == if i == |node.slots| then s
            else WalkedSlots(WalkedSlot(s, node, i, depth, path, compact), node, i + 1, depth, path, compact)
  {
  }

  lemma ActiveTabs(
    lines: seq<string>, startLine: nat, depth: nat, byIndex: map<nat, Record>, active: set<nat>)
    requires forall p ::
               p in active <==> p in TabLines(lines, startLine, depth) && IsActiveTab(lines[p], depth, byIndex)
    ensures active == {} <==>
            |Omitted(lines, startLine, depth, byIndex)| == |TabLines(lines, startLine, depth)|
  {
    hide IsTabLine, IsActiveTab;
    TabsAreAll(lines, startLine, depth, byIndex);
    if active == {} {
      forall p | startLine <= p < |lines| && IsTabLine(lines[p], depth)
        ensures !IsActiveTab(lines[p], depth, byIndex)
      {
        assert p in TabLines(lines, startLine, depth);
        assert p !in active;
      }
    } else {
      var p :| p in active;
      assert p in TabLines(lines, startLine, depth);
    }
  }

  /** The loop's state once the tabs from position `p` on have been dealt with. */
  ghost predicate Deleted(
    before: seq<string>, p: nat, depth: nat, byIndex: map<nat, Record>, lines: seq<string>, count: nat,
    indexes: set<nat>)
  {
    && p <= |before|
    && lines == before[..p] + Kept(before, p, depth, byIndex)
    && count == |Omitted(before, p, depth, byIndex)|
    && indexes == IndexesNamed(before, depth, Omitted(before, p, depth, byIndex))
  }

  lemma NothingAtEnd(lines: seq<string>, depth: nat, byIndex: map<nat, Record>)
    ensures Deleted(lines, |lines|, depth, byIndex, lines, 0, {})
  {
  }

  /** No tabs lie between one tab and the next, or the end. */
  lemma TabBefore(lines: seq<string>, startLine: nat, depth: nat, tabs: seq<nat>, k: nat)
    requires tabs == TabLines(lines, startLine, depth) && k < |tabs|
    ensures var p := if k + 1 == |tabs| then |lines| else tabs[k + 1];
            tabs[k] < p <= |lines| && forall q :: tabs[k] < q < p ==> !IsTabLine(lines[q], depth)
  {
    hide IsTabLine, TabLines;
    var p := if k + 1 == |tabs| then |lines| else tabs[k + 1];
    assert tabs[k] in tabs;
    assert k + 1 < |tabs| ==> tabs[k + 1] in tabs;
    forall q | tabs[k] < q < p
      ensures !IsTabLine(lines[q], depth)
    {
      assert q !in tabs;
    }
  }

  lemma DeletionStep(
    before: seq<string>, i: nat, p: nat, depth: nat, byIndex: map<nat, Record>, lines: seq<string>, count: nat,
    indexes: set<nat>)
    requires i < p <= |before| && forall q :: i < q < p ==> !IsTabLine(before[q], depth)
    requires Deleted(before, p, depth, byIndex, lines, count, indexes)
    ensures i < |lines| && lines[i] == before[i]
    ensures !Omits(before[i], depth, byIndex) ==> Deleted(before, i, depth, byIndex, lines, count, indexes)
    ensures Omits(before[i], depth, byIndex) ==>
            Deleted(before, i, depth, byIndex, lines[..i] + lines[i + 1..], count + 1,
                    if ElementIndex(before[i], depth).Some? then indexes + {ElementIndex(before[i], depth).value}
                    else indexes)
  {
    hide IsTabLine, IsActiveTab, ElementIndex, Ascending;
    NoTabsBetween(before, i + 1, p, depth, byIndex);
    var kept := Kept(before, p, depth, byIndex);
    var after := before[i + 1..p] + kept;
    assert before[..p] == before[..i] + [before[i]] + before[i + 1..p];
    assert lines == before[..i] + ([before[i]] + after);
    assert lines[i + 1..] == after;
  }

  lemma DeletionEnds(
    before: Rendering, startLine: nat, depth: nat, lines: seq<string>, count: nat, indexes: set<nat>)
    requires |TabLines(before.lines, startLine, depth)| >= TABS_WORTH_COMPACTING
    requires |OmittedOf(before, startLine, depth)| != |TabLines(before.lines, startLine, depth)|
    requires var first := TabLines(before.lines, startLine, depth)[0];
             Deleted(before.lines, first, depth, ByIndex(before.records), lines, count, indexes)
    ensures var first := TabLines(before.lines, startLine, depth)[0];
            && first <= |lines|
            && Compacted(before, startLine, depth)
               == if count == 0 then before
                  else before.(
                    records := Without(before.records, indexes),
                    lines := lines[..first] + [OmittedLine(depth, count)] + lines[first..])
    ensures count == 0 ==> lines == before.lines
  {
    hide IsTabLine, IsActiveTab, ElementIndex, ByIndex, Without, OmittedLine, IndexesNamed, Omitted, Kept, TabLines;
    OmittedFromTheFirstTab(before, startLine, depth);
    var first := TabLines(before.lines, startLine, depth)[0];
    var kept := Kept(before.lines, first, depth, ByIndex(before.records));
    assert lines[..first] == before.lines[..first] && lines[first..] == kept;
    if count == 0 {
      NothingOmitted(before.lines, first, depth, ByIndex(before.records));
    }
  }

  lemma {:induction false} NothingOmitted(lines: seq<string>, from: nat, depth: nat, byIndex: map<nat, Record>)
    requires from <= |lines| && Omitted(lines, from, depth, byIndex) == []
    ensures Kept(lines, from, depth, byIndex) == lines[from..]
    decreases |lines| - from
  {
    hide IsTabLine, IsActiveTab;
    if from < |lines| {
      NothingOmitted(lines, from + 1, depth, byIndex);
    }
  }
}
