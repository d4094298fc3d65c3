/** The walk with compaction, told act by act: what it shows, turns away and compacts, in that order. */
module RenderingActs {
  import opened AccessibleNodes
  import opened RenderedLines
  import opened TabCompaction
  import opened TreeRenderer
  import opened Wrappers

  /** Showing an element; turning one away, too deep or without room; a compaction that omits something. */
  datatype Act = Show(visit: Visit) | TurnAway(depth: nat) | Compact(start: nat, depth: nat)

  const NOTHING := Rendering([], [], false, false)

  function Acts(s: Rendering, node: Node, depth: nat, path: seq<nat>): seq<Act>
    decreases node, |node.slots| + 1
  {
    if |s.records| >= MAX_NODES || depth > MAX_DEPTH then [TurnAway(depth)]
    else if Elided(node) then ActsOfSlots(s, node, 0, depth, path)
    else
      var t := Appended(s, node, depth, path);
      [Show(Visit(node, depth, path))]
      + if Closed(node) then []
        else
          ActsOfSlots(t, node, 0, depth + 1, path)
          + CompactionActs(WalkedSlots(t, node, 0, depth + 1, path, true), |t.lines|, depth + 1)
  }

  function ActsOfSlots(s: Rendering, node: Node, i: nat, depth: nat, path: seq<nat>): seq<Act>
    requires i <= |node.slots|
    decreases node, |node.slots| - i
  {
    if i == |node.slots| then []
    else
      (match node.slots[i]
       case None => []
       case Some(child) => Acts(s, child, depth, path + [i]))
      + ActsOfSlots(WalkedSlot(s, node, i, depth, path, true), node, i + 1, depth, path)
  }

  function CompactionActs(s: Rendering, start: nat, depth: nat): seq<Act> {
    if Compacts(s, start, depth) then [Compact(start, depth)] else []
  }

  function Done(s: Rendering, act: Act): Rendering {
    match act
    case Show(visit) => Appended(s, visit.node, visit.depth, visit.path)
    case TurnAway(depth) => Refused(s, depth)
    case Compact(start, depth) => Compacted(s, start, depth)
  }

  function Performed(s: Rendering, acts: seq<Act>): Rendering {
    if acts == [] then s else Done(Performed(s, acts[..|acts| - 1]), acts[|acts| - 1])
  }

  lemma {:induction false} PerformedThen(s: Rendering, a: seq<Act>, b: seq<Act>)
    ensures Performed(s, a + b) == Performed(Performed(s, a), b)
    decreases |b|
  {
    hide Done;
    if b == [] {
      assert a + b == a;
    } else {
      PerformedThen(s, a, b[..|b| - 1]);
      assert (a + b)[..|a + b| - 1] == a + b[..|b| - 1];
    }
  }

  lemma PerformedOne(s: Rendering, act: Act)
    ensures Performed(s, [act]) == Done(s, act)
  {
    hide Done;
    assert [act][..0] == [];
  }

  // ---- The walk performs its acts ----

  /** The walk of any element from any state, flags included, is its acts one after the other. */
  lemma {:induction false} WalkPerforms(s: Rendering, node: Node, depth: nat, path: seq<nat>)
    ensures Performed(s, Acts(s, node, depth, path)) == Walked(s, node, depth, path, true)
    decreases node, |node.slots| + 1
  {
    hide Elided, Closed, ActsOfSlots, WalkedSlots, Appended, Refused, Compacted, Compacts, Performed;
    if |s.records| >= MAX_NODES || depth > MAX_DEPTH {
      PerformedOne(s, TurnAway(depth));
    } else if Elided(node) {
      SlotsPerform(s, node, 0, depth, path);
    } else {
      var t := Appended(s, node, depth, path);
      var show := Show(Visit(node, depth, path));
      PerformedOne(s, show);
      if Closed(node) {
        assert Acts(s, node, depth, path) == [show];
      } else {
        var a := ActsOfSlots(t, node, 0, depth + 1, path);
        var u := WalkedSlots(t, node, 0, depth + 1, path, true);
        SlotsPerform(t, node, 0, depth + 1, path);
        CompactionPerforms(u, |t.lines|, depth + 1);
        PerformedThen(t, a, CompactionActs(u, |t.lines|, depth + 1));
        PerformedThen(s, [show], a + CompactionActs(u, |t.lines|, depth + 1));
      }
    }
  }

  lemma CompactionPerforms(s: Rendering, start: nat, depth: nat)
    ensures Performed(s, CompactionActs(s, start, depth)) == Compacted(s, start, depth)
  {
    hide Compacts, Compacted;
    CompactsWhen(s, start, depth);
    PerformedOne(s, Compact(start, depth));
  }

  lemma {:induction false} SlotsPerform(s: Rendering, node: Node, i: nat, depth: nat, path: seq<nat>)
    requires i <= |node.slots|
    ensures Performed(s, ActsOfSlots(s, node, i, depth, path)) == WalkedSlots(s, node, i, depth, path, true)
    decreases node, |node.slots| - i
  {
    hide Acts, Walked, Done;
    if i < |node.slots| {
      var t := WalkedSlot(s, node, i, depth, path, true);
      SlotsPerform(t, node, i + 1, depth, path);
      match node.slots[i]
      case None =>
        assert ActsOfSlots(s, node, i, depth, path) == ActsOfSlots(t, node, i + 1, depth, path);
      case Some(child) =>
        WalkPerforms(s, child, depth, path + [i]);
        PerformedThen(s, Acts(s, child, depth, path + [i]), ActsOfSlots(t, node, i + 1, depth, path));
    }
  }

  // ---- What is shown ----

  /** The elements shown, whether or not their records are there in the end. */
  function ShownBy(acts: seq<Act>): seq<Visit> {
    if acts == [] then []
    else
      var last := acts[|acts| - 1];
      ShownBy(acts[..|acts| - 1]) + if last.Show? then [last.visit] else []
  }

  lemma {:induction false} ShownThen(a: seq<Act>, b: seq<Act>)
    ensures ShownBy(a + b) == ShownBy(a) + ShownBy(b)
    decreases |b|
  {
    if b == [] {
      assert a + b == a;
    } else {
      ShownThen(a, b[..|b| - 1]);
      assert (a + b)[..|a + b| - 1] == a + b[..|b| - 1];
    }
  }

  lemma ShownOfOne(act: Act)
    ensures ShownBy([act]) == if act.Show? then [act.visit] else []
  {
    assert [act][..0] == [];
  }

  /** Every record was shown at some time. */
  lemma {:induction false} RecordsWereShown(s: Rendering, acts: seq<Act>)
    ensures |Performed(s, acts).records| <= |s.records| + |ShownBy(acts)|
  {
    hide Compacted, RecordOf;
    if acts != [] {
      var n := |acts| - 1;
      RecordsWereShown(s, acts[..n]);
      if acts[n].Compact? {
        RemovedIsMissing(Performed(s, acts[..n]), acts[n].start, acts[n].depth);
      }
    }
  }

  /** The flags a walk sets, in terms of what it turned away. */
  predicate TurnsAway(acts: seq<Act>) {
    exists k :: 0 <= k < |acts| && acts[k].TurnAway?
  }

  predicate TurnsAwayDeep(acts: seq<Act>) {
    exists k :: 0 <= k < |acts| && acts[k].TurnAway? && acts[k].depth > MAX_DEPTH
  }

  /** A walk turns nothing away that is neither too deep nor without room, and shows all if it turns nothing away. */
  ghost predicate Tells(s: Rendering, acts: seq<Act>, visits: seq<Visit>, deep: bool) {
    && (!TurnsAway(acts) ==> ShownBy(acts) == visits && !deep)
    && (TurnsAwayDeep(acts) ==> deep)
    && (TurnsAway(acts) && !TurnsAwayDeep(acts) ==> |s.records| + |ShownBy(acts)| >= MAX_NODES)
  }

  lemma {:induction false} FlagsOfActs(s: Rendering, acts: seq<Act>)
    ensures Performed(s, acts).truncated <==> s.truncated || TurnsAway(acts)
    ensures Performed(s, acts).maxDepthReached <==> s.maxDepthReached || TurnsAwayDeep(acts)
  {
    hide Done, TurnsAway, TurnsAwayDeep;
    if acts == [] {
      TurnsAwayOfOne(TurnAway(0));
    } else {
      var n := |acts| - 1;
      FlagsOfActs(s, acts[..n]);
      FlagsOfOne(Performed(s, acts[..n]), acts[n]);
      TurnsAwayOfOne(acts[n]);
      TurnsAwayThen(acts[..n], [acts[n]]);
      assert acts[..n] + [acts[n]] == acts;
    }
  }

  lemma FlagsOfOne(s: Rendering, act: Act)
    ensures Done(s, act).truncated <==> s.truncated || act.TurnAway?
    ensures Done(s, act).maxDepthReached <==> s.maxDepthReached || (act.TurnAway? && act.depth > MAX_DEPTH)
  {
    hide TabLines, Omitted, Kept, Without, IndexesNamed, OmittedLine, ByIndex, RecordOf, LineOf;
  }

  lemma TurnsAwayOfOne(act: Act)
    ensures !TurnsAway([]) && !TurnsAwayDeep([])
    ensures TurnsAway([act]) <==> act.TurnAway?
    ensures TurnsAwayDeep([act]) <==> act.TurnAway? && act.depth > MAX_DEPTH
  {
    assert act.TurnAway? ==> [act][0].TurnAway?;
  }

  lemma TurnsAwayThen(a: seq<Act>, b: seq<Act>)
    ensures TurnsAway(a + b) <==> TurnsAway(a) || TurnsAway(b)
    ensures TurnsAwayDeep(a + b) <==> TurnsAwayDeep(a) || TurnsAwayDeep(b)
  {
    assert forall k :: 0 <= k < |a| ==> (a + b)[k] == a[k];
    assert forall k :: 0 <= k < |b| ==> (a + b)[|a| + k] == b[k];
  }

  lemma TellsThen(
    s: Rendering, a: seq<Act>, b: seq<Act>, first: seq<Visit>, second: seq<Visit>, deepFirst: bool, deepSecond: bool)
    requires Tells(s, a, first, deepFirst) && Tells(Performed(s, a), b, second, deepSecond)
    ensures Tells(s, a + b, first + second, deepFirst || deepSecond)
  {
    hide Performed, ShownBy, TurnsAway, TurnsAwayDeep;
    TurnsAwayThen(a, b);
    ShownThen(a, b);
    RecordsWereShown(s, a);
  }

  /** A walk that turns nothing away has shown the whole traversal; one that does is too deep or has shown its fill. */
  lemma {:induction false} WalkTells(s: Rendering, node: Node, depth: nat, path: seq<nat>)
    ensures Tells(s, Acts(s, node, depth, path), Preorder(node, depth, path, MAX_DEPTH), Deep(node, depth))
    decreases node, |node.slots| + 1
  {
    hide Tells, Elided, Closed, ActsOfSlots, PreorderSlots, DeepSlots, WalkedSlots, Compacts, Performed, Appended;
    var visits, deep := Preorder(node, depth, path, MAX_DEPTH), Deep(node, depth);
    if |s.records| >= MAX_NODES || depth > MAX_DEPTH {
      TurningAwayTells(s, depth, visits, deep);
    } else if Elided(node) {
      SlotsTell(s, node, 0, depth, path);
    } else {
      var show := Show(Visit(node, depth, path));
      var t := Appended(s, node, depth, path);
      ShowingTells(s, show.visit);
      if Closed(node) {
        assert Acts(s, node, depth, path) == [show] && visits == [show.visit];
      } else {
        var a := ActsOfSlots(t, node, 0, depth + 1, path);
        var u := WalkedSlots(t, node, 0, depth + 1, path, true);
        SlotsTell(t, node, 0, depth + 1, path);
        SlotsPerform(t, node, 0, depth + 1, path);
        var c := CompactionActs(u, |t.lines|, depth + 1);
        CompactingTells(u, |t.lines|, depth + 1);
        var below, deepBelow := PreorderSlots(node, 0, depth + 1, path, MAX_DEPTH), DeepSlots(node, 0, depth + 1);
        TellsThen(t, a, c, below, [], deepBelow, false);
        assert below + [] == below;
        TellsThen(s, [show], a + c, [show.visit], below, false, deepBelow);
      }
    }
  }

  lemma TurningAwayTells(s: Rendering, depth: nat, visits: seq<Visit>, deep: bool)
    requires |s.records| >= MAX_NODES || depth > MAX_DEPTH
    requires depth > MAX_DEPTH ==> deep
    ensures Tells(s, [TurnAway(depth)], visits, deep)
  {
    assert [TurnAway(depth)][0].TurnAway?;
  }

  lemma ShowingTells(s: Rendering, visit: Visit)
    ensures Performed(s, [Show(visit)]) == Appended(s, visit.node, visit.depth, visit.path)
    ensures Tells(s, [Show(visit)], [visit], false)
  {
    hide Appended;
    PerformedOne(s, Show(visit));
    ShownOfOne(Show(visit));
  }

  lemma CompactingTells(s: Rendering, start: nat, depth: nat)
    ensures Tells(s, CompactionActs(s, start, depth), [], false)
  {
    hide Compacts;
    ShownOfOne(Compact(start, depth));
  }

  lemma NothingTells(s: Rendering)
    ensures Tells(s, [], [], false)
  {
  }

  lemma {:induction false} SlotsTell(s: Rendering, node: Node, i: nat, depth: nat, path: seq<nat>)
    requires i <= |node.slots|
    ensures Tells(s, ActsOfSlots(s, node, i, depth, path),
                  PreorderSlots(node, i, depth, path, MAX_DEPTH), DeepSlots(node, i, depth))
    decreases node, |node.slots| - i
  {
    hide Acts, Walked, Performed, Tells, Preorder, Deep;
    if i == |node.slots| {
      NothingTells(s);
    } else {
      var t := WalkedSlot(s, node, i, depth, path, true);
      SlotsTell(t, node, i + 1, depth, path);
      match node.slots[i]
      case None =>
        assert ActsOfSlots(s, node, i, depth, path) == ActsOfSlots(t, node, i + 1, depth, path);
        assert PreorderSlots(node, i, depth, path, MAX_DEPTH) == PreorderSlots(node, i + 1, depth, path, MAX_DEPTH);
      case Some(child) =>
        WalkTells(s, child, depth, path + [i]);
        WalkPerforms(s, child, depth, path + [i]);
        TellsThen(s, Acts(s, child, depth, path + [i]), ActsOfSlots(t, node, i + 1, depth, path),
                  Preorder(child, depth, path + [i], MAX_DEPTH), PreorderSlots(node, i + 1, depth, path, MAX_DEPTH),
                  Deep(child, depth), DeepSlots(node, i + 1, depth));
    }
  }
}
