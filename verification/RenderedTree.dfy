/** What a rendering shows of a tree: the renderer refines the pure preorder traversal. */
module RenderedTree {
  import opened AccessibleNodes
  import opened Numerals
  import opened RenderedLines
  import opened RenderingActs
  import opened TabCompaction
  import opened Text
  import opened TreeRenderer
  import opened Wrappers

  // ---- Without compaction: a prefix of the traversal ----

  function RecordsOf(visits: seq<Visit>, from: nat): (r: seq<Record>)
    ensures |r| == |visits|
  {
    seq(|visits|, k requires 0 <= k < |visits| => RecordOf(visits[k].node, from + k, visits[k].path))
  }

  function LinesOf(visits: seq<Visit>, from: nat): (r: seq<string>)
    ensures |r| == |visits|
  {
    seq(|visits|, k requires 0 <= k < |visits| => LineOf(visits[k].node, visits[k].depth, from + k))
  }

  /** As many of the visits as there is room for. */
  function Fitting(visits: seq<Visit>, taken: nat): seq<Visit>
    requires taken <= MAX_NODES
  {
    if |visits| <= MAX_NODES - taken then visits else visits[..MAX_NODES - taken]
  }

  ghost predicate Shows(s: Rendering, t: Rendering, visits: seq<Visit>) {
    && |s.records| <= MAX_NODES
    && var shown := Fitting(visits, |s.records|);
       && t.records == s.records + RecordsOf(shown, |s.records|)
       && t.lines == s.lines + LinesOf(shown, |s.records|)
  }

  /**
   What the flags say of a part of the walk: they are never cleared; while
   `truncated` is unset every visit found room and nothing was too deep; when it
   gets set the budget is spent or something was too deep; and until the budget
   is spent `maxDepthReached` tells which.
  */
  ghost predicate FlagsTell(s: Rendering, t: Rendering, visits: seq<Visit>, deep: bool) {
    && (s.truncated ==> t.truncated)
    && (s.maxDepthReached ==> t.maxDepthReached)
    && (!t.truncated ==> |s.records| + |visits| <= MAX_NODES && !deep)
    && (t.truncated && !s.truncated ==> |t.records| == MAX_NODES || deep)
    && (t.maxDepthReached && !s.maxDepthReached ==> deep)
    && (deep && |t.records| < MAX_NODES ==> t.maxDepthReached)
  }

  ghost predicate Renders(s: Rendering, t: Rendering, visits: seq<Visit>, deep: bool) {
    Shows(s, t, visits) && FlagsTell(s, t, visits, deep)
  }

  lemma FittingBoth(a: seq<Visit>, b: seq<Visit>, taken: nat)
    requires taken <= MAX_NODES
    ensures taken + |Fitting(a, taken)| <= MAX_NODES
    ensures Fitting(a + b, taken) == Fitting(a, taken) + Fitting(b, taken + |Fitting(a, taken)|)
  {
  }

  lemma RendersThen(
    s: Rendering, t: Rendering, u: Rendering, a: seq<Visit>, b: seq<Visit>, deepA: bool, deepB: bool)
    requires Renders(s, t, a, deepA) && Renders(t, u, b, deepB)
    ensures Renders(s, u, a + b, deepA || deepB)
  {
    hide RecordOf, LineOf, Fitting;
    var n := |s.records|;
    FittingBoth(a, b, n);
    var m := n + |Fitting(a, n)|;
    assert RecordsOf(Fitting(a + b, n), n) == RecordsOf(Fitting(a, n), n) + RecordsOf(Fitting(b, m), m);
    assert LinesOf(Fitting(a + b, n), n) == LinesOf(Fitting(a, n), n) + LinesOf(Fitting(b, m), m);
    assert Shows(s, u, a + b);
    assert FlagsTell(s, u, a + b, deepA || deepB) by {
      FittingCount(a, n);
      FittingCount(b, m);
    }
  }

  lemma FittingCount(visits: seq<Visit>, taken: nat)
    requires taken <= MAX_NODES
    ensures |Fitting(visits, taken)| <= MAX_NODES - taken
    ensures taken + |visits| <= MAX_NODES ==> |Fitting(visits, taken)| == |visits|
    ensures |Fitting(visits, taken)| == |visits| || taken + |Fitting(visits, taken)| == MAX_NODES
  {
  }

  lemma RendersNothing(s: Rendering)
    requires |s.records| <= MAX_NODES
    ensures Renders(s, s, [], false) && TellsMissing(s, s, [])
  {
  }

  lemma RendersOne(s: Rendering, node: Node, depth: nat, path: seq<nat>)
    requires |s.records| < MAX_NODES
    ensures Renders(s, Appended(s, node, depth, path), [Visit(node, depth, path)], false)
  {
    hide RecordOf, LineOf;
  }

  lemma RendersRefused(s: Rendering, depth: nat, visits: seq<Visit>, deep: bool)
    requires |s.records| <= MAX_NODES
    requires |s.records| == MAX_NODES || (depth > MAX_DEPTH && visits == [])
    requires depth > MAX_DEPTH ==> deep
    ensures Renders(s, Refused(s, depth), visits, deep)
  {
    var shown := Fitting(visits, |s.records|);
    assert shown == [];
  }

  /** The walk of an element, for any tree and from any state within the budget. */
  lemma {:induction false} WalkRenders(s: Rendering, node: Node, depth: nat, path: seq<nat>)
    requires |s.records| <= MAX_NODES
    ensures Renders(s, Walked(s, node, depth, path, false), Preorder(node, depth, path, MAX_DEPTH), Deep(node, depth))
    decreases node, |node.slots| + 1
  {
    hide Renders, Elided, Closed, PreorderSlots, DeepSlots, WalkedSlots, Appended, Refused;
    if |s.records| >= MAX_NODES || depth > MAX_DEPTH {
      RendersRefused(s, depth, Preorder(node, depth, path, MAX_DEPTH), Deep(node, depth));
    } else if Elided(node) {
      SlotsRender(s, node, 0, depth, path);
    } else {
      RendersOne(s, node, depth, path);
      if Closed(node) {
        assert Preorder(node, depth, path, MAX_DEPTH) == [Visit(node, depth, path)];
      } else {
        var t := Appended(s, node, depth, path);
        RendersWithin(s, t, [Visit(node, depth, path)], false);
        SlotsRender(t, node, 0, depth + 1, path);
        RendersThen(s, t, WalkedSlots(t, node, 0, depth + 1, path, false), [Visit(node, depth, path)],
                    PreorderSlots(node, 0, depth + 1, path, MAX_DEPTH), false, DeepSlots(node, 0, depth + 1));
      }
    }
  }

  lemma {:induction false} SlotsRender(s: Rendering, node: Node, i: nat, depth: nat, path: seq<nat>)
    requires i <= |node.slots| && |s.records| <= MAX_NODES
    ensures Renders(s, WalkedSlots(s, node, i, depth, path, false),
                    PreorderSlots(node, i, depth, path, MAX_DEPTH), DeepSlots(node, i, depth))
    decreases node, |node.slots| - i
  {
    hide Renders, Elided, Closed, Preorder, Deep, Walked;
    if i == |node.slots| {
      RendersNothing(s);
    } else {
      var t := WalkedSlot(s, node, i, depth, path, false);
      var first, deep := SlotRenders(s, node, i, depth, path);
      RendersWithin(s, t, first, deep);
      SlotsRender(t, node, i + 1, depth, path);
      RendersThen(s, t, WalkedSlots(t, node, i + 1, depth, path, false), first,
                  PreorderSlots(node, i + 1, depth, path, MAX_DEPTH), deep, DeepSlots(node, i + 1, depth));
    }
  }

  lemma {:induction false} SlotRenders(s: Rendering, node: Node, i: nat, depth: nat, path: seq<nat>)
    returns (visits: seq<Visit>, deep: bool)
    requires i < |node.slots| && |s.records| <= MAX_NODES
    ensures Renders(s, WalkedSlot(s, node, i, depth, path, false), visits, deep)
    ensures PreorderSlots(node, i, depth, path, MAX_DEPTH)
         == visits + PreorderSlots(node, i + 1, depth, path, MAX_DEPTH)
    ensures DeepSlots(node, i, depth) == (deep || DeepSlots(node, i + 1, depth))
    decreases node, 0
  {
    hide Renders, Elided, Closed, Preorder, Deep, Walked;
    match node.slots[i]
    case None =>
      visits, deep := [], false;
      RendersNothing(s);
    case Some(child) =>
      visits, deep := Preorder(child, depth, path + [i], MAX_DEPTH), Deep(child, depth);
      WalkRenders(s, child, depth, path + [i]);
  }

  lemma RendersWithin(s: Rendering, t: Rendering, visits: seq<Visit>, deep: bool)
    requires Renders(s, t, visits, deep)
    ensures |t.records| <= MAX_NODES
  {
    FittingCount(visits, |s.records|);
  }

  /** Where nothing is too deep, the bound on depth cuts nothing off. */
  lemma {:induction false} NothingCutOff(node: Node, depth: nat, path: seq<nat>, deepest: nat)
    requires !Deep(node, depth) && deepest >= MAX_DEPTH
    ensures Preorder(node, depth, path, deepest) == Preorder(node, depth, path, MAX_DEPTH)
    decreases node, |node.slots| + 1
  {
    hide Elided, Closed, DeepSlots, PreorderSlots;
    if Elided(node) {
      NothingCutOffSlots(node, 0, depth, path, deepest);
    } else if !Closed(node) {
      NothingCutOffSlots(node, 0, depth + 1, path, deepest);
    }
  }

  lemma {:induction false} NothingCutOffSlots(node: Node, i: nat, depth: nat, path: seq<nat>, deepest: nat)
    requires i <= |node.slots| && !DeepSlots(node, i, depth) && deepest >= MAX_DEPTH
    ensures PreorderSlots(node, i, depth, path, deepest) == PreorderSlots(node, i, depth, path, MAX_DEPTH)
    decreases node, |node.slots| - i
  {
    hide Deep, Preorder;
    if i < |node.slots| {
      NothingCutOffSlots(node, i + 1, depth, path, deepest);
      match node.slots[i]
      case None =>
      case Some(child) => NothingCutOff(child, depth, path + [i], deepest);
    }
  }

  // ---- Exactly when something is reported as missing ----

  /** What becomes of an element the walk comes to, as long as there is room: it is shown, passed over or too deep. */
  datatype Fate = Shown | PassedOver | TooDeep

  /** The fates of all the elements that the walk comes to, in the order in which it does. */
  function Fates(node: Node, depth: nat): seq<Fate>
    decreases node, |node.slots| + 1
  {
    if depth > MAX_DEPTH then [TooDeep]
    else if Elided(node) then [PassedOver] + FatesOfSlots(node, 0, depth)
    else [Shown] + if Closed(node) then [] else FatesOfSlots(node, 0, depth + 1)
  }

  function FatesOfSlots(node: Node, i: nat, depth: nat): seq<Fate>
    requires i <= |node.slots|
    decreases node, |node.slots| - i
  {
    if i == |node.slots| then []
    else
      (match node.slots[i]
       case None => []
       case Some(child) => Fates(child, depth))
      + FatesOfSlots(node, i + 1, depth)
  }

  function ShownAmong(fates: seq<Fate>): nat {
    if fates == [] then 0 else ShownAmong(fates[..|fates| - 1]) + if fates[|fates| - 1].Shown? then 1 else 0
  }

  /** Some element is too deep, or comes when `room` elements have been shown before it. */
  ghost predicate Misses(fates: seq<Fate>, room: nat) {
    exists k :: 0 <= k < |fates| && (fates[k].TooDeep? || ShownAmong(fates[..k]) >= room)
  }

  ghost predicate TellsMissing(s: Rendering, t: Rendering, fates: seq<Fate>) {
    && |s.records| <= MAX_NODES
    && |t.records|
       == (if |s.records| + ShownAmong(fates) <= MAX_NODES then |s.records| + ShownAmong(fates) else MAX_NODES)
    && (t.truncated <==> s.truncated || Misses(fates, MAX_NODES - |s.records|))
  }

  lemma {:induction false} ShownAmongBoth(a: seq<Fate>, b: seq<Fate>)
    ensures ShownAmong(a + b) == ShownAmong(a) + ShownAmong(b)
    decreases |b|
  {
    if b == [] {
      assert a + b == a;
    } else {
      ShownAmongBoth(a, b[..|b| - 1]);
      assert (a + b)[..|a + b| - 1] == a + b[..|b| - 1];
    }
  }

  /** Where more are shown than there is room for, the first one too many is missed. */
  lemma {:induction false} TooManyMiss(fates: seq<Fate>, room: nat)
    requires ShownAmong(fates) > room
    ensures Misses(fates, room)
    decreases |fates|
  {
    var n := |fates| - 1;
    if ShownAmong(fates[..n]) > room {
      TooManyMiss(fates[..n], room);
      var k :| 0 <= k < n && (fates[..n][k].TooDeep? || ShownAmong(fates[..n][..k]) >= room);
      assert fates[..n][..k] == fates[..k];
    }
  }

  lemma MissesInBoth(a: seq<Fate>, b: seq<Fate>, room: nat)
    requires ShownAmong(a) <= room
    ensures Misses(a + b, room) <==> Misses(a, room) || Misses(b, room - ShownAmong(a))
  {
    hide ShownAmong;
    var all := a + b;
    forall k | 0 <= k < |a|
      ensures all[k] == a[k] && all[..k] == a[..k]
    {
    }
    forall k | 0 <= k < |b|
      ensures all[|a| + k] == b[k] && ShownAmong(all[..|a| + k]) == ShownAmong(a) + ShownAmong(b[..k])
    {
      assert all[..|a| + k] == a + b[..k];
      ShownAmongBoth(a, b[..k]);
    }
    if Misses(all, room) {
      var k :| 0 <= k < |all| && (all[k].TooDeep? || ShownAmong(all[..k]) >= room);
      if k >= |a| {
        assert all[|a| + (k - |a|)] == b[k - |a|];
      }
    }
    if Misses(b, room - ShownAmong(a)) {
      var k :| 0 <= k < |b| && (b[k].TooDeep? || ShownAmong(b[..k]) >= room - ShownAmong(a));
      assert all[|a| + k] == b[k];
    }
  }

  lemma MissedFirst(a: seq<Fate>, b: seq<Fate>, room: nat)
    requires Misses(a, room)
    ensures Misses(a + b, room)
  {
    hide ShownAmong;
    var k :| 0 <= k < |a| && (a[k].TooDeep? || ShownAmong(a[..k]) >= room);
    assert (a + b)[k] == a[k] && (a + b)[..k] == a[..k];
  }

  lemma TellsThen(s: Rendering, t: Rendering, u: Rendering, a: seq<Fate>, b: seq<Fate>)
    requires TellsMissing(s, t, a) && TellsMissing(t, u, b)
    ensures TellsMissing(s, u, a + b)
  {
    hide ShownAmong, Misses;
    ShownAmongBoth(a, b);
    var room := MAX_NODES - |s.records|;
    if ShownAmong(a) <= room {
      MissesInBoth(a, b, room);
    } else {
      TooManyMiss(a, room);
      MissedFirst(a, b, room);
    }
  }

  lemma TellsOfOne(s: Rendering, t: Rendering, fate: Fate)
    requires |s.records| < MAX_NODES && !fate.TooDeep?
    requires |t.records| == |s.records| + (if fate.Shown? then 1 else 0) && t.truncated == s.truncated
    ensures TellsMissing(s, t, [fate])
  {
    assert [fate][..0] == [];
    assert ShownAmong([fate]) == ShownAmong([]) + if fate.Shown? then 1 else 0;
    assert forall k :: 0 <= k < 1 ==> [fate][..k] == [];
  }

  lemma TellsOfRefusal(s: Rendering, depth: nat, fates: seq<Fate>)
    requires |s.records| <= MAX_NODES && fates != []
    requires |s.records| == MAX_NODES || fates == [TooDeep]
    ensures TellsMissing(s, Refused(s, depth), fates)
  {
    assert fates[..0] == [];
    if |s.records| == MAX_NODES {
      assert ShownAmong(fates[..0]) >= 0;
    } else {
      assert ShownAmong([TooDeep]) == ShownAmong([]);
    }
  }

  lemma {:induction false} WalkTellsMissing(s: Rendering, node: Node, depth: nat, path: seq<nat>)
    requires |s.records| <= MAX_NODES
    ensures TellsMissing(s, Walked(s, node, depth, path, false), Fates(node, depth))
    decreases node, |node.slots| + 1
  {
    hide TellsMissing, Elided, Closed, FatesOfSlots, WalkedSlots, Refused, RecordOf, LineOf;
    if |s.records| >= MAX_NODES || depth > MAX_DEPTH {
      TellsOfRefusal(s, depth, Fates(node, depth));
    } else if Elided(node) {
      TellsOfOne(s, s, PassedOver);
      SlotsTellMissing(s, node, 0, depth, path);
      TellsThen(s, s, WalkedSlots(s, node, 0, depth, path, false), [PassedOver], FatesOfSlots(node, 0, depth));
    } else {
      var t := Appended(s, node, depth, path);
      TellsOfOne(s, t, Shown);
      if Closed(node) {
        assert Fates(node, depth) == [Shown];
      } else {
        SlotsTellMissing(t, node, 0, depth + 1, path);
        TellsThen(s, t, WalkedSlots(t, node, 0, depth + 1, path, false), [Shown], FatesOfSlots(node, 0, depth + 1));
      }
    }
  }

  lemma {:induction false} SlotsTellMissing(s: Rendering, node: Node, i: nat, depth: nat, path: seq<nat>)
    requires i <= |node.slots| && |s.records| <= MAX_NODES
    ensures TellsMissing(s, WalkedSlots(s, node, i, depth, path, false), FatesOfSlots(node, i, depth))
    decreases node, |node.slots| - i
  {
    hide TellsMissing, Fates, Walked;
    if i == |node.slots| {
      RendersNothing(s);
    } else {
      var t := WalkedSlot(s, node, i, depth, path, false);
      var fates: seq<Fate> := [];
      match node.slots[i] {
        case None => RendersNothing(s);
        case Some(child) =>
          fates := Fates(child, depth);
          WalkTellsMissing(s, child, depth, path + [i]);
      }
      TellsWithin(s, t, fates);
      SlotsTellMissing(t, node, i + 1, depth, path);
      TellsThen(s, t, WalkedSlots(t, node, i + 1, depth, path, false), fates, FatesOfSlots(node, i + 1, depth));
    }
  }

  lemma TellsWithin(s: Rendering, t: Rendering, fates: seq<Fate>)
    requires TellsMissing(s, t, fates)
    ensures |t.records| <= MAX_NODES
  {
  }

  // ---- With or without compaction: the order of the traversal ----

  ghost predicate Describes(record: Record, visit: Visit) {
    record == RecordOf(visit.node, record.index, visit.path)
  }

  /** The records describe some of the visits, in the same order and each at most once. */
  ghost predicate DescribeInOrder(records: seq<Record>, visits: seq<Visit>) {
    records == []
    || (visits != []
        && var n, m := |records| - 1, |visits| - 1;
           || (Describes(records[n], visits[m]) && DescribeInOrder(records[..n], visits[..m]))
           || DescribeInOrder(records, visits[..m]))
  }

  lemma {:induction false} DescribeMore(records: seq<Record>, visits: seq<Visit>, more: seq<Visit>)
    requires DescribeInOrder(records, visits)
    ensures DescribeInOrder(records, visits + more)
    decreases |more|
  {
    if more == [] {
      assert visits + more == visits;
    } else {
      DescribeMore(records, visits, more[..|more| - 1]);
      assert (visits + more)[..|visits + more| - 1] == visits + more[..|more| - 1];
    }
  }

  lemma DescribeOne(records: seq<Record>, visits: seq<Visit>, record: Record, visit: Visit)
    requires DescribeInOrder(records, visits) && Describes(record, visit)
    ensures DescribeInOrder(records + [record], visits + [visit])
  {
    hide Describes;
    assert (records + [record])[..|records|] == records;
    assert (visits + [visit])[..|visits|] == visits;
  }

  lemma {:induction false} DescribeFewer(records: seq<Record>, visits: seq<Visit>, indexes: set<nat>)
    requires DescribeInOrder(records, visits)
    ensures DescribeInOrder(Without(records, indexes), visits)
    decreases |visits|
  {
    hide Describes;
    if records != [] {
      var n, m := |records| - 1, |visits| - 1;
      if Describes(records[n], visits[m]) && DescribeInOrder(records[..n], visits[..m]) {
        DescribeFewer(records[..n], visits[..m], indexes);
        var fewer := Without(records[..n], indexes);
        DescribeOne(fewer, visits[..m], records[n], visits[m]);
        DescribeMore(fewer, visits[..m], [visits[m]]);
        assert visits[..m] + [visits[m]] == visits;
      } else {
        DescribeFewer(records, visits[..m], indexes);
        DescribeMore(Without(records, indexes), visits[..m], [visits[m]]);
        assert visits[..m] + [visits[m]] == visits;
      }
    }
  }

  lemma CompactionDescribes(s: Rendering, start: nat, depth: nat, visits: seq<Visit>)
    requires DescribeInOrder(s.records, visits)
    ensures DescribeInOrder(Compacted(s, start, depth).records, visits)
  {
    hide DescribeInOrder, Without, TabLines, Omitted, Kept, IndexesNamed, OmittedLine, ByIndex;
    if Compacted(s, start, depth) != s {
      DescribeFewer(s.records, visits, IndexesNamed(s.lines, depth, OmittedOf(s, start, depth)));
    }
  }

  lemma {:induction false} WalkDescribes(
    s: Rendering, before: seq<Visit>, node: Node, depth: nat, path: seq<nat>, compact: bool)
    requires DescribeInOrder(s.records, before)
    ensures DescribeInOrder(Walked(s, node, depth, path, compact).records,
                            before + Preorder(node, depth, path, MAX_DEPTH))
    decreases node, |node.slots| + 1
  {
    hide DescribeInOrder, Elided, Closed, PreorderSlots, WalkedSlots, Compacted, LineOf;
    var visits := Preorder(node, depth, path, MAX_DEPTH);
    if |s.records| >= MAX_NODES || depth > MAX_DEPTH {
      DescribeMore(s.records, before, visits);
    } else if Elided(node) {
      SlotsDescribe(s, before, node, 0, depth, path, compact);
    } else {
      var t := Appended(s, node, depth, path);
      var visit := Visit(node, depth, path);
      DescribeOne(s.records, before, t.records[|s.records|], visit);
      if Closed(node) {
        assert visits == [visit];
      } else {
        SlotsDescribe(t, before + [visit], node, 0, depth + 1, path, compact);
        assert (before + [visit]) + PreorderSlots(node, 0, depth + 1, path, MAX_DEPTH) == before + visits;
        CompactionDescribes(WalkedSlots(t, node, 0, depth + 1, path, compact), |t.lines|, depth + 1, before + visits);
      }
    }
  }

  lemma {:induction false} SlotsDescribe(
    s: Rendering, before: seq<Visit>, node: Node, i: nat, depth: nat, path: seq<nat>, compact: bool)
    requires i <= |node.slots| && DescribeInOrder(s.records, before)
    ensures DescribeInOrder(WalkedSlots(s, node, i, depth, path, compact).records,
                            before + PreorderSlots(node, i, depth, path, MAX_DEPTH))
    decreases node, |node.slots| - i
  {
    hide DescribeInOrder, Preorder, Walked;
    if i == |node.slots| {
      assert before + [] == before;
    } else {
      var t := WalkedSlot(s, node, i, depth, path, compact);
      var visits: seq<Visit> := [];
      match node.slots[i] {
        case None => assert before + visits == before;
        case Some(child) =>
          visits := Preorder(child, depth, path + [i], MAX_DEPTH);
          WalkDescribes(s, before, child, depth, path + [i], compact);
      }
      SlotsDescribe(t, before + visits, node, i + 1, depth, path, compact);
      var rest := PreorderSlots(node, i + 1, depth, path, MAX_DEPTH);
      assert (before + visits) + rest == before + (visits + rest);
    }
  }

  // ---- The first compaction of a rendering ----

  /** A line that reads as a tab's at some depth was rendered at that depth. */
  lemma TabLineIsAtItsDepth(node: Node, at: nat, index: nat, depth: nat)
    requires IsTabLine(LineOf(node, at, index), depth)
    ensures at == depth
  {
    hide Suffix, Heading, TakeNumber, Decimal, BeginsWithRole;
    var line := LineOf(node, at, index);
    var rest := HeadingBegins(node, index);
    assert line[at] == Decimal(index)[0] && IsDigit(Decimal(index)[0]);
    assert forall k :: 0 <= k < depth ==> line[k] == Tabs(depth)[k];
  }

  /**
   What the walk has appended until a compaction first omits something meets
   what compaction needs to conserve: its records are numbered by position, and
   every tab line names the record at its own place.
  */
  lemma RenderedTabsNameRecords(s: Rendering, visits: seq<Visit>, start: nat, depth: nat)
    requires s.records == RecordsOf(visits, 0) && s.lines == LinesOf(visits, 0)
    ensures TabsNameRecords(s, start, depth)
    ensures forall k :: 0 <= k < |s.records| ==> s.records[k].index == k
    ensures forall p :: p in TabLines(s.lines, start, depth) ==> ElementIndex(s.lines[p], depth) == Some(p)
  {
    hide IsTabLine, ElementIndex, LineOf;
    forall p | p in TabLines(s.lines, start, depth)
      ensures ElementIndex(s.lines[p], depth) == Some(p) && HasIndex(s.records, p)
    {
      TabLineIsAtItsDepth(visits[p].node, visits[p].depth, p, depth);
      LineNamesItsRecord(visits[p].node, depth, p);
      assert s.records[p].index == p;
    }
  }

  // ---- The renderer ----

  /**
   Without compaction the records are the first 1200 elements of the traversal
   cut at depth 64, each numbered by its position, and each line belongs to the
   record at its place. If `truncated` is left false the records are the whole
   traversal, however deep one lets it go. It is set exactly when the walk comes
   to an element that is too deep or comes after 1200 that are shown, be it one
   that would be passed over; below the budget both flags tell whether something
   was too deep. With compaction the records still describe elements of the
   traversal in order. What is returned is then left by the acts of the walk: if
   `truncated` is false every element of the traversal was shown at its turn, so
   only what compactions omitted is missing, and otherwise something was too deep
   or 1200 elements were shown.
  */
  method RenderAccessibilityTree(root: Node, rootPath: seq<nat>, compact: bool)
    returns (records: seq<Record>, lines: seq<string>, truncated: bool, maxDepthReached: bool)
    ensures !compact ==>
              var visits := Fitting(Preorder(root, 0, rootPath, 64), 0);
              records == RecordsOf(visits, 0) && lines == LinesOf(visits, 0)
    ensures !compact ==>
              var n := |Preorder(root, 0, rootPath, 64)|;
              |records| == if n <= 1200 then n else 1200
    ensures !compact && !truncated ==>
              forall deepest :: deepest >= 64 ==>
                                  records == RecordsOf(Preorder(root, 0, rootPath, deepest), 0)
    ensures !compact ==> (truncated <==> Misses(Fates(root, 0), 1200))
    ensures !compact && truncated ==> |records| == 1200 || Deep(root, 0)
    ensures !compact && |records| < 1200 ==> truncated == maxDepthReached == Deep(root, 0)
    ensures DescribeInOrder(records, Preorder(root, 0, rootPath, 64))
    ensures compact ==>
              var acts := Acts(NOTHING, root, 0, rootPath);
              && Rendering(records, lines, truncated, maxDepthReached) == Performed(NOTHING, acts)
              && (truncated <==> TurnsAway(acts)) && (maxDepthReached <==> TurnsAwayDeep(acts))
              && (!truncated ==> ShownBy(acts) == Preorder(root, 0, rootPath, 64) && !Deep(root, 0))
              && (maxDepthReached ==> Deep(root, 0))
              && (truncated && !maxDepthReached ==> |ShownBy(acts)| >= 1200)
  {
    assert DescribeInOrder([], []);
    hide Preorder, Deep, Walked, DescribeInOrder, RecordOf, LineOf, Fitting, Misses, Fates, Acts, Performed, ShownBy,
      TurnsAway, TurnsAwayDeep;
    var renderer := new Renderer();
    ghost var s := renderer.State();
    renderer.Walk(root, 0, rootPath, compact);
    records, lines := renderer.records, renderer.lines;
    truncated, maxDepthReached := renderer.truncated, renderer.maxDepthReached;
    WalkRenders(s, root, 0, rootPath);
    WalkTellsMissing(s, root, 0, rootPath);
    RenderedFromNothing(s, Walked(s, root, 0, rootPath, false), root, rootPath);
    WalkDescribes(s, [], root, 0, rootPath, compact);
    assert [] + Preorder(root, 0, rootPath, MAX_DEPTH) == Preorder(root, 0, rootPath, MAX_DEPTH);
    RenderedByActs(root, rootPath);
  }

  lemma RenderedByActs(root: Node, rootPath: seq<nat>)
    ensures var acts, t := Acts(NOTHING, root, 0, rootPath), Walked(NOTHING, root, 0, rootPath, true);
            && t == Performed(NOTHING, acts)
            && (t.truncated <==> TurnsAway(acts)) && (t.maxDepthReached <==> TurnsAwayDeep(acts))
            && (!t.truncated ==> ShownBy(acts) == Preorder(root, 0, rootPath, MAX_DEPTH) && !Deep(root, 0))
            && (t.maxDepthReached ==> Deep(root, 0))
            && (t.truncated && !t.maxDepthReached ==> |ShownBy(acts)| >= MAX_NODES)
  {
    hide Preorder, Deep, Walked, Acts, Performed, ShownBy, TurnsAway, TurnsAwayDeep;
    WalkPerforms(NOTHING, root, 0, rootPath);
    WalkTells(NOTHING, root, 0, rootPath);
    FlagsOfActs(NOTHING, Acts(NOTHING, root, 0, rootPath));
  }

  lemma RenderedFromNothing(s: Rendering, t: Rendering, root: Node, rootPath: seq<nat>)
    requires s == NOTHING
    requires Renders(s, t, Preorder(root, 0, rootPath, MAX_DEPTH), Deep(root, 0))
    ensures var visits := Fitting(Preorder(root, 0, rootPath, MAX_DEPTH), 0);
            t.records == RecordsOf(visits, 0) && t.lines == LinesOf(visits, 0)
    ensures var n := |Preorder(root, 0, rootPath, MAX_DEPTH)|;
            |t.records| == if n <= MAX_NODES then n else MAX_NODES
    ensures !t.truncated ==>
              forall deepest :: deepest >= MAX_DEPTH ==>
                                  t.records == RecordsOf(Preorder(root, 0, rootPath, deepest), 0)
    ensures t.truncated ==> |t.records| == MAX_NODES || Deep(root, 0)
    ensures |t.records| < MAX_NODES ==> t.truncated == t.maxDepthReached == Deep(root, 0)
  {
    hide Preorder, Deep, RecordOf, LineOf;
    if !t.truncated {
      forall deepest | deepest >= MAX_DEPTH
        ensures t.records == RecordsOf(Preorder(root, 0, rootPath, deepest), 0)
      {
        NothingCutOff(root, 0, rootPath, deepest);
      }
    }
  }
}
