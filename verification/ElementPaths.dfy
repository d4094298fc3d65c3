/** Finding a rendered element again: by its path from the application, checked by its signature. */
module ElementPaths {
  import opened AccessibleNodes
  import opened RenderedTree
  import opened TreeRenderer
  import opened Wrappers

  // ---- Following a path ----

  /** The child in a slot, if the slot exists and is not empty. */
  function ChildAt(node: Node, index: nat): Option<Node> {
    if index < |node.slots| then node.slots[index] else None
  }

  function ElementAt(node: Node, path: seq<nat>): Option<Node> {
    if path == [] then Some(node)
    else
      match ChildAt(node, path[0])
      case None => None
      case Some(child) => ElementAt(child, path[1..])
  }

  method FindByPath(app: Node, path: seq<nat>) returns (found: Option<Node>)
    ensures found == ElementAt(app, path)
  {
    var node := app;
    for i := 0 to |path|
      invariant ElementAt(app, path) == ElementAt(node, path[i..])
    {
      assert path[i..][1..] == path[i + 1..];
      match ChildAt(node, path[i])
      case None => return None;
      case Some(child) => node := child;
    }
    return Some(node);
  }

  predicate SameElementSignature(node: Node, saved: Record) {
    && node.role == saved.controlType
    && node.name == saved.name
    && node.automationId == saved.automationId
    && node.actions == saved.actions
  }

  function ElementFound(app: Node, saved: Record): Option<Node> {
    match ElementAt(app, saved.runtimeId)
    case None => None
    case Some(node) => if SameElementSignature(node, saved) then Some(node) else None
  }

  /** On any tree, the element at the saved path when it has the saved signature, and otherwise nothing. */
  method FindElement(app: Node, saved: Option<Record>) returns (found: Option<Node>)
    ensures found == if saved.None? then None else ElementFound(app, saved.value)
    ensures found.Some? ==> saved.Some? && SameElementSignature(found.value, saved.value)
  {
    if saved.None? {
      return None;
    }
    found := FindByPath(app, saved.value.runtimeId);
    if found.Some? && SameElementSignature(found.value, saved.value) {
      return found;
    }
    return None;
  }

  /**
   The element found is the one at the saved path whose record, made now with
   the saved index and path, differs from the saved one in value and selection
   at most; these two may have changed.
  */
  lemma FoundExactly(app: Node, saved: Record, node: Node)
    ensures ElementFound(app, saved) == Some(node) <==>
            && ElementAt(app, saved.runtimeId) == Some(node)
            && RecordOf(node, saved.index, saved.runtimeId)
               == saved.(value := node.value, isSelected := node.isSelected)
  {
    hide ElementAt;
  }

  lemma {:induction false} ElementBelow(node: Node, path: seq<nat>, more: seq<nat>)
    requires ElementAt(node, path).Some?
    ensures ElementAt(node, path + more) == ElementAt(ElementAt(node, path).value, more)
    decreases |path|
  {
    if path == [] {
      assert path + more == more;
    } else {
      ElementBelow(ChildAt(node, path[0]).value, path[1..], more);
      assert (path + more)[1..] == path[1..] + more;
    }
  }

  lemma ElementInSlot(app: Node, path: seq<nat>, node: Node, i: nat)
    requires ElementAt(app, path) == Some(node) && i < |node.slots| && node.slots[i].Some?
    ensures ElementAt(app, path + [i]) == node.slots[i]
  {
    ElementBelow(app, path, [i]);
    assert ElementAt(node.slots[i].value, []) == node.slots[i];
  }

  // ---- Paths of the traversal ----

  ghost predicate AtTheirPaths(app: Node, visits: seq<Visit>) {
    forall k :: 0 <= k < |visits| ==> ElementAt(app, visits[k].path) == Some(visits[k].node)
  }

  lemma {:induction false} VisitsAreAtTheirPaths(app: Node, node: Node, depth: nat, path: seq<nat>, deepest: nat)
    requires ElementAt(app, path) == Some(node)
    ensures AtTheirPaths(app, Preorder(node, depth, path, deepest))
    decreases node, |node.slots| + 1
  {
    hide ElementAt, Elided, Closed, PreorderSlots;
    if depth <= deepest {
      SlotVisitsAreAtTheirPaths(app, node, 0, depth, path, deepest);
      SlotVisitsAreAtTheirPaths(app, node, 0, depth + 1, path, deepest);
    }
  }

  lemma {:induction false} SlotVisitsAreAtTheirPaths(
    app: Node, node: Node, i: nat, depth: nat, path: seq<nat>, deepest: nat)
    requires i <= |node.slots| && ElementAt(app, path) == Some(node)
    ensures AtTheirPaths(app, PreorderSlots(node, i, depth, path, deepest))
    decreases node, |node.slots| - i
  {
    hide ElementAt, Preorder;
    if i < |node.slots| {
      SlotVisitsAreAtTheirPaths(app, node, i + 1, depth, path, deepest);
      match node.slots[i]
      case None =>
      case Some(child) =>
        ElementInSlot(app, path, node, i);
        VisitsAreAtTheirPaths(app, child, depth, path + [i], deepest);
    }
  }

  /** All paths lead into the element they start from, by slot `i` or a later one. */
  ghost predicate PathsUnder(visits: seq<Visit>, path: seq<nat>, i: nat) {
    forall k :: 0 <= k < |visits| ==>
                  |visits[k].path| > |path| && visits[k].path[..|path|] == path && visits[k].path[|path|] >= i
  }

  ghost predicate DistinctPaths(visits: seq<Visit>) {
    forall j, k :: 0 <= j < k < |visits| ==> visits[j].path != visits[k].path
  }

  ghost predicate PathsExtend(visits: seq<Visit>, path: seq<nat>) {
    forall k :: 0 <= k < |visits| ==> |visits[k].path| >= |path| && visits[k].path[..|path|] == path
  }

  /** No two elements of the traversal have the same path. */
  lemma {:induction false} VisitPathsDiffer(node: Node, depth: nat, path: seq<nat>, deepest: nat)
    ensures DistinctPaths(Preorder(node, depth, path, deepest))
    ensures PathsExtend(Preorder(node, depth, path, deepest), path)
    decreases node, |node.slots| + 1
  {
    hide Elided, Closed, PreorderSlots;
    if depth <= deepest {
      SlotVisitPathsDiffer(node, 0, depth, path, deepest);
      SlotVisitPathsDiffer(node, 0, depth + 1, path, deepest);
    }
  }

  lemma {:induction false} SlotVisitPathsDiffer(node: Node, i: nat, depth: nat, path: seq<nat>, deepest: nat)
    requires i <= |node.slots|
    ensures DistinctPaths(PreorderSlots(node, i, depth, path, deepest))
    ensures PathsUnder(PreorderSlots(node, i, depth, path, deepest), path, i)
    decreases node, |node.slots| - i
  {
    assert DistinctPaths([]) && PathsUnder([], path, i) && PathsExtend([], path + [i]);
    hide Preorder, PathsUnder, PathsExtend, DistinctPaths;
    if i == |node.slots| {
    } else {
      SlotVisitPathsDiffer(node, i + 1, depth, path, deepest);
      var rest := PreorderSlots(node, i + 1, depth, path, deepest);
      match node.slots[i]
      case None =>
        PathsOfTwo([], rest, path, i);
      case Some(child) =>
        VisitPathsDiffer(child, depth, path + [i], deepest);
        PathsOfTwo(Preorder(child, depth, path + [i], deepest), rest, path, i);
    }
  }

  lemma PathsOfTwo(first: seq<Visit>, rest: seq<Visit>, path: seq<nat>, i: nat)
    requires DistinctPaths(first) && PathsExtend(first, path + [i])
    requires DistinctPaths(rest) && PathsUnder(rest, path, i + 1)
    ensures DistinctPaths(first + rest) && PathsUnder(first + rest, path, i)
  {
    forall k | 0 <= k < |first|
      ensures |first[k].path| > |path| && first[k].path[..|path|] == path && first[k].path[|path|] == i
    {
      var p := first[k].path;
      assert p[..|path| + 1] == path + [i];
      assert p[|path|] == p[..|path| + 1][|path|];
      assert p[..|path|] == p[..|path| + 1][..|path|];
    }
  }

  // ---- Records are found again ----

  ghost predicate FoundAgain(app: Node, record: Record) {
    && ElementFound(app, record).Some?
    && record == RecordOf(ElementFound(app, record).value, record.index, record.runtimeId)
  }

  /** On the unchanged tree every element of the traversal is found, itself, by the record made of it. */
  lemma {:induction false} VisitIsFoundAgain(app: Node, windowIndex: nat, window: Node, k: nat, index: nat)
    requires ChildAt(app, windowIndex) == Some(window)
    requires k < |Preorder(window, 0, [windowIndex], MAX_DEPTH)|
    ensures var visit := Preorder(window, 0, [windowIndex], MAX_DEPTH)[k];
            ElementFound(app, RecordOf(visit.node, index, visit.path)) == Some(visit.node)
  {
    assert ElementAt(window, []) == Some(window) && ElementAt(app, [windowIndex]) == Some(window);
    hide Preorder;
    VisitsAreAtTheirPaths(app, window, 0, [windowIndex], MAX_DEPTH);
  }

  /**
   On the unchanged tree every record of a rendering, compacted or not and past
   whatever was elided on the way, leads back to an element of which it is the
   record, and no two records lead to the same place.
  */
  lemma {:induction false} RecordsAreFoundAgain(app: Node, windowIndex: nat, window: Node, records: seq<Record>)
    requires ChildAt(app, windowIndex) == Some(window)
    requires DescribeInOrder(records, Preorder(window, 0, [windowIndex], MAX_DEPTH))
    ensures forall k :: 0 <= k < |records| ==> FoundAgain(app, records[k])
    ensures forall j, k :: 0 <= j < k < |records| ==> records[j].runtimeId != records[k].runtimeId
  {
    assert ElementAt(window, []) == Some(window) && ElementAt(app, [windowIndex]) == Some(window);
    hide Preorder, FoundAgain, DescribeInOrder, ElementAt;
    VisitsAreAtTheirPaths(app, window, 0, [windowIndex], MAX_DEPTH);
    VisitPathsDiffer(window, 0, [windowIndex], MAX_DEPTH);
    DescribedAreFound(app, records, Preorder(window, 0, [windowIndex], MAX_DEPTH));
  }

  lemma {:induction false} DescribedAreFound(app: Node, records: seq<Record>, visits: seq<Visit>)
    requires DescribeInOrder(records, visits) && AtTheirPaths(app, visits) && DistinctPaths(visits)
    ensures forall k :: 0 <= k < |records| ==> FoundAgain(app, records[k])
    ensures forall k :: 0 <= k < |records| ==> HasPath(visits, records[k].runtimeId)
    ensures forall j, k :: 0 <= j < k < |records| ==> records[j].runtimeId != records[k].runtimeId
    decreases |visits|
  {
    hide FoundAgain, ElementAt, HasPath;
    if records != [] {
      var n, m := |records| - 1, |visits| - 1;
      if Describes(records[n], visits[m]) && DescribeInOrder(records[..n], visits[..m]) {
        DescribedAreFound(app, records[..n], visits[..m]);
        PathsOfPrefix(visits, m);
        DescribedIsFound(app, records[n], visits, m);
        forall k | 0 <= k < |records|
          ensures FoundAgain(app, records[k]) && HasPath(visits, records[k].runtimeId)
          ensures k < n ==> records[k].runtimeId != records[n].runtimeId
        {
          assert k < n ==> records[..n][k] == records[k];
        }
        assert forall j, k :: 0 <= j < k < n ==> records[..n][j].runtimeId != records[..n][k].runtimeId;
      } else {
        DescribedAreFound(app, records, visits[..m]);
        PathsOfPrefix(visits, m);
      }
    }
  }

  ghost predicate HasPath(visits: seq<Visit>, path: seq<nat>) {
    exists k :: 0 <= k < |visits| && visits[k].path == path
  }

  lemma PathsOfPrefix(visits: seq<Visit>, m: nat)
    requires m == |visits| - 1 && DistinctPaths(visits)
    ensures forall path :: HasPath(visits[..m], path) ==> HasPath(visits, path) && path != visits[m].path
  {
  }

  lemma DescribedIsFound(app: Node, record: Record, visits: seq<Visit>, m: nat)
    requires m < |visits| && Describes(record, visits[m]) && AtTheirPaths(app, visits)
    ensures FoundAgain(app, record) && HasPath(visits, record.runtimeId) && record.runtimeId == visits[m].path
  {
  }
}
