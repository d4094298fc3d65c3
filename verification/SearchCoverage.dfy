/** What a search covers of what is near: on any graph, and on one that is no tree. */
module SearchCoverage {
  import opened Sequences
  import opened TreeSearch
  import opened Wrappers

  // ---- What a search covers, on any graph ----

  /**
   The elements that the traversal first meets at the bound, so that it does not
   look at their children.
  */
  function MetAtBound(children: Children, node: Id, limit: nat, order: seq<Id>): set<Id>
    decreases limit, 1, 0
  {
    if node in order then {}
    else if limit == 0 then {node}
    else MetAtBoundAll(children, children(node), limit - 1, order + [node])
  }

  function MetAtBoundAll(children: Children, nodes: seq<Id>, limit: nat, order: seq<Id>): set<Id>
    decreases limit, 2, |nodes|
  {
    if nodes == [] then {}
    else
      MetAtBound(children, nodes[0], limit, order)
      + MetAtBoundAll(children, nodes[1..], limit, Order(children, nodes[0], limit, order))
  }

  /** Of each element met anew within the bound all children are met. */
  ghost predicate MeetsChildren(children: Children, order: seq<Id>, met: seq<Id>, bound: set<Id>) {
    forall u: Id, c: Id :: u in met && u !in order && u !in bound && c in children(u) ==> c in met
  }

  lemma {:induction false} OrderMeetsChildren(children: Children, node: Id, limit: nat, order: seq<Id>)
    ensures MeetsChildren(children, order, Order(children, node, limit, order),
                          MetAtBound(children, node, limit, order))
    ensures node in Order(children, node, limit, order)
    decreases limit, 1, 0
  {
    hide OrderAll, MetAtBoundAll;
    if node !in order && limit > 0 {
      OrderAllMeetsChildren(children, children(node), limit - 1, order + [node]);
      var met := OrderAll(children, children(node), limit - 1, order + [node]);
      assert met[|order|] == node;
    }
  }

  lemma {:induction false} OrderAllMeetsChildren(children: Children, nodes: seq<Id>, limit: nat, order: seq<Id>)
    ensures MeetsChildren(children, order, OrderAll(children, nodes, limit, order),
                          MetAtBoundAll(children, nodes, limit, order))
    ensures forall c: Id :: c in nodes ==> c in OrderAll(children, nodes, limit, order)
    decreases limit, 2, |nodes|
  {
    hide Order, MetAtBound;
    if nodes != [] {
      OrderMeetsChildren(children, nodes[0], limit, order);
      var first := Order(children, nodes[0], limit, order);
      OrderAllMeetsChildren(children, nodes[1..], limit, first);
      var met := OrderAll(children, nodes[1..], limit, first);
      assert forall c: Id :: c in first ==> c in met;
      forall u: Id, c: Id | u in met && u !in order && c in children(u)
        && u !in MetAtBound(children, nodes[0], limit, order) && u !in MetAtBoundAll(children, nodes[1..], limit, first)
        ensures c in met
      {
        assert u in first ==> c in first;
      }
    }
  }

  lemma {:induction false} InOneOfAll(children: Children, nodes: seq<Id>, limit: nat, v: Id)
    ensures v in PreorderAll(children, nodes, limit) <==>
            exists c: Id :: c in nodes && v in Preorder(children, c, limit)
    decreases |nodes|
  {
    hide Preorder;
    if nodes != [] {
      InOneOfAll(children, nodes[1..], limit, v);
      if v in PreorderAll(children, nodes, limit) && v !in Preorder(children, nodes[0], limit) {
        var c: Id :| c in nodes[1..] && v in Preorder(children, c, limit);
        assert c in nodes;
      }
      if c: Id :| c in nodes && v in Preorder(children, c, limit) {
        assert c == nodes[0] || c in nodes[1..];
      }
    }
  }

  /** What lies within a bound of an element is the element or lies within less of a child. */
  lemma PreorderStep(children: Children, node: Id, limit: nat, v: Id)
    ensures limit == 0 ==> (v in Preorder(children, node, limit) <==> v == node)
    ensures limit > 0 ==>
              (v in Preorder(children, node, limit) <==>
               v == node || exists c: Id :: c in children(node) && v in Preorder(children, c, limit - 1))
  {
    hide PreorderAll;
    if limit > 0 {
      InOneOfAll(children, children(node), limit - 1, v);
    }
  }

  /** One step further out is the same as one step further in. */
  lemma {:induction false} ChildOfNear(children: Children, node: Id, limit: nat, u: Id, c: Id)
    requires u in Preorder(children, node, limit) && c in children(u)
    ensures c in Preorder(children, node, limit + 1)
    decreases limit
  {
    hide Preorder;
    PreorderStep(children, node, limit, u);
    PreorderStep(children, node, limit + 1, c);
    if u == node {
      PreorderStep(children, c, limit, c);
    } else {
      var d: Id :| d in children(node) && u in Preorder(children, d, limit - 1);
      ChildOfNear(children, d, limit - 1, u, c);
    }
  }

  lemma {:induction false} NearOrChildOfNear(children: Children, node: Id, limit: nat, v: Id)
    requires v in Preorder(children, node, limit + 1)
    ensures v in Preorder(children, node, limit)
            || exists u: Id :: u in Preorder(children, node, limit) && v in children(u)
    decreases limit
  {
    hide Preorder;
    PreorderStep(children, node, limit + 1, v);
    PreorderStep(children, node, limit, v);
    if v != node {
      var d: Id :| d in children(node) && v in Preorder(children, d, limit);
      PreorderStep(children, node, limit, node);
      PreorderStep(children, d, limit, v);
      if limit == 0 {
        assert v == d;
      } else {
        NearOrChildOfNear(children, d, limit - 1, v);
        if v !in Preorder(children, d, limit - 1) {
          var u: Id :| u in Preorder(children, d, limit - 1) && v in children(u);
          PreorderStep(children, node, limit, u);
        }
      }
    }
  }

  lemma {:induction false} NearIsWithin(children: Children, node: Id, limit: nat, more: nat, v: Id)
    requires v in Preorder(children, node, limit) && limit <= more
    ensures v in Preorder(children, node, more)
    decreases limit
  {
    hide Preorder;
    PreorderStep(children, node, limit, v);
    PreorderStep(children, node, more, v);
    if v != node {
      var c: Id :| c in children(node) && v in Preorder(children, c, limit - 1);
      NearIsWithin(children, c, limit - 1, more - 1, v);
    }
  }

  /** Only what is near enough is ever visited. */
  lemma {:induction false} VisitsAreNear(children: Children, node: Id, limit: nat, order: seq<Id>, v: Id)
    requires v in Order(children, node, limit, order) && v !in order
    ensures v in Preorder(children, node, limit)
    decreases limit, 1, 0
  {
    hide OrderAll, PreorderAll;
    if limit > 0 && v != node {
      AllVisitsAreNear(children, children(node), limit - 1, order + [node], v);
    }
  }

  lemma {:induction false} AllVisitsAreNear(children: Children, nodes: seq<Id>, limit: nat, order: seq<Id>, v: Id)
    requires v in OrderAll(children, nodes, limit, order) && v !in order
    ensures v in PreorderAll(children, nodes, limit)
    decreases limit, 2, |nodes|
  {
    hide Order, Preorder;
    var met := Order(children, nodes[0], limit, order);
    if v in met {
      VisitsAreNear(children, nodes[0], limit, order, v);
    } else {
      AllVisitsAreNear(children, nodes[1..], limit, met, v);
    }
  }

  /**
   Whether every child is visited of each element that the search first met at
   the bound although it also lies nearer.
  */
  ghost predicate NothingStranded(children: Children, root: Id, maxDepth: nat) {
    forall u: Id, c: Id ::
      && u in MetAtBound(children, root, maxDepth, [])
      && maxDepth > 0 && u in Preorder(children, root, maxDepth - 1)
      && c in children(u)
      ==> c in Order(children, root, maxDepth, [])
  }

  lemma {:induction false} NearIsVisited(children: Children, root: Id, maxDepth: nat, d: nat, v: Id)
    requires NothingStranded(children, root, maxDepth)
    requires d <= maxDepth && v in Preorder(children, root, d)
    ensures v in Order(children, root, maxDepth, [])
    decreases d
  {
    hide Order, Preorder, MetAtBound;
    OrderMeetsChildren(children, root, maxDepth, []);
    if d == 0 {
      PreorderStep(children, root, 0, v);
    } else {
      NearOrChildOfNear(children, root, d - 1, v);
      if v in Preorder(children, root, d - 1) {
        NearIsVisited(children, root, maxDepth, d - 1, v);
      } else {
        var u: Id :| u in Preorder(children, root, d - 1) && v in children(u);
        NearIsVisited(children, root, maxDepth, d - 1, u);
        NearIsWithin(children, root, d - 1, maxDepth - 1, u);
      }
    }
  }

  /** Whether everything within `maxDepth` of the root is visited. */
  ghost predicate CoversNear(children: Children, root: Id, maxDepth: nat) {
    forall v: Id :: v in Preorder(children, root, maxDepth) ==> v in Order(children, root, maxDepth, [])
  }

  /**
   On any graph the search misses nothing that is near enough exactly when no
   element is stranded: first met at the bound, lying nearer as well, and with a
   child that is visited nowhere else.
  */
  lemma CoversWhatIsNear(children: Children, root: Id, maxDepth: nat)
    ensures CoversNear(children, root, maxDepth) <==> NothingStranded(children, root, maxDepth)
  {
    hide Order, Preorder, MetAtBound;
    if NothingStranded(children, root, maxDepth) {
      forall v: Id | v in Preorder(children, root, maxDepth)
        ensures v in Order(children, root, maxDepth, [])
      {
        NearIsVisited(children, root, maxDepth, maxDepth, v);
      }
    }
    if CoversNear(children, root, maxDepth) {
      forall u: Id, c: Id |
        && u in MetAtBound(children, root, maxDepth, [])
        && maxDepth > 0 && u in Preorder(children, root, maxDepth - 1)
        && c in children(u)
        ensures c in Order(children, root, maxDepth, [])
      {
        ChildOfNear(children, root, maxDepth - 1, u, c);
      }
    }
  }

  /**
   So with enough budget, and nothing stranded, the search finds something
   exactly when some element within `maxDepth` matches.
  */
  lemma NearMatchesAreFound(
    found: Option<Id>, root: Id, children: Children, matches: Id -> bool, maxNodes: nat, maxDepth: nat)
    requires IsFirstMatch(found, Take(Order(children, root, maxDepth, []), maxNodes), matches)
    requires |Order(children, root, maxDepth, [])| <= maxNodes && NothingStranded(children, root, maxDepth)
    ensures found.Some? <==> exists v: Id :: v in Preorder(children, root, maxDepth) && matches(v)
  {
    hide Order, Preorder, NothingStranded;
    var visited := Order(children, root, maxDepth, []);
    assert Take(visited, maxNodes) == visited;
    CoversWhatIsNear(children, root, maxDepth);
    if found.Some? {
      assert found.value in visited;
      VisitsAreNear(children, root, maxDepth, [], found.value);
    }
    if v: Id :| v in Preorder(children, root, maxDepth) && matches(v) {
      assert v in visited;
      var k :| 0 <= k < |visited| && visited[k] == v;
      assert matches(visited[k]);
    }
  }

  // ---- Graphs that are not trees ----

  /**
   Where an element is met first at the greatest depth and again higher up, what
   is below it is missed, though it is near enough: 3 is a child of 2, which is
   a child of 0 and of 1, and 1 is the first child of 0.
  */
  lemma SharedElementHidesMatch()
    ensures var children: Children :=
              node => if node == 0 then [1, 2] else if node == 1 then [2] else if node == 2 then [3] else [];
            && 3 in Preorder(children, 0, 2)
            && Order(children, 0, 2, []) == [0, 1, 2]
  {
    var children: Children :=
      node => if node == 0 then [1, 2] else if node == 1 then [2] else if node == 2 then [3] else [];
    assert Order(children, 1, 1, [0]) == [0, 1, 2] by {
      assert Order(children, 2, 0, [0, 1]) == [0, 1, 2];
      assert OrderAll(children, [2], 0, [0, 1]) == [0, 1, 2];
    }
    assert OrderAll(children, [1, 2], 1, [0]) == [0, 1, 2] by {
      assert OrderAll(children, [2], 1, [0, 1, 2]) == [0, 1, 2];
    }
    assert 3 in Preorder(children, 2, 1) by {
      assert Preorder(children, 3, 0) == [3];
      assert PreorderAll(children, [3], 0)[0] == 3;
      assert Preorder(children, 2, 1)[1] == 3;
    }
    var rest := PreorderAll(children, [2], 1);
    assert rest == Preorder(children, 2, 1) + PreorderAll(children, [], 1);
    assert PreorderAll(children, [1, 2], 1) == Preorder(children, 1, 1) + rest;
  }
}
