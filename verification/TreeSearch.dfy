/**
 The search for the first descendant that satisfies a predicate: a stack, a set
 of elements seen, a budget of visits and a bound on depth. Elements are named
 by their identity; the graph of children may be cyclic, and infinite.
*/
module TreeSearch {
  import opened Sequences
  import opened Wrappers

  type Id = nat

  type Children = Id -> seq<Id>

  // ---- The recursive traversals ----

  /**
   The elements in the order a recursive traversal first meets them, `limit`
   levels below `node`, after those in `order`, which it does not enter again.
  */
  function Order(children: Children, node: Id, limit: nat, order: seq<Id>): (r: seq<Id>)
    ensures order <= r
    decreases limit, 1, 0
  {
    if node in order then order
    else if limit == 0 then order + [node]
    else OrderAll(children, children(node), limit - 1, order + [node])
  }

  function OrderAll(children: Children, nodes: seq<Id>, limit: nat, order: seq<Id>): (r: seq<Id>)
    ensures order <= r
    decreases limit, 2, |nodes|
  {
    if nodes == [] then order
    else OrderAll(children, nodes[1..], limit, Order(children, nodes[0], limit, order))
  }

  /** The plain preorder, which does not look at what it has met before. */
  function Preorder(children: Children, node: Id, limit: nat): seq<Id>
    decreases limit, 1, 0
  {
    [node] + if limit == 0 then [] else PreorderAll(children, children(node), limit - 1)
  }

  function PreorderAll(children: Children, nodes: seq<Id>, limit: nat): seq<Id>
    decreases limit, 2, |nodes|
  {
    if nodes == [] then []
    else Preorder(children, nodes[0], limit) + PreorderAll(children, nodes[1..], limit)
  }

  /** The first element of a list that matches. */
  ghost predicate IsFirstMatch(found: Option<Id>, nodes: seq<Id>, matches: Id -> bool) {
    match found
    case None => forall k :: 0 <= k < |nodes| ==> !matches(nodes[k])
    case Some(node) =>
      exists k :: 0 <= k < |nodes| && nodes[k] == node && matches(node)
                  && forall j :: 0 <= j < k ==> !matches(nodes[j])
  }

  // ---- The stack ----

  /** The traversal that a stack stands for, from its top down. */
  function OrderStack(children: Children, stack: seq<(Id, nat)>, maxDepth: nat, order: seq<Id>): (r: seq<Id>)
    requires forall k :: 0 <= k < |stack| ==> stack[k].1 <= maxDepth
    ensures order <= r
    decreases |stack|
  {
    if stack == [] then order
    else
      var top := stack[|stack| - 1];
      OrderStack(children, stack[..|stack| - 1], maxDepth, Order(children, top.0, maxDepth - top.1, order))
  }

  /** Children pushed from the last to the first. */
  function Pushed(stack: seq<(Id, nat)>, nodes: seq<Id>, depth: nat): (r: seq<(Id, nat)>)
    ensures |r| == |stack| + |nodes| && stack <= r
    ensures forall k :: |stack| <= k < |r| ==> r[k].1 == depth
  {
    if nodes == [] then stack else Pushed(stack, nodes[1..], depth) + [(nodes[0], depth)]
  }

  lemma {:induction false} PushedIsOrdered(
    children: Children, stack: seq<(Id, nat)>, nodes: seq<Id>, depth: nat, maxDepth: nat, order: seq<Id>)
    requires depth <= maxDepth && forall k :: 0 <= k < |stack| ==> stack[k].1 <= maxDepth
    ensures OrderStack(children, Pushed(stack, nodes, depth), maxDepth, order)
         == OrderStack(children, stack, maxDepth, OrderAll(children, nodes, maxDepth - depth, order))
    decreases |nodes|
  {
    hide Order;
    if nodes != [] {
      var pushed := Pushed(stack, nodes, depth);
      assert pushed[|pushed| - 1] == (nodes[0], depth);
      assert pushed[..|pushed| - 1] == Pushed(stack, nodes[1..], depth);
      PushedIsOrdered(children, stack, nodes[1..], depth, maxDepth,
                      Order(children, nodes[0], maxDepth - depth, order));
    }
  }

  lemma Popped(children: Children, rest: seq<(Id, nat)>, node: Id, depth: nat, maxDepth: nat, order: seq<Id>)
    requires depth <= maxDepth && forall k :: 0 <= k < |rest| ==> rest[k].1 <= maxDepth
    ensures OrderStack(children, rest + [(node, depth)], maxDepth, order)
         == OrderStack(children, rest, maxDepth, Order(children, node, maxDepth - depth, order))
  {
    hide Order;
    var stack := rest + [(node, depth)];
    assert stack[..|stack| - 1] == rest;
  }

  /** What one turn of the loop does to the stack, and that the traversal it stands for is the same. */
  lemma StackStep(children: Children, rest: seq<(Id, nat)>, node: Id, depth: nat, maxDepth: nat, order: seq<Id>)
    requires depth <= maxDepth && forall k :: 0 <= k < |rest| ==> rest[k].1 <= maxDepth
    ensures OrderStack(children, rest + [(node, depth)], maxDepth, order)
         == if node in order then OrderStack(children, rest, maxDepth, order)
            else if depth >= maxDepth then OrderStack(children, rest, maxDepth, order + [node])
            else OrderStack(children, Pushed(rest, children(node), depth + 1), maxDepth, order + [node])
  {
    hide OrderAll, OrderStack;
    Popped(children, rest, node, depth, maxDepth, order);
    if node !in order && depth < maxDepth {
      PushedIsOrdered(children, rest, children(node), depth + 1, maxDepth, order + [node]);
    }
  }

  /**
   On any graph the search returns the first match among the first `maxNodes`
   elements that the recursive traversal meets down to depth `maxDepth`, and
   nothing when there is none. It always ends: each turn spends budget or
   shortens the stack.
  */
  method FirstDescendant(
    root: Id, children: Children, matches: Id -> bool, maxNodes: nat, maxDepth: nat)
    returns (found: Option<Id>)
    ensures IsFirstMatch(found, Take(Order(children, root, maxDepth, []), maxNodes), matches)
  {
    hide Order, OrderStack;
    var visitedCount := 0;
    var stack: seq<(Id, nat)> := [(root, 0)];
    var seen: set<Id> := {};
    ghost var visited: seq<Id> := [];
    ghost var all := Order(children, root, maxDepth, []);
    StackOfOneOrNone(children, root, maxDepth);
    while stack != [] && visitedCount < maxNodes
      invariant forall k :: 0 <= k < |stack| ==> stack[k].1 <= maxDepth
      invariant visitedCount == |visited| <= maxNodes
      invariant forall node :: node in seen <==> node in visited
      invariant forall k :: 0 <= k < |visited| ==> !matches(visited[k])
      invariant OrderStack(children, stack, maxDepth, visited) == all
      decreases maxNodes - visitedCount, |stack|
    {
      var node, depth := stack[|stack| - 1].0, stack[|stack| - 1].1;
      var rest := stack[..|stack| - 1];
      assert stack == rest + [(node, depth)];
      StackStep(children, rest, node, depth, maxDepth, visited);
      stack := rest;
      if node in seen {
        continue;
      }
      seen := seen + {node};
      visitedCount := visitedCount + 1;
      visited := visited + [node];
      if matches(node) {
        assert visited <= all;
        assert Take(all, maxNodes)[|visited| - 1] == node;
        return Some(node);
      }
      if depth >= maxDepth {
        continue;
      }
      stack := PushReversed(stack, children(node), depth + 1);
    }
    assert Take(all, maxNodes) == visited;
    return None;
  }

  method PushReversed(stack: seq<(Id, nat)>, nodes: seq<Id>, depth: nat) returns (r: seq<(Id, nat)>)
    ensures r == Pushed(stack, nodes, depth)
  {
    r := stack;
    for i := |nodes| downto 0
      invariant r == Pushed(stack, nodes[i..], depth)
    {
      assert nodes[i..][1..] == nodes[i + 1..];
      r := r + [(nodes[i], depth)];
    }
  }

  lemma StackOfOneOrNone(children: Children, root: Id, maxDepth: nat)
    ensures OrderStack(children, [(root, 0)], maxDepth, []) == Order(children, root, maxDepth, [])
    ensures forall visited :: OrderStack(children, [], maxDepth, visited) == visited
  {
    hide Order;
  }

  // ---- Trees ----

  lemma {:induction false} OrderOfTree(children: Children, node: Id, limit: nat, order: seq<Id>)
    requires Distinct(order + Preorder(children, node, limit))
    ensures Order(children, node, limit, order) == order + Preorder(children, node, limit)
    decreases limit, 1, 0
  {
    hide PreorderAll, OrderAll;
    var all := order + Preorder(children, node, limit);
    assert all[|order|] == node;
    assert node !in order by {
      assert forall i :: 0 <= i < |order| ==> all[i] == order[i];
    }
    if limit > 0 {
      assert (order + [node]) + PreorderAll(children, children(node), limit - 1) == all;
      OrderOfForest(children, children(node), limit - 1, order + [node]);
    }
  }

  lemma {:induction false} OrderOfForest(children: Children, nodes: seq<Id>, limit: nat, order: seq<Id>)
    requires Distinct(order + PreorderAll(children, nodes, limit))
    ensures OrderAll(children, nodes, limit, order) == order + PreorderAll(children, nodes, limit)
    decreases limit, 2, |nodes|
  {
    hide Preorder, Order;
    if nodes != [] {
      var first, rest := Preorder(children, nodes[0], limit), PreorderAll(children, nodes[1..], limit);
      assert order + PreorderAll(children, nodes, limit) == (order + first) + rest;
      DistinctHead(order + first, rest);
      OrderOfTree(children, nodes[0], limit, order);
      OrderOfForest(children, nodes[1..], limit, order + first);
    }
  }

  lemma DistinctHead(a: seq<Id>, b: seq<Id>)
    requires Distinct(a + b)
    ensures Distinct(a)
  {
    assert forall i :: 0 <= i < |a| ==> (a + b)[i] == a[i];
  }

  /**
   On a tree whose elements are all different, what the search visits is the
   plain preorder; and only there, since a search never visits an element twice.
  */
  lemma TreesAreSearchedInPreorder(children: Children, root: Id, maxDepth: nat)
    ensures Order(children, root, maxDepth, []) == Preorder(children, root, maxDepth)
            <==> Distinct(Preorder(children, root, maxDepth))
  {
    hide Order, Preorder;
    OrderIsDistinct(children, root, maxDepth, []);
    if Distinct(Preorder(children, root, maxDepth)) {
      assert [] + Preorder(children, root, maxDepth) == Preorder(children, root, maxDepth);
      OrderOfTree(children, root, maxDepth, []);
    }
  }

  lemma {:induction false} OrderIsDistinct(children: Children, node: Id, limit: nat, order: seq<Id>)
    requires Distinct(order)
    ensures Distinct(Order(children, node, limit, order))
    decreases limit, 1, 0
  {
    hide OrderAll;
    if node !in order && limit > 0 {
      OrderAllIsDistinct(children, children(node), limit - 1, order + [node]);
    }
  }

  lemma {:induction false} OrderAllIsDistinct(children: Children, nodes: seq<Id>, limit: nat, order: seq<Id>)
    requires Distinct(order)
    ensures Distinct(OrderAll(children, nodes, limit, order))
    decreases limit, 2, |nodes|
  {
    hide Order;
    if nodes != [] {
      OrderIsDistinct(children, nodes[0], limit, order);
      OrderAllIsDistinct(children, nodes[1..], limit, Order(children, nodes[0], limit, order));
    }
  }
}
