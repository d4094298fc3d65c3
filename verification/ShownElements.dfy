/** Which elements the traversal shows, and which it closes, in terms of what an element says and has. */
module ShownElements {
  import opened AccessibleNodes
  import opened Text
  import opened TreeRenderer
  import opened Wrappers

  // ---- Text ----

  /** A text says something if some character of it is no blank. */
  ghost predicate SaysSomething(s: string) {
    exists i :: 0 <= i < |s| && !IsBlank(s[i])
  }

  lemma {:induction false} WordsExactly(s: string)
    ensures Words(s) != [] <==> SaysSomething(s)
    ensures forall k :: 0 <= k < |Words(s)| ==> Words(s)[k] != ""
    decreases |s|
  {
    hide IsBlank;
    if s != "" {
      if IsBlank(s[0]) {
        WordsExactly(s[1..]);
        assert forall i :: 1 <= i < |s| ==> s[i] == s[1..][i - 1];
      } else {
        WordsExactly(s[WordRun(s)..]);
        assert s[..WordRun(s)] != "";
      }
    }
  }

  lemma SanitizedExactly(s: string)
    ensures Sanitized(s) != "" <==> SaysSomething(s)
  {
    hide Words, SaysSomething;
    WordsExactly(s);
    if Words(s) != [] {
      assert Words(s)[0] != "";
    }
  }

  /** An action worth showing: none of the seven that every element has. */
  predicate IsMeaningful(action: string) {
    Lower(Strip(action)) !in
    {"click", "press", "show default ui", "show alternate ui", "show menu", "scroll to visible", "raise"}
  }

  lemma {:induction false} MeaningfulExactly(actions: seq<string>)
    ensures MeaningfulActions(actions) != [] <==> exists i :: 0 <= i < |actions| && IsMeaningful(actions[i])
    decreases |actions|
  {
    assert forall a :: IsMeaningful(a) <==> Lower(Strip(a)) !in NOISY_ACTIONS;
    hide IsMeaningful;
    if actions != [] {
      MeaningfulExactly(actions[1..]);
      assert forall i :: 1 <= i < |actions| ==> actions[i] == actions[1..][i - 1];
      if i :| 0 <= i < |actions[1..]| && IsMeaningful(actions[1..][i]) {
        assert actions[i + 1] == actions[1..][i];
      }
    }
  }

  lemma {:induction false} ChildrenCounted(slots: seq<Option<Node>>)
    ensures ChildCount(slots) >= 1 <==> exists i :: 0 <= i < |slots| && slots[i].Some?
    ensures ChildCount(slots) >= 2 <==> exists i, j :: 0 <= i < j < |slots| && slots[i].Some? && slots[j].Some?
    decreases |slots|
  {
    if slots != [] {
      var rest := slots[1..];
      ChildrenCounted(rest);
      assert forall i :: 1 <= i < |slots| ==> slots[i] == rest[i - 1];
      assert forall i :: 0 <= i < |rest| ==> rest[i] == slots[i + 1];
      if i, j :| 0 <= i < j < |slots| && slots[i].Some? && slots[j].Some? {
        assert rest[j - 1].Some? && (i > 0 ==> rest[i - 1].Some?);
      }
      if i, j :| 0 <= i < j < |rest| && rest[i].Some? && rest[j].Some? {
        assert slots[i + 1].Some? && slots[j + 1].Some?;
      }
      if slots[0].Some? && ChildCount(rest) >= 1 {
        var j :| 0 <= j < |rest| && rest[j].Some?;
        assert slots[j + 1].Some?;
      }
    }
  }

  // ---- What is shown ----

  predicate IsGeneric(node: Node) {
    Lower(node.role) in {"panel", "filler", "unknown", "section"}
  }

  /**
   An element of its own: with a role that says something, a name, identifier or
   value, an action, plain text under it, or more than one child.
  */
  ghost predicate StandsOut(node: Node) {
    || !IsGeneric(node)
    || node.name != "" || node.automationId != "" || node.value != ""
    || (exists i :: 0 <= i < |node.actions| && IsMeaningful(node.actions[i]))
    || node.summary.Some?
    || exists i, j :: 0 <= i < j < |node.slots| && node.slots[i].Some? && node.slots[j].Some?
  }

  lemma StandsOutExactly(node: Node)
    ensures StandsOut(node) <==> !Elided(node)
  {
    hide IsMeaningful, Lower, MeaningfulActions, ChildCount;
    MeaningfulExactly(node.actions);
    ChildrenCounted(node.slots);
  }

  /** The paths of what is under an element are longer than its own, so its own place is taken by it alone. */
  lemma {:induction false} PathsAreLonger(node: Node, i: nat, depth: nat, path: seq<nat>, deepest: nat)
    requires i <= |node.slots|
    ensures forall v :: v in PreorderSlots(node, i, depth, path, deepest) ==> |v.path| > |path|
    decreases node, |node.slots| - i
  {
    hide Preorder;
    if i < |node.slots| {
      PathsAreLonger(node, i + 1, depth, path, deepest);
      match node.slots[i]
      case None =>
      case Some(child) => PathsAreAsLong(child, depth, path + [i], deepest);
    }
  }

  lemma {:induction false} PathsAreAsLong(node: Node, depth: nat, path: seq<nat>, deepest: nat)
    ensures forall v :: v in Preorder(node, depth, path, deepest) ==> |v.path| >= |path|
    decreases node, |node.slots| + 1
  {
    hide PreorderSlots, Elided, Closed;
    PathsAreLonger(node, 0, depth, path, deepest);
    PathsAreLonger(node, 0, depth + 1, path, deepest);
  }

  /** Down to the greatest depth the traversal shows an element at its own place exactly when it stands out. */
  lemma ShownExactly(node: Node, depth: nat, path: seq<nat>, deepest: nat)
    ensures (exists v :: v in Preorder(node, depth, path, deepest) && v.path == path) <==>
            depth <= deepest && StandsOut(node)
    ensures depth <= deepest && StandsOut(node) ==>
              && Preorder(node, depth, path, deepest) != []
              && Preorder(node, depth, path, deepest)[0] == Visit(node, depth, path)
  {
    hide Elided, Closed, StandsOut, PreorderSlots;
    StandsOutExactly(node);
    PathsAreLonger(node, 0, depth, path, deepest);
    if depth <= deepest && StandsOut(node) {
      assert Preorder(node, depth, path, deepest)[0] == Visit(node, depth, path);
    }
  }

  // ---- What is not shown ----

  /**
   An element whose line says what is under it: one whose plain text is gathered,
   or a control with a label or a value.
  */
  ghost predicate SaysItAll(node: Node) {
    || (IsGeneric(node) && node.name == "" && node.value == "" && node.summary.Some? && node.summary.value != "")
    || (&& (node.name != "" || node.automationId != "" || SaysSomething(node.value))
        && Lower(node.role) in
           {"button", "check box", "checkbox", "combo box", "heading", "link", "menu item", "page tab", "push button",
            "radio button"})
  }

  lemma SaysItAllExactly(node: Node)
    ensures SaysItAll(node) <==> Closed(node)
  {
    hide Lower, SaysSomething, Sanitized;
    SanitizedExactly(node.value);
  }

  lemma {:induction false} SlotIsShown(node: Node, i: nat, k: nat, depth: nat, path: seq<nat>, deepest: nat)
    requires i <= k < |node.slots| && node.slots[k].Some?
    ensures forall v :: v in Preorder(node.slots[k].value, depth, path + [k], deepest) ==>
                          v in PreorderSlots(node, i, depth, path, deepest)
    decreases k - i
  {
    hide Preorder;
    if i < k {
      SlotIsShown(node, i + 1, k, depth, path, deepest);
    }
  }

  /**
   What is in a slot of an element that stands out is shown, one level deeper,
   exactly when the element does not say it all; and what is in a slot of an
   element that does not stand out is shown in its place.
  */
  lemma UnderExactly(node: Node, depth: nat, path: seq<nat>, deepest: nat, k: nat)
    requires k < |node.slots| && node.slots[k].Some? && StandsOut(node.slots[k].value)
    ensures StandsOut(node) && depth < deepest ==>
              (Visit(node.slots[k].value, depth + 1, path + [k]) in Preorder(node, depth, path, deepest)
               <==> !SaysItAll(node))
    ensures !StandsOut(node) && depth <= deepest ==>
              Visit(node.slots[k].value, depth, path + [k]) in Preorder(node, depth, path, deepest)
  {
    hide Elided, Closed, StandsOut, SaysItAll, PreorderSlots;
    var child := node.slots[k].value;
    StandsOutExactly(node);
    SaysItAllExactly(node);
    ShownExactly(child, depth + 1, path + [k], deepest);
    ShownExactly(child, depth, path + [k], deepest);
    SlotIsShown(node, 0, k, depth + 1, path, deepest);
    SlotIsShown(node, 0, k, depth, path, deepest);
    assert [Visit(node, depth, path)] + [] == [Visit(node, depth, path)];
    assert path + [k] != path;
  }
}
