/**
 What a readable answer says of a call that is sliced as an object: when the
 slice is one object, what is reported when it is not, and exactly when the
 keys reported are those of the call's first object all the same.
*/
module OptionSlices {
  import opened Text
  import opened Wrappers
  import opened OptionScanner
  import opened OptionLockstep
  import opened OptionPrinting
  import opened OptionRefusals

  // ---- One move of either scan looks at two characters at most ----

  /** The heads of two texts read alike: what one has and the other lacks is no second half of anything. */
  predicate SameHead(a: string, b: string) {
    && a != "" && b != "" && a[0] == b[0]
    && (|a| > 1 && |b| > 1 ==> a[1] == b[1])
    && (|a| > 1 && |b| == 1 ==> Closes(a[1]))
    && (|a| == 1 && |b| > 1 ==> Closes(b[1]))
  }

  lemma SameHeadMoves(a: string, b: string, state: ScanState, depth: int, s: InnerState)
    requires SameHead(a, b)
    ensures Lex(a, state) == Lex(b, state) && Turn(a, state) == Turn(b, state)
    ensures Outer(a, state, depth) == Outer(b, state, depth)
    ensures Inner(a, s) == Inner(b, s)
  {
    hide Flushed;
  }

  // ---- The inner scan's state at the end ----

  function EndOf(text: string, s: InnerState): InnerState
    decreases |text|
  {
    if text == "" then s else EndOf(From(text, Lex(text, s.state).used), Inner(text, s))
  }

  /** The keys in the end. */
  function Finished(s: InnerState): seq<string> {
    if s.inValue then s.keys else Flushed(s).keys
  }

  lemma {:induction false} CollectIsFinished(text: string, s: InnerState)
    ensures Collect(text, s) == Finished(EndOf(text, s))
    decreases |text|
  {
    hide Inner, Lex, Flushed;
    if text != "" {
      CollectIsFinished(From(text, Lex(text, s.state).used), Inner(text, s));
    }
  }

  /** Whether the scan is never below the depth it began at, 0, and ends in code at depth 0. */
  predicate Balanced(text: string, state: ScanState, depth: int)
    decreases |text|
  {
    if text == "" then state.Code? && depth == 0
    else depth >= 0 && Balanced(From(text, Lex(text, state).used), Lex(text, state).state, depth + Turn(text, state))
  }

  // ---- Up to the bracket that closes ----

  lemma {:induction false} CloseInPrefix(text: string, state: ScanState, depth: int, m: nat, k: nat)
    requires CloseIndex(text, state, depth) == Some(m) && m < k <= |text|
    ensures CloseIndex(text[..k], state, depth) == Some(m)
    decreases |text|
  {
    hide Outer, CloseIndex;
    CloseUnfolds(text, state, depth);
    if m == 0 {
      FoundAtOnce(text, text[..k], state, depth);
    } else {
      SameHeadMoves(text, text[..k], state, depth, INNER_START);
      var move := Outer(text, state, depth);
      var u := move.used;
      CloseInPrefix(From(text, u), move.state, move.depth, m - u, k - u);
      assert From(text[..k], u) == From(text, u)[..k - u];
      CloseUnfolds(text[..k], state, depth);
    }
  }

  /** The result of a scan, from its first move. */
  lemma CloseUnfolds(text: string, state: ScanState, depth: int)
    requires text != ""
    ensures CloseIndex(text, state, depth)
         == match Outer(text, state, depth)
            case Found => Some(0)
            case Lost => None
            case Onward(next, after, used) => Later(used, CloseIndex(From(text, used), next, after))
  {
    hide Outer;
  }

  lemma FoundAtOnce(text: string, other: string, state: ScanState, depth: int)
    requires text != "" && other != "" && text[0] == other[0]
    requires CloseIndex(text, state, depth) == Some(0)
    ensures CloseIndex(other, state, depth) == Some(0)
    ensures state.Code? && depth == 1 && Closes(text[0])
  {
  }

  /** Seen one level further in, the bracket that closes comes earlier. */
  lemma {:induction false} CloseComesEarlier(text: string, state: ScanState, depth: int, n: nat)
    requires depth >= 2 && CloseIndex(text, state, depth) == Some(n)
    ensures CloseIndex(text, state, depth - 1).Some? && CloseIndex(text, state, depth - 1).value < n
    decreases |text|
  {
    hide Outer, CloseIndex;
    if text == "" {
      NothingCloses(state, depth);
    } else {
      CloseUnfolds(text, state, depth);
      CloseUnfolds(text, state, depth - 1);
      OneLevelIn(text, state, depth);
      var move := Outer(text, state, depth);
      if Outer(text, state, depth - 1).Onward? {
        CloseComesEarlier(From(text, move.used), move.state, move.depth, n - move.used);
      }
    }
  }

  lemma NothingCloses(state: ScanState, depth: int)
    ensures CloseIndex("", state, depth) == None
  {
  }

  lemma OneLevelIn(text: string, state: ScanState, depth: int)
    requires text != "" && depth >= 2
    ensures var m, inner := Outer(text, state, depth), Outer(text, state, depth - 1);
            && !m.Found?
            && (inner.Found? ==> m.Onward?)
            && (inner.Lost? ==> m.Lost?)
            && (inner.Onward? ==> m == inner.(depth := inner.depth + 1) && m.depth >= 2)
  {
  }

  /**
   The inner scan of a text whose closing bracket the outer scan finds after
   `head`: it gets there in code at depth 0, whatever stands after that bracket.
  */
  lemma {:induction false} ScanMeetsClose(
    head: string, rest: string, other: string, state: ScanState, depth: int, s: InnerState)
    requires CloseIndex(head + rest, state, depth) == Some(|head|) && depth >= 1
    requires rest != "" && (other == "" || other[0] == rest[0])
    requires s.state == state && s.depth == depth - 1
    ensures EndOf(head, s).state.Code? && EndOf(head, s).depth == 0 && Closes(rest[0])
    ensures EndOf(head + other, s) == EndOf(other, EndOf(head, s))
    ensures Balanced(head + other, state, depth - 1) == Balanced(other, Code, 0)
    decreases |head|
  {
    hide Outer, CloseIndex, Inner, Lex, Turn, EndOf, Balanced;
    var text := head + rest;
    CloseUnfolds(text, state, depth);
    if head == "" {
      assert text == rest && head + other == other;
      FoundAtOnce(rest, rest, state, depth);
      AtTheEnd(s);
    } else {
      var m := Outer(text, state, depth);
      var u := m.used;
      var next := Inner(head, s);
      ClosesLater(head, rest, state, depth);
      FirstMove(head, rest, other, state, depth, s);
      assert From(text, u) == head[u..] + rest;
      ScanMeetsClose(head[u..], rest, other, m.state, m.depth, next);
      assert From(head, u) == head[u..] && From(head + other, u) == head[u..] + other;
      ScanUnfolds(head, s, depth - 1);
      ScanUnfolds(head + other, s, depth - 1);
    }
  }

  lemma AtTheEnd(s: InnerState)
    ensures EndOf("", s) == s
  {
  }

  /** What a scan makes of a text, from its first move. */
  lemma ScanUnfolds(text: string, s: InnerState, depth: int)
    requires text != ""
    ensures var l := Lex(text, s.state);
            var later := From(text, l.used);
            && EndOf(text, s) == EndOf(later, Inner(text, s))
            && Collect(text, s) == Collect(later, Inner(text, s))
            && (depth >= 0 ==> Balanced(text, s.state, depth) == Balanced(later, l.state, depth + Turn(text, s.state)))
  {
    hide Inner, Lex, Turn;
  }

  /** Where a closing bracket comes later there is one, so it is no part of anything before it. */
  lemma {:induction false} ClosesLater(head: string, rest: string, state: ScanState, depth: int)
    requires CloseIndex(head + rest, state, depth) == Some(|head|) && rest != ""
    ensures Closes(rest[0])
    ensures head != "" ==> Outer(head + rest, state, depth).Onward? && Outer(head + rest, state, depth).used <= |head|
    decreases |head|
  {
    hide Outer, CloseIndex;
    var text := head + rest;
    CloseUnfolds(text, state, depth);
    if head == "" {
      assert text == rest;
      FoundAtOnce(rest, rest, state, depth);
    } else {
      var m := Outer(text, state, depth);
      assert From(text, m.used) == head[m.used..] + rest;
      ClosesLater(head[m.used..], rest, m.state, m.depth);
    }
  }

  lemma FirstMove(head: string, rest: string, other: string, state: ScanState, depth: int, s: InnerState)
    requires head != "" && rest != "" && Closes(rest[0]) && (other == "" || other[0] == rest[0])
    requires depth >= 1 && s.state == state && s.depth == depth - 1
    requires Outer(head + rest, state, depth).Onward?
    ensures var m := Outer(head + rest, state, depth);
            && Lex(head, state) == Lex(head + other, state) == Lexed(m.state, m.used)
            && Turn(head + other, state) == m.depth - depth && m.depth >= 1
            && Inner(head, s) == Inner(head + other, s)
            && Inner(head, s).state == m.state && Inner(head, s).depth == m.depth - 1
  {
    SameHeadMoves(head + rest, head, state, depth, s);
    SameHeadMoves(head + other, head, state, depth, s);
    OuterIsInner(head, state, depth, s);
  }

  lemma OuterIsInner(text: string, state: ScanState, depth: int, s: InnerState)
    requires text != "" && depth >= 1 && s.state == state && s.depth == depth - 1
    requires Outer(text, state, depth).Onward?
    ensures var m := Outer(text, state, depth);
            && Lex(text, state) == Lexed(m.state, m.used) && Turn(text, state) == m.depth - depth && m.depth >= 1
            && Inner(text, s).state == m.state && Inner(text, s).depth == m.depth - 1
  {
    hide Trim;
  }

  // ---- A call that is sliced as an object ----

  /** The argument list of a call, trimmed; it is sliced as an object when it begins and ends with a brace. */
  function SliceOf(text: string, p: nat): string {
    match ArgumentText(text, p)
    case None => ""
    case Some(args) => Trim(args)
  }

  predicate IsSliced(text: string, p: nat) {
    p < |text| && text[p] == '(' && BracedObject(SliceOf(text, p))
  }

  /** Where the first brace of the slice is closed. */
  function FirstEnd(slice: string): Option<nat> {
    CloseIndex(slice, Code, 0)
  }

  /** Whether the slice is one object: its first brace is closed by its last character. */
  predicate IsOneObject(slice: string) {
    slice != "" && FirstEnd(slice) == Some(|slice| - 1)
  }

  lemma BracketsAreNoBlanks(c: char)
    requires Opens(c) || Closes(c)
    ensures !IsSpace(c) && !ContinuesIdentifier(c)
  {
  }

  lemma {:induction false} FoundIsABracket(text: string, state: ScanState, depth: int)
    requires CloseIndex(text, state, depth).Some?
    ensures Closes(text[CloseIndex(text, state, depth).value])
    decreases |text|
  {
    hide Outer, CloseIndex;
    if text == "" {
      NothingCloses(state, depth);
    } else {
      CloseUnfolds(text, state, depth);
      match Outer(text, state, depth)
      case Found => FoundAtOnce(text, text, state, depth);
      case Lost =>
      case Onward(next, after, used) => FoundIsABracket(From(text, used), next, after);
    }
  }

  /** In a slice, the scan from its first brace meets a bracket that closes it. */
  lemma SliceCloses(text: string, p: nat)
    requires IsSliced(text, p)
    ensures FirstEnd(SliceOf(text, p)).Some? && FirstEnd(SliceOf(text, p)).value >= 1
  {
    hide CloseIndex, Outer, Trim, IsSpace, ObjectCall;
    var slice := SliceOf(text, p);
    var b := SlicedAsObject(text, p);
    var body := slice[1..|slice| - 1];
    var n := BracedInside(text, p, b, body);
    SliceIsThere(text, p, b);
    assert b + |body| + 1 <= |text|;
    CloseComesEarlier(From(text, b), Code, 2, n);
    var m := CloseIndex(From(text, b), Code, 1).value;
    FoundIsABracket(From(text, b), Code, 1);
    BracketsAreNoBlanks(text[b + m]);
    if m > |body| {
      BlanksAfterSlice(text, p, b, b + m);
    }
    CloseInPrefix(From(text, b), Code, 1, m, |body| + 1);
    BraceOpens(slice);
  }

  lemma BraceOpens(slice: string)
    requires slice != "" && slice[0] == '{'
    ensures FirstEnd(slice) == Later(1, CloseIndex(slice[1..], Code, 1))
  {
    hide CloseIndex;
    assert Outer(slice, Code, 0) == Onward(Code, 1, 1);
    CloseUnfolds(slice, Code, 0);
    assert From(slice, 1) == slice[1..];
  }

  /** The outer scan from the inside of the first brace on: two levels down, it ends at the call's parenthesis. */
  lemma BracedInside(text: string, p: nat, b: nat, body: string) returns (n: nat)
    requires ObjectCall(text, p, b, body)
    ensures CloseIndex(From(text, b), Code, 2) == Some(n)
    ensures n + b == p + CloseIndex(From(text, p), Code, 0).value
  {
    hide CloseIndex, Outer, IsSpace, OuterPoints, From;
    var close := CloseIndex(From(text, p), Code, 0).value;
    var blanks := b - 1 - (p + 1);
    BracketMove(text, p, |text|, 0, close);
    ClosePastBlanks(text, p + 1, blanks, 1, close - 1);
    assert p + 1 + blanks == b - 1;
    BracketMove(text, b - 1, |text|, 1, close - 1 - blanks);
    assert b - 1 + 1 == b;
    n := close - 1 - blanks - 1;
  }

  /** Between the slice and the parenthesis that closes the call there are only blanks. */
  lemma BlanksAfterSlice(text: string, p: nat, b: nat, k: nat)
    requires IsSliced(text, p)
    requires ObjectCall(text, p, b, SliceOf(text, p)[1..|SliceOf(text, p)| - 1])
    requires b + |SliceOf(text, p)| - 2 < k < p + CloseIndex(From(text, p), Code, 0).value
    ensures IsSpace(text[k])
  {
    hide CloseIndex, Trim, IsSpace;
    var args := ArgumentText(text, p).value;
    var slice := SliceOf(text, p);
    var before, after := TrimSplits(args);
    assert forall i :: 0 <= i < |args| ==> text[p + 1 + i] == args[i];
    BracketsAreNoBlanks('{');
    var at := |before|;
    assert args[at] == slice[0] == '{';
    assert forall i :: p + 1 <= i < p + 1 + at ==> text[i] == args[i - (p + 1)] == before[i - (p + 1)];
    FirstOfBoth(text, p + 1, p + 1 + at, b - 1);
    var j := k - (p + 1);
    assert args[j] == after[j - |before| - |slice|];
  }

  lemma FirstOfBoth(text: string, start: nat, i: nat, j: nat)
    requires start <= i < |text| && start <= j < |text| && !IsSpace(text[i]) && !IsSpace(text[j])
    requires forall k :: start <= k < i ==> IsSpace(text[k])
    requires forall k :: start <= k < j ==> IsSpace(text[k])
    ensures i == j
  {
  }

  /** The slice stands in the text from the brace before `b` on, and only blanks follow it up to the parenthesis. */
  lemma SliceIsThere(text: string, p: nat, b: nat)
    requires IsSliced(text, p)
    requires ObjectCall(text, p, b, SliceOf(text, p)[1..|SliceOf(text, p)| - 1])
    ensures var slice := SliceOf(text, p);
            1 <= b && b + |slice| - 1 <= |text| && From(text, b)[..|slice| - 1] == slice[1..]
  {
    hide CloseIndex, Trim, IsSpace;
    var slice := SliceOf(text, p);
    var body := slice[1..|slice| - 1];
    assert slice == "{" + body + "}";
    assert slice[1..] == body + "}";
    assert From(text, b)[..|body| + 1] == text[b..b + |body|] + [text[b + |body|]];
  }

  // ---- When the slice is one object ----

  /** What the first brace encloses, up to the bracket that closes it. */
  function FirstInside(slice: string): string
    requires FirstEnd(slice).Some?
  {
    var c := FirstEnd(slice).value;
    if 1 <= c <= |slice| then slice[1..c] else ""
  }

  /** What the slice has after that bracket, its own last brace apart. */
  function FirstAfter(slice: string): string
    requires FirstEnd(slice).Some?
  {
    var c := FirstEnd(slice).value;
    if c + 1 < |slice| then slice[c + 1..|slice| - 1] else ""
  }

  /** The inner scan's state when it comes to the end of the first brace's inside. */
  function AtFirstEnd(slice: string): InnerState
    requires FirstEnd(slice).Some?
  {
    EndOf(FirstInside(slice), INNER_START)
  }

  /** The inner scan of a slice: up to the closing bracket, and from there on if anything follows. */
  lemma SliceScanned(text: string, p: nat)
    requires IsSliced(text, p)
    ensures FirstEnd(SliceOf(text, p)).Some?
    ensures var slice := SliceOf(text, p);
            var c, e, body := FirstEnd(slice).value, AtFirstEnd(slice), slice[1..|slice| - 1];
            && 1 <= c < |slice| && Closes(slice[c]) && e.state.Code? && e.depth == 0
            && (c == |slice| - 1 ==>
                  body == FirstInside(slice) && EndOf(body, INNER_START) == e && Balanced(body, Code, 0))
            && (c < |slice| - 1 ==>
                  && EndOf(body, INNER_START) == EndOf([slice[c]] + FirstAfter(slice), e)
                  && !Balanced(body, Code, 0))
  {
    hide CloseIndex, Trim, EndOf, Balanced, Inner, Lex;
    var slice := SliceOf(text, p);
    SliceCloses(text, p);
    BraceOpens(slice);
    var c := FirstEnd(slice).value;
    var head, rest := slice[1..c], slice[c..];
    assert slice[1..] == head + rest;
    var body := slice[1..|slice| - 1];
    var other := if c == |slice| - 1 then "" else [slice[c]] + FirstAfter(slice);
    assert body == head + other;
    ScanMeetsClose(head, rest, other, Code, 1, INNER_START);
    BalancedEnds(other);
    AtTheEnd(EndOf(head, INNER_START));
    assert head + "" == head;
  }

  /** At depth 0, nothing more is balanced, and a closing bracket is not. */
  lemma BalancedEnds(other: string)
    requires other == "" || Closes(other[0])
    ensures Balanced(other, Code, 0) <==> other == ""
  {
    if other != "" {
      assert Lex(other, Code) == Lexed(Code, 1) && Turn(other, Code) == -1;
      assert !Balanced(From(other, 1), Code, -1);
    }
  }

  /**
   For every call that is sliced as an object: the slice is one object exactly
   when the inner scan of its body is never below depth 0 and ends in code at depth 0.
  */
  lemma OneObjectIsBalanced(text: string, p: nat)
    requires IsSliced(text, p)
    ensures IsOneObject(SliceOf(text, p)) <==> Balanced(SliceOf(text, p)[1..|SliceOf(text, p)| - 1], Code, 0)
  {
    hide Balanced, EndOf, SliceOf, FirstInside, FirstAfter, FirstEnd;
    SliceScanned(text, p);
  }

  // ---- What is reported after the first object ----

  lemma {:induction false} KeysComeFirst(text: string, s: InnerState)
    ensures Collect(text, s) == s.keys + Collect(text, s.(keys := []))
    decreases |text|
  {
    hide Collect, Inner, Lex, Flushed;
    if text == "" {
      KeysOfTheEnd(s);
    } else {
      var used := Lex(text, s.state).used;
      var more := KeysOfAMove(text, s);
      KeysComeFirst(From(text, used), Inner(text, s));
      KeysComeFirst(From(text, used), Inner(text, s.(keys := [])));
      ScanUnfolds(text, s, 0);
      ScanUnfolds(text, s.(keys := []), 0);
      var later := Collect(From(text, used), Inner(text, s).(keys := []));
      assert s.keys + more + later == s.keys + (more + later);
    }
  }

  lemma KeysOfTheEnd(s: InnerState)
    ensures Collect("", s) == s.keys + Collect("", s.(keys := []))
  {
    hide Trim;
  }

  /** The keys that a move adds do not depend on the keys there are. */
  lemma KeysOfAMove(text: string, s: InnerState) returns (more: seq<string>)
    requires text != ""
    ensures Inner(text, s).keys == s.keys + more && Inner(text, s.(keys := [])).keys == more
    ensures Inner(text, s.(keys := [])).(keys := []) == Inner(text, s).(keys := [])
  {
    hide Trim, Lex, Turn;
    more := Inner(text, s.(keys := [])).keys;
  }

  /** The keys that the scan reports from the closing bracket of the first object on. */
  function KeysAfter(slice: string): seq<string>
    requires FirstEnd(slice).Some? && FirstEnd(slice).value < |slice|
  {
    var c := FirstEnd(slice).value;
    Collect([slice[c]] + FirstAfter(slice), AtFirstEnd(slice).(keys := []))
  }

  /** A token that a closing bracket has got into makes no key that is an identifier. */
  lemma TaintedName(token: string, c: char)
    requires c in token && Closes(c)
    ensures Trim(token) != "" && !IsIdentifier(Trim(token)) && HasBadKey([Trim(token)])
  {
    hide Trim, IsSpace, ContinuesIdentifier;
    BracketsAreNoBlanks(c);
    var before, after := TrimSplits(token);
    assert c !in before && c !in after;
    assert c in Trim(token);
    var i :| 0 <= i < |Trim(token)| && Trim(token)[i] == c;
    assert [Trim(token)][0] == Trim(token);
  }

  lemma {:induction false} TaintedScan(text: string, s: InnerState, c: char)
    requires Closes(c) && c in s.token && !s.inValue
    ensures Collect(text, s) == s.keys || HasBadKey(Collect(text, s))
    decreases |text|
  {
    hide Collect, Inner, Lex, HasBadKey, Flushed;
    if text == "" {
      TaintedEnd(s, c);
    } else {
      ScanUnfolds(text, s, 0);
      TaintedMove(text, s, c);
      var next := Inner(text, s);
      if HasBadKey(next.keys) {
        var later := From(text, Lex(text, s.state).used);
        KeysComeFirst(later, next);
        BadKeyStays(next.keys, Collect(later, next.(keys := [])));
      } else {
        TaintedScan(From(text, Lex(text, s.state).used), next, c);
      }
    }
  }

  lemma TaintedEnd(s: InnerState, c: char)
    requires Closes(c) && c in s.token && !s.inValue
    ensures Collect("", s) == s.keys || HasBadKey(Collect("", s))
  {
    hide Trim, IsIdentifier;
    TaintedName(s.token, c);
    BadKeyStays(s.keys, [Trim(s.token)]);
  }

  lemma TaintedMove(text: string, s: InnerState, c: char)
    requires text != "" && Closes(c) && c in s.token && !s.inValue
    ensures var next := Inner(text, s);
            HasBadKey(next.keys) || (next.keys == s.keys && c in next.token && !next.inValue)
  {
    hide Trim, IsIdentifier, Lex, HasBadKey, OpensNonCode;
    TaintedName(s.token, c);
    BadKeyStays(s.keys, [Trim(s.token)]);
  }

  // ---- What a readable answer says ----

  /** The keys of the first object: those that reading its inside alone would report. */
  function FirstKeys(slice: string): seq<string>
    requires FirstEnd(slice).Some?
  {
    Collect(FirstInside(slice), INNER_START)
  }

  lemma FirstKeysAtEnd(slice: string)
    requires FirstEnd(slice).Some?
    ensures FirstKeys(slice) == Finished(AtFirstEnd(slice))
  {
    hide Collect, EndOf, Finished, FirstInside;
    CollectIsFinished(FirstInside(slice), INNER_START);
  }

  /** Behind the bracket of a first object that ends in a shorthand only what is no identifier is reported. */
  lemma TaintedAfter(c: char, after: string, e: InnerState)
    requires Closes(c) && e.state.Code? && !e.inValue && e.keys == []
    ensures Collect([c] + after, e) == [] || HasBadKey(Collect([c] + after, e))
  {
    hide Collect, HasBadKey, Trim;
    ScanUnfolds([c] + after, e, 0);
    assert Lex([c] + after, Code) == Lexed(Code, 1);
    assert From([c] + after, 1) == after;
    TaintedScan(after, Inner([c] + after, e), c);
  }

  lemma WhatIsReported(text: string, p: nat)
    requires IsSliced(text, p)
    ensures FirstEnd(SliceOf(text, p)).Some? && FirstEnd(SliceOf(text, p)).value < |SliceOf(text, p)|
    ensures AtFirstEnd(SliceOf(text, p)).depth == 0
    ensures var slice := SliceOf(text, p);
            var reported := Collect(slice[1..|slice| - 1], INNER_START);
            && (IsOneObject(slice) ==> reported == FirstKeys(slice))
            && (!IsOneObject(slice) ==>
                  && reported == AtFirstEnd(slice).keys + KeysAfter(slice)
                  && (!AtFirstEnd(slice).inValue ==> KeysAfter(slice) == [] || HasBadKey(KeysAfter(slice))))
  {
    hide Collect, EndOf, SliceOf, FirstInside, FirstAfter, FirstEnd, Finished, HasBadKey, Balanced;
    SliceScanned(text, p);
    var slice := SliceOf(text, p);
    var c, e, body := FirstEnd(slice).value, AtFirstEnd(slice), slice[1..|slice| - 1];
    CollectIsFinished(body, INNER_START);
    FirstKeysAtEnd(slice);
    if !IsOneObject(slice) {
      var more := [slice[c]] + FirstAfter(slice);
      CollectIsFinished(more, e);
      KeysComeFirst(more, e);
      if !e.inValue {
        TaintedAfter(slice[c], FirstAfter(slice), e.(keys := []));
      }
    }
  }

  lemma ReadableHasNoBadKey(text: string, p: nat)
    requires IsSliced(text, p) && ReadCallOptionKeys(text, p).Readable?
    ensures var slice := SliceOf(text, p);
            && ReadCallOptionKeys(text, p).keys == Collect(slice[1..|slice| - 1], INNER_START)
            && !HasBadKey(ReadCallOptionKeys(text, p).keys)
  {
    hide Collect, ArgumentText, Trim, IsIdentifier;
  }

  /**
   For every call that is sliced as an object and called readable: what is
   reported are the keys of its first object, unless the slice goes on after
   that. Then a last shorthand of the object is not reported, and after an
   object that ends in a value the scan reports what it takes for keys in the
   rest. So the keys are those of the first object exactly when the slice is
   one object, or else the object does not end in a shorthand and nothing in
   the rest is taken for a key.
  */
  lemma ReadableKeysExactly(text: string, p: nat)
    requires IsSliced(text, p) && ReadCallOptionKeys(text, p).Readable?
    ensures FirstEnd(SliceOf(text, p)).Some? && FirstEnd(SliceOf(text, p)).value < |SliceOf(text, p)|
    ensures var slice := SliceOf(text, p);
            var keys, e := ReadCallOptionKeys(text, p).keys, AtFirstEnd(slice);
            && keys == (if IsOneObject(slice) then FirstKeys(slice)
                        else if e.inValue then e.keys + KeysAfter(slice)
                        else e.keys)
            && (keys == FirstKeys(slice) <==>
                || IsOneObject(slice)
                || (if e.inValue then KeysAfter(slice) == [] else Trim(e.token) == ""))
  {
    hide Collect, EndOf, SliceOf, FirstEnd, KeysAfter, HasBadKey, ReadCallOptionKeys, Trim, IsOneObject, IsSliced,
      AtFirstEnd, FirstInside;
    WhatIsReported(text, p);
    ReadableHasNoBadKey(text, p);
    var slice := SliceOf(text, p);
    var e := AtFirstEnd(slice);
    FirstKeysAtEnd(slice);
    if !IsOneObject(slice) && !e.inValue && KeysAfter(slice) != [] {
      BadKeyStays(e.keys, KeysAfter(slice));
    }
    assert e.keys + [] == e.keys;
  }
}
