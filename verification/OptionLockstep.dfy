/** The two scans of one options object run in lockstep. */
module OptionLockstep {
  import opened Text
  import opened Wrappers
  import opened OptionScanner

  /** A position at which a scan stands, with its state before it reads the character there. */
  datatype Point = Point(index: int, state: ScanState, depth: int)

  /** The positions that the outer scan visits from `i` on, before `stop`. */
  function OuterPoints(text: string, i: nat, stop: nat, state: ScanState, depth: int): seq<Point>
    requires stop <= |text|
    decreases stop - i
  {
    if i >= stop then []
    else
      [Point(i, state, depth)]
      + match Outer(text[i..], state, depth)
        case Onward(next, after, used) => OuterPoints(text, i + used, stop, next, after)
        case _ => []
  }

  /** The positions that the inner scan visits from `i` on. */
  function InnerPoints(body: string, i: nat, s: InnerState): seq<Point>
    decreases |body| - i
  {
    if i >= |body| then []
    else [Point(i, s.state, s.depth)] + InnerPoints(body, i + Lex(body[i..], s.state).used, Inner(body[i..], s))
  }

  /** The same points seen from outside the two brackets, with the body at `offset`. */
  function FromOutside(points: seq<Point>, offset: nat): seq<Point> {
    seq(|points|, k requires 0 <= k < |points| =>
          Point(points[k].index + offset, points[k].state, points[k].depth + 2))
  }

  ghost predicate Sound(body: string, points: seq<Point>) {
    forall k :: 0 <= k < |points| ==>
                  && points[k].depth >= -1
                  && 0 <= points[k].index < |body|
                  && !Interpolates(body[points[k].index..], points[k].state)
  }

  /** A move that the outer scan survives is the inner scan's move, also at the last character of the body. */
  lemma SameMove(outer: string, inner: string, state: ScanState, depth: int, s: InnerState)
    requires |inner| >= 1 && |outer| > |inner| && outer[..|inner|] == inner && outer[|inner|] == '}'
    requires s.state == state && s.depth == depth - 2 && depth >= 1
    requires Outer(outer, state, depth).Onward?
    ensures var m := Outer(outer, state, depth);
            && m.used == Lex(inner, state).used
            && m.state == Inner(inner, s).state && m.depth == Inner(inner, s).depth + 2 && m.depth >= 1
            && !Interpolates(inner, state)
  {
    hide Trim;
    assert outer[0] == inner[0];
    if |inner| > 1 {
      assert outer[1] == inner[1];
    }
  }

  /** From `i` of the body on, the outer scan's points are the inner scan's, and those are sound. */
  ghost predicate InStep(text: string, b: nat, body: string, i: nat, state: ScanState, depth: int, s: InnerState)
    requires b + |body| <= |text|
  {
    && OuterPoints(text, b + i, b + |body|, state, depth) == FromOutside(InnerPoints(body, i, s), b)
    && Sound(body, InnerPoints(body, i, s))
  }

  lemma {:induction false} BodyInLockstep(
    text: string, b: nat, body: string, i: nat, state: ScanState, depth: int, s: InnerState, close: nat)
    requires b + |body| < |text| && text[b..b + |body|] == body && text[b + |body|] == '}'
    requires s.state == state && s.depth == depth - 2 && depth >= 1
    requires CloseIndex(From(text, b + i), state, depth) == Some(close) && b + i + close > b + |body|
    ensures InStep(text, b, body, i, state, depth, s)
    decreases |body| - i
  {
    hide Outer, Inner, Lex, Turn, CloseIndex, InStep, From;
    if i < |body| {
      var outer, rest := text[b + i..], body[i..];
      var m, next := Outer(outer, state, depth), Inner(rest, s);
      StillOpen(text, b + i, state, depth, close);
      Window(text, b, body, i);
      SameMove(outer, rest, state, depth, s);
      assert b + i + m.used == b + (i + m.used);
      BodyInLockstep(text, b, body, i + m.used, m.state, m.depth, next, close - m.used);
      StepInStep(text, b, body, i, state, depth, s);
    } else {
      AtStop(text, b, body, i, state, depth, s);
    }
  }

  lemma Window(text: string, b: nat, body: string, i: nat)
    requires i < |body| && b + |body| < |text| && text[b..b + |body|] == body
    ensures text[b + i..][..|body| - i] == body[i..] && text[b + i..][|body| - i] == text[b + |body|]
  {
  }

  /** A scan that finds its bracket further on makes an ordinary move here. */
  lemma StillOpen(text: string, j: nat, state: ScanState, depth: int, close: nat)
    requires j < |text| && close >= 1
    requires CloseIndex(From(text, j), state, depth) == Some(close)
    ensures var m := Outer(text[j..], state, depth);
            && m.Onward? && m.used <= close
            && CloseIndex(From(text, j + m.used), m.state, m.depth) == Some(close - m.used)
  {
    hide Outer, CloseIndex;
    OuterGoesOn(text, j, j, state, depth, Some(close));
  }

  lemma AtStop(text: string, b: nat, body: string, i: nat, state: ScanState, depth: int, s: InnerState)
    requires b + |body| <= |text| && |body| <= i
    ensures InStep(text, b, body, i, state, depth, s)
  {
  }

  lemma StepInStep(text: string, b: nat, body: string, i: nat, state: ScanState, depth: int, s: InnerState)
    requires i < |body| && b + |body| < |text|
    requires s.state == state && s.depth == depth - 2 && depth >= 1 && !Interpolates(body[i..], state)
    requires var m := Outer(text[b + i..], state, depth);
             && m.Onward? && m.used == Lex(body[i..], state).used
             && InStep(text, b, body, i + m.used, m.state, m.depth, Inner(body[i..], s))
    ensures InStep(text, b, body, i, state, depth, s)
  {
    hide Outer, Inner, Lex, FromOutside, Sound, OuterPoints, InnerPoints;
    assert b + i + Lex(body[i..], state).used == b + (i + Lex(body[i..], state).used);
    PointsStep(text, b, body, i, state, depth, s);
    SoundStep(body, i, s);
  }

  lemma PointsStep(text: string, b: nat, body: string, i: nat, state: ScanState, depth: int, s: InnerState)
    requires i < |body| && b + |body| < |text|
    requires s.state == state && s.depth == depth - 2
    requires var m := Outer(text[b + i..], state, depth);
             && m.Onward? && m.used == Lex(body[i..], state).used
             && OuterPoints(text, b + i + m.used, b + |body|, m.state, m.depth)
                == FromOutside(InnerPoints(body, i + m.used, Inner(body[i..], s)), b)
    ensures OuterPoints(text, b + i, b + |body|, state, depth) == FromOutside(InnerPoints(body, i, s), b)
  {
    hide Outer, Inner, Lex, OuterPoints, InnerPoints;
    OuterPointsGoOn(text, b + i, b + |body|, state, depth);
    InnerPointsGoOn(body, i, s);
  }

  lemma OuterPointsGoOn(text: string, i: nat, stop: nat, state: ScanState, depth: int)
    requires i < stop <= |text| && Outer(text[i..], state, depth).Onward?
    ensures var m := Outer(text[i..], state, depth);
            OuterPoints(text, i, stop, state, depth)
            == [Point(i, state, depth)] + OuterPoints(text, i + m.used, stop, m.state, m.depth)
  {
    hide Outer;
  }

  lemma InnerPointsGoOn(body: string, i: nat, s: InnerState)
    requires i < |body|
    ensures InnerPoints(body, i, s)
         == [Point(i, s.state, s.depth)] + InnerPoints(body, i + Lex(body[i..], s.state).used, Inner(body[i..], s))
  {
    hide Inner, Lex;
  }

  lemma SoundStep(body: string, i: nat, s: InnerState)
    requires i < |body| && s.depth >= -1 && !Interpolates(body[i..], s.state)
    requires Sound(body, InnerPoints(body, i + Lex(body[i..], s.state).used, Inner(body[i..], s)))
    ensures Sound(body, InnerPoints(body, i, s))
  {
    hide Inner, Lex;
  }

  // ---- From the parenthesis to the body ----

  lemma BlankOrBracketMove(text: string, i: nat, depth: int)
    requires i < |text|
    ensures IsSpace(text[i]) ==> Outer(text[i..], Code, depth) == Onward(Code, depth, 1)
    ensures Opens(text[i]) && depth >= 0 ==> Outer(text[i..], Code, depth) == Onward(Code, depth + 1, 1)
  {
  }

  lemma {:induction false} ClosePastBlanks(text: string, i: nat, n: nat, depth: int, close: nat)
    requires i + n <= |text| && i + n <= i + close
    requires forall k :: i <= k < i + n ==> IsSpace(text[k])
    requires CloseIndex(From(text, i), Code, depth) == Some(close)
    ensures CloseIndex(From(text, i + n), Code, depth) == Some(close - n)
    decreases n
  {
    hide CloseIndex, Outer, IsSpace;
    if n > 0 {
      BlankOrBracketMove(text, i, depth);
      StillOpen(text, i, Code, depth, close);
      ClosePastBlanks(text, i + 1, n - 1, depth, close - 1);
    }
  }

  lemma {:induction false} PointsPastBlanks(text: string, i: nat, n: nat, stop: nat, depth: int)
    requires i + n <= stop <= |text|
    requires forall k :: i <= k < i + n ==> IsSpace(text[k])
    ensures var points := OuterPoints(text, i, stop, Code, depth);
            |points| >= n && points[n..] == OuterPoints(text, i + n, stop, Code, depth)
    decreases n
  {
    hide Outer, IsSpace;
    if n > 0 {
      BlankOrBracketMove(text, i, depth);
      PointsPastBlanks(text, i + 1, n - 1, stop, depth);
      var later := OuterPoints(text, i + 1, stop, Code, depth);
      assert OuterPoints(text, i, stop, Code, depth) == [Point(i, Code, depth)] + later;
      assert ([Point(i, Code, depth)] + later)[n..] == later[n - 1..];
    }
  }

  /** An opening bracket in code. */
  lemma BracketMove(text: string, i: nat, stop: nat, depth: nat, close: nat)
    requires i < stop <= |text| && Opens(text[i])
    requires CloseIndex(From(text, i), Code, depth) == Some(close)
    ensures close >= 1 && CloseIndex(From(text, i + 1), Code, depth + 1) == Some(close - 1)
    ensures var points := OuterPoints(text, i, stop, Code, depth);
            |points| >= 1 && points[1..] == OuterPoints(text, i + 1, stop, Code, depth + 1)
  {
    hide Outer, OuterPoints, CloseIndex, Opens;
    BlankOrBracketMove(text, i, depth);
    OpensIsNoEnd(text, i, depth);
    OuterGoesOn(text, i, i, Code, depth, Some(close));
    OuterPointsGoOn(text, i, stop, Code, depth);
  }

  lemma OpensIsNoEnd(text: string, i: nat, depth: nat)
    requires i < |text| && Opens(text[i]) && CloseIndex(From(text, i), Code, depth).Some?
    ensures CloseIndex(From(text, i), Code, depth).value >= 1
  {
    hide Outer;
    BlankOrBracketMove(text, i, depth);
  }

  /** A call's argument text that is sliced as an object, with its body at position `b` of the text. */
  ghost predicate ObjectCall(text: string, p: nat, b: nat, body: string) {
    && p + 2 <= b && b + |body| < |text|
    && text[p] == '(' && text[b - 1] == '{' && text[b..b + |body|] == body && text[b + |body|] == '}'
    && (forall k :: p < k < b - 1 ==> IsSpace(text[k]))
    && CloseIndex(From(text, p), Code, 0).Some?
    && CloseIndex(From(text, p), Code, 0).value > b + |body| - p
  }

  /** Every call that `ReadCallOptionKeys` slices as an object is of this form. */
  lemma SlicedAsObject(text: string, p: nat) returns (b: nat)
    requires p < |text| && text[p] == '('
    requires ArgumentText(text, p).Some? && BracedObject(Trim(ArgumentText(text, p).value))
    ensures var trimmed := Trim(ArgumentText(text, p).value);
            ObjectCall(text, p, b, trimmed[1..|trimmed| - 1])
  {
    hide CloseIndex, Trim, IsSpace;
    var close := CloseIndex(From(text, p), Code, 0).value;
    var args := ArgumentText(text, p).value;
    var trimmed := Trim(args);
    var before, after := TrimSplits(args);
    b := p + 1 + |before| + 1;
    assert forall k :: 0 <= k < |args| ==> text[p + 1 + k] == args[k];
    assert forall k :: 0 <= k < |before| ==> args[k] == before[k];
    assert forall k :: 0 <= k < |trimmed| ==> args[|before| + k] == trimmed[k];
    assert |args| == |before| + |trimmed| + |after|;
    PlacedAt(text, p + 1, before, trimmed);
  }

  lemma PlacedAt(text: string, start: nat, before: string, trimmed: string)
    requires start + |before| + |trimmed| <= |text| && BracedObject(trimmed)
    requires forall k :: 0 <= k < |before| ==> text[start + k] == before[k]
    requires forall k :: 0 <= k < |trimmed| ==> text[start + |before| + k] == trimmed[k]
    ensures var b, body := start + |before| + 1, trimmed[1..|trimmed| - 1];
            && text[b - 1] == '{' && text[b..b + |body|] == body && text[b + |body|] == '}'
    ensures forall k :: start <= k < start + |before| ==> text[k] == before[k - start]
  {
    assert text[start + |before| + 0] == trimmed[0];
    assert forall k {:trigger text[k]} ::
             start <= k < start + |before| ==> text[start + (k - start)] == before[k - start];
  }

  /**
   Whenever the outer scan that begins at a parenthesis finds its end and the
   argument is sliced as an object, the inner scan visits exactly the positions
   of the body that the outer scan visited, each in the same lexical state and
   at a depth two less; so its depth never drops below -1 and it never meets an
   interpolation, for which it has no rule.
  */
  lemma ScansInLockstep(text: string, p: nat, b: nat, body: string)
    requires ObjectCall(text, p, b, body)
    ensures var points := OuterPoints(text, p, b + |body|, Code, 0);
            && |points| >= b - p
            && points[b - p..] == FromOutside(InnerPoints(body, 0, INNER_START), b)
    ensures Sound(body, InnerPoints(body, 0, INNER_START))
  {
    hide Outer, CloseIndex, Inner, IsSpace, FromOutside, InnerPoints, Sound, OuterPoints, From;
    var close := CloseIndex(From(text, p), Code, 0).value;
    var stop := b + |body|;
    var n := b - p - 2;
    BracketMove(text, p, stop, 0, close);
    ClosePastBlanks(text, p + 1, n, 1, close - 1);
    PointsPastBlanks(text, p + 1, n, stop, 1);
    assert p + 1 + n == b - 1;
    BracketMove(text, b - 1, stop, 1, close - 1 - n);
    BodyInLockstep(text, b, body, 0, Code, 2, INNER_START, close - 2 - n);
    DropInTurn(OuterPoints(text, p, stop, Code, 0), OuterPoints(text, p + 1, stop, Code, 1), n);
  }

  lemma DropInTurn(p0: seq<Point>, p1: seq<Point>, n: nat)
    requires |p0| >= 1 && p0[1..] == p1 && |p1| >= n && |p1[n..]| >= 1
    ensures |p0| >= n + 2 && p0[n + 2..] == p1[n..][1..]
  {
  }
}
