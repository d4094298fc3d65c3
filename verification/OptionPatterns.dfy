/**
 Exactly which texts, regular expressions among them, can stand in an option's
 value without changing anything that is read after them.
*/
module OptionPatterns {
  import opened Text
  import opened Wrappers
  import opened OptionScanner
  import opened OptionPrinting
  import opened OptionSlices

  // ---- The inner scan ----

  /** The inner scan in the value of an entry, with the keys it has so far. */
  function InValue(keys: seq<string>): InnerState {
    InnerState(Code, 0, true, "", keys)
  }

  /** A move that uses no more than `text` is the same whatever harmless text follows. */
  lemma SameMove(text: string, rest: string, s: InnerState)
    requires text != "" && AfterSlash(rest)
    ensures Lex(text + rest, s.state) == Lex(text, s.state) && Inner(text + rest, s) == Inner(text, s)
    ensures var used := Lex(text, s.state).used;
            if used <= |text| then
              From(text + rest, used) == From(text, used) + rest
            else
              From(text, used) == "" && !Lex(text, s.state).state.Code? && From(text + rest, used) == From(rest, 1)
  {
    hide Flushed;
    assert (text + rest)[0] == text[0];
    assert |text| > 1 ==> (text + rest)[1] == text[1];
    assert (text + rest)[1..] == text[1..] + rest;
    assert |text| > 1 ==> (text + rest)[2..] == text[2..] + rest;
    assert |text| == 1 && rest != "" ==> (text + rest)[2..] == rest[1..];
  }

  lemma InnerKeepsState(text: string, s: InnerState)
    requires text != ""
    ensures Inner(text, s).state == Lex(text, s.state).state
  {
    hide Lex, Turn, Trim;
  }

  /** Where the scan ends in code it goes on from there with what follows. */
  lemma {:induction false} GoesOnAfter(text: string, rest: string, s: InnerState)
    requires AfterSlash(rest) && EndOf(text, s).state.Code?
    ensures Collect(text + rest, s) == Collect(rest, EndOf(text, s))
    decreases |text|
  {
    hide Collect, Inner, Lex, EndOf, AfterSlash;
    if text == "" {
      assert text + rest == rest;
      AtTheEnd(s);
    } else {
      SameMove(text, rest, s);
      ScanUnfolds(text, s, 0);
      ScanUnfolds(text + rest, s, 0);
      var later := From(text, Lex(text, s.state).used);
      InnerKeepsState(text, s);
      AtTheEnd(Inner(text, s));
      GoesOnAfter(later, rest, Inner(text, s));
    }
  }

  /** Where it ends in a string or comment, a comma and a letter after it change nothing. */
  lemma {:induction false} NothingAfter(text: string, s: InnerState)
    requires !EndOf(text, s).state.Code?
    ensures Collect(text + ",a", s) == Finished(EndOf(text, s))
    decreases |text|
  {
    hide Collect, Inner, Lex, EndOf, Finished;
    if text == "" {
      assert text + ",a" == ",a";
      AtTheEnd(s);
      LettersInNonCode(s);
    } else {
      SameMove(text, ",a", s);
      ScanUnfolds(text, s, 0);
      ScanUnfolds(text + ",a", s, 0);
      var later := From(text, Lex(text, s.state).used);
      if Lex(text, s.state).used <= |text| {
        NothingAfter(later, Inner(text, s));
      } else {
        InnerKeepsState(text, s);
        AtTheEnd(Inner(text, s));
        LettersInNonCode(Inner(text, s));
        assert From(",a", 1) == "a";
      }
    }
  }

  lemma LettersInNonCode(s: InnerState)
    requires !s.state.Code?
    ensures Collect(",a", s) == Finished(s) && Collect("a", s) == Finished(s)
  {
    hide Collect, Inner, Lex;
    OneInNonCode(',', "a", s);
    OneInNonCode('a', "", s);
    assert [','] + "a" == ",a" && ['a'] + "" == "a";
    EndOfBody(s);
  }

  lemma OneInNonCode(c: char, rest: string, s: InnerState)
    requires !s.state.Code? && (c == ',' || c == 'a')
    ensures Collect([c] + rest, s) == Collect(rest, s)
  {
    hide Flushed;
    assert Lex([c] + rest, s.state) == Lexed(s.state, 1) && Inner([c] + rest, s) == s;
    hide Collect, Lex, Inner;
    assert From([c] + rest, 1) == rest;
    ScanUnfolds([c] + rest, s, 0);
  }

  /** In a value there is no token. */
  lemma {:induction false} NoTokenInValue(text: string, s: InnerState)
    requires s.inValue ==> s.token == ""
    ensures EndOf(text, s).inValue ==> EndOf(text, s).token == ""
    decreases |text|
  {
    hide Lex, Trim;
    if text != "" {
      NoTokenInValue(From(text, Lex(text, s.state).used), Inner(text, s));
    }
  }

  lemma {:induction false} KeysGrow(text: string, s: InnerState)
    ensures s.keys <= EndOf(text, s).keys
    decreases |text|
  {
    hide Lex, Trim;
    if text != "" {
      KeysGrow(From(text, Lex(text, s.state).used), Inner(text, s));
    }
  }

  lemma NewKey(keys: seq<string>)
    ensures Collect("a", InValue(keys)) == keys && Collect(",a", InValue(keys)) == keys + ["a"]
    ensures Collect("", InValue(keys)) == keys
  {
    assert From(",a", 1) == "a" && From("a", 1) == "";
    assert Trim("a") == "a" by {
      TrimPadded("", "a", "");
      assert "" + "a" + "" == "a";
    }
  }

  /** Two continuations tell any other state in code from the one in the value. */
  lemma OtherState(e: InnerState)
    requires e.state.Code? && (e.inValue ==> e.token == "")
    requires e != InValue(e.keys)
    ensures Collect("a", e) != e.keys || Collect(",a", e) == e.keys
  {
    hide Collect, Inner, Trim;
    LetterInToken(e);
    InnerChar('a', "", e);
    EndOfBody(Inner("a", e));
    assert ['a'] + "" == "a" && [','] + "a" == ",a";
    if e.depth == 0 {
      LetterIsNoBlank(e.token);
    } else {
      CommaInToken(e);
      InnerChar(',', "a", e);
      var f := Inner(",", e);
      LetterInToken(f);
      InnerChar('a', "", f);
      EndOfBody(Inner("a", f));
    }
  }

  lemma LetterInToken(s: InnerState)
    requires s.state.Code?
    ensures Inner("a", s) == if s.inValue then s else s.(token := s.token + ['a'])
  {
    hide Trim;
  }

  lemma CommaInToken(s: InnerState)
    requires s.state.Code? && s.depth != 0
    ensures Inner(",", s) == if s.inValue then s else s.(token := s.token + [','])
  {
    hide Trim;
  }

  lemma LetterIsNoBlank(token: string)
    ensures Trim(token + ['a']) != ""
  {
    hide Trim;
    var before, after := TrimSplits(token + ['a']);
    assert (token + ['a'])[|token|] == 'a';
  }

  /**
   What is read after a text in a value is, whatever that is, what would be read
   without the text, exactly when the scan of the text comes back to where it was.
  */
  lemma TracelessExactly(text: string, keys: seq<string>)
    ensures (forall rest :: AfterSlash(rest) ==>
                              Collect(text + rest, InValue(keys)) == Collect(rest, InValue(keys)))
            <==> EndOf(text, InValue(keys)) == InValue(keys)
  {
    hide Collect, EndOf, Finished;
    var s := InValue(keys);
    var e := EndOf(text, s);
    if e == s {
      forall rest | AfterSlash(rest)
        ensures Collect(text + rest, s) == Collect(rest, s)
      {
        GoesOnAfter(text, rest, s);
      }
    } else {
      SomeRestTells(text, keys);
    }
  }

  lemma SomeRestTells(text: string, keys: seq<string>)
    requires EndOf(text, InValue(keys)) != InValue(keys)
    ensures exists rest :: AfterSlash(rest) && Collect(text + rest, InValue(keys)) != Collect(rest, InValue(keys))
  {
    hide Collect, EndOf;
    var s := InValue(keys);
    var e := EndOf(text, s);
    NewKey(keys);
    KeysGrow(text, s);
    NoTokenInValue(text, s);
    CollectIsFinished(text, s);
    assert text + "" == text;
    assert AfterSlash("") && AfterSlash("a") && AfterSlash(",a");
    if Collect(text + "", s) == keys {
      FinishedKeys(e, keys);
      if e.state.Code? {
        GoesOnAfter(text, "a", s);
        GoesOnAfter(text, ",a", s);
        OtherState(e);
      } else {
        NothingAfter(text, s);
      }
    }
  }

  lemma FinishedKeys(e: InnerState, keys: seq<string>)
    requires Finished(e) == keys && keys <= e.keys
    ensures e.keys == keys
  {
    hide Trim;
  }

  // ---- The outer scan ----

  /** Whether the outer scan gets through a text and is in code and as deep after it as it was before. */
  predicate Crosses(text: string, state: ScanState, depth: int, end: int)
    decreases |text|
  {
    if text == "" then state.Code? && depth == end
    else
      var m := Outer(text, state, depth);
      m.Onward? && Crosses(From(text, m.used), m.state, m.depth, end)
  }

  lemma SameOuterMove(text: string, rest: string, state: ScanState, depth: int)
    requires text != "" && AfterSlash(rest) && (rest != "" ==> rest[0] != '{')
    ensures Outer(text + rest, state, depth) == Outer(text, state, depth)
  {
    SameMove(text, rest, InnerState(state, depth, false, "", []));
  }

  /**
   In a call's object, where the outer scan is at depth 2, what closes after a
   text in a value closes where it would without the text, exactly when the
   outer scan crosses the text.
  */
  lemma CrossedExactly(text: string)
    ensures (forall rest :: AfterSlash(rest) ==>
                              CloseIndex(text + rest, Code, 2) == Later(|text|, CloseIndex(rest, Code, 2)))
            <==> Crosses(text, Code, 2, 2)
  {
    hide CloseIndex, Crosses;
    if Crosses(text, Code, 2, 2) {
      forall rest | AfterSlash(rest)
        ensures CloseIndex(text + rest, Code, 2) == Later(|text|, CloseIndex(rest, Code, 2))
      {
        CrossedThenOn(text, rest, Code, 2, 2);
      }
    } else {
      assert AfterSlash("))");
      TwoClose();
      NotCrossed(text, Code, 2);
    }
  }

  lemma TwoClose()
    ensures CloseIndex("))", Code, 2) == Some(1)
  {
    assert From("))", 1) == ")";
  }

  lemma {:induction false} CrossedThenOn(text: string, rest: string, state: ScanState, depth: int, end: int)
    requires Crosses(text, state, depth, end) && AfterSlash(rest)
    ensures CloseIndex(text + rest, state, depth) == Later(|text|, CloseIndex(rest, Code, end))
    decreases |text|
  {
    hide CloseIndex, AfterSlash;
    if text == "" {
      assert text + rest == rest;
    } else {
      OuterMoveInside(text, rest, state, depth, end);
      var m := Outer(text, state, depth);
      CrossedThenOn(From(text, m.used), rest, m.state, m.depth, end);
      OuterUnfolds(text + rest, state, depth);
    }
  }

  /** A move in a text that is crossed uses nothing after it. */
  lemma OuterMoveInside(text: string, rest: string, state: ScanState, depth: int, end: int)
    requires text != "" && Crosses(text, state, depth, end) && AfterSlash(rest)
    ensures Outer(text + rest, state, depth) == Outer(text, state, depth)
    ensures var used := Outer(text, state, depth).used;
            used <= |text| && From(text + rest, used) == From(text, used) + rest
  {
    SameMove(text, rest, InnerState(state, depth, false, "", []));
    if |text| == 1 {
      assert Crosses("", Outer(text, state, depth).state, Outer(text, state, depth).depth, end);
    }
  }

  /** Two closing brackets after a text that is not crossed do not close where they should. */
  lemma {:induction false} NotCrossed(text: string, state: ScanState, depth: int)
    requires !Crosses(text, state, depth, 2)
    ensures CloseIndex(text + "))", state, depth) != Some(|text| + 1)
    decreases |text|
  {
    hide CloseIndex, Outer;
    if text == "" {
      assert text + "))" == "))";
      Closers(state, depth);
    } else {
      SameOuterMove(text, "))", state, depth);
      CloseUnfolds(text + "))", state, depth);
      var m := Outer(text, state, depth);
      if m.Onward? {
        SameMove(text, "))", InnerState(state, depth, false, "", []));
        UsedByMove(text, state, depth);
        if m.used <= |text| {
          NotCrossed(From(text, m.used), m.state, m.depth);
        } else {
          assert From("))", 1) == ")";
          OneCloser(m.state, m.depth);
        }
      }
    }
  }

  lemma UsedByMove(text: string, state: ScanState, depth: int)
    requires text != "" && Outer(text, state, depth).Onward?
    ensures var m := Outer(text, state, depth);
            m.used == Lex(text, state).used && m.state == Lex(text, state).state
  {
    hide Lex, Turn;
  }

  lemma Closers(state: ScanState, depth: int)
    requires !state.Code? || depth != 2
    ensures CloseIndex("))", state, depth) != Some(1)
  {
    hide CloseIndex;
    assert From("))", 1) == ")" && From(")", 1) == "";
    CloseUnfolds("))", state, depth);
    if Outer("))", state, depth).Onward? {
      var m := Outer("))", state, depth);
      CloseUnfolds(")", m.state, m.depth);
      NothingCloses(Outer(")", m.state, m.depth).state, 0);
    }
  }

  lemma OneCloser(state: ScanState, depth: int)
    requires !state.Code?
    ensures CloseIndex(")", state, depth) == None
  {
    assert From(")", 1) == "";
  }

  /** The regular expressions of the grammar are among the texts that change nothing for either scan. */
  lemma HarmlessIsTraceless(text: string, keys: seq<string>)
    requires Harmless(text, Code, 0, true)
    ensures EndOf(text, InValue(keys)) == InValue(keys) && Crosses(text, Code, 2, 2)
  {
    hide Harmless, EndOf, Crosses, Collect, CloseIndex, AfterSlash;
    forall rest | AfterSlash(rest)
      ensures Collect(text + rest, InValue(keys)) == Collect(rest, InValue(keys))
      ensures CloseIndex(text + rest, Code, 2) == Later(|text|, CloseIndex(rest, Code, 2))
    {
      InnerHarmless(text, rest, 0, true, InValue(keys));
      OuterHarmless(text, rest, Code, 0, 2, true);
    }
    TracelessExactly(text, keys);
    CrossedExactly(text);
  }
}
