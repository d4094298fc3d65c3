/** Printed calls whose argument list goes on after the options object, and what is read from them. */
module OptionMisreadings {
  import opened Text
  import opened Wrappers
  import opened OptionScanner
  import opened OptionPrinting

  // ---- A brace in a comment after the object ----

  lemma {:induction false} LineToEnd(note: string, s: InnerState)
    requires LineText(note) && s.state.Line?
    ensures Collect(note, s) == if s.inValue then s.keys else Flushed(s).keys
    decreases |note|
  {
    hide Flushed;
    if note != "" {
      assert From(note, 1) == note[1..];
      LineToEnd(note[1..], s);
    }
  }

  /** What may follow an argument on its line: blanks and comments, and a comma at most. */
  datatype Gap = Gap(first: Trivia, comma: bool, second: Trivia)

  predicate GapOk(g: Gap) {
    TriviaOk(g.first) && TriviaOk(g.second)
  }

  function PrintGap(g: Gap): string {
    PrintTrivia(g.first) + ((if g.comma then "," else "") + PrintTrivia(g.second))
  }

  /** Blanks and comments below depth 0, seen by the inner scan: at most its token changes. */
  lemma {:induction false} TriviaBelow(t: Trivia, rest: string, s: InnerState) returns (token: string)
    requires TriviaOk(t) && s.state.Code? && s.depth != 0
    ensures Collect(PrintTrivia(t) + rest, s) == Collect(rest, s.(token := token))
    decreases t
  {
    hide Collect, Passes, Inner, IsSpace;
    match t
    case Nothing =>
      assert "" + rest == rest;
      token := s.token;
    case Blank(c, tail) =>
      token := CharBelow(c, PrintTrivia(tail) + rest, s);
      assert [c] + PrintTrivia(tail) + rest == [c] + (PrintTrivia(tail) + rest);
      token := TriviaBelow(tail, rest, s.(token := token));
    case LineNote(text, tail) =>
      LinePasses(text, PrintTrivia(tail) + rest);
      InnerElement(PrintLine(text), PrintTrivia(tail), rest, s);
      token := TriviaBelow(tail, rest, s);
    case BlockNote(text, tail) =>
      BlockPasses(text, PrintTrivia(tail) + rest);
      InnerElement(PrintBlock(text), PrintTrivia(tail), rest, s);
      token := TriviaBelow(tail, rest, s);
  }

  lemma CharBelow(c: char, rest: string, s: InnerState) returns (token: string)
    requires (IsSpace(c) || c == ',') && s.state.Code? && s.depth != 0
    ensures Collect([c] + rest, s) == Collect(rest, s.(token := token))
  {
    hide Collect, Flushed;
    token := if s.inValue then s.token else s.token + [c];
    InnerChar(c, rest, s);
    assert Inner([c], s) == s.(token := token);
  }

  lemma GapBelow(g: Gap, rest: string, s: InnerState) returns (token: string)
    requires GapOk(g) && s.state.Code? && s.depth != 0
    ensures Collect(PrintGap(g) + rest, s) == Collect(rest, s.(token := token))
  {
    hide Collect, TriviaOk, PrintTrivia, IsSpace;
    var second := PrintTrivia(g.second) + rest;
    var comma := if g.comma then "," else "";
    assert PrintGap(g) + rest == PrintTrivia(g.first) + (comma + second);
    token := TriviaBelow(g.first, comma + second, s);
    if g.comma {
      token := CharBelow(',', second, s.(token := token));
    } else {
      assert comma + second == second;
    }
    token := TriviaBelow(g.second, rest, s.(token := token));
  }

  /** The object's own closing brace and a line comment, seen by the inner scan: nothing more is reported. */
  lemma AfterTheBrace(g: Gap, note: string, s: InnerState)
    requires GapOk(g) && LineText(note) && s.state.Code? && s.depth == 0
    ensures Collect("}" + (PrintGap(g) + ("//" + note)), s) == s.keys
  {
    hide Collect, IsSpace, LineText, Trim, GapOk, PrintGap;
    InnerChar('}', PrintGap(g) + ("//" + note), s);
    var after := Inner("}", s);
    var token := GapBelow(g, "//" + note, after);
    var end := after.(token := token);
    IntoLine(note, end);
    LineToEnd(note, end.(state := Line));
  }

  lemma IntoLine(note: string, s: InnerState)
    requires s.state.Code?
    ensures Collect("//" + note, s) == Collect(note, s.(state := Line))
  {
    hide Flushed;
    assert From("//" + note, 2) == note;
  }

  lemma GapPasses(g: Gap, rest: string, depth: nat)
    requires GapOk(g) && depth >= 1
    ensures CloseIndex(PrintGap(g) + rest, Code, depth) == Later(|PrintGap(g)|, CloseIndex(rest, Code, depth))
  {
    hide CloseIndex, Outer, TriviaOk, PrintTrivia;
    var second := PrintTrivia(g.second) + rest;
    var comma := if g.comma then "," else "";
    OuterTrivia(g.second, rest, depth);
    OuterTrivia(g.first, comma + second, depth);
    assert PrintGap(g) + rest == PrintTrivia(g.first) + (comma + second);
    if g.comma {
      OuterChar(',', second, depth);
    } else {
      assert comma + second == second;
    }
  }

  function PrintCommented(before: string, f: Fields, g: Gap, note: string): string {
    before + ("{" + PrintFields(f) + ("}" + (PrintGap(g) + ("//" + note))) + "}")
  }

  lemma CommentedCloses(before: string, f: Fields, g: Gap, note: string, after: string, rest: string)
    requires FieldsOk(f) && AllSpaces(before) && GapOk(g) && AllSpaces(after) && LineText(note)
    ensures var args := PrintCommented(before, f, g, note) + ("\n" + after);
            CloseIndex("(" + (args + (")" + rest)), Code, 0) == Some(1 + |args|)
  {
    hide CloseIndex, Outer, PrintFields, FieldsOk, IsSpace, Passes, GapOk, PrintGap;
    var close := ")" + rest;
    var line := PrintLine(note + "}");
    var gap := PrintGap(g);
    var tail := "}" + (gap + (line + (after + close)));
    AtParentheses(rest);
    OuterSpaces(after, close, 1);
    LinePasses(note + "}", after + close);
    OuterPasses(line, after + close, 1);
    GapPasses(g, line + (after + close), 1);
    OuterChar('}', gap + (line + (after + close)), 2);
    OuterFields(f, tail, 2);
    OuterChar('{', PrintFields(f) + tail, 1);
    OuterSpaces(before, "{" + (PrintFields(f) + tail), 1);
    AtParentheses(before + ("{" + (PrintFields(f) + tail)));
    var args := PrintCommented(before, f, g, note) + ("\n" + after);
    CommentedText(before, PrintFields(f), gap, note, after, close);
  }

  lemma CommentedText(before: string, fields: string, blanks: string, note: string, after: string, close: string)
    ensures before + ("{" + fields + ("}" + (blanks + ("//" + note))) + "}") + ("\n" + after) + close
         == before + ("{" + (fields + ("}" + (blanks + (PrintLine(note + "}") + (after + close))))))
  {
    var line := PrintLine(note + "}");
    assert line == "//" + note + "}" + "\n";
    var inner := blanks + ("//" + note);
    assert blanks + (line + (after + close)) == inner + "}" + "\n" + after + close;
    assert "{" + (fields + ("}" + (inner + "}" + "\n" + after + close)))
        == "{" + fields + ("}" + inner) + "}" + "\n" + after + close;
  }

  /** Whether the last thing in the object is a shorthand, with no comma after it. */
  predicate EndsInShorthand(f: Fields) {
    match f
    case NoMore(_) => false
    case Last(entry) => entry.Shorthand?
    case More(_, rest) => EndsInShorthand(rest)
  }

  lemma {:induction false} KeysBeforeLastShorthand(f: Fields, keys: seq<string>)
    requires FieldsOk(f)
    ensures var s := AfterFields(f, keys);
            && s.state.Code? && s.depth == 0
            && s.keys == keys + (if EndsInShorthand(f) then AllButLast(f) else IdentifierKeys(f))
  {
    hide EntryOk, TriviaOk;
    match f
    case NoMore(_) => assert keys + IdentifierKeys(f) == keys;
    case Last(entry) => assert keys + [] == keys;
    case More(entry, rest) =>
      KeysBeforeLastShorthand(rest, keys + IdentifierKey(entry));
      assert keys + IdentifierKey(entry) + IdentifierKeys(rest) == keys + IdentifierKeys(f);
      if EndsInShorthand(rest) {
        assert keys + IdentifierKey(entry) + AllButLast(rest) == keys + AllButLast(f);
      }
  }

  /** The identifier keys without that of the last entry. */
  function AllButLast(f: Fields): seq<string> {
    match f
    case NoMore(_) => []
    case Last(_) => []
    case More(entry, rest) => IdentifierKey(entry) + AllButLast(rest)
  }

  lemma {:induction false} LastShorthandCounts(f: Fields)
    requires EndsInShorthand(f)
    ensures |AllButLast(f)| + 1 == |IdentifierKeys(f)|
  {
    if f.More? {
      LastShorthandCounts(f.rest);
    }
  }

  lemma {:induction false} AllButLastAreIdentifiers(f: Fields)
    requires FieldsOk(f)
    ensures forall i :: 0 <= i < |AllButLast(f)| ==> IsIdentifier(AllButLast(f)[i])
  {
    hide IsIdentifier, TriviaOk, ValueOk;
    if f.More? {
      AllButLastAreIdentifiers(f.rest);
    }
  }

  /**
   A line comment after the object whose text ends in a brace is taken for part
   of the object, with or without a comma and other comments in front of it. The
   call is still called readable; its keys are all there just when the object
   does not end in a shorthand without a comma, and that last key is reported as
   absent otherwise.
  */
  lemma BraceInCommentHidesShorthand(
    text: string, before: string, f: Fields, g: Gap, note: string, after: string, rest: string)
    requires FieldsOk(f) && AllSpaces(before) && GapOk(g) && AllSpaces(after) && LineText(note)
    ensures var whole := text + ("(" + (PrintCommented(before, f, g, note) + ("\n" + after) + (")" + rest)));
            && ReadCallOptionKeys(whole, |text|)
               == Readable(if EndsInShorthand(f) then AllButLast(f) else IdentifierKeys(f))
            && (ReadCallOptionKeys(whole, |text|) == Readable(IdentifierKeys(f)) <==> !EndsInShorthand(f))
  {
    hide CloseIndex, Outer, FieldsOk, PrintFields, Collect, Trim, IsSpace, IdentifierKeys, AllButLast, LineText,
      GapOk, PrintGap;
    var args := PrintCommented(before, f, g, note) + ("\n" + after);
    var call := "(" + (args + (")" + rest));
    assert From(text + call, |text|) == call;
    CommentedCloses(before, f, g, note, after, rest);
    assert call[1..1 + |args|] == args;
    var tail := "}" + (PrintGap(g) + ("//" + note));
    var trimmed := "{" + PrintFields(f) + tail + "}";
    assert AllSpaces("\n" + after) by {
      assert IsSpace('\n') by { SmallTexts(); }
    }
    BracesTrim(before, trimmed, "\n" + after);
    assert trimmed[1..|trimmed| - 1] == PrintFields(f) + tail;
    InnerFields(f, tail, []);
    KeysBeforeLastShorthand(f, []);
    AfterTheBrace(g, note, AfterFields(f, []));
    var keys := if EndsInShorthand(f) then AllButLast(f) else IdentifierKeys(f);
    assert [] + keys == keys;
    KeysAreIdentifiers(f);
    AllButLastAreIdentifiers(f);
    if EndsInShorthand(f) {
      LastShorthandCounts(f);
    }
  }

  lemma SmallTexts()
    ensures IsSpace('\n') && AllSpaces("") && LineText(" ")
  {
  }

  // ---- A second object after the first ----

  /** A printed entry, seen as part of a value. */
  function EntryAsValue(e: Entry): Value {
    TriviaAsValue(e.before, KeyAsValue(e, TriviaAsValue(e.after, if e.Shorthand? then End else Plain(':', e.value))))
  }

  function TriviaAsValue(t: Trivia, tail: Value): Value {
    match t
    case Nothing => tail
    case Blank(c, rest) => Plain(c, TriviaAsValue(rest, tail))
    case LineNote(text, rest) => LineComment(text, TriviaAsValue(rest, tail))
    case BlockNote(text, rest) => BlockComment(text, TriviaAsValue(rest, tail))
  }

  function KeyAsValue(e: Entry, tail: Value): Value {
    if e.StringKeyed? then Quotation(e.quote, e.items, tail) else CharsAsValue(e.key, tail)
  }

  function CharsAsValue(chars: string, tail: Value): Value {
    if chars == "" then tail else Plain(chars[0], CharsAsValue(chars[1..], tail))
  }

  lemma {:induction false} TriviaReadsAsValue(t: Trivia, tail: Value)
    requires TriviaOk(t) && ValueOk(tail, true)
    ensures ValueOk(TriviaAsValue(t, tail), true)
    ensures PrintValue(TriviaAsValue(t, tail)) == PrintTrivia(t) + PrintValue(tail)
  {
    hide IsSpace, Harmless, AfterSlash, WellItemized;
    match t
    case Nothing =>
    case Blank(c, rest) =>
      SpacesAndIdentifiersAreTokens(c);
      TriviaReadsAsValue(rest, tail);
      assert [c] + PrintTrivia(rest) + PrintValue(tail) == [c] + (PrintTrivia(rest) + PrintValue(tail));
    case LineNote(text, rest) =>
      TriviaReadsAsValue(rest, tail);
      assert PrintLine(text) + PrintTrivia(rest) + PrintValue(tail)
          == PrintLine(text) + (PrintTrivia(rest) + PrintValue(tail));
    case BlockNote(text, rest) =>
      TriviaReadsAsValue(rest, tail);
      assert PrintBlock(text) + PrintTrivia(rest) + PrintValue(tail)
          == PrintBlock(text) + (PrintTrivia(rest) + PrintValue(tail));
  }

  lemma {:induction false} CharsReadAsValue(chars: string, tail: Value)
    requires ValueOk(tail, true) && forall i :: 0 <= i < |chars| ==> ContinuesIdentifier(chars[i])
    ensures ValueOk(CharsAsValue(chars, tail), true)
    ensures PrintValue(CharsAsValue(chars, tail)) == chars + PrintValue(tail)
    decreases |chars|
  {
    hide ContinuesIdentifier;
    if chars == "" {
      assert chars + PrintValue(tail) == PrintValue(tail);
    } else {
      SpacesAndIdentifiersAreTokens(chars[0]);
      CharsReadAsValue(chars[1..], tail);
      assert [chars[0]] + (chars[1..] + PrintValue(tail)) == chars + PrintValue(tail);
    }
  }

  lemma EntryReadsAsValue(e: Entry)
    requires EntryOk(e)
    ensures ValueOk(EntryAsValue(e), true) && PrintValue(EntryAsValue(e)) == PrintEntry(e)
  {
    hide TriviaOk, ContinuesIdentifier, StartsIdentifier, TriviaAsValue, CharsAsValue, PrintTrivia, WellItemized,
      PrintItems;
    var last := if e.Shorthand? then End else Plain(':', e.value);
    assert ValueOk(last, true) && PrintValue(last) == if e.Shorthand? then "" else ":" + PrintValue(e.value);
    var after := TriviaAsValue(e.after, last);
    TriviaReadsAsValue(e.after, last);
    if !e.StringKeyed? {
      CharsReadAsValue(e.key, after);
    }
    TriviaReadsAsValue(e.before, KeyAsValue(e, after));
  }

  /** The keys of an object that are read when its first entry is taken for part of a value. */
  function KeysBeyondFirst(f: Fields): seq<string> {
    if f.More? then IdentifierKeys(f.rest) else []
  }

  lemma FieldsAfterValue(f: Fields, s: InnerState)
    requires FieldsOk(f) && s.state.Code? && s.depth == 0 && s.inValue
    ensures Collect(PrintFields(f), s) == s.keys + KeysBeyondFirst(f)
  {
    hide Collect, EntryOk, TriviaOk, PrintEntry, PrintTrivia, Flushed, AfterFields, EntryAsValue;
    EndOfBody(s);
    assert s.keys + [] == s.keys;
    match f
    case NoMore(end) =>
      TriviaReadsAsValue(end, End);
      InnerValue(TriviaAsValue(end, End), true, "", s);
      assert PrintTrivia(end) + "" + "" == PrintTrivia(end);
    case Last(entry) =>
      EntryReadsAsValue(entry);
      InnerValue(EntryAsValue(entry), true, "", s);
      assert PrintEntry(entry) + "" == PrintEntry(entry);
    case More(entry, rest) =>
      EntryReadsAsValue(entry);
      InnerValue(EntryAsValue(entry), true, "," + PrintFields(rest), s);
      InnerComma(PrintFields(rest), s);
      InnerFields(rest, "", s.keys);
      assert PrintFields(rest) + "" == PrintFields(rest);
      EndOfBody(AfterFields(rest, s.keys));
      FieldsReported(rest, s.keys);
  }

  function PrintTwo(f: Fields, g: Gap, second: Fields): string {
    "{" + (PrintFields(f) + ("}" + (PrintGap(g) + ("{" + (PrintFields(second) + "}")))))
  }

  lemma TwoClose(before: string, f: Fields, g: Gap, second: Fields, after: string, rest: string)
    requires FieldsOk(f) && FieldsOk(second) && AllSpaces(before) && GapOk(g) && AllSpaces(after)
    ensures var args := before + PrintTwo(f, g, second) + after;
            CloseIndex("(" + (args + (")" + rest)), Code, 0) == Some(1 + |args|)
  {
    hide CloseIndex, Outer, PrintFields, FieldsOk, IsSpace, GapOk, PrintGap;
    var close := ")" + rest;
    AtParentheses(rest);
    OuterSpaces(after, close, 1);
    var last := "}" + (after + close);
    OuterChar('}', after + close, 2);
    OuterFields(second, last, 2);
    var two := "{" + (PrintFields(second) + last);
    OuterChar('{', PrintFields(second) + last, 1);
    GapPasses(g, two, 1);
    var gap := "}" + (PrintGap(g) + two);
    OuterChar('}', PrintGap(g) + two, 2);
    OuterFields(f, gap, 2);
    OuterChar('{', PrintFields(f) + gap, 1);
    OuterSpaces(before, "{" + (PrintFields(f) + gap), 1);
    AtParentheses(before + ("{" + (PrintFields(f) + gap)));
    TwoText(before, PrintFields(f), PrintGap(g), PrintFields(second), after, close);
  }

  lemma TwoText(before: string, first: string, gap: string, second: string, after: string, close: string)
    ensures before + ("{" + (first + ("}" + (gap + ("{" + (second + "}")))))) + after + close
         == before + ("{" + (first + ("}" + (gap + ("{" + (second + ("}" + (after + close))))))))
  {
    var inner := "{" + (second + "}");
    assert inner + after + close == "{" + (second + ("}" + (after + close)));
    assert "}" + (gap + inner) + after + close == "}" + (gap + (inner + after + close));
    assert first + ("}" + (gap + inner)) + after + close == first + ("}" + (gap + inner) + after + close);
  }

  /** The first object ends in an entry with a value. */
  predicate EndsInValue(f: Fields) {
    match f
    case NoMore(_) => false
    case Last(entry) => !entry.Shorthand?
    case More(_, rest) => EndsInValue(rest)
  }

  lemma {:induction false} AfterFieldsInValue(f: Fields, keys: seq<string>)
    requires FieldsOk(f) && EndsInValue(f)
    ensures AfterFields(f, keys) == InnerState(Code, 0, true, "", keys + IdentifierKeys(f))
    decreases f
  {
    hide EntryOk, TriviaOk;
    if f.More? {
      AfterFieldsInValue(f.rest, keys + IdentifierKey(f.entry));
      assert keys + IdentifierKey(f.entry) + IdentifierKeys(f.rest) == keys + IdentifierKeys(f);
    }
  }

  lemma FromTheBrace(g: Gap, second: Fields, s: InnerState)
    requires GapOk(g) && FieldsOk(second) && s == InnerState(Code, 0, true, "", s.keys)
    ensures Collect("}" + (PrintGap(g) + ("{" + PrintFields(second))), s) == s.keys + KeysBeyondFirst(second)
  {
    hide Collect, GapOk, PrintGap, PrintFields, FieldsOk, KeysBeyondFirst;
    var two := "{" + PrintFields(second);
    InnerChar('}', PrintGap(g) + two, s);
    InnerBracket('}', s);
    var below := s.(depth := -1);
    var token := GapBelow(g, two, below);
    InnerChar('{', PrintFields(second), below.(token := token));
    InnerBracket('{', below.(token := token));
    FieldsAfterValue(second, s.(token := token));
  }

  /**
   A call with two objects, the first of which ends in an entry with a value: the
   first entry of the second object is taken for part of that value, and its other
   keys for keys of the first. So the answer has the keys of the first object
   exactly when the second has no identifier key after its first entry.
  */
  lemma SecondObjectIsReadOn(
    text: string, before: string, f: Fields, g: Gap, second: Fields, after: string, rest: string)
    requires FieldsOk(f) && EndsInValue(f) && FieldsOk(second)
    requires AllSpaces(before) && GapOk(g) && AllSpaces(after)
    ensures var whole := text + ("(" + (before + PrintTwo(f, g, second) + after + (")" + rest)));
            && ReadCallOptionKeys(whole, |text|) == Readable(IdentifierKeys(f) + KeysBeyondFirst(second))
            && (ReadCallOptionKeys(whole, |text|) == Readable(IdentifierKeys(f)) <==> KeysBeyondFirst(second) == [])
  {
    hide CloseIndex, Outer, FieldsOk, PrintFields, Collect, Trim, IsSpace, IdentifierKeys, GapOk, PrintGap,
      KeysBeyondFirst, EndsInValue, AfterFields, PrintTwo, IsIdentifier;
    var two := PrintTwo(f, g, second);
    var args := before + two + after;
    var call := "(" + (args + (")" + rest));
    assert From(text + call, |text|) == call;
    TwoClose(before, f, g, second, after, rest);
    assert call[1..1 + |args|] == args;
    TwoIsBraced(f, g, second);
    BracesTrim(before, two, after);
    InsideOfTwo(f, g, second);
    BothAreIdentifiers(f, second);
  }

  /** The inner scan of the two objects without their outermost braces. */
  lemma InsideOfTwo(f: Fields, g: Gap, second: Fields)
    requires FieldsOk(f) && EndsInValue(f) && GapOk(g) && FieldsOk(second)
    ensures Collect(PrintFields(f) + ("}" + (PrintGap(g) + ("{" + PrintFields(second)))), INNER_START)
         == IdentifierKeys(f) + KeysBeyondFirst(second)
  {
    hide Collect, FieldsOk, PrintFields, GapOk, PrintGap, KeysBeyondFirst, EndsInValue, AfterFields, IdentifierKeys;
    InnerFields(f, "}" + (PrintGap(g) + ("{" + PrintFields(second))), []);
    AfterFieldsInValue(f, []);
    assert [] + IdentifierKeys(f) == IdentifierKeys(f);
    FromTheBrace(g, second, AfterFields(f, []));
  }

  lemma BothAreIdentifiers(f: Fields, second: Fields)
    requires FieldsOk(f) && FieldsOk(second)
    ensures var keys := IdentifierKeys(f) + KeysBeyondFirst(second);
            forall i :: 0 <= i < |keys| ==> IsIdentifier(keys[i])
  {
    hide EntryOk, TriviaOk, IsIdentifier, IdentifierKeys;
    KeysAreIdentifiers(f);
    if second.More? {
      KeysAreIdentifiers(second.rest);
    }
    var keys := IdentifierKeys(f) + KeysBeyondFirst(second);
    assert forall i :: 0 <= i < |keys| ==>
                         keys[i] == if i < |IdentifierKeys(f)| then IdentifierKeys(f)[i]
                                    else KeysBeyondFirst(second)[i - |IdentifierKeys(f)|];
  }

  lemma TwoIsBraced(f: Fields, g: Gap, second: Fields)
    ensures var two := PrintTwo(f, g, second);
            && BracedObject(two)
            && two[1..|two| - 1] == PrintFields(f) + ("}" + (PrintGap(g) + ("{" + PrintFields(second))))
  {
    hide PrintFields, PrintGap;
    var inside := PrintFields(f) + ("}" + (PrintGap(g) + ("{" + PrintFields(second))));
    assert PrintTwo(f, g, second) == "{" + inside + "}";
  }

  // ---- Inputs ----

  const SHORTHANDS := More(Shorthand(Blank(' ', Nothing), "a", Nothing),
                           Last(Shorthand(Blank(' ', Nothing), "b", Blank(' ', Nothing))))

  const COMMA := Gap(Nothing, true, Blank(' ', Nothing))

  const COMMENT := Gap(Blank(' ', BlockNote(" x ", Blank(' ', Nothing))), false, Nothing)

  /** A comma, or another comment, before the comment that ends in a brace: the key `b` is lost. */
  lemma LostAfterComma()
    ensures ReadCallOptionKeys("({ a, b }, // }\n)", 0) == Readable(["a"])
    ensures ReadCallOptionKeys("({ a, b } /* x */ // }\n)", 0) == Readable(["a"])
  {
    hide ReadCallOptionKeys, PrintGap, GapOk;
    GapsPrinted();
    LostAfter(COMMA, ", ", "({ a, b }, // }\n)");
    LostAfter(COMMENT, " /* x */ ", "({ a, b } /* x */ // }\n)");
  }

  lemma LostAfter(g: Gap, gap: string, whole: string)
    requires GapOk(g) && PrintGap(g) == gap && whole == "({ a, b }" + gap + "// }\n)"
    ensures ReadCallOptionKeys(whole, 0) == Readable(["a"])
  {
    hide ReadCallOptionKeys, PrintCommented, FieldsOk, EndsInShorthand, IdentifierKeys, AllButLast, GapOk, PrintGap,
      LineText, AllSpaces;
    ShorthandsPrinted();
    CommentedPrinted(g, gap);
    assert LineText(" ") by {
      SmallTexts();
    }
    assert AllSpaces("") by {
      SmallTexts();
    }
    BraceInCommentHidesShorthand("", "", SHORTHANDS, g, " ", "", "");
    assert "" + ("(" + ("{ a, b }" + gap + "// }" + ("\n" + "") + (")" + ""))) == whole;
  }

  lemma GapsPrinted()
    ensures GapOk(COMMA) && PrintGap(COMMA) == ", "
    ensures GapOk(COMMENT) && PrintGap(COMMENT) == " /* x */ "
  {
    assert PrintTrivia(COMMENT.first) == " " + (PrintBlock(" x ") + " ");
  }

  lemma CommentedPrinted(g: Gap, gap: string)
    requires PrintGap(g) == gap
    ensures PrintCommented("", SHORTHANDS, g, " ") == "{ a, b }" + gap + "// }"
  {
    hide PrintFields, PrintGap;
    ShorthandsPrinted();
    assert "" + ("{" + " a, b " + ("}" + (gap + ("//" + " "))) + "}") == "{ a, b }" + gap + "// }";
  }

  lemma ShorthandsPrinted()
    ensures FieldsOk(SHORTHANDS) && PrintFields(SHORTHANDS) == " a, b "
    ensures EndsInShorthand(SHORTHANDS) && AllButLast(SHORTHANDS) == ["a"]
  {
    assert PrintEntry(SHORTHANDS.entry) == " a";
    assert PrintEntry(SHORTHANDS.rest.entry) == " b ";
  }

  const WITH_VALUE :=
    Last(Keyed(Blank(' ', Nothing), "a", Nothing, Plain(' ', Plain('1', Plain(' ', End)))))

  const OTHERS := More(Shorthand(Blank(' ', Nothing), "b", Nothing),
                       Last(Shorthand(Blank(' ', Nothing), "c", Blank(' ', Nothing))))

  lemma TwoPrinted()
    ensures FieldsOk(WITH_VALUE) && EndsInValue(WITH_VALUE) && FieldsOk(OTHERS)
    ensures IdentifierKeys(WITH_VALUE) == ["a"] && KeysBeyondFirst(OTHERS) == ["c"]
    ensures PrintTwo(WITH_VALUE, COMMA, OTHERS) == "{ a: 1 }, { b, c }"
  {
    hide EntryOk, PrintFields, PrintGap;
    OthersOk();
    OthersPrinted();
    GapsPrinted();
  }

  lemma OthersPrinted()
    ensures PrintFields(WITH_VALUE) == " a: 1 " && PrintFields(OTHERS) == " b, c "
  {
    assert PrintValue(WITH_VALUE.entry.value) == " 1 ";
    assert PrintEntry(OTHERS.entry) == " b" && PrintEntry(OTHERS.rest.entry) == " c ";
  }

  lemma OthersOk()
    ensures EntryOk(WITH_VALUE.entry) && EntryOk(OTHERS.entry) && EntryOk(OTHERS.rest.entry)
  {
  }

  /** The key `c` of the second argument is reported as one of the first. */
  lemma TakenFromSecondArgument()
    ensures ReadCallOptionKeys("({ a: 1 }, { b, c })", 0) == Readable(["a", "c"])
  {
    hide ReadCallOptionKeys, PrintTwo, FieldsOk, EndsInValue, IdentifierKeys, KeysBeyondFirst, GapOk, AllSpaces;
    TwoPrinted();
    GapsPrinted();
    assert AllSpaces("") by {
      SmallTexts();
    }
    SecondObjectIsReadOn("", "", WITH_VALUE, COMMA, OTHERS, "", "");
    assert "" + ("(" + ("" + "{ a: 1 }, { b, c }" + "" + (")" + ""))) == "({ a: 1 }, { b, c })";
  }

  // ---- Regular expressions ----

  /** Two fields with a slash each, which is how one field with the expression `/,b:/` is taken. */
  const SPLIT := More(Keyed(Blank(' ', Nothing), "a", Nothing, Plain(' ', Slash(End))),
                      Last(Keyed(Nothing, "b", Nothing, Slash(Plain(' ', End)))))

  function RawItems(text: string): seq<StringItem> {
    seq(|text|, i requires 0 <= i < |text| => Raw(text[i]))
  }

  lemma {:induction false} RawItemsPrinted(text: string)
    ensures PrintItems(RawItems(text)) == text
  {
    if text != "" {
      RawItemsPrinted(text[1..]);
      assert RawItems(text)[1..] == RawItems(text[1..]);
    }
  }

  const HIDDEN := "/, b: /"

  /** One field with a string between slashes, which is how two with the expression `/'/` each are taken. */
  const JOINED :=
    Last(Keyed(Blank(' ', Nothing), "a", Nothing,
               Plain(' ', Slash(Quotation('\'', RawItems(HIDDEN), Slash(Plain(' ', End)))))))

  lemma SplitPrinted()
    ensures FieldsOk(SPLIT) && PrintFields(SPLIT) == " a: /,b:/ " && IdentifierKeys(SPLIT) == ["a", "b"]
  {
    assert PrintValue(Plain(' ', Slash(End))) == " /" && PrintValue(Slash(Plain(' ', End))) == "/ ";
    assert PrintEntry(SPLIT.entry) == " a: /" && PrintEntry(SPLIT.rest.entry) == "b:/ ";
  }

  lemma JoinedPrinted()
    ensures FieldsOk(JOINED) && PrintFields(JOINED) == " a: /'/, b: /'/ " && IdentifierKeys(JOINED) == ["a"]
  {
    hide PrintItems, RawItems, ValueOk, PrintValue;
    JoinedValue();
  }

  lemma JoinedValue()
    ensures ValueOk(JOINED.entry.value, true) && PrintValue(JOINED.entry.value) == " /'/, b: /'/ "
  {
    RawItemsPrinted(HIDDEN);
    hide PrintItems, RawItems, Harmless, WellItemized;
    assert PrintQuotation('\'', RawItems(HIDDEN)) == "'/, b: /'";
    HiddenIsPlain();
    var slash := Slash(Plain(' ', End));
    assert PrintValue(slash) == "/ " && ValueOk(slash, true);
    var value := Quotation('\'', RawItems(HIDDEN), slash);
    assert PrintValue(value) == "'/, b: /'/ " && ValueOk(value, true);
    assert PrintValue(Slash(value)) == "/'/, b: /'/ " && ValueOk(Slash(value), true);
  }

  lemma HiddenIsPlain()
    ensures WellItemized('\'', RawItems(HIDDEN))
  {
  }

  lemma AloneReadsBack(f: Fields, fields: string, whole: string)
    requires FieldsOk(f) && PrintFields(f) == fields && whole == "({" + fields + "})"
    ensures ReadCallOptionKeys(whole, 0) == Readable(IdentifierKeys(f))
  {
    hide ReadCallOptionKeys, PrintFields, FieldsOk, IdentifierKeys, AllSpaces;
    SmallTexts();
    PrintedOptionsReadBack("", "", f, "", "");
    assert "" + ("(" + ("" + ("{" + fields + "}") + "" + (")" + ""))) == whole;
  }

  /** An expression with a comma in it makes a key of what follows, and two with a quote each hide what is between. */
  lemma PatternsAreMisread()
    ensures ReadCallOptionKeys("({ a: /,b:/ })", 0) == Readable(["a", "b"])
    ensures ReadCallOptionKeys("({ a: /'/, b: /'/ })", 0) == Readable(["a"])
  {
    hide ReadCallOptionKeys, PrintFields, FieldsOk, IdentifierKeys;
    SplitPrinted();
    JoinedPrinted();
    AloneReadsBack(SPLIT, " a: /,b:/ ", "({ a: /,b:/ })");
    AloneReadsBack(JOINED, " a: /'/, b: /'/ ", "({ a: /'/, b: /'/ })");
  }
}
