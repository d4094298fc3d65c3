/** Options objects printed from a grammar, and what the scanner reads from them. */
module OptionPrinting {
  import opened Text
  import opened Wrappers
  import opened OptionScanner

  // ---- The grammar ----

  /** Blanks and comments, as they may stand around a key. */
  datatype Trivia =
    | Nothing
    | Blank(c: char, rest: Trivia)
    | LineNote(text: string, rest: Trivia)
    | BlockNote(text: string, rest: Trivia)

  datatype StringItem = Raw(c: char) | Escaped(c: char)

  /** An option's value: balanced brackets, strings and templates, comments, and regular expressions. */
  datatype Value =
    | End
    | Plain(c: char, tail: Value)
    | Slash(tail: Value)
    | Comma(tail: Value)
    | LineComment(text: string, tail: Value)
    | BlockComment(text: string, tail: Value)
    | Quotation(quote: char, items: seq<StringItem>, tail: Value)
    | Pattern(body: string, tail: Value)
    | Group(open: char, inner: Value, close: char, tail: Value)

  datatype Entry =
    | Keyed(before: Trivia, key: string, after: Trivia, value: Value)
    | Shorthand(before: Trivia, key: string, after: Trivia)
    | StringKeyed(before: Trivia, quote: char, items: seq<StringItem>, after: Trivia, value: Value)

  /** The inside of the braces; a last comma may be followed by blanks and comments only. */
  datatype Fields = NoMore(end: Trivia) | Last(entry: Entry) | More(entry: Entry, rest: Fields)

  predicate LineText(text: string) {
    forall i :: 0 <= i < |text| ==> text[i] != '\n'
  }

  predicate BlockText(text: string) {
    forall i :: 0 <= i < |text| - 1 ==> !(text[i] == '*' && text[i + 1] == '/')
  }

  predicate IsQuote(c: char) {
    c == '\'' || c == '"' || c == '`'
  }

  /** A character that neither scan treats specially inside a value. */
  predicate IsPlain(c: char) {
    !Opens(c) && !Closes(c) && !IsQuote(c) && c != '/' && c != ','
  }

  /** Text after a slash that does not turn the slash into a comment. */
  predicate AfterSlash(text: string) {
    text == "" || (text[0] != '/' && text[0] != '*')
  }

  predicate WellItemized(quote: char, items: seq<StringItem>) {
    && (forall i :: 0 <= i < |items| ==> items[i].Raw? ==> items[i].c != quote && items[i].c != '\\')
    && (quote == '`' ==> forall i :: 0 <= i < |items| - 1 ==> !(items[i] == Raw('$') && items[i + 1] == Raw('{')))
  }

  predicate TriviaOk(t: Trivia) {
    match t
    case Nothing => true
    case Blank(c, rest) => IsSpace(c) && TriviaOk(rest)
    case LineNote(text, rest) => LineText(text) && TriviaOk(rest)
    case BlockNote(text, rest) => BlockText(text) && TriviaOk(rest)
  }

  /**
   A text that the scans, which know no regular expressions, take for code in
   which strings and comments end, brackets balance, and no comma stands outside
   brackets where `top` forbids it.
  */
  predicate Harmless(text: string, state: ScanState, depth: nat, top: bool)
    decreases |text|
  {
    if text == "" then state.Code? && depth == 0
    else
      var l, after := Lex(text, state), depth + Turn(text, state);
      && !Interpolates(text, state) && l.used <= |text| && after >= 0
      && !(top && depth == 0 && state.Code? && text[0] == ',')
      && Harmless(text[l.used..], l.state, after, top)
  }

  /** Commas stand inside brackets only. */
  predicate ValueOk(v: Value, top: bool) {
    match v
    case End => true
    case Plain(c, tail) => IsPlain(c) && ValueOk(tail, top)
    case Slash(tail) => AfterSlash(PrintValue(tail)) && ValueOk(tail, top)
    case Comma(tail) => !top && ValueOk(tail, top)
    case LineComment(text, tail) => LineText(text) && ValueOk(tail, top)
    case BlockComment(text, tail) => BlockText(text) && ValueOk(tail, top)
    case Quotation(quote, items, tail) => IsQuote(quote) && WellItemized(quote, items) && ValueOk(tail, top)
    case Pattern(body, tail) =>
      AfterSlash(PrintValue(tail)) && Harmless(PrintPattern(body), Code, 0, top) && ValueOk(tail, top)
    case Group(open, inner, close, tail) =>
      Opens(open) && Closes(close) && ValueOk(inner, false) && ValueOk(tail, top)
  }

  predicate EntryOk(e: Entry) {
    && TriviaOk(e.before) && TriviaOk(e.after)
    && (if e.StringKeyed? then IsQuote(e.quote) && WellItemized(e.quote, e.items) else IsIdentifier(e.key))
    && (!e.Shorthand? ==> ValueOk(e.value, true))
  }

  predicate FieldsOk(f: Fields) {
    match f
    case NoMore(end) => TriviaOk(end)
    case Last(entry) => EntryOk(entry)
    case More(entry, rest) => EntryOk(entry) && FieldsOk(rest)
  }

  function PrintTrivia(t: Trivia): string {
    match t
    case Nothing => ""
    case Blank(c, rest) => [c] + PrintTrivia(rest)
    case LineNote(text, rest) => PrintLine(text) + PrintTrivia(rest)
    case BlockNote(text, rest) => PrintBlock(text) + PrintTrivia(rest)
  }

  function PrintLine(text: string): string {
    "//" + (text + "\n")
  }

  function PrintBlock(text: string): string {
    "/*" + (text + "*/")
  }

  function PrintItems(items: seq<StringItem>): string {
    if items == [] then ""
    else (if items[0].Raw? then [items[0].c] else ['\\', items[0].c]) + PrintItems(items[1..])
  }

  function PrintQuotation(quote: char, items: seq<StringItem>): string {
    [quote] + (PrintItems(items) + [quote])
  }

  function PrintPattern(body: string): string {
    "/" + (body + "/")
  }

  function PrintValue(v: Value): string {
    match v
    case End => ""
    case Plain(c, tail) => [c] + PrintValue(tail)
    case Slash(tail) => "/" + PrintValue(tail)
    case Comma(tail) => "," + PrintValue(tail)
    case LineComment(text, tail) => PrintLine(text) + PrintValue(tail)
    case BlockComment(text, tail) => PrintBlock(text) + PrintValue(tail)
    case Quotation(quote, items, tail) => PrintQuotation(quote, items) + PrintValue(tail)
    case Pattern(body, tail) => PrintPattern(body) + PrintValue(tail)
    case Group(open, inner, close, tail) => [open] + (PrintValue(inner) + ([close] + PrintValue(tail)))
  }

  function PrintKey(e: Entry): string {
    if e.StringKeyed? then PrintQuotation(e.quote, e.items) else e.key
  }

  function PrintEntry(e: Entry): string {
    PrintTrivia(e.before)
    + (PrintKey(e) + (PrintTrivia(e.after) + if e.Shorthand? then "" else ":" + PrintValue(e.value)))
  }

  function PrintFields(f: Fields): string {
    match f
    case NoMore(end) => PrintTrivia(end)
    case Last(entry) => PrintEntry(entry)
    case More(entry, rest) => PrintEntry(entry) + ("," + PrintFields(rest))
  }

  function NameOf(e: Entry): string {
    if e.StringKeyed? then seq(|e.items|, i requires 0 <= i < |e.items| => e.items[i].c) else e.key
  }

  /** All keys of the object. */
  function KeysOf(f: Fields): seq<string> {
    match f
    case NoMore(_) => []
    case Last(entry) => [NameOf(entry)]
    case More(entry, rest) => [NameOf(entry)] + KeysOf(rest)
  }

  /** The keys written as identifiers. */
  function IdentifierKeys(f: Fields): seq<string> {
    match f
    case NoMore(_) => []
    case Last(entry) => IdentifierKey(entry)
    case More(entry, rest) => IdentifierKey(entry) + IdentifierKeys(rest)
  }

  function IdentifierKey(e: Entry): seq<string> {
    if e.StringKeyed? then [] else [e.key]
  }

  predicate NoStringKey(f: Fields) {
    match f
    case NoMore(_) => true
    case Last(entry) => !entry.StringKeyed?
    case More(entry, rest) => !entry.StringKeyed? && NoStringKey(rest)
  }

  // ---- Strings and comments, for both scans ----

  /** How far the text stays outside code. */
  function NonCode(text: string, state: ScanState): Option<nat>
    decreases |text|
  {
    if state.Code? then Some(0)
    else if text == "" || Interpolates(text, state) then None
    else
      var l := Lex(text, state);
      Later(l.used, NonCode(From(text, l.used), l.state))
  }

  lemma OuterUnfolds(text: string, state: ScanState, depth: int)
    requires text != "" && Outer(text, state, depth).Onward?
    ensures var m := Outer(text, state, depth);
            CloseIndex(text, state, depth) == Later(m.used, CloseIndex(From(text, m.used), m.state, m.depth))
  {
    hide Outer;
  }

  lemma NonCodeMove(text: string, state: ScanState, depth: int)
    requires text != "" && !state.Code? && !Interpolates(text, state)
    ensures Outer(text, state, depth) == Onward(Lex(text, state).state, depth, Lex(text, state).used)
  {
  }

  lemma {:induction false} OuterSkips(text: string, state: ScanState, depth: int, n: nat)
    requires NonCode(text, state) == Some(n)
    ensures CloseIndex(text, state, depth) == Later(n, CloseIndex(From(text, n), Code, depth))
    decreases n
  {
    hide Lex, Outer, Interpolates, CloseIndex, From;
    if !state.Code? {
      var l := Lex(text, state);
      NonCodeMove(text, state, depth);
      OuterUnfolds(text, state, depth);
      OuterSkips(From(text, l.used), l.state, depth, n - l.used);
      FromFrom(text, l.used, n - l.used);
    } else {
      AtCode(text);
    }
  }

  lemma {:induction false} InnerSkips(text: string, s: InnerState, n: nat)
    requires NonCode(text, s.state) == Some(n)
    ensures Collect(text, s) == Collect(From(text, n), s.(state := Code))
    decreases |text|
  {
    hide Lex, Flushed;
    if !s.state.Code? {
      var l := Lex(text, s.state);
      InnerSkips(From(text, l.used), s.(state := l.state), n - l.used);
      assert From(From(text, l.used), n - l.used) == From(text, n);
    } else {
      assert From(text, 0) == text;
    }
  }

  lemma {:induction false} LineEnds(text: string, rest: string)
    requires LineText(text)
    ensures NonCode(text + "\n" + rest, Line) == Some(|text| + 1)
    decreases |text|
  {
    var whole := text + "\n" + rest;
    if text == "" {
      assert From(whole, 1) == rest;
    } else {
      LineEnds(text[1..], rest);
      assert From(whole, 1) == text[1..] + "\n" + rest;
    }
  }

  lemma {:induction false} BlockEnds(text: string, rest: string)
    requires BlockText(text)
    ensures NonCode(text + "*/" + rest, Block) == Some(|text| + 2)
    decreases |text|
  {
    var whole := text + "*/" + rest;
    if text == "" {
      assert From(whole, 2) == rest;
    } else {
      BlockEnds(text[1..], rest);
      assert From(whole, 1) == text[1..] + "*/" + rest;
      assert |text| > 1 ==> whole[1] == text[1];
    }
  }

  function StateOf(quote: char): ScanState
    requires IsQuote(quote)
  {
    if quote == '\'' then Single else if quote == '"' then Double else Template
  }

  lemma NonCodeUnfolds(text: string, state: ScanState, used: nat, next: ScanState)
    requires text != "" && !state.Code? && !Interpolates(text, state)
    requires Lex(text, state) == Lexed(next, used)
    ensures NonCode(text, state) == Later(used, NonCode(From(text, used), next))
  {
    hide Lex;
  }

  lemma {:induction false} ItemsEnd(quote: char, items: seq<StringItem>, rest: string)
    requires IsQuote(quote) && WellItemized(quote, items)
    ensures NonCode(PrintItems(items) + [quote] + rest, StateOf(quote)) == Some(|PrintItems(items)| + 1)
    decreases |items|
  {
    hide NonCode;
    var whole := PrintItems(items) + [quote] + rest;
    if items == [] {
      NonCodeUnfolds(whole, StateOf(quote), 1, Code);
      assert NonCode(From(whole, 1), Code) == Some(0) by {
        AtCode(From(whole, 1));
      }
    } else {
      ItemsEnd(quote, items[1..], rest);
      var later := PrintItems(items[1..]) + [quote] + rest;
      if items[0].Raw? {
        assert whole == [items[0].c] + later;
        NoInterpolation(quote, items, rest);
        NonCodeUnfolds(whole, StateOf(quote), 1, StateOf(quote));
        assert From(whole, 1) == later;
      } else {
        assert whole == ['\\', items[0].c] + later;
        NonCodeUnfolds(whole, StateOf(quote), 2, StateOf(quote));
        assert From(whole, 2) == later;
      }
    }
  }

  lemma AtCode(text: string)
    ensures NonCode(text, Code) == Some(0) && From(text, 0) == text
  {
  }

  lemma NoInterpolation(quote: char, items: seq<StringItem>, rest: string)
    requires IsQuote(quote) && WellItemized(quote, items) && items != [] && items[0].Raw?
    ensures !Interpolates(PrintItems(items) + [quote] + rest, StateOf(quote))
  {
    var later := PrintItems(items[1..]) + [quote] + rest;
    assert PrintItems(items) + [quote] + rest == [items[0].c] + later;
    if |items| > 1 {
      assert later[0] == if items[1].Raw? then items[1].c else '\\';
    } else {
      assert later[0] == quote;
    }
  }

  /** A string or comment at the head of a text: both scans read over it as a whole. */
  ghost predicate Passes(element: string, rest: string) {
    && element != "" && OpensNonCode(element + rest).Some?
    && var l := Lex(element + rest, Code);
       l.used <= |element| && NonCode(From(element + rest, l.used), l.state) == Some(|element| - l.used)
  }

  lemma LinePasses(text: string, rest: string)
    requires LineText(text)
    ensures Passes(PrintLine(text), rest)
  {
    LineEnds(text, rest);
    assert From(PrintLine(text) + rest, 2) == text + "\n" + rest;
  }

  lemma BlockPasses(text: string, rest: string)
    requires BlockText(text)
    ensures Passes(PrintBlock(text), rest)
  {
    BlockEnds(text, rest);
    assert From(PrintBlock(text) + rest, 2) == text + "*/" + rest;
  }

  lemma QuotationPasses(quote: char, items: seq<StringItem>, rest: string)
    requires IsQuote(quote) && WellItemized(quote, items)
    ensures Passes(PrintQuotation(quote, items), rest)
  {
    hide NonCode, PrintItems, WellItemized;
    ItemsEnd(quote, items, rest);
    assert From(PrintQuotation(quote, items) + rest, 1) == PrintItems(items) + [quote] + rest;
  }

  lemma OuterPasses(element: string, rest: string, depth: nat)
    requires Passes(element, rest)
    ensures CloseIndex(element + rest, Code, depth) == Later(|element|, CloseIndex(rest, Code, depth))
  {
    hide NonCode, CloseIndex;
    var l := Lex(element + rest, Code);
    assert Outer(element + rest, Code, depth) == Onward(l.state, depth, l.used);
    OuterUnfolds(element + rest, Code, depth);
    OuterSkips(From(element + rest, l.used), l.state, depth, |element| - l.used);
    assert From(From(element + rest, l.used), |element| - l.used) == rest;
  }

  lemma InnerPasses(element: string, rest: string, s: InnerState)
    requires Passes(element, rest) && s.state.Code?
    ensures Collect(element + rest, s) == Collect(rest, s)
  {
    hide NonCode, Flushed;
    var l := Lex(element + rest, Code);
    assert Inner(element + rest, s) == s.(state := l.state);
    InnerSkips(From(element + rest, l.used), s.(state := l.state), |element| - l.used);
    assert From(From(element + rest, l.used), |element| - l.used) == rest;
  }

  // ---- Single characters of code ----

  /** A character that is not the start of a string or comment. */
  lemma OuterChar(c: char, rest: string, depth: nat)
    requires depth >= 1 && !IsQuote(c) && (c == '/' ==> AfterSlash(rest))
    requires !(Closes(c) && depth == 1)
    ensures CloseIndex([c] + rest, Code, depth)
         == Later(1, CloseIndex(rest, Code, if Opens(c) then depth + 1 else if Closes(c) then depth - 1 else depth))
  {
    var after := if Opens(c) then depth + 1 else if Closes(c) then depth - 1 else depth;
    assert Outer([c] + rest, Code, depth) == Onward(Code, after, 1);
    assert From([c] + rest, 1) == rest;
  }

  lemma InnerChar(c: char, rest: string, s: InnerState)
    requires s.state.Code? && !IsQuote(c) && (c == '/' ==> AfterSlash(rest))
    ensures Collect([c] + rest, s) == Collect(rest, Inner([c], s))
  {
    hide Flushed;
    assert Lex([c] + rest, Code) == Lexed(Code, 1) == Lex([c], Code);
    assert Inner([c] + rest, s) == Inner([c], s);
    assert From([c] + rest, 1) == rest;
  }

  // ---- Regular expressions ----

  /** What follows a harmless text changes none of the moves in it. */
  lemma HarmlessMove(text: string, rest: string, state: ScanState, depth: nat, top: bool)
    requires text != "" && Harmless(text, state, depth, top) && AfterSlash(rest)
    ensures Lex(text + rest, state) == Lex(text, state) && Turn(text + rest, state) == Turn(text, state)
    ensures Interpolates(text + rest, state) == Interpolates(text, state)
    ensures From(text + rest, Lex(text, state).used) == text[Lex(text, state).used..] + rest
  {
    assert (text + rest)[0] == text[0];
    assert |text| > 1 ==> (text + rest)[1] == text[1];
    if |text| == 1 {
      assert (text + rest)[1..] == rest;
      assert Harmless("", Lex(text, state).state, depth + Turn(text, state), top);
    }
  }

  lemma {:induction false} OuterHarmless(
    text: string, rest: string, state: ScanState, depth: nat, outside: nat, top: bool)
    requires Harmless(text, state, depth, top) && AfterSlash(rest) && outside >= 1
    ensures CloseIndex(text + rest, state, outside + depth) == Later(|text|, CloseIndex(rest, Code, outside))
    decreases |text|
  {
    hide CloseIndex, Lex, Turn, Interpolates, AfterSlash;
    if text == "" {
      assert text + rest == rest;
    } else {
      var l, after := Lex(text, state), depth + Turn(text, state);
      HarmlessMove(text, rest, state, depth, top);
      OuterHarmless(text[l.used..], rest, l.state, after, outside, top);
      assert Outer(text + rest, state, outside + depth) == Onward(l.state, outside + after, l.used);
      OuterUnfolds(text + rest, state, outside + depth);
    }
  }

  lemma {:induction false} InnerHarmless(text: string, rest: string, depth: nat, top: bool, s: InnerState)
    requires Harmless(text, s.state, depth, top) && AfterSlash(rest) && s.inValue
    requires if top then s.depth == depth else s.depth > depth
    ensures Collect(text + rest, s) == Collect(rest, s.(state := Code, depth := s.depth - depth))
    decreases |text|
  {
    hide Collect, Lex, Turn, Interpolates, AfterSlash;
    if text == "" {
      assert text + rest == rest;
    } else {
      var l, after := Lex(text, s.state), depth + Turn(text, s.state);
      var next := s.(state := l.state, depth := s.depth + Turn(text, s.state));
      HarmlessMove(text, rest, s.state, depth, top);
      InnerHarmless(text[l.used..], rest, after, top, next);
      InnerInValue(text + rest, s);
    }
  }

  /** In a value the inner scan only counts brackets, commas at depth 0 apart. */
  lemma InnerInValue(text: string, s: InnerState)
    requires text != "" && s.inValue && (s.state.Code? && s.depth == 0 ==> text[0] != ',')
    ensures Collect(text, s)
         == Collect(From(text, Lex(text, s.state).used),
                    s.(state := Lex(text, s.state).state, depth := s.depth + Turn(text, s.state)))
  {
    hide Lex, Turn, Flushed;
  }

  // ---- Values ----

  lemma {:induction false} OuterValue(v: Value, top: bool, rest: string, depth: nat)
    requires ValueOk(v, top) && AfterSlash(rest) && depth >= 1
    ensures CloseIndex(PrintValue(v) + rest, Code, depth) == Later(|PrintValue(v)|, CloseIndex(rest, Code, depth))
  {
    hide CloseIndex, Passes, Outer, Harmless;
    match v
    case End =>
      assert "" + rest == rest;
    case Plain(c, tail) =>
      OuterValue(tail, top, rest, depth);
      OuterPlain(c, PrintValue(tail), rest, depth);
    case Slash(tail) =>
      OuterValue(tail, top, rest, depth);
      assert AfterSlash(PrintValue(tail) + rest);
      OuterPlain('/', PrintValue(tail), rest, depth);
    case Comma(tail) =>
      OuterValue(tail, top, rest, depth);
      OuterPlain(',', PrintValue(tail), rest, depth);
    case LineComment(text, tail) =>
      OuterValue(tail, top, rest, depth);
      LinePasses(text, PrintValue(tail) + rest);
      OuterElement(PrintLine(text), tail, rest, depth);
    case BlockComment(text, tail) =>
      OuterValue(tail, top, rest, depth);
      BlockPasses(text, PrintValue(tail) + rest);
      OuterElement(PrintBlock(text), tail, rest, depth);
    case Quotation(quote, items, tail) =>
      OuterValue(tail, top, rest, depth);
      QuotationPasses(quote, items, PrintValue(tail) + rest);
      OuterElement(PrintQuotation(quote, items), tail, rest, depth);
    case Pattern(body, tail) =>
      OuterValue(tail, top, rest, depth);
      OuterHarmless(PrintPattern(body), PrintValue(tail) + rest, Code, 0, depth, top);
      assert PrintPattern(body) + PrintValue(tail) + rest == PrintPattern(body) + (PrintValue(tail) + rest);
    case Group(open, inner, close, tail) =>
      OuterValue(tail, top, rest, depth);
      OuterValue(inner, false, [close] + (PrintValue(tail) + rest), depth + 1);
      OuterGroup(open, PrintValue(inner), close, PrintValue(tail), rest, depth);
  }

  lemma OuterPlain(c: char, tail: string, rest: string, depth: nat)
    requires depth >= 1 && (IsPlain(c) || c == ',' || (c == '/' && AfterSlash(tail + rest)))
    requires CloseIndex(tail + rest, Code, depth) == Later(|tail|, CloseIndex(rest, Code, depth))
    ensures CloseIndex([c] + tail + rest, Code, depth) == Later(|[c] + tail|, CloseIndex(rest, Code, depth))
  {
    hide CloseIndex, Outer;
    OuterChar(c, tail + rest, depth);
    assert [c] + tail + rest == [c] + (tail + rest);
  }

  lemma Regroup(open: char, inner: string, close: char, tail: string, rest: string)
    ensures [open] + (inner + ([close] + tail)) + rest == [open] + (inner + ([close] + (tail + rest)))
  {
    var group := [close] + tail;
    assert group + rest == [close] + (tail + rest);
    assert (inner + group) + rest == inner + (group + rest);
    assert ([open] + (inner + group)) + rest == [open] + ((inner + group) + rest);
  }

  lemma OuterGroup(open: char, inner: string, close: char, tail: string, rest: string, depth: nat)
    requires Opens(open) && Closes(close) && depth >= 1
    requires CloseIndex(tail + rest, Code, depth) == Later(|tail|, CloseIndex(rest, Code, depth))
    requires var after := [close] + (tail + rest);
             CloseIndex(inner + after, Code, depth + 1) == Later(|inner|, CloseIndex(after, Code, depth + 1))
    ensures var group := [open] + (inner + ([close] + tail));
            CloseIndex(group + rest, Code, depth) == Later(|group|, CloseIndex(rest, Code, depth))
  {
    hide CloseIndex, Outer;
    var after := [close] + (tail + rest);
    OuterChar(close, tail + rest, depth + 1);
    OuterChar(open, inner + after, depth);
    Regroup(open, inner, close, tail, rest);
  }

  lemma OuterElement(element: string, tail: Value, rest: string, depth: nat)
    requires Passes(element, PrintValue(tail) + rest)
    requires CloseIndex(PrintValue(tail) + rest, Code, depth)
          == Later(|PrintValue(tail)|, CloseIndex(rest, Code, depth))
    ensures CloseIndex(element + PrintValue(tail) + rest, Code, depth)
         == Later(|element + PrintValue(tail)|, CloseIndex(rest, Code, depth))
  {
    hide CloseIndex, Passes;
    OuterPasses(element, PrintValue(tail) + rest, depth);
    assert element + PrintValue(tail) + rest == element + (PrintValue(tail) + rest);
  }

  /** Inside a value the inner scan changes nothing but the depth. */
  lemma {:induction false} InnerValue(v: Value, top: bool, rest: string, s: InnerState)
    requires ValueOk(v, top) && AfterSlash(rest)
    requires s.state.Code? && s.inValue && (top ==> s.depth == 0) && (!top ==> s.depth > 0)
    ensures Collect(PrintValue(v) + rest, s) == Collect(rest, s)
  {
    hide Collect, Passes, Flushed, Inner, Harmless;
    match v
    case End =>
      assert "" + rest == rest;
    case Plain(c, tail) =>
      InnerValue(tail, top, rest, s);
      InnerPlain(c, PrintValue(tail), rest, s);
    case Slash(tail) =>
      InnerValue(tail, top, rest, s);
      assert AfterSlash(PrintValue(tail) + rest);
      InnerPlain('/', PrintValue(tail), rest, s);
    case Comma(tail) =>
      InnerValue(tail, top, rest, s);
      InnerPlain(',', PrintValue(tail), rest, s);
    case LineComment(text, tail) =>
      InnerValue(tail, top, rest, s);
      LinePasses(text, PrintValue(tail) + rest);
      InnerElement(PrintLine(text), PrintValue(tail), rest, s);
    case BlockComment(text, tail) =>
      InnerValue(tail, top, rest, s);
      BlockPasses(text, PrintValue(tail) + rest);
      InnerElement(PrintBlock(text), PrintValue(tail), rest, s);
    case Quotation(quote, items, tail) =>
      InnerValue(tail, top, rest, s);
      QuotationPasses(quote, items, PrintValue(tail) + rest);
      InnerElement(PrintQuotation(quote, items), PrintValue(tail), rest, s);
    case Pattern(body, tail) =>
      InnerValue(tail, top, rest, s);
      InnerHarmless(PrintPattern(body), PrintValue(tail) + rest, 0, top, s);
      assert PrintPattern(body) + PrintValue(tail) + rest == PrintPattern(body) + (PrintValue(tail) + rest);
    case Group(open, inner, close, tail) =>
      InnerValue(tail, top, rest, s);
      InnerValue(inner, false, [close] + (PrintValue(tail) + rest), s.(depth := s.depth + 1));
      InnerGroup(open, PrintValue(inner), close, PrintValue(tail), rest, s);
  }

  lemma InnerPlain(c: char, tail: string, rest: string, s: InnerState)
    requires s.state.Code? && s.inValue && s.depth >= 0
    requires IsPlain(c) || (c == ',' && s.depth > 0) || (c == '/' && AfterSlash(tail + rest))
    ensures Collect([c] + tail + rest, s) == Collect(tail + rest, s)
  {
    hide Collect, Flushed;
    InnerChar(c, tail + rest, s);
    assert [c] + tail + rest == [c] + (tail + rest);
  }

  lemma InnerBracket(c: char, s: InnerState)
    requires (Opens(c) || Closes(c)) && s.state.Code? && s.inValue
    ensures Inner([c], s) == s.(depth := s.depth + if Opens(c) then 1 else -1)
  {
  }

  lemma InnerGroup(open: char, inner: string, close: char, tail: string, rest: string, s: InnerState)
    requires Opens(open) && Closes(close) && s.state.Code? && s.inValue
    requires var deeper := s.(depth := s.depth + 1);
             Collect(inner + ([close] + (tail + rest)), deeper) == Collect([close] + (tail + rest), deeper)
    ensures Collect([open] + (inner + ([close] + tail)) + rest, s) == Collect(tail + rest, s)
  {
    hide Collect, Inner;
    var after := [close] + (tail + rest);
    InnerBracket(open, s);
    InnerBracket(close, s.(depth := s.depth + 1));
    InnerChar(close, tail + rest, s.(depth := s.depth + 1));
    InnerChar(open, inner + after, s);
    Regroup(open, inner, close, tail, rest);
  }

  lemma InnerElement(element: string, tail: string, rest: string, s: InnerState)
    requires Passes(element, tail + rest) && s.state.Code?
    ensures Collect(element + tail + rest, s) == Collect(tail + rest, s)
  {
    hide Collect, Passes;
    InnerPasses(element, tail + rest, s);
    assert element + tail + rest == element + (tail + rest);
  }

  // ---- Entries ----

  /** The blanks of a piece of trivia, which is what the inner scan adds to its token. */
  function BlanksOf(t: Trivia): (s: string)
    requires TriviaOk(t)
    ensures AllSpaces(s)
  {
    match t
    case Nothing => ""
    case Blank(c, rest) => [c] + BlanksOf(rest)
    case LineNote(_, rest) => BlanksOf(rest)
    case BlockNote(_, rest) => BlanksOf(rest)
  }

  /** Characters that go into the inner scan's token as they are. */
  predicate IsTokenChar(c: char) {
    !Opens(c) && !Closes(c) && !IsQuote(c) && c != '/' && c != ',' && c != ':'
  }

  lemma SpacesAndIdentifiersAreTokens(c: char)
    requires IsSpace(c) || ContinuesIdentifier(c)
    ensures IsTokenChar(c) && (ContinuesIdentifier(c) ==> !IsSpace(c))
  {
  }

  lemma {:induction false} OuterTrivia(t: Trivia, rest: string, depth: nat)
    requires TriviaOk(t) && depth >= 1
    ensures CloseIndex(PrintTrivia(t) + rest, Code, depth) == Later(|PrintTrivia(t)|, CloseIndex(rest, Code, depth))
  {
    hide CloseIndex, Passes, Outer, IsSpace;
    match t
    case Nothing =>
      assert "" + rest == rest;
    case Blank(c, tail) =>
      OuterTrivia(tail, rest, depth);
      SpacesAndIdentifiersAreTokens(c);
      OuterPlain(c, PrintTrivia(tail), rest, depth);
    case LineNote(text, tail) =>
      OuterTrivia(tail, rest, depth);
      LinePasses(text, PrintTrivia(tail) + rest);
      OuterNote(PrintLine(text), PrintTrivia(tail), rest, depth);
    case BlockNote(text, tail) =>
      OuterTrivia(tail, rest, depth);
      BlockPasses(text, PrintTrivia(tail) + rest);
      OuterNote(PrintBlock(text), PrintTrivia(tail), rest, depth);
  }

  lemma OuterNote(element: string, tail: string, rest: string, depth: nat)
    requires Passes(element, tail + rest)
    requires CloseIndex(tail + rest, Code, depth) == Later(|tail|, CloseIndex(rest, Code, depth))
    ensures CloseIndex(element + tail + rest, Code, depth) == Later(|element + tail|, CloseIndex(rest, Code, depth))
  {
    hide CloseIndex, Passes;
    OuterPasses(element, tail + rest, depth);
    assert element + tail + rest == element + (tail + rest);
  }

  lemma {:induction false} InnerTrivia(t: Trivia, rest: string, s: InnerState)
    requires TriviaOk(t) && s.state.Code? && !s.inValue
    ensures Collect(PrintTrivia(t) + rest, s) == Collect(rest, s.(token := s.token + BlanksOf(t)))
  {
    hide Collect, Passes, Inner, IsSpace;
    match t
    case Nothing =>
      assert "" + rest == rest && s.token + "" == s.token;
    case Blank(c, tail) =>
      SpacesAndIdentifiersAreTokens(c);
      InnerToken(c, PrintTrivia(tail), rest, s);
      InnerTrivia(tail, rest, s.(token := s.token + [c]));
      assert s.token + [c] + BlanksOf(tail) == s.token + BlanksOf(t);
    case LineNote(text, tail) =>
      LinePasses(text, PrintTrivia(tail) + rest);
      InnerElement(PrintLine(text), PrintTrivia(tail), rest, s);
      InnerTrivia(tail, rest, s);
    case BlockNote(text, tail) =>
      BlockPasses(text, PrintTrivia(tail) + rest);
      InnerElement(PrintBlock(text), PrintTrivia(tail), rest, s);
      InnerTrivia(tail, rest, s);
  }

  lemma InnerToken(c: char, tail: string, rest: string, s: InnerState)
    requires IsTokenChar(c) && s.state.Code? && !s.inValue
    ensures Collect([c] + tail + rest, s) == Collect(tail + rest, s.(token := s.token + [c]))
  {
    hide Collect, Flushed;
    InnerChar(c, tail + rest, s);
    assert [c] + tail + rest == [c] + (tail + rest);
  }

  lemma {:induction false} OuterKey(key: string, rest: string, depth: nat)
    requires depth >= 1 && forall i :: 0 <= i < |key| ==> ContinuesIdentifier(key[i])
    ensures CloseIndex(key + rest, Code, depth) == Later(|key|, CloseIndex(rest, Code, depth))
    decreases |key|
  {
    hide CloseIndex, Outer, ContinuesIdentifier;
    if key == "" {
      assert key + rest == rest;
    } else {
      OuterKey(key[1..], rest, depth);
      SpacesAndIdentifiersAreTokens(key[0]);
      OuterPlain(key[0], key[1..], rest, depth);
      assert [key[0]] + key[1..] == key;
    }
  }

  lemma {:induction false} InnerKey(key: string, rest: string, s: InnerState)
    requires s.state.Code? && !s.inValue && forall i :: 0 <= i < |key| ==> ContinuesIdentifier(key[i])
    ensures Collect(key + rest, s) == Collect(rest, s.(token := s.token + key))
    decreases |key|
  {
    hide Collect, Inner, ContinuesIdentifier;
    if key == "" {
      assert key + rest == rest && s.token + key == s.token;
    } else {
      SpacesAndIdentifiersAreTokens(key[0]);
      InnerToken(key[0], key[1..], rest, s);
      InnerKey(key[1..], rest, s.(token := s.token + [key[0]]));
      assert [key[0]] + key[1..] == key;
      assert s.token + [key[0]] + key[1..] == s.token + key;
    }
  }

  /** The state between two entries. */
  function Between(keys: seq<string>): InnerState {
    InnerState(Code, 0, false, "", keys)
  }

  /** The state at the end of an entry, before the comma or the closing brace. */
  function AfterEntry(e: Entry, keys: seq<string>): InnerState
    requires EntryOk(e)
  {
    if e.Shorthand? then InnerState(Code, 0, false, TokenOf(e), keys)
    else InnerState(Code, 0, true, "", keys + IdentifierKey(e))
  }

  /** The inner scan's token where the key ends: the characters of a quoted key are not in it. */
  function TokenOf(e: Entry): string
    requires EntryOk(e)
  {
    BlanksOf(e.before) + (if e.StringKeyed? then "" else e.key) + BlanksOf(e.after)
  }

  lemma NameOfToken(e: Entry)
    requires EntryOk(e)
    ensures Trim(TokenOf(e)) == if e.StringKeyed? then "" else e.key
    ensures !e.StringKeyed? ==> e.key != ""
  {
    hide Trim, IsSpace, BlanksOf;
    if e.StringKeyed? {
      TrimPadded(BlanksOf(e.before), "", BlanksOf(e.after));
    } else {
      SpacesAndIdentifiersAreTokens(e.key[0]);
      SpacesAndIdentifiersAreTokens(e.key[|e.key| - 1]);
      TrimPadded(BlanksOf(e.before), e.key, BlanksOf(e.after));
    }
  }

  lemma InnerColon(rest: string, s: InnerState)
    requires s.state.Code? && s.depth == 0 && !s.inValue
    ensures Collect(":" + rest, s) == Collect(rest, Flushed(s).(inValue := true))
  {
    hide Collect, Trim;
    InnerChar(':', rest, s);
  }

  lemma InnerComma(rest: string, s: InnerState)
    requires s.state.Code? && s.depth == 0
    ensures Collect("," + rest, s)
         == Collect(rest, if s.inValue then s.(inValue := false, token := "") else Flushed(s))
  {
    hide Collect, Trim;
    InnerChar(',', rest, s);
  }

  /** The key itself, in the inner scan. */
  lemma InnerKeyText(e: Entry, rest: string, s: InnerState)
    requires EntryOk(e) && s.state.Code? && !s.inValue
    ensures Collect(PrintKey(e) + rest, s)
         == Collect(rest, s.(token := s.token + if e.StringKeyed? then "" else e.key))
  {
    hide Collect, Passes, TriviaOk, ValueOk, Inner, ContinuesIdentifier;
    if e.StringKeyed? {
      QuotationPasses(e.quote, e.items, rest);
      InnerPasses(PrintKey(e), rest, s);
      assert s.token + "" == s.token;
    } else {
      InnerKey(e.key, rest, s);
    }
  }

  lemma InnerEntry(e: Entry, rest: string, keys: seq<string>)
    requires EntryOk(e) && AfterSlash(rest)
    ensures Collect(PrintEntry(e) + rest, Between(keys)) == Collect(rest, AfterEntry(e, keys))
  {
    hide Collect, Trim, BlanksOf, IsSpace, ValueOk, PrintTrivia, PrintValue, TriviaOk, AfterSlash, PrintKey;
    var value := if e.Shorthand? then "" else ":" + PrintValue(e.value);
    var s := Between(keys);
    var key := PrintTrivia(e.after) + (value + rest);
    var name := if e.StringKeyed? then "" else e.key;
    InnerTrivia(e.before, PrintKey(e) + key, s);
    InnerKeyText(e, key, s.(token := "" + BlanksOf(e.before)));
    var token := "" + BlanksOf(e.before) + name;
    InnerTrivia(e.after, value + rest, s.(token := token));
    assert token + BlanksOf(e.after) == TokenOf(e);
    assert PrintEntry(e) + rest == PrintTrivia(e.before) + (PrintKey(e) + key);
    if e.Shorthand? {
      assert value + rest == rest;
    } else {
      NameOfToken(e);
      InnerColon(PrintValue(e.value) + rest, s.(token := TokenOf(e)));
      assert Flushed(s.(token := TokenOf(e))).(inValue := true) == AfterEntry(e, keys) by {
        assert keys + [] == keys;
      }
      InnerValue(e.value, true, rest, AfterEntry(e, keys));
      assert value + rest == ":" + (PrintValue(e.value) + rest);
    }
  }

  lemma OuterKeyText(e: Entry, rest: string, depth: nat)
    requires EntryOk(e) && depth >= 1
    ensures CloseIndex(PrintKey(e) + rest, Code, depth) == Later(|PrintKey(e)|, CloseIndex(rest, Code, depth))
  {
    hide CloseIndex, Passes, TriviaOk, ValueOk, ContinuesIdentifier;
    if e.StringKeyed? {
      QuotationPasses(e.quote, e.items, rest);
      OuterPasses(PrintKey(e), rest, depth);
    } else {
      OuterKey(e.key, rest, depth);
    }
  }

  lemma OuterEntry(e: Entry, rest: string, depth: nat)
    requires EntryOk(e) && AfterSlash(rest) && depth >= 1
    ensures CloseIndex(PrintEntry(e) + rest, Code, depth) == Later(|PrintEntry(e)|, CloseIndex(rest, Code, depth))
  {
    hide CloseIndex, Outer, IsSpace, ValueOk, PrintTrivia, PrintValue, TriviaOk, AfterSlash, PrintKey, IsIdentifier,
      WellItemized;
    var value := if e.Shorthand? then "" else ":" + PrintValue(e.value);
    var key := PrintTrivia(e.after) + (value + rest);
    if e.Shorthand? {
      assert value + rest == rest;
    } else {
      OuterValue(e.value, true, rest, depth);
      OuterPlain(':', PrintValue(e.value), rest, depth);
    }
    OuterTrivia(e.after, value + rest, depth);
    OuterKeyText(e, key, depth);
    OuterTrivia(e.before, PrintKey(e) + key, depth);
    EntryText(PrintTrivia(e.before), PrintKey(e), PrintTrivia(e.after), value, rest);
  }

  lemma EntryText(before: string, key: string, after: string, value: string, rest: string)
    ensures before + (key + (after + value)) + rest == before + (key + (after + (value + rest)))
  {
    assert after + value + rest == after + (value + rest);
    assert key + (after + value) + rest == key + (after + value + rest);
  }

  // ---- Whole objects ----

  /** The state at the end of the fields. */
  function AfterFields(f: Fields, keys: seq<string>): InnerState
    requires FieldsOk(f)
  {
    match f
    case NoMore(end) => Between(keys).(token := BlanksOf(end))
    case Last(entry) => AfterEntry(entry, keys)
    case More(entry, rest) => AfterFields(rest, keys + IdentifierKey(entry))
  }

  lemma {:induction false} InnerFields(f: Fields, rest: string, keys: seq<string>)
    requires FieldsOk(f) && AfterSlash(rest)
    ensures Collect(PrintFields(f) + rest, Between(keys)) == Collect(rest, AfterFields(f, keys))
    decreases f
  {
    hide Collect, PrintEntry, EntryOk, TriviaOk, Trim, BlanksOf, AfterEntry;
    match f
    case NoMore(end) =>
      InnerTrivia(end, rest, Between(keys));
      assert "" + BlanksOf(end) == BlanksOf(end);
    case Last(entry) =>
      InnerEntry(entry, rest, keys);
    case More(entry, more) =>
      var tail := "," + PrintFields(more) + rest;
      InnerEntry(entry, tail, keys);
      assert tail == "," + (PrintFields(more) + rest);
      AfterEntryFlushes(entry, keys);
      InnerComma(PrintFields(more) + rest, AfterEntry(entry, keys));
      InnerFields(more, rest, keys + IdentifierKey(entry));
      assert PrintFields(f) + rest == PrintEntry(entry) + tail;
  }

  lemma EndOfBody(s: InnerState)
    ensures Collect("", s) == if s.inValue then s.keys else Flushed(s).keys
  {
  }

  lemma AfterEntryFlushes(e: Entry, keys: seq<string>)
    requires EntryOk(e)
    ensures var s := AfterEntry(e, keys);
            && s.state.Code? && s.depth == 0
            && (if s.inValue then s.(inValue := false, token := "") else Flushed(s)) == Between(keys + IdentifierKey(e))
  {
    hide Trim, BlanksOf, TriviaOk, ValueOk;
    NameOfToken(e);
  }

  /** The inner scan of a printed object's inside reports the keys written as identifiers, in order. */
  lemma {:induction false} FieldsReported(f: Fields, keys: seq<string>)
    requires FieldsOk(f)
    ensures var s := AfterFields(f, keys);
            (if s.inValue then s.keys else Flushed(s).keys) == keys + IdentifierKeys(f)
    decreases f
  {
    hide Trim, EntryOk, TriviaOk;
    match f
    case NoMore(end) =>
      TrimPadded(BlanksOf(end), "", "");
      assert BlanksOf(end) + "" + "" == BlanksOf(end);
      assert keys + IdentifierKeys(f) == keys;
    case Last(entry) =>
      AfterEntryFlushes(entry, keys);
    case More(entry, rest) =>
      FieldsReported(rest, keys + IdentifierKey(entry));
      assert keys + IdentifierKey(entry) + IdentifierKeys(rest) == keys + IdentifierKeys(f);
  }

  lemma {:induction false} OuterFields(f: Fields, rest: string, depth: nat)
    requires FieldsOk(f) && AfterSlash(rest) && depth >= 1
    ensures CloseIndex(PrintFields(f) + rest, Code, depth) == Later(|PrintFields(f)|, CloseIndex(rest, Code, depth))
    decreases f
  {
    hide CloseIndex, Outer, PrintEntry, EntryOk, TriviaOk;
    match f
    case NoMore(end) => OuterTrivia(end, rest, depth);
    case Last(entry) => OuterEntry(entry, rest, depth);
    case More(entry, more) =>
      OuterFields(more, rest, depth);
      OuterPlain(',', PrintFields(more), rest, depth);
      OuterEntry(entry, "," + PrintFields(more) + rest, depth);
      assert PrintFields(f) + rest == PrintEntry(entry) + ("," + PrintFields(more) + rest);
  }

  lemma {:induction false} KeysAreIdentifiers(f: Fields)
    requires FieldsOk(f)
    ensures forall i :: 0 <= i < |IdentifierKeys(f)| ==> IsIdentifier(IdentifierKeys(f)[i])
  {
    hide IsIdentifier, TriviaOk, ValueOk;
    if f.More? {
      KeysAreIdentifiers(f.rest);
    }
  }

  function PrintObject(before: string, f: Fields, after: string): string {
    before + ("{" + PrintFields(f) + "}") + after
  }

  lemma {:induction false} OuterSpaces(blanks: string, rest: string, depth: nat)
    requires AllSpaces(blanks) && depth >= 1
    ensures CloseIndex(blanks + rest, Code, depth) == Later(|blanks|, CloseIndex(rest, Code, depth))
    decreases |blanks|
  {
    hide CloseIndex, Outer, IsSpace;
    if blanks == "" {
      assert blanks + rest == rest;
    } else {
      OuterSpaces(blanks[1..], rest, depth);
      SpacesAndIdentifiersAreTokens(blanks[0]);
      OuterPlain(blanks[0], blanks[1..], rest, depth);
      assert [blanks[0]] + blanks[1..] == blanks;
    }
  }

  lemma ObjectCloses(before: string, f: Fields, after: string, rest: string)
    requires FieldsOk(f) && AllSpaces(before) && AllSpaces(after)
    ensures CloseIndex("(" + (PrintObject(before, f, after) + (")" + rest)), Code, 0)
         == Some(1 + |PrintObject(before, f, after)|)
  {
    hide CloseIndex, Outer, PrintFields, FieldsOk, IsSpace;
    var close := ")" + rest;
    var tail := "}" + (after + close);
    AtParentheses(rest);
    OuterSpaces(after, close, 1);
    OuterChar('}', after + close, 2);
    OuterFields(f, tail, 2);
    OuterChar('{', PrintFields(f) + tail, 1);
    OuterSpaces(before, "{" + (PrintFields(f) + tail), 1);
    AtParentheses(before + ("{" + (PrintFields(f) + tail)));
    assert PrintObject(before, f, after) + close == before + ("{" + (PrintFields(f) + tail));
  }

  lemma AtParentheses(rest: string)
    ensures CloseIndex(")" + rest, Code, 1) == Some(0)
    ensures CloseIndex("(" + rest, Code, 0) == Later(1, CloseIndex(rest, Code, 1))
  {
    assert Outer("(" + rest, Code, 0) == Onward(Code, 1, 1) && Outer(")" + rest, Code, 1) == Found;
    hide Outer;
    assert From("(" + rest, 1) == rest;
  }

  /**
   Wherever it stands in a text, a call whose argument is an options object
   printed from the grammar is read as exactly the keys written as
   identifiers, in order. So all its keys are read just when none is quoted:
   a quoted key is taken for absent, and the object still for readable.
  */
  lemma PrintedOptionsReadBack(text: string, before: string, f: Fields, after: string, rest: string)
    requires FieldsOk(f) && AllSpaces(before) && AllSpaces(after)
    ensures var whole := text + ("(" + (PrintObject(before, f, after) + (")" + rest)));
            && ReadCallOptionKeys(whole, |text|) == Readable(IdentifierKeys(f))
            && (ReadCallOptionKeys(whole, |text|) == Readable(KeysOf(f)) <==> NoStringKey(f))
  {
    hide CloseIndex, Outer, FieldsOk, PrintFields, Collect, Trim, IsSpace, IdentifierKeys, KeysOf, NoStringKey,
      AllSpaces;
    var options := PrintObject(before, f, after);
    var call := "(" + (options + (")" + rest));
    assert From(text + call, |text|) == call;
    ObjectCloses(before, f, after, rest);
    assert call[1..1 + |options|] == options;
    var trimmed := "{" + PrintFields(f) + "}";
    BracesTrim(before, trimmed, after);
    assert trimmed[1..|trimmed| - 1] == PrintFields(f) == PrintFields(f) + "";
    InnerFields(f, "", []);
    EndOfBody(AfterFields(f, []));
    FieldsReported(f, []);
    assert [] + IdentifierKeys(f) == IdentifierKeys(f);
    KeysAreIdentifiers(f);
    AllKeysReported(f);
  }

  lemma {:induction false} AllKeysReported(f: Fields)
    ensures |IdentifierKeys(f)| <= |KeysOf(f)|
    ensures IdentifierKeys(f) == KeysOf(f) <==> NoStringKey(f)
    ensures |IdentifierKeys(f)| == |KeysOf(f)| ==> NoStringKey(f)
  {
    match f
    case NoMore(_) =>
    case Last(_) =>
    case More(_, rest) => AllKeysReported(rest);
  }

  lemma BracesTrim(before: string, trimmed: string, after: string)
    requires AllSpaces(before) && AllSpaces(after) && BracedObject(trimmed)
    ensures Trim(before + trimmed + after) == trimmed
  {
    hide Trim;
    TrimPadded(before, trimmed, after);
  }
}
