/** All the ways of writing a word that the CLI's tokenizer and a POSIX shell have, and what they read. */
module CommandLineForms {
  import opened CommandLine
  import opened Text
  import opened Wrappers

  /** A character in double quotes: as it is, after a backslash that goes, or after one that stays. */
  datatype Item = Raw(c: char) | Escaped(c: char) | Kept(c: char)

  /** A piece of a word: a character as it is, after a backslash that goes or stays, or a quoted part. */
  datatype Piece =
    | Bare(c: char)
    | Backslashed(c: char)
    | BackslashKept(c: char)
    | InSingle(text: string)
    | InDouble(items: seq<Item>)

  predicate ItemOk(reader: Reader, item: Item) {
    match item
    case Raw(c) => c !in "\"\\" && (reader.Shell? ==> c !in "$`")
    case Escaped(c) => c in "\"\\" || (reader.Shell? && c in "$`")
    case Kept(c) => c !in "\"\\" && (reader.Shell? ==> c !in "$`\n")
  }

  predicate ItemsOk(reader: Reader, items: seq<Item>) {
    forall i :: 0 <= i < |items| ==> ItemOk(reader, items[i])
  }

  /** The characters that stand for themselves outside quotes. */
  predicate IsOrdinary(reader: Reader, c: char) {
    && c !in "'\"\\"
    && if reader.Tokenizer? then !IsSpace(c) else c !in " \t\n|&;<>()$`*?[]#~!{}^"
  }

  predicate PieceOk(reader: Reader, piece: Piece) {
    match piece
    case Bare(c) => IsOrdinary(reader, c)
    case Backslashed(c) => if reader.Tokenizer? then c in " \\'\"" else c != '\n'
    case BackslashKept(c) => reader.Tokenizer? && IsOrdinary(reader, c)
    case InSingle(text) => '\'' !in text
    case InDouble(items) => ItemsOk(reader, items)
  }

  function PrintItem(item: Item): string {
    if item.Raw? then [item.c] else ['\\', item.c]
  }

  function ItemText(item: Item): string {
    if item.Kept? then ['\\', item.c] else [item.c]
  }

  function PrintItems(items: seq<Item>): string {
    if items == [] then "" else PrintItem(items[0]) + PrintItems(items[1..])
  }

  function ItemsText(items: seq<Item>): string {
    if items == [] then "" else ItemText(items[0]) + ItemsText(items[1..])
  }

  function PrintPiece(piece: Piece): string {
    match piece
    case Bare(c) => [c]
    case Backslashed(c) => ['\\', c]
    case BackslashKept(c) => ['\\', c]
    case InSingle(text) => "'" + (text + "'")
    case InDouble(items) => "\"" + (PrintItems(items) + "\"")
  }

  function PieceText(piece: Piece): string {
    match piece
    case Bare(c) => [c]
    case Backslashed(c) => [c]
    case BackslashKept(c) => ['\\', c]
    case InSingle(text) => text
    case InDouble(items) => ItemsText(items)
  }

  /** A word is one piece or more, with nothing between them. */
  predicate WordOk(reader: Reader, word: seq<Piece>) {
    word != [] && forall k :: 0 <= k < |word| ==> PieceOk(reader, word[k])
  }

  function PrintWord(word: seq<Piece>): string {
    if word == [] then "" else PrintPiece(word[0]) + PrintWord(word[1..])
  }

  function WordText(word: seq<Piece>): string {
    if word == [] then "" else PieceText(word[0]) + WordText(word[1..])
  }

  function PrintWords(words: seq<seq<Piece>>): string {
    if words == [] then ""
    else if |words| == 1 then PrintWord(words[0])
    else PrintWord(words[0]) + (" " + PrintWords(words[1..]))
  }

  function WordTexts(words: seq<seq<Piece>>): seq<string> {
    if words == [] then [] else [WordText(words[0])] + WordTexts(words[1..])
  }

  // ---- Moves ----

  lemma ReadTwo(reader: Reader, c: char, d: char, rest: string, st: ReaderState)
    requires Advance(reader, [c, d] + rest, st).Move?
    requires Advance(reader, [c, d] + rest, st).completed == [] && Advance(reader, [c, d] + rest, st).used == 2
    ensures Words(reader, [c, d] + rest, st) == Words(reader, rest, Advance(reader, [c, d] + rest, st).next)
  {
    assert ([c, d] + rest)[2..] == rest;
    var words := Words(reader, rest, Advance(reader, [c, d] + rest, st).next);
    assert words.Some? ==> [] + words.value == words.value;
  }

  lemma AdvanceItem(reader: Reader, item: Item, rest: string, part: string)
    requires ItemOk(reader, item)
    ensures var st := ReaderState(Double, part, true);
            && (!item.Kept? ==> Advance(reader, PrintItem(item) + rest, st)
                                == Move([], ReaderState(Double, part + [item.c], true), |PrintItem(item)|))
            && (item.Kept? ==>
                  && Advance(reader, PrintItem(item) + rest, st)
                     == Move([], ReaderState(Double, part + ['\\'], true), 1)
                  && Advance(reader, [item.c] + rest, ReaderState(Double, part + ['\\'], true))
                     == Move([], ReaderState(Double, part + ['\\'] + [item.c], true), 1))
  {
  }

  lemma ReadItem(reader: Reader, item: Item, rest: string, part: string)
    requires ItemOk(reader, item)
    ensures Words(reader, PrintItem(item) + rest, ReaderState(Double, part, true))
         == Words(reader, rest, ReaderState(Double, part + ItemText(item), true))
  {
    hide Words, Advance, ItemOk;
    AdvanceItem(reader, item, rest, part);
    var st := ReaderState(Double, part, true);
    match item
    case Raw(c) => ReadChar(reader, c, rest, st);
    case Escaped(c) => ReadTwo(reader, '\\', c, rest, st);
    case Kept(c) =>
      assert ['\\', c] + rest == ['\\'] + ([c] + rest);
      ReadChar(reader, '\\', [c] + rest, st);
      ReadChar(reader, c, rest, ReaderState(Double, part + ['\\'], true));
      assert part + ['\\'] + [c] == part + ['\\', c];
  }

  lemma {:induction false} ReadItems(reader: Reader, items: seq<Item>, rest: string, part: string)
    requires ItemsOk(reader, items)
    ensures Words(reader, PrintItems(items) + rest, ReaderState(Double, part, true))
         == Words(reader, rest, ReaderState(Double, part + ItemsText(items), true))
    decreases |items|
  {
    hide Words, ItemOk, PrintItem, ItemText;
    if items == [] {
      assert PrintItems(items) + rest == rest && part + ItemsText(items) == part;
    } else {
      var later := PrintItems(items[1..]) + rest;
      ReadItem(reader, items[0], later, part);
      ReadItems(reader, items[1..], rest, part + ItemText(items[0]));
      assert PrintItems(items) + rest == PrintItem(items[0]) + later;
      assert part + ItemText(items[0]) + ItemsText(items[1..]) == part + ItemsText(items);
    }
  }

  lemma {:induction false} ReadText(reader: Reader, text: string, rest: string, part: string)
    requires '\'' !in text
    ensures Words(reader, text + rest, ReaderState(Single, part, true))
         == Words(reader, rest, ReaderState(Single, part + text, true))
    decreases |text|
  {
    hide Words;
    if text == "" {
      assert text + rest == rest && part + text == part;
    } else {
      assert text[0] in text && forall c :: c in text[1..] ==> c in text;
      ReadInSingle(reader, text[0], text[1..] + rest, part);
      ReadText(reader, text[1..], rest, part + [text[0]]);
      assert text + rest == [text[0]] + (text[1..] + rest);
      assert part + [text[0]] + text[1..] == part + text;
    }
  }

  lemma AdvanceOutside(reader: Reader, piece: Piece, rest: string, st: ReaderState)
    requires PieceOk(reader, piece) && st.quote.Unquoted?
    requires piece.Bare? || piece.Backslashed? || piece.BackslashKept?
    ensures var m := Advance(reader, PrintPiece(piece) + rest, st);
            && (piece.Bare? ==> m == Move([], ReaderState(Unquoted, st.part + [piece.c], true), 1))
            && (piece.Backslashed? ==> m == Move([], ReaderState(Unquoted, st.part + [piece.c], true), 2))
            && (piece.BackslashKept? ==> m == Move([], ReaderState(Unquoted, st.part + ['\\'], true), 1))
  {
    hide IsSpace;
    assert piece.BackslashKept? ==> (PrintPiece(piece) + rest)[1] == piece.c;
    BackslashIsNoBlank();
  }

  lemma BackslashIsNoBlank()
    ensures !IsSpace('\\') && !IsSpace('"') && !IsSpace('\'') && IsSpace(' ')
  {
  }

  lemma ReadPiece(reader: Reader, piece: Piece, rest: string, st: ReaderState)
    requires PieceOk(reader, piece) && st.quote.Unquoted?
    ensures Words(reader, PrintPiece(piece) + rest, st)
         == Words(reader, rest, ReaderState(Unquoted, st.part + PieceText(piece), true))
  {
    hide Words, Advance, ItemsOk, IsOrdinary, IsSpace;
    match piece
    case Bare(c) =>
      AdvanceOutside(reader, piece, rest, st);
      ReadChar(reader, c, rest, st);
    case Backslashed(c) =>
      AdvanceOutside(reader, piece, rest, st);
      ReadTwo(reader, '\\', c, rest, st);
    case BackslashKept(c) =>
      ReadKept(reader, c, rest, st);
    case InSingle(text) =>
      QuotesBegin(reader, text + ("'" + rest), st);
      ReadText(reader, text, "'" + rest, st.part);
      ReadInSingle(reader, '\'', rest, st.part + text);
      assert PrintPiece(piece) + rest == "'" + (text + ("'" + rest));
    case InDouble(items) =>
      ReadInDouble(reader, items, rest, st);
  }

  lemma ReadKept(reader: Reader, c: char, rest: string, st: ReaderState)
    requires PieceOk(reader, BackslashKept(c)) && st.quote.Unquoted?
    ensures Words(reader, ['\\', c] + rest, st)
         == Words(reader, rest, ReaderState(Unquoted, st.part + ['\\', c], true))
  {
    hide Words, Advance, ItemsOk, IsOrdinary, IsSpace;
    AdvanceOutside(reader, BackslashKept(c), rest, st);
    assert ['\\', c] + rest == ['\\'] + ([c] + rest);
    ReadChar(reader, '\\', [c] + rest, st);
    var kept := ReaderState(Unquoted, st.part + ['\\'], true);
    AdvanceOutside(reader, Bare(c), rest, kept);
    ReadChar(reader, c, rest, kept);
    assert st.part + ['\\'] + [c] == st.part + ['\\', c];
  }

  lemma ReadInDouble(reader: Reader, items: seq<Item>, rest: string, st: ReaderState)
    requires ItemsOk(reader, items) && st.quote.Unquoted?
    ensures Words(reader, PrintPiece(InDouble(items)) + rest, st)
         == Words(reader, rest, ReaderState(Unquoted, st.part + ItemsText(items), true))
  {
    hide Words, ItemsOk;
    var inner := PrintItems(items);
    QuotesBegin(reader, inner + ("\"" + rest), st);
    ReadItems(reader, items, "\"" + rest, st.part);
    QuotesEnd(reader, rest, st.part + ItemsText(items));
    assert PrintPiece(InDouble(items)) + rest == "\"" + (inner + ("\"" + rest));
  }

  lemma QuotesBegin(reader: Reader, rest: string, st: ReaderState)
    requires st.quote.Unquoted?
    ensures Words(reader, "'" + rest, st) == Words(reader, rest, ReaderState(Single, st.part, true))
    ensures Words(reader, "\"" + rest, st) == Words(reader, rest, ReaderState(Double, st.part, true))
  {
    hide Words;
    ReadChar(reader, '\'', rest, st);
    ReadChar(reader, '"', rest, st);
  }

  lemma QuotesEnd(reader: Reader, rest: string, part: string)
    ensures Words(reader, "\"" + rest, ReaderState(Double, part, true))
         == Words(reader, rest, ReaderState(Unquoted, part, true))
  {
    hide Words;
    ReadChar(reader, '"', rest, ReaderState(Double, part, true));
  }

  lemma {:induction false} ReadWord(reader: Reader, word: seq<Piece>, rest: string, st: ReaderState)
    requires forall k :: 0 <= k < |word| ==> PieceOk(reader, word[k])
    requires st.quote.Unquoted? && (st.started || word != [])
    ensures Words(reader, PrintWord(word) + rest, st)
         == Words(reader, rest, ReaderState(Unquoted, st.part + WordText(word), true))
    decreases |word|
  {
    hide Words, PieceOk, PrintPiece, PieceText;
    if word == [] {
      assert PrintWord(word) + rest == rest && st.part + WordText(word) == st.part;
    } else {
      var later := PrintWord(word[1..]) + rest;
      ReadPiece(reader, word[0], later, st);
      ReadWord(reader, word[1..], rest, ReaderState(Unquoted, st.part + PieceText(word[0]), true));
      assert PrintWord(word) + rest == PrintPiece(word[0]) + later;
      assert st.part + PieceText(word[0]) + WordText(word[1..]) == st.part + WordText(word);
    }
  }

  lemma WordEnds(reader: Reader, rest: string, part: string)
    ensures Words(reader, " " + rest, ReaderState(Unquoted, part, true))
         == Prepend([part], Words(reader, rest, START))
    ensures Words(reader, "", ReaderState(Unquoted, part, true)) == Some([part])
  {
    assert (" " + rest)[1..] == rest;
  }

  /** Words written in any of these ways are read, by either reader, as what they say. */
  lemma {:induction false} WordsAreRead(reader: Reader, words: seq<seq<Piece>>)
    requires forall k :: 0 <= k < |words| ==> WordOk(reader, words[k])
    ensures Words(reader, PrintWords(words), START) == Some(WordTexts(words))
    decreases |words|
  {
    assert Words(reader, "", START) == Some([]);
    hide Words, PrintWord, WordText, PieceOk;
    if words != [] {
      var part := WordText(words[0]);
      assert "" + part == part;
      if |words| == 1 {
        ReadWord(reader, words[0], "", START);
        WordEnds(reader, "", part);
        assert PrintWord(words[0]) + "" == PrintWord(words[0]);
        assert WordTexts(words) == [part] + WordTexts(words[1..]) == [part];
      } else {
        var rest := PrintWords(words[1..]);
        ReadWord(reader, words[0], " " + rest, START);
        WordEnds(reader, rest, part);
        WordsAreRead(reader, words[1..]);
      }
    }
  }

  /** A quote that is not closed makes a text unreadable, whatever comes before it and is in it. */
  lemma OpenQuoteIsRefused(reader: Reader, word: seq<Piece>, text: string, items: seq<Item>)
    requires WordOk(reader, word) && '\'' !in text && ItemsOk(reader, items)
    ensures Words(reader, PrintWord(word) + ("'" + text), START) == None
    ensures Words(reader, PrintWord(word) + ("\"" + PrintItems(items)), START) == None
  {
    assert forall st: ReaderState :: !st.quote.Unquoted? ==> Words(reader, "", st) == None;
    hide Words, ItemsOk, PrintItems, PrintWord;
    var part := "" + WordText(word);
    var st := ReaderState(Unquoted, part, true);
    ReadWord(reader, word, "'" + text, START);
    QuotesBegin(reader, text, st);
    ReadText(reader, text, "", part);
    assert text + "" == text;
    ReadWord(reader, word, "\"" + PrintItems(items), START);
    QuotesBegin(reader, PrintItems(items), st);
    ReadItems(reader, items, "", part);
    assert PrintItems(items) + "" == PrintItems(items);
  }

  /** Unquoted, a character by which a shell does more than split words is refused by the model's shell. */
  lemma ActiveIsRefused(word: seq<Piece>, c: char, rest: string)
    requires WordOk(Shell, word) && c in "\n|&;<>()$`*?[]#~!{}^"
    ensures Words(Shell, PrintWord(word) + ([c] + rest), START) == None
  {
    ActiveStops(c, rest, "" + WordText(word));
    hide *;
    ReadWord(Shell, word, [c] + rest, START);
  }

  /** Such a character stops the reading wherever in a word it stands. */
  lemma ActiveStops(c: char, rest: string, part: string)
    requires c in "\n|&;<>()$`*?[]#~!{}^"
    ensures Words(Shell, [c] + rest, ReaderState(Unquoted, part, true)) == None
  {
    assert Advance(Shell, [c] + rest, ReaderState(Unquoted, part, true)).Refused?;
  }

  // ---- What is left unquoted ----

  /** The printers leave exactly those arguments as they are that are made of letters, digits and a few signs. */
  lemma QuotedOnlyWhenNeeded(value: string)
    ensures ShellQuote(value) == value <==>
            value != "" && forall i :: 0 <= i < |value| ==> IsAlphanumeric(value[i]) || value[i] in "_./:@%+=,-"
    ensures QuoteCliCommandArgument(value) == value <==>
            value != "" && forall i :: 0 <= i < |value| ==> IsAlphanumeric(value[i]) || value[i] in "._:/@-"
  {
    hide IsAlphanumeric;
    QuoteBegins(value, "'\"'\"'");
    QuoteBegins(value, "'\\''");
    if value != "" && value[0] == '\'' {
      assert !IsSafe(Recovery, value[0]) && !IsSafe(Cli, value[0]) by {
        QuoteIsUnsafe();
      }
    }
  }

  lemma QuoteIsUnsafe()
    ensures !IsAlphanumeric('\'')
  {
  }

  /** What is quoted is longer than it was. */
  lemma {:induction false} QuoteBegins(value: string, escape: string)
    requires |escape| > 1
    ensures |ReplaceQuotes(value, escape)| >= |value|
  {
    if value != "" {
      QuoteBegins(value[1..], escape);
    }
  }
}
