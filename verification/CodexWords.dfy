/** All the ways of writing a command's words that the classifier reads, and what is an assignment before them. */
module CodexWords {
  import opened CodexCommands
  import opened Text
  import opened Wrappers

  /** A piece of a word: a character as it is, or a text in quotes of either kind. */
  datatype Piece = Bare(c: char) | InQuotes(quote: char, text: string)

  predicate PieceOk(piece: Piece) {
    match piece
    case Bare(c) => !IsSpace(c) && c !in "'\""
    case InQuotes(quote, text) => quote in "'\"" && quote !in text
  }

  predicate WordOk(word: seq<Piece>) {
    WordText(word) != "" && forall k :: 0 <= k < |word| ==> PieceOk(word[k])
  }

  function PrintPiece(piece: Piece): string {
    match piece
    case Bare(c) => [c]
    case InQuotes(quote, text) => [quote] + (text + [quote])
  }

  function PieceText(piece: Piece): string {
    match piece
    case Bare(c) => [c]
    case InQuotes(_, text) => text
  }

  function PrintWord(word: seq<Piece>): string {
    if word == [] then "" else PrintPiece(word[0]) + PrintWord(word[1..])
  }

  function WordText(word: seq<Piece>): string {
    if word == [] then "" else PieceText(word[0]) + WordText(word[1..])
  }

  /** Words, each with blanks before it, and blanks at the end. */
  function PrintWords(gaps: seq<string>, words: seq<seq<Piece>>, end: string): string
    requires |gaps| == |words|
  {
    if words == [] then end else gaps[0] + (PrintWord(words[0]) + PrintWords(gaps[1..], words[1..], end))
  }

  function WordTexts(words: seq<seq<Piece>>): seq<string> {
    if words == [] then [] else [WordText(words[0])] + WordTexts(words[1..])
  }

  /** Between words there is at least one blank. */
  predicate AreGaps(gaps: seq<string>) {
    forall k :: 0 <= k < |gaps| ==> AllSpaces(gaps[k]) && (k > 0 ==> gaps[k] != "")
  }

  lemma ScannedChar(s: Scan, c: char, rest: string)
    ensures Scanned(s, [c] + rest) == Scanned(Step(s, c), rest)
  {
    hide Step;
    assert ([c] + rest)[1..] == rest;
  }

  lemma {:induction false} ScannedText(s: Scan, text: string, rest: string)
    requires s.quote.Some? && s.quote.value !in text
    ensures Scanned(s, text + rest) == Scanned(s.(current := s.current + text), rest)
    decreases |text|
  {
    hide Scanned;
    if text == "" {
      assert text + rest == rest && s.current + text == s.current;
    } else {
      assert text[0] in text && forall c :: c in text[1..] ==> c in text;
      ScannedChar(s, text[0], text[1..] + rest);
      var t := s.(current := s.current + [text[0]]);
      assert Step(s, text[0]) == t;
      ScannedText(t, text[1..], rest);
      assert text + rest == [text[0]] + (text[1..] + rest);
      assert s.current + [text[0]] + text[1..] == s.current + text;
    }
  }

  lemma ScannedPiece(s: Scan, piece: Piece, rest: string)
    requires PieceOk(piece) && s.quote.None?
    ensures Scanned(s, PrintPiece(piece) + rest) == Scanned(s.(current := s.current + PieceText(piece)), rest)
  {
    hide Scanned, IsSpace;
    match piece
    case Bare(c) =>
      ScannedChar(s, c, rest);
    case InQuotes(quote, text) =>
      var t := s.(quote := Some(quote));
      ScannedChar(s, quote, text + ([quote] + rest));
      ScannedText(t, text, [quote] + rest);
      ScannedChar(t.(current := s.current + text), quote, rest);
      assert PrintPiece(piece) + rest == [quote] + (text + ([quote] + rest));
  }

  lemma {:induction false} ScannedPieces(s: Scan, word: seq<Piece>, rest: string)
    requires s.quote.None? && forall k :: 0 <= k < |word| ==> PieceOk(word[k])
    ensures Scanned(s, PrintWord(word) + rest) == Scanned(s.(current := s.current + WordText(word)), rest)
    decreases |word|
  {
    hide Scanned, PieceOk, PrintPiece, PieceText;
    if word == [] {
      assert PrintWord(word) + rest == rest && s.current + WordText(word) == s.current;
    } else {
      var later := PrintWord(word[1..]) + rest;
      ScannedPiece(s, word[0], later);
      ScannedPieces(s.(current := s.current + PieceText(word[0])), word[1..], rest);
      assert PrintWord(word) + rest == PrintPiece(word[0]) + later;
      assert s.current + PieceText(word[0]) + WordText(word[1..]) == s.current + WordText(word);
    }
  }

  lemma {:induction false} ScannedGap(s: Scan, gap: string, rest: string)
    requires AllSpaces(gap) && s.quote.None?
    ensures gap != "" ==> Scanned(s, gap + rest) == Scanned(Scan(Flushed(s), "", None), rest)
    ensures s.current == "" ==> Scanned(s, gap + rest) == Scanned(s, rest)
    decreases |gap|
  {
    hide Scanned, IsSpace;
    if gap == "" {
      assert gap + rest == rest;
    } else {
      var t := Scan(Flushed(s), "", None);
      assert IsSpace(gap[0]) && gap[0] != '"' && gap[0] != '\'' by {
        QuotesAreNoBlanks();
      }
      ScannedChar(s, gap[0], gap[1..] + rest);
      assert Step(s, gap[0]) == t;
      ScannedGap(t, gap[1..], rest);
      assert gap + rest == [gap[0]] + (gap[1..] + rest);
    }
  }

  lemma ScannedNothing(s: Scan)
    ensures Scanned(s, "") == s
  {
  }

  lemma QuotesAreNoBlanks()
    ensures !IsSpace('"') && !IsSpace('\'')
  {
  }

  lemma {:induction false} ScannedWords(
    tokens: seq<string>, gaps: seq<string>, words: seq<seq<Piece>>, end: string, current: string)
    requires |gaps| == |words| && AreGaps(gaps) && AllSpaces(end)
    requires forall k :: 0 <= k < |words| ==> WordOk(words[k])
    requires current != "" && words != [] ==> gaps[0] != ""
    ensures Flushed(Scanned(Scan(tokens, current, None), PrintWords(gaps, words, end)))
         == Flushed(Scan(tokens, current, None)) + WordTexts(words)
    decreases |words|
  {
    hide Scanned, PieceOk, AllSpaces, PrintWord, WordText, Step;
    var s := Scan(tokens, current, None);
    if words == [] {
      ScannedGap(s, end, "");
      ScannedNothing(s);
      ScannedNothing(Scan(Flushed(s), "", None));
      assert end + "" == end && Flushed(s) + WordTexts(words) == Flushed(s);
    } else {
      var rest := PrintWords(gaps[1..], words[1..], end);
      var done := Flushed(s);
      ScannedGap(s, gaps[0], PrintWord(words[0]) + rest);
      ScannedPieces(Scan(done, "", None), words[0], rest);
      assert "" + WordText(words[0]) == WordText(words[0]);
      ScannedWords(done, gaps[1..], words[1..], end, WordText(words[0]));
      assert done + [WordText(words[0])] + WordTexts(words[1..]) == done + WordTexts(words);
    }
  }

  /** Words written in any of these ways, with any blanks around them, are read as what they say. */
  lemma WordsAreRead(gaps: seq<string>, words: seq<seq<Piece>>, end: string)
    requires |gaps| == |words| && AreGaps(gaps) && AllSpaces(end)
    requires forall k :: 0 <= k < |words| ==> WordOk(words[k])
    ensures Words(PrintWords(gaps, words, end)) == WordTexts(words)
  {
    ScannedWords([], gaps, words, end, "");
    assert [] + WordTexts(words) == WordTexts(words);
  }

  /** A quote that is not closed runs to the end: what follows it is all one word with what came before. */
  lemma OpenQuoteRunsOn(word: seq<Piece>, quote: char, text: string)
    requires forall k :: 0 <= k < |word| ==> PieceOk(word[k])
    requires quote in "'\"" && quote !in text && WordText(word) + text != ""
    ensures Words(PrintWord(word) + ([quote] + text)) == [WordText(word) + text]
  {
    hide Scanned, PieceOk, PrintWord, WordText, Step;
    var s := Scan([], WordText(word), None);
    ScannedPieces(START, word, [quote] + text);
    assert "" + WordText(word) == WordText(word);
    QuoteOpens(s, quote);
    ScannedChar(s, quote, text);
    var q := s.(quote := Some(quote));
    ScannedText(q, text, "");
    assert text + "" == text;
    ScannedNothing(q.(current := s.current + text));
  }

  lemma QuoteOpens(s: Scan, quote: char)
    requires s.quote.None? && quote in "'\""
    ensures Step(s, quote) == s.(quote := Some(quote))
  {
    hide IsSpace;
  }

  // ---- Assignments ----

  predicate IsNameCharacter(c: char) {
    'a' <= c <= 'z' || 'A' <= c <= 'Z' || '0' <= c <= '9' || c == '_'
  }

  lemma {:induction false} NameRunExactly(token: string)
    ensures forall i :: 0 <= i < NameRun(token) ==> IsNameCharacter(token[i])
    ensures NameRun(token) < |token| ==> !IsNameCharacter(token[NameRun(token)])
    decreases |token|
  {
    if token != "" && IsNameCharacter(token[0]) {
      NameRunExactly(token[1..]);
      assert forall i :: 1 <= i < NameRun(token) ==> token[i] == token[1..][i - 1];
    }
  }

  /** An assignment is a name, which a digit does not begin, and an equals sign with anything after it. */
  lemma AssignmentExactly(token: string)
    ensures IsShellAssignment(token) <==>
            exists n :: && 0 < n < |token| && token[n] == '=' && !('0' <= token[0] <= '9')
                        && forall i :: 0 <= i < n ==> IsNameCharacter(token[i])
  {
    hide NameRun;
    NameRunExactly(token);
    if n :| && 0 < n < |token| && token[n] == '=' && !('0' <= token[0] <= '9')
            && forall i :: 0 <= i < n ==> IsNameCharacter(token[i])
    {
      assert !IsNameCharacter('=');
      assert NameRun(token) == n;
    }
  }
}
