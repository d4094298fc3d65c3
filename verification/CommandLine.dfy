/**
 The CLI's POSIX quoting of commands that it shows to the user, its own
 tokenizer for such commands, and the reading that a POSIX shell gives them.
*/
module CommandLine {
  import opened Text
  import opened Wrappers

  // ---- Printing ----

  datatype Style = Recovery | Cli

  /** The characters that each of the two printers leaves unquoted. */
  predicate IsSafe(style: Style, c: char) {
    || IsAlphanumeric(c) || c == '.' || c == '_' || c == ':' || c == '/' || c == '@' || c == '-'
    || (style.Recovery? && (c == '%' || c == '+' || c == '=' || c == ','))
  }

  predicate AllSafe(style: Style, value: string) {
    value != "" && forall i :: 0 <= i < |value| ==> IsSafe(style, value[i])
  }

  /** `value.replaceAll("'", escape)`. */
  function ReplaceQuotes(value: string, escape: string): string {
    if value == "" then ""
    else (if value[0] == '\'' then escape else [value[0]]) + ReplaceQuotes(value[1..], escape)
  }

  function ShellQuote(value: string): string {
    if AllSafe(Recovery, value) then value
    else "'" + ReplaceQuotes(value, "'\"'\"'") + "'"
  }

  function QuoteCliCommandArgument(value: string): string {
    if AllSafe(Cli, value) then value
    else "'" + ReplaceQuotes(value, "'\\''") + "'"
  }

  function Quoted(style: Style, value: string): string {
    if style.Recovery? then ShellQuote(value) else QuoteCliCommandArgument(value)
  }

  /** Arguments quoted in the given styles and joined by blanks. */
  function Joined(styles: seq<Style>, args: seq<string>): string
    requires |styles| == |args|
  {
    if args == [] then ""
    else if |args| == 1 then Quoted(styles[0], args[0])
    else Quoted(styles[0], args[0]) + (" " + Joined(styles[1..], args[1..]))
  }

  /** The POSIX branch of `renderCommand`. */
  function RenderCommand(command: seq<string>): string {
    Joined(seq(|command|, _ => Recovery), command)
  }

  // ---- Reading ----

  /** Who reads the text: the CLI's `parseCommandLine`, or a POSIX shell splitting it into words. */
  datatype Reader = Tokenizer | Shell

  datatype Quote = Unquoted | Single | Double

  datatype ReaderState = ReaderState(quote: Quote, part: string, started: bool)

  const START := ReaderState(Unquoted, "", false)

  /** One move: the word it completes, if any, the new state, and the characters it uses up. */
  datatype Move = Move(completed: seq<string>, next: ReaderState, used: nat) | Refused

  predicate Separates(reader: Reader, c: char) {
    if reader.Tokenizer? then IsSpace(c) else c == ' ' || c == '\t'
  }

  /** Unquoted characters by which a shell would do more than split words. */
  predicate Active(c: char) {
    || c == '|' || c == '&' || c == ';' || c == '<' || c == '>' || c == '(' || c == ')' || c == '$' || c == '`'
    || c == '*' || c == '?' || c == '[' || c == ']' || c == '#' || c == '~' || c == '!' || c == '{' || c == '}'
    || c == '^' || c == '\n'
  }

  /**
   Whether a backslash outside quotes takes away the meaning of `c`. A shell
   joins two lines at a backslash before a newline, which is more than reading words.
  */
  predicate Escapes(reader: Reader, c: char) {
    (reader.Shell? && c != '\n') || c == ' ' || c == '\\' || c == '\'' || c == '"'
  }

  /** Whether a backslash inside double quotes takes away the meaning of `c`. */
  predicate EscapesInDouble(reader: Reader, c: char) {
    c == '"' || c == '\\' || (reader.Shell? && (c == '$' || c == '`'))
  }

  predicate JoinsLines(text: string) {
    |text| > 1 && text[0] == '\\' && text[1] == '\n'
  }

  function Advance(reader: Reader, text: string, st: ReaderState): (m: Move)
    requires text != ""
    ensures m.Move? ==> 1 <= m.used <= |text|
  {
    var c := text[0];
    match st.quote
    case Single =>
      if c == '\'' then Move([], ReaderState(Unquoted, st.part, true), 1)
      else Move([], ReaderState(Single, st.part + [c], true), 1)
    case Double =>
      if c == '"' then Move([], ReaderState(Unquoted, st.part, true), 1)
      else if c == '\\' && |text| > 1 && EscapesInDouble(reader, text[1]) then
        Move([], ReaderState(Double, st.part + [text[1]], true), 2)
      else if reader.Shell? && (c == '$' || c == '`' || JoinsLines(text)) then Refused
      else Move([], ReaderState(Double, st.part + [c], true), 1)
    case Unquoted =>
      if c == '\'' then Move([], ReaderState(Single, st.part, true), 1)
      else if c == '"' then Move([], ReaderState(Double, st.part, true), 1)
      else if Separates(reader, c) then Move(if st.started then [st.part] else [], START, 1)
      else if c == '\\' && |text| > 1 && Escapes(reader, text[1]) then
        Move([], ReaderState(Unquoted, st.part + [text[1]], true), 2)
      else if reader.Shell? && (Active(c) || c == '\\') then Refused
      else Move([], ReaderState(Unquoted, st.part + [c], true), 1)
  }

  function Prepend(words: seq<string>, rest: Option<seq<string>>): Option<seq<string>> {
    if rest.None? then None else Some(words + rest.value)
  }

  /** The words of the text, or None if it ends inside quotes or means more than words. */
  function Words(reader: Reader, text: string, st: ReaderState): Option<seq<string>>
    decreases |text|
  {
    if text == "" then
      if !st.quote.Unquoted? then None else Some(if st.started then [st.part] else [])
    else
      var m := Advance(reader, text, st);
      if m.Refused? then None else Prepend(m.completed, Words(reader, text[m.used..], m.next))
  }

  /** `parts.length > 0 ? parts : undefined` */
  function NonEmpty(words: Option<seq<string>>): Option<seq<string>> {
    if words == Some([]) then None else words
  }

  /** One move, after the words read so far. */
  lemma ReadOn(reader: Reader, text: string, i: nat, st: ReaderState, before: seq<string>)
    requires i < |text|
    requires Advance(reader, text[i..], st).Move?
    ensures var m := Advance(reader, text[i..], st);
            Prepend(before, Words(reader, text[i..], st))
            == Prepend(before + m.completed, Words(reader, text[i + m.used..], m.next))
  {
    var m := Advance(reader, text[i..], st);
    assert text[i..][m.used..] == text[i + m.used..];
    var rest := Words(reader, text[i + m.used..], m.next);
    if rest.Some? {
      assert before + m.completed + rest.value == before + (m.completed + rest.value);
    }
  }

  lemma NothingLeft(st: ReaderState)
    ensures Words(Tokenizer, "", st)
         == if !st.quote.Unquoted? then None else Some(if st.started then [st.part] else [])
  {
  }

  method ParseCommandLine(value: string) returns (r: Option<seq<string>>)
    ensures r == NonEmpty(Words(Tokenizer, value, START))
  {
    var parts: seq<string> := [];
    var part, quote, tokenStarted := "", Unquoted, false;
    var index := 0;
    assert value[0..] == value;
    ghost var all := Words(Tokenizer, value, START);
    assert all.Some? ==> [] + all.value == all.value;
    hide Words, IsSpace;
    while index < |value|
      invariant 0 <= index <= |value|
      invariant !tokenStarted ==> part == ""
      invariant all
             == Prepend(parts, Words(Tokenizer, value[index..], ReaderState(quote, part, tokenStarted)))
    {
      var character := value[index];
      var more := index + 1 < |value|;
      assert more ==> value[index..][1] == value[index + 1];
      ghost var m := Advance(Tokenizer, value[index..], ReaderState(quote, part, tokenStarted));
      ReadOn(Tokenizer, value, index, ReaderState(quote, part, tokenStarted), parts);
      ghost var after := parts + m.completed;
      ghost var next := index + m.used;
      if quote == Single {
        if character == '\'' {
          quote := Unquoted;
        } else {
          part := part + [character];
        }
        tokenStarted := true;
      } else if quote == Double {
        if character == '"' {
          quote := Unquoted;
        } else if character == '\\' && more && (value[index + 1] == '"' || value[index + 1] == '\\') {
          index := index + 1;
          part := part + [value[index]];
        } else {
          part := part + [character];
        }
        tokenStarted := true;
      } else if character == '\'' || character == '"' {
        quote := if character == '"' then Double else Single;
        tokenStarted := true;
      } else if IsSpace(character) {
        if tokenStarted {
          parts := parts + [part];
          part := "";
          tokenStarted := false;
        }
      } else if character == '\\' && more && Escapes(Tokenizer, value[index + 1]) {
        index := index + 1;
        part := part + [value[index]];
        tokenStarted := true;
      } else {
        part := part + [character];
        tokenStarted := true;
      }
      index := index + 1;
      assert parts == after && index == next && ReaderState(quote, part, tokenStarted) == m.next;
    }
    assert value[index..] == "" && parts + [] == parts;
    NothingLeft(ReaderState(quote, part, tokenStarted));
    if quote != Unquoted {
      return None;
    }
    if tokenStarted {
      parts := parts + [part];
    }
    r := if |parts| > 0 then Some(parts) else None;
  }

  // ---- Round trip ----

  lemma ReadChar(reader: Reader, c: char, tail: string, st: ReaderState)
    requires Advance(reader, [c] + tail, st).Move?
    requires Advance(reader, [c] + tail, st).completed == [] && Advance(reader, [c] + tail, st).used == 1
    ensures Words(reader, [c] + tail, st) == Words(reader, tail, Advance(reader, [c] + tail, st).next)
  {
    assert ([c] + tail)[1..] == tail;
    var rest := Words(reader, tail, Advance(reader, [c] + tail, st).next);
    assert rest.Some? ==> [] + rest.value == rest.value;
  }

  lemma SafeReadsAsItself(reader: Reader, style: Style, c: char, tail: string, part: string, started: bool)
    requires IsSafe(style, c)
    ensures Advance(reader, [c] + tail, ReaderState(Unquoted, part, started))
         == Move([], ReaderState(Unquoted, part + [c], true), 1)
  {
  }

  lemma {:induction false} ReadSafe(
    reader: Reader, style: Style, value: string, rest: string, part: string, started: bool)
    requires forall i :: 0 <= i < |value| ==> IsSafe(style, value[i])
    ensures Words(reader, value + rest, ReaderState(Unquoted, part, started))
         == Words(reader, rest, ReaderState(Unquoted, part + value, started || value != ""))
    decreases |value|
  {
    hide Words, Advance;
    if value == "" {
      assert value + rest == rest && part + value == part;
    } else {
      var st := ReaderState(Unquoted, part, started);
      assert value + rest == [value[0]] + (value[1..] + rest);
      SafeReadsAsItself(reader, style, value[0], value[1..] + rest, part, started);
      ReadChar(reader, value[0], value[1..] + rest, st);
      ReadSafe(reader, style, value[1..], rest, part + [value[0]], true);
      assert part + [value[0]] + value[1..] == part + value;
    }
  }

  function EscapeOf(style: Style): string {
    if style.Recovery? then "'\"'\"'" else "'\\''"
  }

  lemma ReadBackslashedQuote(reader: Reader, tail: string, part: string)
    ensures Words(reader, "\\'" + tail, ReaderState(Unquoted, part, true))
         == Words(reader, tail, ReaderState(Unquoted, part + "'", true))
  {
    assert ("\\'" + tail)[2..] == tail;
    var words := Words(reader, tail, ReaderState(Unquoted, part + "'", true));
    assert words.Some? ==> [] + words.value == words.value;
  }

  lemma ReadDoubleQuotedQuote(reader: Reader, tail: string, part: string)
    ensures Words(reader, "\"'\"" + tail, ReaderState(Unquoted, part, true))
         == Words(reader, tail, ReaderState(Unquoted, part + "'", true))
  {
    hide Words;
    var last := "\"" + tail;
    ReadChar(reader, '"', tail, ReaderState(Double, part + "'", true));
    ReadChar(reader, '\'', last, ReaderState(Double, part, true));
    ReadChar(reader, '"', "'" + last, ReaderState(Unquoted, part, true));
    assert "\"'\"" + tail == "\"" + ("'" + last);
  }

  /** Both ways of writing a quote inside single quotes leave them, write it, and enter them again. */
  lemma ReadEscape(reader: Reader, style: Style, rest: string, part: string)
    ensures Words(reader, EscapeOf(style) + rest, ReaderState(Single, part, true))
         == Words(reader, rest, ReaderState(Single, part + "'", true))
  {
    hide Words;
    var last := "'" + rest;
    ReadChar(reader, '\'', rest, ReaderState(Unquoted, part + "'", true));
    if style.Recovery? {
      ReadDoubleQuotedQuote(reader, last, part);
      ReadChar(reader, '\'', "\"'\"" + last, ReaderState(Single, part, true));
      assert EscapeOf(style) + rest == "'" + ("\"'\"" + last);
    } else {
      ReadBackslashedQuote(reader, last, part);
      ReadChar(reader, '\'', "\\'" + last, ReaderState(Single, part, true));
      assert EscapeOf(style) + rest == "'" + ("\\'" + last);
    }
  }

  lemma ReadInSingle(reader: Reader, c: char, tail: string, part: string)
    ensures Words(reader, [c] + tail, ReaderState(Single, part, true))
         == Words(reader, tail,
                  if c == '\'' then ReaderState(Unquoted, part, true) else ReaderState(Single, part + [c], true))
  {
    ReadChar(reader, c, tail, ReaderState(Single, part, true));
  }

  lemma {:induction false} ReadSingleQuoted(reader: Reader, style: Style, value: string, rest: string, part: string)
    ensures Words(reader, ReplaceQuotes(value, EscapeOf(style)) + ("'" + rest), ReaderState(Single, part, true))
         == Words(reader, rest, ReaderState(Unquoted, part + value, true))
    decreases |value|
  {
    hide Words;
    var close := "'" + rest;
    if value == "" {
      assert "" + close == close;
      ReadInSingle(reader, '\'', rest, part);
      assert part + value == part;
    } else {
      var tail := ReplaceQuotes(value[1..], EscapeOf(style)) + close;
      ReadSingleQuoted(reader, style, value[1..], rest, part + [value[0]]);
      assert part + [value[0]] + value[1..] == part + value;
      if value[0] == '\'' {
        ReadEscape(reader, style, tail, part);
        assert ReplaceQuotes(value, EscapeOf(style)) + close == EscapeOf(style) + tail;
      } else {
        ReadInSingle(reader, value[0], tail, part);
        assert ReplaceQuotes(value, EscapeOf(style)) + close == [value[0]] + tail;
      }
    }
  }

  lemma ReadQuoted(reader: Reader, style: Style, value: string, rest: string)
    ensures Words(reader, Quoted(style, value) + rest, START)
         == Words(reader, rest, ReaderState(Unquoted, value, true))
  {
    if AllSafe(style, value) {
      ReadSafe(reader, style, value, rest, "", false);
      assert "" + value == value;
    } else {
      var inner := ReplaceQuotes(value, EscapeOf(style)) + ("'" + rest);
      assert Quoted(style, value) + rest == "'" + inner;
      ReadChar(reader, '\'', inner, START);
      ReadSingleQuoted(reader, style, value, rest, "");
      assert "" + value == value;
    }
  }

  /** Arguments printed in any mixture of the two styles are read back, by either reader. */
  lemma {:induction false} ReadJoined(reader: Reader, styles: seq<Style>, args: seq<string>)
    requires |styles| == |args|
    ensures Words(reader, Joined(styles, args), START) == Some(args)
    decreases |args|
  {
    if args != [] {
      var first := Quoted(styles[0], args[0]);
      if |args| == 1 {
        assert first + "" == first;
        ReadQuoted(reader, styles[0], args[0], "");
        assert args == [args[0]];
      } else {
        var rest := Joined(styles[1..], args[1..]);
        ReadQuoted(reader, styles[0], args[0], " " + rest);
        ReadJoined(reader, styles[1..], args[1..]);
        assert (" " + rest)[1..] == rest;
        assert [args[0]] + args[1..] == args;
      }
    }
  }

  /**
   What `renderCommand` prints for a POSIX shell, and any list of arguments
   quoted by `quoteCliCommandArgument`, is read back by the CLI's own tokenizer
   and split into the same words by the shell.
   */
  lemma RenderedCommandReadsBack(args: seq<string>)
    ensures NonEmpty(Words(Tokenizer, RenderCommand(args), START)) == (if args == [] then None else Some(args))
    ensures Words(Shell, RenderCommand(args), START) == Some(args)
    ensures var printed := Joined(seq(|args|, _ => Cli), args);
            && NonEmpty(Words(Tokenizer, printed, START)) == (if args == [] then None else Some(args))
            && Words(Shell, printed, START) == Some(args)
  {
    ReadJoined(Tokenizer, seq(|args|, _ => Recovery), args);
    ReadJoined(Shell, seq(|args|, _ => Recovery), args);
    ReadJoined(Tokenizer, seq(|args|, _ => Cli), args);
    ReadJoined(Shell, seq(|args|, _ => Cli), args);
  }
}
