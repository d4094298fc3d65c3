/**
 The Windows launcher's argument quoting, and the Microsoft argument rules that
 the started process applies to its command line, as a parser.
*/
module WindowsArguments {

  // ---- The quoting of the launcher ----

  /** `Char.IsWhiteSpace` of .NET. */
  predicate IsWhiteSpace(c: char) {
    || '\t' <= c <= '\r' || c == ' ' || c == '\U{85}' || c == '\U{A0}' || c == '\U{1680}'
    || '\U{2000}' <= c <= '\U{200A}' || c == '\U{2028}' || c == '\U{2029}' || c == '\U{202F}'
    || c == '\U{205F}' || c == '\U{3000}'
  }

  predicate NeedsQuotes(value: string) {
    value == "" || exists i :: 0 <= i < |value| && (value[i] == '"' || IsWhiteSpace(value[i]))
  }

  function Backslashes(n: nat): (s: string)
    ensures |s| == n && forall i :: 0 <= i < n ==> s[i] == '\\'
  {
    seq(n, _ => '\\')
  }

  /** The text still to be written inside the quotes when `pending` backslashes have been read and not written. */
  function Body(value: string, pending: nat): string {
    if value == "" then Backslashes(2 * pending) + "\""
    else if value[0] == '\\' then Body(value[1..], pending + 1)
    else if value[0] == '"' then Backslashes(2 * pending + 1) + "\"" + Body(value[1..], 0)
    else Backslashes(pending) + [value[0]] + Body(value[1..], 0)
  }

  function Quoted(value: string): string {
    if NeedsQuotes(value) then "\"" + Body(value, 0) else value
  }

  function Joined(args: seq<string>): string {
    if args == [] then "" else " " + Quoted(args[0]) + Joined(args[1..])
  }

  method QuoteArgument(value: string) returns (r: string)
    ensures r == Quoted(value)
  {
    var requiresQuotes := |value| == 0;
    var index := 0;
    while index < |value| && !requiresQuotes
      invariant 0 <= index <= |value|
      invariant requiresQuotes ==> NeedsQuotes(value)
      invariant !requiresQuotes ==>
                  value != "" && forall i :: 0 <= i < index ==> value[i] != '"' && !IsWhiteSpace(value[i])
    {
      requiresQuotes := value[index] == '"' || IsWhiteSpace(value[index]);
      index := index + 1;
    }
    if !requiresQuotes {
      return value;
    }
    r := "\"";
    var backslashCount := 0;
    for i := 0 to |value|
      invariant r + Body(value[i..], backslashCount) == "\"" + Body(value, 0)
    {
      var character := value[i];
      var rest := value[i..];
      assert rest[0] == character && rest[1..] == value[i + 1..];
      if character == '\\' {
        backslashCount := backslashCount + 1;
        continue;
      }
      if character == '"' {
        r := r + Backslashes(backslashCount * 2 + 1);
        r := r + "\"";
      } else {
        r := r + Backslashes(backslashCount);
        r := r + [character];
      }
      backslashCount := 0;
    }
    r := r + Backslashes(backslashCount * 2);
    r := r + "\"";
  }

  // ---- The rules of the receiving process ----

  /**
   What a quote followed by another quote means inside a quoted part: the
   C runtime since 2008 writes one quote and stays quoted, older runtimes and
   CommandLineToArgvW write one quote and leave the quoted part, and plain
   toggling writes none.
   */
  datatype DoubledQuote = WriteAndStay | WriteAndLeave | Toggle

  /** Between two arguments, or inside one with `slashes` backslashes not yet written. */
  datatype ParserState = Between | Inside(quoted: bool, slashes: nat, arg: string)

  predicate Separates(c: char) {
    c == ' ' || c == '\t'
  }

  /** One move of the parser: the argument it completes, if any, its new state, and the characters it uses up. */
  datatype Move = Move(completed: seq<string>, next: ParserState, used: nat)

  function Advance(text: string, st: ParserState, rule: DoubledQuote): (m: Move)
    requires text != ""
    ensures 1 <= m.used <= |text|
  {
    var c := text[0];
    if st.Between? then
      if Separates(c) then Move([], Between, 1) else AdvanceInside(text, Inside(false, 0, ""), rule)
    else
      AdvanceInside(text, st, rule)
  }

  function AdvanceInside(text: string, st: ParserState, rule: DoubledQuote): (m: Move)
    requires text != "" && st.Inside?
    ensures 1 <= m.used <= |text|
  {
    var c := text[0];
    var written := st.arg + Backslashes(st.slashes);
    if c == '\\' then
      Move([], st.(slashes := st.slashes + 1), 1)
    else if c == '"' then
      var half := st.arg + Backslashes(st.slashes / 2);
      if st.slashes % 2 == 1 then
        Move([], Inside(st.quoted, 0, half + "\""), 1)
      else if st.quoted && !rule.Toggle? && |text| > 1 && text[1] == '"' then
        Move([], Inside(rule.WriteAndStay?, 0, half + "\""), 2)
      else
        Move([], Inside(!st.quoted, 0, half), 1)
    else if Separates(c) && !st.quoted then
      Move([written], Between, 1)
    else
      Move([], Inside(st.quoted, 0, written + [c]), 1)
  }

  /** The arguments that the text after the program name stands for. */
  function Arguments(text: string, st: ParserState, rule: DoubledQuote): seq<string>
    decreases |text|
  {
    if text == "" then
      if st.Between? then [] else [st.arg + Backslashes(st.slashes)]
    else
      var m := Advance(text, st, rule);
      m.completed + Arguments(text[m.used..], m.next, rule)
  }

  // ---- Round trip ----

  /** A move that completes no argument. */
  lemma ReadOn(text: string, st: ParserState, rule: DoubledQuote)
    requires text != "" && Advance(text, st, rule).completed == []
    ensures var m := Advance(text, st, rule);
            Arguments(text, st, rule) == Arguments(text[m.used..], m.next, rule)
  {
  }

  lemma ReadBackslash(rest: string, st: ParserState, rule: DoubledQuote)
    requires st.Inside?
    ensures Arguments("\\" + rest, st, rule) == Arguments(rest, st.(slashes := st.slashes + 1), rule)
  {
    assert ("\\" + rest)[1..] == rest;
    ReadOn("\\" + rest, st, rule);
  }

  lemma {:induction false} ReadBackslashes(n: nat, rest: string, st: ParserState, rule: DoubledQuote)
    requires st.Inside?
    ensures Arguments(Backslashes(n) + rest, st, rule) == Arguments(rest, st.(slashes := st.slashes + n), rule)
  {
    if n == 0 {
      assert Backslashes(n) + rest == rest;
    } else {
      ReadBackslash(Backslashes(n - 1) + rest, st, rule);
      assert Backslashes(n) + rest == "\\" + (Backslashes(n - 1) + rest);
      ReadBackslashes(n - 1, rest, st.(slashes := st.slashes + 1), rule);
    }
  }

  /** What may stand after an argument: nothing, or the blank before the next one. */
  predicate EndsArgument(rest: string) {
    rest == "" || rest[0] == ' '
  }

  /** The arguments that follow once `arg` is complete. */
  function Following(arg: string, rest: string, rule: DoubledQuote): seq<string> {
    [arg] + Arguments(rest, Between, rule)
  }

  lemma ReadClosingQuote(n: nat, rest: string, arg: string, rule: DoubledQuote)
    requires EndsArgument(rest)
    ensures Arguments(Backslashes(2 * n) + "\"" + rest, Inside(true, 0, arg), rule)
         == Following(arg + Backslashes(n), rest, rule)
  {
    var close := "\"" + rest;
    assert Backslashes(2 * n) + "\"" + rest == Backslashes(2 * n) + close;
    ReadBackslashes(2 * n, close, Inside(true, 0, arg), rule);
    assert close[1..] == rest;
    ReadEnd(arg + Backslashes(n), rest, rule);
  }

  lemma ReadEscapedQuote(n: nat, tail: string, arg: string, rule: DoubledQuote)
    ensures Arguments(Backslashes(2 * n + 1) + "\"" + tail, Inside(true, 0, arg), rule)
         == Arguments(tail, Inside(true, 0, arg + Backslashes(n) + "\""), rule)
  {
    var quote := "\"" + tail;
    assert Backslashes(2 * n + 1) + "\"" + tail == Backslashes(2 * n + 1) + quote;
    ReadBackslashes(2 * n + 1, quote, Inside(true, 0, arg), rule);
    assert quote[1..] == tail;
  }

  lemma ReadPlain(n: nat, c: char, tail: string, arg: string, rule: DoubledQuote)
    requires c != '"' && c != '\\'
    ensures Arguments(Backslashes(n) + [c] + tail, Inside(true, 0, arg), rule)
         == Arguments(tail, Inside(true, 0, arg + Backslashes(n) + [c]), rule)
  {
    var plain := [c] + tail;
    assert Backslashes(n) + [c] + tail == Backslashes(n) + plain;
    ReadBackslashes(n, plain, Inside(true, 0, arg), rule);
    assert plain[1..] == tail;
  }

  lemma {:induction false} ReadBody(value: string, pending: nat, rest: string, arg: string, rule: DoubledQuote)
    requires EndsArgument(rest)
    ensures Arguments(Body(value, pending) + rest, Inside(true, 0, arg), rule)
         == Following(arg + Backslashes(pending) + value, rest, rule)
    decreases |value|
  {
    var slashes := Backslashes(pending);
    if value == "" {
      ReadClosingQuote(pending, rest, arg, rule);
      assert arg + slashes + value == arg + slashes;
    } else if value[0] == '\\' {
      ReadBody(value[1..], pending + 1, rest, arg, rule);
      assert arg + Backslashes(pending + 1) + value[1..] == arg + slashes + value;
    } else if value[0] == '"' {
      var body := Body(value[1..], 0);
      assert Body(value, pending) + rest == Backslashes(2 * pending + 1) + "\"" + (body + rest);
      ReadEscapedQuote(pending, body + rest, arg, rule);
      ReadBody(value[1..], 0, rest, arg + slashes + "\"", rule);
      assert arg + slashes + "\"" + Backslashes(0) + value[1..] == arg + slashes + value;
    } else {
      var body := Body(value[1..], 0);
      assert Body(value, pending) + rest == slashes + [value[0]] + (body + rest);
      ReadPlain(pending, value[0], body + rest, arg, rule);
      ReadBody(value[1..], 0, rest, arg + slashes + [value[0]], rule);
      assert arg + slashes + [value[0]] + Backslashes(0) + value[1..] == arg + slashes + value;
    }
  }

  lemma ReadEnd(arg: string, rest: string, rule: DoubledQuote)
    requires EndsArgument(rest)
    ensures Arguments(rest, Inside(false, 0, arg), rule) == Following(arg, rest, rule)
  {
    assert arg + Backslashes(0) == arg;
  }

  lemma {:induction false} ReadBare(value: string, rest: string, slashes: nat, arg: string, rule: DoubledQuote)
    requires EndsArgument(rest)
    requires forall i :: 0 <= i < |value| ==> value[i] != '"' && !IsWhiteSpace(value[i])
    ensures Arguments(value + rest, Inside(false, slashes, arg), rule)
         == Following(arg + Backslashes(slashes) + value, rest, rule)
    decreases |value|
  {
    var text := value + rest;
    if value == "" {
      assert text == rest;
      assert arg + Backslashes(slashes) + value == arg + Backslashes(slashes);
    } else {
      assert text[1..] == value[1..] + rest;
      if value[0] == '\\' {
        ReadBare(value[1..], rest, slashes + 1, arg, rule);
        assert arg + Backslashes(slashes + 1) + value[1..] == arg + Backslashes(slashes) + value;
      } else {
        var written := arg + Backslashes(slashes) + [value[0]];
        ReadBare(value[1..], rest, 0, written, rule);
        assert written + Backslashes(0) + value[1..] == arg + Backslashes(slashes) + value;
      }
    }
  }

  lemma ReadQuoted(value: string, rest: string, rule: DoubledQuote)
    requires EndsArgument(rest)
    ensures Arguments(Quoted(value) + rest, Between, rule) == Following(value, rest, rule)
  {
    if NeedsQuotes(value) {
      var body := Body(value, 0) + rest;
      assert Quoted(value) + rest == "\"" + body;
      assert ("\"" + body)[1..] == body;
      assert "" + Backslashes(0) == "";
      ReadOn("\"" + body, Between, rule);
      ReadBody(value, 0, rest, "", rule);
      assert "" + Backslashes(0) + value == value;
    } else {
      ReadBare(value, rest, 0, "", rule);
      assert "" + Backslashes(0) + value == value;
      assert (value + rest)[0] == value[0];
    }
  }

  lemma SkipBlank(text: string, rule: DoubledQuote)
    ensures Arguments(" " + text, Between, rule) == Arguments(text, Between, rule)
  {
    assert (" " + text)[1..] == text;
  }

  lemma JoinedEndsArgument(args: seq<string>)
    ensures EndsArgument(Joined(args))
  {
  }

  lemma {:induction false} ReadJoined(args: seq<string>, rule: DoubledQuote)
    ensures Arguments(Joined(args), Between, rule) == args
  {
    hide Quoted, Advance;
    if args != [] {
      var rest := Joined(args[1..]);
      ReadJoined(args[1..], rule);
      JoinedEndsArgument(args[1..]);
      var quoted := Quoted(args[0]);
      assert Arguments(quoted + rest, Between, rule) == [args[0]] + args[1..] by {
        ReadQuoted(args[0], rest, rule);
      }
      assert Joined(args) == " " + (quoted + rest);
      SkipBlank(quoted + rest, rule);
      assert Arguments(Joined(args), Between, rule) == Arguments(quoted + rest, Between, rule);
    }
  }

  /** The started process receives exactly the CLI path and the launcher's own arguments. */
  method BuildArguments(cliPath: string, args: seq<string>) returns (commandLine: string)
    ensures forall rule :: Arguments(commandLine, Between, rule) == [cliPath] + args
  {
    commandLine := QuoteArgument(cliPath);
    for i := 0 to |args|
      invariant commandLine + Joined(args[i..]) == Quoted(cliPath) + Joined(args)
    {
      assert args[i..][0] == args[i] && args[i..][1..] == args[i + 1..];
      commandLine := commandLine + " ";
      var quoted := QuoteArgument(args[i]);
      commandLine := commandLine + quoted;
    }
    assert commandLine == Quoted(cliPath) + Joined(args);
    forall rule
      ensures Arguments(commandLine, Between, rule) == [cliPath] + args
    {
      ReadJoined(args, rule);
      JoinedEndsArgument(args);
      ReadQuoted(cliPath, Joined(args), rule);
    }
  }
}
