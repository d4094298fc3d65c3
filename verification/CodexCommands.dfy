/** Deciding from a command line whether Codex or Claude will run as an interactive terminal program. */
module CodexCommands {
  import opened Sequences
  import opened Text
  import opened Wrappers

  // ---- Words ----

  datatype Scan = Scan(tokens: seq<string>, current: string, quote: Option<char>)

  const START := Scan([], "", None)

  /** One character: quotes group and are dropped, blanks end a word, a word of no characters is none. */
  function Step(s: Scan, ch: char): Scan {
    if s.quote.Some? then
      if Some(ch) == s.quote then s.(quote := None) else s.(current := s.current + [ch])
    else if ch == '"' || ch == '\'' then s.(quote := Some(ch))
    else if IsSpace(ch) then
      if s.current != "" then s.(tokens := s.tokens + [s.current], current := "") else s
    else s.(current := s.current + [ch])
  }

  function Scanned(s: Scan, text: string): Scan
    decreases |text|
  {
    if text == "" then s else Scanned(Step(s, text[0]), text[1..])
  }

  function Flushed(s: Scan): seq<string> {
    if s.current != "" then s.tokens + [s.current] else s.tokens
  }

  /** The words of a command, all of them. */
  function Words(command: string): seq<string> {
    Flushed(Scanned(START, command))
  }

  lemma {:induction false} ScannedGrows(s: Scan, text: string)
    ensures s.tokens <= Scanned(s, text).tokens
    decreases |text|
  {
    hide IsSpace;
    if text != "" {
      ScannedGrows(Step(s, text[0]), text[1..]);
    }
  }

  lemma {:induction false} ScannedThen(s: Scan, a: string, b: string)
    ensures Scanned(s, a + b) == Scanned(Scanned(s, a), b)
    decreases |a|
  {
    hide Step;
    if a == "" {
      assert a + b == b;
    } else {
      ScannedThen(Step(s, a[0]), a[1..], b);
      assert (a + b)[1..] == a[1..] + b;
    }
  }

  lemma ScannedStep(s: Scan, text: string, i: nat)
    requires i < |text|
    ensures Scanned(s, text[..i + 1]) == Step(Scanned(s, text[..i]), text[i])
  {
    hide Step;
    assert text[..i + 1] == text[..i] + [text[i]];
    ScannedThen(s, text[..i], [text[i]]);
    assert [text[i]][1..] == "";
  }

  lemma ScannedRest(s: Scan, text: string, i: nat)
    requires i <= |text|
    ensures Scanned(s, text[..i]).tokens <= Scanned(s, text).tokens
  {
    assert text == text[..i] + text[i..];
    ScannedThen(s, text[..i], text[i..]);
    ScannedGrows(Scanned(s, text[..i]), text[i..]);
  }

  predicate NoneEmpty(tokens: seq<string>) {
    forall k :: 0 <= k < |tokens| ==> tokens[k] != ""
  }

  /**
   The first `limit` words, for any limit of at least one; reading stops at the
   blank after the last of them. With no room at all a first word is returned
   all the same when a blank follows it.
  */
  method TokenizeLeadingShellWords(command: string, limit: nat) returns (tokens: seq<string>)
    ensures limit >= 1 ==> tokens == Take(Words(command), limit)
    ensures limit == 0 ==> tokens == Take(Scanned(START, command).tokens, 1)
    ensures NoneEmpty(tokens)
  {
    assert Scanned(START, "") == START;
    hide Scanned, IsSpace;
    tokens := [];
    var current := "";
    var quote: Option<char> := None;
    assert command[..0] == "";
    for i := 0 to |command|
      invariant Scan(tokens, current, quote) == Scanned(START, command[..i])
      invariant |tokens| < limit || (limit == 0 && tokens == [])
      invariant NoneEmpty(tokens)
    {
      ScannedStep(START, command, i);
      var ch := command[i];
      if quote.Some? {
        if ch == quote.value {
          quote := None;
        } else {
          current := current + [ch];
        }
        continue;
      }
      if ch == '"' || ch == '\'' {
        quote := Some(ch);
        continue;
      }
      if IsSpace(ch) {
        if current != "" {
          tokens := tokens + [current];
          if |tokens| >= limit {
            ScannedRest(START, command, i + 1);
            return;
          }
          current := "";
        }
        continue;
      }
      current := current + [ch];
    }
    assert command[..|command|] == command;
    if current != "" && |tokens| < limit {
      tokens := tokens + [current];
    }
  }

  /** A word with each of its characters in quotes of the kind it does not end. */
  function Quoted(word: string): string {
    if word == "" then ""
    else (if word[0] == '\'' then "\"'\"" else ['\'', word[0], '\'']) + Quoted(word[1..])
  }

  function QuotedWords(words: seq<string>): string {
    if words == [] then ""
    else if |words| == 1 then Quoted(words[0])
    else Quoted(words[0]) + (" " + QuotedWords(words[1..]))
  }

  lemma ScannedThree(s: Scan, a: char, b: char, c: char)
    ensures Scanned(s, [a, b, c]) == Step(Step(Step(s, a), b), c)
  {
    hide Step;
    assert [a, b, c][1..] == [b, c] && [b, c][1..] == [c] && [c][1..] == "";
    var t := Step(s, a);
    assert Scanned(t, [b, c]) == Scanned(Step(t, b), [c]);
  }

  lemma {:induction false} ScannedQuoted(s: Scan, word: string)
    requires s.quote == None
    ensures Scanned(s, Quoted(word)) == s.(current := s.current + word)
    decreases |word|
  {
    assert Scanned(s, "") == s;
    hide Scanned;
    if word == "" {
      assert s.current + word == s.current;
    } else {
      var first := if word[0] == '\'' then "\"'\"" else ['\'', word[0], '\''];
      ScannedThen(s, first, Quoted(word[1..]));
      ScannedThree(s, first[0], first[1], first[2]);
      var t := s.(current := s.current + [word[0]]);
      ScannedQuoted(t, word[1..]);
      assert s.current + [word[0]] + word[1..] == s.current + word;
    }
  }

  lemma {:induction false} ScannedQuotedWords(tokens: seq<string>, words: seq<string>)
    requires NoneEmpty(words)
    ensures Flushed(Scanned(Scan(tokens, "", None), QuotedWords(words))) == tokens + words
    decreases |words|
  {
    assert Scanned(Scan(tokens, "", None), "") == Scan(tokens, "", None);
    hide Scanned, Quoted, Step;
    var s := Scan(tokens, "", None);
    if words == [] {
      assert tokens + words == tokens;
    } else {
      ScannedQuoted(s, words[0]);
      assert "" + words[0] == words[0];
      if |words| == 1 {
        assert tokens + words == tokens + [words[0]];
      } else {
        var rest := QuotedWords(words[1..]);
        ScannedThen(s, Quoted(words[0]), " " + rest);
        ScannedBlank(Scan(tokens, words[0], None), rest);
        ScannedQuotedWords(tokens + [words[0]], words[1..]);
        assert tokens + [words[0]] + words[1..] == tokens + words;
      }
    }
  }

  lemma ScannedBlank(s: Scan, rest: string)
    requires s.quote == None && s.current != ""
    ensures Scanned(s, " " + rest) == Scanned(Scan(s.tokens + [s.current], "", None), rest)
  {
    assert (" " + rest)[0] == ' ' && (" " + rest)[1..] == rest;
  }

  /** Any list of words, none empty, can be written so that it is read back. */
  lemma QuotedWordsAreRead(words: seq<string>)
    requires NoneEmpty(words)
    ensures Words(QuotedWords(words)) == words
  {
    ScannedQuotedWords([], words);
    assert [] + words == words;
  }

  // ---- The launch prefix ----

  predicate IsNameStart(c: char) {
    'a' <= c <= 'z' || 'A' <= c <= 'Z' || c == '_'
  }

  /** How many characters of a shell variable name the text goes on with. */
  function NameRun(s: string): (n: nat)
    ensures n <= |s|
  {
    if s == "" || !(IsAlphanumeric(s[0]) || s[0] == '_') then 0 else 1 + NameRun(s[1..])
  }

  predicate IsShellAssignment(token: string) {
    && token != "" && IsNameStart(token[0])
    && NameRun(token) < |token| && token[NameRun(token)] == '='
  }

  /** What follows the last slash of either kind, in lower case. */
  function CommandBasename(command: string): string
    decreases |command|
  {
    if exists i :: 0 <= i < |command| && (command[i] == '/' || command[i] == '\\')
    then assert command != ""; CommandBasename(command[1..])
    else Lower(command)
  }

  function AfterAssignments(tokens: seq<string>): seq<string> {
    if tokens != [] && tokens[0] != "" && IsShellAssignment(tokens[0]) then AfterAssignments(tokens[1..]) else tokens
  }

  /** How many tokens one assignment or option of `env` takes; none where its command begins. */
  function EnvItemLength(tokens: seq<string>): (n: nat)
    ensures n <= |tokens|
  {
    if tokens == [] || tokens[0] == "" then 0
    else if IsShellAssignment(tokens[0]) then 1
    else if tokens[0] == "-u" || tokens[0] == "--unset" then if |tokens| == 1 then 1 else 2
    else if StartsWith(tokens[0], "-") then 1
    else 0
  }

  function AfterEnvItems(tokens: seq<string>): seq<string>
    decreases |tokens|
  {
    if EnvItemLength(tokens) == 0 then tokens else AfterEnvItems(tokens[EnvItemLength(tokens)..])
  }

  function AfterLaunchPrefix(tokens: seq<string>): seq<string> {
    var rest := AfterAssignments(tokens);
    if rest != [] && rest[0] != "" && CommandBasename(rest[0]) == "env" then AfterEnvItems(rest[1..]) else rest
  }

  method StripShellLaunchPrefix(tokens: seq<string>) returns (remaining: seq<string>)
    ensures remaining == AfterLaunchPrefix(tokens)
  {
    hide IsShellAssignment, CommandBasename;
    remaining := tokens;
    while remaining != [] && remaining[0] != "" && IsShellAssignment(remaining[0])
      invariant AfterAssignments(remaining) == AfterAssignments(tokens)
      decreases |remaining|
    {
      remaining := remaining[1..];
    }
    if remaining != [] && remaining[0] != "" && CommandBasename(remaining[0]) == "env" {
      remaining := remaining[1..];
      ghost var all := AfterEnvItems(remaining);
      while remaining != [] && remaining[0] != ""
        invariant AfterEnvItems(remaining) == all
        decreases |remaining|
      {
        var token := remaining[0];
        if IsShellAssignment(token) {
          remaining := remaining[1..];
          continue;
        }
        if token == "-u" || token == "--unset" {
          remaining := if |remaining| == 1 then [] else remaining[2..];
          continue;
        }
        if StartsWith(token, "--unset=") {
          assert token[0] == '-';
          remaining := remaining[1..];
          continue;
        }
        if StartsWith(token, "-") {
          remaining := remaining[1..];
          continue;
        }
        break;
      }
    }
  }

  /** What may stand between `env` and the command it runs. */
  datatype EnvItem = Assignment(token: string) | Unset(flag: string, name: string) | Flag(token: string)

  predicate IsEnvItem(item: EnvItem) {
    match item
    case Assignment(token) => IsShellAssignment(token)
    case Unset(flag, _) => flag == "-u" || flag == "--unset"
    case Flag(token) =>
      StartsWith(token, "-") && token != "-u" && token != "--unset"
  }

  function EnvItemTokens(item: EnvItem): (tokens: seq<string>)
    ensures tokens != []
  {
    match item
    case Assignment(token) => [token]
    case Unset(flag, name) => [flag, name]
    case Flag(token) => [token]
  }

  function EnvTokens(items: seq<EnvItem>): seq<string> {
    if items == [] then []
    else EnvItemTokens(items[0]) + EnvTokens(items[1..])
  }

  predicate BeginsCommand(tokens: seq<string>) {
    tokens == [] || tokens[0] == "" || (!IsShellAssignment(tokens[0]) && !StartsWith(tokens[0], "-"))
  }

  lemma {:induction false} EnvItemsArePassedOver(items: seq<EnvItem>, rest: seq<string>)
    requires forall k :: 0 <= k < |items| ==> IsEnvItem(items[k])
    requires BeginsCommand(rest)
    ensures AfterEnvItems(EnvTokens(items) + rest) == rest
  {
    hide IsShellAssignment, EnvItemTokens;
    if items == [] {
      assert EnvTokens(items) + rest == rest;
    } else {
      EnvItemsArePassedOver(items[1..], rest);
      EnvItemIsPassedOver(items[0], EnvTokens(items[1..]) + rest);
      assert EnvTokens(items) + rest == EnvItemTokens(items[0]) + (EnvTokens(items[1..]) + rest);
    }
  }

  lemma EnvItemIsPassedOver(item: EnvItem, tail: seq<string>)
    requires IsEnvItem(item)
    ensures AfterEnvItems(EnvItemTokens(item) + tail) == AfterEnvItems(tail)
  {
    hide IsShellAssignment;
    DashIsNoName();
    var tokens := EnvItemTokens(item) + tail;
    assert tokens[|EnvItemTokens(item)|..] == tail;
    assert tokens[0] == EnvItemTokens(item)[0];
  }

  lemma DashIsNoName()
    ensures forall token :: IsShellAssignment(token) ==> token != "" && !StartsWith(token, "-")
  {
  }

  lemma {:induction false} AssignmentsArePassedOver(assignments: seq<string>, rest: seq<string>)
    requires forall k :: 0 <= k < |assignments| ==> IsShellAssignment(assignments[k])
    ensures AfterAssignments(assignments + rest) == AfterAssignments(rest)
  {
    hide IsShellAssignment;
    if assignments == [] {
      assert assignments + rest == rest;
    } else {
      DashIsNoName();
      AssignmentsArePassedOver(assignments[1..], rest);
      assert (assignments + rest)[1..] == assignments[1..] + rest;
    }
  }

  /** Assignments, and `env` under any path with its assignments and options, leave the command they launch. */
  lemma LaunchPrefixIsStripped(assignments: seq<string>, env: string, items: seq<EnvItem>, command: seq<string>)
    requires forall k :: 0 <= k < |assignments| ==> IsShellAssignment(assignments[k])
    requires env != "" && !IsShellAssignment(env) && CommandBasename(env) == "env"
    requires forall k :: 0 <= k < |items| ==> IsEnvItem(items[k])
    requires BeginsCommand(command)
    ensures AfterLaunchPrefix(assignments + ([env] + (EnvTokens(items) + command))) == command
  {
    hide IsShellAssignment, CommandBasename, EnvTokens, IsEnvItem, BeginsCommand;
    var rest := [env] + (EnvTokens(items) + command);
    AssignmentsArePassedOver(assignments, rest);
    assert AfterAssignments(rest) == rest;
    assert rest[1..] == EnvTokens(items) + command;
    EnvItemsArePassedOver(items, command);
  }
}
