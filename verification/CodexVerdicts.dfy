/** The subcommand of a Codex command line, past its options, and whether it runs interactively. */
module CodexVerdicts {
  import opened CodexCommands
  import opened Sequences
  import opened Text
  import opened Wrappers

  const NON_INTERACTIVE_SUBCOMMANDS := {
    "exec", "e", "review", "logout", "mcp", "plugin", "mcp-server", "app-server", "remote-control", "app",
    "completion", "update", "doctor", "sandbox", "debug", "execpolicy", "apply", "a", "cloud", "cloud-tasks",
    "responses-api-proxy", "stdio-to-uds", "exec-server", "features", "help", "version"
  }
  const NON_INTERACTIVE_CLOUD_SUBCOMMANDS := {"exec", "status", "list", "apply", "diff", "help"}
  const NON_INTERACTIVE_LOGIN_SUBCOMMANDS := {"status", "help"}
  const GLOBAL_FLAGS_WITH_VALUES := {
    "--config", "-c", "--enable", "--disable", "--remote", "--remote-auth-token-env", "--image", "-i", "--model",
    "-m", "--local-provider", "--profile", "-p", "--sandbox", "-s", "--cd", "-C", "--add-dir",
    "--ask-for-approval", "-a"
  }
  const GLOBAL_BOOLEAN_FLAGS := {
    "--oss", "--dangerously-bypass-approvals-and-sandbox", "--search", "--no-alt-screen", "--help", "-h",
    "--version", "-V"
  }
  const LOGIN_FLAGS_WITH_VALUES := {"-c", "--config", "--enable", "--disable"}
  const LOGIN_BOOLEAN_FLAGS := {"--with-api-key", "--with-access-token", "--device-auth", "--help", "-h"}
  const CLOUD_FLAGS_WITH_VALUES := {"-c", "--config", "--enable", "--disable"}
  const CLOUD_BOOLEAN_FLAGS := {"--help", "-h", "--version", "-V"}

  datatype CommandToken = CommandToken(value: string, index: nat)

  /** The part of a token before its first equals sign. */
  function OptionName(token: string): (name: string)
    ensures name <= token && '=' !in name
    ensures name == token || token[|name|] == '='
  {
    if token == "" || token[0] == '=' then "" else [token[0]] + OptionName(token[1..])
  }

  predicate IsHelpFlag(token: string) {
    token == "--help" || token == "-h"
  }

  predicate IsVersionFlag(token: string) {
    token == "--version" || token == "-V"
  }

  predicate IsPrintFlag(token: string) {
    OptionName(token) == "-p" || OptionName(token) == "--print"
  }

  // ---- Finding the subcommand ----

  /** What a token turns out to be: the answer, or an option that takes up so many tokens. */
  datatype Reading = Answer(found: Option<CommandToken>) | Skips(length: nat)

  function Read(tokens: seq<string>, i: nat, withValues: set<string>, booleans: set<string>): (r: Reading)
    requires i < |tokens|
    ensures r.Skips? ==> r.length > 0
  {
    var token, name := tokens[i], OptionName(tokens[i]);
    if token == "--" then
      Answer(if i + 1 < |tokens| && tokens[i + 1] != "" then Some(CommandToken("<prompt>", i + 1)) else None)
    else if IsHelpFlag(name) || IsVersionFlag(name) then
      Answer(Some(CommandToken(if IsVersionFlag(name) then "version" else "help", i)))
    else if name in withValues then Skips(if name == token then 2 else 1)
    else if name in booleans then Skips(1)
    else Answer(Some(CommandToken(token, i)))
  }

  function Subcommand(
    tokens: seq<string>, i: nat, withValues: set<string>, booleans: set<string>): Option<CommandToken>
    decreases |tokens| - i
  {
    if i >= |tokens| then None
    else
      match Read(tokens, i, withValues, booleans)
      case Answer(found) => found
      case Skips(length) => Subcommand(tokens, i + length, withValues, booleans)
  }

  method FindCodexSubcommand(
    tokens: seq<string>, startIndex: nat, withValues: set<string>, booleans: set<string>)
    returns (found: Option<CommandToken>)
    ensures found == Subcommand(tokens, startIndex, withValues, booleans)
  {
    hide OptionName;
    var i := startIndex;
    while i < |tokens|
      invariant Subcommand(tokens, i, withValues, booleans) == Subcommand(tokens, startIndex, withValues, booleans)
      decreases |tokens| - i
    {
      var token := tokens[i];
      if token == "--" {
        return if i + 1 < |tokens| && tokens[i + 1] != "" then Some(CommandToken("<prompt>", i + 1)) else None;
      }
      var optionName := OptionName(token);
      if IsHelpFlag(optionName) || IsVersionFlag(optionName) {
        return Some(CommandToken(if IsVersionFlag(optionName) then "version" else "help", i));
      }
      if optionName in withValues {
        if optionName == token {
          i := i + 1;
        }
        i := i + 1;
        continue;
      }
      if optionName in booleans {
        i := i + 1;
        continue;
      }
      return Some(CommandToken(token, i));
    }
    return None;
  }

  // ---- The verdict ----

  predicate Mentions(tokens: seq<string>, words: set<string>) {
    exists k :: 0 <= k < |tokens| && tokens[k] in words
  }

  function From(tokens: seq<string>, i: nat): seq<string> {
    if i <= |tokens| then tokens[i..] else []
  }

  predicate Names(found: Option<CommandToken>, words: set<string>) {
    found.Some? && Lower(found.value.value) in words
  }

  /** The verdict when the options before the subcommand start at `start`. */
  predicate IsNonInteractiveFrom(tokens: seq<string>, start: nat) {
    match Subcommand(tokens, start, GLOBAL_FLAGS_WITH_VALUES, GLOBAL_BOOLEAN_FLAGS)
    case None => false
    case Some(subcommand) =>
      var name, next := Lower(subcommand.value), subcommand.index + 1;
      if name == "login" then
        || Mentions(From(tokens, next), {"--with-api-key", "--with-access-token"})
        || Mentions(From(tokens, next), {"--help", "-h"})
        || Names(Subcommand(tokens, next, LOGIN_FLAGS_WITH_VALUES, LOGIN_BOOLEAN_FLAGS),
                 NON_INTERACTIVE_LOGIN_SUBCOMMANDS)
      else if name == "cloud" then
        || Mentions(From(tokens, next), {"--help", "-h", "--version", "-V"})
        || Names(Subcommand(tokens, next, CLOUD_FLAGS_WITH_VALUES, CLOUD_BOOLEAN_FLAGS),
                 NON_INTERACTIVE_CLOUD_SUBCOMMANDS)
      else name in NON_INTERACTIVE_SUBCOMMANDS
  }

  predicate IsNonInteractiveCodexSubcommand(tokens: seq<string>) {
    IsNonInteractiveFrom(tokens, 1)
  }

  // ---- Options before the subcommand do not matter ----

  /** An option with its value in the next token, an option with whatever follows an equals sign, or a bare one. */
  datatype GlobalOption = Spaced(flag: string, value: string) | Joined(flag: string, value: string) | Bare(flag: string)

  /** The options of Codex that take a value. */
  predicate TakesValue(flag: string) {
    flag in
    {"--config", "-c", "--enable", "--disable", "--remote", "--remote-auth-token-env", "--image", "-i", "--model", "-m",
     "--local-provider", "--profile", "-p", "--sandbox", "-s", "--cd", "-C", "--add-dir", "--ask-for-approval", "-a"}
  }

  /** The options of Codex that take none, help and version apart. */
  predicate StandsAlone(flag: string) {
    flag in {"--oss", "--dangerously-bypass-approvals-and-sandbox", "--search", "--no-alt-screen"}
  }

  predicate IsGlobalOption(option: GlobalOption) {
    match option
    case Spaced(flag, _) => TakesValue(flag)
    case Joined(flag, _) => TakesValue(flag) || StandsAlone(flag)
    case Bare(flag) => StandsAlone(flag)
  }

  function OptionTokens(option: GlobalOption): seq<string> {
    match option
    case Spaced(flag, value) => [flag, value]
    case Joined(flag, value) => [flag + "=" + value]
    case Bare(flag) => [flag]
  }

  function Run(options: seq<GlobalOption>): seq<string> {
    if options == [] then [] else OptionTokens(options[0]) + Run(options[1..])
  }

  predicate Shifted(found: Option<CommandToken>, moved: Option<CommandToken>, offset: nat) {
    moved == match found
             case None => None
             case Some(token) => Some(token.(index := token.index + offset))
  }

  lemma {:induction false} SubcommandShifts(
    before: seq<string>, rest: seq<string>, i: nat, withValues: set<string>, booleans: set<string>)
    ensures Shifted(Subcommand(rest, i, withValues, booleans),
                    Subcommand(before + rest, |before| + i, withValues, booleans), |before|)
    decreases |rest| - i
  {
    hide OptionName;
    if i < |rest| {
      assert (before + rest)[|before| + i] == rest[i];
      assert i + 1 < |rest| ==> (before + rest)[|before| + i + 1] == rest[i + 1];
      match Read(rest, i, withValues, booleans)
      case Answer(_) =>
      case Skips(length) => SubcommandShifts(before, rest, i + length, withValues, booleans);
    }
  }

  lemma VerdictShifts(before: seq<string>, rest: seq<string>, i: nat)
    ensures IsNonInteractiveFrom(before + rest, |before| + i) == IsNonInteractiveFrom(rest, i)
  {
    hide Subcommand, Lower, Mentions;
    SubcommandShifts(before, rest, i, GLOBAL_FLAGS_WITH_VALUES, GLOBAL_BOOLEAN_FLAGS);
    var found := Subcommand(rest, i, GLOBAL_FLAGS_WITH_VALUES, GLOBAL_BOOLEAN_FLAGS);
    if found.Some? {
      var next := found.value.index + 1;
      SubcommandShifts(before, rest, next, LOGIN_FLAGS_WITH_VALUES, LOGIN_BOOLEAN_FLAGS);
      SubcommandShifts(before, rest, next, CLOUD_FLAGS_WITH_VALUES, CLOUD_BOOLEAN_FLAGS);
      assert From(before + rest, |before| + next) == From(rest, next);
    }
  }

  lemma {:induction false} NameOfFlag(flag: string)
    requires '=' !in flag
    ensures OptionName(flag) == flag
  {
    if flag != "" {
      assert flag[0] in flag && forall c :: c in flag[1..] ==> c in flag;
      NameOfFlag(flag[1..]);
    }
  }

  lemma {:induction false} NameOfJoined(flag: string, value: string)
    requires '=' !in flag
    ensures OptionName(flag + "=" + value) == flag
  {
    if flag != "" {
      assert flag[0] in flag && forall c :: c in flag[1..] ==> c in flag;
      NameOfJoined(flag[1..], value);
      assert (flag + "=" + value)[1..] == flag[1..] + "=" + value;
    } else {
      assert (flag + "=" + value)[0] == '=';
    }
  }

  lemma GlobalFlagNames(flag: string)
    ensures TakesValue(flag) <==> flag in GLOBAL_FLAGS_WITH_VALUES
    ensures StandsAlone(flag) <==> flag in GLOBAL_BOOLEAN_FLAGS && !IsHelpFlag(flag) && !IsVersionFlag(flag)
    ensures TakesValue(flag) || StandsAlone(flag) ==>
              '=' !in flag && flag != "--" && !IsHelpFlag(flag) && !IsVersionFlag(flag)
  {
  }

  lemma OptionIsPassedOver(option: GlobalOption, rest: seq<string>)
    requires IsGlobalOption(option)
    ensures Read(OptionTokens(option) + rest, 0, GLOBAL_FLAGS_WITH_VALUES, GLOBAL_BOOLEAN_FLAGS)
         == Skips(|OptionTokens(option)|)
  {
    hide OptionName, IsHelpFlag, IsVersionFlag, TakesValue, StandsAlone;
    GlobalFlagNames(option.flag);
    var tokens := OptionTokens(option) + rest;
    assert tokens[0] == OptionTokens(option)[0];
    match option
    case Spaced(flag, _) =>
      NameOfFlag(flag);
    case Joined(flag, value) =>
      NameOfJoined(flag, value);
      assert tokens[0][|flag|] == '=';
      assert '=' !in "--";
    case Bare(flag) => NameOfFlag(flag);
  }

  lemma {:induction false} RunIsPassedOver(options: seq<GlobalOption>, rest: seq<string>)
    requires forall k :: 0 <= k < |options| ==> IsGlobalOption(options[k])
    ensures IsNonInteractiveFrom(Run(options) + rest, 0) == IsNonInteractiveFrom(rest, 0)
    decreases |options|
  {
    hide IsNonInteractiveFrom, IsGlobalOption, OptionTokens;
    if options == [] {
      assert Run(options) + rest == rest;
    } else {
      var first, tail := OptionTokens(options[0]), Run(options[1..]) + rest;
      assert Run(options) + rest == first + tail;
      OptionChangesNothing(options[0], tail);
      RunIsPassedOver(options[1..], rest);
    }
  }

  lemma OptionHasTokens(option: GlobalOption)
    ensures OptionTokens(option) != []
  {
  }

  lemma OptionChangesNothing(option: GlobalOption, rest: seq<string>)
    requires IsGlobalOption(option)
    ensures IsNonInteractiveFrom(OptionTokens(option) + rest, 0) == IsNonInteractiveFrom(rest, 0)
  {
    hide IsNonInteractiveFrom, IsGlobalOption, Read, OptionTokens;
    var first := OptionTokens(option);
    assert |first| > 0 by {
      OptionHasTokens(option);
    }
    OptionIsPassedOver(option, rest);
    VerdictShifts(first, rest, 0);
    SameFrom(first + rest, |first|);
  }

  /** An option's tokens at the start may as well be skipped. */
  lemma SameFrom(tokens: seq<string>, length: nat)
    requires tokens != []
    requires Read(tokens, 0, GLOBAL_FLAGS_WITH_VALUES, GLOBAL_BOOLEAN_FLAGS) == Skips(length)
    ensures IsNonInteractiveFrom(tokens, 0) == IsNonInteractiveFrom(tokens, length)
  {
    hide Read, Lower, Mentions, From;
  }

  /**
   Any run of global options, values spaced or joined, help and version apart,
   can be put between the executable, options that follow it, and the rest of
   the command without changing the verdict.
  */
  lemma GlobalOptionsDoNotMatter(
    executable: string, before: seq<GlobalOption>, inserted: seq<GlobalOption>, rest: seq<string>)
    requires forall k :: 0 <= k < |before| ==> IsGlobalOption(before[k])
    requires forall k :: 0 <= k < |inserted| ==> IsGlobalOption(inserted[k])
    ensures IsNonInteractiveCodexSubcommand([executable] + (Run(before) + (Run(inserted) + rest)))
         == IsNonInteractiveCodexSubcommand([executable] + (Run(before) + rest))
  {
    hide IsNonInteractiveFrom, IsGlobalOption;
    VerdictShifts([executable], Run(before) + (Run(inserted) + rest), 0);
    VerdictShifts([executable], Run(before) + rest, 0);
    RunIsPassedOver(before, Run(inserted) + rest);
    RunIsPassedOver(inserted, rest);
    RunIsPassedOver(before, rest);
  }

  // ---- From the command line ----

  const MAX_WORDS := 32

  predicate IsCodexExecutable(name: string) {
    name == "codex" || name == "codex.exe" || name == "codex.cmd"
  }

  predicate IsClaudeExecutable(name: string) {
    name == "claude" || name == "claude.exe" || name == "claude.cmd"
  }

  function Executable(tokens: seq<string>): string {
    if tokens != [] && tokens[0] != "" then CommandBasename(tokens[0]) else ""
  }

  predicate RunsCodexInteractively(tokens: seq<string>) {
    IsCodexExecutable(Executable(tokens)) && !IsNonInteractiveCodexSubcommand(tokens)
  }

  predicate RunsClaudeInteractively(tokens: seq<string>) {
    && IsClaudeExecutable(Executable(tokens))
    && forall k :: 1 <= k < |tokens| ==>
                     !IsHelpFlag(tokens[k]) && !IsVersionFlag(tokens[k]) && !IsPrintFlag(tokens[k])
  }

  /** The words that are looked at: the first 32 after trimming, less the launch prefix. No word is empty. */
  function LaunchTokens(command: string): seq<string> {
    AfterLaunchPrefix(Take(Words(Trim(command)), MAX_WORDS))
  }

  method ShouldUseRendererBackedCodexTerminal(command: Option<string>) returns (answer: bool)
    ensures answer <==> command.Some? && command.value != "" && RunsCodexInteractively(LaunchTokens(command.value))
  {
    hide Words, AfterLaunchPrefix, CommandBasename, IsNonInteractiveCodexSubcommand;
    if command == None || command.value == "" {
      return false;
    }
    var words := TokenizeLeadingShellWords(Trim(command.value), MAX_WORDS);
    var tokens := StripShellLaunchPrefix(words);
    if !IsCodexExecutable(Executable(tokens)) {
      return false;
    }
    return !IsNonInteractiveCodexSubcommand(tokens);
  }

  method ShouldUseRendererBackedInteractiveTerminal(command: Option<string>) returns (answer: bool)
    ensures answer <==>
            && command.Some? && command.value != ""
            && (|| RunsCodexInteractively(LaunchTokens(command.value))
                || RunsClaudeInteractively(LaunchTokens(command.value)))
  {
    hide Words, AfterLaunchPrefix, CommandBasename, IsNonInteractiveCodexSubcommand, OptionName;
    if command == None || command.value == "" {
      return false;
    }
    var words := TokenizeLeadingShellWords(Trim(command.value), MAX_WORDS);
    var tokens := StripShellLaunchPrefix(words);
    var executable := Executable(tokens);
    if IsCodexExecutable(executable) {
      return !IsNonInteractiveCodexSubcommand(tokens);
    }
    if IsClaudeExecutable(executable) {
      return !exists k :: 1 <= k < |tokens|
                          && (IsHelpFlag(tokens[k]) || IsVersionFlag(tokens[k]) || IsPrintFlag(tokens[k]));
    }
    return false;
  }
}
