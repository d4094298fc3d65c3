/** The forms of a Codex command line, written out of options and subcommands, and the verdict on each. */
module CodexForms {
  import opened CodexCommands
  import opened CodexVerdicts
  import opened Text
  import opened Wrappers

  // ---- After the options ----

  /** What a token that is no option stands for: itself in lower case, or the help or version it asks for. */
  function Meant(token: string): string {
    if OptionName(token) in {"--version", "-V"} then "version"
    else if OptionName(token) in {"--help", "-h"} then "help"
    else Lower(token)
  }

  /** Tokens that do not begin with an option: there are none, `--`, or a word, help and version included. */
  predicate BeginsNoOption(tokens: seq<string>) {
    tokens == [] || tokens[0] == "--" || (!TakesValue(OptionName(tokens[0])) && !StandsAlone(OptionName(tokens[0])))
  }

  /** The word that tokens begin with, if it is not the mark that ends all options. */
  predicate BeginsWith(tokens: seq<string>, words: set<string>) {
    tokens != [] && tokens[0] != "--" && Meant(tokens[0]) in words
  }

  lemma {:induction false} ReadsWord(tokens: seq<string>, withValues: set<string>, booleans: set<string>)
    requires tokens != [] && tokens[0] != "--"
    requires OptionName(tokens[0]) !in withValues
    requires OptionName(tokens[0]) in booleans ==> OptionName(tokens[0]) in {"--help", "-h", "--version", "-V"}
    ensures var found := Subcommand(tokens, 0, withValues, booleans);
            found.Some? && Lower(found.value.value) == Meant(tokens[0]) && found.value.index == 0
  {
    hide OptionName, Lower;
    assert Lower("version") == "version" && Lower("help") == "help" by {
      LowerWords();
    }
  }

  lemma LowerWords()
    ensures Lower("version") == "version" && Lower("help") == "help"
    ensures Lower("<prompt>") == "<prompt>"
  {
  }

  lemma ReadsNoWord(tokens: seq<string>, withValues: set<string>, booleans: set<string>)
    requires tokens == [] || tokens[0] == "--"
    ensures var found := Subcommand(tokens, 0, withValues, booleans);
            found.None? || Lower(found.value.value) == "<prompt>"
  {
    hide OptionName, Lower;
    LowerWords();
  }

  lemma VerdictAfterOptions(executable: string, options: seq<GlobalOption>, rest: seq<string>)
    requires forall k :: 0 <= k < |options| ==> IsGlobalOption(options[k])
    ensures IsNonInteractiveCodexSubcommand([executable] + (Run(options) + rest)) == IsNonInteractiveFrom(rest, 0)
  {
    hide IsNonInteractiveFrom, IsGlobalOption;
    VerdictShifts([executable], Run(options) + rest, 0);
    RunIsPassedOver(options, rest);
  }

  lemma OptionSets(name: string)
    requires !TakesValue(name) && !StandsAlone(name)
    ensures name !in GLOBAL_FLAGS_WITH_VALUES
    ensures name in GLOBAL_BOOLEAN_FLAGS ==> name in {"--help", "-h", "--version", "-V"}
  {
    GlobalFlagNames(name);
  }

  /**
   A command with any options before anything else: but for `login` and `cloud`
   it does not run interactively exactly when the word after the options is one
   of these; with no word, or with a prompt after `--`, it does.
  */
  lemma WordForm(executable: string, options: seq<GlobalOption>, rest: seq<string>)
    requires forall k :: 0 <= k < |options| ==> IsGlobalOption(options[k])
    requires BeginsNoOption(rest) && !BeginsWith(rest, {"login", "cloud"})
    ensures IsNonInteractiveCodexSubcommand([executable] + (Run(options) + rest)) <==>
            BeginsWith(rest, {"exec", "e", "review", "logout", "mcp", "plugin", "mcp-server", "app-server",
                              "remote-control", "app", "completion", "update", "doctor", "sandbox", "debug",
                              "execpolicy", "apply", "a", "cloud-tasks", "responses-api-proxy", "stdio-to-uds",
                              "exec-server", "features", "help", "version"})
  {
    hide IsGlobalOption, BeginsNoOption, Meant, IsNonInteractiveFrom, Run;
    VerdictAfterOptions(executable, options, rest);
    VerdictOfWord(rest);
    if rest != [] {
      ListedWords(Meant(rest[0]));
    }
  }

  lemma VerdictOfWord(rest: seq<string>)
    requires BeginsNoOption(rest) && !BeginsWith(rest, {"login", "cloud"})
    ensures IsNonInteractiveFrom(rest, 0) <==> BeginsWith(rest, NON_INTERACTIVE_SUBCOMMANDS)
  {
    hide OptionName, Lower, TakesValue, StandsAlone, Mentions, Subcommand, Meant;
    if rest == [] || rest[0] == "--" {
      ReadsNoWord(rest, GLOBAL_FLAGS_WITH_VALUES, GLOBAL_BOOLEAN_FLAGS);
    } else {
      OptionSets(OptionName(rest[0]));
      ReadsWord(rest, GLOBAL_FLAGS_WITH_VALUES, GLOBAL_BOOLEAN_FLAGS);
    }
  }

  lemma ListedWords(word: string)
    ensures word != "cloud" ==>
              (word in NON_INTERACTIVE_SUBCOMMANDS <==>
               word in {"exec", "e", "review", "logout", "mcp", "plugin", "mcp-server", "app-server", "remote-control",
                        "app", "completion", "update", "doctor", "sandbox", "debug", "execpolicy", "apply", "a",
                        "cloud-tasks", "responses-api-proxy", "stdio-to-uds", "exec-server", "features", "help",
                        "version"})
  {
  }

  // ---- After a subcommand ----

  /** An option of a subcommand that takes options with these names. */
  predicate IsOptionOf(option: GlobalOption, withValues: set<string>, booleans: set<string>) {
    match option
    case Spaced(flag, _) => flag in withValues
    case Joined(flag, _) => flag in withValues || flag in booleans
    case Bare(flag) => flag in booleans
  }

  predicate AreOptionsOf(options: seq<GlobalOption>, withValues: set<string>, booleans: set<string>) {
    forall k :: 0 <= k < |options| ==> IsOptionOf(options[k], withValues, booleans)
  }

  predicate AreNames(names: set<string>) {
    forall name :: name in names ==> '=' !in name && name != "--" && !IsHelpFlag(name) && !IsVersionFlag(name)
  }

  lemma ChildOptionIsPassedOver(
    option: GlobalOption, rest: seq<string>, withValues: set<string>, booleans: set<string>, all: set<string>)
    requires IsOptionOf(option, withValues, booleans) && AreNames(withValues) && AreNames(booleans) && booleans <= all
    requires withValues !! booleans
    ensures Read(OptionTokens(option) + rest, 0, withValues, all) == Skips(|OptionTokens(option)|)
  {
    hide OptionName, IsHelpFlag, IsVersionFlag;
    var tokens := OptionTokens(option) + rest;
    assert tokens[0] == OptionTokens(option)[0];
    match option
    case Spaced(flag, _) =>
      NameOfFlag(flag);
    case Joined(flag, value) =>
      NameOfJoined(flag, value);
      assert tokens[0][|flag|] == '=';
      assert '=' !in "--";
    case Bare(flag) => NameOfFlag(flag);
  }

  /** Where the search for the child begins makes no difference to which word is found. */
  lemma {:induction false} ChildAfterOptions(
    options: seq<GlobalOption>, rest: seq<string>, withValues: set<string>, booleans: set<string>, all: set<string>)
    requires AreOptionsOf(options, withValues, booleans) && AreNames(withValues) && AreNames(booleans)
    requires booleans <= all && withValues !! booleans
    ensures Shifted(Subcommand(rest, 0, withValues, all),
                    Subcommand(Run(options) + rest, 0, withValues, all), |Run(options)|)
    decreases |options|
  {
    hide OptionTokens, IsOptionOf, AreNames, Read;
    if options == [] {
      assert Run(options) + rest == rest;
    } else {
      var first, tail := OptionTokens(options[0]), Run(options[1..]) + rest;
      assert Run(options) + rest == first + tail;
      ChildOptionIsPassedOver(options[0], tail, withValues, booleans, all);
      ChildAfterOptions(options[1..], rest, withValues, booleans, all);
      SubcommandShifts(first, tail, 0, withValues, all);
      OptionHasTokens(options[0]);
      assert Subcommand(first + tail, 0, withValues, all) == Subcommand(first + tail, |first|, withValues, all);
    }
  }

  lemma ChildFound(
    subcommand: string, options: seq<GlobalOption>, rest: seq<string>, withValues: set<string>, booleans: set<string>,
    all: set<string>, words: set<string>)
    requires AreOptionsOf(options, withValues, booleans) && AreNames(withValues) && AreNames(booleans)
    requires booleans <= all && withValues !! booleans
    requires rest == [] || rest[0] == "--" || OptionName(rest[0]) !in withValues
    requires rest != [] && OptionName(rest[0]) in all ==> OptionName(rest[0]) in {"--help", "-h", "--version", "-V"}
    requires "<prompt>" !in words
    ensures Names(Subcommand([subcommand] + (Run(options) + rest), 1, withValues, all), words) <==>
            BeginsWith(rest, words)
  {
    hide OptionName, Lower, Subcommand, AreNames, AreOptionsOf, Meant, Run;
    SubcommandShifts([subcommand], Run(options) + rest, 0, withValues, all);
    ChildAfterOptions(options, rest, withValues, booleans, all);
    if rest == [] || rest[0] == "--" {
      ReadsNoWord(rest, withValues, all);
    } else {
      ReadsWord(rest, withValues, all);
    }
  }

  predicate Holds(tokens: seq<string>, words: set<string>) {
    exists k :: 0 <= k < |tokens| && tokens[k] in words
  }

  lemma SubcommandFound(subcommand: string, rest: seq<string>)
    requires BeginsNoOption([subcommand]) && BeginsWith([subcommand], {"login", "cloud"})
    ensures var found := Subcommand([subcommand] + rest, 0, GLOBAL_FLAGS_WITH_VALUES, GLOBAL_BOOLEAN_FLAGS);
            found.Some? && found.value.index == 0 && Lower(found.value.value) == Meant(subcommand)
  {
    hide OptionName, Lower, Subcommand, Meant, TakesValue, StandsAlone;
    OptionSets(OptionName(subcommand));
    ReadsWord([subcommand] + rest, GLOBAL_FLAGS_WITH_VALUES, GLOBAL_BOOLEAN_FLAGS);
  }

  /**
   `login`, in any case and after any options, with options of its own: it does
   not run interactively exactly when a key or token is read from its input, help
   is asked for anywhere, or its child is `status` or `help`.
  */
  lemma LoginForm(
    executable: string, options: seq<GlobalOption>, login: string, own: seq<GlobalOption>, rest: seq<string>)
    requires forall k :: 0 <= k < |options| ==> IsGlobalOption(options[k])
    requires BeginsNoOption([login]) && BeginsWith([login], {"login"})
    requires AreOptionsOf(own, {"-c", "--config", "--enable", "--disable"},
                          {"--with-api-key", "--with-access-token", "--device-auth"})
    requires rest != [] ==> OptionName(rest[0]) !in
                            {"-c", "--config", "--enable", "--disable", "--with-api-key", "--with-access-token",
                             "--device-auth"}
    ensures IsNonInteractiveCodexSubcommand([executable] + (Run(options) + ([login] + (Run(own) + rest)))) <==>
            || Holds(Run(own) + rest, {"--with-api-key", "--with-access-token", "--help", "-h"})
            || BeginsWith(rest, {"status", "help"})
  {
    hide OptionName, Lower, Subcommand, IsGlobalOption, Run, TakesValue, StandsAlone, IsNonInteractiveFrom;
    VerdictAfterOptions(executable, options, [login] + (Run(own) + rest));
    VerdictOfLogin(login, Run(own) + rest);
    ValueNames();
    LoginNames();
    hide AreOptionsOf, AreNames, BeginsNoOption, Meant, Holds;
    ChildFound(login, own, rest, LOGIN_FLAGS_WITH_VALUES, {"--with-api-key", "--with-access-token", "--device-auth"},
               LOGIN_BOOLEAN_FLAGS, {"status", "help"});
  }

  lemma ValueNames()
    ensures AreNames({"-c", "--config", "--enable", "--disable"})
  {
  }

  lemma LoginNames()
    ensures AreNames({"--with-api-key", "--with-access-token", "--device-auth"})
  {
  }

  lemma VerdictOfLogin(login: string, rest: seq<string>)
    requires BeginsNoOption([login]) && BeginsWith([login], {"login"})
    ensures IsNonInteractiveFrom([login] + rest, 0) <==>
            || Holds(rest, {"--with-api-key", "--with-access-token", "--help", "-h"})
            || Names(Subcommand([login] + rest, 1, LOGIN_FLAGS_WITH_VALUES, LOGIN_BOOLEAN_FLAGS), {"status", "help"})
  {
    hide OptionName, Lower, Subcommand, BeginsNoOption, Meant;
    SubcommandFound(login, rest);
    assert From([login] + rest, 1) == rest;
  }

  /**
   `cloud`, likewise: it does not run interactively exactly when help or version
   is asked for anywhere, or its child is one of these.
  */
  lemma CloudForm(
    executable: string, options: seq<GlobalOption>, cloud: string, own: seq<GlobalOption>, rest: seq<string>)
    requires forall k :: 0 <= k < |options| ==> IsGlobalOption(options[k])
    requires BeginsNoOption([cloud]) && BeginsWith([cloud], {"cloud"})
    requires AreOptionsOf(own, {"-c", "--config", "--enable", "--disable"}, {})
    requires rest != [] ==> OptionName(rest[0]) !in {"-c", "--config", "--enable", "--disable"}
    ensures IsNonInteractiveCodexSubcommand([executable] + (Run(options) + ([cloud] + (Run(own) + rest)))) <==>
            || Holds(Run(own) + rest, {"--help", "-h", "--version", "-V"})
            || BeginsWith(rest, {"exec", "status", "list", "apply", "diff", "help"})
  {
    hide OptionName, Lower, Subcommand, IsGlobalOption, Run, TakesValue, StandsAlone, IsNonInteractiveFrom;
    VerdictAfterOptions(executable, options, [cloud] + (Run(own) + rest));
    VerdictOfCloud(cloud, Run(own) + rest);
    ValueNames();
    assert AreNames({});
    hide AreOptionsOf, AreNames, BeginsNoOption, Meant, Holds;
    ChildFound(cloud, own, rest, CLOUD_FLAGS_WITH_VALUES, {}, CLOUD_BOOLEAN_FLAGS,
               {"exec", "status", "list", "apply", "diff", "help"});
  }

  lemma VerdictOfCloud(cloud: string, rest: seq<string>)
    requires BeginsNoOption([cloud]) && BeginsWith([cloud], {"cloud"})
    ensures IsNonInteractiveFrom([cloud] + rest, 0) <==>
            || Holds(rest, {"--help", "-h", "--version", "-V"})
            || Names(Subcommand([cloud] + rest, 1, CLOUD_FLAGS_WITH_VALUES, CLOUD_BOOLEAN_FLAGS),
                     {"exec", "status", "list", "apply", "diff", "help"})
  {
    hide OptionName, Lower, Subcommand, BeginsNoOption, Meant;
    SubcommandFound(cloud, rest);
    assert From([cloud] + rest, 1) == rest;
  }

  // ---- The program ----

  predicate HasNoSlash(name: string) {
    forall i :: 0 <= i < |name| ==> name[i] != '/' && name[i] != '\\'
  }

  lemma {:induction false} BasenameExactly(directory: string, name: string)
    requires HasNoSlash(name)
    requires directory == "" || directory[|directory| - 1] == '/' || directory[|directory| - 1] == '\\'
    ensures CommandBasename(directory + name) == Lower(name)
    decreases |directory|
  {
    hide Lower;
    if directory == "" {
      assert directory + name == name;
    } else {
      var whole := directory + name;
      assert whole[|directory| - 1] == directory[|directory| - 1];
      BasenameExactly(directory[1..], name);
      assert whole[1..] == directory[1..] + name;
    }
  }

  /** The program is told by the name after the last slash of either kind, in any case. */
  lemma ProgramExactly(directory: string, name: string, rest: seq<string>)
    requires HasNoSlash(name) && directory + name != ""
    requires directory == "" || directory[|directory| - 1] == '/' || directory[|directory| - 1] == '\\'
    ensures var executable := Executable([directory + name] + rest);
            && (IsCodexExecutable(executable) <==> Lower(name) in {"codex", "codex.exe", "codex.cmd"})
            && (IsClaudeExecutable(executable) <==> Lower(name) in {"claude", "claude.exe", "claude.cmd"})
  {
    hide CommandBasename, Lower;
    BasenameExactly(directory, name);
  }

  lemma NamedExactly(token: string, flag: string)
    requires '=' !in flag
    ensures OptionName(token) == flag <==> token == flag || flag + "=" <= token
  {
    hide OptionName;
    if OptionName(token) == flag && token != flag {
      assert token[..|flag| + 1] == flag + "=";
    }
    if flag + "=" <= token {
      NameOfJoined(flag, token[|flag| + 1..]);
      assert token == flag + "=" + token[|flag| + 1..];
    }
    if token == flag {
      NameOfFlag(flag);
    }
  }

  /** Claude runs interactively unless some token after it asks for help or the version, or for printing. */
  lemma ClaudeExactly(tokens: seq<string>)
    ensures RunsClaudeInteractively(tokens) <==>
            && IsClaudeExecutable(Executable(tokens))
            && forall k :: 1 <= k < |tokens| ==>
                             && tokens[k] !in {"--help", "-h", "--version", "-V", "-p", "--print"}
                             && !("-p=" <= tokens[k]) && !("--print=" <= tokens[k])
  {
    hide OptionName, Executable;
    forall k | 1 <= k < |tokens|
      ensures IsPrintFlag(tokens[k]) <==>
              tokens[k] in {"-p", "--print"} || "-p=" <= tokens[k] || "--print=" <= tokens[k]
    {
      NamedExactly(tokens[k], "-p");
      NamedExactly(tokens[k], "--print");
      assert "-p" + "=" == "-p=" && "--print" + "=" == "--print=";
    }
  }
}
