/**
 What the limit of 32 words changes: when the verdict on a command's first words
 differs from the verdict on all of them.
*/
module CodexWordLimit {
  import opened CodexCommands
  import opened CodexVerdicts
  import opened Sequences
  import opened Text
  import opened Wrappers

  // ---- Which tokens decide ----

  /** Whether token `k` makes the command one that does not run interactively. */
  predicate Decides(tokens: seq<string>, start: nat, k: nat) {
    && k < |tokens|
    && match Subcommand(tokens, start, GLOBAL_FLAGS_WITH_VALUES, GLOBAL_BOOLEAN_FLAGS)
       case None => false
       case Some(subcommand) =>
         var name, next := Lower(subcommand.value), subcommand.index + 1;
         if name == "login" then
           k >= next
           && (|| tokens[k] in {"--with-api-key", "--with-access-token", "--help", "-h"}
               || NamesAt(Subcommand(tokens, next, LOGIN_FLAGS_WITH_VALUES, LOGIN_BOOLEAN_FLAGS),
                          NON_INTERACTIVE_LOGIN_SUBCOMMANDS, k))
         else if name == "cloud" then
           k >= next
           && (|| tokens[k] in {"--help", "-h", "--version", "-V"}
               || NamesAt(Subcommand(tokens, next, CLOUD_FLAGS_WITH_VALUES, CLOUD_BOOLEAN_FLAGS),
                          NON_INTERACTIVE_CLOUD_SUBCOMMANDS, k))
         else k == subcommand.index && name in NON_INTERACTIVE_SUBCOMMANDS
  }

  predicate NamesAt(found: Option<CommandToken>, words: set<string>, k: nat) {
    Names(found, words) && found.value.index == k
  }

  /** A subcommand is found where there are tokens, and nowhere before the search begins. */
  lemma {:induction false} SubcommandIsThere(
    tokens: seq<string>, i: nat, withValues: set<string>, booleans: set<string>)
    ensures var found := Subcommand(tokens, i, withValues, booleans);
            found.Some? ==> i <= found.value.index < |tokens|
    decreases |tokens| - i
  {
    hide OptionName;
    if i < |tokens| {
      match Read(tokens, i, withValues, booleans)
      case Answer(_) =>
      case Skips(length) => SubcommandIsThere(tokens, i + length, withValues, booleans);
    }
  }

  /** In the first `n` tokens the same subcommand is found, unless it stands after them. */
  lemma {:induction false} SubcommandOfFirst(
    tokens: seq<string>, n: nat, i: nat, withValues: set<string>, booleans: set<string>)
    requires n <= |tokens|
    ensures var found := Subcommand(tokens, i, withValues, booleans);
            Subcommand(tokens[..n], i, withValues, booleans)
            == if found.Some? && found.value.index < n then found else None
    decreases |tokens| - i
  {
    hide OptionName;
    if i >= n {
      SubcommandIsThere(tokens, i, withValues, booleans);
    } else {
      assert tokens[..n][i] == tokens[i];
      assert i + 1 < n ==> tokens[..n][i + 1] == tokens[i + 1];
      match Read(tokens, i, withValues, booleans)
      case Answer(_) =>
      case Skips(length) => SubcommandOfFirst(tokens, n, i + length, withValues, booleans);
    }
  }

  lemma MentionsSomewhere(tokens: seq<string>, next: nat, words: set<string>)
    ensures Mentions(From(tokens, next), words) <==>
            exists k: nat :: next <= k < |tokens| && tokens[k] in words
  {
    var rest := From(tokens, next);
    if Mentions(rest, words) {
      var j :| 0 <= j < |rest| && rest[j] in words;
      assert tokens[next + j] == rest[j];
    }
    if k: nat :| next <= k < |tokens| && tokens[k] in words {
      assert rest[k - next] == tokens[k];
    }
  }

  /** The verdict is that some token decides so. */
  lemma VerdictIsDecided(tokens: seq<string>, start: nat)
    ensures IsNonInteractiveFrom(tokens, start) <==> exists k: nat :: Decides(tokens, start, k)
  {
    hide Subcommand, Lower, Mentions, From;
    var found := Subcommand(tokens, start, GLOBAL_FLAGS_WITH_VALUES, GLOBAL_BOOLEAN_FLAGS);
    if found.Some? {
      SubcommandIsThere(tokens, start, GLOBAL_FLAGS_WITH_VALUES, GLOBAL_BOOLEAN_FLAGS);
      var next := found.value.index + 1;
      if Lower(found.value.value) == "login" {
        LoginIsDecided(tokens, start, found.value);
      } else if Lower(found.value.value) == "cloud" {
        CloudIsDecided(tokens, start, found.value);
      } else if IsNonInteractiveFrom(tokens, start) {
        assert Decides(tokens, start, found.value.index);
      }
    }
  }

  lemma LoginIsDecided(tokens: seq<string>, start: nat, subcommand: CommandToken)
    requires Subcommand(tokens, start, GLOBAL_FLAGS_WITH_VALUES, GLOBAL_BOOLEAN_FLAGS) == Some(subcommand)
    requires Lower(subcommand.value) == "login"
    ensures IsNonInteractiveFrom(tokens, start) <==> exists k: nat :: Decides(tokens, start, k)
  {
    hide Subcommand, Lower, Mentions, From;
    var next := subcommand.index + 1;
    MentionsSomewhere(tokens, next, {"--with-api-key", "--with-access-token"});
    MentionsSomewhere(tokens, next, {"--help", "-h"});
    SubcommandIsThere(tokens, next, LOGIN_FLAGS_WITH_VALUES, LOGIN_BOOLEAN_FLAGS);
    var child := Subcommand(tokens, next, LOGIN_FLAGS_WITH_VALUES, LOGIN_BOOLEAN_FLAGS);
    if Names(child, NON_INTERACTIVE_LOGIN_SUBCOMMANDS) {
      assert Decides(tokens, start, child.value.index);
    }
    if k: nat :| next <= k < |tokens| && tokens[k] in {"--with-api-key", "--with-access-token", "--help", "-h"} {
      assert Decides(tokens, start, k);
    }
  }

  lemma CloudIsDecided(tokens: seq<string>, start: nat, subcommand: CommandToken)
    requires Subcommand(tokens, start, GLOBAL_FLAGS_WITH_VALUES, GLOBAL_BOOLEAN_FLAGS) == Some(subcommand)
    requires Lower(subcommand.value) == "cloud"
    ensures IsNonInteractiveFrom(tokens, start) <==> exists k: nat :: Decides(tokens, start, k)
  {
    hide Subcommand, Lower, Mentions, From;
    var next := subcommand.index + 1;
    MentionsSomewhere(tokens, next, {"--help", "-h", "--version", "-V"});
    SubcommandIsThere(tokens, next, CLOUD_FLAGS_WITH_VALUES, CLOUD_BOOLEAN_FLAGS);
    var child := Subcommand(tokens, next, CLOUD_FLAGS_WITH_VALUES, CLOUD_BOOLEAN_FLAGS);
    if Names(child, NON_INTERACTIVE_CLOUD_SUBCOMMANDS) {
      assert Decides(tokens, start, child.value.index);
    }
    if k: nat :| next <= k < |tokens| && tokens[k] in {"--help", "-h", "--version", "-V"} {
      assert Decides(tokens, start, k);
    }
  }

  /** What decides among the first `n` tokens is what decides among all and stands among those. */
  lemma DecidesInFirst(tokens: seq<string>, start: nat, n: nat, k: nat)
    requires n <= |tokens|
    ensures Decides(tokens[..n], start, k) <==> Decides(tokens, start, k) && k < n
  {
    hide Subcommand, Lower;
    SubcommandOfFirst(tokens, n, start, GLOBAL_FLAGS_WITH_VALUES, GLOBAL_BOOLEAN_FLAGS);
    var found := Subcommand(tokens, start, GLOBAL_FLAGS_WITH_VALUES, GLOBAL_BOOLEAN_FLAGS);
    if found.Some? {
      var next := found.value.index + 1;
      SubcommandOfFirst(tokens, n, next, LOGIN_FLAGS_WITH_VALUES, LOGIN_BOOLEAN_FLAGS);
      SubcommandOfFirst(tokens, n, next, CLOUD_FLAGS_WITH_VALUES, CLOUD_BOOLEAN_FLAGS);
    }
  }

  /** On the first `n` tokens the verdict is that one of these decides so. */
  lemma VerdictOfFirst(tokens: seq<string>, start: nat, n: nat)
    requires n <= |tokens|
    ensures IsNonInteractiveFrom(tokens[..n], start) <==> exists k: nat :: k < n && Decides(tokens, start, k)
  {
    hide IsNonInteractiveFrom, Decides;
    VerdictIsDecided(tokens[..n], start);
    if k: nat :| Decides(tokens[..n], start, k) {
      DecidesInFirst(tokens, start, n, k);
    }
    if k: nat :| k < n && Decides(tokens, start, k) {
      DecidesInFirst(tokens, start, n, k);
    }
  }

  // ---- The launch prefix in the first words ----

  function AssignmentCount(tokens: seq<string>): (n: nat)
    ensures n <= |tokens| && AfterAssignments(tokens) == tokens[n..]
  {
    if tokens != [] && tokens[0] != "" && IsShellAssignment(tokens[0]) then 1 + AssignmentCount(tokens[1..]) else 0
  }

  function EnvItemsLength(tokens: seq<string>): (n: nat)
    ensures n <= |tokens| && AfterEnvItems(tokens) == tokens[n..]
    decreases |tokens|
  {
    var length := EnvItemLength(tokens);
    if length == 0 then 0 else length + EnvItemsLength(tokens[length..])
  }

  /** How many words the launch prefix takes up. */
  function PrefixLength(tokens: seq<string>): (n: nat)
    ensures n <= |tokens| && AfterLaunchPrefix(tokens) == tokens[n..]
  {
    hide CommandBasename, AfterAssignments, AfterEnvItems, AssignmentCount, EnvItemsLength;
    var n := AssignmentCount(tokens);
    if n < |tokens| && tokens[n] != "" && CommandBasename(tokens[n]) == "env" then
      assert tokens[n..][1..] == tokens[n + 1..];
      n + 1 + EnvItemsLength(tokens[n + 1..])
    else n
  }

  lemma {:induction false} AssignmentsOfFirst(tokens: seq<string>, n: nat)
    requires n <= |tokens|
    ensures AfterAssignments(tokens[..n]) == From(tokens[..n], AssignmentCount(tokens))
    decreases |tokens|
  {
    hide IsShellAssignment;
    if n > 0 && tokens[0] != "" && IsShellAssignment(tokens[0]) {
      AssignmentsOfFirst(tokens[1..], n - 1);
      assert tokens[..n][1..] == tokens[1..][..n - 1];
    }
  }

  lemma EnvItemOfFirst(tokens: seq<string>, n: nat)
    requires 0 < n <= |tokens|
    ensures EnvItemLength(tokens[..n]) == if EnvItemLength(tokens) <= n then EnvItemLength(tokens) else n
  {
    hide IsShellAssignment;
    assert tokens[..n][0] == tokens[0];
  }

  lemma {:induction false} EnvItemsOfFirst(tokens: seq<string>, n: nat)
    requires n <= |tokens|
    ensures AfterEnvItems(tokens[..n]) == From(tokens[..n], EnvItemsLength(tokens))
    decreases |tokens|
  {
    assert AfterEnvItems([]) == [];
    hide EnvItemLength;
    if n == 0 {
    } else {
      EnvItemOfFirst(tokens, n);
      var length := EnvItemLength(tokens);
      if 0 < length <= n {
        EnvItemsOfFirst(tokens[length..], n - length);
        assert tokens[..n][length..] == tokens[length..][..n - length];
      } else if length > n {
        assert tokens[..n][n..] == [];
      }
    }
  }

  /** Cutting the words short cuts short what is left of the launch prefix and what follows it. */
  lemma LaunchPrefixOfFirst(tokens: seq<string>, n: nat)
    requires n <= |tokens|
    ensures AfterLaunchPrefix(tokens[..n]) == From(tokens[..n], PrefixLength(tokens))
  {
    hide AfterAssignments, AfterEnvItems, AssignmentCount, EnvItemsLength, CommandBasename;
    AssignmentsOfFirst(tokens, n);
    var a := AssignmentCount(tokens);
    if a < n && tokens[a] != "" && CommandBasename(tokens[a]) == "env" {
      EnvItemsOfFirst(tokens[a + 1..], n - a - 1);
      assert tokens[..n][a..][1..] == tokens[a + 1..][..n - a - 1];
    }
  }

  /** All that follows the launch prefix, however long the command is. */
  function AllTokens(command: string): seq<string> {
    AfterLaunchPrefix(Words(Trim(command)))
  }

  /** How many of these are looked at: the 32 words less those of the launch prefix. */
  function Room(command: string): nat {
    var prefix := PrefixLength(Words(Trim(command)));
    if prefix < MAX_WORDS then MAX_WORDS - prefix else 0
  }

  lemma LaunchTokensAreFirst(command: string)
    ensures LaunchTokens(command) == Take(AllTokens(command), Room(command))
    ensures |Words(Trim(command))| <= MAX_WORDS ==> LaunchTokens(command) == AllTokens(command)
  {
    hide Words, Trim, AfterLaunchPrefix, PrefixLength;
    var words := Words(Trim(command));
    var n := if MAX_WORDS <= |words| then MAX_WORDS else |words|;
    assert Take(words, MAX_WORDS) == words[..n];
    LaunchPrefixOfFirst(words, n);
    var p := PrefixLength(words);
    assert p <= n ==> words[..n][p..] == words[p..][..n - p];
  }

  // ---- When the limit changes the verdict ----

  predicate IsAgent(tokens: seq<string>) {
    IsCodexExecutable(Executable(tokens)) || IsClaudeExecutable(Executable(tokens))
  }

  predicate RunsInteractively(tokens: seq<string>) {
    RunsCodexInteractively(tokens) || RunsClaudeInteractively(tokens)
  }

  /** Whether token `k` keeps the agent from running interactively. */
  predicate Prevents(tokens: seq<string>, k: nat) {
    if IsCodexExecutable(Executable(tokens)) then Decides(tokens, 1, k)
    else 1 <= k < |tokens| && (IsHelpFlag(tokens[k]) || IsVersionFlag(tokens[k]) || IsPrintFlag(tokens[k]))
  }

  lemma ExecutableOfFirst(tokens: seq<string>, n: nat)
    requires 0 < n <= |tokens|
    ensures Executable(tokens[..n]) == Executable(tokens)
  {
    assert tokens[..n][0] == tokens[0];
  }

  /** Among the first `n` tokens, the executable included, an agent runs interactively unless one prevents it. */
  lemma InteractiveInFirst(tokens: seq<string>, n: nat)
    requires 0 < n <= |tokens|
    ensures RunsInteractively(tokens[..n]) <==> IsAgent(tokens) && !exists k: nat :: k < n && Prevents(tokens, k)
    ensures RunsCodexInteractively(tokens[..n]) <==>
            IsCodexExecutable(Executable(tokens)) && !exists k: nat :: k < n && Prevents(tokens, k)
  {
    hide Executable, Decides, IsNonInteractiveFrom, IsHelpFlag, IsVersionFlag, IsPrintFlag;
    ExecutableOfFirst(tokens, n);
    if IsCodexExecutable(Executable(tokens)) {
      VerdictOfFirst(tokens, 1, n);
      if k: nat :| k < n && Decides(tokens, 1, k) {
        assert Prevents(tokens, k);
      }
      if k: nat :| k < n && Prevents(tokens, k) {
        assert Decides(tokens, 1, k);
      }
    } else {
      ClaudeInFirst(tokens, n);
    }
  }

  lemma ClaudeInFirst(tokens: seq<string>, n: nat)
    requires 0 < n <= |tokens| && !IsCodexExecutable(Executable(tokens))
    ensures RunsClaudeInteractively(tokens[..n]) <==>
            IsClaudeExecutable(Executable(tokens)) && !exists k: nat :: k < n && Prevents(tokens, k)
  {
    hide Executable, Decides, IsHelpFlag, IsVersionFlag, IsPrintFlag, IsCodexExecutable, IsClaudeExecutable;
    ExecutableOfFirst(tokens, n);
    var first := tokens[..n];
    assert forall k: nat :: k < n ==> first[k] == tokens[k];
    if k: nat :| k < n && Prevents(tokens, k) {
      assert first[k] == tokens[k];
    }
    if k :| 1 <= k < n && (IsHelpFlag(first[k]) || IsVersionFlag(first[k]) || IsPrintFlag(first[k])) {
      assert Prevents(tokens, k);
    }
  }

  /**
   For every command: the limit changes the answer exactly when an agent is
   launched and either the launch prefix leaves no room at all and nothing
   prevents the agent from running interactively, or there is room, something
   prevents it, and all that does comes too late. The first makes an interactive
   command a plain one, the second a plain one interactive. The same holds of the
   question whether Codex runs interactively.
  */
  lemma LimitChangesTheAnswer(command: string)
    ensures var all, room := AllTokens(command), Room(command);
            RunsInteractively(LaunchTokens(command)) != RunsInteractively(all) <==>
            && IsAgent(all)
            && if room == 0 then !exists k: nat :: Prevents(all, k)
               else (exists k: nat :: Prevents(all, k)) && forall k: nat :: Prevents(all, k) ==> k >= room
    ensures var all, room := AllTokens(command), Room(command);
            RunsCodexInteractively(LaunchTokens(command)) != RunsCodexInteractively(all) <==>
            && IsCodexExecutable(Executable(all))
            && if room == 0 then !exists k: nat :: Prevents(all, k)
               else (exists k: nat :: Prevents(all, k)) && forall k: nat :: Prevents(all, k) ==> k >= room
  {
    hide LaunchTokens, AllTokens, Room, RunsInteractively, RunsCodexInteractively, Executable, IsAgent, Prevents;
    LaunchTokensAreFirst(command);
    AnswerOfFirst(AllTokens(command), Room(command));
  }

  lemma PreventsWithin(tokens: seq<string>, k: nat)
    requires Prevents(tokens, k)
    ensures k < |tokens|
  {
    hide Subcommand;
  }

  lemma AnswerOfFirst(all: seq<string>, room: nat)
    ensures RunsInteractively(Take(all, room)) != RunsInteractively(all) <==>
            && IsAgent(all)
            && if room == 0 then !exists k: nat :: Prevents(all, k)
               else (exists k: nat :: Prevents(all, k)) && forall k: nat :: Prevents(all, k) ==> k >= room
    ensures RunsCodexInteractively(Take(all, room)) != RunsCodexInteractively(all) <==>
            && IsCodexExecutable(Executable(all))
            && if room == 0 then !exists k: nat :: Prevents(all, k)
               else (exists k: nat :: Prevents(all, k)) && forall k: nat :: Prevents(all, k) ==> k >= room
  {
    assert !IsAgent([]) && !IsCodexExecutable(Executable([]));
    assert !RunsInteractively([]) && !RunsCodexInteractively([]);
    hide RunsInteractively, RunsCodexInteractively, Prevents, Executable, IsCodexExecutable, IsClaudeExecutable;
    if all == [] {
      assert Take(all, room) == [];
    } else {
      var n := if room <= |all| then room else |all|;
      assert Take(all, room) == all[..n];
      assert all[..|all|] == all;
      InteractiveInFirst(all, |all|);
      if n > 0 {
        InteractiveInFirst(all, n);
      }
      forall k: nat | Prevents(all, k)
        ensures k < |all|
      {
        PreventsWithin(all, k);
      }
    }
  }

  // ---- A family of commands ----

  function Repeated(option: GlobalOption, n: nat): (r: seq<GlobalOption>)
    ensures |r| == n && forall k :: 0 <= k < n ==> r[k] == option
  {
    seq(n, k => option)
  }

  const OSS := Bare("--oss")

  function OssThenExec(n: nat): seq<string> {
    ["codex"] + (Run(Repeated(OSS, n)) + ["exec"])
  }

  lemma {:induction false} RunOfOss(n: nat)
    ensures Run(Repeated(OSS, n)) == seq(n, k => "--oss")
  {
    if n > 0 {
      RunOfOss(n - 1);
      assert Repeated(OSS, n)[1..] == Repeated(OSS, n - 1);
    }
  }

  lemma {:induction false} QuotedEnds(words: seq<string>)
    requires words != [] && NoneEmpty(words)
    ensures var s := QuotedWords(words); s != "" && !IsSpace(s[0]) && !IsSpace(s[|s| - 1])
    decreases |words|
  {
    hide Quoted, IsSpace;
    QuotedWordEnds(words[0]);
    if |words| > 1 {
      QuotedEnds(words[1..]);
    }
  }

  lemma {:induction false} QuotedWordEnds(word: string)
    requires word != ""
    ensures var s := Quoted(word); s != "" && !IsSpace(s[0]) && !IsSpace(s[|s| - 1])
    decreases |word|
  {
    if |word| > 1 {
      QuotedWordEnds(word[1..]);
    }
  }

  lemma QuotedAsTyped(words: seq<string>)
    requires words != [] && NoneEmpty(words)
    ensures Words(Trim(QuotedWords(words))) == words
  {
    hide Words, QuotedWords, Trim, IsSpace;
    QuotedEnds(words);
    TrimPadded("", QuotedWords(words), "");
    assert "" + QuotedWords(words) + "" == QuotedWords(words);
    QuotedWordsAreRead(words);
  }

  lemma CodexIsNoPrefix(rest: seq<string>)
    ensures AfterLaunchPrefix(["codex"] + rest) == ["codex"] + rest
    ensures CommandBasename("codex") == "codex"
  {
    assert NameRun("codex") == 5 by {
      assert NameRun("dex") == 3;
    }
    assert Lower("codex") == "codex";
  }

  lemma OssVerdict(n: nat, rest: seq<string>)
    ensures IsNonInteractiveCodexSubcommand(["codex"] + (Run(Repeated(OSS, n)) + rest))
         == IsNonInteractiveFrom(rest, 0)
  {
    hide IsNonInteractiveFrom;
    VerdictShifts(["codex"], Run(Repeated(OSS, n)) + rest, 0);
    assert IsGlobalOption(OSS);
    RunIsPassedOver(Repeated(OSS, n), rest);
  }

  lemma BareVerdicts()
    ensures IsNonInteractiveFrom(["exec"], 0) && !IsNonInteractiveFrom([], 0)
  {
    assert OptionName("exec") == "exec" by {
      NameOfFlag("exec");
    }
    assert Lower("exec") == "exec";
  }

  /**
   The limit on words shows: with 31 options or more in front of it the
   subcommand `exec` is not seen, and a command that is not interactive counts as
   interactive.
  */
  lemma ManyOptionsHideTheSubcommand(n: nat)
    ensures !RunsCodexInteractively(OssThenExec(n))
    ensures RunsCodexInteractively(LaunchTokens(QuotedWords(OssThenExec(n)))) <==> n >= 31
  {
    hide Words, QuotedWords, Trim, AfterLaunchPrefix, CommandBasename, Run, IsNonInteractiveCodexSubcommand,
      IsNonInteractiveFrom, Repeated;
    RunOfOss(n);
    var words := OssThenExec(n);
    QuotedAsTyped(words);
    BareVerdicts();
    OssVerdict(n, ["exec"]);
    CodexIsNoPrefix(Run(Repeated(OSS, n)) + ["exec"]);
    if n >= 31 {
      RunOfOss(31);
      assert Take(words, MAX_WORDS) == ["codex"] + (Run(Repeated(OSS, 31)) + []);
      OssVerdict(31, []);
      CodexIsNoPrefix(Run(Repeated(OSS, 31)) + []);
    } else {
      assert Take(words, MAX_WORDS) == words;
    }
  }
}
