# Verification of Orca's algorithmic cores

This project models the parts of the Orca repository that do more than move data
about, and proves what they are relied on for. Each module follows one source
file, in its own form: loops over mutable variables are methods with invariants,
module state and shared lists are classes, concurrent calls and timers are state
machines over their atomic steps, and every loop is proved against a
specification about which the results are stated.

| modules | what they model |
|---|---|
| `KeyFileLock` | any number of processes racing for one key file, with a lock file, renames, failures and crashes |
| `AccessibleNodes`, `RenderedLines`, `LineTexts`, `TreeRenderer`, `ShownElements`, `TabCompaction`, `RenderingActs`, `RenderedTree`, `IndexNumbering`, `TabStrips`, `RepeatedIndexes` | the renderer of accessibility trees with its budget, depth bound, elision and in-place tab compaction, and the numbering of what it shows |
| `TreeSearch`, `SearchCoverage`, `ElementPaths` | the budgeted stack search, and finding rendered elements again |
| `WindowsArguments`, `CommandLine`, `CommandLineForms` | quoting command lines for Windows and for POSIX shells, and the parsers that read them |
| `OptionScanner`, `OptionLockstep`, `OptionPrinting`, `OptionRefusals`, `OptionSlices`, `OptionPatterns`, `OptionMisreadings` | the two scans that read option keys out of source text |
| `EntryGuard` | which chunks an entry reaches, and whether one requires Electron |
| `CreditLedger`, `TerminalStreams`, `TabsPush` | the stateful protocols of the mock host |
| `CodexCommands`, `CodexWords`, `CodexVerdicts`, `CodexForms`, `CodexWordLimit` | classifying Codex and Claude command lines |
| `CliArguments`, `CommandPositionals` | parsing the CLI's arguments and normalising positionals |
| `ReleaseVersion` | resolving the iOS release version |
| `Text`, `CharacterClasses`, `Numerals`, `Sequences`, `Wrappers` | character classes, decimal numerals, prefixes and optional values that several modules share |

`dafny verify dfyconfig.toml` checks all of it. Lemmas `hide` the definitions they do
not need.

## What turned out otherwise than one would expect

Each comes with the input that shows it and with the exact condition.

- Quoted option keys are dropped without a word: the object still counts as
  readable. Of the objects of the grammar in `OptionPrinting` all keys are read exactly
  when none is quoted (`OptionPrinting.PrintedOptionsReadBack`).
- The scans know no regular expressions, so one in a value can add keys or hide them
  (`OptionMisreadings.PatternsAreMisread`). It changes nothing of what is read after it
  exactly when both scans come back to where they were
  (`OptionPatterns.TracelessExactly`, `OptionPatterns.CrossedExactly`).
- A call's argument list is sliced as one object whenever it begins and ends with a
  brace. After a line comment that ends in a brace a last shorthand key is lost, and of
  a second object keys are reported as if they were the first one's. The slice is one
  object exactly when its scan stays balanced (`OptionSlices.OneObjectIsBalanced`), and
  a readable answer has the first object's keys exactly in the cases of
  `OptionSlices.ReadableKeysExactly`; inputs are in `OptionMisreadings.LostAfterComma`
  and `OptionMisreadings.TakenFromSecondArgument`. The file's header says that what
  cannot be read comes back as unreadable.
- The mock ledger's outcome without credit and its error about a contested offer
  are unreachable (`CreditLedger.NeverNoCreditNorContested`).
- Of two push loops on one worktree the second to fire pushes only what changed after
  the first fired (`TabsPush.OnlyTheFirstLoopPushes`).
- Tab compaction shortens the list that numbers later elements, so indexes can repeat. All
  indexes of a rendering differ exactly when its last effective compaction leaves no two
  records of one index and none with an index given after it
  (`IndexNumbering.IndexesAreDistinct`); a family of browser windows is in
  `RepeatedIndexes.TabIndexRepeats`. Paths never repeat (`ElementPaths.RecordsAreFoundAgain`).
- A later compaction can remove the record of a line that stays, exactly when it omits a line
  that names the same index (`TabCompaction.IndexesLeft`,
  `RepeatedIndexes.KeptTabLosesRecord`).
- A call that fails to read the key file while it holds the lock can replace the key in it; this
  is the only way in which a key is ever replaced (`KeyFileLock.RenamesReplaceMisreadKeys`,
  `KeyFileLock.MisreadKeyIsLost`).
- The search for a descendant can miss a near element on graphs that are not trees
  (`SearchCoverage.SharedElementHidesMatch`), exactly when an element is stranded
  (`SearchCoverage.CoversWhatIsNear`).
- The limit of 32 words changes the answer for some commands, in both directions and
  exactly when `CodexWordLimit.LimitChangesTheAnswer` says; a family of them is in
  `CodexWordLimit.ManyOptionsHideTheSubcommand`.
- The version bump runs forever below the ceiling's major and minor
  (`ReleaseVersion.LoopEndsExactly`).

## Model

| member | source | states |
|---|---|---|
| KeyFileLock.RunKeepsInv | mobile/scripts/mock-server-key-pair.ts:53-167 | After every step of every run, whatever calls race, fail or crash, whoever is between creating and unlinking the lock file owns it; and until a call that holds the lock fails to read a key that is there, whoever is about to mint or install sees no usable key, and whoever has chosen a key has chosen the one in the file. |
| KeyFileLock.KeyFileWrittenOnce | mobile/scripts/mock-server-key-pair.ts:108-124 | Once the key file holds a valid key it holds that same key until some call misreads it while holding the lock. |
| KeyFileLock.ReturnedKeyIsTheFilesKey | mobile/scripts/mock-server-key-pair.ts:135-167 | A key that a call returns is the key the file holds, at that moment and until a key is so misread. |
| KeyFileLock.AllReturnedKeysAgree | mobile/scripts/mock-server-key-pair.ts:135-167 | Any two calls that return, at any two moments of a run, return the same key, or a key was misread before by a call holding the lock. |
| KeyFileLock.RenamesInstallOnlyOnce | mobile/scripts/mock-server-key-pair.ts:91-106 | Unless a key is misread, a run has at most one successful rename, and it replaces no key. |
| KeyFileLock.RenamesReplaceMisreadKeys | mobile/scripts/mock-server-key-pair.ts:33-51 | In every run the key file changes by renames only, a rename installs the key its caller minted, and it replaces a key exactly when that caller's read under the lock failed on that very key. |
| KeyFileLock.MisreadKeyIsLost | mobile/scripts/mock-server-key-pair.ts:48-50 | A run in which one failed read under the lock makes two calls return different keys. |
| KeyFileLock.MutualExclusion | mobile/scripts/mock-server-key-pair.ts:53-89 | No two calls are between creating and unlinking the lock file, crashed calls included. |
| KeyFileLock.LockFileMeansOneHolder | mobile/scripts/mock-server-key-pair.ts:147-166 | A lock file made during the run exists exactly while its creator is in the critical section, crashed there, or finished without managing to unlink. |
| KeyFileLock.OnlyTheCreatorUnlinks | mobile/scripts/mock-server-key-pair.ts:126-133 | Although unlinking checks no owner, the lock file it removes is always the caller's own, and nothing else removes or replaces one. |
| KeyFileLock.BoundedWaiting | mobile/scripts/mock-server-key-pair.ts:55-88 | In every run each call performs at most 51 exclusive opens and 117 operations. |
| KeyFileLock.NoCallIsBlocked | mobile/scripts/mock-server-key-pair.ts:53-124 | A live call can always take a step, and each step it takes uses up part of its bounded work, so it ends with a key or an error. |
| KeyFileLock.AloneMintsAndReleases | mobile/scripts/mock-server-key-pair.ts:147-166 | An undisturbed call without a lock file in its way and without a usable key installs whichever key it mints, returns it and leaves no lock and no temporary file. |
| KeyFileLock.AloneGivesUp | mobile/scripts/mock-server-key-pair.ts:55-88 | With a lock file that never goes away and no usable key, a call is at work until it has made all its opens and then throws. |
| KeyFileLock.HeldKeyIsReturned | mobile/scripts/mock-server-key-pair.ts:61-81 | A call that has not got the lock, wherever it is in its opens, and is left alone with a key in the file returns that key, lock file or not, and leaves both files as they were. |
| KeyFileLock.OutcomesAreSettled | mobile/scripts/mock-server-key-pair.ts:53-167 | In every run a call ends exactly as its own steps have settled: it returns the key it saw or installed, and it throws exactly when opening, minting, writing, changing the mode or the last rename failed, or it saw no key after its 51st open. |
| KeyFileLock.ReadsFirst | mobile/scripts/mock-server-key-pair.ts:142-145 | In every run the first thing a call does is read the key file, and when it sees a key it returns it and touches no lock. |
| KeyFileLock.EndsTidily | mobile/scripts/mock-server-key-pair.ts:121-133 | Whatever else fails, a call that ends without failing to remove them leaves neither its lock file nor its temporary file. |
| RenderedTree.RenderAccessibilityTree | native/computer-use-linux/runtime.py:349-444 | Without tab compaction the records are the first 1200 elements of the preorder traversal cut at depth 64 with elided elements spliced away and closed ones not entered, each numbered by its place and with its line; a `truncated` left false means nothing of the traversal at any depth is missing; it is set exactly when the walk comes to an element that is too deep or that comes after 1200 shown ones, elided ones included; below the budget both flags say whether one was too deep. With compaction the records still describe elements of the traversal, in order, each at most once, and are left by the acts of the walk; if `truncated` is false each element was shown at its turn and none was too deep, and otherwise one was, or 1200 were shown. |
| RenderedTree.WalkTellsMissing | native/computer-use-linux/runtime.py:402-420 | From any state within the budget, and for any element, `truncated` is set exactly when it was or when some element of the walk is too deep or comes when there is no room left. |
| TreeRenderer.Renderer.Walk | native/computer-use-linux/runtime.py:402-441 | The walk that appends to shared lists and sets shared flags takes the rendering to the state the recursive specification gives, with and without compaction. |
| RenderedTree.WalkRenders | native/computer-use-linux/runtime.py:397-441 | From any state within the budget the walk of any element appends as much of its traversal as there is room for, and the flags tell what was left out. |
| RenderedTree.NothingCutOff | native/computer-use-linux/runtime.py:402-407 | Where no element lies deeper than 64, raising the bound on depth changes nothing of the traversal. |
| ShownElements.ShownExactly | native/computer-use-linux/runtime.py:397-411 | An element within the depth bound is shown at its own place exactly when its role is not one of four generic ones, or it has a name, identifier, value, action beyond the seven common ones, plain text under it, or two children. |
| ShownElements.UnderExactly | native/computer-use-linux/runtime.py:410-440 | What stands out in a slot of a shown element is shown one level deeper exactly when that element is neither a labelled control of ten roles nor generic with plain text; under one not shown it takes its place. |
| RenderedTree.WalkDescribes | native/computer-use-linux/runtime.py:402-441 | With or without compaction, what a walk leaves in the records describes some of the elements met so far in traversal order, never one twice. |
| RenderingActs.WalkPerforms | native/computer-use-linux/runtime.py:402-441 | The walk with compaction of any element from any state is its acts, showing, turning away and compacting, one after the other, flags included. |
| RenderingActs.WalkTells | native/computer-use-linux/runtime.py:402-407 | A walk with compaction that turns nothing away has shown its whole traversal; one that does has met something too deep, or has shown enough to spend the budget. |
| RenderedLines.LineNamesItsRecord | native/computer-use-linux/runtime.py:520-523 | The line of any element, whatever its role, title and value, starts after its indent with its index, so reading the index back gives it. |
| LineTexts.SanitizedSpread | native/computer-use-linux/runtime.py:421-423 | Cleaning a text, whatever blanks stand in and around it, leaves its words with one space between them. |
| LineTexts.ValuesAreShown | native/computer-use-linux/runtime.py:421-424 | A value is shown after the title, as it is in a text element and labelled elsewhere, unless it is the title; the identifier stands in for a missing name. |
| LineTexts.TextIsShown | native/computer-use-linux/runtime.py:425-430 | The text under a generic element or a row is shown unless it is the title. |
| LineTexts.ActionsAreShown | native/computer-use-linux/runtime.py:431-433 | Meaningful actions are shown last, underscores as spaces. |
| RenderedLines.TabsAreRecognised | native/computer-use-linux/runtime.py:481-488 | Every element whose role is one of the three tab roles, in any case, is rendered as a line that compaction takes for a tab. |
| TabStrips.TabLineExactly | native/computer-use-linux/runtime.py:481-488 | A line at some depth with an index is taken for a tab's exactly when its text begins with one of three names, in any case, followed by nothing, a blank, a parenthesis or a comma. |
| TabStrips.ActiveExactly | native/computer-use-linux/runtime.py:491-498 | The line of a rendered element is taken for an active tab's exactly when it shows a selection, the element is selected, or its value says 1. |
| TreeRenderer.Renderer.CompactTabs | native/computer-use-linux/runtime.py:447-478 | The in-place deletion from the last tab to the first leaves exactly the rendering that the compaction specification gives. |
| TabCompaction.CompactionKeepsLines | native/computer-use-linux/runtime.py:447-478 | For any records: the counting line stands where the first tab stood and, it apart, the lines are exactly those not of inactive tabs, in their order. |
| TabCompaction.CompactionKeepsRecords | native/computer-use-linux/runtime.py:466-477 | For any records: those kept are exactly those whose index no omitted line names, in their order. |
| TabCompaction.CompactionConserves | native/computer-use-linux/runtime.py:447-478 | With distinct indexes and tab lines naming distinct records, a compaction removes as many lines as records, exactly the number its line states. |
| RenderedTree.RenderedTabsNameRecords | native/computer-use-linux/runtime.py:408-434 | What a walk has appended before any compaction has distinct indexes, and each of its tab lines, at whatever depth, names the record at its own place. |
| TabCompaction.IndexesLeft | native/computer-use-linux/runtime.py:466-477 | After any compaction, the first or a later one, an index is borne by a record exactly when one bore it before and no omitted line names it, while every line not omitted stays; so exactly then a line that stays loses its record. |
| IndexNumbering.DistinctAfterCompaction | native/computer-use-linux/runtime.py:408-408 | After any compaction of any records, whatever is shown next gets numbers from the records there were less those removed, and all indexes differ exactly when no two records of one index are left and none with one of those numbers. |
| IndexNumbering.DistinctAfterWalk | native/computer-use-linux/runtime.py:402-441 | The same of the walk of any element after a compaction. |
| IndexNumbering.IndexesAreDistinct | native/computer-use-linux/runtime.py:402-478 | The indexes of a rendering of any tree, with any number of compactions, all differ exactly when none omits anything or the last that does leaves no two records of one index and none with an index given after it. |
| RepeatedIndexes.TabIndexRepeats | native/computer-use-linux/runtime.py:402-478 | A window with a list of ten or more tabs, the one at place j selected, and m buttons after it is rendered with the indexes 0, 1, j + 2 and then 3 and on; so two elements have one index exactly when j is from 1 to m. |
| RepeatedIndexes.KeptTabLosesRecord | native/computer-use-linux/runtime.py:447-478 | Of a window with two lists of ten or more tabs, of n and m with those at places j and i selected, the line of the first selected tab always stays, and no record has the index it names exactly when j is from 2 to m + 1 and not i + 2. |
| TreeSearch.FirstDescendant | native/computer-use-linux/runtime.py:589-609 | On any graph of elements, cyclic ones included, the stack search ends and returns the first match among the first `max_nodes` elements that the recursive depth-limited traversal meets, or nothing when there is none. |
| TreeSearch.TreesAreSearchedInPreorder | native/computer-use-linux/runtime.py:589-609 | The order of visits is the plain preorder exactly when no element occurs in it twice, as on every tree. |
| SearchCoverage.CoversWhatIsNear | native/computer-use-linux/runtime.py:589-609 | On any graph everything within the depth bound is visited exactly when no element is stranded: first met at the bound, lying nearer too, and with a child not visited. |
| SearchCoverage.NearMatchesAreFound | native/computer-use-linux/runtime.py:589-609 | With budget for all that is visited and nothing stranded, something is found exactly when some element within the depth bound matches. |
| SearchCoverage.SharedElementHidesMatch | native/computer-use-linux/runtime.py:594-607 | A concrete graph with a stranded element: what is below it is near enough and is missed. |
| ElementPaths.FindByPath | native/computer-use-linux/runtime.py:730-736 | Following a saved path slot by slot gives the element at that path, or nothing as soon as a slot is missing or empty. |
| ElementPaths.FindElement | native/computer-use-linux/runtime.py:753-770 | On any tree the result is the element at the saved path if it has the saved role, name, identifier and actions, and otherwise nothing. |
| ElementPaths.FoundExactly | native/computer-use-linux/runtime.py:753-770 | The element found is the one at the saved path whose record, made now, differs from the saved one in value and selection at most. |
| ElementPaths.VisitIsFoundAgain | native/computer-use-linux/runtime.py:402-419 | On the unchanged tree the record made of any element of a window's traversal leads back to that very element, past elided ancestors too. |
| ElementPaths.RecordsAreFoundAgain | native/computer-use-linux/runtime.py:753-770 | On the unchanged tree every record of a rendering, compacted or not, leads to an element it is the record of, and no two records have the same path. |
| ElementPaths.VisitPathsDiffer | native/computer-use-linux/runtime.py:402-440 | No two elements of a traversal have the same path, and all paths extend the window's. |
| WindowsArguments.QuoteArgument | native/windows-cli-launcher/OrcaCliLauncher.cs:89-127 | The two loops with the backslash counter produce the quoting that the reader is proved against. |
| WindowsArguments.BuildArguments | native/windows-cli-launcher/OrcaCliLauncher.cs:78-87 | Under each of the three known rules for doubled quotes, the receiving process's argument parser maps the command line to exactly the CLI path followed by the arguments, for all strings. |
| WindowsArguments.ReadBody | native/windows-cli-launcher/OrcaCliLauncher.cs:103-126 | Reading back the inside of the quotes restores any text and any number of backslashes held back before it, and stops at the closing quote. |
| WindowsArguments.ReadBare | native/windows-cli-launcher/OrcaCliLauncher.cs:91-99 | An argument left unquoted, with backslashes anywhere, is read as itself. |
| CharacterClasses.QuotedExactly | native/windows-cli-launcher/OrcaCliLauncher.cs:91-99 | Exactly the arguments that are empty or hold white space or a double quote are quoted. |
| CharacterClasses.SpacesOfNet | native/windows-cli-launcher/OrcaCliLauncher.cs:91-99 | White space there is what .NET takes for it, character by character. |
| CommandLine.ParseCommandLine | src/cli/orchestration-mutation-recovery.ts:107-158 | The tokenizer loop returns the words of the text, or nothing for none and for an unclosed quote. |
| CommandLine.RenderedCommandReadsBack | src/cli/orchestration-mutation-recovery.ts:160-199 | What the POSIX branch of `renderCommand` prints, and any joined list quoted by `quoteCliCommandArgument`, is read back as the same list by the tokenizer (nothing for the empty list) and split into the same words by a POSIX shell. |
| CommandLine.ReadJoined | src/cli/orchestration-mutation-recovery.ts:107-158 | Arguments joined in any mixture of the two quoting styles are read back by either reader. |
| CommandLine.ReadQuoted | src/cli/shell-command-quote.ts:1-9 | One quoted argument, in either style and whatever follows it, is read as one word with exactly its text. |
| CommandLineForms.WordsAreRead | src/cli/orchestration-mutation-recovery.ts:107-158 | Words written in any mixture of plain characters, backslashes that go or stay, and single and double quotes are read, by the tokenizer and by a shell, as what they say. |
| CommandLineForms.OpenQuoteIsRefused | src/cli/orchestration-mutation-recovery.ts:151-153 | A quote that is not closed makes the text unreadable. |
| CommandLineForms.QuotedOnlyWhenNeeded | src/cli/orchestration-mutation-recovery.ts:194-199 | The printers leave exactly those arguments as they are that are made of letters, digits and a few signs. |
| OptionScanner.BalancedArguments | config/scripts/call-site-option-keys.ts:49-102 | The outer scan's loop returns the text up to the bracket that closes the first one, or nothing when it never closes or meets an interpolation. |
| OptionScanner.ObjectLiteralKeys | config/scripts/call-site-option-keys.ts:105-179 | The inner scan's loop reports the keys that the inner scan's moves collect. |
| CharacterClasses.StrayClosingIsRefused | config/scripts/call-site-option-keys.ts:49-102 | An argument list that begins with a closing bracket never closes. |
| CharacterClasses.IdentifierExactly | config/scripts/call-site-option-keys.ts:199-199 | A key is readable exactly when it is made of letters, digits, underscores and dollar signs and no digit comes first. |
| OptionLockstep.SlicedAsObject | config/scripts/call-site-option-keys.ts:186-198 | Every call that is sliced as an object has its parenthesis, blanks, braces and body where the lockstep result needs them. |
| OptionLockstep.ScansInLockstep | config/scripts/call-site-option-keys.ts:49-179 | Whenever the outer scan closes and the argument is sliced as an object, the inner scan visits exactly the body positions the outer scan visited, in the same lexical state and two levels less deep; so it never goes below -1 and never meets an interpolation, for which it has no rule. |
| OptionPrinting.PrintedOptionsReadBack | config/scripts/call-site-option-keys.ts:186-204 | A call with any options object printed from the grammar (identifier and shorthand keys, quoted keys, bracketed values, strings, templates, comments, regular expressions that are harmless when taken for code) is read, wherever it stands, as exactly its identifier keys in order; that is all of its keys exactly when none is quoted. |
| OptionPrinting.InnerFields | config/scripts/call-site-option-keys.ts:105-179 | The inner scan passes over the printed inside of any options object to the state its grammar gives, whatever follows. |
| OptionPrinting.OuterFields | config/scripts/call-site-option-keys.ts:49-102 | The outer scan passes over the printed inside of any options object at any depth without closing in it. |
| OptionRefusals.OddEntryIsRefused | config/scripts/call-site-option-keys.ts:199-204 | An object with an entry that begins like a spread, a computed key, a number or a generator, after any readable entries and whatever follows, is never called readable if its scan ends at depth 0. |
| OptionSlices.OneObjectIsBalanced | config/scripts/call-site-option-keys.ts:194-198 | For every call sliced as an object, its first brace is closed by the slice's last character exactly when the inner scan is never below depth 0 and ends in code at depth 0. |
| OptionSlices.WhatIsReported | config/scripts/call-site-option-keys.ts:105-198 | For every such call, what is reported are the first object's keys if the slice is that object, and otherwise the keys complete at its closing bracket and those the scan takes from the rest; after a shorthand the rest adds nothing but names that are no identifiers. |
| OptionSlices.ReadableKeysExactly | config/scripts/call-site-option-keys.ts:186-204 | For every such call that is called readable, the keys are the first object's exactly when the slice is that object, or else the object does not end in a shorthand and nothing in the rest is taken for a key. |
| OptionMisreadings.BraceInCommentHidesShorthand | config/scripts/call-site-option-keys.ts:194-204 | A line comment that ends in a brace, after the object and whatever comma and comments follow it, is sliced into it; the call is still called readable, and with all its identifier keys exactly when the object does not end in a shorthand without a comma. |
| OptionMisreadings.SecondObjectIsReadOn | config/scripts/call-site-option-keys.ts:194-204 | With a second object after one that ends in a value, the second's identifier keys after its first entry are reported as well; the answer is right exactly when there are none. |
| OptionMisreadings.LostAfterComma | config/scripts/call-site-option-keys.ts:194-204 | Two calls with the keys a and b of which only a is reported. |
| OptionMisreadings.TakenFromSecondArgument | config/scripts/call-site-option-keys.ts:194-204 | A call with the key a that is reported to have c too, a key of its second argument. |
| OptionPatterns.TracelessExactly | config/scripts/call-site-option-keys.ts:105-179 | Whatever follows a text in a value, a regular expression or any other, is read as it would be without it exactly when the inner scan of it comes back to the state it was in. |
| OptionPatterns.CrossedExactly | config/scripts/call-site-option-keys.ts:49-102 | And what closes after it in a call's object closes where it would without it exactly when the outer scan gets through it to code at the depth it had. |
| OptionMisreadings.PatternsAreMisread | config/scripts/call-site-option-keys.ts:105-179 | Two objects whose values are regular expressions: a comma in one makes a key of what follows it, and quotes in two hide the key between them. |
| EntryGuard.CollectReachableChunks | config/build-plugins/plain-node-entry-guard.ts:75-98 | On every import graph, cyclic and with unknown names, the worklist ends and lists the chunk of each name reachable from the entry through known chunks, each once and nothing else. |
| EntryGuard.ClosedHoldsReached | config/build-plugins/plain-node-entry-guard.ts:93-95 | Any set that holds the entry and the imports of its known members holds everything reachable. |
| EntryGuard.RequireAtIsThePattern | config/build-plugins/plain-node-entry-guard.ts:54-54 | Reading the call from left to right accepts a position exactly when some text of the guard's pattern stands there. |
| EntryGuard.AssertNoElectronRequire | config/build-plugins/plain-node-entry-guard.ts:100-116 | The guard fails exactly when some reachable chunk matches the pattern, and names such a chunk. |
| CreditLedger.AccountState.ConsumeMockCodexResetCredit | mobile/scripts/mock-server-account-state.ts:139-193 | The call changes the module's state and answers as the ledger's transition says, in every case. |
| CreditLedger.AccountState.SelectMockCodexAccount | mobile/scripts/mock-server-account-state.ts:78-90 | Selecting changes only the active account, and unknown accounts are refused. |
| CreditLedger.RunKeepsInv | mobile/scripts/mock-server-account-state.ts:53-193 | After a reset and any calls, operations and owners name each other, every recorded outcome is a reset, and credits are accounted for. |
| CreditLedger.OneRedemptionPerOffer | mobile/scripts/mock-server-account-state.ts:177-186 | In every run an offer has at most one recorded operation, and an owner exactly when it has one, who recorded it. |
| CreditLedger.CreditsConserved | mobile/scripts/mock-server-account-state.ts:184-191 | In every run, per account, credits spent by recorded operations plus credits left is one, and none is negative. |
| CreditLedger.ReplayReturnsFirstOutcome | mobile/scripts/mock-server-account-state.ts:157-166 | Once redeemed, the same key and scope get the first outcome and change nothing, whatever calls came in between. |
| CreditLedger.FailuresLeaveNoTrace | mobile/scripts/mock-server-account-state.ts:78-175 | In every run, a call that throws or is rejected might as well not have been made: whatever is called later, the ledger is the same. |
| CreditLedger.RedeemsExactlyTheOpenOffer | mobile/scripts/mock-server-account-state.ts:168-192 | In every run a new key redeems exactly when its scope is the open offer's, and then with a reset. |
| CreditLedger.NeverNoCreditNorContested | mobile/scripts/mock-server-account-state.ts:168-186 | Because there is no scope without a credit, the outcome without credit and the error about a contested offer are never reached in any run. |
| CreditLedger.AnswersAreOnRecord | mobile/scripts/mock-server-account-state.ts:157-192 | In every run an answer that a reset was consumed says what is on record for the key: its scope and its outcome. |
| CreditLedger.AnswersExactly | mobile/scripts/mock-server-account-state.ts:151-175 | In every run each answer comes about exactly in its case: an invalid key, a missing scope, a recorded key with another scope, an offer not open, or a consumption; only a new key with the open offer changes anything. |
| CreditLedger.UuidIsThePattern | mobile/scripts/mock-server-account-state.ts:13-13 | A key is valid exactly when it is five groups of hexadecimal digits with a version and a variant. |
| CreditLedger.UsageIsExactly | mobile/scripts/mock-server-account-state.ts:45-52 | In every run each account's usage is the initial one until its credit is spent, and then used up and one tick later. |
| CreditLedger.OpenOfferExactly | mobile/scripts/mock-server-account-state.ts:126-135 | In every run an offer is open exactly while the account selected last has its credit, with the fields of that account. |
| TerminalStreams.TerminalBackend.Subscribe | mobile/scripts/mock-server-terminal-stream.ts:70-114 | Subscribing clears the target's stream, registers a new one, responds with its scrollback and starts its timer. |
| TerminalStreams.TerminalBackend.Tick | mobile/scripts/mock-server-terminal-stream.ts:95-112 | The timer stops when its stream is not current or its chunks are used up, and otherwise responds with the next chunk. |
| TerminalStreams.TerminalBackend.ClearTerminalStream | mobile/scripts/mock-server-terminal-stream.ts:14-21 | Clearing stops the registered stream's timer and forgets it, and touches no other stream. |
| TerminalStreams.TerminalBackend.Respond | mobile/scripts/mock-server-rpc-handlers.ts:112-124 | A frame is sent or put off, and when it comes to be delivered its stream must still be current. |
| TerminalStreams.RunKeepsInv | mobile/scripts/mock-server-terminal-stream.ts:14-114 | After every event of every run a running timer belongs to its target's registered stream, and the frames sent of each stream, with those outstanding while it is current, are in order and without gaps. |
| TerminalStreams.OneTimerPerTarget | mobile/scripts/mock-server-terminal-stream.ts:23-33 | In every run at most one timer runs for a socket and terminal. |
| TerminalStreams.FramesSentInOrder | mobile/scripts/mock-server-terminal-stream.ts:95-111 | In every run the frames sent of a stream are its scrollback and then a prefix of its chunks, in order, none twice. |
| TerminalStreams.SentOnlyWhileCurrent | mobile/scripts/mock-server-terminal-stream.ts:35-37 | In every run a frame is sent only while its stream is the registered one of an open socket. |
| TerminalStreams.NothingSentOnceSuperseded | mobile/scripts/mock-server-terminal-stream.ts:35-44 | Once a stream is superseded it stays so and nothing of it is sent any more, neither by its timer nor by a delivery outstanding. |
| TerminalStreams.SubscribeSupersedes | mobile/scripts/mock-server-terminal-stream.ts:70-73 | A subscription supersedes every earlier stream of its socket and terminal and stops its timer. |
| TerminalStreams.NothingLostWhileCurrent | mobile/scripts/mock-server-terminal-stream.ts:107-111 | While a stream stays current, what was sent and what is outstanding are together all the frames it has made. |
| TerminalStreams.EveryFrameIsMade | mobile/scripts/mock-server-terminal-stream.ts:95-112 | In every run the timer of a current stream stops only when its scrollback and all its chunks have been made. |
| TerminalStreams.TickMakesTheNext | mobile/scripts/mock-server-terminal-stream.ts:101-111 | In every run a tick of a current stream with frames left makes the next one, and the timer goes on. |
| TerminalStreams.LastSubscriptionIsCurrent | mobile/scripts/mock-server-terminal-stream.ts:23-33 | In every run the registered stream of a target is that of its last subscription, if it was not unsubscribed since. |
| TerminalStreams.CurrentExactlyWhenWanted | mobile/scripts/mock-server-terminal-stream.ts:35-37 | In every run a stream is current exactly when it is the one last asked for and its socket was not closed. |
| TabsPush.TabsBackend.StartTabsPushLoop | mobile/scripts/mock-server-native-chat-scenario.ts:120-141 | Starting a loop stops the one there was for the socket and worktree and registers a new timer. |
| TabsPush.TabsBackend.OnClose | mobile/scripts/mock-server-native-chat-scenario.ts:133-138 | The close listener stops exactly the timers of the socket's loops and forgets the socket. |
| TabsPush.TabsBackend.FireTimer | mobile/scripts/mock-server-native-chat-scenario.ts:122-128 | A firing timer stops its target's loop when the socket is not open, and otherwise pushes the snapshot if its version is new. |
| TabsPush.OneLoopPerTargetNoneAfterClose | mobile/scripts/mock-server-native-chat-scenario.ts:107-141 | In every run at most one loop runs for a socket and worktree, and none for a socket whose closing was reported. |
| TabsPush.RunsWhileSubscribed | mobile/scripts/mock-server-native-chat-scenario.ts:107-141 | In every run a timer runs for a socket and worktree exactly while they are subscribed: no unsubscription, reported closing or firing for a socket not open came since. |
| TabsPush.VersionsCountChanges | mobile/scripts/mock-server-native-chat-scenario.ts:72-94 | In every run a worktree's version is the number of times its content changed from one build to the next. |
| TabsPush.PushesExactlyOnChange | mobile/scripts/mock-server-native-chat-scenario.ts:96-100 | A loop that fires pushes exactly when the content differs from the last one built for its worktree by anyone, with the version counting that change. |
| TabsPush.OnlyTheFirstLoopPushes | mobile/scripts/mock-server-native-chat-scenario.ts:96-128 | Of two loops of open sockets on one worktree that fire one after the other, the second pushes exactly when the content is not what it was when the first fired. |
| CodexCommands.TokenizeLeadingShellWords | src/cli/codex-command-classification.ts:86-122 | For a limit of at least one, the result is the first `limit` words of the whole text; for zero, the first word if a blank ends it. No word is empty. |
| CodexCommands.QuotedWordsAreRead | src/cli/codex-command-classification.ts:86-122 | Every list of words, none empty, can be written with quotes so that it is read back. |
| CodexWords.WordsAreRead | src/cli/codex-command-classification.ts:86-122 | Words written in any mixture of plain characters and quoted parts of either kind, with any blanks around them, are read as what they say. |
| CodexWords.OpenQuoteRunsOn | src/cli/codex-command-classification.ts:91-101 | A quote that is not closed runs to the end of the command, as one word with what came before. |
| CodexWords.AssignmentExactly | src/cli/codex-command-classification.ts:137-139 | A token is an assignment exactly when it is a name not begun by a digit, an equals sign and anything. |
| CodexCommands.StripShellLaunchPrefix | src/cli/codex-command-classification.ts:141-170 | The shifting loops leave what follows assignments and an `env` with its own assignments and options. |
| CodexCommands.LaunchPrefixIsStripped | src/cli/codex-command-classification.ts:137-170 | Any assignments, an `env` under any path, and any assignments, unsettings and flags after it leave exactly the command they launch. |
| CodexVerdicts.FindCodexSubcommand | src/cli/codex-command-classification.ts:190-218 | The loop over tokens finds the subcommand that reading options one by one finds. |
| CodexVerdicts.GlobalOptionsDoNotMatter | src/cli/codex-command-classification.ts:220-269 | Any run of recognised global options, with spaced or joined values, help and version apart, can be inserted among the options before the subcommand without changing the verdict. |
| CodexVerdicts.VerdictShifts | src/cli/codex-command-classification.ts:220-269 | The verdict depends only on the tokens from where the options start. |
| CodexForms.WordForm | src/cli/codex-command-classification.ts:220-269 | After any global options, a command other than `login` and `cloud` is non-interactive exactly when its next word is one of 25 subcommands, help and version included; a prompt or nothing is interactive. |
| CodexForms.LoginForm | src/cli/codex-command-classification.ts:233-252 | `login` after any options and with its own is non-interactive exactly when a key or token is read from input, help is asked for, or its child is `status` or `help`. |
| CodexForms.CloudForm | src/cli/codex-command-classification.ts:253-266 | `cloud` likewise, exactly when help or version is asked for or its child is one of six. |
| CodexForms.ProgramExactly | src/cli/codex-command-classification.ts:124-135 | Codex and Claude are told by the name after the last slash of either kind, in any case and with `.exe` or `.cmd`. |
| CodexForms.ClaudeExactly | src/cli/codex-command-classification.ts:301-305 | Claude runs interactively exactly when no later token is one of six flags or gives a print flag a value. |
| CodexVerdicts.ShouldUseRendererBackedCodexTerminal | src/cli/codex-command-classification.ts:271-286 | The answer is yes exactly when the first 32 words, less the launch prefix, run Codex with no non-interactive subcommand. |
| CodexVerdicts.ShouldUseRendererBackedInteractiveTerminal | src/cli/codex-command-classification.ts:288-307 | The same for Codex, and for Claude when no later token is a help, version or print flag. |
| CodexWordLimit.VerdictIsDecided | src/cli/codex-command-classification.ts:220-269 | A command is non-interactive exactly when some token decides so: the subcommand itself, or after `login` and `cloud` a flag or the child subcommand. |
| CodexWordLimit.VerdictOfFirst | src/cli/codex-command-classification.ts:190-269 | The verdict on the first n tokens is that one of these decides so on the whole command. |
| CodexWordLimit.LaunchTokensAreFirst | src/cli/codex-command-classification.ts:141-170 | What is looked at are the first of the tokens after the launch prefix, as many as the 32 words leave after those of the prefix. |
| CodexWordLimit.LimitChangesTheAnswer | src/cli/codex-command-classification.ts:271-307 | For every command, the limit changes the answer exactly when an agent is launched and either the prefix leaves no room and nothing prevents it from running interactively, or something does and all of it comes past the room; so for Codex alone, and for Codex and Claude together. |
| CodexWordLimit.ManyOptionsHideTheSubcommand | src/cli/codex-command-classification.ts:276-278 | A family of commands: with n options before it the subcommand `exec` is missed, and the command taken for interactive, exactly when n is at least 31. |
| CliArguments.ParseArgs | src/cli/args.ts:36-79 | The plain tokens are returned in order, and each flag name with what the items of the argument list give it. |
| CliArguments.ItemsAreReadBack | src/cli/args.ts:41-76 | Items written in any form that fits where it stands (plain token, `--name=value`, `--name value`, bare `--name`) are read back as the same items. |
| CliArguments.ItemsAreWritten | src/cli/args.ts:41-76 | Every argument list is the writing of the items read from it, all of which fit where they stand. |
| CliArguments.PlainAndAssignedFit | src/cli/args.ts:43-62 | Plain tokens, `--name=value` tokens and boolean flags fit anywhere, in any interleaving. |
| CliArguments.TakesTheNextExactly | src/cli/args.ts:58-76 | Of any argument list, a `--name` takes the next token as its value exactly when it is no boolean flag, there is such a token without leading dashes, and it is not the token before the command with no plain token before it. |
| CliArguments.LastValueCounts | src/cli/args.ts:27-34 | An ordinary name has the value it was given last, whatever it was given before; a name that stood alone last has none. |
| CliArguments.RepeatedValuesComeBack | src/cli/flags.ts:52-60 | For `label` and `skill` the getter returns the non-empty parts of the values given since the flag last stood alone, in order; with no separator in them, the non-empty values themselves. |
| CliArguments.FlagsRoundTrip | src/cli/args.ts:27-79 | What is written as items comes back from parsing: the plain tokens in order, each name with what it was given, and for `label` and `skill` all their values. |
| CommandPositionals.NormalizeCommandPositionals | src/cli/args.ts:187-221 | The loops over specifications and their paths settle on the first that takes the command path. |
| CommandPositionals.ChosenIsFirst | src/cli/args.ts:187-203 | The command settled on is the first in the list that can be meant by its own path or an alias, with no more values than it has positional arguments, and its own path goes before its aliases. |
| CommandPositionals.PositionalsAreFlags | src/cli/args.ts:206-217 | Where both ways lead to one command, values passed positionally and the same values passed as flags normalise alike exactly when no name is given both ways. |
| CommandPositionals.CommandLinesAgree | src/cli/args.ts:36-221 | Two command lines for one command, in whatever forms and order fit, one with values after its path and one with them as flags, all else alike, parse and normalise to the same result exactly when the first gives none of these names as a flag too. |
| CommandPositionals.PositionalsAreAdded | src/cli/args.ts:212-217 | Flags given by name keep their values, and the only new names are those of the positional values. |
| CommandPositionals.PositionalIsFound | src/cli/args.ts:212-217 | A positional value whose name was not given and is not listed earlier is found under its name. |
| CommandPositionals.ConflictsAreGivenTwice | src/cli/args.ts:210-211 | The conflicts are exactly the names given both positionally and as flags. |
| CommandPositionals.NormalizedTwice | src/cli/args.ts:187-221 | Normalising twice gives the same command and flags when the command's own path leads to it. |
| ReleaseVersion.ParsePrinted | mobile/fastlane/ios_release_version.rb:11-23 | Every version survives being printed and parsed. |
| Numerals.NumberOfDecimal | mobile/fastlane/ios_release_version.rb:15-22 | Every number survives being written in decimal and read. |
| ReleaseVersion.MaxVersionIsHighest | mobile/fastlane/ios_release_version.rb:28-33 | There is a maximum exactly when some entry is semver, and it is the first of the entries that none is above numerically. |
| ReleaseVersion.Resolve | mobile/fastlane/ios_release_version.rb:47-55 | For any predicate: an explicit version wins; without a bump the current one stays; a current version that is not semver raises; and otherwise the result is the least higher patch that is not closed. |
| ReleaseVersion.TruthyExactly | mobile/fastlane/ios_release_version.rb:6-8 | The bump switch is on exactly for four words, in any case and with blanks around them. |
| ReleaseVersion.LoopEndsExactly | mobile/fastlane/ios_release_version.rb:39-53 | With the closed trains as predicate, the bump loop ends exactly when there is no semver ceiling or the current major and minor are at least the ceiling's; otherwise it runs forever. |
| ReleaseVersion.LoopStopsAt | mobile/fastlane/ios_release_version.rb:39-53 | And then it stops at exactly the patch that can be computed without it. |
| ReleaseVersion.BumpedIsAboveAllClosed | mobile/fastlane/Fastfile:135-147 | The bumped version is above the current one and above every closed version that is semver, by the precedence of section 11 of Semantic Versioning 2.0.0. |

## Left out

- ReleaseVersion.Resolve: requires that its loop ends, since a method must terminate; when it does is stated exactly by `ReleaseVersion.LoopEndsExactly`.
- OptionRefusals.OddEntryIsRefused: asks that the inner scan ends at depth 0, as it does for every balanced object; `flushKey` reports nothing at other depths.
- OptionPrinting.PrintedOptionsReadBack: of regular expressions the grammar has those in which, taken for code, strings and comments end, brackets balance and no comma stands outside brackets.
- CommandPositionals.PositionalsAreFlags: speaks of command lines that both lead to the same command and path of it; which command a path leads to depends on the order of the specifications.
- CommandPositionals.CommandLinesAgree: the same.
- CliArguments.ParseArgs: `findCliCommandIndex` and the set of boolean flags are parameters, and the results hold for all values of them; the order in which a JavaScript map lists its flags is not modelled.
- CreditLedger.AccountState.ConsumeMockCodexResetCredit: serialised scopes are taken to differ when the scopes do; the length limit on offer revisions and the Claude accounts, which no redemption touches, are not modelled.
- TerminalStreams.RunKeepsInv: outstanding frames of one stream are delivered in the order they were made, as timers of equal delay are; delays themselves are not modelled, and stream objects are values in a list rather than heap objects.
- TabsPush.PushesExactlyOnChange: covers the choice to push and its version; a delayed delivery of that response is not modelled.
- KeyFileLock: base64 and the key length check appear as "usable or not"; other programs writing the key file, a call without a key file, and reads that return part of a file are excluded.
- The texts that the renderer gathers from below generic elements and rows (`text_snippets`, `is_plain_text_subtree`) are attributes of the element; frames and toolkit names, which nothing else reads, are left out.
- AT-SPI calls, windows, screenshots, clipboard, input and the other effects of the Linux bridge; an element whose children change while it is walked.
- Digits of other scripts, which Python's pattern for a leading index would also take; the renderer never writes them.
- The Windows branch of `quoteCliCommandArgument`, which does not double backslashes, and the encoders for `cmd` and PowerShell.
- NUL, which a Windows command line cannot hold; UTF-16 surrogates, since text is a sequence of code points.
- What a POSIX shell does with words after splitting: assignments, reserved words and aliases. A text in which a character means more than word splitting, a backslash before a newline included, is refused by the model's shell.
- Regular expressions are replaced by the character classes and texts they denote; lower case is modelled as far as comparing with ASCII words shows.
- `validateCommandAndFlags`, help paths, suggestions, and the other flag getters, which would add easy members.
- React Native screens, output formatters, fixtures, network scripts, the scan of bound ports, and the lookup of App Store versions.
