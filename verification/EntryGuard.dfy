/**
 The build guard for entries that run without Electron: which chunks an entry
 reaches, and whether one of them requires Electron.
*/
module EntryGuard {
  import opened Sequences
  import opened Text
  import opened Wrappers

  datatype Chunk = Chunk(fileName: string, code: string, imports: seq<string>, dynamicImports: seq<string>)

  type Bundle = map<string, Chunk>

  function Imports(chunk: Chunk): seq<string> {
    chunk.imports + chunk.dynamicImports
  }

  // ---- Reachability ----

  /** A path of known chunks, each importing the next. */
  ghost predicate IsPath(bundle: Bundle, path: seq<string>) {
    && path != []
    && (forall i :: 0 <= i < |path| ==> path[i] in bundle)
    && forall i :: 0 <= i < |path| - 1 ==> path[i + 1] in Imports(bundle[path[i]])
  }

  ghost predicate Reaches(bundle: Bundle, entry: string, name: string) {
    exists path :: IsPath(bundle, path) && path[0] == entry && path[|path| - 1] == name
  }

  /** Every name that is the entry or is imported by some known chunk. */
  ghost function Names(bundle: Bundle, entry: string): set<string> {
    {entry} + set n, m | m in bundle && n in Imports(bundle[m]) :: n
  }

  lemma ReachesEntry(bundle: Bundle, entry: string)
    requires entry in bundle
    ensures Reaches(bundle, entry, entry)
  {
    assert IsPath(bundle, [entry]);
  }

  lemma ReachesNext(bundle: Bundle, entry: string, name: string, next: string)
    requires Reaches(bundle, entry, name) && next in bundle && next in Imports(bundle[name])
    ensures Reaches(bundle, entry, next)
  {
    var path :| IsPath(bundle, path) && path[0] == entry && path[|path| - 1] == name;
    var longer := path + [next];
    assert IsPath(bundle, longer) && longer[0] == entry && longer[|longer| - 1] == next;
  }

  /** A set of names that holds the entry and, with each known chunk, its imports, holds all that is reached. */
  lemma {:induction false} ClosedHoldsPath(bundle: Bundle, names: set<string>, path: seq<string>, i: nat)
    requires IsPath(bundle, path) && i < |path| && path[0] in names
    requires forall n, m :: n in names && n in bundle && m in Imports(bundle[n]) ==> m in names
    ensures path[i] in names
  {
    if i > 0 {
      ClosedHoldsPath(bundle, names, path, i - 1);
    }
  }

  lemma ClosedHoldsReached(bundle: Bundle, names: set<string>, entry: string, name: string)
    requires entry in names && Reaches(bundle, entry, name)
    requires forall n, m :: n in names && n in bundle && m in Imports(bundle[n]) ==> m in names
    ensures name in names
  {
    var path :| IsPath(bundle, path) && path[0] == entry && path[|path| - 1] == name;
    ClosedHoldsPath(bundle, names, path, |path| - 1);
  }

  // ---- The worklist ----

  /** The chunks of the given names. */
  predicate AreChunksOf(bundle: Bundle, names: seq<string>, chunks: seq<Chunk>) {
    && |chunks| == |names|
    && forall i :: 0 <= i < |names| ==> names[i] in bundle && chunks[i] == bundle[names[i]]
  }

  /** The chunks of the names that the entry reaches, in the order of `names` and each name once. */
  ghost predicate ListsReached(bundle: Bundle, entry: string, names: seq<string>, chunks: seq<Chunk>) {
    && Distinct(names)
    && (forall name :: name in names <==> Reaches(bundle, entry, name))
    && AreChunksOf(bundle, names, chunks)
  }

  /** What the worklist keeps: everything found is reached, and what is reached from `seen` is found. */
  ghost predicate WorkInv(bundle: Bundle, entry: string, seen: set<string>, stack: seq<string>, names: seq<string>) {
    && Distinct(names)
    && (forall n :: n in names <==> n in seen && n in bundle)
    && seen <= Names(bundle, entry)
    && (forall n :: n in stack ==> n in Names(bundle, entry))
    && (forall n :: (n in seen || n in stack) && n in bundle ==> Reaches(bundle, entry, n))
    && (entry in seen || entry in stack)
    && (forall n, m :: n in seen && n in bundle && m in Imports(bundle[n]) ==> m in seen || m in stack)
  }

  lemma WorkBegins(bundle: Bundle, entry: string)
    ensures WorkInv(bundle, entry, {}, [entry], [])
  {
    hide Reaches;
    if entry in bundle {
      ReachesEntry(bundle, entry);
    }
  }

  /** Dropping the top of the stack, when it was seen before or is unknown. */
  lemma WorkDrops(
    bundle: Bundle, entry: string, seen: set<string>, stack: seq<string>, names: seq<string>, top: string,
    now: set<string>)
    requires WorkInv(bundle, entry, seen, stack + [top], names)
    requires now == seen + {top} && (top in seen || top !in bundle)
    ensures WorkInv(bundle, entry, now, stack, names)
  {
    hide Reaches, Names;
    assert forall n :: n in stack + [top] <==> n in stack || n == top;
  }

  /** Replacing the top of the stack, a known chunk not seen before, by its imports. */
  lemma WorkVisits(
    bundle: Bundle, entry: string, seen: set<string>, stack: seq<string>, names: seq<string>, top: string)
    requires WorkInv(bundle, entry, seen, stack + [top], names)
    requires top !in seen && top in bundle
    ensures WorkInv(bundle, entry, seen + {top}, stack + Imports(bundle[top]), names + [top])
  {
    hide Reaches;
    assert forall n :: n in stack + [top] <==> n in stack || n == top;
    assert top in stack + [top];
    forall n | n in Imports(bundle[top]) && n in bundle
      ensures Reaches(bundle, entry, n)
    {
      ReachesNext(bundle, entry, top, n);
    }
  }

  lemma WorkEnds(bundle: Bundle, entry: string, seen: set<string>, names: seq<string>)
    requires WorkInv(bundle, entry, seen, [], names)
    ensures Distinct(names) && forall n :: n in names <==> Reaches(bundle, entry, n)
  {
    forall n | Reaches(bundle, entry, n)
      ensures n in names
    {
      ClosedHoldsReached(bundle, seen, entry, n);
      PathEndKnown(bundle, entry, n);
    }
  }

  lemma PathEndKnown(bundle: Bundle, entry: string, name: string)
    requires Reaches(bundle, entry, name)
    ensures name in bundle
  {
  }

  /**
   The result lists the chunk of every name that the entry reaches through
   known chunks, each name once, and nothing else. Imports of unknown names are
   passed over, and the import graph may be cyclic.
  */
  method CollectReachableChunks(entry: Chunk, byFileName: Bundle) returns (reachable: seq<Chunk>)
    ensures exists names :: ListsReached(byFileName, entry.fileName, names, reachable)
  {
    hide WorkInv, Reaches, Names, Distinct;
    var seen: set<string> := {};
    reachable := [];
    ghost var names: seq<string> := [];
    var stack := [entry.fileName];
    WorkBegins(byFileName, entry.fileName);
    while |stack| > 0
      invariant WorkInv(byFileName, entry.fileName, seen, stack, names)
      invariant AreChunksOf(byFileName, names, reachable)
      decreases Names(byFileName, entry.fileName) - seen, |stack|
    {
      var fileName := stack[|stack| - 1];
      assert stack == stack[..|stack| - 1] + [fileName];
      TopIsName(byFileName, entry.fileName, seen, stack, names);
      stack := stack[..|stack| - 1];
      if fileName in seen {
        assert seen + {fileName} == seen;
        WorkDrops(byFileName, entry.fileName, seen, stack, names, fileName, seen);
        continue;
      }
      ghost var before := seen;
      seen := seen + {fileName};
      if fileName !in byFileName {
        WorkDrops(byFileName, entry.fileName, before, stack, names, fileName, seen);
        continue;
      }
      WorkVisits(byFileName, entry.fileName, before, stack, names, fileName);
      var chunk := byFileName[fileName];
      reachable := reachable + [chunk];
      names := names + [fileName];
      var imported := chunk.imports + chunk.dynamicImports;
      ghost var kept := stack;
      for i := 0 to |imported|
        invariant stack == kept + imported[..i]
      {
        stack := stack + [imported[i]];
      }
      assert imported[..|imported|] == imported == Imports(chunk);
    }
    assert stack == [];
    WorkEnds(byFileName, entry.fileName, seen, names);
    assert ListsReached(byFileName, entry.fileName, names, reachable);
  }

  lemma TopIsName(bundle: Bundle, entry: string, seen: set<string>, stack: seq<string>, names: seq<string>)
    requires WorkInv(bundle, entry, seen, stack, names) && stack != []
    ensures stack[|stack| - 1] in Names(bundle, entry)
  {
  }

  // ---- The guard ----

  /** How far a run of blanks goes. */
  function SkipBlanks(code: string, i: nat): (j: nat)
    requires i <= |code|
    ensures i <= j <= |code|
    decreases |code| - i
  {
    if i < |code| && IsSpace(code[i]) then SkipBlanks(code, i + 1) else i
  }

  predicate IsQuote(c: char) {
    c == '"' || c == '\'' || c == '`'
  }

  /** How far a run of characters other than quotes goes. */
  function SkipUnquoted(code: string, i: nat): (j: nat)
    requires i <= |code|
    ensures i <= j <= |code|
    decreases |code| - i
  {
    if i < |code| && !IsQuote(code[i]) then SkipUnquoted(code, i + 1) else i
  }

  predicate At(code: string, i: nat, word: string) {
    i + |word| <= |code| && code[i..i + |word|] == word
  }

  /** Whether `require("electron")`, or of a path below it, stands at position `i`. */
  predicate RequireAt(code: string, i: nat) {
    && At(code, i, "require(")
    && var quote := SkipBlanks(code, i + 8);
       && quote < |code| && IsQuote(code[quote]) && At(code, quote + 1, "electron")
       && var name := quote + 9;
          var end := if At(code, name, "/") then SkipUnquoted(code, name + 1) else name;
          && !(At(code, name, "/") && end == name + 1)
          && end < |code| && IsQuote(code[end])
          && At(code, SkipBlanks(code, end + 1), ")")
  }

  predicate RequiresElectron(code: string) {
    exists i :: 0 <= i < |code| && RequireAt(code, i)
  }

  /** The text that the guard's pattern matches: a call, a quoted name, and blanks in between. */
  function RequireText(b: string, open: char, path: string, close: char, e: string): string {
    "require(" + (b + ([open] + ("electron" + (path + ([close] + (e + ")"))))))
  }

  predicate SubPath(path: string) {
    path == "" || (|path| > 1 && path[0] == '/' && forall i :: 1 <= i < |path| ==> !IsQuote(path[i]))
  }

  /** The parts that the pattern allows: quotes of three kinds, and after a slash anything else but them. */
  predicate AreParts(b: string, open: char, path: string, close: char, e: string) {
    && AllSpaces(b) && open in "\"'`" && close in "\"'`" && AllSpaces(e)
    && (path == "" || (|path| > 1 && path[0] == '/' && forall i :: 1 <= i < |path| ==> path[i] !in "\"'`"))
  }

  ghost predicate MatchesAt(code: string, i: nat) {
    exists b, open, path, close, e ::
      AreParts(b, open, path, close, e) && At(code, i, RequireText(b, open, path, close, e))
  }

  lemma PartsExactly(b: string, open: char, path: string, close: char, e: string)
    ensures AreParts(b, open, path, close, e) <==>
            AllSpaces(b) && IsQuote(open) && SubPath(path) && IsQuote(close) && AllSpaces(e)
  {
    hide IsSpace;
  }

  lemma {:induction false} BlanksSkipped(code: string, i: nat, n: nat)
    requires i + n < |code| && !IsSpace(code[i + n])
    requires forall k :: i <= k < i + n ==> IsSpace(code[k])
    ensures SkipBlanks(code, i) == i + n
    decreases n
  {
    hide IsSpace;
    if n > 0 {
      BlanksSkipped(code, i + 1, n - 1);
    }
  }

  lemma {:induction false} UnquotedSkipped(code: string, i: nat, n: nat)
    requires i + n < |code| && IsQuote(code[i + n])
    requires forall k :: i <= k < i + n ==> !IsQuote(code[k])
    ensures SkipUnquoted(code, i) == i + n
    decreases n
  {
    if n > 0 {
      UnquotedSkipped(code, i + 1, n - 1);
    }
  }

  lemma AtSplits(code: string, i: nat, first: string, second: string)
    ensures At(code, i, first + second) <==> At(code, i, first) && At(code, i + |first|, second)
  {
    if At(code, i, first + second) {
      assert code[i..i + |first|] == (first + second)[..|first|];
      assert code[i + |first|..i + |first| + |second|] == (first + second)[|first|..];
    }
    if At(code, i, first) && At(code, i + |first|, second) {
      assert code[i..i + |first| + |second|] == first + second;
    }
  }

  /** The parts of a match, each at its place. */
  predicate PartsAt(code: string, i: nat, b: string, open: char, path: string, close: char, e: string) {
    var quote := i + 8 + |b|;
    var end := quote + 9 + |path|;
    && At(code, i, "require(") && At(code, i + 8, b)
    && At(code, quote, [open]) && At(code, quote + 1, "electron") && At(code, quote + 9, path)
    && At(code, end, [close]) && At(code, end + 1, e) && At(code, end + 1 + |e|, ")")
  }

  lemma PartsOfMatch(code: string, i: nat, b: string, open: char, path: string, close: char, e: string)
    ensures At(code, i, RequireText(b, open, path, close, e)) <==> PartsAt(code, i, b, open, path, close, e)
  {
    hide At;
    var quote := i + 8 + |b|;
    var end := quote + 9 + |path|;
    var tail := [close] + (e + ")");
    var name := "electron" + (path + tail);
    AtSplits(code, i, "require(", b + ([open] + name));
    AtSplits(code, i + 8, b, [open] + name);
    AtSplits(code, quote, [open], name);
    AtSplits(code, quote + 1, "electron", path + tail);
    AtSplits(code, quote + 9, path, tail);
    AtSplits(code, end, [close], e + ")");
    AtSplits(code, end + 1, e, ")");
  }

  /** The pattern's greedy reading from left to right finds a match wherever there is one. */
  lemma MatchIsFound(code: string, i: nat, b: string, open: char, path: string, close: char, e: string)
    requires AllSpaces(b) && IsQuote(open) && SubPath(path) && IsQuote(close) && AllSpaces(e)
    requires PartsAt(code, i, b, open, path, close, e)
    ensures RequireAt(code, i)
  {
    hide SkipBlanks, SkipUnquoted, IsSpace, IsQuote, At, SubPath;
    var quote := i + 8 + |b|;
    var end := quote + 9 + |path|;
    QuotesAreNotBlank(open);
    QuotesAreNotBlank(close);
    BlanksAt(code, i + 8, b, open);
    BlanksAt(code, end + 1, e, ')');
    if path != "" {
      PathAt(code, quote + 9, path, close);
    } else {
      CloseAt(code, quote + 9, close);
    }
  }

  lemma CloseAt(code: string, i: nat, close: char)
    requires At(code, i, [close]) && close != '/'
    ensures !At(code, i, "/") && i < |code| && code[i] == close
  {
    assert code[i..i + 1][0] == code[i];
  }

  lemma QuotesAreNotBlank(c: char)
    ensures IsQuote(c) ==> !IsSpace(c) && c != '/'
    ensures !IsSpace(')')
  {
  }

  lemma BlanksAt(code: string, i: nat, b: string, c: char)
    requires AllSpaces(b) && !IsSpace(c) && At(code, i, b) && At(code, i + |b|, [c])
    ensures i + |b| < |code| && SkipBlanks(code, i) == i + |b| && code[i + |b|] == c
  {
    hide IsSpace, SkipBlanks;
    assert code[i + |b|..i + |b| + 1][0] == code[i + |b|];
    assert forall k {:trigger code[k]} :: i <= k < i + |b| ==> code[k] == code[i..i + |b|][k - i];
    BlanksSkipped(code, i, |b|);
  }

  lemma PathAt(code: string, i: nat, path: string, close: char)
    requires SubPath(path) && path != "" && IsQuote(close) && At(code, i, path) && At(code, i + |path|, [close])
    ensures At(code, i, "/") && |path| > 1
    ensures i + |path| < |code| && SkipUnquoted(code, i + 1) == i + |path| && code[i + |path|] == close
  {
    hide IsQuote, SkipUnquoted;
    assert code[i + |path|..i + |path| + 1][0] == code[i + |path|];
    assert forall k {:trigger code[k]} :: i <= k < i + |path| ==> code[k] == code[i..i + |path|][k - i];
    assert code[i..i + 1] == "/";
    UnquotedSkipped(code, i + 1, |path| - 1);
  }

  lemma {:induction false} SkippedAreBlank(code: string, i: nat)
    requires i <= |code|
    ensures AllSpaces(code[i..SkipBlanks(code, i)])
    decreases |code| - i
  {
    hide IsSpace;
    if i < |code| && IsSpace(code[i]) {
      SkippedAreBlank(code, i + 1);
      assert code[i..SkipBlanks(code, i)] == [code[i]] + code[i + 1..SkipBlanks(code, i)];
    }
  }

  lemma {:induction false} SkippedAreUnquoted(code: string, i: nat)
    requires i <= |code|
    ensures forall k :: i <= k < SkipUnquoted(code, i) ==> !IsQuote(code[k])
    decreases |code| - i
  {
    if i < |code| && !IsQuote(code[i]) {
      SkippedAreUnquoted(code, i + 1);
    }
  }

  lemma AtSlice(code: string, from: nat, to: nat)
    requires from <= to <= |code|
    ensures At(code, from, code[from..to])
    ensures to < |code| ==> At(code, to, [code[to]])
  {
    assert to < |code| ==> code[to..to + 1] == [code[to]];
  }

  lemma FoundParts(code: string, i: nat, quote: nat, end: nat, last: nat)
    requires At(code, i, "require(") && i + 8 <= quote < |code| && At(code, quote + 1, "electron")
    requires quote + 9 <= end < last <= |code| && At(code, last, ")")
    ensures PartsAt(code, i, code[i + 8..quote], code[quote], code[quote + 9..end], code[end], code[end + 1..last])
  {
    hide At;
    AtSlice(code, i + 8, quote);
    AtSlice(code, quote + 9, end);
    AtSlice(code, end + 1, last);
  }

  lemma FoundIsMatch(code: string, i: nat)
    requires RequireAt(code, i)
    ensures MatchesAt(code, i)
  {
    hide SkipBlanks, SkipUnquoted, IsSpace, IsQuote, RequireText;
    var quote := SkipBlanks(code, i + 8);
    var name := quote + 9;
    var end := if At(code, name, "/") then SkipUnquoted(code, name + 1) else name;
    var last := SkipBlanks(code, end + 1);
    var b, path, e := code[i + 8..quote], code[name..end], code[end + 1..last];
    SkippedAreBlank(code, i + 8);
    SkippedAreBlank(code, end + 1);
    FoundPath(code, name, end);
    FoundParts(code, i, quote, end, last);
    PartsOfMatch(code, i, b, code[quote], path, code[end], e);
    PartsExactly(b, code[quote], path, code[end], e);
  }

  lemma FoundPath(code: string, name: nat, end: nat)
    requires name <= |code|
    requires end == if At(code, name, "/") then SkipUnquoted(code, name + 1) else name
    requires !(At(code, name, "/") && end == name + 1)
    ensures name <= end <= |code| && SubPath(code[name..end])
  {
    hide IsQuote, SkipUnquoted;
    if At(code, name, "/") {
      SkippedAreUnquoted(code, name + 1);
      assert code[name..name + 1][0] == code[name];
    }
  }

  /** The reading from left to right accepts exactly the texts of the pattern. */
  lemma RequireAtIsThePattern(code: string, i: nat)
    ensures RequireAt(code, i) <==> MatchesAt(code, i)
  {
    hide RequireAt;
    if RequireAt(code, i) {
      FoundIsMatch(code, i);
    }
    if b, open, path, close, e :|
      AreParts(b, open, path, close, e) && At(code, i, RequireText(b, open, path, close, e))
    {
      PartsExactly(b, open, path, close, e);
      PartsOfMatch(code, i, b, open, path, close, e);
      MatchIsFound(code, i, b, open, path, close, e);
    }
  }

  /** A text of the pattern stands somewhere. */
  ghost predicate Matches(code: string) {
    exists i :: MatchesAt(code, i)
  }

  lemma RequiresExactly(code: string)
    ensures RequiresElectron(code) <==> Matches(code)
  {
    hide RequireAt, MatchesAt;
    forall i: nat
      ensures RequireAt(code, i) <==> MatchesAt(code, i)
    {
      RequireAtIsThePattern(code, i);
    }
    if i :| MatchesAt(code, i) {
      RequireIsThere(code, i);
    }
  }

  lemma RequireIsThere(code: string, i: nat)
    requires RequireAt(code, i)
    ensures i < |code|
  {
  }

  /**
   The guard fails exactly when the entry reaches a chunk in which the pattern
   matches somewhere, and then names such a chunk.
  */
  method AssertNoElectronRequire(entry: Chunk, byFileName: Bundle) returns (culprit: Option<Chunk>)
    ensures culprit.Some?
       <==> exists name :: Reaches(byFileName, entry.fileName, name) && name in byFileName
                           && Matches(byFileName[name].code)
    ensures culprit.Some? ==> Matches(culprit.value.code)
    ensures culprit.Some? ==> exists name :: Reaches(byFileName, entry.fileName, name) && name in byFileName
                                             && byFileName[name] == culprit.value
  {
    hide Reaches, RequireAt, RequiresElectron, Matches;
    forall code: string
      ensures RequiresElectron(code) <==> Matches(code)
    {
      RequiresExactly(code);
    }
    var chunks := CollectReachableChunks(entry, byFileName);
    ghost var names :| ListsReached(byFileName, entry.fileName, names, chunks);
    for i := 0 to |chunks|
      invariant forall j :: 0 <= j < i ==> !RequiresElectron(chunks[j].code)
    {
      if RequiresElectron(chunks[i].code) {
        assert names[i] in names && chunks[i] == byFileName[names[i]];
        return Some(chunks[i]);
      }
    }
    forall name | Reaches(byFileName, entry.fileName, name) && name in byFileName
      ensures !RequiresElectron(byFileName[name].code)
    {
      var j :| 0 <= j < |names| && names[j] == name;
      assert chunks[j] == byFileName[name];
    }
    return None;
  }
}
