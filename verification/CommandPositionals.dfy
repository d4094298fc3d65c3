/** Turning the positional arguments of a command into flags, and aliases of its path into the path itself. */
module CommandPositionals {
  import opened CliArguments
  import opened Sequences
  import opened Wrappers

  /** What normalisation looks at of a command's specification; no aliases and an empty list of them differ. */
  datatype CommandSpec = CommandSpec(path: seq<string>, aliases: Option<seq<seq<string>>>, positionalArgs: seq<string>)

  datatype ParsedArgs =
    ParsedArgs(commandPath: seq<string>, flags: Flags, positionalFlagConflicts: Option<seq<string>>)

  function SpecPaths(spec: CommandSpec): seq<seq<string>> {
    match spec.aliases
    case None => [spec.path]
    case Some(aliases) => [spec.path] + aliases
  }

  predicate NeedsNormalizing(spec: CommandSpec) {
    spec.positionalArgs != [] || spec.aliases.Some?
  }

  /** Whether a command path is `base` followed by no more values than there are positional arguments. */
  predicate Takes(spec: CommandSpec, base: seq<string>, commandPath: seq<string>) {
    base <= commandPath && |commandPath| - |base| <= |spec.positionalArgs|
  }

  // ---- The positional arguments of one command ----

  function Conflicts(names: seq<string>, flags: Flags): seq<string> {
    if names == [] then []
    else
      var n := |names| - 1;
      Conflicts(names[..n], flags) + if names[n] in flags then [names[n]] else []
  }

  /** Each value under its name, unless the name has one already. */
  function WithPositionals(flags: Flags, names: seq<string>, values: seq<string>): Flags
    requires |values| <= |names|
    decreases |values|
  {
    if values == [] then flags
    else
      var n := |values| - 1;
      var before := WithPositionals(flags, names, values[..n]);
      if names[n] in before then before else before[names[n] := Value(values[n])]
  }

  function Normal(spec: CommandSpec, base: seq<string>, parsed: ParsedArgs): ParsedArgs
    requires Takes(spec, base, parsed.commandPath)
  {
    var values := parsed.commandPath[|base|..];
    ParsedArgs(spec.path, WithPositionals(parsed.flags, spec.positionalArgs, values),
               Some(Conflicts(spec.positionalArgs[..|values|], parsed.flags)))
  }

  /** The first of the paths that takes the command path. */
  function BaseOf(spec: CommandSpec, bases: seq<seq<string>>, commandPath: seq<string>): (base: Option<seq<string>>)
    ensures base.Some? ==> Takes(spec, base.value, commandPath)
  {
    if bases == [] then None
    else if Takes(spec, bases[0], commandPath) then Some(bases[0])
    else BaseOf(spec, bases[1..], commandPath)
  }

  function Normalized(specs: seq<CommandSpec>, parsed: ParsedArgs): ParsedArgs {
    if specs == [] then parsed
    else
      match if NeedsNormalizing(specs[0]) then BaseOf(specs[0], SpecPaths(specs[0]), parsed.commandPath) else None
      case Some(base) => Normal(specs[0], base, parsed)
      case None => Normalized(specs[1..], parsed)
  }

  method NormalizeCommandPositionals(specs: seq<CommandSpec>, parsed: ParsedArgs) returns (normal: ParsedArgs)
    ensures normal == Normalized(specs, parsed)
  {
    hide WithPositionals, Conflicts, Takes;
    for i := 0 to |specs|
      invariant Normalized(specs, parsed) == Normalized(specs[i..], parsed)
    {
      assert specs[i..][1..] == specs[i + 1..];
      var spec := specs[i];
      if !NeedsNormalizing(spec) {
        continue;
      }
      var bases := SpecPaths(spec);
      for j := 0 to |bases|
        invariant BaseOf(spec, bases, parsed.commandPath) == BaseOf(spec, bases[j..], parsed.commandPath)
      {
        assert bases[j..][1..] == bases[j + 1..];
        if Takes(spec, bases[j], parsed.commandPath) {
          normal := NormalizeWith(spec, bases[j], parsed);
          return;
        }
      }
    }
    return parsed;
  }

  method NormalizeWith(spec: CommandSpec, base: seq<string>, parsed: ParsedArgs) returns (normal: ParsedArgs)
    requires Takes(spec, base, parsed.commandPath)
    ensures normal == Normal(spec, base, parsed)
  {
    var flags := parsed.flags;
    var values := parsed.commandPath[|base|..];
    var conflicts: seq<string> := [];
    for index := 0 to |values|
      invariant conflicts == Conflicts(spec.positionalArgs[..index], parsed.flags)
    {
      assert spec.positionalArgs[..index + 1][..index] == spec.positionalArgs[..index];
      if spec.positionalArgs[index] in parsed.flags {
        conflicts := conflicts + [spec.positionalArgs[index]];
      }
    }
    for index := 0 to |values|
      invariant flags == WithPositionals(parsed.flags, spec.positionalArgs, values[..index])
    {
      assert values[..index + 1][..index] == values[..index];
      var name := spec.positionalArgs[index];
      if name !in flags {
        flags := flags[name := Value(values[index])];
      }
    }
    assert values[..|values|] == values;
    return ParsedArgs(spec.path, flags, Some(conflicts));
  }

  // ---- What normalisation means ----

  /** The command and the path of it that normalisation settles on. */
  function Chosen(specs: seq<CommandSpec>, commandPath: seq<string>): (r: Option<(CommandSpec, seq<string>)>)
    ensures r.Some? ==> Takes(r.value.0, r.value.1, commandPath)
  {
    if specs == [] then None
    else
      match if NeedsNormalizing(specs[0]) then BaseOf(specs[0], SpecPaths(specs[0]), commandPath) else None
      case Some(base) => Some((specs[0], base))
      case None => Chosen(specs[1..], commandPath)
  }

  lemma {:induction false} NormalizedIsChosen(specs: seq<CommandSpec>, parsed: ParsedArgs)
    ensures Normalized(specs, parsed)
         == match Chosen(specs, parsed.commandPath)
            case None => parsed
            case Some((spec, base)) => Normal(spec, base, parsed)
  {
    hide Normal, BaseOf;
    if specs != [] {
      NormalizedIsChosen(specs[1..], parsed);
    }
  }

  /** A path under which a command is known: its own or an alias. */
  predicate IsPathOf(spec: CommandSpec, base: seq<string>) {
    base == spec.path || (spec.aliases.Some? && base in spec.aliases.value)
  }

  /**
   Whether a command can be meant: it has positional arguments or aliases, and
   the command path begins with `base` and goes on with as many values at most
   as it has positional arguments.
  */
  predicate CanBeMeant(spec: CommandSpec, base: seq<string>, commandPath: seq<string>) {
    && (spec.positionalArgs != [] || spec.aliases.Some?)
    && IsPathOf(spec, base)
    && |base| <= |commandPath| <= |base| + |spec.positionalArgs| && commandPath[..|base|] == base
  }

  lemma {:induction false} BaseIsFirst(spec: CommandSpec, bases: seq<seq<string>>, commandPath: seq<string>)
    ensures BaseOf(spec, bases, commandPath).None? <==>
            forall base :: base in bases ==> !Takes(spec, base, commandPath)
    ensures BaseOf(spec, bases, commandPath).Some? ==> BaseOf(spec, bases, commandPath).value in bases
    ensures bases != [] && Takes(spec, bases[0], commandPath) ==> BaseOf(spec, bases, commandPath) == Some(bases[0])
    decreases |bases|
  {
    hide Takes;
    if bases != [] {
      BaseIsFirst(spec, bases[1..], commandPath);
      assert forall base :: base in bases <==> base == bases[0] || base in bases[1..];
    }
  }

  /**
   The command settled on is the first one that can be meant, under its own path
   if that is possible and under an alias otherwise; none is settled on exactly
   when none can be meant.
  */
  lemma {:induction false} ChosenIsFirst(specs: seq<CommandSpec>, commandPath: seq<string>)
    ensures match Chosen(specs, commandPath)
            case None => forall spec, base :: spec in specs ==> !CanBeMeant(spec, base, commandPath)
            case Some((chosen, base)) =>
              && CanBeMeant(chosen, base, commandPath)
              && (CanBeMeant(chosen, chosen.path, commandPath) ==> base == chosen.path)
              && exists i :: 0 <= i < |specs| && specs[i] == chosen
                             && forall j, other :: 0 <= j < i ==> !CanBeMeant(specs[j], other, commandPath)
    decreases |specs|
  {
    hide BaseOf;
    if specs != [] {
      ChosenIsFirst(specs[1..], commandPath);
      var spec := specs[0];
      BaseIsFirst(spec, SpecPaths(spec), commandPath);
      assert forall base :: base in SpecPaths(spec) <==> IsPathOf(spec, base);
      assert forall base :: base <= commandPath <==> |base| <= |commandPath| && commandPath[..|base|] == base;
      hide Takes, IsPathOf, SpecPaths;
      assert forall other :: other in specs <==> other == spec || other in specs[1..];
      if Chosen(specs, commandPath).Some? {
        if !NeedsNormalizing(spec) || BaseOf(spec, SpecPaths(spec), commandPath).None? {
          var i :| 0 <= i < |specs[1..]| && specs[1..][i] == Chosen(specs, commandPath).value.0
                   && forall j, other :: 0 <= j < i ==> !CanBeMeant(specs[1..][j], other, commandPath);
          assert specs[i + 1] == specs[1..][i];
          assert forall j :: 1 <= j < i + 1 ==> specs[j] == specs[1..][j - 1];
        } else {
          assert specs[0] == Chosen(specs, commandPath).value.0;
        }
      }
    }
  }

  lemma LastPositional(flags: Flags, names: seq<string>, values: seq<string>)
    requires 0 < |values| <= |names|
    ensures var n := |values| - 1;
            var before := WithPositionals(flags, names, values[..n]);
            && (names[n] in before ==> WithPositionals(flags, names, values) == before)
            && (names[n] !in before ==>
                  WithPositionals(flags, names, values) == before[names[n] := Value(values[n])])
            && names[..n + 1] == names[..n] + [names[n]]
  {
  }

  /** Flags given by name keep their values, and no flag appears but under the names of the values. */
  lemma {:induction false} PositionalsAreAdded(flags: Flags, names: seq<string>, values: seq<string>)
    requires |values| <= |names|
    ensures var all := WithPositionals(flags, names, values);
            && (forall name :: name in all <==> name in flags || name in names[..|values|])
            && (forall name :: name in flags ==> all[name] == flags[name])
    decreases |values|
  {
    assert WithPositionals(flags, names, []) == flags;
    if values != [] {
      hide WithPositionals;
      var n := |values| - 1;
      LastPositional(flags, names, values);
      PositionalsAreAdded(flags, names, values[..n]);
    } else {
    }
  }

  /** A positional value whose name was not given, and is not listed before it, is found under its name. */
  lemma {:induction false} PositionalIsFound(flags: Flags, names: seq<string>, values: seq<string>, i: nat)
    requires i < |values| <= |names| && names[i] !in flags && names[i] !in names[..i]
    ensures var all := WithPositionals(flags, names, values); names[i] in all && all[names[i]] == Value(values[i])
    decreases |values|
  {
    hide WithPositionals;
    var n := |values| - 1;
    LastPositional(flags, names, values);
    PositionalsAreAdded(flags, names, values[..n]);
    if i < n {
      PositionalIsFound(flags, names, values[..n], i);
    } else {
      assert names[..i] == names[..n];
    }
  }

  /** The conflicts reported are the names given both ways, in order, and with each place they are listed at. */
  lemma {:induction false} ConflictsAreGivenTwice(names: seq<string>, flags: Flags)
    ensures forall name :: name in Conflicts(names, flags) <==> name in names && name in flags
    ensures Conflicts(names, flags) == [] <==> forall name :: name in names ==> name !in flags
  {
    if names != [] {
      var n := |names| - 1;
      ConflictsAreGivenTwice(names[..n], flags);
      assert forall name :: name in names <==> name in names[..n] || name == names[n];
      assert forall name :: name in names[..n] ==> name in names;
    }
  }

  /** The values given as flags instead. */
  function AsFlags(flags: Flags, names: seq<string>, values: seq<string>): Flags
    requires |values| <= |names|
    decreases |values|
  {
    if values == [] then flags
    else
      var n := |values| - 1;
      AsFlags(flags, names, values[..n])[names[n] := Value(values[n])]
  }

  lemma {:induction false} AsFlagsIsWithPositionals(flags: Flags, names: seq<string>, values: seq<string>)
    requires |values| <= |names| && Distinct(names)
    requires forall name :: name in names[..|values|] ==> name !in flags
    ensures AsFlags(flags, names, values) == WithPositionals(flags, names, values)
    decreases |values|
  {
    if values != [] {
      var n := |values| - 1;
      forall name | name in names[..n]
        ensures name in names[..n + 1]
      {
      }
      assert names[n] in names[..n + 1] by {
        assert names[..n + 1][n] == names[n];
      }
      AsFlagsIsWithPositionals(flags, names, values[..n]);
      PositionalsAreAdded(flags, names, values[..n]);
      assert names[n] !in names[..n];
    }
  }

  /**
   Where both ways lead to the same command, passing values positionally is the
   same as passing them as flags exactly when no name is given both ways: then
   path and flags are the same and there is no conflict; otherwise a conflict is
   reported that the flags alone do not have.
  */
  lemma PositionalsAreFlags(
    specs: seq<CommandSpec>, spec: CommandSpec, base: seq<string>, values: seq<string>, flags: Flags,
    conflicts: Option<seq<string>>)
    requires Chosen(specs, base + values) == Some((spec, base)) && Chosen(specs, base) == Some((spec, base))
    requires |values| <= |spec.positionalArgs| && Distinct(spec.positionalArgs)
    ensures var positional := Normalized(specs, ParsedArgs(base + values, flags, conflicts));
            var named := Normalized(specs, ParsedArgs(base, AsFlags(flags, spec.positionalArgs, values), conflicts));
            && (positional == named <==> forall name :: name in spec.positionalArgs[..|values|] ==> name !in flags)
            && named == ParsedArgs(spec.path, AsFlags(flags, spec.positionalArgs, values), Some([]))
            && positional.flags == WithPositionals(flags, spec.positionalArgs, values)
  {
    assert forall given :: WithPositionals(given, spec.positionalArgs, []) == given;
    hide WithPositionals, AsFlags, Conflicts, Normalized, Chosen;
    var named := AsFlags(flags, spec.positionalArgs, values);
    NormalizedIsChosen(specs, ParsedArgs(base + values, flags, conflicts));
    NormalizedIsChosen(specs, ParsedArgs(base, named, conflicts));
    assert (base + values)[|base|..] == values;
    assert base[|base|..] == [];
    ConflictsAreGivenTwice(spec.positionalArgs[..|values|], flags);
    ConflictsAreGivenTwice(spec.positionalArgs[..0], named);
    if forall name :: name in spec.positionalArgs[..|values|] ==> name !in flags {
      AsFlagsIsWithPositionals(flags, spec.positionalArgs, values);
    }
  }

  /** Normalising again changes nothing when the command's own path leads to that command, taken whole. */
  lemma NormalizedTwice(specs: seq<CommandSpec>, parsed: ParsedArgs, spec: CommandSpec, base: seq<string>)
    requires Chosen(specs, parsed.commandPath) == Some((spec, base))
    requires Chosen(specs, spec.path) == Some((spec, spec.path))
    ensures var once := Normalized(specs, parsed);
            Normalized(specs, once) == once.(positionalFlagConflicts := Some([]))
  {
    assert forall given :: WithPositionals(given, spec.positionalArgs, []) == given;
    hide WithPositionals, Conflicts, Normalized, Chosen;
    var once := Normalized(specs, parsed);
    NormalizedIsChosen(specs, parsed);
    NormalizedIsChosen(specs, once);
    assert once.commandPath == spec.path;
    assert spec.path[|spec.path|..] == [];
    ConflictsAreGivenTwice(spec.positionalArgs[..0], once.flags);
  }

  // ---- From the command line ----

  lemma AsFlagsOfOneMore(flags: Flags, names: seq<string>, values: seq<string>)
    requires 0 < |values| <= |names|
    ensures var n := |values| - 1;
            && AsFlags(flags, names, values) == AsFlags(flags, names, values[..n])[names[n] := Value(values[n])]
            && names[..n + 1] == names[..n] + [names[n]]
  {
  }

  lemma NotListedBefore(names: seq<string>, n: nat)
    requires n < |names| && Distinct(names)
    ensures forall k :: 0 <= k < n ==> names[k] != names[n]
  {
  }

  /** Under each of the names stands its value, and under others what stood there. */
  lemma {:induction false} AsFlagsHolds(flags: Flags, names: seq<string>, values: seq<string>)
    requires |values| <= |names| && Distinct(names)
    ensures var all := AsFlags(flags, names, values);
            && (forall k :: 0 <= k < |values| ==> names[k] in all && all[names[k]] == Value(values[k]))
            && (forall name :: name !in names[..|values|] ==>
                  (name in all <==> name in flags) && (name in all ==> all[name] == flags[name]))
    decreases |values|
  {
    assert AsFlags(flags, names, []) == flags;
    hide AsFlags, Distinct;
    if values == [] {
    } else {
      var n := |values| - 1;
      AsFlagsHolds(flags, names, values[..n]);
      AsFlagsOfOneMore(flags, names, values);
      NotListedBefore(names, n);
    }
  }

  /** What `ParseArgs` says of its results. */
  ghost predicate IsParsed(parsed: ParsedArgs, argv: seq<string>, booleanFlags: set<string>, commandIndex: int) {
    var items := Items(argv, Place(booleanFlags, commandIndex, 0, false));
    && parsed.commandPath == PlainTokens(items) && FlagsAre(parsed.flags, items)
    && parsed.positionalFlagConflicts == None
  }

  lemma ParsedItems(parsed: ParsedArgs, items: seq<Item>, booleanFlags: set<string>, commandIndex: int)
    requires AllFit(items, Place(booleanFlags, commandIndex, 0, false))
    requires IsParsed(parsed, Tokens(items), booleanFlags, commandIndex)
    ensures parsed.commandPath == PlainTokens(items) && FlagsAre(parsed.flags, items)
    ensures parsed.positionalFlagConflicts == None
  {
    hide FlagsAre, Items, PlainTokens, AllFit;
    ItemsAreReadBack(items, Place(booleanFlags, commandIndex, 0, false));
  }

  /** One list of items gives these names these values, and every other name what another list gives it. */
  ghost predicate GivesAlso(items: seq<Item>, others: seq<Item>, names: seq<string>, values: seq<string>)
    requires |values| <= |names|
  {
    && (forall k :: 0 <= k < |values| ==> Given(items, names[k]) == Some(Value(values[k])))
    && forall name :: name !in names[..|values|] ==> Given(items, name) == Given(others, name)
  }

  lemma GivenIsHeld(flags: Flags, items: seq<Item>, name: string)
    requires FlagsAre(flags, items)
    ensures Given(items, name) == if name in flags then Some(flags[name]) else None
  {
    hide Given;
    assert if name in flags then Given(items, name) == Some(flags[name]) else Given(items, name) == None;
  }

  lemma FlagsGivenAlso(
    flags: Flags, others: Flags, items: seq<Item>, otherItems: seq<Item>, names: seq<string>, values: seq<string>)
    requires |values| <= |names| && Distinct(names)
    requires FlagsAre(flags, items) && FlagsAre(others, otherItems) && GivesAlso(items, otherItems, names, values)
    ensures flags == AsFlags(others, names, values)
  {
    hide Given, FlagsAre, AsFlags, Distinct;
    AsFlagsHolds(others, names, values);
    var all := AsFlags(others, names, values);
    forall name
      ensures name in flags <==> name in all
      ensures name in flags ==> flags[name] == all[name]
    {
      GivenIsHeld(flags, items, name);
      GivenIsHeld(others, otherItems, name);
      if name in names[..|values|] {
        var k :| 0 <= k < |values| && names[..|values|][k] == name;
        assert names[k] == name;
      }
    }
  }

  /**
   Two command lines for one command, written in whatever forms fit and in
   whatever order: one with values after the command's path, one with the same
   values given as flags, all other flags alike. They parse and normalise to the
   same result exactly when the first gives none of these names as a flag too.
  */
  lemma CommandLinesAgree(
    specs: seq<CommandSpec>, spec: CommandSpec, base: seq<string>, values: seq<string>,
    items: seq<Item>, flagItems: seq<Item>, booleanFlags: set<string>, commandIndex: int, otherIndex: int,
    positional: ParsedArgs, flagged: ParsedArgs)
    requires Chosen(specs, base + values) == Some((spec, base)) && Chosen(specs, base) == Some((spec, base))
    requires |values| <= |spec.positionalArgs| && Distinct(spec.positionalArgs)
    requires AllFit(items, Place(booleanFlags, commandIndex, 0, false))
    requires AllFit(flagItems, Place(booleanFlags, otherIndex, 0, false))
    requires PlainTokens(items) == base + values && PlainTokens(flagItems) == base
    requires GivesAlso(flagItems, items, spec.positionalArgs, values)
    requires IsParsed(positional, Tokens(items), booleanFlags, commandIndex)
    requires IsParsed(flagged, Tokens(flagItems), booleanFlags, otherIndex)
    ensures Normalized(specs, positional) == Normalized(specs, flagged) <==>
            forall k :: 0 <= k < |values| ==> Given(items, spec.positionalArgs[k]) == None
    ensures Normalized(specs, flagged).positionalFlagConflicts == Some([])
  {
    hide FlagsAre, IsParsed, Normalized, Chosen, AsFlags, WithPositionals, Tokens, AllFit, Distinct, Given, GivesAlso,
      PlainTokens;
    var names := spec.positionalArgs;
    ParsedItems(positional, items, booleanFlags, commandIndex);
    ParsedItems(flagged, flagItems, booleanFlags, otherIndex);
    FlagsGivenAlso(flagged.flags, positional.flags, flagItems, items, names, values);
    PositionalsAreFlags(specs, spec, base, values, positional.flags, None);
    NamesAreFlags(positional.flags, items, names, values);
  }

  lemma NamesAreFlags(flags: Flags, items: seq<Item>, names: seq<string>, values: seq<string>)
    requires |values| <= |names| && FlagsAre(flags, items)
    ensures (forall name :: name in names[..|values|] ==> name !in flags)
       <==> forall k :: 0 <= k < |values| ==> Given(items, names[k]) == None
  {
    hide Given, FlagsAre;
    forall k | 0 <= k < |values|
      ensures names[k] in names[..|values|]
      ensures names[k] in flags <==> Given(items, names[k]) != None
    {
      assert names[..|values|][k] == names[k];
      GivenIsHeld(flags, items, names[k]);
    }
  }
}
