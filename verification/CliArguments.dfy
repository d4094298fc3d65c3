/** Parsing the arguments of the command line into a command path and flags, and reading flags back. */
module CliArguments {
  import opened Text
  import opened Wrappers

  datatype FlagValue = Value(text: string) | Present

  type Flags = map<string, FlagValue>

  const REPEATED_FLAG_SEPARATOR := '\0'

  predicate IsRepeatable(name: string) {
    name == "label" || name == "skill"
  }

  // ---- What an argument list says ----

  /** A token outside flags, `--name=value`, `--name value`, or `--name` alone. */
  datatype Item = Plain(token: string) | Assign(name: string, value: string) | Spaced(name: string, value: string)
                | Bare(name: string)

  function ItemTokens(item: Item): (tokens: seq<string>)
    ensures tokens != []
  {
    match item
    case Plain(token) => [token]
    case Assign(name, value) => ["--" + name + "=" + value]
    case Spaced(name, value) => ["--" + name, value]
    case Bare(name) => ["--" + name]
  }

  function Tokens(items: seq<Item>): seq<string> {
    if items == [] then [] else ItemTokens(items[0]) + Tokens(items[1..])
  }

  /** Where the first equals sign stands, or the length of the text. */
  function EqualsIndex(s: string): (n: nat)
    ensures n <= |s| && (n < |s| ==> s[n] == '=') && '=' !in s[..n]
  {
    if s == "" || s[0] == '=' then 0
    else
      var n := 1 + EqualsIndex(s[1..]);
      assert s[..n] == [s[0]] + s[1..][..n - 1];
      n
  }

  /**
   What surrounds an item: which names are boolean flags, where the command was
   found to begin (-1 when nowhere), how many tokens come before the item, and
   whether one of them was outside flags.
  */
  datatype Place = Place(booleans: set<string>, commandIndex: int, position: nat, started: bool)

  function Next(place: Place, item: Item): Place {
    place.(position := place.position + |ItemTokens(item)|, started := place.started || item.Plain?)
  }

  /** A name that takes no value here: a boolean flag, or the last before the command. */
  predicate TakesNoValue(name: string, place: Place) {
    name in place.booleans || (!place.started && place.position + 1 == place.commandIndex)
  }

  /** The item an argument list begins with. */
  function FirstItem(argv: seq<string>, place: Place): (item: Item)
    requires argv != []
    ensures |ItemTokens(item)| <= |argv|
  {
    if !StartsWith(argv[0], "--") then Plain(argv[0])
    else
      var assignment := argv[0][2..];
      var n := EqualsIndex(assignment);
      if n < |assignment| then Assign(assignment[..n], assignment[n + 1..])
      else if TakesNoValue(assignment, place) || |argv| == 1 || StartsWith(argv[1], "--") then Bare(assignment)
      else Spaced(assignment, argv[1])
  }

  function Items(argv: seq<string>, place: Place): seq<Item>
    decreases |argv|
  {
    if argv == [] then []
    else
      var item := FirstItem(argv, place);
      [item] + Items(argv[|ItemTokens(item)|..], Next(place, item))
  }

  /** Whether an item can be written where it stands, before the tokens `after`. */
  predicate Fits(item: Item, after: seq<string>, place: Place) {
    match item
    case Plain(token) => !StartsWith(token, "--")
    case Assign(name, _) => '=' !in name
    case Spaced(name, value) => '=' !in name && !TakesNoValue(name, place) && !StartsWith(value, "--")
    case Bare(name) => '=' !in name && (TakesNoValue(name, place) || after == [] || StartsWith(after[0], "--"))
  }

  predicate AllFit(items: seq<Item>, place: Place) {
    items == [] || (Fits(items[0], Tokens(items[1..]), place) && AllFit(items[1..], Next(place, items[0])))
  }

  lemma {:induction false} EqualsIndexOf(name: string, rest: string)
    requires '=' !in name && (rest == "" || rest[0] == '=')
    ensures EqualsIndex(name + rest) == |name|
    decreases |name|
  {
    if name == "" {
      assert name + rest == rest;
    } else {
      assert name[0] in name && forall c :: c in name[1..] ==> c in name;
      EqualsIndexOf(name[1..], rest);
      assert (name + rest)[1..] == name[1..] + rest;
    }
  }

  lemma ItemIsRead(item: Item, after: seq<string>, place: Place)
    requires Fits(item, after, place)
    ensures FirstItem(ItemTokens(item) + after, place) == item
  {
    hide EqualsIndex, TakesNoValue;
    var argv := ItemTokens(item) + after;
    match item
    case Plain(_) =>
    case Assign(name, value) =>
      assert argv[0] == "--" + (name + ("=" + value));
      assert argv[0][2..] == name + ("=" + value);
      EqualsIndexOf(name, "=" + value);
      assert (name + ("=" + value))[|name| + 1..] == value;
    case Spaced(name, value) =>
      assert argv[0][2..] == name + "";
      EqualsIndexOf(name, "");
    case Bare(name) =>
      assert argv[0][2..] == name + "";
      EqualsIndexOf(name, "");
      assert |argv| > 1 ==> argv[1] == after[0];
  }

  /** Items that can be written where they stand are read back. */
  lemma {:induction false} ItemsAreReadBack(items: seq<Item>, place: Place)
    requires AllFit(items, place)
    ensures Items(Tokens(items), place) == items
    decreases |items|
  {
    hide FirstItem, Fits, ItemTokens, Next;
    if items != [] {
      var after := Tokens(items[1..]);
      ItemIsRead(items[0], after, place);
      assert Tokens(items)[|ItemTokens(items[0])|..] == after;
      ItemsAreReadBack(items[1..], Next(place, items[0]));
    }
  }

  lemma ItemIsWritten(argv: seq<string>, place: Place)
    requires argv != []
    ensures var item := FirstItem(argv, place);
            var after := argv[|ItemTokens(item)|..];
            argv == ItemTokens(item) + after && Fits(item, after, place)
  {
    hide EqualsIndex, TakesNoValue;
    if StartsWith(argv[0], "--") {
      var assignment := argv[0][2..];
      var n := EqualsIndex(assignment);
      assert argv[0] == "--" + assignment;
      if n < |assignment| {
        assert assignment == assignment[..n] + ("=" + assignment[n + 1..]);
        assert argv[0] == "--" + assignment[..n] + "=" + assignment[n + 1..];
      } else {
        assert assignment[..n] == assignment;
      }
    }
  }

  /** Every argument list is the writing of the items read from it. */
  lemma {:induction false} ItemsAreWritten(argv: seq<string>, place: Place)
    ensures Tokens(Items(argv, place)) == argv && AllFit(Items(argv, place), place)
    decreases |argv|
  {
    hide FirstItem, Fits, ItemTokens, Next;
    if argv != [] {
      var item := FirstItem(argv, place);
      ItemIsWritten(argv, place);
      ItemsAreWritten(argv[|ItemTokens(item)|..], Next(place, item));
      var items := Items(argv, place);
      assert items[0] == item && items[1..] == Items(argv[|ItemTokens(item)|..], Next(place, item));
    }
  }

  // ---- What the items mean ----

  function PlainTokens(items: seq<Item>): seq<string> {
    if items == [] then []
    else
      var last := items[|items| - 1];
      PlainTokens(items[..|items| - 1]) + if last.Plain? then [last.token] else []
  }

  predicate IsNamed(item: Item, name: string) {
    !item.Plain? && item.name == name
  }

  /** What a name is given: the last value, or for a repeatable name the values since it last stood alone. */
  function Given(items: seq<Item>, name: string): Option<FlagValue> {
    if items == [] then None
    else
      var before, last := Given(items[..|items| - 1], name), items[|items| - 1];
      if !IsNamed(last, name) then before
      else if last.Bare? then Some(Present)
      else if IsRepeatable(name) && before.Some? && before.value.Value? then
        Some(Value(before.value.text + [REPEATED_FLAG_SEPARATOR] + last.value))
      else Some(Value(last.value))
  }

  ghost predicate FlagsAre(flags: Flags, items: seq<Item>) {
    forall name :: if name in flags then Given(items, name) == Some(flags[name]) else Given(items, name) == None
  }

  // ---- The parser ----

  function WithFlagValue(flags: Flags, name: string, value: string): Flags {
    if name in flags && flags[name].Value? && IsRepeatable(name)
    then flags[name := Value(flags[name].text + [REPEATED_FLAG_SEPARATOR] + value)]
    else flags[name := Value(value)]
  }

  lemma AnotherItem(flags: Flags, items: seq<Item>, item: Item)
    requires FlagsAre(flags, items)
    ensures FlagsAre(match item
                     case Plain(_) => flags
                     case Assign(name, value) => WithFlagValue(flags, name, value)
                     case Spaced(name, value) => WithFlagValue(flags, name, value)
                     case Bare(name) => flags[name := Present], items + [item])
    ensures PlainTokens(items + [item]) == PlainTokens(items) + if item.Plain? then [item.token] else []
  {
    assert (items + [item])[..|items|] == items;
  }

  lemma ItemsStep(argv: seq<string>, i: nat, done: seq<Item>, place: Place, all: seq<Item>, item: Item)
    requires i < |argv| && item == FirstItem(argv[i..], place)
    requires done + Items(argv[i..], place) == all
    ensures i + |ItemTokens(item)| <= |argv|
    ensures (done + [item]) + Items(argv[i + |ItemTokens(item)|..], Next(place, item)) == all
  {
    hide FirstItem, ItemTokens, Next;
    assert argv[i..][|ItemTokens(item)|..] == argv[i + |ItemTokens(item)|..];
  }

  /** The plain tokens in order, and each name with what it is given. */
  method ParseArgs(argv: seq<string>, booleanFlags: set<string>, commandIndex: int)
    returns (commandPath: seq<string>, flags: Flags)
    ensures var items := Items(argv, Place(booleanFlags, commandIndex, 0, false));
            commandPath == PlainTokens(items) && FlagsAre(flags, items)
  {
    hide FlagsAre, Items, PlainTokens, EqualsIndex;
    commandPath := [];
    flags := map[];
    var i := 0;
    ghost var place := Place(booleanFlags, commandIndex, 0, false);
    ghost var all := Items(argv, place);
    ghost var done: seq<Item> := [];
    NothingGiven();
    assert argv[0..] == argv && done + all == all;
    while i < |argv|
      invariant 0 <= i <= |argv|
      invariant place == Place(booleanFlags, commandIndex, i, commandPath != [])
      invariant done + Items(argv[i..], place) == all
      invariant commandPath == PlainTokens(done) && FlagsAre(flags, done)
      decreases |argv| - i
    {
      var token := argv[i];
      ghost var item := FirstItem(argv[i..], place);
      ItemsStep(argv, i, done, place, all, item);
      AnotherItem(flags, done, item);
      done, place := done + [item], Next(place, item);
      if !StartsWith(token, "--") {
        commandPath := commandPath + [token];
        i := i + 1;
        continue;
      }
      var assignment := token[2..];
      var equalsIndex := EqualsIndex(assignment);
      if equalsIndex < |assignment| {
        flags := WithFlagValue(flags, assignment[..equalsIndex], assignment[equalsIndex + 1..]);
        i := i + 1;
        continue;
      }
      var flag := assignment;
      if flag in booleanFlags {
        flags := flags[flag := Present];
        i := i + 1;
        continue;
      }
      if |commandPath| == 0 && i + 1 == commandIndex {
        flags := flags[flag := Present];
        i := i + 1;
        continue;
      }
      if i + 1 >= |argv| || StartsWith(argv[i + 1], "--") {
        flags := flags[flag := Present];
        i := i + 1;
        continue;
      }
      flags := WithFlagValue(flags, flag, argv[i + 1]);
      i := i + 2;
    }
    EndOfItems(done, place);
    assert argv[i..] == [];
  }

  lemma NothingGiven()
    ensures FlagsAre(map[], []) && PlainTokens([]) == []
  {
  }

  lemma EndOfItems(done: seq<Item>, place: Place)
    ensures done + Items([], place) == done
  {
  }

  // ---- Reading flags ----

  function GetOptionalStringFlag(flags: Flags, name: string): Option<string> {
    if name in flags && flags[name].Value? && flags[name].text != "" then Some(flags[name].text) else None
  }

  /** `split` at the separator. */
  function Split(s: string): (parts: seq<string>)
    ensures parts != []
  {
    if s == "" then [""]
    else if s[0] == REPEATED_FLAG_SEPARATOR then [""] + Split(s[1..])
    else
      var parts := Split(s[1..]);
      [[s[0]] + parts[0]] + parts[1..]
  }

  function NonEmpty(parts: seq<string>): seq<string> {
    if parts == [] then [] else (if parts[0] != "" then [parts[0]] else []) + NonEmpty(parts[1..])
  }

  function GetRepeatedStringFlag(flags: Flags, name: string): seq<string> {
    match GetOptionalStringFlag(flags, name)
    case None => []
    case Some(value) => NonEmpty(Split(value))
  }

  // ---- Flags come back as they were given ----

  /**
   Whether an item can be written anywhere: a token outside flags, a value given
   with an equals sign, or a boolean flag, whatever follows it.
  */
  predicate FitsAnywhere(item: Item, booleans: set<string>) {
    match item
    case Plain(token) => !StartsWith(token, "--")
    case Assign(name, _) => '=' !in name
    case Bare(name) => '=' !in name && name in booleans
    case Spaced(_, _) => false
  }

  lemma {:induction false} PlainAndAssignedFit(items: seq<Item>, place: Place)
    requires forall k :: 0 <= k < |items| ==> FitsAnywhere(items[k], place.booleans)
    ensures AllFit(items, place)
    decreases |items|
  {
    hide ItemTokens;
    if items != [] {
      assert FitsAnywhere(items[0], place.booleans);
      PlainAndAssignedFit(items[1..], Next(place, items[0]));
    }
  }

  // ---- Which flags take the next token ----

  lemma {:induction false} PlacesOfItems(argv: seq<string>, place: Place, k: nat) returns (there: Place)
    requires k < |Items(argv, place)|
    ensures var items := Items(argv, place);
            var p := |Tokens(items[..k])|;
            && p < |argv| && items[k] == FirstItem(argv[p..], there)
            && there.booleans == place.booleans && there.commandIndex == place.commandIndex
            && there.position == place.position + p
            && (there.started <==> place.started || exists j :: 0 <= j < k && items[j].Plain?)
    decreases k
  {
    hide FirstItem, ItemTokens, StartsWith;
    var items := Items(argv, place);
    var item := FirstItem(argv, place);
    assert items[0] == item;
    if k == 0 {
      assert argv[0..] == argv && items[..0] == [];
      there := place;
    } else {
      var rest := argv[|ItemTokens(item)|..];
      var later := Items(rest, Next(place, item));
      assert items[1..] == later && items[..k][1..] == later[..k - 1] && items[..k][0] == item;
      there := PlacesOfItems(rest, Next(place, item), k - 1);
      var p := |Tokens(later[..k - 1])|;
      assert |Tokens(items[..k])| == |ItemTokens(item)| + p;
      assert rest[p..] == argv[|ItemTokens(item)| + p..];
      assert items[k] == later[k - 1];
      assert forall j :: 0 <= j < k - 1 ==> items[j + 1] == later[j];
      assert (exists j :: 0 <= j < k && items[j].Plain?) <==>
             item.Plain? || exists j :: 0 <= j < k - 1 && later[j].Plain? by {
        if j :| 0 <= j < k && items[j].Plain? {
          assert j > 0 ==> later[j - 1].Plain?;
        }
        if j :| 0 <= j < k - 1 && later[j].Plain? {
          assert items[j + 1].Plain?;
        }
      }
    }
  }

  /**
   Of any argument list, a `--name` takes the token after it as its value
   exactly when it is no boolean flag, there is such a token and it does not
   begin with two dashes, and it is not the token before the command while no
   token outside flags came before it.
  */
  lemma TakesTheNextExactly(argv: seq<string>, booleans: set<string>, commandIndex: int, k: nat)
    requires k < |Items(argv, Place(booleans, commandIndex, 0, false))|
    requires var item := Items(argv, Place(booleans, commandIndex, 0, false))[k]; item.Spaced? || item.Bare?
    ensures var items := Items(argv, Place(booleans, commandIndex, 0, false));
            var p := |Tokens(items[..k])|;
            && p < |argv| && argv[p] == "--" + items[k].name
            && (items[k].Spaced? <==>
                && items[k].name !in booleans
                && p + 1 < |argv| && !("--" <= argv[p + 1])
                && (p + 1 != commandIndex || exists j :: 0 <= j < k && items[j].Plain?))
            && (items[k].Spaced? ==> items[k].value == argv[p + 1])
  {
    hide Items, Tokens, EqualsIndex;
    var there := PlacesOfItems(argv, Place(booleans, commandIndex, 0, false), k);
    var p := |Tokens(Items(argv, Place(booleans, commandIndex, 0, false))[..k])|;
    assert argv[p..][0] == argv[p];
    assert argv[p] == "--" + argv[p][2..];
    assert p + 1 < |argv| ==> argv[p..][1] == argv[p + 1];
  }

  /**
   An ordinary name has the value it was given last, whatever it was given
   before; and any name that stood alone last is present without a value.
  */
  lemma LastValueCounts(before: seq<Item>, item: Item, after: seq<Item>, flags: Flags)
    requires !item.Plain? && (item.Bare? || item.name !in {"label", "skill"})
    requires forall k :: 0 <= k < |after| ==> !IsNamed(after[k], item.name)
    requires FlagsAre(flags, before + [item] + after)
    ensures item.name in flags && flags[item.name] == if item.Bare? then Present else Value(item.value)
  {
    GivenLast(before, item, after);
    assert Given(before + [item] + after, item.name).Some?;
  }

  lemma {:induction false} GivenLast(before: seq<Item>, item: Item, after: seq<Item>)
    requires !item.Plain? && (item.Bare? || item.name !in {"label", "skill"})
    requires forall k :: 0 <= k < |after| ==> !IsNamed(after[k], item.name)
    ensures Given(before + [item] + after, item.name) == Some(if item.Bare? then Present else Value(item.value))
    decreases |after|
  {
    var items := before + [item] + after;
    if after == [] {
      assert items == before + [item];
      assert items[..|items| - 1] == before;
    } else {
      var n := |after| - 1;
      assert items[..|items| - 1] == before + [item] + after[..n];
      assert items[|items| - 1] == after[n];
      GivenLast(before, item, after[..n]);
    }
  }

  /** The values a name was given since it last stood alone, in order. */
  function ValuesGiven(items: seq<Item>, name: string): seq<string> {
    if items == [] then []
    else
      var before, last := ValuesGiven(items[..|items| - 1], name), items[|items| - 1];
      if !IsNamed(last, name) then before else if last.Bare? then [] else before + [last.value]
  }

  function Joined(values: seq<string>): string
    requires values != []
  {
    var n := |values| - 1;
    if n == 0 then values[0] else Joined(values[..n]) + [REPEATED_FLAG_SEPARATOR] + values[n]
  }

  /** The non-empty parts of all the values. */
  function Segments(values: seq<string>): seq<string> {
    if values == [] then []
    else Segments(values[..|values| - 1]) + NonEmpty(Split(values[|values| - 1]))
  }

  lemma {:induction false} GivenIsJoined(items: seq<Item>, name: string)
    requires IsRepeatable(name)
    ensures if ValuesGiven(items, name) == [] then Given(items, name) in {None, Some(Present)}
            else Given(items, name) == Some(Value(Joined(ValuesGiven(items, name))))
  {
    if items != [] {
      var n := |items| - 1;
      GivenIsJoined(items[..n], name);
      var before := ValuesGiven(items[..n], name);
      if IsNamed(items[n], name) && !items[n].Bare? {
        assert (before + [items[n].value])[..|before|] == before;
      }
    }
  }

  lemma {:induction false} SplitJoined(a: string, b: string)
    ensures Split(a + [REPEATED_FLAG_SEPARATOR] + b) == Split(a) + Split(b)
    decreases |a|
  {
    hide Split;
    var s := a + [REPEATED_FLAG_SEPARATOR] + b;
    if a == "" {
      SplitStep(REPEATED_FLAG_SEPARATOR, b);
      SplitNothing();
      assert s == [REPEATED_FLAG_SEPARATOR] + b;
    } else {
      SplitJoined(a[1..], b);
      SplitStep(a[0], a[1..]);
      SplitStep(a[0], a[1..] + [REPEATED_FLAG_SEPARATOR] + b);
      assert a == [a[0]] + a[1..];
      assert s == [a[0]] + (a[1..] + [REPEATED_FLAG_SEPARATOR] + b);
      var parts := Split(a[1..]);
      assert (parts + Split(b))[1..] == parts[1..] + Split(b);
      assert [""] + (parts + Split(b)) == [""] + parts + Split(b);
    }
  }

  lemma SplitNothing()
    ensures Split("") == [""]
  {
  }

  lemma SplitStep(c: char, rest: string)
    ensures Split([c] + rest) == if c == REPEATED_FLAG_SEPARATOR then [""] + Split(rest)
                                 else [[c] + Split(rest)[0]] + Split(rest)[1..]
  {
    assert ([c] + rest)[1..] == rest;
  }

  lemma {:induction false} NonEmptyOfBoth(a: seq<string>, b: seq<string>)
    ensures NonEmpty(a + b) == NonEmpty(a) + NonEmpty(b)
    decreases |a|
  {
    if a == [] {
      assert a + b == b;
    } else {
      NonEmptyOfBoth(a[1..], b);
      assert (a + b)[1..] == a[1..] + b;
    }
  }

  lemma {:induction false} SegmentsOfJoined(values: seq<string>)
    requires values != []
    ensures NonEmpty(Split(Joined(values))) == Segments(values)
    decreases |values|
  {
    hide Split, NonEmpty;
    var n := |values| - 1;
    if n > 0 {
      SegmentsOfJoined(values[..n]);
      SplitJoined(Joined(values[..n]), values[n]);
      NonEmptyOfBoth(Split(Joined(values[..n])), Split(values[n]));
    } else {
      assert Segments(values[..n]) == [];
    }
  }

  lemma {:induction false} SplitWhole(value: string)
    requires REPEATED_FLAG_SEPARATOR !in value
    ensures Split(value) == [value]
  {
    if value != "" {
      assert value[0] in value && forall c :: c in value[1..] ==> c in value;
      SplitWhole(value[1..]);
      assert [value[0]] + value[1..] == value;
    }
  }

  lemma {:induction false} SegmentsWhole(values: seq<string>)
    requires forall k :: 0 <= k < |values| ==> REPEATED_FLAG_SEPARATOR !in values[k]
    ensures Segments(values) == NonEmpty(values)
    decreases |values|
  {
    if values == [] {
    } else {
      var n := |values| - 1;
      SegmentsWhole(values[..n]);
      SplitWhole(values[n]);
      NonEmptyOfBoth(values[..n], [values[n]]);
      assert values == values[..n] + [values[n]];
    }
  }

  /**
   A repeatable flag gives back the non-empty parts of the values it was given
   since it last stood alone, in order; where no value holds the separator, these
   are the non-empty values themselves.
  */
  lemma RepeatedValuesComeBack(items: seq<Item>, name: string, flags: Flags)
    requires IsRepeatable(name) && FlagsAre(flags, items)
    ensures GetRepeatedStringFlag(flags, name) == Segments(ValuesGiven(items, name))
    ensures (forall k :: 0 <= k < |ValuesGiven(items, name)| ==> '\0' !in ValuesGiven(items, name)[k])
            ==> GetRepeatedStringFlag(flags, name) == NonEmpty(ValuesGiven(items, name))
  {
    assert Segments([]) == [];
    assert NonEmpty(Split("")) == [];
    hide Split, NonEmpty, Segments, Joined, Given, ValuesGiven, IsRepeatable;
    var values := ValuesGiven(items, name);
    GivenIsJoined(items, name);
    assert if name in flags then Given(items, name) == Some(flags[name]) else Given(items, name) == None;
    if values == [] {
    } else {
      SegmentsOfJoined(values);
    }
    if forall k :: 0 <= k < |values| ==> REPEATED_FLAG_SEPARATOR !in values[k] {
      SegmentsWhole(values);
    }
  }

  /**
   What is written as items, in any form that fits where it stands, is what
   parsing gives back: the plain tokens in order, each name with what it was
   given, and each repeatable name with all its values.
  */
  lemma FlagsRoundTrip(
    items: seq<Item>, booleanFlags: set<string>, commandIndex: int, commandPath: seq<string>, flags: Flags)
    requires AllFit(items, Place(booleanFlags, commandIndex, 0, false))
    requires var read := Items(Tokens(items), Place(booleanFlags, commandIndex, 0, false));
             commandPath == PlainTokens(read) && FlagsAre(flags, read)
    ensures commandPath == PlainTokens(items) && FlagsAre(flags, items)
    ensures GetRepeatedStringFlag(flags, "label") == Segments(ValuesGiven(items, "label"))
    ensures GetRepeatedStringFlag(flags, "skill") == Segments(ValuesGiven(items, "skill"))
  {
    hide FlagsAre, Items, GetRepeatedStringFlag, Segments, PlainTokens;
    ItemsAreReadBack(items, Place(booleanFlags, commandIndex, 0, false));
    RepeatedValuesComeBack(items, "label", flags);
    RepeatedValuesComeBack(items, "skill", flags);
  }
}
