/**
 Compaction of a browser's tab strip: when ten or more tabs stand side by side
 and one of them is active, the lines and records of the inactive ones make way
 for a single line that counts them.
*/
module TabCompaction {
  import opened AccessibleNodes
  import opened Numerals
  import opened RenderedLines
  import opened Text
  import opened Wrappers

  const TABS_WORTH_COMPACTING := 10

  // ---- What is omitted ----

  /** The records by index; of two with one index the later counts. */
  function ByIndex(records: seq<Record>): map<nat, Record> {
    if records == [] then map[]
    else ByIndex(records[..|records| - 1])[records[|records| - 1].index := records[|records| - 1]]
  }

  predicate IsActiveTab(line: string, depth: nat, byIndex: map<nat, Record>) {
    || Contains(line, "(selected")
    || match ElementIndex(line, depth)
       case None => false
       case Some(index) =>
         index in byIndex && (byIndex[index].isSelected || Sanitized(byIndex[index].value) == "1")
  }

  predicate Omits(line: string, depth: nat, byIndex: map<nat, Record>) {
    IsTabLine(line, depth) && !IsActiveTab(line, depth, byIndex)
  }

  predicate Ascending(positions: seq<nat>) {
    forall i, j :: 0 <= i < j < |positions| ==> positions[i] < positions[j]
  }

  /** An ascending list with a lesser position in front is ascending. */
  lemma InFront(p: nat, rest: seq<nat>)
    requires Ascending(rest)
    ensures Ascending([])
    ensures (forall q :: q in rest ==> p < q) ==> Ascending([p] + rest)
    ensures forall q :: q in [p] + rest <==> q == p || q in rest
  {
    assert forall k :: 0 <= k < |rest| ==> rest[k] in rest;
  }

  /** Where the tabs are, from a position on. */
  function TabLines(lines: seq<string>, from: nat, depth: nat): (tabs: seq<nat>)
    ensures Ascending(tabs)
    ensures forall p :: p in tabs <==> from <= p < |lines| && IsTabLine(lines[p], depth)
    decreases |lines| - from
  {
    hide IsTabLine, Ascending;
    if from >= |lines| then []
    else
      var rest := TabLines(lines, from + 1, depth);
      InFront(from, rest);
      if IsTabLine(lines[from], depth) then [from] + rest else rest
  }

  /** Where the inactive tabs are, from a position on. */
  function Omitted(lines: seq<string>, from: nat, depth: nat, byIndex: map<nat, Record>): (omitted: seq<nat>)
    ensures Ascending(omitted)
    ensures forall p :: p in omitted <==> from <= p < |lines| && Omits(lines[p], depth, byIndex)
    decreases |lines| - from
  {
    hide Omits, Ascending;
    if from >= |lines| then []
    else
      var rest := Omitted(lines, from + 1, depth, byIndex);
      InFront(from, rest);
      if Omits(lines[from], depth, byIndex) then [from] + rest else rest
  }

  /** The lines that stay, from a position on. */
  function Kept(lines: seq<string>, from: nat, depth: nat, byIndex: map<nat, Record>): seq<string>
    decreases |lines| - from
  {
    if from >= |lines| then []
    else
      var rest := Kept(lines, from + 1, depth, byIndex);
      if Omits(lines[from], depth, byIndex) then rest else [lines[from]] + rest
  }

  function IndexesNamed(lines: seq<string>, depth: nat, positions: seq<nat>): set<nat>
    requires forall p :: p in positions ==> p < |lines|
  {
    set p | p in positions && ElementIndex(lines[p], depth).Some? :: ElementIndex(lines[p], depth).value
  }

  function Without(records: seq<Record>, indexes: set<nat>): seq<Record> {
    if records == [] then []
    else
      var rest := Without(records[..|records| - 1], indexes);
      if records[|records| - 1].index in indexes then rest else rest + [records[|records| - 1]]
  }

  function Compacted(s: Rendering, start: nat, depth: nat): Rendering {
    var byIndex := ByIndex(s.records);
    var tabs := TabLines(s.lines, start, depth);
    var omitted := Omitted(s.lines, start, depth, byIndex);
    if |tabs| < TABS_WORTH_COMPACTING || |omitted| == |tabs| || omitted == [] then s
    else
      assert tabs[0] in tabs;
      s.(records := Without(s.records, IndexesNamed(s.lines, depth, omitted)),
         lines := s.lines[..tabs[0]] + [OmittedLine(depth, |omitted|)]
                  + Kept(s.lines, tabs[0], depth, byIndex))
  }

  // ---- Steps of the loops ----

  lemma {:induction false} NoTabsBetween(
    lines: seq<string>, from: nat, to: nat, depth: nat, byIndex: map<nat, Record>)
    requires from <= to <= |lines|
    requires forall p :: from <= p < to ==> !IsTabLine(lines[p], depth)
    ensures Kept(lines, from, depth, byIndex) == lines[from..to] + Kept(lines, to, depth, byIndex)
    ensures Omitted(lines, from, depth, byIndex) == Omitted(lines, to, depth, byIndex)
    decreases |lines| - from
  {
    hide IsTabLine, IsActiveTab;
    if from < to {
      NoTabsBetween(lines, from + 1, to, depth, byIndex);
      assert lines[from..to] == [lines[from]] + lines[from + 1..to];
    }
  }

  lemma {:induction false} TabsAreAll(
    lines: seq<string>, from: nat, depth: nat, byIndex: map<nat, Record>)
    ensures |Omitted(lines, from, depth, byIndex)| <= |TabLines(lines, from, depth)|
    ensures |Omitted(lines, from, depth, byIndex)| == |TabLines(lines, from, depth)| <==>
            forall p :: from <= p < |lines| && IsTabLine(lines[p], depth) ==> !IsActiveTab(lines[p], depth, byIndex)
    decreases |lines| - from
  {
    hide IsTabLine, IsActiveTab;
    if from < |lines| {
      TabsAreAll(lines, from + 1, depth, byIndex);
    }
  }

  // ---- What compaction keeps ----

  function Select<T>(items: seq<T>, positions: seq<nat>): (r: seq<T>)
    requires forall k :: 0 <= k < |positions| ==> positions[k] < |items|
    ensures |r| == |positions| && forall k :: 0 <= k < |r| ==> r[k] == items[positions[k]]
  {
    seq(|positions|, k requires 0 <= k < |positions| => items[positions[k]])
  }

  /** Whether a call omits anything: ten tabs or more, some active and some not. */
  predicate Compacts(s: Rendering, start: nat, depth: nat) {
    var byIndex := ByIndex(s.records);
    var tabs := TabLines(s.lines, start, depth);
    && |tabs| >= 10
    && (exists p :: p in tabs && IsActiveTab(s.lines[p], depth, byIndex))
    && exists p :: p in tabs && !IsActiveTab(s.lines[p], depth, byIndex)
  }

  function OmittedOf(s: Rendering, start: nat, depth: nat): seq<nat> {
    Omitted(s.lines, start, depth, ByIndex(s.records))
  }

  lemma CompactsWhen(s: Rendering, start: nat, depth: nat)
    ensures !Compacts(s, start, depth) ==> Compacted(s, start, depth) == s
    ensures Compacts(s, start, depth) ==>
            && |TabLines(s.lines, start, depth)| >= TABS_WORTH_COMPACTING
            && |OmittedOf(s, start, depth)| != |TabLines(s.lines, start, depth)|
            && OmittedOf(s, start, depth) != []
  {
    hide IsTabLine, IsActiveTab, ByIndex, Kept, Without, IndexesNamed, OmittedLine;
    var byIndex := ByIndex(s.records);
    TabsAreAll(s.lines, start, depth, byIndex);
    var omitted := OmittedOf(s, start, depth);
    if omitted != [] {
      assert omitted[0] in omitted;
    }
  }

  lemma SelectFrom<T>(items: seq<T>, first: nat, rest: seq<nat>)
    requires first < |items| && forall k :: 0 <= k < |rest| ==> rest[k] < |items|
    ensures Select(items, [first] + rest) == [items[first]] + Select(items, rest)
  {
  }

  lemma SelectNone<T>(items: seq<T>)
    ensures Select(items, []) == []
  {
  }

  lemma {:induction false} KeptIsSelected(
    lines: seq<string>, from: nat, depth: nat, byIndex: map<nat, Record>) returns (positions: seq<nat>)
    ensures Ascending(positions)
    ensures forall p: nat :: p in positions <==> from <= p < |lines| && !Omits(lines[p], depth, byIndex)
    ensures forall k :: 0 <= k < |positions| ==> positions[k] < |lines|
    ensures Kept(lines, from, depth, byIndex) == Select(lines, positions)
    decreases |lines| - from
  {
    hide Omits, Ascending, Select;
    positions := [];
    InFront(from, []);
    if from < |lines| {
      var rest := KeptIsSelected(lines, from + 1, depth, byIndex);
      InFront(from, rest);
      SelectFrom(lines, from, rest);
      positions := if Omits(lines[from], depth, byIndex) then rest else [from] + rest;
    } else {
      SelectNone(lines);
    }
  }

  /**
   The lines, for any records: one line counting the inactive tabs stands where
   the first tab stood, and around it every other line, the active tabs
   included, keeps its place in the order.
  */
  lemma CompactionKeepsLines(s: Rendering, start: nat, depth: nat) returns (kept: seq<nat>)
    requires Compacts(s, start, depth)
    ensures Ascending(kept)
    ensures forall p: nat :: p in kept <==> p < |s.lines| && p !in OmittedOf(s, start, depth)
    ensures forall k :: 0 <= k < |kept| ==> kept[k] < |s.lines|
    ensures TabLines(s.lines, start, depth) != []
    ensures var t, first := Compacted(s, start, depth).lines, TabLines(s.lines, start, depth)[0];
            && first < |t|
            && t[first]
               == Tabs(depth) + "... " + Decimal(|OmittedOf(s, start, depth)|) + " inactive browser tabs omitted"
            && t[..first] + t[first + 1..] == Select(s.lines, kept)
  {
    hide Omits, ByIndex, Kept, OmittedLine, Compacts, Compacted, OmittedOf, TabLines, Ascending, Select;
    CompactsWhen(s, start, depth);
    OmittedText(depth, |OmittedOf(s, start, depth)|);
    var first := TabLines(s.lines, start, depth)[0];
    CompactedLines(s, start, depth);
    var rest := KeptIsSelected(s.lines, first, depth, ByIndex(s.records));
    kept := SelectAfterPrefix(s.lines, first, rest);
    NothingBeforeTheFirstTab(s, start, depth);
  }

  lemma OmittedText(depth: nat, count: nat)
    ensures OmittedLine(depth, count) == Tabs(depth) + "... " + Decimal(count) + " inactive browser tabs omitted"
  {
    assert "... " + Decimal(count) + " inactive browser tabs omitted"
        == "... " + (Decimal(count) + " inactive browser tabs omitted");
  }

  lemma CompactedLines(s: Rendering, start: nat, depth: nat)
    requires Compacts(s, start, depth)
    ensures TabLines(s.lines, start, depth) != []
    ensures var t, first := Compacted(s, start, depth).lines, TabLines(s.lines, start, depth)[0];
            && first < |t| && first < |s.lines|
            && t[first] == OmittedLine(depth, |OmittedOf(s, start, depth)|)
            && t[..first] + t[first + 1..] == s.lines[..first] + Kept(s.lines, first, depth, ByIndex(s.records))
  {
    hide Omits, ByIndex, Kept, Without, IndexesNamed, OmittedLine, Compacts, IsTabLine;
    CompactsWhen(s, start, depth);
    var tabs := TabLines(s.lines, start, depth);
    assert tabs[0] in tabs;
    var t := Compacted(s, start, depth).lines;
    assert t[..tabs[0]] == s.lines[..tabs[0]];
    assert t[tabs[0] + 1..] == Kept(s.lines, tabs[0], depth, ByIndex(s.records));
  }

  /** Taking a prefix and then some of the positions after it is itself a selection. */
  lemma SelectAfterPrefix<T>(items: seq<T>, first: nat, rest: seq<nat>) returns (all: seq<nat>)
    requires first <= |items| && Ascending(rest)
    requires forall k :: 0 <= k < |rest| ==> first <= rest[k] < |items|
    ensures Ascending(all) && (forall k :: 0 <= k < |all| ==> all[k] < |items|)
    ensures forall p: nat :: p in all <==> p < first || p in rest
    ensures items[..first] + Select(items, rest) == Select(items, all)
  {
    var prefix := seq(first, k => k);
    all := prefix + rest;
    forall p: nat
      ensures p in all <==> p < first || p in rest
    {
      if p < first {
        assert all[p] == p;
      }
      assert p in prefix <==> p < first;
    }
  }

  lemma NothingBeforeTheFirstTab(s: Rendering, start: nat, depth: nat)
    requires TabLines(s.lines, start, depth) != []
    ensures forall p :: p in OmittedOf(s, start, depth) <==>
              TabLines(s.lines, start, depth)[0] <= p < |s.lines| && Omits(s.lines[p], depth, ByIndex(s.records))
  {
    hide ByIndex, IsTabLine, IsActiveTab;
    var tabs := TabLines(s.lines, start, depth);
    assert tabs[0] in tabs;
    forall p | p in OmittedOf(s, start, depth)
      ensures tabs[0] <= p
    {
      assert p in tabs;
    }
  }

  lemma {:induction false} WithoutIsSelected(records: seq<Record>, indexes: set<nat>) returns (positions: seq<nat>)
    ensures Ascending(positions)
    ensures forall p: nat :: p in positions <==> p < |records| && records[p].index !in indexes
    ensures forall k :: 0 <= k < |positions| ==> positions[k] < |records|
    ensures Without(records, indexes) == Select(records, positions)
  {
    positions := [];
    if records != [] {
      hide Select, Ascending;
      var n := |records| - 1;
      var head := WithoutIsSelected(records[..n], indexes);
      if records[n].index in indexes {
        positions := head;
        SelectLonger(records, head);
      } else {
        positions := head + [n];
        SelectLonger(records, head);
      }
      forall p: nat
        ensures p in positions <==> p < |records| && records[p].index !in indexes
      {
        assert p in positions <==> p in head || (p == n && records[n].index !in indexes);
        assert p < n ==> records[..n][p] == records[p];
      }
    }
  }

  lemma SelectLonger<T>(items: seq<T>, head: seq<nat>)
    requires items != [] && Ascending(head)
    requires forall k :: 0 <= k < |head| ==> head[k] < |items| - 1
    ensures var n := |items| - 1;
            && Select(items, head) == Select(items[..n], head)
            && Select(items, head + [n]) == Select(items[..n], head) + [items[n]]
            && Ascending(head + [n])
  {
  }

  /** The records, whatever their indexes: those that stay are those no omitted line names, in their order. */
  lemma CompactionKeepsRecords(s: Rendering, start: nat, depth: nat) returns (kept: seq<nat>)
    requires Compacts(s, start, depth)
    ensures Ascending(kept) && forall k :: 0 <= k < |kept| ==> kept[k] < |s.records|
    ensures forall k: nat ::
              k in kept <==>
              && k < |s.records|
              && forall p :: p in OmittedOf(s, start, depth) ==>
                               ElementIndex(s.lines[p], depth) != Some(s.records[k].index)
    ensures Compacted(s, start, depth).records == Select(s.records, kept)
  {
    hide Omits, ByIndex, Kept, Without, OmittedLine, Compacts, ElementIndex, Ascending, Select, TabLines, OmittedOf;
    CompactsWhen(s, start, depth);
    var named := NamedIndexes(s, start, depth);
    kept := WithoutIsSelected(s.records, named);
  }

  lemma NamedIndexes(s: Rendering, start: nat, depth: nat) returns (named: set<nat>)
    requires Compacts(s, start, depth)
    ensures Compacted(s, start, depth).records == Without(s.records, named)
    ensures forall x: nat ::
              x in named <==> exists p :: p in OmittedOf(s, start, depth) && ElementIndex(s.lines[p], depth) == Some(x)
  {
    hide Omits, ByIndex, Kept, Without, OmittedLine, Compacts, ElementIndex, Ascending, TabLines;
    CompactsWhen(s, start, depth);
    named := IndexesNamed(s.lines, depth, OmittedOf(s, start, depth));
    forall x: nat
      ensures x in named <==> exists p :: p in OmittedOf(s, start, depth) && ElementIndex(s.lines[p], depth) == Some(x)
    {
      if p :| p in OmittedOf(s, start, depth) && ElementIndex(s.lines[p], depth) == Some(x) {
        assert ElementIndex(s.lines[p], depth).value == x;
      }
    }
  }

  // ---- As many records as lines ----

  ghost predicate DistinctIndexes(records: seq<Record>) {
    forall i, j :: 0 <= i < j < |records| ==> records[i].index != records[j].index
  }

  ghost predicate HasIndex(records: seq<Record>, index: nat) {
    exists k :: 0 <= k < |records| && records[k].index == index
  }

  /** No two records share an index, and the tab lines name records, no two of them the same one. */
  ghost predicate TabsNameRecords(s: Rendering, start: nat, depth: nat) {
    var tabs := TabLines(s.lines, start, depth);
    && DistinctIndexes(s.records)
    && (forall p :: p in tabs ==>
          ElementIndex(s.lines[p], depth).Some? && HasIndex(s.records, ElementIndex(s.lines[p], depth).value))
    && forall p, q :: p in tabs && q in tabs && ElementIndex(s.lines[p], depth) == ElementIndex(s.lines[q], depth) ==>
                        p == q
  }

  lemma {:induction false} WithoutUnused(records: seq<Record>, indexes: set<nat>, unused: nat)
    requires !HasIndex(records, unused)
    ensures Without(records, indexes) == Without(records, indexes - {unused})
  {
    if records != [] {
      WithoutUnused(records[..|records| - 1], indexes, unused);
    }
  }

  lemma {:induction false} WithoutCount(records: seq<Record>, indexes: set<nat>)
    requires DistinctIndexes(records)
    requires forall x :: x in indexes ==> HasIndex(records, x)
    ensures |Without(records, indexes)| == |records| - |indexes|
  {
    if records == [] {
      assert indexes == {} by {
        assert forall x :: x in indexes ==> !HasIndex(records, x);
      }
    } else {
      var n := |records| - 1;
      var last := records[n].index;
      var others := indexes - {last};
      forall x | x in others
        ensures HasIndex(records[..n], x)
      {
        var k :| 0 <= k < |records| && records[k].index == x;
        assert records[..n][k].index == x;
      }
      WithoutCount(records[..n], others);
      WithoutUnused(records[..n], indexes, last);
      assert last !in indexes ==> others == indexes;
    }
  }

  lemma {:induction false} NamedCount(lines: seq<string>, depth: nat, positions: seq<nat>)
    requires forall p :: p in positions ==> p < |lines| && ElementIndex(lines[p], depth).Some?
    requires Ascending(positions)
    requires forall p, q ::
               p in positions && q in positions && ElementIndex(lines[p], depth) == ElementIndex(lines[q], depth)
               ==> p == q
    ensures |IndexesNamed(lines, depth, positions)| == |positions|
  {
    hide ElementIndex;
    if positions != [] {
      var n := |positions| - 1;
      var head := positions[..n];
      assert forall p :: p in positions <==> p in head || p == positions[n];
      assert positions[n] in positions;
      NamedCount(lines, depth, head);
      var index := ElementIndex(lines[positions[n]], depth).value;
      assert IndexesNamed(lines, depth, positions) == IndexesNamed(lines, depth, head) + {index};
      assert index !in IndexesNamed(lines, depth, head);
    }
  }

  lemma {:induction false} KeptCount(lines: seq<string>, from: nat, depth: nat, byIndex: map<nat, Record>)
    requires from <= |lines|
    ensures |Kept(lines, from, depth, byIndex)| + |Omitted(lines, from, depth, byIndex)| == |lines| - from
    decreases |lines| - from
  {
    hide Omits;
    if from < |lines| {
      KeptCount(lines, from + 1, depth, byIndex);
    }
  }

  /** One compaction removes as many lines as records, exactly the number that the line it adds states. */
  lemma CompactionConserves(s: Rendering, start: nat, depth: nat)
    requires TabsNameRecords(s, start, depth) && Compacts(s, start, depth)
    ensures |s.lines| - (|Compacted(s, start, depth).lines| - 1) == |OmittedOf(s, start, depth)|
    ensures |s.records| - |Compacted(s, start, depth).records| == |OmittedOf(s, start, depth)|
  {
    hide Omits, ByIndex, Kept, Without, OmittedLine, Compacts, ElementIndex, IndexesNamed, HasIndex;
    CompactsWhen(s, start, depth);
    var byIndex := ByIndex(s.records);
    var tabs := TabLines(s.lines, start, depth);
    var omitted := OmittedOf(s, start, depth);
    assert tabs[0] in tabs;
    KeptCount(s.lines, tabs[0], depth, byIndex);
    OmittedFromTheFirstTab(s, start, depth);
    OmittedAreTabs(s, start, depth);
    NamedCount(s.lines, depth, omitted);
    NamedAreRecords(s, start, depth);
    WithoutCount(s.records, IndexesNamed(s.lines, depth, omitted));
  }

  lemma OmittedAreTabs(s: Rendering, start: nat, depth: nat)
    ensures forall p :: p in OmittedOf(s, start, depth) ==> p in TabLines(s.lines, start, depth)
  {
    hide ByIndex, IsTabLine, IsActiveTab;
  }

  lemma OmittedFromTheFirstTab(s: Rendering, start: nat, depth: nat)
    requires TabLines(s.lines, start, depth) != []
    ensures var first := TabLines(s.lines, start, depth)[0];
            Omitted(s.lines, first, depth, ByIndex(s.records)) == OmittedOf(s, start, depth)
  {
    hide ByIndex, IsTabLine, IsActiveTab, Kept;
    var tabs := TabLines(s.lines, start, depth);
    assert tabs[0] in tabs;
    forall p | start <= p < tabs[0]
      ensures !IsTabLine(s.lines[p], depth)
    {
      assert p !in tabs;
    }
    NoTabsBetween(s.lines, start, tabs[0], depth, ByIndex(s.records));
  }

  lemma NamedAreRecords(s: Rendering, start: nat, depth: nat)
    requires TabsNameRecords(s, start, depth)
    ensures forall x :: x in IndexesNamed(s.lines, depth, OmittedOf(s, start, depth)) ==> HasIndex(s.records, x)
  {
    hide ByIndex, IsTabLine, IsActiveTab, HasIndex, ElementIndex, DistinctIndexes;
    OmittedAreTabs(s, start, depth);
  }

  // ---- What a compaction leaves ----

  /** Whether a call omits a line that names this index. */
  predicate IsOmitted(s: Rendering, start: nat, depth: nat, index: nat) {
    && Compacts(s, start, depth)
    && exists p :: p in OmittedOf(s, start, depth) && ElementIndex(s.lines[p], depth) == Some(index)
  }

  /** How many records have an index in a set. */
  function CountIn(records: seq<Record>, indexes: set<nat>): (n: nat)
    ensures n <= |records|
  {
    if records == [] then 0
    else CountIn(records[..|records| - 1], indexes) + if records[|records| - 1].index in indexes then 1 else 0
  }

  /** How many records bear an index that an omitted line names. */
  function Removed(s: Rendering, start: nat, depth: nat): (n: nat)
    ensures n <= |s.records|
  {
    if Compacts(s, start, depth) then CountIn(s.records, IndexesNamed(s.lines, depth, OmittedOf(s, start, depth)))
    else 0
  }

  lemma {:induction false} WithoutLeaves(records: seq<Record>, indexes: set<nat>)
    ensures |Without(records, indexes)| == |records| - CountIn(records, indexes)
  {
    if records != [] {
      WithoutLeaves(records[..|records| - 1], indexes);
    }
  }

  lemma RemovedIsMissing(s: Rendering, start: nat, depth: nat)
    ensures |Compacted(s, start, depth).records| == |s.records| - Removed(s, start, depth)
  {
    hide Omits, ByIndex, Kept, Without, CountIn, OmittedLine, Compacts, ElementIndex, TabLines, IndexesNamed;
    CompactsWhen(s, start, depth);
    WithoutLeaves(s.records, IndexesNamed(s.lines, depth, OmittedOf(s, start, depth)));
  }

  /** The records a call leaves, whether or not it omits anything. */
  lemma RecordsLeft(s: Rendering, start: nat, depth: nat) returns (kept: seq<nat>)
    ensures Ascending(kept) && forall k :: 0 <= k < |kept| ==> kept[k] < |s.records|
    ensures forall k: nat ::
              k in kept <==> k < |s.records| && !IsOmitted(s, start, depth, s.records[k].index)
    ensures Compacted(s, start, depth).records == Select(s.records, kept)
  {
    hide Omits, ByIndex, Kept, Without, OmittedLine, Compacts, Compacted, ElementIndex, TabLines, OmittedOf;
    if Compacts(s, start, depth) {
      kept := CompactionKeepsRecords(s, start, depth);
      forall k: nat
        ensures k in kept <==> k < |s.records| && !IsOmitted(s, start, depth, s.records[k].index)
      {
      }
    } else {
      CompactsWhen(s, start, depth);
      kept := seq(|s.records|, k => k);
      forall k: nat
        ensures k in kept <==> k < |s.records| && !IsOmitted(s, start, depth, s.records[k].index)
      {
        assert k < |s.records| ==> kept[k] == k;
      }
    }
  }

  /**
   After any call, the first or a later one, an index is borne by a record
   exactly when a record bore it before and no omitted line names it. So a line
   that stays loses its record exactly when an omitted line names the same one.
  */
  lemma IndexesLeft(s: Rendering, start: nat, depth: nat)
    ensures forall x: nat ::
              HasIndex(Compacted(s, start, depth).records, x) <==>
              HasIndex(s.records, x) && !IsOmitted(s, start, depth, x)
    ensures forall p :: 0 <= p < |s.lines| && p !in OmittedOf(s, start, depth) ==>
                          s.lines[p] in Compacted(s, start, depth).lines
  {
    hide IsOmitted, Compacted, Omits, ByIndex, Compacts, OmittedOf;
    var kept := RecordsLeft(s, start, depth);
    var t := Compacted(s, start, depth);
    forall x: nat
      ensures HasIndex(t.records, x) <==> HasIndex(s.records, x) && !IsOmitted(s, start, depth, x)
    {
      if HasIndex(t.records, x) {
        var k :| 0 <= k < |t.records| && t.records[k].index == x;
        assert kept[k] in kept && t.records[k] == s.records[kept[k]];
      }
      if HasIndex(s.records, x) && !IsOmitted(s, start, depth, x) {
        var m :| 0 <= m < |s.records| && s.records[m].index == x;
        assert m in kept;
        var k :| 0 <= k < |kept| && kept[k] == m;
        assert t.records[k] == s.records[m];
      }
    }
    LinesLeft(s, start, depth);
  }

  lemma LinesLeft(s: Rendering, start: nat, depth: nat)
    ensures forall p :: 0 <= p < |s.lines| && p !in OmittedOf(s, start, depth) ==>
                          s.lines[p] in Compacted(s, start, depth).lines
  {
    hide Compacted, Omits, ByIndex, Compacts, OmittedOf, TabLines, OmittedLine;
    if Compacts(s, start, depth) {
      var kept := CompactionKeepsLines(s, start, depth);
      var t, first := Compacted(s, start, depth).lines, TabLines(s.lines, start, depth)[0];
      forall p | 0 <= p < |s.lines| && p !in OmittedOf(s, start, depth)
        ensures s.lines[p] in t
      {
        assert p in kept;
        var k :| 0 <= k < |kept| && kept[k] == p;
        assert (t[..first] + t[first + 1..])[k] == s.lines[p];
      }
    } else {
      CompactsWhen(s, start, depth);
    }
  }

  /** No two records of one index are left, as far as can be told before the call. */
  ghost predicate LeavesDistinct(s: Rendering, start: nat, depth: nat) {
    forall i, j :: 0 <= i < j < |s.records| && s.records[i].index == s.records[j].index ==>
                     IsOmitted(s, start, depth, s.records[i].index)
  }

  lemma LeftAreDistinct(s: Rendering, start: nat, depth: nat)
    ensures DistinctIndexes(Compacted(s, start, depth).records) <==> LeavesDistinct(s, start, depth)
  {
    hide IsOmitted, Compacted;
    var kept := RecordsLeft(s, start, depth);
    var t := Compacted(s, start, depth);
    if i, j :| 0 <= i < j < |s.records| && s.records[i].index == s.records[j].index
               && !IsOmitted(s, start, depth, s.records[i].index)
    {
      assert i in kept && j in kept;
      var k :| 0 <= k < |kept| && kept[k] == i;
      var l :| 0 <= l < |kept| && kept[l] == j;
      assert k < l && t.records[k].index == t.records[l].index;
    }
    if LeavesDistinct(s, start, depth) {
      forall k, l | 0 <= k < l < |t.records|
        ensures t.records[k].index != t.records[l].index
      {
        assert kept[k] in kept && kept[k] < kept[l];
      }
    }
  }
}
