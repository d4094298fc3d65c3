/** Browser windows whose elements get one index twice, or whose lines name no record, and the windows like them. */
module RepeatedIndexes {
  import opened AccessibleNodes
  import opened Numerals
  import opened RenderedLines
  import opened RenderedTree
  import opened RenderingActs
  import opened TabCompaction
  import opened TabStrips
  import opened Text
  import opened TreeRenderer
  import opened Wrappers

  // ---- Buttons after the strip ----

  /** A window with a list of `n` tabs, the one at place `j` selected, and `m` buttons after it. */
  function Browser(n: nat, j: nat, m: nat): Node {
    Frame([Some(TabStrip(n, j))] + seq(m, k => Some(BUTTON)))
  }

  function ButtonVisits(m: nat, path: seq<nat>): (visits: seq<Visit>)
    ensures |visits| == m
  {
    seq(m, (k: nat) => Visit(BUTTON, 1, path + [k + 1]))
  }

  lemma NextButton(v: Rendering, n: nat, j: nat, m: nat, path: seq<nat>, i: nat)
    requires i <= m
    ensures |Browser(n, j, m).slots| == m + 1 && (i < m ==> Browser(n, j, m).slots[i + 1] == Some(BUTTON))
    ensures var visits := ButtonVisits(m, path);
            && |With(v, visits[..i]).records| == |v.records| + i
            && (i < m ==> With(v, visits[..i + 1]) == Appended(With(v, visits[..i]), BUTTON, 1, path + [i + 1]))
            && With(v, visits[..m]) == With(v, visits)
  {
    hide Appended, RecordOf, LineOf;
    var visits := ButtonVisits(m, path);
    assert visits[..m] == visits;
    if i < m {
      assert visits[..i + 1] == visits[..i] + [visits[i]];
      OneMoreAppended(v, visits[..i], visits[i]);
    }
  }

  lemma ButtonWalked(s: Rendering, path: seq<nat>)
    requires |s.records| < MAX_NODES
    ensures Walked(s, BUTTON, 1, path, true) == Appended(s, BUTTON, 1, path)
  {
    hide Elided, Walked, Appended;
    AllAreShown(0, 0, false, []);
    LeafWalked(s, BUTTON, 1, path);
  }

  lemma {:induction false} ButtonsWalked(v: Rendering, n: nat, j: nat, m: nat, path: seq<nat>, i: nat)
    requires i <= m && |v.records| + m <= MAX_NODES
    requires |Browser(n, j, m).slots| == m + 1
    ensures WalkedSlots(With(v, ButtonVisits(m, path)[..i]), Browser(n, j, m), i + 1, 1, path, true)
         == With(v, ButtonVisits(m, path))
    decreases m - i
  {
    hide Walked, WalkedSlots, With, Browser, ButtonVisits, Appended;
    var t := With(v, ButtonVisits(m, path)[..i]);
    NextButton(v, n, j, m, path, i);
    NextSlot(t, Browser(n, j, m), i + 1, 1, path, true);
    if i < m {
      ButtonWalked(t, path + [i + 1]);
      ButtonsWalked(v, n, j, m, path, i + 1);
    }
  }

  lemma ButtonLine(depth: nat, index: nat)
    ensures !IsTabLine(LineOf(BUTTON, depth, index), depth)
  {
    hide Decimal, Heading, Suffix, TakeNumber, BeginsWithRole;
    var rest := " push button";
    ButtonText(index);
    TakeDecimal(index, rest);
    assert LineOf(BUTTON, depth, index)[depth..] == Decimal(index) + rest;
    assert rest[1..] == "push button";
    ButtonIsNoTab();
  }

  lemma ButtonText(index: nat)
    ensures Heading(BUTTON, index) + Suffix(BUTTON) == Decimal(index) + " push button"
  {
    assert Suffix(BUTTON) == "" && Sanitized("") == "" by {
      assert Words("") == [];
    }
    hide Decimal, StripEnd, Suffix, Sanitized;
    var whole := Decimal(index) + " push button";
    assert Decimal(index) + " " + "push button" + " " + "" == whole + " ";
    ButtonStripped(whole);
  }

  lemma ButtonIsNoTab()
    ensures !BeginsWithRole("push button", "page tab")
    ensures !BeginsWithRole("push button", "tab item")
    ensures !BeginsWithRole("push button", "tab")
  {
    assert !FoldsTo('u', 'a') && !FoldsTo('p', 't');
    assert "page tab"[1] == 'a' && "tab item"[0] == 't' && "tab"[0] == 't';
    assert "push button"[1] == 'u' && "push button"[0] == 'p';
  }

  lemma ButtonStripped(whole: string)
    requires whole != "" && !IsBlank(whole[|whole| - 1])
    ensures StripEnd(whole + " ") == whole
  {
    assert (whole + " ")[..|whole|] == whole;
  }

  lemma {:induction false} NoTabLines(lines: seq<string>, from: nat, depth: nat)
    requires from <= |lines| && forall p :: from <= p < |lines| ==> !IsTabLine(lines[p], depth)
    ensures TabLines(lines, from, depth) == []
    decreases |lines| - from
  {
    hide IsTabLine, TabLines, Ascending;
    TabLinesCount(lines, from, depth);
    if from < |lines| {
      NoTabLines(lines, from + 1, depth);
    }
  }

  /** At the window's own depth there are too few tab lines to compact. */
  lemma NoMoreIsCompacted(v: Rendering, m: nat, path: seq<nat>)
    requires |v.lines| == 4
    ensures Compacted(With(v, ButtonVisits(m, path)), 1, 1) == With(v, ButtonVisits(m, path))
  {
    hide IsTabLine, TabLines, With, Compacted, ButtonVisits;
    var t := With(v, ButtonVisits(m, path));
    ButtonLines(v, m, path);
    NoTabLines(t.lines, 4, 1);
    TabLinesCount(t.lines, 1, 1);
    TabLinesCount(t.lines, 2, 1);
    TabLinesCount(t.lines, 3, 1);
    FewTabsAreLeft(t, 1, 1);
  }

  lemma ButtonLines(v: Rendering, m: nat, path: seq<nat>)
    ensures var t := With(v, ButtonVisits(m, path));
            |t.lines| == |v.lines| + m && forall p :: |v.lines| <= p < |t.lines| ==> !IsTabLine(t.lines[p], 1)
  {
    hide IsTabLine, LineOf, RecordOf;
    var t := With(v, ButtonVisits(m, path));
    forall p | |v.lines| <= p < |t.lines|
      ensures !IsTabLine(t.lines[p], 1)
    {
      ButtonLine(1, |v.records| + p - |v.lines|);
    }
  }

  lemma BrowserWalked(n: nat, j: nat, m: nat, path: seq<nat>)
    requires TABS_WORTH_COMPACTING <= n && j < n && n + 2 <= MAX_NODES && m + 3 <= MAX_NODES
    ensures Walked(NOTHING, Browser(n, j, m), 0, path, true)
         == With(Compacted(BeforeCompaction(n, j, Browser(n, j, m).slots, path), 2, 2), ButtonVisits(m, path))
  {
    hide Elided, Closed, Compacted, WalkedSlots, TabStrip, BeforeCompaction, RecordOf, LineOf, With, Walked;
    var slots := Browser(n, j, m).slots;
    var s := Appended(NOTHING, Frame(slots), 0, path);
    var v := Compacted(BeforeCompaction(n, j, slots, path), 2, 2);
    ListWalked(n, j, slots, path);
    NextSlot(s, Frame(slots), 0, 1, path, true);
    NextButton(v, n, j, m, path, 0);
    ButtonsWalked(v, n, j, m, path, 0);
    WindowWalked(slots, path);
    assert With(v, ButtonVisits(m, path)[..0]) == v by {
      OneMoreAppended(v, [], ButtonVisits(1, path)[0]);
    }
    NoMoreIsCompacted(v, m, path);
  }

  lemma WindowWalked(slots: seq<Option<Node>>, path: seq<nat>)
    ensures var s := Appended(NOTHING, Frame(slots), 0, path);
            Walked(NOTHING, Frame(slots), 0, path, true)
            == Compacted(WalkedSlots(s, Frame(slots), 0, 1, path, true), 1, 1)
  {
    hide Elided, Closed, Compacted, WalkedSlots, RecordOf, LineOf;
    AllAreShown(0, 0, false, slots);
  }

  /** The indexes of the records of a rendering. */
  function Indexes(records: seq<Record>): (indexes: seq<nat>)
    ensures |indexes| == |records|
  {
    seq(|records|, k requires 0 <= k < |records| => records[k].index)
  }

  /**
   A browser window rendered with compaction: of a list of ten tabs or more, the
   one at place `j` selected, that tab alone is left, and the `m` buttons after
   the list are numbered from 3 on. So the window has two elements of one index
   exactly when `j` is at least 1 and at most `m`.
  */
  lemma TabIndexRepeats(n: nat, j: nat, m: nat, path: seq<nat>)
    requires TABS_WORTH_COMPACTING <= n && j < n && n + 2 <= MAX_NODES && m + 3 <= MAX_NODES
    ensures Indexes(Walked(NOTHING, Browser(n, j, m), 0, path, true).records) == [0, 1, j + 2] + seq(m, k => 3 + k)
    ensures !DistinctIndexes(Walked(NOTHING, Browser(n, j, m), 0, path, true).records) <==> 1 <= j <= m
  {
    hide Walked, Compacted, TabStrip, BeforeCompaction, LineOf;
    var slots := Browser(n, j, m).slots;
    var v := Compacted(BeforeCompaction(n, j, slots, path), 2, 2);
    BrowserWalked(n, j, m, path);
    ListWalked(n, j, slots, path);
    var records := Walked(NOTHING, Browser(n, j, m), 0, path, true).records;
    assert records == v.records + RecordsOf(ButtonVisits(m, path), 3);
    assert forall k :: 3 <= k < m + 3 ==> records[k].index == k;
    if 1 <= j <= m {
      assert records[2].index == records[j + 2].index;
    }
  }

  // ---- Two strips ----

  /** A window with two lists of tabs, of `n` and `m`, those at places `j` and `i` selected. */
  function TwoStrips(n: nat, j: nat, m: nat, i: nat): Node {
    Frame([Some(TabStrip(n, j)), Some(TabStrip(m, i))])
  }

  /** Whether the second list's compaction takes the record of the first list's selected tab. */
  predicate TakesTheFirst(j: nat, m: nat, i: nat) {
    2 <= j <= m + 1 && j != i + 2
  }

  /** The records of the first list's state that the second list's compaction leaves. */
  function LeftOfFirst(j: nat, m: nat, i: nat): seq<nat> {
    if TakesTheFirst(j, m, i) then [0, 1] else [0, 1, 2]
  }

  /** The state when both lists have been walked. */
  function AfterBoth(n: nat, j: nat, m: nat, i: nat, path: seq<nat>): Rendering {
    var v := Compacted(BeforeCompaction(n, j, TwoStrips(n, j, m, i).slots, path), 2, 2);
    Compacted(With(v, StripVisits(m, i, 1, path + [1])), 5, 2)
  }

  lemma AfterBothRecords(n: nat, j: nat, m: nat, i: nat, path: seq<nat>)
    requires TABS_WORTH_COMPACTING <= n && j < n && n + 2 <= MAX_NODES
    requires TABS_WORTH_COMPACTING <= m && i < m
    ensures |AfterBoth(n, j, m, i, path).lines| == 7
    ensures Indexes(AfterBoth(n, j, m, i, path).records)
         == (if TakesTheFirst(j, m, i) then [0, 1] else [0, 1, j + 2]) + [3, i + 4]
  {
    hide Walked, Compacted, BeforeCompaction, With, TabStrip, StripVisits, LineOf;
    var slots := TwoStrips(n, j, m, i).slots;
    ListWalked(n, j, slots, path);
    var before := LeftOfFirst(j, m, i);
    StripLeaves(Compacted(BeforeCompaction(n, j, slots, path), 2, 2), m, i, 1, path + [1], before);
  }

  lemma TwoStripsWalked(n: nat, j: nat, m: nat, i: nat, path: seq<nat>)
    requires TABS_WORTH_COMPACTING <= n && j < n && n + 2 <= MAX_NODES
    requires TABS_WORTH_COMPACTING <= m && i < m && m + 4 <= MAX_NODES
    ensures Walked(NOTHING, TwoStrips(n, j, m, i), 0, path, true) == AfterBoth(n, j, m, i, path)
  {
    hide Walked, Compacted, BeforeCompaction, With, WalkedSlots, TabStrip, StripVisits, RecordOf, LineOf;
    var window := TwoStrips(n, j, m, i);
    var s := Appended(NOTHING, window, 0, path);
    var v := Compacted(BeforeCompaction(n, j, window.slots, path), 2, 2);
    var w := AfterBoth(n, j, m, i, path);
    ListWalked(n, j, window.slots, path);
    StripWalked(v, m, i, 1, path + [1]);
    AfterBothRecords(n, j, m, i, path);
    NextSlot(s, window, 0, 1, path, true);
    NextSlot(v, window, 1, 1, path, true);
    NextSlot(w, window, 2, 1, path, true);
    WindowWalked(window.slots, path);
    FewLinesAreLeft(w, 1, 1);
  }

  /**
   A window with two lists of ten tabs or more. The line of the first list's
   selected tab is always there, but no record has the index it names exactly
   when an inactive tab of the second list was given that index too.
  */
  lemma KeptTabLosesRecord(n: nat, j: nat, m: nat, i: nat, path: seq<nat>)
    requires TABS_WORTH_COMPACTING <= n && j < n && n + 2 <= MAX_NODES
    requires TABS_WORTH_COMPACTING <= m && i < m && m + 4 <= MAX_NODES
    ensures var t := Walked(NOTHING, TwoStrips(n, j, m, i), 0, path, true);
            && LineOf(PlainTab(true), 2, j + 2) in t.lines
            && ElementIndex(LineOf(PlainTab(true), 2, j + 2), 2) == Some(j + 2)
            && (!HasIndex(t.records, j + 2) <==> 2 <= j <= m + 1 && j != i + 2)
  {
    hide Walked, Compacted, BeforeCompaction, With, TabStrip, StripVisits, LineOf, ElementIndex;
    TwoStripsWalked(n, j, m, i, path);
    AfterBothRecords(n, j, m, i, path);
    LineNamesItsRecord(PlainTab(true), 2, j + 2);
    FirstLineStays(n, j, m, i, path);
    var records := AfterBoth(n, j, m, i, path).records;
    var indexes := Indexes(records);
    assert forall k :: 0 <= k < |records| ==> records[k].index == indexes[k];
    if !TakesTheFirst(j, m, i) {
      assert records[2].index == j + 2;
    }
  }

  lemma FirstLineStays(n: nat, j: nat, m: nat, i: nat, path: seq<nat>)
    requires TABS_WORTH_COMPACTING <= n && j < n && n + 2 <= MAX_NODES
    requires TABS_WORTH_COMPACTING <= m && i < m && m + 4 <= MAX_NODES
    ensures LineOf(PlainTab(true), 2, j + 2) in AfterBoth(n, j, m, i, path).lines
  {
    hide Compacted, TabStrip, LineOf, RecordOf, OmittedOf, IsOmitted, Compacts;
    var slots := TwoStrips(n, j, m, i).slots;
    var u := BeforeCompaction(n, j, slots, path);
    var v := Compacted(u, 2, 2);
    ListWalked(n, j, slots, path);
    TheStripCompacts(Appended(NOTHING, Frame(slots), 0, path), n, j, 1, path + [0]);
    LinesLeft(u, 2, 2);
    assert u.lines[j + 2] == LineOf(PlainTab(true), 2, j + 2);
    TheStripCompacts(v, m, i, 1, path + [1]);
    var t := With(v, StripVisits(m, i, 1, path + [1]));
    LinesLeft(t, 5, 2);
    var p :| 0 <= p < |v.lines| && v.lines[p] == LineOf(PlainTab(true), 2, j + 2);
    assert t.lines[p] == v.lines[p];
  }
}
