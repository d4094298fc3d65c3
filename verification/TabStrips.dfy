/** Lists of browser tabs, how they are walked, and what their compaction leaves. */
module TabStrips {
  import opened AccessibleNodes
  import opened Numerals
  import opened RenderedLines
  import opened RenderedTree
  import opened RenderingActs
  import ShownElements
  import opened TabCompaction
  import opened Text
  import opened TreeRenderer
  import opened Wrappers

  // ---- Windows ----

  /** A tab with nothing to say. */
  function PlainTab(selected: bool): Node {
    Node("tab", "", "", "", selected, [], None, "", [])
  }

  /** A list of `n` tabs, the one at place `j` selected. */
  function TabStrip(n: nat, j: nat): Node {
    Node("page tab list", "", "", "", false, [], None, "", seq(n, k => Some(PlainTab(k == j))))
  }

  const BUTTON := Node("push button", "", "", "", false, [], None, "", [])

  function Frame(slots: seq<Option<Node>>): Node {
    Node("frame", "", "", "", false, [], None, "", slots)
  }

  /** What a list of tabs at some depth renders before it is compacted: itself and its tabs. */
  function StripVisits(n: nat, j: nat, depth: nat, path: seq<nat>): (visits: seq<Visit>)
    ensures |visits| == n + 1
  {
    [Visit(TabStrip(n, j), depth, path)]
    + seq(n, (k: nat) => Visit(PlainTab(k == j), depth + 1, path + [k]))
  }

  /** The state once some elements have been appended. */
  function With(s: Rendering, visits: seq<Visit>): Rendering {
    s.(records := s.records + RecordsOf(visits, |s.records|), lines := s.lines + LinesOf(visits, |s.records|))
  }

  lemma OneMoreAppended(s: Rendering, visits: seq<Visit>, visit: Visit)
    ensures With(s, visits + [visit]) == Appended(With(s, visits), visit.node, visit.depth, visit.path)
    ensures With(s, []) == s
  {
    hide RecordOf, LineOf;
    var n := |s.records|;
    assert RecordsOf(visits + [visit], n) == RecordsOf(visits, n) + [RecordOf(visit.node, n + |visits|, visit.path)];
    assert LinesOf(visits + [visit], n) == LinesOf(visits, n) + [LineOf(visit.node, visit.depth, n + |visits|)];
  }

  // ---- Tabs as lines ----

  lemma PlainTabLine(selected: bool, depth: nat, index: nat)
    ensures IsTabLine(LineOf(PlainTab(selected), depth, index), depth)
    ensures !Contains(LineOf(PlainTab(selected), depth, index), "(selected")
  {
    hide IsTabLine, Lower;
    assert Lower("tab") == "tab" by {
      LowerTab();
    }
    TabsAreRecognised(PlainTab(selected), depth, index);
    var line := LineOf(PlainTab(selected), depth, index);
    PlainTabText(selected, depth, index);
    forall i | 0 <= i <= |line| - 9
      ensures line[i..][..9] != "(selected"
    {
      assert line[i..][..9][0] == line[i];
    }
  }

  lemma LowerTab()
    ensures Lower("tab") == "tab"
  {
  }

  lemma PlainTabText(selected: bool, depth: nat, index: nat)
    ensures '(' !in LineOf(PlainTab(selected), depth, index)
  {
    hide Decimal, StripEnd, Suffix, Sanitized;
    PlainTabSaysNothing(selected);
    var whole := Decimal(index) + " tab ";
    assert Heading(PlainTab(selected), index) == StripEnd(whole) by {
      assert Decimal(index) + " " + "tab" + " " + "" == whole;
    }
    assert forall i :: 0 <= i < |whole| ==> whole[i] != '(';
  }

  lemma PlainTabSaysNothing(selected: bool)
    ensures Suffix(PlainTab(selected)) == "" && Sanitized("") == ""
  {
    assert Words("") == [];
  }

  // ---- Compactions that change nothing ----

  lemma TabLinesCount(lines: seq<string>, from: nat, depth: nat)
    ensures from >= |lines| ==> TabLines(lines, from, depth) == []
    ensures from < |lines| ==>
              |TabLines(lines, from, depth)|
              == |TabLines(lines, from + 1, depth)| + if IsTabLine(lines[from], depth) then 1 else 0
  {
    hide IsTabLine, Ascending;
  }

  lemma {:induction false} FewTabLines(lines: seq<string>, from: nat, depth: nat)
    requires from <= |lines|
    ensures |TabLines(lines, from, depth)| <= |lines| - from
    decreases |lines| - from
  {
    hide IsTabLine, TabLines, Ascending;
    TabLinesCount(lines, from, depth);
    if from < |lines| {
      FewTabLines(lines, from + 1, depth);
    }
  }

  lemma FewTabsAreLeft(s: Rendering, start: nat, depth: nat)
    requires |TabLines(s.lines, start, depth)| < TABS_WORTH_COMPACTING
    ensures Compacted(s, start, depth) == s
  {
    hide TabLines, Omitted, Kept, Without, IndexesNamed, OmittedLine, ByIndex;
  }

  lemma FewLinesAreLeft(s: Rendering, start: nat, depth: nat)
    requires start <= |s.lines| < start + TABS_WORTH_COMPACTING
    ensures Compacted(s, start, depth) == s
  {
    hide TabLines, Compacted;
    FewTabLines(s.lines, start, depth);
    FewTabsAreLeft(s, start, depth);
  }

  // ---- The walk up to the compaction of a strip ----

  /** A leaf that is neither generic nor named is shown by its line, and nothing else happens. */
  lemma LeafWalked(s: Rendering, leaf: Node, depth: nat, path: seq<nat>)
    requires |s.records| < MAX_NODES && depth <= MAX_DEPTH && leaf.slots == [] && !Elided(leaf)
    ensures Walked(s, leaf, depth, path, true) == Appended(s, leaf, depth, path)
  {
    hide Elided, Closed, Compacted, RecordOf, LineOf;
    var t := Appended(s, leaf, depth, path);
    FewLinesAreLeft(t, |t.lines|, depth + 1);
    NextSlot(t, leaf, 0, depth + 1, path, true);
  }

  /** Every element of the windows is shown, with what is under it. */
  lemma AllAreShown(n: nat, j: nat, selected: bool, slots: seq<Option<Node>>)
    ensures !Elided(PlainTab(selected)) && !Elided(BUTTON) && !Elided(TabStrip(n, j)) && !Elided(Frame(slots))
    ensures !Closed(TabStrip(n, j)) && !Closed(Frame(slots))
  {
    assert Lower("tab") == "tab" && Lower("push button") == "push button";
    assert Lower("page tab list") == "page tab list" && Lower("frame") == "frame";
  }

  lemma NextTab(s: Rendering, n: nat, j: nat, depth: nat, path: seq<nat>, i: nat)
    requires i < n
    ensures TabStrip(n, j).slots[i] == Some(PlainTab(i == j)) && |TabStrip(n, j).slots| == n
    ensures var visits := StripVisits(n, j, depth, path);
            && |With(s, visits[..i + 1]).records| == |s.records| + i + 1
            && With(s, visits[..i + 2])
               == Appended(With(s, visits[..i + 1]), PlainTab(i == j), depth + 1, path + [i])
  {
    hide Appended, RecordOf, LineOf;
    var visits := StripVisits(n, j, depth, path);
    assert visits[..i + 2] == visits[..i + 1] + [visits[i + 1]];
    OneMoreAppended(s, visits[..i + 1], visits[i + 1]);
  }

  lemma {:induction false} TabsWalked(s: Rendering, n: nat, j: nat, depth: nat, path: seq<nat>, i: nat)
    requires i <= n && |s.records| + n + 1 <= MAX_NODES && depth < MAX_DEPTH
    requires |TabStrip(n, j).slots| == n
    ensures WalkedSlots(With(s, StripVisits(n, j, depth, path)[..i + 1]), TabStrip(n, j), i, depth + 1, path, true)
         == With(s, StripVisits(n, j, depth, path))
    decreases n - i
  {
    hide Elided, Appended, Walked, WalkedSlots, With, TabStrip, PlainTab, StripVisits;
    var visits := StripVisits(n, j, depth, path);
    var strip, t := TabStrip(n, j), With(s, visits[..i + 1]);
    NextSlot(t, strip, i, depth + 1, path, true);
    if i == n {
      assert visits[..n + 1] == visits;
    } else {
      NextTab(s, n, j, depth, path, i);
      TabWalked(t, i == j, depth + 1, path + [i]);
      TabsWalked(s, n, j, depth, path, i + 1);
    }
  }

  lemma TabWalked(s: Rendering, selected: bool, depth: nat, path: seq<nat>)
    requires |s.records| < MAX_NODES && depth <= MAX_DEPTH
    ensures Walked(s, PlainTab(selected), depth, path, true) == Appended(s, PlainTab(selected), depth, path)
  {
    hide Elided, Walked, Appended;
    AllAreShown(0, 0, selected, []);
    LeafWalked(s, PlainTab(selected), depth, path);
  }

  /** The walk of a list of tabs from any state with room for it: all are appended and then compacted. */
  lemma StripWalked(s: Rendering, n: nat, j: nat, depth: nat, path: seq<nat>)
    requires |s.records| + n + 1 <= MAX_NODES && depth < MAX_DEPTH
    ensures Walked(s, TabStrip(n, j), depth, path, true)
         == Compacted(With(s, StripVisits(n, j, depth, path)), |s.lines| + 1, depth + 1)
  {
    var visits := StripVisits(n, j, depth, path);
    assert visits[..1] == [] + [visits[0]];
    OneMoreAppended(s, [], visits[0]);
    assert |Appended(s, TabStrip(n, j), depth, path).lines| == |s.lines| + 1;
    hide Elided, Closed, Appended, Compacted, WalkedSlots, TabStrip, With;
    AllAreShown(n, j, false, []);
    TabsWalked(s, n, j, depth, path, 0);
  }

  // ---- The compaction of a strip ----

  lemma {:induction false} AllAreTabs(lines: seq<string>, from: nat, depth: nat)
    requires from <= |lines| && forall p :: from <= p < |lines| ==> IsTabLine(lines[p], depth)
    ensures |TabLines(lines, from, depth)| == |lines| - from
    decreases |lines| - from
  {
    hide IsTabLine, TabLines, Ascending;
    TabLinesCount(lines, from, depth);
    if from < |lines| {
      AllAreTabs(lines, from + 1, depth);
    }
  }

  /** Of the records with one index the last is found by it. */
  lemma {:induction false} FoundByIndex(records: seq<Record>, k: nat)
    requires k < |records| && forall i :: k < i < |records| ==> records[i].index != records[k].index
    ensures records[k].index in ByIndex(records) && ByIndex(records)[records[k].index] == records[k]
    decreases |records|
  {
    if k < |records| - 1 {
      FoundByIndex(records[..|records| - 1], k);
    }
  }

  /** The tabs of a strip, whatever was rendered before it: each line names its own record, and one is active. */
  lemma TheTabs(s: Rendering, n: nat, j: nat, depth: nat, path: seq<nat>)
    requires j < n
    ensures var u, r, l := With(s, StripVisits(n, j, depth, path)), |s.records|, |s.lines| + 1;
            && |u.records| == r + n + 1 && |u.lines| == l + n
            && |TabLines(u.lines, l, depth + 1)| == n
            && (forall p: nat :: l <= p < l + n ==>
                  && IsTabLine(u.lines[p], depth + 1)
                  && ElementIndex(u.lines[p], depth + 1) == Some(r + 1 + p - l)
                  && (IsActiveTab(u.lines[p], depth + 1, ByIndex(u.records)) <==> p == l + j))
  {
    hide IsTabLine, Contains, ElementIndex, LineOf, ByIndex;
    var u, r, l := With(s, StripVisits(n, j, depth, path)), |s.records|, |s.lines| + 1;
    assert Sanitized("") == "" by {
      assert Words("") == [];
    }
    assert forall k :: r <= k < r + n + 1 ==> u.records[k].index == k;
    forall p: nat | l <= p < l + n
      ensures IsTabLine(u.lines[p], depth + 1) && ElementIndex(u.lines[p], depth + 1) == Some(r + 1 + p - l)
      ensures IsActiveTab(u.lines[p], depth + 1, ByIndex(u.records)) <==> p == l + j
    {
      var k := p - l;
      assert u.lines[p] == LineOf(PlainTab(k == j), depth + 1, r + 1 + k);
      assert u.records[r + 1 + k] == RecordOf(PlainTab(k == j), r + 1 + k, path + [k]);
      PlainTabLine(k == j, depth + 1, r + 1 + k);
      LineNamesItsRecord(PlainTab(k == j), depth + 1, r + 1 + k);
      FoundByIndex(u.records, r + 1 + k);
    }
    AllAreTabs(u.lines, l, depth + 1);
  }

  /** A strip of ten tabs or more is compacted: all its lines but the active tab's go, and all records they name. */
  lemma TheStripCompacts(s: Rendering, n: nat, j: nat, depth: nat, path: seq<nat>)
    requires TABS_WORTH_COMPACTING <= n && j < n
    ensures var u, r, l, d := With(s, StripVisits(n, j, depth, path)), |s.records|, |s.lines| + 1, depth + 1;
            && Compacts(u, l, d)
            && (forall p :: p in OmittedOf(u, l, d) <==> l <= p < l + n && p != l + j)
            && forall x: nat :: IsOmitted(u, l, d, x) <==> r + 1 <= x <= r + n && x != r + 1 + j
  {
    hide IsTabLine, IsActiveTab, ElementIndex, LineOf, ByIndex, StripVisits;
    var u, r, l, d := With(s, StripVisits(n, j, depth, path)), |s.records|, |s.lines| + 1, depth + 1;
    TheTabs(s, n, j, depth, path);
    var other := if j == 0 then l + 1 else l;
    assert l + j in TabLines(u.lines, l, d) && other in TabLines(u.lines, l, d);
    forall x: nat
      ensures IsOmitted(u, l, d, x) <==> r + 1 <= x <= r + n && x != r + 1 + j
    {
      if r + 1 <= x <= r + n && x != r + 1 + j {
        var p := l + x - r - 1;
        assert p in OmittedOf(u, l, d) && ElementIndex(u.lines[p], d) == Some(x);
      }
    }
  }

  /** Two ascending lists of the same positions are the same list. */
  lemma {:induction false} SameAscending(a: seq<nat>, b: seq<nat>)
    requires Ascending(a) && Ascending(b) && forall p :: p in a <==> p in b
    ensures a == b
    decreases |a|
  {
    if a == [] {
      assert forall i :: 0 <= i < |b| ==> b[i] in b;
    } else {
      var n := |a| - 1;
      assert a[n] in a && a[n] in b;
      var m := |b| - 1;
      assert b[m] in b && b[m] in a;
      assert a[n] == b[m];
      forall p
        ensures p in a[..n] <==> p in b[..m]
      {
        ButTheLast(a, p);
        ButTheLast(b, p);
      }
      SameAscending(a[..n], b[..m]);
    }
  }

  lemma ButTheLast(a: seq<nat>, p: int)
    requires Ascending(a) && a != []
    ensures p in a[..|a| - 1] <==> p in a && p != a[|a| - 1]
  {
  }

  /**
   What a compacted strip leaves: of the records before it those whose index no
   omitted tab has, then its own and the active tab's, and two lines and its own.
  */
  lemma StripLeaves(s: Rendering, n: nat, j: nat, depth: nat, path: seq<nat>, before: seq<nat>)
    requires TABS_WORTH_COMPACTING <= n && j < n && Ascending(before)
    requires forall k :: k in before <==> 0 <= k < |s.records| && !OmittedInStrip(|s.records|, n, j, s.records[k].index)
    ensures forall k :: 0 <= k < |before| ==> before[k] < |s.records|
    ensures var r, t := |s.records|, Compacted(With(s, StripVisits(n, j, depth, path)), |s.lines| + 1, depth + 1);
            && t.records == Select(s.records, before)
                            + [RecordOf(TabStrip(n, j), r, path), RecordOf(PlainTab(true), r + 1 + j, path + [j])]
            && |t.lines| == |s.lines| + 3
  {
    assert forall k :: 0 <= k < |before| ==> before[k] in before;
    StripRecordsLeft(s, n, j, depth, path, before);
    StripLinesLeft(s, n, j, depth, path);
  }

  /** Whether a strip rendered when there are `r` records has an inactive tab of this index. */
  predicate OmittedInStrip(r: nat, n: nat, j: nat, index: nat) {
    r + 1 <= index <= r + n && index != r + 1 + j
  }

  lemma StripRecords(s: Rendering, n: nat, j: nat, depth: nat, path: seq<nat>)
    requires j < n
    ensures var u, r := With(s, StripVisits(n, j, depth, path)), |s.records|;
            && |u.records| == r + n + 1 && u.records[..r] == s.records
            && (forall k :: r <= k < |u.records| ==> u.records[k].index == k)
            && u.records[r] == RecordOf(TabStrip(n, j), r, path)
            && u.records[r + 1 + j] == RecordOf(PlainTab(true), r + 1 + j, path + [j])
  {
    hide LineOf;
  }

  lemma StripRecordsLeft(s: Rendering, n: nat, j: nat, depth: nat, path: seq<nat>, before: seq<nat>)
    requires TABS_WORTH_COMPACTING <= n && j < n && Ascending(before)
    requires forall k :: 0 <= k < |before| ==> before[k] < |s.records|
    requires forall k :: k in before <==> 0 <= k < |s.records| && !OmittedInStrip(|s.records|, n, j, s.records[k].index)
    ensures var r, t := |s.records|, Compacted(With(s, StripVisits(n, j, depth, path)), |s.lines| + 1, depth + 1);
            t.records == Select(s.records, before)
                         + [RecordOf(TabStrip(n, j), r, path), RecordOf(PlainTab(true), r + 1 + j, path + [j])]
  {
    hide RecordOf, LineOf, Compacted, Compacts, IsOmitted, With, StripVisits, TabStrip, PlainTab, OmittedOf, Select;
    var u, r, l, d := With(s, StripVisits(n, j, depth, path)), |s.records|, |s.lines| + 1, depth + 1;
    StripRecords(s, n, j, depth, path);
    TheStripCompacts(s, n, j, depth, path);
    var kept := RecordsLeft(u, l, d);
    var positions := before + [r, r + 1 + j];
    forall k: nat
      ensures k in kept <==> k in positions
    {
      assert k < r ==> u.records[k] == u.records[..r][k];
    }
    SameAscending(kept, positions);
    assert Select(u.records, positions) == Select(s.records, before) + [u.records[r], u.records[r + 1 + j]] by {
      assert forall k :: 0 <= k < |before| ==> u.records[before[k]] == u.records[..r][before[k]];
    }
  }

  lemma StripLinesLeft(s: Rendering, n: nat, j: nat, depth: nat, path: seq<nat>)
    requires TABS_WORTH_COMPACTING <= n && j < n
    ensures |Compacted(With(s, StripVisits(n, j, depth, path)), |s.lines| + 1, depth + 1).lines| == |s.lines| + 3
  {
    hide LineOf, RecordOf, Compacted, Compacts, OmittedOf, TabLines, OmittedLine;
    var u, l, d := With(s, StripVisits(n, j, depth, path)), |s.lines| + 1, depth + 1;
    TheStripCompacts(s, n, j, depth, path);
    var kept := CompactionKeepsLines(u, l, d);
    var positions := seq(l, k => k) + [l + j];
    forall p: nat
      ensures p in kept <==> p in positions
    {
      assert p < l ==> positions[p] == p;
    }
    SameAscending(kept, positions);
  }

  // ---- A window that begins with a strip ----

  /** The state after the list and its tabs, before the compaction. */
  function BeforeCompaction(n: nat, j: nat, slots: seq<Option<Node>>, path: seq<nat>): Rendering {
    With(Appended(NOTHING, Frame(slots), 0, path), StripVisits(n, j, 1, path + [0]))
  }

  lemma FrameAppended(slots: seq<Option<Node>>, path: seq<nat>)
    ensures var s := Appended(NOTHING, Frame(slots), 0, path);
            && s.records == [RecordOf(Frame(slots), 0, path)] && s.records[0].index == 0 && |s.lines| == 1
  {
    hide LineOf;
  }

  /** The window's list is walked: of its tabs the selected one is left. */
  lemma ListWalked(n: nat, j: nat, slots: seq<Option<Node>>, path: seq<nat>)
    requires TABS_WORTH_COMPACTING <= n && j < n && n + 2 <= MAX_NODES
    requires slots != [] && slots[0] == Some(TabStrip(n, j))
    ensures var v := Compacted(BeforeCompaction(n, j, slots, path), 2, 2);
            && WalkedSlot(Appended(NOTHING, Frame(slots), 0, path), Frame(slots), 0, 1, path, true) == v
            && |v.lines| == 4
            && v.records == [RecordOf(Frame(slots), 0, path), RecordOf(TabStrip(n, j), 1, path + [0]),
                             RecordOf(PlainTab(true), j + 2, path + [0] + [j])]
  {
    hide Walked, Compacted, With, RecordOf, LineOf, Appended, TabStrip, StripVisits;
    var s := Appended(NOTHING, Frame(slots), 0, path);
    FrameAppended(slots, path);
    StripWalked(s, n, j, 1, path + [0]);
    StripLeaves(s, n, j, 1, path + [0], [0]);
    assert Select(s.records, [0]) == [RecordOf(Frame(slots), 0, path)];
  }

  // ---- Which tabs are active ----

  /**
   The line of an element that was rendered before any compaction is taken for
   an active tab's exactly when it has the mark of a selection in it, or the
   element is selected, or its value says 1.
  */
  lemma ActiveExactly(s: Rendering, visits: seq<Visit>, p: nat)
    requires s.records == RecordsOf(visits, 0) && s.lines == LinesOf(visits, 0) && p < |visits|
    ensures IsActiveTab(s.lines[p], visits[p].depth, ByIndex(s.records)) <==>
            || (exists before, after :: s.lines[p] == before + "(selected" + after)
            || visits[p].node.isSelected || Words(visits[p].node.value) == ["1"]
  {
    hide ByIndex, LineOf, ElementIndex, Words, Join, Contains, Sanitized;
    LineNamesItsRecord(visits[p].node, visits[p].depth, p);
    FoundByIndex(s.records, p);
    SaysOne(visits[p].node.value);
    ContainsExactly(s.lines[p], "(selected");
  }

  lemma ContainsExactly(s: string, word: string)
    ensures Contains(s, word) <==> exists before, after :: s == before + word + after
  {
    if i :| 0 <= i <= |s| - |word| && s[i..][..|word|] == word {
      assert s == s[..i] + word + s[i + |word|..];
    }
    if before, after :| s == before + word + after {
      assert s[|before|..][..|word|] == word;
    }
  }

  lemma SaysOne(value: string)
    ensures Sanitized(value) == "1" <==> Words(value) == ["1"]
  {
    hide IsBlank;
    ShownElements.WordsExactly(value);
    var words := Words(value);
    if |words| > 1 {
      JoinedIsLong(words);
    }
  }

  lemma JoinedIsLong(words: seq<string>)
    requires |words| > 1 && words[0] != ""
    ensures |Join(words, " ")| > 1
  {
  }

  /** `c` is the small letter `small` in either case, as far as Python goes when it ignores case. */
  predicate IsLetterOf(c: char, small: char) {
    || c == small || ('a' <= small <= 'z' && c == small - 'a' + 'A')
    || (small == 'k' && c == '\U{212A}') || (small == 'i' && c in "\U{130}\U{131}")
  }

  predicate BeginsWithTab(text: string, word: string) {
    && |word| <= |text|
    && (forall i :: 0 <= i < |word| ==> IsLetterOf(text[i], word[i]))
    && (|text| == |word| || text[|word|] in " (," || text[|word|..] == "\n")
  }

  lemma BeginsExactly(text: string, word: string)
    requires forall i :: 0 <= i < |word| ==> 'a' <= word[i] <= 'z' || word[i] == ' '
    ensures BeginsWithRole(text, word) <==> BeginsWithTab(text, word)
  {
    forall i | 0 <= i < |word| && i < |text|
      ensures FoldsTo(text[i], word[i]) <==> IsLetterOf(text[i], word[i])
    {
      LetterExactly(text[i], word[i]);
    }
    hide FoldsTo, IsLetterOf;
  }

  lemma LetterExactly(c: char, small: char)
    requires 'a' <= small <= 'z' || small == ' '
    ensures FoldsTo(c, small) <==> IsLetterOf(c, small)
  {
  }

  /**
   A line at some depth with an index and some text is taken for a tab's exactly
   when the text begins with one of three names, in any case, and either ends
   there or goes on with a blank, a parenthesis or a comma.
  */
  lemma TabLineExactly(depth: nat, index: nat, text: string)
    ensures IsTabLine(Tabs(depth) + (Decimal(index) + (" " + text)), depth) <==>
            BeginsWithTab(text, "page tab") || BeginsWithTab(text, "tab item") || BeginsWithTab(text, "tab")
  {
    hide Decimal, TakeNumber, BeginsWithRole, BeginsWithTab;
    var line := Tabs(depth) + (Decimal(index) + (" " + text));
    assert line[depth..] == Decimal(index) + (" " + text);
    TakeDecimal(index, " " + text);
    assert (" " + text)[1..] == text;
    assert line[depth] == Decimal(index)[0] && IsDigit(Decimal(index)[0]);
    BeginsExactly(text, "page tab");
    BeginsExactly(text, "tab item");
    BeginsExactly(text, "tab");
  }
}
