/** What a rendered line says: the words of texts, and the line of each kind of element. */
module LineTexts {
  import opened AccessibleNodes
  import opened Numerals
  import opened RenderedLines
  import opened Text
  import opened Wrappers

  // ---- Words ----

  predicate IsWord(s: string) {
    s != "" && forall i :: 0 <= i < |s| ==> !IsBlank(s[i])
  }

  predicate AllBlank(s: string) {
    forall i :: 0 <= i < |s| ==> IsBlank(s[i])
  }

  /** Words with blanks before each, the last ones after all of them. */
  function Spread(gaps: seq<string>, words: seq<string>, end: string): string
    requires |gaps| == |words|
  {
    if words == [] then end else gaps[0] + (words[0] + Spread(gaps[1..], words[1..], end))
  }

  predicate AreGaps(gaps: seq<string>) {
    forall k :: 0 <= k < |gaps| ==> AllBlank(gaps[k]) && (k > 0 ==> gaps[k] != "")
  }

  lemma {:induction false} BlanksAreSkipped(gap: string, rest: string)
    requires AllBlank(gap)
    ensures Words(gap + rest) == Words(rest)
    decreases |gap|
  {
    hide IsBlank;
    if gap == "" {
      assert gap + rest == rest;
    } else {
      BlanksAreSkipped(gap[1..], rest);
      assert (gap + rest)[1..] == gap[1..] + rest;
    }
  }

  lemma {:induction false} WordEnds(word: string, rest: string)
    requires (forall i :: 0 <= i < |word| ==> !IsBlank(word[i])) && (rest == "" || IsBlank(rest[0]))
    ensures WordRun(word + rest) == |word|
    decreases |word|
  {
    hide IsBlank;
    if word == "" {
      assert word + rest == rest;
    } else {
      WordEnds(word[1..], rest);
      assert (word + rest)[1..] == word[1..] + rest;
    }
  }

  /** The words of a text, however many blanks of whatever kind stand between and around them. */
  lemma {:induction false} WordsOfSpread(gaps: seq<string>, words: seq<string>, end: string)
    requires |gaps| == |words| && AreGaps(gaps) && AllBlank(end)
    requires forall k :: 0 <= k < |words| ==> IsWord(words[k])
    ensures Words(Spread(gaps, words, end)) == words
    decreases |words|
  {
    hide IsBlank;
    if words == [] {
      BlanksAreSkipped(end, "");
      assert end + "" == end;
    } else {
      var rest := Spread(gaps[1..], words[1..], end);
      WordsOfSpread(gaps[1..], words[1..], end);
      assert rest != "" ==> IsBlank(rest[0]) by {
        if |words| > 1 {
          assert gaps[1] != "" && AllBlank(gaps[1]) && rest[0] == gaps[1][0];
        }
      }
      BlanksAreSkipped(gaps[0], words[0] + rest);
      WordEnds(words[0], rest);
      assert (words[0] + rest)[..|words[0]|] == words[0] && (words[0] + rest)[|words[0]|..] == rest;
      assert (words[0] + rest)[0] == words[0][0];
    }
  }

  /** Cleaning a text leaves its words with one space between them. */
  lemma SanitizedSpread(gaps: seq<string>, words: seq<string>, end: string)
    requires |gaps| == |words| && AreGaps(gaps) && AllBlank(end)
    requires forall k :: 0 <= k < |words| ==> IsWord(words[k])
    ensures Sanitized(Spread(gaps, words, end)) == Join(words, " ")
  {
    WordsOfSpread(gaps, words, end);
  }

  lemma SanitizedWord(word: string)
    requires IsWord(word)
    ensures Sanitized(word) == word && Sanitized("") == ""
  {
    SanitizedSpread([""], [word], "");
    assert Spread([""], [word], "") == word;
    assert Words("") == [];
  }

  // ---- Lines ----

  /** The line of an element with this title, and with `more` after it. */
  function Line(depth: nat, index: nat, role: string, title: string, more: string): string {
    Tabs(depth) + (Decimal(index) + " " + role + " " + title + more)
  }

  lemma HeadingOfWord(node: Node, index: nat)
    requires IsWord(Title(node))
    ensures Heading(node, index) == Decimal(index) + " " + node.role + " " + Title(node)
  {
    hide Decimal, StripEnd, Title, Sanitized, IsBlank;
    SanitizedWord(Title(node));
    var whole := Decimal(index) + " " + node.role + " " + Title(node);
    assert whole[|whole| - 1] == Title(node)[|Title(node)| - 1];
    NothingToStrip(whole);
  }

  lemma NothingToStrip(s: string)
    requires s != "" && !IsBlank(s[|s| - 1])
    ensures StripEnd(s) == s
  {
  }

  lemma LineOfWord(node: Node, depth: nat, index: nat)
    requires IsWord(Title(node))
    ensures LineOf(node, depth, index) == Line(depth, index, node.role, Title(node), Suffix(node))
  {
    hide Heading, Suffix, Title;
    HeadingOfWord(node, index);
  }

  /** A node with a title and nothing else. */
  function Titled(role: string, title: string): Node {
    Node(role, title, "", "", false, [], None, "", [])
  }

  /**
   A value is shown after the title, in a text element as it is and elsewhere
   after a label, unless it says no more than the title does.
  */
  lemma ValuesAreShown(title: string, value: string, depth: nat, index: nat)
    requires IsWord(title) && IsWord(value) && title != value
    ensures LineOf(Titled("slider", title).(value := value), depth, index)
         == Line(depth, index, "slider", title, ", Value: " + value)
    ensures forall role :: role in {"label", "static", "static text", "text", "entry", "text entry"} ==>
                             LineOf(Titled(role, title).(value := value), depth, index)
                             == Line(depth, index, role, title, " " + value)
    ensures LineOf(Titled("slider", title).(value := title), depth, index) == Line(depth, index, "slider", title, "")
    ensures LineOf(Titled("slider", "").(automationId := title), depth, index)
         == Line(depth, index, "slider", title, "")
  {
    SanitizedWord(value);
    SanitizedWord(title);
    hide Sanitized, Join, IsWord;
    SliderSuffix(title, value);
    TextSuffix(title, value);
    hide Suffix, Line, Heading, FormattedValue;
    LineOfWord(Titled("slider", title).(value := value), depth, index);
    LineOfWord(Titled("slider", title).(value := title), depth, index);
    LineOfWord(Titled("slider", "").(automationId := title), depth, index);
    forall role | role in {"label", "static", "static text", "text", "entry", "text entry"}
      ensures LineOf(Titled(role, title).(value := value), depth, index)
           == Line(depth, index, role, title, " " + value)
    {
      LineOfWord(Titled(role, title).(value := value), depth, index);
    }
  }

  lemma SliderSuffix(title: string, value: string)
    requires Sanitized(value) == value != "" && Sanitized(title) == title != "" && Sanitized("") == "" && title != value
    ensures Suffix(Titled("slider", title).(value := value)) == ", Value: " + value
    ensures Suffix(Titled("slider", title).(value := title)) == ""
    ensures Suffix(Titled("slider", "").(automationId := title)) == ""
  {
    hide Sanitized, Lower;
    LowerNames();
  }

  lemma TextSuffix(title: string, value: string)
    requires Sanitized(value) == value != "" && title != "" && title != value
    ensures forall role :: role in {"label", "static", "static text", "text", "entry", "text entry"} ==>
                             Suffix(Titled(role, title).(value := value)) == " " + value
  {
    hide Sanitized, Lower;
    LowerTextNames();
  }

  lemma LowerNames()
    ensures Lower("slider") == "slider" && Lower("panel") == "panel"
    ensures Lower("row") == "row" && Lower("table row") == "table row" && Lower("list item") == "list item"
  {
  }

  lemma LowerTextNames()
    ensures Lower("label") == "label" && Lower("static") == "static" && Lower("static text") == "static text"
    ensures Lower("text") == "text" && Lower("entry") == "entry" && Lower("text entry") == "text entry"
  {
  }

  /** The plain text under a generic element, and that of a row, is shown unless it says no more than the title does. */
  lemma TextIsShown(title: string, text: string, depth: nat, index: nat)
    requires IsWord(title) && IsWord(text) && title != text
    ensures LineOf(Titled("panel", "").(automationId := title, summary := Some(text)), depth, index)
         == Line(depth, index, "panel", title, ", Text: " + text)
    ensures LineOf(Titled("panel", "").(automationId := title, summary := Some(title)), depth, index)
         == Line(depth, index, "panel", title, "")
    ensures forall role :: role in {"row", "table row", "list item"} ==>
                             && LineOf(Titled(role, title).(rowSummary := text), depth, index)
                                == Line(depth, index, role, title, ", Text: " + text)
                             && LineOf(Titled(role, title).(rowSummary := title), depth, index)
                                == Line(depth, index, role, title, "")
                             && LineOf(Titled(role, title), depth, index) == Line(depth, index, role, title, "")
    ensures LineOf(Titled("slider", title).(rowSummary := text), depth, index)
         == Line(depth, index, "slider", title, "")
  {
    SanitizedWord(text);
    SanitizedWord(title);
    hide Sanitized, Join, IsWord;
    PanelSuffix(title, text);
    RowSuffix(title, text);
    hide Suffix, Line, Heading, ShownSummary;
    LineOfWord(Titled("panel", "").(automationId := title, summary := Some(text)), depth, index);
    LineOfWord(Titled("panel", "").(automationId := title, summary := Some(title)), depth, index);
    LineOfWord(Titled("slider", title).(rowSummary := text), depth, index);
    forall role | role in {"row", "table row", "list item"}
      ensures LineOf(Titled(role, title).(rowSummary := text), depth, index)
           == Line(depth, index, role, title, ", Text: " + text)
      ensures LineOf(Titled(role, title).(rowSummary := title), depth, index)
           == Line(depth, index, role, title, "")
      ensures LineOf(Titled(role, title), depth, index) == Line(depth, index, role, title, "")
    {
      LineOfWord(Titled(role, title), depth, index);
      LineOfWord(Titled(role, title).(rowSummary := text), depth, index);
      LineOfWord(Titled(role, title).(rowSummary := title), depth, index);
    }
  }

  lemma PanelSuffix(title: string, text: string)
    requires Sanitized(text) == text != "" && Sanitized("") == "" && title != "" && title != text
    ensures Suffix(Titled("panel", "").(automationId := title, summary := Some(text))) == ", Text: " + text
    ensures Suffix(Titled("panel", "").(automationId := title, summary := Some(title))) == ""
  {
    hide Sanitized, Lower;
    LowerNames();
  }

  lemma RowSuffix(title: string, text: string)
    requires Sanitized(text) == text != "" && Sanitized("") == "" && title != "" && title != text
    ensures forall role :: role in {"row", "table row", "list item"} ==>
                             && Suffix(Titled(role, title).(rowSummary := text)) == ", Text: " + text
                             && Suffix(Titled(role, title).(rowSummary := title)) == ""
                             && Suffix(Titled(role, title)) == ""
    ensures Suffix(Titled("slider", title).(rowSummary := text)) == ""
  {
    hide Sanitized, Lower;
    LowerNames();
  }

  /** Actions are shown last, those that every element has left out and underscores turned into spaces. */
  lemma ActionsAreShown(title: string, first: string, second: string, depth: nat, index: nat)
    requires IsWord(title) && IsWord(first) && IsWord(second) && '_' !in first && '_' !in second
    requires MeaningfulActions([first + "_" + second, second]) == [first + "_" + second, second]
    ensures var shown := ", Secondary Actions: " + first + " " + second + ", " + second;
            LineOf(Titled("slider", title).(actions := [first + "_" + second, second]), depth, index)
            == Line(depth, index, "slider", title, shown)
  {
    var actions := [first + "_" + second, second];
    var node := Titled("slider", title).(actions := actions);
    DisplayedAction(first, second);
    SanitizedWord(title);
    assert Suffix(node) == ", Secondary Actions: " + first + " " + second + ", " + second by {
      ActionSuffix(title, first, second);
    }
    hide Suffix, Line, Heading;
    LineOfWord(node, depth, index);
  }

  /** An action's name with spaces for its underscores. */
  function WithSpaces(action: string): string {
    seq(|action|, i requires 0 <= i < |action| => if action[i] == '_' then ' ' else action[i])
  }

  lemma Spaced(first: string, second: string)
    requires '_' !in first && '_' !in second
    ensures WithSpaces(first + "_" + second) == first + (" " + second) && WithSpaces(second) == second
  {
    var action, spaced := first + "_" + second, first + (" " + second);
    assert forall i :: 0 <= i < |first| ==> first[i] in first;
    assert forall i :: 0 <= i < |second| ==> second[i] in second;
    forall i | 0 <= i < |action|
      ensures WithSpaces(action)[i] == spaced[i]
    {
      if i < |first| {
        assert action[i] == first[i] == spaced[i];
      } else if i > |first| {
        assert action[i] == second[i - |first| - 1] == spaced[i];
      }
    }
  }

  lemma DisplayedAction(first: string, second: string)
    requires IsWord(first) && IsWord(second) && '_' !in first && '_' !in second
    ensures DisplayAction(first + "_" + second) == first + " " + second
    ensures DisplayAction(second) == second
  {
    Spaced(first, second);
    SpreadTwo(first, second);
    assert Spread([""], [second], "") == second;
    JoinTwo(first, second);
    assert AllBlank(" ") by {
      SpaceIsBlank();
    }
    assert forall action :: DisplayAction(action) == Join(Words(WithSpaces(action)), " ");
    hide IsBlank, Words, Spread, Join, DisplayAction, WithSpaces, IsWord;
    WordsOfSpread(["", " "], [first, second], "");
    WordsOfSpread([""], [second], "");
    assert first + (" " + second) == first + " " + second;
  }

  lemma SpreadTwo(first: string, second: string)
    ensures Spread(["", " "], [first, second], "") == first + (" " + second)
  {
    assert ["", " "][1..] == [" "] && [first, second][1..] == [second];
    assert Spread([" "], [second], "") == " " + (second + "");
  }

  lemma SpaceIsBlank()
    ensures IsBlank(' ')
  {
  }

  lemma JoinTwo(a: string, b: string)
    ensures Join([a, b], " ") == a + " " + b && Join([b], " ") == b
    ensures Join([a, b], ", ") == a + ", " + b
  {
    assert [a, b][1..] == [b];
  }

  lemma ActionSuffix(title: string, first: string, second: string)
    requires title != "" && Sanitized("") == ""
    requires DisplayAction(first + "_" + second) == first + " " + second && DisplayAction(second) == second
    requires MeaningfulActions([first + "_" + second, second]) == [first + "_" + second, second]
    ensures Suffix(Titled("slider", title).(actions := [first + "_" + second, second]))
         == ", Secondary Actions: " + first + " " + second + ", " + second
  {
    hide Sanitized, Lower, DisplayAction, MeaningfulActions, Join;
    LowerNames();
    var actions := [first + "_" + second, second];
    assert DisplayActions(actions) == [first + " " + second, second];
    JoinTwo(first + " " + second, second);
  }
}
