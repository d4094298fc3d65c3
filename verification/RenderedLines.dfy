/** The line of text the renderer writes for an element, and how compaction reads such lines back. */
module RenderedLines {
  import opened AccessibleNodes
  import opened Numerals
  import opened Text
  import opened Wrappers

  // ---- Writing ----

  function Tabs(depth: nat): (s: string)
    ensures |s| == depth && forall i :: 0 <= i < depth ==> s[i] == '\t'
  {
    seq(depth, i => '\t')
  }

  const TEXT_ROLES := {"label", "static", "static text", "text", "entry", "text entry"}

  const ROW_ROLES := {"row", "table row", "list item"}

  function FormattedValue(role: string, title: string, value: string): string {
    var clean := Sanitized(value);
    if clean == "" || clean == title then ""
    else if role in TEXT_ROLES then " " + clean
    else ", Value: " + clean
  }

  function ShownSummary(node: Node): string {
    var summary := SummaryText(node);
    if summary != "" && summary != Title(node) then ", Text: " + Sanitized(summary)
    else if Lower(node.role) in ROW_ROLES && node.rowSummary != "" && node.rowSummary != Title(node)
    then ", Text: " + Sanitized(node.rowSummary)
    else ""
  }

  function DisplayAction(action: string): string {
    Join(Words(seq(|action|, i requires 0 <= i < |action| => if action[i] == '_' then ' ' else action[i])), " ")
  }

  function DisplayActions(actions: seq<string>): seq<string> {
    seq(|actions|, i requires 0 <= i < |actions| => DisplayAction(actions[i]))
  }

  function ShownActions(actions: seq<string>): string {
    if actions == [] then "" else ", Secondary Actions: " + Join(DisplayActions(actions), ", ")
  }

  function Suffix(node: Node): string {
    FormattedValue(Lower(node.role), Title(node), node.value) + ShownSummary(node)
    + ShownActions(MeaningfulActions(node.actions))
  }

  function Heading(node: Node, index: nat): string {
    StripEnd(Decimal(index) + " " + node.role + " " + Sanitized(Title(node)))
  }

  function LineOf(node: Node, depth: nat, index: nat): string {
    Tabs(depth) + (Heading(node, index) + Suffix(node))
  }

  function OmittedLine(depth: nat, count: nat): string {
    Tabs(depth) + ("... " + Decimal(count) + " inactive browser tabs omitted")
  }

  // ---- Reading ----

  function AfterIndent(line: string, depth: nat): string {
    if depth <= |line| then line[depth..] else ""
  }

  /** The number a line begins with after its indent. */
  function ElementIndex(line: string, depth: nat): Option<nat> {
    match TakeNumber(AfterIndent(line, depth))
    case None => None
    case Some((index, _)) => Some(index)
  }

  /** Whether ignoring case takes `c` for the small letter `letter`; two further forms of i fold to it. */
  predicate FoldsTo(c: char, letter: char) {
    LowerChar(c) == letter || (letter == 'i' && (c == '\U{130}' || c == '\U{131}'))
  }

  predicate BeginsWithRole(s: string, role: string) {
    && |role| <= |s|
    && (forall i :: 0 <= i < |role| ==> FoldsTo(s[i], role[i]))
    && (|s| == |role| || s[|role|] in " (," || s[|role|..] == "\n")
  }

  /** A line for a browser tab at exactly this depth. */
  predicate IsTabLine(line: string, depth: nat) {
    && StartsWith(line, Tabs(depth))
    && (|line| == depth || line[depth] != '\t')
    && match TakeNumber(line[depth..])
       case None => false
       case Some((_, rest)) =>
         && rest != "" && rest[0] == ' '
         && (|| BeginsWithRole(rest[1..], "page tab")
             || BeginsWithRole(rest[1..], "tab item")
             || BeginsWithRole(rest[1..], "tab"))
  }

  predicate Contains(s: string, word: string) {
    exists i :: 0 <= i <= |s| - |word| && s[i..][..|word|] == word
  }

  // ---- A line names its record ----

  lemma SuffixBegins(node: Node)
    ensures Suffix(node) == "" || Suffix(node)[0] == ' ' || Suffix(node)[0] == ','
  {
    hide Sanitized, Join, SummaryText, Title, MeaningfulActions, Lower;
  }

  lemma HeadingBegins(node: Node, index: nat) returns (rest: string)
    ensures Heading(node, index) == Decimal(index) + rest && (rest == "" || rest[0] == ' ')
  {
    hide Sanitized, Title, Decimal;
    var digits := Decimal(index);
    var tail := " " + node.role + " " + Sanitized(Title(node));
    var s := digits + " " + node.role + " " + Sanitized(Title(node));
    assert s == digits + tail;
    var t := StripEnd(s);
    assert |digits| <= |t| by {
      assert s[|digits| - 1] == digits[|digits| - 1];
      assert IsDigit(s[|digits| - 1]);
    }
    rest := tail[..|t| - |digits|];
    assert t == s[..|t|] == digits + rest;
  }

  /** Every line that is rendered for an element begins, after its indent, with that element's index. */
  lemma LineNamesItsRecord(node: Node, depth: nat, index: nat)
    ensures ElementIndex(LineOf(node, depth, index), depth) == Some(index)
  {
    hide Heading, Suffix, Decimal, TakeNumber;
    var rest := HeadingBegins(node, index);
    SuffixBegins(node);
    var tail := rest + Suffix(node);
    assert Heading(node, index) + Suffix(node) == Decimal(index) + tail;
    assert AfterIndent(LineOf(node, depth, index), depth) == Decimal(index) + tail;
    TakeDecimal(index, tail);
  }

  /** Elements with a tab's role, in whatever case, are rendered as lines that compaction takes for tabs. */
  lemma TabsAreRecognised(node: Node, depth: nat, index: nat)
    requires Lower(node.role) in {"page tab", "tab item", "tab"}
    ensures IsTabLine(LineOf(node, depth, index), depth)
  {
    hide Heading, Suffix, Decimal, TakeNumber, Lower, BeginsWithRole;
    var rest := TabHeading(node, index);
    SuffixBegins(node);
    var tail := rest + Suffix(node);
    var line := LineOf(node, depth, index);
    assert line[depth..] == Decimal(index) + tail by {
      assert Heading(node, index) + Suffix(node) == Decimal(index) + tail;
    }
    TakeDecimal(index, tail);
    assert line[depth] == Decimal(index)[0] && IsDigit(Decimal(index)[0]);
    RoleBegins(node.role, rest[1..][|node.role|..] + Suffix(node));
    assert tail[1..] == node.role + (rest[1..][|node.role|..] + Suffix(node));
  }

  /** The heading of a tab: stripping the end leaves the whole role. */
  lemma TabHeading(node: Node, index: nat) returns (rest: string)
    requires Lower(node.role) in {"page tab", "tab item", "tab"}
    ensures Heading(node, index) == Decimal(index) + rest
    ensures rest != "" && rest[0] == ' ' && node.role <= rest[1..]
    ensures |rest| == 1 + |node.role| || rest[1 + |node.role|] == ' '
  {
    hide Sanitized, Title, Decimal, StripEnd, Lower;
    var digits, title := Decimal(index), Sanitized(Title(node));
    var role := " " + node.role;
    LastOfRole(node.role);
    rest := StripKeeps(digits + role, " " + title);
    assert digits + " " + node.role + " " + title == (digits + role) + (" " + title);
    rest := role + rest;
    assert (digits + role) + rest[|role|..] == digits + rest;
    assert rest[1..] == node.role + rest[|role|..];
  }

  lemma LastOfRole(role: string)
    requires Lower(role) in {"page tab", "tab item", "tab"}
    ensures role != "" && !IsBlank(role[|role| - 1])
  {
    var n := |role|;
    assert Lower(role)[n - 1] == LowerChar(role[n - 1]);
  }

  /** Stripping the end takes nothing from a text that does not end in a blank. */
  lemma StripKeeps(text: string, more: string) returns (left: string)
    requires text != "" && !IsBlank(text[|text| - 1])
    ensures StripEnd(text + more) == text + left && left <= more
  {
    var t := StripEnd(text + more);
    assert (text + more)[|text| - 1] == text[|text| - 1];
    assert |text| <= |t|;
    left := more[..|t| - |text|];
    assert t == (text + more)[..|t|] == text + left;
  }

  lemma RoleBegins(role: string, after: string)
    requires Lower(role) in {"page tab", "tab item", "tab"}
    requires after == "" || after[0] in " ,"
    ensures || BeginsWithRole(role + after, "page tab")
            || BeginsWithRole(role + after, "tab item")
            || BeginsWithRole(role + after, "tab")
  {
    var word := Lower(role);
    assert forall i :: 0 <= i < |role| ==> LowerChar(role[i]) == word[i];
    assert forall i :: 0 <= i < |role| ==> (role + after)[i] == role[i];
    assert BeginsWithRole(role + after, word);
  }
}
