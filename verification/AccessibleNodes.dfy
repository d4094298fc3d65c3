/**
 The accessible elements of a window, the record kept of each, and the pure
 decisions the renderer takes about one element.
*/
module AccessibleNodes {
  import opened Text
  import opened Wrappers

  const MAX_NODES := 1200
  const MAX_DEPTH := 64

  /**
   An element. A slot is a place among its children, and is empty where the
   child there cannot be had. `summary` is the text found in and under the
   element when it is generic and holds plain text only, `rowSummary` the text
   found under it when it is a row.
  */
  datatype Node = Node(
    role: string, name: string, automationId: string, value: string, isSelected: bool, actions: seq<string>,
    summary: Option<string>, rowSummary: string, slots: seq<Option<Node>>)

  /** What the renderer keeps of an element. */
  datatype Record = Record(
    index: nat, runtimeId: seq<nat>, automationId: string, name: string, controlType: string, value: string,
    isSelected: bool, actions: seq<string>)

  /** What a rendering has produced so far. */
  datatype Rendering = Rendering(
    records: seq<Record>, lines: seq<string>, truncated: bool, maxDepthReached: bool)

  function RecordOf(node: Node, index: nat, path: seq<nat>): Record {
    Record(index, path, node.automationId, node.name, node.role, node.value, node.isSelected, node.actions)
  }

  // ---- Text ----

  /** The characters that Python's `strip` and `split` take for whitespace. */
  predicate IsBlank(c: char) {
    || '\t' <= c <= '\r' || '\U{1C}' <= c <= ' ' || c == '\U{85}' || c == '\U{A0}' || c == '\U{1680}'
    || '\U{2000}' <= c <= '\U{200A}' || c == '\U{2028}' || c == '\U{2029}' || c == '\U{202F}'
    || c == '\U{205F}' || c == '\U{3000}'
  }

  function StripEnd(s: string): (t: string)
    ensures t <= s && (t == "" || !IsBlank(t[|t| - 1]))
    ensures forall i :: |t| <= i < |s| ==> IsBlank(s[i])
  {
    if s == "" || !IsBlank(s[|s| - 1]) then s else StripEnd(s[..|s| - 1])
  }

  function Strip(s: string): string {
    if s == "" || !IsBlank(s[0]) then StripEnd(s) else Strip(s[1..])
  }

  function WordRun(s: string): (n: nat)
    ensures n <= |s|
  {
    if s == "" || IsBlank(s[0]) then 0 else 1 + WordRun(s[1..])
  }

  /** `split()` */
  function Words(s: string): seq<string>
    decreases |s|
  {
    if s == "" then []
    else if IsBlank(s[0]) then Words(s[1..])
    else [s[..WordRun(s)]] + Words(s[WordRun(s)..])
  }

  function Join(parts: seq<string>, separator: string): string {
    if parts == [] then ""
    else if |parts| == 1 then parts[0]
    else parts[0] + separator + Join(parts[1..], separator)
  }

  /** The words of a text with one space between them. */
  function Sanitized(s: string): string {
    Join(Words(s), " ")
  }

  // ---- Decisions ----

  const GENERIC_ROLES := {"panel", "filler", "unknown", "section"}

  const NOISY_ACTIONS :=
    {"click", "press", "show default ui", "show alternate ui", "show menu", "scroll to visible", "raise"}

  const LABELLED_ROLES := {
    "button", "check box", "checkbox", "combo box", "heading", "link", "menu item", "page tab", "push button",
    "radio button"
  }

  function MeaningfulActions(actions: seq<string>): seq<string> {
    if actions == [] then []
    else
      (if Lower(Strip(actions[0])) !in NOISY_ACTIONS then [actions[0]] else []) + MeaningfulActions(actions[1..])
  }

  function Title(node: Node): string {
    if node.name != "" then node.name else node.automationId
  }

  function GenericSummary(node: Node): Option<string> {
    if Lower(node.role) in GENERIC_ROLES && node.name == "" && node.value == "" then node.summary else None
  }

  /** How many children there are from slot `i` on. */
  function ChildCount(slots: seq<Option<Node>>): nat {
    if slots == [] then 0 else (if slots[0].Some? then 1 else 0) + ChildCount(slots[1..])
  }

  /** A generic wrapper with nothing to say and at most one child: left out, its child taking its place. */
  predicate Elided(node: Node) {
    && Lower(node.role) in GENERIC_ROLES
    && node.name == "" && node.automationId == "" && node.value == ""
    && MeaningfulActions(node.actions) == []
    && GenericSummary(node) == None
    && ChildCount(node.slots) <= 1
  }

  function SummaryText(node: Node): string {
    match GenericSummary(node)
    case Some(text) => text
    case None => ""
  }

  /** The element's own line says what is under it, so its children are not shown. */
  predicate Closed(node: Node) {
    || SummaryText(node) != ""
    || ((Title(node) != "" || Sanitized(node.value) != "") && Lower(node.role) in LABELLED_ROLES)
  }
}
