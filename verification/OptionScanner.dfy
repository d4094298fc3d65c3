/**
 Reading the option keys of a call out of source text: two scans, one that
 finds the end of the argument list and one that collects the keys of the
 object literal in it.
*/
module OptionScanner {
  import opened Text
  import opened Wrappers

  datatype ScanState = Code | Line | Block | Single | Double | Template

  predicate ClosesString(state: ScanState, current: char) {
    || (state.Single? && current == '\'')
    || (state.Double? && current == '"')
    || (state.Template? && current == '`')
  }

  /** Whether `text` begins with the two characters. */
  predicate Begins(text: string, first: char, second: char) {
    |text| > 1 && text[0] == first && text[1] == second
  }

  function OpensNonCode(text: string): Option<ScanState>
    requires text != ""
  {
    if Begins(text, '/', '/') then Some(Line)
    else if Begins(text, '/', '*') then Some(Block)
    else if text[0] == '\'' then Some(Single)
    else if text[0] == '"' then Some(Double)
    else if text[0] == '`' then Some(Template)
    else None
  }

  predicate Opens(c: char) {
    c == '(' || c == '{' || c == '['
  }

  predicate Closes(c: char) {
    c == ')' || c == '}' || c == ']'
  }

  // ---- What the two scans have in common ----

  /** The lexical state after one move, and the characters the move uses up. */
  datatype Lexed = Lexed(state: ScanState, used: nat)

  function Lex(text: string, state: ScanState): (l: Lexed)
    requires text != ""
    ensures 1 <= l.used <= 2
  {
    match state
    case Code =>
      var entered := OpensNonCode(text);
      if entered.None? then Lexed(Code, 1)
      else Lexed(entered.value, if entered.value.Line? || entered.value.Block? then 2 else 1)
    case Line => Lexed(if text[0] == '\n' then Code else Line, 1)
    case Block => if Begins(text, '*', '/') then Lexed(Code, 2) else Lexed(Block, 1)
    case _ =>
      if text[0] == '\\' then Lexed(state, 2)
      else Lexed(if ClosesString(state, text[0]) then Code else state, 1)
  }

  /** How a move changes the bracket depth. */
  function Turn(text: string, state: ScanState): int
    requires text != ""
  {
    if !state.Code? || OpensNonCode(text).Some? then 0
    else if Opens(text[0]) then 1
    else if Closes(text[0]) then -1
    else 0
  }

  predicate Interpolates(text: string, state: ScanState) {
    state.Template? && Begins(text, '$', '{')
  }

  /** The text from position `i` on; a move may step past the end. */
  function From(text: string, i: nat): string {
    if i <= |text| then text[i..] else ""
  }

  lemma FromFrom(text: string, i: nat, j: nat)
    ensures From(From(text, i), j) == From(text, i + j)
  {
  }

  // ---- The outer scan ----

  function Later(n: nat, position: Option<nat>): Option<nat> {
    if position.None? then None else Some(n + position.value)
  }

  /** One move of the outer scan: it ends, or goes on in a new state at a new depth. */
  datatype OuterMove = Found | Lost | Onward(state: ScanState, depth: int, used: nat)

  function Outer(text: string, state: ScanState, depth: int): (m: OuterMove)
    requires text != ""
    ensures m.Onward? ==> 1 <= m.used <= 2
    ensures m.Found? ==> depth == 1 && state.Code? && Closes(text[0])
  {
    if Interpolates(text, state) then Lost
    else
      var l := Lex(text, state);
      var after := depth + Turn(text, state);
      if after < depth && after == 0 then Found
      else if after < depth && after < 0 then Lost
      else Onward(l.state, after, l.used)
  }

  /** Where the scan meets the bracket that brings the depth back to 0, if it gets there. */
  function CloseIndex(text: string, state: ScanState, depth: int): (r: Option<nat>)
    ensures r.Some? ==> r.value < |text| && (depth < 1 ==> r.value >= 1)
    decreases |text|
  {
    if text == "" then None
    else
      match Outer(text, state, depth)
      case Found => Some(0)
      case Lost => None
      case Onward(next, after, used) => Later(used, CloseIndex(From(text, used), next, after))
  }

  function ArgumentText(text: string, openIndex: nat): Option<string> {
    var close := CloseIndex(From(text, openIndex), Code, 0);
    if close.None? then None else Some(From(text, openIndex)[1..close.value])
  }

  /** Where a scan that began at `start` and is now at `i` will meet its closing bracket, counted from `start`. */
  function Expected(text: string, start: nat, i: nat, state: ScanState, depth: int): Option<nat>
    requires start <= i
  {
    Later(i - start, CloseIndex(From(text, i), state, depth))
  }

  /** One move of the outer scan, told about the whole scan's result. */
  lemma OuterGoesOn(text: string, start: nat, i: nat, state: ScanState, depth: int, close: Option<nat>)
    requires start <= i < |text|
    requires close == Expected(text, start, i, state, depth)
    ensures var m := Outer(text[i..], state, depth);
            && (m.Found? ==> close == Some(i - start))
            && (m.Lost? ==> close == None)
            && (m.Onward? ==> close == Expected(text, start, i + m.used, m.state, m.depth))
  {
    hide Outer;
    var m := Outer(text[i..], state, depth);
    if m.Onward? {
      assert From(text[i..], m.used) == From(text, i + m.used);
    }
  }

  method BalancedArguments(text: string, openIndex: nat) returns (r: Option<string>)
    ensures r == ArgumentText(text, openIndex)
  {
    var depth: int := 0;
    var state := Code;
    var index := openIndex;
    hide CloseIndex;
    ghost var close := CloseIndex(From(text, openIndex), Code, 0);
    while index < |text|
      invariant index >= openIndex
      invariant close == Expected(text, openIndex, index, state, depth)
      decreases |text| - index
    {
      var current := text[index];
      ghost var m := Outer(text[index..], state, depth);
      OuterGoesOn(text, openIndex, index, state, depth, close);
      ghost var was := index;
      if state == Code {
        var entered := OpensNonCode(text[index..]);
        if entered.Some? {
          state := entered.value;
          if entered.value == Line || entered.value == Block {
            index := index + 1;
          }
        } else if Opens(current) {
          depth := depth + 1;
        } else if Closes(current) {
          depth := depth - 1;
          if depth == 0 {
            assert m.Found?;
            assert From(text, openIndex) == text[openIndex..];
            assert From(text, openIndex)[1..index - openIndex] == text[openIndex + 1..index];
            return Some(text[openIndex + 1..index]);
          }
          if depth < 0 {
            return None;
          }
        }
      } else if state == Line {
        if current == '\n' {
          state := Code;
        }
      } else if state == Block {
        if Begins(text[index..], '*', '/') {
          state := Code;
          index := index + 1;
        }
      } else if current == '\\' {
        index := index + 1;
      } else if state == Template && Begins(text[index..], '$', '{') {
        return None;
      } else if ClosesString(state, current) {
        state := Code;
      }
      index := index + 1;
      assert m == Onward(state, depth, index - was);
    }
    r := None;
  }

  // ---- The inner scan ----

  datatype InnerState = InnerState(state: ScanState, depth: int, inValue: bool, token: string, keys: seq<string>)

  const INNER_START := InnerState(Code, 0, false, "", [])

  function Flushed(s: InnerState): InnerState {
    var name := Trim(s.token);
    s.(token := "", keys := if name != "" && s.depth == 0 then s.keys + [name] else s.keys)
  }

  /** The state after one move of the inner scan. */
  function Inner(text: string, s: InnerState): InnerState
    requires text != ""
  {
    var c := text[0];
    var moved := s.(state := Lex(text, s.state).state, depth := s.depth + Turn(text, s.state));
    if !s.state.Code? || OpensNonCode(text).Some? then moved
    else if c == ':' && s.depth == 0 && !s.inValue then Flushed(moved).(inValue := true)
    else if c == ',' && s.depth == 0 then
      if s.inValue then moved.(inValue := false, token := "") else Flushed(moved)
    else if s.inValue then moved
    else moved.(token := s.token + [c])
  }

  /** The keys that the inner scan reports in the end. */
  function Collect(text: string, s: InnerState): seq<string>
    decreases |text|
  {
    if text == "" then
      if s.inValue then s.keys else Flushed(s).keys
    else
      Collect(From(text, Lex(text, s.state).used), Inner(text, s))
  }

  function CollectFrom(text: string, i: nat, s: InnerState): seq<string> {
    Collect(From(text, i), s)
  }

  lemma InnerGoesOn(text: string, i: nat, s: InnerState)
    requires i < |text|
    ensures CollectFrom(text, i, s) == CollectFrom(text, i + Lex(text[i..], s.state).used, Inner(text[i..], s))
  {
    hide Lex, Inner;
    assert From(text[i..], Lex(text[i..], s.state).used) == From(text, i + Lex(text[i..], s.state).used);
  }

  method ObjectLiteralKeys(body: string) returns (r: seq<string>)
    ensures r == Collect(body, INNER_START)
  {
    hide Collect, Trim;
    var keys: seq<string> := [];
    var depth: int := 0;
    var state := Code;
    var inValue := false;
    var token := "";
    var index := 0;
    assert From(body, 0) == body;
    while index < |body|
      invariant Collect(body, INNER_START) == CollectFrom(body, index, InnerState(state, depth, inValue, token, keys))
      decreases |body| - index
    {
      var current := body[index];
      ghost var s := InnerState(state, depth, inValue, token, keys);
      ghost var next := Inner(body[index..], s);
      InnerGoesOn(body, index, s);
      ghost var was := index;
      if state == Code {
        var entered := OpensNonCode(body[index..]);
        if entered.Some? {
          state := entered.value;
          if entered.value == Line || entered.value == Block {
            index := index + 1;
          }
        } else if Opens(current) {
          depth := depth + 1;
          if !inValue {
            token := token + [current];
          }
        } else if Closes(current) {
          depth := depth - 1;
          if !inValue {
            token := token + [current];
          }
        } else if current == ':' && depth == 0 && !inValue {
          keys, token := Flush(keys, token, depth);
          inValue := true;
        } else if current == ',' && depth == 0 {
          if inValue {
            inValue := false;
            token := "";
          } else {
            keys, token := Flush(keys, token, depth);
          }
        } else if !inValue {
          token := token + [current];
        }
      } else if state == Line {
        if current == '\n' {
          state := Code;
        }
      } else if state == Block {
        if Begins(body[index..], '*', '/') {
          state := Code;
          index := index + 1;
        }
      } else if current == '\\' {
        index := index + 1;
      } else if ClosesString(state, current) {
        state := Code;
      }
      index := index + 1;
      assert next == InnerState(state, depth, inValue, token, keys);
      assert index == was + Lex(body[was..], s.state).used;
    }
    CollectAtEnd(body, index, InnerState(state, depth, inValue, token, keys));
    if !inValue {
      keys, token := Flush(keys, token, depth);
    }
    r := keys;
  }

  method Flush(keys: seq<string>, token: string, depth: int) returns (flushed: seq<string>, empty: string)
    ensures Flushed(InnerState(Code, depth, false, token, keys)) == InnerState(Code, depth, false, empty, flushed)
  {
    hide Trim;
    var name := Trim(token);
    empty := "";
    flushed := if name != "" && depth == 0 then keys + [name] else keys;
  }

  lemma CollectAtEnd(text: string, i: nat, s: InnerState)
    requires i >= |text|
    ensures CollectFrom(text, i, s) == if s.inValue then s.keys else Flushed(s).keys
  {
  }

  // ---- Reading a call ----

  datatype Reason = NeverCloses | NoArgument | NotAnObject | UnreadableKey(key: string)

  datatype CallOptionKeys = Readable(keys: seq<string>) | Unreadable(reason: Reason)

  predicate StartsIdentifier(c: char) {
    'a' <= c <= 'z' || 'A' <= c <= 'Z' || c == '_' || c == '$'
  }

  predicate ContinuesIdentifier(c: char) {
    StartsIdentifier(c) || IsDigit(c)
  }

  predicate IsIdentifier(key: string) {
    && key != "" && StartsIdentifier(key[0])
    && forall i :: 0 <= i < |key| ==> ContinuesIdentifier(key[i])
  }

  function FirstUnreadable(keys: seq<string>): (r: Option<string>)
    ensures r.None? <==> forall i :: 0 <= i < |keys| ==> IsIdentifier(keys[i])
  {
    if keys == [] then None
    else if !IsIdentifier(keys[0]) then Some(keys[0])
    else FirstUnreadable(keys[1..])
  }

  /** Whether the trimmed argument text is sliced as an object. */
  predicate BracedObject(trimmed: string) {
    |trimmed| >= 2 && trimmed[0] == '{' && trimmed[|trimmed| - 1] == '}'
  }

  function ReadCallOptionKeys(text: string, parenIndex: nat): CallOptionKeys {
    var args := ArgumentText(text, parenIndex);
    if args.None? then Unreadable(NeverCloses)
    else
      var trimmed := Trim(args.value);
      if trimmed == "" then Unreadable(NoArgument)
      else if !BracedObject(trimmed) then Unreadable(NotAnObject)
      else
        var keys := Collect(trimmed[1..|trimmed| - 1], INNER_START);
        var unreadable := FirstUnreadable(keys);
        if unreadable.Some? then Unreadable(UnreadableKey(unreadable.value)) else Readable(keys)
  }
}
