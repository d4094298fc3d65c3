/** Character classes and string operations that several parts share. */
module Text {
  /** The characters of JavaScript's `\s`, which are also those that `trim` removes. */
  predicate IsSpace(c: char) {
    || '\t' <= c <= '\r' || c == ' ' || c == '\U{A0}' || c == '\U{1680}'
    || '\U{2000}' <= c <= '\U{200A}' || c == '\U{2028}' || c == '\U{2029}' || c == '\U{202F}'
    || c == '\U{205F}' || c == '\U{3000}' || c == '\U{FEFF}'
  }

  predicate IsDigit(c: char) {
    '0' <= c <= '9'
  }

  predicate IsAlphanumeric(c: char) {
    'a' <= c <= 'z' || 'A' <= c <= 'Z' || IsDigit(c)
  }

  /**
   A character in lower case, as far as comparing with ASCII words goes: of
   the others only the Kelvin sign has an ASCII letter as its lower case.
  */
  function LowerChar(c: char): char {
    if 'A' <= c <= 'Z' then c + 32 as char
    else if c == '\U{212A}' then 'k'
    else c
  }

  function Lower(s: string): string {
    seq(|s|, i requires 0 <= i < |s| => LowerChar(s[i]))
  }

  predicate StartsWith(s: string, prefix: string) {
    prefix <= s
  }

  /** How many blanks a text begins with. */
  function Lead(s: string): (n: nat)
    ensures n <= |s| && (forall i :: 0 <= i < n ==> IsSpace(s[i])) && (n < |s| ==> !IsSpace(s[n]))
  {
    if s == "" || !IsSpace(s[0]) then 0 else 1 + Lead(s[1..])
  }

  function TrimEnd(s: string): (t: string)
    ensures t <= s && (t == "" || !IsSpace(t[|t| - 1]))
    ensures forall i :: |t| <= i < |s| ==> IsSpace(s[i])
  {
    if s == "" || !IsSpace(s[|s| - 1]) then s else TrimEnd(s[..|s| - 1])
  }

  /** `s.trim()` */
  function Trim(s: string): string {
    TrimEnd(s[Lead(s)..])
  }

  predicate AllSpaces(s: string) {
    forall i :: 0 <= i < |s| ==> IsSpace(s[i])
  }

  /** Trimming takes exactly the blanks from around a text that neither begins nor ends with one. */
  lemma TrimPadded(before: string, inner: string, after: string)
    requires AllSpaces(before) && AllSpaces(after)
    requires inner == "" || (!IsSpace(inner[0]) && !IsSpace(inner[|inner| - 1]))
    ensures Trim(before + inner + after) == inner
  {
    var s := before + inner + after;
    assert forall i :: 0 <= i < |before| ==> s[i] == before[i];
    assert forall i :: 0 <= i < |inner| ==> s[|before| + i] == inner[i];
    assert forall i :: 0 <= i < |after| ==> s[|before| + |inner| + i] == after[i];
    if inner == "" {
      assert forall i :: 0 <= i < |s| ==> IsSpace(s[i]);
    } else {
      assert s[|before|] == inner[0];
      assert s[Lead(s)..] == inner + after;
      var t := TrimEnd(inner + after);
      assert (inner + after)[|inner| - 1] == inner[|inner| - 1];
      assert forall i :: |inner| <= i < |inner + after| ==> IsSpace((inner + after)[i]);
      assert t == inner;
    }
  }

  /** What trimming leaves, and what it takes away on either side. */
  lemma TrimSplits(s: string) returns (before: string, after: string)
    ensures s == before + Trim(s) + after && AllSpaces(before) && AllSpaces(after)
  {
    before := s[..Lead(s)];
    var rest := s[Lead(s)..];
    after := rest[|Trim(s)|..];
    assert rest == Trim(s) + after;
  }
}
