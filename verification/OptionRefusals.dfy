/** What the option scanner refuses to read. */
module OptionRefusals {
  import opened Text
  import opened Wrappers
  import opened OptionScanner
  import opened OptionPrinting

  // ---- Spreads, computed keys and other entries that do not begin with an identifier ----

  /** A first character by which an entry is no identifier key: `...rest`, `[computed]`, `*generator`, `7`, `#x`. */
  predicate IsOddStart(c: char) {
    && !StartsIdentifier(c) && !IsSpace(c) && !Closes(c) && !IsQuote(c)
    && c != '/' && c != ',' && c != ':'
  }

  predicate HasBadKey(keys: seq<string>) {
    exists i :: 0 <= i < |keys| && !IsIdentifier(keys[i])
  }

  predicate OddToken(token: string) {
    Lead(token) < |token| && IsOddStart(token[Lead(token)])
  }

  /** From here on the scan cannot help reporting a key that is no identifier. */
  predicate Doomed(s: InnerState) {
    HasBadKey(s.keys) || (!s.inValue && OddToken(s.token))
  }

  /** The depth at which the inner scan ends. */
  function EndDepth(text: string, state: ScanState, depth: int): int
    decreases |text|
  {
    if text == "" then depth
    else
      var l := Lex(text, state);
      EndDepth(From(text, l.used), l.state, depth + Turn(text, state))
  }

  lemma OddTokenTrims(token: string)
    requires OddToken(token)
    ensures Trim(token) != "" && !IsIdentifier(Trim(token))
  {
    hide IsSpace, StartsIdentifier, ContinuesIdentifier, IsQuote;
    var rest := token[Lead(token)..];
    assert !IsSpace(rest[0]);
    assert TrimEnd(rest) != "";
    assert Trim(token)[0] == rest[0];
  }

  lemma {:induction false} LeadGrows(token: string, c: char)
    requires Lead(token) < |token|
    ensures Lead(token + [c]) == Lead(token)
    decreases |token|
  {
    assert (token + [c])[0] == token[0];
    if IsSpace(token[0]) {
      LeadGrows(token[1..], c);
      assert (token + [c])[1..] == token[1..] + [c];
    }
  }

  lemma OddTokenGrows(token: string, c: char)
    requires OddToken(token)
    ensures OddToken(token + [c])
  {
    LeadGrows(token, c);
  }

  lemma BadKeyStays(keys: seq<string>, more: seq<string>)
    requires HasBadKey(keys) || HasBadKey(more)
    ensures HasBadKey(keys + more)
  {
    hide IsIdentifier;
    if i :| 0 <= i < |keys| && !IsIdentifier(keys[i]) {
      assert (keys + more)[i] == keys[i];
    } else {
      var j :| 0 <= j < |more| && !IsIdentifier(more[j]);
      assert (keys + more)[|keys| + j] == more[j];
    }
  }

  lemma FlushDooms(s: InnerState)
    requires Doomed(s) && s.depth == 0 && !s.inValue
    ensures HasBadKey(Flushed(s).keys)
  {
    hide IsIdentifier, Trim, OddToken;
    if HasBadKey(s.keys) {
      BadKeyStays(s.keys, [Trim(s.token)]);
    } else {
      OddTokenTrims(s.token);
      assert !IsIdentifier([Trim(s.token)][0]);
      BadKeyStays(s.keys, [Trim(s.token)]);
    }
  }

  lemma DoomedMove(text: string, s: InnerState)
    requires text != "" && Doomed(s)
    ensures Doomed(Inner(text, s))
    ensures Inner(text, s).state == Lex(text, s.state).state
    ensures Inner(text, s).depth == s.depth + Turn(text, s.state)
  {
    hide HasBadKey, OddToken, Lex, Trim;
    if OddToken(s.token) {
      OddTokenGrows(s.token, text[0]);
    }
    if s.depth == 0 && !s.inValue {
      FlushDooms(s);
    }
  }

  lemma {:induction false} DoomedScan(text: string, s: InnerState)
    requires Doomed(s) && EndDepth(text, s.state, s.depth) == 0
    ensures HasBadKey(Collect(text, s))
    decreases |text|
  {
    hide HasBadKey, OddToken, Lex, Inner, Turn;
    if text == "" {
      if !s.inValue {
        FlushDooms(s);
      }
    } else {
      DoomedMove(text, s);
      DoomedScan(From(text, Lex(text, s.state).used), Inner(text, s));
    }
  }

  /** The first entries of an object, each with its comma. */
  function PrintEntries(entries: seq<Entry>): string {
    if entries == [] then "" else PrintEntry(entries[0]) + ("," + PrintEntries(entries[1..]))
  }

  lemma {:induction false} InnerEntries(entries: seq<Entry>, rest: string, keys: seq<string>)
    returns (read: seq<string>)
    requires forall i :: 0 <= i < |entries| ==> EntryOk(entries[i])
    ensures Collect(PrintEntries(entries) + rest, Between(keys)) == Collect(rest, Between(read))
    decreases |entries|
  {
    hide Collect, PrintEntry, EntryOk, Inner, AfterEntry;
    if entries == [] {
      assert PrintEntries(entries) + rest == rest;
      return keys;
    }
    var more := PrintEntries(entries[1..]) + rest;
    InnerEntry(entries[0], "," + more, keys);
    AfterEntryFlushes(entries[0], keys);
    InnerComma(more, AfterEntry(entries[0], keys));
    assert PrintEntries(entries) + rest == PrintEntry(entries[0]) + ("," + more);
    read := InnerEntries(entries[1..], rest, keys + IdentifierKey(entries[0]));
  }

  lemma OddTokenStarts(blanks: string, c: char)
    requires AllSpaces(blanks) && IsOddStart(c)
    ensures OddToken(blanks + [c])
  {
    hide IsSpace;
    var token := blanks + [c];
    assert forall i :: 0 <= i < |blanks| ==> token[i] == blanks[i];
    assert token[|blanks|] == c;
  }

  /**
   An object in which some entry begins with anything but an identifier, a
   string or a comment is refused, whatever follows, as long as the brackets
   from that entry on balance.
  */
  lemma OddEntryIsRefused(text: string, p: nat, entries: seq<Entry>, t: Trivia, c: char, rest: string)
    requires forall i :: 0 <= i < |entries| ==> EntryOk(entries[i])
    requires TriviaOk(t) && IsOddStart(c) && EndDepth([c] + rest, Code, 0) == 0
    requires ArgumentText(text, p).Some?
    requires Trim(ArgumentText(text, p).value)
          == "{" + (PrintEntries(entries) + (PrintTrivia(t) + ([c] + rest))) + "}"
    ensures var r := ReadCallOptionKeys(text, p);
            r.Unreadable? && r.reason.UnreadableKey? && !IsIdentifier(r.reason.key)
  {
    hide Collect, CloseIndex, Trim, PrintEntries, PrintTrivia, TriviaOk, EntryOk, IsOddStart, BlanksOf, IsIdentifier,
      EndDepth;
    var body := PrintEntries(entries) + (PrintTrivia(t) + ([c] + rest));
    var trimmed := "{" + body + "}";
    assert trimmed[1..|trimmed| - 1] == body;
    var read := InnerEntries(entries, PrintTrivia(t) + ([c] + rest), []);
    InnerTrivia(t, [c] + rest, Between(read));
    OddScan(BlanksOf(t), c, rest, Between(read).(token := "" + BlanksOf(t)));
    BadKeyFound(Collect(body, INNER_START));
  }

  lemma OddScan(blanks: string, c: char, rest: string, s: InnerState)
    requires AllSpaces(blanks) && IsOddStart(c) && EndDepth([c] + rest, Code, 0) == 0
    requires s == InnerState(Code, 0, false, "" + blanks, s.keys)
    ensures HasBadKey(Collect([c] + rest, s))
  {
    hide Collect, IsSpace, HasBadKey, StartsIdentifier, Flushed;
    InnerChar(c, rest, s);
    OddTokenStarts(blanks, c);
    assert "" + blanks + [c] == blanks + [c];
    assert From([c] + rest, 1) == rest;
    DoomedScan(rest, Inner([c], s));
  }

  lemma {:induction false} BadKeyFound(keys: seq<string>)
    requires HasBadKey(keys)
    ensures FirstUnreadable(keys).Some? && !IsIdentifier(FirstUnreadable(keys).value)
  {
    hide IsIdentifier;
    if IsIdentifier(keys[0]) {
      BadKeyFound(keys[1..]);
    }
  }
}
