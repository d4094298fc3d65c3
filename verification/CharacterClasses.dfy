/** The classes of characters, each spelled out where the program names it by a pattern or a library function. */
module CharacterClasses {
  import opened AccessibleNodes
  import opened OptionScanner
  import opened Text
  import opened Wrappers
  import opened WindowsArguments

  const DIGITS := "0123456789"

  predicate IsLetter(c: char) {
    'a' <= c <= 'z' || 'A' <= c <= 'Z'
  }

  /** The blanks beyond ASCII that all the libraries agree on. */
  const WIDE_BLANKS :=
    "\U{A0}\U{1680}\U{2000}\U{2001}\U{2002}\U{2003}\U{2004}\U{2005}\U{2006}\U{2007}\U{2008}\U{2009}\U{200A}"
    + "\U{2028}\U{2029}\U{202F}\U{205F}\U{3000}"

  lemma LettersAndDigits(c: char)
    ensures IsDigit(c) <==> c in DIGITS
    ensures IsAlphanumeric(c) <==> IsLetter(c) || c in DIGITS
  {
  }

  lemma WideBlanks(c: char)
    ensures c in WIDE_BLANKS <==>
            || c == '\U{A0}' || c == '\U{1680}' || '\U{2000}' <= c <= '\U{200A}' || c == '\U{2028}' || c == '\U{2029}'
            || c == '\U{202F}' || c == '\U{205F}' || c == '\U{3000}'
  {
  }

  /** White space in a JavaScript pattern, which trimming takes off too. */
  lemma SpacesOfScript(c: char)
    ensures IsSpace(c) <==> c in "\t\n\U{B}\U{C}\r " || c in WIDE_BLANKS || c == '\U{FEFF}'
  {
    WideBlanks(c);
  }

  /** What Python's `strip` and `split` take for blanks. */
  lemma SpacesOfPython(c: char)
    ensures IsBlank(c) <==>
            c in "\t\n\U{B}\U{C}\r \U{1C}\U{1D}\U{1E}\U{1F}" || c == '\U{85}' || c in WIDE_BLANKS
  {
    WideBlanks(c);
  }

  /** What .NET takes for white space. */
  lemma SpacesOfNet(c: char)
    ensures IsWhiteSpace(c) <==> c in "\t\n\U{B}\U{C}\r " || c == '\U{85}' || c in WIDE_BLANKS
  {
    WideBlanks(c);
  }

  /** The launcher quotes exactly the arguments that are empty or hold white space or a double quote. */
  lemma QuotedExactly(value: string)
    ensures Quoted(value) != value <==>
            value == "" || exists i :: 0 <= i < |value| && (value[i] == '"' || IsWhiteSpace(value[i]))
  {
    hide IsWhiteSpace;
    BodyIsLonger(value, 0);
  }

  lemma {:induction false} BodyIsLonger(value: string, pending: nat)
    ensures |Body(value, pending)| > |value| + pending
    decreases |value|
  {
    if value == "" {
    } else if value[0] == '\\' {
      BodyIsLonger(value[1..], pending + 1);
    } else {
      BodyIsLonger(value[1..], 0);
    }
  }

  /** An option key is readable when it is made of letters, digits, underscores and dollar signs, no digit first. */
  lemma IdentifierExactly(key: string)
    ensures IsIdentifier(key) <==>
            && key != "" && key[0] !in DIGITS
            && forall i :: 0 <= i < |key| ==> IsLetter(key[i]) || key[i] in DIGITS || key[i] in "_$"
  {
    forall c: char
      ensures StartsIdentifier(c) <==> IsLetter(c) || c in "_$"
      ensures ContinuesIdentifier(c) <==> IsLetter(c) || c in DIGITS || c in "_$"
      ensures c in DIGITS ==> !IsLetter(c) && c !in "_$"
    {
      IdentifierCharacters(c);
    }
    hide StartsIdentifier, ContinuesIdentifier;
  }

  lemma IdentifierCharacters(c: char)
    ensures StartsIdentifier(c) <==> IsLetter(c) || c in "_$"
    ensures ContinuesIdentifier(c) <==> IsLetter(c) || c in DIGITS || c in "_$"
    ensures c in DIGITS ==> !IsLetter(c) && c !in "_$"
  {
    LettersAndDigits(c);
  }

  /** An argument list that begins with a closing bracket never closes. */
  lemma StrayClosingIsRefused(text: string, p: nat)
    requires p < |text| && Closes(text[p])
    ensures ReadCallOptionKeys(text, p) == Unreadable(NeverCloses)
  {
    hide Trim, Collect;
    assert From(text, p)[0] == text[p];
  }
}
