/** The iOS release version: reading, comparing and bumping versions past the closed ones. */
module ReleaseVersion {
  import opened Numerals
  import opened Text
  import opened Wrappers

  // ---- Versions ----

  datatype Version = Version(major: nat, minor: nat, patch: nat)

  /** Precedence by section 11 of Semantic Versioning 2.0.0: major, minor, patch, numerically. */
  predicate Below(v: Version, w: Version) {
    || v.major < w.major
    || (v.major == w.major && (v.minor < w.minor || (v.minor == w.minor && v.patch < w.patch)))
  }

  function VersionText(v: Version): string {
    Decimal(v.major) + ("." + (Decimal(v.minor) + ("." + Decimal(v.patch))))
  }

  predicate IsBlank(c: char) {
    '\t' <= c <= '\r' || c == ' ' || c == '\0'
  }

  function StripEnd(s: string): string {
    if s == "" || !IsBlank(s[|s| - 1]) then s else StripEnd(s[..|s| - 1])
  }

  /** Ruby's `strip`. */
  function Strip(s: string): string {
    if s == "" || !IsBlank(s[0]) then StripEnd(s) else Strip(s[1..])
  }

  function TakeDot(s: string): Option<string> {
    if s != "" && s[0] == '.' then Some(s[1..]) else None
  }

  /** A match of the pattern: three runs of digits with dots between them. */
  function ParseExact(s: string): Option<Version> {
    match TakeNumber(s)
    case None => None
    case Some((major, afterMajor)) =>
      match TakeDot(afterMajor)
      case None => None
      case Some(second) =>
        match TakeNumber(second)
        case None => None
        case Some((minor, afterMinor)) =>
          match TakeDot(afterMinor)
          case None => None
          case Some(third) =>
            match TakeNumber(third)
            case Some((patch, "")) => Some(Version(major, minor, patch))
            case _ => None
  }

  function Parse(version: string): Option<Version> {
    ParseExact(Strip(version))
  }

  lemma NothingToStrip(s: string)
    requires s != "" && IsDigit(s[0]) && IsDigit(s[|s| - 1])
    ensures Strip(s) == s
  {
  }

  /** Numbers survive printing and parsing. */
  lemma ParsePrinted(v: Version)
    ensures Parse(VersionText(v)) == Some(v)
  {
    hide Decimal, TakeNumber, Strip;
    var third := Decimal(v.patch);
    var second := Decimal(v.minor) + ("." + third);
    var s := VersionText(v);
    assert s == Decimal(v.major) + ("." + second);
    assert s[0] == Decimal(v.major)[0] && s[|s| - 1] == third[|third| - 1];
    NothingToStrip(s);
    TakeDecimal(v.major, "." + second);
    TakeDecimal(v.minor, "." + third);
    TakeDecimal(v.patch, "");
    assert third + "" == third;
    assert ("." + second)[1..] == second && ("." + third)[1..] == third;
  }

  // ---- Closed versions ----

  /** `bump_patch`, or None where it raises an error. */
  function BumpPatch(version: string): Option<string> {
    match Parse(version)
    case None => None
    case Some(v) => Some(VersionText(v.(patch := v.patch + 1)))
  }

  function ParseOptional(version: Option<string>): Option<Version> {
    if version.None? then None else Parse(version.value)
  }

  /** `closed_train?` */
  predicate ClosedTrain(version: string, highestClosed: Option<string>) {
    var candidate, ceiling := Parse(version), ParseOptional(highestClosed);
    candidate.Some? && ceiling.Some? && !Below(ceiling.value, candidate.value)
  }

  /** `max_version`: the first highest of the versions that are semver, stripped. */
  function MaxVersion(versions: seq<string>): Option<string> {
    if versions == [] then None
    else
      var before := MaxVersion(versions[..|versions| - 1]);
      var last := Strip(versions[|versions| - 1]);
      if Parse(last).None? then before
      else if before.Some? && Parse(before.value).Some? && !Below(Parse(before.value).value, Parse(last).value)
      then before
      else Some(last)
  }

  lemma {:induction false} StripEndAgain(s: string)
    ensures StripEnd(StripEnd(s)) == StripEnd(s)
    ensures StripEnd(s) <= s
    decreases |s|
  {
    if s != "" && IsBlank(s[|s| - 1]) {
      StripEndAgain(s[..|s| - 1]);
    }
  }

  lemma {:induction false} StripAgain(s: string)
    ensures Strip(Strip(s)) == Strip(s)
    decreases |s|
  {
    if s != "" && IsBlank(s[0]) {
      StripAgain(s[1..]);
    } else {
      StripEndAgain(s);
      assert StripEnd(s) != "" ==> StripEnd(s)[0] == s[0];
    }
  }

  /** Entry `i`, stripped, is `text`, and every semver entry before it is below it. */
  predicate IsFirstHighest(versions: seq<string>, i: nat, text: string) {
    && i < |versions| && Strip(versions[i]) == text && Parse(text).Some?
    && forall j :: 0 <= j < i && Parse(versions[j]).Some? ==> Below(Parse(versions[j]).value, Parse(text).value)
  }

  /** What `max_version` picks is the first of the highest semver versions of the list. */
  lemma {:induction false} MaxVersionIsHighest(versions: seq<string>)
    ensures MaxVersion(versions).Some? <==> exists i :: 0 <= i < |versions| && Parse(versions[i]).Some?
    ensures MaxVersion(versions).Some? ==>
              && (exists i :: 0 <= i < |versions| && IsFirstHighest(versions, i, MaxVersion(versions).value))
              && Parse(MaxVersion(versions).value).Some?
              && forall i :: 0 <= i < |versions| && Parse(versions[i]).Some? ==>
                               !Below(Parse(MaxVersion(versions).value).value, Parse(versions[i]).value)
    decreases |versions|
  {
    hide Strip, ParseExact;
    if versions != [] {
      var n := |versions| - 1;
      var before := versions[..n];
      MaxVersionIsHighest(before);
      StripAgain(versions[n]);
      assert forall i :: 0 <= i < n ==> before[i] == versions[i];
      if MaxVersion(versions) == MaxVersion(before) && MaxVersion(before).Some? {
        var i :| 0 <= i < n && IsFirstHighest(before, i, MaxVersion(before).value);
        assert IsFirstHighest(versions, i, MaxVersion(before).value);
      } else if MaxVersion(versions).Some? {
        assert IsFirstHighest(versions, n, Strip(versions[n]));
      }
    }
  }

  // ---- Resolving the next version ----

  function Downcased(s: string): string {
    seq(|s|, i requires 0 <= i < |s| => if 'A' <= s[i] <= 'Z' then s[i] - 'A' + 'a' else s[i])
  }

  predicate Truthy(value: string) {
    Downcased(Strip(value)) in ["1", "true", "yes", "on"]
  }

  lemma {:induction false} StripEndExactly(s: string)
    ensures StripEnd(s) <= s && forall i :: |StripEnd(s)| <= i < |s| ==> IsBlank(s[i])
    ensures StripEnd(s) != "" ==> !IsBlank(StripEnd(s)[|StripEnd(s)| - 1])
    decreases |s|
  {
    if s != "" && IsBlank(s[|s| - 1]) {
      StripEndExactly(s[..|s| - 1]);
      assert forall i :: 0 <= i < |s| - 1 ==> s[..|s| - 1][i] == s[i];
    }
  }

  /** Stripping takes the blanks off both ends and nothing else: white space and the null character. */
  lemma {:induction false} StripExactly(s: string) returns (before: string, after: string)
    ensures s == before + Strip(s) + after
    ensures forall c :: c in before || c in after ==> c in "\t\n\U{B}\U{C}\r \0"
    ensures Strip(s) != "" ==> Strip(s)[0] !in "\t\n\U{B}\U{C}\r \0"
    ensures Strip(s) != "" ==> Strip(s)[|Strip(s)| - 1] !in "\t\n\U{B}\U{C}\r \0"
    decreases |s|
  {
    assert forall c: char :: IsBlank(c) <==> c in "\t\n\U{B}\U{C}\r \0";
    hide IsBlank;
    if s != "" && IsBlank(s[0]) {
      before, after := StripExactly(s[1..]);
      before := [s[0]] + before;
      assert s == [s[0]] + s[1..];
    } else {
      StripEndExactly(s);
      before, after := "", s[|StripEnd(s)|..];
    }
  }

  /** `c` is the small letter `small` in either case. */
  predicate EitherCase(c: char, small: char) {
    c == small || ('a' <= small <= 'z' && c == small - 'a' + 'A')
  }

  predicate Says(s: string, word: string) {
    |s| == |word| && forall i :: 0 <= i < |s| ==> EitherCase(s[i], word[i])
  }

  lemma SaysExactly(s: string, word: string)
    requires forall i :: 0 <= i < |word| ==> !('A' <= word[i] <= 'Z')
    ensures Says(s, word) <==> Downcased(s) == word
  {
  }

  /** The switch is on for four words, in any case and with blanks around them. */
  lemma TruthyExactly(value: string)
    ensures Truthy(value) <==>
            || Says(Strip(value), "1") || Says(Strip(value), "true")
            || Says(Strip(value), "yes") || Says(Strip(value), "on")
  {
    hide Strip, Downcased, Says;
    SaysExactly(Strip(value), "1");
    SaysExactly(Strip(value), "true");
    SaysExactly(Strip(value), "yes");
    SaysExactly(Strip(value), "on");
  }

  datatype Resolved = Release(text: string) | ArgumentError

  /** The candidate with the given patch number. */
  function Candidate(v: Version, patch: nat): string {
    VersionText(v.(patch := patch))
  }

  /** The bump loop: the least patch above the current one that is not closed. */
  ghost predicate LeastOpenPatch(v: Version, patch: nat, closed: string -> bool) {
    && patch > v.patch
    && !closed(Candidate(v, patch))
    && forall q :: v.patch < q < patch ==> closed(Candidate(v, q))
  }

  /** Whether the code gets to its loop, and whether the loop ends. */
  ghost predicate LoopEnds(requested: string, bumpPatch: string, current: string, closed: string -> bool) {
    Strip(requested) == "" && Truthy(bumpPatch) && Parse(current).Some?
    ==> exists patch :: patch > Parse(current).value.patch && !closed(Candidate(Parse(current).value, patch))
  }

  method Resolve(requested: string, bumpPatch: string, currentVersion: string, trainClosed: string -> bool)
    returns (r: Resolved)
    requires LoopEnds(requested, bumpPatch, currentVersion, trainClosed)
    ensures Strip(requested) != "" ==> r == Release(Strip(requested))
    ensures Strip(requested) == "" && !Truthy(bumpPatch) ==> r == Release(currentVersion)
    ensures Strip(requested) == "" && Truthy(bumpPatch) && Parse(currentVersion).None? ==> r == ArgumentError
    ensures Strip(requested) == "" && Truthy(bumpPatch) && Parse(currentVersion).Some? ==>
              exists patch :: LeastOpenPatch(Parse(currentVersion).value, patch, trainClosed)
                              && r == Release(Candidate(Parse(currentVersion).value, patch))
  {
    hide Strip, ParseExact, VersionText, Truthy;
    var exactVersion := Strip(requested);
    if exactVersion != "" {
      return Release(exactVersion);
    }
    if !Truthy(bumpPatch) {
      return Release(currentVersion);
    }
    var bumped := BumpPatch(currentVersion);
    if bumped.None? {
      return ArgumentError;
    }
    var candidate := bumped.value;
    ghost var v := Parse(currentVersion).value;
    ghost var enough: nat :| enough > v.patch && !trainClosed(Candidate(v, enough));
    ghost var patch := v.patch + 1;
    while trainClosed(candidate)
      invariant v.patch < patch <= enough && candidate == Candidate(v, patch)
      invariant forall q :: v.patch < q < patch ==> trainClosed(Candidate(v, q))
      decreases enough - patch
    {
      ParsePrinted(v.(patch := patch));
      bumped := BumpPatch(candidate);
      candidate := bumped.value;
      patch := patch + 1;
    }
    assert LeastOpenPatch(v, patch, trainClosed);
    r := Release(candidate);
  }

  // ---- With the closed trains of the App Store ----

  /** Whether bumping the patch alone can get past the highest closed version. */
  predicate SameTrainOrHigher(v: Version, highestClosed: Option<string>) {
    match ParseOptional(highestClosed)
    case None => true
    case Some(ceiling) => v.major > ceiling.major || (v.major == ceiling.major && v.minor >= ceiling.minor)
  }

  /** The first patch number that the bump loop can stop at. */
  function FirstOpenPatch(v: Version, highestClosed: Option<string>): nat {
    match ParseOptional(highestClosed)
    case None => v.patch + 1
    case Some(ceiling) =>
      if v.major == ceiling.major && v.minor == ceiling.minor && ceiling.patch > v.patch then ceiling.patch + 1
      else v.patch + 1
  }

  lemma CandidateClosed(v: Version, patch: nat, highestClosed: Option<string>)
    ensures ClosedTrain(Candidate(v, patch), highestClosed)
       <==> ParseOptional(highestClosed).Some? && !Below(ParseOptional(highestClosed).value, v.(patch := patch))
  {
    ParsePrinted(v.(patch := patch));
  }

  /**
   With the closed trains as the predicate the bump loop ends exactly when there
   is no semver ceiling or the current major and minor are at least the
   ceiling's; below that every patch is closed and the loop runs forever.
  */
  lemma LoopEndsExactly(v: Version, highestClosed: Option<string>)
    ensures (exists patch :: patch > v.patch && !ClosedTrain(Candidate(v, patch), highestClosed))
       <==> SameTrainOrHigher(v, highestClosed)
  {
    hide ClosedTrain, VersionText;
    forall patch: nat
      ensures ClosedTrain(Candidate(v, patch), highestClosed)
         <==> ParseOptional(highestClosed).Some? && !Below(ParseOptional(highestClosed).value, v.(patch := patch))
    {
      CandidateClosed(v, patch, highestClosed);
    }
    if SameTrainOrHigher(v, highestClosed) {
      assert !ClosedTrain(Candidate(v, FirstOpenPatch(v, highestClosed)), highestClosed);
    }
  }

  /** And then it stops at a patch that can be told without it. */
  lemma LoopStopsAt(v: Version, highestClosed: Option<string>, patch: nat)
    requires SameTrainOrHigher(v, highestClosed)
    ensures LeastOpenPatch(v, patch, version => ClosedTrain(version, highestClosed))
       <==> patch == FirstOpenPatch(v, highestClosed)
  {
    hide ClosedTrain, VersionText, Candidate;
    forall q: nat
      ensures ClosedTrain(Candidate(v, q), highestClosed)
         <==> ParseOptional(highestClosed).Some? && !Below(ParseOptional(highestClosed).value, v.(patch := q))
    {
      CandidateClosed(v, q, highestClosed);
    }
    var first := FirstOpenPatch(v, highestClosed);
    assert !ClosedTrain(Candidate(v, first), highestClosed);
    assert patch < first && patch > v.patch ==> ClosedTrain(Candidate(v, patch), highestClosed);
  }

  /**
   The bumped version is above every closed version that is semver: the loop
   compares with their maximum only, and numerically.
  */
  lemma BumpedIsAboveAllClosed(closed: seq<string>, v: Version, patch: nat, i: nat)
    requires LeastOpenPatch(v, patch, version => ClosedTrain(version, MaxVersion(closed)))
    requires i < |closed| && Parse(closed[i]).Some?
    ensures Parse(Candidate(v, patch)) == Some(v.(patch := patch))
    ensures Below(Parse(closed[i]).value, v.(patch := patch)) && Below(v, v.(patch := patch))
  {
    hide ClosedTrain, VersionText, Strip, ParseExact;
    ParsePrinted(v.(patch := patch));
    CandidateClosed(v, patch, MaxVersion(closed));
    MaxVersionIsHighest(closed);
  }
}
