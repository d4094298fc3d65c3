/**
 The key-file protocol of the mock server: any number of calls of
 `loadOrCreateMockServerKeyPair` race on one key file and its lock file.

 Every file-system operation is one atomic step of one call; steps of different
 calls interleave freely, every operation but closing may fail, reads included,
 and a call may crash between any two of its steps.
*/
module KeyFileLock {
  import opened Wrappers

  const LOCK_ATTEMPTS: nat := 50
  const RENAME_ATTEMPTS: nat := 5

  /** One invocation of the loader, by any process. */
  type Call = nat

  /** A key pair, named by the base64 text of its secret key; a file with no text holds none. */
  type Key = text: string | text != "" witness "A"

  /** What `readKeyPair` finds: every content it gives a reason for is `Unusable`. */
  datatype KeyFile = Unusable | Holds(key: Key)

  /**
   The lock file. Its creator is recorded for the proofs only: no step looks at
   more than its presence. `Leftover` was there before the run began.
   */
  datatype LockFile = Absent | Leftover | CreatedBy(call: Call)

  datatype TemporaryFile = Partial | Full(key: Key)

  datatype Outcome = Returned(key: Key) | Threw

  /** The next operation a call performs. */
  datatype Pc =
    | FirstRead
    | OpenLock(attempt: nat)
    | ReadAfterBusy(attempt: nat)
    | WinnerRead
    | CriticalRead
    | Mint
    | WriteTemporary(key: Key)
    | ChmodTemporary(key: Key)
    | RenameTemporary(key: Key, attempt: nat)
    | RemoveTemporary(outcome: Outcome)
    | CloseLock(outcome: Outcome)
    | UnlinkLock(outcome: Outcome)
    | Finished(outcome: Outcome, lockLeftBehind: bool)
    | Crashed(at: Pc)

  /** What belongs to one call: its next operation and its temporary file. */
  datatype Local = Local(pc: Pc, temporary: Option<TemporaryFile>)

  /** What all calls share. */
  datatype Shared = Shared(keyFile: KeyFile, lock: LockFile)

  datatype State = State(files: Shared, calls: map<Call, Local>)

  datatype RenameResult = Renamed | Busy | Refused

  /** An operation together with the result the operating system gives it. */
  datatype Event =
    | Begin
    | Read(ok: bool)
    | Open(faulty: bool)
    | MintKey(key: Key)
    | MintFails
    | Write(ok: bool)
    | Chmod(ok: bool)
    | Rename(result: RenameResult)
    | Remove(ok: bool)
    | Close
    | Unlink(ok: bool)
    | Crash

  datatype Step = Step(call: Call, event: Event)

  predicate Live(pc: Pc) {
    !pc.Finished? && !pc.Crashed?
  }

  /** The effect of one operation: the caller's new local state and the new shared files. */
  datatype Effect = Effect(local: Local, files: Shared)

  /** The state after `step`, or None when the call cannot perform that operation now. */
  function Next(s: State, step: Step): Option<State> {
    var c := step.call;
    if step.event.Begin? then
      if c in s.calls then None else Some(s.(calls := s.calls[c := Local(FirstRead, None)]))
    else if c !in s.calls || !Live(s.calls[c].pc) then
      None
    else
      match Operation(c, s.calls[c], s.files, step.event)
      case None => None
      case Some(effect) => Some(State(effect.files, s.calls[c := effect.local]))
  }

  function Operation(c: Call, l: Local, files: Shared, event: Event): Option<Effect> {
    match (l.pc, event)
    case (_, Crash) => Some(Effect(l.(pc := Crashed(l.pc)), files))
    case (FirstRead, Read(ok)) => Some(Effect(l.(pc := TakeOr(Seen(files, ok), OpenLock(0))), files))
    case (OpenLock(n), Open(faulty)) =>
      if faulty then Some(Effect(l.(pc := Finished(Threw, false)), files))
      else if files.lock.Absent? then Some(Effect(l.(pc := CriticalRead), files.(lock := CreatedBy(c))))
      else Some(Effect(l.(pc := ReadAfterBusy(n)), files))
    case (ReadAfterBusy(n), Read(ok)) => Some(Effect(l.(pc := TakeOr(Seen(files, ok), AfterBusy(n))), files))
    case (WinnerRead, Read(ok)) => Some(Effect(l.(pc := TakeOr(Seen(files, ok), OpenLock(LOCK_ATTEMPTS))), files))
    case (CriticalRead, Read(ok)) =>
      var seen := Seen(files, ok);
      Some(Effect(l.(pc := if seen.Holds? then CloseLock(Returned(seen.key)) else Mint), files))
    case (Mint, MintKey(key)) => Some(Effect(l.(pc := WriteTemporary(key)), files))
    case (Mint, MintFails) => Some(Effect(l.(pc := CloseLock(Threw)), files))
    case (WriteTemporary(key), Write(ok)) =>
      if ok then Some(Effect(Local(ChmodTemporary(key), Some(Full(key))), files))
      else Some(Effect(Local(RemoveTemporary(Threw), Some(Partial)), files))
    case (ChmodTemporary(key), Chmod(ok)) =>
      Some(Effect(l.(pc := if ok then RenameTemporary(key, 0) else RemoveTemporary(Threw)), files))
    case (RenameTemporary(key, n), Rename(result)) =>
      if result.Renamed? then
        Some(Effect(Local(RemoveTemporary(Returned(key)), None), files.(keyFile := Installed(l.temporary))))
      else if result.Busy? && n != RENAME_ATTEMPTS - 1 then Some(Effect(l.(pc := RenameTemporary(key, n + 1)), files))
      else Some(Effect(l.(pc := RemoveTemporary(Threw)), files))
    case (RemoveTemporary(outcome), Remove(ok)) =>
      Some(Effect(Local(CloseLock(outcome), if ok then None else l.temporary), files))
    case (CloseLock(outcome), Close) => Some(Effect(l.(pc := UnlinkLock(outcome)), files))
    case (UnlinkLock(outcome), Unlink(ok)) =>
      // The code removes whatever lock file is there: nothing checks its creator.
      Some(Effect(l.(pc := Finished(outcome, !ok)), if ok then files.(lock := Absent) else files))
    case _ => None
  }

  /** What a read of the key file finds; one that fails is given a reason like a file without a usable key. */
  function Seen(files: Shared, ok: bool): KeyFile {
    if ok then files.keyFile else Unusable
  }

  /** Return the key that was seen, or go on as `otherwise` says. */
  function TakeOr(seen: KeyFile, otherwise: Pc): Pc {
    if seen.Holds? then Finished(Returned(seen.key), false) else otherwise
  }

  /** Where a call goes on after its open number `n` found the lock file and the key file is no use. */
  function AfterBusy(n: nat): Pc {
    if n < LOCK_ATTEMPTS - 1 then OpenLock(n + 1)
    else if n == LOCK_ATTEMPTS - 1 then WinnerRead
    else Finished(Threw, false)
  }

  /** The content a rename of the temporary file puts in place of the key file. */
  function Installed(temporary: Option<TemporaryFile>): KeyFile {
    if temporary.Some? && temporary.value.Full? then Holds(temporary.value.key) else Unusable
  }

  // ---- Runs ----

  /** Any key file, with or without a stale lock file, and no call begun. */
  predicate Initial(s: State) {
    s.calls == map[] && !s.files.lock.CreatedBy?
  }

  /** A call that holds the lock fails to read a key file that holds a key, and takes it for one that does not. */
  predicate Misreads(s: State, step: Step) {
    && step.event == Read(false)
    && step.call in s.calls && s.calls[step.call].pc.CriticalRead?
    && s.files.keyFile.Holds?
  }

  /** None of the first `n` steps is such a misreading. */
  ghost predicate NoneMisreads(states: seq<State>, steps: seq<Step>, n: nat) {
    forall i {:trigger steps[i]} :: 0 <= i < n && i < |steps| && i < |states| ==> !Misreads(states[i], steps[i])
  }

  ghost predicate IsRun(states: seq<State>, steps: seq<Step>) {
    && |states| == |steps| + 1
    && Initial(states[0])
    && forall i {:trigger steps[i]} :: 0 <= i < |steps| ==> Next(states[i], steps[i]) == Some(states[i + 1])
  }

  // ---- The invariant ----

  /** The operations between creating the lock file and removing it. */
  predicate Critical(pc: Pc) {
    match pc
    case CriticalRead | Mint | WriteTemporary(_) | ChmodTemporary(_) | RenameTemporary(_, _) => true
    case RemoveTemporary(_) | CloseLock(_) | UnlinkLock(_) => true
    case Crashed(at) => Critical(at)
    case _ => false
  }

  /** Inside the critical section, crashed there, or finished without managing to unlink. */
  predicate HasLock(pc: Pc) {
    Critical(pc) || (pc.Finished? && pc.lockLeftBehind)
  }

  /** The operations of a call that has decided to replace the key file and has not done it. */
  predicate Replacing(pc: Pc) {
    pc.Mint? || pc.WriteTemporary? || pc.ChmodTemporary? || pc.RenameTemporary?
  }

  function Decided(pc: Pc): Option<Outcome> {
    match pc
    case RemoveTemporary(o) => Some(o)
    case CloseLock(o) => Some(o)
    case UnlinkLock(o) => Some(o)
    case Finished(o, _) => Some(o)
    case _ => None
  }

  /** What holds of each call, given the shared files. */
  predicate CallInv(c: Call, l: Local, files: Shared) {
    && (HasLock(l.pc) ==> files.lock == CreatedBy(c))
    && (l.pc.ChmodTemporary? || l.pc.RenameTemporary? ==> l.temporary == Some(Full(l.pc.key)))
    && (l.pc.OpenLock? || l.pc.ReadAfterBusy? ==> l.pc.attempt <= LOCK_ATTEMPTS)
    && (l.pc.RenameTemporary? ==> l.pc.attempt < RENAME_ATTEMPTS)
  }

  /** What holds besides as long as no key is misread. */
  predicate KeyInv(l: Local, files: Shared) {
    && (Replacing(l.pc) ==> files.keyFile.Unusable?)
    && (Decided(l.pc).Some? && Decided(l.pc).value.Returned? ==> files.keyFile == Holds(Decided(l.pc).value.key))
  }

  ghost predicate Inv(s: State) {
    && (s.files.lock.CreatedBy? ==> s.files.lock.call in s.calls && HasLock(s.calls[s.files.lock.call].pc))
    && forall c :: c in s.calls ==> CallInv(c, s.calls[c], s.files)
  }

  ghost predicate KeysInv(s: State) {
    forall c :: c in s.calls ==> KeyInv(s.calls[c], s.files)
  }

  /** How one operation of `c` may touch the shared files. */
  predicate Allowed(c: Call, before: Shared, after: Shared) {
    && (after.keyFile == before.keyFile || before.lock == CreatedBy(c))
    && (after.lock == before.lock
        || (before.lock.Absent? && after.lock == CreatedBy(c))
        || (before.lock == CreatedBy(c) && after.lock.Absent?))
  }

  lemma OperationKeepsCallInv(c: Call, l: Local, files: Shared, event: Event)
    requires CallInv(c, l, files) && Live(l.pc)
    requires files.lock == CreatedBy(c) ==> HasLock(l.pc)
    requires Operation(c, l, files, event).Some?
    ensures var effect := Operation(c, l, files, event).value;
            && CallInv(c, effect.local, effect.files)
            && Allowed(c, files, effect.files)
            && (effect.files.lock == CreatedBy(c) ==> HasLock(effect.local.pc))
            && (effect.files.keyFile == files.keyFile || (l.pc.RenameTemporary? && event == Rename(Renamed)))
            && (Replacing(effect.local.pc) ==> Replacing(l.pc) || l.pc.CriticalRead?)
  {
  }

  lemma OperationKeepsKeyInv(c: Call, l: Local, files: Shared, event: Event)
    requires CallInv(c, l, files) && KeyInv(l, files) && Live(l.pc)
    requires l.pc.CriticalRead? && event == Read(false) ==> files.keyFile.Unusable?
    requires Operation(c, l, files, event).Some?
    ensures var effect := Operation(c, l, files, event).value;
            && KeyInv(effect.local, effect.files)
            && (effect.files.keyFile == files.keyFile || files.keyFile.Unusable?)
  {
  }

  lemma StepKeepsInv(s: State, step: Step)
    requires Inv(s) && Next(s, step).Some?
    ensures Inv(Next(s, step).value)
  {
    hide Operation;
    var t := Next(s, step).value;
    var c := step.call;
    if step.event.Begin? {
      assert t.files == s.files;
    } else {
      assert CallInv(c, s.calls[c], s.files);
      OperationKeepsCallInv(c, s.calls[c], s.files, step.event);
    }
  }

  lemma StepKeepsKeysInv(s: State, step: Step)
    requires Inv(s) && KeysInv(s) && Next(s, step).Some? && !Misreads(s, step)
    ensures KeysInv(Next(s, step).value)
    ensures s.files.keyFile.Holds? ==> Next(s, step).value.files.keyFile == s.files.keyFile
  {
    hide Operation, Critical;
    var t := Next(s, step).value;
    var c := step.call;
    if !step.event.Begin? {
      assert CallInv(c, s.calls[c], s.files) && KeyInv(s.calls[c], s.files);
      OperationKeepsCallInv(c, s.calls[c], s.files, step.event);
      OperationKeepsKeyInv(c, s.calls[c], s.files, step.event);
      forall d | d in t.calls
        ensures KeyInv(t.calls[d], t.files)
      {
        if d != c {
          assert CallInv(d, s.calls[d], s.files) && KeyInv(s.calls[d], s.files);
          ReplacingHasLock(s.calls[d].pc);
        }
      }
    }
  }

  lemma ReplacingHasLock(pc: Pc)
    ensures Replacing(pc) ==> HasLock(pc)
  {
  }

  /**
   In every run; and until a key is misread whoever is about to replace the key
   file sees no key in it, and whoever has a key has the one in it.
  */
  lemma {:induction false} RunKeepsInv(states: seq<State>, steps: seq<Step>, i: nat)
    requires IsRun(states, steps) && i < |states|
    ensures Inv(states[i])
    ensures NoneMisreads(states, steps, i) ==> KeysInv(states[i])
  {
    hide Inv, KeysInv, Misreads;
    if i == 0 {
      assert Inv(states[0]) && KeysInv(states[0]) by {
        StartsWell(states[0]);
      }
    } else {
      RunKeepsInv(states, steps, i - 1);
      assert Next(states[i - 1], steps[i - 1]) == Some(states[i]);
      StepKeepsInv(states[i - 1], steps[i - 1]);
      if NoneMisreads(states, steps, i) {
        StepKeepsKeysInv(states[i - 1], steps[i - 1]);
      }
    }
  }

  lemma StartsWell(s: State)
    requires Initial(s)
    ensures Inv(s) && KeysInv(s)
  {
  }

  // ---- Agreement ----

  /** Once the key file holds a key it holds that key for the rest of the run, or some call misreads it. */
  lemma {:induction false} KeyFileWrittenOnce(states: seq<State>, steps: seq<Step>, i: nat, j: nat)
    requires IsRun(states, steps) && i <= j < |states|
    requires states[i].files.keyFile.Holds?
    ensures NoneMisreads(states, steps, j) ==> states[j].files.keyFile == states[i].files.keyFile
    decreases j
  {
    hide Inv, KeysInv, Misreads, Next;
    if i < j && NoneMisreads(states, steps, j) {
      KeyFileWrittenOnce(states, steps, i, j - 1);
      RunKeepsInv(states, steps, j - 1);
      assert Next(states[j - 1], steps[j - 1]) == Some(states[j]);
      StepKeepsKeysInv(states[j - 1], steps[j - 1]);
    }
  }

  predicate HasReturned(s: State, c: Call, key: Key) {
    c in s.calls && s.calls[c].pc.Finished? && s.calls[c].pc.outcome == Returned(key)
  }

  /** A returned key is the key the file holds, then and as long as no key is misread. */
  lemma ReturnedKeyIsTheFilesKey(states: seq<State>, steps: seq<Step>, i: nat, j: nat, c: Call, key: Key)
    requires IsRun(states, steps) && i <= j < |states|
    requires HasReturned(states[i], c, key)
    ensures NoneMisreads(states, steps, j) ==> states[j].files.keyFile == Holds(key)
  {
    hide Next, Misreads;
    if NoneMisreads(states, steps, j) {
      RunKeepsInv(states, steps, i);
      assert KeyInv(states[i].calls[c], states[i].files);
      KeyFileWrittenOnce(states, steps, i, j);
    }
  }

  /** Two calls that return, at any two moments of a run, return the same key unless one was misread before. */
  lemma AllReturnedKeysAgree(
    states: seq<State>, steps: seq<Step>, i: nat, j: nat, c: Call, d: Call, k: Key, l: Key)
    requires IsRun(states, steps) && i <= j < |states|
    requires HasReturned(states[i], c, k) && HasReturned(states[j], d, l)
    ensures k == l || exists m :: 0 <= m < j && Misreads(states[m], steps[m])
  {
    hide Next, Misreads, HasReturned;
    ReturnedKeyIsTheFilesKey(states, steps, i, j, c, k);
    ReturnedKeyIsTheFilesKey(states, steps, j, j, d, l);
  }

  /** A call that replaces the key file has read it while holding the lock, and it is still what it was then. */
  lemma {:induction false} ReplacingFollowsRead(states: seq<State>, steps: seq<Step>, i: nat, c: Call) returns (r: nat)
    requires IsRun(states, steps) && i < |states|
    requires c in states[i].calls && Replacing(states[i].calls[c].pc)
    ensures r < i && steps[r].call == c && steps[r].event.Read?
    ensures c in states[r].calls && states[r].calls[c].pc.CriticalRead?
    ensures states[r].files.keyFile == states[i].files.keyFile
    ensures states[i].files.keyFile.Holds? <==> Misreads(states[r], steps[r])
  {
    var s, step := states[i - 1], steps[i - 1];
    RunKeepsInv(states, steps, i - 1);
    assert Next(s, step) == Some(states[i]);
    assert c in s.calls && CallInv(c, s.calls[c], s.files) by {
      assert step.event.Begin? ==> c != step.call;
    }
    if step.call == c && s.calls[c].pc.CriticalRead? {
      r := i - 1;
    } else {
      ReplacingGoesOn(s, step, c);
      r := ReplacingFollowsRead(states, steps, i - 1, c);
    }
  }

  lemma ReplacingGoesOn(s: State, step: Step, c: Call)
    requires Inv(s) && Next(s, step).Some? && c in s.calls
    requires Replacing(Next(s, step).value.calls[c].pc)
    requires step.call == c ==> !s.calls[c].pc.CriticalRead?
    ensures Replacing(s.calls[c].pc)
    ensures Next(s, step).value.files.keyFile == s.files.keyFile
  {
    assert CallInv(c, s.calls[c], s.files);
    ReplacingHasLock(s.calls[c].pc);
    if !step.event.Begin? {
      OperationKeepsCallInv(step.call, s.calls[step.call], s.files, step.event);
    }
  }

  /**
   In every run, whatever fails: the key file changes by renames only; a rename
   installs the key its caller minted; and it replaces a key exactly when that
   caller had misread the very key it replaces.
  */
  lemma RenamesReplaceMisreadKeys(states: seq<State>, steps: seq<Step>, i: nat) returns (r: nat)
    requires IsRun(states, steps) && i < |steps|
    ensures steps[i].event != Rename(Renamed) ==> states[i + 1].files.keyFile == states[i].files.keyFile
    ensures steps[i].event == Rename(Renamed) ==>
              var c := steps[i].call;
              && c in states[i].calls && states[i].calls[c].pc.RenameTemporary?
              && states[i + 1].files.keyFile == Holds(states[i].calls[c].pc.key)
              && r < i && steps[r].call == c && states[r].files.keyFile == states[i].files.keyFile
              && c in states[r].calls && states[r].calls[c].pc.CriticalRead?
              && (states[i].files.keyFile.Holds? <==> Misreads(states[r], steps[r]))
  {
    RunKeepsInv(states, steps, i);
    assert Next(states[i], steps[i]) == Some(states[i + 1]);
    r := 0;
    var c := steps[i].call;
    if !steps[i].event.Begin? {
      assert CallInv(c, states[i].calls[c], states[i].files);
      OperationKeepsCallInv(c, states[i].calls[c], states[i].files, steps[i].event);
      if steps[i].event == Rename(Renamed) {
        r := ReplacingFollowsRead(states, steps, i, c);
      }
    }
  }

  /** Unless a key is misread a run has at most one successful rename, and it replaces no key. */
  lemma RenamesInstallOnlyOnce(states: seq<State>, steps: seq<Step>, i: nat, j: nat)
    requires IsRun(states, steps) && i <= j < |steps|
    requires steps[i].event == Rename(Renamed) && steps[j].event == Rename(Renamed)
    ensures || (i == j && states[i].files.keyFile.Unusable?)
            || exists m :: 0 <= m < j && Misreads(states[m], steps[m])
  {
    hide Next, Misreads;
    if NoneMisreads(states, steps, j) {
      var r := RenamesReplaceMisreadKeys(states, steps, i);
      var q := RenamesReplaceMisreadKeys(states, steps, j);
      if i < j {
        KeyFileWrittenOnce(states, steps, i + 1, j);
      }
    }
  }

  /** A state in which `c` has returned the key it found and `d` has got somewhere. */
  function Afterwards(c: Call, key: Key, d: Call, l: Local, files: Shared): State {
    State(files, map[c := Local(Finished(Returned(key), false), None), d := l])
  }

  lemma AnotherStep(c: Call, key: Key, d: Call, l: Local, files: Shared, event: Event)
    requires c != d && Live(l.pc) && !event.Begin? && Operation(d, l, files, event).Some?
    ensures var effect := Operation(d, l, files, event).value;
            Next(Afterwards(c, key, d, l, files), Step(d, event))
            == Some(Afterwards(c, key, d, effect.local, effect.files))
  {
    hide Operation;
    var effect := Operation(d, l, files, event).value;
    assert map[c := Local(Finished(Returned(key), false), None), d := l][d := effect.local]
        == map[c := Local(Finished(Returned(key), false), None), d := effect.local];
  }

  /** The operations of a call that fails to read the file before it has the lock, and misreads it after. */
  function MisreadingEvents(minted: Key): seq<Event> {
    [Read(false), Open(false), Read(false), MintKey(minted), Write(true), Chmod(true), Rename(Renamed), Remove(true),
     Close, Unlink(true)]
  }

  function Misreading(d: Call, key: Key, minted: Key): seq<Effect> {
    var locked, changed := Shared(Holds(key), CreatedBy(d)), Shared(Holds(minted), CreatedBy(d));
    [Effect(Local(FirstRead, None), Shared(Holds(key), Absent)),
     Effect(Local(OpenLock(0), None), Shared(Holds(key), Absent)),
     Effect(Local(CriticalRead, None), locked),
     Effect(Local(Mint, None), locked),
     Effect(Local(WriteTemporary(minted), None), locked),
     Effect(Local(ChmodTemporary(minted), Some(Full(minted))), locked),
     Effect(Local(RenameTemporary(minted, 0), Some(Full(minted))), locked),
     Effect(Local(RemoveTemporary(Returned(minted)), None), changed),
     Effect(Local(CloseLock(Returned(minted)), None), changed),
     Effect(Local(UnlinkLock(Returned(minted)), None), changed),
     Effect(Local(Finished(Returned(minted), false), None), Shared(Holds(minted), Absent))]
  }

  lemma MisreadingGoesOn(d: Call, key: Key, minted: Key, i: nat)
    requires i < 10
    ensures var l, event := Misreading(d, key, minted)[i], MisreadingEvents(minted)[i];
            && Operation(d, l.local, l.files, event) == Some(Misreading(d, key, minted)[i + 1])
            && Live(l.local.pc) && !event.Begin?
  {
  }

  /** One call finds the key of the file; then another misreads it. */
  function MisreadingSteps(c: Call, d: Call, minted: Key): seq<Step> {
    [Step(c, Begin), Step(c, Read(true)), Step(d, Begin)]
    + seq(10, i requires 0 <= i < 10 => Step(d, MisreadingEvents(minted)[i]))
  }

  function MisreadingStates(c: Call, key: Key, d: Call, minted: Key): seq<State> {
    var free := Shared(Holds(key), Absent);
    [State(free, map[]),
     State(free, map[c := Local(FirstRead, None)]),
     State(free, map[c := Local(Finished(Returned(key), false), None)])]
    + seq(11, i requires 0 <= i < 11 =>
        Afterwards(c, key, d, Misreading(d, key, minted)[i].local, Misreading(d, key, minted)[i].files))
  }

  lemma MisreadingBegins(c: Call, key: Key, d: Call, minted: Key, i: nat)
    requires c != d && i < 3
    ensures Next(MisreadingStates(c, key, d, minted)[i], MisreadingSteps(c, d, minted)[i])
         == Some(MisreadingStates(c, key, d, minted)[i + 1])
  {
    var states := MisreadingStates(c, key, d, minted);
    assert states[0].calls[c := Local(FirstRead, None)] == states[1].calls;
    assert states[1].calls[c := Local(Finished(Returned(key), false), None)] == states[2].calls;
    assert states[2].calls[d := Local(FirstRead, None)] == states[3].calls;
  }

  /** A run in which a misread key is replaced, so that two calls return different keys. */
  lemma MisreadKeyIsLost(c: Call, key: Key, d: Call, minted: Key)
    requires c != d && key != minted
    ensures var states, steps := MisreadingStates(c, key, d, minted), MisreadingSteps(c, d, minted);
            && IsRun(states, steps) && Misreads(states[5], steps[5])
            && HasReturned(states[13], c, key) && HasReturned(states[13], d, minted)
  {
    var states, steps := MisreadingStates(c, key, d, minted), MisreadingSteps(c, d, minted);
    assert steps[5] == Step(d, MisreadingEvents(minted)[2]) && MisreadingEvents(minted)[2] == Read(false);
    assert states[5] == Afterwards(c, key, d, Local(CriticalRead, None), Shared(Holds(key), CreatedBy(d)));
    forall i | 0 <= i < |steps|
      ensures Next(states[i], steps[i]) == Some(states[i + 1])
    {
      hide Next, Operation, Misreading, MisreadingEvents, Afterwards;
      if i < 3 {
        MisreadingBegins(c, key, d, minted, i);
      } else {
        var l := Misreading(d, key, minted)[i - 3];
        MisreadingGoesOn(d, key, minted, i - 3);
        AnotherStep(c, key, d, l.local, l.files, MisreadingEvents(minted)[i - 3]);
      }
    }
  }

  // ---- Mutual exclusion ----

  lemma MutualExclusion(states: seq<State>, steps: seq<Step>, i: nat, c: Call, d: Call)
    requires IsRun(states, steps) && i < |states|
    requires c in states[i].calls && Critical(states[i].calls[c].pc)
    requires d in states[i].calls && Critical(states[i].calls[d].pc)
    ensures c == d
  {
    RunKeepsInv(states, steps, i);
    assert CallInv(c, states[i].calls[c], states[i].files) && CallInv(d, states[i].calls[d], states[i].files);
  }

  /**
   A lock file made during the run is there exactly as long as its creator is
   between opening and unlinking, crashed there, or finished without managing
   to unlink it; and there is never a second such call.
   */
  lemma LockFileMeansOneHolder(states: seq<State>, steps: seq<Step>, i: nat, c: Call)
    requires IsRun(states, steps) && i < |states|
    ensures states[i].files.lock == CreatedBy(c)
       <==> c in states[i].calls && HasLock(states[i].calls[c].pc)
  {
    RunKeepsInv(states, steps, i);
    if c in states[i].calls {
      assert CallInv(c, states[i].calls[c], states[i].files);
    }
  }

  /** Unlinking looks at no name, yet the file it removes is always the caller's own. */
  lemma OnlyTheCreatorUnlinks(states: seq<State>, steps: seq<Step>, i: nat)
    requires IsRun(states, steps) && i < |steps|
    ensures states[i].files.lock != states[i + 1].files.lock && !states[i].files.lock.Absent?
            ==> steps[i].event == Unlink(true) && states[i].files.lock == CreatedBy(steps[i].call)
    ensures steps[i].event == Unlink(true) ==> states[i].files.lock == CreatedBy(steps[i].call)
  {
    RunKeepsInv(states, steps, i);
    assert Next(states[i], steps[i]) == Some(states[i + 1]);
    if steps[i].call in states[i].calls {
      assert CallInv(steps[i].call, states[i].calls[steps[i].call], states[i].files);
    }
  }

  // ---- Bounded waiting ----

  /** Exclusive opens that a call can still perform. */
  function OpensLeft(pc: Pc): nat {
    match pc
    case FirstRead => LOCK_ATTEMPTS + 1
    case OpenLock(n) => if n <= LOCK_ATTEMPTS then LOCK_ATTEMPTS + 1 - n else 0
    case ReadAfterBusy(n) => if n < LOCK_ATTEMPTS then LOCK_ATTEMPTS - n else 0
    case WinnerRead => 1
    case _ => 0
  }

  /** An upper bound on the operations that a call can still perform. */
  function OperationsLeft(pc: Pc): nat {
    match pc
    case FirstRead => 2 * LOCK_ATTEMPTS + 17
    case OpenLock(n) => if n < LOCK_ATTEMPTS then 2 * (LOCK_ATTEMPTS - n) + 16 else 15
    case ReadAfterBusy(n) => if n < LOCK_ATTEMPTS then 2 * (LOCK_ATTEMPTS - n) + 15 else 14
    case WinnerRead => 16
    case CriticalRead => 13
    case Mint => 12
    case WriteTemporary(_) => 11
    case ChmodTemporary(_) => 10
    case RenameTemporary(_, n) => if n < RENAME_ATTEMPTS then 9 - n else 4
    case RemoveTemporary(_) => 3
    case CloseLock(_) => 2
    case UnlinkLock(_) => 1
    case Finished(_, _) => 0
    case Crashed(_) => 0
  }

  /** How many of the steps are exclusive opens by `c`. */
  function Opens(steps: seq<Step>, c: Call): nat {
    if steps == [] then 0
    else Opens(steps[..|steps| - 1], c)
         + if steps[|steps| - 1].call == c && steps[|steps| - 1].event.Open? then 1 else 0
  }

  /** How many of the steps are operations of `c`, its beginning not counted. */
  function Operations(steps: seq<Step>, c: Call): nat {
    if steps == [] then 0
    else Operations(steps[..|steps| - 1], c)
         + if steps[|steps| - 1].call == c && !steps[|steps| - 1].event.Begin? then 1 else 0
  }

  lemma OperationUsesWork(c: Call, l: Local, files: Shared, event: Event)
    requires CallInv(c, l, files) && Live(l.pc)
    requires Operation(c, l, files, event).Some?
    ensures var pc := Operation(c, l, files, event).value.local.pc;
            && OperationsLeft(pc) < OperationsLeft(l.pc)
            && OpensLeft(pc) + (if event.Open? then 1 else 0) <= OpensLeft(l.pc)
  {
  }

  lemma {:induction false} WorkIsBounded(states: seq<State>, steps: seq<Step>, i: nat, c: Call)
    requires IsRun(states, steps) && i < |states|
    ensures c !in states[i].calls ==> Opens(steps[..i], c) == Operations(steps[..i], c) == 0
    ensures c in states[i].calls
            ==> && Opens(steps[..i], c) + OpensLeft(states[i].calls[c].pc) <= LOCK_ATTEMPTS + 1
                && Operations(steps[..i], c) + OperationsLeft(states[i].calls[c].pc) <= 2 * LOCK_ATTEMPTS + 17
  {
    if i > 0 {
      WorkIsBounded(states, steps, i - 1, c);
      RunKeepsInv(states, steps, i - 1);
      assert Next(states[i - 1], steps[i - 1]) == Some(states[i]);
      assert steps[..i][..i - 1] == steps[..i - 1];
      if c in states[i - 1].calls {
        var l := states[i - 1].calls[c];
        assert CallInv(c, l, states[i - 1].files);
        if steps[i - 1].call == c {
          OperationUsesWork(c, l, states[i - 1].files, steps[i - 1].event);
        }
      }
    }
  }

  /** In every run, however calls interleave, each call makes at most 51 exclusive opens and 117 operations. */
  lemma BoundedWaiting(states: seq<State>, steps: seq<Step>, c: Call)
    requires IsRun(states, steps)
    ensures Opens(steps, c) <= 51
    ensures Operations(steps, c) <= 117
  {
    WorkIsBounded(states, steps, |steps|, c);
    assert steps[..|steps|] == steps;
  }

  /** The event with which a call can always go on, whatever the others have done; `key` is what it would mint. */
  function WayOn(pc: Pc, key: Key): Event {
    match pc
    case FirstRead | ReadAfterBusy(_) | WinnerRead | CriticalRead => Read(true)
    case OpenLock(_) => Open(false)
    case Mint => MintKey(key)
    case WriteTemporary(_) => Write(true)
    case ChmodTemporary(_) => Chmod(true)
    case RenameTemporary(_, _) => Rename(Renamed)
    case RemoveTemporary(_) => Remove(true)
    case CloseLock(_) => Close
    case UnlinkLock(_) => Unlink(true)
    case Finished(_, _) | Crashed(_) => Begin
  }

  /**
   No call is ever blocked: it can take a step, with any key it may mint, and
   every step it takes other than crashing uses up part of its bounded work, so
   it ends with a key or an error.
   */
  lemma NoCallIsBlocked(states: seq<State>, steps: seq<Step>, i: nat, c: Call, key: Key)
    requires IsRun(states, steps) && i < |states|
    requires c in states[i].calls && Live(states[i].calls[c].pc)
    ensures Next(states[i], Step(c, WayOn(states[i].calls[c].pc, key))).Some?
    ensures forall e :: Next(states[i], Step(c, e)).Some?
              ==> OperationsLeft(Next(states[i], Step(c, e)).value.calls[c].pc) < OperationsLeft(states[i].calls[c].pc)
  {
    RunKeepsInv(states, steps, i);
    var l := states[i].calls[c];
    assert CallInv(c, l, states[i].files);
    forall e | Next(states[i], Step(c, e)).Some?
      ensures OperationsLeft(Next(states[i], Step(c, e)).value.calls[c].pc) < OperationsLeft(l.pc)
    {
      OperationUsesWork(c, l, states[i].files, e);
    }
  }

  // ---- What an undisturbed call does ----

  /** Where `c` alone gets by up to `k` operations, none of which fails, if `key` is what it mints. */
  function Alone(c: Call, l: Local, files: Shared, key: Key, k: nat): Effect
    decreases k
  {
    if k == 0 then Effect(l, files)
    else
      match Operation(c, l, files, WayOn(l.pc, key))
      case None => Effect(l, files)
      case Some(effect) => Alone(c, effect.local, effect.files, key, k - 1)
  }

  /**
   With no lock file in the way and no usable key the call installs the key it
   mints, whichever that is, returns it, and leaves neither lock nor temporary file.
   */
  lemma {:induction false} AloneMintsAndReleases(c: Call, temporary: Option<TemporaryFile>, key: Key)
    ensures Alone(c, Local(FirstRead, temporary), Shared(Unusable, Absent), key, 10)
         == Effect(Local(Finished(Returned(key), false), None), Shared(Holds(key), Absent))
  {
    var locked := Shared(Unusable, CreatedBy(c));
    assert Alone(c, Local(FirstRead, temporary), Shared(Unusable, Absent), key, 10)
        == Alone(c, Local(CriticalRead, temporary), locked, key, 8);
    assert Alone(c, Local(CriticalRead, temporary), locked, key, 8)
        == Alone(c, Local(WriteTemporary(key), temporary), locked, key, 6);
    AloneInstallsAndReleases(c, temporary, key);
  }

  lemma {:induction false} AloneInstallsAndReleases(c: Call, temporary: Option<TemporaryFile>, key: Key)
    ensures Alone(c, Local(WriteTemporary(key), temporary), Shared(Unusable, CreatedBy(c)), key, 6)
         == Effect(Local(Finished(Returned(key), false), None), Shared(Holds(key), Absent))
  {
    var locked := Shared(Unusable, CreatedBy(c));
    var installed := Shared(Holds(key), CreatedBy(c));
    assert Alone(c, Local(WriteTemporary(key), temporary), locked, key, 6)
        == Alone(c, Local(RenameTemporary(key, 0), Some(Full(key))), locked, key, 4);
    assert Alone(c, Local(RenameTemporary(key, 0), Some(Full(key))), locked, key, 4)
        == Alone(c, Local(CloseLock(Returned(key)), None), installed, key, 2);
  }

  /** Operations left to a call whose lock file never goes away, from its open number `n` on. */
  function BusyOperations(n: nat): nat
    requires n <= LOCK_ATTEMPTS
  {
    if n == LOCK_ATTEMPTS then 2 else 2 * (LOCK_ATTEMPTS - n) + 3
  }

  /** One operation, and then the others. */
  lemma AloneGoesOn(c: Call, l: Local, files: Shared, key: Key, next: Local, m: nat)
    requires Operation(c, l, files, WayOn(l.pc, key)) == Some(Effect(next, files)) && Live(l.pc)
    requires forall k :: 0 <= k < m ==> Live(Alone(c, next, files, key, k).local.pc)
    ensures Alone(c, l, files, key, m + 1) == Alone(c, next, files, key, m)
    ensures forall k :: 0 <= k < m + 1 ==> Live(Alone(c, l, files, key, k).local.pc)
  {
    hide Operation, WayOn;
    forall k | 0 <= k < m + 1
      ensures Live(Alone(c, l, files, key, k).local.pc)
    {
      if k > 0 {
        assert Alone(c, l, files, key, k) == Alone(c, next, files, key, k - 1);
      }
    }
  }

  /**
   With a lock file that never goes away and no usable key the call throws when
   it has made all its opens, 51 from the first on, and is still at work until then.
   */
  lemma {:induction false} AloneGivesUp(c: Call, l: Local, files: Shared, key: Key, n: nat)
    requires n <= LOCK_ATTEMPTS && l.pc == OpenLock(n)
    requires files.keyFile.Unusable? && !files.lock.Absent?
    ensures Alone(c, l, files, key, BusyOperations(n)) == Effect(l.(pc := Finished(Threw, false)), files)
    ensures forall k :: 0 <= k < BusyOperations(n) ==> Live(Alone(c, l, files, key, k).local.pc)
    decreases LOCK_ATTEMPTS - n
  {
    assert forall done :: Alone(c, done, files, key, 0) == Effect(done, files);
    hide Alone;
    var busy := l.(pc := ReadAfterBusy(n));
    if n < LOCK_ATTEMPTS {
      var again := l.(pc := OpenLock(n + 1));
      AloneGivesUp(c, again, files, key, n + 1);
      var k := BusyOperations(n + 1);
      if n < LOCK_ATTEMPTS - 1 {
        AloneGoesOn(c, busy, files, key, again, k);
        AloneGoesOn(c, l, files, key, busy, k + 1);
      } else {
        var winner := l.(pc := WinnerRead);
        AloneGoesOn(c, winner, files, key, again, k);
        AloneGoesOn(c, busy, files, key, winner, k + 1);
        AloneGoesOn(c, l, files, key, busy, k + 2);
      }
    } else {
      var thrown := l.(pc := Finished(Threw, false));
      AloneGoesOn(c, busy, files, key, thrown, 0);
      AloneGoesOn(c, l, files, key, busy, 1);
    }
  }

  /**
   A call that has not got the lock and is left alone with a key file that holds
   a key returns that key, whether there is a lock file or not, and leaves both
   files as they were.
  */
  lemma {:induction false} HeldKeyIsReturned(c: Call, l: Local, files: Shared, key: Key, minted: Key)
    requires files.keyFile == Holds(key)
    requires || l.pc.FirstRead? || l.pc.WinnerRead?
             || (l.pc.OpenLock? && l.pc.attempt <= LOCK_ATTEMPTS)
             || (l.pc.ReadAfterBusy? && l.pc.attempt <= LOCK_ATTEMPTS)
    ensures Alone(c, l, files, minted, 4) == Effect(l.(pc := Finished(Returned(key), false)), files)
  {
    var done := l.(pc := Finished(Returned(key), false));
    NothingMore(c, done, files, minted);
    if l.pc.OpenLock? {
      var found := if files.lock.Absent? then CriticalRead else ReadAfterBusy(l.pc.attempt);
      var locked := if files.lock.Absent? then files.(lock := CreatedBy(c)) else files;
      assert Alone(c, l, files, minted, 4) == Alone(c, l.(pc := found), locked, minted, 3);
      if files.lock.Absent? {
        assert Alone(c, l.(pc := found), locked, minted, 3)
            == Alone(c, l.(pc := CloseLock(Returned(key))), locked, minted, 2);
        assert Alone(c, l.(pc := UnlinkLock(Returned(key))), locked, minted, 1) == Alone(c, done, files, minted, 0);
      } else {
        assert Alone(c, l.(pc := found), locked, minted, 3) == Alone(c, done, files, minted, 2);
      }
    } else {
      assert Alone(c, l, files, minted, 4) == Alone(c, done, files, minted, 3);
    }
  }

  lemma NothingMore(c: Call, l: Local, files: Shared, key: Key)
    requires l.pc.Finished?
    ensures forall k :: Alone(c, l, files, key, k) == Effect(l, files)
  {
  }

  // ---- How a call ends ----

  /** How many of the steps are renames by `c`, successful or not. */
  function Renames(steps: seq<Step>, c: Call): nat {
    if steps == [] then 0
    else Renames(steps[..|steps| - 1], c)
         + if steps[|steps| - 1].call == c && steps[|steps| - 1].event.Rename? then 1 else 0
  }

  /**
   What a step settles for its call, which has made so many opens and renames
   before. A read that sees a key returns it; one that sees none settles nothing
   unless the call has no lock and has made 51 opens. Opening, minting, writing
   and changing the mode must not fail, nor five renames.
  */
  function Settles(s: State, step: Step, opens: nat, renames: nat): Option<Outcome> {
    if step.call !in s.calls then None
    else
      var pc := s.calls[step.call].pc;
      match step.event
      case Read(ok) =>
        if ok && s.files.keyFile.Holds? then Some(Returned(s.files.keyFile.key))
        else if !Critical(pc) && opens == 51 then Some(Threw)
        else None
      case Rename(Renamed) => if pc.RenameTemporary? then Some(Returned(pc.key)) else None
      case Rename(Busy) => if renames == 4 then Some(Threw) else None
      case Rename(Refused) => Some(Threw)
      case Open(true) | MintFails | Write(false) | Chmod(false) => Some(Threw)
      case _ => None
  }

  /** What the first `i` steps have settled for `c`. */
  function Settled(states: seq<State>, steps: seq<Step>, i: nat, c: Call): Option<Outcome>
    requires i <= |steps| && i < |states|
  {
    if i == 0 then None
    else
      var step := steps[i - 1];
      var now := Settles(states[i - 1], step, Opens(steps[..i - 1], c), Renames(steps[..i - 1], c));
      if step.call == c && now.Some? then now else Settled(states, steps, i - 1, c)
  }

  /** What a call has decided on; one that has crashed, what it had decided on. */
  function Choice(pc: Pc): Option<Outcome> {
    if pc.Crashed? then Decided(pc.at) else Decided(pc)
  }

  /** How many opens and renames a call has made when it gets somewhere. */
  predicate CountInv(pc: Pc, opens: nat, renames: nat) {
    match pc
    case FirstRead => opens == 0 && renames == 0
    case OpenLock(n) => opens == n && renames == 0
    case ReadAfterBusy(n) => opens == n + 1 && renames == 0
    case WinnerRead => opens == LOCK_ATTEMPTS && renames == 0
    case CriticalRead | Mint | WriteTemporary(_) | ChmodTemporary(_) => renames == 0
    case RenameTemporary(_, n) => renames == n
    case _ => true
  }

  lemma OperationSettles(s: State, step: Step, opens: nat, renames: nat)
    requires Inv(s) && step.call in s.calls && !step.event.Begin? && Next(s, step).Some?
    requires CountInv(s.calls[step.call].pc, opens, renames)
    ensures var pc := Next(s, step).value.calls[step.call].pc;
            && CountInv(pc, opens + (if step.event.Open? then 1 else 0),
                        renames + (if step.event.Rename? then 1 else 0))
            && var now := Settles(s, step, opens, renames);
               Choice(pc) == if now.Some? then now else Choice(s.calls[step.call].pc)
  {
    assert CallInv(step.call, s.calls[step.call], s.files);
  }

  lemma {:induction false} CallsCount(states: seq<State>, steps: seq<Step>, i: nat, c: Call)
    requires IsRun(states, steps) && i < |states|
    ensures c !in states[i].calls ==> Opens(steps[..i], c) == Renames(steps[..i], c) == 0
    ensures c in states[i].calls ==> CountInv(states[i].calls[c].pc, Opens(steps[..i], c), Renames(steps[..i], c))
    ensures Settled(states, steps, i, c) == if c in states[i].calls then Choice(states[i].calls[c].pc) else None
  {
    hide CallInv, CountInv, Settles, Choice, Operation, Inv, Live;
    if i > 0 {
      CallsCount(states, steps, i - 1, c);
      RunKeepsInv(states, steps, i - 1);
      var s, step := states[i - 1], steps[i - 1];
      assert Next(s, step) == Some(states[i]);
      assert steps[..i][..i - 1] == steps[..i - 1];
      if step.call == c {
        if step.event.Begin? {
          CallBegins(s, c);
        } else {
          OperationSettles(s, step, Opens(steps[..i - 1], c), Renames(steps[..i - 1], c));
        }
      }
    }
  }

  lemma CallBegins(s: State, c: Call)
    requires c !in s.calls
    ensures CountInv(FirstRead, 0, 0) && Choice(FirstRead) == None
    ensures forall opens, renames :: Settles(s, Step(c, Begin), opens, renames) == None
  {
  }

  /**
   In every run a call ends exactly as its own steps have settled: it returns the
   key it was the first to see or has installed, and it throws only when one of
   its operations failed for good, or when it had made all its opens in vain and
   saw no key after the last.
  */
  lemma OutcomesAreSettled(states: seq<State>, steps: seq<Step>, i: nat, c: Call, outcome: Outcome)
    requires IsRun(states, steps) && i < |states|
    requires c in states[i].calls && states[i].calls[c].pc.Finished?
    ensures states[i].calls[c].pc.outcome == outcome <==> Settled(states, steps, i, c) == Some(outcome)
  {
    CallsCount(states, steps, i, c);
  }

  // ---- What a call leaves ----

  /** None of the first `n` steps is a failing removal by `c`. */
  ghost predicate RemovalsSucceed(steps: seq<Step>, n: nat, c: Call) {
    forall j {:trigger steps[j]} :: 0 <= j < n && j < |steps| && steps[j].call == c ==>
                                      steps[j].event != Remove(false) && steps[j].event != Unlink(false)
  }

  predicate TidyInv(l: Local) {
    match l.pc
    case ChmodTemporary(_) | RenameTemporary(_, _) | RemoveTemporary(_) => true
    case Crashed(_) => true
    case Finished(_, left) => l.temporary.None? && !left
    case _ => l.temporary.None?
  }

  lemma OperationKeepsTidy(c: Call, l: Local, files: Shared, event: Event)
    requires Live(l.pc) && TidyInv(l) && event != Remove(false) && event != Unlink(false)
    requires Operation(c, l, files, event).Some?
    ensures TidyInv(Operation(c, l, files, event).value.local)
  {
  }

  lemma {:induction false} CallsStayTidy(states: seq<State>, steps: seq<Step>, i: nat, c: Call)
    requires IsRun(states, steps) && i < |states| && c in states[i].calls && RemovalsSucceed(steps, i, c)
    ensures TidyInv(states[i].calls[c])
  {
    hide Operation, TidyInv;
    if i > 0 {
      var s, step := states[i - 1], steps[i - 1];
      assert Next(s, step) == Some(states[i]);
      if c in s.calls {
        CallsStayTidy(states, steps, i - 1, c);
        if step.call == c {
          OperationKeepsTidy(c, s.calls[c], s.files, step.event);
        }
      } else {
        assert TidyInv(Local(FirstRead, None)) by {
          BeginsTidy();
        }
      }
    }
  }

  lemma BeginsTidy()
    ensures TidyInv(Local(FirstRead, None))
  {
  }

  /** Whatever fails, a call that ends has removed its lock file and its temporary file, or failed to remove them. */
  lemma EndsTidily(states: seq<State>, steps: seq<Step>, i: nat, c: Call)
    requires IsRun(states, steps) && i < |states| && RemovalsSucceed(steps, i, c)
    requires c in states[i].calls && states[i].calls[c].pc.Finished?
    ensures states[i].calls[c].temporary.None? && states[i].files.lock != CreatedBy(c)
  {
    CallsStayTidy(states, steps, i, c);
    LockFileMeansOneHolder(states, steps, i, c);
  }

  // ---- How a call begins ----

  lemma {:induction false} FirstOperation(states: seq<State>, steps: seq<Step>, i: nat, c: Call)
    requires IsRun(states, steps) && i < |states|
    ensures c !in states[i].calls ==> Operations(steps[..i], c) == 0
    ensures c in states[i].calls && Live(states[i].calls[c].pc) && Operations(steps[..i], c) == 0 ==>
              states[i].calls[c].pc.FirstRead?
  {
    hide Operation, Live;
    if i > 0 {
      FirstOperation(states, steps, i - 1, c);
      assert Next(states[i - 1], steps[i - 1]) == Some(states[i]);
      assert steps[..i][..i - 1] == steps[..i - 1];
    }
  }

  /** The first thing a call does is read the key file; a call that sees a key in it touches no lock and returns it. */
  lemma ReadsFirst(states: seq<State>, steps: seq<Step>, i: nat)
    requires IsRun(states, steps) && i < |steps| && !steps[i].event.Begin? && !steps[i].event.Crash?
    requires Operations(steps[..i], steps[i].call) == 0
    ensures steps[i].event.Read?
    ensures steps[i].event.ok && states[i].files.keyFile.Holds? ==>
              && HasReturned(states[i + 1], steps[i].call, states[i].files.keyFile.key)
              && states[i + 1].files == states[i].files
  {
    assert Next(states[i], steps[i]) == Some(states[i + 1]);
    FirstOperation(states, steps, i, steps[i].call);
  }
}
