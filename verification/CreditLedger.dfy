/** The mock host's ledger of redeemed Codex reset credits. */
module CreditLedger {
  import opened Wrappers

  const DAY: int := 24 * 60 * 60 * 1000
  const PERSONAL := "codex-personal"
  const TEAM := "codex-team"
  const MAX_SAFE_INTEGER: int := 9007199254740991

  datatype Usage = Usage(availableResetCredits: int, sessionUsedPercent: int, updatedAt: int, nextExpiresAt: int)

  /** What an offer's opaque revision is made of. */
  datatype Offer = Offer(available: int, expires: Option<int>, usedPercent: int, sessionResetsAt: int,
                         weeklyResetsAt: int, updatedAt: int)

  datatype Scope = Scope(accountId: string, accountRevision: int, offer: Offer)

  /**
   A JSON text. Serialising is injective on scopes, so the text of a scope is
   named by the scope; any other object has some other text.
  */
  datatype Text = TextOf(scope: Scope) | OtherText(text: string)

  datatype Outcome = Reset | NoCredit

  datatype Operation = Operation(scope: Text, outcome: Outcome)

  datatype Ledger = Ledger(
    startedAt: int,
    active: Option<string>,
    usage: map<string, Usage>,
    operations: map<string, Operation>,
    owners: map<Text, string>)

  /** An argument of unknown type, as far as it matters. */
  datatype Argument<T> = Null | WrongType | Given(value: T)

  datatype Error = InvalidKey | MissingScope | OtherScope | Contested | UnknownAccount

  datatype Result = Consumed(outcome: Outcome, scope: Text) | OfferChanged(scope: Text) | Threw(error: Error)

  // ---- Idempotency keys ----

  predicate IsHex(c: char) {
    '0' <= c <= '9' || 'a' <= c <= 'f' || 'A' <= c <= 'F'
  }

  predicate IsUuid(key: string) {
    && |key| == 36
    && (forall i :: 0 <= i < 36 ==> if i == 8 || i == 13 || i == 18 || i == 23 then key[i] == '-' else IsHex(key[i]))
    && '1' <= key[14] <= '8'
    && (key[19] == '8' || key[19] == '9' || key[19] == 'a' || key[19] == 'b' || key[19] == 'A' || key[19] == 'B')
  }

  // ---- Offers ----

  /** The `updatedAt` of the fixture account. */
  function AccountRevision(account: string): Option<int> {
    if account == PERSONAL then Some(1) else if account == TEAM then Some(2) else None
  }

  function OfferOf(startedAt: int, usage: Usage): Offer {
    Offer(usage.availableResetCredits,
          if usage.availableResetCredits > 0 then Some(usage.nextExpiresAt) else None,
          usage.sessionUsedPercent, startedAt + 90 * 60 * 1000, startedAt + 3 * DAY, usage.updatedAt)
  }

  /** The scope of the offer now open for the active account, if there is one. */
  function CurrentScope(l: Ledger): Option<Scope> {
    if l.active.None? || AccountRevision(l.active.value).None? || l.active.value !in l.usage then None
    else
      var usage := l.usage[l.active.value];
      if usage.availableResetCredits <= 0 || !(0 <= usage.updatedAt <= MAX_SAFE_INTEGER) then None
      else Some(Scope(l.active.value, AccountRevision(l.active.value).value, OfferOf(l.startedAt, usage)))
  }

  // ---- Calls ----

  function InitialUsage(now: int, accountOffset: int): Usage {
    Usage(1, 100, now + accountOffset, now + (5 + accountOffset) * DAY)
  }

  function AfterReset(now: int): Ledger {
    Ledger(now, Some(PERSONAL), map[PERSONAL := InitialUsage(now, 0), TEAM := InitialUsage(now, 1)], map[], map[])
  }

  function Select(l: Ledger, account: Argument<string>): (Ledger, Option<Error>) {
    if account.Null? then (l.(active := None), None)
    else if account.Given? && AccountRevision(account.value).Some? then (l.(active := Some(account.value)), None)
    else (l, Some(UnknownAccount))
  }

  function Spend(usage: map<string, Usage>, account: string): map<string, Usage> {
    if account !in usage then usage
    else
      var u := usage[account];
      usage[account := u.(availableResetCredits := 0, sessionUsedPercent := 0, updatedAt := u.updatedAt + 1)]
  }

  function Consume(l: Ledger, key: Argument<string>, supplied: Argument<Text>): (Ledger, Result) {
    if !key.Given? || !IsUuid(key.value) then (l, Threw(InvalidKey))
    else if !supplied.Given? then (l, Threw(MissingScope))
    else if key.value in l.operations then
      var previous := l.operations[key.value];
      if previous.scope != supplied.value then (l, Threw(OtherScope))
      else (l, Consumed(previous.outcome, supplied.value))
    else if CurrentScope(l).None? || TextOf(CurrentScope(l).value) != supplied.value then
      (l, OfferChanged(supplied.value))
    else if supplied.value in l.owners && l.owners[supplied.value] != key.value then (l, Threw(Contested))
    else
      (Redeemed(l, key.value, CurrentScope(l).value),
       Consumed(RedeemOutcome(l, CurrentScope(l).value), supplied.value))
  }

  function RedeemOutcome(l: Ledger, scope: Scope): Outcome {
    if scope.accountId in l.usage && l.usage[scope.accountId].availableResetCredits > 0 then Reset else NoCredit
  }

  /** The ledger once `key` has redeemed the offer of `scope`. */
  function Redeemed(l: Ledger, key: string, scope: Scope): Ledger {
    var outcome := RedeemOutcome(l, scope);
    l.(owners := l.owners[TextOf(scope) := key],
       operations := l.operations[key := Operation(TextOf(scope), outcome)],
       usage := if outcome.Reset? then Spend(l.usage, scope.accountId) else l.usage)
  }

  /** The module's state, as the calls update it. */
  class AccountState {
    var fixtureStartedAt: int
    var activeCodexAccountId: Option<string>
    var codexUsageByAccount: map<string, Usage>
    var resetOperations: map<string, Operation>
    var resetOfferOwners: map<Text, string>

    function State(): Ledger
      reads this
    {
      Ledger(fixtureStartedAt, activeCodexAccountId, codexUsageByAccount, resetOperations, resetOfferOwners)
    }

    constructor (now: int)
      ensures State() == AfterReset(now)
    {
      fixtureStartedAt := now;
      activeCodexAccountId := Some(PERSONAL);
      codexUsageByAccount := map[PERSONAL := InitialUsage(now, 0), TEAM := InitialUsage(now, 1)];
      resetOperations := map[];
      resetOfferOwners := map[];
    }

    method ResetMockAccountState(now: int)
      modifies this
      ensures State() == AfterReset(now)
    {
      fixtureStartedAt := now;
      activeCodexAccountId := Some(PERSONAL);
      codexUsageByAccount := map[PERSONAL := InitialUsage(now, 0), TEAM := InitialUsage(now, 1)];
      resetOperations := map[];
      resetOfferOwners := map[];
    }

    method SelectMockCodexAccount(accountId: Argument<string>) returns (error: Option<Error>)
      modifies this
      ensures (State(), error) == Select(old(State()), accountId)
    {
      if accountId.Null? {
        activeCodexAccountId := None;
        return None;
      }
      if !accountId.Given? || AccountRevision(accountId.value).None? {
        return Some(UnknownAccount);
      }
      activeCodexAccountId := Some(accountId.value);
      return None;
    }

    method ConsumeMockCodexResetCredit(idempotencyKey: Argument<string>, expectedScope: Argument<Text>)
      returns (r: Result)
      modifies this
      ensures (State(), r) == Consume(old(State()), idempotencyKey, expectedScope)
    {
      if !idempotencyKey.Given? || !IsUuid(idempotencyKey.value) {
        return Threw(InvalidKey);
      }
      if !expectedScope.Given? {
        return Threw(MissingScope);
      }
      var key, suppliedScopeKey := idempotencyKey.value, expectedScope.value;
      if key in resetOperations {
        var previous := resetOperations[key];
        if previous.scope != suppliedScopeKey {
          return Threw(OtherScope);
        }
        return Consumed(previous.outcome, suppliedScopeKey);
      }
      var currentScope := CurrentScope(State());
      if currentScope.None? || TextOf(currentScope.value) != suppliedScopeKey {
        return OfferChanged(suppliedScopeKey);
      }
      if suppliedScopeKey in resetOfferOwners && resetOfferOwners[suppliedScopeKey] != key {
        return Threw(Contested);
      }
      resetOfferOwners := resetOfferOwners[suppliedScopeKey := key];
      var account := currentScope.value.accountId;
      var outcome := NoCredit;
      if account in codexUsageByAccount && codexUsageByAccount[account].availableResetCredits > 0 {
        outcome := Reset;
      }
      resetOperations := resetOperations[key := Operation(suppliedScopeKey, outcome)];
      if account in codexUsageByAccount && outcome == Reset {
        var usage := codexUsageByAccount[account];
        usage := usage.(availableResetCredits := 0);
        usage := usage.(sessionUsedPercent := 0);
        usage := usage.(updatedAt := usage.updatedAt + 1);
        codexUsageByAccount := codexUsageByAccount[account := usage];
      }
      r := Consumed(outcome, suppliedScopeKey);
    }
  }

  // ---- Runs ----

  datatype Call = SelectCall(account: Argument<string>) | ConsumeCall(key: Argument<string>, scope: Argument<Text>)

  function Perform(l: Ledger, call: Call): Ledger {
    match call
    case SelectCall(account) => Select(l, account).0
    case ConsumeCall(key, scope) => Consume(l, key, scope).0
  }

  /** The ledger after the calls, in order. */
  function After(l: Ledger, calls: seq<Call>): Ledger {
    if calls == [] then l else Perform(After(l, calls[..|calls| - 1]), calls[|calls| - 1])
  }

  predicate Belongs(op: Operation, account: string) {
    op.outcome.Reset? && op.scope.TextOf? && op.scope.scope.accountId == account
  }

  /** The recorded operations that spent a credit of the account. */
  function SpentBy(operations: map<string, Operation>, account: string): set<string> {
    set k | k in operations && Belongs(operations[k], account)
  }

  ghost predicate Inv(l: Ledger) {
    && l.usage.Keys == {PERSONAL, TEAM}
    && (forall k :: k in l.operations ==>
          l.operations[k].scope in l.owners && l.owners[l.operations[k].scope] == k)
    && (forall t :: t in l.owners ==> l.owners[t] in l.operations && l.operations[l.owners[t]].scope == t)
    && (forall k :: k in l.operations ==>
          && l.operations[k].outcome.Reset? && l.operations[k].scope.TextOf?
          && l.operations[k].scope.scope.accountId in l.usage)
    && (forall a :: a in l.usage ==>
          |SpentBy(l.operations, a)| + l.usage[a].availableResetCredits == 1 && l.usage[a].availableResetCredits >= 0)
  }

  lemma ResetEstablishesInv(now: int)
    ensures Inv(AfterReset(now))
  {
    assert forall a :: SpentBy(map[], a) == {};
  }

  lemma OwnerHasSpent(l: Ledger, scope: Scope)
    requires Inv(l) && TextOf(scope) in l.owners
    ensures SpentBy(l.operations, scope.accountId) != {}
  {
    assert l.owners[TextOf(scope)] in SpentBy(l.operations, scope.accountId);
  }

  /** With a credit left no operation of the account is on record, so its offer has no owner. */
  lemma OpenOfferIsUnowned(l: Ledger)
    requires Inv(l) && CurrentScope(l).Some?
    ensures TextOf(CurrentScope(l).value) !in l.owners
    ensures RedeemOutcome(l, CurrentScope(l).value).Reset?
  {
    var scope := CurrentScope(l).value;
    assert SpentBy(l.operations, scope.accountId) == {};
    if TextOf(scope) in l.owners {
      OwnerHasSpent(l, scope);
    }
  }

  lemma SpentAfter(operations: map<string, Operation>, key: string, op: Operation, account: string)
    requires key !in operations
    ensures key !in SpentBy(operations, account)
    ensures SpentBy(operations[key := op], account)
         == SpentBy(operations, account) + if Belongs(op, account) then {key} else {}
  {
  }

  /** The credit that leaves the account is the one that the new operation spends. */
  lemma SpendMovesCredit(l: Ledger, key: string, scope: Scope, account: string)
    requires Inv(l) && CurrentScope(l) == Some(scope) && key !in l.operations && account in l.usage
    ensures var m := Redeemed(l, key, scope);
            && account in m.usage && m.usage[account].availableResetCredits >= 0
            && |SpentBy(m.operations, account)| + m.usage[account].availableResetCredits == 1
  {
    hide SpentBy, OfferOf;
    SpentAfter(l.operations, key, Operation(TextOf(scope), Reset), account);
  }

  lemma RedeemKeepsInv(l: Ledger, key: string)
    requires Inv(l) && CurrentScope(l).Some? && key !in l.operations
    ensures Inv(Redeemed(l, key, CurrentScope(l).value))
  {
    hide SpentBy, OfferOf;
    var scope := CurrentScope(l).value;
    OpenOfferIsUnowned(l);
    var m := Redeemed(l, key, scope);
    assert m.operations == l.operations[key := Operation(TextOf(scope), Reset)];
    assert m.usage == Spend(l.usage, scope.accountId) && m.usage.Keys == l.usage.Keys;
    forall a | a in m.usage
      ensures |SpentBy(m.operations, a)| + m.usage[a].availableResetCredits == 1
      ensures m.usage[a].availableResetCredits >= 0
    {
      SpendMovesCredit(l, key, scope, a);
    }
    OwnersAfter(l, key, scope);
  }

  lemma OwnersAfter(l: Ledger, key: string, scope: Scope)
    requires Inv(l) && key !in l.operations && TextOf(scope) !in l.owners
    ensures var m := Redeemed(l, key, scope);
            && (forall k :: k in m.operations ==>
                  m.operations[k].scope in m.owners && m.owners[m.operations[k].scope] == k)
            && (forall t :: t in m.owners ==> m.owners[t] in m.operations && m.operations[m.owners[t]].scope == t)
  {
    hide SpentBy;
  }

  /** A call selects an account, redeems the open offer for a new key, or changes nothing. */
  lemma WhatCallsDo(l: Ledger, call: Call)
    ensures var m := Perform(l, call);
            || m == l
            || m == l.(active := m.active)
            || (&& call.ConsumeCall? && call.key.Given? && call.key.value !in l.operations && CurrentScope(l).Some?
                && m == Redeemed(l, call.key.value, CurrentScope(l).value))
  {
    hide Redeemed, RedeemOutcome, CurrentScope, IsUuid;
  }

  lemma CallKeepsInv(l: Ledger, call: Call)
    requires Inv(l)
    ensures Inv(Perform(l, call))
  {
    hide Perform, SpentBy, CurrentScope, Redeemed;
    WhatCallsDo(l, call);
    if call.ConsumeCall? && call.key.Given? && call.key.value !in l.operations && CurrentScope(l).Some? {
      RedeemKeepsInv(l, call.key.value);
    }
  }

  lemma CallKeepsOperations(l: Ledger, call: Call, key: string)
    requires key in l.operations
    ensures key in Perform(l, call).operations && Perform(l, call).operations[key] == l.operations[key]
  {
    hide Perform, CurrentScope, RedeemOutcome;
    WhatCallsDo(l, call);
  }

  lemma {:induction false} RunKeepsInv(now: int, calls: seq<Call>)
    ensures Inv(After(AfterReset(now), calls))
  {
    hide Inv, Perform;
    if calls == [] {
      ResetEstablishesInv(now);
    } else {
      RunKeepsInv(now, calls[..|calls| - 1]);
      CallKeepsInv(After(AfterReset(now), calls[..|calls| - 1]), calls[|calls| - 1]);
    }
  }

  /** In every run an offer has at most one recorded operation, and one owner, who recorded it. */
  lemma OneRedemptionPerOffer(now: int, calls: seq<Call>, offer: Text)
    ensures var l := After(AfterReset(now), calls);
            && (offer in l.owners <==> exists k :: k in l.operations && l.operations[k].scope == offer)
            && forall k :: k in l.operations && l.operations[k].scope == offer ==> l.owners[offer] == k
  {
    RunKeepsInv(now, calls);
  }

  /** In every run each account's credits, spent and left, add up to the one it began with. */
  lemma CreditsConserved(now: int, calls: seq<Call>, account: string)
    requires account == PERSONAL || account == TEAM
    ensures var l := After(AfterReset(now), calls);
            && account in l.usage
            && |SpentBy(l.operations, account)| + l.usage[account].availableResetCredits == 1
            && l.usage[account].availableResetCredits >= 0
  {
    RunKeepsInv(now, calls);
  }

  lemma {:induction false} OperationsStay(now: int, calls: seq<Call>, later: seq<Call>, key: string)
    requires key in After(AfterReset(now), calls).operations
    ensures var l, m := After(AfterReset(now), calls), After(AfterReset(now), calls + later);
            key in m.operations && m.operations[key] == l.operations[key]
    decreases |later|
  {
    hide Inv, Perform;
    if later == [] {
      assert calls + later == calls;
    } else {
      var n := |later| - 1;
      OperationsStay(now, calls, later[..n], key);
      assert (calls + later)[..|calls + later| - 1] == calls + later[..n];
      CallKeepsOperations(After(AfterReset(now), calls + later[..n]), later[n], key);
    }
  }

  /**
   A redemption that succeeded once is answered alike ever after: whatever calls
   follow, the same key and scope get the first outcome and change nothing.
  */
  lemma ReplayReturnsFirstOutcome(
    now: int, calls: seq<Call>, key: Argument<string>, scope: Argument<Text>, later: seq<Call>)
    requires Consume(After(AfterReset(now), calls), key, scope).1.Consumed?
    ensures var first := Consume(After(AfterReset(now), calls), key, scope).1;
            var m := After(AfterReset(now), calls + [ConsumeCall(key, scope)] + later);
            Consume(m, key, scope) == (m, first)
  {
    hide IsUuid;
    var run := calls + [ConsumeCall(key, scope)];
    assert run[..|run| - 1] == calls;
    OperationsStay(now, run, later, key.value);
  }

  /** Whether a call is rejected or throws. */
  predicate Fails(l: Ledger, call: Call) {
    match call
    case SelectCall(account) => Select(l, account).1.Some?
    case ConsumeCall(key, scope) => !Consume(l, key, scope).1.Consumed?
  }

  /** A call that is rejected or throws leaves the ledger as it was. */
  lemma FailingCall(l: Ledger, call: Call)
    requires Fails(l, call)
    ensures Perform(l, call) == l
  {
  }

  /** A failing call leaves no trace: whatever is called later, the run goes on as if it had not been made. */
  lemma {:induction false} FailuresLeaveNoTrace(now: int, calls: seq<Call>, failing: Call, later: seq<Call>)
    requires Fails(After(AfterReset(now), calls), failing)
    ensures After(AfterReset(now), calls + [failing] + later) == After(AfterReset(now), calls + later)
    decreases |later|
  {
    hide Perform, Fails;
    var all, others := calls + [failing] + later, calls + later;
    if later == [] {
      assert all[..|all| - 1] == calls && others == calls;
      FailingCall(After(AfterReset(now), calls), failing);
    } else {
      var n := |later| - 1;
      assert all[..|all| - 1] == calls + [failing] + later[..n];
      assert others[..|others| - 1] == calls + later[..n];
      FailuresLeaveNoTrace(now, calls, failing, later[..n]);
    }
  }

  /**
   In every run: a new key redeems exactly when its scope is that of the offer
   now open, and then always with a reset; the outcome without credit and the
   error about a contested offer never come about.
  */
  lemma RedeemsExactlyTheOpenOffer(now: int, calls: seq<Call>, key: string, scope: Text)
    requires IsUuid(key) && key !in After(AfterReset(now), calls).operations
    ensures var l := After(AfterReset(now), calls);
            Consume(l, Given(key), Given(scope))
            == if CurrentScope(l).Some? && TextOf(CurrentScope(l).value) == scope
               then (Redeemed(l, key, CurrentScope(l).value), Consumed(Reset, scope))
               else (l, OfferChanged(scope))
  {
    hide Inv, IsUuid;
    var l := After(AfterReset(now), calls);
    RunKeepsInv(now, calls);
    if CurrentScope(l).Some? {
      OpenOfferIsUnowned(l);
    }
  }

  lemma NeverNoCreditNorContested(now: int, calls: seq<Call>, key: Argument<string>, scope: Argument<Text>)
    ensures var r := Consume(After(AfterReset(now), calls), key, scope).1;
            !(r.Consumed? && r.outcome.NoCredit?) && r != Threw(Contested)
  {
    hide IsUuid;
    var l := After(AfterReset(now), calls);
    RunKeepsInv(now, calls);
    if CurrentScope(l).Some? {
      OpenOfferIsUnowned(l);
    }
  }

  // ---- What every answer says ----

  /** In every run, an answer that a reset was consumed says what is on record for the key from then on. */
  lemma AnswersAreOnRecord(now: int, calls: seq<Call>, key: Argument<string>, scope: Argument<Text>)
    ensures var l := After(AfterReset(now), calls);
            var (m, r) := Consume(l, key, scope);
            r.Consumed? ==>
              && key.Given? && scope == Given(r.scope)
              && key.value in m.operations && m.operations[key.value] == Operation(r.scope, r.outcome)
  {
    hide IsUuid, CurrentScope, RedeemOutcome;
  }

  /**
   The answers of every run: the key must be a UUID and a scope must be given; a
   key on record is answered only for the scope it has there, and a new key only
   for that of the offer now open. Only the latter changes anything.
  */
  lemma AnswersExactly(now: int, calls: seq<Call>, key: Argument<string>, scope: Argument<Text>)
    ensures var l := After(AfterReset(now), calls);
            var (m, r) := Consume(l, key, scope);
            var valid := key.Given? && IsUuid(key.value);
            var known := valid && scope.Given? && key.value in l.operations;
            var open := valid && scope.Given? && CurrentScope(l).Some? && scope.value == TextOf(CurrentScope(l).value);
            && (r == Threw(InvalidKey) <==> !valid)
            && (r == Threw(MissingScope) <==> valid && !scope.Given?)
            && (r == Threw(OtherScope) <==> known && l.operations[key.value].scope != scope.value)
            && (r.OfferChanged? <==> valid && scope.Given? && !known && !open)
            && (r.OfferChanged? ==> r.scope == scope.value)
            && (r.Consumed? <==> (known && l.operations[key.value].scope == scope.value) || (!known && open))
            && (m != l ==> !known && open)
            && (!known && open ==> m == Redeemed(l, key.value, CurrentScope(l).value))
  {
    hide Inv, IsUuid;
    var l := After(AfterReset(now), calls);
    RunKeepsInv(now, calls);
    if CurrentScope(l).Some? {
      OpenOfferIsUnowned(l);
    }
  }

  // ---- The accounts ----

  /** The account that was selected last, if there was one. */
  function LastSelected(calls: seq<Call>): Option<string> {
    if calls == [] then Some("codex-personal")
    else
      match calls[|calls| - 1]
      case SelectCall(Null) => None
      case SelectCall(Given(account)) =>
        if account in {"codex-personal", "codex-team"} then Some(account) else LastSelected(calls[..|calls| - 1])
      case _ => LastSelected(calls[..|calls| - 1])
  }

  /** In every run the active account is the one selected last; the personal one to begin with. */
  lemma {:induction false} ActiveIsLastSelected(now: int, calls: seq<Call>)
    ensures After(AfterReset(now), calls).active == LastSelected(calls)
    ensures After(AfterReset(now), calls).startedAt == now
  {
    if calls != [] {
      ActiveIsLastSelected(now, calls[..|calls| - 1]);
      hide Redeemed, RedeemOutcome, CurrentScope, IsUuid, Select;
      var l := After(AfterReset(now), calls[..|calls| - 1]);
      if calls[|calls| - 1].SelectCall? {
        WhatSelectDoes(l, calls[|calls| - 1]);
      } else {
        WhatConsumeLeaves(l, calls[|calls| - 1]);
      }
    }
  }

  lemma WhatSelectDoes(l: Ledger, call: Call)
    requires call.SelectCall?
    ensures Perform(l, call)
         == match call.account
            case Null => l.(active := None)
            case WrongType => l
            case Given(account) =>
              if account in {"codex-personal", "codex-team"} then l.(active := Some(account)) else l
  {
  }

  lemma WhatConsumeLeaves(l: Ledger, call: Call)
    requires call.ConsumeCall?
    ensures Perform(l, call).active == l.active && Perform(l, call).startedAt == l.startedAt
  {
    hide IsUuid, CurrentScope, RedeemOutcome;
  }

  /** An account's usage: as it began, until its credit is spent. */
  function UsageOf(now: int, offset: int, spent: bool): Usage {
    if spent then Usage(0, 0, now + offset + 1, now + (5 + offset) * 86400000)
    else Usage(1, 100, now + offset, now + (5 + offset) * 86400000)
  }

  predicate UsageInv(l: Ledger, now: int) {
    l.usage == map["codex-personal" := UsageOf(now, 0, SpentBy(l.operations, "codex-personal") != {}),
                   "codex-team" := UsageOf(now, 1, SpentBy(l.operations, "codex-team") != {})]
  }

  lemma RedeemKeepsUsage(l: Ledger, key: string, now: int)
    requires Inv(l) && UsageInv(l, now) && CurrentScope(l).Some? && key !in l.operations
    ensures UsageInv(Redeemed(l, key, CurrentScope(l).value), now)
  {
    hide SpentBy, OfferOf, Inv;
    var scope := CurrentScope(l).value;
    OpenOfferIsUnowned(l);
    SpentAfter(l.operations, key, Operation(TextOf(scope), Reset), "codex-personal");
    SpentAfter(l.operations, key, Operation(TextOf(scope), Reset), "codex-team");
  }

  /** In every run the usage of both accounts is the initial one until their credit is spent, and then used up. */
  lemma {:induction false} UsageIsExactly(now: int, calls: seq<Call>)
    ensures UsageInv(After(AfterReset(now), calls), now)
  {
    if calls == [] {
      assert SpentBy(map[], "codex-personal") == {} && SpentBy(map[], "codex-team") == {};
    } else {
      var l, call := After(AfterReset(now), calls[..|calls| - 1]), calls[|calls| - 1];
      UsageIsExactly(now, calls[..|calls| - 1]);
      RunKeepsInv(now, calls[..|calls| - 1]);
      hide Perform, SpentBy, CurrentScope, Redeemed, Inv;
      WhatCallsDo(l, call);
      if call.ConsumeCall? && call.key.Given? && call.key.value !in l.operations && CurrentScope(l).Some? {
        RedeemKeepsUsage(l, call.key.value, now);
      }
    }
  }

  /**
   In every run an offer is open exactly while a known account is selected whose
   credit is not spent and whose clock is a safe integer, and this is its scope.
  */
  lemma OpenOfferExactly(now: int, calls: seq<Call>)
    ensures var l := After(AfterReset(now), calls);
            CurrentScope(l)
            == match LastSelected(calls)
               case None => None
               case Some(account) =>
                 var offset := if account == "codex-personal" then 0 else 1;
                 if SpentBy(l.operations, account) != {} || !(0 <= now + offset <= 9007199254740991) then None
                 else Some(Scope(account, offset + 1,
                                 Offer(1, Some(now + (5 + offset) * 86400000), 100,
                                       now + 5400000, now + 259200000, now + offset)))
  {
    ActiveIsLastSelected(now, calls);
    UsageIsExactly(now, calls);
    SelectedIsKnown(calls);
    hide SpentBy, After;
  }

  lemma {:induction false} SelectedIsKnown(calls: seq<Call>)
    ensures LastSelected(calls) in {None, Some("codex-personal"), Some("codex-team")}
  {
    if calls != [] {
      SelectedIsKnown(calls[..|calls| - 1]);
    }
  }

  predicate IsHexGroup(group: string, length: nat) {
    |group| == length && forall i :: 0 <= i < |group| ==> group[i] in "0123456789abcdefABCDEF"
  }

  lemma HexDigits(c: char)
    ensures IsHex(c) <==> c in "0123456789abcdefABCDEF"
  {
  }

  lemma HexGroup(group: string, length: nat)
    ensures IsHexGroup(group, length) <==> |group| == length && forall i :: 0 <= i < |group| ==> IsHex(group[i])
  {
    hide IsHex;
    forall i | 0 <= i < |group|
      ensures IsHex(group[i]) <==> group[i] in "0123456789abcdefABCDEF"
    {
      HexDigits(group[i]);
    }
  }

  function Uuid(a: string, b: string, c: string, d: string, e: string): string {
    a + "-" + b + "-" + c + "-" + d + "-" + e
  }

  lemma UuidOfGroups(a: string, b: string, c: string, d: string, e: string)
    requires |a| == 8 && |b| == 4 && |c| == 4 && |d| == 4 && |e| == 12
    ensures var key := Uuid(a, b, c, d, e);
            && |key| == 36 && key[..8] == a && key[9..13] == b && key[14..18] == c && key[19..23] == d && key[24..] == e
            && key[8] == key[13] == key[18] == key[23] == '-'
  {
  }

  lemma GroupsOfUuid(key: string)
    requires |key| == 36 && key[8] == key[13] == key[18] == key[23] == '-'
    ensures key == Uuid(key[..8], key[9..13], key[14..18], key[19..23], key[24..])
  {
  }

  lemma HexInGroups(key: string)
    requires |key| == 36
    ensures (forall i :: 0 <= i < 36 && i != 8 && i != 13 && i != 18 && i != 23 ==> IsHex(key[i])) <==>
            && IsHexGroup(key[..8], 8) && IsHexGroup(key[9..13], 4) && IsHexGroup(key[14..18], 4)
            && IsHexGroup(key[19..23], 4) && IsHexGroup(key[24..], 12)
  {
    HexGroup(key[..8], 8);
    HexGroup(key[9..13], 4);
    HexGroup(key[14..18], 4);
    HexGroup(key[19..23], 4);
    HexGroup(key[24..], 12);
    hide IsHex, IsHexGroup;
    assert forall i :: 0 <= i < 8 ==> key[i] == key[..8][i];
    assert forall i :: 9 <= i < 13 ==> key[i] == key[9..13][i - 9];
    assert forall i :: 14 <= i < 18 ==> key[i] == key[14..18][i - 14];
    assert forall i :: 19 <= i < 23 ==> key[i] == key[19..23][i - 19];
    assert forall i :: 24 <= i < 36 ==> key[i] == key[24..][i - 24];
  }

  /** The five groups that the pattern has, the third with a version and the fourth with a variant. */
  predicate AreGroups(a: string, b: string, c: string, d: string, e: string) {
    && IsHexGroup(a, 8) && IsHexGroup(b, 4) && IsHexGroup(c, 4) && IsHexGroup(d, 4) && IsHexGroup(e, 12)
    && c[0] in "12345678" && d[0] in "89abAB"
  }

  /** A key is a UUID exactly when it is made of five such groups. */
  lemma UuidIsThePattern(key: string)
    ensures IsUuid(key) <==>
            exists a, b, c, d, e :: AreGroups(a, b, c, d, e) && key == Uuid(a, b, c, d, e)
  {
    hide IsHex, IsHexGroup, Uuid;
    if IsUuid(key) {
      HexInGroups(key);
      GroupsOfUuid(key);
      assert key[14..18][0] == key[14] && key[19..23][0] == key[19];
      assert AreGroups(key[..8], key[9..13], key[14..18], key[19..23], key[24..]);
    }
    if a, b, c, d, e :| AreGroups(a, b, c, d, e) && key == Uuid(a, b, c, d, e) {
      GroupsHaveLength(a, b, c, d, e);
      UuidOfGroups(a, b, c, d, e);
      HexInGroups(key);
      assert key[14] == c[0] && key[19] == d[0];
    }
  }

  lemma GroupsHaveLength(a: string, b: string, c: string, d: string, e: string)
    requires IsHexGroup(a, 8) && IsHexGroup(b, 4) && IsHexGroup(c, 4) && IsHexGroup(d, 4) && IsHexGroup(e, 12)
    ensures |a| == 8 && |b| == 4 && |c| == 4 && |d| == 4 && |e| == 12
  {
  }
}
