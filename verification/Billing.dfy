/** Credit grants, usage charges and the credit preflight of mizan-api, each a sequence of SQL
    statements between which other clients' statements run. */
module Billing {
  import opened Core
  import opened Ledger
  import opened Wallet

  datatype BillingInput = BillingInput(requestId: RequestId, user: UserId, usage: TokenUsage, status: nat, price: RoutePrice)

  function EventOf(input: BillingInput, status: nat): UsageEvent {
    UsageEvent(input.requestId, input.user, input.usage, status)
  }

  function ChargeOf(input: BillingInput): I64 {
    CalculateUsageCharge(input.usage, input.price).total
  }

  /** An event and, when it costs something, its ledger row have been committed. */
  predicate IsMetered(tables: Tables, input: BillingInput) {
    && EventOf(input, input.status) in tables.events
    && (IsSuccessStatus(input.status) && ChargeOf(input) > 0 ==>
          exists i :: 0 <= i < |tables.ledger|
                      && tables.ledger[i].user == input.user && tables.ledger[i].requestId == Some(input.requestId)
                      && tables.ledger[i].delta == -ChargeOf(input))
  }

  /** The rows are the one row of the charge for `input`, with the balance it left. */
  predicate IsCharge(rows: seq<LedgerRow>, input: BillingInput, tables: Tables) {
    && |rows| == 1 && rows[0].user == input.user && rows[0].requestId == Some(input.requestId)
    && rows[0].delta + ChargeOf(input) == 0 && rows[0].balanceAfter == BalanceOf(tables, input.user)
  }

  /** The rows are those of the call for `input`: of its charge if it was charged, else none. */
  predicate MeteringRows(rows: seq<LedgerRow>, input: BillingInput, r: AppResult<()>, tables: Tables) {
    if r.Success? && IsSuccessStatus(input.status) && ChargeOf(input) > 0 then IsCharge(rows, input, tables) else rows == []
  }

  /** The usage events the call for `input` writes outside a transaction; a charge writes its own in it. */
  function EventsAlone(input: BillingInput, r: AppResult<()>): seq<UsageEvent> {
    if r == Failure(InsufficientCredit) then [EventOf(input, STATUS_PAYMENT_REQUIRED)]
    else if r.Failure? || (IsSuccessStatus(input.status) && ChargeOf(input) > 0) then []
    else [EventOf(input, input.status)]
  }

  /** The database and what one client has done to it. */
  datatype Account = Account(s: System, own: set<TxId>, alone: seq<UsageEvent>, calls: seq<BillingInput>)

  /** Nothing metered, no event and no ledger row, whatever others did meanwhile. */
  ghost predicate MetersNothing(before: Account, after: Account) {
    && after.calls == before.calls && after.alone == before.alone
    && Called(before.s, before.own, after.s, after.own) && Written(after.s, before.own, after.own) == []
  }

  /** Exactly one metering call, with its outcome: one event, alone or with a committed charge, and
      the charge's ledger row or none; and no other event or row. */
  ghost predicate MetersOnce(before: Account, after: Account, input: BillingInput, r: AppResult<()>) {
    && after.calls == before.calls + [input] && after.alone == before.alone + EventsAlone(input, r)
    && Called(before.s, before.own, after.s, after.own)
    && MeteringRows(Written(after.s, before.own, after.own), input, r, after.s.tables)
    && (r.Success? ==> IsMetered(after.s.tables, input))
  }

  /** A call that meters nothing before it does not show. */
  lemma MetersAfterNothing(a: Account, b: Account, c: Account, input: BillingInput, r: AppResult<()>)
    requires Inv(a.s) && MetersNothing(a, b) && MetersOnce(b, c, input, r)
    ensures MetersOnce(a, c, input, r)
  {
    hide Inv, Called, Written, MeteringRows, IsMetered, EventsAlone;
    CalledAgain(a.s, a.own, b.s, b.own, c.s, c.own);
  }

  /** A client of the database: one call at a time. */
  class Database {
    var s: System

    /** The transactions this client has begun, the events it has written outside them, and its calls
        of `RecordUsage`. */
    ghost var own: set<TxId>
    ghost var alone: seq<UsageEvent>
    ghost var calls: seq<BillingInput>

    ghost predicate Valid()
      reads this
    {
      Inv(s) && forall id :: id in own ==> id < s.nextTx
    }

    ghost function View(): Account
      reads this
    {
      Account(s, own, alone, calls)
    }

    constructor ()
      ensures Valid() && s == EMPTY && own == {} && alone == [] && calls == []
    {
      s, own, alone, calls := EMPTY, {}, [], [];
    }

    /** Other clients run: any statements that are not of the transaction `mine`. */
    method Yield(ghost mine: TxId)
      requires Inv(s) && mine < s.nextTx
      modifies this`s
      ensures exists ops :: Legal(old(s), ops) && ByOthers(ops, mine) && s == After(old(s), ops)
      ensures Stable(old(s), s, mine) && Reaches(old(s), s)
    {
      assert Legal(s, []) && ByOthers([], mine) && s == After(s, []);
      OthersAreStable(s, [], mine);
    }

    /** One statement of a transaction. It may fail, and fails rather than wait for ever for a row. */
    method Execute(op: Op) returns (ok: bool)
      requires !op.InsertEventAlone?
      modifies this`s, this`own
      ensures ok ==> Enabled(old(s), op) && s == Apply(old(s), op) && Reaches(old(s), s)
      ensures ok ==> own == old(own) + if op.Begin? then {old(s.nextTx)} else {}
      ensures !ok ==> s == old(s) && own == old(own)
    {
      hide Enabled, Apply, Reaches;
      var up := *;
      ok := up && Enabled(s, op);
      if ok {
        ReachesNext(s, op);
        own := own + if op.Begin? then {s.nextTx} else {};
        s := Apply(s, op);
      }
    }

    method Open(user: UserId, kind: Kind) returns (tx: Option<TxId>)
      requires Inv(s) && KindOk(kind)
      modifies this`s, this`own
      ensures Inv(s) && s.tables == old(s.tables) && s.commits == old(s.commits)
      ensures tx.Some? ==>
                && tx.value == old(s.nextTx) < s.nextTx && tx.value !in s.commits
                && tx.value in s.open && s.open[tx.value] == NewTx(tx.value, user, kind)
                && Reaches(old(s), s) && own == old(own) + {tx.value}
      ensures tx.None? ==> s == old(s) && own == old(own)
    {
      hide Reaches;
      var id := s.nextTx;
      var op := Begin(user, kind);
      var ok := Execute(op);
      if !ok {
        return None;
      }
      StepKeepsInv(old(s), op);
      assert id !in s.commits;
      return Some(id);
    }

    /** A statement of the open transaction `tx`, short of its end, after others have run; a
        failure rolls the transaction back. */
    method Advance(op: Op, tx: TxId) returns (ok: bool)
      requires Inv(s) && tx in s.open
      requires op in {SelectForUpdate(tx), InsertWallet(tx), InsertLedgerRow(tx), UpdateWallet(tx), InsertEvent(tx)}
      modifies this`s, this`own
      ensures Inv(s) && tx !in s.commits && tx < s.nextTx && old(s.nextTx) <= s.nextTx
      ensures Reaches(old(s), s) && own == old(own)
      ensures ok ==>
                && tx in s.open && s.open[tx].user == old(s).open[tx].user && s.open[tx].kind == old(s).open[tx].kind
                && (op.SelectForUpdate? ==>
                      s.open[tx].phase == Holding || (s.open[tx].phase == Missing && old(s).open[tx].phase == Begun))
                && (op.InsertWallet? ==> s.open[tx].phase in {Retry, Created})
                && (op.InsertLedgerRow? ==> s.open[tx].phase == Logged)
                && (op.UpdateWallet? ==> s.open[tx].phase == Updated)
                && (op.InsertEvent? ==> s.open[tx].phase == Metered)
                && (!op.SelectForUpdate? && !op.InsertWallet? ==> s.open[tx].balance == old(s).open[tx].balance)
      ensures !ok ==> Closed(s, tx)
    {
      hide TablesOk, KindOk, RowFree, Reaches;
      assert TxOk(s, tx);
      Yield(tx);
      ghost var before := s;
      ok := Execute(op);
      if ok {
        StepKeepsInv(before, op);
      } else {
        Abandon(tx);
      }
      ReachesOn(old(s), before, s);
    }

    /** Dropping an open transaction rolls it back. */
    method Abandon(tx: TxId)
      requires Inv(s) && tx in s.open
      modifies this`s
      ensures Inv(s) && Closed(s, tx) && s.tables == old(s.tables) && s.commits == old(s.commits) && s.nextTx == old(s.nextTx)
      ensures tx !in s.commits && tx !in s.open && tx < s.nextTx && Reaches(old(s), s)
    {
      hide TablesOk, KindOk, RowFree, Reaches;
      assert TxOk(s, tx);
      StepKeepsInv(s, Rollback(tx));
      ReachesNext(s, Rollback(tx));
      s := Apply(s, Rollback(tx));
    }

    /** Locks the wallet row of the transaction's user, creating it when there is none. */
    method EnsureWalletInTx(tx: TxId) returns (balance: Option<I64>)
      requires Inv(s) && tx in s.open && s.open[tx].phase == Begun
      modifies this`s, this`own
      ensures Inv(s) && tx < s.nextTx && old(s.nextTx) <= s.nextTx
      ensures Reaches(old(s), s) && own == old(own)
      ensures balance.Some? ==>
                && tx in s.open && s.open[tx].phase == Holding && s.open[tx].balance == balance.value
                && s.open[tx].user == old(s).open[tx].user && s.open[tx].kind == old(s).open[tx].kind
      ensures balance.None? ==> Closed(s, tx) && tx !in s.commits
    {
      hide *;
      var ok := Advance(SelectForUpdate(tx), tx);
      if ok && s.open[tx].phase == Missing {
        ghost var before := s;
        ok := Advance(InsertWallet(tx), tx);
        ReachesOn(old(s), before, s);
        if ok {
          before := s;
          ok := Advance(SelectForUpdate(tx), tx);
          ReachesOn(old(s), before, s);
        }
      }
      return if ok then Some(s.open[tx].balance) else None;
    }

    /** The commit, after others have run. What it writes is on top of the balance of that moment,
        and all the rows the transaction ever writes. */
    method CommitTx(tx: TxId) returns (ok: bool)
      requires Inv(s) && tx in s.open && s.open[tx].phase == LastPhase(s.open[tx].kind)
      modifies this`s, this`own
      ensures Inv(s) && Closed(s, tx) && old(s.nextTx) <= s.nextTx
      ensures Reaches(old(s), s) && own == old(own)
      ensures ok ==> tx in s.commits
      ensures !ok ==> tx !in s.commits && RowsOf(s.tables.ledger, tx) == []
      ensures ok && !old(s).open[tx].kind.Ensure? ==>
                s.tables.ledger != [] && RowsOf(s.tables.ledger, tx) == [s.tables.ledger[|s.tables.ledger| - 1]]
      ensures ok && old(s).open[tx].kind.Charge? ==>
                var kind := old(s).open[tx].kind;
                && s.tables.events != []
                && s.tables.ledger[|s.tables.ledger| - 1] ==
                   LedgerRow(tx, old(s).open[tx].user, Some(kind.event.requestId), -kind.amount, BalanceOf(s.tables, old(s).open[tx].user))
                && s.tables.events[|s.tables.events| - 1] == kind.event
      ensures ok && old(s).open[tx].kind.Grant? ==>
                && s.tables.ledger[|s.tables.ledger| - 1] ==
                   LedgerRow(tx, old(s).open[tx].user, None, old(s).open[tx].kind.amount, BalanceOf(s.tables, old(s).open[tx].user))
                && BalanceOf(s.tables, old(s).open[tx].user) == SaturatingAdd(old(s).open[tx].balance, old(s).open[tx].kind.amount)
      ensures ok && old(s).open[tx].kind.Ensure? ==>
                && BalanceOf(s.tables, old(s).open[tx].user) == old(s).open[tx].balance
                && RowsOf(s.tables.ledger, tx) == []
    {
      hide Inv, TxOk, Apply, Enabled, Reaches, RowsOf, BalanceOf, SaturatingAdd;
      OpenIsNotCommitted(s, tx);
      Yield(tx);
      ghost var before := s;
      ok := Execute(Commit(tx));
      if ok {
        Commits(before, tx);
      } else {
        Abandon(tx);
        RowsOfRun(s, tx);
      }
      ReachesOn(old(s), before, s);
    }

    /** The writes of a grant or a charge, and its commit. */
    method WriteAndCommit(tx: TxId) returns (ok: bool)
      requires Inv(s) && tx in s.open && s.open[tx].phase == Holding && !s.open[tx].kind.Ensure?
      modifies this`s, this`own
      ensures Inv(s) && Closed(s, tx) && old(s.nextTx) <= s.nextTx
      ensures Reaches(old(s), s) && own == old(own)
      ensures !ok ==> tx !in s.commits
      ensures ok ==>
                s.tables.ledger != [] && RowsOf(s.tables.ledger, tx) == [s.tables.ledger[|s.tables.ledger| - 1]]
      ensures ok && old(s).open[tx].kind.Charge? ==>
                var kind := old(s).open[tx].kind;
                && s.tables.ledger[|s.tables.ledger| - 1] ==
                   LedgerRow(tx, old(s).open[tx].user, Some(kind.event.requestId), -kind.amount, BalanceOf(s.tables, old(s).open[tx].user))
                && s.tables.events != [] && s.tables.events[|s.tables.events| - 1] == kind.event
      ensures ok && old(s).open[tx].kind.Grant? ==>
                && s.tables.ledger[|s.tables.ledger| - 1] ==
                   LedgerRow(tx, old(s).open[tx].user, None, old(s).open[tx].kind.amount, BalanceOf(s.tables, old(s).open[tx].user))
                && BalanceOf(s.tables, old(s).open[tx].user) == SaturatingAdd(old(s).open[tx].balance, old(s).open[tx].kind.amount)
    {
      hide Inv, Reaches, RowsOf, BalanceOf, SaturatingAdd, Closed;
      ok := Advance(InsertLedgerRow(tx), tx);
      ghost var before := s;
      if ok {
        ok := Advance(UpdateWallet(tx), tx);
        ReachesOn(old(s), before, s);
      }
      before := s;
      if ok && s.open[tx].kind.Charge? {
        ok := Advance(InsertEvent(tx), tx);
        ReachesOn(old(s), before, s);
      }
      before := s;
      if ok {
        ok := CommitTx(tx);
        ReachesOn(old(s), before, s);
      }
    }

    /** The one statement outside transactions. */
    method InsertUsageEvent(input: BillingInput, status: nat) returns (ok: bool)
      requires Inv(s)
      modifies this`s, this`alone
      ensures Inv(s) && s.nextTx == old(s.nextTx) && s.commits == old(s.commits) && s.open == old(s.open)
      ensures Reaches(old(s), s) && alone == old(alone) + if ok then [EventOf(input, status)] else []
      ensures s.tables.wallets == old(s.tables.wallets) && s.tables.ledger == old(s.tables.ledger)
      ensures s.tables.events == old(s.tables.events) + if ok then [EventOf(input, status)] else []
    {
      hide TablesOk, TxOk, Reaches;
      var op := InsertEventAlone(EventOf(input, status));
      ReachesItself(s);
      ok := *;
      if ok {
        StepKeepsInv(s, op);
        ReachesNext(s, op);
        alone := alone + [op.event];
        s := Apply(s, op);
      }
    }

    /** Meters one request. A success status with a positive charge is one transaction that
        writes ledger row, balance and event together or not at all; anything else is one event. */
    method RecordUsage(input: BillingInput) returns (r: AppResult<()>)
      requires Valid()
      modifies this
      ensures Valid() && MetersOnce(old(View()), View(), input, r)
      // In numbers: a success is charged each part of its usage at its own price per million tokens,
      // rounded up, in one ledger row; any other call writes no row.
      ensures var p, q := (input.usage.promptTokens * input.price.input + 999_999) / 1_000_000,
                          (input.usage.completionTokens * input.price.output + 999_999) / 1_000_000;
              var rows := Written(s, old(own), own);
              input.price.input >= 0 && input.price.output >= 0 && p + q <= I64_MAX ==>
                && (if r.Success? && 200 <= input.status <= 299 && p + q > 0 then
                      && |rows| == 1 && rows[0].user == input.user && rows[0].requestId == Some(input.requestId)
                      && rows[0].delta == -(p + q) && rows[0].balanceAfter == BalanceOf(s.tables, input.user)
                    else rows == [])
                && (r == Failure(InsufficientCredit) ==> 200 <= input.status <= 299 && BalanceOf(s.tables, input.user) < p + q)
      ensures r.Success? || r == Failure(InsufficientCredit) ==>
                && s.tables.events != []
                && s.tables.events[|s.tables.events| - 1] ==
                   UsageEvent(input.requestId, input.user, input.usage, if r.Success? then input.status else 402)
      ensures own == old(own) ==> s.tables.ledger == old(s.tables.ledger) && s.tables.wallets == old(s.tables.wallets)
      ensures own != old(own) ==> IsSuccessStatus(input.status) && ChargeOf(input) > 0
      ensures r.Success? && IsSuccessStatus(input.status) && ChargeOf(input) > 0 ==>
                s.tables.ledger != [] && Written(s, old(own), own) == [s.tables.ledger[|s.tables.ledger| - 1]]
      ensures r == Failure(InsufficientCredit) ==> ChargeRefused(BalanceOf(s.tables, input.user), input.usage, input.price)
      ensures r.Failure? ==> r.error in {InsufficientCredit, FAULT}
    {
      hide Inv, TxOk, Enabled, Sufficient, BalanceOf, ChargeRefused, CalculateUsageCharge, RowsBy, IsMetered, Legal, ByOthers,
           Called, IsCharge, Reaches, Written, MeteringRows;
      NothingCharged(input);
      calls := calls + [input];
      var charge := CalculateUsageCharge(input.usage, input.price);
      if !IsSuccessStatus(input.status) || charge.total <= 0 {
        var ok := InsertUsageEvent(input, input.status);
        CalledIdly(old(s), own, s);
        if ok {
          MeteredByEvent(s.tables, input);
        }
        r := if ok then Success(()) else Failure(FAULT);
        RowsInNumbers(Written(s, old(own), own), input, r, s.tables);
        return;
      }
      r := RecordCharge(input, charge.total);
      RowsInNumbers(Written(s, old(own), own), input, r, s.tables);
    }

    /** The transaction of a charge. */
    method RecordCharge(input: BillingInput, charge: I64) returns (r: AppResult<()>)
      requires Valid() && IsSuccessStatus(input.status) && charge == ChargeOf(input) > 0
      modifies this`s, this`own, this`alone
      ensures alone == old(alone) + EventsAlone(input, r)
      ensures Valid() && Called(old(s), old(own), s, own) && MeteringRows(Written(s, old(own), own), input, r, s.tables)
      ensures own == old(own) ==> s.tables.ledger == old(s.tables.ledger) && s.tables.wallets == old(s.tables.wallets)
      ensures r.Success? ==>
                && IsMetered(s.tables, input)
                && s.tables.events != [] && s.tables.events[|s.tables.events| - 1] == EventOf(input, input.status)
                && s.tables.ledger != [] && Written(s, old(own), own) == [s.tables.ledger[|s.tables.ledger| - 1]]
      ensures r == Failure(InsufficientCredit) ==>
                && ChargeRefused(BalanceOf(s.tables, input.user), input.usage, input.price)
                && s.tables.events != []
                && s.tables.events[|s.tables.events| - 1] == EventOf(input, STATUS_PAYMENT_REQUIRED)
      ensures r.Failure? ==> r.error in {InsufficientCredit, FAULT}
    {
      hide Inv, TxOk, Enabled, Apply, Sufficient, BalanceOf, ChargeRefused, CalculateUsageCharge, RowsOf, RowsBy, IsMetered,
           Called, Reaches, Written, MeteringRows, ChargeOf, Closed;
      NoCharge(input);
      var event := EventOf(input, input.status);
      var begun := Open(input.user, Charge(charge, event));
      if begun.None? {
        ReachesItself(s);
        CalledIdly(s, own, s);
        return Failure(FAULT);
      }
      var id := begun.value;
      ghost var before := s;
      var balance := EnsureWalletInTx(id);
      ReachesOn(old(s), before, s);
      if balance.None? {
        NoRowsWritten(old(s), old(own), s, id);
        return Failure(FAULT);
      }
      if balance.value < charge {
        before := s;
        var ok := InsertUsageEvent(input, STATUS_PAYMENT_REQUIRED);
        ReachesOn(old(s), before, s);
        HeldBalance(s, id);
        Refused(balance.value, input);
        before := s;
        Abandon(id);
        ReachesOn(old(s), before, s);
        NoRowsWritten(old(s), old(own), s, id);
        return Failure(if ok then InsufficientCredit else FAULT);
      }
      before := s;
      var ok := WriteAndCommit(id);
      ReachesOn(old(s), before, s);
      if !ok {
        NoRowsWritten(old(s), old(own), s, id);
        return Failure(FAULT);
      }
      CalledOnce(old(s), old(own), s, id);
      ChargeIsWritten(s.tables, input);
      return Success(());
    }

    /** Grants credit; the balance saturates while the ledger row records the full amount. */
    method GrantCredits(user: UserId, amount: I64) returns (r: AppResult<I64>)
      requires Valid()
      modifies this`s, this`own
      ensures Valid() && Called(old(s), old(own), s, own)
      // The call writes one ledger row, that of a committed grant, or none.
      ensures var rows := Written(s, old(own), own);
              if r.Success? then
                && amount > 0 && |rows| == 1 && rows[0] == LedgerRow(rows[0].tx, user, None, amount, r.value)
                && r.value == BalanceOf(s.tables, user)
              else rows == []
      ensures amount <= 0 ==> r.Failure? && s == old(s) && own == old(own)
    {
      hide Inv, TxOk, Enabled, Sufficient, BalanceOf, SaturatingAdd, RowsOf, RowsBy, Called, Reaches, Written;
      ReachesItself(s);
      CalledIdly(s, own, s);
      if amount <= 0 {
        return Failure(InvalidConfig("grant.amount_microcredits"));
      }
      var begun := Open(user, Grant(amount));
      if begun.None? {
        return Failure(FAULT);
      }
      var id := begun.value;
      ghost var before := s;
      var balance := EnsureWalletInTx(id);
      ReachesOn(old(s), before, s);
      if balance.None? {
        NoRowsWritten(old(s), old(own), s, id);
        return Failure(FAULT);
      }
      var newBalance := SaturatingAdd(balance.value, amount);
      before := s;
      var ok := WriteAndCommit(id);
      ReachesOn(old(s), before, s);
      if !ok {
        NoRowsWritten(old(s), old(own), s, id);
        return Failure(FAULT);
      }
      CalledOnce(old(s), old(own), s, id);
      return Success(newBalance);
    }

    /** The credit preflight: success means the balance of that moment passes. It writes no row. */
    method EnsureSufficientCredit(user: UserId, usage: TokenUsage, price: RoutePrice) returns (r: AppResult<()>)
      requires Valid()
      modifies this`s, this`own
      ensures Valid() && MetersNothing(old(View()), View())
      ensures r.Success? ==> PreflightPasses(BalanceOf(s.tables, user), usage, price)
      ensures r == Failure(InsufficientCredit) ==> !PreflightPasses(BalanceOf(s.tables, user), usage, price)
      ensures r.Failure? ==> r.error in {InsufficientCredit, FAULT}
      // In numbers: the balance covers each part of the usage at its own price, or does not.
      ensures var p, q := (usage.promptTokens * price.input + 999_999) / 1_000_000,
                          (usage.completionTokens * price.output + 999_999) / 1_000_000;
              price.input >= 0 && price.output >= 0 && p + q <= I64_MAX ==>
                && (r.Success? ==> p + q == 0 || p + q <= BalanceOf(s.tables, user))
                && (r == Failure(InsufficientCredit) ==> 0 < p + q && BalanceOf(s.tables, user) < p + q)
    {
      hide Inv, TxOk, Enabled, BalanceOf, CalculateUsageCharge, RowsOf, RowsBy, Called, Reaches, Written;
      if price.input >= 0 && price.output >= 0 {
        ChargeInNumbers(usage, price);
      }
      ReachesItself(s);
      CalledIdly(s, own, s);
      var charge := CalculateUsageCharge(usage, price);
      if charge.total <= 0 {
        return Success(());
      }
      var begun := Open(user, Ensure);
      if begun.None? {
        return Failure(FAULT);
      }
      var id := begun.value;
      ghost var before := s;
      var balance := EnsureWalletInTx(id);
      ReachesOn(old(s), before, s);
      if balance.None? {
        NoRowsWritten(old(s), old(own), s, id);
        return Failure(FAULT);
      }
      before := s;
      var ok := CommitTx(id);
      ReachesOn(old(s), before, s);
      CalledOnce(old(s), old(own), s, id);
      if !ok {
        return Failure(FAULT);
      }
      if balance.value < charge.total {
        return Failure(InsufficientCredit);
      }
      return Success(());
    }
  }

  lemma OpenIsNotCommitted(s: System, id: TxId)
    requires Inv(s) && id in s.open
    ensures id !in s.commits && id < s.nextTx
  {
    assert TxOk(s, id);
  }

  /** What a commit writes, and that it is all of the transaction's rows. */
  lemma Commits(s: System, id: TxId)
    requires Inv(s) && Enabled(s, Commit(id))
    ensures var s', tx := Apply(s, Commit(id)), s.open[id];
            && Inv(s') && Closed(s', id) && id in s'.commits && s.nextTx <= s'.nextTx
            && (if tx.kind.Ensure? then BalanceOf(s'.tables, tx.user) == tx.balance && RowsOf(s'.tables.ledger, id) == []
                else s'.tables.ledger != [] && RowsOf(s'.tables.ledger, id) == [s'.tables.ledger[|s'.tables.ledger| - 1]])
            && (tx.kind.Charge? ==>
                  && s'.tables.ledger[|s'.tables.ledger| - 1] ==
                     LedgerRow(id, tx.user, Some(tx.kind.event.requestId), -tx.kind.amount, BalanceOf(s'.tables, tx.user))
                  && s'.tables.events != [] && s'.tables.events[|s'.tables.events| - 1] == tx.kind.event)
            && (tx.kind.Grant? ==>
                  && s'.tables.ledger[|s'.tables.ledger| - 1] ==
                     LedgerRow(id, tx.user, None, tx.kind.amount, BalanceOf(s'.tables, tx.user))
                  && BalanceOf(s'.tables, tx.user) == SaturatingAdd(tx.balance, tx.kind.amount))
  {
    hide TablesOk, RowFree, RowsOk, WritesOk, Committed, RowsOf, SaturatingAdd, BalanceOf, LastBalance;
    assert TxOk(s, id);
    StepKeepsInv(s, Commit(id));
    ChargeIsAtomic(s, Commit(id));
    BalanceIsCurrent(s, id);
    BalanceIsLast(s, s.open[id].user);
    RowsOfRun(s, id);
    RowsOfRun(Apply(s, Commit(id)), id);
  }

  lemma NoCharge(input: BillingInput)
    ensures forall error, tables :: MeteringRows([], input, Failure(error), tables)
  {
  }

  lemma ChargeIsWritten(tables: Tables, input: BillingInput)
    requires IsSuccessStatus(input.status) && ChargeOf(input) > 0 && tables.ledger != [] && tables.events != []
    requires var row := tables.ledger[|tables.ledger| - 1];
             row == LedgerRow(row.tx, input.user, Some(input.requestId), -ChargeOf(input), BalanceOf(tables, input.user))
    requires tables.events[|tables.events| - 1] == EventOf(input, input.status)
    ensures MeteringRows([tables.ledger[|tables.ledger| - 1]], input, Success(()), tables) && IsMetered(tables, input)
  {
    hide CalculateUsageCharge, BalanceOf;
    MeteredByEvent(tables, input);
  }

  /** A call whose one transaction was rolled back. */
  lemma NoRowsWritten(s: System, own: set<TxId>, s': System, id: TxId)
    requires Inv(s') && Reaches(s, s') && s.nextTx <= id && Closed(s', id) && id !in s'.commits && id !in own
    ensures Called(s, own, s', own + {id}) && Written(s', own, own + {id}) == []
  {
    hide *;
    RowsOfRun(s', id);
    CalledOnce(s, own, s', id);
  }

  lemma NothingCharged(input: BillingInput)
    ensures !IsSuccessStatus(input.status) || ChargeOf(input) <= 0 ==> forall r, tables :: MeteringRows([], input, r, tables)
  {
    hide CalculateUsageCharge;
  }

  /** The rows of a metering call with the charge in numbers. */
  lemma RowsInNumbers(rows: seq<LedgerRow>, input: BillingInput, r: AppResult<()>, tables: Tables)
    requires MeteringRows(rows, input, r, tables)
    requires r == Failure(InsufficientCredit) ==>
               IsSuccessStatus(input.status) && ChargeRefused(BalanceOf(tables, input.user), input.usage, input.price)
    ensures var p, q := (input.usage.promptTokens * input.price.input + 999_999) / 1_000_000,
                        (input.usage.completionTokens * input.price.output + 999_999) / 1_000_000;
            input.price.input >= 0 && input.price.output >= 0 && p + q <= I64_MAX ==>
              && (if r.Success? && 200 <= input.status <= 299 && p + q > 0 then
                    && |rows| == 1 && rows[0].user == input.user && rows[0].requestId == Some(input.requestId)
                    && rows[0].delta == -(p + q) && rows[0].balanceAfter == BalanceOf(tables, input.user)
                  else rows == [])
              && (r == Failure(InsufficientCredit) ==> 200 <= input.status <= 299 && BalanceOf(tables, input.user) < p + q)
  {
    hide CalculateUsageCharge, BalanceOf;
    if input.price.input >= 0 && input.price.output >= 0 {
      ChargeInNumbers(input.usage, input.price);
    }
  }

  lemma MeteredByEvent(tables: Tables, input: BillingInput)
    requires tables.events != [] && tables.events[|tables.events| - 1] == EventOf(input, input.status)
    requires IsSuccessStatus(input.status) && ChargeOf(input) > 0 ==>
               tables.ledger != [] &&
               var row := tables.ledger[|tables.ledger| - 1];
               row.user == input.user && row.requestId == Some(input.requestId) && row.delta == -ChargeOf(input)
    ensures IsMetered(tables, input)
  {
    hide CalculateUsageCharge;
  }

  /** The rows of a transaction after its last statement. */
  lemma RowsOfRun(s: System, id: TxId)
    requires Inv(s)
    ensures id !in s.commits ==> RowsOf(s.tables.ledger, id) == []
    ensures s.tables.ledger != [] && s.tables.ledger[|s.tables.ledger| - 1].tx == id ==>
              RowsOf(s.tables.ledger, id) == [s.tables.ledger[|s.tables.ledger| - 1]]
  {
    hide TablesOk, TxOk;
    RowsOfOne(s.tables.ledger, s.commits, id);
  }

  lemma Refused(balance: I64, input: BillingInput)
    requires 0 < ChargeOf(input) && balance < ChargeOf(input)
    ensures ChargeRefused(balance, input.usage, input.price)
  {
  }

  lemma HeldBalance(s: System, id: TxId)
    requires Inv(s) && id in s.open && s.open[id].phase == Holding
    ensures BalanceOf(s.tables, s.open[id].user) == s.open[id].balance
  {
    assert TxOk(s, id);
  }
}
