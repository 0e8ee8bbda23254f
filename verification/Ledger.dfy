/** The wallet, ledger and usage-event tables of mizan-api under concurrent, row-locked
    transactions that may be rolled back at any statement. */
module Ledger {
  import opened Core

  type UserId = string
  type RequestId = string
  type TxId = nat

  /** A ledger row, with the transaction that wrote it. */
  datatype LedgerRow = LedgerRow(tx: TxId, user: UserId, requestId: Option<RequestId>, delta: I64, balanceAfter: I64)
  datatype UsageEvent = UsageEvent(requestId: RequestId, user: UserId, usage: TokenUsage, status: nat)
  datatype Tables = Tables(wallets: map<UserId, I64>, ledger: seq<LedgerRow>, events: seq<UsageEvent>)

  /** What a transaction is for: a credit grant, a usage charge, or only the wallet row. */
  datatype Kind = Grant(amount: I64) | Charge(amount: I64, event: UsageEvent) | Ensure

  datatype Phase = Begun | Missing | Created | Retry | Holding | Logged | Updated | Metered

  /** An open transaction, with the balance it has read and what it has written so far: the wallet
      row, ledger rows and events that become visible at commit only. */
  datatype Tx = Tx(id: TxId, user: UserId, kind: Kind, phase: Phase, balance: I64, created: bool,
                   wallet: Option<I64>, rows: seq<LedgerRow>, events: seq<UsageEvent>)

  function NewTx(id: TxId, user: UserId, kind: Kind): Tx {
    Tx(id, user, kind, Begun, 0, false, None, [], [])
  }

  /** The committed tables, the open transactions, and the committed ones in order. */
  datatype System = System(tables: Tables, open: map<TxId, Tx>, nextTx: TxId, commits: seq<TxId>)

  const EMPTY := System(Tables(map[], [], []), map[], 0, [])

  // ----- Statements -----

  datatype Op =
    | Begin(user: UserId, kind: Kind)
    | SelectForUpdate(tx: TxId)
    | InsertWallet(tx: TxId)
    | InsertLedgerRow(tx: TxId)
    | UpdateWallet(tx: TxId)
    | InsertEvent(tx: TxId)
    | Commit(tx: TxId)
    | Rollback(tx: TxId)
    | InsertEventAlone(event: UsageEvent)

  predicate OfTransaction(op: Op, tx: TxId) {
    !op.Begin? && !op.InsertEventAlone? && op.tx == tx
  }

  predicate HoldsRow(tx: Tx) {
    tx.phase !in {Begun, Missing, Retry}
  }

  /** No other transaction holds the wallet row of `user`, or its entry in the unique index. */
  predicate RowFree(s: System, id: TxId, user: UserId) {
    forall other :: other in s.open && other != id && HoldsRow(s.open[other]) ==> s.open[other].user != user
  }

  function SaturatingAdd(a: I64, b: I64): I64 {
    if a + b > I64_MAX then I64_MAX else if a + b < I64_MIN then I64_MIN else a + b
  }

  predicate Sufficient(tx: Tx) {
    tx.kind.Grant? || (tx.kind.Charge? && 0 < tx.kind.amount <= tx.balance)
  }

  function RowOf(tx: Tx): LedgerRow
    requires Sufficient(tx)
  {
    match tx.kind
    case Grant(amount) => LedgerRow(tx.id, tx.user, None, amount, SaturatingAdd(tx.balance, amount))
    case Charge(amount, event) => LedgerRow(tx.id, tx.user, Some(event.requestId), -amount, tx.balance - amount)
  }

  predicate KindOk(kind: Kind) {
    match kind
    case Grant(amount) => amount > 0
    case Charge(amount, event) => amount > 0 && IsSuccessStatus(event.status)
    case Ensure => true
  }

  /** The phase a transaction commits in. */
  function LastPhase(kind: Kind): Phase {
    match kind
    case Grant(_) => Updated
    case Charge(_, _) => Metered
    case Ensure => Holding
  }

  /** A statement waits while another transaction holds the row it needs. */
  predicate Enabled(s: System, op: Op) {
    match op
    case Begin(_, kind) => KindOk(kind)
    case InsertEventAlone(_) => true
    case SelectForUpdate(id) =>
      && id in s.open && s.open[id].phase in {Begun, Retry, Created}
      && (s.open[id].user in s.tables.wallets ==> RowFree(s, id, s.open[id].user))
      && (s.open[id].phase == Retry ==> s.open[id].user in s.tables.wallets)
    case InsertWallet(id) =>
      id in s.open && s.open[id].phase == Missing && (s.open[id].user in s.tables.wallets || RowFree(s, id, s.open[id].user))
    case InsertLedgerRow(id) => id in s.open && s.open[id].phase == Holding && Sufficient(s.open[id])
    case UpdateWallet(id) => id in s.open && s.open[id].phase == Logged && Sufficient(s.open[id])
    case InsertEvent(id) => id in s.open && s.open[id].phase == Updated && s.open[id].kind.Charge?
    case Commit(id) =>
      id in s.open && s.open[id].phase == LastPhase(s.open[id].kind)
    case Rollback(id) => id in s.open
  }

  /** The tables with what a transaction has written. */
  function Committed(tables: Tables, tx: Tx): Tables {
    Tables(if tx.wallet.Some? then tables.wallets[tx.user := tx.wallet.value] else tables.wallets,
           tables.ledger + tx.rows, tables.events + tx.events)
  }

  function WithPhase(s: System, id: TxId, phase: Phase): System
    requires id in s.open
  {
    s.(open := s.open[id := s.open[id].(phase := phase)])
  }

  function Apply(s: System, op: Op): System
    requires Enabled(s, op)
  {
    match op
    case Begin(user, kind) =>
      s.(open := s.open[s.nextTx := NewTx(s.nextTx, user, kind)], nextTx := s.nextTx + 1)
    case InsertEventAlone(event) => s.(tables := s.tables.(events := s.tables.events + [event]))
    case SelectForUpdate(id) =>
      var tx := s.open[id];
      if tx.phase == Created then WithPhase(s, id, Holding)
      else if tx.user in s.tables.wallets then
        s.(open := s.open[id := tx.(phase := Holding, balance := s.tables.wallets[tx.user])])
      else WithPhase(s, id, Missing)
    case InsertWallet(id) =>
      if s.open[id].user in s.tables.wallets then WithPhase(s, id, Retry)
      else s.(open := s.open[id := s.open[id].(phase := Created, balance := 0, created := true, wallet := Some(0))])
    case InsertLedgerRow(id) =>
      var tx := s.open[id];
      s.(open := s.open[id := tx.(phase := Logged, rows := tx.rows + [RowOf(tx)])])
    case UpdateWallet(id) =>
      var tx := s.open[id];
      s.(open := s.open[id := tx.(phase := Updated, wallet := Some(RowOf(tx).balanceAfter))])
    case InsertEvent(id) =>
      var tx := s.open[id];
      s.(open := s.open[id := tx.(phase := Metered, events := tx.events + [tx.kind.event])])
    case Commit(id) =>
      s.(tables := Committed(s.tables, s.open[id]), open := s.open - {id}, commits := s.commits + [id])
    case Rollback(id) => s.(open := s.open - {id})
  }

  // ----- What the ledger says -----

  /** The balance after the last row of a user. */
  function LastBalance(ledger: seq<LedgerRow>, user: UserId): I64 {
    if ledger == [] then 0
    else
      var last := ledger[|ledger| - 1];
      if last.user == user then last.balanceAfter else LastBalance(ledger[..|ledger| - 1], user)
  }

  /** A row follows from the balance before it; only a grant past the largest amount loses any. */
  predicate Follows(row: LedgerRow, before: I64) {
    && row.balanceAfter == SaturatingAdd(before, row.delta)
    && row.balanceAfter >= 0
  }

  predicate Chained(ledger: seq<LedgerRow>) {
    ledger == [] ||
    var init, last := ledger[..|ledger| - 1], ledger[|ledger| - 1];
    Chained(init) && Follows(last, LastBalance(init, last.user))
  }

  function SumOfDeltas(ledger: seq<LedgerRow>, user: UserId): int {
    if ledger == [] then 0
    else
      var last := ledger[|ledger| - 1];
      SumOfDeltas(ledger[..|ledger| - 1], user) + if last.user == user then last.delta else 0
  }

  /** No grant of the user met the largest amount. */
  predicate NeverSaturated(ledger: seq<LedgerRow>, user: UserId) {
    ledger == [] ||
    var init, last := ledger[..|ledger| - 1], ledger[|ledger| - 1];
    NeverSaturated(init, user) && (last.user == user ==> LastBalance(init, user) + last.delta <= I64_MAX)
  }

  /** The ledger is the truth: the last balance is the sum of the deltas if and only if no grant
      saturated, and never more than it. */
  lemma {:induction false} BalanceIsSum(ledger: seq<LedgerRow>, user: UserId)
    requires Chained(ledger)
    ensures LastBalance(ledger, user) >= 0
    ensures LastBalance(ledger, user) <= SumOfDeltas(ledger, user)
    ensures LastBalance(ledger, user) == SumOfDeltas(ledger, user) <==> NeverSaturated(ledger, user)
  {
    if ledger != [] {
      BalanceIsSum(ledger[..|ledger| - 1], user);
    }
  }

  predicate TablesOk(tables: Tables) {
    && Chained(tables.ledger)
    && (forall user :: user in tables.wallets ==> tables.wallets[user] == LastBalance(tables.ledger, user) >= 0)
    && (forall i :: 0 <= i < |tables.ledger| ==> tables.ledger[i].user in tables.wallets)
  }

  /** What a transaction has written by each phase. */
  predicate WritesOk(tx: Tx) {
    && tx.rows == (if tx.phase in {Logged, Updated, Metered} && Sufficient(tx) then [RowOf(tx)] else [])
    && tx.events == (if tx.phase == Metered && tx.kind.Charge? then [tx.kind.event] else [])
    && tx.wallet == (if tx.phase in {Updated, Metered} && Sufficient(tx) then Some(RowOf(tx).balanceAfter)
                     else if tx.created then Some(0) else None)
  }

  predicate TxOk(s: System, id: TxId)
    requires id in s.open
  {
    var tx := s.open[id];
    && tx.id == id && id < s.nextTx && id !in s.commits && KindOk(tx.kind) && tx.balance >= 0
    && (tx.phase == Created ==> tx.created)
    && (HoldsRow(tx) ==>
          && RowFree(s, id, tx.user)
          && (if tx.created then tx.user !in s.tables.wallets && tx.balance == 0
              else tx.user in s.tables.wallets && tx.balance == s.tables.wallets[tx.user]))
    && (tx.phase in {Logged, Updated, Metered} ==> Sufficient(tx))
    && WritesOk(tx)
    && (tx.phase == Metered ==> tx.kind.Charge?)
    && (tx.phase == Retry ==> tx.user in s.tables.wallets)
    && (!HoldsRow(tx) ==> !tx.created)
  }

  /** Every ledger row was written by a committed transaction, and no two by the same. */
  predicate RowsOk(ledger: seq<LedgerRow>, commits: seq<TxId>) {
    && (forall i :: 0 <= i < |ledger| ==> ledger[i].tx in commits)
    && (forall i, j :: 0 <= i < j < |ledger| ==> ledger[i].tx != ledger[j].tx)
  }

  ghost predicate Inv(s: System) {
    && TablesOk(s.tables) && RowsOk(s.tables.ledger, s.commits)
    && (forall id :: id in s.open ==> TxOk(s, id))
    && (forall i :: 0 <= i < |s.commits| ==> s.commits[i] < s.nextTx)
    && (forall i, j :: 0 <= i < j < |s.commits| ==> s.commits[i] != s.commits[j])
  }

  lemma NoRows(ledger: seq<LedgerRow>, user: UserId)
    requires forall i :: 0 <= i < |ledger| ==> ledger[i].user != user
    ensures LastBalance(ledger, user) == 0
  {
  }

  lemma AppendBalance(ledger: seq<LedgerRow>, row: LedgerRow, user: UserId)
    ensures LastBalance(ledger + [row], user) == if user == row.user then row.balanceAfter else LastBalance(ledger, user)
  {
    assert (ledger + [row])[..|ledger|] == ledger;
  }

  lemma AppendChained(ledger: seq<LedgerRow>, row: LedgerRow)
    requires Chained(ledger) && Follows(row, LastBalance(ledger, row.user))
    ensures Chained(ledger + [row])
  {
    assert (ledger + [row])[..|ledger|] == ledger;
  }

  lemma AppendKeepsTables(tables: Tables, row: LedgerRow, events: seq<UsageEvent>)
    requires TablesOk(tables) && Follows(row, LastBalance(tables.ledger, row.user))
    ensures TablesOk(Tables(tables.wallets[row.user := row.balanceAfter], tables.ledger + [row], events))
  {
    hide Chained, Follows, LastBalance;
    AppendChained(tables.ledger, row);
    forall user ensures LastBalance(tables.ledger + [row], user) ==
        if user == row.user then row.balanceAfter else LastBalance(tables.ledger, user) {
      AppendBalance(tables.ledger, row, user);
    }
    assert row.balanceAfter >= 0 by { FollowsNonNegative(row, LastBalance(tables.ledger, row.user)); }
  }

  lemma FollowsNonNegative(row: LedgerRow, before: I64)
    requires Follows(row, before)
    ensures row.balanceAfter >= 0
  {
  }

  /** A transaction that holds the row still holds the balance it read. */
  lemma BalanceIsCurrent(s: System, id: TxId)
    requires Inv(s) && id in s.open && HoldsRow(s.open[id])
    ensures s.open[id].balance == LastBalance(s.tables.ledger, s.open[id].user) >= 0
  {
    hide Chained, LastBalance;
    var tx := s.open[id];
    assert TxOk(s, id);
    if tx.created {
      NoRows(s.tables.ledger, tx.user);
    }
  }

  lemma RowFollows(tx: Tx)
    requires Sufficient(tx) && KindOk(tx.kind) && tx.balance >= 0
    ensures Follows(RowOf(tx), tx.balance) && RowOf(tx).user == tx.user && RowOf(tx).tx == tx.id
  {
  }

  /** At its last phase a transaction has written one row, the balance after it and, for a charge, one
      event; or no more than a new wallet. */
  lemma CommittedWrites(tables: Tables, tx: Tx)
    requires WritesOk(tx) && KindOk(tx.kind) && tx.phase == LastPhase(tx.kind) && (tx.phase != Holding ==> Sufficient(tx))
    ensures if tx.kind.Ensure? then
              Committed(tables, tx) == if tx.created then tables.(wallets := tables.wallets[tx.user := 0]) else tables
            else
              && Sufficient(tx)
              && Committed(tables, tx) ==
                 Tables(tables.wallets[tx.user := RowOf(tx).balanceAfter], tables.ledger + [RowOf(tx)],
                        tables.events + if tx.kind.Charge? then [tx.kind.event] else [])
  {
    assert tables.ledger + [] == tables.ledger && tables.events + [] == tables.events;
  }

  lemma CommitKeepsTables(s: System, id: TxId)
    requires Inv(s) && Enabled(s, Commit(id))
    ensures TablesOk(Committed(s.tables, s.open[id]))
  {
    hide Chained, LastBalance, Follows, RowOf;
    var tx := s.open[id];
    assert TxOk(s, id);
    BalanceIsCurrent(s, id);
    CommittedWrites(s.tables, tx);
    if !tx.kind.Ensure? {
      RowFollows(tx);
      AppendKeepsTables(s.tables, RowOf(tx), s.tables.events + if tx.kind.Charge? then [tx.kind.event] else []);
    }
  }

  /** Changing one transaction, without taking a row another one holds. */
  lemma UpdateKeepsInv(s: System, id: TxId, tx: Tx)
    requires Inv(s) && id in s.open && tx.user == s.open[id].user
    requires var s' := s.(open := s.open[id := tx]); TxOk(s', id)
    ensures Inv(s.(open := s.open[id := tx]))
  {
    hide TablesOk, Sufficient, KindOk;
    var s' := s.(open := s.open[id := tx]);
    assert HoldsRow(tx) ==> RowFree(s', id, tx.user);
    forall other | other in s'.open ensures TxOk(s', other) {
      if other != id {
        assert TxOk(s, other);
        assert s'.open[other] == s.open[other];
        if HoldsRow(s.open[other]) {
          assert RowFree(s, other, s.open[other].user);
          assert RowFree(s', other, s.open[other].user);
        }
      }
    }
  }

  lemma CommitKeepsRows(s: System, id: TxId)
    requires Inv(s) && Enabled(s, Commit(id))
    ensures RowsOk(Apply(s, Commit(id)).tables.ledger, Apply(s, Commit(id)).commits)
  {
    hide TablesOk, SaturatingAdd, RowFree;
    var tx := s.open[id];
    assert TxOk(s, id);
    CommittedWrites(s.tables, tx);
    assert forall other :: other in s.commits ==> other in s.commits + [id];
    assert (s.commits + [id])[|s.commits|] == id;
  }

  lemma CommitWritesOwnWallet(s: System, id: TxId)
    requires Inv(s) && Enabled(s, Commit(id))
    ensures var after := Committed(s.tables, s.open[id]).wallets;
            forall user :: user != s.open[id].user ==>
              (user in after <==> user in s.tables.wallets) && (user in after ==> after[user] == s.tables.wallets[user])
  {
    hide TablesOk;
  }

  lemma CommitKeepsInv(s: System, id: TxId)
    requires Inv(s) && Enabled(s, Commit(id))
    ensures Inv(Apply(s, Commit(id)))
  {
    hide TablesOk, KindOk, WritesOk, Sufficient, RowOf;
    CommitKeepsTables(s, id);
    CommitWritesOwnWallet(s, id);
    CommitKeepsRows(s, id);
    hide RowsOk;
    var s' := Apply(s, Commit(id));
    var tx := s.open[id];
    assert TxOk(s, id) && HoldsRow(tx);
    forall other | other in s'.open ensures TxOk(s', other) {
      assert TxOk(s, other);
      assert HoldsRow(s.open[other]) ==> s.open[other].user != tx.user;
      assert HoldsRow(s.open[other]) ==> RowFree(s', other, s.open[other].user);
    }
  }

  lemma NothingWritten(user: UserId, kind: Kind)
    ensures forall id :: WritesOk(NewTx(id, user, kind))
  {
  }

  /** A transaction that nothing has happened to is as it was, when no other has taken a row. */
  lemma UntouchedTx(s: System, s': System, id: TxId)
    requires Inv(s) && id in s.open && id in s'.open && s'.open[id] == s.open[id]
    requires s'.tables.wallets == s.tables.wallets && s'.commits == s.commits && s.nextTx <= s'.nextTx
    requires forall other :: other in s'.open && HoldsRow(s'.open[other]) ==> other in s.open && s'.open[other] == s.open[other]
    ensures TxOk(s', id)
  {
    hide TablesOk, KindOk, Sufficient, WritesOk, RowsOk;
    assert TxOk(s, id);
    assert HoldsRow(s.open[id]) ==> RowFree(s', id, s.open[id].user);
  }

  lemma OtherStepsKeepInv(s: System, op: Op)
    requires Inv(s) && Enabled(s, op) && (op.Begin? || op.InsertEventAlone? || op.Rollback?)
    ensures Inv(Apply(s, op))
  {
    hide TablesOk, KindOk, Sufficient, WritesOk, RowsOk, TxOk;
    var s' := Apply(s, op);
    if op.InsertEventAlone? {
      EventsKeepTables(s.tables, op.event);
    }
    forall id | id in s'.open ensures TxOk(s', id) {
      if id in s.open && s'.open[id] == s.open[id] {
        UntouchedTx(s, s', id);
      } else {
        BegunTx(s, op);
      }
    }
  }

  lemma BegunTx(s: System, op: Op)
    requires Inv(s) && op.Begin? && Enabled(s, op)
    ensures TxOk(Apply(s, op), s.nextTx)
  {
    hide TablesOk, RowsOk;
    NothingWritten(op.user, op.kind);
    assert s.nextTx !in s.commits;
  }

  predicate IsStatement(op: Op) {
    !op.Begin? && !op.InsertEventAlone? && !op.Rollback? && !op.Commit?
  }

  /** A statement of a transaction changes that transaction only. */
  lemma StatementIsLocal(s: System, op: Op)
    requires Enabled(s, op) && IsStatement(op)
    ensures op.tx in s.open && op.tx in Apply(s, op).open
    ensures var tx := Apply(s, op).open[op.tx];
            && Apply(s, op) == s.(open := s.open[op.tx := tx])
            && tx.user == s.open[op.tx].user && tx.kind == s.open[op.tx].kind && tx.id == s.open[op.tx].id
  {
    hide RowOf, SaturatingAdd;
  }

  lemma StatementWrites(s: System, op: Op)
    requires Enabled(s, op) && IsStatement(op) && WritesOk(s.open[op.tx])
    requires s.open[op.tx].phase == Created ==> s.open[op.tx].created
    requires !HoldsRow(s.open[op.tx]) ==> !s.open[op.tx].created
    ensures op.tx in Apply(s, op).open && WritesOk(Apply(s, op).open[op.tx])
  {
    if !op.SelectForUpdate? && !op.InsertWallet? {
      StatementKeepsRow(s, op);
    }
    hide Sufficient, RowOf, RowFree;
  }

  /** What a transaction that has read its balance will write does not change. */
  lemma StatementKeepsRow(s: System, op: Op)
    requires Enabled(s, op) && IsStatement(op) && !op.SelectForUpdate? && !op.InsertWallet?
    ensures op.tx in s.open && op.tx in Apply(s, op).open
    ensures var before, after := s.open[op.tx], Apply(s, op).open[op.tx];
            (Sufficient(after) <==> Sufficient(before)) && (Sufficient(before) ==> RowOf(after) == RowOf(before))
  {
    hide RowFree, SaturatingAdd;
  }

  lemma StatementKeepsTx(s: System, op: Op)
    requires Inv(s) && Enabled(s, op) && IsStatement(op)
    ensures op.tx in Apply(s, op).open && TxOk(Apply(s, op), op.tx)
  {
    hide TablesOk, KindOk, WritesOk, RowOf;
    assert TxOk(s, op.tx);
    var s' := Apply(s, op);
    StatementWrites(s, op);
    WalletNonNegative(s.tables, s.open[op.tx].user);
    assert HoldsRow(s'.open[op.tx]) ==> RowFree(s, op.tx, s.open[op.tx].user);
    assert HoldsRow(s'.open[op.tx]) ==> RowFree(s', op.tx, s.open[op.tx].user);
  }

  /** Every statement of every transaction keeps the invariant. */
  lemma StepKeepsInv(s: System, op: Op)
    requires Inv(s) && Enabled(s, op)
    ensures Inv(Apply(s, op))
  {
    hide TablesOk, KindOk, Apply, Enabled, TxOk, RowsOk, WritesOk;
    if op.Commit? {
      CommitKeepsInv(s, op.tx);
    } else if op.Begin? || op.InsertEventAlone? || op.Rollback? {
      OtherStepsKeepInv(s, op);
    } else {
      StatementIsLocal(s, op);
      StatementKeepsTx(s, op);
      UpdateKeepsInv(s, op.tx, Apply(s, op).open[op.tx]);
    }
  }

  lemma WalletNonNegative(tables: Tables, user: UserId)
    requires TablesOk(tables)
    ensures user in tables.wallets ==> tables.wallets[user] >= 0
  {
  }

  lemma EventsKeepTables(tables: Tables, event: UsageEvent)
    requires TablesOk(tables)
    ensures TablesOk(tables.(events := tables.events + [event]))
  {
  }

  // ----- Runs -----

  /** A run: statements of any transactions in any order, each enabled when it happens. */
  predicate Legal(s: System, ops: seq<Op>)
    decreases |ops|
  {
    ops == [] || (Enabled(s, ops[0]) && Legal(Apply(s, ops[0]), ops[1..]))
  }

  function After(s: System, ops: seq<Op>): System
    requires Legal(s, ops)
    decreases |ops|
  {
    if ops == [] then s else After(Apply(s, ops[0]), ops[1..])
  }

  lemma {:induction false} RunKeepsInv(s: System, ops: seq<Op>)
    requires Inv(s) && Legal(s, ops)
    ensures Inv(After(s, ops))
    decreases |ops|
  {
    hide Inv, Enabled, Apply;
    if ops != [] {
      StepKeepsInv(s, ops[0]);
      RunKeepsInv(Apply(s, ops[0]), ops[1..]);
    }
  }

  /** The rows a transaction wrote. */
  function RowsOf(ledger: seq<LedgerRow>, id: TxId): seq<LedgerRow> {
    if ledger == [] then []
    else
      var last := ledger[|ledger| - 1];
      RowsOf(ledger[..|ledger| - 1], id) + if last.tx == id then [last] else []
  }

  /** A transaction has at most one row, none without a commit; a row at the end is its one. */
  lemma {:induction false} RowsOfOne(ledger: seq<LedgerRow>, commits: seq<TxId>, id: TxId)
    requires RowsOk(ledger, commits)
    ensures |RowsOf(ledger, id)| <= 1
    ensures id !in commits ==> RowsOf(ledger, id) == []
    ensures ledger != [] && ledger[|ledger| - 1].tx == id ==> RowsOf(ledger, id) == [ledger[|ledger| - 1]]
  {
    if id !in commits {
      NoRowsOf(ledger, id);
    }
    if ledger != [] {
      var init := ledger[..|ledger| - 1];
      if ledger[|ledger| - 1].tx == id {
        NoRowsOf(init, id);
      } else {
        RowsOfOne(init, commits, id);
      }
    }
  }

  lemma {:induction false} NoRowsOf(ledger: seq<LedgerRow>, id: TxId)
    requires forall i :: 0 <= i < |ledger| ==> ledger[i].tx != id
    ensures RowsOf(ledger, id) == []
  {
    if ledger != [] {
      NoRowsOf(ledger[..|ledger| - 1], id);
    }
  }

  /** The rows of any of some transactions. */
  function RowsBy(ledger: seq<LedgerRow>, ids: set<TxId>): seq<LedgerRow> {
    if ledger == [] then []
    else
      var last := ledger[|ledger| - 1];
      RowsBy(ledger[..|ledger| - 1], ids) + if last.tx in ids then [last] else []
  }

  lemma {:induction false} RowsByOne(ledger: seq<LedgerRow>, id: TxId)
    ensures RowsBy(ledger, {id}) == RowsOf(ledger, id) && RowsBy(ledger, {}) == []
  {
    if ledger != [] {
      RowsByOne(ledger[..|ledger| - 1], id);
    }
  }

  /** Transactions without rows add none. */
  lemma {:induction false} RowsByMore(ledger: seq<LedgerRow>, idle: set<TxId>, ids: set<TxId>)
    requires RowsBy(ledger, idle) == []
    ensures RowsBy(ledger, idle + ids) == RowsBy(ledger, ids)
  {
    if ledger != [] {
      RowsByMore(ledger[..|ledger| - 1], idle, ids);
    }
  }

  lemma {:induction false} RowsByEach(ledger: seq<LedgerRow>, ids: set<TxId>)
    requires forall id :: id in ids ==> RowsOf(ledger, id) == []
    ensures RowsBy(ledger, ids) == []
  {
    if ledger != [] {
      var init, last := ledger[..|ledger| - 1], ledger[|ledger| - 1];
      forall id | id in ids ensures RowsOf(init, id) == [] {
        assert RowsOf(ledger, id) == [];
      }
      RowsByEach(init, ids);
    }
  }

  lemma {:induction false} NoRowsEach(ledger: seq<LedgerRow>, ids: set<TxId>, id: TxId)
    requires RowsBy(ledger, ids) == [] && id in ids
    ensures RowsOf(ledger, id) == []
  {
    if ledger != [] {
      NoRowsEach(ledger[..|ledger| - 1], ids, id);
    }
  }

  // ----- What any run leaves alone -----

  ghost predicate Reaches(s: System, s': System) {
    exists ops :: Legal(s, ops) && After(s, ops) == s'
  }

  lemma ReachesItself(s: System)
    ensures Reaches(s, s)
  {
    assert Legal(s, []) && After(s, []) == s;
  }

  lemma ReachesNext(s: System, op: Op)
    requires Enabled(s, op)
    ensures Reaches(s, Apply(s, op))
  {
    hide Enabled, Apply;
    assert [op][0] == op && [op][1..] == [];
    assert Legal(s, [op]) && After(s, [op]) == Apply(s, op);
  }

  lemma {:induction false} RunOn(s: System, a: seq<Op>, b: seq<Op>)
    requires Legal(s, a) && Legal(After(s, a), b)
    ensures Legal(s, a + b) && After(s, a + b) == After(After(s, a), b)
    decreases |a|
  {
    hide Enabled, Apply;
    if a == [] {
      assert a + b == b;
    } else {
      assert (a + b)[0] == a[0] && (a + b)[1..] == a[1..] + b;
      RunOn(Apply(s, a[0]), a[1..], b);
    }
  }

  lemma ReachesOn(a: System, b: System, c: System)
    requires Reaches(a, b) && Reaches(b, c)
    ensures Reaches(a, c)
  {
    hide Legal, After;
    var first :| Legal(a, first) && After(a, first) == b;
    var second :| Legal(b, second) && After(b, second) == c;
    RunOn(a, first, second);
    assert Legal(a, first + second) && After(a, first + second) == c;
  }

  /** The transaction has ended. */
  predicate Closed(s: System, id: TxId) {
    id < s.nextTx && id !in s.open
  }

  /** What an ended transaction wrote is all it ever writes, and rows are only added. */
  ghost predicate Continues(s: System, s': System) {
    && Inv(s') && s.nextTx <= s'.nextTx && s.tables.ledger <= s'.tables.ledger
    && forall id :: Closed(s, id) ==> Closed(s', id) && RowsOf(s'.tables.ledger, id) == RowsOf(s.tables.ledger, id)
  }

  lemma StepContinues(s: System, op: Op)
    requires Inv(s) && Enabled(s, op)
    ensures Continues(s, Apply(s, op))
  {
    hide Inv, RowsOf, Enabled, Apply, Closed;
    var s' := Apply(s, op);
    StepKeepsInv(s, op);
    StepAddsRows(s, op);
    StaysClosed(s, op, 0);
    forall id | Closed(s, id) ensures Closed(s', id) && RowsOf(s'.tables.ledger, id) == RowsOf(s.tables.ledger, id) {
      StaysClosed(s, op, id);
      if s'.tables.ledger != s.tables.ledger {
        var row := s'.tables.ledger[|s.tables.ledger|];
        assert s'.tables.ledger == s.tables.ledger + [row];
        RowsOfSnoc(s.tables.ledger, row, id);
      }
    }
  }

  /** A transaction that has ended is not begun again. */
  lemma StaysClosed(s: System, op: Op, id: TxId)
    requires Enabled(s, op)
    ensures s.nextTx <= Apply(s, op).nextTx
    ensures Closed(s, id) ==> Closed(Apply(s, op), id) && id !in s.open
  {
    hide Sufficient, RowFree, RowOf;
  }

  /** A step adds at most one row, of an open transaction. */
  lemma StepAddsRows(s: System, op: Op)
    requires Inv(s) && Enabled(s, op)
    ensures var before, after := s.tables.ledger, Apply(s, op).tables.ledger;
            after == before || (|after| == |before| + 1 && before < after && after[|before|].tx in s.open)
  {
    if op.InsertEventAlone? {
      assert Apply(s, op).tables.ledger == s.tables.ledger;
    } else {
      assert op.Commit? ==> op.tx in s.open;
      ChargeIsAtomic(s, op);
      hide *;
    }
  }

  lemma RowsOfSnoc(ledger: seq<LedgerRow>, row: LedgerRow, id: TxId)
    ensures RowsOf(ledger + [row], id) == RowsOf(ledger, id) + if row.tx == id then [row] else []
  {
    assert (ledger + [row])[..|ledger|] == ledger;
  }

  lemma {:induction false} RunContinues(s: System, ops: seq<Op>)
    requires Inv(s) && Legal(s, ops)
    ensures Continues(s, After(s, ops))
    decreases |ops|
  {
    hide Inv, Enabled, Apply, RowsOf;
    if ops != [] {
      StepContinues(s, ops[0]);
      RunContinues(Apply(s, ops[0]), ops[1..]);
    }
  }

  lemma ReachesContinues(s: System, s': System)
    requires Inv(s) && Reaches(s, s')
    ensures Continues(s, s')
  {
    hide Inv, Continues, Legal, After;
    var ops :| Legal(s, ops) && After(s, ops) == s';
    RunContinues(s, ops);
  }

  // ----- What one client's call adds -----

  /** A call of a client whose transactions were `own` and are `own'`: its part of a run, with
      transactions that are new and have ended. */
  ghost predicate Called(s: System, own: set<TxId>, s': System, own': set<TxId>) {
    && Reaches(s, s') && own <= own'
    && forall id :: id in own' - own ==> s.nextTx <= id && Closed(s', id)
  }

  /** All rows of the new transactions. */
  function Written(s: System, own: set<TxId>, own': set<TxId>): seq<LedgerRow> {
    RowsBy(s.tables.ledger, own' - own)
  }

  lemma CalledIdly(s: System, own: set<TxId>, s': System)
    requires Reaches(s, s')
    ensures Called(s, own, s', own) && Written(s', own, own) == []
  {
    hide Reaches, Closed, RowsBy;
    assert own - own == {};
    RowsByOne(s'.tables.ledger, 0);
  }

  lemma CalledOnce(s: System, own: set<TxId>, s': System, id: TxId)
    requires Reaches(s, s') && s.nextTx <= id && Closed(s', id) && id !in own
    ensures Called(s, own, s', own + {id}) && Written(s', own, own + {id}) == RowsOf(s'.tables.ledger, id)
  {
    hide Reaches, Closed, RowsOf, RowsBy;
    assert own + {id} - own == {id};
    RowsByOne(s'.tables.ledger, id);
  }

  /** After a call that wrote no row, the rows of the next one are the rows of both, whatever ran. */
  lemma CalledAgain(a: System, own: set<TxId>, b: System, own': set<TxId>, c: System, own'': set<TxId>)
    requires Inv(a) && Called(a, own, b, own') && Called(b, own', c, own'') && Written(b, own, own') == []
    ensures Called(a, own, c, own'') && Written(c, own, own'') == Written(c, own', own'')
  {
    hide Reaches, Closed, RowsOf, RowsBy, Inv;
    ReachesContinues(a, b);
    ReachesContinues(b, c);
    ReachesOn(a, b, c);
    var idle := own' - own;
    forall id | id in idle ensures RowsOf(c.tables.ledger, id) == [] {
      NoRowsEach(b.tables.ledger, idle, id);
      assert Closed(b, id);
    }
    RowsByEach(c.tables.ledger, idle);
    RowsByMore(c.tables.ledger, idle, own'' - own');
    assert own'' - own == idle + (own'' - own');
    assert forall id :: id in idle ==> Closed(b, id);
  }

  // ----- Why a balance falls -----

  /** A row of the user from `from` on that takes credit away. */
  ghost predicate ChargedSince(ledger: seq<LedgerRow>, from: nat, user: UserId) {
    exists i :: from <= i < |ledger| && ledger[i].user == user && ledger[i].delta < 0
  }

  lemma {:induction false} OnlyChargesLower(ledger: seq<LedgerRow>, from: nat, user: UserId)
    requires Chained(ledger) && from <= |ledger| && !ChargedSince(ledger, from, user)
    ensures LastBalance(ledger, user) >= LastBalance(ledger[..from], user)
  {
    if from == |ledger| {
      assert ledger[..from] == ledger;
    } else {
      var init, last := ledger[..|ledger| - 1], ledger[|ledger| - 1];
      assert init[..from] == ledger[..from];
      assert !ChargedSince(init, from, user) by {
        assert forall i :: from <= i < |init| ==> init[i] == ledger[i];
      }
      OnlyChargesLower(init, from, user);
    }
  }

  lemma BalanceIsLast(s: System, user: UserId)
    requires Inv(s)
    ensures BalanceOf(s.tables, user) == LastBalance(s.tables.ledger, user)
  {
    hide Chained, LastBalance;
    if user !in s.tables.wallets {
      NoRows(s.tables.ledger, user);
    }
  }

  /** Over every run, a balance that has fallen has been charged. */
  lemma FallenBalanceWasCharged(s: System, s': System, user: UserId)
    requires Inv(s) && Reaches(s, s') && BalanceOf(s'.tables, user) < BalanceOf(s.tables, user)
    ensures ChargedSince(s'.tables.ledger, |s.tables.ledger|, user)
  {
    hide Reaches, Closed, RowsOf, BalanceOf, LastBalance, TxOk, RowsOk, ChargedSince;
    ReachesContinues(s, s');
    BalanceIsLast(s, user);
    BalanceIsLast(s', user);
    assert s'.tables.ledger[..|s.tables.ledger|] == s.tables.ledger;
    if !ChargedSince(s'.tables.ledger, |s.tables.ledger|, user) {
      OnlyChargesLower(s'.tables.ledger, |s.tables.ledger|, user);
    }
  }

  /** Ledger conservation, over every run from empty tables: each row follows from the one
      before it, the wallet is the last balance, never negative, and it is the sum of the
      deltas if and only if no grant of the user saturated. */
  lemma LedgerConservation(ops: seq<Op>, user: UserId)
    requires Legal(EMPTY, ops)
    ensures var tables := After(EMPTY, ops).tables;
            && Chained(tables.ledger)
            && (user in tables.wallets ==>
                  && tables.wallets[user] == LastBalance(tables.ledger, user) >= 0
                  && (tables.wallets[user] == SumOfDeltas(tables.ledger, user) <==> NeverSaturated(tables.ledger, user)))
            && (user !in tables.wallets ==> SumOfDeltas(tables.ledger, user) == 0)
  {
    RunKeepsInv(EMPTY, ops);
    var tables := After(EMPTY, ops).tables;
    BalanceIsSum(tables.ledger, user);
    if user !in tables.wallets {
      NoDeltas(tables.ledger, user);
    }
  }

  lemma NoDeltas(ledger: seq<LedgerRow>, user: UserId)
    requires forall i :: 0 <= i < |ledger| ==> ledger[i].user != user
    ensures SumOfDeltas(ledger, user) == 0
  {
  }

  function BalanceOf(tables: Tables, user: UserId): I64 {
    if user in tables.wallets then tables.wallets[user] else 0
  }

  /** A charge writes ledger, balance and event together at its commit, on top of the committed
      balance of that moment, and no other statement of a transaction writes anything. */
  lemma ChargeIsAtomic(s: System, op: Op)
    requires Inv(s) && Enabled(s, op) && !op.InsertEventAlone?
    ensures !op.Commit? ==> Apply(s, op).tables == s.tables
    ensures op.Commit? ==>
              var before, after, tx := s.tables, Apply(s, op).tables, s.open[op.tx];
              && (forall user :: user != tx.user ==>
                    (user in after.wallets <==> user in before.wallets) && BalanceOf(after, user) == BalanceOf(before, user))
              && (tx.kind.Charge? ==>
                    && BalanceOf(after, tx.user) == BalanceOf(before, tx.user) - tx.kind.amount >= 0
                    && after.ledger == before.ledger +
                       [LedgerRow(op.tx, tx.user, Some(tx.kind.event.requestId), -tx.kind.amount, BalanceOf(after, tx.user))]
                    && after.events == before.events + [tx.kind.event])
              && (tx.kind.Grant? ==>
                    && BalanceOf(after, tx.user) == SaturatingAdd(BalanceOf(before, tx.user), tx.kind.amount)
                    && BalanceOf(after, tx.user) ==
                       (if BalanceOf(before, tx.user) + tx.kind.amount > 0x7FFF_FFFF_FFFF_FFFF then 0x7FFF_FFFF_FFFF_FFFF
                        else BalanceOf(before, tx.user) + tx.kind.amount)
                    && after.ledger == before.ledger + [LedgerRow(op.tx, tx.user, None, tx.kind.amount, BalanceOf(after, tx.user))]
                    && after.events == before.events)
              && (tx.kind.Ensure? ==>
                    && BalanceOf(after, tx.user) == BalanceOf(before, tx.user) == tx.balance
                    && after.ledger == before.ledger && after.events == before.events)
  {
    hide TablesOk, RowsOk, WritesOk, Committed, Chained, RowFree;
    if op.Commit? {
      var tx := s.open[op.tx];
      assert TxOk(s, op.tx);
      CommittedWrites(s.tables, tx);
      if !tx.kind.Ensure? {
        RowMeans(tx);
      }
    }
  }

  lemma RowMeans(tx: Tx)
    requires Sufficient(tx)
    ensures match tx.kind
            case Charge(amount, event) =>
              RowOf(tx) == LedgerRow(tx.id, tx.user, Some(event.requestId), -amount, tx.balance - amount)
            case Grant(amount) => RowOf(tx) == LedgerRow(tx.id, tx.user, None, amount, SaturatingAdd(tx.balance, amount))
            case Ensure => false
  {
  }

  predicate ByOthers(ops: seq<Op>, mine: TxId) {
    forall i :: 0 <= i < |ops| ==> !OfTransaction(ops[i], mine)
  }

  /** What a transaction can rely on while others run. */
  ghost predicate Stable(s: System, s': System, mine: TxId) {
    && Inv(s')
    && (mine in s'.open <==> mine in s.open)
    && (mine in s.open ==> s'.open[mine] == s.open[mine])
    && (mine in s'.commits <==> mine in s.commits)
    && s.nextTx <= s'.nextTx
    && s.tables.ledger <= s'.tables.ledger
    && s.tables.events <= s'.tables.events
    && s.tables.wallets.Keys <= s'.tables.wallets.Keys
  }

  lemma StepIsStable(s: System, op: Op, mine: TxId)
    requires Inv(s) && Enabled(s, op) && !OfTransaction(op, mine) && mine < s.nextTx
    ensures Stable(s, Apply(s, op), mine)
  {
    hide TablesOk, TxOk, RowsOk, WritesOk;
    StepKeepsInv(s, op);
  }

  lemma {:induction false} OthersAreStable(s: System, ops: seq<Op>, mine: TxId)
    requires Inv(s) && Legal(s, ops) && ByOthers(ops, mine) && mine < s.nextTx
    ensures Stable(s, After(s, ops), mine)
    decreases |ops|
  {
    hide Inv, Enabled, Apply;
    if ops != [] {
      StepIsStable(s, ops[0], mine);
      OthersAreStable(Apply(s, ops[0]), ops[1..], mine);
    }
  }
}
