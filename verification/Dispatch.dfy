/** The dispatch job protocol: jobs are created, leased to a daemon node by compare-and-set,
    completed, polled for, and timed out, by any number of concurrent clients. */
module Dispatch {
  import opened Core
  import opened Decimal

  type JobId = string
  type NodeId = string

  /** Seconds since the epoch; the tables store and compare the decimal text. */
  type Seconds = n: int | 0 <= n <= I64_MAX

  datatype Status = Accepted | Leased | Succeeded | Failed | TimedOut

  datatype Job = Job(
    node: NodeId,
    request: string,
    status: Status,
    response: Option<string>,
    errorCode: Option<string>,
    errorMessage: Option<string>,
    leasedAt: Option<Seconds>,
    completedAt: Option<Seconds>,
    deadlineAt: Seconds,
    createdAt: Seconds)

  datatype Handout = Handout(id: JobId, node: NodeId)
  datatype Completion = Completion(id: JobId, node: NodeId, status: Status, response: Option<string>)

  /** The table, with the history of who was given what and who completed what. */
  datatype Db = Db(jobs: map<JobId, Job>, handouts: seq<Handout>, completions: seq<Completion>)

  const EMPTY := Db(map[], [], [])

  predicate IsTerminal(status: Status) {
    status in {Succeeded, Failed, TimedOut}
  }

  function NewJob(node: NodeId, request: string, deadlineAt: Seconds, createdAt: Seconds): Job {
    Job(node, request, Accepted, None, None, None, None, None, deadlineAt, createdAt)
  }

  function TimedOutJob(job: Job, now: Seconds): Job {
    job.(status := TimedOut, errorCode := Some("timeout"), errorMessage := Some("daemon dispatch timed out"),
         completedAt := Some(now))
  }

  predicate Expired(job: Job, now: Seconds) {
    TextLess(Render(job.deadlineAt), Render(now))
  }

  /** A deadline has passed in the order of decimal texts, and it has in that of numbers exactly
      when the two orders agree, for all times; for times of ten digits they do. */
  lemma ExpiredMeans(job: Job, now: Seconds)
    ensures Expired(job, now) <==> !DecimalLeq(now, job.deadlineAt)
    ensures (Expired(job, now) <==> job.deadlineAt < now) <==> SameOrder(now, job.deadlineAt)
    ensures TenDigits(now) && TenDigits(job.deadlineAt) ==> (Expired(job, now) <==> job.deadlineAt < now)
  {
    hide Render, TextLeq, DecimalLeq, SameOrder;
    if TenDigits(now) && TenDigits(job.deadlineAt) {
      TenDigitsInOrder(now, job.deadlineAt);
    }
    TextOrderIsDecimal(now, job.deadlineAt);
    TextOrderIsNumeric(now, job.deadlineAt);
  }

  // ----- Statements -----

  datatype Op =
    | Insert(id: JobId, job: Job)
    | Sweep(now: Seconds)
    | TryLease(id: JobId, node: NodeId, now: Seconds)
    | Complete(id: JobId, node: NodeId, status: Status, response: Option<string>, errorCode: Option<string>,
               errorMessage: Option<string>, now: Seconds)
    | MarkTimedOut(id: JobId, now: Seconds)

  /** The rows an update statement changes. */
  predicate Hits(db: Db, op: Op) {
    match op
    case Insert(id, _) => id !in db.jobs
    case Sweep(now) => true
    case TryLease(id, node, _) => id in db.jobs && db.jobs[id].node == node && db.jobs[id].status == Accepted
    case Complete(id, node, _, _, _, _, _) => id in db.jobs && db.jobs[id].node == node && db.jobs[id].status == Leased
    case MarkTimedOut(id, _) => id in db.jobs && !IsTerminal(db.jobs[id].status)
  }

  /** What clients issue: a lease only for a job selected as unexpired, a completion only with a
      final status and, for success, a response. */
  predicate Issued(db: Db, op: Op) {
    match op
    case Insert(_, job) => job == NewJob(job.node, job.request, job.deadlineAt, job.createdAt)
    case TryLease(id, node, now) => id in db.jobs && !Expired(db.jobs[id], now)
    case Complete(_, _, status, response, _, _, _) => status in {Succeeded, Failed} && (status == Succeeded ==> response.Some?)
    case _ => true
  }

  function Apply(db: Db, op: Op): Db {
    if !Hits(db, op) then db
    else
      match op
      case Insert(id, job) => db.(jobs := db.jobs[id := job])
      case Sweep(now) =>
        db.(jobs := map id | id in db.jobs ::
              if !IsTerminal(db.jobs[id].status) && Expired(db.jobs[id], now) then TimedOutJob(db.jobs[id], now)
              else db.jobs[id])
      case TryLease(id, node, now) =>
        db.(jobs := db.jobs[id := db.jobs[id].(status := Leased, leasedAt := Some(now))],
            handouts := db.handouts + [Handout(id, node)])
      case Complete(id, node, status, response, errorCode, errorMessage, now) =>
        db.(jobs := db.jobs[id := db.jobs[id].(status := status, response := response, errorCode := errorCode,
                                              errorMessage := errorMessage, completedAt := Some(now))],
            completions := db.completions + [Completion(id, node, status, response)])
      case MarkTimedOut(id, now) => db.(jobs := db.jobs[id := TimedOutJob(db.jobs[id], now)])
  }

  // ----- One job over time -----

  /** How a job row may look later. */
  predicate Evolves(before: Job, after: Job) {
    && after.node == before.node && after.request == before.request
    && after.deadlineAt == before.deadlineAt && after.createdAt == before.createdAt
    && (IsTerminal(before.status) ==> after == before)
    && (before.status == Leased ==> after.status != Accepted && after.leasedAt == before.leasedAt)
    && (before.status == Accepted && after.status in {Succeeded, Failed} ==> after.leasedAt.Some?)
  }

  /** The moves of one step. */
  predicate Moves(before: Status, after: Status) {
    || after == before
    || (before == Accepted && after == Leased)
    || (before == Leased && after in {Succeeded, Failed})
    || (before in {Accepted, Leased} && after == TimedOut)
  }

  predicate JobOk(job: Job) {
    && (job.status == Accepted ==> job.leasedAt.None?)
    && (job.status in {Leased, Succeeded, Failed} ==> job.leasedAt.Some?)
    && (job.status == Succeeded ==> job.response.Some?)
    && (job.status in {Accepted, Leased, TimedOut} ==> job.response.None?)
    && (job.leasedAt.Some? ==> TextLeq(Render(job.leasedAt.value), Render(job.deadlineAt)))
  }

  predicate JobsOk(db: Db) {
    forall id :: id in db.jobs ==> JobOk(db.jobs[id])
  }

  /** A job is handed out at most once, only to its node, and exactly when it has been leased. */
  ghost predicate HandoutsOk(db: Db) {
    && (forall i :: 0 <= i < |db.handouts| ==>
          var handout := db.handouts[i];
          handout.id in db.jobs && db.jobs[handout.id].node == handout.node && db.jobs[handout.id].leasedAt.Some?)
    && (forall i, j :: 0 <= i < j < |db.handouts| ==> db.handouts[i].id != db.handouts[j].id)
    && (forall id :: id in db.jobs && db.jobs[id].leasedAt.Some? ==> Handout(id, db.jobs[id].node) in db.handouts)
  }

  /** A job is completed at most once, by its node, and its row keeps that completion. */
  ghost predicate CompletionsOk(db: Db) {
    && (forall i :: 0 <= i < |db.completions| ==>
          var completion := db.completions[i];
          completion.id in db.jobs && Completed(db.jobs[completion.id], completion))
    && (forall i, j :: 0 <= i < j < |db.completions| ==> db.completions[i].id != db.completions[j].id)
    && (forall id :: id in db.jobs && IsCompleted(db.jobs[id]) ==>
          Completion(id, db.jobs[id].node, db.jobs[id].status, db.jobs[id].response) in db.completions)
  }

  ghost predicate Inv(db: Db) {
    JobsOk(db) && HandoutsOk(db) && CompletionsOk(db)
  }

  predicate IsCompleted(job: Job) {
    job.status in {Succeeded, Failed}
  }

  predicate Completed(job: Job, completion: Completion) {
    && job.node == completion.node && job.status == completion.status && job.response == completion.response
    && IsCompleted(job)
  }

  predicate LeasesNow(db: Db, op: Op, id: JobId) {
    op.TryLease? && Hits(db, op) && op.id == id
  }

  predicate CompletesNow(db: Db, op: Op, id: JobId) {
    op.Complete? && Hits(db, op) && op.id == id
  }

  /** What one step does to one row. */
  lemma RowStep(db: Db, op: Op, id: JobId)
    requires JobsOk(db) && Issued(db, op) && id in db.jobs
    ensures var db' := Apply(db, op);
            && id in db'.jobs
            && Moves(db.jobs[id].status, db'.jobs[id].status) && Evolves(db.jobs[id], db'.jobs[id])
            && JobOk(db'.jobs[id])
            && (db'.jobs[id].leasedAt.Some? <==> db.jobs[id].leasedAt.Some? || LeasesNow(db, op, id))
            && (IsCompleted(db'.jobs[id]) <==> IsCompleted(db.jobs[id]) || CompletesNow(db, op, id))
            && (IsCompleted(db.jobs[id]) ==> db'.jobs[id] == db.jobs[id])
            && (CompletesNow(db, op, id) ==> db'.jobs[id].status == op.status && db'.jobs[id].response == op.response)
  {
    hide TextLeq, Render;
    assert JobOk(db.jobs[id]);
  }

  /** What each update makes of each row: which rows it changes, and which of their fields. */
  lemma UpdateMeans(db: Db, op: Op, id: JobId)
    requires id in db.jobs
    ensures id in Apply(db, op).jobs
    ensures var job, after := db.jobs[id], Apply(db, op).jobs[id];
            match op
            case Insert(_, _) => after == job
            case Sweep(now) =>
              after ==
              if (job.status == Accepted || job.status == Leased) && !DecimalLeq(now, job.deadlineAt) then
                job.(status := TimedOut, errorCode := Some("timeout"), errorMessage := Some("daemon dispatch timed out"),
                     completedAt := Some(now))
              else job
            case TryLease(other, node, now) =>
              after ==
              if other == id && node == job.node && job.status == Accepted then job.(status := Leased, leasedAt := Some(now))
              else job
            case Complete(other, node, status, response, errorCode, errorMessage, now) =>
              after ==
              if other == id && node == job.node && job.status == Leased then
                job.(status := status, response := response, errorCode := errorCode, errorMessage := errorMessage,
                     completedAt := Some(now))
              else job
            case MarkTimedOut(other, now) =>
              after ==
              if other == id && (job.status == Accepted || job.status == Leased) then
                job.(status := TimedOut, errorCode := Some("timeout"), errorMessage := Some("daemon dispatch timed out"),
                     completedAt := Some(now))
              else job
  {
    if op.Sweep? {
      ExpiredMeans(db.jobs[id], op.now);
    }
    hide Expired, DecimalLeq;
  }

  /** What one step adds to the tables. */
  lemma TablesStep(db: Db, op: Op)
    requires Issued(db, op)
    ensures var db' := Apply(db, op);
            && db'.handouts == db.handouts + (if op.TryLease? && Hits(db, op) then [Handout(op.id, op.node)] else [])
            && db'.completions == db.completions +
               (if op.Complete? && Hits(db, op) then [Completion(op.id, op.node, op.status, op.response)] else [])
            && db'.jobs.Keys == db.jobs.Keys + (if op.Insert? then {op.id} else {})
            && (op.Insert? && op.id !in db.jobs ==> db'.jobs[op.id] == op.job)
  {
    hide Expired;
    if op.Sweep? {
      assert Apply(db, op).jobs.Keys == db.jobs.Keys;
    }
  }

  lemma JobsStep(db: Db, op: Op)
    requires JobsOk(db) && Issued(db, op)
    ensures JobsOk(Apply(db, op))
  {
    hide Apply, Hits, Expired, TextLeq, Evolves, Moves;
    TablesStep(db, op);
    var db' := Apply(db, op);
    forall id | id in db'.jobs ensures JobOk(db'.jobs[id]) {
      if id in db.jobs {
        RowStep(db, op, id);
      }
    }
  }

  lemma HitsOwnRow(db: Db, op: Op)
    requires Hits(db, op) && JobsOk(db)
    ensures op.TryLease? ==> op.id in db.jobs && db.jobs[op.id].node == op.node && db.jobs[op.id].leasedAt.None?
    ensures op.Complete? ==> op.id in db.jobs && db.jobs[op.id].node == op.node && !IsCompleted(db.jobs[op.id])
  {
    hide TextLeq, Render;
    if op.TryLease? || op.Complete? {
      assert JobOk(db.jobs[op.id]);
    }
  }

  lemma HandoutsStep(db: Db, op: Op)
    requires Inv(db) && Issued(db, op)
    ensures HandoutsOk(Apply(db, op))
  {
    hide Apply, Hits, Issued, JobOk, Moves, CompletionsOk;
    var db' := Apply(db, op);
    TablesStep(db, op);
    forall id | id in db.jobs ensures id in db'.jobs && db'.jobs[id].node == db.jobs[id].node
        && (db'.jobs[id].leasedAt.Some? <==> db.jobs[id].leasedAt.Some? || LeasesNow(db, op, id)) {
      RowStep(db, op, id);
    }
    if op.TryLease? && Hits(db, op) {
      HitsOwnRow(db, op);
      assert db'.handouts[|db.handouts|] == Handout(op.id, op.node);
    }
    assert forall handout :: handout in db.handouts ==> handout in db'.handouts;
    InsertedIsNew(db, op);
  }

  lemma InsertedIsNew(db: Db, op: Op)
    requires Issued(db, op)
    ensures op.Insert? && op.id !in db.jobs ==> op.job.leasedAt.None? && !IsCompleted(op.job)
  {
  }

  lemma CompletionsStep(db: Db, op: Op)
    requires Inv(db) && Issued(db, op)
    ensures CompletionsOk(Apply(db, op))
  {
    hide Apply, Hits, Issued, JobOk, Moves, HandoutsOk;
    var db' := Apply(db, op);
    TablesStep(db, op);
    forall id | id in db.jobs ensures id in db'.jobs && db'.jobs[id].node == db.jobs[id].node
        && (IsCompleted(db'.jobs[id]) <==> IsCompleted(db.jobs[id]) || CompletesNow(db, op, id))
        && (IsCompleted(db.jobs[id]) ==> db'.jobs[id] == db.jobs[id]) {
      RowStep(db, op, id);
    }
    if op.Complete? && Hits(db, op) {
      HitsOwnRow(db, op);
      RowStep(db, op, op.id);
      assert db'.completions[|db.completions|] == Completion(op.id, op.node, op.status, op.response);
    }
    assert forall completion :: completion in db.completions ==> completion in db'.completions;
    InsertedIsNew(db, op);
  }

  lemma StepKeepsInv(db: Db, op: Op)
    requires Inv(db) && Issued(db, op)
    ensures Inv(Apply(db, op))
  {
    JobsStep(db, op);
    HandoutsStep(db, op);
    CompletionsStep(db, op);
  }

  // ----- Runs -----

  /** Statements of any clients, in any order. */
  predicate Legal(db: Db, ops: seq<Op>)
    decreases |ops|
  {
    ops == [] || (Issued(db, ops[0]) && Legal(Apply(db, ops[0]), ops[1..]))
  }

  function After(db: Db, ops: seq<Op>): Db
    decreases |ops|
  {
    if ops == [] then db else After(Apply(db, ops[0]), ops[1..])
  }

  lemma EvolvesTransitive(a: Job, b: Job, c: Job)
    requires Evolves(a, b) && Evolves(b, c) && JobOk(b)
    ensures Evolves(a, c)
  {
  }

  /** What any run leaves of the jobs, handouts and completions before it. */
  ghost predicate Extends(db: Db, db': Db) {
    && Inv(db')
    && db.handouts <= db'.handouts && db.completions <= db'.completions
    && forall id :: id in db.jobs ==> id in db'.jobs && Evolves(db.jobs[id], db'.jobs[id])
  }

  lemma StepExtends(db: Db, op: Op)
    requires Inv(db) && Issued(db, op)
    ensures Extends(db, Apply(db, op))
  {
    hide Apply, Hits, Issued, JobOk, Moves, Evolves, HandoutsOk, CompletionsOk;
    StepKeepsInv(db, op);
    TablesStep(db, op);
    forall id | id in db.jobs ensures id in Apply(db, op).jobs && Evolves(db.jobs[id], Apply(db, op).jobs[id]) {
      RowStep(db, op, id);
    }
  }

  lemma ExtendsTransitive(a: Db, b: Db, c: Db)
    requires Extends(a, b) && Extends(b, c)
    ensures Extends(a, c)
  {
    hide JobOk, Evolves, HandoutsOk, CompletionsOk;
    forall id | id in a.jobs ensures id in c.jobs && Evolves(a.jobs[id], c.jobs[id]) {
      assert JobOk(b.jobs[id]);
      EvolvesTransitive(a.jobs[id], b.jobs[id], c.jobs[id]);
    }
  }

  lemma ExtendsItself(db: Db)
    requires Inv(db)
    ensures Extends(db, db)
  {
  }

  /** Every run, of any number of daemons, waiters and sweepers, keeps the invariant and moves
      each job forward only. */
  lemma {:induction false} RunExtends(db: Db, ops: seq<Op>)
    requires Inv(db) && Legal(db, ops)
    ensures Extends(db, After(db, ops))
    decreases |ops|
  {
    hide Apply, Issued, Extends;
    if ops == [] {
      ExtendsItself(db);
    } else {
      StepExtends(db, ops[0]);
      assert Inv(Apply(db, ops[0])) by { ExtendsKeepsInv(db, Apply(db, ops[0])); }
      RunExtends(Apply(db, ops[0]), ops[1..]);
      ExtendsTransitive(db, Apply(db, ops[0]), After(db, ops));
    }
  }

  lemma ExtendsKeepsInv(db: Db, db': Db)
    requires Extends(db, db')
    ensures Inv(db')
  {
  }

  lemma {:induction false} RunSplits(db: Db, ops: seq<Op>, k: nat)
    requires Legal(db, ops) && k <= |ops|
    ensures Legal(db, ops[..k]) && Legal(After(db, ops[..k]), ops[k..])
    ensures After(db, ops) == After(After(db, ops[..k]), ops[k..])
    decreases k
  {
    hide Apply, Issued;
    if k > 0 {
      assert ops[1..][..k - 1] == ops[..k][1..] && ops[1..][k - 1..] == ops[k..];
      RunSplits(Apply(db, ops[0]), ops[1..], k - 1);
    } else {
      assert ops[..0] == [] && ops[0..] == ops;
    }
  }

  lemma NextState(db: Db, ops: seq<Op>, k: nat)
    requires Legal(db, ops) && k < |ops|
    ensures Legal(db, ops[..k]) && Issued(After(db, ops[..k]), ops[k])
    ensures After(db, ops[..k + 1]) == Apply(After(db, ops[..k]), ops[k])
  {
    hide Apply, Issued, Hits;
    RunSplits(db, ops, k);
    RunSplits(db, ops, k + 1);
    RunSplits(db, ops[..k + 1], k);
    assert ops[k..][0] == ops[k];
    assert ops[..k + 1][..k] == ops[..k] && ops[..k + 1][k..] == [ops[k]] && [ops[k]][1..] == [];
  }

  lemma EmptyTable()
    ensures Inv(EMPTY)
  {
  }

  /** Over every run, at every step, a status stays or moves along accepted, leased, succeeded or
      failed, or from the first two to timed out; a job is in the table from its insertion on. */
  lemma StatusMovesForward(ops: seq<Op>, k: nat, id: JobId)
    requires Legal(EMPTY, ops) && k < |ops|
    ensures var before, after := After(EMPTY, ops[..k]), After(EMPTY, ops[..k + 1]);
            if id in before.jobs then id in after.jobs && Moves(before.jobs[id].status, after.jobs[id].status)
            else id in after.jobs ==> after.jobs[id].status == Accepted
  {
    hide Evolves, JobOk, HandoutsOk, CompletionsOk, Hits, Apply, Moves, After, Legal, Inv;
    NextState(EMPTY, ops, k);
    EmptyTable();
    RunExtends(EMPTY, ops[..k]);
    var before, op := After(EMPTY, ops[..k]), ops[k];
    TablesStep(before, op);
    if id in before.jobs {
      InvHasJobs(before);
      RowStep(before, op, id);
    }
  }

  lemma InvHasJobs(db: Db)
    requires Inv(db)
    ensures JobsOk(db)
  {
  }

  /** A new handout or completion is of no job that had one. */
  lemma NotAgain(db: Db, db': Db, i: nat)
    requires Extends(db, db')
    ensures |db.handouts| <= i < |db'.handouts| ==>
              forall k :: 0 <= k < |db.handouts| ==> db.handouts[k].id != db'.handouts[i].id
    ensures |db.completions| <= i < |db'.completions| ==>
              forall k :: 0 <= k < |db.completions| ==> db.completions[k].id != db'.completions[i].id
  {
    hide JobOk, Evolves;
  }

  /** A terminal job is final: its row never changes again, and it is never leased or completed
      afterwards. */
  lemma TerminalIsFinal(db: Db, ops: seq<Op>, id: JobId)
    requires Inv(db) && Legal(db, ops) && id in db.jobs && IsTerminal(db.jobs[id].status)
    ensures var db' := After(db, ops);
            && id in db'.jobs && db'.jobs[id] == db.jobs[id]
            && (forall i :: |db.handouts| <= i < |db'.handouts| ==> db'.handouts[i].id != id)
            && (forall i :: |db.completions| <= i < |db'.completions| ==> db'.completions[i].id != id)
  {
    hide Legal, After, TextLeq, Render;
    RunExtends(db, ops);
    var db' := After(db, ops);
    assert db'.jobs[id] == db.jobs[id] && JobOk(db.jobs[id]);
    assert db.jobs[id].leasedAt.Some? ==> Handout(id, db.jobs[id].node) in db.handouts;
    forall i | |db.handouts| <= i < |db'.handouts| ensures db'.handouts[i].id != id {
      NotAgain(db, db', i);
    }
    forall i | |db.completions| <= i < |db'.completions| ensures db'.completions[i].id != id {
      NotAgain(db, db', i);
    }
  }

  /** Safety over every run from an empty table, read off the row of a job: a completed job was
      handed to its node and completed by that node, each once. A lease is within the deadline in
      the order of decimal texts, and in that of numbers exactly when the two orders agree, as they
      do for times of ten digits. */
  lemma CompletedJobWasLeased(ops: seq<Op>, id: JobId)
    requires Legal(EMPTY, ops) && id in After(EMPTY, ops).jobs
    ensures var db := After(EMPTY, ops);
            var job := db.jobs[id];
            && (IsCompleted(job) ==>
                  && Handout(id, job.node) in db.handouts
                  && Completion(id, job.node, job.status, job.response) in db.completions
                  && job.leasedAt.Some?
                  && (job.status == Succeeded ==> job.response.Some?))
            && (forall i :: 0 <= i < |db.handouts| && db.handouts[i].id == id ==> db.handouts[i].node == job.node)
            && (forall i, j :: 0 <= i < j < |db.handouts| ==> db.handouts[i].id != db.handouts[j].id)
            && (forall i :: 0 <= i < |db.completions| && db.completions[i].id == id ==>
                  db.completions[i] == Completion(id, job.node, job.status, job.response))
            && (forall i, j :: 0 <= i < j < |db.completions| ==> db.completions[i].id != db.completions[j].id)
            && (job.leasedAt.Some? ==>
                  && DecimalLeq(job.leasedAt.value, job.deadlineAt)
                  && (job.leasedAt.value <= job.deadlineAt <==> SameOrder(job.leasedAt.value, job.deadlineAt))
                  && (TenDigits(job.leasedAt.value) && TenDigits(job.deadlineAt) ==> job.leasedAt.value <= job.deadlineAt))
  {
    hide Legal, After, Render, TextLeq, DecimalLeq, SameOrder;
    RunExtends(EMPTY, ops);
    var job := After(EMPTY, ops).jobs[id];
    assert JobOk(job);
    if job.leasedAt.Some? {
      TextOrderIsDecimal(job.leasedAt.value, job.deadlineAt);
      TextOrderIsNumeric(job.leasedAt.value, job.deadlineAt);
      if TenDigits(job.leasedAt.value) && TenDigits(job.deadlineAt) {
        TenDigitsInOrder(job.leasedAt.value, job.deadlineAt);
      }
    }
  }

  /** The waiter's time-out is true of the row exactly when no completion of the job landed
      between its last look and its update, whatever else ran in between. */
  lemma TimeOutIsTrueUnlessCompleted(seen: Db, ops: seq<Op>, id: JobId, now: Seconds)
    requires Inv(seen) && Legal(seen, ops) && id in seen.jobs && !IsTerminal(seen.jobs[id].status)
    ensures var mid := After(seen, ops);
            var end := Apply(mid, MarkTimedOut(id, now));
            && id in end.jobs && IsTerminal(end.jobs[id].status)
            && (end.jobs[id].status == TimedOut <==> NotCompletedSince(seen, mid, id))
  {
    hide Legal, After, Apply, Extends, Inv;
    RunExtends(seen, ops);
    var mid := After(seen, ops);
    CompletedSince(seen, mid, id);
    MarkEnds(mid, id, now);
  }

  /** No completion of the job in what `db'` adds to `db`. */
  ghost predicate NotCompletedSince(db: Db, db': Db, id: JobId) {
    forall i :: |db.completions| <= i < |db'.completions| ==> db'.completions[i].id != id
  }

  lemma CompletedSince(seen: Db, mid: Db, id: JobId)
    requires Inv(seen) && Extends(seen, mid) && id in seen.jobs && !IsCompleted(seen.jobs[id])
    ensures id in mid.jobs && (IsCompleted(mid.jobs[id]) <==> !NotCompletedSince(seen, mid, id))
  {
    hide JobOk, HandoutsOk, Evolves;
    assert forall i :: 0 <= i < |seen.completions| ==> seen.completions[i].id != id;
    assert forall i :: 0 <= i < |seen.completions| ==> mid.completions[i] == seen.completions[i];
  }

  lemma MarkEnds(mid: Db, id: JobId, now: Seconds)
    requires id in mid.jobs
    ensures var end := Apply(mid, MarkTimedOut(id, now));
            && id in end.jobs && IsTerminal(end.jobs[id].status) && end.completions == mid.completions
            && (end.jobs[id].status == TimedOut <==> !IsCompleted(mid.jobs[id]))
  {
  }

  /** The shortest run in which they differ: a completion and the late update, which changes
      nothing. */
  lemma LateCompletionWins(db: Db, id: JobId, response: string, now: Seconds)
    requires id in db.jobs && db.jobs[id].status == Leased
    ensures var ops := [Complete(id, db.jobs[id].node, Succeeded, Some(response), None, None, now), MarkTimedOut(id, now)];
            && Legal(db, ops)
            && id in After(db, ops).jobs
            && After(db, ops).jobs[id].status == Succeeded && After(db, ops).jobs[id].response == Some(response)
  {
    var complete := Complete(id, db.jobs[id].node, Succeeded, Some(response), None, None, now);
    var ops := [complete, MarkTimedOut(id, now)];
    var mid := Apply(db, complete);
    assert ops[1..] == [MarkTimedOut(id, now)] && ops[1..][1..] == [];
    assert After(db, ops) == After(mid, ops[1..]) == Apply(mid, MarkTimedOut(id, now));
    assert Legal(mid, ops[1..]);
  }
}
