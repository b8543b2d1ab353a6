/** What whole runs of the job protocol do: which commands take effect, what the rows end up showing,
    how often a command runs, and how that compares with direct calls. */
module ApiJobRuns {
  import opened Wrappers
  import opened Json
  import opened ApiJobs
  import Payloads = ApiJobPayload

  // Effects

  /** Commands that returned, with the job each was given, in the order of their transactions. */
  ghost function Returned<Db(!new)>(r: Run<Db>, k: nat): seq<(Job, int)>
    requires r.Valid() && k <= |r.ops|
  {
    if k == 0 then []
    else
      var op, s := r.ops[k - 1], r.states[k - 1];
      if op.RunOp? && Execute(r.handler, s.flights[op.id].job, s.db, op.seed).result.Success? then
        Returned(r, k - 1) + [(s.flights[op.id].job, op.seed)]
      else Returned(r, k - 1)
  }

  /** Those commands alone, one after the other, with no protocol around them. */
  ghost function Replay<Db(!new)>(handler: Handler<Db>, db: Db, calls: seq<(Job, int)>): Db {
    if calls == [] then db
    else
      var n := |calls| - 1;
      Execute(handler, calls[n].0, Replay(handler, db, calls[..n]), calls[n].1).db
  }

  /** The database is what the returning commands make of it, in turn: a command that raises leaves no
      effect whatever it wrote, and neither does anything else in the protocol. */
  lemma {:induction false} RunEffects<Db(!new)>(r: Run<Db>, k: nat)
    requires r.Valid() && k <= |r.ops|
    ensures r.states[k].db == Replay(r.handler, r.states[0].db, Returned(r, k))
  {
    hide Execute;
    if k > 0 {
      RunEffects(r, k - 1);
      assert Enabled(r.states[k - 1], r.ops[k - 1]);
      assert Returned(r, k) != Returned(r, k - 1) ==> Returned(r, k)[..|Returned(r, k)| - 1] == Returned(r, k - 1);
    }
  }

  // Results

  /** The job was new at step `from` and has been there ever since. */
  ghost predicate LivesSince<Db(!new)>(r: Run<Db>, from: nat, k: nat, id: JobId)
    requires r.Valid() && from < k <= |r.ops|
  {
    && id !in r.states[from].rows && id !in r.states[from].flights
    && forall i | from < i <= k :: id in r.states[i].rows
  }

  /** The command of the job ran at a step before k, but not before `from`, and came to this result. */
  ghost predicate CameTo<Db(!new)>(r: Run<Db>, from: nat, k: nat, id: JobId, job: Job, result: Result<Value, Error>)
    requires r.Valid() && from <= k <= |r.ops|
  {
    exists j :: from <= j < k && RunsTo(r, j, id, job, result)
  }

  ghost predicate RunsTo<Db(!new)>(r: Run<Db>, j: nat, id: JobId, job: Job, result: Result<Value, Error>)
    requires r.Valid() && j < |r.ops|
  {
    && r.ops[j].RunOp? && r.ops[j].id == id
    && Execute(r.handler, job, r.states[j].db, r.ops[j].seed).result == result
  }

  /** The job's token was refused with this error at such a step. */
  ghost predicate Refused<Db(!new)>(r: Run<Db>, from: nat, k: nat, id: JobId, job: Job, e: Error)
    requires r.Valid() && from <= k <= |r.ops|
  {
    exists j :: from <= j < k && r.ops[j] == StartOp(id) && ValidateToken(r.worlds[j], job) == Failure(e)
  }

  /** What a finished row shows is what its command came to, or why its token was refused. */
  ghost predicate Accounted<Db(!new)>(r: Run<Db>, from: nat, k: nat, id: JobId, job: Job)
    requires r.Valid() && from <= k <= |r.ops|
  {
    && (job.status == Completed ==>
          job.result.Wrapped? && job.result == WrapResult(job.result.data)
              && CameTo(r, from, k, id, job, Success(job.result.data)))
    && (job.status == Failed ==>
          exists e: Error :: job.errorClass == Some(e.0) && job.errorMessage == Some(Truncate(e.1))
              && FailedWith(r, from, k, id, job, e))
  }

  ghost predicate FailedWith<Db(!new)>(r: Run<Db>, from: nat, k: nat, id: JobId, job: Job, e: Error)
    requires r.Valid() && from <= k <= |r.ops|
  {
    CameTo(r, from, k, id, job, Failure(e)) || Refused(r, from, k, id, job, e)
  }

  ghost predicate FlightAccounted<Db(!new)>(r: Run<Db>, from: nat, k: nat, id: JobId)
    requires r.Valid() && from <= k <= |r.ops|
  {
    var flights := r.states[k].flights;
    id in flights && flights[id].Ran? ==> CameTo(r, from, k, id, flights[id].job, flights[id].result)
  }

  lemma CameToLater<Db(!new)>(r: Run<Db>, from: nat, k: nat, id: JobId, job: Job, job': Job)
    requires r.Valid() && from < k <= |r.ops| && SameRequest(job, job')
    ensures forall result :: CameTo(r, from, k - 1, id, job, result) ==> CameTo(r, from, k, id, job', result)
  {
    forall result | CameTo(r, from, k - 1, id, job, result) ensures CameTo(r, from, k, id, job', result) {
      var j :| from <= j < k - 1 && RunsTo(r, j, id, job, result);
      hide Next, ValidateToken;
      assert RunsTo(r, j, id, job', result);
    }
  }

  lemma RefusedLater<Db(!new)>(r: Run<Db>, from: nat, k: nat, id: JobId, job: Job, job': Job)
    requires r.Valid() && from < k <= |r.ops| && SameRequest(job, job')
    ensures forall e :: Refused(r, from, k - 1, id, job, e) ==> Refused(r, from, k, id, job', e)
  {
    forall e | Refused(r, from, k - 1, id, job, e) ensures Refused(r, from, k, id, job', e) {
      var j :| from <= j < k - 1 && r.ops[j] == StartOp(id) && ValidateToken(r.worlds[j], job) == Failure(e);
      hide Next;
      assert ValidateToken(r.worlds[j], job') == Failure(e);
    }
  }

  lemma AccountedLater<Db(!new)>(r: Run<Db>, from: nat, k: nat, id: JobId, job: Job)
    requires r.Valid() && from < k <= |r.ops| && Accounted(r, from, k - 1, id, job)
    ensures Accounted(r, from, k, id, job)
  {
    CameToLater(r, from, k, id, job, job);
    RefusedLater(r, from, k, id, job, job);
    hide CameTo, Refused;
    if job.status == Failed {
      var e: Error :| job.errorClass == Some(e.0) && job.errorMessage == Some(Truncate(e.1))
          && FailedWith(r, from, k - 1, id, job, e);
      assert FailedWith(r, from, k, id, job, e);
    }
  }

  lemma {:induction false} FlightsAccounted<Db(!new)>(r: Run<Db>, from: nat, k: nat, id: JobId)
    requires r.Valid() && from <= k <= |r.ops| && id !in r.states[from].flights
    ensures FlightAccounted(r, from, k, id)
  {
    if k > from {
      FlightsAccounted(r, from, k - 1, id);
      var s, s', op := r.states[k - 1], r.states[k], r.ops[k - 1];
      if id in s'.flights && s'.flights[id].Ran? {
        var job := s'.flights[id].job;
        CameToLater(r, from, k, id, job, job);
        RanBefore(r, k, id);
        if op.RunOp? && op.id == id {
          assert RunsTo(r, k - 1, id, job, s'.flights[id].result);
        }
      }
    }
  }

  /** A command that has run did so in the last step, or before. */
  lemma RanBefore<Db(!new)>(r: Run<Db>, k: nat, id: JobId)
    requires r.Valid() && 0 < k <= |r.ops| && id in r.states[k].flights && r.states[k].flights[id].Ran?
    ensures var s, op, flight := r.states[k - 1], r.ops[k - 1], r.states[k].flights[id];
            if op.RunOp? && op.id == id then RunsTo(r, k - 1, id, flight.job, flight.result)
            else id in s.flights && s.flights[id] == flight
  {
    var s, op := r.states[k - 1], r.ops[k - 1];
    assert Enabled(s, op) && r.states[k] == Next(r.handler, r.worlds[k - 1], s, op);
    hide ValidateToken, FailJob, CompleteJob, Execute;
    if !op.DestroyOp? && op.id != id {
      OthersUntouched(r.handler, r.worlds[k - 1], s, op, id);
      hide Next;
    }
  }

  /** A delivery that ends accounts for the row it leaves. */
  lemma StartAccounts<Db(!new)>(r: Run<Db>, from: nat, k: nat, id: JobId)
    requires r.Valid() && from < k <= |r.ops| && r.ops[k - 1] == StartOp(id)
    requires id in r.states[k - 1].rows && Accounted(r, from, k - 1, id, r.states[k - 1].rows[id])
    ensures id in r.states[k].rows && Accounted(r, from, k, id, r.states[k].rows[id])
  {
    var w, job := r.worlds[k - 1], r.states[k - 1].rows[id];
    assert Enabled(r.states[k - 1], r.ops[k - 1]);
    AccountedLater(r, from, k, id, job);
    match ValidateToken(w, job)
    case Success(_) =>
    case Failure(e) =>
      var job' := FailJob(w, job, e.0, e.1);
      if Fits(w, job.size) {
        assert ValidateToken(w, job') == Failure(e);
        assert Refused(r, from, k, id, job', e);
        assert FailedWith(r, from, k, id, job', e);
      }
  }

  lemma FinishAccounts<Db(!new)>(r: Run<Db>, from: nat, k: nat, id: JobId)
    requires r.Valid() && from < k <= |r.ops| && r.ops[k - 1] == FinishOp(id) && id !in r.states[from].flights
    requires id in r.states[k - 1].rows && Accounted(r, from, k - 1, id, r.states[k - 1].rows[id])
    ensures id in r.states[k].rows && Accounted(r, from, k, id, r.states[k].rows[id])
  {
    var w, s, job, job' := r.worlds[k - 1], r.states[k - 1], r.states[k - 1].rows[id], r.states[k].rows[id];
    assert Enabled(s, r.ops[k - 1]);
    var flight := s.flights[id];
    RunKeepsInv(r, k - 1);
    assert RowInv(s, id);
    FlightsAccounted(r, from, k - 1, id);
    AccountedLater(r, from, k, id, job);
    if Fits(w, job.size) {
      assert SameRequest(flight.job, job');
      CameToLater(r, from, k, id, flight.job, job');
      hide CameTo, Refused, Truncate;
      match flight.result
      case Success(value) =>
      case Failure(e) =>
        assert FailedWith(r, from, k, id, job', e);
    }
  }

  /** In every run a completed row holds what its command returned, run since the row was requested, for the row's
      own owner, key and payload on the database of that moment; and a failed row the error it raised or was
      refused with. */
  lemma {:induction false} RowsAccounted<Db(!new)>(r: Run<Db>, from: nat, k: nat, id: JobId)
    requires r.Valid() && from < k <= |r.ops| && LivesSince(r, from, k, id)
    ensures Accounted(r, from, k, id, r.states[k].rows[id])
  {
    if k > from + 1 {
      hide Next, Accounted;
      var op := r.ops[k - 1];
      RowsAccounted(r, from, k - 1, id);
      if op == StartOp(id) {
        StartAccounts(r, from, k, id);
      } else if op == FinishOp(id) {
        FinishAccounts(r, from, k, id);
      } else {
        RowUnchanged(r, k, id);
        AccountedLater(r, from, k, id, r.states[k - 1].rows[id]);
      }
    } else {
      NewRowIsQueued(r, k, id);
    }
  }

  lemma RowUnchanged<Db(!new)>(r: Run<Db>, k: nat, id: JobId)
    requires r.Valid() && 0 < k <= |r.ops| && id in r.states[k - 1].rows && id in r.states[k].rows
    requires r.ops[k - 1] != StartOp(id) && r.ops[k - 1] != FinishOp(id)
    ensures r.states[k].rows[id] == r.states[k - 1].rows[id]
  {
    hide Next;
    RunOnRows(r, k - 1, id);
  }

  /** Polling a completed job shows what its command returned, as data and as return value, even a false one. */
  lemma PollShowsOutcome<Db(!new)>(r: Run<Db>, from: nat, k: nat, id: JobId)
    requires r.Valid() && from < k <= |r.ops| && LivesSince(r, from, k, id)
    requires r.states[k].rows[id].status == Completed
    ensures var job := r.states[k].rows[id]; var view := Serialize(job);
            && view.errorClass == None && view.data == view.returnValue
            && CameTo(r, from, k, id, job, Success(view.data))
  {
    hide CameTo;
    RunKeepsInv(r, k);
    assert RowInv(r.states[k], id);
    RowsAccounted(r, from, k, id);
  }

  // Async and sync

  /** What a command may look at: permitted keys with plain values, and data and filter when present. */
  datatype Seen = Seen(permitted: Hash, data: Option<Value>, filter: Option<Value>)

  function SeenBy(params: Hash): Seen {
    Seen(map k | k in params && k in Payloads.PERMITTED && Payloads.PermittedScalar(params[k]) :: params[k],
         Payloads.Require(params, "data"), Payloads.PresenceOf(params, "filter"))
  }

  lemma ReplayIsSeenAlike(path: Hash, params: Hash)
    requires Payloads.ControllerParams(path, params) && Payloads.Payload(path, params).Some?
    ensures SeenBy(Payloads.ParamsFromJob(Payloads.Payload(path, params).value)) == SeenBy(params)
  {
    var replay := Payloads.ParamsFromJob(Payloads.Payload(path, params).value);
    var a, b := SeenBy(replay).permitted, SeenBy(params).permitted;
    forall k ensures (k in a <==> k in b) && (k in a ==> a[k] == b[k]) {
      Payloads.ReplayedParams(path, params);
      Payloads.AsyncRefinesSync(path, params, k);
      Payloads.KeyNames();
      hide Payloads.ParamsFromJob, Payloads.Payload, Payloads.Require, Payloads.PresenceOf;
    }
    assert a == b;
    Payloads.AsyncRefinesSync(path, params, "data");
  }

  /** A command that looks at nothing else in the parameters. */
  ghost predicate LooksOnlyAtSeen<Db(!new)>(handler: Handler<Db>) {
    forall owner, key, params, params', db, seed | SeenBy(params) == SeenBy(params') ::
      handler(owner, key, params, db, seed) == handler(owner, key, params', db, seed)
  }

  /** The job holds what the request asked for. */
  ghost predicate HoldsRequest(job: Job, op: Op) {
    && op.EnqueueOp? && job.owner == op.owner && job.token == op.token && job.commandKey == op.commandKey
    && job.payload == op.payload && job.size == op.size
  }

  /** Over every run a job comes from a request for it, accepted because its id was new and its payload within the
      cap, and holds that request's owner, token, command, payload and size. */
  lemma {:induction false} RowsFromRequests<Db(!new)>(r: Run<Db>, k: nat, id: JobId) returns (j: nat)
    requires r.Valid() && k <= |r.ops| && id in r.states[k].rows
    ensures j < k && r.ops[j].EnqueueOp? && r.ops[j].id == id && HoldsRequest(r.states[k].rows[id], r.ops[j])
    ensures r.worlds[j].maxPayload <= 0 || r.ops[j].size <= r.worlds[j].maxPayload
    ensures LivesSince(r, j, k, id)
  {
    if id in r.states[k - 1].rows {
      j := RowsFromRequests(r, k - 1, id);
      hide Next;
      RunOnRows(r, k - 1, id);
    } else {
      j := k - 1;
      NewRowIsRequested(r, k, id);
    }
  }

  lemma NewRowIsRequested<Db(!new)>(r: Run<Db>, k: nat, id: JobId)
    requires r.Valid() && 0 < k <= |r.ops| && id in r.states[k].rows && id !in r.states[k - 1].rows
    ensures var op, w := r.ops[k - 1], r.worlds[k - 1];
            && op.EnqueueOp? && op.id == id && HoldsRequest(r.states[k].rows[id], op)
            && id !in r.states[k - 1].flights && (w.maxPayload <= 0 || op.size <= w.maxPayload)
  {
    var s, op := r.states[k - 1], r.ops[k - 1];
    assert Enabled(s, op) && r.states[k] == Next(r.handler, r.worlds[k - 1], s, op);
    if !op.DestroyOp? && op.id != id {
      OthersUntouched(r.handler, r.worlds[k - 1], s, op, id);
    }
    hide ValidateToken, Execute, FailJob, CompleteJob;
  }

  /** A request is accepted exactly when its id is new and its payload within the cap, and is then a pending job. */
  lemma RequestAccepted<Db(!new)>(r: Run<Db>, j: nat)
    requires r.Valid() && j < |r.ops| && r.ops[j].EnqueueOp?
    ensures var op, w, s, s' := r.ops[j], r.worlds[j], r.states[j], r.states[j + 1];
            if op.id !in s.rows && op.id !in s.flights && (w.maxPayload <= 0 || op.size <= w.maxPayload)
            then && op.id in s'.rows && HoldsRequest(s'.rows[op.id], op) && s'.rows[op.id].status == Pending
                 && s'.rows[op.id].result == NoResult && s'.queue[op.id] == s.queue[op.id] + 1
            else s' == s
  {
  }

  /** The direct call of the command on parameters, at a step at which the job's own command ran, came to
      this result. */
  ghost predicate DirectCall<Db(!new)>(
    r: Run<Db>, from: nat, k: nat, id: JobId, owner: Owner, key: string, params: Hash, result: Result<Value, Error>
  )
    requires r.Valid() && from <= k <= |r.ops|
  {
    exists j :: from <= j < k && r.ops[j].RunOp? && r.ops[j].id == id
             && r.handler(owner, key, params, r.states[j].db, r.ops[j].seed).result == result
  }

  lemma {:induction false} RequestStays<Db(!new)>(r: Run<Db>, j: nat, k: nat, id: JobId)
    requires r.Valid() && j < k <= |r.ops| && forall i | j < i <= k :: id in r.states[i].rows
    ensures SameRequest(r.states[j + 1].rows[id], r.states[k].rows[id])
  {
    if j + 1 < k {
      RequestStays(r, j, k - 1, id);
      hide Next;
      RunOnRows(r, k - 1, id);
    }
  }

  /** Async refines sync over the whole protocol: once a request with these parameters is accepted, what polling
      shows of the completed job, while it is not destroyed, is what the direct call on the very parameters would
      have returned at the moment the command ran. */
  lemma AsyncRunRefinesSync<Db(!new)>(r: Run<Db>, j: nat, k: nat, path: Hash, params: Hash)
    requires r.Valid() && LooksOnlyAtSeen(r.handler) && j < k <= |r.ops| && r.ops[j].EnqueueOp?
    requires Payloads.ControllerParams(path, params) && Payloads.Payload(path, params) == Some(r.ops[j].payload)
    requires Accepts(r.worlds[j], r.states[j], r.ops[j].id, r.ops[j].size)
    requires forall i | j < i <= k :: r.ops[j].id in r.states[i].rows
    ensures var op := r.ops[j]; var job := r.states[k].rows[op.id];
            job.status == Completed ==>
              && Serialize(job).errorClass == None
              && Serialize(job).data == Serialize(job).returnValue
              && DirectCall(r, j, k, op.id, op.owner, op.commandKey, params, Success(Serialize(job).data))
  {
    hide Payloads.Payload, Payloads.ParamsFromJob, SeenBy, Payloads.ControllerParams;
    var id := r.ops[j].id;
    var job := r.states[k].rows[id];
    RequestAccepted(r, j);
    RequestStays(r, j, k, id);
    if job.status == Completed {
      PollShowsOutcome(r, j, k, id);
      ReplayIsSeenAlike(path, params);
      var value := Serialize(job).data;
      hide Next, Enabled;
      var i :| j <= i < k && RunsTo(r, i, id, job, Success(value));
      assert r.handler(job.owner, job.commandKey, params, r.states[i].db, r.ops[i].seed).result == Success(value);
    }
  }

  // How often a command runs

  /** For one job: deliveries put on the queue, deliveries that found no row or a refused token, and runs. */
  datatype Tally = Tally(delivered: nat, refused: nat, ran: nat)

  ghost predicate Delivers<Db(!new)>(w: World, s: System<Db>, op: Op, id: JobId) {
    op == RedeliverOp(id) || (op.EnqueueOp? && op.id == id && Accepts(w, s, id, op.size))
  }

  ghost predicate Refuses<Db(!new)>(w: World, s: System<Db>, op: Op, id: JobId) {
    op == StartOp(id) && (id !in s.rows || !Authorized(w, s.rows[id]))
  }

  ghost function TallyOf<Db(!new)>(r: Run<Db>, k: nat, id: JobId): Tally
    requires r.Valid() && k <= |r.ops|
  {
    if k == 0 then Tally(0, 0, 0)
    else
      var before := TallyOf(r, k - 1, id);
      var w, s, op := r.worlds[k - 1], r.states[k - 1], r.ops[k - 1];
      Tally(
        before.delivered + (if Delivers(w, s, op, id) then 1 else 0),
        before.refused + (if Refuses(w, s, op, id) then 1 else 0),
        before.ran + (if op.RunOp? && op.id == id then 1 else 0))
  }

  function Waiting<Db>(s: System<Db>, id: JobId): nat {
    s.queue[id] + if id in s.flights && s.flights[id].Started? then 1 else 0
  }

  lemma StepConserves<Db(!new)>(handler: Handler<Db>, w: World, s: System<Db>, op: Op, id: JobId)
    requires Enabled(s, op)
    ensures Waiting(Next(handler, w, s, op), id) + (if Refuses(w, s, op, id) then 1 else 0)
              + (if op.RunOp? && op.id == id then 1 else 0)
         == Waiting(s, id) + if Delivers(w, s, op, id) then 1 else 0
  {
    hide Execute, Authorized, ValidateToken, FailJob, CompleteJob;
    if !op.DestroyOp? && op.id != id {
      OthersUntouched(handler, w, s, op, id);
      hide Next;
    } else if op == StartOp(id) && id in s.rows {
      ValidateTokenSpec(w, s.rows[id]);
    }
  }

  /** No delivery is lost or made up: each still waits, was refused, or ran the command once. So a job
      that is not delivered again runs at most once. */
  lemma {:induction false} DeliveriesConserved<Db(!new)>(r: Run<Db>, k: nat, id: JobId)
    requires r.Valid() && k <= |r.ops|
    ensures var t := TallyOf(r, k, id);
            && t.delivered == t.ran + t.refused + Waiting(r.states[k], id)
            && (t.delivered <= 1 ==> t.ran <= 1)
  {
    if k > 0 {
      DeliveriesConserved(r, k - 1, id);
      StepConserves(r.handler, r.worlds[k - 1], r.states[k - 1], r.ops[k - 1], id);
    }
  }

  // Runs at hand

  ghost function Last<Db(!new)>(r: Run<Db>): System<Db>
    requires r.Valid()
  {
    r.states[|r.ops|]
  }

  /** The run with one more step. */
  ghost function Then<Db(!new)>(r: Run<Db>, w: World, op: Op): (longer: Run<Db>)
    requires r.Valid() && Enabled(Last(r), op)
    ensures longer.Valid() && longer.handler == r.handler && Last(longer) == Next(r.handler, w, Last(r), op)
  {
    hide Next;
    r.(worlds := r.worlds + [w], states := r.states + [Next(r.handler, w, Last(r), op)], ops := r.ops + [op])
  }

  lemma {:induction false} TallyOfPrefix<Db(!new)>(r: Run<Db>, w: World, op: Op, k: nat, id: JobId)
    requires r.Valid() && Enabled(Last(r), op) && k <= |r.ops|
    ensures TallyOf(Then(r, w, op), k, id) == TallyOf(r, k, id)
  {
    hide Next;
    if k > 0 {
      TallyOfPrefix(r, w, op, k - 1, id);
    }
  }

  ghost function Ran<Db(!new)>(r: Run<Db>, id: JobId): nat
    requires r.Valid()
  {
    TallyOf(r, |r.ops|, id).ran
  }

  lemma RanThen<Db(!new)>(r: Run<Db>, w: World, op: Op, id: JobId)
    requires r.Valid() && Enabled(Last(r), op)
    ensures Ran(Then(r, w, op), id) == Ran(r, id) + if op.RunOp? && op.id == id then 1 else 0
  {
    TallyOfPrefix(r, w, op, |r.ops|, id);
  }

  /** Execution is not at most once: after any run, a finished job that is delivered again while its
      application stands runs its command again. */
  lemma RedeliveryRunsAgain<Db(!new)>(r: Run<Db>, w: World, id: JobId, seed: int)
    requires r.Valid() && id in Last(r).rows && Last(r).rows[id].Terminal() && Authorized(w, Last(r).rows[id])
    ensures var r1 := Then(r, w, RedeliverOp(id));
            && Enabled(Last(r1), StartOp(id))
            && var r2 := Then(r1, w, StartOp(id));
            && Enabled(Last(r2), RunOp(id, seed))
            && Last(r2).rows[id].status == Processing
            && Ran(Then(r2, w, RunOp(id, seed)), id) == Ran(r, id) + 1
  {
    RunKeepsInv(r, |r.ops|);
    assert RowInv(Last(r), id);
    ValidateTokenSpec(w, Last(r).rows[id]);
    hide Execute, ValidateToken, Authorized;
    var r1 := Then(r, w, RedeliverOp(id));
    RanThen(r, w, RedeliverOp(id), id);
    var r2 := Then(r1, w, StartOp(id));
    RanThen(r1, w, StartOp(id), id);
    RanThen(r2, w, RunOp(id, seed), id);
  }

  ghost function Counter(): Handler<int> {
    (owner, key, params, db, seed) => Outcome(Success(Null), db + 1)
  }

  ghost function EmptyRun(handler: Handler<int>): (r: Run<int>)
    ensures r.Valid() && r.handler == handler
  {
    Run(handler, [], [System(map[], multiset{}, map[], 0)], [])
  }

  const ME: Owner := Owner(1, 1, None)

  const UNCAPPED: World := World(map[1 := 1], 0)

  const REQUEST: Op := EnqueueOp(7, ME, 1, "count", map[], 10)

  /** One delivery of job 7, from start to finish, on a row that fits. */
  ghost function Delivery(r: Run<int>): (longer: Run<int>)
    requires r.Valid() && r.handler == Counter() && 7 in Last(r).rows && Last(r).rows[7].owner == ME
    requires 7 in Last(r).queue && Last(r).flights == map[]
    ensures longer.Valid() && longer.handler == Counter() && Last(longer).db == Last(r).db + 1
    ensures 7 in Last(longer).rows && Last(longer).rows[7].status == Completed && Last(longer).rows[7].owner == ME
    ensures Last(longer).flights == map[]
  {
    hide Payloads.ParamsFromJob, Truncate, FailJob;
    var r1 := Then(r, UNCAPPED, StartOp(7));
    var r2 := Then(r1, UNCAPPED, RunOp(7, 0));
    Then(r2, UNCAPPED, FinishOp(7))
  }

  lemma DeliveryRan(r: Run<int>)
    requires r.Valid() && r.handler == Counter() && 7 in Last(r).rows && Last(r).rows[7].owner == ME
    requires 7 in Last(r).queue && Last(r).flights == map[]
    ensures Ran(Delivery(r), 7) == Ran(r, 7) + 1
  {
    hide Payloads.ParamsFromJob, Truncate, FailJob, Ran;
    var r1 := Then(r, UNCAPPED, StartOp(7));
    var r2 := Then(r1, UNCAPPED, RunOp(7, 0));
    RanThen(r, UNCAPPED, StartOp(7), 7);
    RanThen(r1, UNCAPPED, RunOp(7, 0), 7);
    RanThen(r2, UNCAPPED, FinishOp(7), 7);
  }

  /** The failing input for at most once: one request, one redelivery, and the command's effect twice. */
  lemma RedeliveryCountsTwice()
    ensures var r0 := EmptyRun(Counter());
            var r1 := Then(r0, UNCAPPED, REQUEST);
            && 7 in Last(r1).rows && 7 in Last(r1).queue && Last(r1).flights == map[]
            && var r2 := Delivery(r1);
            var r3 := Delivery(Then(r2, UNCAPPED, RedeliverOp(7)));
            Ran(r2, 7) == 1 && Last(r2).db == 1 && Ran(r3, 7) == 2 && Last(r3).db == 2
  {
    hide Delivery, Then, Ran;
    var r0 := EmptyRun(Counter());
    var r1 := Then(r0, UNCAPPED, REQUEST);
    RanThen(r0, UNCAPPED, REQUEST, 7);
    DeliveryRan(r1);
    var r2 := Delivery(r1);
    RanThen(r2, UNCAPPED, RedeliverOp(7), 7);
    DeliveryRan(Then(r2, UNCAPPED, RedeliverOp(7)));
    assert Ran(r0, 7) == 0 by { NoneRan(); }
  }

  lemma NoneRan()
    ensures Ran(EmptyRun(Counter()), 7) == 0
  {
  }

  const CAPPED: World := World(map[1 := 1], 5)

  const MOVED: World := World(map[1 := 2], 5)

  /** A failing input for terminality: accepted without a cap, then the cap drops below the size. The
      delivery commits the command's effect and leaves the row processing, with nothing queued or at work. */
  lemma OversizeStaysProcessing()
    ensures var r1 := Then(EmptyRun(Counter()), UNCAPPED, REQUEST);
            && Enabled(Last(r1), StartOp(7))
            && var r2 := Then(r1, CAPPED, StartOp(7));
            && Enabled(Last(r2), RunOp(7, 0))
            && var r3 := Then(r2, CAPPED, RunOp(7, 0));
            && Enabled(Last(r3), FinishOp(7))
            && var s := Last(Then(r3, CAPPED, FinishOp(7)));
            && s.rows[7].status == Processing && s.db == 1 && s.queue == multiset{} && s.flights == map[]
  {
    hide Payloads.ParamsFromJob, Truncate, FailJob;
  }

  /** The other: by the time of the delivery the application belongs to another organization, and the row
      stays pending. */
  lemma OversizeStaysPending()
    ensures var r1 := Then(EmptyRun(Counter()), UNCAPPED, REQUEST);
            && Enabled(Last(r1), StartOp(7))
            && var s := Last(Then(r1, MOVED, StartOp(7)));
            && s.rows[7].status == Pending && s.db == 0 && s.queue == multiset{} && s.flights == map[]
  {
    hide Payloads.ParamsFromJob, Truncate;
  }
}
