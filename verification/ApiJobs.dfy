/** The async job protocol: enqueue, perform, and a client that may destroy the row meanwhile. */
module ApiJobs {
  import opened Wrappers
  import opened Json
  import Payloads = ApiJobPayload

  type JobId = int

  datatype Status = Pending | Processing | Completed | Failed

  /** Who owns a job: organization, OAuth application, resource owner. */
  datatype Owner = Owner(organization: int, application: int, resourceOwner: Option<int>)

  datatype ResultColumn = NoResult | Wrapped(data: Value, returnValue: Value)

  datatype Job = Job(
    owner: Owner,
    token: int,
    commandKey: string,
    payload: Hash,
    size: int,
    status: Status,
    result: ResultColumn,
    errorClass: Option<string>,
    errorMessage: Option<string>
  ) {
    predicate Terminal() {
      status == Completed || status == Failed
    }
  }

  /** What the configuration says at one moment: our applications with their organizations, and the
      payload cap (none when not positive). */
  datatype World = World(applications: map<int, int>, maxPayload: int)

  /** What a command raised: class and message. */
  type Error = (string, string)

  /** A command's result, and the database as the command leaves it inside its transaction, even
      when it raises. */
  datatype Outcome<Db> = Outcome(result: Result<Value, Error>, db: Db)

  /** A registered command: it gets the owner's context, its key, the parameters and the database;
      the last argument stands for clock and randomness. */
  type Handler<!Db> = (Owner, string, Hash, Db, int) -> Outcome<Db>

  /** A delivery at work on a loaded row. */
  datatype Flight = Started(job: Job) | Ran(job: Job, result: Result<Value, Error>)

  datatype System<Db> = System(
    rows: map<JobId, Job>,
    queue: multiset<JobId>,
    flights: map<JobId, Flight>,
    db: Db
  )

  // Enqueuing

  function NewJob(owner: Owner, token: int, commandKey: string, payload: Hash, size: int): Job {
    Job(owner, token, commandKey, payload, size, Pending, NoResult, None, None)
  }

  /** rest_full_payload_size: checked whenever a row is saved with validations. */
  predicate Fits(w: World, size: int) {
    w.maxPayload > 0 ==> size <= w.maxPayload
  }

  /** A new id, and a payload within the cap. */
  predicate Accepts<Db>(w: World, s: System<Db>, id: JobId, size: int) {
    id !in s.rows && id !in s.flights && Fits(w, size)
  }

  /** enqueue_rest_full_api_job!: `size` is the byte size of the payload's JSON. */
  function Enqueue<Db>(
    w: World, s: System<Db>, id: JobId, owner: Owner, token: int, commandKey: string, payload: Hash, size: int
  ): System<Db> {
    if !Accepts(w, s, id, size) then s
    else
      s.(rows := s.rows[id := NewJob(owner, token, commandKey, payload, size)], queue := s.queue + multiset{id})
  }

  // Performing

  const MAX_MESSAGE: nat := 65000

  /** String#truncate. */
  function Truncate(message: string): (r: string)
    ensures |r| <= MAX_MESSAGE
    ensures |message| <= MAX_MESSAGE ==> r == message
  {
    if |message| > MAX_MESSAGE then message[..MAX_MESSAGE - 3] + "..." else message
  }

  /** A longer message keeps its first 64997 characters and three dots. */
  lemma LongMessage(message: string)
    requires |message| > 65000
    ensures |Truncate(message)| == 65000 && Truncate(message)[64997..] == "..."
    ensures Truncate(message)[..64997] == message[..64997]
  {
  }

  /** fail_job!: an update that does not raise, so an invalid row is left as it was. */
  function FailJob(w: World, job: Job, errorClass: string, message: string): Job {
    if !Fits(w, job.size) then job
    else job.(status := Failed, errorClass := Some(errorClass), errorMessage := Some(Truncate(message)),
        result := NoResult)
  }

  function WrapResult(value: Value): ResultColumn {
    Wrapped(value, value)
  }

  /** update! to completed: on an invalid row it raises, and failing the row does no better. */
  function CompleteJob(w: World, job: Job, value: Value): Job {
    if !Fits(w, job.size) then job
    else job.(status := Completed, result := WrapResult(value), errorClass := None, errorMessage := None)
  }

  /** validate_token_for_job! */
  function ValidateToken(w: World, job: Job): Result<(), Error> {
    if job.owner.application !in w.applications then
      Failure(("Decidim::RestFull::Core::ApiException::Unauthorized", "Invalid application"))
    else if w.applications[job.owner.application] != job.owner.organization then
      Failure(("Decidim::RestFull::Core::ApiException::Forbidden", "Organization mismatch"))
    else Success(())
  }

  /** An unknown application is Unauthorized, one of another organization Forbidden, and nothing else is refused. */
  lemma TokenRefused(w: World, job: Job)
    ensures ValidateToken(w, job).Failure? ==>
              ValidateToken(w, job).error
                == if job.owner.application in w.applications
                   then ("Decidim::RestFull::Core::ApiException::Forbidden", "Organization mismatch")
                   else ("Decidim::RestFull::Core::ApiException::Unauthorized", "Invalid application")
    ensures ValidateToken(w, job).Failure?
       <==> job.owner.application in w.applications ==> w.applications[job.owner.application] != job.owner.organization
  {
  }

  /** perform, up to the flip to processing. A missing row ends the delivery, silently. */
  function Start<Db>(w: World, s: System<Db>, id: JobId): System<Db>
    requires id in s.queue && id !in s.flights
  {
    var dequeued := s.(queue := s.queue - multiset{id});
    if id !in s.rows then dequeued
    else
      match ValidateToken(w, s.rows[id])
      case Failure((c, m)) => dequeued.(rows := s.rows[id := FailJob(w, s.rows[id], c, m)])
      case Success(_) =>
        var job := s.rows[id].(status := Processing);
        dequeued.(rows := s.rows[id := job], flights := s.flights[id := Started(job)])
  }

  /** The command on the parameters rebuilt from the stored payload. */
  function Execute<Db(!new)>(handler: Handler<Db>, job: Job, db: Db, seed: int): Outcome<Db> {
    handler(job.owner, job.commandKey, Payloads.ParamsFromJob(job.payload), db, seed)
  }

  /** SyncRunner.call: one transaction, rolled back when the command raises. */
  function Transaction<Db>(before: Db, o: Outcome<Db>): Db {
    if o.result.Success? then o.db else before
  }

  function RunCommand<Db(!new)>(handler: Handler<Db>, s: System<Db>, id: JobId, seed: int): System<Db>
    requires id in s.flights && s.flights[id].Started?
  {
    var job := s.flights[id].job;
    var o := Execute(handler, job, s.db, seed);
    s.(db := Transaction(s.db, o), flights := s.flights[id := Ran(job, o.result)])
  }

  /** The last update; on a row destroyed meanwhile it touches nothing. */
  function Finish<Db>(w: World, s: System<Db>, id: JobId): System<Db>
    requires id in s.flights && s.flights[id].Ran?
  {
    var landed := s.(flights := s.flights - {id});
    if id !in s.rows then landed
    else
      match s.flights[id].result
      case Success(value) => landed.(rows := s.rows[id := CompleteJob(w, s.rows[id], value)])
      case Failure((c, m)) => landed.(rows := s.rows[id := FailJob(w, s.rows[id], c, m)])
  }

  // The client

  /** for_organization and for_oauth_context together. */
  predicate InScope(job: Job, client: Owner) {
    && job.owner.organization == client.organization
    && job.owner.application == client.application
    && (if client.resourceOwner.Some? then job.owner.resourceOwner == client.resourceOwner
        else job.owner.resourceOwner == None)
  }

  /** destroy; a row out of scope is Not Found. */
  function Destroy<Db>(s: System<Db>, client: Owner, id: JobId): System<Db> {
    if id in s.rows && InScope(s.rows[id], client) then s.(rows := s.rows - {id}) else s
  }

  datatype JobView = JobView(status: Status, errorClass: Option<string>, data: Value, returnValue: Value)

  predicate Truthy(v: Value) {
    !v.Null? && v != Bool(false)
  }

  /** serialize_job: `r["return_value"] || r["data"]`. */
  function Serialize(job: Job): JobView {
    match job.result
    case NoResult => JobView(job.status, job.errorClass, Null, Null)
    case Wrapped(d, r) => JobView(job.status, job.errorClass, d, if Truthy(r) then r else d)
  }

  /** Polling shows the status and error class of any job, and no value of one without a result; a return value that is
      nil or false gives way to the data. */
  lemma PollShowsStatus(job: Job)
    ensures Serialize(job).status == job.status && Serialize(job).errorClass == job.errorClass
    ensures job.result == NoResult ==> Serialize(job).data == Null && Serialize(job).returnValue == Null
    ensures job.result.Wrapped? ==>
              var r := job.result.returnValue;
              && Serialize(job).data == job.result.data
              && Serialize(job).returnValue == if r == Null || r == Bool(false) then job.result.data else r
  {
  }

  // Runs

  datatype Op =
    | EnqueueOp(id: JobId, owner: Owner, token: int, commandKey: string, payload: Hash, size: int)
    | RedeliverOp(id: JobId)
    | StartOp(id: JobId)
    | RunOp(id: JobId, seed: int)
    | FinishOp(id: JobId)
    | DestroyOp(client: Owner, id: JobId)

  /** The queue may deliver a job again, but not while it is being performed. */
  predicate Enabled<Db>(s: System<Db>, op: Op) {
    match op
    case StartOp(id) => id in s.queue && id !in s.flights
    case RunOp(id, _) => id in s.flights && s.flights[id].Started?
    case FinishOp(id) => id in s.flights && s.flights[id].Ran?
    case _ => true
  }

  function Next<Db(!new)>(handler: Handler<Db>, w: World, s: System<Db>, op: Op): System<Db>
    requires Enabled(s, op)
  {
    match op
    case EnqueueOp(id, owner, token, key, payload, size) => Enqueue(w, s, id, owner, token, key, payload, size)
    case RedeliverOp(id) => s.(queue := s.queue + multiset{id})
    case StartOp(id) => Start(w, s, id)
    case RunOp(id, seed) => RunCommand(handler, s, id, seed)
    case FinishOp(id) => Finish(w, s, id)
    case DestroyOp(client, id) => Destroy(s, client, id)
  }

  ghost predicate Initial<Db(!new)>(s: System<Db>) {
    s.rows == map[] && s.flights == map[] && s.queue == multiset{}
  }

  /** A run; the configuration may change from step to step. */
  datatype Run<!Db(!new)> = Run(handler: Handler<Db>, worlds: seq<World>, states: seq<System<Db>>, ops: seq<Op>) {
    ghost predicate Valid() {
      && |states| == |ops| + 1 && |worlds| == |ops|
      && Initial(states[0])
      && forall i | 0 <= i < |ops| ::
           Enabled(states[i], ops[i]) && states[i + 1] == Next(handler, worlds[i], states[i], ops[i])
    }
  }

  ghost predicate ValidJob(job: Job) {
    && (job.status == Completed ==>
          && job.result.Wrapped? && job.result.data == job.result.returnValue
          && job.errorClass == None && job.errorMessage == None)
    && (job.status == Failed ==> job.result == NoResult && job.errorClass.Some?)
  }

  /** What no step changes about a job. */
  ghost predicate SameRequest(a: Job, b: Job) {
    && a.owner == b.owner && a.token == b.token && a.commandKey == b.commandKey
    && a.payload == b.payload && a.size == b.size
  }

  /** A row is processing while a delivery works on it, and the delivery works on that very job. */
  ghost predicate RowInv<Db(!new)>(s: System<Db>, id: JobId) {
    id in s.rows ==>
      && ValidJob(s.rows[id])
      && (id in s.flights ==> s.rows[id].status == Processing && SameRequest(s.flights[id].job, s.rows[id]))
  }

  ghost predicate Inv<Db(!new)>(s: System<Db>) {
    forall id | id in s.rows :: RowInv(s, id)
  }

  ghost predicate MapsTo(m: map<int, int>, key: int, value: int) {
    key in m && m[key] == value
  }

  /** The token of the job is of an application of the job's organization. */
  ghost predicate Authorized(w: World, job: Job) {
    MapsTo(w.applications, job.owner.application, job.owner.organization)
  }

  /** What one step may do to a row: it goes only by a destroy from its own context, keeps its
      request, is started only when authorized, and ends a delivery terminal exactly when its payload
      fits the cap of that moment (or it was done before and is refused now). */
  ghost predicate RowStep<Db(!new)>(w: World, s: System<Db>, op: Op, s': System<Db>, id: JobId)
    requires id in s.rows
  {
    && (id !in s'.rows <==> op.DestroyOp? && op.id == id && op.client == s.rows[id].owner)
    && (id in s'.rows ==> SameRequest(s'.rows[id], s.rows[id]) && RowInv(s', id))
    && (op == StartOp(id) && Authorized(w, s.rows[id]) ==> id in s'.flights && s'.rows[id].status == Processing)
    && (op == StartOp(id) && !Authorized(w, s.rows[id]) ==>
          id !in s'.flights && (s'.rows[id].Terminal() <==> Fits(w, s.rows[id].size) || s.rows[id].Terminal()))
    && (op == FinishOp(id) ==> id !in s'.flights && (s'.rows[id].Terminal() <==> Fits(w, s.rows[id].size)))
    && (id in s'.rows && op != StartOp(id) && op != FinishOp(id) ==> s'.rows[id] == s.rows[id])
  }

  lemma ValidateTokenSpec(w: World, job: Job)
    ensures ValidateToken(w, job).Success? <==> Authorized(w, job)
  {
  }

  lemma StartOnRow<Db(!new)>(w: World, s: System<Db>, id: JobId)
    requires RowInv(s, id) && Enabled(s, StartOp(id)) && id in s.rows
    ensures RowStep(w, s, StartOp(id), Start(w, s, id), id)
  {
    ValidateTokenSpec(w, s.rows[id]);
    hide Truncate, ValidateToken, Authorized;
  }

  lemma FinishOnRow<Db(!new)>(w: World, s: System<Db>, id: JobId)
    requires RowInv(s, id) && Enabled(s, FinishOp(id)) && id in s.rows
    ensures RowStep(w, s, FinishOp(id), Finish(w, s, id), id)
  {
    hide Truncate;
  }

  /** Work on one job touches no other. */
  lemma OthersUntouched<Db(!new)>(handler: Handler<Db>, w: World, s: System<Db>, op: Op, id: JobId)
    requires Enabled(s, op) && !op.DestroyOp? && op.id != id
    ensures var s' := Next(handler, w, s, op);
            && (id in s'.rows <==> id in s.rows) && (id in s.rows ==> s'.rows[id] == s.rows[id])
            && (id in s'.flights <==> id in s.flights) && (id in s.flights ==> s'.flights[id] == s.flights[id])
            && s'.queue[id] == s.queue[id]
  {
    hide ValidateToken, Execute, FailJob, CompleteJob;
  }

  lemma StepOnRow<Db(!new)>(handler: Handler<Db>, w: World, s: System<Db>, op: Op, id: JobId)
    requires Inv(s) && Enabled(s, op) && id in s.rows
    ensures RowStep(w, s, op, Next(handler, w, s, op), id)
  {
    assert RowInv(s, id);
    hide Start, Finish, ValidJob, Execute, Authorized, SameRequest;
    if !op.DestroyOp? && op.id != id {
      OthersUntouched(handler, w, s, op, id);
      hide Next;
      SameRequestAsItself(s.rows[id]);
    } else {
      match op
      case StartOp(_) =>
        StartOnRow(w, s, id);
      case FinishOp(_) =>
        FinishOnRow(w, s, id);
      case _ =>
        SameRequestAsItself(s.rows[id]);
    }
  }

  lemma SameRequestAsItself(job: Job)
    ensures SameRequest(job, job)
  {
  }

  lemma StepKeepsInv<Db(!new)>(handler: Handler<Db>, w: World, s: System<Db>, op: Op)
    requires Inv(s) && Enabled(s, op)
    ensures Inv(Next(handler, w, s, op))
  {
    var s' := Next(handler, w, s, op);
    forall row | row in s'.rows ensures RowInv(s', row) {
      if row in s.rows {
        StepOnRow(handler, w, s, op, row);
      } else {
        hide Start, Finish, RunCommand;
        assert op.EnqueueOp?;
      }
    }
  }

  lemma {:induction false} RunKeepsInv<Db(!new)>(r: Run<Db>, k: nat)
    requires r.Valid() && k <= |r.ops|
    ensures Inv(r.states[k])
  {
    if k > 0 {
      RunKeepsInv(r, k - 1);
      StepKeepsInv(r.handler, r.worlds[k - 1], r.states[k - 1], r.ops[k - 1]);
    }
  }

  /** Over every run, each row obeys RowStep at each step. */
  lemma RunOnRows<Db(!new)>(r: Run<Db>, k: nat, id: JobId)
    requires r.Valid() && k < |r.ops| && id in r.states[k].rows
    ensures RowStep(r.worlds[k], r.states[k], r.ops[k], r.states[k + 1], id)
  {
    RunKeepsInv(r, k);
    StepOnRow(r.handler, r.worlds[k], r.states[k], r.ops[k], id);
  }

  // Terminality

  /** The step ends a delivery of the job: its token is refused, or its outcome is written. */
  ghost predicate EndsDelivery<Db(!new)>(w: World, s: System<Db>, op: Op, id: JobId) {
    op == FinishOp(id) || (op == StartOp(id) && id in s.rows && !Authorized(w, s.rows[id]))
  }

  /** Some delivery of the job ended while the cap was below its size. */
  ghost predicate CutOff<Db(!new)>(r: Run<Db>, k: nat, id: JobId, size: int)
    requires r.Valid() && k <= |r.ops|
  {
    exists j :: 0 <= j < k && EndsDelivery(r.worlds[j], r.states[j], r.ops[j], id) && !Fits(r.worlds[j], size)
  }

  lemma CutOffGrows<Db(!new)>(r: Run<Db>, k: nat, id: JobId, size: int)
    requires r.Valid() && 0 < k <= |r.ops|
    ensures CutOff(r, k - 1, id, size) ==> CutOff(r, k, id, size)
    ensures EndsDelivery(r.worlds[k - 1], r.states[k - 1], r.ops[k - 1], id) && !Fits(r.worlds[k - 1], size) ==>
              CutOff(r, k, id, size)
  {
  }

  /** The job is done, or a delivery of it waits or is at work. */
  ghost predicate Attended<Db(!new)>(s: System<Db>, id: JobId)
    requires id in s.rows
  {
    s.rows[id].Terminal() || id in s.queue || id in s.flights
  }

  lemma StepAttends<Db(!new)>(handler: Handler<Db>, w: World, s: System<Db>, op: Op, id: JobId)
    requires Inv(s) && Enabled(s, op) && id in s.rows && Attended(s, id) && id in Next(handler, w, s, op).rows
    requires EndsDelivery(w, s, op, id) ==> Fits(w, s.rows[id].size)
    ensures Attended(Next(handler, w, s, op), id)
  {
    hide Start, Finish, Fits, Authorized, ValidJob, SameRequest, Execute;
    if !op.DestroyOp? && op.id != id {
      OthersUntouched(handler, w, s, op, id);
      hide Next;
    } else {
      StepOnRow(handler, w, s, op, id);
    }
  }

  /** In every run a job that nobody is going to work on again is done, unless the cap was lowered
      below its size by the time a delivery of it ended. */
  lemma {:induction false} RestIsTerminal<Db(!new)>(r: Run<Db>, k: nat, id: JobId)
    requires r.Valid() && k <= |r.ops| && id in r.states[k].rows
    ensures Attended(r.states[k], id) || CutOff(r, k, id, r.states[k].rows[id].size)
  {
    if k > 0 {
      var s, op := r.states[k - 1], r.ops[k - 1];
      hide Next, Attended, EndsDelivery, Fits, CutOff, RowStep;
      if id in s.rows {
        RunKeepsInv(r, k - 1);
        RestIsTerminal(r, k - 1, id);
        SizeStays(r, k, id);
        CutOffGrows(r, k, id, s.rows[id].size);
        if Attended(s, id) && (EndsDelivery(r.worlds[k - 1], s, op, id) ==> Fits(r.worlds[k - 1], s.rows[id].size)) {
          StepAttends(r.handler, r.worlds[k - 1], s, op, id);
        }
      } else {
        NewRowIsQueued(r, k, id);
      }
    }
  }

  lemma SizeStays<Db(!new)>(r: Run<Db>, k: nat, id: JobId)
    requires r.Valid() && 0 < k <= |r.ops| && id in r.states[k - 1].rows && id in r.states[k].rows
    ensures r.states[k].rows[id].size == r.states[k - 1].rows[id].size
  {
    hide Next;
    RunOnRows(r, k - 1, id);
  }

  /** A row that was not there was enqueued. */
  lemma NewRowIsQueued<Db(!new)>(r: Run<Db>, k: nat, id: JobId)
    requires r.Valid() && 0 < k <= |r.ops| && id in r.states[k].rows && id !in r.states[k - 1].rows
    ensures r.states[k].rows[id].status == Pending && Attended(r.states[k], id)
  {
    var s, op := r.states[k - 1], r.ops[k - 1];
    assert Enabled(s, op) && r.states[k] == Next(r.handler, r.worlds[k - 1], s, op);
    if !op.DestroyOp? && op.id != id {
      OthersUntouched(r.handler, r.worlds[k - 1], s, op, id);
    }
    hide ValidateToken, Execute, FailJob, CompleteJob;
    assert op.EnqueueOp?;
  }
}
