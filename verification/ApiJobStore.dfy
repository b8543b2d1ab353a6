/** The job table, its queue and the worker, as they change in place. */
module ApiJobStore {
  import opened Wrappers
  import opened Json
  import opened ApiJobs
  import Payloads = ApiJobPayload

  /** An undisturbed delivery: the three steps of the protocol one after the other. */
  ghost function PerformSteps<Db(!new)>(handler: Handler<Db>, w: World, s: System<Db>, id: JobId, seed: int): System<Db>
    requires id in s.queue && id !in s.flights
  {
    var started := Start(w, s, id);
    if id !in started.flights then started else Finish(w, RunCommand(handler, started, id, seed), id)
  }

  class ApiJobStore<Db(!new)> {
    var rows: map<JobId, Job>
    var queue: multiset<JobId>
    var flights: map<JobId, Flight>
    var db: Db

    ghost function Snapshot(): System<Db>
      reads this
    {
      System(rows, queue, flights, db)
    }

    constructor (db: Db)
      ensures Snapshot() == System(map[], multiset{}, map[], db)
      ensures Initial(Snapshot())
    {
      this.db := db;
      rows, queue, flights := map[], multiset{}, map[];
    }

    method Enqueue(
      w: World, id: JobId, owner: Owner, token: int, commandKey: string, payload: Hash, size: int
    ) returns (accepted: bool)
      modifies `rows, `queue
      ensures Snapshot() == ApiJobs.Enqueue(w, old(Snapshot()), id, owner, token, commandKey, payload, size)
      ensures accepted ==> id in rows && rows[id].status == Pending && id in queue
      ensures accepted <==> id !in old(rows) && id !in flights && Fits(w, size)
    {
      if id in rows || id in flights || !Fits(w, size) {
        return false;
      }
      rows := rows[id := NewJob(owner, token, commandKey, payload, size)];
      queue := queue + multiset{id};
      accepted := true;
    }

    /** fail_job! */
    method Fail(w: World, id: JobId, errorClass: string, message: string)
      requires id in rows
      modifies `rows
      ensures rows == old(rows)[id := FailJob(w, old(rows)[id], errorClass, message)]
    {
      if Fits(w, rows[id].size) {
        rows := rows[id := rows[id].(status := Failed, errorClass := Some(errorClass),
                                     errorMessage := Some(Truncate(message)), result := NoResult)];
      }
    }

    /** perform: find, validate, flip to processing, run, then complete or fail. */
    method Perform(handler: Handler<Db>, w: World, id: JobId, seed: int)
      requires id in queue && id !in flights
      modifies `rows, `queue, `db
      ensures Snapshot() == PerformSteps(handler, w, old(Snapshot()), id, seed)
      ensures id in old(rows) && Fits(w, old(rows)[id].size) ==> id in rows && rows[id].Terminal()
    {
      hide Truncate, ValidateToken, Payloads.ParamsFromJob;
      queue := queue - multiset{id};
      if id !in rows {
        return;
      }
      var validation := ValidateToken(w, rows[id]);
      if validation.Failure? {
        Fail(w, id, validation.error.0, validation.error.1);
        return;
      }
      rows := rows[id := rows[id].(status := Processing)];
      var job := rows[id];
      var before := db;
      var outcome := handler(job.owner, job.commandKey, Payloads.ParamsFromJob(job.payload), db, seed);
      db := outcome.db;
      ghost var landed := flights[id := Started(job)][id := Ran(job, outcome.result)] - {id};
      assert landed == flights;
      match outcome.result {
        case Success(value) =>
          if Fits(w, job.size) {
            rows := rows[id := rows[id].(status := Completed, result := WrapResult(value),
                                         errorClass := None, errorMessage := None)];
          } else {
            Fail(w, id, "ActiveRecord::RecordInvalid", "");
          }
        case Failure((errorClass, message)) =>
          db := before;
          Fail(w, id, errorClass, message);
      }
    }

    method Destroy(client: Owner, id: JobId) returns (found: bool)
      modifies `rows
      ensures Snapshot() == ApiJobs.Destroy(old(Snapshot()), client, id)
      ensures found <==> id in old(rows) && old(rows)[id].owner == client
    {
      found := id in rows && InScope(rows[id], client);
      if found {
        rows := rows - {id};
      }
    }
  }
}
