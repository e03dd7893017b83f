/** The worker registry (WorkerService: create, partial update, soft delete),
    keyed by the worker's business key. */
module Workers {
  import opened Common
  import opened Roles
  import WorkerIds

  /** The Worker row. The surrogate numeric id is not modelled: every lookup
      in the operations below is by business key. */
  datatype Worker = Worker(
    workerId: string,
    name: string,
    role: WorkerRole,
    isActive: bool,
    createdAt: Instant,
    updatedAt: Instant)

  /** The first worker at or after `from` with the given key. */
  function FindFrom(workers: seq<Worker>, id: string, from: nat): (r: Option<nat>)
    requires from <= |workers|
    ensures r.Some? ==> from <= r.value < |workers| && workers[r.value].workerId == id
    ensures r.Some? ==> forall k :: from <= k < r.value ==> workers[k].workerId != id
    ensures r.None? <==> forall k :: from <= k < |workers| ==> workers[k].workerId != id
    decreases |workers| - from
  {
    if from == |workers| then None
    else if workers[from].workerId == id then Some(from)
    else FindFrom(workers, id, from + 1)
  }

  /** The worker with the given key (`FirstOrDefaultAsync(w => w.WorkerId == id)`). */
  function FindWorker(workers: seq<Worker>, id: string): (r: Option<nat>)
    ensures r.Some? ==> r.value < |workers| && workers[r.value].workerId == id
    ensures r.None? <==> forall k :: 0 <= k < |workers| ==> workers[k].workerId != id
  {
    FindFrom(workers, id, 0)
  }

  /** The unique index on the business key. */
  predicate UniqueIds(workers: seq<Worker>) {
    forall i, j :: 0 <= i < j < |workers| ==> workers[i].workerId != workers[j].workerId
  }

  /** The business keys of the registry, in order. */
  function Ids(workers: seq<Worker>): (r: seq<string>)
    ensures |r| == |workers|
    ensures forall i :: 0 <= i < |workers| ==> r[i] == workers[i].workerId
  {
    seq(|workers|, i requires 0 <= i < |workers| => workers[i].workerId)
  }

  datatype CreateWorkerRequest = CreateWorkerRequest(workerId: Option<string>, name: string, role: WorkerRole)

  /** Why a worker could not be created: the unique index rejects a key that
      is already taken, and no key is left after the largest `int`. */
  datatype CreateError = DuplicateWorkerId(workerId: string) | NoFreeWorkerId

  datatype Created = Created(workers: seq<Worker>, worker: Worker)

  /** Appends a new active worker under `key`, unless the unique index
      already holds that key. */
  function AddWorker(workers: seq<Worker>, key: string, request: CreateWorkerRequest, now: Instant)
    : (r: Result<Created, CreateError>)
    ensures r.Failure? <==> FindWorker(workers, key).Some?
    ensures r.Failure? ==> r.error == DuplicateWorkerId(key)
    ensures r.Success? ==> r.value.worker == Worker(key, request.name, request.role, true, now, now)
    ensures r.Success? ==> r.value.workers == workers + [r.value.worker]
  {
    if FindWorker(workers, key).Some? then Failure(DuplicateWorkerId(key))
    else
      var w := Worker(key, request.name, request.role, true, now, now);
      Success(Created(workers + [w], w))
  }

  /** CreateWorkerAsync as written: the requested key, or the one
      GenerateWorkerIdAsync proposes, for a new active worker appended to the
      registry; the unique index rejects a key that is already taken. */
  function CreateWorkerAsWritten(workers: seq<Worker>, request: CreateWorkerRequest, now: Instant)
    : (r: Result<Created, CreateError>)
    ensures r.Success? ==> r.value.workers == workers + [r.value.worker]
    ensures r.Success? ==> r.value.worker.isActive && r.value.worker.name == request.name
    ensures r.Success? ==> r.value.worker.role == request.role
    ensures request.workerId.Some? && r.Success? ==> r.value.worker.workerId == request.workerId.value
    ensures request.workerId.None? && r.Success? ==>
      r.value.worker.workerId == WorkerIds.GenerateWorkerId(Ids(workers))
    ensures r.Success? <==> FindWorker(workers, request.workerId.GetOr(WorkerIds.GenerateWorkerId(Ids(workers)))).None?
    ensures r.Failure? ==> r.error == DuplicateWorkerId(request.workerId.GetOr(WorkerIds.GenerateWorkerId(Ids(workers))))
  {
    var key := match request.workerId
      case Some(k) => k
      case None => WorkerIds.GenerateWorkerId(Ids(workers));
    AddWorker(workers, key, request, now)
  }

  /** With W9999 and W10000 registered, creating a worker without a key fails
      as written: the generator proposes W10000 again. */
  lemma CreateAsWrittenCollidesAfterW9999(workers: seq<Worker>, name: string, role: WorkerRole, now: Instant)
    requires Ids(workers) == ["W9999", "W10000"]
    ensures CreateWorkerAsWritten(workers, CreateWorkerRequest(None, name, role), now)
         == Failure(DuplicateWorkerId("W10000"))
  {
    WorkerIds.GeneratorRepeatsAfterW9999();
    assert workers[1].workerId == Ids(workers)[1];
  }

  /** CreateWorkerAsync with the corrected generator: the requested key, or
      a fresh generated one, for a new active worker appended to the
      registry. Agrees with the version as written whenever a key is given. */
  function CreateWorker(workers: seq<Worker>, request: CreateWorkerRequest, now: Instant)
    : (r: Result<Created, CreateError>)
    ensures r.Success? ==> r.value.workers == workers + [r.value.worker]
    ensures r.Success? ==> r.value.worker.isActive && r.value.worker.name == request.name
    ensures r.Success? ==> r.value.worker.role == request.role
    ensures r.Success? && request.workerId.Some? ==> r.value.worker.workerId == request.workerId.value
    ensures r.Success? ==> FindWorker(workers, r.value.worker.workerId).None?
    ensures request.workerId.Some? && r.Failure? ==>
      r.error == DuplicateWorkerId(request.workerId.value) && FindWorker(workers, request.workerId.value).Some?
    ensures request.workerId.None? && r.Failure? ==> r.error == NoFreeWorkerId
    ensures request.workerId.Some? ==> r == CreateWorkerAsWritten(workers, request, now)
    ensures UniqueIds(workers) && r.Success? ==> UniqueIds(r.value.workers)
  {
    var key := match request.workerId
      case Some(k) => Some(k)
      case None => WorkerIds.NextWorkerId(Ids(workers));
    match key
    case None => Failure(NoFreeWorkerId)
    case Some(k) => AddWorker(workers, k, request, now)
  }

  datatype UpdateWorkerRequest = UpdateWorkerRequest(name: Option<string>, role: Option<WorkerRole>, isActive: Option<bool>)

  /** The worker with every field the request supplies replaced. */
  function Patch(w: Worker, request: UpdateWorkerRequest, now: Instant): Worker {
    w.(name := request.name.GetOr(w.name),
       role := request.role.GetOr(w.role),
       isActive := request.isActive.GetOr(w.isActive),
       updatedAt := now)
  }

  /** UpdateWorkerAsync: a partial update of the worker with the given key;
      nothing when no worker has that key. */
  function UpdateWorker(workers: seq<Worker>, id: string, request: UpdateWorkerRequest, now: Instant)
    : (r: Option<seq<Worker>>)
    ensures r.None? <==> FindWorker(workers, id).None?
    ensures r.Some? ==> |r.value| == |workers|
    ensures r.Some? ==> forall k :: 0 <= k < |workers| && k != FindWorker(workers, id).value ==>
      r.value[k] == workers[k]
    ensures r.Some? ==> var w := r.value[FindWorker(workers, id).value];
      var old_ := workers[FindWorker(workers, id).value];
      && w.workerId == id && w.createdAt == old_.createdAt && w.updatedAt == now
      && (request.name.Some? ==> w.name == request.name.value)
      && (request.name.None? ==> w.name == old_.name)
      && (request.role.Some? ==> w.role == request.role.value)
      && (request.role.None? ==> w.role == old_.role)
      && (request.isActive.Some? ==> w.isActive == request.isActive.value)
      && (request.isActive.None? ==> w.isActive == old_.isActive)
    ensures r.Some? ==> Ids(r.value) == Ids(workers)
  {
    match FindWorker(workers, id)
    case None => None
    case Some(i) => Some(workers[i := Patch(workers[i], request, now)])
  }

  /** DeleteWorkerAsync: a soft delete that only marks the worker inactive;
      reports whether a worker with that key exists. */
  function DeleteWorker(workers: seq<Worker>, id: string, now: Instant): (r: (bool, seq<Worker>))
    ensures r.0 <==> FindWorker(workers, id).Some?
    ensures !r.0 ==> r.1 == workers
    ensures |r.1| == |workers| && Ids(r.1) == Ids(workers)
    ensures r.0 ==> var i := FindWorker(workers, id).value;
      !r.1[i].isActive && r.1[i].updatedAt == now &&
      r.1[i].name == workers[i].name && r.1[i].role == workers[i].role
    ensures forall k :: 0 <= k < |workers| && (r.0 ==> k != FindWorker(workers, id).value) ==>
      r.1[k] == workers[k]
  {
    match FindWorker(workers, id)
    case None => (false, workers)
    case Some(i) => (true, workers[i := workers[i].(isActive := false, updatedAt := now)])
  }

  /** Deleting a worker is the same as updating only its active flag to false. */
  lemma DeleteIsDeactivatingUpdate(workers: seq<Worker>, id: string, now: Instant)
    requires FindWorker(workers, id).Some?
    ensures DeleteWorker(workers, id, now).1
         == UpdateWorker(workers, id, UpdateWorkerRequest(None, None, Some(false)), now).value
  {
  }

  /** A worker created without a key receives a fresh generated key, so the
      creation succeeds unless the key space is exhausted. */
  lemma GeneratedKeyNeverCollides(workers: seq<Worker>, name: string, role: WorkerRole, now: Instant)
    requires WorkerIds.NextWorkerId(Ids(workers)).Some?
    ensures CreateWorker(workers, CreateWorkerRequest(None, name, role), now).Success?
  {
  }
}
