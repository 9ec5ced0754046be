/** The run of a bulk request: each step of the plan is prepared, served and recorded, until too many failed. */
module BulkRuns {
  import opened Results
  import opened Resources
  import opened References
  import opened Planning
  import opened Handlers
  import C = Conditions

  // -- The references between the operations ----------------------------

  predicate IsPost(operation: Operation) {
    operation.verb == Some(Post)
  }

  /** The position of the POST that a bulkId references: the first one that has it. */
  function CreationsOf(operations: seq<Operation>): (creations: map<string, nat>)
    ensures forall b :: b in creations ==> creations[b] < |operations|
  {
    if operations == [] then map[]
    else
      var last := |operations| - 1;
      var creations := CreationsOf(operations[..last]);
      var operation := operations[last];
      if IsPost(operation) && operation.bulkId.Some? && operation.bulkId.value !in creations
      then creations[operation.bulkId.value := last] else creations
  }

  lemma {:induction false} CreationIsFirstPost(operations: seq<Operation>, b: string)
    ensures var creations := CreationsOf(operations);
            && (b in creations ==> IsPost(operations[creations[b]]) && operations[creations[b]].bulkId == Some(b))
            && (forall i :: 0 <= i < |operations| && IsPost(operations[i]) && operations[i].bulkId == Some(b) ==>
                  b in creations && creations[b] <= i)
  {
    if operations != [] {
      CreationIsFirstPost(operations[..|operations| - 1], b);
    }
  }

  function DependenciesIn(bulkIds: seq<string>, creations: map<string, nat>): (r: seq<nat>)
    ensures forall d :: d in r <==> exists b :: b in bulkIds && b in creations && creations[b] == d
  {
    if bulkIds == [] then []
    else
      assert bulkIds == [bulkIds[0]] + bulkIds[1..];
      (if bulkIds[0] in creations then [creations[bulkIds[0]]] else []) + DependenciesIn(bulkIds[1..], creations)
  }

  /** The positions of the creations that each operation references. */
  function GraphOf(operations: seq<Operation>): (g: Graph)
    ensures |g| == |operations| && WellFormed(g)
  {
    var creations := CreationsOf(operations);
    seq(|operations|, i requires 0 <= i < |operations| => DependenciesIn(ReferencesOf(operations[i]), creations))
  }

  /** An operation depends on another exactly when it mentions a bulkId whose first POST is the other one. */
  lemma GraphIsReferences(operations: seq<Operation>, i: nat, d: nat)
    requires i < |operations|
    ensures d in GraphOf(operations)[i] <==>
              exists b :: b in OperationMentions(operations[i]) && d < |operations| && IsFirstPost(operations, b, d)
  {
    var creations := CreationsOf(operations);
    ReferencesAreMentions(operations[i]);
    forall b
      ensures b in creations && creations[b] == d <==> d < |operations| && IsFirstPost(operations, b, d)
    {
      CreationIsFirstPost(operations, b);
    }
  }

  /** The operation is the first POST with the bulkId. */
  predicate IsFirstPost(operations: seq<Operation>, b: string, d: nat)
    requires d < |operations|
  {
    && IsPost(operations[d]) && operations[d].bulkId == Some(b)
    && forall j :: 0 <= j < d ==> !(IsPost(operations[j]) && operations[j].bulkId == Some(b))
  }

  predicate IsCreation(creations: map<string, nat>, index: nat, bulkId: Option<string>) {
    bulkId.Some? && bulkId.value in creations && creations[bulkId.value] == index
  }

  // -- The progress of a plan -------------------------------------------

  datatype Location = AtPath(path: string) | AtResource(key: Key)

  /** The outcome of an operation, as the bulk response lists it. */
  datatype Report = Report(verb: Option<Verb>, bulkId: Option<string>, location: Option<Location>, status: nat, version: Option<string>)

  /** The outcomes so far, the resources created for a bulkId, and the number of errors. */
  datatype Progress = Progress(results: map<nat, Report>, created: map<string, Resource>, errors: nat)

  predicate Succeeded(progress: Progress, i: nat) {
    i in progress.results && progress.results[i].status < 400
  }

  predicate Stopped(failOnErrors: Option<int>, errors: nat) {
    errors > 0 && failOnErrors.Some? && errors >= failOnErrors.value
  }

  function Record(creations: map<string, nat>, progress: Progress, i: nat, report: Report, resource: Option<Resource>): Progress {
    var results := progress.results[i := report];
    if report.status >= 400 then Progress(results, progress.created, progress.errors + 1)
    else if resource.Some? && IsCreation(creations, i, report.bulkId) then
      Progress(results, progress.created[report.bulkId.value := resource.value], progress.errors)
    else Progress(results, progress.created, progress.errors)
  }

  /** The identifier of the resource created for a bulkId, or why there is none. */
  function Replacing(creations: map<string, nat>, progress: Progress): Replacer {
    (b: string) =>
      if b in progress.created then Ok(progress.created[b].id)
      else if b in creations && creations[b] !in progress.results then Err(CircularReference(b))
      else Err(NotCreated(b))
  }

  predicate IsDuplicate(creations: map<string, nat>, operation: Operation, i: nat) {
    IsPost(operation) && operation.bulkId.Some? && !IsCreation(creations, i, operation.bulkId)
  }

  function Resolve(operations: seq<Operation>, creations: map<string, nat>, progress: Progress, i: nat): Result<Operation>
    requires i < |operations|
  {
    if IsDuplicate(creations, operations[i], i) then Err(DuplicateBulkId(operations[i].bulkId.value))
    else ResolveOperation(operations[i], Replacing(creations, progress)).outcome
  }

  // -- One step ---------------------------------------------------------

  /**
   * What lies outside of the model of a bulk run: the routing of a path, the authorization of an operation, the
   * identifier at the end of a path, the identifiers and dates that the storage gives at each step, and what other
   * clients do to the storage before a step, and between its read and its write.
   */
  datatype Surroundings = Surroundings(
    route: (Verb, string) -> Result<string>,
    authorize: (Operation, string) -> Result<()>,
    resourceId: Option<string> -> Option<string>,
    newId: nat -> string,
    clock: nat -> int,
    before: (nat, Store) -> Store,
    during: (nat, Store) -> Store)

  /** No other client writes while the request runs. */
  ghost predicate Alone(around: Surroundings) {
    forall i, store :: around.before(i, store) == store && around.during(i, store) == store
  }

  datatype Job = Job(service: Service, policy: Policy, around: Surroundings, operations: seq<Operation>, failOnErrors: Option<int>)

  /** The outcome of an operation before it runs: any but a POST has the location of its path. */
  function Started(operation: Operation): Report {
    Report(operation.verb, operation.bulkId,
      if IsPost(operation) then None else Some(AtPath(if operation.path.Some? then operation.path.value else "")), 0, None)
  }

  /** The resource type of an operation; one without verb or path has none, and keeps its validation error. */
  function Route(around: Surroundings, operation: Operation): Result<Option<string>> {
    if operation.verb.None? || operation.path.None? then Ok(None)
    else
      var typeName :- around.route(operation.verb.value, operation.path.value);
      Ok(Some(typeName))
  }

  function Located(around: Surroundings, typeName: Option<string>, operation: Operation, report: Report): Report {
    var id := around.resourceId(operation.path);
    if typeName.Some? && id.Some? && id.value != "" && !IsPost(operation)
    then report.(location := Some(AtResource(Key(typeName.value, id.value)))) else report
  }

  /** The request that an operation stands for; applying one without resource type is an unexpected failure. */
  function RequestOf(service: Service, around: Surroundings, typeName: Option<string>, operation: Operation): Result<Request> {
    var id := around.resourceId(operation.path);
    var conditions := C.Conditions(operation.version, None);
    if typeName.None? then Err(Rejected(500))
    else if IsPost(operation) then Ok(Creation(typeName.value, operation.data))
    else if operation.verb == Some(Patch) && !service.patchSupported then Err(NotSupported)
    else if id.None? then Err(NotFound)
    else
      var key := Key(typeName.value, id.value);
      match operation.verb
      case Some(Put) => Ok(Write(Replacement, key, operation.data, conditions))
      case Some(Patch) => Ok(Write(Modification, key, operation.data, conditions))
      case _ => Ok(Deletion(key, conditions))
  }

  /** Routes, resolves, locates and authorizes an operation, then lets its validation error through. */
  function Prepare(job: Job, creations: map<string, nat>, progress: Progress, i: nat): (Report, Result<Request>)
    requires i < |job.operations|
  {
    var operation := job.operations[i];
    var started := Started(operation);
    var typeName := Route(job.around, operation);
    if typeName.Err? then (started, Err(typeName.failure))
    else
      var resolved := Resolve(job.operations, creations, progress, i);
      if resolved.Err? then (started, Err(resolved.failure))
      else
        var located := Located(job.around, typeName.value, resolved.value, started);
        var authorized := if typeName.value.None? then Ok(()) else job.around.authorize(resolved.value, typeName.value.value);
        if authorized.Err? then (located, Err(authorized.failure))
        else if resolved.value.invalid.Some? then (located, Err(Rejected(resolved.value.invalid.value)))
        else (located, RequestOf(job.service, job.around, typeName.value, resolved.value))
  }

  function SuccessStatus(verb: Option<Verb>): nat {
    match verb
    case Some(Post) => 201
    case Some(Put) => 200
    case Some(Patch) => 200
    case _ => 204
  }

  /** The report of a served operation, and the resource it created or updated. */
  function Reported(service: Service, report: Report, outcome: Outcome): (Report, Option<Resource>) {
    match outcome
    case Refused(failure) => (report.(status := failure.Status()), None)
    case Removed => (report.(status := SuccessStatus(report.verb)), None)
    case _ =>
      var resource := outcome.resource;
      (report.(status := SuccessStatus(report.verb), location := Some(AtResource(KeyOf(resource))),
               version := if service.etagSupported then resource.meta.version else None), Some(resource))
  }

  // -- Whole runs -------------------------------------------------------

  /**
   * The progress and the storage after some steps, the number of operations that ran, and what the progress was before
   * each; then the committed requests, and the positions in the plan of the operations that committed them.
   */
  datatype Run = Run(progress: Progress, store: Store, ran: nat, history: seq<Progress>, log: seq<Entry>, positions: seq<nat>)

  /** The outcome of one step, the storage after it, and its request if it committed one. */
  datatype Performed = Performed(report: Report, resource: Option<Resource>, store: Store, entries: seq<Entry>)

  ghost function Perform(job: Job, progress: Progress, read: Store, store: Store, i: nat): Performed
    requires i < |job.operations|
  {
    var (report, request) := Prepare(job, CreationsOf(job.operations), progress, i);
    if request.Err? then Performed(report.(status := request.failure.Status()), None, store, [])
    else
      var id, now := job.around.newId(i), job.around.clock(i);
      var (after, outcome) := Answer(job.service, job.policy, read, store, request.value, id, now);
      var (done, resource) := Reported(job.service, report, outcome);
      Performed(done, resource, after, if outcome.Commits() then [Entry(request.value, id, now, store.versions)] else [])
  }

  /** The next step, among the writes of the other clients. */
  ghost function PerformNext(job: Job, run: Run, i: nat): Performed
    requires i < |job.operations|
  {
    var read := job.around.before(i, run.store);
    Perform(job, run.progress, read, job.around.during(i, read), i)
  }

  ghost function Step(job: Job, run: Run, i: nat): Run
    requires i < |job.operations|
  {
    var done := PerformNext(job, run, i);
    Run(Record(CreationsOf(job.operations), run.progress, i, done.report, done.resource), done.store,
      run.ran + 1, run.history + [run.progress], run.log + done.entries,
      if done.entries == [] then run.positions else run.positions + [run.ran])
  }

  predicate InRequest(job: Job, order: seq<nat>) {
    forall p :: 0 <= p < |order| ==> order[p] < |job.operations|
  }

  /** Nothing runs once the cap on the errors is reached. */
  ghost function NextRun(job: Job, run: Run, i: nat): Run
    requires i < |job.operations|
  {
    if Stopped(job.failOnErrors, run.progress.errors) then run else Step(job, run, i)
  }

  ghost function Start(store: Store): Run {
    Run(Progress(map[], map[], 0), store, 0, [], [], [])
  }

  /** The run after the first steps of a plan. */
  ghost function After(job: Job, order: seq<nat>, store: Store, k: nat): Run
    requires k <= |order| && InRequest(job, order)
  {
    if k == 0 then Start(store)
    else
      NextRun(job, After(job, order, store, k - 1), order[k - 1])
  }

  // -- What a step answers ----------------------------------------------

  /** What a request by identifier takes from the resolved operation: its type, its path and its version. */
  predicate Targets(around: Surroundings, typeName: string, r: Operation, key: Key, conditions: C.Conditions) {
    key.typeName == typeName && around.resourceId(r.path) == Some(key.id) && conditions == C.Conditions(r.version, None)
  }

  /** The request that a resolved operation of a resource type stands for. */
  predicate StandsFor(service: Service, around: Surroundings, typeName: string, r: Operation, request: Request) {
    match request
    case Creation(t, content) => r.verb == Some(Post) && t == typeName && content == r.data
    case Write(kind, key, payload, conditions) =>
      && r.verb == Some(if kind == Replacement then Put else Patch) && (kind == Modification ==> service.patchSupported)
      && payload == r.data && Targets(around, typeName, r, key, conditions)
    case Deletion(key, conditions) => r.verb == Some(Delete) && Targets(around, typeName, r, key, conditions)
  }

  /** An operation is routed to a type, resolved, authorized and valid. */
  ghost predicate MayRun(job: Job, progress: Progress, i: nat, typeName: string, r: Operation)
    requires i < |job.operations|
  {
    var operation := job.operations[i];
    && operation.verb.Some? && operation.path.Some?
    && job.around.route(operation.verb.value, operation.path.value) == Ok(typeName)
    && Resolve(job.operations, CreationsOf(job.operations), progress, i) == Ok(r)
    && job.around.authorize(r, typeName).Ok?
    && r.invalid.None?
  }

  /** A request is served exactly when its operation is routed, resolved, authorized and valid, and stands for it. */
  lemma ServedExactly(job: Job, progress: Progress, i: nat, request: Request)
    requires i < |job.operations|
    ensures Prepare(job, CreationsOf(job.operations), progress, i).1 == Ok(request) <==>
              exists typeName, r :: MayRun(job, progress, i, typeName, r) && StandsFor(job.service, job.around, typeName, r, request)
  {
    if Prepare(job, CreationsOf(job.operations), progress, i).1 == Ok(request) {
      var typeName, r := PreparedMayRun(job, progress, i, request);
    }
    forall typeName, r | MayRun(job, progress, i, typeName, r) && StandsFor(job.service, job.around, typeName, r, request)
      ensures Prepare(job, CreationsOf(job.operations), progress, i).1 == Ok(request)
    {
      StandingIsRequested(job.service, job.around, typeName, r, request);
    }
  }

  lemma StandingIsRequested(service: Service, around: Surroundings, typeName: string, r: Operation, request: Request)
    requires r.verb.Some?
    ensures RequestOf(service, around, Some(typeName), r) == Ok(request) <==> StandsFor(service, around, typeName, r, request)
  {
  }

  lemma PreparedMayRun(job: Job, progress: Progress, i: nat, request: Request) returns (typeName: string, r: Operation)
    requires i < |job.operations| && Prepare(job, CreationsOf(job.operations), progress, i).1 == Ok(request)
    ensures MayRun(job, progress, i, typeName, r) && StandsFor(job.service, job.around, typeName, r, request)
  {
    var operation, creations := job.operations[i], CreationsOf(job.operations);
    PreparedFromResolved(job, creations, progress, i);
    ResolvedVerb(job.operations, creations, progress, i);
    r := Resolve(job.operations, creations, progress, i).value;
    typeName := job.around.route(operation.verb.value, operation.path.value).value;
    StandingIsRequested(job.service, job.around, typeName, r, request);
  }

  /** An operation that stops before its request: it commits nothing and gives no resource. */
  ghost predicate Stops(done: Performed, store: Store, status: nat) {
    done.report.status == status && done.store == store && done.entries == [] && done.resource.None?
  }

  /** Where an operation that failed is: a POST is nowhere, and another one at the URL of its path until it is located. */
  ghost predicate AtItsPath(operation: Operation, report: Report) {
    report.location ==
      if IsPost(operation) then None else Some(AtPath(if operation.path.Some? then operation.path.value else ""))
  }

  /** Without an endpoint, an operation has the status of its routing. */
  lemma UnroutedStops(job: Job, progress: Progress, read: Store, store: Store, i: nat)
    requires i < |job.operations|
    ensures var operation, done := job.operations[i], Perform(job, progress, read, store, i);
            operation.verb.Some? && operation.path.Some? ==>
              var routed := job.around.route(operation.verb.value, operation.path.value);
              routed.Err? ==> Stops(done, store, routed.failure.Status()) && AtItsPath(operation, done.report)
  {
  }

  /** The operation has an endpoint, or no verb or path to look one up. */
  predicate Routed(around: Surroundings, operation: Operation) {
    operation.verb.Some? && operation.path.Some? ==> around.route(operation.verb.value, operation.path.value).Ok?
  }

  /** A bulkId is repeated exactly when an earlier POST of the request has it; only a POST can repeat one. */
  lemma RepeatedExactly(operations: seq<Operation>, i: nat)
    requires i < |operations|
    ensures IsDuplicate(CreationsOf(operations), operations[i], i) <==>
              && IsPost(operations[i]) && operations[i].bulkId.Some?
              && exists j :: 0 <= j < i && IsPost(operations[j]) && operations[j].bulkId == operations[i].bulkId
  {
    if operations[i].bulkId.Some? {
      CreationIsFirstPost(operations, operations[i].bulkId.value);
    }
  }

  /**
   * Why an operation does not resolve: one of its references has no created resource, because its creation has yet to run
   * and is part of a circular reference, or because there is none that succeeded.
   */
  lemma FailureIsExplained(operation: Operation, creations: map<string, nat>, progress: Progress) returns (b: string)
    requires ResolveOperation(operation, Replacing(creations, progress)).outcome.Err?
    ensures b in OperationMentions(operation) && b !in progress.created
    ensures ResolveOperation(operation, Replacing(creations, progress)).outcome ==
            Err(if b in creations && creations[b] !in progress.results then CircularReference(b) else NotCreated(b))
  {
    var replace := Replacing(creations, progress);
    var mentions := OperationMentions(operation);
    ResolveIsSubstitution(operation, replace);
    b :| b in mentions && replace(b) == Err(FirstFailure(mentions, replace));
  }

  lemma ReplacingStatus(creations: map<string, nat>, progress: Progress, b: string)
    ensures var replaced := Replacing(creations, progress)(b); replaced.Err? ==> replaced.failure.Status() == 409
  {
  }

  lemma OperationStatus(operation: Operation, creations: map<string, nat>, progress: Progress)
    ensures var resolved := ResolveOperation(operation, Replacing(creations, progress)).outcome;
            resolved.Err? ==> resolved.failure.Status() == 409
  {
    var replace := Replacing(creations, progress);
    var mentions := OperationMentions(operation);
    ResolveIsSubstitution(operation, replace);
    if !AllReplaced(mentions, replace) {
      var b :| b in mentions && replace(b) == Err(FirstFailure(mentions, replace));
      ReplacingStatus(creations, progress, b);
    }
  }

  lemma ResolutionStatus(operations: seq<Operation>, creations: map<string, nat>, progress: Progress, i: nat)
    requires i < |operations|
    ensures var resolved := Resolve(operations, creations, progress, i);
            resolved.Err? ==> resolved.failure.Status() == if IsDuplicate(creations, operations[i], i) then 400 else 409
  {
    OperationStatus(operations[i], creations, progress);
  }

  /** Sections 3.7.1 and 3.7.3 of RFC 7644: a repeated bulkId is answered 400, and a reference that fails 409. */
  lemma UnresolvedStops(job: Job, progress: Progress, read: Store, store: Store, i: nat)
    requires i < |job.operations| && Routed(job.around, job.operations[i])
    ensures var operation, creations := job.operations[i], CreationsOf(job.operations);
            var done := Perform(job, progress, read, store, i);
            Resolve(job.operations, creations, progress, i).Err? ==>
              && Stops(done, store, if IsDuplicate(creations, operation, i) then 400 else 409)
              && AtItsPath(operation, done.report)
  {
    ResolutionStatus(job.operations, CreationsOf(job.operations), progress, i);
  }

  /** A located operation that failed is at the resource its resolved path names, if it names one. */
  ghost predicate AtItsTarget(around: Surroundings, typeName: string, r: Operation, report: Report) {
    var id := around.resourceId(r.path);
    !IsPost(r) && id.Some? && id.value != "" ==> report.location == Some(AtResource(Key(typeName, id.value)))
  }

  /** Without authorization, an operation has the status of its refusal, whatever its validation said. */
  lemma UnauthorizedStops(job: Job, progress: Progress, read: Store, store: Store, i: nat)
    requires i < |job.operations| && Resolve(job.operations, CreationsOf(job.operations), progress, i).Ok?
    ensures var operation, done := job.operations[i], Perform(job, progress, read, store, i);
            var r := Resolve(job.operations, CreationsOf(job.operations), progress, i).value;
            operation.verb.Some? && operation.path.Some? ==>
              var routed := job.around.route(operation.verb.value, operation.path.value);
              routed.Ok? && job.around.authorize(r, routed.value).Err? ==>
                && Stops(done, store, job.around.authorize(r, routed.value).failure.Status())
                && AtItsTarget(job.around, routed.value, r, done.report)
  {
    ResolvedVerb(job.operations, CreationsOf(job.operations), progress, i);
  }

  /** The operation is routed and authorized, or has no verb or path and keeps the error of its validation. */
  predicate Authorized(around: Surroundings, operation: Operation, r: Operation) {
    operation.verb.Some? && operation.path.Some? ==>
      var routed := around.route(operation.verb.value, operation.path.value);
      routed.Ok? && around.authorize(r, routed.value).Ok?
  }

  /** An authorized operation that failed its validation has the status of its error. */
  lemma InvalidStops(job: Job, progress: Progress, read: Store, store: Store, i: nat)
    requires i < |job.operations| && Resolve(job.operations, CreationsOf(job.operations), progress, i).Ok?
    ensures var r := Resolve(job.operations, CreationsOf(job.operations), progress, i).value;
            Authorized(job.around, job.operations[i], r) && r.invalid.Some? ==>
              Stops(Perform(job, progress, read, store, i), store, r.invalid.value)
  {
  }

  /** An operation without verb or path that kept no validation error is an unexpected failure. */
  lemma UntypedIsRefused(job: Job, progress: Progress, i: nat)
    requires i < |job.operations| && Resolve(job.operations, CreationsOf(job.operations), progress, i).Ok?
    ensures var operation, r := job.operations[i], Resolve(job.operations, CreationsOf(job.operations), progress, i).value;
            (operation.verb.None? || operation.path.None?) && r.invalid.None? ==>
              Prepare(job, CreationsOf(job.operations), progress, i).1 == Err(Rejected(500))
  {
  }

  /** An operation that gives no request has the status of its failure. */
  lemma UnpreparedStops(job: Job, progress: Progress, read: Store, store: Store, i: nat)
    requires i < |job.operations|
    ensures var request := Prepare(job, CreationsOf(job.operations), progress, i).1;
            request.Err? ==> Stops(Perform(job, progress, read, store, i), store, request.failure.Status())
  {
  }

  /** A valid operation that stands for no request: a PATCH the service does not support, or a path without identifier. */
  lemma RequestlessStops(job: Job, progress: Progress, read: Store, store: Store, i: nat, typeName: string, r: Operation)
    requires i < |job.operations| && MayRun(job, progress, i, typeName, r)
    ensures var done := Perform(job, progress, read, store, i);
            && (r.verb == Some(Patch) && !job.service.patchSupported ==> Stops(done, store, 501))
            && (r.verb in {Some(Put), Some(Delete)} && job.around.resourceId(r.path).None? ==> Stops(done, store, 404))
  {
    ResolvedVerb(job.operations, CreationsOf(job.operations), progress, i);
  }

  /**
   * An operation that runs answers for its request: 201 to a POST, 200 to a PUT or a PATCH, 204 to a DELETE, and the status
   * of the failure to a refused one, among which 404, 412 and 409.
   */
  lemma AnswersAreReported(job: Job, progress: Progress, read: Store, store: Store, i: nat, typeName: string, r: Operation, request: Request)
    requires i < |job.operations| && MayRun(job, progress, i, typeName, r)
    requires StandsFor(job.service, job.around, typeName, r, request)
    ensures var done := Perform(job, progress, read, store, i);
            var (after, outcome) := Answer(job.service, job.policy, read, store, request, job.around.newId(i), job.around.clock(i));
            && done.store == after
            && (!outcome.Refused? ==>
                  done.report.status == match r.verb case Some(Post) => 201 case Some(Delete) => 204 case _ => 200)
            && (outcome.Refused? ==> done.report.status == outcome.failure.Status() && done.resource.None?)
            && (outcome == Refused(NotFound) ==> done.report.status == 404)
            && (outcome == Refused(PreconditionFailed) ==> done.report.status == 412)
            && (outcome == Refused(UniquenessTaken) ==> done.report.status == 409)
  {
    ServedExactly(job, progress, i, request);
    ResolvedVerb(job.operations, CreationsOf(job.operations), progress, i);
    PreparedReport(job, CreationsOf(job.operations), progress, i);
  }

  // -- What every run keeps ---------------------------------------------

  /** Each created resource is the one of a creation that succeeded, and each such creation gave one. */
  ghost predicate CreatedAgree(job: Job, progress: Progress) {
    var creations := CreationsOf(job.operations);
    && (forall b :: b in progress.created <==> b in creations && Succeeded(progress, creations[b]))
    && (forall b :: b in progress.created ==> progress.created[b].id == job.around.newId(creations[b]))
  }

  /** The creations that an operation references, all of them in a list of operations that succeeded. */
  ghost predicate ReferencesSucceeded(job: Job, progress: Progress, i: nat, earlier: seq<nat>)
    requires i < |job.operations|
  {
    var creations := CreationsOf(job.operations);
    forall b {:trigger b in ReferencesOf(job.operations[i])} :: b in ReferencesOf(job.operations[i]) ==>
      b in creations && creations[b] in earlier && Succeeded(progress, creations[b])
  }

  /** Section 3.7.3 of RFC 7644: every operation has a location, but a failed POST. */
  predicate LocationRule(report: Report) {
    report.location.None? <==> report.verb == Some(Post) && report.status >= 400
  }

  /** A report of the operation, with the location it must have. */
  predicate Reports(job: Job, i: nat, report: Report)
    requires i < |job.operations|
  {
    report.verb == job.operations[i].verb && report.bulkId == job.operations[i].bulkId && LocationRule(report)
  }

  /** The number of errors among the first operations of a plan. */
  function ErrorsIn(results: map<nat, Report>, order: seq<nat>, ran: nat): nat
    requires ran <= |order|
  {
    if ran == 0 then 0
    else
      var last := order[ran - 1];
      ErrorsIn(results, order, ran - 1) + (if last in results && results[last].status >= 400 then 1 else 0)
  }

  /** The operations that ran are the first ones of the plan. */
  ghost predicate RanPrefix(order: seq<nat>, ran: nat, progress: Progress)
    requires ran <= |order|
  {
    progress.results.Keys == Elements(order[..ran])
  }

  /** An operation that succeeded references creations that ran before it and succeeded. */
  ghost predicate SuccessesResolved(job: Job, order: seq<nat>, ran: nat, progress: Progress)
    requires ran <= |order| && InRequest(job, order)
  {
    forall p {:trigger ReferencesSucceeded(job, progress, order[p], order[..p])} ::
      0 <= p < ran && Succeeded(progress, order[p]) ==> ReferencesSucceeded(job, progress, order[p], order[..p])
  }

  ghost predicate AllReported(job: Job, order: seq<nat>, ran: nat, progress: Progress)
    requires ran <= |order| && InRequest(job, order)
  {
    forall p :: 0 <= p < ran ==> order[p] in progress.results && Reports(job, order[p], progress.results[order[p]])
  }

  ghost predicate ErrorsCounted(job: Job, order: seq<nat>, ran: nat, progress: Progress)
    requires ran <= |order|
  {
    && progress.errors == ErrorsIn(progress.results, order, ran)
    && (job.failOnErrors.Some? ==> progress.errors <= 1 || progress.errors <= job.failOnErrors.value)
  }

  /** The results are those of the first operations of the plan, which each report their own one. */
  ghost predicate ResultsInv(job: Job, order: seq<nat>, ran: nat, progress: Progress)
    requires ran <= |order| && InRequest(job, order)
  {
    RanPrefix(order, ran, progress) && AllReported(job, order, ran, progress)
  }

  /** The created resources and the successes fit the references. */
  ghost predicate LinksInv(job: Job, order: seq<nat>, ran: nat, progress: Progress)
    requires ran <= |order| && InRequest(job, order)
  {
    CreatedAgree(job, progress) && SuccessesResolved(job, order, ran, progress)
  }

  /** An operation resolves exactly when each creation it references has run and succeeded. */
  lemma ResolvesExactly(job: Job, progress: Progress, i: nat)
    requires i < |job.operations| && CreatedAgree(job, progress)
    ensures var creations := CreationsOf(job.operations);
            var resolved := Resolve(job.operations, creations, progress, i);
            if IsDuplicate(creations, job.operations[i], i) then resolved == Err(DuplicateBulkId(job.operations[i].bulkId.value))
            else resolved.Ok? <==>
              forall b :: b in ReferencesOf(job.operations[i]) ==> b in creations && Succeeded(progress, creations[b])
  {
    var replace := Replacing(CreationsOf(job.operations), progress);
    ResolveIsSubstitution(job.operations[i], replace);
    ReferencesAreMentions(job.operations[i]);
    assert forall b :: replace(b).Ok? <==> b in progress.created;
  }

  lemma RequestMatchesVerb(service: Service, around: Surroundings, typeName: Option<string>, operation: Operation)
    ensures var request := RequestOf(service, around, typeName, operation);
            request.Ok? ==> (request.value.Creation? <==> IsPost(operation))
  {
  }

  lemma ResolvedVerb(operations: seq<Operation>, creations: map<string, nat>, progress: Progress, i: nat)
    requires i < |operations|
    ensures var resolved := Resolve(operations, creations, progress, i); resolved.Ok? ==> resolved.value.verb == operations[i].verb
  {
  }

  lemma PreparedFromResolved(job: Job, creations: map<string, nat>, progress: Progress, i: nat)
    requires i < |job.operations|
    ensures var request := Prepare(job, creations, progress, i).1;
            var typeName, resolved := Route(job.around, job.operations[i]), Resolve(job.operations, creations, progress, i);
            request.Ok? ==>
              typeName.Ok? && resolved.Ok? && request == RequestOf(job.service, job.around, typeName.value, resolved.value)
  {
  }

  lemma PreparedReport(job: Job, creations: map<string, nat>, progress: Progress, i: nat)
    requires i < |job.operations|
    ensures var report := Prepare(job, creations, progress, i).0;
            && report.verb == job.operations[i].verb && report.bulkId == job.operations[i].bulkId
            && (report.location.None? <==> IsPost(job.operations[i]))
  {
    ResolvedVerb(job.operations, creations, progress, i);
  }

  lemma PrepareReports(job: Job, creations: map<string, nat>, progress: Progress, i: nat)
    requires i < |job.operations|
    ensures var (report, request) := Prepare(job, creations, progress, i);
            && report.verb == job.operations[i].verb && report.bulkId == job.operations[i].bulkId
            && (report.location.None? <==> IsPost(job.operations[i]))
            && (request.Ok? ==> Resolve(job.operations, creations, progress, i).Ok?)
            && (request.Ok? ==> (request.value.Creation? <==> IsPost(job.operations[i])))
  {
    PreparedReport(job, creations, progress, i);
    PreparedFromResolved(job, creations, progress, i);
    ResolvedVerb(job.operations, creations, progress, i);
    var typeName, resolved := Route(job.around, job.operations[i]), Resolve(job.operations, creations, progress, i);
    if typeName.Ok? && resolved.Ok? {
      RequestMatchesVerb(job.service, job.around, typeName.value, resolved.value);
    }
  }

  lemma ServedCreation(service: Service, policy: Policy, read: Store, store: Store, request: Request, id: string, now: int)
    ensures var outcome := Answer(service, policy, read, store, request, id, now).1;
            request.Creation? ==> outcome.Refused? || (outcome.Stored? && outcome.resource.id == id)
  {
  }

  lemma ReportedOutcome(service: Service, report: Report, outcome: Outcome)
    ensures var (done, resource) := Reported(service, report, outcome);
            && done.verb == report.verb && done.bulkId == report.bulkId
            && (done.status >= 400 <==> outcome.Refused?)
            && (outcome.Refused? ==> done.location == report.location)
            && (outcome.Stored? ==> resource == Some(outcome.resource))
            && (!outcome.Refused? ==> done.location.Some? || (outcome.Removed? && report.location.None?))
  {
  }

  /** What a step reports: a success has resolved its references, and a POST that succeeds created a resource. */
  lemma PerformReports(job: Job, progress: Progress, read: Store, store: Store, i: nat)
    requires i < |job.operations|
    ensures var done := Perform(job, progress, read, store, i);
            && Reports(job, i, done.report)
            && (done.report.status < 400 ==> Resolve(job.operations, CreationsOf(job.operations), progress, i).Ok?)
            && (done.report.status < 400 && IsPost(job.operations[i]) ==>
                  done.resource.Some? && done.resource.value.id == job.around.newId(i))
  {
    PrepareReports(job, CreationsOf(job.operations), progress, i);
    var (report, request) := Prepare(job, CreationsOf(job.operations), progress, i);
    if request.Ok? {
      var id, now := job.around.newId(i), job.around.clock(i);
      var (after, outcome) := Answer(job.service, job.policy, read, store, request.value, id, now);
      ServedCreation(job.service, job.policy, read, store, request.value, id, now);
      ReportedOutcome(job.service, report, outcome);
    }
  }

  lemma PerformNextReports(job: Job, run: Run, i: nat)
    requires i < |job.operations|
    ensures var done := PerformNext(job, run, i);
            && Reports(job, i, done.report)
            && (done.report.status < 400 ==> Resolve(job.operations, CreationsOf(job.operations), run.progress, i).Ok?)
            && (done.report.status < 400 && IsPost(job.operations[i]) ==>
                  done.resource.Some? && done.resource.value.id == job.around.newId(i))
  {
    var read := job.around.before(i, run.store);
    PerformReports(job, run.progress, read, job.around.during(i, read), i);
  }

  lemma LocatedAtTarget(job: Job, creations: map<string, nat>, progress: Progress, i: nat)
    requires i < |job.operations|
    ensures var (report, request) := Prepare(job, creations, progress, i);
            request.Ok? && !request.value.Creation? && request.value.key.id != "" ==>
              report.location == Some(AtResource(request.value.key))
  {
    ResolvedVerb(job.operations, creations, progress, i);
  }

  lemma AnsweredWhere(service: Service, policy: Policy, read: Store, store: Store, request: Request, id: string, now: int)
    requires Consistent(policy, read.contents) && Consistent(policy, store.contents)
    ensures var (after, outcome) := Answer(service, policy, read, store, request, id, now);
            && (outcome.Stored? ==>
                  KeyOf(outcome.resource) in after.contents && after.contents[KeyOf(outcome.resource)] == outcome.resource)
            && (outcome.Unchanged? ==>
                  KeyOf(outcome.resource) in read.contents && read.contents[KeyOf(outcome.resource)] == outcome.resource)
            && (outcome.Removed? ==> request.Deletion? && request.key !in after.contents)
  {
  }

  lemma ReportedWhere(service: Service, report: Report, outcome: Outcome)
    ensures var (done, resource) := Reported(service, report, outcome);
            && (done.status < 400 <==> !outcome.Refused?)
            && (resource.Some? <==> outcome.Stored? || outcome.Unchanged?)
            && (resource.Some? ==>
                  && resource.value == outcome.resource
                  && done.location == Some(AtResource(KeyOf(resource.value)))
                  && done.version == if service.etagSupported then resource.value.meta.version else None)
            && (resource.None? ==> done.location == report.location)
  {
  }

  /**
   * Where a success is, and which version it has, among the writes of other clients or alone: a created or updated
   * resource is stored under its own key, an unchanged one was when it was read, and a deleted one is under the key of
   * the request, unless its path names no resource.
   */
  lemma SuccessesAreLocated(job: Job, progress: Progress, read: Store, store: Store, i: nat)
    requires i < |job.operations| && Consistent(job.policy, read.contents) && Consistent(job.policy, store.contents)
    ensures var done := Perform(job, progress, read, store, i);
            var request := Prepare(job, CreationsOf(job.operations), progress, i).1;
            done.report.status < 400 ==>
              && request.Ok?
              && (done.resource.Some? ==>
                    var r := done.resource.value;
                    var where := if done.entries == [] then read.contents else done.store.contents;
                    && KeyOf(r) in where && where[KeyOf(r)] == r
                    && done.report.location == Some(AtResource(KeyOf(r)))
                    && done.report.version == if job.service.etagSupported then r.meta.version else None)
              && (done.resource.None? ==>
                    && request.value.Deletion? && request.value.key !in done.store.contents
                    && (request.value.key.id != "" ==> done.report.location == Some(AtResource(request.value.key))))
  {
    LocatedAtTarget(job, CreationsOf(job.operations), progress, i);
    var (report, request) := Prepare(job, CreationsOf(job.operations), progress, i);
    if request.Ok? {
      var id, now := job.around.newId(i), job.around.clock(i);
      var outcome := Answer(job.service, job.policy, read, store, request.value, id, now).1;
      AnsweredWhere(job.service, job.policy, read, store, request.value, id, now);
      ReportedWhere(job.service, report, outcome);
    }
  }

  lemma RecordKeepsCreated(job: Job, progress: Progress, i: nat, report: Report, resource: Option<Resource>)
    requires i < |job.operations| && CreatedAgree(job, progress) && i !in progress.results
    requires report.bulkId == job.operations[i].bulkId
    requires report.status < 400 && IsPost(job.operations[i]) ==> resource.Some? && resource.value.id == job.around.newId(i)
    ensures CreatedAgree(job, Record(CreationsOf(job.operations), progress, i, report, resource))
  {
    forall b
      ensures b in CreationsOf(job.operations) ==>
                var c := CreationsOf(job.operations)[b]; IsPost(job.operations[c]) && job.operations[c].bulkId == Some(b)
    {
      CreationIsFirstPost(job.operations, b);
    }
  }

  lemma {:induction false} ErrorsUnchanged(before: map<nat, Report>, after: map<nat, Report>, order: seq<nat>, ran: nat)
    requires ran <= |order|
    requires forall p :: 0 <= p < ran ==> order[p] in before && order[p] in after && before[order[p]] == after[order[p]]
    ensures ErrorsIn(before, order, ran) == ErrorsIn(after, order, ran)
  {
    if ran > 0 {
      ErrorsUnchanged(before, after, order, ran - 1);
    }
  }

  lemma RanAreElements(order: seq<nat>, ran: nat, p: nat)
    requires p < ran <= |order|
    ensures order[p] in Elements(order[..ran])
  {
    assert order[..ran][p] == order[p];
  }

  lemma NextIsNew(order: seq<nat>, ran: nat)
    requires Distinct(order) && ran < |order|
    ensures order[ran] !in Elements(order[..ran])
    ensures Elements(order[..ran + 1]) == Elements(order[..ran]) + {order[ran]}
  {
    assert order[..ran + 1] == order[..ran] + [order[ran]];
  }

  lemma RecordKeepsSuccesses(job: Job, order: seq<nat>, ran: nat, before: Progress, after: Progress)
    requires Distinct(order) && ran < |order| && InRequest(job, order)
    requires RanPrefix(order, ran, before) && SuccessesResolved(job, order, ran, before)
    requires forall j :: j in before.results ==> j in after.results && after.results[j] == before.results[j]
    requires Succeeded(after, order[ran]) ==> ReferencesSucceeded(job, before, order[ran], order[..ran])
    ensures SuccessesResolved(job, order, ran + 1, after)
  {
    forall p | 0 <= p < ran + 1 && Succeeded(after, order[p])
      ensures ReferencesSucceeded(job, after, order[p], order[..p])
    {
      if p < ran {
        RanAreElements(order, ran, p);
        assert ReferencesSucceeded(job, before, order[p], order[..p]);
      }
    }
  }

  lemma RecordKeepsErrors(job: Job, order: seq<nat>, ran: nat, before: Progress, after: Progress)
    requires ran < |order|
    requires ErrorsCounted(job, order, ran, before) && !Stopped(job.failOnErrors, before.errors)
    requires forall p :: 0 <= p < ran ==>
               order[p] in before.results && order[p] in after.results && after.results[order[p]] == before.results[order[p]]
    requires order[ran] in after.results
    requires after.errors == before.errors + (if after.results[order[ran]].status >= 400 then 1 else 0)
    ensures ErrorsCounted(job, order, ran + 1, after)
  {
    ErrorsUnchanged(before.results, after.results, order, ran);
  }

  lemma RecordKeepsReports(job: Job, order: seq<nat>, ran: nat, before: Progress, report: Report, after: Progress)
    requires ran < |order| && InRequest(job, order)
    requires AllReported(job, order, ran, before) && order[ran] !in before.results
    requires after.results == before.results[order[ran] := report] && Reports(job, order[ran], report)
    ensures AllReported(job, order, ran + 1, after)
    ensures forall p :: 0 <= p < ran ==>
              order[p] in before.results && order[p] in after.results && after.results[order[p]] == before.results[order[p]]
  {
  }

  lemma RecordKeepsResults(job: Job, order: seq<nat>, ran: nat, before: Progress, report: Report, after: Progress)
    requires Distinct(order) && ran < |order| && InRequest(job, order)
    requires ResultsInv(job, order, ran, before)
    requires after.results == before.results[order[ran] := report] && Reports(job, order[ran], report)
    ensures ResultsInv(job, order, ran + 1, after)
  {
    NextIsNew(order, ran);
    RecordKeepsReports(job, order, ran, before, report, after);
  }

  lemma RecordCountsErrors(job: Job, order: seq<nat>, ran: nat, before: Progress, report: Report, after: Progress)
    requires Distinct(order) && ran < |order| && InRequest(job, order)
    requires ResultsInv(job, order, ran, before)
    requires ErrorsCounted(job, order, ran, before) && !Stopped(job.failOnErrors, before.errors)
    requires after.results == before.results[order[ran] := report]
    requires after.errors == before.errors + (if report.status >= 400 then 1 else 0)
    ensures ErrorsCounted(job, order, ran + 1, after)
  {
    NextIsNew(order, ran);
    forall p | 0 <= p < ran
      ensures order[p] in before.results && order[p] != order[ran]
    {
      RanAreElements(order, ran, p);
    }
    RecordKeepsErrors(job, order, ran, before, after);
  }

  lemma RecordKeepsLinks(job: Job, order: seq<nat>, ran: nat, before: Progress, report: Report, resource: Option<Resource>)
    requires Distinct(order) && ran < |order| && InRequest(job, order)
    requires RanPrefix(order, ran, before) && LinksInv(job, order, ran, before)
    requires report.bulkId == job.operations[order[ran]].bulkId
    requires report.status < 400 ==> Resolve(job.operations, CreationsOf(job.operations), before, order[ran]).Ok?
    requires report.status < 400 && IsPost(job.operations[order[ran]]) ==>
               resource.Some? && resource.value.id == job.around.newId(order[ran])
    ensures LinksInv(job, order, ran + 1, Record(CreationsOf(job.operations), before, order[ran], report, resource))
  {
    var i := order[ran];
    NextIsNew(order, ran);
    RecordKeepsCreated(job, before, i, report, resource);
    if report.status < 400 {
      ResolvesExactly(job, before, i);
      assert ReferencesSucceeded(job, before, i, order[..ran]);
    }
    RecordKeepsSuccesses(job, order, ran, before, Record(CreationsOf(job.operations), before, i, report, resource));
  }

  /** The operations that ran are a prefix of the plan, and the run stops short of it only at the cap on the errors. */
  ghost predicate RunInv(job: Job, order: seq<nat>, k: nat, run: Run)
    requires k <= |order| && InRequest(job, order)
  {
    && run.ran <= k
    && (run.ran < k ==> Stopped(job.failOnErrors, run.progress.errors))
    && ResultsInv(job, order, run.ran, run.progress)
  }

  lemma NothingRan(job: Job, order: seq<nat>, store: Store)
    requires InRequest(job, order)
    ensures RunInv(job, order, 0, Start(store)) && LinksInv(job, order, 0, Start(store).progress)
  {
    assert order[..0] == [];
    assert Elements([]) == {};
    assert Start(store).progress.results.Keys == {};
  }

  lemma StepKeepsRun(job: Job, order: seq<nat>, k: nat, run: Run)
    requires Distinct(order) && k < |order| && InRequest(job, order)
    requires RunInv(job, order, k, run)
    ensures RunInv(job, order, k + 1, NextRun(job, run, order[k]))
  {
    if !Stopped(job.failOnErrors, run.progress.errors) {
      var done := PerformNext(job, run, order[k]);
      var after := Record(CreationsOf(job.operations), run.progress, order[k], done.report, done.resource);
      PerformNextReports(job, run, order[k]);
      RecordKeepsResults(job, order, k, run.progress, done.report, after);
    }
  }

  lemma StepCountsErrors(job: Job, order: seq<nat>, k: nat, run: Run)
    requires Distinct(order) && k < |order| && InRequest(job, order)
    requires RunInv(job, order, k, run) && ErrorsCounted(job, order, run.ran, run.progress)
    requires !Stopped(job.failOnErrors, run.progress.errors)
    ensures ErrorsCounted(job, order, k + 1, Step(job, run, order[k]).progress)
  {
    var done := PerformNext(job, run, order[k]);
    var after := Record(CreationsOf(job.operations), run.progress, order[k], done.report, done.resource);
    RecordCountsErrors(job, order, k, run.progress, done.report, after);
    assert Step(job, run, order[k]).progress == after;
  }

  lemma StepKeepsLinks(job: Job, order: seq<nat>, k: nat, run: Run)
    requires Distinct(order) && k < |order| && InRequest(job, order)
    requires RunInv(job, order, k, run) && LinksInv(job, order, run.ran, run.progress)
    ensures var next := NextRun(job, run, order[k]); next.ran <= k + 1 && LinksInv(job, order, next.ran, next.progress)
  {
    if Stopped(job.failOnErrors, run.progress.errors) {
      return;
    }
    var done := PerformNext(job, run, order[k]);
    PerformNextReports(job, run, order[k]);
    RecordKeepsLinks(job, order, k, run.progress, done.report, done.resource);
  }

  /** What every run keeps. */
  ghost predicate Sound(job: Job, order: seq<nat>, k: nat, run: Run)
    requires k <= |order| && InRequest(job, order)
  {
    RunInv(job, order, k, run) && LinksInv(job, order, run.ran, run.progress) && ErrorsCounted(job, order, run.ran, run.progress)
  }

  lemma StepIsSound(job: Job, order: seq<nat>, k: nat, run: Run)
    requires Distinct(order) && k < |order| && InRequest(job, order)
    requires Sound(job, order, k, run)
    ensures Sound(job, order, k + 1, NextRun(job, run, order[k]))
  {
    StepKeepsRun(job, order, k, run);
    StepKeepsLinks(job, order, k, run);
    if !Stopped(job.failOnErrors, run.progress.errors) {
      StepCountsErrors(job, order, k, run);
    }
  }

  lemma {:induction false} RunIsSound(job: Job, order: seq<nat>, store: Store, k: nat) returns (run: Run)
    requires Distinct(order) && k <= |order| && InRequest(job, order)
    ensures run == After(job, order, store, k)
    ensures Sound(job, order, k, run)
  {
    if k == 0 {
      NothingRan(job, order, store);
      run := Start(store);
    } else {
      var before := RunIsSound(job, order, store, k - 1);
      StepIsSound(job, order, k - 1, before);
      run := NextRun(job, before, order[k - 1]);
    }
  }
}
