/** The bulk handler: a plan that keeps its progress, and the loop that runs its steps against the storage. */
module BulkHandlers {
  import opened Results
  import opened Resources
  import opened References
  import opened Planning
  import opened Handlers
  import opened Memory
  import BulkRuns
  import BulkGuarantees
  import C = Conditions

  type Report = BulkRuns.Report

  /** The order of the operations of a bulk request, and its progress. */
  class BulkPlan {
    const operations: seq<Operation>
    const failOnErrors: Option<int>
    const creations: map<string, nat>
    const steps: seq<nat>

    var results: map<nat, Report>
    var created: map<string, Resource>
    var errors: nat

    ghost predicate Valid() {
      && creations == BulkRuns.CreationsOf(operations)
      && IsPlan(BulkRuns.GraphOf(operations), steps)
    }

    function State(): BulkRuns.Progress
      reads this
    {
      BulkRuns.Progress(results, created, errors)
    }

    constructor (operations: seq<Operation>, failOnErrors: Option<int>)
      ensures Valid() && this.operations == operations && this.failOnErrors == failOnErrors
      ensures State() == BulkRuns.Progress(map[], map[], 0)
    {
      this.operations, this.failOnErrors := operations, failOnErrors;
      results, created, errors := map[], map[], 0;

      var firsts: map<string, nat> := map[];
      for i := 0 to |operations|
        invariant firsts == BulkRuns.CreationsOf(operations[..i])
      {
        var operation := operations[i];
        assert operations[..i + 1][..i] == operations[..i];
        if BulkRuns.IsPost(operation) && operation.bulkId.Some? && operation.bulkId.value !in firsts {
          firsts := firsts[operation.bulkId.value := i];
        }
      }
      assert operations[..|operations|] == operations;
      creations := firsts;
      var order := PlanSteps(BulkRuns.GraphOf(operations));
      steps := order;
    }

    predicate Stopped()
      reads this
    {
      BulkRuns.Stopped(failOnErrors, errors)
    }

    method Record(step: nat, report: Report, resource: Option<Resource>)
      modifies this
      ensures State() == BulkRuns.Record(creations, old(State()), step, report, resource)
    {
      results := results[step := report];
      if report.status >= 400 {
        errors := errors + 1;
      } else if resource.Some? && BulkRuns.IsCreation(creations, step, report.bulkId) {
        created := created[report.bulkId.value := resource.value];
      }
    }

    function Resolve(step: nat): Result<Operation>
      requires step < |operations|
      reads this
    {
      BulkRuns.Resolve(operations, creations, State(), step)
    }

    function Outcomes(): seq<Report>
      reads this
    {
      BulkGuarantees.Outcomes(results, |operations|)
    }
  }

  /** Nothing runs after the cap on the errors is reached. */
  lemma {:induction false} StoppedForGood(job: BulkRuns.Job, order: seq<nat>, store: Store, k: nat, n: nat)
    requires k <= n <= |order| && BulkRuns.InRequest(job, order)
    requires BulkRuns.Stopped(job.failOnErrors, BulkRuns.After(job, order, store, k).progress.errors)
    ensures BulkRuns.After(job, order, store, n) == BulkRuns.After(job, order, store, k)
  {
    if k < n {
      StoppedForGood(job, order, store, k, n - 1);
    }
  }

  /** The progress and the storage are those after the first steps of a plan. */
  ghost predicate Reached(job: BulkRuns.Job, order: seq<nat>, store: Store, k: nat, progress: BulkRuns.Progress, now: Store)
    requires k <= |order| && BulkRuns.InRequest(job, order)
  {
    var run := BulkRuns.After(job, order, store, k);
    run.progress == progress && run.store == now
  }

  lemma NextStep(job: BulkRuns.Job, order: seq<nat>, store: Store, k: nat, progress: BulkRuns.Progress, now: Store)
    requires k < |order| && BulkRuns.InRequest(job, order) && Reached(job, order, store, k, progress, now)
    requires !BulkRuns.Stopped(job.failOnErrors, progress.errors) && BulkRuns.Alone(job.around)
    ensures var done := BulkRuns.Perform(job, progress, now, now, order[k]);
            Reached(job, order, store, k + 1,
              BulkRuns.Record(BulkRuns.CreationsOf(job.operations), progress, order[k], done.report, done.resource), done.store)
  {
  }

  lemma ReachedTheCap(job: BulkRuns.Job, order: seq<nat>, store: Store, progress: BulkRuns.Progress, now: Store)
    requires BulkGuarantees.Planned(job, order) && BulkRuns.InRequest(job, order)
    requires Reached(job, order, store, |order|, progress, now)
    ensures |BulkGuarantees.Outcomes(progress.results, |job.operations|)| < |job.operations| ==>
              job.failOnErrors.Some? && progress.errors > 0 && progress.errors >= job.failOnErrors.value
  {
    BulkGuarantees.FewerOutcomesAtTheCap(job, order, store);
  }

  /** The synchronous handler of bulk requests, alone with its storage. */
  class BulkHandler {
    const service: Service
    const storage: InMemoryStorage
    const writes: WriteHandler
    const around: BulkRuns.Surroundings

    ghost predicate Valid()
      reads this, storage
    {
      writes.service == service && writes.storage == storage && storage.Valid() && BulkRuns.Alone(around)
    }

    ghost function JobOf(operations: seq<Operation>, failOnErrors: Option<int>): BulkRuns.Job {
      BulkRuns.Job(service, storage.policy, around, operations, failOnErrors)
    }

    constructor (service: Service, storage: InMemoryStorage, around: BulkRuns.Surroundings)
      requires storage.Valid() && BulkRuns.Alone(around)
      ensures Valid() && this.service == service && this.storage == storage && this.around == around
    {
      this.service, this.storage, this.around := service, storage, around;
      writes := new WriteHandler(service, storage);
    }

    /** Applies a validated operation, as the request it stands for. */
    method ApplyBulkOperation(typeName: string, operation: Operation, newId: string, now: int) returns (outcome: Outcome)
      requires Valid()
      modifies storage
      ensures Valid()
      ensures var request := BulkRuns.RequestOf(service, around, Some(typeName), operation);
              (storage.State(), outcome) ==
              if request.Err? then (old(storage.State()), Refused(request.failure))
              else Serve(service, storage.policy, old(storage.State()), request.value, newId, now)
    {
      if operation.verb == Some(Post) {
        outcome := writes.CreateResource(typeName, operation.data, newId, now);
        return;
      }
      if operation.verb == Some(Patch) && !service.patchSupported {
        return Refused(NotSupported);
      }
      var id := around.resourceId(operation.path);
      if id.None? {
        return Refused(NotFound);
      }
      var key, conditions := Key(typeName, id.value), C.Conditions(operation.version, None);
      if operation.verb == Some(Put) {
        outcome := writes.ReplaceResource(key, operation.data, conditions, now);
      } else if operation.verb == Some(Patch) {
        outcome := writes.PatchResource(key, operation.data, conditions, now);
      } else {
        outcome := writes.DeleteResource(key, conditions, now);
      }
    }

    /** Routes, resolves, locates, authorizes and validates one operation of a plan, before it touches the storage. */
    method PrepareBulkStep(plan: BulkPlan, step: nat)
      returns (report: Report, typeName: string, operation: Operation, failure: Option<Failure>)
      requires plan.Valid() && step < |plan.operations|
      ensures var (prepared, request) :=
                BulkRuns.Prepare(JobOf(plan.operations, plan.failOnErrors), plan.creations, plan.State(), step);
              && report == prepared
              && (failure.Some? ==> request == Err(failure.value))
              && (failure.None? ==> request == BulkRuns.RequestOf(service, around, Some(typeName), operation))
    {
      operation, typeName, failure := plan.operations[step], "", None;
      report := BulkRuns.Started(operation);
      var routed := BulkRuns.Route(around, operation);
      if routed.Err? {
        failure := Some(routed.failure);
        return;
      }
      var resolved := plan.Resolve(step);
      if resolved.Err? {
        failure := Some(resolved.failure);
        return;
      }
      operation := resolved.value;
      report := BulkRuns.Located(around, routed.value, operation, report);
      if routed.value.Some? {
        typeName := routed.value.value;
        var authorized := around.authorize(operation, typeName);
        if authorized.Err? {
          failure := Some(authorized.failure);
          return;
        }
      }
      if operation.invalid.Some? {
        failure := Some(Rejected(operation.invalid.value));
      } else if routed.value.None? {
        failure := Some(Rejected(500));
      }
    }

    /** Runs one operation of a plan: prepares it, then applies it unless it failed. */
    method RunBulkStep(plan: BulkPlan, step: nat) returns (report: Report, resource: Option<Resource>)
      requires Valid() && plan.Valid() && step < |plan.operations|
      modifies storage
      ensures Valid()
      ensures var done := BulkRuns.Perform(JobOf(plan.operations, plan.failOnErrors),
                          old(plan.State()), old(storage.State()), old(storage.State()), step);
              report == done.report && resource == done.resource && storage.State() == done.store
    {
      var prepared, typeName, operation, failure := PrepareBulkStep(plan, step);
      if failure.Some? {
        return prepared.(status := failure.value.Status()), None;
      }
      var outcome := ApplyBulkOperation(typeName, operation, around.newId(step), around.clock(step));
      var success := BulkRuns.Reported(service, prepared, outcome);
      report, resource := success.0, success.1;
    }

    /** Runs the next step of a plan, and records its outcome. */
    method Advance(plan: BulkPlan, k: nat, ghost store: Store)
      requires Valid() && plan.Valid() && !plan.Stopped()
      requires k < |plan.steps| && BulkRuns.InRequest(JobOf(plan.operations, plan.failOnErrors), plan.steps)
      modifies storage, plan
      ensures Valid()
      ensures old(Reached(JobOf(plan.operations, plan.failOnErrors), plan.steps, store, k, plan.State(), storage.State())) ==>
                Reached(JobOf(plan.operations, plan.failOnErrors), plan.steps, store, k + 1, plan.State(), storage.State())
    {
      if Reached(JobOf(plan.operations, plan.failOnErrors), plan.steps, store, k, plan.State(), storage.State()) {
        NextStep(JobOf(plan.operations, plan.failOnErrors), plan.steps, store, k, plan.State(), storage.State());
      }
      var report, resource := RunBulkStep(plan, plan.steps[k]);
      plan.Record(plan.steps[k], report, resource);
    }

    /** Runs a bulk request, until too many operations failed. */
    method RunPlan(operations: seq<Operation>, failOnErrors: Option<int>) returns (plan: BulkPlan)
      requires Valid()
      modifies storage
      ensures Valid() && plan.Valid()
      ensures plan.operations == operations && plan.failOnErrors == failOnErrors
      ensures BulkRuns.InRequest(JobOf(operations, failOnErrors), plan.steps)
      ensures Reached(JobOf(operations, failOnErrors), plan.steps, old(storage.State()), |plan.steps|, plan.State(), storage.State())
    {
      plan := new BulkPlan(operations, failOnErrors);
      ghost var job, store := JobOf(operations, failOnErrors), storage.State();
      BulkGuarantees.PlannedFits(job, plan.steps);
      for k := 0 to |plan.steps|
        invariant Valid()
        invariant Reached(job, plan.steps, store, k, plan.State(), storage.State())
      {
        if plan.Stopped() {
          StoppedForGood(job, plan.steps, store, k, |plan.steps|);
          return;
        }
        Advance(plan, k, store);
      }
    }

    /** Runs a bulk request, and lists its outcomes. */
    method Bulk(operations: seq<Operation>, failOnErrors: Option<int>) returns (plan: BulkPlan, outcomes: seq<Report>)
      requires Valid()
      modifies storage
      ensures Valid() && plan.Valid()
      ensures plan.operations == operations && plan.failOnErrors == failOnErrors
      ensures BulkRuns.InRequest(JobOf(operations, failOnErrors), plan.steps)
      ensures Reached(JobOf(operations, failOnErrors), plan.steps, old(storage.State()), |plan.steps|, plan.State(), storage.State())
      ensures outcomes == BulkGuarantees.Outcomes(plan.results, |operations|)
      ensures |outcomes| < |operations| ==> failOnErrors.Some? && plan.errors > 0 && plan.errors >= failOnErrors.value
    {
      ghost var store := storage.State();
      plan := RunPlan(operations, failOnErrors);
      BulkGuarantees.PlannedFits(JobOf(operations, failOnErrors), plan.steps);
      ReachedTheCap(JobOf(operations, failOnErrors), plan.steps, store, plan.State(), storage.State());
      outcomes := plan.Outcomes();
    }
  }
}
