/** What a bulk request may rely on: the references, the errors, the outcomes and the stored resources of every run. */
module BulkGuarantees {
  import opened Results
  import opened Resources
  import opened References
  import opened Planning
  import opened Handlers
  import opened BulkRuns
  import O = Optimistic

  /** An order that the walk of the references gives the operations. */
  ghost predicate Planned(job: Job, order: seq<nat>) {
    IsPlan(GraphOf(job.operations), order)
  }

  lemma PlannedFits(job: Job, order: seq<nat>)
    requires Planned(job, order)
    ensures Distinct(order) && InRequest(job, order) && |order| == |job.operations|
  {
    PlanIsPermutation(GraphOf(job.operations), order);
    forall p | 0 <= p < |order|
      ensures order[p] < |job.operations|
    {
      assert order[p] in order;
    }
  }

  ghost function RunOf(job: Job, order: seq<nat>, store: Store): Run
    requires Planned(job, order)
  {
    PlannedFits(job, order);
    After(job, order, store, |order|)
  }

  // -- References -------------------------------------------------------

  /** The operations on a path from a success succeeded too, each one earlier than the one that references it. */
  lemma {:induction false} AlongPath(job: Job, order: seq<nat>, ran: nat, progress: Progress, path: seq<nat>, p: nat, k: nat)
    returns (q: nat)
    requires InRequest(job, order) && ran <= |order| && SuccessesResolved(job, order, ran, progress)
    requires IsPath(GraphOf(job.operations), path) && k < |path|
    requires p < ran && order[p] == path[0] && Succeeded(progress, order[p])
    ensures q + k <= p && order[q] == path[k] && Succeeded(progress, order[q])
  {
    if k == 0 {
      q := p;
    } else {
      var before := AlongPath(job, order, ran, progress, path, p, k - 1);
      var x, d := path[k - 1], path[k];
      assert d in GraphOf(job.operations)[x];
      var creations := CreationsOf(job.operations);
      assert d in DependenciesIn(ReferencesOf(job.operations[x]), creations);
      var b :| b in ReferencesOf(job.operations[x]) && b in creations && creations[b] == d;
      assert ReferencesSucceeded(job, progress, order[before], order[..before]);
      q :| 0 <= q < before && order[..before][q] == d;
    }
  }

  lemma CyclePath(g: Graph, i: nat) returns (path: seq<nat>)
    requires OnCycle(g, i)
    ensures Leads(g, path, i, i) && |path| >= 2
  {
    var d :| d in g[i] && Reaches(g, d, i);
    var rest :| Leads(g, rest, d, i);
    path := [i] + rest;
  }

  /** No operation on a cycle of references succeeds: it would have run before itself. */
  lemma CycleFails(job: Job, order: seq<nat>, ran: nat, progress: Progress, i: nat)
    requires Distinct(order) && InRequest(job, order) && ran <= |order|
    requires RanPrefix(order, ran, progress) && SuccessesResolved(job, order, ran, progress)
    ensures OnCycle(GraphOf(job.operations), i) ==> !Succeeded(progress, i)
  {
    if OnCycle(GraphOf(job.operations), i) && Succeeded(progress, i) {
      var path := CyclePath(GraphOf(job.operations), i);
      assert i in order[..ran];
      var p :| 0 <= p < ran && order[..ran][p] == i;
      var q := AlongPath(job, order, ran, progress, path, p, |path| - 1);
    }
  }

  /** Why an operation cannot succeed: it is on a cycle of references, or it references a bulkId that no POST has. */
  ghost predicate Hopeless(job: Job, i: nat)
    requires i < |job.operations|
  {
    || OnCycle(GraphOf(job.operations), i)
    || exists b :: b in ReferencesOf(job.operations[i]) && b !in CreationsOf(job.operations)
  }

  /**
   * At every moment of every run, an operation that succeeded references, directly or through others, only creations
   * that succeeded: none on a cycle of references, none that failed or did not run, none that references an unknown bulkId.
   */
  lemma SuccessesReachSuccesses(job: Job, order: seq<nat>, store: Store, k: nat, i: nat, j: nat)
    requires Planned(job, order) && k <= |order|
    requires Reaches(GraphOf(job.operations), i, j)
    ensures j < |job.operations| && InRequest(job, order)
    ensures var progress := After(job, order, store, k).progress;
            Succeeded(progress, i) ==> Succeeded(progress, j) && !Hopeless(job, j)
  {
    PlannedFits(job, order);
    var g := GraphOf(job.operations);
    var run := RunIsSound(job, order, store, k);
    var path :| Leads(g, path, i, j);
    if Succeeded(run.progress, i) {
      assert i in order[..run.ran];
      var p :| 0 <= p < run.ran && order[..run.ran][p] == i;
      var q := AlongPath(job, order, run.ran, run.progress, path, p, |path| - 1);
      assert ReferencesSucceeded(job, run.progress, order[q], order[..q]);
      if OnCycle(g, j) {
        CycleFails(job, order, run.ran, run.progress, j);
      }
    }
  }

  /**
   * At every moment of every run, an operation with a bulkId of its own resolves exactly when each creation that it
   * references has already run and succeeded.
   */
  lemma ResolvesInEveryRun(job: Job, order: seq<nat>, store: Store, k: nat, i: nat) returns (run: Run)
    requires Distinct(order) && InRequest(job, order) && k <= |order| && i < |job.operations|
    ensures run == After(job, order, store, k)
    ensures var creations := CreationsOf(job.operations);
            !IsDuplicate(creations, job.operations[i], i) ==>
              (Resolve(job.operations, creations, run.progress, i).Ok? <==>
                 forall b :: b in ReferencesOf(job.operations[i]) ==> b in creations && Succeeded(run.progress, creations[b]))
  {
    run := RunIsSound(job, order, store, k);
    ResolvesExactly(job, run.progress, i);
  }

  // -- Errors and outcomes ----------------------------------------------

  /** The positions of the operations that ran, in the order of the request. */
  function RanIndices(results: map<nat, Report>, n: nat): (r: seq<nat>)
    ensures forall i :: i in r <==> i < n && i in results
    ensures forall p, q :: 0 <= p < q < |r| ==> r[p] < r[q]
  {
    if n == 0 then []
    else
      var r := RanIndices(results, n - 1);
      assert forall p :: 0 <= p < |r| ==> r[p] in r;
      if n - 1 in results then r + [n - 1] else r
  }

  /** The outcomes of the operations that ran, in the order of the request. */
  function Outcomes(results: map<nat, Report>, n: nat): (r: seq<Report>)
    ensures |r| == |RanIndices(results, n)|
    ensures forall p :: 0 <= p < |r| ==> RanIndices(results, n)[p] in results && r[p] == results[RanIndices(results, n)[p]]
  {
    var indices := RanIndices(results, n);
    seq(|indices|, p requires 0 <= p < |indices| => results[indices[p]])
  }

  /**
   * A whole run. The operations that ran are a prefix of the plan, all of it without a cap; the errors never exceed
   * the cap, or one; and each outcome, one for each operation that ran, reports it with the location it must have.
   */
  lemma WholeRun(job: Job, order: seq<nat>, store: Store)
    requires Planned(job, order)
    ensures var run := RunOf(job, order, store);
            var outcomes := Outcomes(run.progress.results, |job.operations|);
            && run.ran <= |order|
            && run.progress.results.Keys == Elements(order[..run.ran])
            && (run.ran < |order| ==>
                  job.failOnErrors.Some? && run.progress.errors > 0 && run.progress.errors >= job.failOnErrors.value)
            && (job.failOnErrors.None? ==> run.ran == |order| == |outcomes|)
            && (job.failOnErrors.Some? ==> run.progress.errors <= 1 || run.progress.errors <= job.failOnErrors.value)
            && run.progress.errors == ErrorsIn(run.progress.results, order, run.ran)
            && |outcomes| == run.ran
            && forall p :: 0 <= p < |outcomes| ==> LocationRule(outcomes[p])
  {
    PlannedFits(job, order);
    var run := RunIsSound(job, order, store, |order|);
    OutcomesOfPrefix(job, order, run.ran, run.progress);
  }

  /** At every moment of every run, a step was left out only because the errors had reached the cap of the client. */
  lemma StopsAtTheCap(job: Job, order: seq<nat>, store: Store, k: nat) returns (run: Run)
    requires Distinct(order) && InRequest(job, order) && k <= |order|
    ensures run == After(job, order, store, k)
    ensures run.ran <= k
    ensures run.ran < k ==> job.failOnErrors.Some? && run.progress.errors > 0 && run.progress.errors >= job.failOnErrors.value
  {
    run := RunIsSound(job, order, store, k);
  }

  lemma FewerOutcomesAtTheCap(job: Job, order: seq<nat>, store: Store)
    requires Planned(job, order)
    ensures var progress := RunOf(job, order, store).progress;
            |Outcomes(progress.results, |job.operations|)| < |job.operations| ==>
              job.failOnErrors.Some? && progress.errors > 0 && progress.errors >= job.failOnErrors.value
  {
    PlannedFits(job, order);
    WholeRun(job, order, store);
  }

  ghost predicate Recorded(progress: Progress, i: nat, report: Report) {
    i in progress.results && progress.results[i] == report
  }

  lemma NextRecords(job: Job, run: Run, i: nat) returns (next: Run)
    requires i < |job.operations| && !Stopped(job.failOnErrors, run.progress.errors)
    ensures next == NextRun(job, run, i) && Recorded(next.progress, i, PerformNext(job, run, i).report)
  {
    next := NextRun(job, run, i);
  }

  lemma NextKeepsRecorded(job: Job, run: Run, i: nat, j: nat, report: Report) returns (next: Run)
    requires i < |job.operations| && i != j && Recorded(run.progress, j, report)
    ensures next == NextRun(job, run, i) && Recorded(next.progress, j, report)
  {
    next := NextRun(job, run, i);
  }

  lemma {:induction false} RecordedStays(job: Job, order: seq<nat>, store: Store, p: nat, k: nat, report: Report) returns (run: Run)
    requires Distinct(order) && InRequest(job, order) && p < k <= |order|
    requires Recorded(After(job, order, store, p + 1).progress, order[p], report)
    ensures run == After(job, order, store, k) && Recorded(run.progress, order[p], report)
  {
    if k == p + 1 {
      run := After(job, order, store, k);
    } else {
      var before := RecordedStays(job, order, store, p, k - 1, report);
      run := NextKeepsRecorded(job, before, order[k - 1], order[p], report);
    }
  }

  /** What is recorded for an operation that ran is what its step performed, and stays so. */
  lemma OutcomeIsPerformed(job: Job, order: seq<nat>, store: Store, p: nat, k: nat) returns (before: Run, run: Run)
    requires Distinct(order) && InRequest(job, order) && p < k <= |order|
    ensures before == After(job, order, store, p) && run == After(job, order, store, k)
    ensures !Stopped(job.failOnErrors, before.progress.errors) ==>
              Recorded(run.progress, order[p], PerformNext(job, before, order[p]).report)
  {
    before := After(job, order, store, p);
    if Stopped(job.failOnErrors, before.progress.errors) {
      run := After(job, order, store, k);
    } else {
      var next := NextRecords(job, before, order[p]);
      run := RecordedStays(job, order, store, p, k, PerformNext(job, before, order[p]).report);
    }
  }

  /** The outcomes are those of the operations that ran, one each. */
  lemma OutcomesOfPrefix(job: Job, order: seq<nat>, ran: nat, progress: Progress)
    requires Distinct(order) && InRequest(job, order) && ran <= |order|
    requires ResultsInv(job, order, ran, progress)
    ensures var outcomes := Outcomes(progress.results, |job.operations|);
            |outcomes| == ran && forall p :: 0 <= p < |outcomes| ==> LocationRule(outcomes[p])
  {
    var results, n := progress.results, |job.operations|;
    var indices := RanIndices(results, n);
    forall i | i in results
      ensures i < n && LocationRule(results[i])
    {
      assert i in order[..ran];
      var p :| 0 <= p < ran && order[..ran][p] == i;
      assert Reports(job, order[p], results[order[p]]);
    }
    assert Elements(indices) == results.Keys;
    DistinctCount(indices);
    DistinctCount(order[..ran]);
  }

  // -- The storage ------------------------------------------------------

  /** The content that a request gives the storage, if it gives one, mentions no bulkId. */
  predicate HasNoReference(request: Request) {
    match request
    case Creation(_, content) => Mentions(content) == []
    case Write(_, _, payload, _) => Mentions(payload) == []
    case Deletion(_, _) => true
  }

  lemma RequestKeepsNoReference(service: Service, around: Surroundings, typeName: Option<string>, operation: Operation)
    requires Mentions(operation.data) == []
    ensures var request := RequestOf(service, around, typeName, operation); request.Ok? ==> HasNoReference(request.value)
  {
  }

  /** No data of the request references a creation whose identifier is a reference itself. */
  ghost predicate NoIdIsReference(job: Job) {
    var creations := CreationsOf(job.operations);
    forall i, b :: 0 <= i < |job.operations| && b in Mentions(job.operations[i].data) && b in creations ==>
      !IsReference(job.around.newId(creations[b]))
  }

  /** The resolved data of an operation mentions no bulkId exactly when no identifier it got is a reference itself. */
  lemma ResolvedDataHasNoReference(job: Job, progress: Progress, i: nat)
    requires i < |job.operations| && CreatedAgree(job, progress)
    ensures var creations := CreationsOf(job.operations);
            var resolved := Resolve(job.operations, creations, progress, i);
            resolved.Ok? ==>
              (Mentions(resolved.value.data) == [] <==>
                 forall b :: b in Mentions(job.operations[i].data) && b in creations ==>
                   !IsReference(job.around.newId(creations[b])))
  {
    var creations := CreationsOf(job.operations);
    var operation, replace := job.operations[i], Replacing(creations, progress);
    if Resolve(job.operations, creations, progress, i).Ok? {
      ResolveIsSubstitution(operation, replace);
      SubstituteLeavesNone(operation.data, Ids(replace));
      forall b | b in Mentions(operation.data)
        ensures b in creations && Ids(replace)(b) == job.around.newId(creations[b])
      {
        assert b in OperationMentions(operation) && replace(b).Ok? && b in progress.created;
      }
    }
  }

  lemma PreparedHasNoReference(job: Job, progress: Progress, i: nat)
    requires i < |job.operations| && CreatedAgree(job, progress)
    requires NoIdIsReference(job)
    ensures var request := Prepare(job, CreationsOf(job.operations), progress, i).1;
            request.Ok? ==> HasNoReference(request.value)
  {
    var creations := CreationsOf(job.operations);
    PreparedFromResolved(job, creations, progress, i);
    ResolvedDataHasNoReference(job, progress, i);
    var typeName, resolved := Route(job.around, job.operations[i]), Resolve(job.operations, creations, progress, i);
    if typeName.Ok? && resolved.Ok? {
      RequestKeepsNoReference(job.service, job.around, typeName.value, resolved.value);
    }
  }

  /** The committed requests of a run lead from the resources before it to those after it. */
  ghost predicate Applied(job: Job, contents: map<Key, Resource>, run: Run) {
    && Consistent(job.policy, run.store.contents)
    && Serial(job.service, job.policy, contents, run.log) == Some(run.store.contents)
  }

  /** A step that failed leaves no trace: it commits no request and keeps every resource. So does one that changed nothing. */
  lemma FailureLeavesNoTrace(job: Job, progress: Progress, read: Store, store: Store, i: nat)
    requires i < |job.operations| && Consistent(job.policy, store.contents)
    ensures var done := Perform(job, progress, read, store, i);
            && Consistent(job.policy, done.store.contents)
            && (done.report.status >= 400 ==> done.entries == [])
            && (done.entries == [] ==> done.store.contents == store.contents)
  {
    var (report, request) := Prepare(job, CreationsOf(job.operations), progress, i);
    if request.Ok? {
      var id, now := job.around.newId(i), job.around.clock(i);
      AnswerKeepsConsistent(job.service, job.policy, read, store, request.value, id, now);
      ReportedOutcome(job.service, report, Answer(job.service, job.policy, read, store, request.value, id, now).1);
    }
  }

  /**
   * A bulk step among other clients. They do anything between its read and its write: a write that commits acts on exactly
   * the resource that the step read, and is a whole request served at the moment it commits; any other step keeps every
   * resource. Only the resource it writes must not have been loaded without a version, or with one yet to be issued.
   */
  lemma StepAmongOthers(job: Job, progress: Progress, origin: Store, before: seq<O.Action>, between: seq<O.Action>, i: nat)
    requires i < |job.operations| && Consistent(job.policy, origin.contents)
    requires var request := Prepare(job, CreationsOf(job.operations), progress, i).1;
             request.Ok? && !request.value.Creation? ==> !O.Unguarded(origin, request.value.key)
    ensures var read, store := O.Run(job.service, job.policy, origin, before).store,
                               O.Run(job.service, job.policy, origin, before + between).store;
            var done := Perform(job, progress, read, store, i);
            if done.entries == [] then done.store.contents == store.contents
            else
              var request := done.entries[0].request;
              && (!request.Creation? ==>
                    && request.key in read.contents && request.key in store.contents
                    && store.contents[request.key] == read.contents[request.key])
              && Execute(job.service, job.policy, store.contents, done.entries[0]) == Some(done.store.contents)
  {
    var read := O.Run(job.service, job.policy, origin, before).store;
    var store := O.Run(job.service, job.policy, origin, before + between).store;
    O.RunKeepsInv(job.service, job.policy, origin, before + between);
    FailureLeavesNoTrace(job, progress, read, store, i);
    var request := Prepare(job, CreationsOf(job.operations), progress, i).1;
    if request.Ok? {
      var id, now := job.around.newId(i), job.around.clock(i);
      ServeKeepsConsistent(job.service, job.policy, store, request.value, id, now);
      if !request.value.Creation? && request.value.key in read.contents {
        O.SameVersionIsSameState(job.service, job.policy, origin, before, between, request.value.key);
        FinishKeepsConsistent(job.service, job.policy, store, request.value, read.contents[request.value.key], now);
      }
    }
  }

  lemma StepApplies(job: Job, contents: map<Key, Resource>, run: Run, i: nat)
    requires i < |job.operations| && Applied(job, contents, run) && Alone(job.around)
    ensures Applied(job, contents, Step(job, run, i))
  {
    var request := Prepare(job, CreationsOf(job.operations), run.progress, i).1;
    if request.Ok? {
      var id, now := job.around.newId(i), job.around.clock(i);
      ServeKeepsConsistent(job.service, job.policy, run.store, request.value, id, now);
      SerialAppend(job.service, job.policy, contents, run.log, Entry(request.value, id, now, run.store.versions));
    }
    assert run.log + [] == run.log;
  }

  lemma NextApplies(job: Job, contents: map<Key, Resource>, run: Run, i: nat)
    requires i < |job.operations| && Applied(job, contents, run) && Alone(job.around)
    ensures Applied(job, contents, NextRun(job, run, i))
  {
    if !Stopped(job.failOnErrors, run.progress.errors) {
      StepApplies(job, contents, run, i);
    }
  }

  /** A committed request is the one that its operation stood for, after the steps before it, and the operation succeeded. */
  ghost predicate CommittedBy(job: Job, i: nat, before: Progress, results: map<nat, Report>, e: Entry)
    requires i < |job.operations|
  {
    && i in results && results[i].status < 400
    && Prepare(job, CreationsOf(job.operations), before, i).1 == Ok(e.request)
    && e.id == job.around.newId(i) && e.now == job.around.clock(i)
  }

  /**
   * The committed requests are those of operations that succeeded, one each at most, in the order of the plan; the other
   * operations, failed ones among them, committed none.
   */
  ghost predicate LogIsExact(job: Job, order: seq<nat>, run: Run)
    requires InRequest(job, order)
  {
    && run.ran == |run.history| <= |order| && |run.positions| == |run.log|
    && (forall p, q :: 0 <= p < q < |run.positions| ==> run.positions[p] < run.positions[q])
    && (forall p :: 0 <= p < |run.positions| ==>
          && run.positions[p] < run.ran
          && CommittedBy(job, order[run.positions[p]], run.history[run.positions[p]], run.progress.results, run.log[p]))
  }

  /** The outcomes recorded later do not touch the ones that committed. */
  lemma LogStays(job: Job, order: seq<nat>, run: Run, after: Run)
    requires InRequest(job, order) && run.ran < after.ran == |after.history| <= |order| && LogIsExact(job, order, run)
    requires after.history[..run.ran] == run.history
    requires forall i :: i in run.progress.results ==>
               i in after.progress.results && after.progress.results[i] == run.progress.results[i]
    requires after.log == run.log && after.positions == run.positions
    ensures LogIsExact(job, order, after)
  {
  }

  lemma LogGrows(job: Job, order: seq<nat>, run: Run, after: Run, e: Entry)
    requires InRequest(job, order) && LogIsExact(job, order, run)
    requires run.ran < after.ran == |after.history| <= |order| && after.history[..run.ran] == run.history
    requires forall i :: i in run.progress.results ==>
               i in after.progress.results && after.progress.results[i] == run.progress.results[i]
    requires after.log == run.log + [e] && after.positions == run.positions + [run.ran]
    requires CommittedBy(job, order[run.ran], after.history[run.ran], after.progress.results, e)
    ensures LogIsExact(job, order, after)
  {
  }

  lemma NextLogs(job: Job, order: seq<nat>, k: nat, run: Run)
    requires Distinct(order) && InRequest(job, order) && k < |order|
    requires RunInv(job, order, k, run) && LogIsExact(job, order, run)
    ensures LogIsExact(job, order, NextRun(job, run, order[k]))
  {
    if Stopped(job.failOnErrors, run.progress.errors) {
      return;
    }
    var i := order[k];
    var done, after := PerformNext(job, run, i), Step(job, run, i);
    NextIsNew(order, k);
    CommitIsOfSuccess(job, run, i);
    if done.entries == [] {
      LogStays(job, order, run, after);
    } else {
      assert done.entries == [done.entries[0]];
      LogGrows(job, order, run, after, done.entries[0]);
    }
  }

  lemma CommitIsOfSuccess(job: Job, run: Run, i: nat)
    requires i < |job.operations|
    ensures var done := PerformNext(job, run, i);
            done.entries != [] ==>
              && |done.entries| == 1 && done.report.status < 400
              && Prepare(job, CreationsOf(job.operations), run.progress, i).1 == Ok(done.entries[0].request)
              && done.entries[0].id == job.around.newId(i) && done.entries[0].now == job.around.clock(i)
  {
    var read := job.around.before(i, run.store);
    var store := job.around.during(i, read);
    var (report, request) := Prepare(job, CreationsOf(job.operations), run.progress, i);
    if request.Ok? {
      var id, now := job.around.newId(i), job.around.clock(i);
      ReportedOutcome(job.service, report, Answer(job.service, job.policy, read, store, request.value, id, now).1);
    }
  }

  /** What the log of every run keeps. */
  ghost predicate Logged(job: Job, order: seq<nat>, k: nat, run: Run)
    requires k <= |order| && InRequest(job, order)
  {
    RunInv(job, order, k, run) && LogIsExact(job, order, run)
  }

  lemma NothingLogged(job: Job, order: seq<nat>, store: Store) returns (run: Run)
    requires InRequest(job, order)
    ensures run == Start(store) && Logged(job, order, 0, run)
  {
    NothingRan(job, order, store);
    run := Start(store);
  }

  lemma NextIsLogged(job: Job, order: seq<nat>, k: nat, before: Run) returns (run: Run)
    requires Distinct(order) && InRequest(job, order) && k < |order|
    requires Logged(job, order, k, before)
    ensures run == NextRun(job, before, order[k]) && Logged(job, order, k + 1, run)
  {
    NextLogs(job, order, k, before);
    StepKeepsRun(job, order, k, before);
    run := NextRun(job, before, order[k]);
  }

  /** The log of every run, among the writes of other clients or alone. */
  lemma {:induction false} LogOfRun(job: Job, order: seq<nat>, store: Store, k: nat) returns (run: Run)
    requires Distinct(order) && InRequest(job, order) && k <= |order|
    ensures run == After(job, order, store, k)
    ensures Logged(job, order, k, run)
  {
    if k == 0 {
      run := NothingLogged(job, order, store);
    } else {
      var before := LogOfRun(job, order, store, k - 1);
      run := NextIsLogged(job, order, k - 1, before);
    }
  }

  /**
   * Each committed request of every run comes from an operation that was routed, resolved, authorized and valid when it
   * ran, and is the request that this operation stands for.
   */
  lemma CommitsAreAuthorized(job: Job, order: seq<nat>, store: Store, k: nat, p: nat)
    returns (run: Run, typeName: string, r: Operation)
    requires Distinct(order) && InRequest(job, order) && k <= |order|
    requires p < |After(job, order, store, k).log|
    ensures run == After(job, order, store, k)
    ensures p < |run.log| == |run.positions| && run.positions[p] < |run.history| == run.ran <= |order|
    ensures var i := order[run.positions[p]];
            && MayRun(job, run.history[run.positions[p]], i, typeName, r)
            && StandsFor(job.service, job.around, typeName, r, run.log[p].request)
            && run.log[p].id == job.around.newId(i) && run.log[p].now == job.around.clock(i)
  {
    run := LogOfRun(job, order, store, k);
    var at := run.positions[p];
    assert CommittedBy(job, order[at], run.history[at], run.progress.results, run.log[p]);
    typeName, r := PreparedMayRun(job, run.history[at], order[at], run.log[p].request);
  }

  lemma {:induction false} RunIsApplied(job: Job, order: seq<nat>, store: Store, k: nat) returns (run: Run)
    requires InRequest(job, order) && k <= |order|
    requires Consistent(job.policy, store.contents) && Alone(job.around)
    ensures run == After(job, order, store, k)
    ensures Applied(job, store.contents, run)
  {
    if k == 0 {
      run := Start(store);
    } else {
      var before := RunIsApplied(job, order, store, k - 1);
      NextApplies(job, store.contents, before, order[k - 1]);
      run := NextRun(job, before, order[k - 1]);
    }
  }

  /**
   * A bulk run leaves the storage as the requests of its successful operations would, served whole, one after the other,
   * in the order of the plan: the other operations leave no trace. The resources stay consistent at every step.
   */
  lemma RunIsSerial(job: Job, order: seq<nat>, store: Store, k: nat) returns (run: Run)
    requires Distinct(order) && InRequest(job, order) && k <= |order|
    requires Consistent(job.policy, store.contents) && Alone(job.around)
    ensures run == After(job, order, store, k)
    ensures Applied(job, store.contents, run)
    ensures LogIsExact(job, order, run)
  {
    run := RunIsApplied(job, order, store, k);
    var logged := LogOfRun(job, order, store, k);
  }

  /**
   * Each committed request comes from an operation that reaches only successes: from none that is on a cycle of
   * references, that references an unknown bulkId, or that reaches such an operation or a failed one.
   */
  lemma HopelessCommitsNothing(job: Job, order: seq<nat>, store: Store, k: nat, p: nat) returns (run: Run)
    requires Planned(job, order) && k <= |order|
    ensures InRequest(job, order) && run == After(job, order, store, k)
    ensures p < |run.log| ==>
              && p < |run.positions| && run.positions[p] < |order| && !Hopeless(job, order[run.positions[p]])
              && forall j: nat :: Reaches(GraphOf(job.operations), order[run.positions[p]], j) ==>
                   j < |job.operations| && !Hopeless(job, j) && Succeeded(run.progress, j)
  {
    PlannedFits(job, order);
    run := LogOfRun(job, order, store, k);
    if p < |run.log| {
      var i := order[run.positions[p]];
      ReachesItself(GraphOf(job.operations), i);
      forall j: nat | Reaches(GraphOf(job.operations), i, j)
        ensures j < |job.operations| && !Hopeless(job, j) && Succeeded(run.progress, j)
      {
        SuccessesReachSuccesses(job, order, store, k, i, j);
      }
    }
  }

  ghost predicate NoneHasReference(log: seq<Entry>) {
    forall e :: e in log ==> HasNoReference(e.request)
  }

  lemma NextStoresNoReference(job: Job, before: Run, i: nat) returns (run: Run)
    requires i < |job.operations| && CreatedAgree(job, before.progress) && NoIdIsReference(job)
    requires NoneHasReference(before.log)
    ensures run == NextRun(job, before, i) && NoneHasReference(run.log)
  {
    PreparedHasNoReference(job, before.progress, i);
    run := NextRun(job, before, i);
  }

  lemma CreatedAgreeInRun(job: Job, order: seq<nat>, store: Store, k: nat)
    requires Distinct(order) && InRequest(job, order) && k <= |order|
    ensures CreatedAgree(job, After(job, order, store, k).progress)
  {
    var run := RunIsSound(job, order, store, k);
  }

  /**
   * No bulkId reference reaches the storage: the content of each committed request mentions none, provided that no
   * identifier which replaces a reference is one itself.
   */
  lemma {:induction false} NoReferenceIsStored(job: Job, order: seq<nat>, store: Store, k: nat) returns (run: Run)
    requires Distinct(order) && InRequest(job, order) && k <= |order| && NoIdIsReference(job)
    ensures run == After(job, order, store, k)
    ensures NoneHasReference(run.log)
  {
    if k == 0 {
      run := Start(store);
    } else {
      var before := NoReferenceIsStored(job, order, store, k - 1);
      CreatedAgreeInRun(job, order, store, k - 1);
      run := NextStoresNoReference(job, before, order[k - 1]);
    }
  }
}
