/** The writes of a handler: a storage read, the steps of the service on what it returned, then a storage write. */
module Handlers {
  import opened Results
  import opened Resources
  import opened Memory
  import opened Versions
  import C = Conditions

  datatype Kind = Replacement | Modification

  datatype Request =
    | Creation(typeName: string, content: Data)
    | Write(kind: Kind, key: Key, payload: Data, conditions: C.Conditions)
    | Deletion(key: Key, conditions: C.Conditions)

  /**
   * What the configuration supports, and how a PUT or a PATCH changes the resource it reads: it fails, changes nothing,
   * or gives a new content.
   */
  datatype Service = Service(
    etagSupported: bool,
    patchSupported: bool,
    apply: (Kind, Resource, Data) -> Result<Option<Data>>)

  /** What became of a request. */
  datatype Outcome = Refused(failure: Failure) | Unchanged(resource: Resource) | Stored(resource: Resource) | Removed {
    /** Whether the request changed the stored resources. */
    predicate Commits() {
      Stored? || Removed?
    }
  }

  function CheckPreconditions(service: Service, current: Resource, verb: C.Verb, conditions: C.Conditions): Result<bool> {
    C.Check(conditions, if service.etagSupported then current.meta.version else None, verb)
  }

  /** The new content of a resource, or None when the request changes nothing. */
  function Apply(service: Service, kind: Kind, current: Resource, payload: Data, conditions: C.Conditions): Result<Option<Data>> {
    var _ :- CheckPreconditions(service, current, if kind == Replacement then C.Put else C.Patch, conditions);
    service.apply(kind, current, payload)
  }

  function OutcomeOf(r: Result<Resource>): Outcome {
    if r.Ok? then Stored(r.value) else Refused(r.failure)
  }

  function DeletionOutcome(r: Result<()>): Outcome {
    match r
    case Ok(_) => Removed
    case Err(failure) => Refused(failure)
  }

  /** Ends a request on the resource it read: the storage checks that it still has the version read, if it had one. */
  ghost function Finish(service: Service, policy: Policy, store: Store, request: Request, current: Resource, now: int)
    : (Store, Outcome)
    requires !request.Creation?
  {
    var expected := current.meta.version;
    match request
    case Write(kind, key, payload, conditions) =>
      var applied := Apply(service, kind, current, payload, conditions);
      if applied.Err? then (store, Refused(applied.failure))
      else if applied.value.None? then (store, Unchanged(current))
      else
        var (after, r) := Update(policy, store, key, applied.value.value, expected, now);
        (after, OutcomeOf(r))
    case Deletion(key, conditions) =>
      var checked := CheckPreconditions(service, current, C.Delete, conditions);
      if checked.Err? then (store, Refused(checked.failure))
      else
        var (after, r) := Delete(store, key, expected);
        (after, DeletionOutcome(r))
  }

  /** Serves a request that reads one state of the storage, and writes to a later one. */
  ghost function Answer(service: Service, policy: Policy, read: Store, store: Store, request: Request, id: string, now: int)
    : (Store, Outcome)
  {
    if request.Creation? then
      var (after, r) := Create(policy, store, request.typeName, request.content, id, now);
      (after, OutcomeOf(r))
    else
      var current := Get(read, request.key);
      if current.Err? then (store, Refused(current.failure))
      else Finish(service, policy, store, request, current.value, now)
  }

  /** Serves a request whole, with no other write between its read and its write. */
  ghost function Serve(service: Service, policy: Policy, store: Store, request: Request, id: string, now: int): (Store, Outcome) {
    Answer(service, policy, store, store, request, id, now)
  }

  // -- What a request answers -------------------------------------------

  /**
   * A PUT or a PATCH over what was read. A failed condition or application changes nothing, nor does one that gives no new
   * content: not even the counter of the versions. A new content is stored if the storage still has the version read.
   */
  lemma WriteIsExact(service: Service, policy: Policy, store: Store, kind: Kind, key: Key, payload: Data, conditions: C.Conditions,
                     current: Resource, now: int)
    ensures var (after, outcome) := Finish(service, policy, store, Write(kind, key, payload, conditions), current, now);
            var version := if service.etagSupported then current.meta.version else None;
            var checked := C.Check(conditions, version, if kind == Replacement then C.Put else C.Patch);
            var applied := service.apply(kind, current, payload);
            if checked.Err? then after == store && outcome == Refused(checked.failure)
            else if applied.Err? then after == store && outcome == Refused(applied.failure)
            else if applied.value.None? then after == store && outcome == Unchanged(current)
            else
              var (updated, r) := Update(policy, store, key, applied.value.value, current.meta.version, now);
              && after == updated
              && (r.Ok? ==> outcome == Stored(r.value))
              && (r.Err? ==> outcome == Refused(r.failure))
  {
  }

  /** A PUT or a PATCH served whole: what it stores is refused only for a unique value of another resource. */
  lemma WriteIsServed(service: Service, policy: Policy, store: Store, kind: Kind, key: Key, payload: Data, conditions: C.Conditions,
                      id: string, now: int)
    ensures var (after, outcome) := Serve(service, policy, store, Write(kind, key, payload, conditions), id, now);
            if key !in store.contents then after == store && outcome == Refused(NotFound)
            else
              var current := store.contents[key];
              var version := if service.etagSupported then current.meta.version else None;
              var checked := C.Check(conditions, version, if kind == Replacement then C.Put else C.Patch);
              var applied := service.apply(kind, current, payload);
              if checked.Err? then after == store && outcome == Refused(checked.failure)
              else if applied.Err? then after == store && outcome == Refused(applied.failure)
              else if applied.value.None? then after == store && outcome == Unchanged(current)
              else
                var next := Replaced(store, key, applied.value.value, now);
                && after.versions == store.versions + 1
                && outcome == (if Clashes(policy, store.contents, next) then Refused(UniquenessTaken) else Stored(next))
                && after.contents == (if outcome.Stored? then store.contents[KeyOf(next) := next] else store.contents)
  {
  }

  /** A DELETE served whole removes a stored resource as soon as its conditions are met. */
  lemma DeletionIsServed(service: Service, policy: Policy, store: Store, key: Key, conditions: C.Conditions, id: string, now: int)
    ensures var (after, outcome) := Serve(service, policy, store, Deletion(key, conditions), id, now);
            if key !in store.contents then after == store && outcome == Refused(NotFound)
            else
              var version := if service.etagSupported then store.contents[key].meta.version else None;
              var checked := C.Check(conditions, version, C.Delete);
              if checked.Err? then after == store && outcome == Refused(checked.failure)
              else outcome == Removed && after == Store(store.contents - {key}, store.versions)
  {
    DeletionIsExact(store, key, if key in store.contents then store.contents[key].meta.version else None);
  }

  /** A POST stores its content under its identifier, or is refused for a unique value of another resource. */
  lemma CreationIsServed(service: Service, policy: Policy, store: Store, typeName: string, content: Data, id: string, now: int)
    ensures var (after, outcome) := Serve(service, policy, store, Creation(typeName, content), id, now);
            var created := Resource(id, Meta(typeName, now, now, Some(Version(store.versions))), content);
            && after.versions == store.versions + 1
            && outcome == (if Clashes(policy, store.contents, created) then Refused(UniquenessTaken) else Stored(created))
            && after.contents == (if outcome.Stored? then store.contents[Key(typeName, id) := created] else store.contents)
  {
  }

  // -- Serial executions ------------------------------------------------

  /** A committed request, with the identifier, the date and the version number that it got. */
  datatype Entry = Entry(request: Request, id: string, now: int, number: nat)

  ghost function Execute(service: Service, policy: Policy, contents: map<Key, Resource>, e: Entry): Option<map<Key, Resource>> {
    var (after, outcome) := Serve(service, policy, Store(contents, e.number), e.request, e.id, e.now);
    if outcome.Commits() then Some(after.contents) else None
  }

  /** The resources after some requests were served whole, one after the other; None if one of them does not commit. */
  ghost function Serial(service: Service, policy: Policy, contents: map<Key, Resource>, log: seq<Entry>): Option<map<Key, Resource>> {
    if log == [] then Some(contents)
    else
      var before := Serial(service, policy, contents, log[..|log| - 1]);
      if before.None? then None else Execute(service, policy, before.value, log[|log| - 1])
  }

  lemma SerialAppend(service: Service, policy: Policy, contents: map<Key, Resource>, log: seq<Entry>, e: Entry)
    ensures Serial(service, policy, contents, log + [e]) ==
            var before := Serial(service, policy, contents, log);
            if before.None? then None else Execute(service, policy, before.value, e)
  {
    assert (log + [e])[..|log|] == log;
  }

  /** A request keeps the resources consistent, and a request that does not commit keeps them all. */
  lemma FinishKeepsConsistent(service: Service, policy: Policy, store: Store, request: Request, current: Resource, now: int)
    requires !request.Creation? && Consistent(policy, store.contents)
    ensures var (after, outcome) := Finish(service, policy, store, request, current, now);
            && Consistent(policy, after.contents) && store.versions <= after.versions
            && (!outcome.Commits() ==> after.contents == store.contents)
            && (outcome.Commits() ==>
                  && request.key in store.contents
                  && (current.meta.version.Some? ==> store.contents[request.key].meta.version == current.meta.version))
            && (outcome.Stored? ==> after.contents == store.contents[request.key := outcome.resource]
                                    && KeyOf(outcome.resource) == request.key
                                    && outcome.resource.meta.version == Some(Version(store.versions))
                                    && after.versions == store.versions + 1)
            && (outcome.Removed? ==> after.contents == store.contents - {request.key})
  {
    var expected := current.meta.version;
    var content := if request.Write? && Apply(service, request.kind, current, request.payload, request.conditions).Ok?
                      && Apply(service, request.kind, current, request.payload, request.conditions).value.Some?
      then Apply(service, request.kind, current, request.payload, request.conditions).value.value else Other(0);
    CallsKeepConsistent(policy, store, request.key, content, expected, now);
  }

  lemma AnswerKeepsConsistent(service: Service, policy: Policy, read: Store, store: Store, request: Request, id: string, now: int)
    requires Consistent(policy, store.contents)
    ensures var (after, outcome) := Answer(service, policy, read, store, request, id, now);
            && Consistent(policy, after.contents) && store.versions <= after.versions
            && (!outcome.Commits() ==> after.contents == store.contents)
  {
    if request.Creation? {
      CallsKeepConsistent(policy, store, Key(request.typeName, id), request.content, None, now);
    } else if request.key in read.contents {
      FinishKeepsConsistent(service, policy, store, request, read.contents[request.key], now);
    }
  }

  lemma ServeKeepsConsistent(service: Service, policy: Policy, store: Store, request: Request, id: string, now: int)
    requires Consistent(policy, store.contents)
    ensures var (after, outcome) := Serve(service, policy, store, request, id, now);
            && Consistent(policy, after.contents) && store.versions <= after.versions
            && (!outcome.Commits() ==> after.contents == store.contents)
            && (outcome.Commits() ==>
                  Execute(service, policy, store.contents, Entry(request, id, now, store.versions)) == Some(after.contents))
  {
    if request.Creation? {
      CallsKeepConsistent(policy, store, Key(request.typeName, id), request.content, None, now);
    } else if request.key in store.contents {
      FinishKeepsConsistent(service, policy, store, request, store.contents[request.key], now);
    }
  }

  // -- The synchronous handler ------------------------------------------

  /** The writes of the handler that holds the lock of the storage for the whole operation. */
  class WriteHandler {
    const service: Service
    const storage: InMemoryStorage

    constructor (service: Service, storage: InMemoryStorage)
      ensures this.service == service && this.storage == storage
    {
      this.service, this.storage := service, storage;
    }

    /** Applies a replacement or a modification to the resource that was read. */
    method WriteBack(kind: Kind, key: Key, current: Resource, payload: Data, conditions: C.Conditions, now: int)
      returns (outcome: Outcome)
      requires storage.Valid()
      modifies storage
      ensures storage.Valid()
      ensures (storage.State(), outcome) ==
              Finish(service, storage.policy, old(storage.State()), Write(kind, key, payload, conditions), current, now)
    {
      var applied := Apply(service, kind, current, payload, conditions);
      if applied.Err? {
        return Refused(applied.failure);
      }
      if applied.value.None? {
        return Unchanged(current);
      }
      var r := storage.Update(key.typeName, key.id, applied.value.value, current.meta.version, now);
      outcome := OutcomeOf(r);
    }

    method ReplaceResource(key: Key, replacement: Data, conditions: C.Conditions, now: int) returns (outcome: Outcome)
      requires storage.Valid()
      modifies storage
      ensures storage.Valid()
      ensures (storage.State(), outcome) ==
              Serve(service, storage.policy, old(storage.State()), Write(Replacement, key, replacement, conditions), "", now)
    {
      var current := storage.Get(key.typeName, key.id);
      if current.Err? {
        return Refused(current.failure);
      }
      outcome := WriteBack(Replacement, key, current.value, replacement, conditions, now);
    }

    method PatchResource(key: Key, patch: Data, conditions: C.Conditions, now: int) returns (outcome: Outcome)
      requires storage.Valid()
      modifies storage
      ensures storage.Valid()
      ensures (storage.State(), outcome) ==
              Serve(service, storage.policy, old(storage.State()), Write(Modification, key, patch, conditions), "", now)
    {
      var current := storage.Get(key.typeName, key.id);
      if current.Err? {
        return Refused(current.failure);
      }
      outcome := WriteBack(Modification, key, current.value, patch, conditions, now);
    }

    method DeleteResource(key: Key, conditions: C.Conditions, now: int) returns (outcome: Outcome)
      requires storage.Valid()
      modifies storage
      ensures storage.Valid()
      ensures (storage.State(), outcome) ==
              Serve(service, storage.policy, old(storage.State()), Deletion(key, conditions), "", now)
    {
      var current := storage.Get(key.typeName, key.id);
      if current.Err? {
        return Refused(current.failure);
      }
      var checked := CheckPreconditions(service, current.value, C.Delete, conditions);
      if checked.Err? {
        return Refused(checked.failure);
      }
      var r := storage.Delete(key.typeName, key.id, current.value.meta.version);
      outcome := DeletionOutcome(r);
    }

    method CreateResource(typeName: string, content: Data, id: string, now: int) returns (outcome: Outcome)
      requires storage.Valid()
      modifies storage
      ensures storage.Valid()
      ensures (storage.State(), outcome) ==
              Serve(service, storage.policy, old(storage.State()), Creation(typeName, content), id, now)
    {
      var r := storage.Create(typeName, content, id, now);
      outcome := OutcomeOf(r);
    }
  }
}
