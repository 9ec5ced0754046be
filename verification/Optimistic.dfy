/** Any number of clients whose requests interleave between storage calls, without a lock. */
module Optimistic {
  import opened Results
  import opened Resources
  import opened Versions
  import opened Handlers
  import opened Paging
  import opened Walks
  import C = Conditions
  import Sorting
  import SortKeys

  /** A request that has read its resource, and has yet to write it. */
  datatype Pending = Pending(request: Request, current: Resource)

  /** The storage, the pending clients, the committed requests in commit order, and every resource ever stored. */
  datatype System = System(store: Store, clients: map<nat, Pending>, log: seq<Entry>, issued: set<Resource>)

  /** One storage call, with the steps of the service that follow a read or precede a write. */
  datatype Action =
    | Read(client: nat, request: Request)
    | Commit(client: nat, now: int)
    | Post(typeName: string, content: Data, id: string, now: int)

  ghost function Logged(s: System, after: Store, outcome: Outcome, e: Entry): System {
    if outcome.Commits() then
      s.(store := after, log := s.log + [e], issued := if outcome.Stored? then s.issued + {outcome.resource} else s.issued)
    else s.(store := after)
  }

  ghost function Next(service: Service, policy: Policy, s: System, a: Action): System {
    match a
    case Read(client, request) =>
      if request.Creation? || request.key !in s.store.contents then s
      else s.(clients := s.clients[client := Pending(request, s.store.contents[request.key])])
    case Commit(client, now) =>
      if client !in s.clients || s.clients[client].request.Creation? then s
      else
        var p := s.clients[client];
        var (after, outcome) := Finish(service, policy, s.store, p.request, p.current, now);
        Logged(s.(clients := s.clients - {client}), after, outcome, Entry(p.request, "", now, s.store.versions))
    case Post(typeName, content, id, now) =>
      var request := Creation(typeName, content);
      var (after, outcome) := Serve(service, policy, s.store, request, id, now);
      Logged(s, after, outcome, Entry(request, id, now, s.store.versions))
  }

  ghost function Initial(store: Store): System {
    System(store, map[], [], set k | k in store.contents :: store.contents[k])
  }

  ghost function Run(service: Service, policy: Policy, store: Store, actions: seq<Action>): System {
    if actions == [] then Initial(store)
    else Next(service, policy, Run(service, policy, store, actions[..|actions| - 1]), actions[|actions| - 1])
  }

  /** A resource was loaded with a version that its counter has yet to issue, or with none at all. */
  ghost predicate Unguarded(store: Store, k: Key) {
    && k in store.contents
    && var version := store.contents[k].meta.version;
    version.None? || exists n: nat :: store.versions <= n && version == Some(Version(n))
  }

  /** No client of a run reads a resource that was loaded without a version, or with one that is yet to be issued. */
  ghost predicate ReadsGuarded(store: Store, actions: seq<Action>) {
    forall a :: a in actions && a.Read? && !a.request.Creation? ==> !Unguarded(store, a.request.key)
  }

  /** Every state of a resource has a version, which names it and is not yet to be issued. */
  ghost predicate VersionsNameStates(issued: set<Resource>, versions: nat, k: Key) {
    && (forall a :: a in issued && KeyOf(a) == k ==> a.meta.version.Some?)
    && (forall a, n: nat :: a in issued && KeyOf(a) == k && versions <= n ==> a.meta.version != Some(Version(n)))
    && (forall a, b :: a in issued && b in issued && KeyOf(a) == k && KeyOf(b) == k && a.meta.version == b.meta.version ==> a == b)
  }

  ghost predicate Inv(policy: Policy, s: System) {
    && Consistent(policy, s.store.contents)
    && (forall k :: k in s.store.contents ==> s.store.contents[k] in s.issued)
    && (forall c :: c in s.clients ==> Reads(s.clients[c]) && s.clients[c].current in s.issued)
  }

  predicate Reads(p: Pending) {
    !p.request.Creation? && KeyOf(p.current) == p.request.key
  }

  /** A step stores nothing, or one resource with the next version of the counter. */
  ghost predicate IssuesFresh(s: System, after: System) {
    && s.store.versions <= after.store.versions
    && (after.issued == s.issued
        || exists r :: after.issued == s.issued + {r} && r.meta.version == Some(Version(s.store.versions))
                       && s.store.versions < after.store.versions)
  }

  lemma FreshVersion(s: System, after: System, k: Key)
    requires VersionsNameStates(s.issued, s.store.versions, k) && IssuesFresh(s, after)
    ensures VersionsNameStates(after.issued, after.store.versions, k)
  {
    forall n: nat | s.store.versions < n
      ensures Version(s.store.versions) != Version(n)
    {
      if Version(n) == Version(s.store.versions) {
        VersionInjective(n, s.store.versions);
      }
    }
  }

  lemma CommitKeepsInv(service: Service, policy: Policy, s: System, client: nat, now: int)
    requires Inv(policy, s) && client in s.clients
    ensures Inv(policy, Next(service, policy, s, Commit(client, now)))
    ensures IssuesFresh(s, Next(service, policy, s, Commit(client, now)))
  {
    var p := s.clients[client];
    FinishKeepsConsistent(service, policy, s.store, p.request, p.current, now);
  }

  lemma PostKeepsInv(service: Service, policy: Policy, s: System, typeName: string, content: Data, id: string, now: int)
    requires Inv(policy, s)
    ensures Inv(policy, Next(service, policy, s, Post(typeName, content, id, now)))
    ensures IssuesFresh(s, Next(service, policy, s, Post(typeName, content, id, now)))
  {
    CallsKeepConsistent(policy, s.store, Key(typeName, id), content, None, now);
  }

  lemma NextKeepsInv(service: Service, policy: Policy, s: System, a: Action)
    requires Inv(policy, s)
    ensures Inv(policy, Next(service, policy, s, a))
    ensures IssuesFresh(s, Next(service, policy, s, a))
  {
    match a
    case Read(client, request) =>
    case Commit(client, now) =>
      if client in s.clients {
        CommitKeepsInv(service, policy, s, client, now);
      }
    case Post(typeName, content, id, now) =>
      PostKeepsInv(service, policy, s, typeName, content, id, now);
  }

  lemma {:induction false} RunKeepsInv(service: Service, policy: Policy, store: Store, actions: seq<Action>)
    requires Consistent(policy, store.contents)
    ensures Inv(policy, Run(service, policy, store, actions))
  {
    if actions != [] {
      RunKeepsInv(service, policy, store, actions[..|actions| - 1]);
      NextKeepsInv(service, policy, Run(service, policy, store, actions[..|actions| - 1]), actions[|actions| - 1]);
    }
  }

  lemma {:induction false} RunNamesStates(service: Service, policy: Policy, store: Store, actions: seq<Action>, k: Key)
    requires Consistent(policy, store.contents) && !Unguarded(store, k)
    ensures var s := Run(service, policy, store, actions); VersionsNameStates(s.issued, s.store.versions, k)
  {
    if actions != [] {
      var before := actions[..|actions| - 1];
      RunNamesStates(service, policy, store, before, k);
      RunKeepsInv(service, policy, store, before);
      var s := Run(service, policy, store, before);
      NextKeepsInv(service, policy, s, actions[|actions| - 1]);
      FreshVersion(s, Next(service, policy, s, actions[|actions| - 1]), k);
    }
  }

  /** Whether the client commits its pending request in this state. */
  ghost predicate CommitsNow(service: Service, policy: Policy, s: System, client: nat, now: int) {
    && client in s.clients && !s.clients[client].request.Creation?
    && Finish(service, policy, s.store, s.clients[client].request, s.clients[client].current, now).1.Commits()
  }

  lemma CommitActsOnWhatWasRead(service: Service, policy: Policy, s: System, client: nat, now: int)
    requires Inv(policy, s) && CommitsNow(service, policy, s, client, now)
    requires VersionsNameStates(s.issued, s.store.versions, s.clients[client].request.key)
    ensures var p := s.clients[client];
            p.request.key in s.store.contents && s.store.contents[p.request.key] == p.current
  {
    var p := s.clients[client];
    FinishKeepsConsistent(service, policy, s.store, p.request, p.current, now);
  }

  /**
   * No lost update. In every run of any number of clients, without a lock, a request that commits finds in the storage
   * exactly the resource that its client read, however many writes ran in between. Only the resource of that request
   * must not have been loaded without a version, or with one that is yet to be issued.
   */
  lemma NoLostUpdate(service: Service, policy: Policy, store: Store, actions: seq<Action>, client: nat, now: int)
    requires Consistent(policy, store.contents)
    requires CommitsNow(service, policy, Run(service, policy, store, actions), client, now)
    requires !Unguarded(store, Run(service, policy, store, actions).clients[client].request.key)
    ensures var s := Run(service, policy, store, actions);
            var p := s.clients[client];
            p.request.key in s.store.contents && s.store.contents[p.request.key] == p.current
  {
    RunKeepsInv(service, policy, store, actions);
    RunNamesStates(service, policy, store, actions, Run(service, policy, store, actions).clients[client].request.key);
    CommitActsOnWhatWasRead(service, policy, Run(service, policy, store, actions), client, now);
  }

  /** The stored resources of every run are those of the committed requests, served whole, one after the other. */
  lemma {:induction false} RunsAreSerializable(service: Service, policy: Policy, store: Store, actions: seq<Action>)
    requires Consistent(policy, store.contents) && ReadsGuarded(store, actions)
    ensures var s := Run(service, policy, store, actions);
            Serial(service, policy, store.contents, s.log) == Some(s.store.contents)
  {
    if actions != [] {
      var before, a := actions[..|actions| - 1], actions[|actions| - 1];
      var s := Run(service, policy, store, before);
      RunsAreSerializable(service, policy, store, before);
      RunKeepsInv(service, policy, store, before);
      if a.Commit? && a.client in s.clients {
        PendingIsGuarded(service, policy, store, before, a.client);
        RunNamesStates(service, policy, store, before, s.clients[a.client].request.key);
      }
      StepIsSerial(service, policy, store.contents, s, a);
    }
  }

  lemma {:induction false} PendingIsGuarded(service: Service, policy: Policy, store: Store, actions: seq<Action>, client: nat)
    requires ReadsGuarded(store, actions)
    requires client in Run(service, policy, store, actions).clients
    ensures var request := Run(service, policy, store, actions).clients[client].request;
            !request.Creation? && !Unguarded(store, request.key)
  {
    var before, a := actions[..|actions| - 1], actions[|actions| - 1];
    assert a in actions;
    if !(a.Read? && !a.request.Creation? && Run(service, policy, store, actions).clients[client].request == a.request) {
      PendingIsGuarded(service, policy, store, before, client);
    }
  }

  lemma StepIsSerial(service: Service, policy: Policy, contents: map<Key, Resource>, s: System, a: Action)
    requires Inv(policy, s)
    requires a.Commit? && a.client in s.clients ==>
               VersionsNameStates(s.issued, s.store.versions, s.clients[a.client].request.key)
    requires Serial(service, policy, contents, s.log) == Some(s.store.contents)
    ensures var after := Next(service, policy, s, a); Serial(service, policy, contents, after.log) == Some(after.store.contents)
  {
    match a
    case Read(client, request) =>
    case Commit(client, now) =>
      if client in s.clients {
        var p := s.clients[client];
        FinishKeepsConsistent(service, policy, s.store, p.request, p.current, now);
        if CommitsNow(service, policy, s, client, now) {
          CommitActsOnWhatWasRead(service, policy, s, client, now);
          ServeKeepsConsistent(service, policy, s.store, p.request, "", now);
          SerialAppend(service, policy, contents, s.log, Entry(p.request, "", now, s.store.versions));
        }
      }
    case Post(typeName, content, id, now) =>
      var request := Creation(typeName, content);
      ServeKeepsConsistent(service, policy, s.store, request, id, now);
      SerialAppend(service, policy, contents, s.log, Entry(request, id, now, s.store.versions));
  }

  lemma {:induction false} IssuedStays(service: Service, policy: Policy, store: Store, before: seq<Action>, between: seq<Action>)
    ensures Run(service, policy, store, before).issued <= Run(service, policy, store, before + between).issued
  {
    if between == [] {
      assert before + between == before;
    } else {
      var last := |between| - 1;
      IssuedStays(service, policy, store, before, between[..last]);
      assert before + between == (before + between[..last]) + [between[last]];
      RunNext(service, policy, store, before + between[..last], between[last]);
    }
  }

  /** What a read returned is what a later state holds, when that state still has the version that was read. */
  lemma SameVersionIsSameState(service: Service, policy: Policy, store: Store, before: seq<Action>, between: seq<Action>, k: Key)
    requires Consistent(policy, store.contents) && !Unguarded(store, k)
    ensures var read, now := Run(service, policy, store, before).store.contents, Run(service, policy, store, before + between).store.contents;
            k in read ==>
              && read[k].meta.version.Some?
              && (k in now && now[k].meta.version == read[k].meta.version ==> now[k] == read[k])
  {
    RunKeepsInv(service, policy, store, before);
    RunKeepsInv(service, policy, store, before + between);
    IssuedStays(service, policy, store, before, between);
    RunNamesStates(service, policy, store, before + between, k);
  }

  // -- Conditional writes -----------------------------------------------

  /**
   * Conditions hold at commit time. The version that a committed request replaces or deletes is, at that moment, one of
   * those its If-Match lists; a star in If-None-Match never commits, and a list there does not hold that version,
   * provided that the client read a version. Without ETags, only "*" ever matches.
   */
  lemma ConditionsHoldAtCommit(service: Service, policy: Policy, store: Store, actions: seq<Action>, client: nat, now: int)
    requires Consistent(policy, store.contents)
    requires CommitsNow(service, policy, Run(service, policy, store, actions), client, now)
    ensures var s := Run(service, policy, store, actions);
            var p := s.clients[client];
            var ifMatch, ifNoneMatch := C.Parsed(p.request.conditions.ifMatch), C.Parsed(p.request.conditions.ifNoneMatch);
            && p.request.key in s.store.contents
            && var version := s.store.contents[p.request.key].meta.version;
            && (ifMatch.Some? && !ifMatch.value.any ==>
                  service.etagSupported && version.Some? && C.OpaqueTag(version.value) in ifMatch.value.tags)
            && (ifNoneMatch.Some? ==> !ifNoneMatch.value.any)
            && (ifNoneMatch.Some? && p.current.meta.version.Some? && service.etagSupported ==>
                  version == p.current.meta.version && C.OpaqueTag(version.value) !in ifNoneMatch.value.tags)
  {
    RunKeepsInv(service, policy, store, actions);
    var s := Run(service, policy, store, actions);
    var p := s.clients[client];
    FinishKeepsConsistent(service, policy, s.store, p.request, p.current, now);
  }

  /** A client commits over a version that matches its If-None-Match. */
  ghost predicate IgnoresIfNoneMatch(service: Service, policy: Policy, store: Store, key: Key, actions: seq<Action>, client: nat, now: int) {
    var s := Run(service, policy, store, actions);
    && CommitsNow(service, policy, s, client, now)
    && var request := s.clients[client].request;
    var ifNoneMatch := C.Parsed(request.conditions.ifNoneMatch);
    && request.key == key && key in s.store.contents && ifNoneMatch.Some?
    && C.Matches(ifNoneMatch.value, if service.etagSupported then s.store.contents[key].meta.version else None)
  }

  /** Only a loaded resource has no version. */
  ghost predicate VersionlessAreLoaded(store: Store, issued: set<Resource>) {
    forall a :: a in issued && a.meta.version.None? ==> KeyOf(a) in store.contents && store.contents[KeyOf(a)] == a
  }

  lemma {:induction false} VersionlessIsLoaded(service: Service, policy: Policy, store: Store, actions: seq<Action>)
    requires Consistent(policy, store.contents)
    ensures VersionlessAreLoaded(store, Run(service, policy, store, actions).issued)
  {
    if actions != [] {
      var before := actions[..|actions| - 1];
      VersionlessIsLoaded(service, policy, store, before);
      RunKeepsInv(service, policy, store, before);
      NextKeepsInv(service, policy, Run(service, policy, store, before), actions[|actions| - 1]);
    }
  }

  lemma IgnoredIsVersionless(service: Service, policy: Policy, store: Store, key: Key, actions: seq<Action>, client: nat, now: int)
    requires Consistent(policy, store.contents) && IgnoresIfNoneMatch(service, policy, store, key, actions, client, now)
    ensures service.etagSupported && key in store.contents && store.contents[key].meta.version.None?
  {
    ConditionsHoldAtCommit(service, policy, store, actions, client, now);
    RunKeepsInv(service, policy, store, actions);
    VersionlessIsLoaded(service, policy, store, actions);
    assert Run(service, policy, store, actions).clients[client].current.meta.version.None?;
  }

  /**
   * When an If-None-Match is ignored: never without ETags, nor over a resource that was not loaded without a version. For
   * any service with ETags, some run ignores one over such a resource, as soon as some write can store a new content there.
   */
  lemma IfNoneMatchIsIgnoredExactly(service: Service, policy: Policy, store: Store, key: Key)
    requires Consistent(policy, store.contents)
    ensures (exists actions, client, now :: IgnoresIfNoneMatch(service, policy, store, key, actions, client, now)) ==>
              service.etagSupported && key in store.contents && store.contents[key].meta.version.None?
    ensures service.etagSupported && Changeable(service, policy, store, key) && store.contents[key].meta.version.None? ==>
              exists actions, client, now :: IgnoresIfNoneMatch(service, policy, store, key, actions, client, now)
  {
    forall actions, client, now | IgnoresIfNoneMatch(service, policy, store, key, actions, client, now)
      ensures service.etagSupported && key in store.contents && store.contents[key].meta.version.None?
    {
      IgnoredIsVersionless(service, policy, store, key, actions, client, now);
    }
    if service.etagSupported && Changeable(service, policy, store, key) && store.contents[key].meta.version.None? {
      VersionlessIgnoresIfNoneMatch(service, policy, store, key);
    }
  }

  /** One client reads no version, another one gives the version that the first one excluded, and the first one commits. */
  lemma VersionlessIgnoresIfNoneMatch(service: Service, policy: Policy, store: Store, key: Key)
    requires Consistent(policy, store.contents) && service.etagSupported
    requires Changeable(service, policy, store, key) && store.contents[key].meta.version.None?
    ensures exists actions, client, now :: IgnoresIfNoneMatch(service, policy, store, key, actions, client, now)
  {
    var kind, payload :| StoresOver(service, policy, store.contents, key, kind, payload);
    var conditions := C.Conditions(None, Some(Version(store.versions)));
    VersionIsRead(store.versions);
    var first, second := Write(kind, key, payload, C.Conditions(None, None)), Write(kind, key, payload, conditions);
    var after := SecondClientOverwrites(service, policy, Initial(store), key, kind, payload, conditions);
    var actions := ThenThree(service, policy, store, [], Read(1, first), Read(2, second), Commit(1, 0));
    assert Run(service, policy, store, []) == Initial(store);
    assert IgnoresIfNoneMatch(service, policy, store, key, actions, 2, 0);
  }

  lemma VersionIsRead(n: nat)
    ensures C.Parsed(Some(Version(n))).Some? && !C.Parsed(Some(Version(n))).value.any
    ensures C.Matches(C.Parsed(Some(Version(n))).value, Some(Version(n)))
  {
    var item := C.Item("", C.Tag(C.Upper, Decimal(n), true), "");
    C.VersionIsATag(n);
    assert C.PrintList([item]) == C.PrintItem(item);
    C.ListRoundTrip([item]);
    C.VersionIsPrinted(n);
    assert [item][0].tag.text == item.tag.text;
  }

  // -- Versions ---------------------------------------------------------

  /** Over every run from an empty storage, a version names at most one pair of a resource and its content. */
  lemma {:induction false} VersionsAreNotReused(service: Service, policy: Policy, actions: seq<Action>)
    ensures var s := Run(service, policy, Store(map[], 1), actions);
            && (forall k :: k in s.store.contents ==> s.store.contents[k] in s.issued)
            && (forall a :: a in s.issued ==> a.meta.version.Some?)
            && forall a, b :: a in s.issued && b in s.issued && a.meta.version == b.meta.version ==> a == b
  {
    var store := Store(map[], 1);
    RunKeepsInv(service, policy, store, actions);
    if actions != [] {
      var before, a := actions[..|actions| - 1], actions[|actions| - 1];
      var s := Run(service, policy, store, before);
      VersionsAreNotReused(service, policy, before);
      RunKeepsInv(service, policy, store, before);
      NextKeepsInv(service, policy, s, a);
      forall r | r in s.issued
        ensures r.meta.version != Some(Version(s.store.versions))
      {
        RunNamesStates(service, policy, store, before, KeyOf(r));
      }
    }
  }

  // -- The versions of loaded resources ---------------------------------

  /** A PUT or a PATCH stores a new content over a resource, which clashes with no other one. */
  ghost predicate StoresOver(service: Service, policy: Policy, contents: map<Key, Resource>, key: Key, kind: Kind, payload: Data) {
    && key in contents
    && var applied := service.apply(kind, contents[key], payload);
    && applied.Ok? && applied.value.Some? && applied.value.value != contents[key].content
    && !Clashes(policy, contents, contents[key].(content := applied.value.value))
  }

  ghost predicate Changeable(service: Service, policy: Policy, store: Store, key: Key) {
    exists kind, payload :: StoresOver(service, policy, store.contents, key, kind, payload)
  }

  /** A client commits a request for a resource on another state of it than the one it read. */
  ghost predicate LosesAnUpdate(service: Service, policy: Policy, store: Store, key: Key, actions: seq<Action>, client: nat, now: int) {
    var s := Run(service, policy, store, actions);
    && CommitsNow(service, policy, s, client, now)
    && var p := s.clients[client];
    p.request.key == key && !(key in s.store.contents && s.store.contents[key] == p.current)
  }

  /** The unique values of a resource depend on its type and its content only. */
  lemma {:induction false} SameValuesFrom(policy: Policy, a: Resource, b: Resource, bindings: seq<Binding>)
    requires a.content == b.content
    ensures ValuesFrom(policy, a, bindings) == ValuesFrom(policy, b, bindings)
  {
    if bindings != [] {
      SameValuesFrom(policy, a, b, bindings[..|bindings| - 1]);
    }
  }

  lemma SameClashes(policy: Policy, contents: map<Key, Resource>, a: Resource, b: Resource)
    requires a.content == b.content && KeyOf(a) == KeyOf(b)
    ensures Clashes(policy, contents, a) <==> Clashes(policy, contents, b)
  {
    SameValuesFrom(policy, a, b, policy.unique(a.meta.resourceType));
    assert forall urn, value :: Owns(policy, a, urn, value) <==> Owns(policy, b, urn, value);
  }

  /** An identifier that no stored resource has. */
  lemma FreshId(contents: map<Key, Resource>) returns (id: string)
    ensures forall typeName :: Key(typeName, id) !in contents
  {
    var n := LongestId(contents.Keys);
    id := seq(n, _ => 'x');
    assert |id| == n;
  }

  lemma {:induction false} LongestId(keys: set<Key>) returns (n: nat)
    ensures forall k :: k in keys ==> |k.id| < n
  {
    if keys == {} {
      n := 0;
    } else {
      var k :| k in keys;
      var rest := LongestId(keys - {k});
      n := if |k.id| < rest then rest else |k.id| + 1;
    }
  }

  /**
   * A client posts the content of a resource again, under a new identifier. It is refused, or it has no unique value and
   * harms no other write; it spends a version in both cases.
   */
  lemma PostSpendsAVersion(service: Service, policy: Policy, s: System, key: Key, kind: Kind, payload: Data, id: string)
    requires Consistent(policy, s.store.contents) && StoresOver(service, policy, s.store.contents, key, kind, payload)
    requires Key(key.typeName, id) !in s.store.contents
    ensures var after := Next(service, policy, s, Post(key.typeName, s.store.contents[key].content, id, 0)).store;
            && after.versions == s.store.versions + 1
            && StoresOver(service, policy, after.contents, key, kind, payload) && after.contents[key] == s.store.contents[key]
  {
    var contents := s.store.contents;
    var current := contents[key];
    var copy := Resource(id, Meta(key.typeName, 0, 0, Some(Version(s.store.versions))), current.content);
    var next := current.(content := service.apply(kind, current, payload).value.value);
    SameValuesFrom(policy, copy, current, policy.unique(key.typeName));
    if !Clashes(policy, contents, copy) {
      forall urn, value
        ensures !Owns(policy, copy, urn, value)
      {
        assert Owns(policy, copy, urn, value) <==> Owns(policy, current, urn, value);
      }
      assert !Clashes(policy, contents[KeyOf(copy) := copy], next);
    }
  }

  lemma OneMorePost(service: Service, policy: Policy, store: Store, actions: seq<Action>, key: Key, kind: Kind, payload: Data)
    returns (more: seq<Action>)
    requires Consistent(policy, store.contents)
    requires StoresOver(service, policy, Run(service, policy, store, actions).store.contents, key, kind, payload)
    ensures var before, after := Run(service, policy, store, actions).store, Run(service, policy, store, more).store;
            && after.versions == before.versions + 1
            && StoresOver(service, policy, after.contents, key, kind, payload) && after.contents[key] == before.contents[key]
  {
    var s := Run(service, policy, store, actions);
    RunKeepsInv(service, policy, store, actions);
    var id := FreshId(s.store.contents);
    var post := Post(key.typeName, s.store.contents[key].content, id, 0);
    more := actions + [post];
    RunNext(service, policy, store, actions, post);
    PostSpendsAVersion(service, policy, s, key, kind, payload, id);
  }

  /** A run that advances the counter of the versions, and keeps what a write can store over a resource. */
  lemma {:induction false} PostsAdvance(service: Service, policy: Policy, store: Store, key: Key, kind: Kind, payload: Data, k: nat)
    returns (actions: seq<Action>)
    requires Consistent(policy, store.contents) && StoresOver(service, policy, store.contents, key, kind, payload)
    ensures var after := Run(service, policy, store, actions).store;
            && after.versions == store.versions + k
            && StoresOver(service, policy, after.contents, key, kind, payload) && after.contents[key] == store.contents[key]
  {
    if k == 0 {
      actions := [];
    } else {
      var before := PostsAdvance(service, policy, store, key, kind, payload, k - 1);
      actions := OneMorePost(service, policy, store, before, key, kind, payload);
    }
  }

  lemma RunNext(service: Service, policy: Policy, store: Store, actions: seq<Action>, a: Action)
    ensures Run(service, policy, store, actions + [a]) == Next(service, policy, Run(service, policy, store, actions), a)
  {
    assert (actions + [a])[..|actions|] == actions;
  }

  lemma ThenThree(service: Service, policy: Policy, store: Store, actions: seq<Action>, a: Action, b: Action, c: Action)
    returns (all: seq<Action>)
    ensures Run(service, policy, store, all) ==
            Next(service, policy, Next(service, policy, Next(service, policy, Run(service, policy, store, actions), a), b), c)
  {
    RunNext(service, policy, store, actions, a);
    RunNext(service, policy, store, actions + [a], b);
    RunNext(service, policy, store, actions + [a] + [b], c);
    all := actions + [a] + [b] + [c];
  }

  /** A write of the new content commits over the resource, when it expects no version or the one it finds. */
  lemma WriteCommits(service: Service, policy: Policy, store: Store, key: Key, current: Resource, request: Request)
    requires Consistent(policy, store.contents) && key in store.contents
    requires request.Write? && request.key == key
    requires CheckPreconditions(service, current, if request.kind == Replacement then C.Put else C.Patch, request.conditions) == Ok(true)
    requires var applied := service.apply(request.kind, current, request.payload);
             applied.Ok? && applied.value.Some? && !Clashes(policy, store.contents, store.contents[key].(content := applied.value.value))
    requires current.meta.version.None? || store.contents[key].meta.version == current.meta.version
    ensures var (after, outcome) := Finish(service, policy, store, request, current, 0);
            var next := Replaced(store, key, service.apply(request.kind, current, request.payload).value.value, 0);
            outcome == Stored(next) && after == Store(store.contents[key := next], store.versions + 1)
  {
    var content := service.apply(request.kind, current, request.payload).value.value;
    SameClashes(policy, store.contents, Replaced(store, key, content, 0), store.contents[key].(content := content));
  }

  /**
   * The first of two clients stores a new content under the version that both of them read. When they read none, the
   * second one expects none, and overwrites any.
   */
  lemma SecondClientOverwrites(service: Service, policy: Policy, s: System, key: Key, kind: Kind, payload: Data, conditions: C.Conditions)
    returns (after: System)
    requires Consistent(policy, s.store.contents) && StoresOver(service, policy, s.store.contents, key, kind, payload)
    requires CheckPreconditions(service, s.store.contents[key], if kind == Replacement then C.Put else C.Patch, conditions) == Ok(true)
    requires var version := s.store.contents[key].meta.version; version.None? || version == Some(Version(s.store.versions))
    ensures var first, second := Write(kind, key, payload, C.Conditions(None, None)), Write(kind, key, payload, conditions);
            after == Next(service, policy, Next(service, policy, Next(service, policy, s, Read(1, first)), Read(2, second)), Commit(1, 0))
            && 2 in after.clients && after.clients[2] == Pending(second, s.store.contents[key])
    ensures CommitsNow(service, policy, after, 2, 0)
    ensures key in after.store.contents && after.store.contents[key].meta.version == Some(Version(s.store.versions))
    ensures after.store.contents[key].content != s.store.contents[key].content
  {
    var first, second := Write(kind, key, payload, C.Conditions(None, None)), Write(kind, key, payload, conditions);
    var current := s.store.contents[key];
    var both := Next(service, policy, Next(service, policy, s, Read(1, first)), Read(2, second));
    WriteCommits(service, policy, s.store, key, current, first);
    after := Next(service, policy, both, Commit(1, 0));
    NewContentStaysFree(service, policy, s.store, key, kind, payload);
    WriteCommits(service, policy, after.store, key, current, second);
  }

  lemma NewContentStaysFree(service: Service, policy: Policy, store: Store, key: Key, kind: Kind, payload: Data)
    requires Consistent(policy, store.contents) && StoresOver(service, policy, store.contents, key, kind, payload)
    ensures var content := service.apply(kind, store.contents[key], payload).value.value;
            var next := Replaced(store, key, content, 0);
            var after := store.contents[key := next];
            Consistent(policy, after) && !Clashes(policy, after, after[key].(content := content))
  {
    var content := service.apply(kind, store.contents[key], payload).value.value;
    var next := Replaced(store, key, content, 0);
    SameClashes(policy, store.contents, next, store.contents[key].(content := content));
    PutKeepsConsistent(policy, store.contents, next);
  }

  lemma UnguardedLosesAnUpdate(service: Service, policy: Policy, store: Store, key: Key)
    requires Consistent(policy, store.contents)
    requires Unguarded(store, key) && Changeable(service, policy, store, key)
    ensures exists actions, client, now :: LosesAnUpdate(service, policy, store, key, actions, client, now)
  {
    var version := store.contents[key].meta.version;
    var k := 0;
    if version.Some? {
      var n: nat :| store.versions <= n && version == Some(Version(n));
      k := n - store.versions;
    }
    var kind, payload :| StoresOver(service, policy, store.contents, key, kind, payload);
    var posts := PostsAdvance(service, policy, store, key, kind, payload, k);
    RunKeepsInv(service, policy, store, posts);
    var none := C.Conditions(None, None);
    var request := Write(kind, key, payload, none);
    var after := SecondClientOverwrites(service, policy, Run(service, policy, store, posts), key, kind, payload, none);
    var actions := ThenThree(service, policy, store, posts, Read(1, request), Read(2, request), Commit(1, 0));
    assert LosesAnUpdate(service, policy, store, key, actions, 2, 0);
  }

  /**
   * When no update is lost. A loaded resource keeps the version it had. No run loses an update of a resource unless it was
   * loaded without a version, or with one that the counter has yet to issue; and then some run does, for any service and
   * any policy, as soon as some write can store a new content over it.
   */
  lemma UpdatesAreLostExactly(service: Service, policy: Policy, store: Store, key: Key)
    requires Consistent(policy, store.contents)
    ensures (exists actions, client, now :: LosesAnUpdate(service, policy, store, key, actions, client, now)) ==>
              Unguarded(store, key)
    ensures Unguarded(store, key) && Changeable(service, policy, store, key) ==>
              exists actions, client, now :: LosesAnUpdate(service, policy, store, key, actions, client, now)
  {
    if !Unguarded(store, key) {
      forall actions, client, now
        ensures !LosesAnUpdate(service, policy, store, key, actions, client, now)
      {
        var s := Run(service, policy, store, actions);
        if CommitsNow(service, policy, s, client, now) && s.clients[client].request.key == key {
          NoLostUpdate(service, policy, store, actions, client, now);
        }
      }
    } else if Changeable(service, policy, store, key) {
      UnguardedLosesAnUpdate(service, policy, store, key);
    }
  }

  // -- Pages ------------------------------------------------------------

  /** The resources that a search matches after some actions of a run. */
  ghost function Snapshot(service: Service, policy: Policy, store: Store, actions: seq<Action>, names: set<string>,
                          request: SearchRequest): seq<Resource>
  {
    Listing(Matching(policy, Run(service, policy, store, actions).store.contents, names, request.filter))
  }

  ghost function Snapshots(service: Service, policy: Policy, store: Store, actions: seq<Action>, times: seq<nat>,
                           names: set<string>, request: SearchRequest): seq<seq<Resource>>
    requires forall i :: 0 <= i < |times| ==> times[i] <= |actions|
  {
    seq(|times|, i requires 0 <= i < |times| => Snapshot(service, policy, store, actions[..times[i]], names, request))
  }

  /** No two resources that a search matches share an identifier, at any of its requests. */
  ghost predicate DistinctThroughout(service: Service, policy: Policy, store: Store, actions: seq<Action>, times: seq<nat>, names: set<string>)
    requires forall i :: 0 <= i < |times| ==> times[i] <= |actions|
  {
    forall i :: 0 <= i < |times| ==> DistinctIds(Run(service, policy, store, actions[..times[i]]).store.contents, names)
  }

  /** A resource is stored and matches, with an unchanged sort key, at every request of a walk. */
  ghost predicate KeptThroughout(service: Service, policy: Policy, store: Store, actions: seq<Action>, times: seq<nat>,
                                 names: set<string>, request: SearchRequest, k: Key, sortKey: SortKeys.SortKey)
    requires forall i :: 0 <= i < |times| ==> times[i] <= |actions|
  {
    forall i :: 0 <= i < |times| ==>
      var contents := Run(service, policy, store, actions[..times[i]]).store.contents;
      && k in contents && k.typeName in names && Matches(policy, request.filter, contents[k])
      && KeyFor(request)(contents[k]) == sortKey
  }

  lemma SnapshotsAreSearchable(service: Service, policy: Policy, store: Store, actions: seq<Action>, times: seq<nat>,
                               names: set<string>, request: SearchRequest)
    requires Consistent(policy, store.contents)
    requires forall i :: 0 <= i < |times| ==> times[i] <= |actions|
    requires DistinctThroughout(service, policy, store, actions, times, names)
    ensures AllSearchable(Snapshots(service, policy, store, actions, times, names, request), KeyFor(request))
  {
    var snapshots := Snapshots(service, policy, store, actions, times, names, request);
    forall i | 0 <= i < |times|
      ensures Searchable(snapshots[i], KeyFor(request))
    {
      RunKeepsInv(service, policy, store, actions[..times[i]]);
      var contents := Run(service, policy, store, actions[..times[i]]).store.contents;
      ListingIsExact(Matching(policy, contents, names, request.filter));
      MatchingSearchable(policy, contents, names, request, snapshots[i]);
    }
  }

  lemma KeptIsStable(service: Service, policy: Policy, store: Store, actions: seq<Action>, times: seq<nat>,
                     names: set<string>, request: SearchRequest, k: Key, sortKey: SortKeys.SortKey)
    requires forall i :: 0 <= i < |times| ==> times[i] <= |actions|
    requires KeptThroughout(service, policy, store, actions, times, names, request, k, sortKey)
    ensures Stable(Snapshots(service, policy, store, actions, times, names, request), KeyFor(request), sortKey)
  {
    var snapshots := Snapshots(service, policy, store, actions, times, names, request);
    forall i | 0 <= i < |snapshots|
      ensures Holds(snapshots[i], KeyFor(request), sortKey)
    {
      var contents := Run(service, policy, store, actions[..times[i]]).store.contents;
      ListingIsExact(Matching(policy, contents, names, request.filter));
      assert contents[k] in Matching(policy, contents, names, request.filter);
      assert contents[k] in multiset(snapshots[i]);
    }
  }

  /** The resource comes exactly once, whatever its sort key. */
  ghost predicate ReturnedOnce(rs: seq<Resource>, k: Key) {
    exists p :: 0 <= p < |rs| && KeyOf(rs[p]) == k && forall q :: 0 <= q < |rs| && q != p ==> KeyOf(rs[q]) != k
  }

  /** A resource of a snapshot has the sort key of a kept resource exactly when it is that resource. */
  lemma KeptIsItsKey(service: Service, policy: Policy, store: Store, actions: seq<Action>, times: seq<nat>,
                     names: set<string>, request: SearchRequest, k: Key, sortKey: SortKeys.SortKey, i: nat, r: Resource)
    requires Consistent(policy, store.contents)
    requires forall i :: 0 <= i < |times| ==> times[i] <= |actions|
    requires DistinctThroughout(service, policy, store, actions, times, names)
    requires KeptThroughout(service, policy, store, actions, times, names, request, k, sortKey)
    requires i < |times| && r in Snapshots(service, policy, store, actions, times, names, request)[i]
    ensures KeyFor(request)(r) == sortKey <==> KeyOf(r) == k
  {
    RunKeepsInv(service, policy, store, actions[..times[i]]);
    var contents := Run(service, policy, store, actions[..times[i]]).store.contents;
    var matching := Matching(policy, contents, names, request.filter);
    ListingIsExact(matching);
    assert r in multiset(Listing(matching));
    assert KeyOf(r) in contents && contents[KeyOf(r)] == r && KeyOf(r).typeName in names;
    assert KeyFor(request)(contents[k]) == sortKey && KeyOf(contents[k]) == k;
  }

  lemma OnceByKey(rs: seq<Resource>, request: SearchRequest, k: Key, sortKey: SortKeys.SortKey)
    requires ExactlyOnce(rs, KeyFor(request), sortKey)
    requires forall r :: r in rs ==> (KeyFor(request)(r) == sortKey <==> KeyOf(r) == k)
    ensures ReturnedOnce(rs, k)
  {
    var p :| 0 <= p < |rs| && KeyFor(request)(rs[p]) == sortKey
             && forall q :: 0 <= q < |rs| && q != p ==> KeyFor(request)(rs[q]) != sortKey;
    assert rs[p] in rs && KeyOf(rs[p]) == k;
    assert forall q :: 0 <= q < |rs| && q != p ==> rs[q] in rs && KeyOf(rs[q]) != k;
  }

  /**
   * Stable pages in every run. The pages of a walk are requested at any moments of a run of the clients: the resources
   * it returns follow the sort order strictly, and a walk that ends returns exactly once each resource that was stored
   * and matched, with an unchanged sort key, at every request.
   */
  lemma PagesAreStableInEveryRun(service: Service, policy: Policy, store: Store, actions: seq<Action>, times: seq<nat>,
                                 names: set<string>, request: SearchRequest, pages: seq<SearchPage<Resource>>)
    requires Consistent(policy, store.contents)
    requires forall i :: 0 <= i < |times| ==> times[i] <= |actions|
    requires DistinctThroughout(service, policy, store, actions, times, names)
    requires request.window.cursor && request.window.count != Some(0)
    requires Forward(SortKeys.Order(Descending(request)), request.window, KeyFor(request), None,
                     Snapshots(service, policy, store, actions, times, names, request), pages)
    ensures Sorting.Ascending(Returned(pages), KeyFor(request), SortKeys.Order(Descending(request)))
    ensures Last(pages).next.None? ==>
              forall k, sortKey :: KeptThroughout(service, policy, store, actions, times, names, request, k, sortKey) ==>
                ExactlyOnce(Returned(pages), KeyFor(request), sortKey) && ReturnedOnce(Returned(pages), k)
  {
    SortKeys.OrderIsStrictAndTotal(Descending(request));
    SnapshotsAreSearchable(service, policy, store, actions, times, names, request);
    var snapshots := Snapshots(service, policy, store, actions, times, names, request);
    ForwardWalkIsStable(SortKeys.Order(Descending(request)), request.window, KeyFor(request), snapshots, pages);
    forall k, sortKey |
      Last(pages).next.None? && KeptThroughout(service, policy, store, actions, times, names, request, k, sortKey)
      ensures ExactlyOnce(Returned(pages), KeyFor(request), sortKey) && ReturnedOnce(Returned(pages), k)
    {
      KeptIsStable(service, policy, store, actions, times, names, request, k, sortKey);
      forall r | r in Returned(pages)
        ensures KeyFor(request)(r) == sortKey <==> KeyOf(r) == k
      {
        var i := ReturnedWasThere(SortKeys.Order(Descending(request)), request.window, KeyFor(request), None, snapshots, pages, r);
        KeptIsItsKey(service, policy, store, actions, times, names, request, k, sortKey, i, r);
      }
      OnceByKey(Returned(pages), request, k, sortKey);
    }
  }

  /** The same for a walk along previous, over the resources before the page it starts from. */
  lemma PreviousPagesAreStableInEveryRun(service: Service, policy: Policy, store: Store, actions: seq<Action>, times: seq<nat>,
                                         names: set<string>, request: SearchRequest, anchor: SortKeys.SortKey,
                                         pages: seq<SearchPage<Resource>>)
    requires Consistent(policy, store.contents)
    requires forall i :: 0 <= i < |times| ==> times[i] <= |actions|
    requires DistinctThroughout(service, policy, store, actions, times, names)
    requires request.window.cursor && request.window.count != Some(0) && SortKeys.Canonical(anchor)
    requires Backward(SortKeys.Order(Descending(request)), request.window, KeyFor(request),
                      Some(SortKeys.Position(SortKeys.Previous, anchor)),
                      Snapshots(service, policy, store, actions, times, names, request), pages)
    ensures Sorting.Ascending(ReturnedBackward(pages), KeyFor(request), SortKeys.Order(Descending(request)))
    ensures Last(pages).previous.None? ==>
              forall k, sortKey ::
                && KeptThroughout(service, policy, store, actions, times, names, request, k, sortKey)
                && SortKeys.Order(Descending(request))(sortKey, anchor) ==>
                  ExactlyOnce(ReturnedBackward(pages), KeyFor(request), sortKey) && ReturnedOnce(ReturnedBackward(pages), k)
  {
    SortKeys.OrderIsStrictAndTotal(Descending(request));
    SnapshotsAreSearchable(service, policy, store, actions, times, names, request);
    var snapshots := Snapshots(service, policy, store, actions, times, names, request);
    BackwardWalkIsStable(SortKeys.Order(Descending(request)), request.window, KeyFor(request), anchor, snapshots, pages);
    forall k, sortKey |
      && Last(pages).previous.None? && SortKeys.Order(Descending(request))(sortKey, anchor)
      && KeptThroughout(service, policy, store, actions, times, names, request, k, sortKey)
      ensures ExactlyOnce(ReturnedBackward(pages), KeyFor(request), sortKey) && ReturnedOnce(ReturnedBackward(pages), k)
    {
      KeptIsStable(service, policy, store, actions, times, names, request, k, sortKey);
      forall r | r in ReturnedBackward(pages)
        ensures KeyFor(request)(r) == sortKey <==> KeyOf(r) == k
      {
        var i := ReturnedBackwardWasThere(SortKeys.Order(Descending(request)), request.window, KeyFor(request),
                                          Some(SortKeys.Position(SortKeys.Previous, anchor)), snapshots, pages, r);
        KeptIsItsKey(service, policy, store, actions, times, names, request, k, sortKey, i, r);
      }
      OnceByKey(ReturnedBackward(pages), request, k, sortKey);
    }
  }
}
