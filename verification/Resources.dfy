/** The stored resources, the policy that compares their values, and what each storage call does to them. */
module Resources {
  import opened Results
  import opened Sorting
  import SortKeys
  import opened Paging
  import opened Versions

  // -- Resources --------------------------------------------------------

  /** A client value: a string, a list, a dict, a model with its fields, or any other value. */
  datatype Data =
    | Str(text: string)
    | List(items: seq<Data>)
    | Dict(names: seq<string>, items: seq<Data>)
    | Model(name: string, fields: seq<string>, items: seq<Data>)
    | Other(token: int)

  /** What a resource is stored under: its resource type and its identifier. */
  datatype Key = Key(typeName: string, id: string)

  /** A loaded resource may have no version; one that a write stored always has. */
  datatype Meta = Meta(resourceType: string, created: int, lastModified: int, version: Option<string>)

  datatype Resource = Resource(id: string, meta: Meta, content: Data)

  function KeyOf(r: Resource): Key {
    Key(r.meta.resourceType, r.id)
  }

  /** An attribute of the schema that declares it. */
  datatype Binding = Binding(model: string, urn: string)

  /**
   * How the attributes of a resource are read and compared, and which ones are unique for a resource type.
   * A value that cannot be compared has no comparable form.
   */
  datatype Policy = Policy(
    get: (Data, Binding) -> Option<Data>,
    comparable: (Binding, Data) -> Option<Data>,
    unique: string -> seq<Binding>)

  /** The value a resource holds for an attribute, in the form it is compared in. */
  function Held(policy: Policy, r: Resource, b: Binding): Option<Data> {
    var value := policy.get(r.content, b);
    if value.None? then None else policy.comparable(b, value.value)
  }

  function ValuesFrom(policy: Policy, r: Resource, bindings: seq<Binding>): map<string, Data> {
    if bindings == [] then map[]
    else
      var b := bindings[|bindings| - 1];
      var values := ValuesFrom(policy, r, bindings[..|bindings| - 1]);
      var value := Held(policy, r, b);
      if value.None? then values else values[b.urn := value.value]
  }

  /** The unique values of a resource, by the URN of their attribute. */
  function ValuesOf(policy: Policy, r: Resource): map<string, Data> {
    ValuesFrom(policy, r, policy.unique(r.meta.resourceType))
  }

  /** Whether a resource has this value for a unique attribute. */
  predicate Owns(policy: Policy, r: Resource, urn: string, value: Data) {
    urn in ValuesOf(policy, r) && ValuesOf(policy, r)[urn] == value
  }

  /**
   * A resource has a unique value under a URN exactly when it holds a comparable one for an attribute of that URN; the
   * last such attribute gives it.
   */
  lemma {:induction false} ValuesAreHeld(policy: Policy, r: Resource, bindings: seq<Binding>, urn: string)
    ensures var values := ValuesFrom(policy, r, bindings);
            && (urn in values <==> exists i :: 0 <= i < |bindings| && HoldsValue(policy, r, bindings[i], urn))
            && (urn in values ==>
                  exists i :: 0 <= i < |bindings| && HoldsValue(policy, r, bindings[i], urn)
                    && policy.comparable(bindings[i], policy.get(r.content, bindings[i]).value) == Some(values[urn])
                    && forall j :: i < j < |bindings| ==> !HoldsValue(policy, r, bindings[j], urn))
  {
    if bindings != [] {
      var last := |bindings| - 1;
      var rest := bindings[..last];
      ValuesAreHeld(policy, r, rest, urn);
      assert forall i :: 0 <= i < last ==> rest[i] == bindings[i];
      if HoldsValue(policy, r, bindings[last], urn) {
        assert bindings[last].urn == urn && urn in ValuesFrom(policy, r, bindings);
      } else if urn in ValuesFrom(policy, r, bindings) {
        var i :| 0 <= i < |rest| && HoldsValue(policy, r, rest[i], urn)
                 && policy.comparable(rest[i], policy.get(r.content, rest[i]).value) == Some(ValuesFrom(policy, r, rest)[urn])
                 && forall j :: i < j < |rest| ==> !HoldsValue(policy, r, rest[j], urn);
        assert HoldsValue(policy, r, bindings[i], urn);
      }
    }
  }

  /** The resource has a comparable value for the attribute, whose URN this is. */
  predicate HoldsValue(policy: Policy, r: Resource, b: Binding, urn: string) {
    b.urn == urn && policy.get(r.content, b).Some? && policy.comparable(b, policy.get(r.content, b).value).Some?
  }

  // -- Storage calls ----------------------------------------------------

  /** The stored resources, and the number that the next version is made of. */
  datatype Store = Store(contents: map<Key, Resource>, versions: nat)

  /** Whether another stored resource, of any type, holds an equal value under the same attribute URN. */
  ghost predicate Clashes(policy: Policy, contents: map<Key, Resource>, r: Resource) {
    exists k, urn, value ::
      k in contents && k != KeyOf(r) && Owns(policy, contents[k], urn, value) && Owns(policy, r, urn, value)
  }

  /** Each resource is under its own key, and no two resources share a unique value. */
  ghost predicate Consistent(policy: Policy, contents: map<Key, Resource>) {
    && (forall k :: k in contents ==> KeyOf(contents[k]) == k)
    && (forall j, k, urn, value ::
          j in contents && k in contents && Owns(policy, contents[j], urn, value) && Owns(policy, contents[k], urn, value) ==>
            j == k)
  }

  ghost function Put(policy: Policy, store: Store, r: Resource): (Store, Result<Resource>) {
    var spent := store.(versions := store.versions + 1);
    if Clashes(policy, store.contents, r) then (spent, Err(UniquenessTaken))
    else (spent.(contents := store.contents[KeyOf(r) := r]), Ok(r))
  }

  ghost function Create(policy: Policy, store: Store, typeName: string, content: Data, id: string, now: int)
    : (Store, Result<Resource>)
  {
    Put(policy, store, Resource(id, Meta(typeName, now, now, Some(Version(store.versions))), content))
  }

  function Get(store: Store, key: Key): Result<Resource> {
    if key in store.contents then Ok(store.contents[key]) else Err(NotFound)
  }

  function CheckVersion(stored: Resource, expected: Option<string>): Result<()> {
    if expected.Some? && stored.meta.version != expected then Err(PreconditionFailed) else Ok(())
  }

  ghost function Update(policy: Policy, store: Store, key: Key, content: Data, expected: Option<string>, now: int)
    : (Store, Result<Resource>)
  {
    if key !in store.contents then (store, Err(NotFound))
    else
      var stored := store.contents[key];
      if CheckVersion(stored, expected).Err? then (store, Err(PreconditionFailed))
      else
        Put(policy, store, Replaced(store, key, content, now))
  }

  ghost function Delete(store: Store, key: Key, expected: Option<string>): (Store, Result<()>) {
    if key !in store.contents then (store, Err(NotFound))
    else if CheckVersion(store.contents[key], expected).Err? then (store, Err(PreconditionFailed))
    else (store.(contents := store.contents - {key}), Ok(()))
  }

  /** Storing a resource that clashes with no other keeps the resources consistent. */
  lemma PutKeepsConsistent(policy: Policy, contents: map<Key, Resource>, r: Resource)
    requires Consistent(policy, contents) && !Clashes(policy, contents, r)
    ensures Consistent(policy, contents[KeyOf(r) := r])
  {
    var after := contents[KeyOf(r) := r];
    forall j, k, urn, value |
      j in after && k in after && Owns(policy, after[j], urn, value) && Owns(policy, after[k], urn, value)
      ensures j == k
    {
    }
  }

  /** Every storage call keeps the resources consistent, and a refused one keeps them all; it may only spend a version. */
  lemma CallsKeepConsistent(policy: Policy, store: Store, key: Key, content: Data, expected: Option<string>, now: int)
    requires Consistent(policy, store.contents)
    ensures var (after, r) := Create(policy, store, key.typeName, content, key.id, now);
            && Consistent(policy, after.contents) && store.versions <= after.versions
            && (r.Err? ==> after.contents == store.contents)
            && (r.Ok? ==> after.contents == store.contents[key := r.value] && KeyOf(r.value) == key)
    ensures var (after, r) := Update(policy, store, key, content, expected, now);
            && Consistent(policy, after.contents) && store.versions <= after.versions
            && (r.Err? ==> after.contents == store.contents)
            && (r.Ok? ==> key in store.contents && after.contents == store.contents[key := r.value] && KeyOf(r.value) == key)
    ensures var (after, r) := Delete(store, key, expected);
            && Consistent(policy, after.contents) && store.versions == after.versions
            && (r.Err? ==> after == store)
            && (r.Ok? ==> key in store.contents && after.contents == store.contents - {key})
  {
    var created := Resource(key.id, Meta(key.typeName, now, now, Some(Version(store.versions))), content);
    if !Clashes(policy, store.contents, created) {
      PutKeepsConsistent(policy, store.contents, created);
    }
    if key in store.contents {
      var meta := store.contents[key].meta.(lastModified := now, version := Some(Version(store.versions)));
      var updated := Resource(key.id, meta, content);
      assert KeyOf(updated) == key;
      if !Clashes(policy, store.contents, updated) {
        PutKeepsConsistent(policy, store.contents, updated);
      }
    }
  }

  /** What a replacement stores: the content, under the next version, with the dates of its creation and of the write. */
  function Replaced(store: Store, key: Key, content: Data, now: int): Resource
    requires key in store.contents
  {
    Resource(key.id, store.contents[key].meta.(lastModified := now, version := Some(Version(store.versions))), content)
  }

  /** A creation is refused exactly when it shares a unique value with another stored resource, of any type. */
  lemma CreationIsExact(policy: Policy, store: Store, typeName: string, content: Data, id: string, now: int)
    ensures var r := Create(policy, store, typeName, content, id, now).1;
            var others := store.contents - {Key(typeName, id)};
            var created := Resource(id, Meta(typeName, now, now, Some(Version(store.versions))), content);
            && (r.Err? <==>
                  exists k, urn, value :: k in others && Owns(policy, others[k], urn, value) && Owns(policy, created, urn, value))
            && (r.Ok? ==> r.value == created)
  {
    var created := Resource(id, Meta(typeName, now, now, Some(Version(store.versions))), content);
    assert KeyOf(created) == Key(typeName, id);
    OthersClash(policy, store.contents, created);
  }

  /**
   * A replacement is refused exactly when there is nothing to replace, when the version is not the expected one, or when
   * it shares a unique value with another stored resource. It keeps the creation date.
   */
  lemma ReplacementIsExact(policy: Policy, store: Store, key: Key, content: Data, expected: Option<string>, now: int)
    requires Consistent(policy, store.contents)
    ensures var r := Update(policy, store, key, content, expected, now).1;
            && (r == Err(NotFound) <==> key !in store.contents)
            && (key in store.contents ==>
                  var guarded := expected.None? || store.contents[key].meta.version == expected;
                  var others := store.contents - {key};
                  && (r == Err(PreconditionFailed) <==> !guarded)
                  && (r == Err(UniquenessTaken) <==>
                        guarded && exists k, urn, value ::
                          k in others && Owns(policy, others[k], urn, value)
                          && Owns(policy, Replaced(store, key, content, now), urn, value))
                  && (r.Ok? ==>
                        var meta := Meta(key.typeName, store.contents[key].meta.created, now, Some(Version(store.versions)));
                        r.value == Resource(key.id, meta, content)))
  {
    if key in store.contents {
      assert KeyOf(Replaced(store, key, content, now)) == key;
      OthersClash(policy, store.contents, Replaced(store, key, content, now));
    }
  }

  /** A deletion is refused exactly when there is nothing to delete, or when the version is not the expected one. */
  lemma DeletionIsExact(store: Store, key: Key, expected: Option<string>)
    ensures var (after, r) := Delete(store, key, expected);
            && (r == Err(NotFound) <==> key !in store.contents)
            && (r == Err(PreconditionFailed) <==>
                  key in store.contents && expected.Some? && store.contents[key].meta.version != expected)
            && (r.Ok? <==> key in store.contents && (expected.None? || store.contents[key].meta.version == expected))
            && after == if r.Ok? then Store(store.contents - {key}, store.versions) else store
  {
  }

  lemma OthersClash(policy: Policy, contents: map<Key, Resource>, r: Resource)
    ensures var others := contents - {KeyOf(r)};
            Clashes(policy, contents, r) <==>
              exists k, urn, value :: k in others && Owns(policy, others[k], urn, value) && Owns(policy, r, urn, value)
  {
    var others := contents - {KeyOf(r)};
    if Clashes(policy, contents, r) {
      var k, urn, value :| k in contents && k != KeyOf(r) && Owns(policy, contents[k], urn, value) && Owns(policy, r, urn, value);
      assert k in others && Owns(policy, others[k], urn, value);
    }
  }

  // -- Searches ---------------------------------------------------------

  /** A filter that compares one string attribute to a string with eq, or any other one. */
  datatype Filter =
    | Equality(binding: Binding, value: string)
    | Test(test: Resource -> bool)

  datatype SearchRequest = SearchRequest(
    filter: Option<Filter>,
    sortBy: Option<Resource -> Option<SortKeys.Scalar>>,
    descendingOrder: bool,
    window: Window)

  predicate Matches(policy: Policy, filter: Option<Filter>, r: Resource) {
    match filter
    case None => true
    case Some(Test(test)) => test(r)
    case Some(Equality(binding, value)) =>
      var wanted := policy.comparable(binding, Str(value));
      wanted.Some? && Held(policy, r, binding) == wanted
  }

  predicate Descending(request: SearchRequest) {
    request.sortBy.Some? && request.descendingOrder
  }

  function SortValue(request: SearchRequest, r: Resource): Option<SortKeys.Scalar> {
    if request.sortBy.None? then None else request.sortBy.value(r)
  }

  /** The key that orders a resource: its sort value, missing values last, then its identifier. */
  function KeyFor(request: SearchRequest): Resource -> SortKeys.SortKey {
    (r: Resource) =>
      var value := SortValue(request, r);
      SortKeys.SortKey(value.None?, if value.Some? then value.value else SortKeys.Text(""), r.id)
  }

  /** The page of a search, from the resources it found, in the order it walked them. */
  function PageOf(request: SearchRequest, position: Option<SortKeys.Json>, found: seq<Resource>): Result<SearchPage<Resource>> {
    Page(SortKeys.Order(Descending(request)), request.window, KeyFor(request), position, found)
  }

  /** The resources of some types that match a filter. */
  ghost function Matching(policy: Policy, contents: map<Key, Resource>, names: set<string>, filter: Option<Filter>): set<Resource> {
    set k | k in contents && k.typeName in names && Matches(policy, filter, contents[k]) :: contents[k]
  }

  ghost function Listing<T(!new)>(s: set<T>): seq<T> {
    if s == {} then [] else var x :| x in s; [x] + Listing(s - {x})
  }

  /** A search that scans every resource of the types, filters, sorts and slices. */
  ghost function NaiveSearch(policy: Policy, contents: map<Key, Resource>, names: set<string>, request: SearchRequest,
                             position: Option<SortKeys.Json>): Result<SearchPage<Resource>>
  {
    PageOf(request, position, Listing(Matching(policy, contents, names, request.filter)))
  }

  /** No two resources of the searched types share an identifier. */
  ghost predicate DistinctIds(contents: map<Key, Resource>, names: set<string>) {
    forall j, k :: j in contents && k in contents && j.typeName in names && k.typeName in names && j.id == k.id ==> j == k
  }

  lemma {:induction false} ListingIsExact<T(!new)>(s: set<T>)
    ensures multiset(Listing(s)) == multiset(s)
  {
    if s != {} {
      var x := Listing(s)[0];
      assert x in s && Listing(s) == [x] + Listing(s - {x});
      ListingIsExact(s - {x});
      assert multiset(s) == multiset{x} + multiset(s - {x});
    }
  }

  lemma MatchingSearchable(policy: Policy, contents: map<Key, Resource>, names: set<string>, request: SearchRequest,
                           found: seq<Resource>)
    requires Consistent(policy, contents) && DistinctIds(contents, names)
    requires multiset(found) == multiset(Matching(policy, contents, names, request.filter))
    ensures Searchable(found, KeyFor(request))
  {
    var s := Matching(policy, contents, names, request.filter);
    forall x, y | x in multiset(found) && y in multiset(found) && KeyFor(request)(x) == KeyFor(request)(y)
      ensures x == y
    {
      assert x in s && y in s;
      assert KeyOf(x) in contents && KeyOf(y) in contents && x.id == y.id;
    }
    forall r | r in found
      ensures SortKeys.Canonical(KeyFor(request)(r))
    {
    }
  }

  /**
   * A search matches the stored resources of its types that pass its filter: any of them, those that a test accepts, or
   * those whose value for an attribute compares equal to a text.
   */
  lemma MatchingIsExact(policy: Policy, contents: map<Key, Resource>, names: set<string>, filter: Option<Filter>, r: Resource)
    requires Consistent(policy, contents)
    ensures r in Matching(policy, contents, names, filter) <==>
              && KeyOf(r) in contents && contents[KeyOf(r)] == r && r.meta.resourceType in names
              && match filter
                 case None => true
                 case Some(Test(test)) => test(r)
                 case Some(Equality(b, text)) =>
                   && policy.comparable(b, Str(text)).Some? && policy.get(r.content, b).Some?
                   && policy.comparable(b, policy.get(r.content, b).value) == policy.comparable(b, Str(text))
  {
  }

  /** A sort value is not after another one: numbers and dates by value, false before true, texts letter by letter. */
  ghost predicate NotAfter(a: SortKeys.Scalar, b: SortKeys.Scalar) {
    match (a, b)
    case (Flag(x), Flag(y)) => x ==> y
    case (Number(x), Number(y)) => x <= y
    case (Moment(x), Moment(y)) => x <= y
    case (Text(x), Text(y)) => SortKeys.LettersNotAfter(x, y)
    case _ => true
  }

  /**
   * The resources of every page follow each other by sort value, and by identifier when they share one; a search that
   * sorts by an attribute in descending order reverses both.
   */
  lemma PageIsOrdered(request: SearchRequest, position: Option<SortKeys.Json>, found: seq<Resource>, i: nat, j: nat)
    requires PageOf(request, position, found).Ok?
    requires i < j < |PageOf(request, position, found).value.resources|
    ensures var rs := PageOf(request, position, found).value.resources;
            var (a, b) := if request.sortBy.Some? && request.descendingOrder then (rs[j], rs[i]) else (rs[i], rs[j]);
            && (request.sortBy.None? ==> SortKeys.LettersNotAfter(a.id, b.id))
            && (request.sortBy.Some? ==>
                  var x, y := request.sortBy.value(a), request.sortBy.value(b);
                  && (x.Some? && y.Some? ==> NotAfter(x.value, y.value))
                  && (x == y ==> SortKeys.LettersNotAfter(a.id, b.id)))
  {
    var key, lt := KeyFor(request), SortKeys.Order(Descending(request));
    SortKeys.OrderIsStrictAndTotal(Descending(request));
    SortWeaklyAscending(found, key, lt);
    var rs := PageOf(request, position, found).value.resources;
    var start := PageIsSlice(lt, request.window, key, position, found);
    assert !lt(key(rs[j]), key(rs[i]));
    var (a, b) := if request.sortBy.Some? && request.descendingOrder then (rs[j], rs[i]) else (rs[i], rs[j]);
    assert !SortKeys.KeyLess(key(b), key(a));
    SortKeys.NotLessText(a.id, b.id);
    if SortValue(request, a).Some? && SortValue(request, b).Some? {
      var x, y := SortValue(request, a).value, SortValue(request, b).value;
      if x.Text? && y.Text? {
        SortKeys.NotLessText(x.text, y.text);
      }
    }
  }

  /** On every page, resources without sort value come last in an ascending search, and first in a descending one. */
  lemma MissingValuesAtOneEnd(request: SearchRequest, position: Option<SortKeys.Json>, found: seq<Resource>, i: nat, j: nat)
    requires PageOf(request, position, found).Ok?
    requires i < j < |PageOf(request, position, found).value.resources|
    ensures var rs := PageOf(request, position, found).value.resources;
            if Descending(request) then SortValue(request, rs[j]).None? ==> SortValue(request, rs[i]).None?
            else SortValue(request, rs[i]).None? ==> SortValue(request, rs[j]).None?
  {
    var key, lt := KeyFor(request), SortKeys.Order(Descending(request));
    SortKeys.OrderIsStrictAndTotal(Descending(request));
    SortWeaklyAscending(found, key, lt);
    var rs := PageOf(request, position, found).value.resources;
    var start := PageIsSlice(lt, request.window, key, position, found);
    assert !lt(key(rs[j]), key(rs[i]));
    if SortValue(request, rs[i]).None? != SortValue(request, rs[j]).None? {
      if SortValue(request, rs[i]).None? {
        SortKeys.MissingValuesAtOneEnd(key(rs[i]), key(rs[j]));
      } else {
        SortKeys.MissingValuesAtOneEnd(key(rs[j]), key(rs[i]));
      }
    }
  }

  /** A search by index returns the matching resources in sort order, from its index on and up to its count. */
  lemma IndexSearchIsExact(policy: Policy, contents: map<Key, Resource>, names: set<string>, request: SearchRequest,
                           position: Option<SortKeys.Json>)
    requires !request.window.cursor
    ensures NaiveSearch(policy, contents, names, request, position).Ok?
    ensures var page := NaiveSearch(policy, contents, names, request, position).value;
            var matching := Matching(policy, contents, names, request.filter);
            var sorted := Sort(Listing(matching), KeyFor(request), SortKeys.Order(Descending(request)));
            var start, count := request.window.startIndex0, request.window.count;
            var left := if start < |matching| then |matching| - start else 0;
            && page.total == |matching| && page.next.None? && page.previous.None?
            && |page.resources| == (if count.None? || left <= count.value then left else count.value)
            && forall i :: 0 <= i < |page.resources| ==> start + i < |sorted| && page.resources[i] == sorted[start + i]
  {
    var lt := SortKeys.Order(Descending(request));
    var matching := Matching(policy, contents, names, request.filter);
    ListingLength(matching);
    SortLength(Listing(matching), KeyFor(request), lt);
    TotalIsEverything(lt, request.window, KeyFor(request), position, Listing(matching));
    IndexPageIsExact(lt, request.window, KeyFor(request), position, Listing(matching));
  }

  lemma ListingLength<T(!new)>(s: set<T>)
    ensures |Listing(s)| == |s|
  {
    ListingIsExact(s);
    assert |multiset(Listing(s))| == |Listing(s)| && |multiset(s)| == |s|;
  }

  /** Any walk over exactly the matching resources gives the page of the naive search. */
  lemma AnyWalkIsNaive(policy: Policy, contents: map<Key, Resource>, names: set<string>, request: SearchRequest,
                       position: Option<SortKeys.Json>, found: seq<Resource>)
    requires Consistent(policy, contents) && DistinctIds(contents, names)
    requires multiset(found) == multiset(Matching(policy, contents, names, request.filter))
    ensures PageOf(request, position, found) == NaiveSearch(policy, contents, names, request, position)
  {
    var s := Matching(policy, contents, names, request.filter);
    ListingIsExact(s);
    MatchingSearchable(policy, contents, names, request, found);
    SortKeys.OrderIsStrictAndTotal(Descending(request));
    PageForgetsTheWalk(SortKeys.Order(Descending(request)), request.window, KeyFor(request), position, found, Listing(s));
  }
}
