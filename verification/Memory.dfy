/** The storage that keeps the resources in memory, with an index of the unique values and one of the equal values. */
module Memory {
  import opened Results
  import opened Resources
  import opened Paging
  import opened Versions
  import SortKeys
  import Sorting

  // -- The indexes, as dictionaries of dictionaries ---------------------

  predicate Has(resources: map<string, map<string, Resource>>, k: Key) {
    k.typeName in resources && k.id in resources[k.typeName]
  }

  function OwnerOf(owners: map<string, map<Data, Key>>, urn: string, value: Data): Option<Key> {
    if urn in owners && value in owners[urn] then Some(owners[urn][value]) else None
  }

  function SetOwner(owners: map<string, map<Data, Key>>, urn: string, value: Data, k: Key): (after: map<string, map<Data, Key>>)
    ensures forall u, v :: OwnerOf(after, u, v) == if u == urn && v == value then Some(k) else OwnerOf(owners, u, v)
  {
    owners[urn := (if urn in owners then owners[urn] else map[])[value := k]]
  }

  /** Deleting the owner of a value needs an owner: a missing one is a KeyError. */
  function DropOwner(owners: map<string, map<Data, Key>>, urn: string, value: Data): (after: map<string, map<Data, Key>>)
    requires urn in owners && value in owners[urn]
    ensures forall u, v :: OwnerOf(after, u, v) == if u == urn && v == value then None else OwnerOf(owners, u, v)
  {
    owners[urn := owners[urn] - {value}]
  }

  type Buckets = map<Option<Data>, set<string>>

  predicate Indexed(equalities: map<string, map<Binding, Buckets>>, typeName: string, b: Binding) {
    typeName in equalities && b in equalities[typeName]
  }

  function Bucket(equalities: map<string, map<Binding, Buckets>>, typeName: string, b: Binding, v: Option<Data>): set<string> {
    if Indexed(equalities, typeName, b) && v in equalities[typeName][b] then equalities[typeName][b][v] else {}
  }

  /** Whether an identifier is in the bucket of a value. */
  predicate Listed(equalities: map<string, map<Binding, Buckets>>, typeName: string, b: Binding, v: Option<Data>, id: string) {
    id in Bucket(equalities, typeName, b, v)
  }

  /** Starts the empty index of an attribute. */
  function OpenIndex(equalities: map<string, map<Binding, Buckets>>, typeName: string, b: Binding)
    : (after: map<string, map<Binding, Buckets>>)
    requires !Indexed(equalities, typeName, b)
    ensures forall t, c :: Indexed(after, t, c) <==> Indexed(equalities, t, c) || (t == typeName && c == b)
    ensures forall t, c, v, i :: Listed(after, t, c, v, i) <==> Listed(equalities, t, c, v, i)
  {
    var indexes := if typeName in equalities then equalities[typeName] else map[];
    equalities[typeName := indexes[b := map[]]]
  }

  function AddTo(equalities: map<string, map<Binding, Buckets>>, typeName: string, b: Binding, v: Option<Data>, id: string)
    : (after: map<string, map<Binding, Buckets>>)
    requires Indexed(equalities, typeName, b)
    ensures SameIndexes(equalities, after)
    ensures forall t, c, w, i :: Listed(after, t, c, w, i) <==>
              Listed(equalities, t, c, w, i) || (t == typeName && c == b && w == v && i == id)
  {
    var ids := Bucket(equalities, typeName, b, v) + {id};
    equalities[typeName := equalities[typeName][b := equalities[typeName][b][v := ids]]]
  }

  /** Discarding an identifier needs the bucket of its value: a missing one is a KeyError. */
  function Discard(equalities: map<string, map<Binding, Buckets>>, typeName: string, b: Binding, v: Option<Data>, id: string)
    : (after: map<string, map<Binding, Buckets>>)
    requires Indexed(equalities, typeName, b) && v in equalities[typeName][b]
    ensures SameIndexes(equalities, after)
    ensures forall t, c, w, i :: Listed(after, t, c, w, i) <==>
              Listed(equalities, t, c, w, i) && !(t == typeName && c == b && w == v && i == id)
  {
    var ids := equalities[typeName][b][v] - {id};
    equalities[typeName := equalities[typeName][b := equalities[typeName][b][v := ids]]]
  }

  /** The same attributes are indexed. */
  ghost predicate SameIndexes(before: map<string, map<Binding, Buckets>>, after: map<string, map<Binding, Buckets>>) {
    forall t, b :: Indexed(after, t, b) <==> Indexed(before, t, b)
  }

  function EqualValue(equalValues: map<Key, map<Binding, Option<Data>>>, k: Key, b: Binding): Option<Option<Data>> {
    if k in equalValues && b in equalValues[k] then Some(equalValues[k][b]) else None
  }

  // -- Agreement with the stored resources ------------------------------

  ghost predicate Keyed(contents: map<Key, Resource>) {
    forall k :: k in contents ==> KeyOf(contents[k]) == k
  }

  lemma KeyedRemoval(contents: map<Key, Resource>, key: Key)
    requires Keyed(contents)
    ensures Keyed(contents - {key})
  {
  }

  lemma KeyedChange(contents: map<Key, Resource>, key: Key, r: Resource)
    requires Keyed(contents)
    ensures Keyed(contents - {key}) && Keyed(contents[KeyOf(r) := r])
  {
  }

  ghost predicate ResourcesAgree(contents: map<Key, Resource>, resources: map<string, map<string, Resource>>) {
    && (forall k :: Has(resources, k) <==> k in contents)
    && (forall k :: k in contents ==> Has(resources, k) && resources[k.typeName][k.id] == contents[k])
  }

  ghost predicate UniqueValuesAgree(policy: Policy, contents: map<Key, Resource>, uniqueValues: map<Key, map<string, Data>>) {
    && uniqueValues.Keys == contents.Keys
    && (forall k :: k in contents ==> uniqueValues[k] == ValuesOf(policy, contents[k]))
  }

  /** A value is owned by a resource exactly when the resource holds it. */
  ghost predicate OwnersAgree(policy: Policy, contents: map<Key, Resource>, owners: map<string, map<Data, Key>>) {
    forall urn, value, k ::
      OwnerOf(owners, urn, value) == Some(k) <==> k in contents && Owns(policy, contents[k], urn, value)
  }

  /** The compared value of a resource is kept for each indexed attribute of its type, and for no other. */
  ghost predicate EqualValuesAgree(policy: Policy, contents: map<Key, Resource>, equalities: map<string, map<Binding, Buckets>>,
                                   equalValues: map<Key, map<Binding, Option<Data>>>)
  {
    forall k, b :: EqualValue(equalValues, k, b) ==
      if k in contents && Indexed(equalities, k.typeName, b) then Some(Held(policy, contents[k], b)) else None
  }

  /** The buckets of an indexed attribute partition the identifiers of its type by compared value. */
  ghost predicate BucketsAgree(policy: Policy, contents: map<Key, Resource>, equalities: map<string, map<Binding, Buckets>>) {
    forall t, b, v, id :: Listed(equalities, t, b, v, id) <==>
      Indexed(equalities, t, b) && Key(t, id) in contents && Held(policy, contents[Key(t, id)], b) == v
  }

  lemma RemovalKeepsConsistent(policy: Policy, contents: map<Key, Resource>, key: Key)
    requires Consistent(policy, contents)
    ensures Consistent(policy, contents - {key})
  {
  }

  /** Removing a resource meets no missing entry: each of its values has an owner. */
  ghost predicate Removable(policy: Policy, contents: map<Key, Resource>, owners: map<string, map<Data, Key>>, key: Key) {
    key in contents ==> forall urn, value :: Owns(policy, contents[key], urn, value) ==> OwnerOf(owners, urn, value).Some?
  }

  /** The owners once those of the values of a resource are deleted, whoever they are. */
  ghost predicate Released(policy: Policy, contents: map<Key, Resource>, owners: map<string, map<Data, Key>>, key: Key,
                           after: map<string, map<Data, Key>>)
  {
    forall urn, value :: OwnerOf(after, urn, value) ==
      if key in contents && Owns(policy, contents[key], urn, value) then None else OwnerOf(owners, urn, value)
  }

  /** The owners once a resource took its values, whoever owned them. */
  ghost predicate Taken(policy: Policy, owners: map<string, map<Data, Key>>, r: Resource, after: map<string, map<Data, Key>>) {
    forall urn, value :: OwnerOf(after, urn, value) ==
      if Owns(policy, r, urn, value) then Some(KeyOf(r)) else OwnerOf(owners, urn, value)
  }

  lemma OwnersAfterRemoval(policy: Policy, contents: map<Key, Resource>, owners: map<string, map<Data, Key>>, key: Key,
                           after: map<string, map<Data, Key>>)
    requires OwnersAgree(policy, contents, owners) && Released(policy, contents, owners, key, after)
    ensures OwnersAgree(policy, contents - {key}, after)
  {
    forall urn, value, k
      ensures OwnerOf(after, urn, value) == Some(k) <==> k in contents - {key} && Owns(policy, (contents - {key})[k], urn, value)
    {
      assert OwnerOf(owners, urn, value) == Some(k) <==> k in contents && Owns(policy, contents[k], urn, value);
      assert OwnerOf(owners, urn, value) == Some(key) <==> key in contents && Owns(policy, contents[key], urn, value);
    }
  }

  lemma OwnersAfterAddition(policy: Policy, contents: map<Key, Resource>, owners: map<string, map<Data, Key>>, r: Resource,
                            after: map<string, map<Data, Key>>)
    requires OwnersAgree(policy, contents, owners) && Taken(policy, owners, r, after)
    requires KeyOf(r) !in contents && !Clashes(policy, contents, r)
    ensures OwnersAgree(policy, contents[KeyOf(r) := r], after)
  {
  }

  lemma EqualitiesAfterRemoval(policy: Policy, contents: map<Key, Resource>, equalities: map<string, map<Binding, Buckets>>,
                               equalValues: map<Key, map<Binding, Option<Data>>>, key: Key, values: map<Binding, Option<Data>>,
                               after: map<string, map<Binding, Buckets>>)
    requires BucketsAgree(policy, contents, equalities) && EqualValuesAgree(policy, contents, equalities, equalValues)
    requires values == if key in equalValues then equalValues[key] else map[]
    requires SameIndexes(equalities, after)
    requires forall t, b, v, id :: Listed(after, t, b, v, id) <==>
               Listed(equalities, t, b, v, id) && !(Key(t, id) == key && b in values && values[b] == v)
    ensures EqualValuesAgree(policy, contents - {key}, after, equalValues - {key})
    ensures BucketsAgree(policy, contents - {key}, after)
  {
    forall k, b
      ensures EqualValue(equalValues - {key}, k, b) == if k == key then None else EqualValue(equalValues, k, b)
    {
    }
    forall b, v | Listed(equalities, key.typeName, b, v, key.id)
      ensures b in values && values[b] == v
    {
      assert Key(key.typeName, key.id) == key;
      assert EqualValue(equalValues, key, b) == Some(v);
    }
  }

  lemma IndexComplete(policy: Policy, contents: map<Key, Resource>, equalities: map<string, map<Binding, Buckets>>,
                      equalValues: map<Key, map<Binding, Option<Data>>>, name: string, b: Binding, stored: map<string, Resource>,
                      after: map<string, map<Binding, Buckets>>, valuesAfter: map<Key, map<Binding, Option<Data>>>)
    requires BucketsAgree(policy, contents, equalities) && EqualValuesAgree(policy, contents, equalities, equalValues)
    requires !Indexed(equalities, name, b)
    requires forall t, c :: Indexed(after, t, c) <==> Indexed(equalities, t, c) || (t == name && c == b)
    requires forall id :: id in stored <==> Key(name, id) in contents
    requires forall id :: id in stored ==> stored[id] == contents[Key(name, id)]
    requires forall k, c :: EqualValue(valuesAfter, k, c) ==
               if k.typeName == name && c == b && k.id in stored then Some(Held(policy, stored[k.id], c))
               else EqualValue(equalValues, k, c)
    requires forall t, c, v, id :: Listed(after, t, c, v, id) <==>
               || Listed(equalities, t, c, v, id)
               || (t == name && c == b && id in stored && Held(policy, stored[id], c) == v)
    ensures EqualValuesAgree(policy, contents, after, valuesAfter)
    ensures BucketsAgree(policy, contents, after)
  {
    forall k, c
      ensures EqualValue(valuesAfter, k, c) ==
        if k in contents && Indexed(after, k.typeName, c) then Some(Held(policy, contents[k], c)) else None
    {
      assert k == Key(k.typeName, k.id);
    }
    forall t, c, v, id
      ensures Listed(after, t, c, v, id) <==>
              Indexed(after, t, c) && Key(t, id) in contents && Held(policy, contents[Key(t, id)], c) == v
    {
      assert t == name ==> (id in stored <==> Key(name, id) in contents);
    }
  }

  lemma NoClashAfterRemoval(policy: Policy, contents: map<Key, Resource>, r: Resource)
    requires !Clashes(policy, contents, r)
    ensures !Clashes(policy, contents - {KeyOf(r)}, r)
    ensures (contents - {KeyOf(r)})[KeyOf(r) := r] == contents[KeyOf(r) := r]
  {
  }

  lemma EqualitiesAfterAddition(policy: Policy, contents: map<Key, Resource>, equalities: map<string, map<Binding, Buckets>>,
                                equalValues: map<Key, map<Binding, Option<Data>>>, r: Resource,
                                after: map<string, map<Binding, Buckets>>, valuesAfter: map<Key, map<Binding, Option<Data>>>)
    requires BucketsAgree(policy, contents, equalities) && EqualValuesAgree(policy, contents, equalities, equalValues)
    requires KeyOf(r) !in contents
    requires SameIndexes(equalities, after)
    requires forall k, c :: EqualValue(valuesAfter, k, c) ==
               if k == KeyOf(r) && Indexed(equalities, k.typeName, c) then Some(Held(policy, r, c)) else EqualValue(equalValues, k, c)
    requires forall t, c, v, id :: Listed(after, t, c, v, id) <==>
               || Listed(equalities, t, c, v, id)
               || (Key(t, id) == KeyOf(r) && Indexed(equalities, t, c) && v == Held(policy, r, c))
    ensures EqualValuesAgree(policy, contents[KeyOf(r) := r], after, valuesAfter)
    ensures BucketsAgree(policy, contents[KeyOf(r) := r], after)
  {
  }

  /** An owner index can agree with the stored resources only when no two of them share a unique value. */
  lemma OwnersNeedUniqueness(policy: Policy, contents: map<Key, Resource>, owners: map<string, map<Data, Key>>,
                             j: Key, k: Key, urn: string, value: Data)
    requires OwnersAgree(policy, contents, owners)
    requires j in contents && k in contents && Owns(policy, contents[j], urn, value) && Owns(policy, contents[k], urn, value)
    ensures j == k
  {
    assert OwnerOf(owners, urn, value) == Some(j) && OwnerOf(owners, urn, value) == Some(k);
  }

  /** A value has two holders, or a holder that does not own it and no other owner. */
  ghost predicate Broken(policy: Policy, contents: map<Key, Resource>, owners: map<string, map<Data, Key>>, urn: string, value: Data) {
    || (exists j, k :: j in contents && k in contents && j != k
          && Owns(policy, contents[j], urn, value) && Owns(policy, contents[k], urn, value))
    || (OwnerOf(owners, urn, value).None? && exists k :: k in contents && Owns(policy, contents[k], urn, value))
  }

  /** The owners before and after a resource is stored without a check. */
  ghost predicate StoredOver(policy: Policy, contents: map<Key, Resource>, owners: map<string, map<Data, Key>>, r: Resource,
                             after: map<string, map<Data, Key>>)
  {
    exists released ::
      && Removable(policy, contents, owners, KeyOf(r)) && Released(policy, contents, owners, KeyOf(r), released)
      && Taken(policy, released, r, after)
  }

  lemma StoringIsBoth(policy: Policy, contents: map<Key, Resource>, owners: map<string, map<Data, Key>>, r: Resource,
                      released: map<string, map<Data, Key>>, after: map<string, map<Data, Key>>)
    requires Removable(policy, contents, owners, KeyOf(r)) && Released(policy, contents, owners, KeyOf(r), released)
    requires Taken(policy, released, r, after)
    ensures StoredOver(policy, contents, owners, r, after)
    ensures (contents - {KeyOf(r)})[KeyOf(r) := r] == contents[KeyOf(r) := r]
  {
  }

  /** A broken value stays so: one holder at most leaves at a time, and it takes the owner away with it. */
  lemma BrokenStays(policy: Policy, contents: map<Key, Resource>, owners: map<string, map<Data, Key>>, r: Resource,
                    after: map<string, map<Data, Key>>, urn: string, value: Data)
    requires StoredOver(policy, contents, owners, r, after) && Broken(policy, contents, owners, urn, value)
    ensures Broken(policy, contents[KeyOf(r) := r], after, urn, value)
  {
    var stored := contents[KeyOf(r) := r];
    var k :| k in contents && k != KeyOf(r) && Owns(policy, contents[k], urn, value);
    assert k in stored && stored[k] == contents[k];
    if Owns(policy, r, urn, value) {
      assert KeyOf(r) in stored && Owns(policy, stored[KeyOf(r)], urn, value);
    } else if OwnerOf(after, urn, value).Some? {
      var j :| j in contents && j != k && Owns(policy, contents[j], urn, value);
      assert j != KeyOf(r) && j in stored && stored[j] == contents[j];
    }
  }

  lemma ClashBreaks(policy: Policy, contents: map<Key, Resource>, r: Resource, after: map<string, map<Data, Key>>)
    returns (urn: string, value: Data)
    requires Clashes(policy, contents, r)
    ensures Broken(policy, contents[KeyOf(r) := r], after, urn, value)
  {
    var stored := contents[KeyOf(r) := r];
    var k, urn', value' :|
      k in contents && k != KeyOf(r) && Owns(policy, contents[k], urn', value') && Owns(policy, r, urn', value');
    urn, value := urn', value';
    assert k in stored && KeyOf(r) in stored && Owns(policy, stored[k], urn, value) && Owns(policy, stored[KeyOf(r)], urn, value);
  }

  lemma AgreeingIsNotBroken(policy: Policy, contents: map<Key, Resource>, owners: map<string, map<Data, Key>>, urn: string, value: Data)
    requires OwnersAgree(policy, contents, owners)
    ensures !Broken(policy, contents, owners, urn, value)
  {
    forall j, k | j in contents && k in contents && Owns(policy, contents[j], urn, value) && Owns(policy, contents[k], urn, value)
      ensures j == k
    {
      OwnersNeedUniqueness(policy, contents, owners, j, k, urn, value);
    }
    forall k | k in contents && Owns(policy, contents[k], urn, value)
      ensures OwnerOf(owners, urn, value).Some?
    {
      assert OwnerOf(owners, urn, value) == Some(k);
    }
  }

  // -- Searches ---------------------------------------------------------

  /** The names without their repetitions, in the order they first come in. */
  function Distinct(names: seq<string>): (r: seq<string>)
    ensures forall name :: name in r <==> name in names
    ensures forall i, j :: 0 <= i < j < |r| ==> r[i] != r[j]
  {
    if names == [] then []
    else
      var last := |names| - 1;
      assert names == names[..last] + [names[last]];
      var r := Distinct(names[..last]);
      if names[last] in r then r else r + [names[last]]
  }

  function Searched(names: seq<string>): set<string> {
    set name | name in names
  }

  ghost function Elements(rs: seq<Resource>): set<Resource> {
    set r | r in rs
  }

  lemma ElementsOfSet(rs: seq<Resource>, s: set<Resource>)
    requires multiset(rs) == multiset(s)
    ensures Elements(rs) == s
  {
    assert forall r :: r in rs <==> r in multiset(rs);
  }

  /** The resources that match a filter. */
  function Kept(policy: Policy, filter: Option<Filter>, walked: seq<Resource>): seq<Resource> {
    if walked == [] then []
    else (if Matches(policy, filter, walked[0]) then [walked[0]] else []) + Kept(policy, filter, walked[1..])
  }

  lemma {:induction false} KeptMultiplicity(policy: Policy, filter: Option<Filter>, walked: seq<Resource>, r: Resource)
    ensures multiset(Kept(policy, filter, walked))[r] == if Matches(policy, filter, r) then multiset(walked)[r] else 0
  {
    if walked != [] {
      assert walked == [walked[0]] + walked[1..];
      KeptMultiplicity(policy, filter, walked[1..], r);
    }
  }

  lemma KeptIsExact(policy: Policy, filter: Option<Filter>, walked: seq<Resource>, candidates: set<Resource>)
    requires multiset(walked) == multiset(candidates)
    ensures multiset(Kept(policy, filter, walked)) == multiset(set r | r in candidates && Matches(policy, filter, r))
  {
    forall r {
      KeptMultiplicity(policy, filter, walked, r);
    }
  }

  /** The stored resources of a type that hold some compared value for an attribute. */
  ghost function HeldBy(policy: Policy, contents: map<Key, Resource>, name: string, b: Binding, value: Option<Data>): set<Resource> {
    set k | k in contents && k.typeName == name && Held(policy, contents[k], b) == value :: contents[k]
  }

  /** The stored resources of a type with some identifiers. */
  ghost function Named(contents: map<Key, Resource>, name: string, ids: set<string>): set<Resource> {
    set id | id in ids && Key(name, id) in contents :: contents[Key(name, id)]
  }

  lemma NamedGrows(contents: map<Key, Resource>, name: string, ids: set<string>, id: string, before: set<Resource>)
    requires Keyed(contents) && Key(name, id) in contents && id !in ids
    requires forall r :: r in before ==> r.meta.resourceType != name
    ensures var all, r := before + Named(contents, name, ids), contents[Key(name, id)];
            && r !in all && before + Named(contents, name, ids + {id}) == all + {r}
            && multiset(all + {r}) == multiset(all) + multiset{r}
  {
    var r := contents[Key(name, id)];
    assert KeyOf(r) == Key(name, id);
    forall other | other in ids && Key(name, other) in contents
      ensures contents[Key(name, other)] != r
    {
      assert KeyOf(contents[Key(name, other)]) == Key(name, other);
    }
  }

  lemma BucketIsExact(policy: Policy, contents: map<Key, Resource>, equalities: map<string, map<Binding, Buckets>>,
                      name: string, b: Binding, value: Option<Data>)
    requires BucketsAgree(policy, contents, equalities) && Indexed(equalities, name, b)
    ensures var ids := Bucket(equalities, name, b, value);
            && (forall id :: id in ids ==> Key(name, id) in contents)
            && Named(contents, name, ids) == HeldBy(policy, contents, name, b, value)
  {
    var ids := Bucket(equalities, name, b, value);
    assert forall id :: id in ids <==> Listed(equalities, name, b, value, id);
    forall r | r in HeldBy(policy, contents, name, b, value)
      ensures exists id :: id in ids && r == contents[Key(name, id)]
    {
      var k :| k in contents && k.typeName == name && Held(policy, contents[k], b) == value && contents[k] == r;
      assert k == Key(name, k.id) && k.id in ids;
    }
  }

  lemma EqualityIsHeldBy(policy: Policy, contents: map<Key, Resource>, name: string, b: Binding, text: string, wanted: Option<Data>)
    requires Consistent(policy, contents)
    requires wanted == policy.comparable(b, Str(text))
    ensures forall r :: r in HeldBy(policy, contents, name, b, wanted) ==>
              KeyOf(r) in contents && contents[KeyOf(r)] == r && r.meta.resourceType == name
    ensures forall k :: k in contents && k.typeName == name && Matches(policy, Some(Equality(b, text)), contents[k]) ==>
              contents[k] in HeldBy(policy, contents, name, b, wanted)
  {
  }

  /** A page by index tells the number of matching resources, and holds those from its index on, up to its count. */
  predicate IndexLength(window: Window, matching: nat, page: SearchPage<Resource>) {
    var left := if window.startIndex0 < matching then matching - window.startIndex0 else 0;
    page.total == matching && |page.resources| == if window.count.None? || left <= window.count.value then left else window.count.value
  }

  lemma IndexSearched(request: SearchRequest, position: Option<SortKeys.Json>, found: seq<Resource>, matching: set<Resource>)
    requires !request.window.cursor && multiset(found) == multiset(matching)
    ensures var page := PageOf(request, position, found);
            page.Ok? && page.value.next.None? && page.value.previous.None? && IndexLength(request.window, |matching|, page.value)
  {
    var key, lt := KeyFor(request), SortKeys.Order(Descending(request));
    assert |multiset(found)| == |found| && |multiset(matching)| == |matching|;
    Sorting.SortPermutes(found, key, lt);
    assert |multiset(Sorting.Sort(found, key, lt))| == |Sorting.Sort(found, key, lt)|;
    TotalIsEverything(lt, request.window, key, position, found);
    IndexPageIsExact(lt, request.window, key, position, found);
  }

  // -- Loading ----------------------------------------------------------

  /** The resources of a list by their key; the last one of a key is kept. */
  function Loaded(rs: seq<Resource>): map<Key, Resource> {
    if rs == [] then map[] else Loaded(rs[..|rs| - 1])[KeyOf(rs[|rs| - 1]) := rs[|rs| - 1]]
  }

  /** Each resource of a list shares no unique value with those before it, but the one that it replaces. */
  ghost predicate NoneClash(policy: Policy, rs: seq<Resource>) {
    forall i {:trigger rs[..i]} :: 0 <= i < |rs| ==> !Clashes(policy, Loaded(rs[..i]), rs[i])
  }

  lemma NoneClashNext(policy: Policy, rs: seq<Resource>, i: nat)
    requires i < |rs|
    ensures NoneClash(policy, rs[..i + 1]) <==> NoneClash(policy, rs[..i]) && !Clashes(policy, Loaded(rs[..i]), rs[i])
  {
    var prefix, next := rs[..i], rs[..i + 1];
    assert next[..i] == prefix && next[i] == rs[i];
    assert forall j {:trigger next[..j]} {:trigger prefix[..j]} :: 0 <= j < i ==> next[..j] == prefix[..j] && next[j] == prefix[j];
  }

  /**
   * A clash that a later resource of the list replaces counts too: no two loaded resources share a value, but the
   * replaced one took it, and took the owner away with it.
   */
  lemma ReplacedClashCounts(policy: Policy, first: Resource, second: Resource, third: Resource, urn: string, value: Data)
    requires KeyOf(first) != KeyOf(second) == KeyOf(third)
    requires Owns(policy, first, urn, value) && Owns(policy, second, urn, value)
    requires !Clashes(policy, map[KeyOf(first) := first], third)
    ensures !NoneClash(policy, [first, second, third])
    ensures Consistent(policy, Loaded([first, second, third]))
  {
    var rs := [first, second, third];
    assert rs[..1] == [first] && rs[..2] == [first, second] && [first, second][..1] == [first] && [first][..0] == [];
    assert rs[..3] == rs;
    var loaded := map[KeyOf(first) := first];
    assert Loaded([first]) == loaded;
    assert KeyOf(first) in loaded && Owns(policy, loaded[KeyOf(first)], urn, value);
    assert Clashes(policy, loaded, second) && Loaded(rs[..1]) == loaded && rs[1] == second;
    assert Loaded(rs) == loaded[KeyOf(third) := third];
    PutKeepsConsistent(policy, loaded, third);
  }

  lemma PutByParts(policy: Policy, contents: map<Key, Resource>, versions: nat, resource: Resource,
                   after: map<Key, Resource>, r: Result<Resource>)
    requires r == if Clashes(policy, contents, resource) then Err(UniquenessTaken) else Ok(resource)
    requires after == if r.Ok? then contents[KeyOf(resource) := resource] else contents
    ensures (Store(after, versions + 1), r) == Resources.Put(policy, Store(contents, versions), resource)
  {
  }

  /** While none clashes, the owners agree with the loaded resources; from the first clash on, a value is broken. */
  ghost predicate LoadedSoFar(policy: Policy, rs: seq<Resource>, contents: map<Key, Resource>, owners: map<string, map<Data, Key>>) {
    if NoneClash(policy, rs) then Consistent(policy, contents) && OwnersAgree(policy, contents, owners)
    else exists urn, value :: Broken(policy, contents, owners, urn, value)
  }

  lemma NothingLoaded(policy: Policy)
    ensures Loaded([]) == map[] && LoadedSoFar(policy, [], map[], map[])
  {
  }

  lemma LoadedNext(rs: seq<Resource>, i: nat)
    requires i < |rs|
    ensures Loaded(rs[..i + 1]) == Loaded(rs[..i])[KeyOf(rs[i]) := rs[i]]
  {
    assert rs[..i + 1][..i] == rs[..i];
  }

  lemma AgreeingIsRemovable(policy: Policy, contents: map<Key, Resource>, owners: map<string, map<Data, Key>>, key: Key)
    requires OwnersAgree(policy, contents, owners)
    ensures Removable(policy, contents, owners, key)
  {
    forall urn, value | key in contents && Owns(policy, contents[key], urn, value)
      ensures OwnerOf(owners, urn, value).Some?
    {
      assert OwnerOf(owners, urn, value) == Some(key);
    }
  }

  lemma StoringAgrees(policy: Policy, contents: map<Key, Resource>, owners: map<string, map<Data, Key>>, r: Resource,
                      after: map<string, map<Data, Key>>)
    requires OwnersAgree(policy, contents, owners) && !Clashes(policy, contents, r)
    requires StoredOver(policy, contents, owners, r, after)
    ensures OwnersAgree(policy, contents[KeyOf(r) := r], after)
  {
    var released :| Removable(policy, contents, owners, KeyOf(r)) && Released(policy, contents, owners, KeyOf(r), released)
                    && Taken(policy, released, r, after);
    OwnersAfterRemoval(policy, contents, owners, KeyOf(r), released);
    NoClashAfterRemoval(policy, contents, r);
    OwnersAfterAddition(policy, contents - {KeyOf(r)}, released, r, after);
  }

  /** One step of the setter: it fails only after a clash, and a clash is never forgotten. */
  lemma LoadingIsExact(policy: Policy, rs: seq<Resource>, i: nat, before: map<string, map<Data, Key>>,
                       after: map<string, map<Data, Key>>, ok: bool)
    requires i < |rs| && LoadedSoFar(policy, rs[..i], Loaded(rs[..i]), before)
    requires ok <==> Removable(policy, Loaded(rs[..i]), before, KeyOf(rs[i]))
    requires ok ==> StoredOver(policy, Loaded(rs[..i]), before, rs[i], after)
    ensures if ok then LoadedSoFar(policy, rs[..i + 1], Loaded(rs[..i])[KeyOf(rs[i]) := rs[i]], after) else !NoneClash(policy, rs)
  {
    var contents, r := Loaded(rs[..i]), rs[i];
    NoneClashNext(policy, rs, i);
    if !ok {
      if NoneClash(policy, rs) {
        NoneClashPrefix(policy, rs, i);
        AgreeingIsRemovable(policy, contents, before, KeyOf(r));
      }
    } else if Clashes(policy, contents, r) {
      var urn, value := ClashBreaks(policy, contents, r, after);
    } else if NoneClash(policy, rs[..i]) {
      StoringAgrees(policy, contents, before, r, after);
      PutKeepsConsistent(policy, contents, r);
    } else {
      var urn, value :| Broken(policy, contents, before, urn, value);
      BrokenStays(policy, contents, before, r, after, urn, value);
    }
  }

  lemma NoneClashPrefix(policy: Policy, rs: seq<Resource>, i: nat)
    requires i <= |rs| && NoneClash(policy, rs)
    ensures NoneClash(policy, rs[..i])
  {
    forall j | 0 <= j < i
      ensures rs[..i][..j] == rs[..j]
    {
    }
  }

  lemma LoadedIsExact(policy: Policy, rs: seq<Resource>, contents: map<Key, Resource>, owners: map<string, map<Data, Key>>)
    requires LoadedSoFar(policy, rs, contents, owners)
    ensures NoneClash(policy, rs) <==> Consistent(policy, contents) && OwnersAgree(policy, contents, owners)
  {
    if !NoneClash(policy, rs) {
      var urn, value :| Broken(policy, contents, owners, urn, value);
      if OwnersAgree(policy, contents, owners) {
        AgreeingIsNotBroken(policy, contents, owners, urn, value);
      }
    }
  }

  // -- The storage ------------------------------------------------------

  class InMemoryStorage {
    const policy: Policy
    var resources: map<string, map<string, Resource>>
    var owners: map<string, map<Data, Key>>
    var uniqueValues: map<Key, map<string, Data>>
    var equalities: map<string, map<Binding, Buckets>>
    var equalValues: map<Key, map<Binding, Option<Data>>>
    var versions: nat
    /** The stored resources, which every index agrees with. */
    ghost var contents: map<Key, Resource>

    /** Every dictionary but the owners agrees with the stored resources. */
    ghost predicate Tracked()
      reads this
    {
      && Keyed(contents)
      && ResourcesAgree(contents, resources)
      && UniqueValuesAgree(policy, contents, uniqueValues)
      && EqualValuesAgree(policy, contents, equalities, equalValues)
      && BucketsAgree(policy, contents, equalities)
    }

    ghost predicate Valid()
      reads this
    {
      Tracked() && Consistent(policy, contents) && OwnersAgree(policy, contents, owners)
    }

    ghost function State(): Store
      reads this
    {
      Store(contents, versions)
    }

    constructor (policy: Policy)
      ensures Valid() && State() == Store(map[], 1) && this.policy == policy
    {
      this.policy := policy;
      resources, owners, uniqueValues, equalities, equalValues := map[], map[], map[], map[], map[];
      versions, contents := 1, map[];
    }

    // -- Reading --------------------------------------------------------

    method Get(typeName: string, id: string) returns (r: Result<Resource>)
      requires Valid()
      ensures r == Resources.Get(State(), Key(typeName, id))
    {
      assert Has(resources, Key(typeName, id)) <==> Key(typeName, id) in contents;
      if typeName in resources && id in resources[typeName] {
        r := Ok(resources[typeName][id]);
      } else {
        r := Err(NotFound);
      }
    }

    /** The unique values of a resource. */
    method ReadValues(r: Resource) returns (values: map<string, Data>)
      ensures values == ValuesOf(policy, r)
    {
      var bindings := policy.unique(r.meta.resourceType);
      values := map[];
      for i := 0 to |bindings|
        invariant values == ValuesFrom(policy, r, bindings[..i])
      {
        assert bindings[..i + 1][..i] == bindings[..i];
        var value := Held(policy, r, bindings[i]);
        if value.Some? {
          values := values[bindings[i].urn := value.value];
        }
      }
      assert bindings[..|bindings|] == bindings;
    }

    /** Whether another resource owns one of the values. */
    method CheckUniqueness(r: Resource, values: map<string, Data>) returns (clash: bool)
      requires Valid()
      requires values == ValuesOf(policy, r)
      ensures clash <==> Clashes(policy, contents, r)
    {
      var rest := values.Keys;
      while rest != {}
        invariant rest <= values.Keys
        invariant forall urn, k :: urn in values && urn !in rest && OwnerOf(owners, urn, values[urn]) == Some(k) ==> k == KeyOf(r)
        decreases |rest|
      {
        var urn :| urn in rest;
        var owner := OwnerOf(owners, urn, values[urn]);
        if owner.Some? && owner.value != KeyOf(r) {
          assert OwnerOf(owners, urn, values[urn]) == Some(owner.value);
          assert Owns(policy, r, urn, values[urn]) && Owns(policy, contents[owner.value], urn, values[urn]);
          return true;
        }
        rest := rest - {urn};
      }
      forall k, urn, value | k in contents && Owns(policy, contents[k], urn, value) && Owns(policy, r, urn, value)
        ensures k == KeyOf(r)
      {
        assert OwnerOf(owners, urn, value) == Some(k);
      }
      clash := false;
    }

    // -- The indexes ----------------------------------------------------

    /** Records the compared value of a resource for an indexed attribute. */
    method IndexEquality(r: Resource, b: Binding)
      requires Indexed(equalities, r.meta.resourceType, b)
      modifies this`equalities, this`equalValues
      ensures SameIndexes(old(equalities), equalities)
      ensures forall k, c :: EqualValue(equalValues, k, c) ==
                if k == KeyOf(r) && c == b then Some(Held(policy, r, b)) else EqualValue(old(equalValues), k, c)
      ensures forall t, c, v, id :: Listed(equalities, t, c, v, id) <==>
                || Listed(old(equalities), t, c, v, id)
                || (Key(t, id) == KeyOf(r) && c == b && v == Held(policy, r, b))
    {
      var key := KeyOf(r);
      var value := Held(policy, r, b);
      equalValues := equalValues[key := (if key in equalValues then equalValues[key] else map[])[b := value]];
      equalities := AddTo(equalities, key.typeName, b, value, key.id);
    }

    /**
     * Forgets a resource and its indexed values. It fails, as the source does with a KeyError, when one of its values has
     * no owner; that never happens when the owners agree with the resources.
     */
    method Remove(key: Key) returns (ok: bool)
      requires Tracked()
      modifies this`resources, this`owners, this`uniqueValues, this`equalities, this`equalValues, this`contents
      ensures ok <==> Removable(policy, old(contents), old(owners), key)
      ensures ok ==> Tracked() && contents == old(contents) - {key}
      ensures ok ==> Released(policy, old(contents), old(owners), key, owners)
      ensures ok ==> SameIndexes(old(equalities), equalities)
    {
      ok := RemoveKept(key);
      if ok {
        RemoveRest(key);
      }
    }

    /** Forgets a resource and the owners of its values; a missing owner is a KeyError. */
    method RemoveKept(key: Key) returns (ok: bool)
      requires ResourcesAgree(contents, resources) && UniqueValuesAgree(policy, contents, uniqueValues)
      modifies this`resources, this`owners, this`uniqueValues
      ensures ok <==> Removable(policy, contents, old(owners), key)
      ensures ok ==> ResourcesAgree(contents - {key}, resources) && UniqueValuesAgree(policy, contents - {key}, uniqueValues)
      ensures ok ==> Released(policy, contents, old(owners), key, owners)
    {
      RemoveResource(key);
      ok := RemoveOwners(key);
    }

    /** Forgets the indexed values of a resource that the other dictionaries have forgotten. */
    method RemoveRest(key: Key)
      requires Keyed(contents) && ResourcesAgree(contents - {key}, resources) && UniqueValuesAgree(policy, contents - {key}, uniqueValues)
      requires EqualValuesAgree(policy, contents, equalities, equalValues) && BucketsAgree(policy, contents, equalities)
      modifies this`equalities, this`equalValues, this`contents
      ensures Tracked() && contents == old(contents) - {key}
      ensures SameIndexes(old(equalities), equalities)
    {
      RemoveEqualities(key);
      KeyedRemoval(contents, key);
      contents := contents - {key};
    }

    /** A storage whose indexes agree forgets a resource without meeting a missing entry. */
    method RemoveStored(key: Key)
      requires Valid()
      modifies this`resources, this`owners, this`uniqueValues, this`equalities, this`equalValues, this`contents
      ensures Valid() && contents == old(contents) - {key}
    {
      ghost var before, ownersBefore := contents, owners;
      AgreeingIsRemovable(policy, contents, owners, key);
      RemovalKeepsConsistent(policy, contents, key);
      var ok := Remove(key);
      OwnersAfterRemoval(policy, before, ownersBefore, key, owners);
    }

    method RemoveResource(key: Key)
      requires ResourcesAgree(contents, resources)
      modifies this`resources
      ensures ResourcesAgree(contents - {key}, resources)
    {
      if key.typeName in resources {
        resources := resources[key.typeName := resources[key.typeName] - {key.id}];
      }
      forall k
        ensures Has(resources, k) <==> Has(old(resources), k) && k != key
        ensures Has(resources, k) ==> resources[k.typeName][k.id] == old(resources)[k.typeName][k.id]
      {
      }
    }

    method RemoveOwners(key: Key) returns (ok: bool)
      requires UniqueValuesAgree(policy, contents, uniqueValues)
      modifies this`owners, this`uniqueValues
      ensures ok <==> Removable(policy, contents, old(owners), key)
      ensures ok ==> UniqueValuesAgree(policy, contents - {key}, uniqueValues)
      ensures ok ==> Released(policy, contents, old(owners), key, owners)
    {
      var values := if key in uniqueValues then uniqueValues[key] else map[];
      uniqueValues := uniqueValues - {key};
      assert forall urn, value :: key in contents && Owns(policy, contents[key], urn, value) <==> urn in values && values[urn] == value;
      ok := DropOwners(values);
    }

    /** Deletes the owners of some values; a missing one is a KeyError. */
    method DropOwners(values: map<string, Data>) returns (ok: bool)
      modifies this`owners
      ensures ok <==> forall urn :: urn in values ==> OwnerOf(old(owners), urn, values[urn]).Some?
      ensures ok ==>
                forall urn, value :: OwnerOf(owners, urn, value) ==
                  if urn in values && values[urn] == value then None else OwnerOf(old(owners), urn, value)
    {
      var rest := values.Keys;
      while rest != {}
        invariant rest <= values.Keys
        invariant forall urn :: urn in values && urn !in rest ==> OwnerOf(old(owners), urn, values[urn]).Some?
        invariant forall urn, value :: OwnerOf(owners, urn, value) ==
                    if urn in values && urn !in rest && values[urn] == value then None else OwnerOf(old(owners), urn, value)
        decreases |rest|
      {
        var urn :| urn in rest;
        if OwnerOf(owners, urn, values[urn]).None? {
          return false;
        }
        owners := DropOwner(owners, urn, values[urn]);
        rest := rest - {urn};
      }
      ok := true;
    }

    method RemoveEqualities(key: Key)
      requires EqualValuesAgree(policy, contents, equalities, equalValues) && BucketsAgree(policy, contents, equalities)
      modifies this`equalities, this`equalValues
      ensures SameIndexes(old(equalities), equalities)
      ensures EqualValuesAgree(policy, contents - {key}, equalities, equalValues)
      ensures BucketsAgree(policy, contents - {key}, equalities)
    {
      var values := if key in equalValues then equalValues[key] else map[];
      equalValues := equalValues - {key};
      forall b | b in values
        ensures Listed(equalities, key.typeName, b, values[b], key.id)
      {
        assert EqualValue(old(equalValues), key, b) == Some(values[b]);
        assert key == Key(key.typeName, key.id);
      }
      DiscardAll(key, values);
      EqualitiesAfterRemoval(policy, contents, old(equalities), old(equalValues), key, values, equalities);
    }

    /** Discards a resource from the buckets of its values, which all hold it. */
    method DiscardAll(key: Key, values: map<Binding, Option<Data>>)
      requires forall b :: b in values ==> Listed(equalities, key.typeName, b, values[b], key.id)
      modifies this`equalities
      ensures SameIndexes(old(equalities), equalities)
      ensures forall t, c, v, id :: Listed(equalities, t, c, v, id) <==>
                && Listed(old(equalities), t, c, v, id)
                && !(Key(t, id) == key && c in values && values[c] == v)
    {
      var rest := values.Keys;
      while rest != {}
        invariant rest <= values.Keys
        invariant SameIndexes(old(equalities), equalities)
        invariant forall t, c, v, id :: Listed(equalities, t, c, v, id) <==>
                    && Listed(old(equalities), t, c, v, id)
                    && !(Key(t, id) == key && c in values && c !in rest && values[c] == v)
        decreases |rest|
      {
        var b :| b in rest;
        assert Listed(equalities, key.typeName, b, values[b], key.id);
        equalities := Discard(equalities, key.typeName, b, values[b], key.id);
        rest := rest - {b};
      }
    }

    /** Keeps a resource under its key, and indexes its values; the removal of the one it replaces may fail. */
    method StoreResource(r: Resource, values: map<string, Data>) returns (ok: bool)
      requires Tracked() && values == ValuesOf(policy, r)
      modifies this`resources, this`owners, this`uniqueValues, this`equalities, this`equalValues, this`contents
      ensures ok <==> Removable(policy, old(contents), old(owners), KeyOf(r))
      ensures ok ==> Tracked() && contents == old(contents)[KeyOf(r) := r]
      ensures ok ==> StoredOver(policy, old(contents), old(owners), r, owners)
    {
      ok := Remove(KeyOf(r));
      if ok {
        ghost var released := owners;
        AddAll(r, values);
        StoringIsBoth(policy, old(contents), old(owners), r, released, owners);
      }
    }

    method AddAll(r: Resource, values: map<string, Data>)
      requires Tracked() && values == ValuesOf(policy, r) && KeyOf(r) !in contents
      modifies this`resources, this`owners, this`uniqueValues, this`equalities, this`equalValues, this`contents
      ensures Tracked() && contents == old(contents)[KeyOf(r) := r]
      ensures Taken(policy, old(owners), r, owners)
    {
      KeyedChange(contents, KeyOf(r), r);
      AddResource(r);
      AddOwners(r, values);
      AddEqualities(r);
      contents := contents[KeyOf(r) := r];
    }

    method AddResource(r: Resource)
      requires ResourcesAgree(contents, resources)
      modifies this`resources
      ensures ResourcesAgree(contents[KeyOf(r) := r], resources)
    {
      var key := KeyOf(r);
      resources := resources[key.typeName := (if key.typeName in resources then resources[key.typeName] else map[])[key.id := r]];
      forall k
        ensures Has(resources, k) <==> Has(old(resources), k) || k == key
        ensures Has(resources, k) && k != key ==> resources[k.typeName][k.id] == old(resources)[k.typeName][k.id]
      {
      }
    }

    method AddOwners(r: Resource, values: map<string, Data>)
      requires values == ValuesOf(policy, r)
      requires UniqueValuesAgree(policy, contents, uniqueValues)
      modifies this`owners, this`uniqueValues
      ensures UniqueValuesAgree(policy, contents[KeyOf(r) := r], uniqueValues)
      ensures Taken(policy, old(owners), r, owners)
    {
      uniqueValues := uniqueValues[KeyOf(r) := values];
      var rest := values.Keys;
      while rest != {}
        invariant rest <= values.Keys
        invariant uniqueValues == old(uniqueValues)[KeyOf(r) := values]
        invariant forall urn, value :: OwnerOf(owners, urn, value) ==
                    if urn in values && urn !in rest && values[urn] == value then Some(KeyOf(r))
                    else OwnerOf(old(owners), urn, value)
        decreases |rest|
      {
        var urn :| urn in rest;
        owners := SetOwner(owners, urn, values[urn], KeyOf(r));
        rest := rest - {urn};
      }
    }

    method AddEqualities(r: Resource)
      requires KeyOf(r) !in contents
      requires EqualValuesAgree(policy, contents, equalities, equalValues) && BucketsAgree(policy, contents, equalities)
      modifies this`equalities, this`equalValues
      ensures EqualValuesAgree(policy, contents[KeyOf(r) := r], equalities, equalValues)
      ensures BucketsAgree(policy, contents[KeyOf(r) := r], equalities)
    {
      var key := KeyOf(r);
      var bindings := if key.typeName in equalities then equalities[key.typeName].Keys else {};
      var rest := bindings;
      while rest != {}
        invariant rest <= bindings
        invariant SameIndexes(old(equalities), equalities)
        invariant forall k, c :: EqualValue(equalValues, k, c) ==
                    if k == key && c in bindings && c !in rest then Some(Held(policy, r, c)) else EqualValue(old(equalValues), k, c)
        invariant forall t, c, v, id :: Listed(equalities, t, c, v, id) <==>
                    || Listed(old(equalities), t, c, v, id)
                    || (Key(t, id) == key && c in bindings && c !in rest && v == Held(policy, r, c))
        decreases |rest|
      {
        var b :| b in rest;
        assert Indexed(old(equalities), key.typeName, b);
        IndexEquality(r, b);
        rest := rest - {b};
      }
      assert forall c :: c in bindings <==> Indexed(old(equalities), key.typeName, c);
      EqualitiesAfterAddition(policy, contents, old(equalities), old(equalValues), r, equalities, equalValues);
    }

    /** The index of an attribute, built from the stored resources on its first use. */
    method EqualityIndex(name: string, b: Binding) returns (index: Buckets)
      requires Valid()
      modifies this`equalities, this`equalValues
      ensures Valid()
      ensures Indexed(equalities, name, b) && index == equalities[name][b]
    {
      if !Indexed(equalities, name, b) {
        BuildIndex(name, b);
      }
      index := equalities[name][b];
    }

    method BuildIndex(name: string, b: Binding)
      requires ResourcesAgree(contents, resources)
      requires forall k :: k in contents ==> KeyOf(contents[k]) == k
      requires EqualValuesAgree(policy, contents, equalities, equalValues) && BucketsAgree(policy, contents, equalities)
      requires !Indexed(equalities, name, b)
      modifies this`equalities, this`equalValues
      ensures EqualValuesAgree(policy, contents, equalities, equalValues) && BucketsAgree(policy, contents, equalities)
      ensures Indexed(equalities, name, b)
    {
      var stored := if name in resources then resources[name] else map[];
      assert forall id :: id in stored <==> Has(resources, Key(name, id));
      equalities := OpenIndex(equalities, name, b);
      IndexResources(name, b, stored);
      IndexComplete(policy, contents, old(equalities), old(equalValues), name, b, stored, equalities, equalValues);
    }

    /** Records the compared values of the stored resources of a type for an indexed attribute. */
    method IndexResources(name: string, b: Binding, stored: map<string, Resource>)
      requires Indexed(equalities, name, b)
      requires forall id :: id in stored ==> KeyOf(stored[id]) == Key(name, id)
      modifies this`equalities, this`equalValues
      ensures SameIndexes(old(equalities), equalities)
      ensures forall k, c :: EqualValue(equalValues, k, c) ==
                if k.typeName == name && c == b && k.id in stored then Some(Held(policy, stored[k.id], c))
                else EqualValue(old(equalValues), k, c)
      ensures forall t, c, v, id :: Listed(equalities, t, c, v, id) <==>
                || Listed(old(equalities), t, c, v, id)
                || (t == name && c == b && id in stored && Held(policy, stored[id], c) == v)
    {
      var rest := stored.Keys;
      while rest != {}
        invariant rest <= stored.Keys
        invariant SameIndexes(old(equalities), equalities)
        invariant forall k, c :: EqualValue(equalValues, k, c) ==
                    if k.typeName == name && c == b && k.id in stored && k.id !in rest then Some(Held(policy, stored[k.id], c))
                    else EqualValue(old(equalValues), k, c)
        invariant forall t, c, v, id :: Listed(equalities, t, c, v, id) <==>
                    || Listed(old(equalities), t, c, v, id)
                    || (t == name && c == b && id in stored && id !in rest && Held(policy, stored[id], c) == v)
        decreases |rest|
      {
        var id :| id in rest;
        assert KeyOf(stored[id]) == Key(name, id);
        IndexEquality(stored[id], b);
        rest := rest - {id};
      }
    }

    // -- Searching ------------------------------------------------------

    /** Adds the stored resources with some identifiers of a type to the walked ones. */
    method Collect(name: string, ids: set<string>, walked: seq<Resource>, ghost before: set<Resource>)
      returns (all: seq<Resource>)
      requires ResourcesAgree(contents, resources) && Keyed(contents)
      requires forall id :: id in ids ==> Key(name, id) in contents
      requires multiset(walked) == multiset(before)
      requires forall r :: r in before ==> r.meta.resourceType != name
      ensures multiset(all) == multiset(before + Named(contents, name, ids))
    {
      all := walked;
      ghost var done: set<string> := {};
      var rest := ids;
      assert before + Named(contents, name, done) == before;
      while rest != {}
        invariant rest <= ids && done <= ids && done * rest == {} && done + rest == ids
        invariant multiset(all) == multiset(before + Named(contents, name, done))
        decreases |rest|
      {
        var id :| id in rest;
        assert Has(resources, Key(name, id));
        NamedGrows(contents, name, done, id, before);
        var r := resources[name][id];
        assert multiset(all + [r]) == multiset(all) + multiset{r};
        all, rest := all + [r], rest - {id};
        done := done + {id};
      }
      assert done == ids;
    }

    /** The resources a search walks: those with an equal value when it compares one attribute with eq, or all of the types. */
    method Candidates(names: seq<string>, filter: Option<Filter>) returns (walked: seq<Resource>)
      requires Valid()
      requires forall i, j :: 0 <= i < j < |names| ==> names[i] != names[j]
      modifies this`equalities, this`equalValues
      ensures Valid()
      ensures multiset(walked) == multiset(Elements(walked))
      ensures forall r :: r in walked ==> KeyOf(r) in contents && contents[KeyOf(r)] == r && r.meta.resourceType in names
      ensures forall k :: k in contents && k.typeName in names && Matches(policy, filter, contents[k]) ==> contents[k] in walked
    {
      walked := [];
      if |names| == 1 && filter.Some? && filter.value.Equality? {
        var wanted := policy.comparable(filter.value.binding, Str(filter.value.value));
        if wanted.Some? {
          walked := Lookup(names[0], filter.value.binding, wanted);
          EqualityIsHeldBy(policy, contents, names[0], filter.value.binding, filter.value.value, wanted);
        }
      } else {
        walked := Scan(names);
      }
    }

    /** The stored resources of a type that hold some compared value. */
    method Lookup(name: string, b: Binding, wanted: Option<Data>) returns (walked: seq<Resource>)
      requires Valid()
      modifies this`equalities, this`equalValues
      ensures Valid()
      ensures multiset(walked) == multiset(Elements(walked))
      ensures forall r :: r in walked <==> r in HeldBy(policy, contents, name, b, wanted)
    {
      var index := EqualityIndex(name, b);
      var ids := if wanted in index then index[wanted] else {};
      BucketIsExact(policy, contents, equalities, name, b, wanted);
      walked := Collect(name, ids, [], {});
      ElementsOfSet(walked, {} + Named(contents, name, ids));
      assert forall r :: r in walked <==> r in Elements(walked);
    }

    /** Every stored resource of some types. */
    method Scan(names: seq<string>) returns (walked: seq<Resource>)
      requires Valid()
      requires forall i, j :: 0 <= i < j < |names| ==> names[i] != names[j]
      ensures multiset(walked) == multiset(Elements(walked))
      ensures forall r :: r in walked ==> KeyOf(r) in contents && contents[KeyOf(r)] == r && r.meta.resourceType in names
      ensures forall k :: k in contents && k.typeName in names ==> contents[k] in walked
    {
      walked := [];
      ghost var candidates: set<Resource> := {};
      for i := 0 to |names|
        invariant multiset(walked) == multiset(candidates)
        invariant forall r :: r in candidates ==> KeyOf(r) in contents && contents[KeyOf(r)] == r && r.meta.resourceType in names[..i]
        invariant forall k :: k in contents && k.typeName in names[..i] ==> contents[k] in candidates
      {
        var ids := if names[i] in resources then resources[names[i]].Keys else {};
        assert forall id :: id in ids <==> Has(resources, Key(names[i], id));
        assert names[..i + 1] == names[..i] + [names[i]];
        walked := Collect(names[i], ids, walked, candidates);
        candidates := candidates + Named(contents, names[i], ids);
        forall k | k in contents && k.typeName in names[..i + 1]
          ensures contents[k] in candidates
        {
          assert k.typeName == names[i] ==> k == Key(names[i], k.id) && k.id in ids;
        }
      }
      assert names[..|names|] == names;
      ElementsOfSet(walked, candidates);
    }

    /**
     * Returns the page of a search. It is cut out of exactly the matching resources, in some order, whether an index
     * found them or not; when no two of them share an identifier it is the page of the naive search.
     */
    method Search(resourceTypes: seq<string>, request: SearchRequest, position: Option<SortKeys.Json>)
      returns (page: Result<SearchPage<Resource>>)
      requires Valid()
      modifies this`equalities, this`equalValues
      ensures Valid()
      ensures var matching := Matching(policy, contents, Searched(resourceTypes), request.filter);
              exists found :: multiset(found) == multiset(matching) && page == PageOf(request, position, found)
      ensures DistinctIds(contents, Searched(resourceTypes)) ==>
                page == NaiveSearch(policy, contents, Searched(resourceTypes), request, position)
      ensures !request.window.cursor ==>
                && page.Ok? && page.value.next.None? && page.value.previous.None?
                && IndexLength(request.window, |Matching(policy, contents, Searched(resourceTypes), request.filter)|, page.value)
    {
      var names := Distinct(resourceTypes);
      ghost var searched := Searched(resourceTypes);
      var walked := Candidates(names, request.filter);
      ghost var candidates := Elements(walked);
      var found := Kept(policy, request.filter, walked);
      KeptIsExact(policy, request.filter, walked, candidates);
      assert (set r | r in candidates && Matches(policy, request.filter, r)) == Matching(policy, contents, searched, request.filter) by {
        assert forall r :: r in candidates ==> r == contents[KeyOf(r)];
      }
      page := PageOf(request, position, found);
      if !request.window.cursor {
        IndexSearched(request, position, found, Matching(policy, contents, searched, request.filter));
      }
      if DistinctIds(contents, searched) {
        AnyWalkIsNaive(policy, contents, searched, request, position, found);
      }
    }

    // -- Writing --------------------------------------------------------

    method NextVersion() returns (version: string)
      modifies this`versions
      ensures version == Version(old(versions)) && versions == old(versions) + 1
    {
      version := Version(versions);
      versions := versions + 1;
    }

    /** Stores a new resource; a refused one changes no dictionary. */
    method Create(typeName: string, content: Data, id: string, now: int) returns (r: Result<Resource>)
      requires Valid()
      modifies this
      ensures Valid()
      ensures (State(), r) == Resources.Create(policy, old(State()), typeName, content, id, now)
      ensures r.Err? ==> resources == old(resources) && owners == old(owners) && uniqueValues == old(uniqueValues)
      ensures r.Err? ==> equalities == old(equalities) && equalValues == old(equalValues)
    {
      r := PutNext(id, Meta(typeName, now, now, None), content);
    }

    /** Stores a resource, or its replacement, under the next version. */
    method PutNext(id: string, meta: Meta, content: Data) returns (r: Result<Resource>)
      requires Valid()
      modifies this
      ensures Valid()
      ensures (State(), r) ==
              Resources.Put(policy, old(State()), Resource(id, meta.(version := Some(Version(old(versions)))), content))
      ensures r.Err? ==> resources == old(resources) && owners == old(owners) && uniqueValues == old(uniqueValues)
      ensures r.Err? ==> equalities == old(equalities) && equalValues == old(equalValues)
    {
      var version := NextVersion();
      var resource := Resource(id, meta.(version := Some(version)), content);
      r := PutResource(resource);
      PutByParts(policy, old(contents), old(versions), resource, contents, r);
    }

    /** Stores a resource that clashes with no other: no removal fails, and every index agrees again. */
    method StoreChecked(r: Resource, values: map<string, Data>)
      requires Valid() && values == ValuesOf(policy, r) && !Clashes(policy, contents, r)
      modifies this`resources, this`owners, this`uniqueValues, this`equalities, this`equalValues, this`contents
      ensures Valid() && contents == old(contents)[KeyOf(r) := r]
    {
      ghost var before, ownersBefore := contents, owners;
      AgreeingIsRemovable(policy, contents, owners, KeyOf(r));
      PutKeepsConsistent(policy, contents, r);
      var ok := StoreResource(r, values);
      StoringAgrees(policy, before, ownersBefore, r, owners);
    }

    method PutResource(resource: Resource) returns (r: Result<Resource>)
      requires Valid()
      modifies this`resources, this`owners, this`uniqueValues, this`equalities, this`equalValues, this`contents
      ensures Valid()
      ensures r == if Clashes(policy, old(contents), resource) then Err(UniquenessTaken) else Ok(resource)
      ensures contents == if r.Ok? then old(contents)[KeyOf(resource) := resource] else old(contents)
      ensures r.Err? ==> resources == old(resources) && owners == old(owners) && uniqueValues == old(uniqueValues)
      ensures r.Err? ==> equalities == old(equalities) && equalValues == old(equalValues)
    {
      var values := ReadValues(resource);
      var clash := CheckUniqueness(resource, values);
      if clash {
        return Err(UniquenessTaken);
      }
      StoreChecked(resource, values);
      r := Ok(resource);
    }

    /** Replaces a stored resource; a refused replacement changes no dictionary. */
    method Update(typeName: string, id: string, content: Data, expected: Option<string>, now: int) returns (r: Result<Resource>)
      requires Valid()
      modifies this
      ensures Valid()
      ensures (State(), r) == Resources.Update(policy, old(State()), Key(typeName, id), content, expected, now)
      ensures r.Err? ==> resources == old(resources) && owners == old(owners) && uniqueValues == old(uniqueValues)
      ensures r.Err? ==> equalities == old(equalities) && equalValues == old(equalValues)
    {
      var stored := Get(typeName, id);
      if stored.Err? {
        return stored;
      }
      if CheckVersion(stored.value, expected).Err? {
        return Err(PreconditionFailed);
      }
      r := PutNext(id, stored.value.meta.(lastModified := now), content);
    }

    /** Deletes a stored resource; a refused deletion changes nothing. */
    method Delete(typeName: string, id: string, expected: Option<string>) returns (r: Result<()>)
      requires Valid()
      modifies this`resources, this`owners, this`uniqueValues, this`equalities, this`equalValues, this`contents
      ensures Valid()
      ensures (State(), r) == Resources.Delete(old(State()), Key(typeName, id), expected)
      ensures r.Err? ==> resources == old(resources) && owners == old(owners) && uniqueValues == old(uniqueValues)
      ensures r.Err? ==> equalities == old(equalities) && equalValues == old(equalValues)
    {
      var stored := Get(typeName, id);
      if stored.Err? {
        return Err(stored.failure);
      }
      r := CheckVersion(stored.value, expected);
      if r.Ok? {
        RemoveStored(KeyOf(stored.value));
      }
    }

    /**
     * Replaces all the resources, without checking that their unique values differ. It completes with indexes that agree
     * exactly when no resource of the list clashes with those before it.
     */
    method SetResources(rs: seq<Resource>) returns (ok: bool)
      modifies this`resources, this`owners, this`uniqueValues, this`equalities, this`equalValues, this`contents
      ensures ok ==> Tracked() && contents == Loaded(rs)
      ensures ok && Valid() <==> NoneClash(policy, rs)
    {
      resources, owners, uniqueValues, equalities, equalValues := map[], map[], map[], map[], map[];
      contents := map[];
      ok := true;
      NothingLoaded(policy);
      assert rs[..0] == [];
      for i := 0 to |rs|
        invariant Tracked() && contents == Loaded(rs[..i])
        invariant ok && LoadedSoFar(policy, rs[..i], contents, owners)
      {
        LoadedNext(rs, i);
        ghost var ownersBefore := owners;
        var values := ReadValues(rs[i]);
        ok := StoreResource(rs[i], values);
        LoadingIsExact(policy, rs, i, ownersBefore, owners, ok);
        if !ok {
          return;
        }
      }
      assert rs[..|rs|] == rs;
      LoadedIsExact(policy, rs, contents, owners);
    }
  }
}
