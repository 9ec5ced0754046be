/** The "bulkId:" references of a bulk operation, and their replacement by the identifiers of created resources. */
module References {
  import opened Results
  import opened Resources

  const BULK_ID_PREFIX := "bulkId:"

  predicate IsReference(text: string) {
    BULK_ID_PREFIX <= text
  }

  function BulkIdOf(text: string): string
    requires IsReference(text)
  {
    text[|BULK_ID_PREFIX|..]
  }

  /** What replaces a bulkId, or why it cannot be replaced. */
  type Replacer = string -> Result<string>

  /** A traversal keeps a value without reference as it is, and copies the others with the changed parts only. */
  datatype Change = Kept | Changed(value: Data)

  /** The bulkIds that a traversal asked a replacement for, in order, and what it gave; a failure ends it. */
  datatype Visit<+T> = Visit(calls: seq<string>, outcome: Result<T>)

  function Applied(value: Data, change: Change): Data {
    if change.Changed? then change.value else value
  }

  function AppliedAll(items: seq<Data>, changes: seq<Change>): (r: seq<Data>)
    requires |items| == |changes|
    ensures |r| == |items|
  {
    seq(|items|, i requires 0 <= i < |items| => Applied(items[i], changes[i]))
  }

  /** Replaces every reference of a value. */
  function ReplaceBulkIds(value: Data, replace: Replacer): Visit<Change>
    decreases value, 1
  {
    match value
    case Str(text) =>
      if IsReference(text) then
        var id := replace(BulkIdOf(text));
        Visit([BulkIdOf(text)], if id.Ok? then Ok(Changed(Str(id.value))) else Err(id.failure))
      else Visit([], Ok(Kept))
    case List(items) => Rebuilt(value, ReplaceEach(items, replace))
    case Dict(_, items) => Rebuilt(value, ReplaceEach(items, replace))
    case Model(_, _, items) => Rebuilt(value, ReplaceEach(items, replace))
    case Other(_) => Visit([], Ok(Kept))
  }

  /** The value with its changed items, or the value itself when none changed. */
  function Rebuilt(value: Data, v: Visit<seq<Change>>): Visit<Change>
    requires value.List? || value.Dict? || value.Model?
    requires v.outcome.Ok? ==> |v.outcome.value| == |value.items|
  {
    Visit(v.calls,
      if v.outcome.Err? then Err(v.outcome.failure)
      else if exists i :: 0 <= i < |v.outcome.value| && v.outcome.value[i].Changed? then
        Ok(Changed(value.(items := AppliedAll(value.items, v.outcome.value))))
      else Ok(Kept))
  }

  function ReplaceEach(items: seq<Data>, replace: Replacer): (v: Visit<seq<Change>>)
    ensures v.outcome.Ok? ==> |v.outcome.value| == |items|
    decreases items, 0
  {
    if items == [] then Visit([], Ok([]))
    else
      var first := ReplaceBulkIds(items[0], replace);
      if first.outcome.Err? then Visit(first.calls, Err(first.outcome.failure))
      else
        var rest := ReplaceEach(items[1..], replace);
        Visit(first.calls + rest.calls,
          if rest.outcome.Err? then Err(rest.outcome.failure) else Ok([first.outcome.value] + rest.outcome.value))
  }

  // -- The plain substitution -------------------------------------------

  /** The bulkIds that a value mentions, in order. */
  function Mentions(value: Data): seq<string>
    decreases value, 1
  {
    match value
    case Str(text) => if IsReference(text) then [BulkIdOf(text)] else []
    case List(items) => MentionsOfAll(items)
    case Dict(_, items) => MentionsOfAll(items)
    case Model(_, _, items) => MentionsOfAll(items)
    case Other(_) => []
  }

  function MentionsOfAll(items: seq<Data>): seq<string>
    decreases items, 0
  {
    if items == [] then [] else Mentions(items[0]) + MentionsOfAll(items[1..])
  }

  /** A value with every reference replaced. */
  function Substitute(value: Data, f: string -> string): Data
    decreases value, 1
  {
    match value
    case Str(text) => if IsReference(text) then Str(f(BulkIdOf(text))) else value
    case List(items) => List(SubstituteAll(items, f))
    case Dict(names, items) => Dict(names, SubstituteAll(items, f))
    case Model(name, fields, items) => Model(name, fields, SubstituteAll(items, f))
    case Other(_) => value
  }

  function SubstituteAll(items: seq<Data>, f: string -> string): (r: seq<Data>)
    ensures |r| == |items|
    decreases items, 0
  {
    if items == [] then [] else [Substitute(items[0], f)] + SubstituteAll(items[1..], f)
  }

  predicate AllReplaced(bulkIds: seq<string>, replace: Replacer) {
    forall b :: b in bulkIds ==> replace(b).Ok?
  }

  /** The bulkIds up to the first one that cannot be replaced. */
  function UpToFailure(bulkIds: seq<string>, replace: Replacer): seq<string> {
    if bulkIds == [] then []
    else [bulkIds[0]] + (if replace(bulkIds[0]).Ok? then UpToFailure(bulkIds[1..], replace) else [])
  }

  function FirstFailure(bulkIds: seq<string>, replace: Replacer): (failure: Failure)
    requires !AllReplaced(bulkIds, replace)
    ensures exists b :: b in bulkIds && replace(b) == Err(failure)
  {
    if replace(bulkIds[0]).Err? then replace(bulkIds[0]).failure
    else
      assert bulkIds == [bulkIds[0]] + bulkIds[1..];
      FirstFailure(bulkIds[1..], replace)
  }

  /** The identifier that replaces a bulkId; the empty text stands for none. */
  function Ids(replace: Replacer): string -> string {
    (b: string) => if replace(b).Ok? then replace(b).value else ""
  }

  /** A traversal asks for exactly the mentions, in order, up to the first that fails, and fails with it. */
  ghost predicate Visits<T>(v: Visit<T>, mentions: seq<string>, replace: Replacer) {
    && v.calls == UpToFailure(mentions, replace)
    && (v.outcome.Ok? <==> AllReplaced(mentions, replace))
    && (v.outcome.Err? ==> v.outcome.failure == FirstFailure(mentions, replace))
  }

  lemma AllReplacedConcat(a: seq<string>, b: seq<string>, replace: Replacer)
    ensures AllReplaced(a + b, replace) <==> AllReplaced(a, replace) && AllReplaced(b, replace)
  {
    assert forall x :: x in a + b <==> x in a || x in b;
  }

  lemma AllReplacedCons(a: seq<string>, replace: Replacer)
    requires a != []
    ensures AllReplaced(a, replace) <==> replace(a[0]).Ok? && AllReplaced(a[1..], replace)
  {
    assert [a[0]] + a[1..] == a;
    AllReplacedConcat([a[0]], a[1..], replace);
  }

  lemma HeadAndTail(a: seq<string>, b: seq<string>)
    requires a != []
    ensures (a + b)[0] == a[0] && (a + b)[1..] == a[1..] + b
    ensures a + b == [a[0]] + (a[1..] + b)
  {
  }

  lemma {:induction false} UpToLaterFailure(a: seq<string>, b: seq<string>, replace: Replacer)
    requires AllReplaced(a, replace)
    ensures UpToFailure(a + b, replace) == a + UpToFailure(b, replace)
  {
    if a == [] {
      assert a + b == b;
    } else {
      var tail, rest := a[1..], UpToFailure(b, replace);
      AllReplacedCons(a, replace);
      UpToLaterFailure(tail, b, replace);
      HeadAndTail(a, b);
      HeadAndTail(a, rest);
    }
  }

  lemma {:induction false} UpToFirstFailure(a: seq<string>, b: seq<string>, replace: Replacer)
    requires !AllReplaced(a, replace)
    ensures UpToFailure(a + b, replace) == UpToFailure(a, replace)
  {
    HeadAndTail(a, b);
    if replace(a[0]).Ok? {
      AllReplacedCons(a, replace);
      UpToFirstFailure(a[1..], b, replace);
    }
  }

  lemma UpToFailureConcat(a: seq<string>, b: seq<string>, replace: Replacer)
    ensures UpToFailure(a + b, replace) ==
            if AllReplaced(a, replace) then a + UpToFailure(b, replace) else UpToFailure(a, replace)
  {
    if AllReplaced(a, replace) {
      UpToLaterFailure(a, b, replace);
    } else {
      UpToFirstFailure(a, b, replace);
    }
  }

  lemma UpToNoFailure(a: seq<string>, replace: Replacer)
    ensures AllReplaced(a, replace) ==> UpToFailure(a, replace) == a
  {
    if AllReplaced(a, replace) {
      UpToLaterFailure(a, [], replace);
      assert a + [] == a;
    }
  }

  lemma {:induction false} FirstFailureConcat(a: seq<string>, b: seq<string>, replace: Replacer)
    requires !AllReplaced(a, replace) || !AllReplaced(b, replace)
    ensures !AllReplaced(a + b, replace)
    ensures FirstFailure(a + b, replace) == if AllReplaced(a, replace) then FirstFailure(b, replace) else FirstFailure(a, replace)
  {
    AllReplacedConcat(a, b, replace);
    if a == [] {
      assert a + b == b;
    } else if replace(a[0]).Ok? {
      assert (a + b)[1..] == a[1..] + b && a == [a[0]] + a[1..];
      AllReplacedConcat([a[0]], a[1..], replace);
      FirstFailureConcat(a[1..], b, replace);
    }
  }

  /** A visit of one part, then of another unless the first one failed, visits the mentions of both. */
  lemma VisitsConcat<T, U, V>(first: Visit<T>, rest: Visit<U>, both: Visit<V>, a: seq<string>, b: seq<string>, replace: Replacer)
    requires Visits(first, a, replace) && Visits(rest, b, replace)
    requires both.calls == first.calls + (if first.outcome.Ok? then rest.calls else [])
    requires both.outcome.Ok? <==> first.outcome.Ok? && rest.outcome.Ok?
    requires both.outcome.Err? ==>
               both.outcome.failure == if first.outcome.Err? then first.outcome.failure else rest.outcome.failure
    ensures Visits(both, a + b, replace)
  {
    AllReplacedConcat(a, b, replace);
    UpToFailureConcat(a, b, replace);
    UpToNoFailure(a, replace);
    if both.outcome.Err? {
      FirstFailureConcat(a, b, replace);
    }
  }

  /** The traversal that copies on change gives the plain substitution, and keeps exactly the values without reference. */
  lemma {:induction false} ReplaceIsSubstitution(value: Data, replace: Replacer)
    ensures var v := ReplaceBulkIds(value, replace);
            && Visits(v, Mentions(value), replace)
            && (v.outcome.Ok? ==>
                  && Applied(value, v.outcome.value) == Substitute(value, Ids(replace))
                  && (v.outcome.value.Kept? <==> Mentions(value) == []))
    decreases value, 1
  {
    match value
    case Str(text) =>
    case Other(_) =>
    case _ =>
      ReplaceEachIsSubstitution(value.items, replace);
      AllKeptIsSame(value.items, ReplaceEach(value.items, replace).outcome);
  }

  lemma AllKeptIsSame(items: seq<Data>, outcome: Result<seq<Change>>)
    ensures outcome.Ok? && |outcome.value| == |items| && (forall i :: 0 <= i < |items| ==> outcome.value[i].Kept?) ==>
              AppliedAll(items, outcome.value) == items
  {
  }

  lemma {:induction false} ReplaceEachIsSubstitution(items: seq<Data>, replace: Replacer)
    ensures var v := ReplaceEach(items, replace);
            && Visits(v, MentionsOfAll(items), replace)
            && (v.outcome.Ok? ==>
                  && AppliedAll(items, v.outcome.value) == SubstituteAll(items, Ids(replace))
                  && ((forall i :: 0 <= i < |items| ==> v.outcome.value[i].Kept?) <==> MentionsOfAll(items) == []))
    decreases items, 0
  {
    if items != [] {
      ReplaceIsSubstitution(items[0], replace);
      ReplaceEachIsSubstitution(items[1..], replace);
      var first, rest := ReplaceBulkIds(items[0], replace), ReplaceEach(items[1..], replace);
      VisitsConcat(first, rest, ReplaceEach(items, replace), Mentions(items[0]), MentionsOfAll(items[1..]), replace);
      if first.outcome.Ok? && rest.outcome.Ok? {
        AppliedCons(items, first.outcome.value, rest.outcome.value);
        var changes := [first.outcome.value] + rest.outcome.value;
        assert forall i :: 0 < i < |items| ==> changes[i] == rest.outcome.value[i - 1];
        assert forall i :: 0 <= i < |rest.outcome.value| ==> rest.outcome.value[i] == changes[i + 1];
      }
    }
  }

  lemma AppliedCons(items: seq<Data>, first: Change, rest: seq<Change>)
    requires |items| == 1 + |rest|
    ensures AppliedAll(items, [first] + rest) == [Applied(items[0], first)] + AppliedAll(items[1..], rest)
  {
  }

  /** Replacing the mentions leaves none exactly when no replacement is a reference in turn. */
  lemma {:induction false} SubstituteLeavesNone(value: Data, f: string -> string)
    ensures Mentions(Substitute(value, f)) == [] <==> forall b :: b in Mentions(value) ==> !IsReference(f(b))
    decreases value, 1
  {
    match value
    case Str(text) =>
      if IsReference(text) {
        assert BulkIdOf(text) in Mentions(value);
      }
    case Other(_) =>
    case _ => SubstituteAllLeavesNone(value.items, f);
  }

  lemma {:induction false} SubstituteAllLeavesNone(items: seq<Data>, f: string -> string)
    ensures MentionsOfAll(SubstituteAll(items, f)) == [] <==> forall b :: b in MentionsOfAll(items) ==> !IsReference(f(b))
    decreases items, 0
  {
    if items != [] {
      SubstituteLeavesNone(items[0], f);
      SubstituteAllLeavesNone(items[1..], f);
      assert forall b :: b in MentionsOfAll(items) <==> b in Mentions(items[0]) || b in MentionsOfAll(items[1..]);
    }
  }

  /** A text is a reference exactly when it starts with "bulkId:", and then references what follows. */
  lemma ReferenceIsRead(text: string, b: string)
    ensures IsReference(text) <==> |text| >= 7 && text[..7] == "bulkId:"
    ensures IsReference("bulkId:" + b) && BulkIdOf("bulkId:" + b) == b
  {
    assert BULK_ID_PREFIX == "bulkId:" && |BULK_ID_PREFIX| == 7;
    assert ("bulkId:" + b)[..7] == "bulkId:" && ("bulkId:" + b)[7..] == b;
  }

  /** A value without reference stays as it is. */
  lemma {:induction false} SubstituteKeepsOthers(value: Data, f: string -> string)
    requires Mentions(value) == []
    ensures Substitute(value, f) == value
    decreases value, 1
  {
    match value
    case Str(text) =>
    case Other(_) =>
    case _ => SubstituteAllKeepsOthers(value.items, f);
  }

  lemma {:induction false} SubstituteAllKeepsOthers(items: seq<Data>, f: string -> string)
    requires MentionsOfAll(items) == []
    ensures SubstituteAll(items, f) == items
    decreases items, 0
  {
    if items != [] {
      SubstituteKeepsOthers(items[0], f);
      SubstituteAllKeepsOthers(items[1..], f);
    }
  }

  // -- Paths ------------------------------------------------------------

  /** The segments of a path between its slashes. */
  function Split(path: string): (segments: seq<string>)
    ensures segments != []
    ensures forall s :: s in segments ==> '/' !in s
  {
    if path == [] then [[]]
    else
      var rest := Split(path[1..]);
      if path[0] == '/' then [[]] + rest else [[path[0]] + rest[0]] + rest[1..]
  }

  function Join(segments: seq<string>): string
    requires segments != []
  {
    if |segments| == 1 then segments[0] else segments[0] + "/" + Join(segments[1..])
  }

  lemma {:induction false} JoinSplit(path: string)
    ensures Join(Split(path)) == path
  {
    if path != [] {
      var rest := Split(path[1..]);
      JoinSplit(path[1..]);
      assert path == [path[0]] + path[1..];
      if path[0] == '/' {
        assert Split(path)[1..] == rest;
      } else {
        assert Split(path)[1..] == rest[1..] && Split(path)[0] == [path[0]] + rest[0];
      }
    }
  }

  lemma {:induction false} SplitJoin(segments: seq<string>)
    requires segments != [] && forall s :: s in segments ==> '/' !in s
    ensures Split(Join(segments)) == segments
    decreases |segments|, |segments[0]|
  {
    var path, head := Join(segments), segments[0];
    if head == [] {
      if |segments| > 1 {
        SplitJoin(segments[1..]);
        assert path == ['/'] + Join(segments[1..]);
        assert segments == [[]] + segments[1..];
      }
    } else {
      var shorter := [head[1..]] + segments[1..];
      assert shorter[1..] == segments[1..];
      forall s | s in shorter
        ensures '/' !in s
      {
        assert s == head[1..] || s in segments[1..];
        assert head == [head[0]] + head[1..] && head in segments;
      }
      SplitJoin(shorter);
      assert path == [head[0]] + Join(shorter);
      assert head == [head[0]] + head[1..];
    }
  }

  function Strs(texts: seq<string>): (r: seq<Data>)
    ensures |r| == |texts|
  {
    seq(|texts|, i requires 0 <= i < |texts| => Str(texts[i]))
  }

  /** The texts of some segments, each a string. */
  function Texts(items: seq<Data>): (r: seq<string>)
    ensures |r| == |items|
  {
    seq(|items|, i requires 0 <= i < |items| => if items[i].Str? then items[i].text else "")
  }

  // -- Operations -------------------------------------------------------

  datatype Verb = Post | Put | Patch | Delete

  /** One operation of a bulk request; one that failed its validation holds the status of its error. */
  datatype Operation = Operation(verb: Option<Verb>, path: Option<string>, bulkId: Option<string>, version: Option<string>,
                                 data: Data, invalid: Option<ErrorStatus>)

  /** Replaces the references of the path, then those of the data. */
  function ResolveOperation(operation: Operation, replace: Replacer): Visit<Operation> {
    var segments := if operation.path.Some? then Strs(Split(operation.path.value)) else [];
    var inPath := ReplaceEach(segments, replace);
    if inPath.outcome.Err? then Visit(inPath.calls, Err(inPath.outcome.failure))
    else
      var path := if operation.path.None? then None else Some(Join(Texts(AppliedAll(segments, inPath.outcome.value))));
      var inData := ReplaceBulkIds(operation.data, replace);
      Visit(inPath.calls + inData.calls,
        if inData.outcome.Err? then Err(inData.outcome.failure)
        else Ok(operation.(path := path, data := Applied(operation.data, inData.outcome.value))))
  }

  /** The bulkIds an operation references: those a traversal that replaces each by itself asks for. */
  function ReferencesOf(operation: Operation): seq<string> {
    ResolveOperation(operation, b => Ok(b)).calls
  }

  function OperationMentions(operation: Operation): seq<string> {
    (if operation.path.Some? then MentionsOfAll(Strs(Split(operation.path.value))) else []) + Mentions(operation.data)
  }

  function SubstituteOperation(operation: Operation, f: string -> string): Operation {
    operation.(
      path := if operation.path.None? then None
        else Some(Join(Texts(SubstituteAll(Strs(Split(operation.path.value)), f)))),
      data := Substitute(operation.data, f))
  }

  /** A resolved operation is the operation with every reference replaced; it resolves exactly when each one can be. */
  lemma ResolveIsSubstitution(operation: Operation, replace: Replacer)
    ensures var v := ResolveOperation(operation, replace);
            && Visits(v, OperationMentions(operation), replace)
            && (v.outcome.Ok? ==> v.outcome.value == SubstituteOperation(operation, Ids(replace)))
  {
    var segments := if operation.path.Some? then Strs(Split(operation.path.value)) else [];
    ReplaceEachIsSubstitution(segments, replace);
    ReplaceIsSubstitution(operation.data, replace);
    VisitsConcat(ReplaceEach(segments, replace), ReplaceBulkIds(operation.data, replace), ResolveOperation(operation, replace),
                 MentionsOfAll(segments), Mentions(operation.data), replace);
  }

  /** The references that are collected are those that a resolution replaces. */
  lemma ReferencesAreMentions(operation: Operation)
    ensures ReferencesOf(operation) == OperationMentions(operation)
  {
    var self: Replacer := b => Ok(b);
    ResolveIsSubstitution(operation, self);
    UpToNoFailure(OperationMentions(operation), self);
  }

  /** An operation without reference resolves to itself. */
  lemma NothingToResolve(operation: Operation, replace: Replacer)
    requires OperationMentions(operation) == []
    ensures ResolveOperation(operation, replace).outcome == Ok(operation)
  {
    ResolveIsSubstitution(operation, replace);
    SubstituteKeepsOthers(operation.data, Ids(replace));
    if operation.path.Some? {
      var segments := Split(operation.path.value);
      SubstituteAllKeepsOthers(Strs(segments), Ids(replace));
      assert Texts(Strs(segments)) == segments;
      JoinSplit(operation.path.value);
    }
  }

  /** An identifier that can stand in a path and is no reference. */
  predicate CleanId(id: string) {
    '/' !in id && !IsReference(id)
  }

  lemma {:induction false} SubstituteSegments(segments: seq<string>, f: string -> string)
    requires forall s :: s in segments ==> '/' !in s
    requires forall b :: b in MentionsOfAll(Strs(segments)) ==> CleanId(f(b))
    ensures Strs(Texts(SubstituteAll(Strs(segments), f))) == SubstituteAll(Strs(segments), f)
    ensures forall s :: s in Texts(SubstituteAll(Strs(segments), f)) ==> '/' !in s
  {
    if segments != [] {
      assert Strs(segments)[1..] == Strs(segments[1..]);
      SubstituteSegments(segments[1..], f);
      var all, rest := SubstituteAll(Strs(segments), f), SubstituteAll(Strs(segments[1..]), f);
      assert all == [Substitute(Str(segments[0]), f)] + rest;
      assert Texts(all) == [all[0].text] + Texts(rest);
      assert segments[0] in segments;
      if IsReference(segments[0]) {
        assert BulkIdOf(segments[0]) in MentionsOfAll(Strs(segments));
      }
      assert '/' !in all[0].text;
    }
  }

  /** No reference is left in a resolved operation, when the identifiers that replace them are clean. */
  lemma ResolvedHasNoReference(operation: Operation, replace: Replacer)
    requires ResolveOperation(operation, replace).outcome.Ok?
    requires forall b :: b in OperationMentions(operation) ==> CleanId(Ids(replace)(b))
    ensures ReferencesOf(ResolveOperation(operation, replace).outcome.value) == []
    ensures Mentions(ResolveOperation(operation, replace).outcome.value.data) == []
  {
    var f := Ids(replace);
    var resolved := SubstituteOperation(operation, f);
    ResolveIsSubstitution(operation, replace);
    SubstituteLeavesNone(operation.data, f);
    ReferencesAreMentions(resolved);
    if operation.path.Some? {
      var segments := Split(operation.path.value);
      SubstituteAllLeavesNone(Strs(segments), f);
      SubstituteSegments(segments, f);
      SplitJoin(Texts(SubstituteAll(Strs(segments), f)));
    }
  }
}
