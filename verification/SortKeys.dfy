/** The keys that order the resources of a search, and the JSON positions that hold them between two pages. */
module SortKeys {
  import opened Results
  import opened Sorting

  /** A sort value. Values of one attribute share a kind; the kinds follow each other to make the order total. */
  datatype Scalar = Flag(flag: bool) | Number(number: real) | Moment(instant: int) | Text(text: string)

  /** The key of a resource: whether its sort value is missing, the value or "", then its identifier. */
  datatype SortKey = SortKey(missing: bool, value: Scalar, id: string)

  datatype Direction = Next | Previous

  /**
   * The JSON values a position is made of. `Word` is one of the texts "next" and "previous", `Dated` an object with
   * the moment its "datetime" member holds, and `Anchor` an object with its "d", "k" and "i" members, if it has them.
   */
  datatype Json =
    | Null
    | Plain(scalar: Scalar)
    | Word(direction: Direction)
    | Dated(instant: Option<int>)
    | Anchor(d: Option<Json>, k: Option<Json>, i: Option<Json>)

  // -- The order of the keys --------------------------------------------

  predicate TextLess(a: string, b: string) {
    b != [] && (a == [] || a[0] < b[0] || (a[0] == b[0] && TextLess(a[1..], b[1..])))
  }

  function Kind(s: Scalar): nat {
    match s
    case Flag(_) => 0
    case Number(_) => 1
    case Moment(_) => 2
    case Text(_) => 3
  }

  predicate ScalarLess(a: Scalar, b: Scalar) {
    match (a, b)
    case (Flag(x), Flag(y)) => !x && y
    case (Number(x), Number(y)) => x < y
    case (Moment(x), Moment(y)) => x < y
    case (Text(x), Text(y)) => TextLess(x, y)
    case _ => Kind(a) < Kind(b)
  }

  predicate KeyLess(a: SortKey, b: SortKey) {
    if a.missing != b.missing then b.missing
    else if a.value != b.value then ScalarLess(a.value, b.value)
    else TextLess(a.id, b.id)
  }

  /** The order the resources are returned in: a descending search reverses the keys as a whole. */
  function Order(descending: bool): (SortKey, SortKey) -> bool {
    if descending then (a, b) => KeyLess(b, a) else (a, b) => KeyLess(a, b)
  }

  /** A text is the start of the other one, or has a smaller letter where they first differ. */
  ghost predicate LettersNotAfter(a: string, b: string) {
    a <= b || exists n :: 0 <= n < |a| && n < |b| && a[..n] == b[..n] && a[n] < b[n]
  }

  lemma {:induction false} NotLessText(a: string, b: string)
    ensures !TextLess(b, a) <==> LettersNotAfter(a, b)
  {
    if a != [] && b != [] && a[0] == b[0] {
      NotLessText(a[1..], b[1..]);
      assert a == [a[0]] + a[1..] && b == [b[0]] + b[1..];
      if n :| 0 <= n < |a[1..]| && n < |b[1..]| && a[1..][..n] == b[1..][..n] && a[1..][n] < b[1..][n] {
        assert a[..n + 1] == [a[0]] + a[1..][..n] && b[..n + 1] == [b[0]] + b[1..][..n];
      }
      if n :| 0 <= n < |a| && n < |b| && a[..n] == b[..n] && a[n] < b[n] {
        assert a[1..][..n - 1] == a[..n][1..] && b[1..][..n - 1] == b[..n][1..];
      }
    } else if a != [] && b != [] {
      if a[0] < b[0] {
        assert a[..0] == b[..0];
      } else {
        assert forall n :: 0 < n <= |a| && n <= |b| ==> a[..n][0] != b[..n][0];
      }
    }
  }

  lemma {:induction false} TextLessTotal(a: string, b: string)
    ensures TextLess(a, b) || a == b || TextLess(b, a)
    ensures !(TextLess(a, b) && TextLess(b, a))
    ensures !TextLess(a, a)
  {
    if a != [] && b != [] {
      assert a == [a[0]] + a[1..] && b == [b[0]] + b[1..];
      TextLessTotal(a[1..], b[1..]);
    } else if a != [] {
      TextLessTotal(a[1..], a[1..]);
    }
  }

  lemma {:induction false} TextLessTransitive(a: string, b: string, c: string)
    requires TextLess(a, b) && TextLess(b, c)
    ensures TextLess(a, c)
  {
    if a != [] && a[0] == b[0] == c[0] {
      TextLessTransitive(a[1..], b[1..], c[1..]);
    }
  }

  lemma ScalarLessTotal(a: Scalar, b: Scalar)
    ensures ScalarLess(a, b) || a == b || ScalarLess(b, a)
    ensures !(ScalarLess(a, b) && ScalarLess(b, a))
    ensures !ScalarLess(a, a)
  {
    if a.Text? {
      TextLessTotal(a.text, if b.Text? then b.text else []);
    }
  }

  lemma ScalarLessTransitive(a: Scalar, b: Scalar, c: Scalar)
    requires ScalarLess(a, b) && ScalarLess(b, c)
    ensures ScalarLess(a, c)
  {
    if a.Text? && b.Text? && c.Text? {
      TextLessTransitive(a.text, b.text, c.text);
    }
  }

  lemma KeyLessTotal(a: SortKey, b: SortKey)
    ensures KeyLess(a, b) || a == b || KeyLess(b, a)
    ensures !KeyLess(a, a)
  {
    ScalarLessTotal(a.value, b.value);
    TextLessTotal(a.id, b.id);
  }

  lemma KeyLessTransitive(a: SortKey, b: SortKey, c: SortKey)
    requires KeyLess(a, b) && KeyLess(b, c)
    ensures KeyLess(a, c)
  {
    if a.missing == b.missing == c.missing {
      if a.value != b.value && b.value != c.value {
        ScalarLessTransitive(a.value, b.value, c.value);
        ScalarLessTotal(a.value, b.value);
      } else if a.value == b.value == c.value {
        TextLessTransitive(a.id, b.id, c.id);
      }
    }
  }

  /** Two keys are always comparable, and equal only when they are the same, in both directions of a search. */
  lemma OrderIsStrictAndTotal(descending: bool)
    ensures StrictTotalOrder(Order(descending))
  {
    var lt := Order(descending);
    forall a, b
      ensures !lt(a, a) && (lt(a, b) || a == b || lt(b, a))
    {
      KeyLessTotal(a, b);
    }
    forall a, b, c | lt(a, b) && lt(b, c)
      ensures lt(a, c)
    {
      if descending {
        KeyLessTransitive(c, b, a);
      } else {
        KeyLessTransitive(a, b, c);
      }
    }
  }

  // -- Positions --------------------------------------------------------

  function Encode(value: Scalar): Json {
    if value.Moment? then Dated(Some(value.instant)) else Plain(value)
  }

  function Decode(value: Json): Result<Scalar> {
    match value
    case Plain(scalar) => Ok(scalar)
    case Dated(Some(instant)) => Ok(Moment(instant))
    case _ => Err(InvalidCursor)
  }

  function Position(direction: Direction, key: SortKey): Json {
    Anchor(Some(Word(direction)), Some(if key.missing then Null else Encode(key.value)), Some(Plain(Text(key.id))))
  }

  function ReadPosition(position: Json): Result<(Direction, SortKey)> {
    match position
    case Anchor(Some(Word(direction)), Some(k), Some(Plain(Text(id)))) =>
      if k.Null? then Ok((direction, SortKey(true, Text(""), id)))
      else
        var value :- Decode(k);
        Ok((direction, SortKey(false, value, id)))
    case _ => Err(InvalidCursor)
  }

  /** A position is readable exactly when it has a direction, an identifier and no value or one of a known form. */
  lemma ReadableExactly(position: Json)
    ensures var read := ReadPosition(position);
            && (read.Err? ==> read == Err(InvalidCursor) && read.failure.Status() == 400)
            && (read.Ok? <==>
                  && position.Anchor? && position.d.Some? && position.d.value.Word?
                  && position.i.Some? && position.i.value.Plain? && position.i.value.scalar.Text?
                  && position.k.Some?
                  && (position.k.value.Null? || position.k.value.Plain? || (position.k.value.Dated? && position.k.value.instant.Some?)))
            && (read.Ok? ==>
                  read.value.0 == position.d.value.direction && read.value.1.id == position.i.value.scalar.text
                  && (read.value.1.missing <==> position.k.value.Null?))
  {
  }

  /** The keys that a search gives its resources: a missing value is held as "". */
  predicate Canonical(key: SortKey) {
    key.missing ==> key.value == Text("")
  }

  /** A position read back gives the direction and the key it was made from, exactly for the keys a search makes. */
  lemma PositionRoundTrip(direction: Direction, key: SortKey)
    ensures ReadPosition(Position(direction, key)).Ok?
    ensures ReadPosition(Position(direction, key)) == Ok((direction, key)) <==> Canonical(key)
  {
    if !key.missing {
      assert Decode(Encode(key.value)) == Ok(key.value);
    }
  }

  /** Missing values come last in an ascending search, and first in a descending one, which reverses whole keys. */
  lemma MissingValuesAtOneEnd(missing: SortKey, present: SortKey)
    requires missing.missing && !present.missing
    ensures Order(false)(present, missing) && !Order(false)(missing, present)
    ensures Order(true)(missing, present) && !Order(true)(present, missing)
  {
  }
}
