/**
 * The one order every document store is held to (packages/types/src/adapters/document-order.ts), which the reference of
 * the contract tests sorts by: numbers, strings by a collator, other values, and documents without
 * a value behind all others whichever the direction, the key deciding between equals.
 */
module DocumentOrder {
  import opened TextOrder
  import opened Wrappers

  /**
   * What the JSON text of a value that is neither number nor string nor null reads back as: a plain object, an array or a
   * boolean as itself, a date as a string, a function as nothing. A BigInt, or an object that holds itself, has no text:
   * `JSON.stringify` throws.
   */
  datatype Form =
    | Same
    | ReadsNumber(r: real)
    | ReadsText(s: string)
    | ReadsOther(kind: string, json: string)
    | ReadsNull
    | Throws

  /** `Other` is such a value, by its `typeof` and its JSON text; a BigInt's text is its digits. */
  datatype Value =
    | Number(r: real)
    | Infinite(negative: bool)
    | NaN
    | Text(s: string)
    | Other(kind: string, json: string, form: Form)
    | Null
    | Missing

  predicate Nullish(v: Value) { v.Null? || v.Missing? }

  type Collator = (string, string) -> int

  function Sign(n: int): int { if n > 0 then 1 else if n < 0 then -1 else 0 }

  function RankOf(v: Value): int {
    match v
    case Number(_) => 0
    case Infinite(_) => 0
    case NaN => 0
    case Text(_) => 1
    case Other(_, _, _) => 2
    case Null => 3
    case Missing => 3
  }

  function CompareReals(x: real, y: real): int { if x < y then -1 else if x > y then 1 else 0 }

  /** The sign of the difference of two numbers, which is NaN with a NaN and for an infinity and itself. */
  function CompareNumbers(a: Value, b: Value): int
    requires RankOf(a) == RankOf(b) == 0
  {
    if a.NaN? || b.NaN? || a == b then 0
    else if a.Infinite? then if a.negative then -1 else 1
    else if b.Infinite? then if b.negative then 1 else -1
    else CompareReals(a.r, b.r)
  }

  /** `compareDocumentValues`: the difference of the ranks, or the comparison within one. A NaN ties with every number. */
  function CompareValues(collate: Collator, a: Value, b: Value): int {
    if RankOf(a) != RankOf(b) then RankOf(a) - RankOf(b)
    else
      match a
      case Number(_) => CompareNumbers(a, b)
      case Infinite(_) => CompareNumbers(a, b)
      case NaN => CompareNumbers(a, b)
      case Text(s) => Sign(collate(s, b.s))
      case Other(kind, json, _) => if kind != b.kind then CompareText(kind, b.kind) else CompareText(json, b.json)
      case Null => 0
      case Missing => 0
  }

  /** Comparing them throws: their texts are asked for, and one has none. */
  predicate Clash(a: Value, b: Value) {
    a.Other? && b.Other? && a.kind == b.kind && a.kind != "boolean" && (a.form.Throws? || b.form.Throws?)
  }

  /** A comparator that is a total preorder of strings, as a collator is. */
  ghost predicate Collates(collate: Collator) {
    && (forall s, t :: Sign(collate(s, t)) == -Sign(collate(t, s)))
    && (forall s, t, u :: collate(s, t) <= 0 && collate(t, u) <= 0 ==> collate(s, u) <= 0)
  }

  /** Value comparison is a total preorder of the values that are no NaN. */
  lemma ValuesArePreordered(collate: Collator, a: Value, b: Value, c: Value)
    requires Collates(collate) && !a.NaN? && !b.NaN? && !c.NaN?
    ensures Sign(CompareValues(collate, a, b)) == -Sign(CompareValues(collate, b, a))
    ensures CompareValues(collate, a, b) <= 0 && CompareValues(collate, b, c) <= 0 ==> CompareValues(collate, a, c) <= 0
  {
    if a.Other? && b.Other? {
      CompareTextIsOrder(a.kind, b.kind, if c.Other? then c.kind else b.kind);
      CompareTextIsOrder(b.kind, a.kind, if c.Other? then c.kind else a.kind);
      CompareTextIsOrder(a.json, b.json, if c.Other? then c.json else b.json);
    }
  }

  /** With a NaN it is none: the NaN ties with two numbers that do not tie. */
  lemma NaNTiesWithAll(collate: Collator, x: real, y: real)
    requires x < y
    ensures CompareValues(collate, Number(y), NaN) <= 0 && CompareValues(collate, NaN, Number(x)) <= 0
    ensures CompareValues(collate, Number(y), Number(x)) > 0
  {}

  // -------------------------------------------------------------------------------------------------------------
  // Documents
  // -------------------------------------------------------------------------------------------------------------

  /** A stored document: its key, its partition, `v` and `nested.v`. */
  datatype Doc = Doc(id: string, part: string, v: Value, nested: Value)

  datatype Field = V | NestedV

  function ValueAt(d: Doc, field: Field): Value { if field == V then d.v else d.nested }

  /** What a query orders by: a field, or the document key alone. */
  datatype Order = Order(field: Option<Field>, desc: bool, collate: Collator)

  /** Where a document stands in an order; what a cursor carries. */
  datatype Position = Position(key: string, value: Value)

  function PositionOf(o: Order, d: Doc): Position {
    Position(d.id, if o.field.None? || Nullish(ValueAt(d, o.field.value)) then Null else ValueAt(d, o.field.value))
  }

  function ComparePositions(o: Order, a: Position, b: Position): int {
    if o.field.Some? then
      if Nullish(a.value) != Nullish(b.value) then if Nullish(a.value) then 1 else -1
      else
        var c := if Nullish(a.value) then 0 else CompareValues(o.collate, a.value, b.value);
        var directed := if o.desc then -c else c;
        if directed != 0 then directed else CompareText(a.key, b.key)
    else if o.desc then -CompareText(a.key, b.key)
    else CompareText(a.key, b.key)
  }

  predicate Before(o: Order, a: Position, b: Position) { ComparePositions(o, a, b) < 0 }

  /** Of two positions with different keys exactly one comes first; with one key and one value, neither. */
  lemma BeforeIsTotal(o: Order, a: Position, b: Position)
    requires Collates(o.collate) && !a.value.NaN? && !b.value.NaN?
    ensures a.key != b.key ==> (Before(o, a, b) <==> !Before(o, b, a))
    ensures !(Before(o, a, b) && Before(o, b, a))
    ensures a == b ==> !Before(o, a, b)
  {
    CompareTextIsOrder(a.key, b.key, a.key);
    ValuesArePreordered(o.collate, a.value, b.value, b.value);
    ValuesArePreordered(o.collate, a.value, a.value, a.value);
  }

  lemma ComparisonFlips(o: Order, a: Position, b: Position)
    requires Collates(o.collate) && !a.value.NaN? && !b.value.NaN?
    ensures ComparePositions(o, a, b) > 0 <==> Before(o, b, a)
  {
    CompareTextIsOrder(a.key, b.key, a.key);
    ValuesArePreordered(o.collate, a.value, b.value, b.value);
  }

  /** The order is transitive, so with distinct keys it is a strict total order. */
  lemma BeforeIsTransitive(o: Order, a: Position, b: Position, c: Position)
    requires Collates(o.collate) && !a.value.NaN? && !b.value.NaN? && !c.value.NaN?
    requires Before(o, a, b) && Before(o, b, c)
    ensures Before(o, a, c)
  {
    CompareTextIsOrder(a.key, b.key, c.key);
    CompareTextIsOrder(c.key, b.key, a.key);
    CompareTextIsOrder(a.key, c.key, b.key);
    CompareTextIsOrder(b.key, c.key, a.key);
    if o.field.Some? {
      ValuesArePreordered(o.collate, a.value, b.value, c.value);
      ValuesArePreordered(o.collate, c.value, b.value, a.value);
      ValuesArePreordered(o.collate, b.value, c.value, a.value);
      ValuesArePreordered(o.collate, c.value, a.value, b.value);
      ValuesArePreordered(o.collate, b.value, a.value, c.value);
      ValuesArePreordered(o.collate, a.value, c.value, b.value);
    }
  }
}
