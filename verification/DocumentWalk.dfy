/**
 * Cursor paging over a document store against a simple list: the reference, the walk and the chunks of
 * packages/contract-tests/src/document-store-model.ts, and the query every store is held to
 * (packages/types/src/adapters/document-order.ts).
 *
 * The reference lists documents where the source lists their keys; keys are distinct, so one stands for the other.
 */
module DocumentWalk {
  import opened Arithmetic
  import opened DocumentOrder
  import opened TextOrder
  import opened Wrappers

  // -------------------------------------------------------------------------------------------------------------
  // Queries and the reference
  // -------------------------------------------------------------------------------------------------------------

  datatype Condition = Eq(value: Value) | Gt(value: Value) | Lt(value: Value) | Between(low: Value, high: Value)

  /** `===` between values read from two documents: no NaN equals itself, and no two objects, functions or symbols are one. */
  predicate Identical(a: Value, b: Value) {
    match a
    case NaN => false
    case Other(kind, _, _) => kind in {"boolean", "bigint"} && a == b
    case _ => a == b
  }

  predicate MatchesSortKey(collate: Collator, v: Value, c: Condition) {
    match c
    case Eq(target) => Identical(v, target)
    case Gt(target) => CompareValues(collate, v, target) > 0
    case Lt(target) => CompareValues(collate, v, target) < 0
    case Between(low, high) => CompareValues(collate, v, low) >= 0 && CompareValues(collate, v, high) <= 0
  }

  datatype OrderBy = OrderBy(field: Field, desc: bool)

  /** `partition` is none for `*`; a sort key is a condition on `v`; `ascending` counts only without `orderBy`. */
  datatype Query = Query(partition: Option<string>, sortKey: Option<Condition>, orderBy: Option<OrderBy>, ascending: bool,
                         collate: Collator)

  predicate Hit(q: Query, d: Doc) {
    && (q.partition.None? || d.part == q.partition.value)
    && (q.sortKey.None? || MatchesSortKey(q.collate, d.v, q.sortKey.value))
  }

  /** The reference's comparator, written out on its own in the contract tests. */
  function ReferenceCompare(q: Query, a: Doc, b: Doc): int {
    if q.orderBy.None? then CompareText(a.id, b.id)
    else
      var x, y := ValueAt(a, q.orderBy.value.field), ValueAt(b, q.orderBy.value.field);
      if Nullish(x) != Nullish(y) then if Nullish(x) then 1 else -1
      else
        var c := if Nullish(x) then 0 else CompareValues(q.collate, x, y);
        var directed := if q.orderBy.value.desc then -c else c;
        if directed != 0 then directed else CompareText(a.id, b.id)
  }

  /** The order a store answers a query in: without `orderBy`, by the field of the sort key if there is one. */
  function StoreOrder(q: Query): Order {
    if q.orderBy.Some? then Order(Some(q.orderBy.value.field), q.orderBy.value.desc, q.collate)
    else Order(if q.sortKey.Some? then Some(V) else None, !q.ascending, q.collate)
  }

  /** The order of the reference: the store's with `orderBy`, the keys' without. */
  function ReferenceOrder(q: Query): Order { if q.orderBy.Some? then StoreOrder(q) else Order(None, false, q.collate) }

  lemma ReferenceComparesAsPositions(q: Query, a: Doc, b: Doc)
    ensures ReferenceCompare(q, a, b)
         == ComparePositions(ReferenceOrder(q), PositionOf(ReferenceOrder(q), a), PositionOf(ReferenceOrder(q), b))
  {}

  predicate Keeps(q: Query, after: Option<Position>, d: Doc) {
    Hit(q, d) && (after.None? || ComparePositions(StoreOrder(q), PositionOf(StoreOrder(q), d), after.value) > 0)
  }

  function Selected(q: Query, after: Option<Position>, docs: seq<Doc>): (r: seq<Doc>)
    ensures forall d :: d in r <==> d in docs && Keeps(q, after, d)
  {
    if docs == [] then []
    else
      var last := docs[|docs| - 1];
      assert docs == docs[..|docs| - 1] + [last];
      Selected(q, after, docs[..|docs| - 1]) + if Keeps(q, after, last) then [last] else []
  }

  function Inserted(o: Order, d: Doc, sorted: seq<Doc>): seq<Doc> {
    if sorted == [] then [d]
    else if Before(o, PositionOf(o, d), PositionOf(o, sorted[0])) then [d] + sorted
    else [sorted[0]] + Inserted(o, d, sorted[1..])
  }

  function Sort(o: Order, docs: seq<Doc>): seq<Doc> {
    if docs == [] then [] else Inserted(o, docs[0], Sort(o, docs[1..]))
  }

  /** Filter, then order. */
  function Reference(docs: seq<Doc>, q: Query): seq<Doc> { Sort(ReferenceOrder(q), Selected(q, None, docs)) }

  /** What a query has left to answer past a cursor. */
  function Remaining(docs: seq<Doc>, q: Query, after: Option<Position>): seq<Doc> {
    Sort(StoreOrder(q), Selected(q, after, docs))
  }

  // -------------------------------------------------------------------------------------------------------------
  // Ordered lists
  // -------------------------------------------------------------------------------------------------------------

  /** The value read back from its JSON text, null for a missing one; none when it cannot be written. */
  function Kept(v: Value): Option<Value> {
    match v
    case Infinite(_) => Some(Null)
    case NaN => Some(Null)
    case Missing => Some(Null)
    case Other(_, _, ReadsNumber(r)) => Some(Number(r))
    case Other(_, _, ReadsText(s)) => Some(Text(s))
    case Other(_, _, ReadsOther(kind, json)) => Some(Other(kind, json, Same))
    case Other(_, _, ReadsNull) => Some(Null)
    case Other(_, _, Throws) => None
    case _ => Some(v)
  }

  /** Finite numbers, strings, nulls, and of the rest what reads back as it was: booleans, plain objects and arrays. */
  predicate ReadsBack(v: Value) {
    match v
    case Infinite(_) => false
    case NaN => false
    case Other(kind, json, form) => form == Same || form == ReadsOther(kind, json)
    case _ => true
  }

  /** That is: what reads back compares as the value does, or is missing as it is. */
  lemma ReadsBackExactly(collate: Collator, v: Value)
    requires Collates(collate)
    ensures ReadsBack(v) <==>
            && Kept(v).Some?
            && if Nullish(v) || Nullish(Kept(v).value) then Nullish(v) && Nullish(Kept(v).value)
               else CompareValues(collate, v, Kept(v).value) == 0
  {
    if v.Text? {
      assert Sign(collate(v.s, v.s)) == -Sign(collate(v.s, v.s));
    }
    if v.Other? && v.form.ReadsOther? {
      CompareTextIsOrder(v.kind, v.form.kind, v.kind);
      CompareTextIsOrder(v.json, v.form.json, v.json);
    }
  }

  /** What a store holds: one document a key, and where it is ordered by only values that read back. */
  ghost predicate Sound(o: Order, docs: seq<Doc>) {
    && (forall d, e :: d in docs && e in docs && d.id == e.id ==> d == e)
    && (o.field.Some? ==> forall d :: d in docs ==> ReadsBack(ValueAt(d, o.field.value)))
  }

  ghost predicate Distinct(docs: seq<Doc>) { forall i, j :: 0 <= i < j < |docs| ==> docs[i].id != docs[j].id }

  predicate Earlier(o: Order, d: Doc, e: Doc) { Before(o, PositionOf(o, d), PositionOf(o, e)) }

  ghost predicate Ordered(o: Order, docs: seq<Doc>) {
    forall i, j {:trigger docs[i], docs[j]} :: 0 <= i < j < |docs| ==> Earlier(o, docs[i], docs[j])
  }

  /** The strict order on the documents of one store. */
  lemma EarlierIsStrict(o: Order, docs: seq<Doc>, d: Doc, e: Doc)
    requires Collates(o.collate) && Sound(o, docs) && d in docs && e in docs
    ensures d != e ==> (Earlier(o, d, e) <==> !Earlier(o, e, d))
    ensures !Earlier(o, d, d)
  {
    BeforeIsTotal(o, PositionOf(o, d), PositionOf(o, e));
    BeforeIsTotal(o, PositionOf(o, d), PositionOf(o, d));
  }

  lemma EarlierIsTransitive(o: Order, docs: seq<Doc>, d: Doc, e: Doc, f: Doc)
    requires Collates(o.collate) && Sound(o, docs) && d in docs && e in docs && f in docs
    requires Earlier(o, d, e) && Earlier(o, e, f)
    ensures Earlier(o, d, f)
  {
    BeforeIsTransitive(o, PositionOf(o, d), PositionOf(o, e), PositionOf(o, f));
  }

  lemma {:induction false} InsertedIsOrdered(o: Order, docs: seq<Doc>, d: Doc, sorted: seq<Doc>)
    requires Collates(o.collate) && Sound(o, docs) && d in docs && (forall e :: e in sorted ==> e in docs)
    requires Ordered(o, sorted) && d !in sorted
    ensures Ordered(o, Inserted(o, d, sorted))
    ensures forall e :: e in Inserted(o, d, sorted) <==> e == d || e in sorted
    decreases |sorted|
  {
    hide Earlier;
    if sorted != [] {
      var first, rest := sorted[0], sorted[1..];
      assert sorted == [first] + rest;
      if Earlier(o, d, first) {
        forall e | e in rest
          ensures Earlier(o, d, e)
        {
          EarlierIsTransitive(o, docs, d, first, e);
        }
      } else {
        EarlierIsStrict(o, docs, d, first);
        InsertedIsOrdered(o, docs, d, rest);
        assert forall e :: e in Inserted(o, d, rest) ==> Earlier(o, first, e);
      }
      InsertedUnfolds(o, d, sorted);
    }
  }

  lemma InsertedUnfolds(o: Order, d: Doc, sorted: seq<Doc>)
    requires sorted != []
    ensures Inserted(o, d, sorted)
         == if Earlier(o, d, sorted[0]) then [d] + sorted else [sorted[0]] + Inserted(o, d, sorted[1..])
  {}

  lemma {:induction false} SortIsOrdered(o: Order, docs: seq<Doc>, part: seq<Doc>)
    requires Collates(o.collate) && Sound(o, docs) && (forall d :: d in part ==> d in docs) && Distinct(part)
    ensures Ordered(o, Sort(o, part))
    ensures forall d :: d in Sort(o, part) <==> d in part
    decreases |part|
  {
    if part != [] {
      assert part == [part[0]] + part[1..];
      SortIsOrdered(o, docs, part[1..]);
      InsertedIsOrdered(o, docs, part[0], Sort(o, part[1..]));
    }
  }

  lemma NoneIsEmpty(l: seq<Doc>)
    ensures (forall d :: d !in l) ==> l == []
  {
    assert l == [] || l[0] in l;
  }

  lemma HeadIsEarliest(o: Order, l: seq<Doc>)
    requires Ordered(o, l) && l != []
    ensures forall d :: d in l[1..] ==> Earlier(o, l[0], d)
    ensures forall d :: d in l <==> d == l[0] || d in l[1..]
  {
    assert l == [l[0]] + l[1..];
  }

  /** An ordered list is determined by its members. */
  lemma {:induction false} OrderedIsUnique(o: Order, docs: seq<Doc>, l: seq<Doc>, m: seq<Doc>)
    requires Collates(o.collate) && Sound(o, docs) && Ordered(o, l) && Ordered(o, m)
    requires (forall d :: d in l ==> d in docs) && (forall d :: d in l <==> d in m)
    ensures l == m
    decreases |l|
  {
    hide Earlier;
    if l == [] || m == [] {
      NoneIsEmpty(l);
      NoneIsEmpty(m);
    } else {
      assert l[0] in m && (m != [] ==> m[0] in l);
      EarlierIsStrict(o, docs, l[0], m[0]);
      EarlierIsStrict(o, docs, l[0], l[0]);
      HeadIsEarliest(o, l);
      HeadIsEarliest(o, m);
      assert l[0] == m[0];
      OrderedIsUnique(o, docs, l[1..], m[1..]);
    }
  }

  lemma {:induction false} SelectedIsDistinct(q: Query, after: Option<Position>, docs: seq<Doc>)
    requires Distinct(docs)
    ensures Distinct(Selected(q, after, docs))
    decreases |docs|
  {
    if docs != [] {
      SelectedIsDistinct(q, after, docs[..|docs| - 1]);
      var rest := Selected(q, after, docs[..|docs| - 1]);
      assert forall d :: d in rest ==> d.id != docs[|docs| - 1].id;
    }
  }

  lemma RemainingIsOrdered(docs: seq<Doc>, q: Query, after: Option<Position>)
    requires Collates(q.collate) && Sound(StoreOrder(q), docs) && Distinct(docs)
    ensures Ordered(StoreOrder(q), Remaining(docs, q, after))
    ensures forall d :: d in Remaining(docs, q, after) <==> d in docs && Keeps(q, after, d)
  {
    SelectedIsDistinct(q, after, docs);
    SortIsOrdered(StoreOrder(q), docs, Selected(q, after, docs));
  }

  lemma ReferenceIsOrdered(docs: seq<Doc>, q: Query)
    requires Collates(q.collate) && Sound(ReferenceOrder(q), docs) && Distinct(docs)
    ensures Ordered(ReferenceOrder(q), Reference(docs, q))
    ensures forall d :: d in Reference(docs, q) <==> d in docs && Hit(q, d)
  {
    SelectedIsDistinct(q, None, docs);
    SortIsOrdered(ReferenceOrder(q), docs, Selected(q, None, docs));
  }

  // -------------------------------------------------------------------------------------------------------------
  // The store
  // -------------------------------------------------------------------------------------------------------------

  /** The page of a store: the first `limit` of what remains. */
  function FirstOf(rest: seq<Doc>, limit: nat): seq<Doc> { if |rest| <= limit then rest else rest[..limit] }

  /** Whether a store hands out a cursor: with more to come, or already on a full page when it does not look ahead. */
  predicate Continues(rest: seq<Doc>, limit: nat, eager: bool) {
    limit > 0 && (|rest| > limit || (eager && |rest| == limit))
  }

  /** The queries that may go on with a cursor: those in this order, over this partition. */
  datatype Scope = Scope(field: Option<Field>, desc: bool, partition: Option<string>)

  function ScopeOf(q: Query): Scope { Scope(StoreOrder(q).field, StoreOrder(q).desc, q.partition) }

  datatype Cursor = Cursor(scope: Scope, at: Position)

  /** The cursor for a position, as it is read again; none when its value cannot be written. */
  function Written(q: Query, at: Position): Option<Cursor> {
    if Kept(at.value).None? then None else Some(Cursor(ScopeOf(q), Position(at.key, Kept(at.value).value)))
  }

  predicate Refuses(q: Query, cursor: Option<Cursor>) { cursor.Some? && cursor.value.scope != ScopeOf(q) }

  function Past(cursor: Option<Cursor>): Option<Position> { if cursor.None? then None else Some(cursor.value.at) }

  /** A page, the refusal of a cursor, or what `JSON.stringify` throws. */
  datatype Answer = Page(items: seq<Doc>, next: Option<Cursor>) | Refused | Failed

  predicate FilterThrows(q: Query, d: Doc) {
    && (q.partition.None? || d.part == q.partition.value) && q.sortKey.Some?
    && match q.sortKey.value
       case Eq(_) => false
       case Gt(target) => Clash(d.v, target)
       case Lt(target) => Clash(d.v, target)
       case Between(low, high) => Clash(d.v, low) || (CompareValues(q.collate, d.v, low) >= 0 && Clash(d.v, high))
  }

  /** Filtering the document throws, or seeking past the cursor with it. */
  predicate LookThrows(q: Query, after: Option<Position>, d: Doc) {
    || FilterThrows(q, d)
    || (Hit(q, d) && after.Some? && Clash(PositionOf(StoreOrder(q), d).value, after.value.value))
  }

  /**
   * Two of the documents clash where they are ordered by: values that clash stand together in the order, so any sort comes
   * to compare some two that do.
   */
  predicate SortThrows(o: Order, docs: seq<Doc>) {
    exists i, j :: 0 <= i < j < |docs| && Clash(PositionOf(o, docs[i]).value, PositionOf(o, docs[j]).value)
  }

  predicate QueryThrows(docs: seq<Doc>, q: Query, after: Option<Position>) {
    (exists i :: 0 <= i < |docs| && LookThrows(q, after, docs[i])) || SortThrows(StoreOrder(q), Selected(q, after, docs))
  }

  /** What a query answers: the first `limit` of what remains past the cursor, and a cursor where they end. */
  function Answered(docs: seq<Doc>, q: Query, limit: nat, cursor: Option<Cursor>, eager: bool): Answer {
    if Refuses(q, cursor) then Refused
    else if QueryThrows(docs, q, Past(cursor)) then Failed
    else PageOf(q, Remaining(docs, q, Past(cursor)), limit, eager)
  }

  function PageOf(q: Query, rest: seq<Doc>, limit: nat, eager: bool): Answer {
    var items := FirstOf(rest, limit);
    if !Continues(rest, limit, eager) then Page(items, None)
    else
      var next := Written(q, PositionOf(StoreOrder(q), items[|items| - 1]));
      if next.None? then Failed else Page(items, next)
  }

  class Store {
    var docs: seq<Doc>
    /** A store that hands out a cursor on every full page; `queryDocuments` does so only with more to come. */
    const eager: bool

    constructor (docs: seq<Doc>, eager: bool)
      ensures this.docs == docs && this.eager == eager
    {
      this.docs, this.eager := docs, eager;
    }

    /** One page: filter, seek past the cursor, order, slice. */
    method Query(q: Query, limit: nat, cursor: Option<Cursor>) returns (answer: Answer)
      ensures answer == Answered(docs, q, limit, cursor, eager)
    {
      hide LookThrows;
      hide SortThrows;
      hide Keeps;
      hide PageOf;
      hide Sort;
      hide StoreOrder;
      if Refuses(q, cursor) {
        return Refused;
      }
      var after := Past(cursor);
      var matches: seq<Doc> := [];
      for k := 0 to |docs|
        invariant matches == Selected(q, after, docs[..k])
        invariant forall i :: 0 <= i < k ==> !LookThrows(q, after, docs[i])
      {
        assert docs[..k + 1][..k] == docs[..k];
        if LookThrows(q, after, docs[k]) {
          return Failed;
        }
        if Keeps(q, after, docs[k]) {
          matches := matches + [docs[k]];
        }
      }
      assert docs[..|docs|] == docs;
      if SortThrows(StoreOrder(q), matches) {
        return Failed;
      }
      answer := PageOf(q, Sort(StoreOrder(q), matches), limit, eager);
    }

    method Delete(id: string)
      requires Distinct(docs)
      modifies this
      ensures Distinct(docs)
      ensures forall d :: d in docs <==> d in old(docs) && d.id != id
    {
      var k := 0;
      while k < |docs| && docs[k].id != id
        invariant k <= |docs| && docs == old(docs)
        invariant forall i :: 0 <= i < k ==> docs[i].id != id
      {
        k := k + 1;
      }
      if k < |docs| {
        docs := docs[..k] + docs[k + 1..];
      }
    }
  }

  // -------------------------------------------------------------------------------------------------------------
  // Pages and chunks
  // -------------------------------------------------------------------------------------------------------------

  function Flat<T>(pages: seq<seq<T>>): seq<T> {
    if pages == [] then [] else Flat(pages[..|pages| - 1]) + pages[|pages| - 1]
  }

  /** `pages` cuts `items` into pieces of `size`, the last of them shorter but never empty. */
  ghost predicate IsChunking<T>(pages: seq<seq<T>>, items: seq<T>, size: nat) {
    && Flat(pages) == items
    && (forall k :: 0 <= k < |pages| - 1 ==> |pages[k]| == size)
    && (pages != [] ==> 0 < |pages[|pages| - 1]| <= size)
  }

  method Chunk<T>(items: seq<T>, size: nat) returns (out: seq<seq<T>>)
    requires size > 0
    ensures IsChunking(out, items, size)
  {
    out := [];
    var i := 0;
    while i < |items|
      invariant Flat(out) == items[..Smaller(i, |items|)]
      invariant forall k :: 0 <= k < |out| - 1 ==> |out[k]| == size
      invariant out != [] ==> 0 < |out[|out| - 1]| <= size && (i < |items| ==> |out[|out| - 1]| == size)
    {
      var piece := items[i..Smaller(i + size, |items|)];
      FlatGrows(out, piece);
      out := out + [piece];
      i := i + size;
    }
    assert items[..|items|] == items;
  }

  function Smaller(a: nat, b: nat): nat { if a <= b then a else b }

  lemma FlatGrows<T>(pages: seq<seq<T>>, page: seq<T>)
    ensures Flat(pages + [page]) == Flat(pages) + page
  {
    assert (pages + [page])[..|pages|] == pages;
  }

  lemma OneMoreTimes(n: nat, size: nat)
    ensures (n + 1) * size == n * size + size
  {}

  lemma {:induction false} FullPages<T>(pages: seq<seq<T>>, size: nat)
    requires forall k :: 0 <= k < |pages| ==> |pages[k]| == size
    ensures |Flat(pages)| == |pages| * size
    decreases |pages|
  {
    if pages != [] {
      var front := pages[..|pages| - 1];
      FullPages(front, size);
      OneMoreTimes(|front|, size);
    }
  }

  /** There is one way to cut a list. */
  lemma {:induction false} ChunkingIsUnique<T>(p: seq<seq<T>>, r: seq<seq<T>>, items: seq<T>, size: nat)
    requires IsChunking(p, items, size) && IsChunking(r, items, size) && size > 0
    ensures p == r
    decreases |p|
  {
    if p != [] && r != [] {
      var p0, r0 := p[..|p| - 1], r[..|r| - 1];
      FullPages(p0, size);
      FullPages(r0, size);
      SameQuotient(|p0|, |p[|p| - 1]|, |r0|, |r[|r| - 1]|, size);
      SameCut(Flat(p0), p[|p| - 1], Flat(r0), r[|r| - 1]);
      SameFullPages(p0, r0, size);
      assert p == p0 + [p[|p| - 1]] && r == r0 + [r[|r| - 1]];
    }
  }

  lemma SameQuotient(m: nat, a: nat, n: nat, b: nat, size: nat)
    requires m * size + a == n * size + b && 0 < a <= size && 0 < b <= size
    ensures m == n && a == b
  {
    TimesGrows(m, n, size);
    TimesGrows(n, m, size);
  }

  lemma SameCut<T>(a: seq<T>, b: seq<T>, c: seq<T>, d: seq<T>)
    requires a + b == c + d && |a| == |c|
    ensures a == c && b == d
  {
    assert a == (a + b)[..|a|] && c == (c + d)[..|c|];
    assert b == (a + b)[|a|..] && d == (c + d)[|c|..];
  }

  lemma {:induction false} SameFullPages<T>(p: seq<seq<T>>, r: seq<seq<T>>, size: nat)
    requires |p| == |r| && Flat(p) == Flat(r)
    requires forall k :: 0 <= k < |p| ==> |p[k]| == size && |r[k]| == size
    ensures p == r
    decreases |p|
  {
    if p != [] {
      SameCut(Flat(p[..|p| - 1]), p[|p| - 1], Flat(r[..|r| - 1]), r[|r| - 1]);
      SameFullPages(p[..|p| - 1], r[..|r| - 1], size);
      assert p == p[..|p| - 1] + [p[|p| - 1]] && r == r[..|r| - 1] + [r[|r| - 1]];
    }
  }

  function WithoutTrailingEmpty<T>(pages: seq<seq<T>>): seq<seq<T>> {
    if pages != [] && |pages[|pages| - 1]| == 0 then pages[..|pages| - 1] else pages
  }

  // -------------------------------------------------------------------------------------------------------------
  // The walk
  // -------------------------------------------------------------------------------------------------------------

  /** Everything before place `k` of the list is walked or deleted, and nothing else is walked. */
  ghost predicate WalkedTo(o: Order, all: seq<Doc>, k: nat, walked: seq<Doc>, gone: set<string>) {
    && k <= |all| && Ordered(o, walked)
    && (forall d :: d in walked ==> d in all[..k])
    && (forall d :: d in all[..k] ==> d in walked || d.id in gone)
  }

  lemma NothingWalked(o: Order, all: seq<Doc>)
    ensures WalkedTo(o, all, 0, [], {}) && CursorAt(o, all, 0) == None
  {}

  lemma NoPages<T>()
    ensures Flat<T>([]) == []
  {}

  /** The cursor that stands on place `k`: the position of the document before it, deleted since or not. */
  function CursorAt(o: Order, all: seq<Doc>, k: nat): Option<Position>
    requires k <= |all|
  {
    if k == 0 then None else Some(PositionOf(o, all[k - 1]))
  }

  /** What is left past the cursor is what the list has from there on, less the deleted. */
  lemma RestIsTail(docs0: seq<Doc>, q: Query, docs: seq<Doc>, gone: set<string>, all: seq<Doc>, k: nat, d: Doc)
    requires Collates(q.collate) && Sound(StoreOrder(q), docs0) && Distinct(docs0) && Sound(StoreOrder(q), docs) && Distinct(docs)
    requires forall e :: e in docs <==> e in docs0 && e.id !in gone
    requires all == Remaining(docs0, q, None) && k <= |all|
    ensures d in Remaining(docs, q, CursorAt(StoreOrder(q), all, k)) <==> d in all[k..] && d.id !in gone
  {
    hide Remaining;
    hide Ordered;
    var o := StoreOrder(q);
    var after := CursorAt(o, all, k);
    RemainingIsOrdered(docs0, q, None);
    RemainingIsOrdered(docs, q, after);
    assert d in all[k..] ==> d in all;
    if d in docs0 && Hit(q, d) && k > 0 {
      ComparisonFlips(o, PositionOf(o, d), after.value);
      PastPlace(o, docs0, all, k, d);
    }
  }

  lemma PastPlace(o: Order, docs0: seq<Doc>, all: seq<Doc>, k: nat, d: Doc)
    requires Collates(o.collate) && Sound(o, docs0) && Ordered(o, all) && (forall e :: e in all ==> e in docs0)
    requires d in all && 0 < k <= |all|
    ensures Earlier(o, all[k - 1], d) <==> d in all[k..]
  {
    hide Earlier;
    var i :| 0 <= i < |all| && all[i] == d;
    EarlierIsStrict(o, docs0, all[k - 1], d);
    EarlierIsStrict(o, docs0, d, all[k - 1]);
    if i >= k {
      assert all[k..][i - k] == d;
    } else {
      forall j | k <= j < |all|
        ensures all[j] != d
      {
        EarlierIsStrict(o, docs0, d, d);
      }
    }
  }

  /** One page on: the place moves past the page, and everything before it is still walked or deleted. */
  lemma NextPage(docs0: seq<Doc>, q: Query, docs: seq<Doc>, gone: set<string>, all: seq<Doc>, k: nat, walked: seq<Doc>,
                 limit: nat, eager: bool) returns (next: nat)
    requires Collates(q.collate) && Sound(StoreOrder(q), docs0) && Distinct(docs0) && Sound(StoreOrder(q), docs) && Distinct(docs) && limit > 0
    requires forall e :: e in docs <==> e in docs0 && e.id !in gone
    requires all == Remaining(docs0, q, None) && WalkedTo(StoreOrder(q), all, k, walked, gone)
    ensures var rest := Remaining(docs, q, CursorAt(StoreOrder(q), all, k));
            PageTaken(StoreOrder(q), all, k, walked, gone, FirstOf(rest, limit), Continues(rest, limit, eager), limit, next)
  {
    var o := StoreOrder(q);
    var rest := Remaining(docs, q, CursorAt(o, all, k));
    forall d
      ensures d in rest <==> d in all[k..] && d.id !in gone
    {
      RestIsTail(docs0, q, docs, gone, all, k, d);
    }
    RemainingIsOrdered(docs0, q, None);
    RemainingIsOrdered(docs, q, CursorAt(o, all, k));
    hide Remaining;
    hide StoreOrder;
    hide Ordered;
    hide WalkedTo;
    hide Sound;
    hide PageTaken;
    next := TakePage(o, docs0, all, k, walked, gone, rest, limit, eager);
  }

  ghost predicate PageTaken(o: Order, all: seq<Doc>, k: nat, walked: seq<Doc>, gone: set<string>,
                            items: seq<Doc>, continues: bool, limit: nat, next: nat) {
    && next <= |all| && |items| <= limit
    && WalkedTo(o, all, next, walked + items, gone)
    && (if continues
        then k < next && |items| == limit > 0 && CursorAt(o, all, next) == Some(PositionOf(o, items[limit - 1]))
        else next == |all|)
  }

  lemma TakePage(o: Order, docs0: seq<Doc>, all: seq<Doc>, k: nat, walked: seq<Doc>, gone: set<string>, rest: seq<Doc>,
                 limit: nat, eager: bool) returns (next: nat)
    requires Collates(o.collate) && Sound(o, docs0) && limit > 0 && (forall e :: e in all ==> e in docs0)
    requires Ordered(o, all) && Ordered(o, rest) && WalkedTo(o, all, k, walked, gone)
    requires forall d :: d in rest <==> d in all[k..] && d.id !in gone
    ensures PageTaken(o, all, k, walked, gone, FirstOf(rest, limit), Continues(rest, limit, eager), limit, next)
  {
    hide Earlier;
    hide Sound;
    if Continues(rest, limit, eager) {
      assert rest[limit - 1] in rest;
      var i :| k <= i < |all| && all[i] == rest[limit - 1];
      next := i + 1;
      PageReaches(o, docs0, all, k, rest, limit, next, gone);
    } else {
      next := |all|;
      assert all[k..|all|] == all[k..];
    }
    PageExtends(o, all, k, walked, FirstOf(rest, limit), next, gone);
  }

  /** Up to the page's last document the page holds everything that is not deleted. */
  lemma PageReaches(o: Order, docs0: seq<Doc>, all: seq<Doc>, k: nat, rest: seq<Doc>, limit: nat, next: nat, gone: set<string>)
    requires Collates(o.collate) && Sound(o, docs0) && (forall e :: e in all ==> e in docs0)
    requires Ordered(o, all) && Ordered(o, rest) && 0 < limit <= |rest| && k < next <= |all|
    requires forall d :: d in rest <==> d in all[k..] && d.id !in gone
    requires all[next - 1] == rest[limit - 1]
    ensures forall d :: d in rest[..limit] ==> d in all[k..next]
    ensures forall d :: d in all[k..next] ==> d in rest[..limit] || d.id in gone
  {
    hide Earlier;
    var last := rest[limit - 1];
    forall d | d in rest[..limit]
      ensures d in all[k..next]
    {
      assert d in rest;
      var i :| k <= i < |all| && all[i] == d;
      EarlierIsStrict(o, docs0, d, last);
      if i >= next {
        EarlierIsStrict(o, docs0, last, last);
      }
      assert i < next ==> all[k..next][i - k] == d;
    }
    forall d | d in all[k..next] && d.id !in gone
      ensures d in rest[..limit]
    {
      var i :| k <= i < next && all[i] == d;
      assert all[k..][i - k] == d;
      assert d in rest;
      var j :| 0 <= j < |rest| && rest[j] == d;
      EarlierIsStrict(o, docs0, d, last);
      EarlierIsStrict(o, docs0, last, last);
      assert j >= limit ==> Earlier(o, last, d);
      assert i < next - 1 ==> Earlier(o, d, last);
    }
  }

  lemma PageExtends(o: Order, all: seq<Doc>, k: nat, walked: seq<Doc>, items: seq<Doc>, next: nat, gone: set<string>)
    requires WalkedTo(o, all, k, walked, gone) && Ordered(o, all) && Ordered(o, items) && k <= next <= |all|
    requires forall d :: d in items ==> d in all[k..next]
    requires forall d :: d in all[k..next] ==> d in items || d.id in gone
    ensures WalkedTo(o, all, next, walked + items, gone)
  {
    hide Earlier;
    assert all[..next] == all[..k] + all[k..next];
    forall d, e | d in walked && e in items
      ensures Earlier(o, d, e)
    {
      var i :| 0 <= i < k && all[i] == d;
      var j :| k <= j < next && all[j] == e;
    }
  }

  predicate Deletes(between: seq<seq<string>>, id: string) { exists n :: 0 <= n < |between| && id in between[n] }

  /** Matches only, in order and so each once, and every match that is never deleted. */
  ghost predicate IsWalk(docs: seq<Doc>, q: Query, walked: seq<Doc>, between: seq<seq<string>>) {
    && Ordered(StoreOrder(q), walked)
    && (forall d :: d in walked ==> d in docs && Hit(q, d))
    && (forall d :: d in docs && Hit(q, d) ==> d in walked || Deletes(between, d.id))
  }

  /**
   * Main result: the walk ends within a page more than there are documents, and whatever is deleted between its pages
   * it returns every other match exactly once and in order, in pages cut as `Chunk` cuts them.
   */
  method Walk(store: Store, q: Query, limit: nat, maxPages: nat, between: seq<seq<string>>)
    returns (pages: seq<seq<Doc>>, ended: bool)
    requires Collates(q.collate) && Sound(StoreOrder(q), store.docs) && Distinct(store.docs) && limit > 0
    requires Filters(q, store.docs)
    modifies store
    ensures |old(store.docs)| <= maxPages ==> ended
    ensures ended ==> IsWalk(old(store.docs), q, Flat(pages), between)
    ensures ended ==> IsChunking(WithoutTrailingEmpty(pages), Flat(pages), limit)
    ensures between == [] ==> store.docs == old(store.docs)
  {
    hide Remaining;
    hide Ordered;
    hide StoreOrder;
    hide Hit;
    hide Keeps;
    hide Sound;
    hide Distinct;
    hide WalkedTo;
    hide Continues;
    hide FirstOf;
    hide Deletes;
    hide IsChunking;
    hide WithoutTrailingEmpty;
    hide IsWalk;
    hide PositionOf;
    hide Flat;
    hide CursorAt;
    ghost var docs0 := store.docs;
    ghost var o, all := StoreOrder(q), Remaining(docs0, q, None);
    ghost var k: nat, gone := 0, {};
    RemainingIsOrdered(docs0, q, None);
    ListingIsNoLonger(docs0, q);
    NothingWalked(o, all);
    NoPages<Doc>();
    var cursor: Option<Cursor>, more := None, true;
    pages := [];
    while more && |pages| <= maxPages
      invariant Sound(StoreOrder(q), store.docs) && Distinct(store.docs)
      invariant forall d :: d in store.docs <==> d in docs0 && d.id !in gone
      invariant forall id :: id in gone ==> Deletes(between, id)
      invariant between == [] ==> store.docs == docs0
      invariant k <= |all| && WalkedTo(o, all, k, Flat(pages), gone)
      invariant more ==> cursor == CursorFor(q, CursorAt(o, all, k)) && |pages| <= k
      invariant !more ==> k == |all| && pages != []
      invariant forall n :: 0 <= n < |pages| - (if more then 0 else 1) ==> |pages[n]| == limit
      invariant pages != [] ==> |pages[|pages| - 1]| <= limit
      decreases more, |all| + 1 - |pages|
    {
      PageFollows(docs0, q, store.docs, all, k, limit, store.eager);
      k := NextPage(docs0, q, store.docs, gone, all, k, Flat(pages), limit, store.eager);
      var answer := store.Query(q, limit, cursor);
      var Page(items, next) := answer;
      FlatGrows(pages, items);
      pages := pages + [items];
      cursor, more := next, next.Some?;
      if |pages| <= |between| {
        ScheduledIsDeleted(between, |pages| - 1);
        MoreGone(o, all, k, Flat(pages), gone);
        gone := DeleteAll(store, between[|pages| - 1], o, gone, docs0);
      }
    }
    ended := !more;
    if ended {
      PagesAreCut(pages, limit);
      AllWalked(docs0, q, Flat(pages), gone, between);
    }
  }

  function CursorFor(q: Query, at: Option<Position>): Option<Cursor> { if at.None? then None else Written(q, at.value) }

  /** No filter of the query throws on what the store holds. */
  ghost predicate Filters(q: Query, docs: seq<Doc>) { forall d :: d in docs ==> !FilterThrows(q, d) }

  /** Where every value reads back, the cursor at a document is answered with a page from there on, and its own cursor. */
  lemma PageFollows(docs0: seq<Doc>, q: Query, docs: seq<Doc>, all: seq<Doc>, k: nat, limit: nat, eager: bool)
    requires Sound(StoreOrder(q), docs0) && Filters(q, docs0) && (forall d :: d in docs ==> d in docs0)
    requires k <= |all| && forall d :: d in all ==> d in docs0
    ensures var at := CursorAt(StoreOrder(q), all, k);
            var rest := Remaining(docs, q, at);
            var answer := Answered(docs, q, limit, CursorFor(q, at), eager);
            && answer.Page? && answer.items == FirstOf(rest, limit)
            && (answer.next.Some? <==> Continues(rest, limit, eager))
            && (answer.next.Some? ==>
                  && answer.items != []
                  && answer.next == CursorFor(q, Some(PositionOf(StoreOrder(q), answer.items[|answer.items| - 1]))))
  {
    hide Remaining;
    hide StoreOrder;
    hide Sound;
    hide Filters;
    var o, at := StoreOrder(q), CursorAt(StoreOrder(q), all, k);
    AllReadBack(o, docs0, all);
    AllReadBack(o, docs0, docs);
    SeeksAlike(docs, q, at);
    NothingThrows(docs0, q, docs, at);
    LastReadsBack(docs0, q, docs, at, limit);
  }

  lemma AllReadBack(o: Order, docs0: seq<Doc>, docs: seq<Doc>)
    requires Sound(o, docs0) && forall d :: d in docs ==> d in docs0
    ensures forall d :: d in docs ==> ReadsBack(PositionOf(o, d).value)
  {}

  /** What reads back seeks as the position itself does. */
  lemma {:induction false} SelectsAlike(docs: seq<Doc>, q: Query, at: Position)
    requires ReadsBack(at.value)
    ensures Written(q, at).Some? && Selected(q, Past(Written(q, at)), docs) == Selected(q, Some(at), docs)
    decreases |docs|
  {
    hide StoreOrder;
    hide PositionOf;
    hide Hit;
    if docs != [] {
      SelectsAlike(docs[..|docs| - 1], q, at);
    }
  }

  lemma SeeksAlike(docs: seq<Doc>, q: Query, at: Option<Position>)
    requires at.Some? ==> ReadsBack(at.value.value)
    ensures !Refuses(q, CursorFor(q, at))
    ensures Selected(q, Past(CursorFor(q, at)), docs) == Selected(q, at, docs)
    ensures Remaining(docs, q, Past(CursorFor(q, at))) == Remaining(docs, q, at)
  {
    hide Selected;
    if at.Some? {
      SelectsAlike(docs, q, at.value);
    }
  }

  lemma NothingThrows(docs0: seq<Doc>, q: Query, docs: seq<Doc>, at: Option<Position>)
    requires Filters(q, docs0) && (forall d :: d in docs ==> d in docs0)
    requires forall d :: d in docs ==> ReadsBack(PositionOf(StoreOrder(q), d).value)
    requires at.Some? ==> ReadsBack(at.value.value)
    ensures !QueryThrows(docs, q, Past(CursorFor(q, at)))
  {
    hide StoreOrder;
    hide PositionOf;
    var matches := Selected(q, Past(CursorFor(q, at)), docs);
    forall i | 0 <= i < |matches|
      ensures ReadsBack(PositionOf(StoreOrder(q), matches[i]).value)
    {
      assert matches[i] in matches;
    }
    assert forall i :: 0 <= i < |docs| ==> docs[i] in docs;
  }

  lemma LastReadsBack(docs0: seq<Doc>, q: Query, docs: seq<Doc>, at: Option<Position>, limit: nat)
    requires forall d :: d in docs ==> ReadsBack(PositionOf(StoreOrder(q), d).value)
    ensures forall d :: d in FirstOf(Remaining(docs, q, at), limit) ==> ReadsBack(PositionOf(StoreOrder(q), d).value)
  {
    hide StoreOrder;
    hide PositionOf;
    SortKeepsMembers(StoreOrder(q), Selected(q, at, docs));
    var rest := Remaining(docs, q, at);
    assert forall d :: d in FirstOf(rest, limit) ==> d in rest;
  }

  lemma {:induction false} SortKeepsMembers(o: Order, docs: seq<Doc>)
    ensures forall d :: d in Sort(o, docs) <==> d in docs
    decreases |docs|
  {
    if docs != [] {
      assert docs == [docs[0]] + docs[1..];
      SortKeepsMembers(o, docs[1..]);
      InsertedMembers(o, docs[0], Sort(o, docs[1..]));
    }
  }

  lemma {:induction false} InsertedMembers(o: Order, d: Doc, sorted: seq<Doc>)
    ensures forall e :: e in Inserted(o, d, sorted) <==> e == d || e in sorted
    decreases |sorted|
  {
    if sorted != [] {
      assert sorted == [sorted[0]] + sorted[1..];
      InsertedMembers(o, d, sorted[1..]);
    }
  }

  lemma ScheduledIsDeleted(between: seq<seq<string>>, n: nat)
    requires n < |between|
    ensures forall id :: id in between[n] ==> Deletes(between, id)
  {}

  lemma MoreGone(o: Order, all: seq<Doc>, k: nat, walked: seq<Doc>, gone: set<string>)
    requires WalkedTo(o, all, k, walked, gone)
    ensures forall more: set<string> :: gone <= more ==> WalkedTo(o, all, k, walked, more)
  {}

  lemma AllWalked(docs: seq<Doc>, q: Query, walked: seq<Doc>, gone: set<string>, between: seq<seq<string>>)
    requires Collates(q.collate) && Sound(StoreOrder(q), docs) && Distinct(docs)
    requires WalkedTo(StoreOrder(q), Remaining(docs, q, None), |Remaining(docs, q, None)|, walked, gone)
    requires forall id :: id in gone ==> Deletes(between, id)
    ensures IsWalk(docs, q, walked, between)
  {
    var all := Remaining(docs, q, None);
    assert all[..|all|] == all;
    RemainingIsOrdered(docs, q, None);
    hide Ordered;
  }

  method DeleteAll(store: Store, ids: seq<string>, ghost o: Order, ghost gone: set<string>, ghost docs0: seq<Doc>)
    returns (ghost more: set<string>)
    requires Distinct(store.docs) && Sound(o, store.docs)
    requires forall d :: d in store.docs <==> d in docs0 && d.id !in gone
    modifies store
    ensures Distinct(store.docs) && Sound(o, store.docs)
    ensures forall d :: d in store.docs <==> d in docs0 && d.id !in more
    ensures forall id :: id in more <==> id in gone || id in ids
  {
    more := gone;
    for n := 0 to |ids|
      invariant Distinct(store.docs) && Sound(o, store.docs)
      invariant forall d :: d in store.docs <==> d in docs0 && d.id !in more
      invariant forall id :: id in more <==> id in gone || id in ids[..n]
    {
      store.Delete(ids[n]);
      more := more + {ids[n]};
    }
  }

  /** Full pages with a last one that is not over full are chunks, an empty last one aside. */
  lemma PagesAreCut<T>(pages: seq<seq<T>>, limit: nat)
    requires limit > 0 && pages != [] && |pages[|pages| - 1]| <= limit && forall n :: 0 <= n < |pages| - 1 ==> |pages[n]| == limit
    ensures IsChunking(WithoutTrailingEmpty(pages), Flat(pages), limit)
  {}

  lemma {:induction false} InsertedLength(o: Order, d: Doc, sorted: seq<Doc>)
    ensures |Inserted(o, d, sorted)| == |sorted| + 1
    decreases |sorted|
  {
    if sorted != [] {
      InsertedLength(o, d, sorted[1..]);
    }
  }

  lemma {:induction false} SortLength(o: Order, docs: seq<Doc>)
    ensures |Sort(o, docs)| == |docs|
    decreases |docs|
  {
    if docs != [] {
      SortLength(o, docs[1..]);
      InsertedLength(o, docs[0], Sort(o, docs[1..]));
    }
  }

  lemma {:induction false} SelectedLength(q: Query, docs: seq<Doc>)
    ensures |Selected(q, None, docs)| <= |docs|
    decreases |docs|
  {
    if docs != [] {
      SelectedLength(q, docs[..|docs| - 1]);
    }
  }

  lemma ListingIsNoLonger(docs: seq<Doc>, q: Query)
    ensures |Remaining(docs, q, None)| <= |docs|
  {
    SelectedLength(q, docs);
    SortLength(StoreOrder(q), Selected(q, None, docs));
  }

  // -------------------------------------------------------------------------------------------------------------
  // Against the reference
  // -------------------------------------------------------------------------------------------------------------

  /** An undisturbed walk returns the reference; without `orderBy`, the reference once sorted by key. */
  lemma UndisturbedWalkIsReference(docs: seq<Doc>, q: Query, walked: seq<Doc>)
    requires Collates(q.collate) && Sound(StoreOrder(q), docs) && Distinct(docs) && IsWalk(docs, q, walked, [])
    ensures q.orderBy.Some? ==> walked == Reference(docs, q)
    ensures Sort(ReferenceOrder(q), walked) == Reference(docs, q)
  {
    ReferenceIsOrdered(docs, q);
    OrderedIsDistinct(StoreOrder(q), docs, walked);
    SortIsOrdered(ReferenceOrder(q), docs, walked);
    OrderedIsUnique(ReferenceOrder(q), docs, Sort(ReferenceOrder(q), walked), Reference(docs, q));
    if q.orderBy.Some? {
      OrderedIsUnique(ReferenceOrder(q), docs, walked, Reference(docs, q));
    }
  }

  lemma OrderedIsDistinct(o: Order, docs: seq<Doc>, l: seq<Doc>)
    requires Collates(o.collate) && Sound(o, docs) && Ordered(o, l) && (forall d :: d in l ==> d in docs)
    ensures Distinct(l)
  {
    forall i, j | 0 <= i < j < |l|
      ensures l[i].id != l[j].id
    {
      assert l[i] in docs && l[j] in docs;
      EarlierIsStrict(o, docs, l[i], l[i]);
    }
  }

  function Among(expected: seq<Doc>, walked: seq<Doc>): (r: seq<Doc>)
    ensures forall d :: d in r <==> d in expected && d in walked
  {
    if expected == [] then []
    else
      var last := expected[|expected| - 1];
      assert expected == expected[..|expected| - 1] + [last];
      Among(expected[..|expected| - 1], walked) + if last in walked then [last] else []
  }

  lemma {:induction false} AmongIsOrdered(o: Order, expected: seq<Doc>, walked: seq<Doc>)
    requires Ordered(o, expected)
    ensures Ordered(o, Among(expected, walked))
    decreases |expected|
  {
    hide Earlier;
    if expected != [] {
      AmongIsOrdered(o, expected[..|expected| - 1], walked);
      var last := expected[|expected| - 1];
      assert forall d :: d in expected[..|expected| - 1] ==> Earlier(o, d, last);
    }
  }

  /** Across deletions the walk is the reference less some of the deleted: no repeat, no stranger, the same order. */
  lemma DisturbedWalkFollowsReference(docs: seq<Doc>, q: Query, walked: seq<Doc>, between: seq<seq<string>>)
    requires Collates(q.collate) && Sound(StoreOrder(q), docs) && Distinct(docs) && IsWalk(docs, q, walked, between)
    ensures Distinct(walked)
    ensures forall d :: d in walked ==> d in Reference(docs, q)
    ensures forall d :: d in Reference(docs, q) && !Deletes(between, d.id) ==> d in walked
    ensures q.orderBy.Some? ==> walked == Among(Reference(docs, q), walked)
  {
    ReferenceIsOrdered(docs, q);
    OrderedIsDistinct(StoreOrder(q), docs, walked);
    if q.orderBy.Some? {
      AmongIsOrdered(StoreOrder(q), Reference(docs, q), walked);
      OrderedIsUnique(StoreOrder(q), docs, walked, Among(Reference(docs, q), walked));
    }
  }

  /** Main result: the walk's page sequence is the reference cut into chunks, and the walk ends. */
  method PagesAreChunks(store: Store, q: Query, limit: nat) returns (pages: seq<seq<Doc>>, chunks: seq<seq<Doc>>)
    requires Collates(q.collate) && Sound(StoreOrder(q), store.docs) && Distinct(store.docs) && limit > 0 && q.orderBy.Some?
    requires Filters(q, store.docs)
    modifies store
    ensures store.docs == old(store.docs)
    ensures IsChunking(chunks, Reference(store.docs, q), limit)
    ensures WithoutTrailingEmpty(pages) == chunks
  {
    var ended;
    pages, ended := Walk(store, q, limit, |store.docs| + 2, []);
    UndisturbedWalkIsReference(store.docs, q, Flat(pages));
    chunks := Chunk(Reference(store.docs, q), limit);
    ChunkingIsUnique(WithoutTrailingEmpty(pages), chunks, Reference(store.docs, q), limit);
  }

  // -------------------------------------------------------------------------------------------------------------
  // What a query answers, in plain terms
  // -------------------------------------------------------------------------------------------------------------

  predicate InPartition(q: Query, d: Doc) { q.partition.None? || d.part == q.partition.value }

  /** A page large enough for all holds exactly the documents kept. */
  lemma AllAnswered(docs: seq<Doc>, q: Query, limit: nat, eager: bool)
    requires |docs| < limit
    ensures var answer := Answered(docs, q, limit, None, eager);
            answer.Page? ==> answer.items == Remaining(docs, q, None) && forall d :: d in answer.items <==> d in docs && Hit(q, d)
  {
    ListingIsNoLonger(docs, q);
    SortKeepsMembers(StoreOrder(q), Selected(q, None, docs));
  }

  /**
   * Main result: which documents a query answers, by the value `v` its sort key is about. Numbers are compared as numbers
   * and texts by the collator; a number is less than any text, and either less than a missing value or a null.
   */
  lemma AnsweredBySortKey(docs: seq<Doc>, q: Query, limit: nat, eager: bool, d: Doc, x: real, t: real, u: real,
                          s: string, w: string, z: string)
    requires |docs| < limit && d in docs && q.sortKey.Some? && Answered(docs, q, limit, None, eager).Page?
    ensures var answered, c := d in Answered(docs, q, limit, None, eager).items, q.sortKey.value;
            && (answered ==> InPartition(q, d))
            && (InPartition(q, d) && d.v == Number(x) ==>
                  && (c == Gt(Number(t)) ==> (answered <==> x > t))
                  && (c == Lt(Number(t)) ==> (answered <==> x < t))
                  && (c == Between(Number(t), Number(u)) ==> (answered <==> t <= x <= u))
                  && (c == Eq(Number(t)) ==> (answered <==> x == t))
                  && (c == Lt(Text(w)) ==> answered) && (c == Gt(Text(w)) ==> !answered) && (c == Eq(Text(w)) ==> !answered))
            && (InPartition(q, d) && d.v == Text(s) ==>
                  && (c == Gt(Text(w)) ==> (answered <==> q.collate(s, w) > 0))
                  && (c == Lt(Text(w)) ==> (answered <==> q.collate(s, w) < 0))
                  && (c == Between(Text(w), Text(z)) ==> (answered <==> q.collate(s, w) >= 0 && q.collate(s, z) <= 0))
                  && (c == Eq(Text(w)) ==> (answered <==> s == w))
                  && (c == Gt(Number(t)) ==> answered) && (c == Lt(Number(t)) ==> !answered) && (c == Eq(Number(t)) ==> !answered))
            && (InPartition(q, d) && Nullish(d.v) ==>
                  && (c == Gt(Number(t)) || c == Gt(Text(w)) ==> answered)
                  && (c == Lt(Number(t)) || c == Lt(Text(w)) ==> !answered)
                  && (c == Eq(Null) ==> (answered <==> d.v.Null?)))
            && (d.v == NaN && c.Eq? ==> !answered)
  {
    hide Answered;
    AllAnswered(docs, q, limit, eager);
  }

  /** The one of these values that are neither number nor text comes before the other: by kind, and then by JSON text. */
  predicate StandsBefore(kind: string, json: string, kind': string, json': string) {
    if kind == kind' then json != json' && Precedes(json, json') else Precedes(kind, kind')
  }

  /** An infinity is beyond every number. */
  lemma AnsweredBeyondNumbers(docs: seq<Doc>, q: Query, limit: nat, eager: bool, d: Doc, x: real, above: bool)
    requires |docs| < limit && d in docs && q.sortKey.Some? && Answered(docs, q, limit, None, eager).Page?
    requires InPartition(q, d)
    ensures var answered, c := d in Answered(docs, q, limit, None, eager).items, q.sortKey.value;
            && (d.v == Number(x) ==>
                  && (c == Lt(Infinite(!above)) ==> (answered <==> above))
                  && (c == Gt(Infinite(!above)) ==> (answered <==> !above)))
            && (d.v == Infinite(!above) ==>
                  && (c == Gt(Number(x)) ==> (answered <==> above))
                  && (c == Lt(Number(x)) ==> (answered <==> !above)))
  {
    hide Answered;
    AllAnswered(docs, q, limit, eager);
  }

  /** Values that are neither number nor text: only booleans and BigInts are ever equal, and kinds and texts order. */
  lemma AnsweredByOtherValues(docs: seq<Doc>, q: Query, limit: nat, eager: bool, d: Doc, x: real,
                              kind: string, json: string, form: Form, kind': string, json': string, form': Form)
    requires |docs| < limit && d in docs && q.sortKey.Some? && Answered(docs, q, limit, None, eager).Page?
    requires InPartition(q, d) && d.v == Other(kind, json, form)
    ensures var answered, c := d in Answered(docs, q, limit, None, eager).items, q.sortKey.value;
            && (c == Eq(Other(kind', json', form')) ==>
                  (answered <==> kind in {"boolean", "bigint"} && kind == kind' && json == json' && form == form'))
            && (c == Gt(Number(x)) ==> answered) && (c == Lt(Number(x)) ==> !answered)
            && (c == Gt(Other(kind', json', form')) ==> (answered <==> StandsBefore(kind', json', kind, json)))
            && (c == Lt(Other(kind', json', form')) ==> (answered <==> StandsBefore(kind, json, kind', json')))
  {
    hide Answered;
    hide Precedes;
    AllAnswered(docs, q, limit, eager);
    PrecedesIsTotal(kind, kind');
    PrecedesIsTotal(json, json');
  }

  lemma AnsweredWithoutSortKey(docs: seq<Doc>, q: Query, limit: nat, eager: bool)
    requires |docs| < limit && q.sortKey.None? && Answered(docs, q, limit, None, eager).Page?
    ensures forall d :: d in Answered(docs, q, limit, None, eager).items <==> d in docs && InPartition(q, d)
  {
    hide Answered;
    AllAnswered(docs, q, limit, eager);
  }

  /** What may stand before what, where `orderBy` orders by these values: upwards, downwards, and by the key. */
  ghost predicate InOrder(a: Value, b: Value, desc: bool, collate: Collator, keys: bool) {
    && (a.Number? && b.Number? ==> if a.r == b.r then keys else (a.r < b.r) != desc)
    && (a.Text? && b.Text? ==> if collate(a.s, b.s) == 0 then keys else (collate(a.s, b.s) < 0) != desc)
    && (a.Number? && b.Text? ==> !desc) && (a.Text? && b.Number? ==> desc)
    && ((a.Number? || a.Text?) && b.Other? ==> !desc) && (a.Other? && (b.Number? || b.Text?) ==> desc)
    && (a.Other? && b.Other? ==>
          if a.kind == b.kind && a.json == b.json then keys else StandsBefore(a.kind, a.json, b.kind, b.json) != desc)
    && (Nullish(a) ==> Nullish(b) && keys)
  }

  /**
   * Main result: in what order a query with `orderBy` answers: numbers upwards or downwards, texts by the collator,
   * numbers before texts upwards, missing values last either way, and equals by their keys.
   */
  lemma AnsweredInOrder(docs: seq<Doc>, q: Query, limit: nat, eager: bool, i: nat, j: nat)
    requires Collates(q.collate) && Sound(StoreOrder(q), docs) && Distinct(docs) && |docs| < limit && q.orderBy.Some?
    requires var answer := Answered(docs, q, limit, None, eager); answer.Page? && i < j < |answer.items|
    ensures var items, field := Answered(docs, q, limit, None, eager).items, q.orderBy.value.field;
            InOrder(ValueAt(items[i], field), ValueAt(items[j], field), q.orderBy.value.desc, q.collate,
                    items[i].id != items[j].id && Precedes(items[i].id, items[j].id))
  {
    hide Answered;
    hide Remaining;
    hide Sound;
    AllAnswered(docs, q, limit, eager);
    RemainingIsOrdered(docs, q, None);
    var items := Remaining(docs, q, None);
    assert Earlier(StoreOrder(q), items[i], items[j]);
    BothWays(ValueAt(items[i], q.orderBy.value.field), ValueAt(items[j], q.orderBy.value.field));
  }

  /** Without `orderBy` but with a sort key its field orders, downwards unless ascending. */
  lemma AnsweredInSortKeyOrder(docs: seq<Doc>, q: Query, limit: nat, eager: bool, i: nat, j: nat)
    requires Collates(q.collate) && Sound(StoreOrder(q), docs) && Distinct(docs) && |docs| < limit
    requires q.orderBy.None? && q.sortKey.Some?
    requires var answer := Answered(docs, q, limit, None, eager); answer.Page? && i < j < |answer.items|
    ensures var items := Answered(docs, q, limit, None, eager).items;
            InOrder(items[i].v, items[j].v, !q.ascending, q.collate, items[i].id != items[j].id && Precedes(items[i].id, items[j].id))
  {
    hide Answered;
    hide Remaining;
    hide Sound;
    AllAnswered(docs, q, limit, eager);
    RemainingIsOrdered(docs, q, None);
    var items := Remaining(docs, q, None);
    assert Earlier(StoreOrder(q), items[i], items[j]);
    BothWays(items[i].v, items[j].v);
  }

  /** Without `orderBy` and sort key the keys alone order, downwards when asked. */
  lemma AnsweredByKeys(docs: seq<Doc>, q: Query, limit: nat, eager: bool, i: nat, j: nat)
    requires Collates(q.collate) && Sound(StoreOrder(q), docs) && Distinct(docs) && |docs| < limit
    requires q.orderBy.None? && q.sortKey.None?
    requires var answer := Answered(docs, q, limit, None, eager); answer.Page? && i < j < |answer.items|
    ensures var items := Answered(docs, q, limit, None, eager).items;
            items[i].id != items[j].id && (Precedes(items[i].id, items[j].id) <==> q.ascending)
  {
    hide Answered;
    hide Remaining;
    hide Sound;
    AllAnswered(docs, q, limit, eager);
    RemainingIsOrdered(docs, q, None);
    var items := Remaining(docs, q, None);
    assert Earlier(StoreOrder(q), items[i], items[j]);
    CompareTextIsOrder(items[i].id, items[j].id, items[i].id);
    PrecedesIsTotal(items[i].id, items[j].id);
  }

  /** A page is the first of all there is, and a cursor comes with it when more is to come, or might to a store that is eager. */
  lemma FirstPageIs(docs: seq<Doc>, q: Query, limit: nat, eager: bool)
    requires Answered(docs, q, |docs| + 1, None, eager).Page? && Answered(docs, q, limit, None, eager).Page?
    ensures var all, answer := Answered(docs, q, |docs| + 1, None, eager).items, Answered(docs, q, limit, None, eager);
            && answer.items == (if |all| <= limit then all else all[..limit])
            && (answer.next.Some? <==> 0 < limit && (limit < |all| || (eager && limit == |all|)))
  {
    AllAnswered(docs, q, |docs| + 1, eager);
  }

  lemma BothWays(a: Value, b: Value)
    ensures a.Other? && b.Other? ==>
              && (Precedes(a.kind, b.kind) || Precedes(b.kind, a.kind)) && (Precedes(a.json, b.json) || Precedes(b.json, a.json))
              && (Precedes(a.kind, b.kind) && Precedes(b.kind, a.kind) ==> a.kind == b.kind)
              && (Precedes(a.json, b.json) && Precedes(b.json, a.json) ==> a.json == b.json)
  {
    if a.Other? && b.Other? {
      PrecedesIsTotal(a.kind, b.kind);
      PrecedesIsTotal(a.json, b.json);
    }
  }

  /** Main result: with which other query a cursor can be gone on: in the same order, by the same field, over one partition. */
  lemma RefusedExactly(docs: seq<Doc>, others: seq<Doc>, p: Query, q: Query, limit: nat, size: nat, eager: bool)
    requires var answer := Answered(docs, p, limit, None, eager); answer.Page? && answer.next.Some?
    ensures var refused := Answered(others, q, size, Answered(docs, p, limit, None, eager).next, eager).Refused?;
            && (p.partition != q.partition ==> refused)
            && (p.partition == q.partition && p.orderBy.Some? && q.orderBy.Some? ==> (refused <==> p.orderBy != q.orderBy))
            && (p.partition == q.partition && p.orderBy.None? && q.orderBy.None? ==>
                  (refused <==> p.ascending != q.ascending || p.sortKey.Some? != q.sortKey.Some?))
            && (p.partition == q.partition && p.orderBy.Some? && q.orderBy.None? ==>
                  (refused <==> q.sortKey.None? || p.orderBy.value != OrderBy(V, !q.ascending)))
            && (p.partition == q.partition && p.orderBy.None? && q.orderBy.Some? ==>
                  (refused <==> p.sortKey.None? || q.orderBy.value != OrderBy(V, !p.ascending)))
  {
    hide QueryThrows;
    hide Remaining;
    hide FirstOf;
  }

  // -------------------------------------------------------------------------------------------------------------
  // When a query throws
  // -------------------------------------------------------------------------------------------------------------

  /** `JSON.stringify` throws on it. */
  predicate HasNoText(v: Value) { v.Other? && v.form.Throws? }

  /** Values of one kind, to be told apart by their JSON texts of which one is not to be had. */
  predicate NotToldApart(a: Value, b: Value) {
    && a.Other? && b.Other? && a.kind == b.kind && (HasNoText(a) || HasNoText(b)) && a.kind != "boolean"
  }

  /** A value that is neither number nor text is the low end, or behind it. */
  predicate ReachesLow(v: Value, low: Value)
    requires v.Other?
  {
    || low.Number? || low.Infinite? || low.NaN? || low.Text?
    || (low.Other? && !StandsBefore(v.kind, v.json, low.kind, low.json))
  }

  /** Filtering asks for a text that is not to be had. */
  ghost predicate FilterFails(docs: seq<Doc>, q: Query) {
    exists d :: d in docs && InPartition(q, d) && q.sortKey.Some?
                && match q.sortKey.value
                   case Eq(_) => false
                   case Gt(t) => NotToldApart(d.v, t)
                   case Lt(t) => NotToldApart(d.v, t)
                   case Between(low, high) =>
                     NotToldApart(d.v, low) || (NotToldApart(d.v, high) && ReachesLow(d.v, low))
  }

  /** The value a query orders the document by. */
  function OrderedBy(q: Query, d: Doc): Value {
    if q.orderBy.Some? then ValueAt(d, q.orderBy.value.field) else if q.sortKey.Some? then d.v else Null
  }

  /** Two documents that match have to be told apart by texts. */
  ghost predicate SortFails(docs: seq<Doc>, q: Query) {
    exists d, e :: d in docs && e in docs && d != e && Hit(q, d) && Hit(q, e) && NotToldApart(OrderedBy(q, d), OrderedBy(q, e))
  }

  /** The page's last value cannot be written into the cursor that is to come with it. */
  ghost predicate CursorFails(docs: seq<Doc>, q: Query, limit: nat, eager: bool) {
    var all := Answered(docs, q, |docs| + 1, None, eager);
    && all.Page? && 0 < limit && (limit < |all.items| || (eager && limit == |all.items|))
    && HasNoText(OrderedBy(q, all.items[limit - 1]))
  }

  lemma FilterFailsExactly(docs: seq<Doc>, q: Query)
    ensures (exists i :: 0 <= i < |docs| && LookThrows(q, None, docs[i])) <==> FilterFails(docs, q)
  {
    forall d: Doc, low: Value | d.v.Other?
      ensures CompareValues(q.collate, d.v, low) >= 0 <==> ReachesLow(d.v, low)
    {
      if low.Other? {
        PrecedesIsTotal(d.v.kind, low.kind);
        PrecedesIsTotal(d.v.json, low.json);
      }
    }
    hide CompareValues;
    hide ReachesLow;
  }

  predicate ClashWhereOrdered(q: Query, d: Doc, e: Doc) {
    Clash(PositionOf(StoreOrder(q), d).value, PositionOf(StoreOrder(q), e).value)
  }

  lemma ClashIs(q: Query, d: Doc, e: Doc)
    ensures ClashWhereOrdered(q, d, e) <==> NotToldApart(OrderedBy(q, d), OrderedBy(q, e))
    ensures ClashWhereOrdered(q, d, e) <==> ClashWhereOrdered(q, e, d)
  {}

  lemma SortFailsExactly(docs: seq<Doc>, q: Query)
    requires Distinct(docs)
    ensures SortThrows(StoreOrder(q), Selected(q, None, docs)) <==> SortFails(docs, q)
  {
    hide Selected;
    hide OrderedBy;
    hide NotToldApart;
    hide ClashWhereOrdered;
    SelectedIsDistinct(q, None, docs);
    var matches := Selected(q, None, docs);
    ThrowsAtTwo(q, matches);
    forall d, e
      ensures ClashWhereOrdered(q, d, e) <==> NotToldApart(OrderedBy(q, d), OrderedBy(q, e))
    {
      ClashIs(q, d, e);
    }
    if SortFails(docs, q) {
      var d, e :| d in docs && e in docs && d != e && Hit(q, d) && Hit(q, e) && NotToldApart(OrderedBy(q, d), OrderedBy(q, e));
      assert d in matches && e in matches;
      ClashIs(q, d, e);
    }
  }

  /** Any two documents of the list that clash make its sort throw. */
  lemma ThrowsAtTwo(q: Query, matches: seq<Doc>)
    requires Distinct(matches)
    ensures SortThrows(StoreOrder(q), matches) <==>
            exists d, e :: d in matches && e in matches && d != e && ClashWhereOrdered(q, d, e)
  {
    hide Clash;
    hide PositionOf;
    hide StoreOrder;
    if d, e :| d in matches && e in matches && d != e && ClashWhereOrdered(q, d, e) {
      ClashIs(q, d, e);
      var i :| 0 <= i < |matches| && matches[i] == d;
      var j :| 0 <= j < |matches| && matches[j] == e;
      assert i < j || j < i;
      assert ClashWhereOrdered(q, matches[i], matches[j]) && ClashWhereOrdered(q, matches[j], matches[i]);
    }
    if SortThrows(StoreOrder(q), matches) {
      var i, j :| 0 <= i < j < |matches|
                  && Clash(PositionOf(StoreOrder(q), matches[i]).value, PositionOf(StoreOrder(q), matches[j]).value);
      assert ClashWhereOrdered(q, matches[i], matches[j]) && matches[i].id != matches[j].id;
    }
  }

  /**
   * Main result: a first page fails exactly when filtering or ordering has to tell two values of one kind apart by texts of
   * which one is not to be had, or when its cursor would hold such a value.
   */
  lemma FailsExactly(docs: seq<Doc>, q: Query, limit: nat, eager: bool)
    requires Distinct(docs)
    ensures Answered(docs, q, limit, None, eager).Failed? <==>
            FilterFails(docs, q) || SortFails(docs, q) || CursorFails(docs, q, limit, eager)
  {
    hide LookThrows;
    hide SortThrows;
    hide FilterFails;
    hide SortFails;
    hide Remaining;
    FilterFailsExactly(docs, q);
    SortFailsExactly(docs, q);
    ListingIsNoLonger(docs, q);
  }

  /** Going on from a cursor fails too when a match has to be told apart from what the cursor holds, and no text is to be had. */
  lemma SeekingFails(docs: seq<Doc>, q: Query, limit: nat, cursor: Cursor, d: Doc, eager: bool)
    requires !Answered(docs, q, limit, Some(cursor), eager).Refused?
    requires d in docs && Hit(q, d) && NotToldApart(OrderedBy(q, d), cursor.at.value)
    ensures Answered(docs, q, limit, Some(cursor), eager).Failed?
  {
    var i :| 0 <= i < |docs| && docs[i] == d;
    assert LookThrows(q, Some(cursor.at), docs[i]);
  }

  // -------------------------------------------------------------------------------------------------------------
  // What a walk needs of its values
  // -------------------------------------------------------------------------------------------------------------

  /** Past its first `k` documents the query is answered with a page of what it lists from there on. */
  ghost predicate BeginsAt(docs: seq<Doc>, q: Query, limit: nat, eager: bool, k: nat) {
    var all := Remaining(docs, q, None);
    k <= |all| ==>
      && (k > 0 ==> Written(q, PositionOf(StoreOrder(q), all[k - 1])).Some?)
      && var answer := Answered(docs, q, limit, CursorFor(q, CursorAt(StoreOrder(q), all, k)), eager);
         answer.Page? && answer.items == FirstOf(all[k..], limit)
  }

  ghost predicate GoesOn(docs: seq<Doc>, q: Query, limit: nat, eager: bool) {
    forall k: nat :: BeginsAt(docs, q, limit, eager, k)
  }

  /** Every document's value where the query orders by is allowed. */
  ghost predicate Holds(o: Order, docs: seq<Doc>, allowed: Value -> bool) {
    o.field.Some? ==> forall d :: d in docs ==> allowed(ValueAt(d, o.field.value))
  }

  ghost predicate AlwaysGoesOn(allowed: Value -> bool) {
    forall docs: seq<Doc>, q: Query, limit: nat, eager: bool |
      Collates(q.collate) && Distinct(docs) && Filters(q, docs) && Holds(StoreOrder(q), docs, allowed) && limit > 0 ::
      GoesOn(docs, q, limit, eager)
  }

  lemma BeginsWhereItEnded(docs: seq<Doc>, q: Query, limit: nat, eager: bool, k: nat)
    requires Collates(q.collate) && Distinct(docs) && Filters(q, docs) && Sound(StoreOrder(q), docs)
    ensures BeginsAt(docs, q, limit, eager, k)
  {
    hide Remaining;
    hide Answered;
    hide StoreOrder;
    hide Sound;
    hide Filters;
    var o, all := StoreOrder(q), Remaining(docs, q, None);
    if k <= |all| {
      RemainingIsOrdered(docs, q, None);
      AllReadBack(o, docs, all);
      assert k > 0 ==> all[k - 1] in all;
      PageFollows(docs, q, docs, all, k, limit, eager);
      TailRemains(docs, q, all, k);
    }
  }

  lemma TailRemains(docs: seq<Doc>, q: Query, all: seq<Doc>, k: nat)
    requires Collates(q.collate) && Distinct(docs) && Sound(StoreOrder(q), docs)
    requires all == Remaining(docs, q, None) && k <= |all|
    ensures Remaining(docs, q, CursorAt(StoreOrder(q), all, k)) == all[k..]
  {
    var o := StoreOrder(q);
    RemainingIsOrdered(docs, q, None);
    RemainingIsOrdered(docs, q, CursorAt(o, all, k));
    hide Remaining;
    hide StoreOrder;
    hide Sound;
    hide Earlier;
    hide Keeps;
    var rest := Remaining(docs, q, CursorAt(o, all, k));
    forall d
      ensures d in rest <==> d in all[k..]
    {
      RestIsTail(docs, q, docs, {}, all, k, d);
    }
    OrderedIsUnique(o, docs, rest, all[k..]);
  }

  const CONSTANT_COLLATOR: Collator := (s, t) => 0

  function ByV(desc: bool): Query { Query(None, None, Some(OrderBy(V, desc)), true, CONSTANT_COLLATOR) }

  lemma TwoRemain(q: Query, d: Doc, e: Doc, after: Option<Position>)
    ensures Keeps(q, after, d) && Keeps(q, after, e) && Earlier(StoreOrder(q), d, e) ==>
              Selected(q, after, [d, e]) == [d, e] && Remaining([d, e], q, after) == [d, e]
    ensures !Keeps(q, after, d) && !Keeps(q, after, e) ==> Selected(q, after, [d, e]) == Remaining([d, e], q, after) == []
  {
    hide Keeps;
    hide Earlier;
    TwoSelected(q, d, e, after);
    var o := StoreOrder(q);
    assert [d, e][1..] == [e] && [e][1..] == [];
    assert Sort(o, []) == [] && Sort(o, [e]) == Inserted(o, e, []) == [e];
    InsertedUnfolds(o, d, [e]);
  }

  lemma TwoSelected(q: Query, d: Doc, e: Doc, after: Option<Position>)
    ensures Selected(q, after, [d, e])
         == (if Keeps(q, after, d) then [d] else []) + (if Keeps(q, after, e) then [e] else [])
  {
    hide Keeps;
    assert [d, e][..1] == [d] && [d][..0] == [];
    assert Selected(q, after, [d]) == Selected(q, after, []) + if Keeps(q, after, d) then [d] else [];
  }

  function Holding(id: string, v: Value): Doc { Doc(id, "p", v, Missing) }

  lemma TiesWithItself(v: Value)
    ensures CompareValues(CONSTANT_COLLATOR, v, v) == 0
  {
    if v.Other? {
      CompareTextIsOrder(v.json, v.json, v.json);
    }
  }

  /** Whether a document holding `v` stands behind the position of another value. */
  lemma StandsBehind(id: string, v: Value, desc: bool, key: string, w: Value)
    requires !Nullish(v)
    ensures var c := CompareValues(CONSTANT_COLLATOR, v, w);
            Keeps(ByV(desc), Some(Position(key, w)), Holding(id, v))
            <==> !Nullish(w) && if c == 0 then CompareText(id, key) > 0 else (c > 0) != desc
  {
    hide CompareValues;
    hide CompareText;
  }

  lemma StandInOrder(v: Value, desc: bool)
    requires !Nullish(v)
    ensures Keeps(ByV(desc), None, Holding("a", v)) && Keeps(ByV(desc), None, Holding("b", v))
    ensures Earlier(StoreOrder(ByV(desc)), Holding("a", v), Holding("b", v))
  {
    hide CompareValues;
    TiesWithItself(v);
    assert CompareText("a", "b") == -1;
  }

  lemma NoneClashes(v: Value, q: Query, after: Option<Position>)
    requires !Clash(v, v) && q.sortKey.None? && q.orderBy.Some? && q.orderBy.value.field == V
    requires after.Some? ==> !Clash(v, after.value.value)
    ensures !QueryThrows([Holding("a", v), Holding("b", v)], q, after)
  {
    var docs := [Holding("a", v), Holding("b", v)];
    forall d | d in Selected(q, after, docs)
      ensures d.v == v
    {
      assert d in docs;
    }
  }

  /** Two documents with one value: listed by their keys, if that does not throw. */
  lemma BothListed(v: Value, desc: bool)
    requires !Nullish(v) && !Clash(v, v)
    ensures var d, e := Holding("a", v), Holding("b", v);
            Remaining([d, e], ByV(desc), None) == [d, e] && !QueryThrows([d, e], ByV(desc), None)
  {
    hide Keeps;
    hide Earlier;
    hide QueryThrows;
    StandInOrder(v, desc);
    TwoRemain(ByV(desc), Holding("a", v), Holding("b", v), None);
    NoneClashes(v, ByV(desc), None);
  }

  /** Past the first one's cursor both are left, or neither, as the value read back comes before or behind. */
  lemma BothOrNeither(v: Value, desc: bool)
    requires !Nullish(v) && Kept(v).Some? && !ReadsBack(v)
    ensures var q, d, e := ByV(desc), Holding("a", v), Holding("b", v);
            var rest := Remaining([d, e], q, Past(Written(q, PositionOf(StoreOrder(q), d))));
            if RankOf(Kept(v).value) == 3 then rest == []
            else
              var c := CompareValues(CONSTANT_COLLATOR, v, Kept(v).value);
              c != 0 && rest == if (c > 0) != desc then [d, e] else []
  {
    hide Keeps;
    hide Earlier;
    hide Remaining;
    hide CompareValues;
    hide CompareText;
    hide ReadsBack;
    var q, d, e := ByV(desc), Holding("a", v), Holding("b", v);
    ReadsBackExactly(CONSTANT_COLLATOR, v);
    StandInOrder(v, desc);
    StandsBehind("a", v, desc, "a", Kept(v).value);
    StandsBehind("b", v, desc, "a", Kept(v).value);
    TwoRemain(q, d, e, Past(Written(q, PositionOf(StoreOrder(q), d))));
  }

  /** A value that does not read back breaks a query over two documents that hold it. */
  lemma OddValueBreaks(v: Value)
    requires !ReadsBack(v)
    ensures !GoesOn([Holding("a", v), Holding("b", v)], ByV(false), 1, false)
  {
    hide Remaining;
    hide QueryThrows;
    var q, d, e := ByV(false), Holding("a", v), Holding("b", v);
    var docs, all := [d, e], Remaining([d, e], q, None);
    assert CursorFor(q, CursorAt(StoreOrder(q), all, 0)) == None;
    if Clash(v, v) {
      ClashThrows(v);
      assert !BeginsAt(docs, q, 1, false, 0);
    } else {
      BothListed(v, false);
      if Kept(v).Some? {
        BothOrNeither(v, false);
        var rest := Remaining(docs, q, Past(Written(q, PositionOf(StoreOrder(q), d))));
        assert rest == [] || rest == [d, e];
        assert d.id[0] != e.id[0] && [d, e][..1] == [d];
        assert FirstOf(all[1..], 1) == [e] && (FirstOf(rest, 1) == [] || FirstOf(rest, 1)[0] == d);
        assert !BeginsAt(docs, q, 1, false, 1);
      } else {
        assert !BeginsAt(docs, q, 1, false, 1);
      }
    }
  }

  lemma ClashThrows(v: Value)
    requires Clash(v, v)
    ensures QueryThrows([Holding("a", v), Holding("b", v)], ByV(false), None)
  {
    var q, d, e := ByV(false), Holding("a", v), Holding("b", v);
    TwoSelected(q, d, e, None);
    var matches := Selected(q, None, [d, e]);
    assert matches[0] == d && matches[1] == e;
  }

  lemma OddValueRefutes(allowed: Value -> bool, v: Value)
    requires allowed(v) && !ReadsBack(v)
    ensures !AlwaysGoesOn(allowed)
  {
    hide GoesOn;
    OddValueBreaks(v);
    var docs := [Holding("a", v), Holding("b", v)];
    assert docs[0].id != docs[1].id;
    assert Collates(CONSTANT_COLLATOR) && Distinct(docs) && Filters(ByV(false), docs);
    assert Holds(StoreOrder(ByV(false)), docs, allowed);
  }

  /**
   * Main result: whatever a store holds and a query asks, each page is answered and the next begins where it ended,
   * if and only if every value there is where queries order by reads back from JSON as it was.
   */
  lemma GoesOnExactly(allowed: Value -> bool)
    ensures AlwaysGoesOn(allowed) <==> forall v :: allowed(v) ==> ReadsBack(v)
  {
    hide BeginsAt;
    hide ReadsBack;
    if v :| allowed(v) && !ReadsBack(v) {
      OddValueRefutes(allowed, v);
    } else {
      forall docs: seq<Doc>, q: Query, limit: nat, eager: bool |
        Collates(q.collate) && Distinct(docs) && Filters(q, docs) && Holds(StoreOrder(q), docs, allowed) && limit > 0
        ensures GoesOn(docs, q, limit, eager)
      {
        assert Sound(StoreOrder(q), docs);
        forall k: nat
          ensures BeginsAt(docs, q, limit, eager, k)
        {
          BeginsWhereItEnded(docs, q, limit, eager, k);
        }
      }
    }
  }

  /**
   * A date reads back as a string, which comes before it. Ascending, the second page of one document is the first again,
   * with the same cursor, so that the walk never ends; descending it is empty, and the second document is never seen.
   */
  lemma DatesStrayInCursors(json: string, iso: string, eager: bool)
    ensures var v := Other("object", json, ReadsText(iso));
            var docs := [Holding("a", v), Holding("b", v)];
            var up, down := Answered(docs, ByV(false), 1, None, eager), Answered(docs, ByV(true), 1, None, eager);
            && up.Page? && up.next.Some? && Answered(docs, ByV(false), 1, up.next, eager) == up
            && down.Page? && down.next.Some? && Answered(docs, ByV(true), 1, down.next, eager) == Page([], None)
  {
    hide Remaining;
    hide QueryThrows;
    var v := Other("object", json, ReadsText(iso));
    BothListed(v, false);
    BothListed(v, true);
    BothOrNeither(v, false);
    BothOrNeither(v, true);
    NoneClashes(v, ByV(false), Some(Position("a", Text(iso))));
    NoneClashes(v, ByV(true), Some(Position("a", Text(iso))));
  }

  /** An infinity or a NaN reads back as a null, which stands behind every number: of two documents the second is lost. */
  lemma UnprintableLosesDocuments(v: Value, eager: bool)
    requires v == NaN || v.Infinite?
    ensures var docs := [Holding("a", v), Holding("b", v)];
            var first := Answered(docs, ByV(false), 1, None, eager);
            && first.Page? && first.next.Some? && Answered(docs, ByV(false), 1, first.next, eager) == Page([], None)
  {
    hide Remaining;
    hide QueryThrows;
    BothListed(v, false);
    BothOrNeither(v, false);
    NoneClashes(v, ByV(false), Some(Position("a", Null)));
  }
}
