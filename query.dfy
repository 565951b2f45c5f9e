/** What `asArray` computes from the documents of a store
    (lib/store.js:155-200): filter, count, read the pagination options, sort,
    take a window. The store method itself lives in module Stores; this
    module holds the computation as functions, and what it promises as
    lemmas. */
module Query {
  import opened Numerals
  import opened Values
  import opened Sorting
  import opened Compare

  /** The options object. A `filter` query is modelled by the predicate it
      selects with; `sort` is the field-to-weight specification. Absent
      options are None or `Undefined`. */
  datatype Options = Options(filter: Option<Value -> bool>, sort: Option<SortSpec>, offset: Value, limit: Value)

  /** The result object: the store name as `root`, the records under the
      store's name, and the totals. `count` is absent when the store is
      empty. */
  datatype Page = Page(root: string, records: seq<Value>, length: int, limit: int, offset: int, count: Option<int>)

  /** The options `asArray(null)` runs with (`opts || {}`). */
  function NoOptions(): Options {
    Options(None, None, Undefined, Undefined)
  }

  /** `sift(query, docs)`: the documents the query selects, in their order. */
  function Filter(p: Value -> bool, s: seq<Value>): (r: seq<Value>)
    ensures |r| <= |s|
  {
    if s == [] then [] else (if p(s[0]) then [s[0]] else []) + Filter(p, s[1..])
  }

  /** The filter keeps exactly the documents the query selects. */
  lemma {:induction false} FilterSelects(p: Value -> bool, s: seq<Value>)
    ensures forall x :: x in Filter(p, s) <==> x in s && p(x)
  {
    if s != [] {
      FilterSelects(p, s[1..]);
      assert s == [s[0]] + s[1..];
    }
  }

  /** A query that selects none of the documents yields none. */
  lemma {:induction false} FilterNone(p: Value -> bool, s: seq<Value>)
    requires forall x | x in s :: !p(x)
    ensures Filter(p, s) == []
  {
    if s != [] {
      FilterNone(p, s[1..]);
    }
  }

  /** Filtering keeps the relative order: filtering a concatenation is the
      concatenation of the filtered parts. */
  lemma {:induction false} FilterDistributes(p: Value -> bool, s: seq<Value>, t: seq<Value>)
    ensures Filter(p, s + t) == Filter(p, s) + Filter(p, t)
  {
    if s == [] {
      assert s + t == t;
    } else {
      var head := if p(s[0]) then [s[0]] else [];
      FilterDistributes(p, s[1..], t);
      calc {
        Filter(p, s + t);
        { assert (s + t)[0] == s[0] && (s + t)[1..] == s[1..] + t; }
        head + Filter(p, s[1..] + t);
        head + (Filter(p, s[1..]) + Filter(p, t));
        { assert head + (Filter(p, s[1..]) + Filter(p, t)) == (head + Filter(p, s[1..])) + Filter(p, t); }
        Filter(p, s) + Filter(p, t);
      }
    }
  }

  /** The query `sift` builds from a plain object of field values: a
      document is selected when each of those fields reads as the given
      value. */
  function Selects(query: Record): Value -> bool {
    v => forall k {:trigger Field(v, k)} | k in query :: Field(v, k) == query[k]
  }

  /** The records the filter selects (all of them without a filter). */
  function Matching(docs: seq<Value>, filter: Option<Value -> bool>): seq<Value> {
    match filter
    case None => docs
    case Some(p) => Filter(p, docs)
  }

  /** The matching records, sorted when a sort specification is given. */
  function Arranged(records: seq<Value>, sort: Option<SortSpec>, collate: Collation): seq<Value> {
    match sort
    case None => records
    case Some(spec) => SortBy(records, Comparator(spec, collate))
  }

  /** `Array.prototype.slice`'s reading of an index against a length: a
      negative index counts from the end, and both ends are clamped. */
  function ClampIndex(i: int, n: nat): (j: nat)
    ensures j <= n
    ensures 0 <= i <= n ==> j == i
    ensures i < 0 <= n + i ==> j == n + i
    ensures i > n ==> j == n
    ensures n + i < 0 ==> j == 0
  {
    if i < 0 then (if n + i < 0 then 0 else n + i) else if i > n then n else i
  }

  /** `s.slice(start, end)`. */
  function Slice<T>(s: seq<T>, start: int, end: int): (r: seq<T>)
    ensures |r| <= |s|
  {
    var lo := ClampIndex(start, |s|);
    var hi := ClampIndex(end, |s|);
    if lo < hi then s[lo..hi] else []
  }

  /** The result of `asArray(opts)` over the documents of the store, in the
      order `HKEYS` lists their fields (lib/store.js:159-196). */
  function Run(root: string, docs: seq<Value>, opts: Options, collate: Collation): Page {
    if docs == [] then
      Page(root, [], 0, ReadOption(opts.limit, 100), ReadOption(opts.offset, 0), None)
    else
      var records := Matching(docs, opts.filter);
      var length := |records|;
      Paginate(root, Arranged(records, opts.sort, collate), length,
        ReadOption(opts.offset, 0), ReadOption(opts.limit, length))
  }

  /** Whether sorting the matches throws (lib/store.js:190-192): with two
      or more records the engine compares every record with another, and
      once the generated function reads a field of a `null` document it
      raises a `TypeError`. */
  predicate SortThrows(records: seq<Value>, sort: Option<SortSpec>, collate: Collation) {
    sort.Some? && |records| >= 2 && Null in records && ReadsOperands(sort.value, collate)
  }

  /** Whether `asArray(opts)` throws instead of calling back with a page. */
  predicate ListingThrows(docs: seq<Value>, opts: Options, collate: Collation) {
    docs != [] && SortThrows(Matching(docs, opts.filter), opts.sort, collate)
  }

  /** Under a collation, a listing throws exactly when it sorts on some key
      of positive or negative weight two or more matches, one of which is a
      `null` document. */
  lemma ListingThrowsIff(docs: seq<Value>, opts: Options, collate: Collation)
    requires IsCollation(collate)
    ensures ListingThrows(docs, opts, collate) <==>
      && opts.sort.Some? && Directions(opts.sort.value) != []
      && |Matching(docs, opts.filter)| >= 2 && Null in Matching(docs, opts.filter)
  {
    if opts.sort.Some? {
      ReadsOperandsIffDirections(opts.sort.value, collate);
    }
  }

  /** Sorting `{k: 1}` over a store holding a `null` document and any other
      document throws, whatever the collation. */
  lemma NullDocumentBreaksSort(k: string, doc: Value, collate: Collation)
    ensures ListingThrows([doc, Null], Options(None, Some([(k, Num(1))]), Undefined, Undefined), collate)
  {
    assert Null == [doc, Null][1];
  }

  /** The page cut from the arranged matches at an offset and a limit
      (lib/store.js:184-195). */
  function Paginate(root: string, arranged: seq<Value>, length: int, offset: int, limit: int): Page {
    var window := Slice(arranged, offset, offset + limit);
    Page(root, window, length, limit, offset, Some(|window|))
  }

  lemma ArrangedPermutes(records: seq<Value>, sort: Option<SortSpec>, collate: Collation)
    ensures multiset(Arranged(records, sort, collate)) == multiset(records)
    ensures |Arranged(records, sort, collate)| == |records|
  {
    if sort.Some? {
      SortByPermutes(records, Comparator(sort.value, collate));
    }
    assert |multiset(Arranged(records, sort, collate))| == |multiset(records)|;
  }

  /** For non-negative indices, a slice is the plain sub-sequence, cut off
      at the end of `s`. */
  lemma SliceOfNatural<T>(s: seq<T>, start: int, end: int)
    requires 0 <= start && 0 <= end
    ensures Slice(s, start, end) ==
      if start < end && start < |s| then s[start..if end < |s| then end else |s|] else []
  {
  }

  /** Two adjacent slices make up the slice that spans both. */
  lemma SliceConcat<T>(s: seq<T>, a: int, b: int, c: int)
    requires 0 <= a <= b <= c
    ensures Slice(s, a, b) + Slice(s, b, c) == Slice(s, a, c)
  {
    SliceOfNatural(s, a, b);
    SliceOfNatural(s, b, c);
    SliceOfNatural(s, a, c);
  }

  /** Every element of a slice is an element of `s`. */
  lemma SliceWithin<T>(s: seq<T>, start: int, end: int)
    ensures forall x | x in Slice(s, start, end) :: x in s
  {
  }

  /** An empty store lists no records and no count; the limit defaults to
      100 and the offset to 0 (lib/store.js:163-173). */
  lemma EmptyStorePage(root: string, opts: Options, collate: Collation)
    ensures var p := Run(root, [], opts, collate);
      && p.records == [] && p.length == 0 && p.count == None
      && p.limit == ReadOption(opts.limit, 100) && p.offset == ReadOption(opts.offset, 0)
  {
  }

  /** Every listed record is one of the store's documents, and one the filter
      selects. */
  lemma PageHoldsMatches(root: string, docs: seq<Value>, opts: Options, collate: Collation)
    ensures var p := Run(root, docs, opts, collate);
      forall x | x in p.records :: x in docs && (opts.filter.Some? ==> opts.filter.value(x))
  {
    if docs != [] {
      var records := Matching(docs, opts.filter);
      var arranged := Arranged(records, opts.sort, collate);
      var p := Run(root, docs, opts, collate);
      ArrangedPermutes(records, opts.sort, collate);
      SliceWithin(arranged, p.offset, p.offset + p.limit);
      if opts.filter.Some? {
        FilterSelects(opts.filter.value, docs);
      }
      forall x | x in p.records ensures x in docs && (opts.filter.Some? ==> opts.filter.value(x)) {
        assert x in multiset(arranged);
      }
    }
  }

  /** `length` counts the matches, and `count` the records on the page:
      with a non-negative offset and limit, as many as remain after the
      offset, at most `limit`. */
  lemma PageCount(root: string, docs: seq<Value>, opts: Options, collate: Collation)
    requires docs != []
    ensures var p := Run(root, docs, opts, collate);
      && p.length == |Matching(docs, opts.filter)|
      && (0 <= p.offset && 0 <= p.limit ==>
            var rest := if p.length > p.offset then p.length - p.offset else 0;
            p.count == Some(if p.limit < rest then p.limit else rest))
  {
    var records := Matching(docs, opts.filter);
    var arranged := Arranged(records, opts.sort, collate);
    var p := Run(root, docs, opts, collate);
    ArrangedPermutes(records, opts.sort, collate);
    if 0 <= p.offset && 0 <= p.limit {
      SliceLength(arranged, p.offset, p.limit);
    }
  }

  /** A window at a non-negative offset and limit holds what remains after
      the offset, at most `limit`. */
  lemma SliceLength<T>(s: seq<T>, offset: int, limit: int)
    requires 0 <= offset && 0 <= limit
    ensures var rest := if |s| > offset then |s| - offset else 0;
      |Slice(s, offset, offset + limit)| == if limit < rest then limit else rest
  {
    SliceOfNatural(s, offset, offset + limit);
  }

  /** Without an offset or a limit the page holds every match: all of them,
      in the sorted order when a sort is given (lib/store.js:182-183). */
  lemma DefaultsListEverything(root: string, docs: seq<Value>, opts: Options, collate: Collation)
    requires docs != []
    requires !IsNumeric(opts.offset) && !IsNumeric(opts.limit)
    ensures var p := Run(root, docs, opts, collate);
      && p.records == Arranged(Matching(docs, opts.filter), opts.sort, collate)
      && p.count == Some(p.length) && p.offset == 0 && p.limit == p.length
      && multiset(p.records) == multiset(Matching(docs, opts.filter))
  {
    var records := Matching(docs, opts.filter);
    var arranged := Arranged(records, opts.sort, collate);
    ArrangedPermutes(records, opts.sort, collate);
    assert arranged[0..|arranged|] == arranged;
  }

  /** Listing with a filter alone lists exactly the documents it selects,
      in store order. */
  lemma FilterOnlyListing(root: string, docs: seq<Value>, opts: Options, collate: Collation)
    requires opts.filter.Some? && opts.sort.None? && opts.offset == Undefined && opts.limit == Undefined
    ensures Run(root, docs, opts, collate).records == Filter(opts.filter.value, docs)
  {
    if docs != [] {
      NonNumbersDoNotParse();
      DefaultsListEverything(root, docs, opts, collate);
    }
  }

  /** A document the filter selects makes the filter-only listing
      non-empty. */
  lemma SelectedIsListed(root: string, docs: seq<Value>, opts: Options, collate: Collation, x: Value)
    requires opts.filter.Some? && opts.sort.None? && opts.offset == Undefined && opts.limit == Undefined
    requires x in docs && opts.filter.value(x)
    ensures Run(root, docs, opts, collate).records != []
  {
    FilterSelects(opts.filter.value, docs);
    FilterOnlyListing(root, docs, opts, collate);
    assert x in Run(root, docs, opts, collate).records;
  }

  function WithWindow(opts: Options, offset: int, limit: int): Options {
    Options(opts.filter, opts.sort, Num(offset), Num(limit))
  }

  /** Paging through with a fixed limit loses and repeats nothing: the page
      at offset `o` followed by the page at offset `o + l` is the page of
      limit `2 * l` at offset `o`. */
  lemma ConsecutivePages(root: string, docs: seq<Value>, opts: Options, collate: Collation, o: nat, l: nat)
    requires docs != []
    ensures Run(root, docs, WithWindow(opts, o, l), collate).records +
            Run(root, docs, WithWindow(opts, o + l, l), collate).records ==
            Run(root, docs, WithWindow(opts, o, l + l), collate).records
  {
    var arranged, length := Windows(root, docs, opts, collate);
    ConsecutiveWindows(root, arranged, length, o, l);
  }

  /** Every numeric window of one listing is cut from the same arranged
      matches, whatever the offset and limit. */
  lemma Windows(root: string, docs: seq<Value>, opts: Options, collate: Collation) returns (arranged: seq<Value>, length: int)
    requires docs != []
    ensures forall o, l :: Run(root, docs, WithWindow(opts, o, l), collate) == Paginate(root, arranged, length, o, l)
  {
    var records := Matching(docs, opts.filter);
    arranged := Arranged(records, opts.sort, collate);
    length := |records|;
    forall o, l ensures Run(root, docs, WithWindow(opts, o, l), collate) == Paginate(root, arranged, length, o, l) {
      RunAtWindow(root, docs, opts, collate, o, l);
    }
  }

  lemma ConsecutiveWindows(root: string, arranged: seq<Value>, length: int, o: nat, l: nat)
    ensures Paginate(root, arranged, length, o, l).records +
            Paginate(root, arranged, length, o + l, l).records ==
            Paginate(root, arranged, length, o, l + l).records
  {
    calc {
      Paginate(root, arranged, length, o, l).records + Paginate(root, arranged, length, o + l, l).records;
      Slice(arranged, o, o + l) + Slice(arranged, o + l, o + l + l);
      { SliceConcat(arranged, o, o + l, o + l + l); }
      Slice(arranged, o, o + l + l);
      Paginate(root, arranged, length, o, l + l).records;
    }
  }

  /** With a numeric offset and limit, the page is cut at exactly those. */
  lemma RunAtWindow(root: string, docs: seq<Value>, opts: Options, collate: Collation, o: int, l: int)
    requires docs != []
    ensures var records := Matching(docs, opts.filter);
      Run(root, docs, WithWindow(opts, o, l), collate) ==
      Paginate(root, Arranged(records, opts.sort, collate), |records|, o, l)
  {
    ReadOptionOfNumber(o, 0);
    ReadOptionOfNumber(l, |Matching(docs, opts.filter)|);
  }

  /** A negative offset no further back than the number of matches, without
      a limit, lists nothing: the window runs from `length + offset` to
      `offset + length`, the same index (lib/store.js:182-194). */
  lemma NegativeOffsetWithoutLimit(root: string, docs: seq<Value>, opts: Options, collate: Collation)
    requires docs != []
    requires -|Matching(docs, opts.filter)| <= ReadOption(opts.offset, 0) < 0 && !IsNumeric(opts.limit)
    ensures Run(root, docs, opts, collate).records == []
    ensures Run(root, docs, opts, collate).count == Some(0)
  {
    var records := Matching(docs, opts.filter);
    var arranged := Arranged(records, opts.sort, collate);
    var o := ReadOption(opts.offset, 0);
    ArrangedPermutes(records, opts.sort, collate);
    assert ClampIndex(o, |arranged|) == ClampIndex(o + |records|, |arranged|);
  }

  /** A slice of a sorted sequence is sorted. */
  lemma SliceSorted<T>(cmp: (T, T) -> int, s: seq<T>, start: int, end: int)
    requires SortedBy(cmp, s)
    ensures SortedBy(cmp, Slice(s, start, end))
  {
    var lo := ClampIndex(start, |s|);
    var hi := ClampIndex(end, |s|);
    if lo < hi {
      var r := s[lo..hi];
      forall i, j | 0 <= i < j < |r| ensures cmp(r[i], r[j]) <= 0 {
        assert r[i] == s[lo + i] && r[j] == s[lo + j];
      }
    }
  }

  /** A page of a sorted listing is in the order of its specification. */
  lemma SortedPage(root: string, docs: seq<Value>, opts: Options, collate: Collation)
    requires opts.sort.Some? && IsCollation(collate)
    requires forall k | k in Keys(opts.sort.value) :: ComparableAt(Matching(docs, opts.filter), k)
    ensures SortedBy(Comparator(opts.sort.value, collate), Run(root, docs, opts, collate).records)
  {
    if docs != [] {
      var records := Matching(docs, opts.filter);
      var p := Run(root, docs, opts, collate);
      SortedBySpec(opts.sort.value, collate, records);
      SliceSorted(Comparator(opts.sort.value, collate), Arranged(records, opts.sort, collate), p.offset, p.offset + p.limit);
    }
  }

  /** `{offset: 1, limit: 1}` over three documents lists the second of them,
      and reports length 3, offset 1, limit 1 and count 1. */
  lemma SecondOfThree(root: string, x: Value, y: Value, z: Value, collate: Collation)
    ensures var p := Run(root, [x, y, z], Options(None, None, Num(1), Num(1)), collate);
      p == Page(root, [y], 3, 1, 1, Some(1))
  {
    ReadOptionOfNumber(1, 0);
    ReadOptionOfNumber(1, 3);
  }
}
