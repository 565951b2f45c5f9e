/** The comparator `buildCompareFunc` (lib/store.js:128-153) builds from a sort
    specification. The source generates program text in a loop over the keys,
    carrying the operands of the last key in `ord`, and compiles it; here that
    loop is a fold over the (key, weight) pairs in key order, and the
    generated program is evaluated directly. */
module Compare {
  import opened Numerals
  import opened Values
  import opened Sorting

  /** `localeCompare` under the running locale: negative, zero or positive. */
  type Collation = (string, string) -> int

  /** A sort specification: field names in key order, each with its weight,
      which may be any value. */
  type SortSpec = seq<(string, Value)>

  /** The operands one generated line passes to `cmp`: `a.k, b.k` or
      `b.k, a.k`. */
  datatype Operands = Ascending(key: string) | Descending(key: string)

  /** A collation that orders strings totally: swapping the operands flips the
      sign, and "not after" is transitive. */
  ghost predicate IsCollation(collate: Collation) {
    && (forall s, t :: collate(s, t) < 0 <==> collate(t, s) > 0)
    && (forall s, t, u :: collate(s, t) <= 0 && collate(t, u) <= 0 ==> collate(s, u) <= 0)
  }

  function Sign(x: int): int {
    if x > 0 then 1 else if x < 0 then -1 else 0
  }

  /** The generated `cmp(a, b)` (lib/store.js:130-140): numeric when
      `parseFloat(a)` is a number and `b` is finite, by collation of the two
      strings otherwise. In the numeric branch `a - b` is NaN when `a` does
      not convert as a whole, and NaN is neither positive nor negative. */
  function CompareValues(a: Value, b: Value, collate: Collation): int {
    if ParseLeading(a).Some? && ToNumber(b).Some? then
      match ToNumber(a)
      case None => 0
      case Some(x) => Sign(x - ToNumber(b).value)
    else collate(ToStr(a), ToStr(b))
  }

  /** One key compared in its direction. */
  function CompareOn(d: Operands, collate: Collation, a: Value, b: Value): int {
    match d
    case Ascending(k) => CompareValues(Field(a, k), Field(b, k), collate)
    case Descending(k) => CompareValues(Field(b, k), Field(a, k), collate)
  }

  /** How the tests `val > 0` and `val < 0` see a weight: both compare
      `Number(val)` with 0, so "1" and `true` count as positive, "-1" as
      negative, and a weight that is NaN to `Number` passes neither test. */
  function Weight(v: Value): (w: int)
    ensures -1 <= w <= 1
  {
    match ToNumber(v)
    case Some(n) => Sign(n)
    case None => 0
  }

  /** `ord` after the key `key` with weight `weight` (lib/store.js:142-147):
      a weight that is neither positive nor negative leaves it as it was,
      undefined before any key that is. */
  function NextOrd(ord: Option<Operands>, key: string, weight: Value): Option<Operands> {
    var w := Weight(weight);
    if w > 0 then Some(Ascending(key))
    else if w < 0 then Some(Descending(key))
    else ord
  }

  /** One generated line `v = cmp(ord)`. With `ord` undefined the line reads
      `cmp(undefined)`, comparing `undefined` with `undefined`. */
  function Line(ord: Option<Operands>, collate: Collation, a: Value, b: Value): int {
    match ord
    case None => CompareValues(Undefined, Undefined, collate)
    case Some(d) => CompareOn(d, collate, a, b)
  }

  /** The rest of the generated function from the key `spec[0]` on, with
      `ord` as left by the keys before it: each line returns its value when
      that is non-zero, and the function returns 0 after the last line. */
  function CompareFrom(spec: SortSpec, ord: Option<Operands>, collate: Collation, a: Value, b: Value): int
    decreases |spec|
  {
    if spec == [] then 0
    else
      var ord' := NextOrd(ord, spec[0].0, spec[0].1);
      var v := Line(ord', collate, a, b);
      if v != 0 then v else CompareFrom(spec[1..], ord', collate, a, b)
  }

  /** The function `buildCompareFunc(spec)` returns, applied to `a` and `b`. */
  function CompareRecords(spec: SortSpec, collate: Collation, a: Value, b: Value): int {
    CompareFrom(spec, None, collate, a, b)
  }

  function Comparator(spec: SortSpec, collate: Collation): (Value, Value) -> int {
    (a, b) => CompareRecords(spec, collate, a, b)
  }

  /** The keys of a specification with a non-zero weight, in key order, each
      with its direction: positive ascending, negative descending. */
  function Directions(spec: SortSpec): (dirs: seq<Operands>)
    ensures |dirs| <= |spec|
    ensures forall i :: 0 <= i < |dirs| ==> dirs[i].key in Keys(spec)
  {
    if spec == [] then []
    else
      var rest := Directions(spec[1..]);
      var w := Weight(spec[0].1);
      if w > 0 then [Ascending(spec[0].0)] + rest
      else if w < 0 then [Descending(spec[0].0)] + rest
      else rest
  }

  function Keys(spec: SortSpec): set<string> {
    set i | 0 <= i < |spec| :: spec[i].0
  }

  /** Whether the generated function reads a property of its operands: it
      does when it reaches the line of a key whose weight is positive or
      negative, which happens when every line before it compared `undefined`
      with itself and got 0. Reading a property of `null` throws. */
  function ReadsOperands(spec: SortSpec, collate: Collation): bool
    decreases |spec|
  {
    spec != [] &&
      (Weight(spec[0].1) != 0 ||
        (collate("undefined", "undefined") == 0 && ReadsOperands(spec[1..], collate)))
  }

  /** The multi-key order a sort specification describes: the keys in order,
      the first one on which the records differ deciding. */
  function Lexicographic(dirs: seq<Operands>, collate: Collation, a: Value, b: Value): int {
    if dirs == [] then 0
    else
      var v := CompareOn(dirs[0], collate, a, b);
      if v != 0 then v else Lexicographic(dirs[1..], collate, a, b)
  }

  /** The specification with every weight negated, written as a number. */
  function Negated(spec: SortSpec): (r: SortSpec)
    ensures |r| == |spec|
    ensures forall i :: 0 <= i < |spec| ==> r[i].0 == spec[i].0 && Weight(r[i].1) == -Weight(spec[i].1)
  {
    if spec == [] then [] else [(spec[0].0, Num(-Weight(spec[0].1)))] + Negated(spec[1..])
  }

  function Flipped(ord: Option<Operands>): Option<Operands> {
    match ord
    case None => None
    case Some(Ascending(k)) => Some(Descending(k))
    case Some(Descending(k)) => Some(Ascending(k))
  }

  /** Lexicographic returns the comparison on the first key where the records
      differ, and 0 exactly when they tie on every key. */
  lemma LexicographicIsFirstDifference(dirs: seq<Operands>, collate: Collation, a: Value, b: Value)
    ensures Lexicographic(dirs, collate, a, b) == 0 <==>
      forall i :: 0 <= i < |dirs| ==> CompareOn(dirs[i], collate, a, b) == 0
    ensures Lexicographic(dirs, collate, a, b) != 0 ==>
      exists i :: 0 <= i < |dirs| && Lexicographic(dirs, collate, a, b) == CompareOn(dirs[i], collate, a, b) &&
        forall j :: 0 <= j < i ==> CompareOn(dirs[j], collate, a, b) == 0
  {
    LexicographicTies(dirs, collate, a, b);
    if Lexicographic(dirs, collate, a, b) != 0 {
      LexicographicDecides(dirs, collate, a, b);
    }
  }

  lemma {:induction false} LexicographicTies(dirs: seq<Operands>, collate: Collation, a: Value, b: Value)
    ensures Lexicographic(dirs, collate, a, b) == 0 <==>
      forall i :: 0 <= i < |dirs| ==> CompareOn(dirs[i], collate, a, b) == 0
  {
    if dirs != [] {
      LexicographicTies(dirs[1..], collate, a, b);
      assert forall i :: 0 <= i < |dirs| - 1 ==> dirs[1..][i] == dirs[i + 1];
      if CompareOn(dirs[0], collate, a, b) == 0 {
        assert Lexicographic(dirs, collate, a, b) == Lexicographic(dirs[1..], collate, a, b);
        forall i | 0 <= i < |dirs| && Lexicographic(dirs, collate, a, b) == 0
          ensures CompareOn(dirs[i], collate, a, b) == 0
        {
          if i > 0 {
            assert dirs[i] == dirs[1..][i - 1];
          }
        }
      }
    }
  }

  lemma {:induction false} LexicographicDecides(dirs: seq<Operands>, collate: Collation, a: Value, b: Value)
    requires Lexicographic(dirs, collate, a, b) != 0
    ensures
      exists i :: 0 <= i < |dirs| && Lexicographic(dirs, collate, a, b) == CompareOn(dirs[i], collate, a, b) &&
        forall j :: 0 <= j < i ==> CompareOn(dirs[j], collate, a, b) == 0
  {
    var r := Lexicographic(dirs, collate, a, b);
    if CompareOn(dirs[0], collate, a, b) != 0 {
      assert r == CompareOn(dirs[0], collate, a, b);
    } else {
      LexicographicDecides(dirs[1..], collate, a, b);
      var i :| 0 <= i < |dirs| - 1 && r == CompareOn(dirs[1..][i], collate, a, b) &&
        forall j :: 0 <= j < i ==> CompareOn(dirs[1..][j], collate, a, b) == 0;
      forall j | 0 <= j < i + 1 ensures CompareOn(dirs[j], collate, a, b) == 0 {
        if j > 0 {
          assert dirs[j] == dirs[1..][j - 1];
        }
      }
      assert r == CompareOn(dirs[i + 1], collate, a, b);
    }
  }

  /** Under a collation, the generated function reads its operands exactly
      when some key has a weight that is positive or negative. */
  lemma {:induction false} ReadsOperandsIffDirections(spec: SortSpec, collate: Collation)
    requires IsCollation(collate)
    ensures ReadsOperands(spec, collate) <==> Directions(spec) != []
  {
    assert collate("undefined", "undefined") == 0;
    if spec != [] {
      ReadsOperandsIffDirections(spec[1..], collate);
    }
  }

  /** The weight tests compare `Number(val)` with 0: a numeric string or
      `true` is positive, "-1" is negative, a word, `null` or an object is
      neither. */
  lemma WeightsOfValues()
    ensures Weight(Str("1")) == 1 && Weight(Bool(true)) == 1
    ensures Weight(Str("-1")) == -1
    ensures Weight(Str("asc")) == 0 && Weight(Null) == 0 && Weight(Obj(map[])) == 0
  {
    assert SplitSign("1") == (false, "1");
    assert SplitSign("-1") == (true, "1");
    assert SplitSign("asc") == (false, "asc");
    assert DigitsValue("1") == 1 by { assert "1"[..0] == []; }
    assert !AllDigits("asc") by { assert !IsDigit("asc"[0]); }
  }

  /** `cmp(undefined, undefined)` is the collation of "undefined" with itself. */
  lemma UndefinedLine(collate: Collation)
    ensures Line(None, collate, Undefined, Undefined) == collate("undefined", "undefined")
  {
    NonNumbersDoNotParse();
  }

  lemma {:induction false} CompareFromSkipsZeroWeights(spec: SortSpec, ord: Option<Operands>, collate: Collation, a: Value, b: Value)
    requires Line(ord, collate, a, b) == 0
    ensures CompareFrom(spec, ord, collate, a, b) == Lexicographic(Directions(spec), collate, a, b)
  {
    if spec != [] {
      var ord' := NextOrd(ord, spec[0].0, spec[0].1);
      var dirs := Directions(spec);
      if Weight(spec[0].1) != 0 {
        assert dirs == [ord'.value] + Directions(spec[1..]);
        assert dirs[1..] == Directions(spec[1..]);
      }
      if Line(ord', collate, a, b) == 0 {
        CompareFromSkipsZeroWeights(spec[1..], ord', collate, a, b);
      }
    }
  }

  /** A key of weight 0 repeats the line of the key before it, which has
      already compared equal, or compares `undefined` with itself; under a
      collation either is 0, so the comparator is the multi-key order over the
      keys of non-zero weight. */
  lemma CompareRecordsIsLexicographic(spec: SortSpec, collate: Collation, a: Value, b: Value)
    requires collate("undefined", "undefined") == 0
    ensures CompareRecords(spec, collate, a, b) == Lexicographic(Directions(spec), collate, a, b)
  {
    NonNumbersDoNotParse();
    CompareFromSkipsZeroWeights(spec, None, collate, a, b);
  }

  lemma NegatedNextOrd(ord: Option<Operands>, key: string, w: Value, w': Value)
    requires Weight(w') == -Weight(w)
    ensures NextOrd(Flipped(ord), key, w') == Flipped(NextOrd(ord, key, w))
  {
  }

  /** Flipping the operands of a line compares the records the other way
      round. */
  lemma FlippedLine(ord: Option<Operands>, collate: Collation, a: Value, b: Value)
    ensures Line(Flipped(ord), collate, a, b) == Line(ord, collate, b, a)
  {
  }

  lemma {:induction false} NegatedFromSwaps(spec: SortSpec, ord: Option<Operands>, collate: Collation, a: Value, b: Value)
    ensures CompareFrom(Negated(spec), Flipped(ord), collate, a, b) == CompareFrom(spec, ord, collate, b, a)
  {
    if spec != [] {
      var ord' := NextOrd(ord, spec[0].0, spec[0].1);
      var negated := Negated(spec);
      NegatedNextOrd(ord, spec[0].0, spec[0].1, negated[0].1);
      FlippedLine(ord', collate, a, b);
      assert negated[1..] == Negated(spec[1..]);
      NegatedFromSwaps(spec[1..], ord', collate, a, b);
    }
  }

  /** Negating every weight compares the records the other way round: a
      negative weight swaps the operands of its key (lib/store.js:143-147). */
  lemma NegatedSpecSwapsOperands(spec: SortSpec, collate: Collation, a: Value, b: Value)
    ensures CompareRecords(Negated(spec), collate, a, b) == CompareRecords(spec, collate, b, a)
  {
    NegatedFromSwaps(spec, None, collate, a, b);
  }

  /** Two numbers compare by their difference. */
  lemma CompareNumbers(x: int, y: int, collate: Collation)
    ensures CompareValues(Num(x), Num(y), collate) == Sign(x - y)
  {
    ParseLeadingOfNum(x);
  }

  /** A value whose string form does not start with a number is compared as
      a string, whatever the other operand. */
  lemma CompareWords(a: Value, b: Value, collate: Collation)
    requires ParseLeading(a).None?
    ensures CompareValues(a, b, collate) == collate(ToStr(a), ToStr(b))
  {
  }

  /** The numeric test looks at `parseFloat` of the left operand but
      `isFinite` of the right (lib/store.js:132), so the two orders of one
      pair can take different branches: "12abc" against 3 is numeric and NaN,
      hence equal, while 3 against "12abc" is compared as strings. */
  lemma NumericTestIsAsymmetric(collate: Collation)
    ensures CompareValues(Str("12abc"), Num(3), collate) == 0
    ensures CompareValues(Num(3), Str("12abc"), collate) == collate("3", "12abc")
  {
    assert LeadingDigits("12abc") == 2 by {
      assert LeadingDigits("abc") == 0;
      assert "12abc"[1..] == "2abc" && "2abc"[1..] == "abc";
    }
    assert ParseInteger("12abc").None? by {
      assert !AllDigits("12abc") by { assert !IsDigit("12abc"[2]); }
    }
    assert ToStr(Num(3)) == "3";
  }

  /** `null` converts to the finite number 0 but does not parse as a float:
      3 against null is numeric and positive, null against 3 is the collation
      of "null" with "3". Under a locale that sorts digits before letters both
      orders say "greater", so no sort order is consistent with the
      comparator on such a pair. */
  lemma NullAgainstNumber(collate: Collation)
    requires collate("null", "3") > 0
    ensures CompareValues(Num(3), Null, collate) > 0
    ensures CompareValues(Null, Num(3), collate) > 0
  {
    ParseLeadingOfNum(3);
    NonNumbersDoNotParse();
    assert ToStr(Num(3)) == "3";
  }

  /** Records whose values at a key are all numbers, or none of which start
      with a number (absent fields included), or none of which convert to a
      number as a whole (such as ISO timestamps), can be sorted on that key. */
  ghost predicate ComparableAt(s: seq<Value>, k: string) {
    || (forall x | x in s :: Field(x, k).Num?)
    || (forall x | x in s :: ParseLeading(Field(x, k)).None?)
    || (forall x | x in s :: ToNumber(Field(x, k)).None?)
  }

  lemma KeyCoherent(d: Operands, collate: Collation, s: seq<Value>)
    requires IsCollation(collate)
    requires ComparableAt(s, d.key)
    ensures Coherent((a, b) => CompareOn(d, collate, a, b), s)
  {
    var k := d.key;
    if forall x | x in s :: Field(x, k).Num? {
      NumbersCoherent(d, collate, s);
    } else if forall x | x in s :: ParseLeading(Field(x, k)).None? {
      forall x, y | x in s && y in s
        ensures CompareValues(Field(x, k), Field(y, k), collate) == collate(ToStr(Field(x, k)), ToStr(Field(y, k)))
      {
        CompareWords(Field(x, k), Field(y, k), collate);
      }
      StringsCoherent(d, collate, s);
    } else {
      StringsCoherent(d, collate, s);
    }
  }

  /** Numbers at the key compare by their difference. */
  lemma NumbersCoherent(d: Operands, collate: Collation, s: seq<Value>)
    requires forall x | x in s :: Field(x, d.key).Num?
    ensures Coherent((a, b) => CompareOn(d, collate, a, b), s)
  {
    var k := d.key;
    forall x, y | x in s && y in s
      ensures CompareValues(Field(x, k), Field(y, k), collate) == Sign(Field(x, k).n - Field(y, k).n)
    {
      CompareNumbers(Field(x, k).n, Field(y, k).n, collate);
    }
  }

  /** Values at the key that all compare by collation of their strings. */
  lemma StringsCoherent(d: Operands, collate: Collation, s: seq<Value>)
    requires IsCollation(collate)
    requires forall x, y | x in s && y in s ::
      CompareValues(Field(x, d.key), Field(y, d.key), collate) == collate(ToStr(Field(x, d.key)), ToStr(Field(y, d.key)))
    ensures Coherent((a, b) => CompareOn(d, collate, a, b), s)
  {
  }

  /** The multi-key order is a total preorder when each of its keys is. */
  lemma {:induction false} LexicographicCoherent(dirs: seq<Operands>, collate: Collation, s: seq<Value>)
    requires forall i :: 0 <= i < |dirs| ==> Coherent((a, b) => CompareOn(dirs[i], collate, a, b), s)
    ensures Coherent((a, b) => Lexicographic(dirs, collate, a, b), s)
  {
    if dirs != [] {
      LexicographicCoherent(dirs[1..], collate, s);
      var h := (a, b) => CompareOn(dirs[0], collate, a, b);
      var t := (a, b) => Lexicographic(dirs[1..], collate, a, b);
      assert Coherent(h, s);
      assert Coherent(t, s) by {
        assert forall i :: 0 <= i < |dirs[1..]| ==> dirs[1..][i] == dirs[i + 1];
      }
      ThenCoherent(h, t, s);
      CoherentAgree((a, b) => if h(a, b) != 0 then h(a, b) else t(a, b),
        (a, b) => Lexicographic(dirs, collate, a, b), s);
    }
  }

  /** Sorting by a specification whose keys are each comparable on the
      records yields them in the specification's order (numbers numerically,
      other values by collation), as a permutation of the input. */
  lemma SortedBySpec(spec: SortSpec, collate: Collation, s: seq<Value>)
    requires IsCollation(collate)
    requires forall k | k in Keys(spec) :: ComparableAt(s, k)
    ensures Coherent(Comparator(spec, collate), s)
    ensures SortedBy(Comparator(spec, collate), SortBy(s, Comparator(spec, collate)))
    ensures multiset(SortBy(s, Comparator(spec, collate))) == multiset(s)
  {
    var dirs := Directions(spec);
    forall i | 0 <= i < |dirs| ensures Coherent((a, b) => CompareOn(dirs[i], collate, a, b), s) {
      KeyCoherent(dirs[i], collate, s);
    }
    LexicographicCoherent(dirs, collate, s);
    forall x, y | x in s && y in s
      ensures Comparator(spec, collate)(x, y) == Lexicographic(dirs, collate, x, y)
    {
      CompareRecordsIsLexicographic(spec, collate, x, y);
    }
    CoherentAgree((a, b) => Lexicographic(dirs, collate, a, b), Comparator(spec, collate), s);
    SortBySorted(s, Comparator(spec, collate));
    SortByPermutes(s, Comparator(spec, collate));
  }

  /** Records that the specification ranks equal, such as two documents with
      the same `_created` under `sort: {_created: 1}`, keep their order in
      the store. */
  lemma SortBySpecIsStable(spec: SortSpec, collate: Collation, s: seq<Value>, x: Value)
    requires IsCollation(collate)
    requires forall k | k in Keys(spec) :: ComparableAt(s, k)
    requires x in s
    ensures Ties(SortBy(s, Comparator(spec, collate)), x, Comparator(spec, collate)) ==
      Ties(s, x, Comparator(spec, collate))
  {
    SortedBySpec(spec, collate, s);
    SortByIsStable(s, x, Comparator(spec, collate));
  }

  /** The number at field `k` of a record whose `k` holds one. */
  function NumberAt(v: Value, k: string): int {
    match Field(v, k)
    case Num(n) => n
    case _ => 0
  }

  /** A one-key specification compares on that key, in the direction of
      its weight. */
  lemma OneKeyComparator(k: string, w: Value, collate: Collation, a: Value, b: Value)
    requires Weight(w) != 0
    ensures Comparator([(k, w)], collate)(a, b) ==
      CompareOn(if Weight(w) > 0 then Ascending(k) else Descending(k), collate, a, b)
  {
    var spec := [(k, w)];
    var ord := NextOrd(None, k, w);
    assert ord == Some(if Weight(w) > 0 then Ascending(k) else Descending(k));
    assert spec[1..] == [];
    assert CompareFrom(spec[1..], ord, collate, a, b) == 0;
    assert Comparator(spec, collate)(a, b) == CompareFrom(spec, None, collate, a, b);
  }

  /** `sort: {k: 1}` over records whose `k` is a number puts them in
      ascending order of `k`. */
  lemma SortByNumberAscending(k: string, collate: Collation, s: seq<Value>)
    requires IsCollation(collate)
    requires forall x | x in s :: Field(x, k).Num?
    ensures var r := SortBy(s, Comparator([(k, Num(1))], collate));
      forall i, j | 0 <= i < j < |r| :: NumberAt(r[i], k) <= NumberAt(r[j], k)
  {
    var spec := [(k, Num(1))];
    assert Keys(spec) == {k} by { assert spec[0].0 == k; }
    SortedBySpec(spec, collate, s);
    var r := SortBy(s, Comparator(spec, collate));
    forall i, j | 0 <= i < j < |r| ensures NumberAt(r[i], k) <= NumberAt(r[j], k) {
      assert r[i] in multiset(s) && r[j] in multiset(s);
      NumberAscendingPair(k, collate, r[i], r[j]);
    }
  }

  /** `sort: {k: -1}` over records whose `k` is a number puts them in
      descending order of `k`. */
  lemma SortByNumberDescending(k: string, collate: Collation, s: seq<Value>)
    requires IsCollation(collate)
    requires forall x | x in s :: Field(x, k).Num?
    ensures var r := SortBy(s, Comparator([(k, Num(-1))], collate));
      forall i, j | 0 <= i < j < |r| :: NumberAt(r[i], k) >= NumberAt(r[j], k)
  {
    var spec := [(k, Num(-1))];
    assert Keys(spec) == {k} by { assert spec[0].0 == k; }
    SortedBySpec(spec, collate, s);
    var r := SortBy(s, Comparator(spec, collate));
    forall i, j | 0 <= i < j < |r| ensures NumberAt(r[i], k) >= NumberAt(r[j], k) {
      assert r[i] in multiset(s) && r[j] in multiset(s);
      NumberDescendingPair(k, collate, r[i], r[j]);
    }
  }

  lemma NumberAscendingPair(k: string, collate: Collation, x: Value, y: Value)
    requires Field(x, k).Num? && Field(y, k).Num?
    requires Comparator([(k, Num(1))], collate)(x, y) <= 0
    ensures NumberAt(x, k) <= NumberAt(y, k)
  {
    OneKeyComparator(k, Num(1), collate, x, y);
    CompareNumbers(NumberAt(x, k), NumberAt(y, k), collate);
  }

  lemma NumberDescendingPair(k: string, collate: Collation, x: Value, y: Value)
    requires Field(x, k).Num? && Field(y, k).Num?
    requires Comparator([(k, Num(-1))], collate)(x, y) <= 0
    ensures NumberAt(x, k) >= NumberAt(y, k)
  {
    OneKeyComparator(k, Num(-1), collate, x, y);
    CompareNumbers(NumberAt(y, k), NumberAt(x, k), collate);
  }

  /** An empty specification (`sort: {}`) compares every pair equal, so the
      stable sort keeps the load order. */
  lemma EmptySpecKeepsOrder(collate: Collation, s: seq<Value>)
    ensures SortBy(s, Comparator([], collate)) == s
  {
    SortByKeepsOrderOfTies(s, Comparator([], collate));
  }
}
