/** `Array.prototype.sort(f)` as lib/store.js uses it (lib/store.js:190-193):
    a stable, in-place sort driven by a comparator that returns a negative,
    zero or positive number. The engine's algorithm is modelled as insertion
    sort; on a comparator that is a total preorder every stable sort gives the
    same order, and on any comparator the result is a permutation. */
module Sorting {

  /** `cmp` is a total preorder on the elements of `s`: its sign flips when the
      operands are swapped, and "not greater" is transitive. */
  ghost predicate Coherent<T>(cmp: (T, T) -> int, s: seq<T>) {
    && (forall x, y | x in s && y in s :: cmp(x, y) < 0 <==> cmp(y, x) > 0)
    && (forall x, y, z | x in s && y in s && z in s :: cmp(x, y) <= 0 && cmp(y, z) <= 0 ==> cmp(x, z) <= 0)
  }

  ghost predicate SortedBy<T>(cmp: (T, T) -> int, s: seq<T>) {
    forall i, j | 0 <= i < j < |s| :: cmp(s[i], s[j]) <= 0
  }

  /** Where one insertion-sort pass leaves `x` placed after `s`: scanning
      from the right, the first position whose left neighbour does not compare
      greater than `x`. */
  function Slot<T>(s: seq<T>, x: T, cmp: (T, T) -> int): (k: nat)
    ensures k <= |s|
  {
    if s == [] || cmp(s[|s| - 1], x) <= 0 then |s| else Slot(s[..|s| - 1], x, cmp)
  }

  /** `s` with `x` inserted at its slot. */
  function Insert<T>(s: seq<T>, x: T, cmp: (T, T) -> int): (r: seq<T>)
    ensures |r| == |s| + 1
  {
    var k := Slot(s, x, cmp);
    s[..k] + [x] + s[k..]
  }

  lemma InsertPermutes<T>(s: seq<T>, x: T, cmp: (T, T) -> int)
    ensures multiset(Insert(s, x, cmp)) == multiset(s) + multiset{x}
  {
    var k := Slot(s, x, cmp);
    assert s == s[..k] + s[k..];
  }

  /** `x` passes the last element of `s` exactly when that element compares
      greater. */
  lemma InsertUnfold<T>(s: seq<T>, x: T, cmp: (T, T) -> int)
    ensures s == [] || cmp(s[|s| - 1], x) <= 0 ==> Insert(s, x, cmp) == s + [x]
    ensures s != [] && cmp(s[|s| - 1], x) > 0 ==>
      Insert(s, x, cmp) == Insert(s[..|s| - 1], x, cmp) + [s[|s| - 1]]
  {
    if s != [] && cmp(s[|s| - 1], x) > 0 {
      var init := s[..|s| - 1];
      var k := Slot(init, x, cmp);
      assert s[..k] == init[..k];
      assert s[k..] == init[k..] + [s[|s| - 1]];
    }
  }

  /** The slot is the position a right-to-left scan stops at. */
  lemma {:induction false} SlotAt<T>(p: seq<T>, x: T, cmp: (T, T) -> int, j: nat)
    requires j <= |p|
    requires j == 0 || cmp(p[j - 1], x) <= 0
    requires forall k :: j <= k < |p| ==> cmp(p[k], x) > 0
    ensures Slot(p, x, cmp) == j
    decreases |p|
  {
    if j < |p| {
      assert cmp(p[|p| - 1], x) > 0;
      SlotAt(p[..|p| - 1], x, cmp, j);
    }
  }

  /** The stable sort of `s` by `cmp`. */
  function SortBy<T>(s: seq<T>, cmp: (T, T) -> int): (r: seq<T>)
    ensures |r| == |s|
  {
    if s == [] then [] else Insert(SortBy(s[..|s| - 1], cmp), s[|s| - 1], cmp)
  }

  /** Sorting, whatever the comparator, yields a permutation of its input. */
  lemma {:induction false} SortByPermutes<T>(s: seq<T>, cmp: (T, T) -> int)
    ensures multiset(SortBy(s, cmp)) == multiset(s)
  {
    if s != [] {
      var init := s[..|s| - 1];
      SortByPermutes(init, cmp);
      InsertPermutes(SortBy(init, cmp), s[|s| - 1], cmp);
      assert s == init + [s[|s| - 1]];
    }
  }

  /** A comparator that agrees with a coherent one on `s` is coherent on `s`. */
  lemma CoherentAgree<T>(c: (T, T) -> int, d: (T, T) -> int, s: seq<T>)
    requires Coherent(c, s)
    requires forall x, y | x in s && y in s :: c(x, y) == d(x, y)
    ensures Coherent(d, s)
  {
  }

  /** Breaking the ties of one total preorder with another gives a total
      preorder. */
  lemma ThenCoherent<T>(h: (T, T) -> int, t: (T, T) -> int, s: seq<T>)
    requires Coherent(h, s) && Coherent(t, s)
    ensures Coherent((a, b) => if h(a, b) != 0 then h(a, b) else t(a, b), s)
  {
    var c := (a, b) => if h(a, b) != 0 then h(a, b) else t(a, b);
    forall x, y, z | x in s && y in s && z in s
      ensures c(x, y) <= 0 && c(y, z) <= 0 ==> c(x, z) <= 0
    {
      assert h(x, y) <= 0 && h(y, z) <= 0 ==> h(x, z) <= 0;
      assert h(y, z) <= 0 && h(z, x) <= 0 ==> h(y, x) <= 0;
      assert h(z, x) <= 0 && h(x, y) <= 0 ==> h(z, y) <= 0;
      assert h(z, y) <= 0 && h(y, x) <= 0 ==> h(z, x) <= 0;
      assert t(x, y) <= 0 && t(y, z) <= 0 ==> t(x, z) <= 0;
    }
  }

  lemma {:induction false} InsertSorted<T>(s: seq<T>, x: T, cmp: (T, T) -> int, all: seq<T>)
    requires SortedBy(cmp, s)
    requires Coherent(cmp, all)
    requires x in all && forall y | y in s :: y in all
    ensures SortedBy(cmp, Insert(s, x, cmp))
  {
    InsertUnfold(s, x, cmp);
    if s == [] || cmp(s[|s| - 1], x) <= 0 {
      AppendSorted(s, x, cmp, all);
    } else {
      var init := s[..|s| - 1];
      InsertSorted(init, x, cmp, all);
      InsertPermutes(init, x, cmp);
      PrependedSorted(Insert(init, x, cmp), s, x, cmp, all);
    }
  }

  /** `x` may follow a sorted `s` when the last element does not compare
      greater than it. */
  lemma AppendSorted<T>(s: seq<T>, x: T, cmp: (T, T) -> int, all: seq<T>)
    requires SortedBy(cmp, s)
    requires Coherent(cmp, all)
    requires x in all && forall y | y in s :: y in all
    requires s == [] || cmp(s[|s| - 1], x) <= 0
    ensures SortedBy(cmp, s + [x])
  {
    var r := s + [x];
    forall i, j | 0 <= i < j < |r| ensures cmp(r[i], r[j]) <= 0 {
      if j == |s| && i < |s| - 1 {
        assert cmp(s[i], s[|s| - 1]) <= 0;
        assert s[i] in all && s[|s| - 1] in all;
      }
    }
  }

  /** The last element of a sorted `s`, when it compares greater than `x`,
      may follow `x` inserted among the others. */
  lemma PrependedSorted<T>(front: seq<T>, s: seq<T>, x: T, cmp: (T, T) -> int, all: seq<T>)
    requires s != [] && cmp(s[|s| - 1], x) > 0
    requires SortedBy(cmp, s) && SortedBy(cmp, front)
    requires multiset(front) == multiset(s[..|s| - 1]) + multiset{x}
    requires Coherent(cmp, all)
    requires x in all && forall y | y in s :: y in all
    ensures SortedBy(cmp, front + [s[|s| - 1]])
  {
    var last := s[|s| - 1];
    var init := s[..|s| - 1];
    var r := front + [last];
    assert cmp(x, last) < 0 by {
      assert last in all;
    }
    forall i | 0 <= i < |front| ensures cmp(front[i], last) <= 0 {
      var y := front[i];
      assert y in multiset(front);
      if y != x {
        assert y in multiset(init);
        var m :| 0 <= m < |init| && init[m] == y;
        assert cmp(s[m], s[|s| - 1]) <= 0;
      }
    }
    forall i, j | 0 <= i < j < |r| ensures cmp(r[i], r[j]) <= 0 {
      if j < |front| {
        assert cmp(front[i], front[j]) <= 0;
      }
    }
  }

  lemma {:induction false} SortBySortedWithin<T>(s: seq<T>, cmp: (T, T) -> int, all: seq<T>)
    requires Coherent(cmp, all)
    requires forall y | y in s :: y in all
    ensures SortedBy(cmp, SortBy(s, cmp))
  {
    if s != [] {
      var init := s[..|s| - 1];
      SortBySortedWithin(init, cmp, all);
      SortByPermutes(init, cmp);
      forall y | y in SortBy(init, cmp) ensures y in all {
        assert y in multiset(SortBy(init, cmp));
        assert y in init;
      }
      InsertSorted(SortBy(init, cmp), s[|s| - 1], cmp, all);
    }
  }

  /** Sorting by a comparator that is a total preorder on the input yields a
      sorted sequence. */
  lemma SortBySorted<T>(s: seq<T>, cmp: (T, T) -> int)
    requires Coherent(cmp, s)
    ensures SortedBy(cmp, SortBy(s, cmp))
  {
    SortBySortedWithin(s, cmp, s);
  }

  /** When no element compares greater than another (an empty sort
      specification), sorting leaves the order as it was. */
  lemma {:induction false} SortByKeepsOrderOfTies<T>(s: seq<T>, cmp: (T, T) -> int)
    requires forall x, y | x in s && y in s :: cmp(x, y) <= 0
    ensures SortBy(s, cmp) == s
  {
    if s != [] {
      var init := s[..|s| - 1];
      assert s == init + [s[|s| - 1]];
      SortByKeepsOrderOfTies(init, cmp);
      InsertUnfold(init, s[|s| - 1], cmp);
    }
  }

  /** The elements of `s` that compare equal to `x`, in their order in `s`. */
  function Ties<T>(s: seq<T>, x: T, cmp: (T, T) -> int): (r: seq<T>)
    ensures |r| <= |s|
  {
    if s == [] then []
    else Ties(s[..|s| - 1], x, cmp) + (if cmp(s[|s| - 1], x) == 0 then [s[|s| - 1]] else [])
  }

  lemma {:induction false} TiesConcat<T>(a: seq<T>, b: seq<T>, x: T, cmp: (T, T) -> int)
    ensures Ties(a + b, x, cmp) == Ties(a, x, cmp) + Ties(b, x, cmp)
    decreases |b|
  {
    if b == [] {
      assert a + b == a;
    } else {
      var init := b[..|b| - 1];
      assert (a + b)[..|a + b| - 1] == a + init;
      TiesConcat(a, init, x, cmp);
    }
  }

  lemma {:induction false} TiesNone<T>(t: seq<T>, x: T, cmp: (T, T) -> int)
    requires forall y | y in t :: cmp(y, x) != 0
    ensures Ties(t, x, cmp) == []
    decreases |t|
  {
    if t != [] {
      assert forall y | y in t[..|t| - 1] :: y in t;
      TiesNone(t[..|t| - 1], x, cmp);
    }
  }

  /** Every element an insertion passes compares greater than the inserted
      one. */
  lemma {:induction false} SlotPassesGreater<T>(s: seq<T>, e: T, cmp: (T, T) -> int)
    ensures forall k | Slot(s, e, cmp) <= k < |s| :: cmp(s[k], e) > 0
    decreases |s|
  {
    if s != [] && cmp(s[|s| - 1], e) > 0 {
      var init := s[..|s| - 1];
      SlotPassesGreater(init, e, cmp);
      assert forall k | 0 <= k < |init| :: init[k] == s[k];
    }
  }

  /** Inserting `e` keeps the elements tied with `x` in order, with `e` last
      among them when it ties too: it passes only elements greater than
      itself, none of which ties with `x` when `e` does. */
  lemma InsertKeepsTies<T>(p: seq<T>, e: T, x: T, cmp: (T, T) -> int)
    requires cmp(e, x) == 0 ==> Ties(p[Slot(p, e, cmp)..], x, cmp) == []
    ensures Ties(Insert(p, e, cmp), x, cmp) == Ties(p, x, cmp) + Ties([e], x, cmp)
  {
    var j := Slot(p, e, cmp);
    assert p == p[..j] + p[j..];
    TiesAround(p[..j], e, p[j..], x, cmp);
  }

  /** Placing `e` between `before` and `after` puts it last among the ties
      when none of `after` ties. */
  lemma TiesAround<T>(before: seq<T>, e: T, after: seq<T>, x: T, cmp: (T, T) -> int)
    requires cmp(e, x) == 0 ==> Ties(after, x, cmp) == []
    ensures Ties(before + [e] + after, x, cmp) == Ties(before + after, x, cmp) + Ties([e], x, cmp)
  {
    TiesConcat(before + [e], after, x, cmp);
    TiesConcat(before, [e], x, cmp);
    TiesConcat(before, after, x, cmp);
    if cmp(e, x) != 0 {
      assert Ties([e], x, cmp) == [] by {
        assert [e][..0] == [];
      }
    }
  }

  lemma PassedNotTied<T>(p: seq<T>, e: T, x: T, cmp: (T, T) -> int, u: seq<T>)
    requires Coherent(cmp, u) && x in u && e in u && forall y | y in p :: y in u
    requires cmp(e, x) == 0
    ensures Ties(p[Slot(p, e, cmp)..], x, cmp) == []
  {
    var after := p[Slot(p, e, cmp)..];
    SlotPassesGreater(p, e, cmp);
    forall y | y in after ensures cmp(y, x) != 0 {
      assert y in u && cmp(y, e) > 0;
    }
    TiesNone(after, x, cmp);
  }

  lemma {:induction false} TiesKeptWithin<T>(s: seq<T>, x: T, cmp: (T, T) -> int, u: seq<T>)
    requires Coherent(cmp, u) && x in u && forall y | y in s :: y in u
    ensures Ties(SortBy(s, cmp), x, cmp) == Ties(s, x, cmp)
    decreases |s|
  {
    if s != [] {
      var init := s[..|s| - 1];
      var e := s[|s| - 1];
      assert forall y | y in init :: y in s;
      TiesKeptWithin(init, x, cmp, u);
      var sorted := SortBy(init, cmp);
      SortByPermutes(init, cmp);
      forall y | y in sorted ensures y in u {
        assert y in multiset(sorted);
      }
      if cmp(e, x) == 0 {
        PassedNotTied(sorted, e, x, cmp, u);
      }
      InsertKeepsTies(sorted, e, x, cmp);
      assert Ties([e], x, cmp) == (if cmp(e, x) == 0 then [e] else []) by {
        assert [e][..0] == [];
      }
    }
  }

  /** Stability: under a total preorder, the elements that compare equal to
      any one element keep their relative order. */
  lemma SortByIsStable<T>(s: seq<T>, x: T, cmp: (T, T) -> int)
    requires Coherent(cmp, s) && x in s
    ensures Ties(SortBy(s, cmp), x, cmp) == Ties(s, x, cmp)
  {
    TiesKeptWithin(s, x, cmp, s);
  }

  /** The sort as it runs, in place on `a`: each element in turn is moved
      left into its slot among the sorted elements before it. */
  method InsertionSort<T>(a: array<T>, cmp: (T, T) -> int)
    modifies a
    ensures a[..] == SortBy(old(a[..]), cmp)
  {
    ghost var original := a[..];
    var i := 0;
    while i < a.Length
      invariant 0 <= i <= a.Length
      invariant a[..i] == SortBy(original[..i], cmp)
      invariant a[i..] == original[i..]
    {
      ghost var before := a[..];
      InsertLast(a, i, cmp);
      SortByStep(original, i, cmp);
      assert before[..i] == SortBy(original[..i], cmp) && before[i] == original[i];
      assert a[i + 1..] == before[i + 1..] == original[i + 1..];
      i := i + 1;
    }
    assert a[..] == a[..a.Length];
    assert original == original[..a.Length];
  }

  lemma SortByStep<T>(s: seq<T>, i: nat, cmp: (T, T) -> int)
    requires i < |s|
    ensures SortBy(s[..i + 1], cmp) == Insert(SortBy(s[..i], cmp), s[i], cmp)
  {
    assert s[..i + 1][..i] == s[..i];
  }

  /** Copying the element before the gap at `j` into it moves the gap one
      place left and keeps everything else. */
  lemma ShiftedRight<T>(s: seq<T>, p: seq<T>, rest: seq<T>, i: nat, j: nat)
    requires 0 < j <= i < |s| && |p| == i
    requires s[..j] == p[..j] && s[j + 1..i + 1] == p[j..] && s[i + 1..] == rest
    ensures var t := s[j := s[j - 1]];
      t[..j - 1] == p[..j - 1] && t[j..i + 1] == p[j - 1..] && t[i + 1..] == rest
  {
    var t := s[j := s[j - 1]];
    assert t[j..i + 1] == [p[j - 1]] + p[j..];
  }

  /** One insertion-sort pass: `a[i]` is taken out and the elements before it
      that compare greater are shifted one place right until its slot is
      found. */
  method InsertLast<T>(a: array<T>, i: nat, cmp: (T, T) -> int)
    requires i < a.Length
    modifies a
    ensures a[..i + 1] == Insert(old(a[..i]), old(a[i]), cmp)
    ensures a[i + 1..] == old(a[i + 1..])
  {
    var x := a[i];
    ghost var p := a[..i];
    var j := ShiftPast(a, i, x, cmp);
    a[j] := x;
    assert a[..i + 1] == a[..j] + [a[j]] + a[j + 1..i + 1];
  }

  /** The scan of one pass: from `i` leftwards, each element of `a[..i]`
      that compares greater than `x` moves one place right, and the scan
      stops at the slot of `x`, leaving a gap there. */
  method ShiftPast<T>(a: array<T>, i: nat, x: T, cmp: (T, T) -> int) returns (j: nat)
    requires i < a.Length
    modifies a
    ensures j == Slot(old(a[..i]), x, cmp)
    ensures a[..j] == old(a[..j]) && a[j + 1..i + 1] == old(a[j..i])
    ensures a[i + 1..] == old(a[i + 1..])
  {
    ghost var p := a[..i];
    ghost var rest := a[i + 1..];
    j := i;
    while j > 0 && cmp(a[j - 1], x) > 0
      invariant 0 <= j <= i
      invariant a[..j] == p[..j]
      invariant a[j + 1..i + 1] == p[j..]
      invariant a[i + 1..] == rest
      invariant forall k :: j <= k < i ==> cmp(p[k], x) > 0
    {
      ShiftedRight(a[..], p, rest, i, j);
      a[j] := a[j - 1];
      j := j - 1;
    }
    SlotAt(p, x, cmp, j);
  }
}
