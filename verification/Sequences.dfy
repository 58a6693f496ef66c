/** Permutations, stable sorting and text order. */
module Sequences {

  // ----- permutations -----

  lemma RemoveAt<T>(s: seq<T>, i: nat)
    requires i < |s|
    ensures multiset(s) == multiset{s[i]} + multiset(s[..i] + s[i + 1..])
  {
    assert s == s[..i] + [s[i]] + s[i + 1..];
  }

  ghost function Together<T>(a: seq<T>, b: seq<T>): multiset<T> {
    multiset(a) + multiset(b)
  }

  lemma AppendToEither<T>(a: seq<T>, b: seq<T>, x: T)
    ensures Together(a + [x], b) == Together(a, b) + multiset{x} == Together(a, b + [x])
  {
  }

  lemma PermutationKeepsLength<T>(a: seq<T>, b: seq<T>)
    requires multiset(a) == multiset(b)
    ensures |a| == |b|
  {
    assert |multiset(a)| == |a| && |multiset(b)| == |b|;
  }

  lemma PermutationKeepsMembers<T>(a: seq<T>, b: seq<T>)
    requires multiset(a) == multiset(b)
    ensures forall x :: x in a <==> x in b
  {
    forall x ensures x in a <==> x in b {
      assert x in multiset(a) <==> x in multiset(b);
    }
  }

  /** The last element of a sequence stands somewhere in any permutation of it, and the rest permutes too. */
  lemma MatchLast<T>(a: seq<T>, b: seq<T>) returns (i: nat)
    requires a != [] && multiset(a) == multiset(b)
    ensures i < |b| && b[i] == a[|a| - 1]
    ensures multiset(a[..|a| - 1]) == multiset(b[..i] + b[i + 1..])
  {
    var n := |a| - 1;
    assert a[n] in multiset(b);
    i :| 0 <= i < |b| && b[i] == a[n];
    RemoveAt(b, i);
    RemoveAt(a, n);
    assert a[..n] + a[n + 1..] == a[..n];
    assert multiset(a[..n]) == multiset(a) - multiset{a[n]};
    assert multiset(b[..i] + b[i + 1..]) == multiset(b) - multiset{b[i]};
  }

  // ----- stable sorting -----

  /** Inserts after every element that may stand before x: equals keep their order. */
  function InsertBy<T>(before: (T, T) -> bool, x: T, sorted: seq<T>): (r: seq<T>)
    ensures multiset(r) == multiset(sorted) + multiset{x}
  {
    if sorted == [] then [x]
    else
      var n := |sorted| - 1;
      assert sorted == sorted[..n] + [sorted[n]];
      if before(sorted[n], x) then sorted + [x] else InsertBy(before, x, sorted[..n]) + [sorted[n]]
  }

  function SortBy<T>(before: (T, T) -> bool, s: seq<T>): (r: seq<T>)
    ensures multiset(r) == multiset(s)
  {
    if s == [] then []
    else
      assert s == s[..|s| - 1] + [s[|s| - 1]];
      InsertBy(before, s[|s| - 1], SortBy(before, s[..|s| - 1]))
  }

  lemma SortByAppend<T>(before: (T, T) -> bool, s: seq<T>, x: T)
    ensures SortBy(before, s + [x]) == InsertBy(before, x, SortBy(before, s))
  {
    assert (s + [x])[..|s|] == s;
  }

  ghost predicate OrderedBy<T(!new)>(before: (T, T) -> bool, s: seq<T>) {
    forall i, j :: 0 <= i < j < |s| ==> before(s[i], s[j])
  }

  ghost predicate TotalOrder<T(!new)>(before: (T, T) -> bool) {
    && (forall a, b :: before(a, b) || before(b, a))
    && (forall a, b, c :: before(a, b) && before(b, c) ==> before(a, c))
  }

  lemma AppendKeepsOrder<T(!new)>(before: (T, T) -> bool, s: seq<T>, x: T)
    requires OrderedBy(before, s) && forall y | y in s :: before(y, x)
    ensures OrderedBy(before, s + [x])
  {
  }

  lemma {:induction false} InsertKeepsOrder<T(!new)>(before: (T, T) -> bool, x: T, sorted: seq<T>)
    requires TotalOrder(before) && OrderedBy(before, sorted)
    ensures OrderedBy(before, InsertBy(before, x, sorted))
  {
    if sorted != [] {
      var n := |sorted| - 1;
      if before(sorted[n], x) {
        forall y | y in sorted ensures before(y, x) {
          var i :| 0 <= i < |sorted| && sorted[i] == y;
          assert i < n ==> before(sorted[i], sorted[n]);
        }
        AppendKeepsOrder(before, sorted, x);
      } else {
        var out := InsertBy(before, x, sorted[..n]);
        InsertKeepsOrder(before, x, sorted[..n]);
        forall y | y in out ensures before(y, sorted[n]) {
          assert y in multiset(out);
          assert y == x || y in sorted[..n];
        }
        AppendKeepsOrder(before, out, sorted[n]);
      }
    }
  }

  lemma {:induction false} SortByIsOrdered<T(!new)>(before: (T, T) -> bool, s: seq<T>)
    requires TotalOrder(before)
    ensures OrderedBy(before, SortBy(before, s))
  {
    if s != [] {
      SortByIsOrdered(before, s[..|s| - 1]);
      InsertKeepsOrder(before, s[|s| - 1], SortBy(before, s[..|s| - 1]));
    }
  }

  // ----- filtering -----

  function Filter<T>(p: T -> bool, s: seq<T>): seq<T> {
    if s == [] then []
    else Filter(p, s[..|s| - 1]) + if p(s[|s| - 1]) then [s[|s| - 1]] else []
  }

  lemma FilterAppend<T>(p: T -> bool, s: seq<T>, x: T)
    ensures Filter(p, s + [x]) == Filter(p, s) + if p(x) then [x] else []
  {
    assert (s + [x])[..|s|] == s;
  }

  lemma {:induction false} FilterConcat<T>(p: T -> bool, s: seq<T>, t: seq<T>)
    ensures Filter(p, s + t) == Filter(p, s) + Filter(p, t)
  {
    if t == [] {
      assert s + t == s;
    } else {
      var n := |t| - 1;
      FilterConcat(p, s, t[..n]);
      FilterAppend(p, s + t[..n], t[n]);
      FilterAppend(p, t[..n], t[n]);
      assert s + t == s + t[..n] + [t[n]] && t == t[..n] + [t[n]];
    }
  }

  lemma {:induction false} FilterMembers<T>(p: T -> bool, s: seq<T>)
    ensures forall x :: multiset(Filter(p, s))[x] == if p(x) then multiset(s)[x] else 0
  {
    if s != [] {
      var before, last := s[..|s| - 1], s[|s| - 1];
      FilterMembers(p, before);
      assert s == before + [last];
      assert multiset(s) == multiset(before) + multiset{last};
    }
  }

  lemma {:induction false} FilterIsEmpty<T>(p: T -> bool, s: seq<T>)
    ensures Filter(p, s) == [] <==> forall i :: 0 <= i < |s| ==> !p(s[i])
  {
    if s != [] {
      FilterIsEmpty(p, s[..|s| - 1]);
    }
  }

  /** The first and the last element that meet the predicate are the first and the last of the filtered list. */
  lemma FilterEnds<T>(p: T -> bool, s: seq<T>, i: nat)
    requires i < |s| && p(s[i])
    ensures Filter(p, s) != []
    ensures (forall j :: 0 <= j < i ==> !p(s[j])) ==> Filter(p, s)[0] == s[i]
    ensures (forall j :: i < j < |s| ==> !p(s[j])) ==> Filter(p, s)[|Filter(p, s)| - 1] == s[i]
  {
    var before, after := s[..i], s[i + 1..];
    assert s == before + [s[i]] + after;
    FilterAppend(p, before, s[i]);
    FilterConcat(p, before + [s[i]], after);
    FilterIsEmpty(p, before);
    FilterIsEmpty(p, after);
    hide Filter;
    if forall j :: i < j < |s| ==> !p(s[j]) {
      assert forall j :: 0 <= j < |after| ==> after[j] == s[i + 1 + j];
    }
  }

  /** Elements that may stand in either order. */
  ghost predicate Alike<T(!new)>(before: (T, T) -> bool, p: T -> bool) {
    forall a, b :: p(a) && p(b) ==> before(a, b)
  }

  lemma {:induction false} InsertIsStable<T(!new)>(before: (T, T) -> bool, p: T -> bool, x: T, sorted: seq<T>)
    requires Alike(before, p)
    ensures Filter(p, InsertBy(before, x, sorted)) == Filter(p, sorted) + if p(x) then [x] else []
  {
    if sorted == [] {
      FilterAppend(p, [], x);
      assert [] + [x] == [x];
    } else {
      var n := |sorted| - 1;
      FilterAppend(p, sorted, x);
      if !before(sorted[n], x) {
        InsertIsStable(before, p, x, sorted[..n]);
        FilterAppend(p, InsertBy(before, x, sorted[..n]), sorted[n]);
      }
    }
  }

  /** Sorting keeps the order of elements that may stand in either order. */
  lemma {:induction false} SortIsStable<T(!new)>(before: (T, T) -> bool, p: T -> bool, s: seq<T>)
    requires Alike(before, p)
    ensures Filter(p, SortBy(before, s)) == Filter(p, s)
  {
    if s != [] {
      SortIsStable(before, p, s[..|s| - 1]);
      InsertIsStable(before, p, s[|s| - 1], SortBy(before, s[..|s| - 1]));
    }
  }

  // ----- text order -----

  predicate LexLess(a: string, b: string) {
    b != [] && (a == [] || a[0] < b[0] || (a[0] == b[0] && LexLess(a[1..], b[1..])))
  }

  lemma {:induction false} LexIsTotal(a: string, b: string)
    ensures !(LexLess(a, b) && LexLess(b, a))
    ensures !LexLess(a, b) && !LexLess(b, a) ==> a == b
  {
    if a != [] && b != [] && a[0] == b[0] {
      LexIsTotal(a[1..], b[1..]);
      assert a == [a[0]] + a[1..] && b == [b[0]] + b[1..];
    }
  }

  lemma {:induction false} LexIsTransitive(a: string, b: string, c: string)
    ensures !LexLess(b, a) && !LexLess(c, b) ==> !LexLess(c, a)
  {
    if a != [] && b != [] && c != [] {
      LexIsTransitive(a[1..], b[1..], c[1..]);
    }
  }
}
