/**
 * Stable sorting by a three-way comparator, the contract of Rust's
 * `slice::sort_by`. The sort is modelled by insertion sort, which is stable;
 * `SortedIsUnique` shows that every stable sort by the same comparator gives
 * the same result, so nothing depends on the algorithm the library uses.
 */
module StableSort {
  import opened Sequences

  /** The outcome of a three-way comparison (Rust's `std::cmp::Ordering`). */
  datatype Order = Less | Equal | Greater

  /** `a` may come before `b` in sorted order. */
  predicate Precedes<T(!new)>(cmp: (T, T) -> Order, a: T, b: T) {
    cmp(a, b) != Greater
  }

  /**
   * What `sort_by` expects of its comparator: swapping the operands flips
   * the outcome, and "not greater" is transitive. Ties (`Equal`) are then
   * an equivalence.
   */
  ghost predicate TotalPreorder<T(!new)>(cmp: (T, T) -> Order) {
    && (forall a, b :: cmp(a, b) == Greater <==> cmp(b, a) == Less)
    && (forall a, b, c :: Precedes(cmp, a, b) && Precedes(cmp, b, c) ==> Precedes(cmp, a, c))
  }

  /** `x` inserted into `s` after every element that does not compare greater than it. */
  function Insert<T(!new)>(cmp: (T, T) -> Order, x: T, s: seq<T>): seq<T> {
    if s == [] then [x]
    else if cmp(s[|s| - 1], x) == Greater then Insert(cmp, x, s[..|s| - 1]) + [s[|s| - 1]]
    else s + [x]
  }

  /** The stable sort of `s`: each element in turn inserted into the sorted prefix. */
  function SortBy<T(!new)>(cmp: (T, T) -> Order, s: seq<T>): seq<T> {
    if s == [] then [] else Insert(cmp, s[|s| - 1], SortBy(cmp, s[..|s| - 1]))
  }

  /** Every pair of elements is in order. */
  ghost predicate Sorted<T(!new)>(cmp: (T, T) -> Order, s: seq<T>) {
    forall i, j :: 0 <= i < j < |s| ==> Precedes(cmp, s[i], s[j])
  }

  /** The elements of `s` that tie with `x`, in their order in `s`. */
  function TieClass<T(!new)>(cmp: (T, T) -> Order, x: T, s: seq<T>): seq<T> {
    if s == [] then []
    else TieClass(cmp, x, s[..|s| - 1]) + (if cmp(x, s[|s| - 1]) == Equal then [s[|s| - 1]] else [])
  }

  /** `t` keeps the elements of `s` that tie with each other in their order in `s`. */
  ghost predicate StableWrt<T(!new)>(cmp: (T, T) -> Order, s: seq<T>, t: seq<T>) {
    forall x :: TieClass(cmp, x, t) == TieClass(cmp, x, s)
  }

  lemma TiesAreEquivalence<T(!new)>(cmp: (T, T) -> Order, a: T, b: T, c: T)
    requires TotalPreorder(cmp)
    ensures cmp(a, a) == Equal
    ensures cmp(a, b) == Equal ==> cmp(b, a) == Equal
    ensures cmp(a, b) == Equal && cmp(b, c) == Equal ==> cmp(a, c) == Equal
    ensures Precedes(cmp, a, b) || Precedes(cmp, b, a)
    ensures Precedes(cmp, a, b) && Precedes(cmp, b, a) ==> cmp(a, b) == Equal
  {
    assert Precedes(cmp, a, b) && Precedes(cmp, b, c) ==> Precedes(cmp, a, c);
    assert Precedes(cmp, c, b) && Precedes(cmp, b, a) ==> Precedes(cmp, c, a);
    assert cmp(a, c) == Greater <==> cmp(c, a) == Less;
    assert cmp(a, b) == Greater <==> cmp(b, a) == Less;
    assert cmp(b, a) == Greater <==> cmp(a, b) == Less;
    assert cmp(b, c) == Greater <==> cmp(c, b) == Less;
    assert cmp(a, a) == Greater <==> cmp(a, a) == Less;
  }

  lemma PrecedesTransitive<T(!new)>(cmp: (T, T) -> Order, a: T, b: T, c: T)
    requires TotalPreorder(cmp)
    requires Precedes(cmp, a, b) && Precedes(cmp, b, c)
    ensures Precedes(cmp, a, c)
  {
  }

  lemma {:induction false} InsertPermutes<T(!new)>(cmp: (T, T) -> Order, x: T, s: seq<T>)
    ensures multiset(Insert(cmp, x, s)) == multiset(s) + multiset{x}
    decreases |s|
  {
    if s != [] && cmp(s[|s| - 1], x) == Greater {
      InsertPermutes(cmp, x, s[..|s| - 1]);
      InitLast(s);
    }
  }

  lemma {:induction false} InsertSorted<T(!new)>(cmp: (T, T) -> Order, x: T, s: seq<T>)
    requires TotalPreorder(cmp)
    requires Sorted(cmp, s)
    ensures Sorted(cmp, Insert(cmp, x, s))
    decreases |s|
  {
    if s != [] {
      var init, last := s[..|s| - 1], s[|s| - 1];
      var r := Insert(cmp, x, s);
      TiesAreEquivalence(cmp, last, x, x);
      if cmp(last, x) == Greater {
        var r' := Insert(cmp, x, init);
        InsertSorted(cmp, x, init);
        InsertPermutes(cmp, x, init);
        forall i, j | 0 <= i < j < |r|
          ensures Precedes(cmp, r[i], r[j])
        {
          if j == |r| - 1 {
            assert r[i] in multiset(r');
            if r[i] != x {
              var k :| 0 <= k < |init| && init[k] == r[i];
              assert s[k] == r[i];
            }
          } else {
            assert r[i] == r'[i] && r[j] == r'[j];
          }
        }
      } else {
        forall i, j | 0 <= i < j < |r|
          ensures Precedes(cmp, r[i], r[j])
        {
          if j == |r| - 1 {
            if i < |s| - 1 {
              PrecedesTransitive(cmp, s[i], last, x);
            }
          } else {
            assert r[i] == s[i] && r[j] == s[j];
          }
        }
      }
    }
  }

  lemma TieClassSnoc<T(!new)>(cmp: (T, T) -> Order, x: T, s: seq<T>, y: T)
    ensures TieClass(cmp, x, s + [y]) == TieClass(cmp, x, s) + (if cmp(x, y) == Equal then [y] else [])
  {
    assert (s + [y])[..|s|] == s;
  }

  lemma {:induction false} InsertKeepsTies<T(!new)>(cmp: (T, T) -> Order, x: T, y: T, s: seq<T>)
    requires TotalPreorder(cmp)
    ensures TieClass(cmp, x, Insert(cmp, y, s)) == TieClass(cmp, x, s + [y])
    decreases |s|
  {
    if s != [] && cmp(s[|s| - 1], y) == Greater {
      var init, last := s[..|s| - 1], s[|s| - 1];
      var cy := if cmp(x, y) == Equal then [y] else [];
      var cl := if cmp(x, last) == Equal then [last] else [];
      TiesAreEquivalence(cmp, last, x, y);
      TiesAreEquivalence(cmp, x, last, y);
      assert cy == [] || cl == [];
      InsertKeepsTies(cmp, x, y, init);
      TieClassSnoc(cmp, x, Insert(cmp, y, init), last);
      TieClassSnoc(cmp, x, init, y);
      TieClassSnoc(cmp, x, s, y);
      InitLast(s);
      TieClassSnoc(cmp, x, init, last);
      ConcatAssoc(TieClass(cmp, x, init), cy, cl);
      ConcatAssoc(TieClass(cmp, x, init), cl, cy);
    } else {
      TieClassSnoc(cmp, x, s, y);
    }
  }

  /** The sort is a permutation of its input. */
  lemma {:induction false} SortPermutes<T(!new)>(cmp: (T, T) -> Order, s: seq<T>)
    ensures multiset(SortBy(cmp, s)) == multiset(s)
    decreases |s|
  {
    if s != [] {
      SortPermutes(cmp, s[..|s| - 1]);
      InsertPermutes(cmp, s[|s| - 1], SortBy(cmp, s[..|s| - 1]));
      InitLast(s);
    }
  }

  /** The sort puts every pair of elements in order. */
  lemma {:induction false} SortSorts<T(!new)>(cmp: (T, T) -> Order, s: seq<T>)
    requires TotalPreorder(cmp)
    ensures Sorted(cmp, SortBy(cmp, s))
    decreases |s|
  {
    if s != [] {
      SortSorts(cmp, s[..|s| - 1]);
      InsertSorted(cmp, s[|s| - 1], SortBy(cmp, s[..|s| - 1]));
    }
  }

  /** The sort is stable: elements that tie keep their input order. */
  lemma {:induction false} SortIsStable<T(!new)>(cmp: (T, T) -> Order, s: seq<T>)
    requires TotalPreorder(cmp)
    ensures StableWrt(cmp, s, SortBy(cmp, s))
    decreases |s|
  {
    if s != [] {
      var init, last := s[..|s| - 1], s[|s| - 1];
      SortIsStable(cmp, init);
      forall x
        ensures TieClass(cmp, x, SortBy(cmp, s)) == TieClass(cmp, x, s)
      {
        InsertKeepsTies(cmp, x, last, SortBy(cmp, init));
        TieClassSnoc(cmp, x, SortBy(cmp, init), last);
        TieClassSnoc(cmp, x, init, last);
        InitLast(s);
      }
    }
  }

  lemma {:induction false} TieClassMembers<T(!new)>(cmp: (T, T) -> Order, x: T, s: seq<T>)
    ensures forall z :: z in TieClass(cmp, x, s) ==> z in s && cmp(x, z) == Equal
    decreases |s|
  {
    if s != [] {
      TieClassMembers(cmp, x, s[..|s| - 1]);
      assert forall z :: z in s[..|s| - 1] ==> z in s;
    }
  }

  lemma SortedPrefix<T(!new)>(cmp: (T, T) -> Order, s: seq<T>)
    requires TotalPreorder(cmp)
    requires Sorted(cmp, s) && s != []
    ensures Sorted(cmp, s[..|s| - 1])
    ensures forall z :: z in s ==> Precedes(cmp, z, s[|s| - 1])
  {
    TiesAreEquivalence(cmp, s[|s| - 1], s[|s| - 1], s[|s| - 1]);
  }

  /** A non-empty sequence has its last element in that element's tie class. */
  lemma LastInOwnClass<T(!new)>(cmp: (T, T) -> Order, s: seq<T>)
    requires TotalPreorder(cmp)
    requires s != []
    ensures s[|s| - 1] in TieClass(cmp, s[|s| - 1], s)
  {
    TiesAreEquivalence(cmp, s[|s| - 1], s[|s| - 1], s[|s| - 1]);
    TieClassSnoc(cmp, s[|s| - 1], s[..|s| - 1], s[|s| - 1]);
    InitLast(s);
  }

  /** If the last element of `a` ties with some element of sorted `b`, it precedes the last of `b`. */
  lemma LastPrecedesLast<T(!new)>(cmp: (T, T) -> Order, a: seq<T>, b: seq<T>)
    requires TotalPreorder(cmp)
    requires Sorted(cmp, b) && a != [] && b != []
    requires TieClass(cmp, a[|a| - 1], a) == TieClass(cmp, a[|a| - 1], b)
    ensures Precedes(cmp, a[|a| - 1], b[|b| - 1])
  {
    var u, v := a[|a| - 1], b[|b| - 1];
    LastInOwnClass(cmp, a);
    TieClassMembers(cmp, u, b);
    var w :| w in b && cmp(u, w) == Equal;
    SortedPrefix(cmp, b);
    PrecedesTransitive(cmp, u, w, v);
  }

  /** When the last element of `s` ties with `x`, it ends `x`'s tie class. */
  lemma ClassEndsWithLast<T(!new)>(cmp: (T, T) -> Order, x: T, s: seq<T>)
    requires s != [] && cmp(x, s[|s| - 1]) == Equal
    ensures TieClass(cmp, x, s) != []
    ensures TieClass(cmp, x, s)[|TieClass(cmp, x, s)| - 1] == s[|s| - 1]
  {
  }

  lemma LastsEqual<T(!new)>(cmp: (T, T) -> Order, a: seq<T>, b: seq<T>)
    requires TotalPreorder(cmp)
    requires Sorted(cmp, a) && Sorted(cmp, b) && a != [] && b != []
    requires TieClass(cmp, a[|a| - 1], a) == TieClass(cmp, a[|a| - 1], b)
    requires TieClass(cmp, b[|b| - 1], a) == TieClass(cmp, b[|b| - 1], b)
    ensures a[|a| - 1] == b[|b| - 1]
  {
    var u, v := a[|a| - 1], b[|b| - 1];
    LastPrecedesLast(cmp, a, b);
    LastPrecedesLast(cmp, b, a);
    TiesAreEquivalence(cmp, u, v, v);
    ClassEndsWithLast(cmp, u, a);
    ClassEndsWithLast(cmp, u, b);
  }

  /** Equal tie classes stay equal once a common last element is dropped. */
  lemma DropLastKeepsClasses<T(!new)>(cmp: (T, T) -> Order, a: seq<T>, b: seq<T>, ia: seq<T>, ib: seq<T>)
    requires a != [] && b != [] && a[|a| - 1] == b[|b| - 1]
    requires ia == a[..|a| - 1] && ib == b[..|b| - 1]
    requires forall x :: TieClass(cmp, x, a) == TieClass(cmp, x, b)
    ensures forall x :: TieClass(cmp, x, ia) == TieClass(cmp, x, ib)
  {
    forall x
      ensures TieClass(cmp, x, ia) == TieClass(cmp, x, ib)
    {
      var ca, cb := TieClass(cmp, x, ia), TieClass(cmp, x, ib);
      var c := if cmp(x, a[|a| - 1]) == Equal then [a[|a| - 1]] else [];
      assert TieClass(cmp, x, a) == ca + c && TieClass(cmp, x, b) == cb + c;
      assert ca == (ca + c)[..|ca|] && cb == (cb + c)[..|cb|];
    }
  }

  /** Sorted sequences with the same tie classes are equal. */
  lemma {:induction false} SortedClassesDetermine<T(!new)>(cmp: (T, T) -> Order, a: seq<T>, b: seq<T>)
    requires TotalPreorder(cmp)
    requires Sorted(cmp, a) && Sorted(cmp, b)
    requires forall x :: TieClass(cmp, x, a) == TieClass(cmp, x, b)
    ensures a == b
    decreases |a| + |b|
  {
    if b != [] {
      LastInOwnClass(cmp, b);
      assert TieClass(cmp, b[|b| - 1], a) != [];
    }
    if a != [] {
      LastInOwnClass(cmp, a);
      assert TieClass(cmp, a[|a| - 1], b) != [];
    }
    if a != [] && b != [] {
      LastsEqual(cmp, a, b);
      var ia, ib := a[..|a| - 1], b[..|b| - 1];
      DropLastKeepsClasses(cmp, a, b, ia, ib);
      SortedPrefix(cmp, a);
      SortedPrefix(cmp, b);
      SortedClassesDetermine(cmp, ia, ib);
      InitLast(a);
      InitLast(b);
    }
  }

  /**
   * Any sorted sequence that keeps each tie class of `s` in its input order
   * is the one `SortBy` computes.
   */
  lemma SortedIsUnique<T(!new)>(cmp: (T, T) -> Order, s: seq<T>, t: seq<T>)
    requires TotalPreorder(cmp)
    requires Sorted(cmp, t) && StableWrt(cmp, s, t)
    ensures t == SortBy(cmp, s)
  {
    SortSorts(cmp, s);
    SortIsStable(cmp, s);
    SortedClassesDetermine(cmp, t, SortBy(cmp, s));
  }

  /** Insertion sort in place: each element is shifted left past the greater ones before it. */
  method SortInPlace<T(!new)>(a: array<T>, cmp: (T, T) -> Order)
    modifies a
    ensures a[..] == SortBy(cmp, old(a[..]))
  {
    ghost var input := a[..];
    var i := 0;
    while i < a.Length
      invariant 0 <= i <= a.Length
      invariant a[..i] == SortBy(cmp, input[..i])
      invariant a[i..] == input[i..]
    {
      assert a[i] == input[i..][0];
      InsertLast(a, cmp, i);
      SortBySnoc(cmp, input, i);
      i := i + 1;
    }
    assert input[..a.Length] == input;
    assert a[..] == a[..a.Length];
  }

  /** Moves `a[i]` left past the greater elements before it. */
  method InsertLast<T(!new)>(a: array<T>, cmp: (T, T) -> Order, i: nat)
    requires i < a.Length
    modifies a
    ensures a[..i + 1] == Insert(cmp, old(a[i]), old(a[..i]))
    ensures a[i + 1..] == old(a[i + 1..])
  {
    var x := a[i];
    ghost var prefix := a[..i];
    var j := i;
    while j > 0 && cmp(a[j - 1], x) == Greater
      invariant 0 <= j <= i
      invariant forall k :: 0 <= k < j ==> a[k] == prefix[k]
      invariant forall k :: j < k <= i ==> a[k] == prefix[k - 1]
      invariant forall k :: i < k < a.Length ==> a[k] == old(a[k])
      invariant forall k :: j <= k < i ==> cmp(prefix[k], x) == Greater
    {
      a[j] := a[j - 1];
      j := j - 1;
    }
    a[j] := x;
    InsertAt(cmp, x, prefix, j);
    Spliced(a[..], prefix, j, x);
    assert a[..i + 1] == a[..][..i + 1];
  }

  /**
   * `x` lands at position `j` of `prefix` when every element from `j` on
   * compares greater than it and the one before `j` does not.
   */
  lemma {:induction false} InsertAt<T(!new)>(cmp: (T, T) -> Order, x: T, prefix: seq<T>, j: nat)
    requires j <= |prefix|
    requires j == 0 || cmp(prefix[j - 1], x) != Greater
    requires forall k :: j <= k < |prefix| ==> cmp(prefix[k], x) == Greater
    ensures Insert(cmp, x, prefix) == prefix[..j] + [x] + prefix[j..]
    decreases |prefix|
  {
    if j < |prefix| {
      var init := prefix[..|prefix| - 1];
      InsertAt(cmp, x, init, j);
      assert init[..j] == prefix[..j];
      assert init[j..] + [prefix[|prefix| - 1]] == prefix[j..];
      ConcatAssoc(prefix[..j] + [x], init[j..], [prefix[|prefix| - 1]]);
    }
  }

  lemma SortBySnoc<T(!new)>(cmp: (T, T) -> Order, s: seq<T>, i: nat)
    requires i < |s|
    ensures SortBy(cmp, s[..i + 1]) == Insert(cmp, s[i], SortBy(cmp, s[..i]))
  {
    assert s[..i + 1][..i] == s[..i];
  }
}
