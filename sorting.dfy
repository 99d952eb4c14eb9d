/**
 * `Array.prototype.sort` with a comparator: what a comparator must satisfy, what
 * it means for a list to be ordered by one, and an in-place sort.
 */
module Sorting {

  /** A comparator that is antisymmetric: swapping its arguments negates its answer. */
  ghost predicate Antisymmetric<T(!new)>(cmp: (T, T) -> int) {
    forall a, b :: cmp(a, b) == -cmp(b, a)
  }

  /** A comparator that reports a tie only for equal elements. */
  ghost predicate TiesOnlyEqual<T(!new)>(cmp: (T, T) -> int) {
    forall a, b :: cmp(a, b) == 0 ==> a == b
  }

  /** `a`, `b`, `c` do not contradict transitivity. */
  ghost predicate Chained<T>(cmp: (T, T) -> int, a: T, b: T, c: T) {
    cmp(a, b) <= 0 && cmp(b, c) <= 0 ==> cmp(a, c) <= 0
  }

  ghost predicate Transitive<T(!new)>(cmp: (T, T) -> int) {
    forall a, b, c {:trigger Chained(cmp, a, b, c)} :: Chained(cmp, a, b, c)
  }

  /** What `sort` needs of a comparator: a total order presented as negative, zero or positive. */
  ghost predicate ValidComparator<T(!new)>(cmp: (T, T) -> int) {
    Antisymmetric(cmp) && TiesOnlyEqual(cmp) && Transitive(cmp)
  }

  /** No later element compares below an earlier one. */
  predicate OrderedBy<T>(s: seq<T>, cmp: (T, T) -> int) {
    forall i, j :: 0 <= i < j < |s| ==> cmp(s[i], s[j]) <= 0
  }

  /** The first element of an ordered list is at most every element of it. */
  lemma HeadIsLeast<T(!new)>(s: seq<T>, cmp: (T, T) -> int, x: T)
    requires Antisymmetric(cmp) && OrderedBy(s, cmp) && x in s
    ensures cmp(s[0], x) <= 0
  {
    var i :| 0 <= i < |s| && s[i] == x;
    if i == 0 {
      assert cmp(x, x) == -cmp(x, x);
    }
  }

  lemma TailOrdered<T>(s: seq<T>, cmp: (T, T) -> int)
    requires s != [] && OrderedBy(s, cmp)
    ensures OrderedBy(s[1..], cmp)
  {
    forall i, j | 0 <= i < j < |s| - 1 ensures cmp(s[1..][i], s[1..][j]) <= 0 {
      assert cmp(s[i + 1], s[j + 1]) <= 0;
    }
  }

  /** Two ordered lists with the same elements start with the same element. */
  lemma SameHead<T(!new)>(s: seq<T>, t: seq<T>, cmp: (T, T) -> int)
    requires Antisymmetric(cmp) && TiesOnlyEqual(cmp)
    requires OrderedBy(s, cmp) && OrderedBy(t, cmp)
    requires s != [] && multiset(s) == multiset(t)
    ensures t != [] && s[0] == t[0]
  {
    assert s[0] in multiset(t);
    assert t[0] in multiset(s);
    HeadIsLeast(s, cmp, t[0]);
    HeadIsLeast(t, cmp, s[0]);
  }

  lemma SameTailElements<T>(s: seq<T>, t: seq<T>)
    requires s != [] && t != [] && s[0] == t[0] && multiset(s) == multiset(t)
    ensures multiset(s[1..]) == multiset(t[1..])
  {
    assert s == [s[0]] + s[1..];
    assert t == [t[0]] + t[1..];
    calc {
      multiset(s[1..]);
      multiset(s) - multiset{s[0]};
      multiset(t) - multiset{t[0]};
      multiset(t[1..]);
    }
  }

  /** Any two orderings of the same elements that respect a valid comparator are equal. */
  lemma {:induction false} OrderedUnique<T(!new)>(s: seq<T>, t: seq<T>, cmp: (T, T) -> int)
    requires Antisymmetric(cmp) && TiesOnlyEqual(cmp)
    requires OrderedBy(s, cmp) && OrderedBy(t, cmp)
    requires multiset(s) == multiset(t)
    ensures s == t
  {
    if s == [] {
      assert |t| == |multiset(t)| == 0;
    } else {
      SameHead(s, t, cmp);
      SameTailElements(s, t);
      TailOrdered(s, cmp);
      TailOrdered(t, cmp);
      OrderedUnique(s[1..], t[1..], cmp);
      assert s == [s[0]] + s[1..];
      assert t == [t[0]] + t[1..];
    }
  }

  /** The first `n` elements are ordered. */
  ghost predicate PrefixOrdered<T>(s: seq<T>, cmp: (T, T) -> int, n: nat) {
    forall p, q :: 0 <= p < q < n && q < |s| ==> cmp(s[p], s[q]) <= 0
  }

  /** `Array.prototype.sort(cmp)`, in place (an insertion sort). */
  method Sort<T(!new)>(a: array<T>, cmp: (T, T) -> int)
    requires ValidComparator(cmp)
    modifies a
    ensures OrderedBy(a[..], cmp)
    ensures multiset(a[..]) == multiset(old(a[..]))
  {
    var i := 0;
    while i < a.Length
      invariant i <= a.Length
      invariant PrefixOrdered(a[..], cmp, i)
      invariant multiset(a[..]) == multiset(old(a[..]))
    {
      Insert(a, cmp, i);
      i := i + 1;
    }
  }

  method Swap<T>(a: array<T>, i: nat, j: nat)
    requires i < j < a.Length
    modifies a
    ensures a[i] == old(a[j]) && a[j] == old(a[i])
    ensures forall k :: 0 <= k < a.Length && k != i && k != j ==> a[k] == old(a[k])
    ensures multiset(a[..]) == multiset(old(a[..]))
  {
    a[i], a[j] := a[j], a[i];
  }

  /**
   * While `a[i]` moves left: it is at position `j`, the other elements of
   * `s[..i + 1]` are in order, and it is at most everything to its right.
   */
  ghost predicate Inserting<T>(s: seq<T>, cmp: (T, T) -> int, i: nat, j: nat) {
    && j <= i < |s|
    && (forall p, q :: 0 <= p < q <= i && p != j && q != j ==> cmp(s[p], s[q]) <= 0)
    && (forall q :: j < q <= i ==> cmp(s[j], s[q]) <= 0)
  }

  /** Swapping the moving element with a larger left neighbour keeps `Inserting`. */
  lemma InsertingStep<T(!new)>(s: seq<T>, t: seq<T>, cmp: (T, T) -> int, i: nat, j: nat)
    requires Antisymmetric(cmp)
    requires Inserting(s, cmp, i, j) && 0 < j && cmp(s[j - 1], s[j]) > 0
    requires |t| == |s| && t[j - 1] == s[j] && t[j] == s[j - 1]
    requires forall k :: 0 <= k < |s| && k != j - 1 && k != j ==> t[k] == s[k]
    ensures Inserting(t, cmp, i, j - 1)
  {
    assert cmp(t[j - 1], t[j]) < 0;
    forall p, q | 0 <= p < q <= i && p != j - 1 && q != j - 1
      ensures cmp(t[p], t[q]) <= 0
    {
      if q == j {
        assert cmp(s[p], s[j - 1]) <= 0;
      } else if p == j {
        assert cmp(s[j - 1], s[q]) <= 0;
      } else {
        assert cmp(s[p], s[q]) <= 0;
      }
    }
    forall q | j - 1 < q <= i
      ensures cmp(t[j - 1], t[q]) <= 0
    {
      if q > j {
        assert cmp(s[j], s[q]) <= 0;
      }
    }
  }

  /** Once the left neighbour is not larger, the prefix up to `i` is in order. */
  lemma InsertingDone<T(!new)>(s: seq<T>, cmp: (T, T) -> int, i: nat, j: nat)
    requires ValidComparator(cmp)
    requires Inserting(s, cmp, i, j) && (j == 0 || cmp(s[j - 1], s[j]) <= 0)
    ensures PrefixOrdered(s, cmp, i + 1)
  {
    forall p, q | 0 <= p < q < i + 1 && q < |s|
      ensures cmp(s[p], s[q]) <= 0
    {
      if q == j && p < j - 1 {
        assert cmp(s[p], s[j - 1]) <= 0;
        assert Chained(cmp, s[p], s[j - 1], s[j]);
      }
    }
  }

  /** Moves `a[i]` left past every larger element, extending the ordered prefix by one. */
  method Insert<T(!new)>(a: array<T>, cmp: (T, T) -> int, i: nat)
    requires ValidComparator(cmp)
    requires i < a.Length
    requires PrefixOrdered(a[..], cmp, i)
    modifies a
    ensures PrefixOrdered(a[..], cmp, i + 1)
    ensures multiset(a[..]) == multiset(old(a[..]))
  {
    var j: nat := i;
    while j > 0 && cmp(a[j - 1], a[j]) > 0
      invariant Inserting(a[..], cmp, i, j)
      invariant multiset(a[..]) == multiset(old(a[..]))
    {
      ghost var before := a[..];
      Swap(a, j - 1, j);
      InsertingStep(before, a[..], cmp, i, j);
      j := j - 1;
    }
    InsertingDone(a[..], cmp, i, j);
  }
}
