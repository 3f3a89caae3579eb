/**
 * `Array.prototype.sort(compareFn)` on strings: the comparator's contract
 * and an in-place sort that meets it.
 */
module Sorting {

  /** `x` may go before `y`: the comparator does not return a positive number. */
  ghost predicate Le(cmp: (string, string) -> int, x: string, y: string)
  {
    cmp(x, y) <= 0
  }

  /** Any two strings are comparable one way or the other. */
  ghost predicate Total(cmp: (string, string) -> int)
  {
    forall x, y :: !Le(cmp, x, y) ==> Le(cmp, y, x)
  }

  ghost predicate Transitive(cmp: (string, string) -> int)
  {
    forall x, y, z :: Le(cmp, x, y) && Le(cmp, y, z) ==> Le(cmp, x, z)
  }

  /** Only equal strings compare as equal. */
  ghost predicate Antisymmetric(cmp: (string, string) -> int)
  {
    forall x, y :: Le(cmp, x, y) && Le(cmp, y, x) ==> x == y
  }

  /** `s` is in the order `cmp` asks for. */
  ghost predicate SortedBy(s: seq<string>, cmp: (string, string) -> int)
  {
    forall i, j :: 0 <= i < j < |s| ==> Le(cmp, s[i], s[j])
  }

  /**
   * The state of one insertion pass over `s`: the element at `j` is moving
   * left; every other pair up to `i` is in order, and the moving element is
   * in order with everything to its right up to `i`.
   */
  ghost predicate Inserting(s: seq<string>, j: int, i: int, cmp: (string, string) -> int)
  {
    0 <= j <= i < |s| &&
    (forall p, q :: 0 <= p < q <= i && p != j && q != j ==> Le(cmp, s[p], s[q])) &&
    (forall q :: j < q <= i ==> Le(cmp, s[j], s[q]))
  }

  lemma InsertingStart(s: seq<string>, i: int, cmp: (string, string) -> int)
    requires 0 <= i < |s| && SortedBy(s[..i], cmp)
    ensures Inserting(s, i, i, cmp)
  {
    assert forall p :: 0 <= p < i ==> s[p] == s[..i][p];
  }

  /** `s` with the elements at `j - 1` and `j` exchanged. */
  function SwapDown(s: seq<string>, j: int): (r: seq<string>)
    requires 0 < j < |s|
    ensures |r| == |s| && r[j - 1] == s[j] && r[j] == s[j - 1]
    ensures forall k :: 0 <= k < |s| && k != j - 1 && k != j ==> r[k] == s[k]
  {
    s[j - 1 := s[j]][j := s[j - 1]]
  }

  lemma InsertingSwap(s: seq<string>, j: int, i: int, cmp: (string, string) -> int)
    requires Total(cmp) && Transitive(cmp)
    requires Inserting(s, j, i, cmp) && j > 0 && !Le(cmp, s[j - 1], s[j])
    ensures Inserting(SwapDown(s, j), j - 1, i, cmp)
    ensures multiset(SwapDown(s, j)) == multiset(s)
  {
  }

  lemma InsertingDone(s: seq<string>, j: int, i: int, cmp: (string, string) -> int)
    requires Transitive(cmp)
    requires Inserting(s, j, i, cmp) && (j == 0 || Le(cmp, s[j - 1], s[j]))
    ensures SortedBy(s[..i + 1], cmp)
  {
    assert forall p :: 0 <= p < j ==> Le(cmp, s[p], s[j]) by {
      forall p | 0 <= p < j - 1
        ensures Le(cmp, s[p], s[j])
      {
        assert Le(cmp, s[p], s[j - 1]);
      }
    }
  }

  /** One pass of the sort: moves `a[i]` left until `a[..i + 1]` is in order. */
  method InsertInto(a: array<string>, i: int, cmp: (string, string) -> int)
    requires Total(cmp) && Transitive(cmp)
    requires 0 <= i < a.Length && SortedBy(a[..i], cmp)
    modifies a
    ensures SortedBy(a[..i + 1], cmp)
    ensures multiset(a[..]) == old(multiset(a[..]))
    ensures a[i + 1..] == old(a[i + 1..])
    ensures multiset(a[..i + 1]) == old(multiset(a[..i + 1]))
  {
    ghost var s0 := a[..];
    InsertingStart(a[..], i, cmp);
    var j := i;
    while j > 0 && cmp(a[j - 1], a[j]) > 0
      invariant Inserting(a[..], j, i, cmp)
      invariant multiset(a[..]) == old(multiset(a[..]))
      invariant a[i + 1..] == s0[i + 1..]
    {
      ghost var s := a[..];
      InsertingSwap(s, j, i, cmp);
      a[j - 1], a[j] := a[j], a[j - 1];
      assert a[..] == SwapDown(s, j);
      j := j - 1;
    }
    InsertingDone(a[..], j, i, cmp);
    SamePrefixMultiset(a[..], s0, i + 1);
  }

  /** Two rearrangements that agree from `n` on rearrange each other's first `n` elements. */
  lemma SamePrefixMultiset(s: seq<string>, t: seq<string>, n: nat)
    requires n <= |s| == |t| && s[n..] == t[n..] && multiset(s) == multiset(t)
    ensures multiset(s[..n]) == multiset(t[..n])
  {
    assert multiset(s) == multiset(s[..n]) + multiset(s[n..]) by {
      assert s == s[..n] + s[n..];
    }
    assert multiset(t) == multiset(t[..n]) + multiset(t[n..]) by {
      assert t == t[..n] + t[n..];
    }
    assert multiset(s[..n]) == multiset(s) - multiset(s[n..]);
    assert multiset(t[..n]) == multiset(t) - multiset(t[n..]);
  }

  /**
   * `a.sort(cmp)` in place: the array ends in the order `cmp` asks for and
   * holds the same strings. The engine's own algorithm is not visible; this
   * is an insertion sort with that contract.
   */
  method SortBy(a: array<string>, cmp: (string, string) -> int)
    requires Total(cmp) && Transitive(cmp)
    modifies a
    ensures SortedBy(a[..], cmp)
    ensures multiset(a[..]) == old(multiset(a[..]))
  {
    var i := 0;
    while i < a.Length
      invariant 0 <= i <= a.Length
      invariant SortedBy(a[..i], cmp)
      invariant multiset(a[..]) == old(multiset(a[..]))
    {
      InsertInto(a, i, cmp);
      i := i + 1;
    }
    assert a[..] == a[..a.Length];
  }

  lemma SameFirst(s: seq<string>, t: seq<string>, cmp: (string, string) -> int)
    requires Antisymmetric(cmp)
    requires SortedBy(s, cmp) && SortedBy(t, cmp)
    requires s != [] && multiset(s) == multiset(t)
    ensures t != [] && s[0] == t[0]
  {
    assert s[0] in multiset(t) && |t| == |multiset(t)|;
    assert t[0] in multiset(s);
    var j :| 0 <= j < |t| && t[j] == s[0];
    var i :| 0 <= i < |s| && s[i] == t[0];
  }

  lemma SameRest(s: seq<string>, t: seq<string>)
    requires s != [] && t != [] && s[0] == t[0] && multiset(s) == multiset(t)
    ensures multiset(s[1..]) == multiset(t[1..])
  {
    assert s == [s[0]] + s[1..];
    assert t == [t[0]] + t[1..];
    assert multiset(s[1..]) == multiset(s) - multiset{s[0]};
  }

  /** Two orderings of the same strings that both obey an antisymmetric comparator are the same. */
  lemma {:induction false} SortedUnique(s: seq<string>, t: seq<string>, cmp: (string, string) -> int)
    requires Antisymmetric(cmp)
    requires SortedBy(s, cmp) && SortedBy(t, cmp)
    requires multiset(s) == multiset(t)
    ensures s == t
  {
    if s != [] {
      SameFirst(s, t, cmp);
      SameRest(s, t);
      assert SortedBy(s[1..], cmp) && SortedBy(t[1..], cmp);
      SortedUnique(s[1..], t[1..], cmp);
      assert s == [s[0]] + s[1..] && t == [t[0]] + t[1..];
    } else {
      assert |t| == |multiset(t)|;
    }
  }
}
