/**
 * String helpers standing in for the JavaScript built-ins the dashboard uses:
 * `toLowerCase`, `join`, `includes` and `localeCompare`.
 */
module Text {

  /** ASCII lower-casing of one character. */
  function LowerChar(c: char): char
  {
    if 'A' <= c <= 'Z' then (c as int - 'A' as int + 'a' as int) as char else c
  }

  /** `s.toLowerCase()`, restricted to ASCII letters. */
  function Lower(s: string): (r: string)
    ensures |r| == |s|
    ensures forall i :: 0 <= i < |s| ==> r[i] == LowerChar(s[i])
  {
    seq(|s|, i requires 0 <= i < |s| => LowerChar(s[i]))
  }

  lemma LowerSlice(s: string, i: nat, j: nat)
    requires i <= j <= |s|
    ensures Lower(s)[i..j] == Lower(s[i..j])
  {
    assert forall k :: 0 <= k < j - i ==> Lower(s)[i..j][k] == Lower(s[i..j])[k];
  }

  lemma LowerIdempotent(s: string)
    ensures Lower(Lower(s)) == Lower(s)
  {
    assert forall k :: 0 <= k < |s| ==> Lower(Lower(s))[k] == Lower(s)[k];
  }

  /** `t` stands in `s` starting at position `i`. */
  predicate OccursAt(t: string, s: string, i: nat)
  {
    i + |t| <= |s| && s[i..i + |t|] == t
  }

  /** `t` is a substring of `s`: the reference meaning of `s.includes(t)`. */
  ghost predicate Occurs(t: string, s: string)
  {
    exists i: nat :: OccursAt(t, s, i)
  }

  /** `s.includes(t)`, scanning `s` from the left. */
  function Includes(s: string, t: string): bool
    decreases |s|
  {
    if |t| > |s| then false
    else if s[..|t|] == t then true
    else Includes(s[1..], t)
  }

  lemma {:induction false} IncludesIffOccurs(s: string, t: string)
    ensures Includes(s, t) <==> Occurs(t, s)
    decreases |s|
  {
    if |t| > |s| {
      assert forall i: nat :: !OccursAt(t, s, i);
    } else if s[..|t|] == t {
      assert OccursAt(t, s, 0);
    } else {
      IncludesIffOccurs(s[1..], t);
      if Includes(s[1..], t) {
        var i: nat :| OccursAt(t, s[1..], i);
        assert s[1..][i..i + |t|] == s[i + 1..i + 1 + |t|];
        assert OccursAt(t, s, i + 1);
      }
      if Occurs(t, s) {
        var i: nat :| OccursAt(t, s, i);
        assert i != 0;
        assert s[1..][i - 1..i - 1 + |t|] == s[i..i + |t|];
        assert OccursAt(t, s[1..], i - 1);
      }
    }
  }

  /** An occurrence survives lower-casing both strings. */
  lemma LowerKeepsOccurrence(t: string, s: string, i: nat)
    requires OccursAt(t, s, i)
    ensures OccursAt(Lower(t), Lower(s), i)
  {
    LowerSlice(s, i, i + |t|);
  }

  /** A substring of a substring is a substring. */
  lemma OccursTransitive(q: string, t: string, s: string, i: nat, j: nat)
    requires OccursAt(q, t, j) && OccursAt(t, s, i)
    ensures OccursAt(q, s, i + j)
  {
    assert forall k :: 0 <= k < |q| ==> s[i + j + k] == t[j + k] == q[k];
    assert s[i + j..i + j + |q|] == q;
  }

  /** A substring of a lower-cased string is already lower-case. */
  lemma LowerFixesPiece(q: string, s: string, j: nat)
    requires OccursAt(q, Lower(s), j)
    ensures Lower(q) == q
  {
    LowerSlice(s, j, j + |q|);
    LowerIdempotent(s[j..j + |q|]);
  }

  /** `items.join(sep)`: the items with `sep` between neighbours. */
  function Join(items: seq<string>, sep: string): string
  {
    if |items| == 0 then ""
    else if |items| == 1 then items[0]
    else items[0] + sep + Join(items[1..], sep)
  }

  /** Every item of a joined list is a substring of the joined string. */
  lemma {:induction false} ItemOccursInJoin(items: seq<string>, sep: string, k: nat)
    requires k < |items|
    ensures Occurs(items[k], Join(items, sep))
  {
    var j := Join(items, sep);
    if |items| == 1 {
      assert OccursAt(items[0], j, 0);
    } else if k == 0 {
      assert j[0..|items[0]|] == items[0];
      assert OccursAt(items[0], j, 0);
    } else {
      ItemOccursInJoin(items[1..], sep, k - 1);
      var rest := Join(items[1..], sep);
      var i: nat :| OccursAt(items[k], rest, i);
      var off := |items[0] + sep|;
      assert j == items[0] + sep + rest;
      assert j[off + i..off + i + |items[k]|] == rest[i..i + |items[k]|];
      assert OccursAt(items[k], j, off + i);
    }
  }

  /**
   * `a.localeCompare(b)` with the collation replaced by code-point order:
   * negative, zero or positive as `a` sorts before, with or after `b`.
   */
  function LexCompare(a: string, b: string): (r: int)
    ensures -1 <= r <= 1
  {
    if a == [] && b == [] then 0
    else if a == [] then -1
    else if b == [] then 1
    else if a[0] < b[0] then -1
    else if a[0] > b[0] then 1
    else LexCompare(a[1..], b[1..])
  }

  /** Code-point order is a total order: it is zero only on equal strings and flips sign with its arguments. */
  lemma {:induction false} LexCompareAntisymmetric(a: string, b: string)
    ensures LexCompare(a, b) == -LexCompare(b, a)
    ensures LexCompare(a, b) == 0 <==> a == b
  {
    if a != [] && b != [] && a[0] == b[0] {
      LexCompareAntisymmetric(a[1..], b[1..]);
      if a[1..] == b[1..] {
        assert a == [a[0]] + a[1..] && b == [b[0]] + b[1..];
      }
    }
  }

  lemma {:induction false} LexCompareTransitive(a: string, b: string, c: string)
    requires LexCompare(a, b) < 0 && LexCompare(b, c) < 0
    ensures LexCompare(a, c) < 0
  {
    if a != [] && b != [] && c != [] && a[0] == b[0] && b[0] == c[0] {
      LexCompareTransitive(a[1..], b[1..], c[1..]);
    }
  }
}
