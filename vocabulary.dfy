/**
 * The option lists of the two drop-downs: the distinct wall types in the
 * order they first appear, and the distinct vegetation covers ordered by
 * the four coverage bands first and then alphabetically.
 */
module Vocabulary {
  import opened Wrappers
  import opened Text
  import opened Features
  import opened Sorting

  /** The canonical coverage bands, low to high. */
  const VegOrder: seq<string> := [
    "Clear (0-25% covered)",
    "Some overgrowth (25-50% covered)",
    "Quite covered (50-75% covered)",
    "Hidden (75-100% covered)"
  ]

  /** `xs.indexOf(x)`: the first position of `x`, or -1. */
  function IndexOf(xs: seq<string>, x: string): (r: int)
    ensures -1 <= r < |xs|
    ensures r == -1 <==> x !in xs
    ensures r >= 0 ==> xs[r] == x && x !in xs[..r]
  {
    if xs == [] then -1
    else if xs[0] == x then 0
    else
      var r := IndexOf(xs[1..], x);
      assert xs == [xs[0]] + xs[1..];
      if r == -1 then -1 else
        assert xs[..r + 1] == [xs[0]] + xs[1..][..r];
        r + 1
  }

  /** The comparator handed to `vegArray.sort`: negative when `a` goes first. */
  function VegCompare(a: string, b: string): int
  {
    var ai := IndexOf(VegOrder, a);
    var bi := IndexOf(VegOrder, b);
    if ai != -1 && bi != -1 then ai - bi
    else if ai != -1 then -1
    else if bi != -1 then 1
    else LexCompare(a, b)
  }

  /** Every canonical band goes before every other value. */
  lemma CanonicalBeforeOthers(a: string, b: string)
    requires a in VegOrder && b !in VegOrder
    ensures VegCompare(a, b) < 0 && VegCompare(b, a) > 0
  {
  }

  /** Two canonical bands go in band order. */
  lemma CanonicalInBandOrder(i: nat, j: nat)
    requires i < |VegOrder| && j < |VegOrder|
    ensures VegCompare(VegOrder[i], VegOrder[j]) < 0 <==> i < j
  {
    assert forall k, l :: 0 <= k < l < |VegOrder| ==> VegOrder[k] != VegOrder[l];
    var ai := IndexOf(VegOrder, VegOrder[i]);
    var bi := IndexOf(VegOrder, VegOrder[j]);
    assert ai == i by { assert VegOrder[i] !in VegOrder[..ai]; }
    assert bi == j by { assert VegOrder[j] !in VegOrder[..bi]; }
  }

  /** Two other values go in code-point order. */
  lemma OthersAlphabetical(a: string, b: string)
    requires a !in VegOrder && b !in VegOrder
    ensures VegCompare(a, b) < 0 <==> LexCompare(a, b) < 0
  {
  }

  /** The comparator is a total order: zero only on equal values, sign-flipping, transitive. */
  lemma VegCompareIsTotalOrder(a: string, b: string, c: string)
    ensures VegCompare(a, b) == 0 <==> a == b
    ensures VegCompare(a, b) < 0 <==> VegCompare(b, a) > 0
    ensures VegCompare(a, b) <= 0 && VegCompare(b, c) <= 0 ==> VegCompare(a, c) <= 0
  {
    LexCompareAntisymmetric(a, b);
    LexCompareAntisymmetric(b, c);
    LexCompareAntisymmetric(a, c);
    if LexCompare(a, b) < 0 && LexCompare(b, c) < 0 {
      LexCompareTransitive(a, b, c);
    }
  }

  /** The comparator meets the contract `sort` relies on, and is antisymmetric. */
  lemma VegCompareIsSortable()
    ensures Total(VegCompare) && Transitive(VegCompare) && Antisymmetric(VegCompare)
  {
    forall x, y, z {
      VegCompareIsTotalOrder(x, y, z);
    }
    forall x, y {
      VegCompareIsTotalOrder(x, y, y);
    }
  }

  /** `s` is in the drop-down order. */
  ghost predicate VegSorted(s: seq<string>)
  {
    SortedBy(s, VegCompare)
  }

  lemma ExampleInOrder()
    ensures VegSorted([VegOrder[0], VegOrder[3], "Unknown"])
  {
    CanonicalInBandOrder(0, 3);
    assert "Unknown" !in VegOrder;
    CanonicalBeforeOthers(VegOrder[0], "Unknown");
    CanonicalBeforeOthers(VegOrder[3], "Unknown");
  }

  /** The worked ordering: a high band, a low band and an unknown value. */
  lemma VegOrderingExample(s: seq<string>)
    requires VegSorted(s)
    requires multiset(s) == multiset(["Hidden (75-100% covered)", "Clear (0-25% covered)", "Unknown"])
    ensures s == ["Clear (0-25% covered)", "Hidden (75-100% covered)", "Unknown"]
  {
    var want := [VegOrder[0], VegOrder[3], "Unknown"];
    ExampleInOrder();
    assert multiset(want) == multiset(s);
    VegCompareIsSortable();
    SortedUnique(s, want, VegCompare);
  }

  /** `if (v) set.add(v)` for a string property: a non-empty string value, if any. */
  function TruthyString(v: Option<Value>): Option<string>
  {
    if v.Some? && v.value.Str? && v.value.s != "" then Some(v.value.s) else None
  }

  ghost predicate NoDuplicates(s: seq<string>)
  {
    forall i, j :: 0 <= i < j < |s| ==> s[i] != s[j]
  }

  /** Some entry's `field` holds the non-empty string `v`. */
  ghost predicate HasTruthy(fs: seq<Feature>, field: string, v: string)
  {
    exists i :: 0 <= i < |fs| && TruthyString(Get(fs[i].properties, field)) == Some(v)
  }

  /** The contents of the `Set` built for `field`, in insertion order. */
  function DistinctTruthy(fs: seq<Feature>, field: string): (r: seq<string>)
    ensures NoDuplicates(r)
  {
    if fs == [] then []
    else
      var prev := DistinctTruthy(fs[..|fs| - 1], field);
      var v := TruthyString(Get(fs[|fs| - 1].properties, field));
      if v.Some? && v.value !in prev then prev + [v.value] else prev
  }

  /** The vocabulary holds exactly the non-empty values the entries carry. */
  lemma {:induction false} DistinctTruthyExactly(fs: seq<Feature>, field: string, v: string)
    ensures v in DistinctTruthy(fs, field) <==> HasTruthy(fs, field, v)
  {
    if fs != [] {
      var n := |fs| - 1;
      DistinctTruthyExactly(fs[..n], field, v);
      if HasTruthy(fs[..n], field, v) {
        var i :| 0 <= i < n && TruthyString(Get(fs[..n][i].properties, field)) == Some(v);
        assert fs[i] == fs[..n][i];
      }
      if HasTruthy(fs, field, v) {
        var i :| 0 <= i < |fs| && TruthyString(Get(fs[i].properties, field)) == Some(v);
        if i < n {
          assert fs[..n][i] == fs[i];
        }
      }
    }
  }

  /** Two sequences with the same multiset are duplicate-free together. */
  lemma {:induction false} NoDuplicatesPermutation(s: seq<string>, t: seq<string>)
    requires NoDuplicates(s) && multiset(s) == multiset(t)
    ensures NoDuplicates(t)
  {
    forall i, j | 0 <= i < j < |t|
      ensures t[i] != t[j]
    {
      if t[i] == t[j] {
        assert t == t[..j] + [t[j]] + t[j + 1..];
        assert t[i] in t[..j];
        assert multiset(t)[t[i]] >= 2 by {
          assert multiset(t) == multiset(t[..j]) + multiset{t[j]} + multiset(t[j + 1..]);
        }
        MultiplicityInDistinct(s, t[i]);
      }
    }
  }

  lemma {:induction false} MultiplicityInDistinct(s: seq<string>, x: string)
    requires NoDuplicates(s)
    ensures multiset(s)[x] <= 1
  {
    if s != [] {
      MultiplicityInDistinct(s[1..], x);
      assert s == [s[0]] + s[1..];
      assert s[0] == x ==> x !in s[1..];
    }
  }

  /**
   * `populateFilters`: one pass over the entries fills both sets, then the
   * vegetation values are copied into an array and sorted.
   */
  method PopulateFilters(features: seq<Feature>) returns (wallTypes: seq<string>, vegOptions: seq<string>)
    ensures wallTypes == DistinctTruthy(features, "Wall_Type")
    ensures forall v :: v in wallTypes <==> HasTruthy(features, "Wall_Type", v)
    ensures forall v :: v in vegOptions <==> HasTruthy(features, "Vegetation_Cover", v)
    ensures NoDuplicates(vegOptions)
    ensures VegSorted(vegOptions)
  {
    var walls: seq<string> := [];
    var vegs: seq<string> := [];
    var i := 0;
    while i < |features|
      invariant 0 <= i <= |features|
      invariant walls == DistinctTruthy(features[..i], "Wall_Type")
      invariant vegs == DistinctTruthy(features[..i], "Vegetation_Cover")
    {
      var p := features[i].properties;
      var w := TruthyString(Get(p, "Wall_Type"));
      if w.Some? && w.value !in walls {
        walls := walls + [w.value];
      }
      var veg := TruthyString(Get(p, "Vegetation_Cover"));
      if veg.Some? && veg.value !in vegs {
        vegs := vegs + [veg.value];
      }
      assert features[..i + 1][..i] == features[..i];
      i := i + 1;
    }
    assert features[..i] == features;
    var vegArray := new string[|vegs|](k requires 0 <= k < |vegs| => vegs[k]);
    assert vegArray[..] == vegs;
    VegCompareIsSortable();
    SortBy(vegArray, VegCompare);
    wallTypes, vegOptions := walls, vegArray[..];
    forall v
      ensures v in wallTypes <==> HasTruthy(features, "Wall_Type", v)
      ensures v in vegOptions <==> HasTruthy(features, "Vegetation_Cover", v)
    {
      DistinctTruthyExactly(features, "Wall_Type", v);
      DistinctTruthyExactly(features, "Vegetation_Cover", v);
      assert v in vegOptions <==> v in multiset(vegOptions);
      assert v in vegs <==> v in multiset(vegs);
    }
    NoDuplicatesPermutation(vegs, vegOptions);
  }
}
