/**
  The dropdown options: `[...new Set(values)]`, the distinct values of one
  field in the order they first appear in the catalog.
 */
module Facets {
  import opened Catalog

  predicate NoDuplicates<T(==)>(s: seq<T>)
  {
    forall i, j :: 0 <= i < j < |s| ==> s[i] != s[j]
  }

  /** Inserting the values one by one into a Set and reading it back. */
  function Distinct(s: seq<string>): (r: seq<string>)
    ensures NoDuplicates(r)
    ensures forall x :: x in r <==> x in s
  {
    if s == [] then []
    else
      var r := Distinct(s[..|s| - 1]);
      var x := s[|s| - 1];
      if x in r then r else r + [x]
  }

  /** The position of the first occurrence of x in s. */
  function FirstIndex(s: seq<string>, x: string): (k: nat)
    requires x in s
    ensures k < |s| && s[k] == x && x !in s[..k]
  {
    if s[0] == x then 0
    else
      assert x in s[1..];
      var k := FirstIndex(s[1..], x);
      assert s[..k + 1] == [s[0]] + s[1..][..k];
      k + 1
  }

  /** Appending to s does not move the first occurrence of a value already in s. */
  lemma FirstIndexAppend(s: seq<string>, y: string, x: string)
    requires x in s
    ensures FirstIndex(s + [y], x) == FirstIndex(s, x)
  {
    var k, k' := FirstIndex(s, x), FirstIndex(s + [y], x);
    assert !(k' < k);
    assert (s + [y])[k] == x;
    assert !(k < k') by {
      assert k < |s|;
      assert forall i :: 0 <= i < k' ==> (s + [y])[i] != x;
    }
  }

  /** The distinct values come out in the order of their first appearance. */
  lemma {:induction false} DistinctFirstAppearance(s: seq<string>)
    ensures forall i, j :: 0 <= i < j < |Distinct(s)| ==> FirstIndex(s, Distinct(s)[i]) < FirstIndex(s, Distinct(s)[j])
  {
    if s != [] {
      var init, y := s[..|s| - 1], s[|s| - 1];
      assert s == init + [y];
      DistinctFirstAppearance(init);
      var r0 := Distinct(init);
      forall x | x in r0
        ensures FirstIndex(s, x) == FirstIndex(init, x)
      {
        FirstIndexAppend(init, y, x);
      }
      if y !in r0 {
        var r := r0 + [y];
        assert y !in init;
        assert FirstIndex(s, y) == |init|;
        forall i, j | 0 <= i < j < |r|
          ensures FirstIndex(s, r[i]) < FirstIndex(s, r[j])
        {
          assert r[i] == r0[i] && r0[i] in r0;
          if j == |r0| {
            assert FirstIndex(s, r0[i]) == FirstIndex(init, r0[i]) < |init|;
          } else {
            assert r[j] == r0[j] && r0[j] in r0;
            assert FirstIndex(init, r0[i]) < FirstIndex(init, r0[j]);
          }
        }
      }
    }
  }

  /** The values of one field, entry by entry (`characters.map(char => char.rarity)` and its kin). */
  function Column(catalog: seq<Entry>, fld: Field): (c: seq<string>)
    ensures |c| == |catalog|
    ensures forall i :: 0 <= i < |c| ==> c[i] == FieldOf(catalog[i], fld)
    ensures forall v :: v in c <==> exists e :: e in catalog && FieldOf(e, fld) == v
  {
    var c := seq(|catalog|, i requires 0 <= i < |catalog| => FieldOf(catalog[i], fld));
    assert forall v :: v in c <==> exists e :: e in catalog && FieldOf(e, fld) == v by {
      forall v | v in c ensures exists e :: e in catalog && FieldOf(e, fld) == v {
        var i :| 0 <= i < |c| && c[i] == v;
        assert catalog[i] in catalog;
      }
      forall v | exists e :: e in catalog && FieldOf(e, fld) == v ensures v in c {
        var e :| e in catalog && FieldOf(e, fld) == v;
        var i :| 0 <= i < |catalog| && catalog[i] == e;
        assert c[i] == v;
      }
    }
    c
  }

  /** The options offered for one facet (`populateFilters`). */
  function FacetOptions(catalog: seq<Entry>, fld: Field): (r: seq<string>)
    ensures NoDuplicates(r)
    ensures forall v :: v in r <==> exists e :: e in catalog && FieldOf(e, fld) == v
  {
    Distinct(Column(catalog, fld))
  }
}
