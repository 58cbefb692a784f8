/**
  The catalog panel filter: three exact-match facets, each switched off by the
  empty string, and a case-insensitive name search.
 */
module Filters {
  import opened Catalog

  /** The panel's three dropdowns and its search box; "" selects every value. */
  datatype FilterState = FilterState(rarity: string, faction: string, archetype: string, search: string)

  const NoFilter := FilterState("", "", "", "")

  /** `toLowerCase` on one character (ASCII letters only). */
  function LowerChar(c: char): (d: char)
    ensures !('A' <= d <= 'Z')
    ensures 'A' <= c <= 'Z' ==> d as int == c as int + 32
    ensures !('A' <= c <= 'Z') ==> d == c
  {
    if 'A' <= c <= 'Z' then (c as int + 32) as char else c
  }

  /** `toLowerCase` on a string (ASCII letters only). */
  function Lower(s: string): (r: string)
    ensures |r| == |s|
    ensures forall i :: 0 <= i < |s| ==> r[i] == LowerChar(s[i])
    ensures forall i :: 0 <= i < |r| ==> !('A' <= r[i] <= 'Z')
  {
    seq(|s|, i requires 0 <= i < |s| => LowerChar(s[i]))
  }

  /** t occurs in s starting at position i. */
  predicate OccursAt(s: string, t: string, i: nat)
  {
    i + |t| <= |s| && s[i..i + |t|] == t
  }

  /** `s.includes(t)`: t occurs in s as a contiguous block. */
  predicate Contains(s: string, t: string)
    ensures |t| == 0 ==> Contains(s, t)
    ensures Contains(s, t) ==> |t| <= |s|
  {
    assert |t| == 0 ==> OccursAt(s, t, 0);
    exists i: nat :: i <= |s| && OccursAt(s, t, i)
  }

  /** The predicate handed to `characters.filter` by `applyFilters`. */
  predicate Passes(e: Entry, f: FilterState)
    ensures f == NoFilter ==> Passes(e, f)
    ensures Passes(e, f) ==> |f.search| <= |e.name|
  {
    && (f.rarity == "" || e.rarity == f.rarity)
    && (f.faction == "" || e.faction == f.faction)
    && (f.archetype == "" || e.archetype == f.archetype)
    && Contains(Lower(e.name), Lower(f.search))
  }

  /** `filteredCharacters`: the catalog entries that pass, in catalog order. */
  function ApplyFilters(catalog: seq<Entry>, f: FilterState): (r: seq<Entry>)
    ensures |r| <= |catalog|
    ensures forall e :: e in r ==> e in catalog && Passes(e, f)
  {
    if catalog == [] then []
    else
      var rest := ApplyFilters(catalog[..|catalog| - 1], f);
      var last := catalog[|catalog| - 1];
      if Passes(last, f) then rest + [last] else rest
  }

  /** a can be obtained from b by deleting elements (matched greedily from the end). */
  predicate IsSubsequence<T(==)>(a: seq<T>, b: seq<T>)
    decreases |b|
  {
    if a == [] then true
    else if b == [] then false
    else if a[|a| - 1] == b[|b| - 1] then IsSubsequence(a[..|a| - 1], b[..|b| - 1])
    else IsSubsequence(a, b[..|b| - 1])
  }

  /** Filtering keeps the catalog order. */
  lemma {:induction false} FilterIsSubsequence(catalog: seq<Entry>, f: FilterState)
    ensures IsSubsequence(ApplyFilters(catalog, f), catalog)
  {
    if catalog != [] {
      var init := catalog[..|catalog| - 1];
      FilterIsSubsequence(init, f);
      var rest := ApplyFilters(init, f);
      var last := catalog[|catalog| - 1];
      if !Passes(last, f) {
        SubsequenceDropLast(rest, catalog);
      } else {
        var r := rest + [last];
        assert r[..|r| - 1] == rest;
      }
    }
  }

  lemma {:induction false} SubsequenceDropLast<T>(a: seq<T>, b: seq<T>)
    requires b != [] && IsSubsequence(a, b[..|b| - 1])
    ensures IsSubsequence(a, b)
    decreases |b|, |a|
  {
    if a != [] && a[|a| - 1] == b[|b| - 1] {
      SubsequenceShrink(a, b[..|b| - 1]);
    }
  }

  /** Dropping the last element of a subsequence keeps it a subsequence. */
  lemma {:induction false} SubsequenceShrink<T>(a: seq<T>, b: seq<T>)
    requires a != [] && IsSubsequence(a, b)
    ensures IsSubsequence(a[..|a| - 1], b)
    decreases |b|, |a|
  {
    var a' := a[..|a| - 1];
    if a[|a| - 1] == b[|b| - 1] {
      SubsequenceDropLast(a', b);
    } else {
      SubsequenceShrink(a, b[..|b| - 1]);
      SubsequenceDropLast(a', b);
    }
  }

  /** Every entry that passes is kept as many times as the catalog lists it; the others are dropped. */
  lemma {:induction false} FilterCounts(catalog: seq<Entry>, f: FilterState, e: Entry)
    ensures multiset(ApplyFilters(catalog, f))[e] == if Passes(e, f) then multiset(catalog)[e] else 0
  {
    if catalog != [] {
      var init := catalog[..|catalog| - 1];
      FilterCounts(init, f, e);
      assert catalog == init + [catalog[|catalog| - 1]];
    }
  }

  /** With every facet and the search box empty, the panel shows the whole catalog. */
  lemma {:induction false} NoFilterKeepsAll(catalog: seq<Entry>)
    ensures ApplyFilters(catalog, NoFilter) == catalog
  {
    if catalog != [] {
      var last := catalog[|catalog| - 1];
      NoFilterKeepsAll(catalog[..|catalog| - 1]);
      assert Lower(NoFilter.search) == "";
      assert catalog == catalog[..|catalog| - 1] + [last];
    }
  }

  /** Applying the same filter to its own result changes nothing. */
  lemma {:induction false} FilterIdempotent(catalog: seq<Entry>, f: FilterState)
    ensures ApplyFilters(ApplyFilters(catalog, f), f) == ApplyFilters(catalog, f)
  {
    AllPassKept(ApplyFilters(catalog, f), f);
  }

  lemma {:induction false} AllPassKept(s: seq<Entry>, f: FilterState)
    requires forall e :: e in s ==> Passes(e, f)
    ensures ApplyFilters(s, f) == s
  {
    if s != [] {
      var init := s[..|s| - 1];
      assert forall e :: e in init ==> e in s;
      AllPassKept(init, f);
      assert s == init + [s[|s| - 1]];
    }
  }

  /** Two strings that differ at most in the case of ASCII letters. */
  predicate SameUpToCase(a: string, b: string)
  {
    |a| == |b| && forall i :: 0 <= i < |a| ==> LowerChar(a[i]) == LowerChar(b[i])
  }

  /**
    Whether an entry passes does not depend on the letter case of its name
    or of the search term.
   */
  lemma PassesIgnoresCase(e: Entry, e': Entry, f: FilterState, f': FilterState)
    requires e' == e.(name := e'.name) && SameUpToCase(e.name, e'.name)
    requires f' == f.(search := f'.search) && SameUpToCase(f.search, f'.search)
    ensures Passes(e, f) == Passes(e', f')
  {
    assert Lower(e.name) == Lower(e'.name);
    assert Lower(f.search) == Lower(f'.search);
  }

  /** The search "lu" matches both "Luna" and "BLUE". */
  lemma SearchIgnoresCase()
    ensures Contains(Lower("Luna"), Lower("lu"))
    ensures Contains(Lower("BLUE"), Lower("lu"))
  {
    assert Lower("lu") == "lu";
    assert Lower("Luna") == "luna";
    assert OccursAt(Lower("Luna"), "lu", 0);
    assert Lower("BLUE") == "blue";
    assert OccursAt(Lower("BLUE"), "lu", 1);
  }
}
