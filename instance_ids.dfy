/**
  Ids of placed tokens. A token placed from the catalog entry with id `id`
  gets the element id `id + '-' + Date.now()`; removing it recovers the
  catalog id from that string.
 */
module InstanceIds {

  predicate IsDigit(c: char)
  {
    '0' <= c <= '9'
  }

  /** The decimal rendering of a timestamp, as `String(Date.now())` produces it. */
  function Digits(n: nat): (r: string)
    ensures |r| > 0
    ensures forall i :: 0 <= i < |r| ==> IsDigit(r[i])
    decreases n
  {
    var d := [('0' as int + n % 10) as char];
    if n < 10 then d else Digits(n / 10) + d
  }

  /** The element id given to a token placed at time `stamp`. */
  function InstanceId(id: string, stamp: nat): (r: string)
    ensures |r| > |id| && r[..|id|] == id && r[|id|] == '-'
  {
    id + "-" + Digits(stamp)
  }

  /** `s.split('-')[0]`: everything before the first '-' (all of s if it has none). */
  function SplitHead(s: string): (r: string)
    ensures |r| <= |s| && r == s[..|r|]
    ensures '-' !in r
    ensures |r| < |s| ==> s[|r|] == '-'
  {
    if s == [] || s[0] == '-' then ""
    else
      var r := [s[0]] + SplitHead(s[1..]);
      assert s[..|r|] == [s[0]] + s[1..][..|r| - 1];
      r
  }

  /** Everything before the last '-' (all of s if it has none). */
  function ParseId(s: string): (r: string)
    ensures |r| <= |s| && r == s[..|r|]
    ensures '-' in s ==> |r| < |s| && s[|r|] == '-' && '-' !in s[|r| + 1..]
    ensures '-' !in s ==> r == s
  {
    if '-' !in s then s
    else if s[|s| - 1] == '-' then s[..|s| - 1]
    else
      var init := s[..|s| - 1];
      assert '-' in init;
      var r := ParseId(init);
      assert s[|r| + 1..] == init[|r| + 1..] + [s[|s| - 1]];
      r
  }

  /** The id a token was placed with is recovered from its element id, whatever characters the id holds. */
  lemma ParseIdRoundTrip(id: string, stamp: nat)
    ensures ParseId(InstanceId(id, stamp)) == id
  {
  }

  /** The source's `split('-')[0]` recovers the id when the id holds no '-'. */
  lemma SplitHeadRoundTrip(id: string, stamp: nat)
    requires '-' !in id
    ensures SplitHead(InstanceId(id, stamp)) == id
  {
  }

  /** Both readings agree on every element id built from a catalog id without '-'. */
  lemma ParsersAgreeWithoutDash(id: string, stamp: nat)
    requires '-' !in id
    ensures SplitHead(InstanceId(id, stamp)) == ParseId(InstanceId(id, stamp))
  {
  }

  /** A catalog id holding '-' is cut short by `split('-')[0]`: "a-b" comes back as "a". */
  lemma SplitHeadLosesDashedId(stamp: nat)
    ensures SplitHead(InstanceId("a-b", stamp)) == "a"
    ensures ParseId(InstanceId("a-b", stamp)) == "a-b"
  {
  }
}
