/**
  The faction and rarity tallies: dictionaries from a field value to the
  number of placed tokens carrying it, updated by `updateFactionCounter` and
  `updateRarityCounter`.
 */
module Tallies {

  /** No key of the tally holds a count of zero or less. */
  predicate Positive(counts: map<string, int>)
  {
    forall k :: k in counts ==> counts[k] > 0
  }

  /** `counts[key] || 0`. */
  function Get(counts: map<string, int>, key: string): int
  {
    if key in counts then counts[key] else 0
  }

  /**
    Adds `change` to the tally of `key`, a missing key counting as 0, and
    deletes the key once its count drops to 0 or below; an empty key leaves
    the tally alone.
   */
  function UpdateCount(counts: map<string, int>, key: string, change: int): (r: map<string, int>)
    ensures key == "" ==> r == counts
    ensures key != "" ==> (key in r <==> Get(counts, key) + change > 0)
    ensures key != "" && key in r ==> r[key] == Get(counts, key) + change
    ensures forall k :: k != key ==> (k in r <==> k in counts) && (k in r ==> r[k] == counts[k])
    ensures Positive(counts) ==> Positive(r)
  {
    if key == "" then counts
    else
      var v := Get(counts, key) + change;
      if v <= 0 then counts - {key} else counts[key := v]
  }

  /**
    The tally agrees with a recount of the placed tokens' values `bag`: it
    holds exactly the non-empty values that occur, each with its number of
    occurrences.
   */
  ghost predicate Recounts(counts: map<string, int>, bag: multiset<string>)
  {
    forall k :: (k in counts <==> k != "" && bag[k] > 0) && (k in counts ==> counts[k] == bag[k])
  }

  /** The empty tally is the recount of an empty grid. */
  lemma RecountsEmpty()
    ensures Recounts(map[], multiset{})
  {
  }

  /** A tally that agrees with a recount holds only positive counts. */
  lemma RecountsPositive(counts: map<string, int>, bag: multiset<string>)
    requires Recounts(counts, bag)
    ensures Positive(counts)
  {
  }

  /** The recount fixes the tally: two tallies agreeing with one recount are equal. */
  lemma RecountsUnique(a: map<string, int>, b: map<string, int>, bag: multiset<string>)
    requires Recounts(a, bag) && Recounts(b, bag)
    ensures a == b
  {
  }

  /** Counting one more token of `key` keeps the tally in step with the recount. */
  lemma RecountAdd(counts: map<string, int>, bag: multiset<string>, key: string)
    requires Recounts(counts, bag)
    ensures Recounts(UpdateCount(counts, key, 1), bag + multiset{key})
  {
  }

  /** Counting one token of `key` fewer keeps the tally in step with the recount. */
  lemma RecountRemove(counts: map<string, int>, bag: multiset<string>, key: string)
    requires Recounts(counts, bag) && bag[key] > 0
    ensures Recounts(UpdateCount(counts, key, -1), bag - multiset{key})
  {
  }

  /** Counting a value up and down again by the same amount restores the tally. */
  lemma UpdateCountUndo(counts: map<string, int>, key: string, change: int)
    requires Positive(counts) && change > 0
    ensures UpdateCount(UpdateCount(counts, key, change), key, -change) == counts
  {
  }

  /** Removing the last token of a value deletes its key instead of keeping a 0. */
  lemma LastRemovalDeletesKey(counts: map<string, int>, key: string)
    requires key != "" && key in counts && counts[key] == 1
    ensures key !in UpdateCount(counts, key, -1)
  {
  }
}
