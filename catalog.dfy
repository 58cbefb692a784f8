/**
  The catalog of placeable characters, loaded once from the data file and
  never changed afterwards.
 */
module Catalog {
  import opened Wrappers

  /** One character record: every field is a string in the data file. */
  datatype Entry = Entry(id: string, name: string, rarity: string, faction: string, archetype: string)

  /** The facets an entry can be filtered and tallied by. */
  datatype Field = Rarity | Faction | Archetype

  function FieldOf(e: Entry, fld: Field): string
  {
    match fld
    case Rarity => e.rarity
    case Faction => e.faction
    case Archetype => e.archetype
  }

  /** `characters.find(char => char.id === id)`: the first entry with that id, if any. */
  function Find(catalog: seq<Entry>, id: string): (r: Option<Entry>)
    ensures r.Some? <==> exists e :: e in catalog && e.id == id
    ensures r.Some? ==> r.value in catalog && r.value.id == id
  {
    if catalog == [] then None
    else if catalog[0].id == id then Some(catalog[0])
    else Find(catalog[1..], id)
  }

  /** The entry found is the earliest one carrying that id. */
  lemma {:induction false} FindFirst(catalog: seq<Entry>, id: string, i: nat)
    requires i < |catalog| && catalog[i].id == id
    requires forall j :: 0 <= j < i ==> catalog[j].id != id
    ensures Find(catalog, id) == Some(catalog[i])
  {
    if i > 0 {
      assert catalog[0].id != id;
      FindFirst(catalog[1..], id, i - 1);
    }
  }
}
