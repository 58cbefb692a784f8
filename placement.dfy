/**
  The grid of 35 cells, the troop count capped at 12, and the two synergy
  tallies, with the gestures that change them: dropping a catalog entry on a
  cell, double-clicking an entry to place it on a random empty cell,
  dragging a placed token to another cell, clicking a token to remove it and
  clearing the grid.
 */
module Placement {
  import opened Wrappers
  import opened Catalog
  import opened InstanceIds
  import opened Tallies

  /** Cells the grid is drawn with (7 by 5). */
  const GridSize := 35
  /** Tokens the grid accepts (`MAX_CELLS`). */
  const MaxCells := 12

  /**
    A token placed in a cell: the clone of the panel entry `sourceId`, made
    at time `stamp`, whose element id is built from the two.
   */
  datatype Token = Token(sourceId: string, stamp: nat) {
    function ElementId(): string
    {
      InstanceId(sourceId, stamp)
    }
  }

  /** Where a drag starts: an entry of the catalog panel, or a token already in a cell. */
  datatype DragSource = FromPanel(id: string) | FromCell(cell: nat)

  /** The catalog entry a placed token stands for, looked up from its element id. */
  function EntryOf(catalog: seq<Entry>, t: Token): Option<Entry>
  {
    Find(catalog, ParseId(t.ElementId()))
  }

  /** The value of one field that a placed token adds to its tally. */
  function KeyOf(catalog: seq<Entry>, t: Token, fld: Field): string
  {
    match EntryOf(catalog, t)
    case Some(e) => FieldOf(e, fld)
    case None => ""
  }

  function Contribution(catalog: seq<Entry>, c: Option<Token>, fld: Field): multiset<string>
  {
    match c
    case None => multiset{}
    case Some(t) => multiset{KeyOf(catalog, t, fld)}
  }

  /** The values of one field over every placed token: what a recount of the grid tallies. */
  ghost function Bag(catalog: seq<Entry>, cells: seq<Option<Token>>, fld: Field): multiset<string>
  {
    if cells == [] then multiset{}
    else Bag(catalog, cells[..|cells| - 1], fld) + Contribution(catalog, cells[|cells| - 1], fld)
  }

  /** The number of cells holding a token. */
  function Occupied(cells: seq<Option<Token>>): (n: nat)
    ensures n <= |cells|
  {
    if cells == [] then 0
    else Occupied(cells[..|cells| - 1]) + (if cells[|cells| - 1].Some? then 1 else 0)
  }

  /** Every placed token stands for an entry of the catalog. */
  ghost predicate Resolves(catalog: seq<Entry>, cells: seq<Option<Token>>)
  {
    forall i :: 0 <= i < |cells| && cells[i].Some? ==> EntryOf(catalog, cells[i].value).Some?
  }

  /** The empty cells in grid order (the `emptyCells` list of the double-click shortcut). */
  function EmptyCells(cells: seq<Option<Token>>): (r: seq<nat>)
    ensures |r| == |cells| - Occupied(cells)
    ensures forall k :: 0 <= k < |r| ==> r[k] < |cells| && cells[r[k]].None?
    ensures forall i :: 0 <= i < |cells| && cells[i].None? ==> i in r
    ensures forall j, k :: 0 <= j < k < |r| ==> r[j] < r[k]
  {
    if cells == [] then []
    else
      var init := cells[..|cells| - 1];
      var r := EmptyCells(init);
      assert forall i :: 0 <= i < |init| ==> init[i] == cells[i];
      if cells[|cells| - 1].None? then r + [|cells| - 1] else r
  }

  /** Occupancy and the recount split over a concatenation of cells. */
  lemma {:induction false} SplitAt(catalog: seq<Entry>, a: seq<Option<Token>>, b: seq<Option<Token>>)
    ensures Occupied(a + b) == Occupied(a) + Occupied(b)
    ensures forall fld :: Bag(catalog, a + b, fld) == Bag(catalog, a, fld) + Bag(catalog, b, fld)
    decreases |b|
  {
    if b != [] {
      var b' := b[..|b| - 1];
      assert (a + b)[..|a + b| - 1] == a + b';
      SplitAt(catalog, a, b');
    } else {
      assert a + b == a;
    }
  }

  /** Writing v into cell i exchanges that cell's share of the occupancy and the recount. */
  lemma UpdateAt(catalog: seq<Entry>, cells: seq<Option<Token>>, i: nat, v: Option<Token>)
    requires i < |cells|
    ensures Occupied(cells[i := v]) + (if cells[i].Some? then 1 else 0) == Occupied(cells) + (if v.Some? then 1 else 0)
    ensures forall fld :: Bag(catalog, cells[i := v], fld) + Contribution(catalog, cells[i], fld)
                          == Bag(catalog, cells, fld) + Contribution(catalog, v, fld)
  {
    var pre, post := cells[..i], cells[i + 1..];
    assert cells == pre + [cells[i]] + post;
    assert cells[i := v] == pre + [v] + post;
    SplitAt(catalog, pre, [cells[i]]);
    SplitAt(catalog, pre + [cells[i]], post);
    SplitAt(catalog, pre, [v]);
    SplitAt(catalog, pre + [v], post);
    assert [cells[i]][..0] == [] && [v][..0] == [];
  }

  /** Exchanging the contents of two cells changes neither the occupancy nor the recount. */
  lemma SwapKeepsCounts(catalog: seq<Entry>, cells: seq<Option<Token>>, a: nat, b: nat)
    requires a < |cells| && b < |cells|
    ensures var swapped := cells[a := cells[b]][b := cells[a]];
      && Occupied(swapped) == Occupied(cells)
      && (forall fld :: Bag(catalog, swapped, fld) == Bag(catalog, cells, fld))
      && (Resolves(catalog, cells) ==> Resolves(catalog, swapped))
  {
    var once := cells[a := cells[b]];
    var swapped := once[b := cells[a]];
    UpdateAt(catalog, cells, a, cells[b]);
    UpdateAt(catalog, once, b, cells[a]);
    if a == b {
      assert swapped == cells;
    } else {
      forall fld
        ensures Bag(catalog, swapped, fld) == Bag(catalog, cells, fld)
      {
        var c := Contribution(catalog, cells[b], fld);
        assert Bag(catalog, swapped, fld) + c == Bag(catalog, cells, fld) + c;
        Cancel(Bag(catalog, swapped, fld), Bag(catalog, cells, fld), c);
      }
    }
  }

  lemma Cancel(x: multiset<string>, y: multiset<string>, c: multiset<string>)
    requires x + c == y + c
    ensures x == y
  {
    forall o
      ensures x[o] == y[o]
    {
      assert (x + c)[o] == (y + c)[o];
    }
  }

  /** Placing token t into the empty cell i adds one troop and one occurrence of its value to the recount. */
  lemma PlaceKeepsRecount(catalog: seq<Entry>, cells: seq<Option<Token>>, i: nat, t: Token,
                          counts: map<string, int>, fld: Field)
    requires i < |cells| && cells[i].None?
    requires Recounts(counts, Bag(catalog, cells, fld))
    ensures Occupied(cells[i := Some(t)]) == Occupied(cells) + 1
    ensures Recounts(UpdateCount(counts, KeyOf(catalog, t, fld), 1), Bag(catalog, cells[i := Some(t)], fld))
  {
    UpdateAt(catalog, cells, i, Some(t));
    RecountAdd(counts, Bag(catalog, cells, fld), KeyOf(catalog, t, fld));
  }

  /** Emptying the occupied cell i takes one troop and one occurrence of its value off the recount. */
  lemma RemoveKeepsRecount(catalog: seq<Entry>, cells: seq<Option<Token>>, i: nat,
                           counts: map<string, int>, fld: Field)
    requires i < |cells| && cells[i].Some?
    requires Recounts(counts, Bag(catalog, cells, fld))
    ensures Occupied(cells[i := None]) == Occupied(cells) - 1
    ensures Recounts(UpdateCount(counts, KeyOf(catalog, cells[i].value, fld), -1), Bag(catalog, cells[i := None], fld))
  {
    var k := KeyOf(catalog, cells[i].value, fld);
    UpdateAt(catalog, cells, i, None);
    assert Bag(catalog, cells, fld) == Bag(catalog, cells[i := None], fld) + multiset{k};
    RecountRemove(counts, Bag(catalog, cells, fld), k);
  }

  /** A grid with every cell empty holds nothing and recounts to nothing. */
  lemma {:induction false} AllEmpty(catalog: seq<Entry>, cells: seq<Option<Token>>)
    requires forall i :: 0 <= i < |cells| ==> cells[i].None?
    ensures Occupied(cells) == 0
    ensures forall fld :: Bag(catalog, cells, fld) == multiset{}
  {
    if cells != [] {
      AllEmpty(catalog, cells[..|cells| - 1]);
    }
  }

  /** No value is recounted more often than there are placed tokens. */
  lemma {:induction false} BagWithinOccupied(catalog: seq<Entry>, cells: seq<Option<Token>>, fld: Field, k: string)
    ensures Bag(catalog, cells, fld)[k] <= Occupied(cells)
  {
    if cells != [] {
      BagWithinOccupied(catalog, cells[..|cells| - 1], fld, k);
    }
  }

  /** Every tallied count is at most the troop count, so at most 12. */
  lemma TallyWithinTroops(catalog: seq<Entry>, cells: seq<Option<Token>>, counts: map<string, int>, fld: Field)
    requires Recounts(counts, Bag(catalog, cells, fld))
    ensures forall k :: k in counts ==> 0 < counts[k] <= Occupied(cells)
  {
    forall k | k in counts
      ensures counts[k] <= Occupied(cells)
    {
      BagWithinOccupied(catalog, cells, fld, k);
    }
  }

  class Grid {
    /** The loaded catalog (`characters`). */
    const catalog: seq<Entry>
    /** The grid's cells, each empty or holding one token. */
    const cells: array<Option<Token>>
    /** `occupiedCells`. */
    var occupiedCells: int
    /** `factionCounts`. */
    var factionCounts: map<string, int>
    /** `rarityCounts`. */
    var rarityCounts: map<string, int>

    /**
      The bookkeeping invariant: the troop count is the number of occupied
      cells and at most 12, every token stands for a catalog entry, and both
      tallies equal a recount over the grid.
     */
    ghost predicate Valid()
      reads this, cells
    {
      && cells.Length == GridSize
      && occupiedCells == Occupied(cells[..])
      && occupiedCells <= MaxCells
      && Resolves(catalog, cells[..])
      && Recounts(factionCounts, Bag(catalog, cells[..], Faction))
      && Recounts(rarityCounts, Bag(catalog, cells[..], Rarity))
    }

    /** The page after `createGrid` and the initialisation of the globals. */
    constructor (catalog: seq<Entry>)
      ensures Valid() && fresh(cells) && this.catalog == catalog
      ensures forall i :: 0 <= i < GridSize ==> cells[i] == None
      ensures occupiedCells == 0 && factionCounts == map[] && rarityCounts == map[]
    {
      this.catalog := catalog;
      cells := new Option<Token>[GridSize](_ => None);
      occupiedCells := 0;
      factionCounts := map[];
      rarityCounts := map[];
      new;
      AllEmpty(catalog, cells[..]);
    }

    /** `updateFactionCounter`. */
    method UpdateFactionCounter(faction: string, change: int)
      modifies this`factionCounts
      ensures factionCounts == UpdateCount(old(factionCounts), faction, change)
    {
      factionCounts := UpdateCount(factionCounts, faction, change);
    }

    /** `updateRarityCounter`. */
    method UpdateRarityCounter(rarity: string, change: int)
      modifies this`rarityCounts
      ensures rarityCounts == UpdateCount(old(rarityCounts), rarity, change)
    {
      rarityCounts := UpdateCount(rarityCounts, rarity, change);
    }

    /** Puts a new token for catalog entry `id` into the empty cell `target` and counts it. */
    method Place(target: nat, id: string, stamp: nat)
      requires Valid() && target < GridSize && Find(catalog, id).Some?
      requires cells[target].None? && occupiedCells < MaxCells
      modifies this, cells
      ensures Valid()
      ensures cells[..] == old(cells[..])[target := Some(Token(id, stamp))]
      ensures occupiedCells == old(occupiedCells) + 1
      ensures factionCounts == UpdateCount(old(factionCounts), Find(catalog, id).value.faction, 1)
      ensures rarityCounts == UpdateCount(old(rarityCounts), Find(catalog, id).value.rarity, 1)
    {
      ghost var before := cells[..];
      var t := Token(id, stamp);
      cells[target] := Some(t);
      occupiedCells := occupiedCells + 1;
      var e := Find(catalog, id).value;
      UpdateFactionCounter(e.faction, 1);
      UpdateRarityCounter(e.rarity, 1);

      ParseIdRoundTrip(id, stamp);
      assert EntryOf(catalog, t) == Some(e);
      assert cells[..] == before[target := Some(t)];
      PlaceKeepsRecount(catalog, before, target, t, old(factionCounts), Faction);
      PlaceKeepsRecount(catalog, before, target, t, old(rarityCounts), Rarity);
    }

    /**
      Dropping catalog entry `id` from the panel onto cell `target`: refused,
      changing nothing, when the cell is occupied or 12 troops are deployed.
     */
    method AddFromPanel(target: nat, id: string, stamp: nat) returns (placed: bool)
      requires Valid() && target < GridSize && Find(catalog, id).Some?
      modifies this, cells
      ensures Valid()
      ensures placed <==> old(cells[target]).None? && old(occupiedCells) < MaxCells
      ensures placed ==>
        && cells[..] == old(cells[..])[target := Some(Token(id, stamp))]
        && occupiedCells == old(occupiedCells) + 1
        && factionCounts == UpdateCount(old(factionCounts), Find(catalog, id).value.faction, 1)
        && rarityCounts == UpdateCount(old(rarityCounts), Find(catalog, id).value.rarity, 1)
      ensures !placed ==> unchanged(this, cells)
    {
      placed := cells[target].None? && occupiedCells < MaxCells;
      if placed {
        Place(target, id, stamp);
      }
    }

    /**
      Double-clicking catalog entry `id`: refused, changing nothing, when no
      cell is empty or 12 troops are deployed; otherwise the entry goes to the
      empty cell at position `pick` of the list of empty cells, `pick` being
      the random choice.
     */
    method PlaceRandomly(id: string, stamp: nat, pick: nat) returns (placed: bool)
      requires Valid() && Find(catalog, id).Some?
      requires EmptyCells(cells[..]) != [] ==> pick < |EmptyCells(cells[..])|
      modifies this, cells
      ensures Valid()
      ensures placed <==> old(occupiedCells) < MaxCells
      ensures placed ==>
        var target := EmptyCells(old(cells[..]))[pick];
        && old(cells[target]).None?
        && cells[..] == old(cells[..])[target := Some(Token(id, stamp))]
        && occupiedCells == old(occupiedCells) + 1
        && factionCounts == UpdateCount(old(factionCounts), Find(catalog, id).value.faction, 1)
        && rarityCounts == UpdateCount(old(rarityCounts), Find(catalog, id).value.rarity, 1)
      ensures !placed ==> unchanged(this, cells)
    {
      var emptyCells := EmptyCells(cells[..]);
      if |emptyCells| == 0 || occupiedCells >= MaxCells {
        placed := false;
        return;
      }
      var target := emptyCells[pick];
      Place(target, id, stamp);
      placed := true;
    }

    /**
      Dragging the token in cell `source` onto cell `target`: onto itself
      nothing happens, onto an empty cell the token moves, onto an occupied
      cell the two tokens change places. Counts and tallies never change.
     */
    method MoveBetweenCells(source: nat, target: nat)
      requires Valid() && source < GridSize && target < GridSize
      requires cells[source].Some?
      modifies cells
      ensures Valid()
      ensures source == target ==> cells[..] == old(cells[..])
      ensures source != target && old(cells[target]).None? ==>
        cells[..] == old(cells[..])[target := old(cells[source])][source := None]
      ensures source != target && old(cells[target]).Some? ==>
        cells[..] == old(cells[..])[source := old(cells[target])][target := old(cells[source])]
      ensures occupiedCells == old(occupiedCells)
      ensures factionCounts == old(factionCounts) && rarityCounts == old(rarityCounts)
    {
      if target != source {
        ghost var before := cells[..];
        SwapKeepsCounts(catalog, before, source, target);
        var dragged := cells[source].value;
        if cells[target].Some? {
          var targetToken := cells[target].value;
          cells[source] := Some(targetToken);
          cells[target] := Some(dragged);
          assert cells[..] == before[source := before[target]][target := before[source]];
        } else {
          cells[target] := Some(dragged);
          cells[source] := None;
          assert cells[..] == before[source := before[target]][target := before[source]];
        }
      }
    }

    /** `drop`: a drag from the panel adds, a drag from a cell moves or swaps. */
    method Drop(src: DragSource, target: nat, stamp: nat)
      requires Valid() && target < GridSize
      requires src.FromPanel? ==> Find(catalog, src.id).Some?
      requires src.FromCell? ==> src.cell < GridSize && cells[src.cell].Some?
      modifies this, cells
      ensures Valid()
      ensures src.FromCell? ==>
        && occupiedCells == old(occupiedCells)
        && factionCounts == old(factionCounts) && rarityCounts == old(rarityCounts)
      ensures src.FromCell? && src.cell == target ==> cells[..] == old(cells[..])
      ensures src.FromCell? && src.cell != target ==>
        cells[..] == old(cells[..])[src.cell := old(cells[target])][target := old(cells[src.cell])]
      ensures src.FromPanel? && !(old(cells[target]).None? && old(occupiedCells) < MaxCells) ==>
        unchanged(this, cells)
      ensures src.FromPanel? && old(cells[target]).None? && old(occupiedCells) < MaxCells ==>
        && cells[..] == old(cells[..])[target := Some(Token(src.id, stamp))]
        && occupiedCells == old(occupiedCells) + 1
        && factionCounts == UpdateCount(old(factionCounts), Find(catalog, src.id).value.faction, 1)
        && rarityCounts == UpdateCount(old(rarityCounts), Find(catalog, src.id).value.rarity, 1)
    {
      match src
      case FromCell(source) =>
        MoveBetweenCells(source, target);
      case FromPanel(id) =>
        var _ := AddFromPanel(target, id, stamp);
    }

    /**
      Clicking the token in `cell`: it is taken off the grid, the troop count
      drops by one and its faction and rarity are counted down. A click on
      an empty cell changes nothing.
     */
    method Remove(cell: nat) returns (removed: bool)
      requires Valid() && cell < GridSize
      modifies this, cells
      ensures Valid()
      ensures removed <==> old(cells[cell]).Some?
      ensures removed ==>
        var e := EntryOf(catalog, old(cells[cell]).value);
        && e.Some?
        && cells[..] == old(cells[..])[cell := None]
        && occupiedCells == old(occupiedCells) - 1
        && factionCounts == UpdateCount(old(factionCounts), e.value.faction, -1)
        && rarityCounts == UpdateCount(old(rarityCounts), e.value.rarity, -1)
      ensures !removed ==> unchanged(this, cells)
    {
      removed := cells[cell].Some?;
      if removed {
        ghost var before := cells[..];
        var t := cells[cell].value;
        var originalId := ParseId(t.ElementId());
        assert before[cell] == Some(t);
        var e := Find(catalog, originalId).value;
        UpdateFactionCounter(e.faction, -1);
        UpdateRarityCounter(e.rarity, -1);
        cells[cell] := None;
        occupiedCells := occupiedCells - 1;

        assert cells[..] == before[cell := None];
        assert KeyOf(catalog, t, Faction) == e.faction && KeyOf(catalog, t, Rarity) == e.rarity;
        RemoveKeepsRecount(catalog, before, cell, old(factionCounts), Faction);
        RemoveKeepsRecount(catalog, before, cell, old(rarityCounts), Rarity);
      }
    }

    /** `clearGrid`: empties every cell and resets the count and both tallies, from any state. */
    method Clear()
      requires cells.Length == GridSize
      modifies this, cells
      ensures Valid()
      ensures forall i :: 0 <= i < cells.Length ==> cells[i] == None
      ensures occupiedCells == 0 && factionCounts == map[] && rarityCounts == map[]
    {
      for i := 0 to cells.Length
        invariant forall k :: 0 <= k < i ==> cells[k] == None
      {
        cells[i] := None;
      }
      occupiedCells := 0;
      factionCounts := map[];
      rarityCounts := map[];
      AllEmpty(catalog, cells[..]);
    }
  }
}
