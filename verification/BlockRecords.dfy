/** The block records in memory, reached by masking an address (`get_block_ptr` and the wrappers around it). */
module BlockRecords {
  import opened Wrappers
  import opened Objects
  import opened BlockLines
  import opened BlockInfos
  import opened BlockTables
  import opened SweepModel

  class BlockTable {
    var infos: map<nat, BlockInfo>

    ghost predicate Valid()
      reads this
    {
      forall a, b :: a in infos && b in infos && a != b ==> infos[a] != infos[b]
    }

    /** The record objects. */
    ghost function Cells(): set<object>
      reads this
    {
      set b | b in infos :: infos[b]
    }

    ghost function Blocks(): Blocks
      reads this, Cells()
    {
      map b | b in infos :: infos[b].View()
    }

    lemma KeysAre()
      ensures Blocks().Keys == infos.Keys
    {
    }

    constructor ()
      ensures Valid() && Blocks() == map[] && Cells() == {}
    {
      infos := map[];
    }

    /** Writes an empty record at the start of a block that is new to the table. */
    method Build(b: nat)
      requires Valid() && b !in infos
      modifies this
      ensures Valid() && Blocks() == old(Blocks())[b := EmptyBlock()] && infos.Keys == old(infos).Keys + {b}
      ensures fresh(Cells() - old(Cells())) && old(Cells()) <= Cells()
    {
      var info := new BlockInfo();
      infos := infos[b := info];
      assert infos[b] == info && forall a :: a in old(infos) ==> infos[a] == old(infos)[a];
    }

    method SetAllocated(b: nat)
      requires Valid() && b in infos
      modifies Cells()
      ensures Blocks() == old(Blocks())[b := old(Blocks())[b].(inUse := true)]
    {
      infos[b].SetAllocated();
    }

    method SetGcObject(o: Ref)
      requires Valid() && o.Immix? && o.block in infos
      modifies Cells()
      ensures Blocks() == SetGc(old(Blocks()), o)
    {
      infos[o.block].SetGcObject(o.offset);
    }

    method UnsetGcObject(o: Ref)
      requires Valid() && o.Immix? && o.block in infos
      modifies Cells()
      ensures Blocks() == UnsetGc(old(Blocks()), o)
    {
      infos[o.block].UnsetGcObject(o.offset);
    }

    method SetNewObject(o: Ref)
      requires Valid() && o.Immix? && o.block in infos
      modifies Cells()
      ensures Blocks() == SetNew(old(Blocks()), o)
    {
      infos[o.block].SetNewObject(o.offset);
    }

    /** Addresses outside of the space, and in blocks without a record, are not valid. */
    method IsGcObject(o: Ref) returns (r: bool)
      requires Valid()
      ensures r <==> IsGc(Blocks(), o)
    {
      if o.Immix? && o.block in infos {
        r := infos[o.block].IsGcObject(o.offset);
      } else {
        r := false;
      }
    }

    method IncrementLines(o: Ref, size: nat)
      requires Valid() && o.Immix? && o.block in infos && Fits(o.offset, size)
      modifies Cells()
      ensures Blocks() == IncLines(old(Blocks()), o, size)
    {
      infos[o.block].UpdateLineNums(o.offset, size, true);
    }

    method DecrementLines(o: Ref, size: nat)
      requires Valid() && o.Immix? && o.block in infos && Fits(o.offset, size)
      modifies Cells()
      ensures Blocks() == DecLines(old(Blocks()), o, size)
    {
      infos[o.block].UpdateLineNums(o.offset, size, false);
    }

    method RemoveNewObjectsFromMap(b: nat)
      requires Valid() && b in infos
      modifies Cells()
      ensures Blocks() == old(Blocks())[b := RemoveNew(old(Blocks())[b])]
    {
      infos[b].RemoveNewObjectsFromMap();
    }

    method ClearRecord(b: nat)
      requires Valid() && b in infos
      modifies Cells()
      ensures Blocks() == old(Blocks())[b := SweepModel.ClearRecord(old(Blocks())[b])]
    {
      infos[b].ClearLineCounts();
      infos[b].ClearObjectMap();
    }

    method SetEvacuationCandidate(b: nat, holes: nat)
      requires Valid() && b in infos
      modifies Cells()
      ensures Blocks() == old(Blocks())[b := MarkCandidate(old(Blocks())[b], holes)]
    {
      infos[b].SetEvacuationCandidate(holes);
    }

    method IsEvacuationCandidate(b: nat) returns (r: bool)
      requires Valid() && b in infos
      ensures r == Blocks()[b].candidate
    {
      r := infos[b].evacuationCandidate;
    }

    method Reset(b: nat)
      requires Valid() && b in infos
      modifies Cells()
      ensures Blocks() == old(Blocks())[b := ResetBlock(old(Blocks())[b])]
    {
      infos[b].Reset();
    }

    method CountHoles(b: nat)
      requires Valid() && b in infos
      modifies Cells()
      ensures Blocks() == old(Blocks())[b := old(Blocks())[b].(holes := HolesFrom(old(Blocks())[b].lines, 0))]
    {
      infos[b].CountHoles();
    }

    method IsEmpty(b: nat) returns (r: bool)
      requires Valid() && b in infos
      ensures r <==> AllFree(Blocks()[b].lines)
      ensures Blocks() == old(Blocks())
    {
      r := infos[b].IsEmpty();
    }

    method ScanBlock(b: nat, lastHigh: nat) returns (hole: Option<Hole>)
      requires Valid() && b in infos
      ensures hole == FindHole(Blocks()[b].lines, lastHigh)
    {
      hole := infos[b].ScanBlock(lastHigh);
    }

    method CountHolesAndMarkedLines(b: nat) returns (holes: nat, marked: nat)
      requires Valid() && b in infos
      ensures holes == Blocks()[b].holes && marked == MarkedLines(Blocks()[b])
      ensures Blocks() == old(Blocks())
    {
      holes, marked := infos[b].CountHolesAndMarkedLines();
    }

    method CountHolesAndAvailableLines(b: nat) returns (holes: nat, available: nat)
      requires Valid() && b in infos
      ensures holes == Blocks()[b].holes && available == AvailableLines(Blocks()[b])
      ensures Blocks() == old(Blocks())
    {
      holes, available := infos[b].CountHolesAndAvailableLines();
    }
  }
}
