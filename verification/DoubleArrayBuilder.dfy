/**
  The double-array builder: slot allocation, and placement of a node's children.
 */
module DoubleArrayBuilders {
  import opened Bitwise
  import opened Dictionary
  import opened UnitWords
  import opened FreeList
  import opened Layouts
  import opened Blocks
  import opened BuilderState
  import opened DoubleArraySearch
  import opened Keysets
  import opened KeysetRanges
  import opened BitVectors
  import opened DawgLevels
  import opened DawgGraphs
  import opened DawgBuilders
  import opened DawgStores
  import opened DawgWalks
  import opened DawgStates
  import opened KeyWeights
  import opened DawgRuns
  import opened Reports
  import opened GraphRuns

  const NUM_EXTRA_BLOCKS: nat := 16

  class DoubleArrayBuilder {
    var units: seq<nat>
    const extras: array<ExtraUnit>
    var labels: seq<Byte>
    var extrasHead: nat
    var table: seq<nat>

    // The unfixed units of the window, what the units are for, and the units
    // that are reserved but not written yet.
    ghost var free: seq<nat>
    ghost var plan: Plan
    ghost var limbo: set<nat>

    ghost predicate Valid()
      reads this, extras
    {
      && extras.Length == NUM_EXTRAS
      && State(units, extras[..], extrasHead, free, plan, limbo)
    }

    /** Between two placements: nothing is half done and fillers are out of reach. */
    ghost predicate AtRest()
      reads this`limbo, this`units, this`plan
    {
      limbo == {} && FillersLeft(|units|, plan) && OwnersPlaced(plan)
    }

    constructor ()
      ensures Valid() && AtRest() && fresh(extras)
      ensures units == [] && free == [] && plan == EMPTY_PLAN
    {
      units := [];
      labels := [];
      extrasHead := 0;
      table := [];
      extras := new ExtraUnit[NUM_EXTRAS](_ => NEW_EXTRA);
      free := [];
      plan := EMPTY_PLAN;
      limbo := {};
    }

    /** The part of reserve_id that takes a record out of the list. */
    method UnlinkRecord(id: nat)
      requires extras.Length == NUM_EXTRAS
      modifies this`extrasHead, extras
      ensures extras[..] == Unlink(old(extras[..]), id)
      ensures extrasHead == UnlinkedHead(old(extras[..]), old(extrasHead), |units|, id)
    {
      var slot := id % NUM_EXTRAS;
      if id == extrasHead {
        extrasHead := extras[slot].next;
        if extrasHead == id {
          extrasHead := |units|;
        }
      }
      var p := extras[slot].prev % NUM_EXTRAS;
      extras[p] := extras[p].(next := extras[slot].next);
      var n := extras[slot].next % NUM_EXTRAS;
      extras[n] := extras[n].(prev := extras[slot].prev);
      extras[slot] := extras[slot].(isFixed := true);
    }

    /** Unit id has just been taken out of the list: to do it again would change nothing. */
    ghost predicate OutOfList(id: nat)
      reads this`extrasHead, extras
    {
      extras.Length == NUM_EXTRAS && Unlink(extras[..], id) == extras[..] && extrasHead != id
    }

    /** Fixes unit id, adding a block first when it lies beyond the last one. */
    method ReserveId(id: nat)
      requires Valid()
      requires id in free || (|units| <= id < |units| + BLOCK_SIZE && limbo == {} && 0 !in free)
      modifies this`units, this`extrasHead, this`free, this`plan, this`limbo, extras
      ensures Valid() && limbo == old(limbo) + {id}
      ensures id < old(|units|) ==>
        && units == old(units) && plan == old(plan)
        && forall x :: x in free <==> x in old(free) && x != id
      ensures id >= old(|units|) ==>
        && |units| == old(|units|) + BLOCK_SIZE
        && Kept(old(units), old(free), old(plan), units, plan)
        && (FillersLeft(old(|units|), old(plan)) ==> FillersLeft(|units|, plan))
        && (forall x :: x in free ==> x in old(free) || x >= old(|units|))
        && (forall x :: x in free <== old(|units|) <= x < |units| && x != id)
      ensures OutOfList(id)
      decreases if id >= |units| then 3 else 0
    {
      hide State, Unlink, UnlinkedHead, Remove;
      FreeInside(units, extras[..], extrasHead, free, plan, limbo);
      if id >= |units| {
        ExpandUnits();
      }
      assert id in free;
      ghost var k :| 0 <= k < |free| && free[k] == id;
      ReserveState(units, extras[..], extrasHead, free, plan, limbo, k);
      UnlinkTwice(extras[..], id);
      HeadMoves(extras[..], extrasHead, |units|, id);
      UnlinkRecord(id);
      free, limbo := Remove(free, k), limbo + {id};
    }

    method ExpandUnits()
      requires Valid() && limbo == {} && 0 !in free
      modifies this`units, this`extrasHead, this`free, this`plan, this`limbo, extras
      ensures Valid() && limbo == {}
      ensures |units| == old(|units|) + 256
      ensures Kept(old(units), old(free), old(plan), units, plan)
      ensures FillersLeft(old(|units|), old(plan)) ==> FillersLeft(|units|, plan)
      ensures forall x: nat :: x in free <==>
        (x in old(free) && x + 4096 >= old(|units|) + 256) || old(|units|) <= x < |units|
      decreases 2
    {
      hide State, BlockAppended, Kept, Layout, BlockIds, FillersLeft;
      var srcNumUnits := |units|;
      var srcNumBlocks := srcNumUnits / BLOCK_SIZE;
      var destNumUnits := srcNumUnits + BLOCK_SIZE;
      var destNumBlocks := srcNumBlocks + 1;
      FreeInside(units, extras[..], extrasHead, free, plan, limbo);
      KeptSame(units, free, plan);
      if destNumBlocks > NUM_EXTRA_BLOCKS {
        FixBlock(srcNumBlocks - NUM_EXTRA_BLOCKS);
      }
      HeadInside(units, extras[..], extrasHead, free, plan, limbo);
      BlocksLeft(old(free), free, srcNumUnits);
      WindowLeft(old(free), free, srcNumUnits);
      ghost var before := extras[..];
      AppendRecords(srcNumUnits, destNumBlocks > NUM_EXTRA_BLOCKS);
      AppendBlockState(units, before, extras[..], extrasHead, free, plan, seq(BLOCK_SIZE, _ => 0));
      KeptExtend(old(units), old(free), old(plan), units, plan, seq(BLOCK_SIZE, _ => 0));
      units := units + seq(BLOCK_SIZE, _ => 0);
      BlockIdsMembers(srcNumUnits);
      if FillersLeft(srcNumUnits, old(plan)) {
        FillersLeave(old(plan), plan, srcNumUnits);
      }
      free := free + BlockIds(srcNumUnits);
    }

    /** Clears the flags of the records of a block. */
    method ResetRecords(size: nat)
      requires extras.Length == NUM_EXTRAS && size % BLOCK_SIZE == 0
      modifies extras
      ensures var base := size % NUM_EXTRAS; forall j :: 0 <= j < NUM_EXTRAS ==>
        if base <= j < base + BLOCK_SIZE then !extras[j].isFixed && !extras[j].isUsed
        else extras[j] == old(extras[j])
    {
      ghost var base := size % NUM_EXTRAS;
      for id := size to size + BLOCK_SIZE
        invariant forall j :: 0 <= j < NUM_EXTRAS ==>
          if base <= j < base + (id - size) then !extras[j].isFixed && !extras[j].isUsed
          else extras[j] == old(extras[j])
      {
        BlockSlots(size, id - size);
        var slot := id % NUM_EXTRAS;
        extras[slot] := extras[slot].(isUsed := false, isFixed := false);
      }
    }

    /** Links the records of a block to each other. */
    method ChainRecords(size: nat)
      requires extras.Length == NUM_EXTRAS && size % BLOCK_SIZE == 0
      requires size % NUM_EXTRAS + BLOCK_SIZE <= NUM_EXTRAS
      requires var base := size % NUM_EXTRAS;
        forall j :: base <= j < base + BLOCK_SIZE ==> !extras[j].isFixed && !extras[j].isUsed
      modifies extras
      ensures Chained(old(extras[..]), extras[..], size % NUM_EXTRAS, size, BLOCK_SIZE)
    {
      ghost var base := size % NUM_EXTRAS;
      BlockSlots(size, 0);
      for i := size + 1 to size + BLOCK_SIZE
        invariant forall j :: 0 <= j < NUM_EXTRAS && !(base <= j < base + (i - size)) ==> extras[j] == old(extras[j])
        invariant forall j :: base <= j < base + (i - size) ==> !extras[j].isFixed && !extras[j].isUsed
        invariant forall j :: base < j < base + (i - size) ==> extras[j].prev == size + (j - base) - 1
        invariant forall j :: base <= j < base + (i - size) - 1 ==> extras[j].next == size + (j - base) + 1
      {
        BlockSlots(size, i - 1 - size);
        BlockSlots(size, i - size);
        ChainPair(i);
      }
    }

    method ChainPair(i: nat)
      requires extras.Length == NUM_EXTRAS && 0 < i
      requires (i - 1) % NUM_EXTRAS != i % NUM_EXTRAS
      modifies extras
      ensures var a, b := (i - 1) % NUM_EXTRAS, i % NUM_EXTRAS;
        extras[..] == old(extras[..])[a := old(extras[a]).(next := i)][b := old(extras[b]).(prev := i - 1)]
    {
      extras[(i - 1) % NUM_EXTRAS] := extras[(i - 1) % NUM_EXTRAS].(next := i);
      extras[i % NUM_EXTRAS] := extras[i % NUM_EXTRAS].(prev := i - 1);
    }

    method SpliceRecords(size: nat)
      requires extras.Length == NUM_EXTRAS
      modifies extras
      ensures extras[..] == Splice(old(extras[..]), extrasHead, size)
    {
      var first, last := size % NUM_EXTRAS, (size + BLOCK_SIZE - 1) % NUM_EXTRAS;
      var head := extrasHead % NUM_EXTRAS;
      extras[first] := extras[first].(prev := size + BLOCK_SIZE - 1);
      extras[last] := extras[last].(next := size);
      extras[first] := extras[first].(prev := extras[head].prev);
      extras[last] := extras[last].(next := extrasHead);
      var tail := extras[head].prev % NUM_EXTRAS;
      extras[tail] := extras[tail].(next := size);
      extras[head] := extras[head].(prev := size + BLOCK_SIZE - 1);
    }

    /** The part of expand_units that puts the records of a new block into the list. */
    method AppendRecords(size: nat, reset: bool)
      requires extras.Length == NUM_EXTRAS && size % BLOCK_SIZE == 0
      requires !reset ==> size + BLOCK_SIZE <= NUM_EXTRAS
      requires forall j :: size <= j < NUM_EXTRAS ==> !extras[j].isFixed && !extras[j].isUsed
      requires extrasHead == size || (
        && extrasHead < size && InWindow(size + BLOCK_SIZE, extrasHead)
        && var tail := extras[extrasHead % NUM_EXTRAS].prev;
           tail < size && InWindow(size + BLOCK_SIZE, tail))
      modifies extras
      ensures BlockAppended(old(extras[..]), extras[..], extrasHead, size)
      ensures forall j :: size + BLOCK_SIZE <= j < NUM_EXTRAS ==>
        !extras[j].isFixed && !extras[j].isUsed
    {
      hide InWindow, Splice, BlockAppended;
      BlockSlots(size, 0);
      ghost var before := extras[..];
      if reset {
        ResetRecords(size);
      }
      ChainRecords(size);
      ghost var chained := extras[..];
      ghost var base := size % NUM_EXTRAS;
      assert Chained(before, chained, base, size, BLOCK_SIZE);
      SpliceRecords(size);
      if extrasHead == size {
        SpliceEmpty(before, chained, size);
      } else {
        SpliceFull(before, chained, extrasHead, size);
      }
      if extrasHead != size {
        StaysInside(size, extrasHead);
        StaysInside(size, before[extrasHead % NUM_EXTRAS].prev);
      }
      SplicedAppended(before, extras[..], extrasHead, size);
    }

    method FixBlock(blockId: nat)
      requires Valid() && limbo == {} && 0 !in free
      requires blockId * BLOCK_SIZE + BLOCK_SIZE <= |units| <= blockId * BLOCK_SIZE + NUM_EXTRAS
      modifies this`units, this`extrasHead, this`free, this`plan, this`limbo, extras
      ensures Valid() && limbo == {}
      ensures |units| == old(|units|)
      ensures Kept(old(units), old(free), old(plan), units, plan)
      ensures forall s: nat :: s in plan.filler ==> s in old(plan).filler || Block(s) == blockId
      ensures forall x :: x in free <==> x in old(free) && Block(x) != blockId
      ensures NewFillsLeast(old(plan), plan)
      decreases 1
    {
      hide State, Kept, Layout, SetLabel, Xor, MoreFillers, NewFillsLeast;
      NoNewFills(plan);
      FreeInside(units, extras[..], extrasHead, free, plan, limbo);
      KeptSame(units, free, plan);
      var begin := blockId * BLOCK_SIZE;
      var end := begin + BLOCK_SIZE;
      var unusedOffset := 0;
      var offset := begin;
      while offset != end
        invariant Valid()
        invariant begin <= offset <= end
        invariant forall o :: begin <= o < offset ==> IsUsed(plan, o)
        modifies {}
        decreases end - offset
      {
        FixedFlag(units, extras[..], extrasHead, free, plan, limbo, offset);
        if !extras[offset % NUM_EXTRAS].isUsed {
          unusedOffset := offset;
          break;
        }
        offset := offset + 1;
      }
      hide IsUsed;
      for id := begin to end
        invariant Valid() && limbo == {} && |units| == old(|units|)
        invariant plan.nodes == old(plan).nodes && plan.placed == old(plan).placed
        invariant Kept(old(units), old(free), old(plan), units, plan)
        invariant forall s: nat :: s in plan.filler ==> s in old(plan).filler || Block(s) == blockId
        invariant forall x :: x in free <==> x in old(free) && !(begin <= x < id)
        invariant NewFillsLeast(old(plan), plan)
      {
        FixedFlag(units, extras[..], extrasHead, free, plan, limbo, id);
        if !extras[id % NUM_EXTRAS].isFixed {
          SameUse(old(plan), plan);
          BlockChoice(units, extras[..], extrasHead, free, plan, limbo, blockId, id);
          assert offset < end && unusedOffset == offset;
          ghost var units', plan' := units, plan;
          ReserveId(id);
          LeastStep(old(plan), plan, id, unusedOffset);
          FillOne(id, unusedOffset);
          KeptFill(old(units), old(free), old(plan), units', plan', units, plan, id);
        }
      }
    }

    method FillOne(id: nat, unusedOffset: nat)
      requires Valid() && limbo == {id} && id > 0
      requires Block(id) == Block(unusedOffset) && !IsUsed(plan, unusedOffset)
      modifies this`units, this`plan, this`limbo
      ensures Valid() && limbo == {}
      ensures id < |units| && units == old(units)[id := units[id]]
      ensures plan == old(plan).(filler := old(plan).filler[id := unusedOffset])
      ensures MoreFillers(old(plan), plan)
    {
      hide State, IsUsed, SetLabel, Xor;
      LimboBlank(units, extras[..], extrasHead, free, plan, limbo, id);
      FillState(units, extras[..], extrasHead, free, plan, id, unusedOffset);
      units := units[id := SetLabel(units[id], Xor(id, unusedOffset) % 256)];
      plan := plan.(filler := plan.filler[id := unusedOffset]);
      limbo := {};
    }

    /** Fixes every unit that is still free. */
    method FixAllBlocks()
      requires Valid() && limbo == {} && 0 !in free
      modifies this`units, this`extrasHead, this`free, this`plan, this`limbo, extras
      ensures Valid() && limbo == {} && free == []
      ensures |units| == old(|units|) && plan == old(plan).(filler := plan.filler)
      ensures forall s: nat :: s < |units| && s !in old(free) ==> units[s] == old(units[s])
      ensures NewFillsLeast(old(plan), plan)
    {
      hide State, Kept, Layout, NewFillsLeast, MoreFillers;
      NoNewFills(plan);
      FreeInside(units, extras[..], extrasHead, free, plan, limbo);
      var numBlocks := |units| / BLOCK_SIZE;
      var begin := if numBlocks > NUM_EXTRA_BLOCKS then numBlocks - NUM_EXTRA_BLOCKS else 0;
      var blockId := begin;
      while blockId != numBlocks
        invariant begin <= blockId <= numBlocks
        invariant Valid() && limbo == {} && |units| == old(|units|)
        invariant plan == old(plan).(filler := plan.filler) && NewFillsLeast(old(plan), plan)
        invariant forall s: nat :: s < |units| && s !in old(free) ==> units[s] == old(units[s])
        invariant forall x :: x in free ==> x in old(free) && !(begin <= Block(x) < blockId)
        decreases numBlocks - blockId
      {
        ghost var words, before, filled := units, free, plan;
        FixBlock(blockId);
        assert plan == filled.(filler := plan.filler) by {
          KeptPlan(words, before, filled, units, plan);
        }
        KeptWords(words, before, filled, units, plan);
        LeastMore(old(plan), filled, plan);
        blockId := blockId + 1;
      }
      NothingFree(|units|, old(free), free);
    }

    /** The test of find_valid_offset: an unused, encodable offset with room for every label. */
    method IsValidOffset(id: nat, offset: nat) returns (ok: bool)
      requires Valid() && |labels| > 0 && InWindow(|units|, offset)
      ensures ok <==>
        && !IsUsed(plan, offset) && MasksAllow(Xor(id, offset))
        && forall i :: 1 <= i < |labels| ==> Xor(offset, labels[i]) in free
    {
      hide State, Xor, IsUsed;
      FreeInside(units, extras[..], extrasHead, free, plan, limbo);
      FixedFlag(units, extras[..], extrasHead, free, plan, limbo, offset);
      if extras[offset % NUM_EXTRAS].isUsed {
        return false;
      }
      if !MasksAllow(Xor(id, offset)) {
        return false;
      }
      for i := 1 to |labels|
        invariant forall j :: 1 <= j < i ==> Xor(offset, labels[j]) in free
      {
        var s := Xor(offset, labels[i]);
        XorByte(offset, labels[i]);
        WindowBlock(|units|, offset, s);
        FixedFlag(units, extras[..], extrasHead, free, plan, limbo, s);
        if extras[s % NUM_EXTRAS].isFixed {
          return false;
        }
      }
      ok := true;
    }

    /** The first usable offset along the free list, or one in a block yet to be added. */
    method FindValidOffset(id: nat) returns (offset: nat)
      requires Valid() && |labels| > 0
      ensures ValidChoice(|units|, free, plan, labels, id, offset)
      ensures FirstFit(|units|, free, plan, labels, id, offset)
    {
      hide State, Xor, IsUsed, Linked, MasksAllow, Sorted;
      HeadInside(units, extras[..], extrasHead, free, plan, limbo);
      FreeSorted(units, extras[..], extrasHead, free, plan, limbo);
      FreshOffset(|units|, id);
      if extrasHead >= |units| {
        return |units| + id % 256;
      }
      ghost var k := 0;
      var unfixedId := extrasHead;
      FreeOrder(units, extras[..], extrasHead, free, plan, limbo, 0);
      while true
        invariant 0 <= k < |free| && unfixedId == free[k]
        invariant forall j: nat :: j < k ==> !FitsAt(free, plan, labels, id, free[j])
        decreases |free| - k
      {
        offset := Xor(unfixedId, labels[0]);
        XorByte(unfixedId, labels[0]);
        WindowBlock(|units|, unfixedId, offset);
        var ok := IsValidOffset(id, offset);
        if ok {
          FitFound(free, plan, labels, id, k);
          return;
        }
        FreeOrder(units, extras[..], extrasHead, free, plan, limbo, k);
        unfixedId := extras[unfixedId % NUM_EXTRAS].next;
        if unfixedId == extrasHead {
          break;
        }
        k := k + 1;
      }
      offset := |units| + id % 256;
    }

    /** Writes the reserved unit for label c, and the has-leaf bit of the parent for label 0. */
    method WriteChild(dicId: nat, offset: nat, c: Byte, value: nat, ghost d: Dict)
      requires Valid() && limbo == {Xor(offset, c)}
      requires 0 < Xor(offset, c) && 0 < offset && offset !in plan.placed
      requires dicId in plan.pending && dicId in plan.nodes
      requires c == 0 ==> value < TOP_BIT && [] in plan.nodes[dicId]
      modifies this`units, this`plan, this`limbo
      ensures Valid() && limbo == {} && |units| == old(|units|)
      ensures plan == AddChild(old(plan), offset, d, c)
      ensures dicId < |units| && Xor(offset, c) < |units|
      ensures forall s :: 0 <= s < |units| && s != dicId && s != Xor(offset, c) ==> units[s] == old(units[s])
      ensures units[dicId] == if c == 0 then SetHasLeaf(old(units[dicId])) else old(units[dicId])
      ensures units[Xor(offset, c)] == if c == 0 then SetValue(value) else SetLabel(0, c)
    {
      hide State, Xor, SetHasLeaf, SetLabel, HasLeaf, HasWord, AddChild, Blank;
      NodeFixed(units, extras[..], extrasHead, free, plan, limbo, dicId);
      var s := Xor(offset, c);
      LimboWord(units, extras[..], extrasHead, free, plan, limbo, s);
      if c == 0 {
        var word := SetHasLeaf(units[dicId]);
        LeafBit(units[dicId]);
        PendingState(units, extras[..], extrasHead, free, plan, limbo, dicId, word);
        units := units[dicId := word];
        ChildState(units, extras[..], extrasHead, free, plan, offset, d, c, SetValue(value));
        units := units[s := SetValue(value)];
      } else {
        BlankLabel(c);
        ChildState(units, extras[..], extrasHead, free, plan, offset, d, c, SetLabel(0, c));
        units := units[s := SetLabel(units[s], c)];
      }
      plan, limbo := AddChild(plan, offset, d, c), {};
    }

    /** Reserves the unit for label i of a node whose children go to `offset`. */
    method ReserveChild(offset: nat, i: nat)
      requires Valid() && limbo == {} && FillersLeft(|units|, plan) && |units| > 0
      requires i < |labels| && Orderly(labels) && Room(|units|, free, labels, i, offset)
      requires i == 0 || labels[i] != 0
      modifies this`units, this`extrasHead, this`free, this`plan, this`limbo, extras
      ensures Valid() && limbo == {Xor(offset, labels[i])} && FillersLeft(|units|, plan)
      ensures 0 < Xor(offset, labels[i])
      ensures Room(|units|, free, labels, i + 1, offset)
      ensures |units| == old(|units|) + (if i == 0 && Xor(offset, labels[i]) >= old(|units|) then BLOCK_SIZE else 0)
      ensures i > 0 ==> units == old(units)
      ensures Kept(old(units), old(free), old(plan), units, plan)
      ensures OutOfList(Xor(offset, labels[i]))
    {
      hide State, Xor, Kept, FillersLeft, OutOfList;
      ghost var size, free0 := |units|, free;
      FreeInside(units, extras[..], extrasHead, free, plan, limbo);
      KeptSame(units, free, plan);
      var s := Xor(offset, labels[i]);
      RoomRange(size, free, labels, i, offset);
      ReserveId(s);
      if s < size {
        RoomWithin(size, free0, labels, i, offset, free);
      } else {
        RoomInNewBlock(size, labels, i, offset, free);
      }
    }

    /** The first i labels of the node at unit dicId have their units at `offset`. */
    ghost predicate PlacingState(start: Plan, dicId: nat, offset: nat, value: nat, d: Dict, rel: nat,
                                 column: nat, i: nat)
      requires i <= |labels|
      reads this, extras
    {
      && Valid() && limbo == {} && FillersLeft(|units|, plan)
      && |units| > 0 && Room(|units|, free, labels, i, offset)
      && dicId in plan.pending && dicId in plan.nodes && plan.nodes[dicId] == d
      && offset !in plan.placed && 0 < offset
      && dicId < |units| && ParentWord(units[dicId], rel, column, 0 in labels[..i])
      && (0 in labels[..i] ==> offset < |units| && value < TOP_BIT && units[offset] == SetValue(value))
      && Placing(start, plan, offset, d, labels[..i])
      && (i > 0 && labels[i - 1] == 0 ==> OutOfList(offset))
    }

    /** The unit for another label 0 is reserved and written once more: nothing changes. */
    method PlaceAgain(dicId: nat, offset: nat, i: nat, value: nat, ghost d: Dict,
                      ghost start: Plan, ghost rel: nat, ghost column: nat)
      requires 0 < i < |labels| && labels[i - 1] == 0 == labels[i] && value < TOP_BIT
      requires PlacingState(start, dicId, offset, value, d, rel, column, i)
      modifies this`units, this`extrasHead, extras
      ensures PlacingState(start, dicId, offset, value, d, rel, column, i + 1)
      ensures units == old(units) && extras[..] == old(extras[..])
    {
      hide State, Xor, Placing, FillersLeft, ParentWord, SetHasLeaf, SetValue, Unlink;
      ZeroLabel(offset, 0);
      NextLabel(labels, i);
      assert labels[..i][i - 1] == 0;
      LeafAgain(units[dicId], rel, column);
      PlacingAgain(start, plan, offset, d, labels[..i]);
      UnlinkRecord(offset);
      units := units[dicId := SetHasLeaf(units[dicId])];
      units := units[offset := SetValue(value)];
      assert units == old(units) && extras[..] == old(extras[..]);
    }

    method PlaceOneChild(dicId: nat, offset: nat, i: nat, value: nat, ghost d: Dict,
                         ghost start: Plan, ghost rel: nat, ghost column: nat)
      requires i < |labels| && Orderly(labels)
      requires labels[i] == 0 ==> [] in d
      requires value < TOP_BIT
      requires PlacingState(start, dicId, offset, value, d, rel, column, i)
      modifies this`units, this`extrasHead, this`free, this`plan, this`limbo, extras
      ensures PlacingState(start, dicId, offset, value, d, rel, column, i + 1)
      ensures |units| == old(|units|) + (if i == 0 && Xor(offset, labels[i]) >= old(|units|) then BLOCK_SIZE else 0)
    {
      hide State, Xor, Placing, FillersLeft, Room, Kept, AddChild, MoreFillers, OutOfList;
      hide ParentWord, SetHasLeaf, SetLabel, SetValue;
      var c := labels[i];
      if i > 0 && c == 0 {
        PlaceAgain(dicId, offset, i, value, d, start, rel, column);
        return;
      }
      ghost var s := Xor(offset, c);
      ghost var plan0, free0, units0 := plan, free, units;
      NodeFixed(units, extras[..], extrasHead, free, plan, limbo, dicId);
      ReserveChild(offset, i);
      KeptWords(units0, free0, plan0, units, plan);
      FillPlacing(start, plan0, plan, offset, d, labels[..i]);
      LimboWord(units, extras[..], extrasHead, free, plan, limbo, s);
      ghost var plan1, units1 := plan, units;
      WriteChild(dicId, offset, c, value, d);
      AddChildKeeps(plan1, offset, d, c, dicId);
      StepPlacing(start, plan1, offset, d, labels[..i], c);
      NextLabel(labels, i);
      ParentStep(units1[dicId], rel, column, 0 in labels[..i], c, units[dicId]);
      SameFillers(|units|, plan1, plan);
      ZeroLabel(offset, c);
    }

    /** One more block could need a relative offset that does not fit. */
    ghost predicate OutOfOffsets()
      reads this`units
    {
      |units| + BLOCK_SIZE > MAX_OFFSETS
    }

    /**
      The common part of arrange_from_dawg and arrange_from_keyset: chooses an
      offset for the node at unit dicId, reserves and writes a unit for each of its
      labels, and marks the offset used. It fails when the relative offset is too large.
     */
    method PlaceChildren(dicId: nat, value: nat, ghost d: Dict) returns (ok: bool, offset: nat)
      requires Valid() && AtRest() && 0 !in free && 0 in plan.nodes
      requires |labels| > 0 && Orderly(labels) && forall c: Byte :: c in labels <==> HasLabel(d, c)
      requires dicId in plan.pending && dicId in plan.nodes && plan.nodes[dicId] == d
      requires d != map[] && NoNulStep(d) && value < TOP_BIT
      requires [] in d ==> value == d[[]]
      modifies this`units, this`extrasHead, this`free, this`plan, this`limbo, extras
      ensures |units| <= old(|units|) + BLOCK_SIZE
      ensures !ok ==> OutOfOffsets()
      ensures ok ==>
        && Valid() && AtRest() && 0 !in free
        && offset !in old(plan).placed && 0 < offset
        && Arranged(old(plan), plan, dicId, offset, d, labels)
        && FirstFit(old(|units|), old(free), old(plan), labels, dicId, offset)
        && (Xor(offset, labels[0]) < old(|units|) ==> |units| == old(|units|))
    {
      hide FirstFit;
      hide State, Xor, Placing, OwnersPlaced, FillersLeft, MasksAllow, Room, ValidChoice;
      hide ParentWord, NoNulStep, HasLabel, OffsetFits, SetOffset, HasLeaf;
      ghost var start := plan;
      PendingLeaf(units, extras[..], extrasHead, free, plan, limbo, dicId);
      offset := FindValidOffset(dicId);
      PlacedInside(units, extras[..], extrasHead, free, plan, limbo);
      ChoiceGivesRoom(|units|, free, plan, labels, dicId, offset);
      ChoiceNear(|units|, free, plan, labels, dicId, offset);
      ghost var rel := Xor(dicId, offset);
      if !OffsetFits(Xor(dicId, offset)) {
        TooFarApart(|units|, dicId, offset);
        return false, offset;
      }
      ghost var column := units[dicId] % 256;
      StartWord(units[dicId], rel);
      ParentWordFacts(SetOffset(units[dicId], rel), rel, column, false);
      PendingState(units, extras[..], extrasHead, free, plan, limbo, dicId, SetOffset(units[dicId], rel));
      units := units[dicId := SetOffset(units[dicId], Xor(dicId, offset))];
      StartPlacing(plan, offset, d);
      assert labels[..0] == [];
      LeafLabelMeans(d);
      for i := 0 to |labels|
        invariant PlacingState(start, dicId, offset, value, d, rel, column, i)
        invariant |units| == old(|units|) + (if i > 0 && Xor(offset, labels[0]) >= old(|units|) then BLOCK_SIZE else 0)
      {
        PlaceOneChild(dicId, offset, i, value, d, start, rel, column);
      }
      FinishPlacing(dicId, offset, value, d, start, rel, column);
      ok := true;
    }

    /** Marks the offset used; from here on the node at unit dicId is done. */
    method FinishPlacing(dicId: nat, offset: nat, ghost value: nat, ghost d: Dict,
                         ghost start: Plan, ghost rel: nat, ghost column: nat)
      requires PlacingState(start, dicId, offset, value, d, rel, column, |labels|)
      requires |labels| > 0 && forall c: Byte :: c in labels <==> HasLabel(d, c)
      requires d != map[] && NoNulStep(d) && value < TOP_BIT && ([] in d ==> value == d[[]])
      requires rel == Xor(dicId, offset)
      modifies this`plan, extras
      ensures Valid() && AtRest() && 0 !in free && Arranged(start, plan, dicId, offset, d, labels)
      ensures |units| == old(|units|)
    {
      hide State, Xor, Placing, OwnersPlaced, FillersLeft, Room;
      hide ParentWord, NoNulStep, HasLabel, HasLeaf, SetUsed, NodeDone, ChildrenOk, Arranged;
      assert labels[..|labels|] == labels;
      RoomInside(|units|, free, labels, |labels|, offset);
      LeafLabelMeans(d);
      if [] in d {
        WriteValue(value);
      }
      DonePlacing(start, plan, units, offset, d, labels);
      PlacingArranged(start, plan, dicId, offset, d, labels);
      PendingLeaf(units, extras[..], extrasHead, free, plan, limbo, dicId);
      PlaceState(units, extras[..], extrasHead, free, plan, offset, d);
      ghost var plan0 := plan;
      plan := plan.(placed := plan.placed[offset := d]);
      extras[offset % NUM_EXTRAS] := extras[offset % NUM_EXTRAS].(isUsed := true);
      assert extras[..] == SetUsed(old(extras[..]), offset) by {
        UsedWrite(old(extras[..]), extras[..], offset);
      }
      ParentDone(units[dicId], plan, dicId, offset, column, 0 in labels);
      ParentWordFacts(units[dicId], rel, column, 0 in labels);
      DoneState(units, extras[..], extrasHead, free, plan, limbo, dicId, units[dicId]);
      assert units[dicId := units[dicId]] == units;
      plan := plan.(pending := plan.pending - {dicId});
      SameFillers(|units|, plan0, plan);
      SameOwners(plan0.(placed := plan0.placed[offset := d]), plan);
    }

    /** The first steps of every build: the root unit, with its default offset. */
    method PlaceRoot(ghost d: Dict)
      requires Valid() && AtRest() && units == [] && free == [] && plan == EMPTY_PLAN
      modifies this`units, this`extrasHead, this`free, this`plan, this`limbo, extras
      ensures Valid() && AtRest() && 0 !in free && plan == RootPlan(d)
      ensures |units| == BLOCK_SIZE && units[0] == 1024
    {
      hide State, Xor, SetLabel, SetOffset, OffsetFits, HasLeaf, SetUsed, Kept;
      ReserveId(0);
      assert limbo == {0};
      KeptWords([], [], EMPTY_PLAN, units, plan);
      NoFillersYet(plan, |units|);
      RootState(units, extras[..], extrasHead, free, d);
      LimboBlank(units, extras[..], extrasHead, free, plan, limbo, 0);
      BlankIsZero(units, plan, 0);
      PackedRoot();
      ghost var before := extras[..];
      extras[0] := extras[0].(isUsed := true);
      UsedWrite(before, extras[..], 0);
      ghost var blank := units;
      units := units[0 := SetOffset(units[0], 1)];
      units := units[0 := SetLabel(units[0], 0)];
      assert units == blank[0 := 1024];
      plan, limbo := RootPlan(d), {};
    }

    /** The last step of every build; what remains free is filled, and the units are final. */
    method Finish(ghost d: Dict) returns (ghost sem: map<nat, Dict>)
      requires Valid() && limbo == {} && 0 !in free && 0 in plan.nodes && plan.nodes[0] == d
      requires if d == map[] then plan == RootPlan(d) && |units| == BLOCK_SIZE && units[0] == 1024
               else plan.pending == {}
      modifies this`units, this`extrasHead, this`free, this`plan, this`limbo, extras
      ensures Represents(units, sem) && 0 in sem && sem[0] == d
      ensures d != map[] ==> NoDeadNode(sem)
      ensures d == map[] ==> units == EmptyUnits()
    {
      hide State, Represents, NoDeadNode, Barren, EmptyUnits, NewFillsLeast;
      ghost var units0, free0, plan0 := units, free, plan;
      NodeFixed(units, extras[..], extrasHead, free, plan, limbo, 0);
      FixAllBlocks();
      FinalUnits(units, extras[..], extrasHead, free, plan);
      if d == map[] {
        BarrenRepresents(units, plan);
        EmptyIsFixed(units, plan, d);
        sem := AllEmpty(plan.filler.Keys + {0});
      } else {
        CompleteRepresents(units, plan);
        sem := plan.nodes;
      }
    }

    // Building from a sorted keyset.

    /** The first loop of arrange_from_keyset: the labels at one depth, and the faults it reports. */
    method CollectLabels(ks: Keyset, begin: nat, end: nat, depth: nat) returns (outcome: Outcome, value: int)
      requires InRange(ks, begin, end, depth) && begin < end
      modifies this`labels
      ensures outcome == Built ==> Heads(ks, begin, end, depth, labels, value)
      ensures outcome.Failed? ==> Justified(ks, begin, end, depth, outcome.error)
      ensures outcome != Failed(TooLargeOffset)
    {
      hide Justified, Heads, NulFreeKey, Ascending;
      labels := [];
      value := -1;
      EmptyHeads(ks, begin, depth);
      for i := begin to end
        invariant Heads(ks, begin, i, depth, labels, value)
      {
        var c := ks.Label(i, depth);
        if c == 0 {
          if ks.hasLengths && depth < |ks.keys[i]| {
            NulFault(ks, begin, end, depth, i);
            return Failed(InvalidNull), value;
          }
          EndOfKey(ks, i, depth);
          if ks.Value(i) < 0 {
            ValueFault(ks, begin, end, depth, i);
            return Failed(NegativeValue), value;
          }
        }
        LastLabel(ks, begin, i, depth, labels, value);
        if labels != [] && c < labels[|labels| - 1] {
          OrderFault(ks, begin, end, depth, i);
          return Failed(WrongOrder), value;
        }
        HeadsStep(ks, begin, i, depth, labels, value);
        if c == 0 && value == -1 {
          value := ks.Value(i);
        }
        if labels == [] || labels[|labels| - 1] != c {
          labels := labels + [c];
        }
      }
      outcome := Built;
    }

    /** Between two placements, with the root in place. */
    ghost predicate Ready()
      reads this, extras
    {
      Valid() && AtRest() && 0 !in free && 0 in plan.nodes
    }

    method ArrangeFromKeyset(ks: Keyset, begin: nat, end: nat, depth: nat, dicId: nat)
      returns (outcome: Outcome, offset: nat, ghost value: int)
      requires InRange(ks, begin, end, depth) && begin < end
      requires Ready() && dicId in plan.pending && dicId in plan.nodes
      requires plan.nodes[dicId] == RangeDict(ks, begin, end, depth)
      modifies this`units, this`extrasHead, this`labels, this`free, this`plan, this`limbo, extras
      ensures outcome == Built ==>
        && Ready() && Heads(ks, begin, end, depth, labels, value)
        && Arranged(old(plan), plan, dicId, offset, RangeDict(ks, begin, end, depth), labels)
      ensures outcome.Failed? ==> Justified(ks, begin, end, depth, outcome.error)
      ensures |units| <= old(|units|) + BLOCK_SIZE
      ensures outcome == Failed(TooLargeOffset) ==> OutOfOffsets()
    {
      hide Heads, Justified, State, FillersLeft, OwnersPlaced, Arranged, RangeDict, NoNulStep, HasLabel, Ascending;
      offset := 0;
      var leaf;
      outcome, leaf := CollectLabels(ks, begin, end, depth);
      value := leaf;
      if outcome.Failed? {
        return;
      }
      HeadsLabels(ks, begin, end, depth, labels, value);
      HeadsValueFits(ks, begin, end, depth, labels, value);
      HeadsAscend(ks, begin, end, depth, labels, value);
      AscendingOrderly(labels);
      hide Orderly;
      var ok;
      ok, offset := PlaceChildren(dicId, if leaf < 0 then 0 else leaf, plan.nodes[dicId]);
      if !ok {
        AlwaysJustified(ks, begin, end, depth);
        return Failed(TooLargeOffset), offset, value;
      }
      ArrangedNodes(old(plan), plan, dicId, offset, RangeDict(ks, begin, end, depth), labels);
    }

    /** Fills in the node at unit dicId, which stands for keys begin..end from `depth` on. */
    method BuildFromKeyset(ks: Keyset, begin: nat, end: nat, depth: nat, dicId: nat, ghost limit: nat)
      returns (outcome: Outcome)
      requires InRange(ks, begin, end, depth) && begin < end
      requires forall i :: 0 <= i < |ks.keys| ==> |ks.keys[i]| <= limit
      requires Ready() && dicId in plan.pending && dicId in plan.nodes
      requires plan.nodes[dicId] == RangeDict(ks, begin, end, depth)
      modifies this`units, this`extrasHead, this`labels, this`free, this`plan, this`limbo, extras
      ensures outcome == Built ==>
        && Ready() && RangeOk(ks, begin, end, depth)
        && plan.pending == old(plan).pending - {dicId}
        && Extends(old(plan).nodes, plan.nodes)
      ensures outcome.Failed? ==> Justified(ks, begin, end, depth, outcome.error)
      ensures |units| <= old(|units|) + BLOCK_SIZE * Weight(RangeDict(ks, begin, end, depth))
      ensures outcome == Failed(TooLargeOffset) ==> OutOfOffsets()
      decreases limit - depth, 1
    {
      hide Weight, Below, Bytes;
      hide Heads, Justified, State, AtRest, RangeDict, NoNulStep, HasLabel, Ascending, RangeOk;
      hide Arranged, PendingFrom, ChildNodes, Extends;
      PendingAreNodes(units, extras[..], extrasHead, free, plan, limbo);
      ghost var d := RangeDict(ks, begin, end, depth);
      RangeCovers(ks, begin, end, depth, begin);
      BelowAll(d);
      var offset; ghost var value;
      outcome, offset, value := ArrangeFromKeyset(ks, begin, end, depth, dicId);
      if outcome.Failed? {
        return;
      }
      ghost var arranged := plan;
      ghost var ls, base := labels, old(plan).pending - {dicId};
      var i := begin;
      while i < end && ks.Label(i, depth) == 0
        invariant begin <= i <= end
        invariant forall j :: begin <= j < i ==> ks.Label(j, depth) == 0
        modifies {}
      {
        i := i + 1;
      }
      EndsFirst(ks, begin, end, depth, ls, value, i);
      EnterGroups(old(plan), plan, dicId, offset, RangeDict(ks, begin, end, depth), ls,
                  if i < end then ks.Label(i, depth) else 256);
      if i == end {
        return;
      }
      var lastBegin, lastLabel := i, ks.Label(i, depth);
      i := i + 1;
      while i < end
        invariant lastBegin < i <= end && begin <= lastBegin && lastLabel != 0
        invariant Ready() && Extends(old(plan).nodes, plan.nodes) && Extends(arranged.nodes, plan.nodes)
        invariant plan.pending == PendingFrom(base, offset, ls, lastLabel)
        invariant InRange(ks, begin, lastBegin, depth) && RangeOk(ks, begin, lastBegin, depth)
        invariant forall j :: lastBegin <= j < i ==> ks.Label(j, depth) == lastLabel
        invariant begin < lastBegin ==> ks.Label(lastBegin - 1, depth) < lastLabel
        invariant |units| <= old(|units|) + BLOCK_SIZE * (1 + Bytes(Below(d, lastLabel)))
        decreases end - i
      {
        var c := ks.Label(i, depth);
        if c != lastLabel {
          outcome := BuildGroup(ks, begin, end, depth, dicId, limit, lastBegin, i, lastLabel, offset,
                                ls, value, old(plan), arranged, old(|units|));
          if outcome.Failed? {
            return;
          }
          lastBegin := i;
          lastLabel := ks.Label(i, depth);
        }
        i := i + 1;
      }
      outcome := BuildGroup(ks, begin, end, depth, dicId, limit, lastBegin, end, lastLabel, offset,
                            ls, value, old(plan), arranged, old(|units|));
      PendingEnd(base, offset, ls);
    }

    /** Descends into one group of keys with the same byte. */
    method BuildGroup(ks: Keyset, begin: nat, end: nat, depth: nat, dicId: nat, ghost limit: nat,
                      lastBegin: nat, i: nat, lastLabel: Byte, offset: nat,
                      ghost ls: seq<Byte>, ghost value: int, ghost before: Plan, ghost arranged: Plan,
                      ghost size: nat)
      returns (outcome: Outcome)
      requires InRange(ks, begin, end, depth) && begin <= lastBegin < i <= end && lastLabel != 0
      requires forall j :: 0 <= j < |ks.keys| ==> |ks.keys[j]| <= limit
      requires Heads(ks, begin, end, depth, ls, value)
      requires Arranged(before, arranged, dicId, offset, RangeDict(ks, begin, end, depth), ls)
      requires before.pending <= before.nodes.Keys
      requires Ready() && Extends(before.nodes, plan.nodes) && Extends(arranged.nodes, plan.nodes)
      requires plan.pending == PendingFrom(before.pending - {dicId}, offset, ls, lastLabel)
      requires InRange(ks, begin, lastBegin, depth) && RangeOk(ks, begin, lastBegin, depth)
      requires forall j :: lastBegin <= j < i ==> ks.Label(j, depth) == lastLabel
      requires begin < lastBegin ==> ks.Label(lastBegin - 1, depth) < lastLabel
      requires i < end ==> ks.Label(i, depth) != lastLabel
      requires |units| <= size + BLOCK_SIZE * (1 + Bytes(Below(RangeDict(ks, begin, end, depth), lastLabel)))
      modifies this`units, this`extrasHead, this`labels, this`free, this`plan, this`limbo, extras
      ensures outcome == Built ==>
        && Ready() && Extends(before.nodes, plan.nodes) && Extends(arranged.nodes, plan.nodes)
        && (i < end ==> ks.Label(i, depth) > lastLabel)
        && plan.pending == PendingFrom(before.pending - {dicId}, offset, ls,
                                       if i < end then ks.Label(i, depth) else 256)
        && InRange(ks, begin, i, depth) && RangeOk(ks, begin, i, depth)
        && |units| <= size + BLOCK_SIZE * (1 + Bytes(Below(RangeDict(ks, begin, end, depth),
                                                           if i < end then ks.Label(i, depth) else 256)))
      ensures outcome.Failed? ==> Justified(ks, begin, end, depth, outcome.error)
      ensures |units| <= size + BLOCK_SIZE * Weight(RangeDict(ks, begin, end, depth))
      ensures outcome == Failed(TooLargeOffset) ==> OutOfOffsets()
      decreases limit - depth, 0
    {
      hide Weight, Below, Bytes;
      hide Heads, Justified, State, AtRest, RangeDict, NoNulStep, HasLabel, Ascending, RangeOk, After;
      hide PendingFrom, ChildNodes;
      hide IsGroup;
      RunIsGroup(ks, begin, end, depth, ls, value, lastLabel, lastBegin, i);
      GroupInRange(ks, begin, end, depth, lastLabel, lastBegin, i);
      GroupDict(ks, begin, end, depth, lastLabel, lastBegin, i);
      GroupChild(before, arranged, plan, dicId, offset, RangeDict(ks, begin, end, depth), ls, lastLabel);
      PendingNext(before.pending - {dicId}, offset, ls, lastLabel, if i < end then ks.Label(i, depth) else 256);
      ghost var plan0 := plan;
      WeightStep(RangeDict(ks, begin, end, depth), lastLabel, if i < end then ks.Label(i, depth) else 256);
      RangeCovers(ks, begin, end, depth, begin);
      BelowAll(RangeDict(ks, begin, end, depth));
      assert depth + 1 <= |ks.keys[lastBegin]| <= limit;
      outcome := BuildFromKeyset(ks, lastBegin, i, depth + 1, Xor(offset, lastLabel), limit);
      if outcome.Failed? {
        GroupFault(ks, begin, end, depth, lastLabel, lastBegin, i, outcome.error);
        return;
      }
      ExtendsTrans(before.nodes, plan0.nodes, plan.nodes);
      ExtendsTrans(arranged.nodes, plan0.nodes, plan.nodes);
      AppendGroup(ks, begin, i, depth, lastLabel, lastBegin);
    }

    // Building from a word graph.

    /** The labels of a state, and the value it carries. */
    method CollectArcs(dawg: DawgBuilder, dawgId: nat) returns (value: nat)
      requires dawg.Readable() && dawgId < |dawg.units| && dawg.Child(dawgId) in dawg.groups
      modifies this`labels
      ensures var arcs := dawg.groups[dawg.Child(dawgId)];
        labels == ArcLabels(arcs) && value == LeafTarget(arcs)
    {
      hide Graph, ArcLabels, UnitChild, UnitValue, UnitHasSibling;
      ghost var g: nat := dawg.Child(dawgId);
      ghost var arcs := dawg.groups[g];
      ghost var j := 0;
      assert arcs[..|arcs|] == arcs && LeafTarget(arcs[..0]) == 0;
      hide LeafTarget;
      GroupsAscend(dawg.units, dawg.labels, dawg.groups, dawg.lang, g);
      value := 0;
      labels := [];
      var dawgChildId := dawg.Child(dawgId);
      ReadArc(dawg.units, dawg.labels, dawg.groups, dawg.lang, g, 0);
      while dawgChildId != 0
        invariant dawg.Readable() && j <= |arcs| && dawgChildId == if j < |arcs| then g + j else 0
        invariant labels == ArcLabels(arcs)[..j] && value == LeafTarget(arcs[..j])
        decreases |arcs| - j
      {
        ReadArc(dawg.units, dawg.labels, dawg.groups, dawg.lang, g, j);
        ArcLabelAt(arcs, j);
        LeafTargetStep(arcs, j);
        labels := labels + [dawg.labels[dawgChildId]];
        if dawg.IsLeaf(dawgChildId) {
          value := dawg.Value(dawgChildId);
        }
        dawgChildId := dawg.Sibling(dawgChildId);
        j := j + 1;
      }
      ArcLabelsAll(arcs);
    }

    method ArrangeFromDawg(dawg: DawgBuilder, dawgId: nat, dicId: nat) returns (outcome: Outcome, offset: nat)
      requires dawg.Readable() && dawgId < |dawg.units| && dawg.Child(dawgId) in dawg.groups
      requires Ready() && dicId in plan.pending && dicId in plan.nodes
      requires plan.nodes[dicId] == dawg.lang[dawg.Child(dawgId)]
      modifies this`units, this`extrasHead, this`labels, this`free, this`plan, this`limbo, extras
      ensures outcome == Built || outcome == Failed(TooLargeOffset)
      ensures outcome == Built ==>
        && Ready() && offset !in old(plan).placed && 0 < offset
        && Arranged(old(plan), plan, dicId, offset, dawg.lang[dawg.Child(dawgId)],
                    ArcLabels(dawg.groups[dawg.Child(dawgId)]))
      ensures |units| <= old(|units|) + BLOCK_SIZE
      ensures outcome.Failed? ==> OutOfOffsets()
    {
      hide Graph, State, FillersLeft, OwnersPlaced, Arranged, NoNulStep, HasLabel, Orderly, ArcLabels, UnitChild;
      ghost var g: nat := dawg.Child(dawgId);
      var value := CollectArcs(dawg, dawgId);
      StateFacts(dawg.units, dawg.labels, dawg.groups, dawg.lang, g);
      var ok;
      ok, offset := PlaceChildren(dicId, value, plan.nodes[dicId]);
      if !ok {
        return Failed(TooLargeOffset), offset;
      }
      ArrangedNodes(old(plan), plan, dicId, offset, dawg.lang[g], labels);
      outcome := Built;
    }

    /** Points the unit dicId at children that have been placed for another unit with the same meaning. */
    method ShareChildren(dicId: nat, offset: nat, leaf: bool) returns (ok: bool)
      requires Ready() && dicId in plan.pending && dicId in plan.nodes
      requires offset in plan.placed && plan.placed[offset] == plan.nodes[dicId]
      requires leaf <==> [] in plan.nodes[dicId]
      requires MasksAllow(Xor(dicId, offset))
      modifies this`units, this`plan
      ensures ok ==> Ready() && plan == old(plan).(pending := old(plan).pending - {dicId})
      ensures |units| == old(|units|) && (!ok ==> OutOfOffsets())
    {
      hide State, Xor, FillersLeft, OwnersPlaced, MasksAllow, OffsetFits, SetOffset, SetHasLeaf, HasLeaf;
      hide ParentWord, NodeDone;
      PendingLeaf(units, extras[..], extrasHead, free, plan, limbo, dicId);
      ghost var rel, column := Xor(dicId, offset), units[dicId] % 256;
      var word := units[dicId];
      if leaf {
        word := SetHasLeaf(word);
        LeafBit(units[dicId]);
      }
      PlacedInside(units, extras[..], extrasHead, free, plan, limbo);
      if !OffsetFits(Xor(dicId, offset)) {
        TooFarApart(|units|, dicId, offset);
        return false;
      }
      SharedWord(units[dicId], word, rel, leaf);
      word := SetOffset(word, Xor(dicId, offset));
      ParentDone(word, plan, dicId, offset, column, leaf);
      ParentWordFacts(word, rel, column, leaf);
      DoneState(units, extras[..], extrasHead, free, plan, limbo, dicId, word);
      ghost var plan0 := plan;
      units := units[dicId := word];
      plan := plan.(pending := plan.pending - {dicId});
      SameFillers(|units|, plan0, plan);
      SameOwners(plan0, plan);
      ok := true;
    }

    /** The table entry of a shared state, if its state has been placed. */
    method FindShared(dawg: DawgBuilder, g: nat) returns (shared: bool, id: nat, offset: nat)
      requires dawg.Readable() && g in dawg.lang && g < |dawg.units|
      requires SharedOk(table, dawg.isIntersections.bits, dawg.lang, plan.placed)
      ensures shared == dawg.isIntersections.bits[g]
      ensures shared ==> id + 1 == Ones(dawg.isIntersections.bits[..g + 1]) && id < |table|
      ensures !shared ==> offset == 0
      ensures offset == Entry(table, dawg.isIntersections.bits, g)
      ensures offset != 0 ==> offset in plan.placed && plan.placed[offset] == dawg.lang[g]
    {
      hide Graph, Ones, BitVector.Valid, BitVector.Ranked;
      id, offset := 0, 0;
      shared := dawg.isIntersections.Get(g);
      if shared {
        assert EntryOk(table, dawg.isIntersections.bits, dawg.lang, plan.placed, g);
        var rank := dawg.isIntersections.Rank(g);
        id := rank - 1;
        offset := table[id];
      }
    }

    /**
      Fills in the node at unit dicId, which stands for the state that unit dawgId
      leads to. If children have been placed for that state and the relative offset can
      be encoded, they are shared and no unit is added; children of a shared state
      can be found afterwards.
     */
    method BuildFromDawg(dawg: DawgBuilder, dawgId: nat, dicId: nat) returns (outcome: Outcome)
      requires dawg.Readable() && dawgId < |dawg.units| && dawg.Child(dawgId) in dawg.groups
      requires Ready() && dicId in plan.pending && dicId in plan.nodes
      requires plan.nodes[dicId] == dawg.lang[dawg.Child(dawgId)]
      requires SharedOk(table, dawg.isIntersections.bits, dawg.lang, plan.placed)
      modifies this`units, this`extrasHead, this`labels, this`table, this`free, this`plan, this`limbo, extras
      ensures outcome == Built || outcome == Failed(TooLargeOffset)
      ensures outcome == Built ==>
        && Ready() && SharedOk(table, dawg.isIntersections.bits, dawg.lang, plan.placed)
        && plan.pending == old(plan).pending - {dicId}
        && Extends(old(plan).nodes, plan.nodes)
      ensures var g, bits := dawg.Child(dawgId), dawg.isIntersections.bits; g < |bits| && (outcome == Built ==>
        && EntriesKept(old(table), table) && (bits[g] ==> Entry(table, bits, g) != 0)
        && var shared := Entry(old(table), bits, g);
           (shared != 0 && MasksAllow(Xor(dicId, shared)) ==>
              && plan == old(plan).(pending := old(plan).pending - {dicId})
              && |units| == old(|units|) && table == old(table)))
      ensures |units| <= old(|units|) + BLOCK_SIZE * Weight(dawg.lang[dawg.Child(dawgId)])
      ensures outcome.Failed? ==> OutOfOffsets()
      decreases dawg.Child(dawgId), 1
    {
      hide Weight, Below, Bytes;
      hide Graph, BitVector.Valid, BitVector.Ranked, State, AtRest, MasksAllow, Xor, UnitChild;
      hide Arranged, PendingFrom, ChildNodes, Extends, SharedOk, Ones, ArcLabels, EntriesKept, Entry;
      ghost var g: nat := dawg.Child(dawgId);
      ghost var arcs, bits := dawg.groups[g], dawg.isIntersections.bits;
      EntriesSame(table);
      PendingAreNodes(units, extras[..], extrasHead, free, plan, limbo);
      GroupsAscend(dawg.units, dawg.labels, dawg.groups, dawg.lang, g);
      ReadArc(dawg.units, dawg.labels, dawg.groups, dawg.lang, g, 0);
      ExtendsSame(plan.nodes);
      StateWeight(dawg.units, dawg.labels, dawg.groups, dawg.lang, g);
      var dawgChildId := dawg.Child(dawgId);
      var shared, sharedId, offset := FindShared(dawg, dawgChildId);
      if shared && offset != 0 && MasksAllow(Xor(dicId, offset)) {
        var ok := ShareChildren(dicId, offset, dawg.IsLeaf(dawgChildId));
        return if ok then Built else Failed(TooLargeOffset);
      }
      outcome, offset := ArrangeFromDawg(dawg, dawgId, dicId);
      if outcome.Failed? {
        return;
      }
      ghost var arranged := plan;
      ArrangedGrows(old(plan), plan, dicId, offset, dawg.lang[g], ArcLabels(arcs));
      SharedGrows(table, dawg.isIntersections.bits, dawg.lang, old(plan).placed, plan.placed);
      if shared {
        ShareState(table, dawg.isIntersections.bits, dawg.lang, plan.placed, g, offset);
        table := table[sharedId := offset];
      }
      EnterArcs(old(plan), plan, dicId, offset, dawg.lang[g], arcs);
      ghost var base, ls := old(plan).pending - {dicId}, ArcLabels(arcs);
      ghost var j := 0;
      while dawgChildId != 0
        invariant j <= |arcs| && dawgChildId == if j < |arcs| then g + j else 0
        invariant outcome == Built
        invariant Ready() && Extends(old(plan).nodes, plan.nodes) && Extends(arranged.nodes, plan.nodes)
        invariant SharedOk(table, dawg.isIntersections.bits, dawg.lang, plan.placed)
        invariant EntriesKept(old(table), table) && (bits[g] ==> Entry(table, bits, g) != 0)
        invariant plan.pending == PendingFrom(base, offset, ls, NextLabelOf(arcs, j))
        invariant |units| <= old(|units|) + BLOCK_SIZE * (1 + Bytes(Below(dawg.lang[g], NextLabelOf(arcs, j))))
        decreases |arcs| - j
      {
        ghost var table0 := table;
        outcome := BuildChild(dawg, dawgChildId, dicId, offset, g, j, old(plan), arranged, old(|units|));
        if outcome.Failed? {
          return;
        }
        EntriesKeptTwice(old(table), table0, table);
        if bits[g] {
          EntryKept(table0, table, bits, g);
        }
        ReadArc(dawg.units, dawg.labels, dawg.groups, dawg.lang, g, j);
        dawgChildId := dawg.Sibling(dawgChildId);
        j := j + 1;
      }
      PendingEnd(base, offset, ls);
    }

    /** Descends along one arc. */
    method BuildChild(dawg: DawgBuilder, dawgChildId: nat, dicId: nat, offset: nat,
                      ghost g: nat, ghost j: nat, ghost before: Plan, ghost arranged: Plan, ghost size: nat)
      returns (outcome: Outcome)
      requires dawg.Readable() && g in dawg.groups && j < |dawg.groups[g]| && dawgChildId == g + j
      requires g in dawg.lang
      requires Arranged(before, arranged, dicId, offset, dawg.lang[g], ArcLabels(dawg.groups[g]))
      requires before.pending <= before.nodes.Keys
      requires Ready() && Extends(before.nodes, plan.nodes) && Extends(arranged.nodes, plan.nodes)
      requires SharedOk(table, dawg.isIntersections.bits, dawg.lang, plan.placed)
      requires plan.pending == PendingFrom(before.pending - {dicId}, offset, ArcLabels(dawg.groups[g]),
                                           NextLabelOf(dawg.groups[g], j))
      requires |units| <= size + BLOCK_SIZE * (1 + Bytes(Below(dawg.lang[g], NextLabelOf(dawg.groups[g], j))))
      modifies this`units, this`extrasHead, this`labels, this`table, this`free, this`plan, this`limbo, extras
      ensures outcome == Built || outcome == Failed(TooLargeOffset)
      ensures outcome == Built ==>
        && Ready() && Extends(before.nodes, plan.nodes) && Extends(arranged.nodes, plan.nodes)
        && SharedOk(table, dawg.isIntersections.bits, dawg.lang, plan.placed) && EntriesKept(old(table), table)
        && plan.pending == PendingFrom(before.pending - {dicId}, offset, ArcLabels(dawg.groups[g]),
                                       NextLabelOf(dawg.groups[g], j + 1))
        && |units| <= size + BLOCK_SIZE * (1 + Bytes(Below(dawg.lang[g], NextLabelOf(dawg.groups[g], j + 1))))
      ensures |units| <= size + BLOCK_SIZE * Weight(dawg.lang[g])
      ensures outcome.Failed? ==> OutOfOffsets()
      decreases g, 0
    {
      hide Weight, Below, Bytes;
      hide Graph, BitVector.Valid, BitVector.Ranked, State, AtRest, Xor, UnitChild;
      hide Arranged, PendingFrom, ChildNodes, SharedOk, Ones, ArcLabels, After, ArcsAscend, EntriesKept, Entry;
      EntriesSame(table);
      ghost var arcs := dawg.groups[g];
      ghost var plan0 := plan;
      ReadArc(dawg.units, dawg.labels, dawg.groups, dawg.lang, g, j);
      GroupsAscend(dawg.units, dawg.labels, dawg.groups, dawg.lang, g);
      ArcLabelAt(arcs, j);
      ChildrenApart(before, arranged, dicId, offset, dawg.lang[g], ArcLabels(arcs));
      NextArc(before.pending - {dicId}, offset, arcs, j);
      StateWeight(dawg.units, dawg.labels, dawg.groups, dawg.lang, g);
      LabelOrderOf(arcs, j);
      BelowGrows(dawg.lang[g], arcs[j].c, NextLabelOf(arcs, j + 1));
      BelowGrows(dawg.lang[g], NextLabelOf(arcs, j + 1), 256);
      if arcs[j].c != 0 {
        WeightStep(dawg.lang[g], arcs[j].c, NextLabelOf(arcs, j + 1));
      }
      var childLabel := dawg.labels[dawgChildId];
      outcome := Built;
      if childLabel != 0 {
        FollowArc(dawg.units, dawg.labels, dawg.groups, dawg.lang, g, j);
        GroupChild(before, arranged, plan, dicId, offset, dawg.lang[g], ArcLabels(arcs), childLabel);
        outcome := BuildFromDawg(dawg, dawgChildId, Xor(offset, childLabel));
        if outcome.Failed? {
          return;
        }
        ExtendsTrans(before.nodes, plan0.nodes, plan.nodes);
        ExtendsTrans(arranged.nodes, plan0.nodes, plan.nodes);
      }
    }

    // Whole builds.

    /** As created: nothing has been reserved. */
    ghost predicate Unused()
      reads this, extras
    {
      Valid() && AtRest() && units == [] && free == [] && plan == EMPTY_PLAN
    }

    method BuildArrayFromKeyset(ks: Keyset) returns (outcome: Outcome, ghost sem: map<nat, Dict>)
      requires Unused() && ks.Valid()
      modifies this`units, this`extrasHead, this`labels, this`free, this`plan, this`limbo, extras
      requires ks.values.None?
      ensures InRange(ks, 0, |ks.keys|, 0)
      ensures outcome == Built ==> WellFormed(ks) && Encodes(units, sem, RangeDict(ks, 0, |ks.keys|, 0))
      ensures outcome.Failed? ==> Reported(ks, outcome.error)
    {
      hide State, FillersLeft, OwnersPlaced, Justified, RangeOk, RangeDict, KeysetBytes, Weight;
      hide EmptyUnits, Represents, NoDeadNode;
      hide Extends, WellFormed;
      WholeInRange(ks);
      RangeAccepted(ks);
      var n := |ks.keys|;
      ghost var d := RangeDict(ks, 0, n, 0);
      sem := map[];
      PlaceRoot(d);
      if n > 0 {
        ghost var limit := LongestKey(ks.keys);
        outcome := BuildFromKeyset(ks, 0, n, 0, 0, limit);
        KeysetWeight(ks);
        if outcome.Failed? {
          return;
        }
        RootKept(RootPlan(d).nodes, plan.nodes, d);
      }
      outcome := Built;
      sem := Finish(d);
    }

    method BuildDawg(ks: Keyset, dawg: DawgBuilder) returns (outcome: Outcome)
      requires dawg.Unused() && DawgInput(ks)
      modifies dawg, dawg.isIntersections
      ensures outcome == FirstOutcome(ks, |ks.keys|)
      ensures outcome == Built ==> dawg.Finished(GraphDict(ks, |ks.keys|))
      ensures outcome == Built && Overrode(ks, |ks.keys|) == 0 ==> dawg.Shared(GraphDict(ks, |ks.keys|))
    {
      hide FirstOutcome, GraphDict, Overrode, NulMeets, DropsOut, GoesBehind, NulOnPath, KeyLeq, NulFreeKey, MeetsPath;
      hide DawgBuilder.Finished, DawgBuilder.Contents, DawgBuilder.Resting, DawgBuilder.Shared, DawgBuilder.Now;
      hide SlipsOrder, Misplaced, TakenAgain, PathEnds, Before, Run, InsertInto, FlushTo;
      dawg.Init();
      NoKeys(ks);
      RunStart(ks);
      for i := 0 to |ks.keys|
        invariant dawg.Resting() && FirstOutcome(ks, i) == Built
        invariant dawg.Contents() == GraphDict(ks, i) && dawg.repeats == Overrode(ks, i)
        invariant PathOf(dawg.levels, Before(ks, i)) && Run(ks, i) == Some(dawg.Sketch())
      {
        NextKey(ks, i);
        dawg.RestingLevels();
        NulMet(Before(ks, i), ks.keys[i], dawg.levels);
        FollowingMet(Before(ks, i), ks.keys[i], ks.following[i], dawg.levels);
        if KeyOutcome(ks, i) == Built {
          RunNext(ks, i);
        }
        outcome := dawg.Insert(ks.keys[i], ks.following[i], ks.Value(i));
        if outcome.Failed? {
          FirstOutcomeFixed(ks, i + 1, |ks.keys|);
          return;
        }
      }
      dawg.Finish();
      outcome := Built;
    }

    method BuildArrayFromDawg(dawg: DawgBuilder, ghost d: Dict) returns (outcome: Outcome, ghost sem: map<nat, Dict>)
      requires Unused() && dawg.Finished(d)
      modifies this`units, this`extrasHead, this`labels, this`table, this`free, this`plan, this`limbo, extras
      ensures outcome == Built || outcome == Failed(TooLargeOffset)
      ensures outcome == Built ==> Encodes(units, sem, d)
      ensures outcome == Failed(TooLargeOffset) ==> Weight(d) + 2 > MAX_OFFSETS / BLOCK_SIZE
    {
      hide State, FillersLeft, OwnersPlaced, Weight, EmptyUnits, Represents, NoDeadNode, Graph, Minimal;
      hide Extends, BitVector.Valid, SharedOk, Ones;
      StatesInside(dawg.units, dawg.labels, dawg.groups, dawg.lang);
      sem := map[];
      table := seq(dawg.isIntersections.numOnes, _ => 0);
      NothingShared(table, dawg.isIntersections.bits, dawg.lang, map[]);
      PlaceRoot(d);
      if dawg.Child(0) != 0 {
        outcome := BuildFromDawg(dawg, 0, 0);
        if outcome.Failed? {
          return;
        }
        RootKept(RootPlan(d).nodes, plan.nodes, d);
      }
      outcome := Built;
      sem := Finish(d);
    }

    method Build(ks: Keyset) returns (outcome: Outcome, ghost sem: map<nat, Dict>)
      requires Unused() && ks.Valid() && (ks.values.Some? ==> DawgInput(ks))
      modifies this`units, this`extrasHead, this`labels, this`table, this`free, this`plan, this`limbo, extras
      ensures outcome == Built ==> Accepted(ks) && Encodes(units, sem, KeysetDict(ks))
      ensures outcome.Failed? ==> Reported(ks, outcome.error)
    {
      hide State, FillersLeft, OwnersPlaced, Justified, RangeDict, GraphDict, Overrode, KeysetBytes, Weight;
      hide Encodes, FirstOutcome, KeyAccepted, InPlace, Misplaces, HasRoom, WellFormed;
      hide DawgBuilder.Finished;
      if ks.values.Some? {
        var dawgBuilder := new DawgBuilder();
        outcome := BuildDawg(ks, dawgBuilder);
        sem := map[];
        OutcomesBuilt(ks, |ks.keys|);
        if outcome == Built {
          outcome, sem := BuildArrayFromDawg(dawgBuilder, GraphDict(ks, |ks.keys|));
          KeysetWeight(ks);
        }
      } else {
        outcome, sem := BuildArrayFromKeyset(ks);
      }
    }
  }
}
