/**
  The state of the double-array builder between two steps: the free list over
  the extra records, the layout of the units, and the used flags agree.
 */
module BuilderState {
  import opened Bitwise
  import opened Dictionary
  import opened UnitWords
  import opened FreeList
  import opened Layouts
  import opened Blocks

  ghost predicate UsedFlags(extras: seq<ExtraUnit>, size: nat, plan: Plan)
    requires |extras| == NUM_EXTRAS
  {
    forall o: nat :: InWindow(size, o) ==> (At(extras, o).isUsed <==> IsUsed(plan, o))
  }

  /** Records that no unit has used yet are as they were created. */
  ghost predicate Unborn(extras: seq<ExtraUnit>, size: nat)
    requires |extras| == NUM_EXTRAS
  {
    forall j: nat :: size <= j < NUM_EXTRAS ==> !extras[j].isFixed && !extras[j].isUsed
  }

  ghost predicate State(units: seq<nat>, extras: seq<ExtraUnit>, head: nat, free: seq<nat>, plan: Plan,
                        limbo: set<nat>)
  {
    && |extras| == NUM_EXTRAS
    && FreeListOk(extras, head, |units|, free)
    && Layout(units, plan)
    && Covered(units, plan, free, limbo)
    && UsedFlags(extras, |units|, plan)
    && Unborn(extras, |units|)
  }

  /** Fillers lie in blocks that have left the window. */
  ghost predicate FillersLeft(size: nat, plan: Plan) {
    forall s: nat :: s in plan.filler ==> s + NUM_EXTRAS < size
  }

  ghost predicate OwnersPlaced(plan: Plan) {
    forall s: nat :: s in plan.owner ==> plan.owner[s] in plan.placed
  }

  /** plan' is plan with more fillers. */
  ghost predicate MoreFillers(plan: Plan, plan': Plan) {
    && plan' == plan.(filler := plan'.filler)
    && forall s: nat :: s in plan.filler ==> s in plan'.filler && plan'.filler[s] == plan.filler[s]
  }

  /** Units that were fixed keep their words, and only fillers were added. */
  ghost predicate Kept(units: seq<nat>, free: seq<nat>, plan: Plan, units': seq<nat>, plan': Plan) {
    && |units| <= |units'|
    && (forall s: nat :: s < |units| && s !in free ==> units'[s] == units[s])
    && MoreFillers(plan, plan')
  }

  lemma {:induction false} WindowAfterUnlink(extras: seq<ExtraUnit>, size: nat, free: seq<nat>, k: nat, plan: Plan)
    requires |extras| == NUM_EXTRAS && k < |free|
    requires forall id: nat :: InWindow(size, id) ==>
      At(Unlink(extras, free[k]), id).isUsed == At(extras, id).isUsed
    requires UsedFlags(extras, size, plan)
    ensures UsedFlags(Unlink(extras, free[k]), size, plan)
  {
    hide Unlink, IsUsed, At, InWindow;
  }

  lemma {:induction false} UnlinkFlags(extras: seq<ExtraUnit>, head: nat, size: nat, free: seq<nat>, k: nat, j: nat)
    requires |extras| == NUM_EXTRAS && FreeListOk(extras, head, size, free)
    requires k < |free| && size <= j < NUM_EXTRAS
    ensures Unlink(extras, free[k])[j].isFixed == extras[j].isFixed
    ensures Unlink(extras, free[k])[j].isUsed == extras[j].isUsed
  {
    hide Linked, Sorted, LinkAt;
    assert free[k] in free;
  }

  /** Taking unit free[k] out of the list puts it in limbo. */
  lemma {:induction false} ReserveState(units: seq<nat>, extras: seq<ExtraUnit>, head: nat, free: seq<nat>,
                                        plan: Plan, limbo: set<nat>, k: nat)
    requires |extras| == NUM_EXTRAS && State(units, extras, head, free, plan, limbo) && k < |free|
    ensures State(units, Unlink(extras, free[k]), UnlinkedHead(extras, head, |units|, free[k]),
                  Remove(free, k), plan, limbo + {free[k]})
    ensures forall id :: id in Remove(free, k) <==> id in free && id != free[k]
  {
    hide Unlink, UnlinkedHead, Remove, Layout, InWindow, IsUsed, Linked, At;
    UnlinkOk(extras, head, |units|, free, k);
    WindowAfterUnlink(extras, |units|, free, k, plan);
    RemoveIds(free, k);
    forall j: nat | |units| <= j < NUM_EXTRAS
      ensures !Unlink(extras, free[k])[j].isFixed && !Unlink(extras, free[k])[j].isUsed
    {
      UnlinkFlags(extras, head, |units|, free, k, j);
    }
  }

  lemma {:induction false} NotPlaced(units: seq<nat>, plan: Plan, o: nat)
    requires Layout(units, plan) && !IsUsed(plan, o)
    ensures o !in plan.placed
  {
    hide Xor, HasLabel, NoNulStep, HasLeaf, Value, Offset, HasWord;
    assert o in plan.placed ==> ChildrenOk(units, plan, o, plan.placed[o]);
  }

  /** A unit in limbo becomes a filler for an unused offset of its block. */
  lemma {:induction false} FillState(units: seq<nat>, extras: seq<ExtraUnit>, head: nat, free: seq<nat>,
                                     plan: Plan, s: nat, o: nat)
    requires State(units, extras, head, free, plan, {s})
    requires s > 0 && Block(s) == Block(o) && !IsUsed(plan, o)
    ensures State(units[s := SetLabel(units[s], Xor(s, o) % 256)], extras, head, free,
                  plan.(filler := plan.filler[s := o]), {})
    ensures MoreFillers(plan, plan.(filler := plan.filler[s := o]))
  {
    NotPlaced(units, plan, o);
    hide FreeListOk, Unborn, Layout, InWindow, Xor, SetLabel, Block, At;
    FillLayout(units, plan, s, o);
  }

  /** One more block of blank units, all free. */
  lemma {:induction false} AppendBlockState(units: seq<nat>, extras: seq<ExtraUnit>, now: seq<ExtraUnit>, head: nat,
                                       free: seq<nat>, plan: Plan, more: seq<nat>)
    requires |extras| == NUM_EXTRAS && |now| == NUM_EXTRAS
    requires State(units, extras, head, free, plan, {})
    requires BlockAppended(extras, now, head, |units|)
    requires forall j: nat :: |units| + 256 <= j < NUM_EXTRAS ==> !now[j].isFixed && !now[j].isUsed
    requires forall id :: id in free ==> InWindow(|units| + 256, id)
    requires more == seq(256, _ => 0)
    ensures State(units + more, now, head, free + BlockIds(|units|), plan, {})
  {
    AppendOk(extras, now, head, |units|, free);
    ExtendLayout(units, more, plan);
    hide FreeListOk, BlockAppended, At;
    AppendUsed(units, extras, now, plan);
    AppendCovered(units, free, plan, more);
  }

  lemma {:induction false} UsedInside(units: seq<nat>, plan: Plan, o: nat)
    requires Layout(units, plan) && IsUsed(plan, o)
    ensures o < |units|
  {
    hide Xor, HasLabel, NoNulStep, HasLeaf, Value, Offset, HasWord;
    if o == 0 {
      assert UnitOk(units, plan, o);
    } else {
      assert ChildrenOk(units, plan, o, plan.placed[o]);
    }
  }

  lemma {:induction false} AppendUsed(units: seq<nat>, extras: seq<ExtraUnit>, now: seq<ExtraUnit>, plan: Plan)
    requires |extras| == NUM_EXTRAS && |now| == NUM_EXTRAS
    requires UsedFlags(extras, |units|, plan) && Layout(units, plan)
    requires forall id: nat :: InWindow(|units| + 256, id) ==>
      At(now, id).isUsed == (id < |units| && At(extras, id).isUsed)
    ensures UsedFlags(now, |units| + 256, plan)
  {
    hide At, Xor, HasLabel, NoNulStep, HasLeaf, Value, Offset, HasWord;
    forall o: nat | InWindow(|units| + 256, o)
      ensures At(now, o).isUsed <==> IsUsed(plan, o)
    {
      if o < |units| {
        assert InWindow(|units|, o);
      } else if IsUsed(plan, o) {
        UsedInside(units, plan, o);
      }
    }
  }

  lemma {:induction false} AppendCovered(units: seq<nat>, free: seq<nat>, plan: Plan, more: seq<nat>)
    requires Layout(units, plan) && Covered(units, plan, free, {}) && |more| == 256
    requires forall i :: 0 <= i < |more| ==> more[i] == 0
    requires Sorted(free) && forall id :: id in free ==> id < |units|
    ensures Covered(units + more, plan, free + BlockIds(|units|), {})
  {
    hide Xor, HasLabel, NoNulStep, HasLeaf, Value, Offset, HasWord;
    var after, all := units + more, free + BlockIds(|units|);
    AppendIds(|units|, free);
    hide BlockIds, Sorted;
    forall s: nat | s in all
      ensures Blank(after, plan, s)
    {
      if s in free {
        assert Blank(units, plan, s);
      } else {
        NewIsBlank(units, plan, s);
      }
    }
  }

  lemma {:induction false} NewIsBlank(units: seq<nat>, plan: Plan, s: nat)
    requires Layout(units, plan) && |units| <= s
    ensures s !in plan.owner && s !in plan.filler && s !in plan.nodes
  {
    hide Xor, HasLabel, NoNulStep, HasLeaf, Value, Offset, HasWord;
    assert s in plan.owner ==> OwnedOk(units, plan, s);
    assert s in plan.filler ==> FillerOk(units, plan, s);
    assert s in plan.nodes ==> UnitOk(units, plan, s);
  }

  lemma {:induction false} FreeInside(units: seq<nat>, extras: seq<ExtraUnit>, head: nat, free: seq<nat>,
                                      plan: Plan, limbo: set<nat>)
    requires State(units, extras, head, free, plan, limbo)
    ensures |units| % 256 == 0
    ensures forall id :: id in free ==> InWindow(|units|, id)
  {
  }

  /** The fixed flags tell which units of the window are free. */
  lemma {:induction false} FixedFlag(units: seq<nat>, extras: seq<ExtraUnit>, head: nat, free: seq<nat>,
                                     plan: Plan, limbo: set<nat>, id: nat)
    requires State(units, extras, head, free, plan, limbo) && InWindow(|units|, id)
    ensures |extras| == NUM_EXTRAS
    ensures At(extras, id).isFixed <==> id !in free
    ensures At(extras, id).isUsed <==> IsUsed(plan, id)
  {
    hide At, Linked, Layout, Covered, IsUsed;
  }

  /** If every offset of a block is used, none of its units is free. */
  lemma {:induction false} BlockChoice(units: seq<nat>, extras: seq<ExtraUnit>, head: nat, free: seq<nat>,
                                       plan: Plan, limbo: set<nat>, b: nat, s: nat)
    requires State(units, extras, head, free, plan, limbo)
    requires s in free && Block(s) == b && s > 0
    ensures !forall o: nat :: 256 * b <= o < 256 * b + 256 ==> IsUsed(plan, o)
  {
    hide At, Linked, Layout, IsUsed, FreeListOk;
    assert Blank(units, plan, s);
    UnusedExists(units, plan, b, s);
  }

  lemma {:induction false} KeptSame(units: seq<nat>, free: seq<nat>, plan: Plan)
    ensures Kept(units, free, plan, units, plan)
  {
  }

  lemma {:induction false} KeptExtend(units: seq<nat>, free: seq<nat>, plan: Plan, units': seq<nat>, plan': Plan,
                                      more: seq<nat>)
    requires Kept(units, free, plan, units', plan')
    ensures Kept(units, free, plan, units' + more, plan')
  {
  }

  /** The head and the tail of the circle are units of the window. */
  lemma {:induction false} HeadInside(units: seq<nat>, extras: seq<ExtraUnit>, head: nat, free: seq<nat>,
                                      plan: Plan, limbo: set<nat>)
    requires State(units, extras, head, free, plan, limbo)
    ensures |extras| == NUM_EXTRAS
    ensures head == |units| || (head in free && At(extras, head).prev in free)
    ensures head == |units| <==> free == []
    ensures |units| % 256 == 0
    ensures forall id :: id in free ==> InWindow(|units|, id)
    ensures forall j: nat :: |units| <= j < NUM_EXTRAS ==> !extras[j].isFixed && !extras[j].isUsed
  {
    FreeInside(units, extras, head, free, plan, limbo);
    hide At, Linked, Layout, Covered, UsedFlags;
    if free != [] {
      Neighbours(extras, free, 0);
      assert free[0] in free;
    }
  }

  lemma {:induction false} LimboBlank(units: seq<nat>, extras: seq<ExtraUnit>, head: nat, free: seq<nat>,
                                      plan: Plan, limbo: set<nat>, s: nat)
    requires State(units, extras, head, free, plan, limbo) && s in limbo
    ensures Blank(units, plan, s) && s !in free
  {
    hide At, Linked, Layout, FreeListOk, UsedFlags;
  }

  /** Once the oldest block is fixed, every free unit stays in the window of one more block. */
  lemma {:induction false} BlocksLeft(before: seq<nat>, free: seq<nat>, size: nat)
    requires size % BLOCK_SIZE == 0
    requires forall id :: id in before ==> InWindow(size, id)
    requires if size / BLOCK_SIZE + 1 > 16
             then forall x :: x in free <==> x in before && Block(x) != size / BLOCK_SIZE - 16
             else free == before
    ensures forall id :: id in free ==> InWindow(size + BLOCK_SIZE, id)
  {
    forall id | id in free
      ensures InWindow(size + BLOCK_SIZE, id)
    {
      assert id in before;
    }
  }

  /** What leaves the window of 4096 units when 256 are added is no longer free. */
  lemma {:induction false} WindowLeft(before: seq<nat>, free: seq<nat>, size: nat)
    requires size % BLOCK_SIZE == 0
    requires forall id :: id in before ==> InWindow(size, id)
    requires if size / BLOCK_SIZE + 1 > 16
             then forall x :: x in free <==> x in before && Block(x) != size / BLOCK_SIZE - 16
             else free == before
    ensures forall x: nat :: x in free <==> x in before && x + 4096 >= size + 256
    ensures forall x: nat :: x in free ==> x < size
  {
    forall x: nat | x in before
      ensures size / BLOCK_SIZE + 1 > 16 ==> (Block(x) != size / BLOCK_SIZE - 16 <==> x + 4096 >= size + 256)
    {
      assert InWindow(size, x);
    }
  }

  lemma {:induction false} FillersLeave(before: Plan, after: Plan, size: nat)
    requires size % BLOCK_SIZE == 0 && FillersLeft(size, before)
    requires if size / BLOCK_SIZE + 1 > 16
             then forall s: nat :: s in after.filler ==> s in before.filler || Block(s) == size / BLOCK_SIZE - 16
             else after == before
    ensures FillersLeft(size + BLOCK_SIZE, after)
  {
    forall s: nat | s in after.filler
      ensures s + NUM_EXTRAS < size + BLOCK_SIZE
    {
      if s in before.filler {
        assert s + NUM_EXTRAS < size;
      }
    }
  }

  lemma {:induction false} KeptFill(units0: seq<nat>, free0: seq<nat>, plan0: Plan, units: seq<nat>, plan: Plan,
                                    units': seq<nat>, plan': Plan, s: nat)
    requires Kept(units0, free0, plan0, units, plan) && MoreFillers(plan, plan')
    requires s in free0 && |units'| == |units|
    requires forall i :: 0 <= i < |units| && i != s ==> units'[i] == units[i]
    ensures Kept(units0, free0, plan0, units', plan')
  {
  }

  /** A reserved unit receives its word as the child for label c of offset o. */
  lemma {:induction false} ChildState(units: seq<nat>, extras: seq<ExtraUnit>, head: nat, free: seq<nat>,
                                      plan: Plan, o: nat, d: Dict, c: Byte, word: nat)
    requires State(units, extras, head, free, plan, {Xor(o, c)})
    requires 0 < o && o !in plan.placed && 0 < Xor(o, c)
    requires if c == 0 then word >= TOP_BIT else word < TOP_BIT && HasWord(word, c) && !HasLeaf(word)
    ensures Xor(o, c) < |units|
    ensures State(units[Xor(o, c) := word], extras, head, free, AddChild(plan, o, d, c), {})
  {
    hide FreeListOk, Unborn, InWindow, Xor, HasWord, HasLeaf, At, Layout, HasLabel, After;
    var s := Xor(o, c);
    assert Blank(units, plan, s);
    ChildLayout(units, plan, o, d, c, word);
    assert UsedFlags(extras, |units|, AddChild(plan, o, d, c)) by {
      hide Covered;
    }
    hide UsedFlags;
  }

  lemma {:induction false} PendingState(units: seq<nat>, extras: seq<ExtraUnit>, head: nat, free: seq<nat>,
                                        plan: Plan, limbo: set<nat>, id: nat, word: nat)
    requires State(units, extras, head, free, plan, limbo) && id in plan.pending && id < |units|
    requires word < TOP_BIT && word % 256 == units[id] % 256
    requires id in plan.nodes && (HasLeaf(word) ==> [] in plan.nodes[id])
    ensures State(units[id := word], extras, head, free, plan, limbo)
  {
    PendingLayout(units, plan, id, word);
    hide FreeListOk, Unborn, InWindow, HasLeaf, At, Layout, UsedFlags;
  }

  lemma {:induction false} DoneState(units: seq<nat>, extras: seq<ExtraUnit>, head: nat, free: seq<nat>,
                                     plan: Plan, limbo: set<nat>, id: nat, word: nat)
    requires State(units, extras, head, free, plan, limbo) && id in plan.pending && id < |units|
    requires word < TOP_BIT && word % 256 == units[id] % 256
    requires id in plan.nodes && NodeDone(word, plan, id)
    ensures State(units[id := word], extras, head, free, plan.(pending := plan.pending - {id}), limbo)
  {
    DoneLayout(units, plan, id, word);
    DoneCovered(units, free, plan, limbo, id, word);
    DoneUsed(extras, |units|, plan, id);
    hide FreeListOk, Unborn, InWindow, HasLeaf, Layout, Covered, UsedFlags, NodeDone;
  }

  lemma {:induction false} DoneCovered(units: seq<nat>, free: seq<nat>, plan: Plan, limbo: set<nat>, id: nat, word: nat)
    requires Covered(units, plan, free, limbo) && id in plan.nodes && id < |units|
    ensures Covered(units[id := word], plan.(pending := plan.pending - {id}), free, limbo)
  {
  }

  lemma {:induction false} DoneUsed(extras: seq<ExtraUnit>, size: nat, plan: Plan, id: nat)
    requires |extras| == NUM_EXTRAS && UsedFlags(extras, size, plan)
    ensures UsedFlags(extras, size, plan.(pending := plan.pending - {id}))
  {
    hide At, InWindow;
  }

  lemma {:induction false} SameUse(plan: Plan, plan': Plan)
    requires plan.nodes == plan'.nodes && plan.placed == plan'.placed
    ensures forall o: nat :: IsUsed(plan, o) == IsUsed(plan', o)
  {
  }

  function SetUsed(extras: seq<ExtraUnit>, o: nat): (r: seq<ExtraUnit>)
    requires |extras| == NUM_EXTRAS
    ensures |r| == NUM_EXTRAS
  {
    extras[o % NUM_EXTRAS := At(extras, o).(isUsed := true)]
  }

  lemma {:induction false} SetUsedRecord(extras: seq<ExtraUnit>, size: nat, o: nat, id: nat)
    requires |extras| == NUM_EXTRAS && InWindow(size, o) && InWindow(size, id)
    ensures var r := At(SetUsed(extras, o), id); var e := At(extras, id);
      r.isUsed == (e.isUsed || id == o) && r.isFixed == e.isFixed && r.next == e.next && r.prev == e.prev
  {
    SlotsApart(size, o, id);
  }

  lemma {:induction false} SetUsedList(extras: seq<ExtraUnit>, head: nat, size: nat, free: seq<nat>, o: nat)
    requires FreeListOk(extras, head, size, free) && InWindow(size, o)
    ensures FreeListOk(SetUsed(extras, o), head, size, free)
  {
    hide At, SetUsed, InWindow, Sorted;
    forall i | 0 <= i < |free|
      ensures LinkAt(SetUsed(extras, o), free, i)
    {
      assert LinkAt(extras, free, i);
      SetUsedRecord(extras, size, o, free[i]);
      SetUsedRecord(extras, size, o, free[Cyclic(i, |free|)]);
    }
    forall id: nat | InWindow(size, id)
      ensures At(SetUsed(extras, o), id).isFixed <==> id !in free
    {
      SetUsedRecord(extras, size, o, id);
    }
  }

  /** An offset whose children are all there becomes used. */
  lemma {:induction false} PlaceState(units: seq<nat>, extras: seq<ExtraUnit>, head: nat, free: seq<nat>,
                                      plan: Plan, o: nat, d: Dict)
    requires |extras| == NUM_EXTRAS
    requires State(units, extras, head, free, plan, {}) && InWindow(|units|, o)
    requires 0 < o && o !in plan.placed && ChildrenOk(units, plan, o, d) && FillersLeft(|units|, plan)
    ensures State(units, SetUsed(extras, o), head, free, plan.(placed := plan.placed[o := d]), {})
  {
    hide HasLeaf, At, IsUsed, SetUsed, Linked, LinkAt, Sorted, ChildrenOk;
    var plan' := plan.(placed := plan.placed[o := d]);
    SetUsedList(extras, head, |units|, free, o);
    FillerFar(units, plan, o);
    PlaceLayout(units, plan, o, d);
    PlaceUsed(units, extras, plan, o, d);
    PlaceUnborn(extras, |units|, o);
    hide Layout, FreeListOk, UsedFlags, Unborn;
    assert Covered(units, plan', free, {});
  }

  lemma {:induction false} FillerFar(units: seq<nat>, plan: Plan, o: nat)
    requires Layout(units, plan) && FillersLeft(|units|, plan) && InWindow(|units|, o)
    ensures forall s :: s in plan.filler ==> plan.filler[s] != o
  {
    hide HasLeaf, HasWord, Offset, Value, Xor, NoNulStep;
    forall s | s in plan.filler
      ensures plan.filler[s] != o
    {
      assert FillerOk(units, plan, s);
      assert s + NUM_EXTRAS < |units|;
      SameBlockFar(|units|, s, o);
    }
  }

  lemma {:induction false} SameBlockFar(size: nat, s: nat, o: nat)
    requires size % 256 == 0 && s + NUM_EXTRAS < size && InWindow(size, o)
    ensures Block(s) != Block(o)
  {
  }

  lemma {:induction false} PlaceUsed(units: seq<nat>, extras: seq<ExtraUnit>, plan: Plan, o: nat, d: Dict)
    requires |extras| == NUM_EXTRAS && UsedFlags(extras, |units|, plan) && InWindow(|units|, o) && o > 0
    ensures UsedFlags(SetUsed(extras, o), |units|, plan.(placed := plan.placed[o := d]))
  {
    hide At, SetUsed, InWindow;
    forall x: nat | InWindow(|units|, x)
      ensures At(SetUsed(extras, o), x).isUsed <==> IsUsed(plan.(placed := plan.placed[o := d]), x)
    {
      SetUsedRecord(extras, |units|, o, x);
    }
  }

  lemma {:induction false} PlaceUnborn(extras: seq<ExtraUnit>, size: nat, o: nat)
    requires |extras| == NUM_EXTRAS && Unborn(extras, size) && InWindow(size, o)
    ensures Unborn(SetUsed(extras, o), size)
  {
  }

  /** Units of one block enter and leave the window together. */
  lemma {:induction false} WindowBlock(size: nat, a: nat, b: nat)
    requires size % 256 == 0 && InWindow(size, a) && Block(a) == Block(b)
    ensures InWindow(size, b)
  {
  }

  /** An offset at the start of a new block, moved to the column of the parent unit. */
  lemma {:induction false} FreshOffset(size: nat, id: nat)
    requires size % 256 == 0
    ensures MasksAllow(Xor(id, size + id % 256))
    ensures Block(size + id % 256) == Block(size) && size <= size + id % 256 < size + 256
  {
    hide Xor;
    XorLowByte(id, size + id % 256);
    XorSelf(id % 256);
  }

  /** Where the children of a node may go: a fresh block, or free units of the window. */
  ghost predicate ValidChoice(size: nat, free: seq<nat>, plan: Plan, labels: seq<Byte>, id: nat, offset: nat) {
    && MasksAllow(Xor(id, offset))
    && (|| size <= offset < size + 256
        || (&& InWindow(size, offset) && !IsUsed(plan, offset)
            && forall i :: 0 <= i < |labels| ==> Xor(offset, labels[i]) in free))
  }

  /** The children fit when the one with the first label takes the free unit u. */
  ghost predicate FitsAt(free: seq<nat>, plan: Plan, labels: seq<Byte>, id: nat, u: nat)
    requires |labels| > 0
  {
    var offset := Xor(u, labels[0]);
    && !IsUsed(plan, offset) && MasksAllow(Xor(id, offset))
    && forall i :: 1 <= i < |labels| ==> Xor(offset, labels[i]) in free
  }

  /** u is the least free unit at which the children fit. */
  ghost predicate FitsFirst(free: seq<nat>, plan: Plan, labels: seq<Byte>, id: nat, u: nat)
    requires |labels| > 0
  {
    && u in free && FitsAt(free, plan, labels, id, u)
    && forall v: nat :: v in free && v < u ==> !FitsAt(free, plan, labels, id, v)
  }

  /** The offset for the least such unit, or one in a block yet to be added if there is none. */
  ghost predicate FirstFit(size: nat, free: seq<nat>, plan: Plan, labels: seq<Byte>, id: nat, offset: nat)
    requires |labels| > 0
  {
    && (forall u: nat :: FitsFirst(free, plan, labels, id, u) ==> offset == Xor(u, labels[0]))
    && ((forall u: nat :: u in free ==> !FitsAt(free, plan, labels, id, u)) ==> offset == size + id % 256)
  }

  lemma {:induction false} FitFound(free: seq<nat>, plan: Plan, labels: seq<Byte>, id: nat, k: nat)
    requires |labels| > 0 && Sorted(free) && k < |free| && FitsAt(free, plan, labels, id, free[k])
    requires forall j: nat :: j < k ==> !FitsAt(free, plan, labels, id, free[j])
    ensures FitsFirst(free, plan, labels, id, free[k])
    ensures forall u: nat :: FitsFirst(free, plan, labels, id, u) ==> u == free[k]
  {
    hide FitsAt;
    forall v: nat | v in free && v < free[k]
      ensures !FitsAt(free, plan, labels, id, v)
    {
      var j: nat :| j < |free| && free[j] == v;
    }
  }

  lemma {:induction false} FreeSorted(units: seq<nat>, extras: seq<ExtraUnit>, head: nat, free: seq<nat>,
                                      plan: Plan, limbo: set<nat>)
    requires State(units, extras, head, free, plan, limbo)
    ensures Sorted(free)
  {
    hide Layout, Covered, UsedFlags, Sorted, Linked;
  }

  lemma {:induction false} KeptPlan(units: seq<nat>, free: seq<nat>, plan: Plan, units': seq<nat>, plan': Plan)
    requires Kept(units, free, plan, units', plan')
    ensures plan' == plan.(filler := plan'.filler)
  {
  }

  lemma {:induction false} NothingFree(size: nat, before: seq<nat>, free: seq<nat>)
    requires size % 256 == 0 && forall id :: id in before ==> InWindow(size, id)
    requires var begin := if size / 256 > 16 then size / 256 - 16 else 0;
      forall x :: x in free ==> x in before && !(begin <= Block(x) < size / 256)
    ensures free == []
  {
    FirstMember(free);
  }

  lemma {:induction false} FirstMember(free: seq<nat>)
    ensures free != [] ==> free[0] in free
  {
  }

  /** Following the list from free[k] leads on to free[k + 1], or back to the head at the end. */
  lemma {:induction false} FreeOrder(units: seq<nat>, extras: seq<ExtraUnit>, head: nat, free: seq<nat>,
                                     plan: Plan, limbo: set<nat>, k: nat)
    requires State(units, extras, head, free, plan, limbo) && k < |free|
    ensures |extras| == NUM_EXTRAS && head == free[0]
    ensures free[k] in free && InWindow(|units|, free[k])
    ensures var next := At(extras, free[k]).next;
      if k + 1 == |free| then next == head else next == free[k + 1] && next != head
  {
    hide At, Layout, Covered, UsedFlags;
    Neighbours(extras, free, k);
    if k + 1 < |free| {
      SortedIndex(free, k + 1, 0);
    }
  }

  // Placing the children of one node, label by label.

  ghost predicate ChildPlaced(plan: Plan, offset: nat, d: Dict, done: seq<Byte>, c: Byte) {
    var s := Xor(offset, c);
    && (s in plan.owner && plan.owner[s] == offset <==> c in done)
    && (c in done && c != 0 ==> s in plan.nodes && plan.nodes[s] == After(d, c))
  }

  ghost function ChildNodes(offset: nat, labels: seq<Byte>): set<nat> {
    set c: Byte | c in labels && c != 0 :: Xor(offset, c)
  }

  ghost predicate Extends(before: map<nat, Dict>, after: map<nat, Dict>) {
    forall id :: id in before ==> id in after && after[id] == before[id]
  }

  /** The children for the labels in `done` are there, and nothing else changed from `start`. */
  ghost predicate Placing(start: Plan, plan: Plan, offset: nat, d: Dict, done: seq<Byte>) {
    && (forall c: Byte :: ChildPlaced(plan, offset, d, done, c))
    && (forall s: nat :: s in plan.owner ==> plan.owner[s] in plan.placed || plan.owner[s] == offset)
    && plan.placed == start.placed
    && plan.pending == start.pending + ChildNodes(offset, done)
    && Extends(start.nodes, plan.nodes)
    && (forall s :: s in ChildNodes(offset, done) ==> s !in start.nodes)
  }

  lemma {:induction false} StartPlacing(plan: Plan, offset: nat, d: Dict)
    requires OwnersPlaced(plan) && offset !in plan.placed
    ensures Placing(plan, plan, offset, d, [])
  {
    hide Xor, After;
    assert ChildNodes(offset, []) == {};
    forall c: Byte
      ensures ChildPlaced(plan, offset, d, [], c)
    {
      var s := Xor(offset, c);
      assert s in plan.owner ==> plan.owner[s] in plan.placed;
    }
  }

  lemma {:induction false} FillPlacing(start: Plan, plan: Plan, plan': Plan, offset: nat, d: Dict, done: seq<Byte>)
    requires Placing(start, plan, offset, d, done) && MoreFillers(plan, plan')
    ensures Placing(start, plan', offset, d, done)
  {
    hide Xor, After;
    forall c: Byte
      ensures ChildPlaced(plan', offset, d, done, c)
    {
      assert ChildPlaced(plan, offset, d, done, c);
    }
  }

  lemma {:induction false} StepChild(plan: Plan, offset: nat, d: Dict, done: seq<Byte>, c: Byte, b: Byte)
    requires ChildPlaced(plan, offset, d, done, b)
    ensures ChildPlaced(AddChild(plan, offset, d, c), offset, d, done + [c], b)
  {
    hide Xor, After;
    XorDistinct(offset, b, c);
  }

  lemma {:induction false} StepPlacing(start: Plan, plan: Plan, offset: nat, d: Dict, done: seq<Byte>, c: Byte)
    requires Placing(start, plan, offset, d, done)
    requires Xor(offset, c) !in plan.owner && Xor(offset, c) !in plan.nodes
    ensures Placing(start, AddChild(plan, offset, d, c), offset, d, done + [c])
  {
    hide Xor, After, ChildPlaced, ChildNodes;
    forall b: Byte
      ensures ChildPlaced(AddChild(plan, offset, d, c), offset, d, done + [c], b)
    {
      StepChild(plan, offset, d, done, c, b);
    }
    MoreChildNodes(offset, done, c);
  }

  lemma {:induction false} MoreChildNodes(offset: nat, done: seq<Byte>, c: Byte)
    ensures ChildNodes(offset, done + [c]) ==
      ChildNodes(offset, done) + (if c == 0 then {} else {Xor(offset, c)})
  {
    hide Xor;
    forall s
      ensures s in ChildNodes(offset, done + [c]) <==>
        s in ChildNodes(offset, done) || (c != 0 && s == Xor(offset, c))
    {
    }
  }

  lemma {:induction false} DonePlacing(start: Plan, plan: Plan, units: seq<nat>, offset: nat, d: Dict, labels: seq<Byte>)
    requires Placing(start, plan, offset, d, labels)
    requires 0 < offset < |units| && d != map[] && NoNulStep(d)
    requires forall c: Byte :: c in labels <==> HasLabel(d, c)
    requires [] in d ==> units[offset] >= TOP_BIT && Value(units[offset]) == d[[]]
    ensures ChildrenOk(units, plan, offset, d)
    ensures OwnersPlaced(plan.(placed := plan.placed[offset := d]))
  {
    hide Xor, After, NoNulStep, HasLabel, Value;
    forall c: Byte
      ensures ChildOk(plan, offset, d, c)
    {
      assert ChildPlaced(plan, offset, d, labels, c);
    }
  }

  /** The word of the parent unit while its children are being placed. */
  ghost predicate ParentWord(u: nat, rel: nat, column: nat, leaf: bool) {
    && u < TOP_BIT && u % 256 == column && Offset(u) == rel && (leaf ==> HasLeaf(u))
  }

  lemma {:induction false} NodeFixed(units: seq<nat>, extras: seq<ExtraUnit>, head: nat, free: seq<nat>,
                                     plan: Plan, limbo: set<nat>, id: nat)
    requires State(units, extras, head, free, plan, limbo) && id in plan.nodes
    ensures id < |units| && id !in free && id !in limbo && units[id] < TOP_BIT
  {
    hide At, FreeListOk, UsedFlags, HasWord, HasLeaf, Offset, Xor;
    assert UnitOk(units, plan, id);
    assert id in free ==> Blank(units, plan, id);
    assert id in limbo ==> Blank(units, plan, id);
  }

  lemma {:induction false} BlankLabel(c: Byte)
    ensures var word := SetLabel(0, c); word < TOP_BIT && HasWord(word, c) && !HasLeaf(word)
  {
    hide SetLabel;
    WriteLabel(0, c);
  }

  lemma {:induction false} LeafBit(u: nat)
    requires u < TOP_BIT
    ensures var w := SetHasLeaf(u);
      HasLeaf(w) && w < TOP_BIT && w % 256 == u % 256 && Offset(w) == Offset(u)
  {
    WriteHasLeaf(u);
    assert Label(u) == u % 256 && Label(SetHasLeaf(u)) == SetHasLeaf(u) % 256;
  }

  lemma {:induction false} LimboWord(units: seq<nat>, extras: seq<ExtraUnit>, head: nat, free: seq<nat>,
                                     plan: Plan, limbo: set<nat>, s: nat)
    requires State(units, extras, head, free, plan, limbo) && s in limbo
    ensures s < |units| && units[s] == 0 && s !in plan.owner && s !in plan.nodes && s !in free
  {
    LimboBlank(units, extras, head, free, plan, limbo, s);
  }

  ghost predicate Ascending(labels: seq<Byte>) {
    forall i, j :: 0 <= i < j < |labels| ==> labels[i] < labels[j]
  }

  /** Increasing, but for several zeros at the front. */
  ghost predicate Orderly(labels: seq<Byte>) {
    forall i, j :: 0 <= i < j < |labels| ==> labels[i] < labels[j] || labels[j] == 0 == labels[i]
  }

  lemma {:induction false} AscendingOrderly(labels: seq<Byte>)
    requires Ascending(labels)
    ensures Orderly(labels)
  {
  }

  /** The units for the labels from position i on can still be reserved; a zero again needs none. */
  ghost predicate Room(size: nat, free: seq<nat>, labels: seq<Byte>, i: nat, offset: nat) {
    && 0 !in free
    && (|| (i == 0 && size <= offset < size + 256)
        || (&& InWindow(size, offset)
            && forall j :: i <= j < |labels| && (i == 0 || labels[j] != 0) ==> Xor(offset, labels[j]) in free))
  }

  lemma {:induction false} ChoiceGivesRoom(size: nat, free: seq<nat>, plan: Plan, labels: seq<Byte>, id: nat, offset: nat)
    requires ValidChoice(size, free, plan, labels, id, offset) && 0 !in free
    requires 0 < size && forall o: nat :: o in plan.placed ==> o < size
    requires 0 in plan.nodes
    ensures Room(size, free, labels, 0, offset) && 0 < offset && offset !in plan.placed
    ensures MasksAllow(Xor(id, offset))
  {
    hide Xor;
  }

  lemma {:induction false} RoomWithin(size: nat, free: seq<nat>, labels: seq<Byte>, i: nat, offset: nat, free': seq<nat>)
    requires Room(size, free, labels, i, offset) && i < |labels| && Orderly(labels)
    requires Xor(offset, labels[i]) < size && size % 256 == 0
    requires forall x :: x in free' <==> x in free && x != Xor(offset, labels[i])
    ensures Room(size, free', labels, i + 1, offset)
  {
    hide Xor;
    XorByte(offset, labels[i]);
    forall j | i + 1 <= j < |labels| && labels[j] != 0
      ensures Xor(offset, labels[j]) in free'
    {
      XorDistinct(offset, labels[j], labels[i]);
    }
  }

  lemma {:induction false} RoomInNewBlock(size: nat, labels: seq<Byte>, i: nat, offset: nat, free': seq<nat>)
    requires i < |labels| && Orderly(labels) && 0 !in free'
    requires size % 256 == 0 && size <= offset < size + 256
    requires forall x :: size <= x < size + 256 && x != Xor(offset, labels[i]) ==> x in free'
    ensures Room(size + 256, free', labels, i + 1, offset)
    ensures size <= Xor(offset, labels[i]) < size + 256
  {
    hide Xor;
    XorByte(offset, labels[i]);
    SameBlockRange(size, offset, Xor(offset, labels[i]));
    forall j | i + 1 <= j < |labels| && labels[j] != 0
      ensures Xor(offset, labels[j]) in free'
    {
      XorByte(offset, labels[j]);
      SameBlockRange(size, offset, Xor(offset, labels[j]));
      XorDistinct(offset, labels[j], labels[i]);
    }
  }

  /** Reserving a unit that has just been taken out of the list changes nothing. */
  lemma {:induction false} UnlinkTwice(extras: seq<ExtraUnit>, id: nat)
    requires |extras| == NUM_EXTRAS
    ensures Unlink(Unlink(extras, id), id) == Unlink(extras, id)
  {
    var slot := id % NUM_EXTRAS;
    var once := Unlink(extras, id);
    assert once[slot].prev == extras[slot].prev && once[slot].next == extras[slot].next;
  }

  lemma {:induction false} HeadMoves(extras: seq<ExtraUnit>, head: nat, size: nat, id: nat)
    requires |extras| == NUM_EXTRAS && id < size
    ensures UnlinkedHead(extras, head, size, id) != id
  {
  }

  /** Setting the has-leaf bit again changes nothing. */
  lemma {:induction false} LeafAgain(u: nat, rel: nat, column: nat)
    requires ParentWord(u, rel, column, true)
    ensures SetHasLeaf(u) == u
  {
  }

  /** The unit for label 0 is in place already. */
  lemma {:induction false} PlacingAgain(start: Plan, plan: Plan, offset: nat, d: Dict, done: seq<Byte>)
    requires Placing(start, plan, offset, d, done) && 0 in done
    ensures Placing(start, plan, offset, d, done + [0])
  {
    hide Xor, After;
    forall c: Byte
      ensures ChildPlaced(plan, offset, d, done + [0], c)
    {
      assert ChildPlaced(plan, offset, d, done, c);
    }
    MoreChildNodes(offset, done, 0);
  }

  lemma {:induction false} SameBlockRange(size: nat, a: nat, b: nat)
    requires size % 256 == 0 && size <= a < size + 256 && a / 256 == b / 256
    ensures size <= b < size + 256
  {
  }

  lemma {:induction false} RoomRange(size: nat, free: seq<nat>, labels: seq<Byte>, i: nat, offset: nat)
    requires Room(size, free, labels, i, offset) && i < |labels| && size % 256 == 0
    requires i == 0 || labels[i] != 0
    requires forall id :: id in free ==> id < size
    requires size > 0
    ensures var s := Xor(offset, labels[i]);
      && 0 < s
      && (s in free || size <= s < size + 256)
      && (s < size ==> s in free && InWindow(size, offset))
      && (s >= size ==> i == 0 && size <= offset < size + 256)
  {
    hide Xor;
    XorByte(offset, labels[i]);
    if size <= offset < size + 256 {
      SameBlockRange(size, offset, Xor(offset, labels[i]));
    }
  }

  lemma {:induction false} PlacedInside(units: seq<nat>, extras: seq<ExtraUnit>, head: nat, free: seq<nat>,
                                        plan: Plan, limbo: set<nat>)
    requires State(units, extras, head, free, plan, limbo)
    ensures forall o: nat :: o in plan.placed ==> 0 < o < |units|
    ensures |units| % 256 == 0
    ensures 0 in plan.nodes ==> 0 < |units|
  {
    hide At, FreeListOk, UsedFlags, Covered;
    forall o: nat | o in plan.placed
      ensures 0 < o < |units|
    {
      assert ChildrenOk(units, plan, o, plan.placed[o]);
    }
    assert 0 in plan.nodes ==> UnitOk(units, plan, 0);
  }

  /** Storing the relative offset of a pending unit keeps its label and its has-leaf bit. */
  lemma {:induction false} StartWord(u: nat, rel: nat)
    requires u < TOP_BIT && OffsetFits(rel) && MasksAllow(rel)
    ensures var w := SetOffset(u, rel);
      && ParentWord(w, rel, u % 256, false)
      && (HasLeaf(w) <==> HasLeaf(u))
  {
    hide SetOffset, HasLeaf, Offset;
    MasksMatchPacking(rel);
    PackOffset(u, rel);
  }

  lemma {:induction false} PendingLeaf(units: seq<nat>, extras: seq<ExtraUnit>, head: nat, free: seq<nat>,
                                       plan: Plan, limbo: set<nat>, id: nat)
    requires State(units, extras, head, free, plan, limbo) && id in plan.pending
    ensures id in plan.nodes && id < |units| && units[id] < TOP_BIT
    ensures HasLeaf(units[id]) ==> [] in plan.nodes[id]
  {
    hide At, FreeListOk, UsedFlags, Covered, HasLeaf, HasWord;
    assert UnitOk(units, plan, id);
  }

  lemma {:induction false} ParentStep(u: nat, rel: nat, column: nat, leaf: bool, c: Byte, w: nat)
    requires ParentWord(u, rel, column, leaf)
    requires w == if c == 0 then SetHasLeaf(u) else u
    ensures ParentWord(w, rel, column, leaf || c == 0)
  {
    hide SetHasLeaf, HasLeaf, Offset;
    LeafBit(u);
  }

  lemma {:induction false} NextLabel(labels: seq<Byte>, i: nat)
    requires i < |labels|
    ensures labels[..i + 1] == labels[..i] + [labels[i]]
    ensures 0 in labels[..i + 1] <==> 0 in labels[..i] || labels[i] == 0
  {
  }

  lemma {:induction false} LeafLabelMeans(d: Dict)
    ensures HasLabel(d, 0) <==> [] in d
  {
  }

  lemma {:induction false} AddChildKeeps(plan: Plan, offset: nat, d: Dict, c: Byte, id: nat)
    requires id in plan.nodes && id in plan.pending && Xor(offset, c) !in plan.nodes
    ensures var plan' := AddChild(plan, offset, d, c);
      && id in plan'.nodes && plan'.nodes[id] == plan.nodes[id] && id in plan'.pending
      && plan'.placed == plan.placed && plan'.filler == plan.filler
  {
  }

  lemma {:induction false} KeptWords(units: seq<nat>, free: seq<nat>, plan: Plan, units': seq<nat>, plan': Plan)
    requires Kept(units, free, plan, units', plan')
    ensures |units| <= |units'|
    ensures forall s: nat :: s < |units| && s !in free ==> units'[s] == units[s]
    ensures MoreFillers(plan, plan')
    ensures plan'.nodes == plan.nodes && plan'.pending == plan.pending && plan'.placed == plan.placed
  {
  }

  lemma {:induction false} SameFillers(size: nat, plan: Plan, plan': Plan)
    requires plan.filler == plan'.filler && FillersLeft(size, plan)
    ensures FillersLeft(size, plan')
  {
  }

  lemma {:induction false} ParentWordFacts(u: nat, rel: nat, column: nat, leaf: bool)
    requires ParentWord(u, rel, column, leaf)
    ensures u < TOP_BIT && u % 256 == column
  {
  }

  /** What one arrangement adds: a used offset with its child units, all pending but done with dicId. */
  ghost predicate Arranged(before: Plan, after: Plan, dicId: nat, offset: nat, d: Dict, labels: seq<Byte>) {
    && after.placed == before.placed[offset := d]
    && after.pending == before.pending + ChildNodes(offset, labels) - {dicId}
    && Extends(before.nodes, after.nodes)
    && (forall s :: s in ChildNodes(offset, labels) ==> s !in before.nodes)
    && forall c: Byte :: c in labels && c != 0 ==>
      Xor(offset, c) in after.nodes && after.nodes[Xor(offset, c)] == After(d, c)
  }

  /** The unit for label 0 is the offset itself. */
  lemma {:induction false} ZeroLabel(offset: nat, c: Byte)
    ensures Xor(offset, c) == offset <==> c == 0
  {
    hide Xor;
    XorZero(offset);
    XorDistinct(offset, c, 0);
  }

  lemma {:induction false} RoomInside(size: nat, free: seq<nat>, labels: seq<Byte>, i: nat, offset: nat)
    requires Room(size, free, labels, i, offset) && i > 0
    ensures InWindow(size, offset) && 0 !in free
  {
  }

  lemma {:induction false} ParentDone(u: nat, plan: Plan, dicId: nat, offset: nat, column: nat, leaf: bool)
    requires ParentWord(u, Xor(dicId, offset), column, leaf)
    requires dicId in plan.nodes && (HasLeaf(u) ==> [] in plan.nodes[dicId])
    requires leaf <==> [] in plan.nodes[dicId]
    requires offset in plan.placed && plan.placed[offset] == plan.nodes[dicId]
    ensures NodeDone(u, plan, dicId)
  {
    hide Xor, HasLeaf, Offset;
    XorCancels(dicId, offset);
  }

  lemma {:induction false} PlacingArranged(start: Plan, plan: Plan, dicId: nat, offset: nat, d: Dict, labels: seq<Byte>)
    requires Placing(start, plan, offset, d, labels)
    ensures Arranged(start, plan.(placed := plan.placed[offset := d], pending := plan.pending - {dicId}),
                     dicId, offset, d, labels)
  {
    hide Xor, After, ChildNodes;
    forall c: Byte | c in labels && c != 0
      ensures Xor(offset, c) in plan.nodes && plan.nodes[Xor(offset, c)] == After(d, c)
    {
      assert ChildPlaced(plan, offset, d, labels, c);
    }
  }

  lemma {:induction false} UsedWrite(before: seq<ExtraUnit>, after: seq<ExtraUnit>, o: nat)
    requires |before| == NUM_EXTRAS && |after| == NUM_EXTRAS
    requires after == before[o % NUM_EXTRAS := before[o % NUM_EXTRAS].(isUsed := true)]
    ensures after == SetUsed(before, o)
  {
  }

  lemma {:induction false} SameOwners(plan: Plan, plan': Plan)
    requires OwnersPlaced(plan) && plan'.owner == plan.owner && plan'.placed == plan.placed
    ensures OwnersPlaced(plan')
  {
  }

  /** The word of the root: offset 1 and label 0. */
  lemma {:induction false} PackedRoot()
    ensures OffsetFits(1) && SetLabel(SetOffset(0, 1), 0) == 1024
  {
    SmallPacked(0, 1);
  }

  ghost function RootPlan(d: Dict): Plan {
    EMPTY_PLAN.(nodes := map[0 := d], pending := {0})
  }

  /** The root unit is reserved and written; everything is still to be placed. */
  lemma {:induction false} RootState(units: seq<nat>, extras: seq<ExtraUnit>, head: nat, free: seq<nat>, d: Dict)
    requires |extras| == NUM_EXTRAS && |units| == 256
    requires State(units, extras, head, free, EMPTY_PLAN, {0})
    ensures State(units[0 := 1024], SetUsed(extras, 0), head, free, RootPlan(d), {})
  {
    hide At, SetUsed, Linked, LinkAt, Sorted;
    SetUsedList(extras, head, 256, free, 0);
    PlaceUnborn(extras, 256, 0);
    RootLayout(units, d);
    assert Blank(units, EMPTY_PLAN, 0);
    hide FreeListOk, Layout, Unborn;
    forall o: nat | InWindow(256, o)
      ensures At(SetUsed(extras, 0), o).isUsed <==> IsUsed(RootPlan(d), o)
    {
      SetUsedRecord(extras, 256, 0, o);
    }
    forall s: nat | s in free
      ensures Blank(units[0 := 1024], RootPlan(d), s)
    {
      assert Blank(units, EMPTY_PLAN, s);
    }
    assert Covered(units[0 := 1024], RootPlan(d), free, {});
  }

  lemma {:induction false} RootLayout(units: seq<nat>, d: Dict)
    requires |units| == 256
    ensures Layout(units[0 := 1024], RootPlan(d))
  {
    assert !HasLeaf(1024);
  }

  lemma {:induction false} NoFillersYet(plan: Plan, size: nat)
    requires MoreFillers(EMPTY_PLAN, plan) && FillersLeft(size, plan) && size <= NUM_EXTRAS
    ensures plan == EMPTY_PLAN
  {
    forall s: nat
      ensures s !in plan.filler
    {
    }
    assert plan.filler == map[];
  }

  /** With nothing free, the units are those of a complete or of an empty array. */
  lemma {:induction false} FinalUnits(units: seq<nat>, extras: seq<ExtraUnit>, head: nat, free: seq<nat>, plan: Plan)
    requires State(units, extras, head, free, plan, {}) && free == []
    ensures 0 in plan.nodes && plan.pending == {} ==> Complete(units, plan)
    ensures plan.owner == map[] && 0 < |units| && units[0] == 1024 ==> Barren(units, plan)
  {
    hide At, FreeListOk, UsedFlags, Layout;
  }

  lemma {:induction false} PendingAreNodes(units: seq<nat>, extras: seq<ExtraUnit>, head: nat, free: seq<nat>,
                                           plan: Plan, limbo: set<nat>)
    requires State(units, extras, head, free, plan, limbo)
    ensures plan.pending <= plan.nodes.Keys
  {
    hide FreeListOk, UsedFlags, Covered, Unborn;
  }

  /** The filler s is labelled for the first unused offset of its block. */
  ghost predicate LeastFill(plan: Plan, s: nat)
    requires s in plan.filler
  {
    && !IsUsed(plan, plan.filler[s])
    && forall o: nat :: Block(o) == Block(s) && o < plan.filler[s] ==> IsUsed(plan, o)
  }

  ghost predicate NewFillsLeast(plan: Plan, plan': Plan) {
    forall s: nat :: s in plan'.filler && s !in plan.filler ==> LeastFill(plan', s)
  }

  lemma {:induction false} LeastStep(plan0: Plan, plan: Plan, s: nat, o: nat)
    requires NewFillsLeast(plan0, plan)
    requires !IsUsed(plan, o) && forall x: nat :: Block(x) == Block(s) && x < o ==> IsUsed(plan, x)
    ensures NewFillsLeast(plan0, plan.(filler := plan.filler[s := o]))
  {
    hide Block;
    var plan' := plan.(filler := plan.filler[s := o]);
    SameUse(plan, plan');
    hide IsUsed;
    forall x: nat | x in plan'.filler && x !in plan0.filler
      ensures LeastFill(plan', x)
    {
      if x != s {
        assert LeastFill(plan, x);
      }
    }
  }

  lemma {:induction false} LeastMore(plan: Plan, plan': Plan, plan'': Plan)
    requires NewFillsLeast(plan, plan') && NewFillsLeast(plan', plan'') && MoreFillers(plan', plan'')
    ensures NewFillsLeast(plan, plan'')
  {
    hide Block;
    SameUse(plan', plan'');
    hide IsUsed;
    forall s: nat | s in plan''.filler && s !in plan.filler
      ensures LeastFill(plan'', s)
    {
      if s in plan'.filler {
        assert LeastFill(plan', s);
      }
    }
  }

  lemma {:induction false} NoNewFills(plan: Plan)
    ensures NewFillsLeast(plan, plan)
  {
  }

  /** The array of an empty dictionary: the root claims offset 1, and every other unit is labelled for it. */
  function EmptyUnits(): (r: seq<nat>)
    ensures |r| == 256
  {
    seq(256, i requires i >= 0 => if i == 0 then 1024 else Xor(i, 1))
  }

  lemma {:induction false} EmptyIsFixed(units: seq<nat>, plan: Plan, d: Dict)
    requires Barren(units, plan) && |units| == 256 && NewFillsLeast(RootPlan(d), plan)
    requires plan == RootPlan(d).(filler := plan.filler)
    ensures units == EmptyUnits()
  {
    hide Xor;
    forall s: nat | s < 256
      ensures units[s] == EmptyUnits()[s]
    {
      if s > 0 {
        assert s in plan.filler && LeastFill(plan, s) && FillerOk(units, plan, s);
        assert plan.filler[s] == 1 by {
          OnlyRootUsed(plan, d, plan.filler[s]);
        }
      }
    }
  }

  lemma {:induction false} OnlyRootUsed(plan: Plan, d: Dict, o: nat)
    requires plan.nodes == RootPlan(d).nodes && plan.placed == RootPlan(d).placed
    requires !IsUsed(plan, o) && forall x: nat :: Block(x) == 0 && x < o ==> IsUsed(plan, x)
    ensures o == 1
  {
    assert Block(1) == 0 && !IsUsed(plan, 1);
  }

  lemma {:induction false} ChoiceNear(size: nat, free: seq<nat>, plan: Plan, labels: seq<Byte>, id: nat, offset: nat)
    requires ValidChoice(size, free, plan, labels, id, offset)
    ensures offset < size + 256
  {
    hide Xor;
  }
}
