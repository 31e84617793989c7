/**
  The circular list of unfixed units.

  The builder keeps an extra record for each unit of the last 16 blocks, in a
  buffer of 4096 records indexed modulo its size. The records of the units that
  are not yet fixed form a circular doubly linked list.
 */
module FreeList {

  const BLOCK_SIZE: nat := 256
  const NUM_EXTRAS: nat := 4096

  datatype ExtraUnit = ExtraUnit(prev: nat, next: nat, isFixed: bool, isUsed: bool)

  const NEW_EXTRA := ExtraUnit(0, 0, false, false)

  function At(extras: seq<ExtraUnit>, id: nat): ExtraUnit
    requires |extras| == NUM_EXTRAS
  {
    extras[id % NUM_EXTRAS]
  }

  /** The units whose records are in the buffer when there are `size` units. */
  predicate InWindow(size: nat, id: nat) {
    id < size <= id + NUM_EXTRAS
  }

  ghost predicate Sorted(ids: seq<nat>) {
    forall i, j :: 0 <= i < j < |ids| ==> ids[i] < ids[j]
  }

  function Cyclic(i: nat, n: nat): nat {
    if i + 1 == n then 0 else i + 1
  }

  /** The records of neighbours i and i + 1 of the circle point at each other. */
  ghost predicate LinkAt(extras: seq<ExtraUnit>, free: seq<nat>, i: nat)
    requires |extras| == NUM_EXTRAS && i < |free|
  {
    var next := free[Cyclic(i, |free|)];
    At(extras, free[i]).next == next && At(extras, next).prev == free[i]
  }

  ghost predicate Linked(extras: seq<ExtraUnit>, free: seq<nat>)
    requires |extras| == NUM_EXTRAS
  {
    forall i :: 0 <= i < |free| ==> LinkAt(extras, free, i)
  }

  function Head(size: nat, free: seq<nat>): nat {
    if free == [] then size else free[0]
  }

  /**
    The buffer links exactly the units of `free`, in increasing order, and these
    are exactly the unfixed units of the window.
   */
  ghost predicate FreeListOk(extras: seq<ExtraUnit>, head: nat, size: nat, free: seq<nat>) {
    && |extras| == NUM_EXTRAS
    && Sorted(free)
    && head == Head(size, free)
    && Linked(extras, free)
    && (forall id :: id in free ==> InWindow(size, id))
    && (forall id: nat :: InWindow(size, id) ==> (At(extras, id).isFixed <==> id !in free))
  }

  function Remove(free: seq<nat>, k: nat): seq<nat>
    requires k < |free|
  {
    free[..k] + free[k + 1..]
  }

  function BlockIds(start: nat): seq<nat> {
    seq(BLOCK_SIZE, i requires 0 <= i < BLOCK_SIZE => start + i)
  }

  lemma {:induction false} WindowInjective(size: nat, a: nat, b: nat)
    requires InWindow(size, a) && InWindow(size, b) && a % NUM_EXTRAS == b % NUM_EXTRAS
    ensures a == b
  {
  }

  lemma {:induction false} RemovedAt(free: seq<nat>, k: nat, i: nat)
    requires k < |free| && i < |free| - 1
    ensures Remove(free, k)[i] == free[if i < k then i else i + 1]
  {
  }

  lemma {:induction false} RemoveIds(free: seq<nat>, k: nat)
    requires k < |free| && Sorted(free)
    ensures Sorted(Remove(free, k))
    ensures forall id :: id in Remove(free, k) <==> id in free && id != free[k]
  {
    var rest := Remove(free, k);
    forall i: nat | i < |rest|
      ensures rest[i] == free[if i < k then i else i + 1]
    {
      RemovedAt(free, k, i);
    }
    hide Remove;
    forall id
      ensures id in rest <==> id in free && id != free[k]
    {
      if id in rest {
        var i :| 0 <= i < |rest| && rest[i] == id;
        assert id == free[if i < k then i else i + 1];
      }
      if id in free && id != free[k] {
        var i :| 0 <= i < |free| && free[i] == id;
        assert rest[if i < k then i else i - 1] == id;
      }
    }
  }

  /** The three writes by which reserve_id takes a unit out of the list. */
  function Unlink(extras: seq<ExtraUnit>, id: nat): (r: seq<ExtraUnit>)
    requires |extras| == NUM_EXTRAS
    ensures |r| == NUM_EXTRAS
  {
    var p := At(extras, id).prev;
    var first := extras[p % NUM_EXTRAS := At(extras, p).(next := At(extras, id).next)];
    var n := At(first, id).next;
    var second := first[n % NUM_EXTRAS := At(first, n).(prev := At(first, id).prev)];
    second[id % NUM_EXTRAS := At(second, id).(isFixed := true)]
  }

  function UnlinkedHead(extras: seq<ExtraUnit>, head: nat, size: nat, id: nat): nat
    requires |extras| == NUM_EXTRAS
  {
    if id != head then head
    else if At(extras, id).next == id then size
    else At(extras, id).next
  }

  /** What Unlink leaves in the record of another unit of the window. */
  lemma {:induction false} UnlinkRecords(extras: seq<ExtraUnit>, size: nat, id: nat, p: nat, n: nat, x: nat)
    requires |extras| == NUM_EXTRAS
    requires InWindow(size, id) && InWindow(size, p) && InWindow(size, n) && InWindow(size, x)
    requires At(extras, id).prev == p && At(extras, id).next == n
    requires p == id <==> n == id
    ensures var r := At(Unlink(extras, id), x);
      && r.isUsed == At(extras, x).isUsed
      && r.isFixed == (At(extras, x).isFixed || x == id)
      && (x != id ==> r.next == (if x == p then n else At(extras, x).next))
      && (x != id ==> r.prev == (if x == n then p else At(extras, x).prev))
  {
    if x % NUM_EXTRAS == id % NUM_EXTRAS { WindowInjective(size, x, id); }
    if x % NUM_EXTRAS == p % NUM_EXTRAS { WindowInjective(size, x, p); }
    if x % NUM_EXTRAS == n % NUM_EXTRAS { WindowInjective(size, x, n); }
    if p % NUM_EXTRAS == id % NUM_EXTRAS { WindowInjective(size, p, id); }
    if n % NUM_EXTRAS == id % NUM_EXTRAS { WindowInjective(size, n, id); }
    if n % NUM_EXTRAS == p % NUM_EXTRAS { WindowInjective(size, n, p); }
  }

  lemma {:induction false} SortedIndex(free: seq<nat>, i: nat, j: nat)
    requires Sorted(free) && i < |free| && j < |free|
    ensures free[i] == free[j] <==> i == j
  {
  }

  function Shift(i: nat, k: nat): nat {
    if i < k then i else i + 1
  }

  /** The successor in the shortened circle skips the removed position. */
  lemma {:induction false} RemoveNext(free: seq<nat>, k: nat, i: nat)
    requires k < |free| && i < |free| - 1
    ensures var n := |free|; var j := Shift(i, k); var rest := Remove(free, k);
      && j != k && rest[i] == free[j]
      && rest[Cyclic(i, n - 1)] == free[if Cyclic(j, n) == k then Cyclic(k, n) else Cyclic(j, n)]
  {
  }

  lemma {:induction false} Neighbours(extras: seq<ExtraUnit>, free: seq<nat>, k: nat)
    requires |extras| == NUM_EXTRAS && Linked(extras, free) && Sorted(free) && k < |free|
    ensures var before := if k == 0 then |free| - 1 else k - 1;
      && Cyclic(before, |free|) == k
      && At(extras, free[k]).prev == free[before]
      && At(extras, free[k]).next == free[Cyclic(k, |free|)]
      && (free[before] == free[k] <==> |free| == 1)
      && (free[Cyclic(k, |free|)] == free[k] <==> |free| == 1)
  {
    hide At;
    var before := if k == 0 then |free| - 1 else k - 1;
    assert Cyclic(before, |free|) == k;
    assert LinkAt(extras, free, before) && LinkAt(extras, free, k);
    SortedIndex(free, before, k);
    SortedIndex(free, Cyclic(k, |free|), k);
  }

  lemma {:induction false} UnlinkOneLink(extras: seq<ExtraUnit>, size: nat, free: seq<nat>, k: nat, i: nat)
    requires |extras| == NUM_EXTRAS && Linked(extras, free) && Sorted(free)
    requires forall id :: id in free ==> InWindow(size, id)
    requires k < |free| && i < |free| - 1
    ensures LinkAt(Unlink(extras, free[k]), Remove(free, k), i)
  {
    hide At, Unlink, Sorted, InWindow;
    var n, j := |free|, Shift(i, k);
    assert LinkAt(extras, free, j);
    RemoveNext(free, k, i);
    Neighbours(extras, free, k);
    var before := if k == 0 then n - 1 else k - 1;
    var p, nx := free[before], free[Cyclic(k, n)];
    var s := if Cyclic(j, n) == k then Cyclic(k, n) else Cyclic(j, n);
    UnlinkRecords(extras, size, free[k], p, nx, free[j]);
    UnlinkRecords(extras, size, free[k], p, nx, free[s]);
    LinkPositions(free, k, j);
  }

  lemma {:induction false} LinkPositions(free: seq<nat>, k: nat, j: nat)
    requires Sorted(free) && k < |free| && j < |free| && j != k
    ensures var n := |free|; var before := if k == 0 then n - 1 else k - 1;
      && free[j] != free[k]
      && (free[j] == free[before] <==> Cyclic(j, n) == k)
      && (Cyclic(j, n) != k ==> free[Cyclic(j, n)] != free[k] && free[Cyclic(j, n)] != free[Cyclic(k, n)])
      && free[Cyclic(k, n)] != free[k]
  {
    var n := |free|;
    var before := if k == 0 then n - 1 else k - 1;
    SortedIndex(free, j, k);
    SortedIndex(free, j, before);
    SortedIndex(free, Cyclic(j, n), k);
    SortedIndex(free, Cyclic(j, n), Cyclic(k, n));
    SortedIndex(free, Cyclic(k, n), k);
  }

  /** Taking a unit out of the list keeps it well formed, without that unit. */
  lemma {:induction false} UnlinkOk(extras: seq<ExtraUnit>, head: nat, size: nat, free: seq<nat>, k: nat)
    requires FreeListOk(extras, head, size, free) && k < |free|
    ensures FreeListOk(Unlink(extras, free[k]), UnlinkedHead(extras, head, size, free[k]), size, Remove(free, k))
    ensures forall id: nat :: InWindow(size, id) ==> At(Unlink(extras, free[k]), id).isUsed == At(extras, id).isUsed
  {
    hide At, Unlink, Sorted, InWindow, Linked;
    var id, rest, after := free[k], Remove(free, k), Unlink(extras, free[k]);
    RemoveIds(free, k);
    UnlinkLinked(extras, size, free, k);
    Neighbours(extras, free, k);
    var before := if k == 0 then |free| - 1 else k - 1;
    forall x: nat | InWindow(size, x)
      ensures At(after, x).isFixed <==> x !in rest
      ensures At(after, x).isUsed == At(extras, x).isUsed
    {
      UnlinkRecords(extras, size, id, free[before], free[Cyclic(k, |free|)], x);
    }
    UnlinkHead(extras, head, size, free, k);
  }

  lemma {:induction false} UnlinkLinked(extras: seq<ExtraUnit>, size: nat, free: seq<nat>, k: nat)
    requires |extras| == NUM_EXTRAS && Linked(extras, free) && Sorted(free)
    requires forall id :: id in free ==> InWindow(size, id)
    requires k < |free|
    ensures Linked(Unlink(extras, free[k]), Remove(free, k))
  {
    hide At, Unlink, Sorted, InWindow, LinkAt;
    var rest, after := Remove(free, k), Unlink(extras, free[k]);
    forall i | 0 <= i < |rest|
      ensures LinkAt(after, rest, i)
    {
      UnlinkOneLink(extras, size, free, k, i);
    }
  }

  lemma {:induction false} UnlinkHead(extras: seq<ExtraUnit>, head: nat, size: nat, free: seq<nat>, k: nat)
    requires |extras| == NUM_EXTRAS && Linked(extras, free) && Sorted(free)
    requires head == Head(size, free) && k < |free|
    ensures UnlinkedHead(extras, head, size, free[k]) == Head(size, Remove(free, k))
  {
    hide At;
    Neighbours(extras, free, k);
    SortedIndex(free, 0, k);
  }

  /**
    The effect of expand_units on the buffer: the records of a new block are
    reset, chained, and spliced in before the head, which is the end of the circle.
   */
  ghost predicate BlockAppended(old_: seq<ExtraUnit>, now: seq<ExtraUnit>, head: nat, size: nat)
    requires |old_| == NUM_EXTRAS && |now| == NUM_EXTRAS
  {
    var last := size + BLOCK_SIZE - 1;
    && (forall id: nat :: size <= id <= last ==> !At(now, id).isFixed && !At(now, id).isUsed)
    && (forall id: nat :: size < id <= last ==> At(now, id).prev == id - 1)
    && (forall id: nat :: size <= id < last ==> At(now, id).next == id + 1)
    && (if head == size then
          At(now, size).prev == last && At(now, last).next == size
        else
          var tail := At(old_, head).prev;
          && At(now, size).prev == tail && At(now, tail).next == size
          && At(now, last).next == head && At(now, head).prev == last)
    && (forall id: nat :: InWindow(size, id) && InWindow(size + BLOCK_SIZE, id) ==>
          RecordKept(old_, now, head, size, id))
  }

  ghost predicate RecordKept(old_: seq<ExtraUnit>, now: seq<ExtraUnit>, head: nat, size: nat, id: nat)
    requires |old_| == NUM_EXTRAS && |now| == NUM_EXTRAS
  {
    && At(now, id).isFixed == At(old_, id).isFixed
    && At(now, id).isUsed == At(old_, id).isUsed
    && (head == size || id != At(old_, head).prev ==> At(now, id).next == At(old_, id).next)
    && (head == size || id != head ==> At(now, id).prev == At(old_, id).prev)
  }

  /** The records around the seam: head, tail and both ends of the new block. */
  lemma {:induction false} SeamRecords(old_: seq<ExtraUnit>, now: seq<ExtraUnit>, head: nat, size: nat,
                                       free: seq<nat>)
    requires |old_| == NUM_EXTRAS && |now| == NUM_EXTRAS
    requires Sorted(free) && Linked(old_, free) && head == Head(size, free)
    requires forall id :: id in free ==> id < size
    requires BlockAppended(old_, now, head, size)
    ensures free == [] <==> head == size
    ensures free != [] ==> head == free[0] && At(old_, head).prev == free[|free| - 1]
    ensures var last := size + BLOCK_SIZE - 1; var tail := if free == [] then last else free[|free| - 1];
      && At(now, last).next == head && At(now, head).prev == last
      && At(now, tail).next == size && At(now, size).prev == tail
  {
    hide At;
    if free != [] {
      Neighbours(old_, free, 0);
      assert free[0] in free;
    }
  }

  lemma {:induction false} KeptLink(old_: seq<ExtraUnit>, now: seq<ExtraUnit>, head: nat, size: nat,
                                    free: seq<nat>, i: nat)
    requires |old_| == NUM_EXTRAS && |now| == NUM_EXTRAS
    requires Sorted(free) && Linked(old_, free) && head == Head(size, free)
    requires forall id :: id in free ==> InWindow(size, id) && InWindow(size + BLOCK_SIZE, id)
    requires BlockAppended(old_, now, head, size)
    requires i + 1 < |free|
    ensures At(now, free[i]).next == free[i + 1] && At(now, free[i + 1]).prev == free[i]
  {
    hide At, InWindow;
    Neighbours(old_, free, 0);
    Neighbours(old_, free, i);
    Neighbours(old_, free, i + 1);
    SortedIndex(free, i, |free| - 1);
    SortedIndex(free, i + 1, 0);
    assert free[i] in free && free[i + 1] in free;
    assert RecordKept(old_, now, head, size, free[i]);
    assert RecordKept(old_, now, head, size, free[i + 1]);
  }

  lemma {:induction false} AppendOneLink(old_: seq<ExtraUnit>, now: seq<ExtraUnit>, head: nat, size: nat,
                                         free: seq<nat>, i: nat)
    requires |old_| == NUM_EXTRAS && |now| == NUM_EXTRAS
    requires Sorted(free) && Linked(old_, free) && head == Head(size, free)
    requires forall id :: id in free ==> InWindow(size, id) && InWindow(size + BLOCK_SIZE, id)
    requires BlockAppended(old_, now, head, size)
    requires i < |free| + BLOCK_SIZE
    ensures LinkAt(now, free + BlockIds(size), i)
  {
    hide At, Linked;
    var all, n := free + BlockIds(size), |free|;
    assert forall id :: id in free ==> id < size;
    SeamRecords(old_, now, head, size, free);
    if i + 1 < n {
      KeptLink(old_, now, head, size, free, i);
    } else if i + 1 == n {
      assert all[n] == size;
    } else if i + 1 < |all| {
      assert all[i] == size + (i - n) && all[i + 1] == size + (i + 1 - n);
    } else {
      assert all[i] == size + BLOCK_SIZE - 1;
      assert all[0] == head;
    }
  }

  lemma {:induction false} AppendIds(size: nat, free: seq<nat>)
    requires Sorted(free) && forall id :: id in free ==> id < size
    ensures var all := free + BlockIds(size);
      && Sorted(all)
      && forall id :: id in all <==> id in free || size <= id < size + BLOCK_SIZE
  {
    var block := BlockIds(size);
    forall id | size <= id < size + BLOCK_SIZE
      ensures id in block
    {
      assert block[id - size] == id;
    }
    forall i | 0 <= i < |free|
      ensures free[i] < size
    {
      assert free[i] in free;
    }
  }

  lemma {:induction false} AppendFlags(old_: seq<ExtraUnit>, now: seq<ExtraUnit>, head: nat, size: nat,
                                       id: nat)
    requires |old_| == NUM_EXTRAS && |now| == NUM_EXTRAS
    requires BlockAppended(old_, now, head, size)
    requires InWindow(size + BLOCK_SIZE, id)
    ensures At(now, id).isUsed == (id < size && At(old_, id).isUsed)
    ensures At(now, id).isFixed == (id < size && At(old_, id).isFixed)
  {
    hide At;
    if id < size {
      assert InWindow(size, id);
      assert RecordKept(old_, now, head, size, id);
    }
  }

  /** Appending a block keeps the list well formed, followed by the ids of the block. */
  lemma {:induction false} AppendOk(old_: seq<ExtraUnit>, now: seq<ExtraUnit>, head: nat, size: nat,
                                    free: seq<nat>)
    requires |old_| == NUM_EXTRAS && |now| == NUM_EXTRAS
    requires FreeListOk(old_, head, size, free)
    requires BlockAppended(old_, now, head, size)
    requires forall id :: id in free ==> InWindow(size + BLOCK_SIZE, id)
    ensures FreeListOk(now, head, size + BLOCK_SIZE, free + BlockIds(size))
    ensures forall id: nat :: InWindow(size + BLOCK_SIZE, id) ==>
      At(now, id).isUsed == (id < size && At(old_, id).isUsed)
  {
    hide At, Linked, BlockIds, BlockAppended, Sorted;
    var all, size' := free + BlockIds(size), size + BLOCK_SIZE;
    AppendIds(size, free);
    AppendLinked(old_, now, head, size, free);
    forall id: nat | InWindow(size', id)
      ensures At(now, id).isFixed <==> id !in all
      ensures At(now, id).isUsed == (id < size && At(old_, id).isUsed)
    {
      AppendFlags(old_, now, head, size, id);
    }
    AppendHead(head, size, free);
  }

  lemma {:induction false} AppendHead(head: nat, size: nat, free: seq<nat>)
    requires head == Head(size, free)
    ensures head == Head(size + BLOCK_SIZE, free + BlockIds(size))
  {
  }

  lemma {:induction false} AppendLinked(old_: seq<ExtraUnit>, now: seq<ExtraUnit>, head: nat, size: nat,
                                        free: seq<nat>)
    requires |old_| == NUM_EXTRAS && |now| == NUM_EXTRAS
    requires Sorted(free) && Linked(old_, free) && head == Head(size, free)
    requires forall id :: id in free ==> InWindow(size, id) && InWindow(size + BLOCK_SIZE, id)
    requires BlockAppended(old_, now, head, size)
    ensures Linked(now, free + BlockIds(size))
  {
    hide At, BlockAppended, Sorted, InWindow, LinkAt;
    var all := free + BlockIds(size);
    forall i | 0 <= i < |all|
      ensures LinkAt(now, all, i)
    {
      AppendOneLink(old_, now, head, size, free, i);
    }
  }

  /** The slots of a block do not wrap around the buffer. */
  lemma {:induction false} BlockSlots(size: nat, i: nat)
    requires size % BLOCK_SIZE == 0 && i < BLOCK_SIZE
    ensures (size + i) % NUM_EXTRAS == size % NUM_EXTRAS + i
    ensures size % NUM_EXTRAS + BLOCK_SIZE <= NUM_EXTRAS
  {
    var q := size / BLOCK_SIZE;
    var a, b := q / 16, q % 16;
    assert size == NUM_EXTRAS * a + BLOCK_SIZE * b;
    SlotOf(a, BLOCK_SIZE * b);
    SlotOf(a, BLOCK_SIZE * b + i);
  }

  lemma {:induction false} SlotOf(a: nat, r: nat)
    requires r < NUM_EXTRAS
    ensures (NUM_EXTRAS * a + r) % NUM_EXTRAS == r
  {
  }

  /** Units that stay in the window keep clear of the slots of a new block. */
  lemma {:induction false} SlotOutside(size: nat, id: nat)
    requires size % BLOCK_SIZE == 0 && id < size && InWindow(size + BLOCK_SIZE, id)
    ensures id % NUM_EXTRAS < size % NUM_EXTRAS || size % NUM_EXTRAS + BLOCK_SIZE <= id % NUM_EXTRAS
  {
  }

  /** A block whose records are reset and chained to each other, with other records kept. */
  ghost predicate Chained(old_: seq<ExtraUnit>, now: seq<ExtraUnit>, base: nat, size: nat, n: nat)
    requires |old_| == NUM_EXTRAS && |now| == NUM_EXTRAS && 0 < n && base + n <= NUM_EXTRAS
  {
    && (forall j :: 0 <= j < NUM_EXTRAS && !(base <= j < base + n) ==> now[j] == old_[j])
    && (forall j :: base <= j < base + n ==> !now[j].isFixed && !now[j].isUsed)
    && (forall j :: base < j < base + n ==> now[j].prev == size + (j - base) - 1)
    && (forall j :: base <= j < base + n - 1 ==> now[j].next == size + (j - base) + 1)
  }

  /** The six writes that splice a chained block into the circle before the head. */
  function Splice(extras: seq<ExtraUnit>, head: nat, size: nat): (r: seq<ExtraUnit>)
    requires |extras| == NUM_EXTRAS
    ensures |r| == NUM_EXTRAS
  {
    var first, last := size % NUM_EXTRAS, (size + BLOCK_SIZE - 1) % NUM_EXTRAS;
    var e1 := extras[first := extras[first].(prev := size + BLOCK_SIZE - 1)];
    var e2 := e1[last := e1[last].(next := size)];
    var e3 := e2[first := e2[first].(prev := At(e2, head).prev)];
    var e4 := e3[last := e3[last].(next := head)];
    var tail := At(e4, head).prev % NUM_EXTRAS;
    var e5 := e4[tail := e4[tail].(next := size)];
    e5[head % NUM_EXTRAS := At(e5, head).(prev := size + BLOCK_SIZE - 1)]
  }

  lemma {:induction false} SpliceEmpty(old_: seq<ExtraUnit>, chained: seq<ExtraUnit>, size: nat)
    requires |old_| == NUM_EXTRAS && |chained| == NUM_EXTRAS && size % BLOCK_SIZE == 0
    requires size % NUM_EXTRAS + BLOCK_SIZE <= NUM_EXTRAS
    requires Chained(old_, chained, size % NUM_EXTRAS, size, BLOCK_SIZE)
    ensures SplicedSlots(old_, Splice(chained, size, size), size, size)
  {
    BlockSlots(size, 0);
    BlockSlots(size, BLOCK_SIZE - 1);
  }

  /** What the splice leaves in slot j, when the circle was not empty. */
  lemma {:induction false} SpliceRecord(extras: seq<ExtraUnit>, head: nat, size: nat, first: nat, last: nat,
                                        h: nat, t: nat, j: nat)
    requires |extras| == NUM_EXTRAS && j < NUM_EXTRAS
    requires first == size % NUM_EXTRAS && last == (size + BLOCK_SIZE - 1) % NUM_EXTRAS && first != last
    requires h == head % NUM_EXTRAS && t == extras[h].prev % NUM_EXTRAS
    requires h != first && h != last && t != first && t != last
    ensures var r := Splice(extras, head, size)[j];
      && r.isFixed == extras[j].isFixed && r.isUsed == extras[j].isUsed
      && r.next == (if j == last then head else if j == t then size else extras[j].next)
      && r.prev == (if j == first then extras[h].prev
                    else if j == h then size + BLOCK_SIZE - 1 else extras[j].prev)
  {
  }

  lemma {:induction false} SpliceFull(old_: seq<ExtraUnit>, chained: seq<ExtraUnit>, head: nat, size: nat)
    requires |old_| == NUM_EXTRAS && |chained| == NUM_EXTRAS && size % BLOCK_SIZE == 0
    requires size % NUM_EXTRAS + BLOCK_SIZE <= NUM_EXTRAS
    requires head < size && InWindow(size + BLOCK_SIZE, head)
    requires At(old_, head).prev < size && InWindow(size + BLOCK_SIZE, At(old_, head).prev)
    requires Chained(old_, chained, size % NUM_EXTRAS, size, BLOCK_SIZE)
    ensures SplicedSlots(old_, Splice(chained, head, size), head, size)
  {
    BlockSlots(size, 0);
    BlockSlots(size, BLOCK_SIZE - 1);
    SlotOutside(size, head);
    SlotOutside(size, At(old_, head).prev);
    var base, h, t := size % NUM_EXTRAS, head % NUM_EXTRAS, At(old_, head).prev % NUM_EXTRAS;
    assert chained[h] == old_[h];
    hide Splice, InWindow;
    forall j: nat | j < NUM_EXTRAS
      ensures SpliceSlot(chained, Splice(chained, head, size), head, size, base, h, t, j)
    {
      SpliceRecord(chained, head, size, base, base + BLOCK_SIZE - 1, h, t, j);
    }
    SpliceCollect(old_, chained, Splice(chained, head, size), head, size, base, h, t);
  }

  ghost predicate SpliceSlot(extras: seq<ExtraUnit>, r: seq<ExtraUnit>, head: nat, size: nat, base: nat, h: nat,
                             t: nat, j: nat)
    requires |extras| == NUM_EXTRAS && |r| == NUM_EXTRAS && h < NUM_EXTRAS && j < NUM_EXTRAS
  {
    && r[j].isFixed == extras[j].isFixed && r[j].isUsed == extras[j].isUsed
    && r[j].next == (if j == base + BLOCK_SIZE - 1 then head else if j == t then size else extras[j].next)
    && r[j].prev == (if j == base then extras[h].prev
                     else if j == h then size + BLOCK_SIZE - 1 else extras[j].prev)
  }

  lemma {:induction false} SpliceCollect(old_: seq<ExtraUnit>, chained: seq<ExtraUnit>, r: seq<ExtraUnit>,
                                         head: nat, size: nat, base: nat, h: nat, t: nat)
    requires |old_| == NUM_EXTRAS && |chained| == NUM_EXTRAS && |r| == NUM_EXTRAS
    requires base == size % NUM_EXTRAS && base + BLOCK_SIZE <= NUM_EXTRAS
    requires head < size && h == head % NUM_EXTRAS && t == old_[h].prev % NUM_EXTRAS
    requires h < base || base + BLOCK_SIZE <= h
    requires t < base || base + BLOCK_SIZE <= t
    requires Chained(old_, chained, base, size, BLOCK_SIZE)
    requires forall j: nat :: j < NUM_EXTRAS ==> SpliceSlot(chained, r, head, size, base, h, t, j)
    ensures SplicedSlots(old_, r, head, size)
  {
    assert SpliceSlot(chained, r, head, size, base, h, t, base);
    assert SpliceSlot(chained, r, head, size, base, h, t, base + BLOCK_SIZE - 1);
    assert SpliceSlot(chained, r, head, size, base, h, t, h);
    assert SpliceSlot(chained, r, head, size, base, h, t, t);
    forall j: nat | j < NUM_EXTRAS
      ensures r[j].isFixed == chained[j].isFixed && r[j].isUsed == chained[j].isUsed
      ensures j != base && j != h ==> r[j].prev == chained[j].prev
      ensures j != base + BLOCK_SIZE - 1 && j != t ==> r[j].next == chained[j].next
    {
      assert SpliceSlot(chained, r, head, size, base, h, t, j);
    }
    hide SpliceSlot;
  }

  /** BlockAppended in terms of buffer slots. */
  ghost predicate SplicedSlots(old_: seq<ExtraUnit>, now: seq<ExtraUnit>, head: nat, size: nat)
    requires |old_| == NUM_EXTRAS && |now| == NUM_EXTRAS
  {
    var base, last := size % NUM_EXTRAS, size + BLOCK_SIZE - 1;
    && base + BLOCK_SIZE <= NUM_EXTRAS
    && (forall j :: base <= j < base + BLOCK_SIZE ==> !now[j].isFixed && !now[j].isUsed)
    && (forall j :: base < j < base + BLOCK_SIZE ==> now[j].prev == size + (j - base) - 1)
    && (forall j :: base <= j < base + BLOCK_SIZE - 1 ==> now[j].next == size + (j - base) + 1)
    && (if head == size then
          now[base].prev == last && now[base + BLOCK_SIZE - 1].next == size
        else
          var tail := At(old_, head).prev;
          && now[base].prev == tail && At(now, tail).next == size
          && now[base + BLOCK_SIZE - 1].next == head && At(now, head).prev == last)
    && (forall j :: 0 <= j < NUM_EXTRAS && !(base <= j < base + BLOCK_SIZE) ==>
          && now[j].isFixed == old_[j].isFixed && now[j].isUsed == old_[j].isUsed
          && (head == size || j != At(old_, head).prev % NUM_EXTRAS ==> now[j].next == old_[j].next)
          && (head == size || j != head % NUM_EXTRAS ==> now[j].prev == old_[j].prev))
  }

  lemma {:induction false} SplicedAppended(old_: seq<ExtraUnit>, now: seq<ExtraUnit>, head: nat, size: nat)
    requires |old_| == NUM_EXTRAS && |now| == NUM_EXTRAS && size % BLOCK_SIZE == 0
    requires head == size || (InWindow(size, head) && InWindow(size, At(old_, head).prev))
    requires SplicedSlots(old_, now, head, size)
    ensures BlockAppended(old_, now, head, size)
  {
    forall id: nat | size <= id <= size + BLOCK_SIZE - 1
      ensures !At(now, id).isFixed && !At(now, id).isUsed
      ensures id > size ==> At(now, id).prev == id - 1
      ensures id < size + BLOCK_SIZE - 1 ==> At(now, id).next == id + 1
    {
      BlockSlots(size, id - size);
    }
    BlockSlots(size, 0);
    BlockSlots(size, BLOCK_SIZE - 1);
    forall id: nat | InWindow(size, id) && InWindow(size + BLOCK_SIZE, id)
      ensures RecordKept(old_, now, head, size, id)
    {
      SplicedKept(old_, now, head, size, id);
    }
  }

  lemma {:induction false} SplicedKept(old_: seq<ExtraUnit>, now: seq<ExtraUnit>, head: nat, size: nat, id: nat)
    requires |old_| == NUM_EXTRAS && |now| == NUM_EXTRAS && size % BLOCK_SIZE == 0
    requires head == size || (InWindow(size, head) && InWindow(size, At(old_, head).prev))
    requires SplicedSlots(old_, now, head, size)
    requires InWindow(size, id) && InWindow(size + BLOCK_SIZE, id)
    ensures RecordKept(old_, now, head, size, id)
  {
    SlotOutside(size, id);
    if head != size {
      SlotsApart(size, id, head);
      SlotsApart(size, id, At(old_, head).prev);
    }
  }

  lemma {:induction false} SlotsApart(size: nat, a: nat, b: nat)
    requires InWindow(size, a) && InWindow(size, b)
    ensures a % NUM_EXTRAS == b % NUM_EXTRAS <==> a == b
  {
    if a % NUM_EXTRAS == b % NUM_EXTRAS {
      WindowInjective(size, a, b);
    }
  }

  lemma {:induction false} BlockIdsMembers(size: nat)
    ensures forall x :: x in BlockIds(size) <==> size <= x < size + BLOCK_SIZE
  {
    AppendIds(size, []);
    assert [] + BlockIds(size) == BlockIds(size);
  }

  lemma {:induction false} StaysInside(size: nat, id: nat)
    requires id < size && InWindow(size + BLOCK_SIZE, id)
    ensures InWindow(size, id)
  {
  }
}
