/**
  The obstack: objects grow at the end of the current chunk, move to a larger
  chunk when it is full, and are given back in stack order.
 */
module Obstacks {
  import opened ObstackPictures
  import opened ObstackLedgers
  import opened ObstackRuns

  // On a machine with 8-byte pointers and doubles and 4-byte ints.
  const DEFAULT_ALIGNMENT: nat := 8
  const COPYING_UNIT: nat := 4
  const DEFAULT_SIZE: nat := 4072

  /** The address space, the headers of the live chunks, and the account with the chunk functions. */
  class Memory {
    const ram: array<Octet>
    var limits: map<nat, nat>
    var prevs: map<nat, nat>
    var blocks: map<nat, nat>
    var obtained: nat
    var returned: nat

    constructor (size: nat)
      ensures ram.Length == size && fresh(ram)
      ensures Books() == Ledger(map[], map[], map[], 0, 0)
    {
      ram := new Octet[size](_ => 0);
      limits, prevs, blocks := map[], map[], map[];
      obtained, returned := 0, 0;
    }

    function Books(): Ledger
      reads this
    {
      Ledger(limits, prevs, blocks, obtained, returned)
    }

    /** The chunk function has answered with the block at c; its header is written. */
    method Obtain(c: nat, size: nat, prev: nat)
      modifies this
      ensures Books() == Pushed(old(Books()), c, size, prev)
    {
      blocks := blocks[c := size];
      obtained := obtained + size;
      prevs := prevs[c := prev];
      limits := limits[c := c + size];
    }

    /** The free function takes a live block back; its header is gone. */
    method Release(c: nat)
      requires c in blocks
      modifies this
      ensures Books() == Popped(old(Books()), c)
    {
      returned := returned + blocks[c];
      limits, prevs, blocks := limits - {c}, prevs - {c}, blocks - {c};
    }

    /** memcpy from data that does not overlap its target. */
    method Write(at: nat, data: seq<Octet>)
      requires at + |data| <= ram.Length
      modifies ram
      ensures ram[..] == Overwrite(old(ram[..]), at, data)
    {
      for i := 0 to |data|
        invariant forall j :: 0 <= j < ram.Length ==>
          ram[j] == if at <= j < at + i then data[j - at] else old(ram[j])
      {
        ram[at + i] := data[i];
      }
      Overwritten(old(ram[..]), ram[..], at, data);
    }

    /** Moves n bytes: by words from the last one to the first if so asked, then byte by byte. */
    method CopyObject(source: nat, target: nat, n: nat, byWords: bool)
      requires source + n <= ram.Length && target + n <= ram.Length
      requires source + n <= target || target + n <= source
      modifies ram
      ensures ram[..] == Overwrite(old(ram[..]), target, old(ram[..])[source..source + n])
    {
      var already := 0;
      if byWords {
        var i := n / COPYING_UNIT - 1;
        while i >= 0
          invariant -1 <= i < n / COPYING_UNIT
          invariant forall j :: 0 <= j < ram.Length ==>
            ram[j] == if target + COPYING_UNIT * (i + 1) <= j < target + n / COPYING_UNIT * COPYING_UNIT
                      then old(ram[j - target + source]) else old(ram[j])
        {
          CopyWord(source + COPYING_UNIT * i, target + COPYING_UNIT * i);
          i := i - 1;
        }
        already := n / COPYING_UNIT * COPYING_UNIT;
      }
      for i := already to n
        invariant forall j :: 0 <= j < ram.Length ==>
          ram[j] == if target <= j < target + i then old(ram[j - target + source]) else old(ram[j])
      {
        ram[target + i] := ram[source + i];
      }
      ghost var was := old(ram[..]);
      Overwritten(was, ram[..], target, was[source..source + n]);
    }

    method CopyWord(source: nat, target: nat)
      requires source + COPYING_UNIT <= ram.Length && target + COPYING_UNIT <= ram.Length
      requires source + COPYING_UNIT <= target || target + COPYING_UNIT <= source
      modifies ram
      ensures forall j :: 0 <= j < ram.Length ==>
        ram[j] == if target <= j < target + COPYING_UNIT then old(ram[j - target + source]) else old(ram[j])
    {
      ram[target] := ram[source];
      ram[target + 1] := ram[source + 1];
      ram[target + 2] := ram[source + 2];
      ram[target + 3] := ram[source + 3];
    }
  }

  lemma {:induction false} Overwritten(before: seq<Octet>, after: seq<Octet>, at: nat, data: seq<Octet>)
    requires at + |data| <= |before| && |after| == |before|
    requires forall j :: 0 <= j < |before| ==> after[j] == if at <= j < at + |data| then data[j - at] else before[j]
    ensures after == Overwrite(before, at, data)
  {
    var r := Overwrite(before, at, data);
    forall j | 0 <= j < |before|
      ensures after[j] == r[j]
    {
      if at <= j < at + |data| {
        assert r[at..at + |data|][j - at] == data[j - at];
      }
    }
  }

  class Obstack {
    const memory: Memory
    var chunkSize: nat
    var chunk: nat
    var objectBase: nat
    var nextFree: nat
    var chunkLimit: nat
    var alignmentMask: nat
    var maybeEmptyObject: bool

    // The chunks from the oldest on, and the finished objects.
    ghost var chain: seq<nat>
    ghost var objects: seq<Obj>

    ghost function View(): Picture
      reads this, memory, memory.ram
    {
      Picture(memory.ram[..], chain, memory.limits, objects, objectBase, nextFree, alignmentMask, maybeEmptyObject)
    }

    ghost predicate Valid()
      reads this, memory, memory.ram
    {
      && Ok(View())
      && LedgerOk(memory.ram.Length, chain, memory.Books())
      && chunk == Current(View()) && chunkLimit == Limit(View())
    }

    /** The bytes of the growing object. */
    ghost function Growing(): seq<Octet>
      requires Valid()
      reads this, memory, memory.ram
    {
      Facts(View());
      memory.ram[objectBase..nextFree]
    }

    constructor (memory: Memory)
      ensures this.memory == memory
    {
      this.memory := memory;
      chunkSize, chunk, objectBase, nextFree, chunkLimit, alignmentMask := 0, 0, 0, 0, 0, 0;
      maybeEmptyObject := false;
      chain, objects := [], [];
    }

    /** The part of _obstack_begin that sets the first chunk up. */
    method OpenFirst(answer: nat)
      requires memory.blocks == map[] && LedgerOk(memory.ram.Length, [], memory.Books())
      requires HEADER <= chunkSize && Clear(memory.ram.Length, map[], answer, chunkSize)
      modifies this`chunk, this`chunkLimit, this`chain, memory
      ensures chain == [answer] && chunk == answer && chunkLimit == answer + chunkSize
      ensures memory.Books() == Pushed(old(memory.Books()), answer, chunkSize, 0)
      ensures answer in memory.limits && memory.limits[answer] == chunkLimit
      ensures LedgerOk(memory.ram.Length, chain, memory.Books())
    {
      hide LedgerOk, Clear;
      NoLimits(memory.ram.Length, memory.Books());
      PushOk(memory.ram.Length, [], memory.Books(), answer, chunkSize);
      assert [] + [answer] == [answer];
      memory.Obtain(answer, chunkSize, 0);
      chunk := answer;
      chunkLimit := memory.limits[chunk];
      chain := [answer];
    }

    /**
      _obstack_begin, with the answer of the chunk function as a parameter. If that
      is null the failure handler is called, which does not return.
     */
    method Begin(size: nat, alignment: nat, answer: nat) returns (ok: bool)
      requires memory.blocks == map[] && LedgerOk(memory.ram.Length, [], memory.Books())
      requires size == 0 || size >= HEADER
      requires answer == 0 || Clear(memory.ram.Length, map[], answer, if size == 0 then DEFAULT_SIZE else size)
      modifies this, memory
      ensures ok <==> answer != 0
      ensures ok ==>
        && Valid() && FreshPicture(View()) && chain == [answer]
        && chunkSize == (if size == 0 then 4072 else size)
        && objectBase == nextFree == answer + 16 && chunkLimit == answer + chunkSize
        && alignmentMask == (if alignment == 0 then 8 else alignment) - 1
        && objects == [] && !maybeEmptyObject
      ensures ok ==> memory.Books() == Pushed(old(memory.Books()), answer, chunkSize, 0)
      ensures !ok ==> memory.Books() == old(memory.Books())
    {
      hide LedgerOk, Clear, Ok, Pushed;
      var align := if alignment == 0 then DEFAULT_ALIGNMENT else alignment;
      chunkSize := if size == 0 then DEFAULT_SIZE else size;
      alignmentMask := align - 1;
      if answer == 0 {
        return false;
      }
      OpenFirst(answer);
      objectBase := Contents(chunk);
      nextFree := objectBase;
      maybeEmptyObject := false;
      objects := [];
      FirstPicture(View(), memory.Books());
      ok := true;
    }

    /** Makes a new chunk the current one; the chain is extended when the object has moved. */
    method Link(answer: nat, size: nat)
      requires chain != [] && chunk == chain[|chain| - 1] && HEADER <= size
      requires LedgerOk(memory.ram.Length, chain, memory.Books())
      requires Clear(memory.ram.Length, memory.limits, answer, size)
      modifies this`chunk, this`chunkLimit, memory
      ensures LedgerOk(memory.ram.Length, chain + [answer], memory.Books())
      ensures memory.limits == old(memory.limits)[answer := answer + size]
      ensures memory.obtained == old(memory.obtained) + size && memory.returned == old(memory.returned)
      ensures chunk == answer && chunkLimit == answer + size
    {
      hide LedgerOk, Clear;
      PushOk(memory.ram.Length, chain, memory.Books(), answer, size);
      memory.Obtain(answer, size, chunk);
      chunk := answer;
      chunkLimit := memory.limits[answer];
    }

    /** Takes the chunk below the newest one out of the chain. */
    method Unlink(oldChunk: nat, answer: nat)
      requires chain != [] && oldChunk == chain[|chain| - 1]
      requires LedgerOk(memory.ram.Length, chain + [answer], memory.Books())
      modifies memory
      ensures LedgerOk(memory.ram.Length, chain[..|chain| - 1] + [answer], memory.Books())
      ensures memory.limits == old(memory.limits) - {oldChunk} && memory.obtained == old(memory.obtained)
      ensures oldChunk in old(memory.limits)
      ensures memory.returned == old(memory.returned) + (old(memory.limits)[oldChunk] - oldChunk)
    {
      hide LedgerOk;
      BlockOf(memory.ram.Length, chain + [answer], memory.Books(), |chain| - 1);
      SkipOk(memory.ram.Length, chain, memory.Books(), answer);
      memory.prevs := memory.prevs[answer := memory.prevs[oldChunk]];
      memory.Release(oldChunk);
    }

    /** The end of _obstack_newchunk: gives the old chunk back if it held nothing but the object that has left. */
    method Settle(ghost p: Picture, oldChunk: nat, answer: nat, ghost size: nat, base: nat, objSize: nat)
      requires p.chain != [] && Current(p) in p.limits && Current(p) <= Limit(p) && answer != oldChunk
      requires chain == p.chain && objectBase == p.base && maybeEmptyObject == p.maybeEmpty
      requires oldChunk == Current(p) && chunk == answer
      requires LedgerOk(memory.ram.Length, chain + [answer], memory.Books())
      requires memory.limits == p.limits[answer := answer + size]
      requires Oldest(p.limits, KeptChain(p))[answer := answer + size] ==
        if Alone(p) then p.limits[answer := answer + size] - {oldChunk} else p.limits[answer := answer + size]
      modifies this`chain, this`objectBase, this`nextFree, this`maybeEmptyObject, memory
      ensures objectBase == base && nextFree == base + objSize
      ensures chain == KeptChain(p) + [answer] && !maybeEmptyObject
      ensures memory.limits == Oldest(p.limits, KeptChain(p))[answer := answer + size]
      ensures memory.obtained == old(memory.obtained)
      ensures memory.returned == old(memory.returned) + if Alone(p) then Limit(p) - oldChunk else 0
      ensures LedgerOk(memory.ram.Length, chain, memory.Books())
    {
      hide LedgerOk, Oldest;
      if objectBase == Contents(oldChunk) && !maybeEmptyObject {
        Unlink(oldChunk, answer);
      }
      chain := KeptChain(p) + [answer];
      objectBase := base;
      nextFree := objectBase + objSize;
      maybeEmptyObject := false;
    }

    /** The part of _obstack_newchunk after the chunk function has answered. */
    method MoveTo(answer: nat, newSize: nat)
      requires Valid() && Clear(memory.ram.Length, memory.limits, answer, newSize) && HEADER <= newSize
      requires objectBase <= nextFree <= memory.ram.Length
      requires answer + HEADER <= AlignUp(Contents(answer), alignmentMask)
      requires AlignUp(Contents(answer), alignmentMask) + (nextFree - objectBase) <= answer + newSize
      modifies this, memory, memory.ram
      ensures chunkSize == old(chunkSize)
      ensures answer + newSize <= memory.ram.Length
      ensures View() == Moved(old(View()), answer, newSize)
      ensures LedgerOk(memory.ram.Length, chain, memory.Books())
      ensures chunk == answer && chunkLimit == answer + newSize
      ensures memory.obtained == old(memory.obtained) + newSize
      ensures memory.returned == old(memory.returned + if Alone(View()) then chunkLimit - chunk else 0)
    {
      hide Ok, LedgerOk, AlignUp, Overwrite, Clear, Oldest, KeptChain, Alone;
      var oldChunk := chunk;
      var objSize := nextFree - objectBase;
      ghost var p := View();
      Facts(p);
      ApartFromNew(p, answer, newSize);
      MovedLimits(p, answer, newSize);
      Link(answer, newSize);
      var base := AlignUp(Contents(answer), alignmentMask);
      memory.CopyObject(objectBase, base, objSize, alignmentMask + 1 >= DEFAULT_ALIGNMENT);
      Settle(p, oldChunk, answer, newSize, base, objSize);
    }

    /**
      _obstack_newchunk: room for at least `length` more bytes, in a new chunk. The
      growing object moves there, and the old chunk goes if it held nothing else.
     */
    method NewChunk(length: nat, answer: nat) returns (ok: bool)
      requires Valid()
      requires answer == 0 || Clear(memory.ram.Length, memory.limits, answer,
                                    NewSize(nextFree - objectBase, length, alignmentMask, chunkSize))
      modifies this, memory, memory.ram
      ensures ok <==> answer != 0
      ensures chunkSize == old(chunkSize) && Valid()
      ensures !ok ==> View() == old(View()) && memory.Books() == old(memory.Books())
      ensures ok ==>
        && old(objectBase <= nextFree <= memory.ram.Length)
        && old(AlignUp(Contents(answer), alignmentMask) + (nextFree - objectBase) <= memory.ram.Length)
        && View() == Moved(old(View()), answer,
                           old(NewSize(nextFree - objectBase, length, alignmentMask, chunkSize)))
      ensures ok ==> chunk == answer && Growing() == old(Growing()) && objects == old(objects) && !maybeEmptyObject
      ensures ok ==> Aligned(objectBase, alignmentMask) && answer + 16 <= objectBase <= answer + 16 + alignmentMask
      ensures ok ==>
        var objSize := old(nextFree - objectBase);
        var wanted := objSize + length + objSize / 8 + alignmentMask + 100;
        && chunkLimit - chunk == (if wanted <= chunkSize then chunkSize else wanted)
        && chunkLimit - chunk >= chunkSize
        && nextFree - objectBase == objSize && chunkLimit - nextFree >= length + objSize / 8 + 100 - 16
      ensures ok ==> memory.obtained == old(memory.obtained) + (chunkLimit - chunk)
      ensures ok ==>
        if old(objectBase == chunk + 16 && !maybeEmptyObject) then
          && chain == old(chain[..|chain| - 1]) + [answer]
          && memory.returned == old(memory.returned + (chunkLimit - chunk))
        else chain == old(chain) + [answer] && memory.returned == old(memory.returned)
    {
      hide Ok, LedgerOk, NewSize, AlignUp, Aligned, Overwrite, Clear, Oldest;
      Facts(View());
      var objSize := nextFree - objectBase;
      var newSize := NewSize(objSize, length, alignmentMask, chunkSize);
      if answer == 0 {
        return false;
      }
      SizeOfNew(objSize, length, alignmentMask, chunkSize, answer);
      RoomInNew(objSize, length, alignmentMask, chunkSize, answer);
      MovedOk(View(), answer, length, chunkSize);
      MoveTo(answer, newSize);
      ok := true;
    }

    /** If room for `length` bytes has to be asked for, the answer is null or a block out of the way. */
    ghost predicate CanAsk(length: nat, answer: nat)
      requires Valid()
      reads this, memory, memory.ram
    {
      Facts(View());
      chunkLimit - nextFree < length && answer != 0 ==>
        Clear(memory.ram.Length, memory.limits, answer,
              NewSize(nextFree - objectBase, length, alignmentMask, chunkSize))
    }

    /** obstack_make_room */
    method MakeRoom(length: nat, answer: nat) returns (ok: bool)
      requires Valid() && CanAsk(length, answer)
      modifies this, memory, memory.ram
      ensures ok <==> old(chunkLimit - nextFree) >= length || answer != 0
      ensures chunkSize == old(chunkSize) && Valid()
      ensures !ok ==> View() == old(View())
      ensures ok ==> MadeRoom(old(View()), length, answer, chunkSize, View())
      ensures ok ==> chunkLimit - nextFree >= length && Growing() == old(Growing()) && objects == old(objects)
      ensures old(chunkLimit - nextFree) >= length ==> View() == old(View()) && memory.Books() == old(memory.Books())
    {
      hide Ok, LedgerOk, NewSize, AlignUp, Aligned, Overwrite, Clear, Oldest, Moved;
      Facts(View());
      ok := true;
      if chunkLimit - nextFree < length {
        ok := NewChunk(length, answer);
      }
    }

    /** memcpy to next_free, which moves on. */
    method Append(data: seq<Octet>)
      requires Valid() && chunkLimit - nextFree >= |data|
      modifies this`nextFree, memory.ram
      ensures Valid() && old(nextFree + |data| <= memory.ram.Length) && View() == Grown(old(View()), data)
    {
      hide Ok, LedgerOk, Overwrite;
      GrownOk(View(), data);
      memory.Write(nextFree, data);
      nextFree := nextFree + |data|;
    }

    /** obstack_grow */
    method Grow(data: seq<Octet>, answer: nat) returns (ok: bool)
      requires Valid() && CanAsk(|data|, answer)
      modifies this, memory, memory.ram
      ensures ok <==> old(chunkLimit - nextFree) >= |data| || answer != 0
      ensures chunkSize == old(chunkSize) && Valid()
      ensures !ok ==> View() == old(View())
      ensures ok ==> IsStep(old(View()), Op.Grow(data, answer), chunkSize, View())
      ensures ok ==> Growing() == old(Growing()) + data && objects == old(objects)
      ensures old(chunkLimit - nextFree) >= |data| ==> objectBase == old(objectBase) && chain == old(chain)
    {
      hide Ok, LedgerOk, Overwrite, Roomy, Fits;
      ok := MakeRoom(|data|, answer);
      if ok {
        RoomyOk(old(View()), |data|, answer, chunkSize);
        GrowIs(old(View()), data, answer, chunkSize);
        Append(data);
      }
    }

    /** obstack_grow0: the data and a zero byte. */
    method Grow0(data: seq<Octet>, answer: nat) returns (ok: bool)
      requires Valid() && CanAsk(|data| + 1, answer)
      modifies this, memory, memory.ram
      ensures ok <==> old(chunkLimit - nextFree) >= |data| + 1 || answer != 0
      ensures chunkSize == old(chunkSize) && Valid()
      ensures !ok ==> View() == old(View())
      ensures ok ==> IsStep(old(View()), Op.Grow(data + [0], answer), chunkSize, View())
      ensures ok ==> Growing() == old(Growing()) + (data + [0]) && objects == old(objects)
    {
      hide Ok, LedgerOk, Grown, Roomy, Fits;
      ok := MakeRoom(|data| + 1, answer);
      if ok {
        assert |data + [0]| == |data| + 1;
        RoomyOk(old(View()), |data| + 1, answer, chunkSize);
        GrowIs(old(View()), data + [0], answer, chunkSize);
        Facts(View());
        GrownTwice(View(), data, [0]);
        Append(data);
        Append([0]);
      }
    }

    /** obstack_1grow */
    method Grow1(datum: Octet, answer: nat) returns (ok: bool)
      requires Valid() && CanAsk(1, answer)
      modifies this, memory, memory.ram
      ensures ok <==> old(chunkLimit - nextFree) >= 1 || answer != 0
      ensures chunkSize == old(chunkSize) && Valid()
      ensures !ok ==> View() == old(View())
      ensures ok ==> IsStep(old(View()), Op.Grow([datum], answer), chunkSize, View())
      ensures ok ==> Growing() == old(Growing()) + [datum] && objects == old(objects)
    {
      ok := Grow([datum], answer);
    }

    /** next_free moves on over the bytes that are there. */
    method TakeIn(length: nat)
      requires Valid() && chunkLimit - nextFree >= length
      modifies this`nextFree
      ensures Valid() && old(nextFree + length <= memory.ram.Length) && View() == Blanked(old(View()), length)
    {
      hide Ok, LedgerOk, Overwrite;
      Facts(View());
      GrownOk(View(), memory.ram[nextFree..nextFree + length]);
      BlankedNext(View(), length);
      nextFree := nextFree + length;
    }

    /** obstack_blank */
    method Blank(length: nat, answer: nat) returns (ok: bool)
      requires Valid() && CanAsk(length, answer)
      modifies this, memory, memory.ram
      ensures ok <==> old(chunkLimit - nextFree) >= length || answer != 0
      ensures chunkSize == old(chunkSize) && Valid()
      ensures !ok ==> View() == old(View())
      ensures ok ==> IsStep(old(View()), Op.Blank(length, answer), chunkSize, View())
      ensures ok ==> |Growing()| == |old(Growing())| + length && old(Growing()) <= Growing() && objects == old(objects)
      ensures old(chunkLimit - nextFree) >= length ==> objectBase == old(objectBase) && chain == old(chain)
    {
      hide Ok, LedgerOk, Roomy, Fits, Blanked;
      ok := MakeRoom(length, answer);
      if ok {
        ghost var data := BlankIs(old(View()), length, answer, chunkSize);
        RoomyOk(old(View()), length, answer, chunkSize);
        TakeIn(length);
      }
    }

    /** obstack_finish: the address of the finished object. */
    method Finish() returns (value: nat)
      requires Valid()
      modifies this
      ensures chunkSize == old(chunkSize) && Valid()
      ensures value == old(objectBase) && IsStep(old(View()), Op.Finish, chunkSize, View())
      ensures objects == old(objects) + [Obj(value, old(Growing()), |chain| - 1)] && chain == old(chain)
      ensures objectBase == nextFree && maybeEmptyObject == old(maybeEmptyObject || objectBase == nextFree)
      ensures var end := AlignUp(old(nextFree), alignmentMask);
        nextFree == if end <= chunkLimit then end else chunkLimit
      ensures alignmentMask == old(alignmentMask) && chunk == old(chunk) && chunkLimit == old(chunkLimit)
    {
      hide Ok, LedgerOk, AlignUp;
      Facts(View());
      FinishedOk(View());
      value := objectBase;
      ghost var bytes := memory.ram[objectBase..nextFree];
      if nextFree == value {
        maybeEmptyObject := true;
      }
      nextFree := AlignUp(nextFree, alignmentMask);
      if nextFree - chunk > chunkLimit - chunk {
        nextFree := chunkLimit;
      }
      objectBase := nextFree;
      objects := objects + [Obj(value, bytes, |chain| - 1)];
    }

    /** obstack_alloc */
    method Alloc(length: nat, answer: nat) returns (ok: bool, value: nat)
      requires Valid() && CanAsk(length, answer)
      modifies this, memory, memory.ram
      ensures ok <==> old(chunkLimit - nextFree) >= length || answer != 0
      ensures chunkSize == old(chunkSize) && Valid()
      ensures !ok ==> View() == old(View())
      ensures ok ==> IsRun(old(View()), [Op.Blank(length, answer), Op.Finish], chunkSize, View())
      ensures ok ==>
        && |objects| == |old(objects)| + 1 && objects[..|old(objects)|] == old(objects)
        && var o := objects[|old(objects)|];
        && o.address == value && |o.bytes| == |old(Growing())| + length && old(Growing()) <= o.bytes
    {
      hide Ok, LedgerOk, Step, Legal;
      value := 0;
      ghost var p := View();
      ok := Blank(length, answer);
      if ok {
        FinishStep(View(), chunkSize);
        TwoSteps(p, Op.Blank(length, answer), Op.Finish, chunkSize);
        KeepCount(p, Op.Blank(length, answer), chunkSize);
        value := Finish();
      }
    }

    /** obstack_copy */
    method Copy(data: seq<Octet>, answer: nat) returns (ok: bool, value: nat)
      requires Valid() && CanAsk(|data|, answer)
      modifies this, memory, memory.ram
      ensures ok <==> old(chunkLimit - nextFree) >= |data| || answer != 0
      ensures chunkSize == old(chunkSize) && Valid()
      ensures !ok ==> View() == old(View())
      ensures ok ==> IsRun(old(View()), [Op.Grow(data, answer), Op.Finish], chunkSize, View())
      ensures ok ==> objects == old(objects) + [Obj(value, old(Growing()) + data, |chain| - 1)]
    {
      hide Ok, LedgerOk, Step, Legal;
      value := 0;
      ghost var p := View();
      ok := Grow(data, answer);
      if ok {
        FinishStep(View(), chunkSize);
        TwoSteps(p, Op.Grow(data, answer), Op.Finish, chunkSize);
        KeepCount(p, Op.Grow(data, answer), chunkSize);
        value := Finish();
      }
    }

    /** The loop of obstack_free: gives chunks back from the newest on until one may hold the object. */
    method ReleaseDown(obj: nat) returns (lp: nat)
      requires Valid()
      modifies this`maybeEmptyObject, memory
      ensures var p := old(View()); var k := Holder(p.chain, p.limits, obj);
        && LedgerOk(memory.ram.Length, p.chain[..k + 1], memory.Books())
        && memory.limits == Oldest(p.limits, p.chain[..k + 1])
        && (lp == 0 <==> k == -1) && lp == PrevOf(p.chain[..k + 1])
        && (lp != 0 ==> lp in memory.limits)
        && maybeEmptyObject == (p.maybeEmpty || k + 1 < |p.chain|)
    {
      hide Ok, LedgerOk, Oldest, PrevOf, Holder, Holds, Popped;
      ghost var p := View();
      ghost var n: nat := |chain|;
      Facts(p);
      AllChunks(p, memory.Books());
      lp := chunk;
      LastLink(p, n, memory.Books(), obj);
      while lp != 0 && (lp >= obj || memory.limits[lp] < obj)
        invariant n <= |p.chain| && lp == PrevOf(p.chain[..n])
        invariant LedgerOk(memory.ram.Length, p.chain[..n], memory.Books())
        invariant memory.limits == Oldest(p.limits, p.chain[..n])
        invariant Holder(p.chain, p.limits, obj) == Holder(p.chain[..n], p.limits, obj)
        invariant maybeEmptyObject == (p.maybeEmpty || n < |p.chain|)
        invariant lp != 0 ==> lp in memory.limits
        invariant lp == 0 <==> n == 0
        decreases n
      {
        LastLink(p, n, memory.Books(), obj);
        var plp := memory.prevs[lp];
        memory.Release(lp);
        lp := plp;
        maybeEmptyObject := true;
        n := n - 1;
        LastLink(p, n, memory.Books(), obj);
      }
      LastLink(p, n, memory.Books(), obj);
    }

    /**
      The function obstack_free: gives back object `keep`, which is at obj, and
      everything newer; null gives everything back. It aborts, having given
      everything back, if no chunk could hold the object.
     */
    method FreeFull(obj: nat, ghost keep: nat) returns (aborted: bool)
      requires Valid() && keep <= |objects|
      modifies this, memory
      ensures FreeEffect(old(View()), obj, keep, aborted, memory.Books(), View())
      ensures Holder(old(chain), old(memory.limits), obj) >= 0 ==>
        Current(View()) in memory.limits && chunk == Current(View()) && chunkLimit == Limit(View())
      ensures chunkSize == old(chunkSize)
      ensures keep < |old(objects)| && obj == old(objects)[keep].address ==>
        Valid() && !aborted && IsStep(old(View()), Op.Free(keep), chunkSize, View())
      ensures keep < |old(objects)| && obj == old(objects)[keep].address ==>
        && objects == old(objects[..keep]) && objectBase == nextFree == obj
        && old(objects)[keep].chunk < |old(chain)| && chain == old(chain)[..old(objects)[keep].chunk + 1]
        && maybeEmptyObject == (old(maybeEmptyObject) || |chain| < |old(chain)|)
    {
      hide Ok, LedgerOk, Oldest, Holder, Holds;
      ghost var p := View();
      Facts(p);
      var lp := ReleaseDown(obj);
      aborted := false;
      chain := chain[..Holder(p.chain, p.limits, obj) + 1];
      objects := objects[..keep];
      if lp != 0 {
        objectBase, nextFree := obj, obj;
        chunkLimit := memory.limits[lp];
        chunk := lp;
      } else if obj != 0 {
        aborted := true;
      }
      if chain == [] {
        NothingLeft(memory.ram.Length, memory.Books());
      }
      if keep < |p.objects| && obj == p.objects[keep].address {
        FreedIsStep(p, keep, chunkSize);
      }
    }

    /** The macro obstack_free: an object strictly inside the current chunk needs no search. */
    method Free(obj: nat, ghost keep: nat) returns (aborted: bool)
      requires Valid() && keep <= |objects|
      modifies this, memory
      ensures FreeEffect(old(View()), obj, keep, aborted, memory.Books(), View())
      ensures Holder(old(chain), old(memory.limits), obj) >= 0 ==>
        Current(View()) in memory.limits && chunk == Current(View()) && chunkLimit == Limit(View())
      ensures chunkSize == old(chunkSize)
      ensures keep < |old(objects)| && obj == old(objects)[keep].address ==>
        Valid() && !aborted && IsStep(old(View()), Op.Free(keep), chunkSize, View())
      ensures keep < |old(objects)| && obj == old(objects)[keep].address ==>
        && objects == old(objects[..keep]) && objectBase == nextFree == obj
        && old(objects)[keep].chunk < |old(chain)| && chain == old(chain)[..old(objects)[keep].chunk + 1]
        && maybeEmptyObject == (old(maybeEmptyObject) || |chain| < |old(chain)|)
    {
      hide Ok, LedgerOk, Oldest, Holder;
      if obj > chunk && obj < chunkLimit {
        ghost var p := View();
        Facts(p);
        InsideCurrent(p, obj);
        AllChunks(p, memory.Books());
        nextFree, objectBase := obj, obj;
        objects := objects[..keep];
        aborted := false;
        if keep < |p.objects| && obj == p.objects[keep].address {
          FreedIsStep(p, keep, chunkSize);
        }
      } else {
        aborted := FreeFull(obj, keep);
      }
    }

    /** _obstack_allocated_p */
    method AllocatedP(obj: nat) returns (found: bool)
      requires Valid()
      ensures found <==> Holder(chain, memory.limits, obj) != -1
      ensures (exists i :: 0 <= i < |objects| && objects[i].address == obj) ==> found
    {
      hide Ok, LedgerOk, Holder, Holds, PrevOf;
      ghost var n: nat := |chain|;
      Facts(View());
      var lp := chunk;
      WalkLink(View(), n, memory.Books(), obj);
      assert chain[..n] == chain;
      while lp != 0 && (lp >= obj || memory.limits[lp] < obj)
        invariant n <= |chain| && lp == PrevOf(chain[..n])
        invariant Holder(chain, memory.limits, obj) == Holder(chain[..n], memory.limits, obj)
        invariant lp != 0 ==> lp in memory.limits
        invariant lp == 0 <==> n == 0
        decreases n
      {
        WalkLink(View(), n, memory.Books(), obj);
        lp := memory.prevs[lp];
        n := n - 1;
        WalkLink(View(), n, memory.Books(), obj);
      }
      WalkLink(View(), n, memory.Books(), obj);
      found := lp != 0;
      forall i | 0 <= i < |objects| && objects[i].address == obj
        ensures Holder(chain, memory.limits, obj) != -1
      {
        HolderOfObject(View(), i);
      }
    }

    /** _obstack_memory_used: the bytes obtained and not returned. */
    method MemoryUsed() returns (nbytes: nat)
      requires Valid()
      ensures nbytes == memory.obtained - memory.returned
      ensures nbytes == Total(chain, memory.blocks)
    {
      hide Ok, LedgerOk, PrevOf, Total;
      ghost var n: nat := |chain|;
      Facts(View());
      var lp := chunk;
      nbytes := 0;
      WalkLink(View(), n, memory.Books(), 0);
      assert chain[..n] == chain;
      while lp != 0
        invariant n <= |chain| && lp == PrevOf(chain[..n])
        invariant nbytes + Total(chain[..n], memory.blocks) == Total(chain, memory.blocks)
        invariant lp != 0 ==> lp in memory.limits
        invariant lp == 0 <==> n == 0
        decreases n
      {
        WalkLink(View(), n, memory.Books(), 0);
        WalkTotal(chain, n, memory.blocks);
        nbytes := nbytes + (memory.limits[lp] - lp);
        lp := memory.prevs[lp];
        n := n - 1;
        WalkLink(View(), n, memory.Books(), 0);
      }
      AccountOf(memory.ram.Length, chain, memory.Books());
    }
  }

  /** What obstack_free leaves for the object at obj, if a chunk may hold it. */
  ghost function FreedAt(p: Picture, obj: nat, keep: nat): Picture
    requires keep <= |p.objects|
  {
    var k := Holder(p.chain, p.limits, obj);
    p.(chain := p.chain[..k + 1], limits := Oldest(p.limits, p.chain[..k + 1]), objects := p.objects[..keep],
       base := obj, next := obj, maybeEmpty := p.maybeEmpty || k + 1 < |p.chain|)
  }

  /** The effect of freeing, for any address. */
  ghost predicate FreeEffect(p: Picture, obj: nat, keep: nat, aborted: bool, books: Ledger, q: Picture)
    requires keep <= |p.objects|
  {
    var k := Holder(p.chain, p.limits, obj);
    && LedgerOk(|p.ram|, p.chain[..k + 1], books)
    && (k >= 0 ==> !aborted && q == FreedAt(p, obj, keep))
    && (k < 0 ==> (aborted <==> obj != 0) && books.blocks == map[] && books.obtained == books.returned)
  }

  lemma {:induction false} MovedLimits(p: Picture, answer: nat, size: nat)
    requires Ok(p) && answer != Current(p)
    ensures Oldest(p.limits, KeptChain(p))[answer := answer + size] ==
      if Alone(p) then p.limits[answer := answer + size] - {Current(p)} else p.limits[answer := answer + size]
  {
    hide ObjectsOk, GrowingOk, ChunksOk, Oldest;
    PopChunks(|p.ram|, p.chain, p.limits);
    AllOldest(|p.ram|, p.chain, p.limits);
  }

  lemma {:induction false} AllOldest(size: nat, chain: seq<nat>, limits: map<nat, nat>)
    requires ChunksOk(size, chain, limits)
    ensures Oldest(limits, chain) == limits
  {
  }

  lemma {:induction false} NoLimits(size: nat, l: Ledger)
    requires LedgerOk(size, [], l)
    ensures l.limits == map[]
  {
    assert forall c :: c in l.limits ==> c in [];
  }

  lemma {:induction false} FirstPicture(p: Picture, l: Ledger)
    requires |p.chain| == 1 && p.objects == [] && p.limits == l.limits
    requires LedgerOk(|p.ram|, p.chain, l)
    requires p.base == p.next == Contents(Current(p))
    ensures FreshPicture(p)
  {
    assert ChunkOk(|p.ram|, p.limits, p.chain[0]);
  }

  lemma {:induction false} ApartFromNew(p: Picture, answer: nat, size: nat)
    requires Ok(p) && Clear(|p.ram|, p.limits, answer, size)
    ensures Limit(p) <= answer || answer + size <= Current(p)
    ensures (Current(p) != answer || size == 0) && answer + size <= |p.ram|
  {
    hide ObjectsOk, GrowingOk;
    assert ChunkOk(|p.ram|, p.limits, Current(p));
  }

  lemma {:induction false} GrownTwice(p: Picture, a: seq<Octet>, b: seq<Octet>)
    requires p.next + |a| + |b| <= |p.ram| && p.chain != [] && Current(p) in p.limits
    ensures |a + b| == |a| + |b|
    ensures Grown(p, a).next == p.next + |a| && Limit(Grown(p, a)) == Limit(p)
    ensures Grown(Grown(p, a), b) == Grown(p, a + b)
  {
    OverwriteTwice(p.ram, p.next, a, b);
  }

  lemma {:induction false} OverwriteTwice(ram: seq<Octet>, at: nat, a: seq<Octet>, b: seq<Octet>)
    requires at + |a| + |b| <= |ram|
    ensures |a + b| == |a| + |b|
    ensures Overwrite(Overwrite(ram, at, a), at + |a|, b) == Overwrite(ram, at, a + b)
  {
    var r, t := Overwrite(Overwrite(ram, at, a), at + |a|, b), Overwrite(ram, at, a + b);
    assert t == ram[..at] + (a + b) + ram[at + |a + b|..];
    assert r == ram[..at] + a + b + ram[at + |a| + |b|..];
  }

  lemma {:induction false} BlankedNext(p: Picture, length: nat)
    requires p.next + length <= |p.ram|
    ensures Blanked(p, length) == p.(next := p.next + length)
  {
    OverwriteSame(p.ram, p.next, length);
  }

  lemma {:induction false} OverwriteSame(ram: seq<Octet>, at: nat, length: nat)
    requires at + length <= |ram|
    ensures Overwrite(ram, at, ram[at..at + length]) == ram
  {
  }

  lemma {:induction false} TwoSteps(p: Picture, a: Op, b: Op, chunkSize: nat)
    requires Ok(p) && Legal(p, a, chunkSize) && Legal(Step(p, a, chunkSize), b, chunkSize)
    ensures LegalRun(p, [a, b], chunkSize)
    ensures Run(p, [a, b], chunkSize) == Step(Step(p, a, chunkSize), b, chunkSize)
  {
    hide Ok, Legal, Step;
    var q := Step(p, a, chunkSize);
    assert [a, b][1..] == [b] && [b][1..] == [];
    assert LegalRun(Step(q, b, chunkSize), [], chunkSize);
    assert LegalRun(q, [b], chunkSize);
    assert Run(q, [b], chunkSize) == Step(q, b, chunkSize);
  }

  lemma {:induction false} FinishStep(p: Picture, chunkSize: nat)
    requires Ok(p)
    ensures Legal(p, Op.Finish, chunkSize)
    ensures var q := Step(p, Op.Finish, chunkSize);
      |q.objects| == |p.objects| + 1 && q.objects[|p.objects|].address == p.base
  {
    hide Ok;
    Facts(p);
  }

  lemma {:induction false} KeepCount(p: Picture, op: Op, chunkSize: nat)
    requires Ok(p) && Legal(p, op, chunkSize) && (op.Grow? || op.Blank?)
    ensures Step(p, op, chunkSize).objects == p.objects
  {
    hide Ok, Fits, Roomy, Overwrite;
    match op
    case Blank(length, answer) => RoomyOk(p, length, answer, chunkSize);
    case Grow(data, answer) => RoomyOk(p, |data|, answer, chunkSize);
    case Finish =>
    case Free(i) =>
  }

  lemma {:induction false} AllChunks(p: Picture, l: Ledger)
    requires Ok(p) && l.limits == p.limits && LedgerOk(|p.ram|, p.chain, l)
    ensures p.chain[..|p.chain|] == p.chain
    ensures Oldest(p.limits, p.chain[..|p.chain|]) == p.limits
    ensures LedgerOk(|p.ram|, p.chain[..|p.chain|], l)
    ensures PrevOf(p.chain[..|p.chain|]) == Current(p)
  {
    hide ObjectsOk, GrowingOk;
    assert p.chain[..|p.chain|] == p.chain;
    AllOldest(|p.ram|, p.chain, p.limits);
  }

  /** What the newest of the first n chunks says, and what is left when it has gone back. */
  lemma {:induction false} LastLink(p: Picture, n: nat, l: Ledger, obj: nat)
    requires n <= |p.chain| && LedgerOk(|p.ram|, p.chain[..n], l)
    requires l.limits == Oldest(p.limits, p.chain[..n])
    ensures n == 0 ==> PrevOf(p.chain[..n]) == 0 && Holder(p.chain[..n], p.limits, obj) == -1
    ensures n > 0 ==>
      var c := p.chain[n - 1];
      && c == PrevOf(p.chain[..n]) && 0 < c && c in l.limits && c in l.blocks && c in l.prevs
      && l.prevs[c] == PrevOf(p.chain[..n - 1])
      && Popped(l, c).limits == Oldest(p.limits, p.chain[..n - 1])
      && LedgerOk(|p.ram|, p.chain[..n - 1], Popped(l, c))
      && Holder(p.chain[..n], p.limits, obj) ==
         if c < obj && obj <= l.limits[c] then n - 1 else Holder(p.chain[..n - 1], p.limits, obj)
  {
    if n > 0 {
      var chain := p.chain[..n];
      assert chain[..|chain| - 1] == p.chain[..n - 1];
      PopOk(|p.ram|, chain, l);
      LastChunk(|p.ram|, chain, l.limits);
      OldestTwice(p.limits, chain, n - 1);
      hide LedgerOk, Popped;
    }
  }

  lemma {:induction false} LastChunk(size: nat, chain: seq<nat>, limits: map<nat, nat>)
    requires ChunksOk(size, chain, limits) && chain != []
    ensures 0 < chain[|chain| - 1] && chain[|chain| - 1] in limits
  {
    assert ChunkOk(size, limits, chain[|chain| - 1]);
  }

  lemma {:induction false} OldestTwice(limits: map<nat, nat>, chain: seq<nat>, n: nat)
    requires n <= |chain|
    ensures Oldest(Oldest(limits, chain), chain[..n]) == Oldest(limits, chain[..n])
  {
  }

  /** Walking the chain without giving anything back. */
  lemma {:induction false} WalkLink(p: Picture, n: nat, l: Ledger, obj: nat)
    requires Ok(p) && n <= |p.chain| && l.limits == p.limits && LedgerOk(|p.ram|, p.chain, l)
    ensures n == 0 ==> PrevOf(p.chain[..n]) == 0 && Holder(p.chain[..n], p.limits, obj) == -1
    ensures n > 0 ==>
      var c := p.chain[n - 1];
      && c == PrevOf(p.chain[..n]) && 0 < c && c in l.limits && c in l.prevs && c in l.blocks
      && l.prevs[c] == PrevOf(p.chain[..n - 1]) && l.limits[c] - c == l.blocks[c]
      && Holder(p.chain[..n], p.limits, obj) ==
         if c < obj && obj <= l.limits[c] then n - 1 else Holder(p.chain[..n - 1], p.limits, obj)
  {
    hide ObjectsOk, GrowingOk, Total;
    if n > 0 {
      assert LinkOk(l, p.chain, n - 1);
      assert ChunkOk(|p.ram|, p.limits, p.chain[n - 1]);
      assert p.chain[..n][..n - 1] == p.chain[..n - 1];
    }
  }

  lemma {:induction false} WalkTotal(chain: seq<nat>, n: nat, blocks: map<nat, nat>)
    requires 0 < n <= |chain| && chain[n - 1] in blocks
    ensures Total(chain[..n], blocks) == Total(chain[..n - 1], blocks) + blocks[chain[n - 1]]
  {
    assert chain[..n][..n - 1] == chain[..n - 1];
  }

  lemma {:induction false} AccountOf(size: nat, chain: seq<nat>, l: Ledger)
    requires LedgerOk(size, chain, l)
    ensures l.obtained - l.returned == Total(chain, l.blocks) && Total([], l.blocks) == 0
    ensures chain[..0] == []
  {
  }

  lemma {:induction false} NothingLeft(size: nat, l: Ledger)
    requires LedgerOk(size, [], l)
    ensures l.blocks == map[] && l.obtained == l.returned
  {
    assert forall c :: c in l.blocks ==> c in l.limits;
  }

  lemma {:induction false} FreedIsStep(p: Picture, i: nat, chunkSize: nat)
    requires Ok(p) && i < |p.objects|
    ensures Holder(p.chain, p.limits, p.objects[i].address) == p.objects[i].chunk < |p.chain|
    ensures Ok(FreedAt(p, p.objects[i].address, i))
    ensures IsStep(p, Op.Free(i), chunkSize, FreedAt(p, p.objects[i].address, i))
  {
    hide Ok, Holder, Oldest;
    HolderOfObject(p, i);
    FreedOk(p, i);
  }

  /** Strictly inside the current chunk, the search ends at once. */
  lemma {:induction false} InsideCurrent(p: Picture, obj: nat)
    requires p.chain != [] && Current(p) in p.limits && Current(p) < obj <= Limit(p)
    ensures Holder(p.chain, p.limits, obj) == |p.chain| - 1
  {
  }
}
