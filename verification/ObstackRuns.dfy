/**
  Whole runs of obstack operations: what becomes of finished objects, and where
  objects start.
 */
module ObstackRuns {
  import opened Bitwise
  import opened ObstackPictures

  /** An operation, with what the chunk function answers if it is asked. */
  datatype Op = Blank(length: nat, answer: nat) | Grow(data: seq<Octet>, answer: nat) | Finish | Free(i: nat)

  /** Makes room for more bytes, in a new chunk if need be. */
  ghost function Roomy(p: Picture, length: nat, answer: nat, chunkSize: nat): Picture
    requires Ok(p) && Fits(p, length, answer, chunkSize)
  {
    if Limit(p) - p.next < length then
      MovedOk(p, answer, length, chunkSize);
      Moved(p, answer, NewSize(p.next - p.base, length, p.mask, chunkSize))
    else p
  }

  /** There is room, or the chunk function gives some. */
  ghost predicate Fits(p: Picture, length: nat, answer: nat, chunkSize: nat)
    requires Ok(p)
  {
    Limit(p) - p.next >= length
    || Clear(|p.ram|, p.limits, answer, NewSize(p.next - p.base, length, p.mask, chunkSize))
  }

  lemma {:induction false} RoomyOk(p: Picture, length: nat, answer: nat, chunkSize: nat)
    requires Ok(p) && Fits(p, length, answer, chunkSize)
    ensures var q := Roomy(p, length, answer, chunkSize);
      && Ok(q) && q.next <= |q.ram| && q.base <= q.next && Limit(q) - q.next >= length && q.objects == p.objects
      && Limit(q) <= |q.ram|
      && q.mask == p.mask && q.ram[q.base..q.next] == p.ram[p.base..p.next]
  {
    Facts(p);
    if Limit(p) - p.next < length {
      MovedOk(p, answer, length, chunkSize);
    }
    Facts(Roomy(p, length, answer, chunkSize));
    hide Ok, Moved, NewSize, Clear;
  }

  /** The growing object takes in bytes as it finds them. */
  ghost function Blanked(p: Picture, length: nat): Picture
    requires p.next + length <= |p.ram|
  {
    Grown(p, p.ram[p.next..p.next + length])
  }

  /** The operation may be called. */
  ghost predicate Legal(p: Picture, op: Op, chunkSize: nat)
    requires Ok(p)
  {
    match op
    case Blank(length, answer) => Fits(p, length, answer, chunkSize)
    case Grow(data, answer) => Fits(p, |data|, answer, chunkSize)
    case Finish => true
    case Free(i) => i < |p.objects|
  }

  ghost function Step(p: Picture, op: Op, chunkSize: nat): (q: Picture)
    requires Ok(p) && Legal(p, op, chunkSize)
    ensures Ok(q)
  {
    hide Ok, ObstackPictures.Finished, FreedTo, Fits, Roomy;
    match op
    case Blank(length, answer) =>
      RoomyOk(p, length, answer, chunkSize);
      var room := Roomy(p, length, answer, chunkSize);
      GrownOk(room, room.ram[room.next..room.next + length]);
      Blanked(room, length)
    case Grow(data, answer) =>
      RoomyOk(p, |data|, answer, chunkSize);
      GrownOk(Roomy(p, |data|, answer, chunkSize), data);
      Grown(Roomy(p, |data|, answer, chunkSize), data)
    case Finish =>
      Facts(p);
      FinishedOk(p);
      Finished(p)
    case Free(i) =>
      FreedOk(p, i);
      FreedTo(p, i)
  }

  /** Object i is still where it was, with the same bytes, in a chunk that was never given back. */
  ghost predicate Survives(p: Picture, q: Picture, i: nat)
    requires i < |p.objects|
  {
    && i < |q.objects| && q.objects[i] == p.objects[i]
    && var o := p.objects[i];
    && o.chunk < |p.chain| && o.chunk < |q.chain| && q.chain[o.chunk] == p.chain[o.chunk]
    && o.End() <= |q.ram| && q.ram[o.address..o.End()] == o.bytes
  }

  lemma {:induction false} ObjectStands(p: Picture, q: Picture, i: nat)
    requires Ok(p) && Ok(q) && i < |p.objects| && i < |q.objects| && q.objects[i] == p.objects[i]
    requires p.objects[i].chunk < |p.chain| && p.objects[i].chunk < |q.chain| ==>
      q.chain[p.objects[i].chunk] == p.chain[p.objects[i].chunk]
    ensures Survives(p, q, i)
  {
    hide ChunksOk, GrowingOk;
    assert ObjectOk(p, p.objects[i]) && ObjectOk(q, q.objects[i]);
  }

  lemma {:induction false} RoomyKeeps(p: Picture, length: nat, answer: nat, chunkSize: nat, i: nat)
    requires Ok(p) && Fits(p, length, answer, chunkSize) && i < |p.objects|
    ensures var q := Roomy(p, length, answer, chunkSize);
      p.objects[i].chunk < |p.chain| && p.objects[i].chunk < |q.chain|
      && q.chain[p.objects[i].chunk] == p.chain[p.objects[i].chunk]
  {
    hide ChunksOk, ObjectsOk, GrowingOk, AlignUp, Overwrite, Oldest;
    Facts(p);
    NoneLeft(p);
    if Limit(p) - p.next < length {
      MovedOk(p, answer, length, chunkSize);
    }
  }

  /** One operation leaves every object alone but those it frees. */
  lemma {:induction false} StepKeeps(p: Picture, op: Op, chunkSize: nat, i: nat)
    requires Ok(p) && Legal(p, op, chunkSize) && i < |p.objects|
    requires op.Free? ==> i < op.i
    ensures Survives(p, Step(p, op, chunkSize), i)
  {
    hide Ok, Fits, Roomy, Overwrite, Oldest, AlignUp, Survives, Holder;
    var q := Step(p, op, chunkSize);
    match op
    case Blank(length, answer) =>
      RoomyOk(p, length, answer, chunkSize);
      RoomyKeeps(p, length, answer, chunkSize, i);
      ObjectStands(p, q, i);
    case Grow(data, answer) =>
      RoomyOk(p, |data|, answer, chunkSize);
      RoomyKeeps(p, |data|, answer, chunkSize, i);
      ObjectStands(p, q, i);
    case Finish =>
      ObjectStands(p, q, i);
    case Free(k) =>
      ObjectStands(p, q, i);
  }

  // Runs.

  ghost predicate LegalRun(p: Picture, ops: seq<Op>, chunkSize: nat)
    requires Ok(p)
    decreases |ops|
  {
    ops == [] || (Legal(p, ops[0], chunkSize) && LegalRun(Step(p, ops[0], chunkSize), ops[1..], chunkSize))
  }

  ghost function Run(p: Picture, ops: seq<Op>, chunkSize: nat): (q: Picture)
    requires Ok(p) && LegalRun(p, ops, chunkSize)
    ensures Ok(q)
    decreases |ops|
  {
    if ops == [] then p else Run(Step(p, ops[0], chunkSize), ops[1..], chunkSize)
  }

  /** Object i is never freed, neither by itself nor with an older one. */
  ghost predicate NeverFreed(ops: seq<Op>, i: nat) {
    forall j :: 0 <= j < |ops| && ops[j].Free? ==> i < ops[j].i
  }

  /** Over any run, a finished object that is not freed keeps its address, its bytes and its chunk. */
  lemma {:induction false} RunKeeps(p: Picture, ops: seq<Op>, chunkSize: nat, i: nat)
    requires Ok(p) && LegalRun(p, ops, chunkSize) && i < |p.objects| && NeverFreed(ops, i)
    ensures Survives(p, Run(p, ops, chunkSize), i)
    decreases |ops|
  {
    hide Ok, Legal, Step;
    if ops == [] {
      ObjectStands(p, p, i);
    } else {
      var q := Step(p, ops[0], chunkSize);
      StepKeeps(p, ops[0], chunkSize, i);
      assert forall j :: 0 <= j < |ops[1..]| ==> ops[1..][j] == ops[j + 1];
      RunKeeps(q, ops[1..], chunkSize, i);
    }
  }

  // Where objects start.

  /** Aligned, or the first place of the initial chunk, or nothing at the very end of a chunk. */
  ghost predicate WellPlaced(p: Picture, o: Obj, initial: nat) {
    || Aligned(o.address, p.mask) || o.address == Contents(initial)
    || (o.bytes == [] && o.chunk < |p.chain| && p.chain[o.chunk] in p.limits && o.address == p.limits[p.chain[o.chunk]])
  }

  ghost predicate BaseOk(p: Picture, initial: nat)
    requires p.chain != [] && Current(p) in p.limits
  {
    Aligned(p.base, p.mask) || p.base == Contents(initial) || p.base == p.next == Limit(p)
  }

  ghost predicate PlacesOk(p: Picture, initial: nat)
    requires p.chain != [] && Current(p) in p.limits
  {
    BaseOk(p, initial) && forall i :: 0 <= i < |p.objects| ==> WellPlaced(p, p.objects[i], initial)
  }

  lemma {:induction false} RoomyPlaces(p: Picture, length: nat, answer: nat, chunkSize: nat, initial: nat)
    requires Ok(p) && Fits(p, length, answer, chunkSize) && PlacesOk(p, initial)
    ensures PlacesOk(Roomy(p, length, answer, chunkSize), initial)
  {
    hide AlignUp, Aligned, Overwrite, Contents, ObjectsOk, GrowingOk, ChunksOk;
    Facts(p);
    if Limit(p) - p.next < length {
      MovedOk(p, answer, length, chunkSize);
      var q := Roomy(p, length, answer, chunkSize);
      NoneLeft(p);
      forall i | 0 <= i < |p.objects|
        ensures WellPlaced(q, p.objects[i], initial)
      {
        assert WellPlaced(p, p.objects[i], initial);
        KeptLimit(p, answer, NewSize(p.next - p.base, length, p.mask, chunkSize), p.objects[i].chunk);
      }
    }
  }

  lemma {:induction false} KeptLimit(p: Picture, answer: nat, size: nat, k: nat)
    requires Ok(p) && p.base <= p.next <= |p.ram| && Clear(|p.ram|, p.limits, answer, size)
    requires AlignUp(Contents(answer), p.mask) + (p.next - p.base) <= |p.ram|
    requires k < |KeptChain(p)| && 0 < size
    ensures var q := Moved(p, answer, size);
      k < |p.chain| && k < |q.chain| && q.chain[k] == p.chain[k]
      && p.chain[k] in p.limits && p.chain[k] in q.limits && q.limits[p.chain[k]] == p.limits[p.chain[k]]
  {
    hide AlignUp, Overwrite, ObjectsOk, GrowingOk, Apart;
    assert ChunkOk(|p.ram|, p.limits, p.chain[k]);
    assert KeptChain(p)[k] == p.chain[k];
  }

  lemma {:induction false} FreedPlaces(p: Picture, i: nat, initial: nat)
    requires Ok(p) && i < |p.objects| && PlacesOk(p, initial)
    ensures p.objects[i].chunk < |p.chain|
    ensures Ok(FreedTo(p, i)) && PlacesOk(FreedTo(p, i), initial)
  {
    hide Aligned, Contents, GrowingOk, ChunksOk, Oldest;
    FreedOk(p, i);
    var q := FreedTo(p, i);
    forall j | 0 <= j <= i
      ensures WellPlaced(q, p.objects[j], initial)
    {
      FreedPlace(p, i, j, initial);
    }
    hide ObjectsOk;
    assert WellPlaced(q, p.objects[i], initial);
    assert q.objects == p.objects[..i];
  }

  lemma {:induction false} FreedPlace(p: Picture, i: nat, j: nat, initial: nat)
    requires Ok(p) && j <= i < |p.objects| && p.objects[i].chunk < |p.chain| && PlacesOk(p, initial)
    ensures WellPlaced(FreedTo(p, i), p.objects[j], initial)
    ensures p.objects[j].chunk <= p.objects[i].chunk
  {
    hide Aligned, Contents, GrowingOk, ChunksOk;
    var chain := p.chain[..p.objects[i].chunk + 1];
    assert WellPlaced(p, p.objects[j], initial);
    assert ObjectOk(p, p.objects[j]);
    assert j < i ==> Before(p.objects[j], p.objects[i]);
    assert chain[p.objects[j].chunk] == p.chain[p.objects[j].chunk];
  }

  lemma {:induction false} FinishedPlaces(p: Picture, initial: nat)
    requires Ok(p) && PlacesOk(p, initial)
    ensures p.next <= |p.ram| && Ok(Finished(p)) && PlacesOk(Finished(p), initial)
  {
    hide Aligned, Contents, GrowingOk, ChunksOk, AlignUp, ObjectsOk;
    Facts(p);
    FinishedOk(p);
    AlignedUp(p.next, p.mask);
    var q := Finished(p);
    forall i | 0 <= i < |q.objects|
      ensures WellPlaced(q, q.objects[i], initial)
    {
      assert i < |p.objects| ==> WellPlaced(p, p.objects[i], initial);
    }
  }

  lemma {:induction false} GrownPlaces(p: Picture, data: seq<Octet>, initial: nat)
    requires Ok(p) && p.next + |data| <= Limit(p) <= |p.ram| && PlacesOk(p, initial)
    ensures PlacesOk(Grown(p, data), initial)
  {
    hide Aligned, Contents, GrowingOk, ChunksOk, ObjectsOk, Overwrite;
    var q := Grown(p, data);
    forall i | 0 <= i < |q.objects|
      ensures WellPlaced(q, q.objects[i], initial)
    {
      assert WellPlaced(p, p.objects[i], initial);
    }
  }

  lemma {:induction false} StepPlaces(p: Picture, op: Op, chunkSize: nat, initial: nat)
    requires Ok(p) && Legal(p, op, chunkSize) && PlacesOk(p, initial)
    ensures PlacesOk(Step(p, op, chunkSize), initial)
  {
    hide Ok, Fits, Roomy, Overwrite, Oldest, AlignUp, PlacesOk, Holder, Aligned;
    match op
    case Blank(length, answer) =>
      RoomyOk(p, length, answer, chunkSize);
      RoomyPlaces(p, length, answer, chunkSize, initial);
      var room := Roomy(p, length, answer, chunkSize);
      GrownPlaces(room, room.ram[room.next..room.next + length], initial);
    case Grow(data, answer) =>
      RoomyOk(p, |data|, answer, chunkSize);
      RoomyPlaces(p, |data|, answer, chunkSize, initial);
      GrownPlaces(Roomy(p, |data|, answer, chunkSize), data, initial);
    case Finish =>
      FinishedPlaces(p, initial);
    case Free(k) =>
      FreedPlaces(p, k, initial);
  }

  lemma {:induction false} RunPlaces(p: Picture, ops: seq<Op>, chunkSize: nat, initial: nat)
    requires Ok(p) && LegalRun(p, ops, chunkSize) && PlacesOk(p, initial)
    ensures PlacesOk(Run(p, ops, chunkSize), initial)
    decreases |ops|
  {
    hide Ok, Legal, Step, PlacesOk;
    if ops != [] {
      StepPlaces(p, ops[0], chunkSize, initial);
      RunPlaces(Step(p, ops[0], chunkSize), ops[1..], chunkSize, initial);
    }
  }

  /** A fresh obstack: one chunk, with the growing object at its contents. */
  ghost predicate FreshPicture(p: Picture) {
    Ok(p) && |p.chain| == 1 && p.objects == [] && p.base == p.next == Contents(Current(p))
  }

  /**
    Every object with bytes starts at an aligned address, in every run that begins
    with a fresh obstack, if and only if the contents of the initial chunk are
    aligned: nothing aligns the first object of that chunk.
   */
  lemma {:induction false} ObjectsAligned(p: Picture, chunkSize: nat)
    requires FreshPicture(p) && p.next < Limit(p)
    ensures Aligned(Contents(Current(p)), p.mask) <==>
      forall ops: seq<Op> :: LegalRun(p, ops, chunkSize) ==> AllAligned(Run(p, ops, chunkSize))
  {
    hide Ok, Legal, Step, PlacesOk, Aligned, Run, LegalRun;
    if Aligned(Contents(Current(p)), p.mask) {
      forall ops: seq<Op> | LegalRun(p, ops, chunkSize)
        ensures AllAligned(Run(p, ops, chunkSize))
      {
        FreshPlaces(p);
        RunPlaces(p, ops, chunkSize, Current(p));
        RunMask(p, ops, chunkSize);
        PlacedAligned(Run(p, ops, chunkSize), Current(p));
      }
    } else {
      OneByte(p, chunkSize);
    }
  }

  ghost predicate AllAligned(p: Picture) {
    forall i :: 0 <= i < |p.objects| && p.objects[i].bytes != [] ==> Aligned(p.objects[i].address, p.mask)
  }

  lemma {:induction false} FreshPlaces(p: Picture)
    requires FreshPicture(p)
    ensures PlacesOk(p, Current(p))
  {
    hide Aligned;
  }

  lemma {:induction false} PlacedAligned(p: Picture, initial: nat)
    requires Ok(p) && PlacesOk(p, initial) && Aligned(Contents(initial), p.mask)
    ensures AllAligned(p)
  {
    hide Aligned, ChunksOk, ObjectsOk, GrowingOk;
    forall i | 0 <= i < |p.objects| && p.objects[i].bytes != []
      ensures Aligned(p.objects[i].address, p.mask)
    {
      assert WellPlaced(p, p.objects[i], initial);
    }
  }

  lemma {:induction false} RunMask(p: Picture, ops: seq<Op>, chunkSize: nat)
    requires Ok(p) && LegalRun(p, ops, chunkSize)
    ensures Run(p, ops, chunkSize).mask == p.mask
    decreases |ops|
  {
    hide Ok, Legal, Step;
    if ops != [] {
      StepMask(p, ops[0], chunkSize);
      RunMask(Step(p, ops[0], chunkSize), ops[1..], chunkSize);
    }
  }

  lemma {:induction false} StepMask(p: Picture, op: Op, chunkSize: nat)
    requires Ok(p) && Legal(p, op, chunkSize)
    ensures Step(p, op, chunkSize).mask == p.mask
  {
    hide Ok, Fits, Roomy, Overwrite, Oldest, AlignUp, Holder;
    match op
    case Blank(length, answer) =>
      RoomyOk(p, length, answer, chunkSize);
    case Grow(data, answer) =>
      RoomyOk(p, |data|, answer, chunkSize);
    case Finish =>
    case Free(k) =>
  }

  /** Growing by one byte and finishing makes an object at the contents of the initial chunk. */
  lemma {:induction false} OneByte(p: Picture, chunkSize: nat)
    requires FreshPicture(p) && p.next < Limit(p) && !Aligned(Contents(Current(p)), p.mask)
    ensures var ops := [Grow([0], 0), Finish];
      LegalRun(p, ops, chunkSize) && !AllAligned(Run(p, ops, chunkSize))
  {
    hide Ok, Aligned, AlignUp, Overwrite;
    var grow := Grow([0], 0);
    var p1 := Step(p, grow, chunkSize);
    var p2 := Step(p1, Finish, chunkSize);
    assert [grow, Finish][1..] == [Finish];
    assert [Finish][1..] == [];
    assert LegalRun(p2, [], chunkSize) && Run(p2, [], chunkSize) == p2;
    assert Run(p1, [Finish], chunkSize) == p2;
    assert p2.objects[0].address == Contents(Current(p)) && |p2.objects[0].bytes| == 1;
  }

  // What the operations mean for the growing object and the finished ones.

  /** The growing object is longer by the data; it stays where it was if there was room for it. */
  ghost predicate Grew(p: Picture, data: seq<Octet>, q: Picture)
    requires Ok(p) && Ok(q)
  {
    Facts(p);
    Facts(q);
    && q.ram[q.base..q.next] == p.ram[p.base..p.next] + data
    && q.objects == p.objects
    && (Limit(p) - p.next >= |data| ==>
          q.base == p.base && q.chain == p.chain && q.limits == p.limits && q.maybeEmpty == p.maybeEmpty)
  }

  lemma {:induction false} RoomGrows(p: Picture, data: seq<Octet>, answer: nat, chunkSize: nat)
    requires Ok(p) && Fits(p, |data|, answer, chunkSize)
    ensures var room := Roomy(p, |data|, answer, chunkSize);
      && Ok(room) && room.next + |data| <= |room.ram| && Ok(Grown(room, data))
      && Grew(p, data, Grown(room, data))
  {
    RoomyOk(p, |data|, answer, chunkSize);
    var room := Roomy(p, |data|, answer, chunkSize);
    GrownOk(room, data);
    Facts(p);
    hide Ok, Overwrite, Moved, Fits;
  }

  lemma {:induction false} GrowIs(p: Picture, data: seq<Octet>, answer: nat, chunkSize: nat)
    requires Ok(p) && Legal(p, Op.Grow(data, answer), chunkSize)
    ensures Grew(p, data, Step(p, Op.Grow(data, answer), chunkSize))
  {
    hide Ok, Fits, Roomy, Grew, Grown;
    RoomGrows(p, data, answer, chunkSize);
  }

  /** Taking bytes in is growing by the bytes that are there. */
  lemma {:induction false} BlankIs(p: Picture, length: nat, answer: nat, chunkSize: nat) returns (data: seq<Octet>)
    requires Ok(p) && Legal(p, Op.Blank(length, answer), chunkSize)
    ensures |data| == length && Grew(p, data, Step(p, Op.Blank(length, answer), chunkSize))
  {
    hide Ok, Fits, Roomy, Grew, Grown;
    RoomyOk(p, length, answer, chunkSize);
    var room := Roomy(p, length, answer, chunkSize);
    data := room.ram[room.next..room.next + length];
    RoomGrows(p, data, answer, chunkSize);
  }

  // What a call does, from picture to picture.

  ghost predicate MadeRoom(p: Picture, length: nat, answer: nat, chunkSize: nat, q: Picture) {
    Ok(p) && Fits(p, length, answer, chunkSize) && q == Roomy(p, length, answer, chunkSize)
  }

  ghost predicate IsStep(p: Picture, op: Op, chunkSize: nat, q: Picture) {
    Ok(p) && Legal(p, op, chunkSize) && q == Step(p, op, chunkSize)
  }

  ghost predicate IsRun(p: Picture, ops: seq<Op>, chunkSize: nat, q: Picture) {
    Ok(p) && LegalRun(p, ops, chunkSize) && q == Run(p, ops, chunkSize)
  }
}
