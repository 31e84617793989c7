/**
  An obstack as a picture: the bytes of the address space, the chunks from the
  oldest to the current one, the finished objects from the oldest to the newest,
  and the object that is growing. Each operation is a function on pictures.
 */
module ObstackPictures {
  import opened Bitwise

  type Octet = b: nat | b < 256

  /** Where objects begin in a chunk: after its `limit` and `prev` pointers. */
  const HEADER: nat := 16

  /** A finished object, with the position of its chunk in the chain. */
  datatype Obj = Obj(address: nat, bytes: seq<Octet>, chunk: nat) {
    function End(): nat { address + |bytes| }
  }

  datatype Picture = Picture(
    ram: seq<Octet>,
    chain: seq<nat>,
    limits: map<nat, nat>,
    objects: seq<Obj>,
    base: nat,
    next: nat,
    mask: nat,
    maybeEmpty: bool)

  // Alignment.

  /** x & ~mask */
  function ClearBits(x: nat, mask: nat): nat
    decreases x
  {
    if x == 0 then 0
    else 2 * ClearBits(x / 2, mask / 2) + (if mask % 2 == 0 then x % 2 else 0)
  }

  function AlignUp(x: nat, mask: nat): nat {
    ClearBits(x + mask, mask)
  }

  /** The low bits given by the mask are clear in the address. */
  predicate Aligned(x: nat, mask: nat) {
    And(x, mask) == 0
  }

  lemma {:induction false} ClearedBits(x: nat, mask: nat)
    ensures ClearBits(x, mask) + And(x, mask) == x
    ensures And(x, mask) <= mask
    ensures Aligned(ClearBits(x, mask), mask)
    decreases x
  {
    if x > 0 {
      ClearedBits(x / 2, mask / 2);
      ClearedDigit(x, mask);
    }
  }

  lemma {:induction false} ClearedDigit(x: nat, mask: nat)
    requires x > 0
    requires ClearBits(x / 2, mask / 2) + And(x / 2, mask / 2) == x / 2
    requires And(x / 2, mask / 2) <= mask / 2
    requires And(ClearBits(x / 2, mask / 2), mask / 2) == 0
    ensures ClearBits(x, mask) + And(x, mask) == x
    ensures And(x, mask) <= mask
    ensures And(ClearBits(x, mask), mask) == 0
  {
    AndNothing(x / 2);
    var y := ClearBits(x, mask);
    assert y / 2 == ClearBits(x / 2, mask / 2) && y % 2 == if mask % 2 == 0 then x % 2 else 0;
  }

  lemma {:induction false} AndNothing(x: nat)
    ensures And(x, 0) == 0 && And(0, x) == 0
  {
  }

  /** Aligning moves an address up to one whose masked bits are clear, by at most the mask. */
  lemma {:induction false} AlignedUp(x: nat, mask: nat)
    ensures Aligned(AlignUp(x, mask), mask)
    ensures x <= AlignUp(x, mask) <= x + mask
  {
    hide ClearBits, And;
    ClearedBits(x + mask, mask);
  }

  /** For a mask of k ones, the aligned addresses are the multiples of 2^k. */
  lemma {:induction false} AlignedMultiples(k: nat, q: nat, r: nat)
    requires r < Pow2(k)
    ensures And(Join(k, q, r), Pow2(k) - 1) == r
    ensures Aligned(Join(k, q, r), Pow2(k) - 1) <==> r == 0
    decreases k
  {
    if k == 0 {
      AndNothing(Join(0, q, r));
    } else {
      JoinDigit(k, q, r);
      AlignedMultiples(k - 1, q, r / 2);
      AndDigit(Join(k, q, r), Pow2(k) - 1);
    }
  }

  lemma {:induction false} AndDigit(x: nat, mask: nat)
    ensures And(x, mask) == 2 * And(x / 2, mask / 2) + (if x % 2 == 1 && mask % 2 == 1 then 1 else 0)
  {
    AndNothing(x / 2);
    AndNothing(mask / 2);
  }

  // Chunks.

  function Contents(c: nat): nat {
    c + HEADER
  }

  ghost predicate Apart(limits: map<nat, nat>, c: nat, d: nat)
    requires c in limits && d in limits
  {
    limits[c] <= d || limits[d] <= c
  }

  ghost predicate ChunkOk(size: nat, limits: map<nat, nat>, c: nat) {
    0 < c && c in limits && Contents(c) <= limits[c] <= size
  }

  ghost predicate ChunksOk(size: nat, chain: seq<nat>, limits: map<nat, nat>) {
    && (forall i :: 0 <= i < |chain| ==> ChunkOk(size, limits, chain[i]))
    && (forall i, j :: 0 <= i < j < |chain| ==> Apart(limits, chain[i], chain[j]))
    && (forall c :: c in limits ==> c in chain)
  }

  /** The search test of obstack_free and _obstack_allocated_p, negated. */
  predicate Holds(limits: map<nat, nat>, c: nat, obj: nat) {
    c < obj && c in limits && obj <= limits[c]
  }

  /** The newest chunk that passes the test, or -1. */
  ghost function Holder(chain: seq<nat>, limits: map<nat, nat>, obj: nat): (k: int)
    ensures -1 <= k < |chain|
  {
    if chain == [] then -1
    else if Holds(limits, chain[|chain| - 1], obj) then |chain| - 1
    else Holder(chain[..|chain| - 1], limits, obj)
  }

  /**
    An address from the contents of a chunk up to and including its end passes the
    test for that chunk alone, even if another chunk begins where this one ends.
   */
  lemma {:induction false} OneHolder(size: nat, chain: seq<nat>, limits: map<nat, nat>, k: nat, obj: nat)
    requires ChunksOk(size, chain, limits) && k < |chain|
    requires Contents(chain[k]) <= obj && obj <= limits[chain[k]]
    ensures forall i :: 0 <= i < |chain| ==> (Holds(limits, chain[i], obj) <==> i == k)
  {
    forall i | 0 <= i < |chain|
      ensures Holds(limits, chain[i], obj) <==> i == k
    {
      assert ChunkOk(size, limits, chain[i]) && ChunkOk(size, limits, chain[k]);
      if i < k {
        assert Apart(limits, chain[i], chain[k]);
      } else if k < i {
        assert Apart(limits, chain[k], chain[i]);
      }
    }
  }

  /** No chunk can hold the null object: freeing it gives every chunk back. */
  lemma {:induction false} NullHeldNowhere(chain: seq<nat>, limits: map<nat, nat>)
    ensures Holder(chain, limits, 0) == -1
    decreases |chain|
  {
    if chain != [] {
      NullHeldNowhere(chain[..|chain| - 1], limits);
    }
  }

  lemma {:induction false} HolderFound(chain: seq<nat>, limits: map<nat, nat>, obj: nat, k: nat)
    requires k < |chain|
    requires forall i :: 0 <= i < |chain| ==> (Holds(limits, chain[i], obj) <==> i == k)
    ensures Holder(chain, limits, obj) == k
    decreases |chain|
  {
    hide Holds;
    if k < |chain| - 1 {
      HolderFound(chain[..|chain| - 1], limits, obj, k);
    }
  }

  // Objects.

  ghost predicate ObjectOk(p: Picture, o: Obj) {
    && o.chunk < |p.chain| && p.chain[o.chunk] in p.limits
    && Contents(p.chain[o.chunk]) <= o.address && o.End() <= p.limits[p.chain[o.chunk]]
    && o.End() <= |p.ram| && p.ram[o.address..o.End()] == o.bytes
  }

  ghost predicate Before(a: Obj, b: Obj) {
    a.chunk < b.chunk || (a.chunk == b.chunk && a.End() <= b.address)
  }

  /** What is in the current chunk ends before the growing object; an empty object at its start is remembered. */
  ghost predicate Behind(p: Picture, o: Obj)
    requires p.chain != []
  {
    o.chunk + 1 == |p.chain| ==>
      && o.End() <= p.base
      && (o.address == Contents(Current(p)) && o.bytes == [] ==> p.maybeEmpty)
  }

  function Current(p: Picture): nat
    requires p.chain != []
  {
    p.chain[|p.chain| - 1]
  }

  function Limit(p: Picture): nat
    requires p.chain != [] && Current(p) in p.limits
  {
    p.limits[Current(p)]
  }

  ghost predicate GrowingOk(p: Picture)
    requires p.chain != [] && Current(p) in p.limits
  {
    && Contents(Current(p)) <= p.base <= p.next <= Limit(p)
    && forall i :: 0 <= i < |p.objects| ==> Behind(p, p.objects[i])
  }

  ghost predicate ObjectsOk(p: Picture) {
    && (forall i :: 0 <= i < |p.objects| ==> ObjectOk(p, p.objects[i]))
    && (forall i, j :: 0 <= i < j < |p.objects| ==> Before(p.objects[i], p.objects[j]))
  }

  ghost predicate Ok(p: Picture) {
    && p.chain != []
    && ChunksOk(|p.ram|, p.chain, p.limits)
    && ObjectsOk(p)
    && Current(p) in p.limits && GrowingOk(p)
  }

  // The operations.

  function Overwrite(ram: seq<Octet>, at: nat, data: seq<Octet>): (r: seq<Octet>)
    requires at + |data| <= |ram|
    ensures |r| == |ram|
    ensures r[at..at + |data|] == data
    ensures forall i :: 0 <= i < |ram| && !(at <= i < at + |data|) ==> r[i] == ram[i]
  {
    ram[..at] + data + ram[at + |data|..]
  }

  /** How large a chunk _obstack_newchunk asks for. */
  function NewSize(objSize: nat, length: nat, mask: nat, chunkSize: nat): nat {
    var size := objSize + length + objSize / 8 + mask + 100;
    if size < chunkSize then chunkSize else size
  }

  /** What the chunk function may return: room inside the address space that no chunk occupies. */
  ghost predicate Clear(size: nat, limits: map<nat, nat>, answer: nat, length: nat) {
    && 0 < answer && answer + length <= size
    && forall c :: c in limits ==> limits[c] <= answer || answer + length <= c
  }

  /** The chunks of part of a chain. */
  ghost function Oldest(limits: map<nat, nat>, chain: seq<nat>): map<nat, nat> {
    map c | c in limits && c in chain :: limits[c]
  }

  /** The growing object is all there is in the current chunk. */
  predicate Alone(p: Picture)
    requires p.chain != []
  {
    p.base == Contents(Current(p)) && !p.maybeEmpty
  }

  /** The chain when the growing object has left the current chunk: the chunk goes if it held nothing else. */
  function KeptChain(p: Picture): seq<nat>
    requires p.chain != []
  {
    if Alone(p) then p.chain[..|p.chain| - 1] else p.chain
  }

  /** The growing object in a new chunk at `answer`; the old chunk goes if it held nothing else. */
  ghost function Moved(p: Picture, answer: nat, size: nat): Picture
    requires p.chain != [] && p.base <= p.next <= |p.ram|
    requires AlignUp(Contents(answer), p.mask) + (p.next - p.base) <= |p.ram|
  {
    var base := AlignUp(Contents(answer), p.mask);
    var kept := KeptChain(p);
    p.(ram := Overwrite(p.ram, base, p.ram[p.base..p.next]),
       chain := kept + [answer],
       limits := Oldest(p.limits, kept)[answer := answer + size],
       base := base,
       next := base + (p.next - p.base),
       maybeEmpty := false)
  }

  /** More bytes for the growing object. */
  ghost function Grown(p: Picture, data: seq<Octet>): Picture
    requires p.next + |data| <= |p.ram|
  {
    p.(ram := Overwrite(p.ram, p.next, data), next := p.next + |data|)
  }

  ghost function Finished(p: Picture): Picture
    requires p.chain != [] && Current(p) in p.limits && p.base <= p.next <= |p.ram|
  {
    var end := AlignUp(p.next, p.mask);
    var next := if end > Limit(p) then Limit(p) else end;
    p.(objects := p.objects + [Obj(p.base, p.ram[p.base..p.next], |p.chain| - 1)],
       base := next, next := next, maybeEmpty := p.maybeEmpty || p.base == p.next)
  }

  /** Object i and everything newer is gone. */
  ghost function FreedTo(p: Picture, i: nat): Picture
    requires i < |p.objects| && p.objects[i].chunk < |p.chain|
  {
    var o := p.objects[i];
    p.(chain := p.chain[..o.chunk + 1],
       limits := Oldest(p.limits, p.chain[..o.chunk + 1]),
       objects := p.objects[..i],
       base := o.address, next := o.address,
       maybeEmpty := p.maybeEmpty || o.chunk + 1 < |p.chain|)
  }

  // What they keep.

  lemma {:induction false} Facts(p: Picture)
    requires Ok(p)
    ensures p.chain != [] && Current(p) in p.limits
    ensures p.base <= p.next <= Limit(p) <= |p.ram| && Contents(Current(p)) <= p.base && 0 < Current(p)
  {
    hide ObjectsOk;
    assert ChunkOk(|p.ram|, p.limits, Current(p));
  }

  /** An object's bytes lie outside the growing object and what may be written next to it. */
  lemma {:induction false} ObjectAway(p: Picture, o: Obj)
    requires Ok(p) && ObjectOk(p, o) && Behind(p, o)
    ensures o.End() <= p.base || Limit(p) <= o.address
  {
    hide ObjectsOk;
    var k := o.chunk;
    assert ChunkOk(|p.ram|, p.limits, p.chain[k]) && ChunkOk(|p.ram|, p.limits, Current(p));
    if k + 1 < |p.chain| {
      assert Apart(p.limits, p.chain[k], p.chain[|p.chain| - 1]);
    }
  }

  lemma {:induction false} GrownOk(p: Picture, data: seq<Octet>)
    requires Ok(p) && p.next + |data| <= Limit(p)
    ensures Limit(p) <= |p.ram|
    ensures Ok(Grown(p, data))
    ensures Grown(p, data).ram[p.base..p.next + |data|] == p.ram[p.base..p.next] + data
  {
    hide Overwrite;
    Facts(p);
    var q := Grown(p, data);
    forall i | 0 <= i < |q.objects|
      ensures ObjectOk(q, q.objects[i]) && Behind(q, q.objects[i])
    {
      assert ObjectOk(p, p.objects[i]) && Behind(p, p.objects[i]);
      ObjectAway(p, p.objects[i]);
      KeptBytes(p.ram, p.next, data, p.objects[i].address, p.objects[i].End());
    }
    KeptBytes(p.ram, p.next, data, p.base, p.next);
    SplitAt(q.ram, p.base, p.next, p.next + |data|);
  }

  lemma {:induction false} SplitAt(s: seq<Octet>, a: nat, b: nat, c: nat)
    requires a <= b <= c <= |s|
    ensures s[a..c] == s[a..b] + s[b..c]
  {
  }

  lemma {:induction false} KeptBytes(ram: seq<Octet>, at: nat, data: seq<Octet>, a: nat, b: nat)
    requires at + |data| <= |ram| && a <= b <= |ram|
    requires b <= at || at + |data| <= a
    ensures Overwrite(ram, at, data)[a..b] == ram[a..b]
  {
    var r := Overwrite(ram, at, data);
    hide Overwrite;
    forall i | a <= i < b
      ensures r[i] == ram[i]
    {
    }
  }

  lemma {:induction false} FinishedOk(p: Picture)
    requires Ok(p)
    ensures p.next <= |p.ram|
    ensures Ok(Finished(p))
    ensures Finished(p).chain == p.chain && Finished(p).limits == p.limits && Finished(p).ram == p.ram
  {
    hide AlignUp, ChunksOk;
    assert ChunkOk(|p.ram|, p.limits, Current(p)) by {
      CurrentChunk(p);
    }
    AlignedUp(p.next, p.mask);
    var q := Finished(p);
    var o := q.objects[|p.objects|];
    forall i | 0 <= i < |q.objects|
      ensures ObjectOk(q, q.objects[i]) && Behind(q, q.objects[i])
    {
      if i < |p.objects| {
        assert ObjectOk(p, p.objects[i]) && Behind(p, p.objects[i]);
      }
    }
    forall i, j | 0 <= i < j < |q.objects|
      ensures Before(q.objects[i], q.objects[j])
    {
      if j < |p.objects| {
        assert Before(p.objects[i], p.objects[j]);
      } else {
        assert ObjectOk(p, p.objects[i]) && Behind(p, p.objects[i]);
      }
    }
  }

  lemma {:induction false} CurrentChunk(p: Picture)
    requires p.chain != [] && ChunksOk(|p.ram|, p.chain, p.limits)
    ensures ChunkOk(|p.ram|, p.limits, Current(p))
  {
  }

  // A new chunk.

  lemma {:induction false} AddChunk(size: nat, chain: seq<nat>, limits: map<nat, nat>, answer: nat, length: nat)
    requires ChunksOk(size, chain, limits) && Clear(size, limits, answer, length) && HEADER <= length
    ensures answer !in chain && answer !in limits
    ensures ChunksOk(size, chain + [answer], limits[answer := answer + length])
  {
    var chain', limits' := chain + [answer], limits[answer := answer + length];
    forall i | 0 <= i < |chain|
      ensures ChunkOk(size, limits', chain[i]) && chain[i] != answer && Apart(limits', chain[i], answer)
    {
      assert ChunkOk(size, limits, chain[i]);
    }
    forall i, j | 0 <= i < j < |chain'|
      ensures Apart(limits', chain'[i], chain'[j])
    {
      if j < |chain| {
        assert Apart(limits, chain[i], chain[j]);
      }
    }
    assert answer in limits ==> answer in chain;
  }

  lemma {:induction false} KeepChunks(size: nat, chain: seq<nat>, limits: map<nat, nat>, n: nat)
    requires ChunksOk(size, chain, limits) && n <= |chain|
    ensures ChunksOk(size, chain[..n], Oldest(limits, chain[..n]))
    ensures forall i :: 0 <= i < n ==> chain[i] in limits && chain[i] in Oldest(limits, chain[..n])
    ensures forall i :: n <= i < |chain| ==> chain[i] !in chain[..n]
  {
    var chain', limits' := chain[..n], Oldest(limits, chain[..n]);
    forall i | 0 <= i < |chain'|
      ensures ChunkOk(size, limits', chain'[i]) && chain'[i] in limits && chain'[i] in limits'
    {
      assert ChunkOk(size, limits, chain[i]) && chain'[i] == chain[i];
    }
    forall i, j | 0 <= i < j < |chain'|
      ensures Apart(limits', chain'[i], chain'[j])
    {
      assert Apart(limits, chain[i], chain[j]);
    }
    forall i, j | 0 <= j < n <= i < |chain|
      ensures chain[i] != chain[..n][j]
    {
      assert Apart(limits, chain[j], chain[i]) && ChunkOk(size, limits, chain[i]) && ChunkOk(size, limits, chain[j]);
    }
  }

  /** No object lies in a chunk that is given up for a larger one. */
  lemma {:induction false} NoneLeft(p: Picture)
    requires Ok(p)
    ensures forall i :: 0 <= i < |p.objects| ==> p.objects[i].chunk < |KeptChain(p)|
  {
    hide ChunksOk;
    forall i | 0 <= i < |p.objects|
      ensures p.objects[i].chunk < |KeptChain(p)|
    {
      assert ObjectOk(p, p.objects[i]) && Behind(p, p.objects[i]);
    }
  }

  /** The size formula leaves room for the header, the alignment, the object and the request. */
  lemma {:induction false} RoomInNew(objSize: nat, length: nat, mask: nat, chunkSize: nat, answer: nat)
    ensures var size := NewSize(objSize, length, mask, chunkSize); var base := AlignUp(Contents(answer), mask);
      && answer + HEADER <= base && base + objSize + length <= answer + size && HEADER <= size
      && Aligned(base, mask)
  {
    AlignedUp(Contents(answer), mask);
    hide AlignUp, Aligned;
  }

  /** The larger one of the chunk size and the formula, with an eighth of the object and slack to spare. */
  lemma {:induction false} SizeOfNew(objSize: nat, length: nat, mask: nat, chunkSize: nat, answer: nat)
    ensures var size := NewSize(objSize, length, mask, chunkSize); var base := AlignUp(Contents(answer), mask);
      && (objSize + length + objSize / 8 + mask + 100 <= chunkSize ==> size == chunkSize)
      && (objSize + length + objSize / 8 + mask + 100 > chunkSize ==>
            size == objSize + length + objSize / 8 + mask + 100)
      && answer + size - (base + objSize) >= length + objSize / 8 + 100 - 16
      && answer + 16 <= base <= answer + 16 + mask
  {
    AlignedUp(Contents(answer), mask);
    hide AlignUp, Aligned;
  }

  lemma {:induction false} MovedOk(p: Picture, answer: nat, length: nat, chunkSize: nat)
    requires Ok(p)
    requires var size := NewSize(p.next - p.base, length, p.mask, chunkSize);
      Clear(|p.ram|, p.limits, answer, size)
    ensures var size := NewSize(p.next - p.base, length, p.mask, chunkSize);
      var base := AlignUp(Contents(answer), p.mask);
      && p.next <= |p.ram| && base + (p.next - p.base) <= |p.ram|
      && var q := Moved(p, answer, size);
      && Ok(q) && Limit(q) - q.next >= length
      && Aligned(q.base, q.mask) && q.ram[q.base..q.next] == p.ram[p.base..p.next]
      && q.objects == p.objects
  {
    var size := NewSize(p.next - p.base, length, p.mask, chunkSize);
    RoomInNew(p.next - p.base, length, p.mask, chunkSize, answer);
    hide AlignUp, Aligned, Overwrite, NewSize, Contents;
    Facts(p);
    var q := Moved(p, answer, size);
    var kept := KeptChain(p);
    MovedChunks(p, answer, size);
    NoneLeft(p);
    MovedObjects(p, answer, size);
    hide ObjectsOk, ChunksOk, Behind, KeptChain, Oldest;
  }

  lemma {:induction false} MovedChunks(p: Picture, answer: nat, size: nat)
    requires Ok(p) && p.next <= |p.ram| && Clear(|p.ram|, p.limits, answer, size) && HEADER <= size
    requires AlignUp(Contents(answer), p.mask) + (p.next - p.base) <= |p.ram|
    ensures var q := Moved(p, answer, size);
      ChunksOk(|q.ram|, q.chain, q.limits) && answer !in KeptChain(p)
  {
    hide AlignUp, Overwrite, ObjectsOk, ChunksOk, GrowingOk;
    var kept := KeptChain(p);
    KeepChunks(|p.ram|, p.chain, p.limits, |kept|);
    assert p.chain[..|kept|] == kept;
    AddChunk(|p.ram|, kept, Oldest(p.limits, kept), answer, size);
  }

  lemma {:induction false} MovedObjects(p: Picture, answer: nat, size: nat)
    requires Ok(p) && p.base <= p.next <= |p.ram| && Clear(|p.ram|, p.limits, answer, size)
    requires answer <= AlignUp(Contents(answer), p.mask)
    requires AlignUp(Contents(answer), p.mask) + (p.next - p.base) <= answer + size
    requires forall i :: 0 <= i < |p.objects| ==> p.objects[i].chunk < |KeptChain(p)|
    requires answer !in KeptChain(p)
    ensures var q := Moved(p, answer, size);
      ObjectsOk(q) && forall i :: 0 <= i < |q.objects| ==> Behind(q, q.objects[i])
  {
    hide AlignUp, ChunksOk, Overwrite, GrowingOk;
    var q := Moved(p, answer, size);
    forall i | 0 <= i < |q.objects|
      ensures ObjectOk(q, q.objects[i]) && Behind(q, q.objects[i])
    {
      var o := p.objects[i];
      assert ObjectOk(p, o);
      KeptBytes(p.ram, q.base, p.ram[p.base..p.next], o.address, o.End());
    }
    assert forall i, j :: 0 <= i < j < |p.objects| ==> Before(p.objects[i], p.objects[j]);
  }

  // Freeing.

  /** The search finds the chunk of a live object, wherever in the chunk it lies. */
  lemma {:induction false} HolderOfObject(p: Picture, i: nat)
    requires Ok(p) && i < |p.objects|
    ensures p.objects[i].chunk < |p.chain|
    ensures Holder(p.chain, p.limits, p.objects[i].address) == p.objects[i].chunk
  {
    hide ChunksOk, Holder, Holds, GrowingOk;
    var o := p.objects[i];
    assert ObjectOk(p, o);
    OneHolder(|p.ram|, p.chain, p.limits, o.chunk, o.address);
    HolderFound(p.chain, p.limits, o.address, o.chunk);
  }

  lemma {:induction false} FreedObjects(p: Picture, i: nat)
    requires Ok(p) && i < |p.objects| && p.objects[i].chunk < |p.chain|
    requires var chain := p.chain[..p.objects[i].chunk + 1];
      forall j :: 0 <= j < |chain| ==> chain[j] in p.limits && chain[j] in Oldest(p.limits, chain)
    ensures ObjectsOk(FreedTo(p, i))
    ensures forall j :: 0 <= j < i ==> Behind(FreedTo(p, i), p.objects[j])
  {
    hide ChunksOk;
    var q := FreedTo(p, i);
    forall j | 0 <= j < i
      ensures ObjectOk(q, p.objects[j]) && Behind(q, p.objects[j])
    {
      FreedObject(p, i, j);
    }
    hide GrowingOk, Oldest, Behind;
    assert forall j, k :: 0 <= j < k < |p.objects| ==> Before(p.objects[j], p.objects[k]);
  }

  lemma {:induction false} FreedObject(p: Picture, i: nat, j: nat)
    requires Ok(p) && j < i < |p.objects| && p.objects[i].chunk < |p.chain|
    requires var chain := p.chain[..p.objects[i].chunk + 1];
      forall j :: 0 <= j < |chain| ==> chain[j] in p.limits && chain[j] in Oldest(p.limits, chain)
    ensures ObjectOk(FreedTo(p, i), p.objects[j]) && Behind(FreedTo(p, i), p.objects[j])
  {
    hide ChunksOk;
    var o := p.objects[j];
    assert ObjectOk(p, o) && Behind(p, o) && Before(o, p.objects[i]);
    hide ObjectsOk, GrowingOk;
    assert p.chain[..p.objects[i].chunk + 1][o.chunk] == p.chain[o.chunk];
  }

  lemma {:induction false} FreedOk(p: Picture, i: nat)
    requires Ok(p) && i < |p.objects|
    ensures p.objects[i].chunk < |p.chain|
    ensures Ok(FreedTo(p, i))
  {
    hide ChunksOk, Behind, Oldest;
    var o := p.objects[i];
    assert ObjectOk(p, o);
    hide ObjectsOk;
    KeepChunks(|p.ram|, p.chain, p.limits, o.chunk + 1);
    FreedObjects(p, i);
    FreedLimit(p, i);
  }

  lemma {:induction false} FreedLimit(p: Picture, i: nat)
    requires i < |p.objects| && p.objects[i].chunk < |p.chain| && ObjectOk(p, p.objects[i])
    ensures var q := FreedTo(p, i);
      && Current(q) in q.limits && Contents(Current(q)) <= q.base && q.base == q.next && q.next <= Limit(q)
  {
    var k := p.objects[i].chunk;
    assert p.chain[..k + 1][k] == p.chain[k];
  }
}
