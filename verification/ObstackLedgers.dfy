/**
  The chunk list as the obstack keeps it, against what the chunk function handed
  out and the free function took back.
 */
module ObstackLedgers {
  import opened ObstackPictures

  /** The `limit` and `prev` fields of live chunks, the blocks not given back, and byte counts. */
  datatype Ledger = Ledger(
    limits: map<nat, nat>,
    prevs: map<nat, nat>,
    blocks: map<nat, nat>,
    obtained: nat,
    returned: nat)

  ghost predicate LinkOk(l: Ledger, chain: seq<nat>, i: nat)
    requires i < |chain|
  {
    && chain[i] in l.prevs && chain[i] in l.limits && chain[i] in l.blocks
    && l.prevs[chain[i]] == (if i == 0 then 0 else chain[i - 1])
    && l.limits[chain[i]] == chain[i] + l.blocks[chain[i]]
  }

  /** Bytes in the chunks of a chain. */
  function Total(chain: seq<nat>, blocks: map<nat, nat>): nat {
    if chain == [] then 0
    else
      var c := chain[|chain| - 1];
      Total(chain[..|chain| - 1], blocks) + (if c in blocks then blocks[c] else 0)
  }

  ghost predicate LinksOk(l: Ledger, chain: seq<nat>) {
    forall i :: 0 <= i < |chain| ==> LinkOk(l, chain, i)
  }

  ghost predicate SameDomain(l: Ledger) {
    forall c :: (c in l.prevs <==> c in l.limits) && (c in l.blocks <==> c in l.limits)
  }

  /** The chain is what was obtained and not returned, linked from the newest to the oldest. */
  ghost predicate LedgerOk(size: nat, chain: seq<nat>, l: Ledger) {
    && ChunksOk(size, chain, l.limits)
    && SameDomain(l)
    && LinksOk(l, chain)
    && l.obtained == l.returned + Total(chain, l.blocks)
  }

  /** The chunk function hands out a block; the obstack writes its header. */
  function Pushed(l: Ledger, c: nat, size: nat, prev: nat): Ledger {
    l.(limits := l.limits[c := c + size], prevs := l.prevs[c := prev], blocks := l.blocks[c := size],
       obtained := l.obtained + size)
  }

  /** A block goes back, and its header with it. */
  function Popped(l: Ledger, c: nat): Ledger
    requires c in l.blocks
  {
    l.(limits := l.limits - {c}, prevs := l.prevs - {c}, blocks := l.blocks - {c},
       returned := l.returned + l.blocks[c])
  }

  lemma {:induction false} BlockOf(size: nat, chain: seq<nat>, l: Ledger, i: nat)
    requires LedgerOk(size, chain, l) && i < |chain|
    ensures chain[i] in l.limits && chain[i] in l.blocks && l.limits[chain[i]] == chain[i] + l.blocks[chain[i]]
  {
    hide ChunksOk, Total;
    assert LinkOk(l, chain, i);
  }

  lemma {:induction false} TotalSame(chain: seq<nat>, blocks: map<nat, nat>, blocks': map<nat, nat>)
    requires forall i :: 0 <= i < |chain| ==>
      && (chain[i] in blocks <==> chain[i] in blocks')
      && (chain[i] in blocks && chain[i] in blocks' ==> blocks[chain[i]] == blocks'[chain[i]])
    ensures Total(chain, blocks) == Total(chain, blocks')
    decreases |chain|
  {
    if chain != [] {
      TotalSame(chain[..|chain| - 1], blocks, blocks');
    }
  }

  function PrevOf(chain: seq<nat>): nat {
    if chain == [] then 0 else chain[|chain| - 1]
  }

  lemma {:induction false} PushLinks(chain: seq<nat>, l: Ledger, c: nat, length: nat)
    requires LinksOk(l, chain) && SameDomain(l) && c !in chain
    ensures var l' := Pushed(l, c, length, PrevOf(chain)); LinksOk(l', chain + [c]) && SameDomain(l')
  {
    var l' := Pushed(l, c, length, PrevOf(chain));
    forall i | 0 <= i < |chain| + 1
      ensures LinkOk(l', chain + [c], i)
    {
      assert i < |chain| ==> LinkOk(l, chain, i) && chain[i] != c;
    }
  }

  lemma {:induction false} PushTotal(chain: seq<nat>, blocks: map<nat, nat>, c: nat, length: nat)
    requires c !in chain
    ensures Total(chain + [c], blocks[c := length]) == Total(chain, blocks) + length
  {
    assert (chain + [c])[..|chain|] == chain;
    TotalSame(chain, blocks, blocks[c := length]);
  }

  lemma {:induction false} PushOk(size: nat, chain: seq<nat>, l: Ledger, c: nat, length: nat)
    requires LedgerOk(size, chain, l) && Clear(size, l.limits, c, length) && HEADER <= length
    ensures c !in chain && c !in l.limits
    ensures LedgerOk(size, chain + [c], Pushed(l, c, length, PrevOf(chain)))
  {
    AddChunk(size, chain, l.limits, c, length);
    hide ChunksOk, LinksOk, SameDomain, PrevOf, Clear;
    PushLinks(chain, l, c, length);
    PushTotal(chain, l.blocks, c, length);
    hide Total;
  }

  lemma {:induction false} Distinct(size: nat, chain: seq<nat>, limits: map<nat, nat>, i: nat, j: nat)
    requires ChunksOk(size, chain, limits) && i < j < |chain|
    ensures chain[i] != chain[j]
  {
    assert ChunkOk(size, limits, chain[i]) && ChunkOk(size, limits, chain[j]);
    assert Apart(limits, chain[i], chain[j]);
  }

  lemma {:induction false} PopLinks(chain: seq<nat>, l: Ledger)
    requires LinksOk(l, chain) && SameDomain(l) && chain != []
    requires forall i :: 0 <= i < |chain| - 1 ==> chain[i] != chain[|chain| - 1]
    ensures var c := chain[|chain| - 1];
      && c in l.blocks && c in l.prevs && c in l.limits
      && l.prevs[c] == PrevOf(chain[..|chain| - 1])
      && l.limits[c] == c + l.blocks[c]
      && LinksOk(Popped(l, c), chain[..|chain| - 1]) && SameDomain(Popped(l, c))
  {
    var n := |chain| - 1;
    assert LinkOk(l, chain, n);
    var l' := Popped(l, chain[n]);
    forall i | 0 <= i < n
      ensures LinkOk(l', chain[..n], i)
    {
      assert LinkOk(l, chain, i);
    }
  }

  lemma {:induction false} PopTotal(chain: seq<nat>, blocks: map<nat, nat>)
    requires chain != [] && chain[|chain| - 1] in blocks
    requires forall i :: 0 <= i < |chain| - 1 ==> chain[i] != chain[|chain| - 1]
    ensures var c := chain[|chain| - 1];
      Total(chain[..|chain| - 1], blocks - {c}) + blocks[c] == Total(chain, blocks)
  {
    var n := |chain| - 1;
    TotalSame(chain[..n], blocks, blocks - {chain[n]});
  }

  lemma {:induction false} PopChunks(size: nat, chain: seq<nat>, limits: map<nat, nat>)
    requires ChunksOk(size, chain, limits) && chain != []
    ensures var c := chain[|chain| - 1]; var rest := chain[..|chain| - 1];
      limits - {c} == Oldest(limits, rest) && ChunksOk(size, rest, limits - {c})
    ensures forall i :: 0 <= i < |chain| - 1 ==> chain[i] != chain[|chain| - 1]
  {
    var n := |chain| - 1;
    KeepChunks(size, chain, limits, n);
    forall x
      ensures x in limits - {chain[n]} <==> x in limits && x in chain[..n]
    {
      LimitOfOne(size, chain, limits, x);
    }
    forall i | 0 <= i < n
      ensures chain[i] != chain[n]
    {
      Distinct(size, chain, limits, i, n);
    }
    hide ChunksOk;
    assert limits - {chain[n]} == Oldest(limits, chain[..n]);
  }

  /** Giving back the newest chunk. */
  lemma {:induction false} PopOk(size: nat, chain: seq<nat>, l: Ledger)
    requires LedgerOk(size, chain, l) && chain != []
    ensures var c := chain[|chain| - 1]; var rest := chain[..|chain| - 1];
      && c in l.blocks && c in l.prevs && c in l.limits
      && l.prevs[c] == PrevOf(rest) && l.limits[c] == c + l.blocks[c]
      && Popped(l, c).limits == Oldest(l.limits, rest)
      && LedgerOk(size, rest, Popped(l, c))
  {
    PopChunks(size, chain, l.limits);
    hide ChunksOk, LinksOk, SameDomain, PrevOf, Oldest;
    PopLinks(chain, l);
    PopTotal(chain, l.blocks);
    hide Total;
  }

  lemma {:induction false} LimitOfOne(size: nat, chain: seq<nat>, limits: map<nat, nat>, x: nat)
    requires ChunksOk(size, chain, limits) && chain != []
    ensures var n := |chain| - 1;
      x in limits - {chain[n]} <==> x in limits && x in chain[..n]
  {
    var n := |chain| - 1;
    if x in limits && x != chain[n] {
      assert x in chain;
      var i :| 0 <= i < |chain| && chain[i] == x;
      assert chain[..n][i] == x;
    }
    if x in chain[..n] {
      var i :| 0 <= i < n && chain[..n][i] == x;
      Distinct(size, chain, limits, i, n);
    }
  }

  lemma {:induction false} SkipLinks(chain: seq<nat>, l: Ledger, a: nat)
    requires LinksOk(l, chain + [a]) && SameDomain(l) && chain != []
    requires forall i :: 0 <= i < |chain| - 1 ==> chain[i] != chain[|chain| - 1] && chain[i] != a
    requires chain[|chain| - 1] != a
    ensures var c := chain[|chain| - 1]; var rest := chain[..|chain| - 1];
      && c in l.prevs && c in l.blocks && a in l.blocks && a in l.prevs && a in l.limits && c in l.limits
      && l.prevs[a] == c
      && var l' := Popped(l.(prevs := l.prevs[a := l.prevs[c]]), c);
      LinksOk(l', rest + [a]) && SameDomain(l')
  {
    var n := |chain| - 1;
    var c, rest, all := chain[n], chain[..n], chain + [a];
    assert LinkOk(l, all, n) && LinkOk(l, all, n + 1);
    var l' := Popped(l.(prevs := l.prevs[a := l.prevs[c]]), c);
    forall i | 0 <= i < n + 1
      ensures LinkOk(l', rest + [a], i)
    {
      assert LinkOk(l, all, i);
      assert i < n ==> (rest + [a])[i] == all[i];
    }
  }

  lemma {:induction false} AllDistinct(size: nat, chain: seq<nat>, limits: map<nat, nat>, a: nat)
    requires ChunksOk(size, chain + [a], limits) && chain != []
    ensures chain[|chain| - 1] != a
    ensures forall i :: 0 <= i < |chain| - 1 ==> chain[i] != chain[|chain| - 1] && chain[i] != a
  {
    hide ChunksOk;
    var n := |chain| - 1;
    var all := chain + [a];
    forall i | 0 <= i < n
      ensures chain[i] != chain[n] && chain[i] != a
    {
      Distinct(size, all, limits, i, n);
      Distinct(size, all, limits, i, n + 1);
    }
    Distinct(size, all, limits, n, n + 1);
  }

  /** Giving back the chunk below the newest one, which takes over its link. */
  lemma {:induction false} SkipOk(size: nat, chain: seq<nat>, l: Ledger, a: nat)
    requires LedgerOk(size, chain + [a], l) && chain != []
    ensures var c := chain[|chain| - 1]; var rest := chain[..|chain| - 1];
      && c in l.prevs && c in l.blocks
      && LedgerOk(size, rest + [a], Popped(l.(prevs := l.prevs[a := l.prevs[c]]), c))
  {
    hide ChunksOk, LinksOk, SameDomain, Total;
    SkipChunks(size, chain, l.limits, a);
    AllDistinct(size, chain, l.limits, a);
    SkipLinks(chain, l, a);
    SkipTotal(chain, l.blocks, l.blocks - {chain[|chain| - 1]}, a);
  }

  lemma {:induction false} SkipTotal(chain: seq<nat>, blocks: map<nat, nat>, blocks': map<nat, nat>, a: nat)
    requires chain != [] && chain[|chain| - 1] in blocks && a in blocks
    requires blocks' == blocks - {chain[|chain| - 1]} && a != chain[|chain| - 1]
    requires forall i :: 0 <= i < |chain| - 1 ==> chain[i] != chain[|chain| - 1]
    ensures Total(chain[..|chain| - 1] + [a], blocks') == Total(chain + [a], blocks) - blocks[chain[|chain| - 1]]
  {
    var n := |chain| - 1;
    assert (chain + [a])[..n + 1] == chain;
    assert (chain[..n] + [a])[..n] == chain[..n];
    TotalSame(chain[..n], blocks, blocks');
  }

  lemma {:induction false} SkipChunks(size: nat, chain: seq<nat>, limits: map<nat, nat>, a: nat)
    requires ChunksOk(size, chain + [a], limits) && chain != []
    ensures ChunksOk(size, chain[..|chain| - 1] + [a], limits - {chain[|chain| - 1]})
  {
    var n := |chain| - 1;
    var all, rest, limits' := chain + [a], chain[..n] + [a], limits - {chain[n]};
    forall i | 0 <= i <= n
      ensures ChunkOk(size, limits', rest[i])
    {
      var k := if i < n then i else n + 1;
      assert ChunkOk(size, limits, all[k]) && rest[i] == all[k];
      if i < n {
        Distinct(size, all, limits, i, n);
      } else {
        Distinct(size, all, limits, n, n + 1);
      }
    }
    hide ChunkOk;
    forall i, j | 0 <= i < j <= n
      ensures Apart(limits', rest[i], rest[j])
    {
      assert Apart(limits, all[i], all[if j < n then j else n + 1]);
    }
    forall x | x in limits'
      ensures x in rest
    {
      assert x in all;
      var k :| 0 <= k < |all| && all[k] == x;
      assert rest[if k < n then k else n] == x;
    }
  }
}
