/**
  Open addressing with linear probing.
 */
module DawgTables {

  function Next(p: nat, n: nat): nat {
    if p + 1 == n then 0 else p + 1
  }

  /** The d-th position probed from position h of a table of n positions. */
  function Probe(h: nat, d: nat, n: nat): nat {
    if d == 0 then h else Next(Probe(h, d - 1, n), n)
  }

  /** Linear probing from h meets g before any empty position. */
  ghost predicate FoundAt(table: seq<nat>, h: nat, g: nat, d: nat)
    requires h < |table|
  {
    && (forall i :: 0 <= i <= d ==> Probe(h, i, |table|) < |table|)
    && table[Probe(h, d, |table|)] == g
    && (forall i :: 0 <= i < d ==> table[Probe(h, i, |table|)] != 0)
  }

  ghost predicate Findable(table: seq<nat>, h: nat, g: nat)
    requires h < |table|
  {
    exists d :: 0 <= d && FoundAt(table, h, g, d)
  }

  function Occupied(table: seq<nat>): nat {
    if table == [] then 0
    else Occupied(table[..|table| - 1]) + (if table[|table| - 1] != 0 then 1 else 0)
  }

  /** Every state in `keys` can be found from its hash, and nothing else is stored. */
  ghost predicate TableOk(table: seq<nat>, keys: set<nat>, hash: map<nat, nat>) {
    && |table| > 0
    && 0 !in keys
    && (forall p :: 0 <= p < |table| ==> table[p] == 0 || table[p] in keys)
    && (forall g :: g in keys ==> KeyOk(table, hash, g))
  }

  ghost predicate KeyOk(table: seq<nat>, hash: map<nat, nat>, g: nat)
    requires |table| > 0
  {
    g in hash && Findable(table, hash[g] % |table|, g)
  }

  lemma {:induction false} NextIsModulo(p: nat, n: nat)
    requires p < n
    ensures (p + 1) % n == Next(p, n) < n
  {
  }

  lemma {:induction false} ProbeInside(h: nat, d: nat, n: nat)
    requires h < n
    ensures Probe(h, d, n) < n
    ensures h + d < n ==> Probe(h, d, n) == h + d
    ensures n <= h + d < 2 * n ==> Probe(h, d, n) == h + d - n
    decreases d
  {
    if d > 0 {
      ProbeInside(h, d - 1, n);
    }
  }

  /** Probing reaches every position. */
  lemma {:induction false} ProbeReaches(h: nat, e: nat, n: nat) returns (d: nat)
    requires h < n && e < n
    ensures d < n && Probe(h, d, n) == e
  {
    d := if e >= h then e - h else e + n - h;
    ProbeInside(h, d, n);
  }

  lemma {:induction false} OccupiedUpdate(table: seq<nat>, p: nat, g: nat)
    requires p < |table| && table[p] == 0 && g != 0
    ensures Occupied(table[p := g]) == Occupied(table) + 1
    decreases |table|
  {
    var last := |table| - 1;
    if p < last {
      OccupiedUpdate(table[..last], p, g);
      assert table[p := g][..last] == table[..last][p := g];
    } else {
      assert table[p := g][..last] == table[..last];
    }
  }

  lemma {:induction false} RoomLeft(table: seq<nat>) returns (e: nat)
    requires Occupied(table) < |table|
    ensures e < |table| && table[e] == 0
    decreases |table|
  {
    var last := |table| - 1;
    if table[last] == 0 {
      e := last;
    } else {
      e := RoomLeft(table[..last]);
    }
  }

  lemma {:induction false} OccupiedEmpty(table: seq<nat>)
    requires forall p :: 0 <= p < |table| ==> table[p] == 0
    ensures Occupied(table) == 0
    decreases |table|
  {
    if table != [] {
      OccupiedEmpty(table[..|table| - 1]);
    }
  }

  /** Filling an empty position keeps every stored state findable. */
  lemma {:induction false} StoreKeeps(table: seq<nat>, h: nat, g: nat, p: nat, x: nat)
    requires h < |table| && Findable(table, h, g) && g != 0
    requires p < |table| && table[p] == 0 && x != 0
    ensures Findable(table[p := x], h, g)
  {
    var d :| 0 <= d && FoundAt(table, h, g, d);
    assert FoundAt(table[p := x], h, g, d);
  }

  /** Storing a state at the first empty position that probing from its hash meets. */
  lemma {:induction false} StoreOk(table: seq<nat>, keys: set<nat>, hash: map<nat, nat>, x: nat, d: nat)
    requires TableOk(table, keys, hash) && x != 0 && x in hash
    requires FoundAt(table, hash[x] % |table|, 0, d)
    ensures var p := Probe(hash[x] % |table|, d, |table|);
      p < |table| && TableOk(table[p := x], keys + {x}, hash)
  {
    var n, h := |table|, hash[x] % |table|;
    var p := Probe(h, d, n);
    assert p < n;
    var after := table[p := x];
    forall g | g in keys + {x}
      ensures KeyOk(after, hash, g)
    {
      if g == x {
        assert FoundAt(after, h, x, d) by {
          FirstEmptyOnce(table, h, d);
        }
      } else {
        assert KeyOk(table, hash, g);
        StoreKeeps(table, hash[g] % n, g, p, x);
      }
    }
  }

  lemma {:induction false} FirstEmptyOnce(table: seq<nat>, h: nat, d: nat)
    requires h < |table| && FoundAt(table, h, 0, d)
    ensures forall i :: 0 <= i < d ==> Probe(h, i, |table|) != Probe(h, d, |table|)
  {
  }

  lemma {:induction false} FoundInOrder(table: seq<nat>, h: nat, g: nat, i: nat, d: nat)
    requires h < |table| && FoundAt(table, h, g, i) && FoundAt(table, h, 0, d) && g != 0
    ensures i < d
  {
  }

  /** A state met while probing from its own hash comes before the first empty position. */
  lemma {:induction false} MetBeforeEmpty(table: seq<nat>, keys: set<nat>, hash: map<nat, nat>, g: nat, d: nat)
    returns (i: nat)
    requires TableOk(table, keys, hash) && g in keys && g in hash
    requires FoundAt(table, hash[g] % |table|, 0, d)
    ensures i < d && Probe(hash[g] % |table|, i, |table|) < |table|
    ensures table[Probe(hash[g] % |table|, i, |table|)] == g
  {
    assert KeyOk(table, hash, g);
    var h := hash[g] % |table|;
    i :| 0 <= i && FoundAt(table, h, g, i);
    FoundInOrder(table, h, g, i, d);
  }
}
