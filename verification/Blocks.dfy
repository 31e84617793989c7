/**
  Counting within a block: used offsets never outnumber fixed units.
 */
module Blocks {
  import opened Bitwise
  import opened Dictionary
  import opened UnitWords
  import opened Layouts

  ghost function Range(from: nat, n: nat): set<nat> {
    if n == 0 then {} else Range(from, n - 1) + {from + n - 1}
  }

  lemma {:induction false} RangeMembers(from: nat, n: nat)
    ensures |Range(from, n)| == n
    ensures forall i :: i in Range(from, n) <==> from <= i < from + n
  {
    if n > 0 {
      RangeMembers(from, n - 1);
    }
  }

  lemma {:induction false} SubsetSize(a: set<nat>, b: set<nat>)
    requires a <= b && |a| >= |b|
    ensures a == b
  {
    assert b == a + (b - a);
    assert |b| == |a| + |b - a|;
  }

  /** Offset 0 is taken by the root from the moment it exists. */
  predicate IsUsed(plan: Plan, o: nat) {
    if o == 0 then 0 in plan.nodes else o in plan.placed
  }

  /** A fixed unit that o alone accounts for. */
  ghost predicate Stands(plan: Plan, o: nat, s: nat) {
    if o == 0 then s == 0 else s in plan.owner && plan.owner[s] == o
  }

  lemma {:induction false} UsedHasUnit(units: seq<nat>, plan: Plan, o: nat) returns (s: nat)
    requires Layout(units, plan) && IsUsed(plan, o)
    ensures Stands(plan, o, s) && Block(s) == Block(o)
  {
    hide Xor, NoNulStep, HasLeaf, Value, Offset, HasWord, Tails;
    if o == 0 {
      s := 0;
    } else {
      var d := plan.placed[o];
      assert ChildrenOk(units, plan, o, d);
      var k :| k in d;
      var c: Byte := 0;
      if k != [] {
        c := k[0];
        NoNulHead(d, k);
        AfterNonempty(d, k);
      }
      assert HasLabel(d, c);
      assert ChildOk(plan, o, d, c);
      s := Xor(o, c);
      assert OwnedOk(units, plan, s);
    }
  }

  /** The first n offsets of a block, all used, account for n different units of the block. */
  lemma {:induction false} UsedUnits(units: seq<nat>, plan: Plan, b: nat, n: nat) returns (stands: set<nat>)
    requires Layout(units, plan) && n <= 256
    requires forall o: nat :: 256 * b <= o < 256 * b + n ==> IsUsed(plan, o)
    ensures |stands| == n
    ensures forall s :: s in stands ==>
      Block(s) == b && exists o: nat :: 256 * b <= o < 256 * b + n && Stands(plan, o, s)
    decreases n
  {
    hide Layout, IsUsed;
    if n == 0 {
      stands := {};
    } else {
      var o := 256 * b + n - 1;
      var before := UsedUnits(units, plan, b, n - 1);
      var s := UsedHasUnit(units, plan, o);
      StandsApart(units, plan, before, b, n - 1, s);
      assert s !in before;
      stands := before + {s};
    }
  }

  lemma {:induction false} StandsApart(units: seq<nat>, plan: Plan, before: set<nat>, b: nat, n: nat, s: nat)
    requires Layout(units, plan)
    requires forall x :: x in before ==> exists o: nat :: 256 * b <= o < 256 * b + n && Stands(plan, o, x)
    requires Stands(plan, 256 * b + n, s)
    ensures s !in before
  {
    hide Xor, NoNulStep, HasLeaf, Value, Offset, HasWord;
    forall x | x in before
      ensures x != s
    {
      var o: nat :| 256 * b <= o < 256 * b + n && Stands(plan, o, x);
      if x in plan.owner {
        assert OwnedOk(units, plan, x);
      }
    }
  }

  lemma {:induction false} FullBlock(units: seq<nat>, plan: Plan, b: nat, s: nat)
    requires Layout(units, plan) && Block(s) == b
    requires forall o: nat :: 256 * b <= o < 256 * b + 256 ==> IsUsed(plan, o)
    ensures s == 0 || s in plan.owner
  {
    hide Layout, IsUsed;
    var stands := UsedUnits(units, plan, b, 256);
    RangeMembers(256 * b, 256);
    assert stands <= Range(256 * b, 256);
    SubsetSize(stands, Range(256 * b, 256));
    assert s in stands;
  }

  /** A block with a free unit has an offset that is not used. */
  lemma {:induction false} UnusedExists(units: seq<nat>, plan: Plan, b: nat, free: nat)
    requires Layout(units, plan)
    requires free > 0 && Block(free) == b && free !in plan.owner
    ensures exists o: nat :: 256 * b <= o < 256 * b + 256 && !IsUsed(plan, o)
  {
    hide Layout;
    if forall o: nat :: 256 * b <= o < 256 * b + 256 ==> IsUsed(plan, o) {
      FullBlock(units, plan, b, free);
      assert false;
    }
  }
}
