/**
  What each unit of a double array under construction is there for.

  A used offset o carries the children of one node: the unit o ^ c for each
  label c. Every fixed unit other than the root either belongs to exactly one used
  offset or is a filler, labelled as a child of an offset that stays unused.
 */
module Layouts {
  import opened Bitwise
  import opened Dictionary
  import opened UnitWords
  import opened DoubleArraySearch

  datatype Plan = Plan(
    nodes: map<nat, Dict>,    // what each internal unit stands for
    placed: map<nat, Dict>,   // used offsets, with the map whose children they carry
    owner: map<nat, nat>,     // the used offset that a child unit belongs to
    filler: map<nat, nat>,    // the unused offset that a filler unit is labelled for
    pending: set<nat>)        // internal units whose children are not placed yet

  const EMPTY_PLAN := Plan(map[], map[], map[], map[], {})

  function Block(id: nat): nat {
    id / 256
  }

  predicate HasWord(u: nat, c: nat) {
    u < TOP_BIT && u % 256 == c
  }

  ghost predicate OwnedOk(units: seq<nat>, plan: Plan, s: nat)
    requires s in plan.owner
  {
    var o := plan.owner[s];
    && 0 < s < |units| && 0 < o && Block(s) == Block(o)
    && s !in plan.filler
    && (if s == o then units[s] >= TOP_BIT else HasWord(units[s], Xor(s, o)))
  }

  ghost predicate FillerOk(units: seq<nat>, plan: Plan, s: nat)
    requires s in plan.filler
  {
    var o := plan.filler[s];
    && 0 < s < |units| && Block(s) == Block(o)
    && o !in plan.placed
    && units[s] == Xor(s, o)
  }

  /** The unit for label c at the used offset o, when and only when d has that label. */
  ghost predicate ChildOk(plan: Plan, o: nat, d: Dict, c: Byte) {
    var s := Xor(o, c);
    && (HasLabel(d, c) <==> s in plan.owner && plan.owner[s] == o)
    && (HasLabel(d, c) && c != 0 ==> s in plan.nodes && plan.nodes[s] == After(d, c))
  }

  ghost predicate ChildrenOk(units: seq<nat>, plan: Plan, o: nat, d: Dict) {
    && 0 < o < |units|
    && d != map[]
    && NoNulStep(d)
    && (forall c: Byte :: ChildOk(plan, o, d, c))
    && ([] in d ==> units[o] >= TOP_BIT && Value(units[o]) == d[[]])
  }

  ghost predicate UnitOk(units: seq<nat>, plan: Plan, id: nat)
    requires id in plan.nodes
  {
    && id < |units| && units[id] < TOP_BIT
    && (if id == 0 then HasWord(units[id], 0) else id in plan.owner && plan.owner[id] != id)
    && (if id in plan.pending then HasLeaf(units[id]) ==> [] in plan.nodes[id]
        else NodeDone(units[id], plan, id))
  }

  ghost predicate NodeDone(u: nat, plan: Plan, id: nat)
    requires id in plan.nodes
  {
    var base := Xor(id, Offset(u));
    && base in plan.placed && plan.placed[base] == plan.nodes[id]
    && (HasLeaf(u) <==> [] in plan.nodes[id])
  }

  /** Units are free, in limbo (just reserved), children, or fillers; never two of these. */
  ghost predicate Covered(units: seq<nat>, plan: Plan, free: seq<nat>, limbo: set<nat>) {
    && (forall s: nat :: 0 < s < |units| ==> s in free || s in limbo || s in plan.owner || s in plan.filler)
    && (forall s: nat :: s in free ==> Blank(units, plan, s) && s !in limbo)
    && (forall s: nat :: s in limbo ==> Blank(units, plan, s))
  }

  ghost predicate Blank(units: seq<nat>, plan: Plan, s: nat) {
    s < |units| && units[s] == 0 && s !in plan.owner && s !in plan.filler && s !in plan.nodes
  }

  ghost predicate Layout(units: seq<nat>, plan: Plan) {
    && |units| % 256 == 0
    && plan.pending <= plan.nodes.Keys
    && (forall s :: s in plan.owner ==> OwnedOk(units, plan, s))
    && (forall s :: s in plan.filler ==> FillerOk(units, plan, s))
    && (forall o :: o in plan.placed ==> ChildrenOk(units, plan, o, plan.placed[o]))
    && (forall id :: id in plan.nodes ==> UnitOk(units, plan, id))
  }

  /** More blank units. */
  lemma {:induction false} ExtendLayout(units: seq<nat>, more: seq<nat>, plan: Plan)
    requires Layout(units, plan) && |more| == 256
    ensures Layout(units + more, plan)
  {
    hide Xor, HasLabel, NoNulStep, HasLeaf, Value, Offset, HasWord, ChildOk;
    var after := units + more;
    forall s | s in plan.owner
      ensures OwnedOk(after, plan, s)
    {
      assert OwnedOk(units, plan, s);
    }
    forall s | s in plan.filler
      ensures FillerOk(after, plan, s)
    {
      assert FillerOk(units, plan, s);
    }
    forall o | o in plan.placed
      ensures ChildrenOk(after, plan, o, plan.placed[o])
    {
      assert ChildrenOk(units, plan, o, plan.placed[o]);
    }
    forall id | id in plan.nodes
      ensures UnitOk(after, plan, id)
    {
      assert UnitOk(units, plan, id);
    }
  }

  /** A reserved unit becomes a filler for an offset that is not used. */
  lemma {:induction false} FillLayout(units: seq<nat>, plan: Plan, s: nat, o: nat)
    requires Layout(units, plan) && Blank(units, plan, s)
    requires s > 0 && Block(s) == Block(o) && o !in plan.placed
    ensures var word := SetLabel(units[s], Xor(s, o) % 256);
      Layout(units[s := word], plan.(filler := plan.filler[s := o]))
  {
    hide *;
    BlankWord(s, o);
    assert units[s] == 0 by {
      BlankIsZero(units, plan, s);
    }
    FillKeeps(units, plan, s, o, SetLabel(units[s], Xor(s, o) % 256));
  }

  lemma {:induction false} BlankIsZero(units: seq<nat>, plan: Plan, s: nat)
    requires Blank(units, plan, s)
    ensures s < |units| && units[s] == 0
  {
  }

  lemma {:induction false} BlankWord(s: nat, o: nat)
    requires Block(s) == Block(o)
    ensures SetLabel(0, Xor(s, o) % 256) == Xor(s, o)
  {
    hide Xor;
    XorSameBlock(s, o);
  }

  lemma {:induction false} FillKeeps(units: seq<nat>, plan: Plan, s: nat, o: nat, word: nat)
    requires Layout(units, plan) && Blank(units, plan, s)
    requires s > 0 && Block(s) == Block(o) && o !in plan.placed && word == Xor(s, o)
    ensures Layout(units[s := word], plan.(filler := plan.filler[s := o]))
  {
    hide Xor, HasLabel, NoNulStep, HasLeaf, Value, Offset, HasWord, Block, After;
    var after, plan' := units[s := word], plan.(filler := plan.filler[s := o]);
    forall x | x in plan'.owner
      ensures OwnedOk(after, plan', x)
    {
      assert OwnedOk(units, plan, x);
    }
    forall x | x in plan'.filler
      ensures FillerOk(after, plan', x)
    {
      if x != s {
        assert FillerOk(units, plan, x);
      }
    }
    forall x | x in plan'.placed
      ensures ChildrenOk(after, plan', x, plan'.placed[x])
    {
      SameChildren(units, plan, after, plan', x, plan.placed[x]);
    }
    forall id | id in plan'.nodes
      ensures UnitOk(after, plan', id)
    {
      assert UnitOk(units, plan, id);
    }
  }

  /** The children of a used offset do not change while their owner entries stay. */
  lemma {:induction false} SameChildren(units: seq<nat>, plan: Plan, units': seq<nat>, plan': Plan, o: nat, d: Dict)
    requires ChildrenOk(units, plan, o, d)
    requires |units| <= |units'|
    requires [] in d ==> units'[o] == units[o]
    requires forall s :: s in plan.owner ==> s in plan'.owner && plan'.owner[s] == plan.owner[s]
    requires forall s :: s in plan'.owner && plan'.owner[s] == o ==> s in plan.owner
    requires forall s :: s in plan.nodes ==> s in plan'.nodes && plan'.nodes[s] == plan.nodes[s]
    ensures ChildrenOk(units', plan', o, d)
  {
    hide Xor, HasLabel, NoNulStep, Value, After;
    forall c: Byte
      ensures ChildOk(plan', o, d, c)
    {
      assert ChildOk(plan, o, d, c);
    }
  }

  /** A reserved unit becomes the child for label c of an offset that is not used yet. */
  lemma {:induction false} ChildLayout(units: seq<nat>, plan: Plan, o: nat, d: Dict, c: Byte, word: nat)
    requires Layout(units, plan) && Blank(units, plan, Xor(o, c))
    requires 0 < o && o !in plan.placed && 0 < Xor(o, c)
    requires if c == 0 then word >= TOP_BIT else word < TOP_BIT && HasWord(word, c) && !HasLeaf(word)
    ensures Layout(units[Xor(o, c) := word], AddChild(plan, o, d, c))
  {
    hide Xor, HasLabel, NoNulStep, HasLeaf, Value, Offset, HasWord, After;
    var s := Xor(o, c);
    var after, plan' := units[s := word], AddChild(plan, o, d, c);
    XorByte(o, c);
    XorZero(o);
    forall x | x in plan'.owner
      ensures OwnedOk(after, plan', x)
    {
      if x != s {
        assert OwnedOk(units, plan, x);
      } else if c != 0 && s == o {
        XorInjective(o, c, 0);
      }
    }
    forall x | x in plan'.filler
      ensures FillerOk(after, plan', x)
    {
      assert FillerOk(units, plan, x);
    }
    forall x | x in plan'.placed
      ensures ChildrenOk(after, plan', x, plan'.placed[x])
    {
      ChildIsForeign(units, plan, x, s);
      SameChildren(units, plan, after, plan', x, plan.placed[x]);
    }
    forall id | id in plan'.nodes
      ensures UnitOk(after, plan', id)
    {
      if id != s {
        assert UnitOk(units, plan, id);
      } else {
        assert OwnedOk(after, plan', s);
      }
    }
  }

  lemma {:induction false} ChildIsForeign(units: seq<nat>, plan: Plan, o: nat, s: nat)
    requires Layout(units, plan) && o in plan.placed && Blank(units, plan, s)
    ensures [] in plan.placed[o] ==> s != o
  {
    hide Xor, HasWord, NoNulStep, Value, After;
    XorZero(o);
    assert ChildrenOk(units, plan, o, plan.placed[o]);
    assert ChildOk(plan, o, plan.placed[o], 0);
  }

  ghost function AddChild(plan: Plan, o: nat, d: Dict, c: Byte): Plan {
    var s := Xor(o, c);
    if c == 0 then plan.(owner := plan.owner[s := o])
    else plan.(owner := plan.owner[s := o], nodes := plan.nodes[s := After(d, c)],
               pending := plan.pending + {s})
  }

  /** Rewriting the word of a pending unit, but not its label. */
  lemma {:induction false} PendingLayout(units: seq<nat>, plan: Plan, id: nat, word: nat)
    requires Layout(units, plan) && id in plan.pending && id < |units|
    requires word < TOP_BIT && word % 256 == units[id] % 256
    requires HasLeaf(word) ==> [] in plan.nodes[id]
    ensures Layout(units[id := word], plan)
  {
    hide Xor, HasLabel, NoNulStep, HasLeaf, Value, Offset, After;
    assert UnitOk(units, plan, id);
    NodeWordLayout(units, plan, plan, id, word);
  }

  /** A pending unit is done once its word leads to a used offset for the same map. */
  lemma {:induction false} DoneLayout(units: seq<nat>, plan: Plan, id: nat, word: nat)
    requires Layout(units, plan) && id in plan.pending && id < |units|
    requires word < TOP_BIT && word % 256 == units[id] % 256
    requires NodeDone(word, plan, id)
    ensures Layout(units[id := word], plan.(pending := plan.pending - {id}))
  {
    hide Xor, HasLabel, NoNulStep, HasLeaf, Value, Offset, After;
    assert UnitOk(units, plan, id);
    NodeWordLayout(units, plan, plan.(pending := plan.pending - {id}), id, word);
  }

  lemma {:induction false} NodeWordLayout(units: seq<nat>, plan: Plan, plan': Plan, id: nat, word: nat)
    requires Layout(units, plan) && id in plan.pending && id < |units|
    requires plan' == plan || plan' == plan.(pending := plan.pending - {id})
    requires word < TOP_BIT && word % 256 == units[id] % 256
    requires UnitOk(units[id := word], plan', id)
    ensures Layout(units[id := word], plan')
  {
    hide Xor, HasLabel, NoNulStep, HasLeaf, Value, Offset, After, Block;
    var after := units[id := word];
    assert UnitOk(units, plan, id);
    forall x | x in plan'.owner
      ensures OwnedOk(after, plan', x)
    {
      assert OwnedOk(units, plan, x);
    }
    forall x | x in plan'.filler
      ensures FillerOk(after, plan', x)
    {
      assert FillerOk(units, plan, x);
    }
    forall o | o in plan'.placed
      ensures ChildrenOk(after, plan', o, plan'.placed[o])
    {
      assert ChildrenOk(units, plan, o, plan.placed[o]);
      SameChildren(units, plan, after, plan', o, plan.placed[o]);
    }
    forall x | x in plan'.nodes
      ensures UnitOk(after, plan', x)
    {
      assert UnitOk(units, plan, x);
    }
  }

  /** An offset becomes used when all its children are there. */
  lemma {:induction false} PlaceLayout(units: seq<nat>, plan: Plan, o: nat, d: Dict)
    requires Layout(units, plan) && o !in plan.placed
    requires ChildrenOk(units, plan, o, d)
    requires forall s :: s in plan.filler ==> plan.filler[s] != o
    ensures Layout(units, plan.(placed := plan.placed[o := d]))
  {
    hide Xor, HasLabel, NoNulStep, HasLeaf, Value, Offset, HasWord, After, Block;
    var plan' := plan.(placed := plan.placed[o := d]);
    forall x | x in plan'.owner
      ensures OwnedOk(units, plan', x)
    {
      assert OwnedOk(units, plan, x);
    }
    forall x | x in plan'.filler
      ensures FillerOk(units, plan', x)
    {
      assert FillerOk(units, plan, x);
    }
    forall x | x in plan'.placed
      ensures ChildrenOk(units, plan', x, plan'.placed[x])
    {
      if x == o {
        SameChildren(units, plan, units, plan', o, d);
      } else {
        SameChildren(units, plan, units, plan', x, plan.placed[x]);
      }
    }
    forall id | id in plan'.nodes
      ensures UnitOk(units, plan', id)
    {
      assert UnitOk(units, plan, id);
    }
  }

  /** Every unit is accounted for and no unit waits for its children. */
  ghost predicate Complete(units: seq<nat>, plan: Plan) {
    && Layout(units, plan)
    && 0 in plan.nodes
    && plan.pending == {}
    && forall s: nat :: 0 < s < |units| ==> s in plan.owner || s in plan.filler
  }

  lemma {:induction false} WordLabel(u: nat, c: nat)
    requires HasWord(u, c)
    ensures Label(u) == c
  {
  }

  lemma {:induction false} FillerWord(s: nat, o: nat)
    requires Block(s) == Block(o)
    ensures Xor(s, o) < 256 && HasWord(Xor(s, o), Xor(s, o))
    ensures !HasLeaf(Xor(s, o)) && Offset(Xor(s, o)) == 0
  {
    hide Xor;
    XorSameBlock(s, o);
  }

  lemma {:induction false} LeafLabel(u: nat)
    requires u >= TOP_BIT
    ensures Label(u) >= TOP_BIT
  {
  }

  /** The label read at t is the distance from t to the offset t is labelled for. */
  lemma {:induction false} SlotLabel(units: seq<nat>, plan: Plan, base: nat, c: Byte)
    requires Complete(units, plan) && base in plan.placed
    ensures var t := Xor(base, c);
      && t < |units|
      && (Label(units[t]) == c <==> t > 0 && c != 0 && t in plan.owner && plan.owner[t] == base)
  {
    hide HasLabel, NoNulStep, HasLeaf, Value, Offset, HasWord, Xor, Label, After, ChildOk, Block;
    var t := Xor(base, c);
    XorByte(base, c);
    XorZero(base);
    assert ChildrenOk(units, plan, base, plan.placed[base]);
    BlockEnd(units, base, t);
    if t == 0 {
      assert UnitOk(units, plan, 0);
      WordLabel(units[0], 0);
      XorCancels(0, c);
      XorZero(0);
    } else if t in plan.owner {
      assert OwnedOk(units, plan, t);
      OwnedLabel(units, plan, base, c);
    } else {
      var o := plan.filler[t];
      assert FillerOk(units, plan, t);
      FillerWord(t, o);
      WordLabel(units[t], Xor(t, o));
      if Xor(t, o) == c {
        XorInjective(t, o, base);
      }
    }
  }

  lemma {:induction false} BlockEnd(units: seq<nat>, base: nat, t: nat)
    requires |units| % 256 == 0 && base < |units| && t / 256 == base / 256
    ensures t < |units|
  {
  }

  lemma {:induction false} OwnedLabel(units: seq<nat>, plan: Plan, base: nat, c: Byte)
    requires var t := Xor(base, c); t in plan.owner && OwnedOk(units, plan, t)
    ensures var t := Xor(base, c); Label(units[t]) == c <==> c != 0 && plan.owner[t] == base
  {
    hide HasLeaf, Value, Offset, HasWord, Xor, Label, Block;
    var t := Xor(base, c);
    var o := plan.owner[t];
    XorByte(base, c);
    XorZero(base);
    XorSelf(t);
    if t == o {
      LeafLabel(units[t]);
    } else {
      WordLabel(units[t], Xor(t, o));
      if Xor(t, o) == c {
        XorInjective(t, o, base);
      }
    }
  }

  /** A search step from a finished unit does exactly what the maps say. */
  lemma {:induction false} CompleteStep(units: seq<nat>, plan: Plan, id: nat, c: Byte)
    requires Complete(units, plan) && id in plan.nodes && id < |units|
    requires Xor(id, Offset(units[id])) in plan.placed
    requires plan.placed[Xor(id, Offset(units[id]))] == plan.nodes[id]
    ensures StepOk(units, plan.nodes, plan.nodes[id], Xor(id, Offset(units[id])), c)
  {
    hide NoNulStep, HasLeaf, Value, Offset, HasWord, Xor, Label, After, Block;
    var base := Xor(id, Offset(units[id]));
    var d := plan.nodes[id];
    SlotLabel(units, plan, base, c);
    assert ChildrenOk(units, plan, base, d);
    assert ChildOk(plan, base, d, c);
    assert After(d, c) != map[] ==> c != 0 by {
      NoNulStepMeans(d, c);
    }
    if Xor(base, c) in plan.owner {
      assert OwnedOk(units, plan, Xor(base, c));
    }
  }

  /** A complete layout is a double array that answers every search step correctly. */
  lemma {:induction false} CompleteRepresents(units: seq<nat>, plan: Plan)
    requires Complete(units, plan)
    ensures Represents(units, plan.nodes) && NoDeadNode(plan.nodes)
  {
    hide NoNulStep, HasLeaf, Value, Offset, HasWord, Xor, Label, After, Block, StepOk, ChildOk;
    forall id | id in plan.nodes
      ensures id < |units| && NodeOk(units, plan.nodes, id) && plan.nodes[id] != map[]
    {
      assert UnitOk(units, plan, id);
      var base := Xor(id, Offset(units[id]));
      assert ChildrenOk(units, plan, base, plan.nodes[id]);
      forall c: Byte
        ensures StepOk(units, plan.nodes, plan.nodes[id], base, c)
      {
        CompleteStep(units, plan, id, c);
      }
    }
  }

  /** The units of an array without keys: the root and fillers only. */
  ghost predicate Barren(units: seq<nat>, plan: Plan) {
    && Layout(units, plan)
    && plan.owner == map[]
    && 0 < |units| && units[0] == 1024
    && forall s: nat :: 0 < s < |units| ==> s in plan.filler
  }

  ghost function AllEmpty(ids: set<nat>): map<nat, Dict> {
    map id | id in ids :: map[]
  }

  lemma {:induction false} BarrenStep(units: seq<nat>, plan: Plan, base: nat, c: Byte)
    requires Barren(units, plan) && base < |units|
    ensures StepOk(units, AllEmpty(plan.filler.Keys + {0}), map[], base, c)
  {
    hide Xor, Label, Layout;
    XorByte(base, c);
    LayoutSize(units, plan);
    BlockEnd(units, base, Xor(base, c));
    assert After(map[], c) == map[];
  }

  lemma {:induction false} LayoutSize(units: seq<nat>, plan: Plan)
    requires Layout(units, plan)
    ensures |units| % 256 == 0
    ensures forall s :: s in plan.filler ==> s < |units|
  {
    hide Xor;
    forall s | s in plan.filler
      ensures s < |units|
    {
      assert FillerOk(units, plan, s);
    }
  }

  /**
    In an array without keys a search may take steps, because the fillers are
    labelled for an offset that the root has, but it never finds a key.
   */
  lemma {:induction false} BarrenRepresents(units: seq<nat>, plan: Plan)
    requires Barren(units, plan)
    ensures Represents(units, AllEmpty(plan.filler.Keys + {0}))
  {
    hide Xor, Label, StepOk, After, Layout;
    var sem := AllEmpty(plan.filler.Keys + {0});
    LayoutSize(units, plan);
    forall id | id in sem
      ensures id < |units| && NodeOk(units, sem, id)
    {
      var base := Xor(id, Offset(units[id]));
      BarrenWord(units, plan, id);
      forall c: Byte
        ensures StepOk(units, sem, map[], base, c)
      {
        BarrenStep(units, plan, base, c);
      }
    }
  }

  lemma {:induction false} BarrenWord(units: seq<nat>, plan: Plan, id: nat)
    requires Barren(units, plan) && id < |units|
    ensures !HasLeaf(units[id]) && Xor(id, Offset(units[id])) < |units|
  {
    hide Xor, NoNulStep, HasLabel, Value;
    if id == 0 {
      XorByte(0, 1);
      BlockEnd(units, 0, Xor(0, 1));
    } else {
      assert FillerOk(units, plan, id);
      FillerWord(id, plan.filler[id]);
      XorZero(id);
    }
  }
}
