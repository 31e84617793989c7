/**
  Whole builds of the word graph, and when they return.
 */
module GraphRuns {
  import opened Dictionary
  import opened Keysets
  import opened KeysetRanges
  import opened DawgLevels
  import opened DawgGraphs
  import opened DawgTables
  import opened DawgStores
  import opened DawgWalks
  import opened DawgRuns
  import opened Reports

  ghost function FirstDraft(): Draft {
    Draft(Store(map[], {}, EmptySlots(INITIAL_TABLE_SIZE), 1), [], 0)
  }

  /** The word graph after the first n keys, up to the first one rejected, unless an insertion does not return. */
  ghost function Run(ks: Keyset, n: nat): (r: Option<Draft>)
    requires ks.Valid() && n <= |ks.keys|
    ensures r.Some? ==> 0 < |r.value.store.table|
  {
    if n == 0 then Some(FirstDraft())
    else
      var before := Run(ks, n - 1);
      if before.None? || FirstOutcome(ks, n) != Built then before
      else InsertInto(before.value, ks.keys[n - 1], ks.following[n - 1], Stored(ks, n - 1))
  }

  /** Every call of the build returns. */
  ghost predicate HasRoom(ks: Keyset)
    requires ks.Valid()
  {
    var r := Run(ks, |ks.keys|);
    r.Some? && (FirstOutcome(ks, |ks.keys|) == Built ==>
                  FlushTo(r.value.store, r.value.levels, r.value.target, 0).Froze?)
  }

  /** Input for the word graph: no accepted key has a zero byte inside or is misplaced, and every call returns. */
  ghost predicate DawgInput(ks: Keyset) {
    Placeable(ks) && HasRoom(ks)
  }

  lemma {:induction false} RunStart(ks: Keyset)
    requires ks.Valid()
    ensures Run(ks, 0) == Some(FirstDraft())
  {
  }

  lemma {:induction false} RunBefore(ks: Keyset, i: nat, n: nat)
    requires ks.Valid() && i <= n <= |ks.keys| && Run(ks, n).Some?
    ensures Run(ks, i).Some?
    decreases n
  {
    hide InsertInto, FirstOutcome;
    if i < n {
      RunBefore(ks, i, n - 1);
    }
  }

  /** The step for one more accepted key. */
  lemma {:induction false} RunNext(ks: Keyset, i: nat)
    requires ks.Valid() && i < |ks.keys| && HasRoom(ks) && FirstOutcome(ks, i + 1) == Built
    ensures Run(ks, i).Some? && Run(ks, i + 1).Some?
    ensures Run(ks, i + 1) == InsertInto(Run(ks, i).value, ks.keys[i], ks.following[i], Stored(ks, i))
  {
    hide InsertInto, FirstOutcome;
    RunBefore(ks, i + 1, |ks.keys|);
    RunBefore(ks, i, |ks.keys|);
  }
}
