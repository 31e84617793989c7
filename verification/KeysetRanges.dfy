/**
  Reading one byte of every key of a range: what the keyset builder checks and
  collects before it places a node.
 */
module KeysetRanges {
  import opened Dictionary
  import opened Keysets
  import opened BuilderState
  import opened Layouts
  import opened Bitwise

  /** Unsigned byte order, a prefix before its extensions. */
  predicate KeyLeq(s: Key, t: Key)
    decreases |s|
  {
    s == [] || (t != [] && (s[0] < t[0] || (s[0] == t[0] && KeyLeq(s[1..], t[1..]))))
  }

  /** Keys i and i + 1 are in order from `depth` on. */
  ghost predicate InOrder(ks: Keyset, i: nat, depth: nat)
    requires i + 1 < |ks.keys| && depth <= |ks.keys[i]| && depth <= |ks.keys[i + 1]|
  {
    KeyLeq(ks.keys[i][depth..], ks.keys[i + 1][depth..])
  }

  ghost predicate NulFreeFrom(ks: Keyset, i: nat, depth: nat)
    requires i < |ks.keys| && depth <= |ks.keys[i]|
  {
    NulFreeKey(ks.keys[i][depth..])
  }

  /** From `depth` on, the keys of the range are free of zero bytes, in order, and not negative. */
  ghost predicate RangeOk(ks: Keyset, begin: nat, end: nat, depth: nat)
    requires InRange(ks, begin, end, depth)
  {
    && (forall i :: begin <= i < end ==> NulFreeFrom(ks, i, depth) && ks.Value(i) >= 0)
    && (forall i :: begin <= i < end - 1 ==> InOrder(ks, i, depth))
  }

  /** The fault that an error reports is present. */
  ghost predicate Justified(ks: Keyset, begin: nat, end: nat, depth: nat, error: BuildError)
    requires InRange(ks, begin, end, depth)
  {
    match error
    case InvalidNull => exists i :: begin <= i < end && !NulFreeFrom(ks, i, depth)
    case NegativeValue => exists i :: begin <= i < end && ks.Value(i) < 0
    case WrongOrder =>
      exists i :: begin <= i < end - 1 && !InOrder(ks, i, depth)
    case TooLargeOffset => true
    case ZeroLength => false
  }

  /** The keys begin..end have been read at `depth` without a fault. */
  ghost predicate Heads(ks: Keyset, begin: nat, end: nat, depth: nat, labels: seq<Byte>, value: int)
    requires InRange(ks, begin, end, depth)
  {
    && Ascending(labels)
    && (if begin == end then labels == []
        else |labels| > 0 && labels[|labels| - 1] == ks.Label(end - 1, depth))
    && (forall j :: begin <= j < end ==> HeadOk(ks, j, depth) && ks.Label(j, depth) in labels)
    && HeadsOrdered(ks, begin, end, depth)
    && (forall c: Byte :: c in labels ==> HasHead(ks, begin, end, depth, c))
    && value == if begin < end && ks.Label(begin, depth) == 0 then ks.Value(begin) else -1
  }

  ghost predicate HeadsOrdered(ks: Keyset, begin: nat, end: nat, depth: nat)
    requires end <= |ks.keys|
  {
    forall j :: begin < j < end ==> ks.Label(j - 1, depth) <= ks.Label(j, depth)
  }

  lemma {:induction false} OrderMore(ks: Keyset, begin: nat, i: nat, depth: nat, labels: seq<Byte>, value: int)
    requires InRange(ks, begin, i, depth) && InRange(ks, begin, i + 1, depth)
    requires Heads(ks, begin, i, depth, labels, value)
    requires labels != [] ==> labels[|labels| - 1] <= ks.Label(i, depth)
    ensures HeadsOrdered(ks, begin, i + 1, depth)
  {
    hide HasHead, Ascending, HeadOk;
  }

  ghost predicate HeadOk(ks: Keyset, j: nat, depth: nat)
    requires ks.Valid() && j < |ks.keys|
  {
    ks.Label(j, depth) == 0 ==> depth >= |ks.keys[j]| && ks.Value(j) >= 0
  }

  ghost predicate HasHead(ks: Keyset, begin: nat, end: nat, depth: nat, c: Byte)
    requires end <= |ks.keys|
  {
    exists j :: begin <= j < end && ks.Label(j, depth) == c
  }

  lemma {:induction false} HasHeadMore(ks: Keyset, begin: nat, end: nat, depth: nat, c: Byte)
    requires end < |ks.keys| && begin <= end
    ensures HasHead(ks, begin, end, depth, c) ==> HasHead(ks, begin, end + 1, depth, c)
    ensures HasHead(ks, begin, end + 1, depth, ks.Label(end, depth))
  {
    if HasHead(ks, begin, end, depth, c) {
      var j :| begin <= j < end && ks.Label(j, depth) == c;
      assert begin <= j < end + 1;
    }
  }

  lemma {:induction false} LabelOrder(ks: Keyset, begin: nat, end: nat, depth: nat, labels: seq<Byte>, value: int,
                                      i: nat, j: nat)
    requires InRange(ks, begin, end, depth) && Heads(ks, begin, end, depth, labels, value)
    requires begin <= i <= j < end
    ensures ks.Label(i, depth) <= ks.Label(j, depth)
    decreases j
  {
    if i < j {
      LabelOrder(ks, begin, end, depth, labels, value, i, j - 1);
    }
  }

  function NextLabels(labels: seq<Byte>, c: Byte): seq<Byte> {
    if labels != [] && labels[|labels| - 1] == c then labels else labels + [c]
  }

  lemma {:induction false} NextLabelsHave(labels: seq<Byte>, c: Byte)
    requires Ascending(labels) && (labels != [] ==> labels[|labels| - 1] <= c)
    ensures var labels' := NextLabels(labels, c);
      && Ascending(labels') && |labels'| > 0 && labels'[|labels'| - 1] == c
      && c in labels'
      && (forall b :: b in labels' <==> b in labels || b == c)
  {
    LastIsLargest(labels, c);
    if labels != [] && labels[|labels| - 1] == c {
      assert c in labels;
    } else {
      assert (labels + [c])[|labels|] == c;
    }
  }

  lemma {:induction false} HeadsValue(ks: Keyset, begin: nat, i: nat, depth: nat, labels: seq<Byte>, value: int)
    requires InRange(ks, begin, i, depth) && InRange(ks, begin, i + 1, depth) && begin <= i
    requires Heads(ks, begin, i, depth, labels, value) && HeadOk(ks, i, depth)
    requires labels != [] ==> labels[|labels| - 1] <= ks.Label(i, depth)
    ensures (if ks.Label(i, depth) == 0 && value == -1 then ks.Value(i) else value)
      == if ks.Label(begin, depth) == 0 then ks.Value(begin) else -1
  {
    hide HasHead, Ascending;
    if begin < i {
      assert HeadOk(ks, begin, depth);
      LabelOrder(ks, begin, i, depth, labels, value, begin, i - 1);
    }
  }

  /** One more key, whose byte repeats or exceeds the last label. */
  lemma {:induction false} HeadsStep(ks: Keyset, begin: nat, i: nat, depth: nat, labels: seq<Byte>, value: int)
    requires InRange(ks, begin, i, depth) && InRange(ks, begin, i + 1, depth) && begin <= i
    requires Heads(ks, begin, i, depth, labels, value) && HeadOk(ks, i, depth)
    requires labels != [] ==> labels[|labels| - 1] <= ks.Label(i, depth)
    ensures var c := ks.Label(i, depth);
      Heads(ks, begin, i + 1, depth, NextLabels(labels, c), if c == 0 && value == -1 then ks.Value(i) else value)
  {
    HeadsValue(ks, begin, i, depth, labels, value);
    OrderMore(ks, begin, i, depth, labels, value);
    hide HeadsOrdered, HasHead, Ascending, NextLabels, HeadOk, Keyset.Label, Keyset.Value, Keyset.Valid;
    var c := ks.Label(i, depth);
    NextLabelsHave(labels, c);
    forall b: Byte | b in NextLabels(labels, c)
      ensures HasHead(ks, begin, i + 1, depth, b)
    {
      HasHeadMore(ks, begin, i, depth, b);
    }
  }

  lemma {:induction false} LastIsLargest(labels: seq<Byte>, c: Byte)
    requires Ascending(labels)
    ensures |labels| > 0 && labels[|labels| - 1] < c ==> Ascending(labels + [c])
    ensures labels == [] ==> Ascending(labels + [c])
  {
  }

  /** The collected labels are those of the node that the range stands for. */
  lemma {:induction false} HeadsLabels(ks: Keyset, begin: nat, end: nat, depth: nat, labels: seq<Byte>, value: int)
    requires InRange(ks, begin, end, depth) && begin < end && Heads(ks, begin, end, depth, labels, value)
    ensures var d := RangeDict(ks, begin, end, depth);
      && d != map[] && NoNulStep(d)
      && (forall c: Byte :: c in labels <==> HasLabel(d, c))
      && ([] in d ==> value == d[[]])
  {
    var d := RangeDict(ks, begin, end, depth);
    hide RangeDict, Ascending;
    RangeCovers(ks, begin, end, depth, begin);
    NoNulInRange(ks, begin, end, depth, labels, value);
    forall c: Byte
      ensures c in labels <==> HasLabel(d, c)
    {
      HeadsLabel(ks, begin, end, depth, labels, value, c);
    }
    if [] in d {
      LeafValue(ks, begin, end, depth, labels, value);
    }
  }

  lemma {:induction false} NoNulHeadAt(ks: Keyset, i: nat, depth: nat, k: Key)
    requires ks.Valid() && i < |ks.keys| && HeadOk(ks, i, depth) && depth <= |ks.keys[i]|
    ensures ks.keys[i][depth..] != [0] + k
  {
    if depth < |ks.keys[i]| {
      assert ks.keys[i][depth..][0] == ks.Label(i, depth);
    }
  }

  lemma {:induction false} NoNulInRange(ks: Keyset, begin: nat, end: nat, depth: nat, labels: seq<Byte>, value: int)
    requires InRange(ks, begin, end, depth) && Heads(ks, begin, end, depth, labels, value)
    ensures NoNulStep(RangeDict(ks, begin, end, depth))
  {
    hide RangeDict, Ascending, HasHead;
    var d := RangeDict(ks, begin, end, depth);
    forall k
      ensures k !in After(d, 0)
    {
      AfterMember(d, 0, k);
      if [0] + k in d {
        var i := RangeMember(ks, begin, end, depth, [0] + k);
        NoNulHeadAt(ks, i, depth, k);
        assert false;
      }
    }
    assert After(d, 0) == map[];
  }

  lemma {:induction false} HeadsLabel(ks: Keyset, begin: nat, end: nat, depth: nat, labels: seq<Byte>, value: int,
                                      c: Byte)
    requires InRange(ks, begin, end, depth) && begin < end && Heads(ks, begin, end, depth, labels, value)
    ensures c in labels <==> HasLabel(RangeDict(ks, begin, end, depth), c)
  {
    hide RangeDict, Ascending;
    var d := RangeDict(ks, begin, end, depth);
    if c in labels {
      var i :| begin <= i < end && ks.Label(i, depth) == c;
      assert HeadOk(ks, i, depth);
      RangeCovers(ks, begin, end, depth, i);
      if c != 0 {
        AfterNonempty(d, ks.keys[i][depth..]);
      }
    }
    if HasLabel(d, c) {
      var k: Key := [];
      if c != 0 {
        var t := AfterWitness(d, c);
        k := [c] + t;
      }
      var i := RangeMember(ks, begin, end, depth, k);
      assert ks.Label(i, depth) == c;
    }
  }

  lemma {:induction false} LeafValue(ks: Keyset, begin: nat, end: nat, depth: nat, labels: seq<Byte>, value: int)
    requires InRange(ks, begin, end, depth) && begin < end && Heads(ks, begin, end, depth, labels, value)
    requires [] in RangeDict(ks, begin, end, depth)
    ensures value == RangeDict(ks, begin, end, depth)[[]]
  {
    hide RangeDict, Ascending, HasHead;
    var i := RangeMember(ks, begin, end, depth, []);
    assert ks.Label(i, depth) == 0;
    LabelOrder(ks, begin, end, depth, labels, value, begin, i);
    assert HeadOk(ks, begin, depth);
    assert FirstAt(ks, begin, end, depth, [], begin);
    FirstUnique(ks, begin, end, depth, [], begin, i);
  }

  // Faults found at one depth.

  lemma {:induction false} NulFault(ks: Keyset, begin: nat, end: nat, depth: nat, i: nat)
    requires InRange(ks, begin, end, depth) && begin <= i < end
    requires depth < |ks.keys[i]| && ks.keys[i][depth] == 0
    ensures Justified(ks, begin, end, depth, InvalidNull)
  {
    assert ks.keys[i][depth..][0] == 0;
    assert !NulFreeFrom(ks, i, depth);
  }

  lemma {:induction false} OrderFault(ks: Keyset, begin: nat, end: nat, depth: nat, i: nat)
    requires InRange(ks, begin, end, depth) && begin < i < end
    requires HeadOk(ks, i, depth) && ks.Label(i, depth) < ks.Label(i - 1, depth)
    ensures Justified(ks, begin, end, depth, WrongOrder)
  {
    var s, t := ks.keys[i - 1][depth..], ks.keys[i][depth..];
    assert s[0] == ks.Label(i - 1, depth);
    assert t != [] ==> t[0] == ks.Label(i, depth);
    assert !KeyLeq(s, t);
    assert !InOrder(ks, i - 1, depth);
  }

  lemma {:induction false} TailsOf(ks: Keyset, i: nat, depth: nat)
    requires i < |ks.keys| && depth < |ks.keys[i]|
    ensures ks.keys[i][depth..] == [ks.keys[i][depth]] + ks.keys[i][depth + 1..]
    ensures ks.keys[i][depth] == ks.Label(i, depth)
  {
  }

  lemma {:induction false} NulFreeCons(c: Byte, k: Key)
    requires c != 0
    ensures NulFreeKey([c] + k) <==> NulFreeKey(k)
  {
    assert forall i :: 0 <= i < |k| ==> ([c] + k)[i + 1] == k[i];
  }

  lemma {:induction false} KeyLeqCons(c: Byte, s: Key, t: Key)
    ensures KeyLeq([c] + s, [c] + t) <==> KeyLeq(s, t)
  {
    assert ([c] + s)[1..] == s && ([c] + t)[1..] == t;
  }

  /** Inside a group the first byte plays no part. */
  lemma {:induction false} GroupKey(ks: Keyset, begin: nat, end: nat, depth: nat, c: Byte, i: nat)
    requires InRange(ks, begin, end, depth + 1) && begin <= i < end && c != 0
    requires forall j :: begin <= j < end ==> ks.Label(j, depth) == c
    ensures NulFreeFrom(ks, i, depth) <==> NulFreeFrom(ks, i, depth + 1)
    ensures i + 1 < end ==> (InOrder(ks, i, depth) <==> InOrder(ks, i, depth + 1))
  {
    hide KeyLeq, NulFreeKey;
    TailsOf(ks, i, depth);
    NulFreeCons(c, ks.keys[i][depth + 1..]);
    if i + 1 < end {
      TailsOf(ks, i + 1, depth);
      KeyLeqCons(c, ks.keys[i][depth + 1..], ks.keys[i + 1][depth + 1..]);
    }
  }

  lemma {:induction false} GroupOrderFault(ks: Keyset, begin: nat, end: nat, depth: nat, c: Byte,
                                           begin': nat, end': nat)
    requires InRange(ks, begin, end, depth) && InRange(ks, begin', end', depth + 1) && c != 0
    requires begin <= begin' <= end' <= end
    requires forall j :: begin' <= j < end' ==> ks.Label(j, depth) == c
    requires Justified(ks, begin', end', depth + 1, WrongOrder)
    ensures Justified(ks, begin, end, depth, WrongOrder)
  {
    hide InOrder, NulFreeFrom, Keyset.Label, Keyset.Value;
    var i :| begin' <= i < end' - 1 && !InOrder(ks, i, depth + 1);
    GroupKey(ks, begin', end', depth, c, i);
  }

  /** A fault in a group is a fault in the range. */
  lemma {:induction false} GroupFault(ks: Keyset, begin: nat, end: nat, depth: nat, c: Byte, begin': nat, end': nat,
                                      error: BuildError)
    requires InRange(ks, begin, end, depth) && InRange(ks, begin', end', depth + 1) && c != 0
    requires begin <= begin' <= end' <= end
    requires forall j :: begin' <= j < end' ==> ks.Label(j, depth) == c
    requires Justified(ks, begin', end', depth + 1, error)
    ensures Justified(ks, begin, end, depth, error)
  {
    hide InOrder, NulFreeFrom, Keyset.Label;
    match error
    case InvalidNull =>
      var i :| begin' <= i < end' && !NulFreeFrom(ks, i, depth + 1);
      GroupKey(ks, begin', end', depth, c, i);
    case NegativeValue =>
    case WrongOrder =>
      GroupOrderFault(ks, begin, end, depth, c, begin', end');
    case TooLargeOffset =>
    case ZeroLength =>
  }

  /** Keys that end at this depth are in order. */
  lemma {:induction false} EndsOk(ks: Keyset, begin: nat, end: nat, depth: nat)
    requires InRange(ks, begin, end, depth)
    requires forall j :: begin <= j < end ==> ks.Label(j, depth) == 0 && HeadOk(ks, j, depth)
    ensures RangeOk(ks, begin, end, depth)
  {
    forall j | begin <= j < end
      ensures NulFreeFrom(ks, j, depth) && ks.Value(j) >= 0 && ks.keys[j][depth..] == []
    {
      assert HeadOk(ks, j, depth);
    }
    forall j | begin <= j < end - 1
      ensures InOrder(ks, j, depth)
    {
    }
  }

  /** A faultless group after a faultless part of the range, with a larger byte. */
  lemma {:induction false} AppendGroup(ks: Keyset, begin: nat, end: nat, depth: nat, c: Byte, begin': nat)
    requires InRange(ks, begin, end, depth) && begin <= begin' < end && c != 0
    requires InRange(ks, begin, begin', depth) && InRange(ks, begin', end, depth + 1)
    requires forall j :: begin' <= j < end ==> ks.Label(j, depth) == c
    requires RangeOk(ks, begin, begin', depth) && RangeOk(ks, begin', end, depth + 1)
    requires begin < begin' ==> ks.Label(begin' - 1, depth) < c
    ensures RangeOk(ks, begin, end, depth)
  {
    hide NulFreeFrom, Keyset.Value;
    forall i | begin <= i < end
      ensures NulFreeFrom(ks, i, depth) && ks.Value(i) >= 0
    {
      if begin' <= i {
        GroupKey(ks, begin', end, depth, c, i);
      }
    }
    forall i | begin <= i < end - 1
      ensures InOrder(ks, i, depth)
    {
      if begin' <= i {
        GroupKey(ks, begin', end, depth, c, i);
      } else if i + 1 == begin' {
        TailsOf(ks, begin', depth);
        SmallerHead(ks, i, begin', depth);
      }
    }
  }

  lemma {:induction false} SmallerHead(ks: Keyset, i: nat, j: nat, depth: nat)
    requires i < |ks.keys| && j < |ks.keys| && depth <= |ks.keys[i]| && depth < |ks.keys[j]|
    requires ks.Label(i, depth) < ks.Label(j, depth)
    ensures KeyLeq(ks.keys[i][depth..], ks.keys[j][depth..])
  {
    var s, t := ks.keys[i][depth..], ks.keys[j][depth..];
    assert t[0] == ks.Label(j, depth);
    assert s != [] ==> s[0] == ks.Label(i, depth);
  }

  /** A run of equal bytes between smaller and larger ones is a group. */
  lemma {:induction false} RunIsGroup(ks: Keyset, begin: nat, end: nat, depth: nat, labels: seq<Byte>, value: int,
                                      c: Byte, begin': nat, end': nat)
    requires InRange(ks, begin, end, depth) && Heads(ks, begin, end, depth, labels, value)
    requires begin <= begin' < end' <= end && c != 0
    requires forall j :: begin' <= j < end' ==> ks.Label(j, depth) == c
    requires begin < begin' ==> ks.Label(begin' - 1, depth) < c
    requires end' < end ==> ks.Label(end', depth) != c
    ensures IsGroup(ks, begin, end, depth, c, begin', end')
    ensures end' < end ==> ks.Label(end', depth) > c
    ensures c in labels
    ensures forall b :: b in labels && b > c ==> end' < end && b >= ks.Label(end', depth)
  {
    hide Keyset.Label, Keyset.Value, HasHead, Ascending, NulFreeKey;
    if end' < end {
      LabelOrder(ks, begin, end, depth, labels, value, end' - 1, end');
    }
    forall i | begin <= i < end
      ensures ks.Label(i, depth) == c <==> begin' <= i < end'
      ensures ks.Label(i, depth) > c ==> end' < end && ks.Label(i, depth) >= ks.Label(end', depth)
    {
      if i < begin' {
        LabelOrder(ks, begin, end, depth, labels, value, i, begin' - 1);
      } else if i >= end' {
        LabelOrder(ks, begin, end, depth, labels, value, end', i);
      }
    }
    RunLabels(ks, begin, end, depth, labels, value, c, end');
  }

  lemma {:induction false} RunLabels(ks: Keyset, begin: nat, end: nat, depth: nat, labels: seq<Byte>, value: int,
                                     c: Byte, end': nat)
    requires InRange(ks, begin, end, depth) && Heads(ks, begin, end, depth, labels, value)
    requires begin < end' <= end && ks.Label(end' - 1, depth) == c
    requires forall i :: begin <= i < end && ks.Label(i, depth) > c ==>
      end' < end && ks.Label(i, depth) >= ks.Label(end', depth)
    ensures c in labels
    ensures forall b :: b in labels && b > c ==> end' < end && b >= ks.Label(end', depth)
  {
    hide Keyset.Label, Keyset.Value, Ascending, NulFreeKey, HeadsOrdered;
    forall b | b in labels && b > c
      ensures end' < end && b >= ks.Label(end', depth)
    {
      assert HasHead(ks, begin, end, depth, b);
    }
  }

  /** The child units still to be filled when the labels below `from` are done. */
  ghost function PendingFrom(base: set<nat>, offset: nat, labels: seq<Byte>, from: nat): set<nat> {
    base + ChildNodes(offset, LabelsFrom(labels, from))
  }

  ghost function LabelsFrom(labels: seq<Byte>, from: nat): (r: seq<Byte>)
    ensures forall c :: c in r <==> c in labels && c >= from
  {
    if labels == [] then []
    else (if labels[0] >= from then [labels[0]] else []) + LabelsFrom(labels[1..], from)
  }

  lemma {:induction false} PendingStart(base: set<nat>, offset: nat, labels: seq<Byte>, from: nat)
    requires forall c :: c in labels && c != 0 ==> c >= from
    ensures base + ChildNodes(offset, labels) == PendingFrom(base, offset, labels, from)
  {
    hide LabelsFrom;
    SameChildNodes(offset, labels, LabelsFrom(labels, from));
  }

  lemma {:induction false} SameChildNodes(offset: nat, a: seq<Byte>, b: seq<Byte>)
    requires forall c :: c != 0 ==> (c in a <==> c in b)
    ensures ChildNodes(offset, a) == ChildNodes(offset, b)
  {
    hide Xor;
  }

  /** Finishing the child for label c leaves those for the labels from `next` on. */
  lemma {:induction false} PendingNext(base: set<nat>, offset: nat, labels: seq<Byte>, c: Byte, next: nat)
    requires c in labels && c != 0 && c < next
    requires forall b :: b in labels && b > c ==> b >= next
    requires base !! ChildNodes(offset, labels)
    ensures PendingFrom(base, offset, labels, c) - {Xor(offset, c)} == PendingFrom(base, offset, labels, next)
    ensures Xor(offset, c) in PendingFrom(base, offset, labels, c)
  {
    hide Xor, LabelsFrom;
    var now, later := LabelsFrom(labels, c), LabelsFrom(labels, next);
    assert Xor(offset, c) in ChildNodes(offset, now) && Xor(offset, c) in ChildNodes(offset, labels);
    forall s
      ensures s in PendingFrom(base, offset, labels, c) - {Xor(offset, c)} <==> s in base + ChildNodes(offset, later)
    {
      if s in ChildNodes(offset, now) && s != Xor(offset, c) {
        var b: Byte :| b in now && b != 0 && s == Xor(offset, b);
        assert b in later;
      }
      if s in ChildNodes(offset, later) {
        var b: Byte :| b in later && b != 0 && s == Xor(offset, b);
        XorDistinct(offset, b, c);
        assert b in now;
      }
    }
  }

  lemma {:induction false} PendingEnd(base: set<nat>, offset: nat, labels: seq<Byte>)
    ensures PendingFrom(base, offset, labels, 256) == base
  {
    hide Xor, LabelsFrom;
    assert forall c :: c !in LabelsFrom(labels, 256);
    assert ChildNodes(offset, LabelsFrom(labels, 256)) == {};
  }

  lemma {:induction false} EmptyHeads(ks: Keyset, begin: nat, depth: nat)
    requires InRange(ks, begin, begin, depth)
    ensures Heads(ks, begin, begin, depth, [], -1)
  {
  }

  lemma {:induction false} EndOfKey(ks: Keyset, i: nat, depth: nat)
    requires ks.Valid() && i < |ks.keys| && ks.Label(i, depth) == 0
    requires !(ks.hasLengths && depth < |ks.keys[i]|)
    ensures depth >= |ks.keys[i]|
  {
    assert !ks.hasLengths ==> NulFreeKey(ks.keys[i]);
  }

  lemma {:induction false} ValueFault(ks: Keyset, begin: nat, end: nat, depth: nat, i: nat)
    requires InRange(ks, begin, end, depth) && begin <= i < end && ks.Value(i) < 0
    ensures Justified(ks, begin, end, depth, NegativeValue)
  {
  }

  lemma {:induction false} LastLabel(ks: Keyset, begin: nat, i: nat, depth: nat, labels: seq<Byte>, value: int)
    requires InRange(ks, begin, i, depth) && Heads(ks, begin, i, depth, labels, value)
    ensures labels != [] <==> begin < i
    ensures labels != [] ==> labels[|labels| - 1] == ks.Label(i - 1, depth)
  {
    hide HasHead, HeadsOrdered, Ascending;
  }

  lemma {:induction false} HeadsValueFits(ks: Keyset, begin: nat, end: nat, depth: nat, labels: seq<Byte>, value: int)
    requires InRange(ks, begin, end, depth) && Heads(ks, begin, end, depth, labels, value)
    ensures -1 <= value < 0x8000_0000
  {
    hide HasHead, HeadsOrdered, Ascending;
    if begin < end {
      assert HeadOk(ks, begin, depth);
    }
  }

  lemma {:induction false} HeadsAscend(ks: Keyset, begin: nat, end: nat, depth: nat, labels: seq<Byte>, value: int)
    requires InRange(ks, begin, end, depth) && begin < end && Heads(ks, begin, end, depth, labels, value)
    ensures Ascending(labels) && |labels| > 0
  {
  }

  lemma {:induction false} AlwaysJustified(ks: Keyset, begin: nat, end: nat, depth: nat)
    requires InRange(ks, begin, end, depth)
    ensures Justified(ks, begin, end, depth, TooLargeOffset)
  {
  }

  lemma {:induction false} ArrangedNodes(before: Plan, after: Plan, dicId: nat, offset: nat, d: Dict, labels: seq<Byte>)
    requires Arranged(before, after, dicId, offset, d, labels)
    ensures Extends(before.nodes, after.nodes)
  {
  }

  /** The keys that end here come first, and are in order. */
  lemma {:induction false} EndsFirst(ks: Keyset, begin: nat, end: nat, depth: nat, labels: seq<Byte>, value: int, i: nat)
    requires InRange(ks, begin, end, depth) && Heads(ks, begin, end, depth, labels, value)
    requires begin <= i <= end && forall j :: begin <= j < i ==> ks.Label(j, depth) == 0
    requires i < end ==> ks.Label(i, depth) != 0
    ensures InRange(ks, begin, i, depth) && RangeOk(ks, begin, i, depth)
    ensures forall c :: c in labels && c != 0 ==> c >= if i < end then ks.Label(i, depth) else 256
    ensures begin < i < end ==> ks.Label(i - 1, depth) < ks.Label(i, depth)
  {
    hide Keyset.Label, Keyset.Value, Ascending, NulFreeKey, RangeOk;
    forall j | begin <= j < end
      ensures HeadOk(ks, j, depth)
    {
    }
    hide HeadOk;
    EndsOk(ks, begin, i, depth);
    forall c | c in labels && c != 0
      ensures c >= if i < end then ks.Label(i, depth) else 256
    {
      assert HasHead(ks, begin, end, depth, c);
      var j :| begin <= j < end && ks.Label(j, depth) == c;
      LabelOrder(ks, begin, end, depth, labels, value, i, j);
    }
  }

  lemma {:induction false} EnterGroups(before: Plan, after: Plan, dicId: nat, offset: nat, d: Dict, labels: seq<Byte>,
                                       from: nat)
    requires Arranged(before, after, dicId, offset, d, labels) && dicId in before.nodes
    requires forall c :: c in labels && c != 0 ==> c >= from
    ensures after.pending == PendingFrom(before.pending - {dicId}, offset, labels, from)
    ensures Extends(before.nodes, after.nodes) && Extends(after.nodes, after.nodes)
    ensures from == 256 ==> after.pending == before.pending - {dicId}
  {
    hide ChildNodes, Xor, After;
    PendingStart(before.pending - {dicId}, offset, labels, from);
    PendingEnd(before.pending - {dicId}, offset, labels);
    assert dicId !in ChildNodes(offset, labels);
    assert before.pending + ChildNodes(offset, labels) - {dicId}
        == (before.pending - {dicId}) + ChildNodes(offset, labels);
  }

  lemma {:induction false} ExtendsTrans(a: map<nat, Dict>, b: map<nat, Dict>, c: map<nat, Dict>)
    requires Extends(a, b) && Extends(b, c)
    ensures Extends(a, c)
  {
  }

  lemma {:induction false} GroupChild(before: Plan, arranged: Plan, plan: Plan, dicId: nat, offset: nat, d: Dict,
                                      labels: seq<Byte>, c: Byte)
    requires Arranged(before, arranged, dicId, offset, d, labels) && Extends(arranged.nodes, plan.nodes)
    requires before.pending <= before.nodes.Keys && c in labels && c != 0
    ensures before.pending - {dicId} !! ChildNodes(offset, labels)
    ensures Xor(offset, c) in plan.nodes && plan.nodes[Xor(offset, c)] == After(d, c)
  {
    hide Xor, After, ChildNodes;
  }
}
