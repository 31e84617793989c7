/**
  The 32-bit words of a double array.

  A word packs a label, a has-leaf bit and a relative offset, or, with its top
  bit set, the value of a leaf. An offset below 2^21 is stored as it is; a
  larger one is stored without its low byte.
 */
module UnitWords {
  import opened Bitwise

  const TOP_BIT: nat := 0x8000_0000
  const SMALL_OFFSETS: nat := 0x20_0000
  const MAX_OFFSETS: nat := 0x2000_0000

  // Readers, as the finished array sees a word.

  predicate HasLeaf(u: nat) {
    u / 256 % 2 == 1
  }

  function Value(u: nat): nat {
    u % TOP_BIT
  }

  function Label(u: nat): nat {
    (if u >= TOP_BIT then TOP_BIT else 0) + u % 256
  }

  function Offset(u: nat): nat {
    if u / 512 % 2 == 1 then u / 1024 * 256 else u / 1024
  }

  // Writers, as the builder changes a word.

  function SetHasLeaf(u: nat): nat {
    if HasLeaf(u) then u else u + 256
  }

  function SetValue(v: nat): nat
    requires v < TOP_BIT
  {
    v + TOP_BIT
  }

  function SetLabel(u: nat, c: nat): nat
    requires c < 256
  {
    u - u % 256 + c
  }

  /** The builder throws "too large offset" when this fails. */
  predicate OffsetFits(offset: nat) {
    offset < MAX_OFFSETS
  }

  function SetOffset(u: nat, offset: nat): nat
    requires OffsetFits(offset)
  {
    var kept := (if u >= TOP_BIT then TOP_BIT else 0) + u % 512;
    if offset < SMALL_OFFSETS then Or(kept, offset * 1024)
    else Or(kept, Or(offset * 4, 512))
  }

  /** The two ways an offset can be stored without loss. */
  predicate Encodable(offset: nat) {
    offset < SMALL_OFFSETS || offset % 256 == 0
  }

  /** The builder's own test of a relative offset: UPPER_MASK and LOWER_MASK. */
  predicate MasksAllow(offset: nat) {
    offset % 256 == 0 || offset / SMALL_OFFSETS % 256 == 0
  }

  lemma {:induction false} Quotients(offset: nat, large: nat, leaf: nat, label_: nat)
    requires large < 2 && leaf < 2 && label_ < 256
    ensures var u := 1024 * offset + 512 * large + 256 * leaf + label_;
      && u % 256 == label_ && u / 256 == 4 * offset + 2 * large + leaf
      && u / 512 == 2 * offset + large && u / 1024 == offset
  {
  }

  lemma {:induction false} LastBit(q: nat, r: nat)
    requires r < 2
    ensures (2 * q + r) % 2 == r
  {
  }

  lemma {:induction false} TopBit(u: nat)
    requires u < TOP_BIT
    ensures (TOP_BIT + u) % 256 == u % 256 && (TOP_BIT + u) % TOP_BIT == u
  {
  }

  /**
    The fields of a word: eight bits of label, the has-leaf bit, the bit that says that the
    offset is without its low byte, and 21 bits of offset; a top bit belongs to the label.
   */
  lemma {:induction false} Fields(offset: nat, large: nat, leaf: nat, label_: nat)
    requires offset < 0x20_0000 && large < 2 && leaf < 2 && label_ < 256
    ensures var u := 1024 * offset + 512 * large + 256 * leaf + label_;
      && Label(u) == label_ && (HasLeaf(u) <==> leaf == 1)
      && Offset(u) == (if large == 1 then 256 * offset else offset)
      && Label(TOP_BIT + u) == TOP_BIT + label_ && Value(TOP_BIT + u) == u
  {
    Quotients(offset, large, leaf, label_);
    LastBit(2 * offset + large, leaf);
    LastBit(offset, large);
    TopBit(1024 * offset + 512 * large + 256 * leaf + label_);
  }

  lemma {:induction false} Pow2Values()
    ensures Pow2(9) == 512 && Pow2(10) == 1024
  {
    assert Pow2(4) == 16;
    assert Pow2(8) == 256;
  }

  lemma {:induction false} JoinTen(high: nat, low: nat)
    ensures Join(10, high, low) == 1024 * high + low
  {
    Pow2Values();
  }

  lemma {:induction false} JoinNine(high: nat, low: nat)
    ensures Join(9, high, low) == 512 * high + low
  {
    Pow2Values();
  }

  lemma {:induction false} SmallPacked(kept: nat, offset: nat)
    requires kept < 512
    ensures Or(kept, offset * 1024) == 1024 * offset + kept
  {
    hide Or;
    hide Join;
    Pow2Values();
    OrJoined(10, 0, kept, offset, 0);
    OrZero(offset);
    OrZero(kept);
    JoinTen(0, kept);
    JoinTen(offset, 0);
    JoinTen(offset, kept);
  }

  lemma {:induction false} LargePacked(kept: nat, high: nat, low: nat)
    requires kept < 512 && low < 256
    ensures var ten := Or(kept, Or(low * 4, 512));
      && 512 <= ten < 1024
      && Or(kept, Or((256 * high + low) * 4, 512)) == 1024 * high + ten
  {
    hide Or;
    hide Join;
    Pow2Values();
    OrJoined(10, high, low * 4, 0, 512);
    OrZero(high);
    OrJoined(10, 0, kept, high, Or(low * 4, 512));
    JoinTen(high, low * 4);
    JoinTen(0, 512);
    JoinTen(high, Or(low * 4, 512));
    JoinTen(0, kept);
    JoinTen(high, Or(kept, Or(low * 4, 512)));
    OrAtLeast(low * 4, 512);
    OrAtLeast(kept, Or(low * 4, 512));
  }

  lemma {:induction false} AlignedLowDigits(kept: nat)
    requires kept < 512
    ensures Or(kept, Or(0, 512)) == 512 + kept
  {
    hide Or;
    hide Join;
    Pow2Values();
    OrZero(512);
    JoinNine(0, kept);
    JoinNine(1, 0);
    JoinNine(1, kept);
    OrJoined(9, 0, kept, 1, 0);
    OrZero(1);
    OrZero(kept);
  }

  /** Reading a word whose low ten digits are `low`. */
  lemma {:induction false} ReadPacked(high: nat, low: nat)
    requires low < 1024
    ensures var w := 1024 * high + low;
      && Offset(w) == (if low >= 512 then 256 * high else high)
      && w % 256 == low % 256
      && HasLeaf(w) == (low / 256 % 2 == 1)
  {
    var w, a, b := 1024 * high + low, low / 512, low % 512;
    var c, d := low / 256, low % 256;
    Quotient1024(high, low);
    Quotient512(2 * high + a, b);
    Quotient256(4 * high + c, d);
    assert low == 512 * a + b && low == 256 * c + d;
    assert w == 512 * (2 * high + a) + b && w == 256 * (4 * high + c) + d;
    SameParity(high, a);
    SameParity(2 * high, c);
  }

  lemma {:induction false} Quotient1024(q: nat, r: nat)
    requires r < 1024
    ensures (1024 * q + r) / 1024 == q
  {
  }

  lemma {:induction false} Quotient512(q: nat, r: nat)
    requires r < 512
    ensures (512 * q + r) / 512 == q
  {
  }

  lemma {:induction false} Quotient256(q: nat, r: nat)
    requires r < 256
    ensures (256 * q + r) / 256 == q && (256 * q + r) % 256 == r
  {
  }

  lemma {:induction false} SameParity(q: nat, r: nat)
    ensures (2 * q + r) % 2 == r % 2
  {
  }

  /**
    Packing an offset into an internal word is lossless exactly for the offsets
    that are below 2^21 or have a zero low byte.
   */
  lemma {:induction false} PackOffset(u: nat, offset: nat)
    requires u < TOP_BIT && OffsetFits(offset)
    ensures Encodable(offset) <==>
      var w := SetOffset(u, offset);
      Offset(w) == offset && w % 256 == u % 256 && HasLeaf(w) == HasLeaf(u) && w < TOP_BIT
  {
    var kept := u % 512;
    KeptDigits(u);
    if offset < SMALL_OFFSETS {
      PackSmall(kept, offset);
    } else {
      PackLarge(kept, offset);
    }
    hide Or, Offset;
  }

  lemma {:induction false} KeptDigits(u: nat)
    ensures u % 512 % 256 == u % 256
    ensures HasLeaf(u) == (u % 512 / 256 % 2 == 1)
  {
    var q, r := u / 512, u % 512;
    var a, b := r / 256, r % 256;
    Quotient256(2 * q + a, b);
    assert u == 256 * (2 * q + a) + b;
    SameParity(q, a);
  }

  lemma {:induction false} PackSmall(kept: nat, offset: nat)
    requires kept < 512 && offset < SMALL_OFFSETS
    ensures var w := Or(kept, offset * 1024);
      Offset(w) == offset && w % 256 == kept % 256 && HasLeaf(w) == (kept / 256 % 2 == 1) && w < TOP_BIT
  {
    SmallPacked(kept, offset);
    ReadPacked(offset, kept);
    hide Or, Offset, HasLeaf;
  }

  /** An offset of 2^21 or more loses its low byte, and with a low byte of zero nothing else changes. */
  lemma {:induction false} PackLarge(kept: nat, offset: nat)
    requires kept < 512 && SMALL_OFFSETS <= offset < MAX_OFFSETS
    ensures var w := Or(kept, Or(offset * 4, 512));
      && Offset(w) == offset / 256 * 256
      && (offset % 256 == 0 ==> w % 256 == kept % 256 && HasLeaf(w) == (kept / 256 % 2 == 1) && w < TOP_BIT)
  {
    hide Or, Offset, HasLeaf;
    var high, low := offset / 256, offset % 256;
    assert offset == 256 * high + low;
    LargePacked(kept, high, low);
    var ten := Or(kept, Or(low * 4, 512));
    ReadPacked(high, ten);
    if low == 0 {
      AlignedLowDigits(kept);
      PackedLow(kept);
    }
  }

  lemma {:induction false} PackedLow(kept: nat)
    requires kept < 512
    ensures (512 + kept) % 256 == kept % 256 && ((512 + kept) / 256) % 2 == kept / 256
  {
  }

  /** The builder's mask test accepts exactly the encodable offsets among those that fit. */
  lemma {:induction false} MasksMatchPacking(offset: nat)
    requires OffsetFits(offset)
    ensures MasksAllow(offset) <==> Encodable(offset)
  {
  }

  /** The label and leaf writers touch only their own digits. */
  lemma {:induction false} WriteLabel(u: nat, c: nat)
    requires u < TOP_BIT && c < 256
    ensures var w := SetLabel(u, c);
      Label(w) == c && w < TOP_BIT && HasLeaf(w) == HasLeaf(u) && Offset(w) == Offset(u)
  {
    var w, q := SetLabel(u, c), u / 256;
    Quotient256(q, u % 256);
    Quotient256(q, c);
    assert u == 256 * q + u % 256 && w == 256 * q + c;
    HighDigits(q, u % 256);
    HighDigits(q, c);
    hide SetLabel;
  }

  /** The digits above the low byte do not depend on it. */
  lemma {:induction false} HighDigits(q: nat, r: nat)
    requires r < 256
    ensures (256 * q + r) / 512 == q / 2 && (256 * q + r) / 1024 == q / 4
  {
    var a, b := q / 2, q % 2;
    Quotient512(a, 256 * b + r);
    var c, d := q / 4, q % 4;
    Quotient1024(c, 256 * d + r);
  }

  lemma {:induction false} WriteHasLeaf(u: nat)
    requires u < TOP_BIT
    ensures var w := SetHasLeaf(u);
      HasLeaf(w) && w < TOP_BIT && Label(w) == Label(u) && Offset(w) == Offset(u)
  {
    if !HasLeaf(u) {
      ClearLeafDigits(u);
      RaiseLeafBit(u / 512, u % 256);
    }
  }

  lemma {:induction false} ClearLeafDigits(u: nat)
    requires !HasLeaf(u)
    ensures u == 512 * (u / 512) + u % 256
  {
  }

  lemma {:induction false} RaiseLeafBit(high: nat, low: nat)
    requires low < 256
    ensures var u := 512 * high + low;
      && HasLeaf(u + 256) && Offset(u + 256) == Offset(u) && (u + 256) % 256 == u % 256
      && (u < TOP_BIT ==> u + 256 < TOP_BIT)
  {
    var h, a := high / 2, high % 2;
    assert 512 * high + low == 1024 * h + (512 * a + low);
    ReadPacked(h, 512 * a + low);
    ReadPacked(h, 512 * a + low + 256);
    LeafDigit(a, low);
    hide Offset, HasLeaf;
  }

  lemma {:induction false} LeafDigit(a: nat, low: nat)
    requires a < 2 && low < 256
    ensures (512 * a + low + 256) / 256 % 2 == 1
    ensures (512 * a + low + 256) % 256 == (512 * a + low) % 256
    ensures 512 * a + low >= 512 <==> 512 * a + low + 256 >= 512 + 256
    ensures a == 0 ==> 512 * a + low + 256 < 512
  {
  }

  lemma {:induction false} WriteValue(v: nat)
    requires v < TOP_BIT
    ensures Value(SetValue(v)) == v && Label(SetValue(v)) >= TOP_BIT
  {
  }
}
