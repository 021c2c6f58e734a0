/**
 * Acceptance-filter synthesis: the `watchFor` family turns "let this
 * identifier / this identifier under this mask / this range of
 * identifiers through" into the (id, mask, extended) triple that is
 * programmed into the controller. Identifiers and masks are 32-bit
 * words; the bitwise operators are those of module Bits.
 */
module Filters {
  import opened Wrappers
  import opened Bits
  import opened CanTypes

  /** All 11 bits of a standard identifier. */
  const STANDARD_MASK: uint32 := 0x7FF

  /** All 29 bits of an extended identifier. */
  const EXTENDED_MASK: uint32 := 0x1FFF_FFFF

  /** An acceptance filter: mask bits that are 0 do not care about the identifier's bit. */
  datatype Filter = Filter(id: uint32, mask: uint32, extended: bool)

  /** `x & mask == y & mask`. */
  predicate Agree(x: nat, y: nat, mask: nat)
  {
    And(x, mask) == And(y, mask)
  }

  lemma AgreeBit(x: nat, y: nat, mask: nat, k: nat)
    requires Agree(x, y, mask) && Bit(mask, k)
    ensures Bit(x, k) == Bit(y, k)
  {
    AndBit(x, mask, k);
    AndBit(y, mask, k);
  }

  lemma AgreeFromBits(x: nat, y: nat, mask: nat)
    requires forall k: nat :: Bit(mask, k) ==> Bit(x, k) == Bit(y, k)
    ensures Agree(x, y, mask)
  {
    forall k: nat
      ensures Bit(And(x, mask), k) == Bit(And(y, mask), k)
    {
      AndBit(x, mask, k);
      AndBit(y, mask, k);
    }
    BitsEqual(And(x, mask), And(y, mask));
  }

  /** `ident` agrees with the filter's id on every bit the mask selects. */
  predicate MaskMatches(f: Filter, ident: nat)
  {
    Agree(ident, f.id, f.mask)
  }

  /** A mailbox programmed with `f` lets through a frame with this identifier and framing. */
  predicate Admits(f: Filter, ident: nat, extended: bool)
  {
    MaskMatches(f, ident) && extended == f.extended
  }

  /** The identifier bits of a framing, as a mask: 11 for standard frames, 29 for extended ones. */
  function IdWidth(extended: bool): uint32
  {
    if extended then EXTENDED_MASK else STANDARD_MASK
  }

  /** The number of identifier bits of a framing. */
  function IdBits(extended: bool): nat
  {
    if extended then 29 else 11
  }

  lemma IdWidthBit(extended: bool, k: nat)
    ensures Bit(IdWidth(extended), k) == (k < IdBits(extended))
    ensures IdWidth(extended) < Pow2(IdBits(extended))
  {
    Pow2Values();
    OnesBit(IdBits(extended), k);
  }

  /** Two identifiers that fit in `extended`'s width agree on all its bits only when equal. */
  lemma AgreeOnWidth(x: nat, y: nat, extended: bool)
    requires x <= IdWidth(extended) && y <= IdWidth(extended)
    ensures Agree(x, y, IdWidth(extended)) <==> x == y
  {
    if Agree(x, y, IdWidth(extended)) {
      forall k: nat
        ensures Bit(x, k) == Bit(y, k)
      {
        IdWidthBit(extended, k);
        if k < IdBits(extended) {
          AgreeBit(x, y, IdWidth(extended), k);
        } else {
          HighBitClear(x, IdBits(extended), k);
          HighBitClear(y, IdBits(extended), k);
        }
      }
      BitsEqual(x, y);
    }
  }

  /** `watchFor()`: promiscuous mode, a standard filter whose mask cares about no bit. */
  function Promiscuous(): (f: Filter)
    ensures !f.extended
    ensures forall ident: nat :: MaskMatches(f, ident)
  {
    assert forall ident: nat :: And(ident, 0) == 0 by {
      forall ident: nat {
        AndZero(ident);
      }
    }
    Filter(0, 0, false)
  }

  /**
   * `watchFor(id)`: framing chosen from the magnitude of `id`, mask over all
   * identifier bits of that framing.
   */
  function ForId(id: uint32): (f: Filter)
    ensures f.id == id
    ensures f.extended <==> id > STANDARD_MASK
    ensures f.mask == IdWidth(f.extended)
  {
    if id <= 0x7FF then Filter(id, 0x7FF, false) else Filter(id, 0x1FFF_FFFF, true)
  }

  /** Among identifiers that fit their framing, the single-ID filter lets exactly `id` through. */
  lemma ForIdAdmitsExactly(id: uint32, ident: uint32, extended: bool)
    requires id <= EXTENDED_MASK && ident <= IdWidth(extended)
    ensures Admits(ForId(id), ident, extended) <==> ident == id && extended == (id > STANDARD_MASK)
  {
    if extended == (id > STANDARD_MASK) {
      AgreeOnWidth(ident, id, extended);
    }
  }

  /** `watchFor(id, mask)`: the caller's mask unchanged, framing chosen from `id`. */
  function ForIdMask(id: uint32, mask: uint32): (f: Filter)
    ensures f.id == id && f.mask == mask
    ensures f.extended <==> id > STANDARD_MASK
  {
    if id <= 0x7FF then Filter(id, mask, false) else Filter(id, mask, true)
  }

  // ---------------------------------------------------------------------
  // watchForRange

  function Lower(a: uint32, b: uint32): uint32
  {
    if a > b then b else a
  }

  function Upper(a: uint32, b: uint32): uint32
  {
    if a > b then a else b
  }

  /** `x` lies between the two bounds, whichever order they come in. */
  predicate InRange(a: uint32, b: uint32, x: nat)
  {
    Lower(a, b) <= x <= Upper(a, b)
  }

  /** `id` once the scan starting at `lo` has visited `lo .. c-1`. */
  function ScannedId(lo: uint32, c: int): (r: uint32)
    requires lo <= c <= 0x1_0000_0000
    ensures r <= lo
    decreases c - lo
  {
    if c == lo then lo
    else
      var prev := ScannedId(lo, c - 1);
      AndAtMost(prev, c - 1);
      And(prev, c - 1)
  }

  /** One update of the scan's mask: `mask & (~(lo ^ c) & 0x1FFFFFFF)`. */
  function MaskStep(mask: uint32, lo: uint32, c: uint32): (r: uint32)
    ensures r <= mask
  {
    Xor32(lo, c);
    AndAtMost(mask, And(Not32(Xor(lo, c)), EXTENDED_MASK));
    And(mask, And(Not32(Xor(lo, c)), EXTENDED_MASK))
  }

  lemma MaskStepBit(mask: uint32, lo: uint32, c: uint32, k: nat)
    ensures Bit(MaskStep(mask, lo, c), k) == (Bit(mask, k) && k < 29 && Bit(lo, k) == Bit(c, k))
  {
    Xor32(lo, c);
    AndBit(mask, And(Not32(Xor(lo, c)), EXTENDED_MASK), k);
    AndBit(Not32(Xor(lo, c)), EXTENDED_MASK, k);
    Not32Bit(Xor(lo, c), k);
    XorBit(lo, c, k);
    IdWidthBit(true, k);
  }

  /** Either framing's width has no bit at 29 or above. */
  lemma WidthBit(width: uint32, k: nat)
    requires width == STANDARD_MASK || width == EXTENDED_MASK
    ensures Bit(width, k) ==> k < 29
  {
    IdWidthBit(width == EXTENDED_MASK, k);
  }

  /** `mask`, starting at `width`, once the scan from `lo` has visited `lo .. c-1`. */
  function ScannedMask(lo: uint32, width: uint32, c: int): (r: uint32)
    requires lo <= c <= 0x1_0000_0000
    ensures r <= width
    decreases c - lo
  {
    if c == lo then width else MaskStep(ScannedMask(lo, width, c - 1), lo, c - 1)
  }

  lemma ScanMaskStepBit(lo: uint32, width: uint32, c: int, k: nat)
    requires lo < c <= 0x1_0000_0000
    ensures Bit(ScannedMask(lo, width, c), k) ==
      (Bit(ScannedMask(lo, width, c - 1), k) && k < 29 && Bit(lo, k) == Bit(c - 1, k))
  {
    MaskStepBit(ScannedMask(lo, width, c - 1), lo, c - 1, k);
  }

  /** Bit `k` is set in every identifier `lo .. c-1`. */
  predicate AlwaysSet(lo: nat, c: int, k: nat)
  {
    forall x: nat :: lo <= x < c ==> Bit(x, k)
  }

  /** Bit `k` of every identifier `lo .. c-1` is that of `lo`. */
  predicate Steady(lo: nat, c: int, k: nat)
  {
    forall x: nat :: lo <= x < c ==> Bit(x, k) == Bit(lo, k)
  }

  lemma AlwaysSetSplit(lo: nat, c: int, k: nat)
    requires lo < c
    ensures AlwaysSet(lo, c, k) == (AlwaysSet(lo, c - 1, k) && Bit(c - 1, k))
  {
  }

  lemma SteadySplit(lo: nat, c: int, k: nat)
    requires lo < c
    ensures Steady(lo, c, k) == (Steady(lo, c - 1, k) && Bit(c - 1, k) == Bit(lo, k))
  {
  }

  /** The scan keeps a bit of `id` exactly when every visited identifier has it. */
  lemma {:induction false} ScanIdBit(lo: uint32, c: int, k: nat)
    requires lo <= c <= 0x1_0000_0000
    ensures Bit(ScannedId(lo, c), k) == (Bit(lo, k) && AlwaysSet(lo, c, k))
    decreases c - lo
  {
    if c > lo {
      ScanIdBit(lo, c - 1, k);
      AndBit(ScannedId(lo, c - 1), c - 1, k);
      AlwaysSetSplit(lo, c, k);
    }
  }

  /** The scanned id keeps no bit that `lo` lacks. */
  lemma ScannedIdWithin(lo: uint32, c: int)
    requires lo <= c <= 0x1_0000_0000
    ensures And(ScannedId(lo, c), lo) == ScannedId(lo, c)
  {
    forall k: nat
      ensures Bit(And(ScannedId(lo, c), lo), k) == Bit(ScannedId(lo, c), k)
    {
      AndBit(ScannedId(lo, c), lo, k);
      ScanIdBit(lo, c, k);
    }
    BitsEqual(And(ScannedId(lo, c), lo), ScannedId(lo, c));
  }

  /**
   * The scan keeps a bit of `mask` exactly when it is a bit of the width
   * and no visited identifier differs from `lo` there.
   */
  lemma {:induction false} ScanMaskBit(lo: uint32, width: uint32, c: int, k: nat)
    requires lo <= c <= 0x1_0000_0000
    requires width == STANDARD_MASK || width == EXTENDED_MASK
    ensures Bit(ScannedMask(lo, width, c), k) == (Bit(width, k) && Steady(lo, c, k))
    decreases c - lo
  {
    if c > lo {
      ScanMaskBit(lo, width, c - 1, k);
      ScanMaskStepBit(lo, width, c, k);
      WidthBit(width, k);
      SteadySplit(lo, c, k);
    }
  }

  /** The id `watchForRange(a, b)` computes. */
  function RangeId(a: uint32, b: uint32): (id: uint32)
    ensures id <= Lower(a, b)
    ensures And(id, Lower(a, b)) == id
  {
    ScannedIdWithin(Lower(a, b), Upper(a, b) as int + 1);
    ScannedId(Lower(a, b), Upper(a, b) as int + 1)
  }

  /** The width the range mask starts from: chosen from the upper bound. */
  function RangeWidth(a: uint32, b: uint32): uint32
  {
    IdWidth(Upper(a, b) > STANDARD_MASK)
  }

  /** The mask `watchForRange(a, b)` computes. */
  function RangeMask(a: uint32, b: uint32): (mask: uint32)
    ensures mask <= RangeWidth(a, b)
  {
    ScannedMask(Lower(a, b), RangeWidth(a, b), Upper(a, b) as int + 1)
  }

  /** The filter `watchForRange(a, b)` hands on: `watchFor(RangeId, RangeMask)`. */
  function RangeFilter(a: uint32, b: uint32): (f: Filter)
    ensures f.id == RangeId(a, b) && f.mask == RangeMask(a, b)
    ensures f.extended <==> RangeId(a, b) > STANDARD_MASK
  {
    ForIdMask(RangeId(a, b), RangeMask(a, b))
  }

  /** A bit of the range id is set exactly when it is set in every identifier of the range. */
  lemma RangeIdBit(a: uint32, b: uint32, k: nat)
    ensures Bit(RangeId(a, b), k) <==> forall x: nat :: InRange(a, b, x) ==> Bit(x, k)
  {
    var lo, hi := Lower(a, b), Upper(a, b);
    ScanIdBit(lo, hi as int + 1, k);
    assert Bit(RangeId(a, b), k) == (Bit(lo, k) && AlwaysSet(lo, hi as int + 1, k));
    assert InRange(a, b, lo);
    if forall x: nat :: InRange(a, b, x) ==> Bit(x, k) {
      forall x: nat | lo <= x < hi as int + 1
        ensures Bit(x, k)
      {
        assert InRange(a, b, x);
      }
    }
  }

  /**
   * A bit of the range mask is set exactly when it is an identifier bit of
   * the upper bound's framing and no identifier of the range differs from
   * the lower bound there.
   */
  lemma RangeMaskBit(a: uint32, b: uint32, k: nat)
    ensures Bit(RangeMask(a, b), k) <==>
      k < IdBits(Upper(a, b) > STANDARD_MASK) &&
      forall x: nat :: InRange(a, b, x) ==> Bit(x, k) == Bit(Lower(a, b), k)
  {
    var lo, hi := Lower(a, b), Upper(a, b);
    ScanMaskBit(lo, RangeWidth(a, b), hi as int + 1, k);
    IdWidthBit(hi > STANDARD_MASK, k);
    assert Bit(RangeMask(a, b), k) == (Bit(RangeWidth(a, b), k) && Steady(lo, hi as int + 1, k));
    if forall x: nat :: InRange(a, b, x) ==> Bit(x, k) == Bit(lo, k) {
      forall x: nat | lo <= x < hi as int + 1
        ensures Bit(x, k) == Bit(lo, k)
      {
        assert InRange(a, b, x);
      }
    }
  }

  /**
   * Every identifier of the range, both bounds included, matches the
   * programmed id under the programmed mask. Whether its frame kind agrees
   * with the filter's framing is a separate matter (see
   * `RangeFilterRefusesExtendedRange`).
   */
  lemma RangeFilterCovers(a: uint32, b: uint32, x: nat)
    requires InRange(a, b, x)
    ensures MaskMatches(RangeFilter(a, b), x)
  {
    var f := RangeFilter(a, b);
    forall k: nat | Bit(f.mask, k)
      ensures Bit(x, k) == Bit(f.id, k)
    {
      RangeMaskBit(a, b, k);
      RangeIdBit(a, b, k);
      if Bit(Lower(a, b), k) {
        assert forall y: nat :: InRange(a, b, y) ==> Bit(y, k);
      } else {
        assert InRange(a, b, Lower(a, b));
      }
    }
    AgreeFromBits(x, f.id, f.mask);
  }

  /** The range id and mask agree with every identifier of the range. */
  lemma RangeAgreesAll(a: uint32, b: uint32)
    ensures forall x: nat :: InRange(a, b, x) ==> Agree(x, RangeId(a, b), RangeMask(a, b))
  {
    forall x: nat | InRange(a, b, x)
      ensures Agree(x, RangeId(a, b), RangeMask(a, b))
    {
      RangeFilterCovers(a, b, x);
    }
  }

  /**
   * The range filter stays within the framing chosen from the upper bound
   * (`mask & width == mask`), and its id has no 1-bit the lower bound lacks
   * (`id & idLo == id`).
   */
  lemma RangeFilterBounds(a: uint32, b: uint32)
    ensures And(RangeFilter(a, b).mask, RangeWidth(a, b)) == RangeFilter(a, b).mask
    ensures And(RangeFilter(a, b).id, Lower(a, b)) == RangeFilter(a, b).id
  {
    var f := RangeFilter(a, b);
    forall k: nat
      ensures Bit(And(f.mask, RangeWidth(a, b)), k) == Bit(f.mask, k)
      ensures Bit(And(f.id, Lower(a, b)), k) == Bit(f.id, k)
    {
      AndBit(f.mask, RangeWidth(a, b), k);
      AndBit(f.id, Lower(a, b), k);
      ScanIdBit(Lower(a, b), Upper(a, b) as int + 1, k);
      ScanMaskBit(Lower(a, b), RangeWidth(a, b), Upper(a, b) as int + 1, k);
    }
    BitsEqual(And(f.mask, RangeWidth(a, b)), f.mask);
    BitsEqual(And(f.id, Lower(a, b)), f.id);
  }

  /** The bounds are put in order before the scan, so their order does not matter. */
  lemma RangeFilterSymmetric(a: uint32, b: uint32)
    ensures RangeFilter(a, b) == RangeFilter(b, a)
  {
  }

  /** Scanning the single identifier `x` leaves `id` at `x`. */
  lemma ScanSingleId(x: uint32)
    ensures ScannedId(x, x as int + 1) == x
  {
    forall k: nat
      ensures Bit(ScannedId(x, x as int + 1), k) == Bit(x, k)
    {
      ScanIdBit(x, x as int + 1, k);
    }
    BitsEqual(ScannedId(x, x as int + 1), x);
  }

  /** Scanning the single identifier `x` leaves the mask at its width. */
  lemma ScanSingleMask(x: uint32, width: uint32)
    requires width == STANDARD_MASK || width == EXTENDED_MASK
    ensures ScannedMask(x, width, x as int + 1) == width
  {
    forall k: nat
      ensures Bit(ScannedMask(x, width, x as int + 1), k) == Bit(width, k)
    {
      ScanMaskStepBit(x, width, x as int + 1, k);
      WidthBit(width, k);
    }
    BitsEqual(ScannedMask(x, width, x as int + 1), width);
  }

  /** A one-identifier range gives the single-ID filter. */
  lemma RangeFilterSingle(x: uint32)
    ensures RangeFilter(x, x) == ForId(x)
  {
    ScanSingleId(x);
    ScanSingleMask(x, RangeWidth(x, x));
    assert RangeId(x, x) == x;
    assert RangeMask(x, x) == IdWidth(x > STANDARD_MASK);
  }

  /** Bits of 0x7FF and 0x800, the two identifiers of the example range. */
  lemma StandardLimitBits(k: nat)
    ensures Bit(0x7FF, k) == (k < 11)
    ensures Bit(0x800, k) == (k == 11)
  {
    Pow2Values();
    OnesBit(11, k);
    Pow2Bit(11, k);
  }

  lemma UpperEighteenValue()
    ensures 0x1FFF_F000 == Pow2(12) * Ones(17)
  {
    OnesIsPow2Less1(17);
    assert Pow2(4) == 16;
    assert Pow2(8) == 256;
    assert Pow2(12) == 0x1000;
    assert Pow2(17) == 0x2_0000;
  }

  /** 0x1FFFF000 has exactly bits 12 to 28 set. */
  lemma UpperEighteenBits(k: nat)
    ensures Bit(0x1FFF_F000, k) == (12 <= k < 29)
  {
    UpperEighteenValue();
    ShiftBit(12, Ones(17), k);
    if k >= 12 {
      OnesBit(17, k - 12);
    }
  }

  /** The id of the range 0x7FF..0x800 is 0: the two share no bit. */
  lemma AcrossStandardLimitId()
    ensures RangeId(0x7FF, 0x800) == 0
  {
    forall k: nat
      ensures Bit(RangeId(0x7FF, 0x800), k) == Bit(0, k)
    {
      ScanIdBit(0x7FF, 0x801, k);
      StandardLimitBits(k);
      ZeroBit(k);
    }
    BitsEqual(RangeId(0x7FF, 0x800), 0);
  }

  /** The mask of the range 0x7FF..0x800 keeps only bits 12 to 28. */
  lemma AcrossStandardLimitMask()
    ensures RangeMask(0x7FF, 0x800) == 0x1FFF_F000
  {
    forall k: nat
      ensures Bit(RangeMask(0x7FF, 0x800), k) == Bit(0x1FFF_F000, k)
    {
      ScanMaskBit(0x7FF, EXTENDED_MASK, 0x801, k);
      SteadySplit(0x7FF, 0x801, k);
      SteadySplit(0x7FF, 0x800, k);
      IdWidthBit(true, k);
      StandardLimitBits(k);
      UpperEighteenBits(k);
    }
    BitsEqual(RangeMask(0x7FF, 0x800), 0x1FFF_F000);
  }

  /**
   * Framing follows the ANDed id, not the upper bound: the range
   * 0x7FF..0x800 reaches into extended identifiers, yet the filter is a
   * standard one (id 0 under a 29-bit-wide mask), and it also lets
   * identifier 0 through, which lies outside the range.
   */
  lemma RangeFilterAcrossStandardLimit()
    ensures RangeFilter(0x7FF, 0x800) == Filter(0, 0x1FFF_F000, false)
    ensures Admits(RangeFilter(0x7FF, 0x800), 0, false)
  {
    AcrossStandardLimitId();
    AcrossStandardLimitMask();
  }

  /** 0xFFF is bits 0 to 11 and 0x1000 is bit 12. */
  lemma AboveStandardLimitValues()
    ensures Ones(12) == 0xFFF && Pow2(12) == 0x1000
  {
    OnesIsPow2Less1(12);
    assert Pow2(4) == 16;
    assert Pow2(8) == 256;
  }

  /** The id of the range 0xFFF..0x1000 is 0: the two share no bit. */
  lemma AboveStandardLimitId()
    ensures RangeId(0xFFF, 0x1000) == 0
  {
    forall k: nat
      ensures Bit(RangeId(0xFFF, 0x1000), k) == Bit(0, k)
    {
      ScanIdBit(0xFFF, 0x1001, k);
      AboveStandardLimitValues();
      OnesBit(12, k);
      Pow2Bit(12, k);
      ZeroBit(k);
    }
    BitsEqual(RangeId(0xFFF, 0x1000), 0);
  }

  /**
   * Framing taken from the ANDed id refuses a range of extended
   * identifiers: both 0xFFF and 0x1000 exceed 0x7FF, yet the filter of the
   * range 0xFFF..0x1000 is a standard one, so neither passes as the
   * extended frame it is.
   */
  lemma RangeFilterRefusesExtendedRange()
    ensures !RangeFilter(0xFFF, 0x1000).extended
    ensures !Admits(RangeFilter(0xFFF, 0x1000), 0xFFF, true)
    ensures !Admits(RangeFilter(0xFFF, 0x1000), 0x1000, true)
  {
    AboveStandardLimitId();
  }

  /**
   * The filter `watchForRange` evidently means to program: the scan's id
   * and mask, with the framing chosen from the upper bound as the width is.
   */
  function IntendedRangeFilter(a: uint32, b: uint32): (f: Filter)
    ensures f.id == RangeId(a, b) && f.mask == RangeMask(a, b)
    ensures f.extended <==> Upper(a, b) > STANDARD_MASK
  {
    Filter(RangeId(a, b), RangeMask(a, b), Upper(a, b) > STANDARD_MASK)
  }

  /**
   * When both bounds lie on the same side of 0x7FF, every identifier of the
   * range passes the intended filter with the framing its magnitude calls for.
   */
  lemma IntendedRangeFilterAdmits(a: uint32, b: uint32, x: nat)
    requires InRange(a, b, x)
    requires Lower(a, b) > STANDARD_MASK || Upper(a, b) <= STANDARD_MASK
    ensures Admits(IntendedRangeFilter(a, b), x, x > STANDARD_MASK)
  {
    RangeFilterCovers(a, b, x);
  }

  lemma ScanStep(lo: uint32, width: uint32, c: int)
    requires lo <= c < 0x1_0000_0000
    ensures And(ScannedId(lo, c), c) <= ScannedId(lo, c)
    ensures ScannedId(lo, c + 1) == And(ScannedId(lo, c), c)
    ensures ScannedMask(lo, width, c + 1) == MaskStep(ScannedMask(lo, width, c), lo, c)
  {
    AndAtMost(ScannedId(lo, c), c);
  }

  /**
   * The scan of `watchForRange`: put the bounds in order, then visit every
   * identifier of the range, ANDing it into `id` and clearing from `mask`
   * every bit where it differs from the lower bound.
   */
  method ScanRange(idLo: uint32, idHi: uint32) returns (id: uint32, mask: uint32)
    ensures id == RangeId(idLo, idHi) && mask == RangeMask(idLo, idHi)
  {
    var lo, hi := idLo, idHi;
    if lo > hi {
      lo, hi := hi, lo;
    }
    id := lo;
    mask := if hi <= 0x7FF then 0x7FF else 0x1FFF_FFFF;
    ghost var width := mask;
    assert lo == Lower(idLo, idHi) && hi == Upper(idLo, idHi);
    assert width == RangeWidth(idLo, idHi);
    for c: int := lo to hi as int + 1
      invariant id == ScannedId(lo, c)
      invariant mask == ScannedMask(lo, width, c)
    {
      ScanStep(lo, width, c);
      id := And(id, c);
      mask := MaskStep(mask, lo, c);
    }
  }

  // ---------------------------------------------------------------------
  // The scan as written, with a 32-bit loop counter.

  /**
   * The loop `for (uint32_t c = id1; c <= id2; c++)` of the source, with
   * `id1`/`id2` read as `lo`/`hi`, run for at most `fuel` iterations from
   * counter `c`: the final (id, mask) when the guard fails in time, None
   * when it still holds after them.
   * The counter is a 32-bit word, so `c++` wraps from 0xFFFFFFFF to 0.
   */
  function ScanAsWritten(lo: uint32, hi: uint32, c: uint32, id: uint32, mask: uint32, fuel: nat): (r: Option<(uint32, uint32)>)
    ensures r.Some? ==> r.value.0 <= id && r.value.1 <= mask
    decreases fuel
  {
    if !(c <= hi) then Some((id, mask))
    else if fuel == 0 then None
    else
      AndAtMost(id, c);
      ScanAsWritten(lo, hi, (c + 1) % 0x1_0000_0000, And(id, c), MaskStep(mask, lo, c), fuel - 1)
  }

  /** When the scan as written ends, its id and mask keep no 1-bit beyond the starting ones. */
  lemma {:induction false} ScanAsWrittenWithin(lo: uint32, hi: uint32, c: uint32, id: uint32, mask: uint32, fuel: nat)
    requires ScanAsWritten(lo, hi, c, id, mask, fuel).Some?
    ensures var r := ScanAsWritten(lo, hi, c, id, mask, fuel).value;
      And(r.0, id) == r.0 && And(r.1, mask) == r.1
    decreases fuel
  {
    if !(c <= hi) {
      AndSelf(id);
      AndSelf(mask);
    } else {
      AndAtMost(id, c);
      AndWithin(id, c);
      Xor32(lo, c);
      AndWithin(mask, And(Not32(Xor(lo, c)), EXTENDED_MASK));
      var next := (c + 1) % 0x1_0000_0000;
      ScanAsWrittenWithin(lo, hi, next, And(id, c), MaskStep(mask, lo, c), fuel - 1);
      var r := ScanAsWritten(lo, hi, next, And(id, c), MaskStep(mask, lo, c), fuel - 1).value;
      AndWithinTrans(r.0, And(id, c), id);
      AndWithinTrans(r.1, MaskStep(mask, lo, c), mask);
    }
  }

  /** With upper bound 0xFFFFFFFF the guard never fails: the scan as written never ends. */
  lemma {:induction false} ScanAsWrittenNeverEnds(lo: uint32, c: uint32, id: uint32, mask: uint32, fuel: nat)
    ensures ScanAsWritten(lo, 0xFFFF_FFFF, c, id, mask, fuel) == None
    decreases fuel
  {
    if fuel > 0 {
      AndAtMost(id, c);
      ScanAsWrittenNeverEnds(lo, (c + 1) % 0x1_0000_0000, And(id, c), MaskStep(mask, lo, c), fuel - 1);
    }
  }

  /** Below that bound the scan as written ends after `hi - c + 1` steps, with the modelled result. */
  lemma {:induction false} ScanAsWrittenAgrees(lo: uint32, hi: uint32, width: uint32, c: uint32)
    requires lo <= c <= hi as int + 1 && hi < 0xFFFF_FFFF
    ensures ScanAsWritten(lo, hi, c, ScannedId(lo, c), ScannedMask(lo, width, c), hi as int + 1 - c)
         == Some((ScannedId(lo, hi as int + 1), ScannedMask(lo, width, hi as int + 1)))
    decreases hi as int + 1 - c
  {
    if c <= hi {
      var id, mask := ScannedId(lo, c), ScannedMask(lo, width, c);
      assert ScannedId(lo, c as int + 1) == And(id, c);
      assert ScannedMask(lo, width, c as int + 1) == MaskStep(mask, lo, c);
      assert (c + 1) % 0x1_0000_0000 == c + 1;
      ScanAsWrittenAgrees(lo, hi, width, c + 1);
    }
  }
}
