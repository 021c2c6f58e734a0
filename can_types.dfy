/**
 * The types and constants of the CAN header: the fixed-width integers,
 * the capacities of the registry tables, the 8-byte payload union
 * `BytesUnion` read as little-endian views, and the frame record.
 */
module CanTypes {

  type uint8 = x: int | 0 <= x < 0x100
  type uint16 = x: int | 0 <= x < 0x1_0000
  type uint32 = x: int | 0 <= x < 0x1_0000_0000
  type uint64 = x: int | 0 <= x < 0x1_0000_0000_0000_0000

  /** Number of listener objects that can register with one transceiver. */
  const SIZE_LISTENERS: nat := 4

  /** Length of the per-mailbox callback table `cbCANFrame`. */
  const CALLBACK_SLOTS: nat := 16

  /** Number of payload bytes a frame can carry. */
  const PAYLOAD_BYTES: nat := 8

  /** An opaque frame handler (a function pointer of the C++ code). */
  datatype Handler = Handler(code: nat)

  function Pow256(k: nat): (p: nat)
    ensures p > 0
  {
    if k == 0 then 1 else 256 * Pow256(k - 1)
  }

  lemma Pow256Widths()
    ensures Pow256(1) == 0x100
    ensures Pow256(2) == 0x1_0000
    ensures Pow256(4) == 0x1_0000_0000
    ensures Pow256(7) == 0x100_0000_0000_0000
    ensures Pow256(8) == 0x1_0000_0000_0000_0000
  {
    assert Pow256(1) == 0x100;
    assert Pow256(2) == 0x1_0000;
    assert Pow256(3) == 0x100_0000;
    assert Pow256(4) == 0x1_0000_0000;
    assert Pow256(5) == 0x100_0000_0000;
    assert Pow256(6) == 0x1_0000_0000_0000;
    assert Pow256(7) == 0x100_0000_0000_0000;
  }

  // ---------------------------------------------------------------------
  // Little-endian numbers.

  /** The number whose bytes, least significant first, are `b`. */
  function LittleEndian(b: seq<uint8>): nat
  {
    if b == [] then 0 else b[0] + 256 * LittleEndian(b[1..])
  }

  /** The `n` least significant bytes of `v`, least significant first. */
  function ToLittleEndian(v: nat, n: nat): (b: seq<uint8>)
    ensures |b| == n
  {
    if n == 0 then [] else [v % 256] + ToLittleEndian(v / 256, n - 1)
  }

  lemma {:induction false} LittleEndianBound(b: seq<uint8>)
    ensures LittleEndian(b) < Pow256(|b|)
  {
    if b != [] {
      LittleEndianBound(b[1..]);
    }
  }

  /** Encoding a decoded byte string gives the byte string back. */
  lemma {:induction false} LittleEndianRoundTrip(b: seq<uint8>)
    ensures ToLittleEndian(LittleEndian(b), |b|) == b
  {
    if b != [] {
      var rest := LittleEndian(b[1..]);
      DivModUnique(LittleEndian(b), 256, rest, b[0]);
      LittleEndianRoundTrip(b[1..]);
    }
  }

  /** Decoding the `n` bytes of a number that fits in them gives it back. */
  lemma {:induction false} ToLittleEndianRoundTrip(v: nat, n: nat)
    requires v < Pow256(n)
    ensures LittleEndian(ToLittleEndian(v, n)) == v
  {
    if n > 0 {
      var b := ToLittleEndian(v, n);
      assert b[1..] == ToLittleEndian(v / 256, n - 1);
      ToLittleEndianRoundTrip(v / 256, n - 1);
    }
  }

  /** The first `k` bytes are the low digits, the rest the high digits. */
  lemma {:induction false} LittleEndianSplit(b: seq<uint8>, k: nat)
    requires k <= |b|
    ensures LittleEndian(b) == LittleEndian(b[..k]) + Pow256(k) * LittleEndian(b[k..])
  {
    if k == 0 {
      assert b[..0] == [] && b[0..] == b;
    } else {
      var t := b[1..];
      LittleEndianSplit(t, k - 1);
      assert t[..k - 1] == b[1..k] && t[k - 1..] == b[k..];
      assert b[..k][1..] == b[1..k];
      var hi := LittleEndian(b[k..]);
      calc {
        LittleEndian(b);
        b[0] + 256 * LittleEndian(t);
        b[0] + 256 * (LittleEndian(b[1..k]) + Pow256(k - 1) * hi);
        { assert 256 * (Pow256(k - 1) * hi) == (256 * Pow256(k - 1)) * hi; }
        (b[0] + 256 * LittleEndian(b[1..k])) + Pow256(k) * hi;
        LittleEndian(b[..k]) + Pow256(k) * hi;
      }
    }
  }

  lemma DivModUnique(n: nat, d: nat, q: nat, r: nat)
    requires 0 < d && r < d && n == r + d * q
    ensures n / d == q && n % d == r
  {
    var q0, r0 := n / d, n % d;
    assert r0 + d * q0 == n;
    if q0 < q {
      assert d * (q - q0) >= d by { MulAtLeast(d, q - q0); }
      assert false;
    } else if q0 > q {
      assert d * (q0 - q) >= d by { MulAtLeast(d, q0 - q); }
      assert false;
    }
  }

  lemma MulAtLeast(d: nat, x: nat)
    requires x >= 1
    ensures d * x >= d
  {
  }

  /** Reading the whole, dividing by 256^k and taking the remainder splits it at byte `k`. */
  lemma LittleEndianDivMod(b: seq<uint8>, k: nat)
    requires k <= |b|
    ensures LittleEndian(b) / Pow256(k) == LittleEndian(b[k..])
    ensures LittleEndian(b) % Pow256(k) == LittleEndian(b[..k])
  {
    LittleEndianSplit(b, k);
    LittleEndianBound(b[..k]);
    DivModUnique(LittleEndian(b), Pow256(k), LittleEndian(b[k..]), LittleEndian(b[..k]));
  }

  /** Bytes `i .. i+j-1` read as a number are digits `i .. i+j-1` of the whole. */
  lemma LittleEndianSlice(b: seq<uint8>, i: nat, j: nat)
    requires i + j <= |b|
    ensures LittleEndian(b) / Pow256(i) % Pow256(j) == LittleEndian(b[i..i + j])
  {
    LittleEndianDivMod(b, i);
    LittleEndianDivMod(b[i..], j);
    assert b[i..][..j] == b[i..i + j];
  }

  // ---------------------------------------------------------------------
  // The payload union.

  type Bytes8 = b: seq<uint8> | |b| == PAYLOAD_BYTES witness [0, 0, 0, 0, 0, 0, 0, 0]

  /**
   * The 8 bytes of a payload in memory order. The union reads them as one
   * 64-bit `value`, two 32-bit halves `low`/`high`, four 16-bit words
   * `s0`..`s3`, or the byte arrays `byte`/`bytes`; on the little-endian
   * processors the union is written for, every wider view is the
   * little-endian reading of the bytes it overlays.
   */
  datatype BytesUnion = BytesUnion(storage: Bytes8)
  {
    /**
     * The member `value`: the bytes read little-endian, so the first byte
     * in memory is the least significant and the last the most significant.
     */
    function Value(): (v: uint64)
      ensures v % 0x100 == storage[0]
      ensures v / 0x100_0000_0000_0000 == storage[7]
    {
      LittleEndianBound(storage);
      Pow256Widths();
      LittleEndianDivMod(storage, 1);
      LittleEndianDivMod(storage, 7);
      assert storage[..1] == [storage[0]] && storage[7..] == [storage[7]];
      assert LittleEndian([storage[0]]) == storage[0] + 256 * LittleEndian([]);
      assert LittleEndian([storage[7]]) == storage[7] + 256 * LittleEndian([]);
      LittleEndian(storage)
    }

    /** The member `low`: the lower 32 bits of `value`. */
    function Low(): (w: uint32)
      ensures w == Value() % 0x1_0000_0000
    {
      LittleEndianDivMod(storage, 4);
      LittleEndianBound(storage[..4]);
      Pow256Widths();
      LittleEndian(storage[..4])
    }

    /** The member `high`: `value` shifted right by 32 bits. */
    function High(): (w: uint32)
      ensures w == Value() / 0x1_0000_0000
    {
      LittleEndianDivMod(storage, 4);
      LittleEndianBound(storage[4..]);
      Pow256Widths();
      LittleEndian(storage[4..])
    }

    /** The member `s<k>`: bits 16k .. 16k+15 of `value`. */
    function Short(k: nat): (s: uint16)
      requires k < 4
      ensures s == (Value() / Pow256(2 * k)) % 0x1_0000
    {
      LittleEndianSlice(storage, 2 * k, 2);
      LittleEndianBound(storage[2 * k..2 * k + 2]);
      Pow256Widths();
      LittleEndian(storage[2 * k..2 * k + 2])
    }

    /** The members `byte[i]` and `bytes[i]` (one storage, two names): bits 8i .. 8i+7 of `value`. */
    function Byte(i: nat): (x: uint8)
      requires i < PAYLOAD_BYTES
      ensures x == (Value() / Pow256(i)) % 0x100
    {
      LittleEndianSlice(storage, i, 1);
      assert storage[i..i + 1] == [storage[i]];
      assert LittleEndian(storage[i..i + 1]) == storage[i] + 256 * LittleEndian([]);
      Pow256Widths();
      storage[i]
    }
  }

  /** The union whose `value` member was assigned `v`. */
  function FromValue(v: uint64): (u: BytesUnion)
    ensures u.Value() == v
  {
    Pow256Widths();
    ToLittleEndianRoundTrip(v, 8);
    BytesUnion(ToLittleEndian(v, 8))
  }

  /** Writing `value` back after reading it leaves the bytes unchanged. */
  lemma ValueRoundTrip(u: BytesUnion)
    ensures FromValue(u.Value()) == u
  {
    LittleEndianRoundTrip(u.storage);
  }

  /** `value` is assembled from its halves: `high` above `low`. */
  lemma ValueFromHalves(u: BytesUnion)
    ensures u.Value() == u.Low() + 0x1_0000_0000 * u.High()
  {
    LittleEndianSplit(u.storage, 4);
    Pow256Widths();
  }

  /** On a little-endian processor 0x0102030405060708 lies in memory as 8, 7, ..., 1. */
  lemma LittleEndianLayoutExample()
    ensures FromValue(0x0102030405060708).storage == [8, 7, 6, 5, 4, 3, 2, 1]
  {
    var u := BytesUnion([8, 7, 6, 5, 4, 3, 2, 1]);
    assert LittleEndian([1]) == 1 by { assert [1][1..] == []; }
    assert LittleEndian([2, 1]) == 0x0102 by { assert [2, 1][1..] == [1]; }
    assert LittleEndian([3, 2, 1]) == 0x01_0203 by { assert [3, 2, 1][1..] == [2, 1]; }
    assert LittleEndian([4, 3, 2, 1]) == 0x0102_0304 by { assert [4, 3, 2, 1][1..] == [3, 2, 1]; }
    assert LittleEndian([5, 4, 3, 2, 1]) == 0x01_0203_0405 by { assert [5, 4, 3, 2, 1][1..] == [4, 3, 2, 1]; }
    assert LittleEndian([6, 5, 4, 3, 2, 1]) == 0x0102_0304_0506 by { assert [6, 5, 4, 3, 2, 1][1..] == [5, 4, 3, 2, 1]; }
    assert LittleEndian([7, 6, 5, 4, 3, 2, 1]) == 0x01_0203_0405_0607 by { assert [7, 6, 5, 4, 3, 2, 1][1..] == [6, 5, 4, 3, 2, 1]; }
    assert u.Value() == 0x0102_0304_0506_0708 by { assert u.storage[1..] == [7, 6, 5, 4, 3, 2, 1]; }
    ValueRoundTrip(u);
  }

  /**
   * A received or transmitted frame (`CAN_FRAME`): identifier (29 bits when
   * extended, 11 otherwise), family id, remote-request flag, priority,
   * extended flag, receive timer value, payload length and payload.
   */
  datatype CanFrame = CanFrame(
    id: uint32,
    fid: uint32,
    rtr: uint8,
    priority: uint8,
    extended: uint8,
    time: uint16,
    length: uint8,
    data: BytesUnion)
  {
    /** The payload holds at most 8 bytes: it fits in the union that stores it. */
    predicate WellFormed(): (ok: bool)
      ensures ok <==> length as int <= |data.storage|
    {
      length <= PAYLOAD_BYTES
    }

    /** The `length` data bytes the frame carries, read through the union's byte view. */
    function Payload(): (p: seq<uint8>)
      requires WellFormed()
      ensures |p| == length as int
      ensures forall i :: 0 <= i < |p| ==> p[i] == data.Byte(i)
    {
      data.storage[..length]
    }
  }
}
