// util_CRC64 and util_CRC64Rev of c_monitor/util.c.

/** The table-driven checksum, proved against the bit-at-a-time division of the frame checking
    sequence of ISO 3309, and its algebra over whole buffers. */
module Crc64 {
  import opened CrcTable

  // ----- the reference: division, one message bit at a time

  /** x^64 + x^4 + x^3 + x + 1 without its leading term, reflected. */
  const GENERATOR: bv64 := 0xD800_0000_0000_0000

  /** One step of the reflected division with no message bit coming in. */
  function Shift(x: bv64): bv64 {
    if x & 1 == 1 then (x >> 1) ^ GENERATOR else x >> 1
  }

  function Xor(x: bv64, y: bv64): bv64 {
    x ^ y
  }

  function InBit(bit: bool): bv64 {
    if bit then 1 else 0
  }

  /** One step of the reflected division consuming a message bit. */
  function FeedBit(x: bv64, bit: bool): bv64 {
    Shift(Xor(x, InBit(bit)))
  }

  function FeedBits(x: bv64, bits: seq<bool>): bv64 {
    if bits == [] then x else FeedBit(FeedBits(x, bits[..|bits| - 1]), bits[|bits| - 1])
  }

  function Mask(i: nat): bv8
    requires i < 8
  {
    match i
    case 0 => 1
    case 1 => 2
    case 2 => 4
    case 3 => 8
    case 4 => 16
    case 5 => 32
    case 6 => 64
    case _ => 128
  }

  predicate Bit(b: bv8, mask: bv8) {
    b & mask != 0
  }

  /** The bits of a byte in transmission order, least significant first. */
  function ByteBits(b: bv8): (bits: seq<bool>)
    ensures |bits| == 8
  {
    seq(8, i requires 0 <= i < 8 => Bit(b, Mask(i)))
  }

  function Bits(buf: seq<bv8>): (bits: seq<bool>)
    ensures |bits| == 8 * |buf|
  {
    if buf == [] then [] else Bits(buf[..|buf| - 1]) + ByteBits(buf[|buf| - 1])
  }

  /** The remainder of the message, with initial value 0 and no final exclusive-or. */
  function Remainder(buf: seq<bv8>): bv64 {
    FeedBits(0, Bits(buf))
  }

  // ----- linearity of one step

  lemma XorCommutes(x: bv64, y: bv64)
    ensures Xor(x, y) == Xor(y, x)
  {
  }

  lemma XorAssociates(x: bv64, y: bv64, z: bv64)
    ensures Xor(Xor(x, y), z) == Xor(x, Xor(y, z))
  {
    assert (x ^ y) ^ z == x ^ (y ^ z);
  }

  lemma XorUnit(x: bv64)
    ensures Xor(x, x) == 0 && Xor(0, x) == x
  {
  }

  lemma XorCancels(x: bv64, y: bv64)
    requires Xor(x, y) == 0
    ensures x == y
  {
  }

  /** Shift without a branch: the generator's four terms are placed by copies of the low bit. */
  function ShiftTerms(x: bv64): bv64 {
    (x >> 1) ^ (x << 63) ^ ((x & 1) << 62) ^ ((x & 1) << 60) ^ ((x & 1) << 59)
  }

  lemma ShiftTermsOdd(x: bv64)
    requires x & 1 == 1
    ensures Shift(x) == ShiftTerms(x)
  {
  }

  lemma ShiftTermsEven(x: bv64)
    requires x & 1 != 1
    ensures Shift(x) == ShiftTerms(x)
  {
  }

  lemma ShiftIsTerms(x: bv64)
    ensures Shift(x) == ShiftTerms(x)
  {
    if x & 1 == 1 {
      ShiftTermsOdd(x);
    } else {
      ShiftTermsEven(x);
    }
  }

  lemma ShiftTermsLinear(x: bv64, y: bv64)
    ensures ShiftTerms(x ^ y) == ShiftTerms(x) ^ ShiftTerms(y)
  {
  }

  lemma ShiftLinear(x: bv64, y: bv64)
    ensures Shift(Xor(x, y)) == Xor(Shift(x), Shift(y))
  {
    hide Shift, ShiftTerms;
    ShiftIsTerms(x);
    ShiftIsTerms(y);
    ShiftIsTerms(x ^ y);
    ShiftTermsLinear(x, y);
  }

  // ----- the table entry is eight steps

  function EightShifts(x: bv64): bv64 {
    Shift(Shift(Shift(Shift(Shift(Shift(Shift(Shift(x))))))))
  }

  /** The carry-less product of a byte and the generator's low part: no reduction is needed. */
  function Product(b: bv8): bv64 {
    ((b as bv64) << 56) ^ ((b as bv64) << 55) ^ ((b as bv64) << 53) ^ ((b as bv64) << 52)
  }

  lemma TableEntry(b: bv8)
    ensures IsoPoly(b) == Product(b)
  {
  }

  lemma EightShiftsOfByte(b: bv8)
    ensures EightShifts(b as bv64) == Product(b)
  {
  }

  /** Each of the 256 constants is the remainder of its own index. */
  lemma TableIsEightShifts(b: bv8)
    ensures IsoPoly(b) == EightShifts(b as bv64)
  {
    hide *;
    TableEntry(b);
    EightShiftsOfByte(b);
  }

  lemma EightShiftsLinear(x: bv64, y: bv64)
    ensures EightShifts(Xor(x, y)) == Xor(EightShifts(x), EightShifts(y))
  {
    hide Xor, Shift;
    var x1, y1 := Shift(x), Shift(y);
    var x2, y2 := Shift(x1), Shift(y1);
    var x3, y3 := Shift(x2), Shift(y2);
    var x4, y4 := Shift(x3), Shift(y3);
    ShiftLinear(x, y);
    ShiftLinear(x1, y1);
    ShiftLinear(x2, y2);
    ShiftLinear(x3, y3);
    ShiftLinear(x4, y4);
    ShiftLinear(Shift(x4), Shift(y4));
    ShiftLinear(Shift(Shift(x4)), Shift(Shift(y4)));
    ShiftLinear(Shift(Shift(Shift(x4))), Shift(Shift(Shift(y4))));
  }

  function LowByte(x: bv64): bv8 {
    (x & 0xFF) as bv8
  }

  function HighPart(x: bv64): bv64 {
    (x >> 8) << 8
  }

  lemma EightShiftsOfHigh(x: bv64)
    ensures EightShifts(HighPart(x)) == x >> 8
  {
  }

  lemma SplitLow(x: bv64)
    ensures x == Xor(LowByte(x) as bv64, HighPart(x))
  {
  }

  lemma EightShiftsByTable(x: bv64)
    ensures EightShifts(x) == Xor(IsoPoly(LowByte(x)), x >> 8)
  {
    hide *;
    SplitLow(x);
    TableIsEightShifts(LowByte(x));
    EightShiftsLinear(LowByte(x) as bv64, HighPart(x));
    EightShiftsOfHigh(x);
  }

  // ----- one byte of message

  /** The body of the source's loops: one table look-up consumes one byte. */
  function TableStep(res: bv64, b: bv8): bv64 {
    IsoPoly(LowByte(res) ^ b) ^ (res >> 8)
  }

  lemma WidenLinear(a: bv8, b: bv8)
    ensures (a ^ b) as bv64 == Xor(a as bv64, b as bv64)
  {
  }

  lemma TableLinear(a: bv8, b: bv8)
    ensures IsoPoly(a ^ b) == Xor(IsoPoly(a), IsoPoly(b))
  {
    hide *;
    WidenLinear(a, b);
    EightShiftsLinear(a as bv64, b as bv64);
    TableIsEightShifts(a);
    TableIsEightShifts(b);
    TableIsEightShifts(a ^ b);
  }

  lemma XorExchange(x: bv64, y: bv64, u: bv64, v: bv64)
    ensures Xor(Xor(x, y), Xor(u, v)) == Xor(Xor(x, u), Xor(y, v))
  {
    hide Xor;
    XorAssociates(x, y, Xor(u, v));
    XorAssociates(y, u, v);
    XorCommutes(y, u);
    XorAssociates(u, y, v);
    XorAssociates(x, u, Xor(y, v));
  }

  lemma InBitLinear(a: bool, b: bool)
    ensures InBit(a != b) == Xor(InBit(a), InBit(b))
  {
  }

  lemma FeedBitLinear(x: bv64, a: bool, y: bv64, b: bool)
    ensures FeedBit(Xor(x, y), a != b) == Xor(FeedBit(x, a), FeedBit(y, b))
  {
    hide Xor, Shift, InBit;
    InBitLinear(a, b);
    XorExchange(x, y, InBit(a), InBit(b));
    ShiftLinear(Xor(x, InBit(a)), Xor(y, InBit(b)));
  }

  function XorBits(u: seq<bool>, v: seq<bool>): (w: seq<bool>)
    requires |u| == |v|
    ensures |w| == |u|
  {
    seq(|u|, i requires 0 <= i < |u| => u[i] != v[i])
  }

  /** The division is linear in the initial state and the message together. */
  lemma {:induction false} FeedBitsLinear(x: bv64, u: seq<bool>, y: bv64, v: seq<bool>)
    requires |u| == |v|
    ensures FeedBits(Xor(x, y), XorBits(u, v)) == Xor(FeedBits(x, u), FeedBits(y, v))
    decreases |u|
  {
    hide Xor, FeedBit;
    if u != [] {
      var n := |u| - 1;
      assert XorBits(u, v)[..n] == XorBits(u[..n], v[..n]);
      FeedBitsLinear(x, u[..n], y, v[..n]);
      FeedBitLinear(FeedBits(x, u[..n]), u[n], FeedBits(y, v[..n]), v[n]);
    }
  }

  lemma {:induction false} FeedBitsAppend(x: bv64, u: seq<bool>, v: seq<bool>)
    ensures FeedBits(x, u + v) == FeedBits(FeedBits(x, u), v)
    decreases |v|
  {
    hide FeedBit;
    if v == [] {
      assert u + v == u;
    } else {
      var n := |v| - 1;
      assert (u + v)[..|u + v| - 1] == u + v[..n];
      FeedBitsAppend(x, u, v[..n]);
    }
  }

  function FeedFour(x: bv64, s: seq<bool>): bv64
    requires |s| == 4
  {
    FeedBit(FeedBit(FeedBit(FeedBit(x, s[0]), s[1]), s[2]), s[3])
  }

  lemma FeedBitsOfFour(x: bv64, s: seq<bool>)
    requires |s| == 4
    ensures FeedBits(x, s) == FeedFour(x, s)
  {
    hide FeedBit, FeedBits;
    FeedBitsNone(x, s);
    FeedBitsNext(x, s, 0);
    FeedBitsNext(x, s, 1);
    FeedBitsNext(x, s, 2);
    FeedBitsNext(x, s, 3);
    assert s[..4] == s;
  }

  lemma FeedBitsNext(x: bv64, s: seq<bool>, k: nat)
    requires k < |s|
    ensures FeedBits(x, s[..k + 1]) == FeedBit(FeedBits(x, s[..k]), s[k])
  {
    hide FeedBit;
    assert s[..k + 1][..k] == s[..k];
  }

  lemma FeedBitsNone(x: bv64, s: seq<bool>)
    ensures FeedBits(x, s[..0]) == x
  {
  }

  lemma FeedBitsOfEight(x: bv64, s: seq<bool>)
    requires |s| == 8
    ensures FeedBits(x, s) == FeedFour(FeedFour(x, s[..4]), s[4..])
  {
    hide FeedFour, FeedBits;
    FeedBitsOfFour(x, s[..4]);
    FeedBitsOfFour(FeedBits(x, s[..4]), s[4..]);
    FeedBitsAppend(x, s[..4], s[4..]);
    assert s[..4] + s[4..] == s;
  }

  function HalfProduct(n: bv64): bv64 {
    (n << 60) ^ (n << 59) ^ (n << 57) ^ (n << 56)
  }

  lemma FeedLowNibble(b: bv8)
    ensures FeedFour(0, [Bit(b, 1), Bit(b, 2), Bit(b, 4), Bit(b, 8)]) == HalfProduct((b & 0x0F) as bv64)
  {
  }

  lemma FeedHighNibble(b: bv8)
    ensures FeedFour(HalfProduct((b & 0x0F) as bv64), [Bit(b, 16), Bit(b, 32), Bit(b, 64), Bit(b, 128)]) == Product(b)
  {
  }

  lemma FeedByteFromZero(b: bv8)
    ensures FeedBits(0, ByteBits(b)) == Product(b)
  {
    hide FeedFour, FeedBits, HalfProduct, Product;
    FeedBitsOfEight(0, ByteBits(b));
    assert ByteBits(b)[..4] == [Bit(b, 1), Bit(b, 2), Bit(b, 4), Bit(b, 8)];
    assert ByteBits(b)[4..] == [Bit(b, 16), Bit(b, 32), Bit(b, 64), Bit(b, 128)];
    FeedLowNibble(b);
    FeedHighNibble(b);
  }

  function Zeros(n: nat): (s: seq<bool>)
    ensures |s| == n
  {
    seq(n, _ => false)
  }

  lemma FeedZero(x: bv64)
    ensures FeedBit(x, false) == Shift(x)
  {
    hide Shift, Xor;
    XorUnit(x);
    XorCommutes(x, 0);
  }

  lemma FeedEightZeros(x: bv64)
    ensures FeedBits(x, Zeros(8)) == EightShifts(x)
  {
    hide Shift, Xor, FeedBit, FeedBits;
    FeedBitsOfEight(x, Zeros(8));
    forall y ensures FeedBit(y, false) == Shift(y) {
      FeedZero(y);
    }
  }

  lemma FeedByteSplits(res: bv64, b: bv8)
    ensures FeedBits(res, ByteBits(b)) == Xor(EightShifts(res), IsoPoly(b))
  {
    hide Xor, FeedBits, FeedBit, EightShifts, IsoPoly, Product, ByteBits;
    assert XorBits(Zeros(8), ByteBits(b)) == ByteBits(b);
    XorUnit(res);
    XorCommutes(res, 0);
    FeedBitsLinear(res, Zeros(8), 0, ByteBits(b));
    FeedEightZeros(res);
    FeedByteFromZero(b);
    TableEntry(b);
  }

  lemma TableStepAsXor(res: bv64, b: bv8)
    ensures TableStep(res, b) == Xor(IsoPoly(LowByte(res) ^ b), res >> 8)
  {
    hide IsoPoly, LowByte;
  }

  lemma TableStepSplits(res: bv64, b: bv8)
    ensures TableStep(res, b) == Xor(EightShifts(res), IsoPoly(b))
  {
    hide Xor, EightShifts, IsoPoly, LowByte, TableStep;
    TableStepAsXor(res, b);
    var t, h, p := IsoPoly(LowByte(res)), res >> 8, IsoPoly(b);
    EightShiftsByTable(res);
    TableLinear(LowByte(res), b);
    XorAssociates(t, p, h);
    XorCommutes(p, h);
    XorAssociates(t, h, p);
  }

  /** The fast step refines the simple one: a table look-up feeds the eight bits of its byte. */
  lemma TableStepFeedsByte(res: bv64, b: bv8)
    ensures TableStep(res, b) == FeedBits(res, ByteBits(b))
  {
    hide *;
    FeedByteSplits(res, b);
    TableStepSplits(res, b);
  }

  // ----- whole buffers

  lemma RemainderNext(buf: seq<bv8>, b: bv8)
    ensures Remainder(buf + [b]) == TableStep(Remainder(buf), b)
  {
    hide FeedBits, TableStep, ByteBits;
    assert (buf + [b])[..|buf|] == buf;
    FeedBitsAppend(0, Bits(buf), ByteBits(b));
    TableStepFeedsByte(Remainder(buf), b);
  }

  /** The body of the source's loops in its own operations. */
  lemma TableStepIs(r: bv64, b: bv8)
    ensures TableStep(r, b) == IsoPoly(LowByte(r) ^ b) ^ (r >> 8)
    ensures LowByte(r) as bv64 == r & 0xFF
  {
    hide IsoPoly;
  }

  lemma RemainderOfNone()
    ensures Remainder([]) == 0
  {
  }

  method Crc64(buf: array<bv8>) returns (res: bv64)
    ensures res == Remainder(buf[..])
  {
    RemainderOfNone();
    hide Remainder, TableStep;
    res := 0;
    for i := 0 to buf.Length
      invariant res == Remainder(buf[..i])
    {
      RemainderNext(buf[..i], buf[i]);
      assert buf[..i] + [buf[i]] == buf[..i + 1];
      res := TableStep(res, buf[i]);
    }
    assert buf[..buf.Length] == buf[..];
  }

  function Reverse(s: seq<bv8>): seq<bv8> {
    if s == [] then [] else Reverse(s[1..]) + [s[0]]
  }

  lemma {:induction false} ReverseAt(s: seq<bv8>)
    ensures |Reverse(s)| == |s| && forall i :: 0 <= i < |s| ==> Reverse(s)[i] == s[|s| - 1 - i]
  {
    if s != [] {
      ReverseAt(s[1..]);
    }
  }

  method Crc64Rev(buf: array<bv8>) returns (res: bv64)
    ensures res == Remainder(Reverse(buf[..]))
  {
    RemainderOfNone();
    hide Remainder, TableStep;
    res := 0;
    for i := buf.Length downto 0
      invariant res == Remainder(Reverse(buf[i..]))
    {
      assert buf[i..][1..] == buf[i + 1..];
      RemainderNext(Reverse(buf[i + 1..]), buf[i]);
      res := TableStep(res, buf[i]);
    }
    assert buf[0..] == buf[..];
  }

  // ----- algebra of the checksum

  lemma {:induction false} BitsAppend(a: seq<bv8>, b: seq<bv8>)
    ensures Bits(a + b) == Bits(a) + Bits(b)
    decreases |b|
  {
    hide ByteBits;
    if b == [] {
      assert a + b == a;
    } else {
      var n := |b| - 1;
      assert (a + b)[..|a + b| - 1] == a + b[..n];
      BitsAppend(a, b[..n]);
    }
  }

  /** The checksum of a concatenation continues from the state after the first part. */
  lemma RemainderOfConcat(a: seq<bv8>, b: seq<bv8>)
    ensures Remainder(a + b) == FeedBits(Remainder(a), Bits(b))
  {
    hide FeedBits, Bits;
    BitsAppend(a, b);
    FeedBitsAppend(0, Bits(a), Bits(b));
  }

  function XorBytes(a: seq<bv8>, b: seq<bv8>): (c: seq<bv8>)
    requires |a| == |b|
    ensures |c| == |a|
  {
    seq(|a|, i requires 0 <= i < |a| => a[i] ^ b[i])
  }

  lemma BitLinear(a: bv8, b: bv8, i: nat)
    requires i < 8
    ensures Bit(a ^ b, Mask(i)) == (Bit(a, Mask(i)) != Bit(b, Mask(i)))
  {
  }

  lemma ByteBitsLinear(a: bv8, b: bv8)
    ensures ByteBits(a ^ b) == XorBits(ByteBits(a), ByteBits(b))
  {
    hide Bit, Mask;
    forall i | 0 <= i < 8
      ensures ByteBits(a ^ b)[i] == XorBits(ByteBits(a), ByteBits(b))[i]
    {
      BitLinear(a, b, i);
    }
  }

  lemma XorBitsAppend(u: seq<bool>, v: seq<bool>, u': seq<bool>, v': seq<bool>)
    requires |u| == |v| && |u'| == |v'|
    ensures XorBits(u + u', v + v') == XorBits(u, v) + XorBits(u', v')
  {
  }

  lemma {:induction false} BitsLinear(a: seq<bv8>, b: seq<bv8>)
    requires |a| == |b|
    ensures Bits(XorBytes(a, b)) == XorBits(Bits(a), Bits(b))
    decreases |a|
  {
    hide ByteBits, XorBits;
    if a == [] {
      assert XorBits([], []) == [];
    } else {
      var n := |a| - 1;
      assert XorBytes(a, b)[..n] == XorBytes(a[..n], b[..n]);
      BitsLinear(a[..n], b[..n]);
      ByteBitsLinear(a[n], b[n]);
      XorBitsAppend(Bits(a[..n]), Bits(b[..n]), ByteBits(a[n]), ByteBits(b[n]));
    }
  }

  /** For equal lengths the checksum of a bytewise exclusive-or is the exclusive-or of the checksums. */
  lemma RemainderLinear(a: seq<bv8>, b: seq<bv8>)
    requires |a| == |b|
    ensures Remainder(XorBytes(a, b)) == Xor(Remainder(a), Remainder(b))
  {
    hide FeedBits, Bits, Xor;
    BitsLinear(a, b);
    XorUnit(0);
    FeedBitsLinear(0, Bits(a), 0, Bits(b));
  }

  lemma {:induction false} RemainderOfZeros(n: nat)
    ensures Remainder(seq(n, _ => 0)) == 0
  {
    if n == 0 {
    } else {
      var z: seq<bv8> := seq(n, _ => 0);
      RemainderOfZeros(n - 1);
      assert z == seq(n - 1, _ => 0) + [0];
      RemainderNext(seq(n - 1, _ => 0), 0);
    }
  }

  /** The checksum does not see leading zero bytes. */
  lemma LeadingZerosInvisible(n: nat, buf: seq<bv8>)
    ensures Remainder(seq(n, _ => 0) + buf) == Remainder(buf)
  {
    RemainderOfZeros(n);
    RemainderOfConcat(seq(n, _ => 0), buf);
    RemainderOfConcat([], buf);
    assert [] + buf == buf;
  }

  // ----- bursts

  lemma ShiftInjective(x: bv64)
    requires Shift(x) == 0
    ensures x == 0
  {
  }

  /** With the same message, different states never meet. */
  lemma {:induction false} FeedBitsInjective(x: bv64, y: bv64, u: seq<bool>)
    requires FeedBits(x, u) == FeedBits(y, u)
    ensures x == y
    decreases |u|
  {
    hide Xor, Shift;
    if u != [] {
      var n := |u| - 1;
      var p, q := FeedBits(x, u[..n]), FeedBits(y, u[..n]);
      FeedBitLinear(p, u[n], q, u[n]);
      FeedZero(Xor(p, q));
      XorUnit(FeedBit(p, u[n]));
      ShiftInjective(Xor(p, q));
      XorCancels(p, q);
      FeedBitsInjective(x, y, u[..n]);
    }
  }

  /** w with its n low bits shifted out. */
  function Drop(w: bv64, n: nat): bv64 {
    if n == 0 then w else Drop(w >> 1, n - 1)
  }

  lemma {:induction false} DropSum(w: bv64, n: nat, k: nat)
    ensures Drop(w, n + k) == Drop(Drop(w, n), k)
    decreases n
  {
    if n > 0 {
      DropSum(w >> 1, n - 1, k);
    }
  }

  lemma {:induction false} DropZero(n: nat)
    ensures Drop(0, n) == 0
  {
    if n > 0 {
      DropZero(n - 1);
      assert 0 as bv64 >> 1 == 0;
    }
  }

  lemma DropTwo(w: bv64)
    ensures Drop(w, 2) == w >> 2
  {
    assert Drop(w >> 1, 1) == (w >> 1) >> 1;
  }

  lemma DropFour(w: bv64)
    ensures Drop(w, 4) == w >> 4
  {
    hide Drop;
    DropTwo(w);
    DropTwo(w >> 2);
    DropSum(w, 2, 2);
  }

  lemma DropEight(w: bv64)
    ensures Drop(w, 8) == w >> 8
  {
    hide Drop;
    DropFour(w);
    DropFour(w >> 4);
    DropSum(w, 4, 4);
  }

  lemma DropSixteen(w: bv64)
    ensures Drop(w, 16) == w >> 16
  {
    hide Drop;
    DropEight(w);
    DropEight(w >> 8);
    DropSum(w, 8, 8);
  }

  lemma DropThirtyTwo(w: bv64)
    ensures Drop(w, 32) == w >> 32
  {
    hide Drop;
    DropSixteen(w);
    DropSixteen(w >> 16);
    DropSum(w, 16, 16);
  }

  lemma DropSixtyThree(w: bv64)
    ensures Drop(w, 63) == w >> 63
  {
    DropSum(w, 32, 31);
    DropThirtyTwo(w);
    DropSum(w >> 32, 16, 15);
    DropSixteen(w >> 32);
    DropSum(w >> 48, 8, 7);
    DropEight(w >> 48);
    DropSum(w >> 56, 4, 3);
    DropFour(w >> 56);
    DropSum(w >> 60, 2, 1);
    DropTwo(w >> 60);
  }

  lemma TopBitClear(w: bv64, n: nat)
    requires n <= 63 && Drop(w, n) == 0
    ensures w & 0x8000_0000_0000_0000 == 0
  {
    hide Drop;
    DropSum(w, n, 63 - n);
    DropZero(63 - n);
    DropSixtyThree(w);
  }

  /** A step whose result has a clear top bit subtracted nothing: it only shifted. */
  lemma QuietStep(x: bv64, bit: bool)
    requires FeedBit(x, bit) & 0x8000_0000_0000_0000 == 0
    ensures FeedBit(x, bit) == x >> 1
    ensures x == 0 ==> !bit
  {
  }

  /** At most 64 message bits that lead to state 0 were read off the state itself. */
  lemma {:induction false} QuietRun(x: bv64, d: seq<bool>)
    requires |d| <= 64 && FeedBits(x, d) == 0
    ensures Drop(x, |d|) == 0
    ensures x == 0 ==> d == Zeros(|d|)
    decreases |d|
  {
    hide FeedBit;
    if d != [] {
      var y := FeedBit(x, d[0]);
      assert d[..1] + d[1..] == d;
      FeedBitsAppend(x, d[..1], d[1..]);
      FeedBitsNone(x, d);
      FeedBitsNext(x, d, 0);
      QuietRun(y, d[1..]);
      TopBitClear(y, |d| - 1);
      QuietStep(x, d[0]);
    }
  }

  /** Two bit strings that agree outside a window of 64 bits, at any alignment, drive the division
      from one state to one state only if they are equal. */
  lemma BurstOfBits(x: bv64, u: seq<bool>, v: seq<bool>, i: nat, j: nat)
    requires |u| == |v| && i <= j <= |u| && j - i <= 64
    requires u[..i] == v[..i] && u[j..] == v[j..]
    requires FeedBits(x, u) == FeedBits(x, v)
    ensures u == v
  {
    hide FeedBits, Xor, XorBits;
    var s := FeedBits(x, u[..i]);
    var p, q := FeedBits(s, u[i..j]), FeedBits(s, v[i..j]);
    FeedThree(x, u, i, j);
    FeedThree(x, v, i, j);
    FeedBitsInjective(p, q, u[j..]);
    FeedBitsLinear(s, u[i..j], s, v[i..j]);
    XorUnit(s);
    XorUnit(p);
    QuietRun(0, XorBits(u[i..j], v[i..j]));
    XorBitsZero(u[i..j], v[i..j]);
    assert u == u[..i] + u[i..j] + u[j..];
    assert v == v[..i] + v[i..j] + v[j..];
  }

  lemma FeedThree(x: bv64, u: seq<bool>, i: nat, j: nat)
    requires i <= j <= |u|
    ensures FeedBits(x, u) == FeedBits(FeedBits(FeedBits(x, u[..i]), u[i..j]), u[j..])
  {
    hide FeedBits;
    assert u == u[..i] + u[i..];
    assert u[i..] == u[i..j] + u[j..];
    FeedBitsAppend(x, u[..i], u[i..]);
    FeedBitsAppend(FeedBits(x, u[..i]), u[i..j], u[j..]);
  }

  lemma XorBitsZero(u: seq<bool>, v: seq<bool>)
    requires |u| == |v| && XorBits(u, v) == Zeros(|u|)
    ensures u == v
  {
    forall k | 0 <= k < |u| ensures u[k] == v[k] {
      assert XorBits(u, v)[k] == Zeros(|u|)[k];
    }
  }

  lemma ByteBitsInjective(a: bv8, b: bv8)
    requires ByteBits(a) == ByteBits(b)
    ensures a == b
  {
    hide Bit, Mask;
    forall i | 0 <= i < 8 ensures Bit(a, Mask(i)) == Bit(b, Mask(i)) {
      assert ByteBits(a)[i] == ByteBits(b)[i];
    }
    MasksSuffice(a, b);
  }

  lemma MasksSuffice(a: bv8, b: bv8)
    requires forall i :: 0 <= i < 8 ==> Bit(a, Mask(i)) == Bit(b, Mask(i))
    ensures a == b
  {
    assert Bit(a, Mask(0)) == Bit(b, Mask(0)) && Bit(a, Mask(1)) == Bit(b, Mask(1));
    assert Bit(a, Mask(2)) == Bit(b, Mask(2)) && Bit(a, Mask(3)) == Bit(b, Mask(3));
    assert Bit(a, Mask(4)) == Bit(b, Mask(4)) && Bit(a, Mask(5)) == Bit(b, Mask(5));
    assert Bit(a, Mask(6)) == Bit(b, Mask(6)) && Bit(a, Mask(7)) == Bit(b, Mask(7));
  }

  lemma {:induction false} BitsInjective(a: seq<bv8>, b: seq<bv8>)
    requires Bits(a) == Bits(b)
    ensures a == b
    decreases |a|
  {
    hide ByteBits;
    if a != [] {
      var n := |a| - 1;
      assert |b| == |a|;
      assert Bits(a)[..8 * n] == Bits(a[..n]) && Bits(b)[..8 * n] == Bits(b[..n]);
      assert Bits(a)[8 * n..] == ByteBits(a[n]) && Bits(b)[8 * n..] == ByteBits(b[n]);
      BitsInjective(a[..n], b[..n]);
      ByteBitsInjective(a[n], b[n]);
      assert a == a[..n] + [a[n]] && b == b[..n] + [b[n]];
    }
  }

  /** Buffers of one length that differ only within 64 consecutive bits, at any alignment, get the
      same checksum exactly when they are the same buffer. */
  lemma BurstDistinct(a: seq<bv8>, b: seq<bv8>, i: nat, j: nat)
    requires |a| == |b| && i <= j <= 8 * |a| && j - i <= 64
    requires Bits(a)[..i] == Bits(b)[..i] && Bits(a)[j..] == Bits(b)[j..]
    ensures Remainder(a) == Remainder(b) <==> a == b
  {
    hide FeedBits, Bits;
    if Remainder(a) == Remainder(b) {
      BurstOfBits(0, Bits(a), Bits(b), i, j);
      BitsInjective(a, b);
    }
  }

  /** The same for a window of 8 bytes. */
  lemma ByteBurstDistinct(a: seq<bv8>, b: seq<bv8>, i: nat, j: nat)
    requires |a| == |b| && i <= j <= |a| && j - i <= 8
    requires a[..i] == b[..i] && a[j..] == b[j..]
    ensures Remainder(a) == Remainder(b) <==> a == b
  {
    hide Remainder, Bits;
    BitsAppend(a[..i], a[i..]);
    BitsAppend(b[..i], b[i..]);
    BitsAppend(a[..j], a[j..]);
    BitsAppend(b[..j], b[j..]);
    assert a == a[..i] + a[i..] == a[..j] + a[j..];
    assert b == b[..i] + b[i..] == b[..j] + b[j..];
    assert Bits(a)[..8 * i] == Bits(a[..i]) && Bits(b)[..8 * i] == Bits(b[..i]);
    assert Bits(a)[8 * j..] == Bits(a[j..]) && Bits(b)[8 * j..] == Bits(b[j..]);
    BurstDistinct(a, b, 8 * i, 8 * j);
  }

  /** Appending one buffer to two others keeps their checksums as equal, or as different, as they were. */
  lemma CommonSuffix(a: seq<bv8>, b: seq<bv8>, c: seq<bv8>)
    ensures Remainder(a + c) == Remainder(b + c) <==> Remainder(a) == Remainder(b)
  {
    hide Remainder, FeedBits, Bits;
    RemainderOfConcat(a, c);
    RemainderOfConcat(b, c);
    if Remainder(a + c) == Remainder(b + c) {
      FeedBitsInjective(Remainder(a), Remainder(b), Bits(c));
    }
  }

  /** The window cannot be widened: the generator itself, spread over 65 bits, divides evenly. */
  lemma WiderBurstCollides()
    ensures Remainder([0x80, 0, 0, 0, 0, 0, 0, 0, 0xD8]) == Remainder([0, 0, 0, 0, 0, 0, 0, 0, 0])
  {
    GeneratorSteps();
    RemainderOfNone();
    RemainderOfZeros(9);
    hide Remainder, TableStep;
    var b1 := [] + [0x80];
    RemainderNext([], 0x80);
    var b2 := b1 + [0];
    RemainderNext(b1, 0);
    var b3 := b2 + [0];
    RemainderNext(b2, 0);
    var b4 := b3 + [0];
    RemainderNext(b3, 0);
    var b5 := b4 + [0];
    RemainderNext(b4, 0);
    var b6 := b5 + [0];
    RemainderNext(b5, 0);
    var b7 := b6 + [0];
    RemainderNext(b6, 0);
    var b8 := b7 + [0];
    RemainderNext(b7, 0);
    var b9 := b8 + [0xD8];
    RemainderNext(b8, 0xD8);
    assert b9 == [0x80, 0, 0, 0, 0, 0, 0, 0, 0xD8];
    assert seq(9, _ => 0 as bv8) == [0, 0, 0, 0, 0, 0, 0, 0, 0];
  }

  lemma GeneratorSteps()
    ensures TableStep(0, 0x80) == 0xD800_0000_0000_0000
    ensures TableStep(0xD800_0000_0000_0000, 0) == 0x00D8_0000_0000_0000
    ensures TableStep(0x00D8_0000_0000_0000, 0) == 0x0000_D800_0000_0000
    ensures TableStep(0x0000_D800_0000_0000, 0) == 0x0000_00D8_0000_0000
    ensures TableStep(0x0000_00D8_0000_0000, 0) == 0x0000_0000_D800_0000
    ensures TableStep(0x0000_0000_D800_0000, 0) == 0x0000_0000_00D8_0000
    ensures TableStep(0x0000_0000_00D8_0000, 0) == 0x0000_0000_0000_D800
    ensures TableStep(0x0000_0000_0000_D800, 0) == 0x0000_0000_0000_00D8
    ensures TableStep(0x0000_0000_0000_00D8, 0xD8) == 0
  {
  }
}
