// The packet encryption of src/crypto.rs: an XOR with one mask byte, the mask itself spread over
// the even bits of the third and fourth header byte, and the routing by the first two bytes.
// Shifts and bit masks of bytes are written as division and remainder by powers of two.
module Crypto {
  import opened Bytes

  const LX_HEADER: Bytes := [112, 108]
  const X_HEADER: Bytes := [112, 120]
  const LZ4_MAGIC: Bytes := [4, 34, 77, 24]

  // ---------------------------------------------------------------- exclusive or

  /** `a ^ b`, bit by bit from the lowest. */
  function Xor(a: nat, b: nat): nat
    decreases a + b
  {
    if a == 0 && b == 0 then 0 else (a % 2 + b % 2) % 2 + 2 * Xor(a / 2, b / 2)
  }

  lemma {:induction false} XorZero(a: nat)
    ensures Xor(a, 0) == a
  {
    if a != 0 {
      XorZero(a / 2);
      assert a == 2 * (a / 2) + a % 2;
    }
  }

  lemma {:induction false} XorTwice(a: nat, b: nat)
    ensures Xor(Xor(a, b), b) == a
    decreases a + b
  {
    hide Xor;
    if b == 0 {
      XorZero(a);
    } else {
      XorTwice(a / 2, b / 2);
      XorDigits(a, b);
      XorDigits(Xor(a, b), b);
      DigitTwice(a % 2, b % 2);
      assert a == a % 2 + 2 * (a / 2);
    }
  }

  /** The lowest bit of an exclusive or, and the rest. */
  lemma XorDigits(a: nat, b: nat)
    ensures Xor(a, b) == (a % 2 + b % 2) % 2 + 2 * Xor(a / 2, b / 2)
    ensures Xor(a, b) % 2 == (a % 2 + b % 2) % 2 && Xor(a, b) / 2 == Xor(a / 2, b / 2)
  {
    hide Xor;
    XorUnfolds(a, b);
    DoubleAndDigit((a % 2 + b % 2) % 2, Xor(a / 2, b / 2));
  }

  lemma XorUnfolds(a: nat, b: nat)
    ensures Xor(a, b) == (a % 2 + b % 2) % 2 + 2 * Xor(a / 2, b / 2)
  {
  }

  lemma DigitTwice(a: nat, b: nat)
    requires a < 2 && b < 2
    ensures ((a + b) % 2 + b) % 2 == a
  {
  }

  lemma DoubleAndDigit(digit: nat, half: nat)
    requires digit < 2
    ensures (digit + 2 * half) / 2 == half && (digit + 2 * half) % 2 == digit
  {
  }

  lemma {:induction false} XorBound(a: nat, b: nat, bound: nat, bits: nat)
    requires bound == Power2(bits) && a < bound && b < bound
    ensures Xor(a, b) < bound
    decreases bits
  {
    if a != 0 || b != 0 {
      XorBound(a / 2, b / 2, bound / 2, bits - 1);
    }
  }

  function Power2(n: nat): nat { if n == 0 then 1 else 2 * Power2(n - 1) }

  function XorByte(a: Byte, b: Byte): Byte {
    assert Xor(a, b) < 256 by {
      XorBound(a, b, 256, 8);
    }
    Xor(a, b)
  }

  function XorAll(s: Bytes, mask: Byte): (r: Bytes)
    ensures |r| == |s| && forall i :: 0 <= i < |s| ==> r[i] == XorByte(s[i], mask)
  {
    seq(|s|, i requires 0 <= i < |s| => XorByte(s[i], mask))
  }

  lemma XorAllTwice(s: Bytes, mask: Byte)
    ensures XorAll(XorAll(s, mask), mask) == s
  {
    var r := XorAll(XorAll(s, mask), mask);
    forall i | 0 <= i < |s| ensures r[i] == s[i] {
      XorTwice(s[i], mask);
    }
  }

  // ---------------------------------------------------------------- the mask in the header

  function Bit(x: Byte, weight: int): int
    requires weight > 0
  {
    x / weight % 2
  }

  /** `n & 0b10101010` */
  function OddBits(n: Byte): int {
    Bit(n, 128) * 128 + Bit(n, 32) * 32 + Bit(n, 8) * 8 + Bit(n, 2) * 2
  }

  /** The third header byte: the upper half of the mask on the even bits of n. */
  function SpreadHigh(n: Byte, mask: Byte): Byte {
    OddBits(n) + Bit(mask, 128) * 64 + Bit(mask, 64) * 16 + Bit(mask, 32) * 4 + Bit(mask, 16)
  }

  /** The fourth header byte: the lower half. */
  function SpreadLow(n: Byte, mask: Byte): Byte {
    OddBits(n) + Bit(mask, 8) * 64 + Bit(mask, 4) * 16 + Bit(mask, 2) * 4 + Bit(mask, 1)
  }

  function MaskOf(high: Byte, low: Byte): Byte {
    Bit(high, 64) * 128 + Bit(high, 16) * 64 + Bit(high, 4) * 32 + Bit(high, 1) * 16
    + Bit(low, 64) * 8 + Bit(low, 16) * 4 + Bit(low, 4) * 2 + Bit(low, 1)
  }

  function ExtractMask(data: Bytes): (mask: Option<Byte>)
    ensures mask.Some? <==> |data| >= 4
  {
    if |data| < 4 then None else Some(MaskOf(data[2], data[3]))
  }

  lemma EvenBits(k7: int, k5: int, k3: int, k1: int, b6: int, b4: int, b2: int, b0: int, x: Byte)
    requires 0 <= k7 <= 1 && 0 <= k5 <= 1 && 0 <= k3 <= 1 && 0 <= k1 <= 1
    requires 0 <= b6 <= 1 && 0 <= b4 <= 1 && 0 <= b2 <= 1 && 0 <= b0 <= 1
    requires x == k7 * 128 + k5 * 32 + k3 * 8 + k1 * 2 + b6 * 64 + b4 * 16 + b2 * 4 + b0
    ensures Bit(x, 64) == b6 && Bit(x, 16) == b4 && Bit(x, 4) == b2 && Bit(x, 1) == b0
  {
    assert x / 64 == 2 * k7 + b6;
    assert x / 16 == 2 * (4 * k7 + 2 * b6 + k5) + b4;
    assert x / 4 == 2 * (16 * k7 + 8 * b6 + 4 * k5 + 2 * b4 + k3) + b2;
  }

  lemma AllBits(m: Byte)
    ensures m == Bit(m, 128) * 128 + Bit(m, 64) * 64 + Bit(m, 32) * 32 + Bit(m, 16) * 16
                 + Bit(m, 8) * 8 + Bit(m, 4) * 4 + Bit(m, 2) * 2 + Bit(m, 1)
  {
    assert m / 64 == m / 128 * 2 + Bit(m, 64);
    assert m / 32 == m / 64 * 2 + Bit(m, 32);
    assert m / 16 == m / 32 * 2 + Bit(m, 16);
    assert m / 8 == m / 16 * 2 + Bit(m, 8);
    assert m / 4 == m / 8 * 2 + Bit(m, 4);
    assert m / 2 == m / 4 * 2 + Bit(m, 2);
    assert m == m / 2 * 2 + Bit(m, 1);
  }

  /** Any mask is recovered, whatever the other bits of the two header bytes. */
  lemma MaskRecovered(n2: Byte, n3: Byte, mask: Byte)
    ensures MaskOf(SpreadHigh(n2, mask), SpreadLow(n3, mask)) == mask
  {
    EvenBits(Bit(n2, 128), Bit(n2, 32), Bit(n2, 8), Bit(n2, 2),
             Bit(mask, 128), Bit(mask, 64), Bit(mask, 32), Bit(mask, 16), SpreadHigh(n2, mask));
    EvenBits(Bit(n3, 128), Bit(n3, 32), Bit(n3, 8), Bit(n3, 2),
             Bit(mask, 8), Bit(mask, 4), Bit(mask, 2), Bit(mask, 1), SpreadLow(n3, mask));
    AllBits(mask);
  }

  /** The four header bytes over a masked buffer. */
  function Header(kind: Bytes, n: Bytes, mask: Byte): Bytes
    requires |n| >= 4
  {
    kind + [SpreadHigh(n[2], mask), SpreadLow(n[3], mask)]
  }

  /** XOR the bytes of a buffer from one index up to another, in place. */
  method MaskInPlace(a: array<Byte>, from: nat, to: nat, mask: Byte)
    requires from <= to <= a.Length
    modifies a
    ensures a[..] == old(a[..from]) + XorAll(old(a[from..to]), mask) + old(a[to..])
  {
    for i := from to to
      invariant forall k :: 0 <= k < a.Length ==>
                  a[k] == if from <= k < i then XorByte(old(a[k]), mask) else old(a[k])
    {
      a[i] := XorByte(a[i], mask);
    }
  }

  /** Overwrite the first four bytes with the scheme and the spread mask. */
  method StampHeader(n: array<Byte>, kind: Bytes, mask: Byte)
    requires n.Length >= 4 && |kind| == 2
    modifies n
    ensures n[..] == Header(kind, old(n[..]), mask) + old(n[4..])
  {
    hide SpreadHigh, SpreadLow;
    n[0] := kind[0];
    n[1] := kind[1];
    n[2] := SpreadHigh(n[2], mask);
    n[3] := SpreadLow(n[3], mask);
  }

  method Buffer(s: Bytes) returns (a: array<Byte>)
    ensures fresh(a) && a[..] == s
  {
    a := new Byte[|s|](i requires 0 <= i < |s| => s[i]);
  }

  // ---------------------------------------------------------------- the x scheme

  /** The packet for a random mask byte and a random four byte prefix. */
  function EncryptX(data: Bytes, mask: Byte, prefix: Bytes): Bytes
    requires |prefix| == 4
  {
    var n := XorAll(prefix + data, mask);
    Header(X_HEADER, n, mask) + n[4..]
  }

  function DecryptX(data: Bytes): Bytes {
    match ExtractMask(data)
    case None => []
    case Some(mask) => XorAll(data[4..], mask)
  }

  method EncryptXInPlace(data: Bytes, mask: Byte, prefix: Bytes) returns (r: Bytes)
    requires |prefix| == 4
    ensures r == EncryptX(data, mask, prefix)
  {
    hide Header, XorAll;
    var n := Buffer(prefix + data);
    MaskInPlace(n, 0, n.Length, mask);
    ghost var masked := n[..];
    assert masked == XorAll(prefix + data, mask);
    assert n[4..] == masked[4..];
    StampHeader(n, X_HEADER, mask);
    r := n[..];
  }

  method DecryptXInPlace(data: Bytes) returns (r: Bytes)
    ensures r == DecryptX(data)
  {
    hide MaskOf, XorAll;
    var mask := ExtractMask(data);
    if mask.None? {
      return [];
    }
    var n := Buffer(data[4..]);
    MaskInPlace(n, 0, n.Length, mask.value);
    r := n[..];
    assert data[4..] == data[4..][0..|data| - 4];
  }

  /** Whatever the mask and the random prefix, decryption gives the data back. */
  lemma DecryptOfEncryptX(data: Bytes, mask: Byte, prefix: Bytes)
    requires |prefix| == 4
    ensures |EncryptX(data, mask, prefix)| == |data| + 4
    ensures EncryptX(data, mask, prefix)[..2] == X_HEADER
    ensures DecryptX(EncryptX(data, mask, prefix)) == data
  {
    var n := XorAll(prefix + data, mask);
    var e := EncryptX(data, mask, prefix);
    MaskRecovered(n[2], n[3], mask);
    assert e[4..] == n[4..] && n[4..] == XorAll(data, mask);
    XorAllTwice(data, mask);
  }

  // ---------------------------------------------------------------- the lx scheme

  function MaskedPart(n: nat): nat { if n < 100 then n else 100 }

  /** A compressed frame with its first hundred bytes masked and its first four replaced. */
  function EncryptFrame(frame: Bytes, mask: Byte): Bytes
    requires |frame| >= 4
  {
    var k := MaskedPart(|frame|);
    var n := XorAll(frame[..k], mask) + frame[k..];
    Header(LX_HEADER, n, mask) + n[4..]
  }

  /** The frame handed to the decompressor: unmasked, with the LZ4 magic put back. */
  function RepairFrame(data: Bytes, mask: Byte): Bytes
    requires |data| >= 4
  {
    var k := MaskedPart(|data|);
    LZ4_MAGIC + XorAll(data[4..k], mask) + data[k..]
  }

  method EncryptFrameInPlace(frame: Bytes, mask: Byte) returns (r: Bytes)
    requires |frame| >= 4
    ensures r == EncryptFrame(frame, mask)
  {
    hide Header, XorAll;
    var n := Buffer(frame);
    var k := MaskedPart(n.Length);
    MaskInPlace(n, 0, k, mask);
    ghost var masked := n[..];
    assert masked == XorAll(frame[..k], mask) + frame[k..];
    assert n[4..] == masked[4..];
    StampHeader(n, LX_HEADER, mask);
    r := n[..];
  }

  method RepairFrameInPlace(data: Bytes) returns (r: Option<Bytes>)
    ensures r == if ExtractMask(data).Some? then Some(RepairFrame(data, ExtractMask(data).value)) else None
  {
    hide MaskOf, XorAll;
    var found := ExtractMask(data);
    if found.None? {
      return None;
    }
    var n := Buffer(data);
    var k, mask := MaskedPart(n.Length), found.value;
    MaskInPlace(n, 2, k, mask);
    ghost var masked := n[..];
    RepairedTail(data, k, mask, masked);
    n[0], n[1], n[2], n[3] := 4, 34, 77, 24;
    r := Some(n[..]);
    assert r.value == LZ4_MAGIC + masked[4..];
    assert r.value == LZ4_MAGIC + XorAll(data[4..k], mask) + data[k..];
  }

  lemma RepairedTail(data: Bytes, k: nat, mask: Byte, masked: Bytes)
    requires 4 <= k <= |data| && masked == data[..2] + XorAll(data[2..k], mask) + data[k..]
    ensures masked[4..] == XorAll(data[4..k], mask) + data[k..]
  {
    hide XorByte;
    var x := XorAll(data[2..k], mask);
    assert x[2..] == XorAll(data[4..k], mask);
    assert masked == data[..2] + x[..2] + (x[2..] + data[k..]);
  }

  /** Where the parts of a stamped frame end up. */
  lemma StampedParts(header: Bytes, x: Bytes, rest: Bytes)
    requires |header| == 4 && |x| >= 4
    ensures var e := header + (x + rest)[4..];
            |e| == |x| + |rest| && e[4..|x|] == x[4..] && e[|x|..] == rest
  {
    assert (x + rest)[4..] == x[4..] + rest;
  }

  lemma XorAllTail(s: Bytes, mask: Byte)
    requires |s| >= 4
    ensures XorAll(s, mask)[4..] == XorAll(s[4..], mask)
  {
    hide XorByte;
  }

  /** A frame that began with the magic bytes is rebuilt, shorter or longer than a hundred bytes. */
  lemma RepairOfEncryptedFrame(frame: Bytes, mask: Byte)
    requires |frame| >= 4 && frame[..4] == LZ4_MAGIC
    ensures |EncryptFrame(frame, mask)| == |frame|
    ensures EncryptFrame(frame, mask)[..2] == LX_HEADER
    ensures ExtractMask(EncryptFrame(frame, mask)) == Some(mask)
    ensures RepairFrame(EncryptFrame(frame, mask), mask) == frame
  {
    hide SpreadHigh, SpreadLow, MaskOf, XorAll;
    var k := MaskedPart(|frame|);
    var x, rest := XorAll(frame[..k], mask), frame[k..];
    var n, e := x + rest, EncryptFrame(frame, mask);
    MaskRecovered(n[2], n[3], mask);
    StampedParts(Header(LX_HEADER, n, mask), x, rest);
    XorAllTail(frame[..k], mask);
    assert frame[..k][4..] == frame[4..k];
    XorAllTwice(frame[4..k], mask);
    Reassembled(frame, k);
  }

  lemma Reassembled(frame: Bytes, k: nat)
    requires 4 <= k <= |frame| && frame[..4] == LZ4_MAGIC
    ensures LZ4_MAGIC + frame[4..k] + frame[k..] == frame
  {
    assert frame == frame[..4] + frame[4..k] + frame[k..];
  }

  // ---------------------------------------------------------------- routing

  datatype Failure =
    | TruncatedX | OversizeX | TruncatedLx | CorruptLx | OversizeLx | OversizePlain

  /** The LZ4 library: compressed frames start with the magic bytes and decompress again. */
  ghost predicate IsLz4(compress: Bytes -> Bytes, decompress: Bytes -> Option<Bytes>) {
    forall x :: && |compress(x)| >= 4 && compress(x)[..4] == LZ4_MAGIC
                && decompress(compress(x)) == Some(x)
  }

  function DecryptLx(decompress: Bytes -> Option<Bytes>, data: Bytes, max: nat): Result<Bytes, Failure> {
    var mask := ExtractMask(data);
    if mask.None? then Err(TruncatedLx)
    else
      var out := decompress(RepairFrame(data, mask.value));
      if out.None? then Err(CorruptLx)
      else if |out.value| > max then Err(OversizeLx)
      else Ok(out.value)
  }

  function TryAutoDecrypt(decompress: Bytes -> Option<Bytes>, data: Bytes, max: nat): Result<Bytes, Failure> {
    if |data| >= 2 && data[..2] == LX_HEADER then DecryptLx(decompress, data, max)
    else if |data| >= 2 && data[..2] == X_HEADER then
      if |data| < 4 then Err(TruncatedX)
      else if |data| - 4 > max then Err(OversizeX)
      else Ok(DecryptX(data))
    else if |data| > max then Err(OversizePlain)
    else Ok(data)
  }

  /** Both schemes are recognised from the packet alone and undone, up to the size limit and not beyond;
      data with neither header passes through. */
  lemma AutoDecryptUndoesBoth(compress: Bytes -> Bytes, decompress: Bytes -> Option<Bytes>, data: Bytes,
                              mask: Byte, prefix: Bytes, max: nat)
    requires IsLz4(compress, decompress) && |prefix| == 4
    ensures TryAutoDecrypt(decompress, EncryptX(data, mask, prefix), max)
            == if |data| <= max then Ok(data) else Err(OversizeX)
    ensures TryAutoDecrypt(decompress, EncryptFrame(compress(data), mask), max)
            == if |data| <= max then Ok(data) else Err(OversizeLx)
    ensures |data| < 2 || data[..2] !in {[112, 120], [112, 108]} ==>
              TryAutoDecrypt(decompress, data, max) == if |data| <= max then Ok(data) else Err(OversizePlain)
  {
    DecryptOfEncryptX(data, mask, prefix);
    RepairOfEncryptedFrame(compress(data), mask);
  }

  /** A header alone is refused, and so is an lx packet whose repaired frame does not decompress. */
  lemma RefusedPackets(decompress: Bytes -> Option<Bytes>, data: Bytes, max: nat)
    requires |data| >= 2
    ensures data[..2] == [112, 120] && |data| < 4 ==> TryAutoDecrypt(decompress, data, max) == Err(TruncatedX)
    ensures data[..2] == [112, 108] && |data| < 4 ==> TryAutoDecrypt(decompress, data, max) == Err(TruncatedLx)
    ensures data[..2] == [112, 108] && |data| >= 4
            && decompress(RepairFrame(data, MaskOf(data[2], data[3]))).None? ==>
              TryAutoDecrypt(decompress, data, max) == Err(CorruptLx)
  {
  }

  // ---------------------------------------------------------------- what each byte becomes

  lemma HalfAndHalf(x: nat, w: nat)
    requires w in {2, 4, 8, 16, 32, 64, 128}
    ensures x / 2 / (w / 2) == x / w
  {
    if w == 2 || w == 4 || w == 8 {
      assert w == 2 ==> x / 2 / 1 == x / 2;
      assert w == 4 ==> x / 2 / 2 == x / 4;
      assert w == 8 ==> x / 2 / 4 == x / 8;
    } else {
      assert w == 16 ==> x / 2 / 8 == x / 16;
      assert w == 32 ==> x / 2 / 16 == x / 32;
      assert w == 64 ==> x / 2 / 32 == x / 64;
      assert w == 128 ==> x / 2 / 64 == x / 128;
    }
  }

  lemma {:induction false} XorAtWeight(a: nat, b: nat, w: nat)
    requires w in {1, 2, 4, 8, 16, 32, 64, 128}
    ensures Xor(a, b) / w % 2 == (a / w % 2 + b / w % 2) % 2
    decreases w
  {
    hide Xor;
    XorDigits(a, b);
    if w == 1 {
      assert Xor(a, b) / 1 == Xor(a, b) && a / 1 == a && b / 1 == b;
    } else {
      XorAtWeight(a / 2, b / 2, w / 2);
      HalfAndHalf(Xor(a, b), w);
      HalfAndHalf(a, w);
      HalfAndHalf(b, w);
    }
  }

  /** Each bit of an exclusive or tells whether the two bits differ. */
  lemma XorIsBitwise(a: Byte, b: Byte, w: nat)
    requires w in {1, 2, 4, 8, 16, 32, 64, 128}
    ensures Bit(XorByte(a, b), w) == if Bit(a, w) == Bit(b, w) then 0 else 1
  {
    hide Xor;
    XorAtWeight(a, b, w);
  }

  /** The two header bytes carry the mask's bits from the highest down at their even places, and keep the bits
      they had at the odd ones. */
  lemma HeaderBits(n: Byte, mask: Byte)
    ensures var h := SpreadHigh(n, mask);
            && Bit(h, 64) == Bit(mask, 128) && Bit(h, 16) == Bit(mask, 64)
            && Bit(h, 4) == Bit(mask, 32) && Bit(h, 1) == Bit(mask, 16)
            && forall w :: w in {2, 8, 32, 128} ==> Bit(h, w) == Bit(n, w)
    ensures var l := SpreadLow(n, mask);
            && Bit(l, 64) == Bit(mask, 8) && Bit(l, 16) == Bit(mask, 4)
            && Bit(l, 4) == Bit(mask, 2) && Bit(l, 1) == Bit(mask, 1)
            && forall w :: w in {2, 8, 32, 128} ==> Bit(l, w) == Bit(n, w)
  {
    hide Bit;
    BitsAreDigits(n);
    BitsAreDigits(mask);
    EvenBits(Bit(n, 128), Bit(n, 32), Bit(n, 8), Bit(n, 2),
             Bit(mask, 128), Bit(mask, 64), Bit(mask, 32), Bit(mask, 16), SpreadHigh(n, mask));
    EvenBits(Bit(n, 128), Bit(n, 32), Bit(n, 8), Bit(n, 2),
             Bit(mask, 8), Bit(mask, 4), Bit(mask, 2), Bit(mask, 1), SpreadLow(n, mask));
    OddPlaces(Bit(n, 128), Bit(n, 32), Bit(n, 8), Bit(n, 2),
              Bit(mask, 128), Bit(mask, 64), Bit(mask, 32), Bit(mask, 16), SpreadHigh(n, mask));
    OddPlaces(Bit(n, 128), Bit(n, 32), Bit(n, 8), Bit(n, 2),
              Bit(mask, 8), Bit(mask, 4), Bit(mask, 2), Bit(mask, 1), SpreadLow(n, mask));
  }

  lemma BitsAreDigits(x: Byte)
    ensures forall w :: w in {1, 2, 4, 8, 16, 32, 64, 128} ==> 0 <= Bit(x, w) <= 1
  {
  }

  lemma OddPlaces(k7: int, k5: int, k3: int, k1: int, b6: int, b4: int, b2: int, b0: int, x: Byte)
    requires 0 <= k7 <= 1 && 0 <= k5 <= 1 && 0 <= k3 <= 1 && 0 <= k1 <= 1
    requires 0 <= b6 <= 1 && 0 <= b4 <= 1 && 0 <= b2 <= 1 && 0 <= b0 <= 1
    requires x == k7 * 128 + k5 * 32 + k3 * 8 + k1 * 2 + b6 * 64 + b4 * 16 + b2 * 4 + b0
    ensures Bit(x, 128) == k7 && Bit(x, 32) == k5 && Bit(x, 8) == k3 && Bit(x, 2) == k1
  {
    assert x / 128 == k7;
    assert x / 32 == 2 * (2 * k7 + b6) + k5;
    assert x / 8 == 2 * (8 * k7 + 4 * b6 + 2 * k5 + b4) + k3;
    assert x / 2 == 2 * (32 * k7 + 16 * b6 + 8 * k5 + 4 * b4 + 2 * k3 + b2) + k1;
  }

  /** The packet of the x scheme byte by byte. */
  lemma EncryptXBytes(data: Bytes, mask: Byte, prefix: Bytes)
    requires |prefix| == 4
    ensures var e := EncryptX(data, mask, prefix);
            && |e| == |data| + 4
            && e[..4] == [112, 120, SpreadHigh(XorByte(prefix[2], mask), mask),
                          SpreadLow(XorByte(prefix[3], mask), mask)]
            && forall i :: 0 <= i < |data| ==> e[i + 4] == XorByte(data[i], mask)
  {
    hide SpreadHigh, SpreadLow, XorByte;
  }

  /** The frame of the lx scheme byte by byte: masked up to the hundredth byte, with four bytes stamped over. */
  lemma EncryptFrameBytes(frame: Bytes, mask: Byte)
    requires |frame| >= 4
    ensures var e := EncryptFrame(frame, mask);
            && |e| == |frame|
            && e[..4] == [112, 108, SpreadHigh(XorByte(frame[2], mask), mask),
                          SpreadLow(XorByte(frame[3], mask), mask)]
            && forall i :: 4 <= i < |frame| ==> e[i] == if i < 100 then XorByte(frame[i], mask) else frame[i]
  {
    hide SpreadHigh, SpreadLow, XorByte;
  }

  /** And the frame handed to the decompressor. */
  lemma RepairFrameBytes(data: Bytes, mask: Byte)
    requires |data| >= 4
    ensures var f := RepairFrame(data, mask);
            && |f| == |data| && f[..4] == [0x04, 0x22, 0x4D, 0x18]
            && forall i :: 4 <= i < |data| ==> f[i] == if i < 100 then XorByte(data[i], mask) else data[i]
  {
    hide XorByte;
  }
}
