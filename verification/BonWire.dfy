// The integer and byte layer of BON: DataReader and DataWriter (src/bon.rs).
module BonWire {
  import opened Bytes

  const I32_MIN: int := -0x8000_0000
  const I32_MAX: int := 0x7fff_ffff
  const I64_MIN: int := -0x8000_0000_0000_0000
  const I64_MAX: int := 0x7fff_ffff_ffff_ffff

  predicate IsI32(v: int) { I32_MIN <= v <= I32_MAX }
  predicate IsI64(v: int) { I64_MIN <= v <= I64_MAX }

  /** What one read leaves unread and what it returns. */
  datatype Read<+T> = Read(rest: Bytes, out: Option<T>)

  // ---------------------------------------------------------------- 7-bit integers

  /** Little-endian base-128 digits, every digit but the last with its high bit set. */
  function Digits7(n: nat): (r: Bytes)
    ensures |r| >= 1
  {
    if n < 128 then [n] else [n % 128 + 128] + Digits7(n / 128)
  }

  /** A length or index as it is written: its low 32 bits in base 128. */
  function Length(n: nat): Bytes { Digits7(n % TWO_32) }

  /** `digits << (7 * index)`. */
  function Shift7(digits: nat, index: nat): nat
    requires index <= 4
  {
    if index == 0 then digits else if index == 1 then 0x80 * digits else if index == 2 then 0x4000 * digits
    else if index == 3 then 0x20_0000 * digits else 0x1000_0000 * digits
  }

  function Low7(b: Byte): nat { b % 128 }

  /** The reader's loop from digit `index` on; a fifth digit may only carry four bits. */
  function Take7From(input: Bytes, index: nat, value: nat): (r: Read<nat>)
    requires index <= 5
    decreases |input|
  {
    if index == 5 || input == [] then Read(input, None)
    else
      var b := input[0];
      if index == 4 && b >= 16 then Read(input[1..], None)
      else
        var v := value + Shift7(Low7(b), index);
        if b < 128 then Read(input[1..], Some(v)) else Take7From(input[1..], index + 1, v)
  }

  function Take7(input: Bytes): Read<nat> { Take7From(input, 0, 0) }

  /** How large a value may still be when `index` digits have been read. */
  function Room(index: nat): nat
    requires index <= 4
  {
    if index == 0 then TWO_32 else if index == 1 then 0x200_0000 else if index == 2 then 0x4_0000
    else if index == 3 then 0x800 else 16
  }

  lemma Shift7Split(n: nat, index: nat)
    requires index < 4
    ensures Shift7(n % 128, index) + Shift7(n / 128, index + 1) == Shift7(n, index)
    ensures n < Room(index) ==> n / 128 < Room(index + 1)
  {
    assert n == n / 128 * 128 + n % 128;
  }

  lemma {:induction false} SevenBitRoundTripFrom(n: nat, index: nat, value: nat, rest: Bytes)
    requires index <= 4 && n < Room(index)
    ensures |Digits7(n)| <= 5 - index
    ensures Take7From(Digits7(n) + rest, index, value) == Read(rest, Some(value + Shift7(n, index)))
    decreases 5 - index
  {
    var w := Digits7(n) + rest;
    if n < 128 {
      assert w[1..] == rest;
    } else {
      assert w[0] == n % 128 + 128 && w[1..] == Digits7(n / 128) + rest;
      assert (n % 128 + 128) % 128 == n % 128;
      Shift7Split(n, index);
      SevenBitRoundTripFrom(n / 128, index + 1, value + Shift7(n % 128, index), rest);
    }
  }

  /** Every u32 takes one to five bytes and is read back before any suffix. */
  lemma SevenBitRoundTrip(n: nat, rest: Bytes)
    requires n < TWO_32
    ensures 1 <= |Digits7(n)| <= 5
    ensures Take7(Digits7(n) + rest) == Read(rest, Some(n))
  {
    SevenBitRoundTripFrom(n, 0, 0, rest);
  }

  // ---------------------------------------------------------------- fixed-width integers

  /** The low 32 bits of v as a signed integer (`v as i32`). */
  function ToI32(v: int): (r: int)
    ensures IsI32(r) && (IsI32(v) ==> r == v)
  {
    (v - I32_MIN) % TWO_32 + I32_MIN
  }

  function Word(b0: int, b1: int, b2: int, b3: int): int {
    b0 + 0x100 * b1 + 0x1_0000 * b2 + 0x100_0000 * b3
  }

  function I32Bytes(v: int): Bytes {
    var u := v % TWO_32;
    [u % 0x100, u / 0x100 % 0x100, u / 0x1_0000 % 0x100, u / 0x100_0000 % 0x100]
  }

  function TakeI32(input: Bytes): (r: Read<int>)
    ensures r.out.Some? ==> IsI32(r.out.value)
  {
    if |input| < 4 then Read(input, None)
    else
      Read(input[4..],
           Some(ToI32(Word(input[0], input[1], input[2], input[3]))))
  }

  /** Two's complement negation, which leaves i64::MIN as it is. */
  function Negate64(v: int): int
    requires IsI64(v)
  {
    if v == I64_MIN then v else -v
  }

  /** The high half the writer puts out: the complement of the high half of -v when v < 0. */
  function HighWord(v: int): (hi: int)
    requires IsI64(v)
    ensures IsI32(hi)
  {
    if v < 0 then -ToI32(Negate64(v) / TWO_32) - 1 else ToI32(v / TWO_32)
  }

  function I64Bytes(v: int): Bytes
    requires IsI64(v)
  {
    I32Bytes(ToI32(v)) + I32Bytes(HighWord(v))
  }

  function Unsigned(lo: int): int { if lo < 0 then lo + TWO_32 else lo }

  function TakeI64(input: Bytes): (r: Read<int>)
    ensures r.out.Some? ==> IsI64(r.out.value)
  {
    var lo := TakeI32(input);
    if lo.out.None? then Read(lo.rest, None)
    else
      var hi := TakeI32(lo.rest);
      if hi.out.None? then Read(hi.rest, None)
      else
        Read(hi.rest, Some(Unsigned(lo.out.value) + TWO_32 * hi.out.value))
  }

  lemma WordOfBytes(u: int)
    requires 0 <= u < TWO_32
    ensures Word(u % 0x100, u / 0x100 % 0x100, u / 0x1_0000 % 0x100, u / 0x100_0000 % 0x100) == u
  {
    var a, b, c := u / 0x100, u / 0x1_0000, u / 0x100_0000;
    assert u == a * 0x100 + u % 0x100;
    assert a / 0x100 == b && a == b * 0x100 + a % 0x100;
    assert b / 0x100 == c && b == c * 0x100 + b % 0x100;
    assert 0 <= c < 0x100;
  }

  lemma I32RoundTrip(v: int, rest: Bytes)
    requires IsI32(v)
    ensures |I32Bytes(v)| == 4
    ensures TakeI32(I32Bytes(v) + rest) == Read(rest, Some(v))
  {
    hide Word, ToI32;
    var w := I32Bytes(v) + rest;
    assert w[4..] == rest && w[..4] == I32Bytes(v);
    assert w[0] == w[..4][0] && w[1] == w[..4][1] && w[2] == w[..4][2] && w[3] == w[..4][3];
    WordOfBytes(v % TWO_32);
    SignedBack(v);
  }

  lemma SignedBack(v: int)
    requires IsI32(v)
    ensures ToI32(v % TWO_32) == v
  {
  }

  /** The 64-bit coder drops one from the high half exactly at the negative multiples of 2^32. */
  predicate I64Survives(v: int) { v >= 0 || v % TWO_32 != 0 }

  /** What reading back I64Bytes(v) gives: v, or v - 2^32 wrapped into 64 bits. */
  function I64Image(v: int): int
    requires IsI64(v)
  {
    if I64Survives(v) then v
    else if v == I64_MIN then I64_MAX - TWO_32 + 1
    else v - TWO_32
  }

  lemma I64RoundTrip(v: int, rest: Bytes)
    requires IsI64(v)
    ensures |I64Bytes(v)| == 8
    ensures TakeI64(I64Bytes(v) + rest) == Read(rest, Some(I64Image(v)))
    ensures I64Image(v) == v <==> I64Survives(v)
  {
    hide I32Bytes, TakeI32, ToI32, HighWord, Unsigned, I64Image, I64Survives;
    ImageIffSurvives(v);
    var lo, hi := ToI32(v), HighWord(v);
    var tail := I32Bytes(hi) + rest;
    assert I64Bytes(v) + rest == I32Bytes(lo) + tail;
    I32RoundTrip(lo, tail);
    I32RoundTrip(hi, rest);
    Halves(v);
  }

  lemma ImageIffSurvives(v: int)
    requires IsI64(v)
    ensures I64Image(v) == v <==> I64Survives(v)
  {
  }

  lemma Halves(v: int)
    requires IsI64(v)
    ensures Unsigned(ToI32(v)) == v % TWO_32
    ensures v % TWO_32 + TWO_32 * HighWord(v) == I64Image(v)
  {
    var q, r := v / TWO_32, v % TWO_32;
    assert v == q * TWO_32 + r;
    if v < 0 && v != I64_MIN {
      if r == 0 {
        assert (-v) / TWO_32 == -q;
      } else {
        assert -v == (-q - 1) * TWO_32 + (TWO_32 - r);
        assert (-v) / TWO_32 == -q - 1;
      }
    }
  }

  // ---------------------------------------------------------------- the reader and the writer

  class DataReader {
    var data: Bytes
    var position: nat

    ghost predicate Valid() reads this { position <= |data| }

    /** What is still to be read. */
    function Rest(): Bytes
      reads this
      requires Valid()
    {
      data[position..]
    }

    constructor (bytes: Bytes)
      ensures Valid() && Rest() == bytes && data == bytes && position == 0
    {
      data, position := bytes, 0;
    }

    method Reset(bytes: Bytes)
      modifies this
      ensures Valid() && Rest() == bytes && data == bytes && position == 0
    {
      data, position := bytes, 0;
    }

    method ReadU8() returns (r: Option<Byte>)
      requires Valid()
      modifies this`position
      ensures Valid()
      ensures old(Rest()) == [] ==> r == None && Rest() == []
      ensures old(Rest()) != [] ==> r == Some(old(Rest())[0]) && Rest() == old(Rest())[1..]
    {
      if position + 1 > |data| {
        return None;
      }
      r := Some(data[position]);
      position := position + 1;
    }

    method ReadI32() returns (r: Option<int>)
      requires Valid()
      modifies this`position
      ensures Valid() && Read(Rest(), r) == TakeI32(old(Rest()))
    {
      if position + 4 > |data| {
        return None;
      }
      ghost var before := Rest();
      var b0, b1, b2, b3 := data[position], data[position + 1], data[position + 2], data[position + 3];
      assert before[0] == b0 && before[1] == b1 && before[2] == b2 && before[3] == b3;
      position := position + 4;
      assert Rest() == before[4..];
      r := Some(ToI32(Word(b0, b1, b2, b3)));
    }

    method ReadI64() returns (r: Option<int>)
      requires Valid()
      modifies this`position
      ensures Valid() && Read(Rest(), r) == TakeI64(old(Rest()))
    {
      var lo := ReadI32();
      if lo.None? {
        return None;
      }
      var hi := ReadI32();
      if hi.None? {
        return None;
      }
      r := Some(Unsigned(lo.value) + TWO_32 * hi.value);
    }

    method Read7BitInt() returns (r: Option<nat>)
      requires Valid()
      modifies this`position
      ensures Valid() && Read(Rest(), r) == Take7(old(Rest()))
    {
      var value := 0;
      for index := 0 to 5
        invariant Valid() && value >= 0
        invariant Take7From(Rest(), index, value) == Take7(old(Rest()))
      {
        ghost var before := Rest();
        var b := ReadU8();
        if b.None? {
          return None;
        }
        if index == 4 && b.value >= 16 {
          return None;
        }
        assert b.value == before[0] && Rest() == before[1..];
        value := value + Shift7(Low7(b.value), index);
        if b.value < 128 {
          return Some(value);
        }
      }
      r := None;
    }

    /** read_bytes, read_f32 and read_f64: the next `len` bytes, or None with nothing consumed. */
    method ReadBytes(len: nat) returns (r: Option<Bytes>)
      requires Valid()
      modifies this`position
      ensures Valid()
      ensures |old(Rest())| < len ==> r == None && Rest() == old(Rest())
      ensures len <= |old(Rest())| ==> r == Some(old(Rest())[..len]) && Rest() == old(Rest())[len..]
    {
      if position + len > |data| {
        return None;
      }
      r := Some(data[position..position + len]);
      assert data[position..position + len] == Rest()[..len];
      position := position + len;
    }
  }

  class DataWriter {
    var data: Bytes

    constructor ()
      ensures data == []
    {
      data := [];
    }

    method WriteU8(v: Byte)
      modifies this
      ensures data == old(data) + [v]
    {
      data := data + [v];
    }

    method WriteI32(v: int)
      requires IsI32(v)
      modifies this
      ensures data == old(data) + I32Bytes(v)
    {
      var u := v % TWO_32;
      data := data + [u % 0x100];
      data := data + [u / 0x100 % 0x100];
      data := data + [u / 0x1_0000 % 0x100];
      data := data + [u / 0x100_0000 % 0x100];
    }

    method WriteI64(v: int)
      requires IsI64(v)
      modifies this
      ensures data == old(data) + I64Bytes(v)
    {
      WriteI32(ToI32(v));
      if v < 0 {
        WriteI32(-ToI32(Negate64(v) / TWO_32) - 1);
      } else {
        WriteI32(ToI32(v / TWO_32));
      }
    }

    /** A length or index is cut to its low 32 bits before it is written. */
    method Write7BitInt(v: nat)
      modifies this
      ensures data == old(data) + Length(v)
    {
      var n := v % TWO_32;
      while n >= 0x80
        invariant n >= 0 && data + Digits7(n) == old(data) + Digits7(v % TWO_32)
      {
        data := data + [n % 128 + 128];
        n := n / 128;
      }
      data := data + [n];
    }

    method WriteBytes(src: Bytes)
      modifies this
      ensures data == old(data) + src
    {
      data := data + src;
    }
  }
}
