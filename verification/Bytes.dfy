// Bytes, UTF-8 text and the small result types shared by the other modules.
module Bytes {

  type Byte = b: int | 0 <= b < 256
  type Bytes = seq<Byte>

  datatype Option<+T> = None | Some(value: T)
  datatype Result<+T, +E> = Ok(value: T) | Err(error: E)

  const TWO_32: int := 0x1_0000_0000

  function Max(a: int, b: int): int { if a < b then b else a }

  /** Saturating subtraction. */
  function MinusOrZero(a: nat, b: nat): nat { if a >= b then a - b else 0 }

  /** The bytes of an ASCII text. */
  function Ascii(s: string): Bytes { seq(|s|, i requires 0 <= i < |s| => s[i] as int % 256) }

  /** Lexicographic order of byte strings, the order of a BTreeMap<String, _>. */
  predicate Less(a: Bytes, b: Bytes) {
    b != [] && (a == [] || a[0] < b[0] || (a[0] == b[0] && Less(a[1..], b[1..])))
  }

  lemma {:induction false} LessTrichotomy(a: Bytes, b: Bytes)
    ensures a == b || Less(a, b) || Less(b, a)
    ensures !(Less(a, b) && Less(b, a))
    ensures !Less(a, a)
  {
    if a != [] && b != [] && a[0] == b[0] {
      LessTrichotomy(a[1..], b[1..]);
      assert a == [a[0]] + a[1..] && b == [b[0]] + b[1..];
    }
    if a != [] {
      LessTrichotomy(a[1..], a[1..]);
    }
  }

  lemma {:induction false} LessTransitive(a: Bytes, b: Bytes, c: Bytes)
    requires Less(a, b) && Less(b, c)
    ensures Less(a, c)
  {
    if a != [] && a[0] == b[0] && b[0] == c[0] {
      LessTransitive(a[1..], b[1..], c[1..]);
    }
  }
}

// Well-formed UTF-8 (section 4 of RFC 3629) and the lossy reading of a byte
// string, which replaces every maximal ill-formed subpart by U+FFFD.
module Utf8 {
  import opened Bytes

  datatype Chunk = Good(len: nat) | Bad(len: nat)

  const REPLACEMENT: Bytes := [0xEF, 0xBF, 0xBD]

  predicate Tail(s: Bytes, i: nat) { i < |s| && 0x80 <= s[i] <= 0xBF }

  /** Whether s[1] may follow the lead byte s[0] of a three or four byte sequence. */
  predicate Second(s: Bytes)
    requires s != []
  {
    && Tail(s, 1)
    && (s[0] == 0xE0 ==> 0xA0 <= s[1])
    && (s[0] == 0xED ==> s[1] <= 0x9F)
    && (s[0] == 0xF0 ==> 0x90 <= s[1])
    && (s[0] == 0xF4 ==> s[1] <= 0x8F)
  }

  function First(s: Bytes): (c: Chunk)
    requires s != []
    ensures 1 <= c.len <= |s|
  {
    var lead := s[0];
    if lead < 0x80 then Good(1)
    else if 0xC2 <= lead <= 0xDF then if Tail(s, 1) then Good(2) else Bad(1)
    else if 0xE0 <= lead <= 0xEF then
      if !Second(s) then Bad(1) else if Tail(s, 2) then Good(3) else Bad(2)
    else if 0xF0 <= lead <= 0xF4 then
      if !Second(s) then Bad(1)
      else if !Tail(s, 2) then Bad(2)
      else if Tail(s, 3) then Good(4) else Bad(3)
    else Bad(1)
  }

  predicate Valid(s: Bytes) {
    s == [] || (First(s).Good? && Valid(s[First(s).len..]))
  }

  function Lossy(s: Bytes): Bytes {
    if s == [] then []
    else
      var c := First(s);
      (if c.Good? then s[..c.len] else REPLACEMENT) + Lossy(s[c.len..])
  }

  lemma {:induction false} LossyIsIdentityOnValid(s: Bytes)
    requires Valid(s)
    ensures Lossy(s) == s
  {
    if s != [] {
      LossyIsIdentityOnValid(s[First(s).len..]);
    }
  }

  // A chunk is recognised from its own bytes alone, whatever follows it.
  lemma FirstOfPrefix(c: Bytes, rest: Bytes)
    requires c != [] && First(c) == Good(|c|)
    ensures First(c + rest) == Good(|c|)
  {
    assert forall i :: 0 <= i < |c| ==> (c + rest)[i] == c[i];
  }

  lemma FirstIsLocal(s: Bytes)
    requires s != [] && First(s).Good?
    ensures First(s[..First(s).len]) == First(s)
  {
  }

  lemma {:induction false} LossyIsValid(s: Bytes)
    ensures Valid(Lossy(s))
  {
    if s != [] {
      var c := First(s);
      LossyIsValid(s[c.len..]);
      var head := if c.Good? then s[..c.len] else REPLACEMENT;
      var tail := Lossy(s[c.len..]);
      if c.Good? {
        FirstIsLocal(s);
      }
      FirstOfPrefix(head, tail);
      assert (head + tail)[|head|..] == tail;
    }
  }

  /** ASCII text is valid UTF-8. */
  lemma {:induction false} AsciiIsValid(s: Bytes)
    requires forall i :: 0 <= i < |s| ==> s[i] < 0x80
    ensures Valid(s)
  {
    if s != [] {
      AsciiIsValid(s[1..]);
    }
  }

  // ---------------------------------------------------------------- against the encoding of code points

  /** A Unicode scalar value: a code point that is not a surrogate. */
  predicate Scalar(c: nat) { c < 0xD800 || 0xE000 <= c < 0x11_0000 }

  /** Its one to four bytes (section 3 of RFC 3629). */
  function CharBytes(c: nat): Bytes
    requires Scalar(c)
  {
    if c < 0x80 then [c]
    else if c < 0x800 then [0xC0 + c / 64, 0x80 + c % 64]
    else if c < 0x1_0000 then [0xE0 + c / 4096, 0x80 + c / 64 % 64, 0x80 + c % 64]
    else [0xF0 + c / 0x4_0000, 0x80 + c / 4096 % 64, 0x80 + c / 64 % 64, 0x80 + c % 64]
  }

  predicate AllScalar(cs: seq<nat>) { forall i :: 0 <= i < |cs| ==> Scalar(cs[i]) }

  function TextBytes(cs: seq<nat>): Bytes
    requires AllScalar(cs)
  {
    if cs == [] then [] else CharBytes(cs[0]) + TextBytes(cs[1..])
  }

  lemma CharIsGood(c: nat)
    requires Scalar(c)
    ensures First(CharBytes(c)) == Good(|CharBytes(c)|)
  {
    if 0x800 <= c < 0x1_0000 {
      assert c / 4096 == 0 ==> c / 64 % 64 == c / 64;
      assert c / 4096 == 13 ==> c / 64 % 64 == c / 64 - 832;
    } else if c >= 0x1_0000 {
      assert c / 0x4_0000 == 0 ==> c / 4096 % 64 == c / 4096;
      assert c / 0x4_0000 == 4 ==> c / 4096 % 64 == c / 4096 - 256;
    }
  }

  /** The scalar value a recognised chunk encodes. */
  lemma GoodIsChar(s: Bytes) returns (c: nat)
    requires s != [] && First(s).Good?
    ensures Scalar(c) && s[..First(s).len] == CharBytes(c)
  {
    var n := First(s).len;
    if n == 1 {
      c := s[0];
    } else if n == 2 {
      c := PointOf(s[0] - 0xC0, [s[1] - 0x80]);
    } else if n == 3 {
      c := ThreeBytes(s);
    } else {
      c := FourBytes(s);
    }
  }

  lemma ThreeBytes(s: Bytes) returns (c: nat)
    requires s != [] && First(s) == Good(3)
    ensures Scalar(c) && s[..3] == CharBytes(c)
  {
    c := PointOf(s[0] - 0xE0, [s[1] - 0x80, s[2] - 0x80]);
  }

  lemma FourBytes(s: Bytes) returns (c: nat)
    requires s != [] && First(s) == Good(4)
    ensures Scalar(c) && s[..4] == CharBytes(c)
  {
    c := PointOf(s[0] - 0xF0, [s[1] - 0x80, s[2] - 0x80, s[3] - 0x80]);
  }

  /** Digits to the base 64, and back. */
  lemma PointOf(lead: nat, more: seq<nat>) returns (c: nat)
    requires 1 <= |more| <= 3 && forall i :: 0 <= i < |more| ==> more[i] < 64
    ensures |more| == 1 ==> c == 64 * lead + more[0] && c / 64 == lead && c % 64 == more[0]
    ensures |more| == 2 ==>
              && c == 4096 * lead + 64 * more[0] + more[1]
              && c / 4096 == lead && c / 64 % 64 == more[0] && c % 64 == more[1]
    ensures |more| == 3 ==>
              && c == 0x4_0000 * lead + 4096 * more[0] + 64 * more[1] + more[2]
              && c / 0x4_0000 == lead && c / 4096 % 64 == more[0] && c / 64 % 64 == more[1] && c % 64 == more[2]
  {
    if |more| == 1 {
      c := 64 * lead + more[0];
    } else if |more| == 2 {
      c := 4096 * lead + 64 * more[0] + more[1];
      assert c / 64 == 64 * lead + more[0];
    } else {
      c := 0x4_0000 * lead + 4096 * more[0] + 64 * more[1] + more[2];
      assert c / 64 == 4096 * lead + 64 * more[0] + more[1];
      assert c / 4096 == 64 * lead + more[0];
    }
  }

  /** Valid text is exactly the encodings of scalar values. */
  lemma {:induction false} ValidIff(s: Bytes)
    ensures Valid(s) <==> exists cs :: AllScalar(cs) && s == TextBytes(cs)
  {
    if Valid(s) {
      var cs := PointsOf(s);
    }
    forall cs | AllScalar(cs) && s == TextBytes(cs) ensures Valid(s) {
      EncodedIsValid(cs);
    }
  }

  lemma {:induction false} PointsOf(s: Bytes) returns (cs: seq<nat>)
    requires Valid(s)
    ensures AllScalar(cs) && s == TextBytes(cs)
  {
    cs := [];
    if s != [] {
      var n := First(s).len;
      var c := GoodIsChar(s);
      var rest := PointsOf(s[n..]);
      cs := [c] + rest;
      assert cs[1..] == rest && s == s[..n] + s[n..];
    }
  }

  lemma {:induction false} EncodedIsValid(cs: seq<nat>)
    requires AllScalar(cs)
    ensures Valid(TextBytes(cs))
  {
    if cs != [] {
      var head, tail := CharBytes(cs[0]), TextBytes(cs[1..]);
      EncodedIsValid(cs[1..]);
      CharIsGood(cs[0]);
      FirstOfPrefix(head, tail);
      assert (head + tail)[|head|..] == tail;
    }
  }

  /** Some scalar value's encoding begins with these bytes. */
  ghost predicate Begins(p: Bytes) { exists c: nat :: Scalar(c) && p <= CharBytes(c) }

  lemma BadEnds(s: Bytes, c: nat)
    requires s != [] && First(s).Bad? && Scalar(c)
    ensures !(CharBytes(c) <= s)
    ensures First(s).len < |s| ==> !(s[..First(s).len + 1] <= CharBytes(c))
  {
    var e := CharBytes(c);
    CharIsGood(c);
    if e <= s {
      assert forall i :: 0 <= i < |e| ==> s[i] == e[i];
    }
    if First(s).len < |s| && s[..First(s).len + 1] <= e {
      assert forall i :: 0 <= i <= First(s).len ==> e[i] == s[i];
    }
  }

  lemma BadBegins(s: Bytes) returns (c: nat)
    requires s != [] && First(s).Bad? && First(s).len > 1
    ensures Scalar(c) && s[..First(s).len] <= CharBytes(c)
  {
    var k := First(s).len;
    var t := s[..k] + (if s[0] < 0xF0 || k == 3 then [0x80] else [0x80, 0x80]);
    assert forall i :: 0 <= i < k ==> t[i] == s[i];
    c := GoodIsChar(t);
    assert t[..|t|] == t;
  }

  /** The lossy reading keeps each encoded scalar value and puts U+FFFD for anything else: for the longest run of
      bytes that still begins one, or for a single byte. */
  lemma LossyStep(s: Bytes) returns (k: nat)
    requires s != []
    ensures 1 <= k <= |s|
    ensures if exists c :: Scalar(c) && s[..k] == CharBytes(c) then Lossy(s) == s[..k] + Lossy(s[k..])
            else
              && Lossy(s) == [0xEF, 0xBF, 0xBD] + Lossy(s[k..])
              && (forall c :: Scalar(c) ==> !(CharBytes(c) <= s))
              && (k == 1 || Begins(s[..k])) && (k < |s| ==> !Begins(s[..k + 1]))
  {
    k := First(s).len;
    if First(s).Good? {
      var c := GoodIsChar(s);
    } else {
      forall c | Scalar(c)
        ensures !(CharBytes(c) <= s) && s[..k] != CharBytes(c) && (k < |s| ==> !(s[..k + 1] <= CharBytes(c)))
      {
        BadEnds(s, c);
      }
      if k > 1 {
        var c := BadBegins(s);
      }
    }
  }
}
