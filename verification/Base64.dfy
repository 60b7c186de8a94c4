// The standard base64 alphabet with padding (section 4 of RFC 4648): the encoder in
// src/bon.rs and the decoder in src/protocol.rs. Shifts and masks of bytes are written
// as division and remainder by powers of two.
module Base64 {
  import opened Bytes

  const PAD: Byte := 61

  type Sextet = v: int | 0 <= v < 64

  /** The character for a six-bit group. */
  function Char(v: Sextet): Byte {
    if v < 26 then v + 65 else if v < 52 then v - 26 + 97 else if v < 62 then v - 52 + 48
    else if v == 62 then 43 else 47
  }

  /** The decoder's table. */
  function Value(c: Byte): Option<Sextet> {
    if 65 <= c <= 90 then Some(c - 65) else if 97 <= c <= 122 then Some(c - 97 + 26)
    else if 48 <= c <= 57 then Some(c - 48 + 52)
    else if c == 43 then Some(62) else if c == 47 then Some(63) else None
  }

  lemma CharRoundTrip(v: Sextet)
    ensures Value(Char(v)) == Some(v) && Char(v) != PAD && Char(v) < 0x80
  {
  }

  // How the encoder cuts three bytes into four groups, and how the decoder joins them.
  function Cut0(b0: Byte): Sextet { b0 / 4 }
  function Cut1(b0: Byte, b1: Byte): Sextet { b0 % 4 * 16 + b1 / 16 }
  function Cut2(b1: Byte, b2: Byte): Sextet { b1 % 16 * 4 + b2 / 64 }
  function Cut3(b2: Byte): Sextet { b2 % 64 }
  function Join0(a: Sextet, b: Sextet): Byte { a * 4 + b / 16 }
  function Join1(b: Sextet, c: Sextet): Byte { b % 16 * 16 + c / 4 }
  function Join2(c: Sextet, d: Sextet): Byte { c % 4 * 64 + d }

  lemma JoinUndoesCut(b0: Byte, b1: Byte, b2: Byte)
    ensures Join0(Cut0(b0), Cut1(b0, b1)) == b0
    ensures Join1(Cut1(b0, b1), Cut2(b1, b2)) == b1
    ensures Join2(Cut2(b1, b2), Cut3(b2)) == b2
  {
    assert Cut1(b0, b1) % 16 == b1 / 16 && Cut1(b0, b1) / 16 == b0 % 4;
    assert Cut2(b1, b2) % 4 == b2 / 64 && Cut2(b1, b2) / 4 == b1 % 16;
  }

  // ---------------------------------------------------------------- encoding

  /** The characters of one chunk of one to three bytes, without padding. */
  function Group(chunk: Bytes): (r: Bytes)
    requires 1 <= |chunk| <= 3
  {
    var b0 := chunk[0];
    var b1 := if |chunk| > 1 then chunk[1] else 0;
    var b2 := if |chunk| > 2 then chunk[2] else 0;
    [Char(Cut0(b0)), Char(Cut1(b0, b1))]
    + (if |chunk| > 1 then [Char(Cut2(b1, b2))] else [])
    + (if |chunk| > 2 then [Char(Cut3(b2))] else [])
  }

  function Padding(n: nat): Bytes {
    if n % 3 == 1 then [PAD, PAD] else if n % 3 == 2 then [PAD] else []
  }

  /** What is written before the padding. */
  function Unpadded(data: Bytes): Bytes {
    if data == [] then []
    else if |data| <= 3 then Group(data)
    else Group(data[..3]) + Unpadded(data[3..])
  }

  function Encode(data: Bytes): Bytes { Unpadded(data) + Padding(|data|) }

  lemma EncodeStep(data: Bytes, chunk: Bytes)
    requires data != [] && chunk == data[..if |data| < 3 then |data| else 3]
    ensures Encode(data) == (Group(chunk) + Padding(|chunk|)) + Encode(data[|chunk|..])
  {
    var rest, group := data[|chunk|..], Group(chunk);
    if |data| <= 3 {
      assert chunk == data && rest == [] && Padding(0) == [];
      assert group + Padding(|chunk|) + [] == group + Padding(|chunk|);
    } else {
      assert Padding(3) == [] && Padding(|data|) == Padding(|rest|) && group + [] == group;
      Associate(group, Unpadded(rest), Padding(|rest|));
    }
  }

  lemma GroupIsFourCharacters(chunk: Bytes, b0: Byte, b1: Byte, b2: Byte)
    requires 1 <= |chunk| <= 3 && b0 == chunk[0]
    requires b1 == if |chunk| > 1 then chunk[1] else 0
    requires b2 == if |chunk| > 2 then chunk[2] else 0
    ensures Group(chunk) + Padding(|chunk|)
            == [Char(Cut0(b0)), Char(Cut1(b0, b1)),
                if |chunk| > 1 then Char(Cut2(b1, b2)) else PAD,
                if |chunk| > 2 then Char(Cut3(b2)) else PAD]
  {
  }

  method EncodeLoop(data: Bytes) returns (result: Bytes)
    ensures result == Encode(data)
  {
    result := [];
    var at := 0;
    while at < |data|
      invariant at <= |data|
      invariant result + Encode(data[at..]) == Encode(data)
    {
      ghost var rest := data[at..];
      var chunk := data[at..if at + 3 <= |data| then at + 3 else |data|];
      var b0 := chunk[0];
      var b1 := if |chunk| > 1 then chunk[1] else 0;
      var b2 := if |chunk| > 2 then chunk[2] else 0;
      var c0, c1 := Char(Cut0(b0)), Char(Cut1(b0, b1));
      var c2 := if |chunk| > 1 then Char(Cut2(b1, b2)) else PAD;
      var c3 := if |chunk| > 2 then Char(Cut3(b2)) else PAD;
      AppendGroup(result, rest, chunk, [c0, c1, c2, c3]) by {
        GroupIsFourCharacters(chunk, b0, b1, b2);
      }
      result := result + [c0, c1, c2, c3];
      at := at + |chunk|;
      assert data[at..] == rest[|chunk|..];
    }
  }

  lemma AppendGroup(before: Bytes, rest: Bytes, chunk: Bytes, group: Bytes)
    requires rest != [] && chunk == rest[..if |rest| < 3 then |rest| else 3]
    requires group == Group(chunk) + Padding(|chunk|)
    ensures before + group + Encode(rest[|chunk|..]) == before + Encode(rest)
  {
    EncodeStep(rest, chunk);
    Associate(before, group, Encode(rest[|chunk|..]));
  }

  lemma Associate(a: Bytes, b: Bytes, c: Bytes)
    ensures (a + b) + c == a + (b + c)
  {
  }

  // ---------------------------------------------------------------- decoding

  function Trim(s: Bytes): Bytes {
    if s != [] && s[|s| - 1] == PAD then Trim(s[..|s| - 1]) else s
  }

  /** The bytes of one chunk of one to four characters. */
  function Ungroup(chunk: Bytes): Option<Bytes>
    requires 1 <= |chunk| <= 4
  {
    if |chunk| == 1 || Value(chunk[0]).None? || Value(chunk[1]).None? then None
    else
      var a, b := Value(chunk[0]).value, Value(chunk[1]).value;
      if |chunk| == 2 then Some([Join0(a, b)])
      else if Value(chunk[2]).None? then None
      else
        var c := Value(chunk[2]).value;
        if |chunk| == 3 then Some([Join0(a, b), Join1(b, c)])
        else if Value(chunk[3]).None? then None
        else Some([Join0(a, b), Join1(b, c), Join2(c, Value(chunk[3]).value)])
  }

  function Prepend(head: Bytes, tail: Option<Bytes>): Option<Bytes> {
    if tail.None? then None else Some(head + tail.value)
  }

  function DecodeChunks(s: Bytes): Option<Bytes> {
    if s == [] then Some([])
    else if |s| <= 4 then Ungroup(s)
    else if Ungroup(s[..4]).None? then None
    else Prepend(Ungroup(s[..4]).value, DecodeChunks(s[4..]))
  }

  function Decode(s: Bytes): Option<Bytes> { DecodeChunks(Trim(s)) }

  lemma PrependTwice(a: Bytes, b: Bytes, tail: Option<Bytes>)
    ensures Prepend(a, Prepend(b, tail)) == Prepend(a + b, tail)
  {
    if tail.Some? {
      assert a + (b + tail.value) == a + b + tail.value;
    }
  }

  method DecodeLoop(s: Bytes) returns (r: Option<Bytes>)
    ensures r == Decode(s)
  {
    var text := s;
    while text != [] && text[|text| - 1] == PAD
      invariant Trim(text) == Trim(s)
      decreases |text|
    {
      text := text[..|text| - 1];
    }
    var out: Bytes := [];
    var at := 0;
    assert text[0..] == text && Prepend([], DecodeChunks(text)) == DecodeChunks(text) by {
      if DecodeChunks(text).Some? {
        assert [] + DecodeChunks(text).value == DecodeChunks(text).value;
      }
    }
    while at < |text|
      invariant at <= |text|
      invariant Prepend(out, DecodeChunks(text[at..])) == Decode(s)
    {
      ghost var before := out;
      var chunk := text[at..if at + 4 <= |text| then at + 4 else |text|];
      DecodeStep(text[at..], chunk);
      if |chunk| < 2 {
        return None;
      }
      var a, b := Value(chunk[0]), Value(chunk[1]);
      if a.None? || b.None? {
        return None;
      }
      out := out + [Join0(a.value, b.value)];
      if |chunk| > 2 {
        var c := Value(chunk[2]);
        if c.None? {
          return None;
        }
        out := out + [Join1(b.value, c.value)];
        if |chunk| > 3 {
          var d := Value(chunk[3]);
          if d.None? {
            return None;
          }
          out := out + [Join2(c.value, d.value)];
        }
      }
      assert out == before + Ungroup(chunk).value;
      assert text[at..][|chunk|..] == text[at + |chunk|..];
      at := at + |chunk|;
      PrependTwice(before, Ungroup(chunk).value, DecodeChunks(text[at..]));
    }
    assert text[at..] == [] && out + [] == out;
    r := Some(out);
  }

  lemma DecodeStep(s: Bytes, chunk: Bytes)
    requires s != [] && chunk == s[..if |s| < 4 then |s| else 4]
    ensures DecodeChunks(s)
            == if Ungroup(chunk).None? then None else Prepend(Ungroup(chunk).value, DecodeChunks(s[|chunk|..]))
  {
    if |s| <= 4 {
      assert chunk == s && s[|chunk|..] == [];
      if Ungroup(s).Some? {
        assert Ungroup(s).value + [] == Ungroup(s).value;
      }
    }
  }

  // ---------------------------------------------------------------- the two undo each other

  lemma UngroupOfChars(a: Sextet, b: Sextet, c: Sextet, d: Sextet)
    ensures Ungroup([Char(a), Char(b)]) == Some([Join0(a, b)])
    ensures Ungroup([Char(a), Char(b), Char(c)]) == Some([Join0(a, b), Join1(b, c)])
    ensures Ungroup([Char(a), Char(b), Char(c), Char(d)]) == Some([Join0(a, b), Join1(b, c), Join2(c, d)])
  {
    CharRoundTrip(a);
    CharRoundTrip(b);
    CharRoundTrip(c);
    CharRoundTrip(d);
  }

  lemma CutBytesRoundTrip(b0: Byte, b1: Byte, b2: Byte)
    ensures Ungroup([Char(Cut0(b0)), Char(Cut1(b0, b1))]) == Some([b0])
    ensures Ungroup([Char(Cut0(b0)), Char(Cut1(b0, b1)), Char(Cut2(b1, b2))]) == Some([b0, b1])
    ensures Ungroup([Char(Cut0(b0)), Char(Cut1(b0, b1)), Char(Cut2(b1, b2)), Char(Cut3(b2))])
            == Some([b0, b1, b2])
  {
    JoinUndoesCut(b0, b1, b2);
    UngroupOfChars(Cut0(b0), Cut1(b0, b1), Cut2(b1, b2), Cut3(b2));
  }

  lemma GroupShape(chunk: Bytes)
    requires 1 <= |chunk| <= 3
    ensures |chunk| == 1 ==> Group(chunk) == [Char(Cut0(chunk[0])), Char(Cut1(chunk[0], 0))]
    ensures |chunk| == 2 ==> Group(chunk) == [Char(Cut0(chunk[0])), Char(Cut1(chunk[0], chunk[1])),
                                              Char(Cut2(chunk[1], 0))]
    ensures |chunk| == 3 ==> Group(chunk) == [Char(Cut0(chunk[0])), Char(Cut1(chunk[0], chunk[1])),
                                              Char(Cut2(chunk[1], chunk[2])), Char(Cut3(chunk[2]))]
  {
  }

  lemma GroupRoundTrip(chunk: Bytes)
    requires 1 <= |chunk| <= 3
    ensures |Group(chunk)| == |chunk| + 1
    ensures Ungroup(Group(chunk)) == Some(chunk)
  {
    GroupShape(chunk);
    if |chunk| == 1 {
      CutBytesRoundTrip(chunk[0], 0, 0);
      assert chunk == [chunk[0]];
    } else if |chunk| == 2 {
      CutBytesRoundTrip(chunk[0], chunk[1], 0);
      assert chunk == [chunk[0], chunk[1]];
    } else {
      CutBytesRoundTrip(chunk[0], chunk[1], chunk[2]);
      assert chunk == [chunk[0], chunk[1], chunk[2]];
    }
  }

  predicate Plain(s: Bytes) { forall i :: 0 <= i < |s| ==> s[i] != PAD && s[i] < 0x80 }

  lemma GroupIsPlain(chunk: Bytes)
    requires 1 <= |chunk| <= 3
    ensures Plain(Group(chunk))
  {
    forall v: Sextet ensures Char(v) != PAD && Char(v) < 0x80 {
      CharRoundTrip(v);
    }
  }

  lemma {:induction false} UnpaddedRoundTrip(data: Bytes)
    ensures DecodeChunks(Unpadded(data)) == Some(data)
  {
    if data == [] {
    } else if |data| <= 3 {
      GroupRoundTrip(data);
      DecodeStep(Group(data), Group(data));
      assert data + [] == data;
    } else {
      var head, tail := Group(data[..3]), Unpadded(data[3..]);
      GroupRoundTrip(data[..3]);
      UnpaddedRoundTrip(data[3..]);
      assert (head + tail)[..4] == head && (head + tail)[4..] == tail;
      DecodeStep(head + tail, head);
      assert data[..3] + data[3..] == data;
    }
  }

  lemma PlainConcat(a: Bytes, b: Bytes)
    requires Plain(a) && Plain(b)
    ensures Plain(a + b)
  {
  }

  lemma {:induction false} UnpaddedIsPlain(data: Bytes)
    ensures Plain(Unpadded(data))
  {
    if data == [] {
    } else if |data| <= 3 {
      GroupIsPlain(data);
    } else {
      GroupIsPlain(data[..3]);
      UnpaddedIsPlain(data[3..]);
      PlainConcat(Group(data[..3]), Unpadded(data[3..]));
    }
  }

  lemma {:induction false} EncodedLength(data: Bytes)
    ensures |Unpadded(data)| == |data| / 3 * 4 + (if |data| % 3 == 0 then 0 else |data| % 3 + 1)
  {
    if data == [] {
    } else if |data| <= 3 {
      GroupRoundTrip(data);
    } else {
      GroupRoundTrip(data[..3]);
      EncodedLength(data[3..]);
    }
  }

  lemma TrimPadding(s: Bytes, n: nat)
    requires s == [] || s[|s| - 1] != PAD
    ensures Trim(s + Padding(n)) == s
  {
    var p := Padding(n);
    assert Trim(s) == s;
    if p == [] {
      assert s + p == s;
    } else if p == [PAD] {
      assert (s + p)[..|s|] == s;
    } else {
      var q := s + [PAD];
      assert (s + p)[..|s| + 1] == q && q[..|s|] == s;
      assert Trim(q) == s;
    }
  }

  /** Every byte string is recovered from its base64 text. */
  lemma RoundTrip(data: Bytes)
    ensures Decode(Encode(data)) == Some(data)
  {
    UnpaddedRoundTrip(data);
    UnpaddedIsPlain(data);
    TrimPadding(Unpadded(data), |data|);
  }

  /** The text is plain ASCII, four characters for every three bytes begun. */
  lemma EncodedText(data: Bytes)
    ensures |Encode(data)| == (|data| + 2) / 3 * 4
    ensures forall i :: 0 <= i < |Encode(data)| ==> Encode(data)[i] < 0x80
  {
    EncodedLength(data);
    UnpaddedIsPlain(data);
    assert forall i :: 0 <= i < |Padding(|data|)| ==> Padding(|data|)[i] == PAD;
  }

  predicate InAlphabet(s: Bytes) { forall i :: 0 <= i < |s| ==> Value(s[i]).Some? }

  lemma InAlphabetConcat(a: Bytes, b: Bytes)
    ensures InAlphabet(a + b) <==> InAlphabet(a) && InAlphabet(b)
  {
    var s := a + b;
    assert forall i :: 0 <= i < |b| ==> b[i] == s[|a| + i];
    assert forall i :: 0 <= i < |a| ==> a[i] == s[i];
  }

  lemma UngroupSucceeds(chunk: Bytes)
    requires 1 <= |chunk| <= 4
    ensures Ungroup(chunk).Some? <==> |chunk| != 1 && InAlphabet(chunk)
  {
  }

  /** The decoder accepts exactly the texts over the alphabet whose trimmed length is not 1 modulo 4. */
  lemma {:induction false} DecodeChunksSucceeds(s: Bytes)
    ensures DecodeChunks(s).Some? <==> |s| % 4 != 1 && InAlphabet(s)
  {
    if |s| > 4 {
      var head, tail := s[..4], s[4..];
      DecodeChunksSucceeds(tail);
      UngroupSucceeds(head);
      DecodeStep(s, head);
      assert s == head + tail;
      InAlphabetConcat(head, tail);
      FourLess(|s|);
    } else if s != [] {
      UngroupSucceeds(s);
    }
  }

  lemma FourLess(n: nat)
    requires n > 4
    ensures (n - 4) % 4 == n % 4
  {
  }
}
