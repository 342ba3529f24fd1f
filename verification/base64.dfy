/** Base64 with the standard alphabet and padding of section 4 of RFC 4648, as the `base64`
    crate's `STANDARD` engine encodes and decodes it: padding is required and must be
    canonical, and the unused low bits of the last symbol must be zero. */
module Base64 {
  import opened Common
  import Utf8

  /** The only error this model distinguishes: the text is not a canonical encoding. The
      crate's `DecodeError` also carries an offset and the offending byte. */
  datatype DecodeError = InvalidEncoding

  /** '=' */
  const Pad: Byte := 0x3D

  /** The symbol for a 6-bit value (Table 1 of RFC 4648). */
  function Symbol(v: bv8): (c: Byte)
    requires v < 64
    ensures 0 < c < 0x80 && c != Pad
  {
    if v < 26 then 0x41 + v
    else if v < 52 then 0x61 + (v - 26)
    else if v < 62 then 0x30 + (v - 52)
    else if v == 62 then 0x2B
    else 0x2F
  }

  /** The 6-bit value of a symbol, if the byte is one. */
  function Value(c: Byte): (r: Option<bv8>)
    ensures r.Some? ==> r.value < 64 && Symbol(r.value) == c
  {
    if 0x41 <= c <= 0x5A then Some(c - 0x41)
    else if 0x61 <= c <= 0x7A then Some(c - 0x61 + 26)
    else if 0x30 <= c <= 0x39 then Some(c - 0x30 + 52)
    else if c == 0x2B then Some(62)
    else if c == 0x2F then Some(63)
    else None
  }

  lemma ValueOfSymbol(v: bv8)
    requires v < 64
    ensures Value(Symbol(v)) == Some(v)
  {
  }

  /** Three bytes to four symbols. */
  function EncodeQuantum(b0: Byte, b1: Byte, b2: Byte): (r: Bytes)
    ensures |r| == 4
  {
    [Symbol(b0 >> 2), Symbol(((b0 & 3) << 4) | (b1 >> 4)),
     Symbol(((b1 & 15) << 2) | (b2 >> 6)), Symbol(b2 & 63)]
  }

  /** Four 6-bit values to three bytes. */
  function Join(v0: bv8, v1: bv8, v2: bv8, v3: bv8): (r: Bytes)
    ensures |r| == 3
  {
    [(v0 << 2) | (v1 >> 4), (v1 << 4) | (v2 >> 2), (v2 << 6) | v3]
  }

  /** One byte to two symbols and "==". */
  function EncodeFinal1(b0: Byte): (r: Bytes)
    ensures |r| == 4
  {
    [Symbol(b0 >> 2), Symbol((b0 & 3) << 4), Pad, Pad]
  }

  /** Two bytes to three symbols and "=". */
  function EncodeFinal2(b0: Byte, b1: Byte): (r: Bytes)
    ensures |r| == 4
  {
    [Symbol(b0 >> 2), Symbol(((b0 & 3) << 4) | (b1 >> 4)), Symbol((b1 & 15) << 2), Pad]
  }

  /** `BASE64.encode(b)`: whole quanta, then a final quantum of one byte ("xx==") or two
      bytes ("xxx="). */
  function Encode(b: Bytes): (r: Utf8.Text)
    ensures forall i :: 0 <= i < |r| ==> 0 < r[i] < 0x80
    decreases |b|
  {
    var r: Bytes :=
      if |b| == 0 then []
      else if |b| == 1 then EncodeFinal1(b[0])
      else if |b| == 2 then EncodeFinal2(b[0], b[1])
      else
        var q, rest := EncodeQuantum(b[0], b[1], b[2]), Encode(b[3..]);
        assert forall i :: 0 <= i < |q + rest| ==> (q + rest)[i] == if i < 4 then q[i] else rest[i - 4];
        q + rest;
    Utf8.AsciiIsValid(r);
    r
  }

  /** A quantum that is not the last one: four symbols, no padding. */
  function DecodeQuantum(c0: Byte, c1: Byte, c2: Byte, c3: Byte): Option<Bytes> {
    match (Value(c0), Value(c1), Value(c2), Value(c3))
    case (Some(v0), Some(v1), Some(v2), Some(v3)) => Some(Join(v0, v1, v2, v3))
    case _ => None
  }

  /** The last quantum: four symbols, or two symbols and "==", or three symbols and "=";
      with padding, the bits that fall outside the decoded bytes must be zero. */
  function DecodeFinal(c0: Byte, c1: Byte, c2: Byte, c3: Byte): Option<Bytes> {
    match (Value(c0), Value(c1), Value(c2), Value(c3))
    case (Some(v0), Some(v1), Some(v2), Some(v3)) => Some(Join(v0, v1, v2, v3))
    case (Some(v0), Some(v1), None, None) =>
      if c2 == Pad && c3 == Pad && v1 & 15 == 0 then Some(Join(v0, v1, 0, 0)[..1]) else None
    case (Some(v0), Some(v1), Some(v2), None) =>
      if c3 == Pad && v2 & 3 == 0 then Some(Join(v0, v1, v2, 0)[..2]) else None
    case _ => None
  }

  function DecodeQuanta(s: Bytes): Result<Bytes, DecodeError>
    requires |s| % 4 == 0
    decreases |s|
  {
    if s == [] then Ok([])
    else if |s| == 4 then
      match DecodeFinal(s[0], s[1], s[2], s[3])
      case None => Err(InvalidEncoding)
      case Some(q) => Ok(q)
    else
      match DecodeQuantum(s[0], s[1], s[2], s[3])
      case None => Err(InvalidEncoding)
      case Some(q) =>
        match DecodeQuanta(s[4..])
        case Err(e) => Err(e)
        case Ok(rest) => Ok(q + rest)
  }

  /** `BASE64.decode(s)`: a length that is not a multiple of four is refused outright. */
  function Decode(s: Bytes): Result<Bytes, DecodeError> {
    if |s| % 4 != 0 then Err(InvalidEncoding) else DecodeQuanta(s)
  }

  /** The encoding of `n` bytes has 4 * ceil(n / 3) symbols: 44 for a 32-byte key. */
  lemma {:induction false} EncodeLength(b: Bytes)
    ensures |Encode(b)| == 4 * ((|b| + 2) / 3)
    decreases |b|
  {
    if |b| >= 3 {
      EncodeLength(b[3..]);
      assert |Encode(b)| == 4 + |Encode(b[3..])|;
      assert (|b| + 2) / 3 == (|b[3..]| + 2) / 3 + 1;
    }
  }

  /** Splitting three bytes into 6-bit values and joining them again is the identity. */
  lemma JoinSplit(b0: Byte, b1: Byte, b2: Byte)
    ensures Join(b0 >> 2, ((b0 & 3) << 4) | (b1 >> 4), ((b1 & 15) << 2) | (b2 >> 6), b2 & 63) == [b0, b1, b2]
  {
  }

  /** The symbols of one encoded quantum decode back to its bytes, whether it is the last
      quantum or not. */
  lemma QuantumRoundTrip(b0: Byte, b1: Byte, b2: Byte)
    ensures var q := EncodeQuantum(b0, b1, b2);
      DecodeQuantum(q[0], q[1], q[2], q[3]) == Some([b0, b1, b2]) &&
      DecodeFinal(q[0], q[1], q[2], q[3]) == Some([b0, b1, b2])
  {
    ValueOfSymbol(b0 >> 2);
    ValueOfSymbol(((b0 & 3) << 4) | (b1 >> 4));
    ValueOfSymbol(((b1 & 15) << 2) | (b2 >> 6));
    ValueOfSymbol(b2 & 63);
    JoinSplit(b0, b1, b2);
  }

  /** The padded final quanta decode back to their one or two bytes. */
  lemma Final1RoundTrip(b0: Byte)
    ensures var q := EncodeFinal1(b0); DecodeFinal(q[0], q[1], q[2], q[3]) == Some([b0])
  {
    var v0, v1 := b0 >> 2, (b0 & 3) << 4;
    ValueOfSymbol(v0);
    ValueOfSymbol(v1);
    assert Value(Pad) == None;
    assert (v0 << 2) | (v1 >> 4) == b0 && v1 & 15 == 0;
    assert Join(v0, v1, 0, 0)[..1] == [b0];
  }

  lemma Final2RoundTrip(b0: Byte, b1: Byte)
    ensures var q := EncodeFinal2(b0, b1); DecodeFinal(q[0], q[1], q[2], q[3]) == Some([b0, b1])
  {
    var v0, v1, v2 := b0 >> 2, ((b0 & 3) << 4) | (b1 >> 4), (b1 & 15) << 2;
    ValueOfSymbol(v0);
    ValueOfSymbol(v1);
    ValueOfSymbol(v2);
    assert Value(Pad) == None;
    assert (v0 << 2) | (v1 >> 4) == b0 && (v1 << 4) | (v2 >> 2) == b1 && v2 & 3 == 0;
    assert Join(v0, v1, v2, 0)[..2] == [b0, b1];
  }

  /** Decoding one last quantum. */
  lemma DecodeQuantaLast(s: Bytes, d: Bytes)
    requires |s| == 4 && DecodeFinal(s[0], s[1], s[2], s[3]) == Some(d)
    ensures Decode(s) == Ok(d)
  {
  }

  /** Decoding a quantum that is followed by more quanta. */
  lemma DecodeQuantaCons(q: Bytes, rest: Bytes, d: Bytes, r: Bytes)
    requires |q| == 4 && DecodeQuantum(q[0], q[1], q[2], q[3]) == Some(d)
    requires rest != [] && Decode(rest) == Ok(r)
    ensures Decode(q + rest) == Ok(d + r)
  {
    var s := q + rest;
    assert s[0] == q[0] && s[1] == q[1] && s[2] == q[2] && s[3] == q[3];
    assert s[4..] == rest;
  }

  /** Decoding the encoding gives back the bytes. */
  lemma {:induction false} DecodeEncode(b: Bytes)
    ensures Decode(Encode(b)) == Ok(b)
    decreases |b|
  {
    if |b| == 1 {
      Final1RoundTrip(b[0]);
      DecodeQuantaLast(EncodeFinal1(b[0]), [b[0]]);
      assert b == [b[0]];
    } else if |b| == 2 {
      Final2RoundTrip(b[0], b[1]);
      DecodeQuantaLast(EncodeFinal2(b[0], b[1]), [b[0], b[1]]);
      assert b == [b[0], b[1]];
    } else if |b| >= 3 {
      var q, rest := EncodeQuantum(b[0], b[1], b[2]), Encode(b[3..]);
      assert Encode(b) == q + rest;
      QuantumRoundTrip(b[0], b[1], b[2]);
      assert b == [b[0], b[1], b[2]] + b[3..];
      if |b| == 3 {
        assert rest == [] && b == [b[0], b[1], b[2]];
        DecodeQuantaLast(q, b);
        assert q + rest == q;
      } else {
        DecodeEncode(b[3..]);
        EncodeLength(b[3..]);
        DecodeQuantaCons(q, rest, [b[0], b[1], b[2]], b[3..]);
      }
    }
  }

  /** Joining four 6-bit values and encoding the bytes gives back their symbols. */
  lemma EncodeJoin(v0: bv8, v1: bv8, v2: bv8, v3: bv8)
    requires v0 < 64 && v1 < 64 && v2 < 64 && v3 < 64
    ensures var d := Join(v0, v1, v2, v3);
      EncodeQuantum(d[0], d[1], d[2]) == [Symbol(v0), Symbol(v1), Symbol(v2), Symbol(v3)]
  {
  }

  /** The same for a last quantum padded with "==", whose dropped bits are zero. */
  lemma EncodeJoin1(v0: bv8, v1: bv8)
    requires v0 < 64 && v1 < 64 && v1 & 15 == 0
    ensures EncodeFinal1(Join(v0, v1, 0, 0)[0]) == [Symbol(v0), Symbol(v1), Pad, Pad]
  {
  }

  /** The same for a last quantum padded with "=", whose dropped bits are zero. */
  lemma EncodeJoin2(v0: bv8, v1: bv8, v2: bv8)
    requires v0 < 64 && v1 < 64 && v2 < 64 && v2 & 3 == 0
    ensures var d := Join(v0, v1, v2, 0); EncodeFinal2(d[0], d[1]) == [Symbol(v0), Symbol(v1), Symbol(v2), Pad]
  {
  }

  /** A quantum that decodes is the encoding of its three bytes. */
  lemma QuantumOfDecoded(c0: Byte, c1: Byte, c2: Byte, c3: Byte, d: Bytes)
    requires DecodeQuantum(c0, c1, c2, c3) == Some(d)
    ensures |d| == 3 && EncodeQuantum(d[0], d[1], d[2]) == [c0, c1, c2, c3]
  {
    var v0, v1, v2, v3 := Value(c0).value, Value(c1).value, Value(c2).value, Value(c3).value;
    assert d == Join(v0, v1, v2, v3);
    EncodeJoin(v0, v1, v2, v3);
  }

  /** A last quantum of four symbols that decodes is the encoding of its three bytes. */
  lemma FinalOfDecoded3(c0: Byte, c1: Byte, c2: Byte, c3: Byte, d: Bytes)
    requires DecodeFinal(c0, c1, c2, c3) == Some(d) && Value(c2).Some? && Value(c3).Some?
    ensures Encode(d) == [c0, c1, c2, c3]
  {
    var v0, v1, v2, v3 := Value(c0).value, Value(c1).value, Value(c2).value, Value(c3).value;
    assert d == Join(v0, v1, v2, v3);
    EncodeJoin(v0, v1, v2, v3);
    assert Encode(d) == EncodeQuantum(d[0], d[1], d[2]) + Encode(d[3..]);
  }

  /** A last quantum with two pads that decodes is the encoding of its one byte. */
  lemma FinalOfDecoded1(c0: Byte, c1: Byte, c2: Byte, c3: Byte, d: Bytes)
    requires DecodeFinal(c0, c1, c2, c3) == Some(d) && Value(c2).None? && Value(c3).None?
    ensures Encode(d) == [c0, c1, c2, c3]
  {
    var v0, v1 := Value(c0).value, Value(c1).value;
    assert d == [Join(v0, v1, 0, 0)[0]];
    EncodeJoin1(v0, v1);
    assert Encode(d) == EncodeFinal1(d[0]);
  }

  /** A last quantum with one pad that decodes is the encoding of its two bytes. */
  lemma FinalOfDecoded2(c0: Byte, c1: Byte, c2: Byte, c3: Byte, d: Bytes)
    requires DecodeFinal(c0, c1, c2, c3) == Some(d) && Value(c2).Some? && Value(c3).None?
    ensures Encode(d) == [c0, c1, c2, c3]
  {
    var v0, v1, v2 := Value(c0).value, Value(c1).value, Value(c2).value;
    var j := Join(v0, v1, v2, 0);
    assert d == [j[0], j[1]];
    EncodeJoin2(v0, v1, v2);
    assert Encode(d) == EncodeFinal2(d[0], d[1]);
  }

  /** A last quantum that decodes is the encoding of its one to three bytes. */
  lemma FinalOfDecoded(c0: Byte, c1: Byte, c2: Byte, c3: Byte, d: Bytes)
    requires DecodeFinal(c0, c1, c2, c3) == Some(d)
    ensures Encode(d) == [c0, c1, c2, c3]
  {
    if Value(c2).Some? && Value(c3).Some? {
      FinalOfDecoded3(c0, c1, c2, c3, d);
    } else if Value(c2).Some? {
      FinalOfDecoded2(c0, c1, c2, c3, d);
    } else {
      FinalOfDecoded1(c0, c1, c2, c3, d);
    }
  }

  /** A decodable text longer than one quantum decodes quantum by quantum. */
  lemma DecodeSplit(s: Bytes)
    requires Decode(s).Ok? && |s| > 4
    ensures DecodeQuantum(s[0], s[1], s[2], s[3]).Some? && Decode(s[4..]).Ok?
    ensures Decode(s).value == DecodeQuantum(s[0], s[1], s[2], s[3]).value + Decode(s[4..]).value
  {
  }

  /** Encoding three bytes and then the rest. */
  lemma EncodeCons(d: Bytes, rest: Bytes)
    requires |d| == 3
    ensures Encode(d + rest) == EncodeQuantum(d[0], d[1], d[2]) + Encode(rest)
  {
    assert (d + rest)[3..] == rest;
  }

  /** The base case of the induction below: a single quantum. */
  lemma LastIsEncoding(s: Bytes)
    requires |s| == 4 && Decode(s).Ok?
    ensures Encode(Decode(s).value) == s
  {
    FinalOfDecoded(s[0], s[1], s[2], s[3], Decode(s).value);
    assert s == [s[0], s[1], s[2], s[3]];
  }

  /** Three bytes whose quantum is the first four characters of `s`, followed by bytes
      whose encoding is the rest of `s`, encode to `s`. */
  lemma AssembleQuantum(s: Bytes, d: Bytes, rest: Bytes)
    requires |s| >= 4 && |d| == 3
    requires EncodeQuantum(d[0], d[1], d[2]) == s[..4]
    requires Encode(rest) == s[4..]
    ensures Encode(d + rest) == s
  {
    EncodeCons(d, rest);
    assert s == s[..4] + s[4..];
  }

  /** One step of the induction below: the first quantum is the encoding of the first
      three bytes, and the rest is the encoding of the remaining bytes. */
  lemma ConsIsEncoding(s: Bytes)
    requires |s| > 4 && Decode(s).Ok? && Decode(s[4..]).Ok?
    requires Encode(Decode(s[4..]).value) == s[4..]
    ensures Encode(Decode(s).value) == s
  {
    DecodeSplit(s);
    var d := DecodeQuantum(s[0], s[1], s[2], s[3]).value;
    QuantumOfDecoded(s[0], s[1], s[2], s[3], d);
    assert s[..4] == [s[0], s[1], s[2], s[3]];
    AssembleQuantum(s, d, Decode(s[4..]).value);
  }

  /** What is left after the first quantum of a decodable text is decodable. */
  lemma DecodeTail(s: Bytes)
    requires Decode(s).Ok? && |s| > 4
    ensures Decode(s[4..]).Ok?
  {
    DecodeSplit(s);
  }

  /** A decodable text is empty, one quantum, or longer. */
  lemma DecodableLength(s: Bytes)
    requires Decode(s).Ok?
    ensures |s| == 0 || |s| == 4 || |s| > 4
  {
  }

  /** Only encodings decode: whatever decodes successfully is the encoding of what it
      decodes to, so each byte string has exactly one accepted text. */
  lemma {:induction false} DecodedIsEncoding(s: Bytes)
    requires Decode(s).Ok?
    ensures Encode(Decode(s).value) == s
    decreases |s|
  {
    DecodableLength(s);
    if |s| == 4 {
      LastIsEncoding(s);
    } else if |s| > 4 {
      DecodeTail(s);
      DecodedIsEncoding(s[4..]);
      ConsIsEncoding(s);
    }
  }

  /** Decoding succeeds with `b` exactly on the text `Encode(b)`. */
  lemma DecodeIffEncode(s: Bytes, b: Bytes)
    ensures Decode(s) == Ok(b) <==> s == Encode(b)
  {
    if Decode(s) == Ok(b) {
      DecodedIsEncoding(s);
    }
    if s == Encode(b) {
      DecodeEncode(b);
    }
  }

  /** A text that decodes to `n` bytes is as long as the encoding of `n` bytes. */
  lemma DecodedLength(s: Bytes, n: nat)
    requires Decode(s).Ok? && |Decode(s).value| == n
    ensures |s| == 4 * ((n + 2) / 3)
  {
    DecodedIsEncoding(s);
    EncodeLength(Decode(s).value);
  }
}
