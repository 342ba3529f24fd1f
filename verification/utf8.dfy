/** UTF-8 as the Rust standard library treats it: `str::from_utf8` (which `CStr::to_str`
    calls) accepts exactly the well-formed byte sequences of Unicode Table 3-7, and
    `String::from_utf8_lossy` walks the bytes as `Utf8Chunks` does and puts one U+FFFD
    in place of each maximal ill-formed subpart. */
module Utf8 {
  import opened Common

  /** A continuation byte, 80..BF. */
  predicate IsCont(b: Byte) {
    0x80 <= b <= 0xBF
  }

  /** One well-formed encoded character, row by row of Unicode Table 3-7. This is the
      reference definition; the decoder below does not use it. */
  predicate WellFormedChar(c: Bytes) {
    || (|c| == 1 && c[0] <= 0x7F)
    || (|c| == 2 && 0xC2 <= c[0] <= 0xDF && IsCont(c[1]))
    || (|c| == 3 && IsCont(c[2]) &&
        (|| (c[0] == 0xE0 && 0xA0 <= c[1] <= 0xBF)
         || (0xE1 <= c[0] <= 0xEC && IsCont(c[1]))
         || (c[0] == 0xED && 0x80 <= c[1] <= 0x9F)
         || (0xEE <= c[0] <= 0xEF && IsCont(c[1]))))
    || (|c| == 4 && IsCont(c[2]) && IsCont(c[3]) &&
        (|| (c[0] == 0xF0 && 0x90 <= c[1] <= 0xBF)
         || (0xF1 <= c[0] <= 0xF3 && IsCont(c[1]))
         || (c[0] == 0xF4 && 0x80 <= c[1] <= 0x8F)))
  }

  /** The width a lead byte announces (the standard library's `utf8_char_width`);
      0 for a byte no character starts with. */
  function Width(lead: Byte): nat {
    if lead < 0x80 then 1
    else if lead < 0xC2 then 0
    else if lead < 0xE0 then 2
    else if lead < 0xF0 then 3
    else if lead < 0xF5 then 4
    else 0
  }

  /** The byte sequence is a concatenation of well-formed characters (the lead byte of
      each says how long it is). */
  predicate Valid(b: Bytes)
    decreases |b|
  {
    b == [] || (var n := Width(b[0]); 1 <= n <= |b| && WellFormedChar(b[..n]) && Valid(b[n..]))
  }

  /** A Rust `String` or `&str`: bytes that are valid UTF-8. */
  type Text = b: Bytes | Valid(b)

  /** The range the second byte must fall in after a given lead byte of width 3 or 4
      (the `match (byte, next)` arms of the decoder); otherwise a continuation byte. */
  predicate SecondOk(lead: Byte, b: Byte) {
    if lead == 0xE0 then 0xA0 <= b <= 0xBF
    else if lead == 0xED then 0x80 <= b <= 0x9F
    else if lead == 0xF0 then 0x90 <= b <= 0xBF
    else if lead == 0xF4 then 0x80 <= b <= 0x8F
    else IsCont(b)
  }

  /** One step of the decoder at the start of `b`: how many bytes it consumes and whether
      they form a character (true) or an ill-formed subpart to be replaced (false). A byte
      that is missing at the end of input fails the check it is read for, as `safe_get`
      returns 0 there. */
  function Scan(b: Bytes): (r: (nat, bool))
    requires |b| > 0
    ensures 1 <= r.0 <= |b| && r.0 <= 4
  {
    var w := Width(b[0]);
    if w == 1 then (1, true)
    else if w == 0 then (1, false)
    else if |b| < 2 || !SecondOk(b[0], b[1]) then (1, false)
    else if w == 2 then (2, true)
    else if |b| < 3 || !IsCont(b[2]) then (2, false)
    else if w == 3 then (3, true)
    else if |b| < 4 || !IsCont(b[3]) then (3, false)
    else (4, true)
  }

  /** U+FFFD REPLACEMENT CHARACTER, encoded. */
  const Replacement: Bytes := [0xEF, 0xBF, 0xBD]

  /** `String::from_utf8_lossy(b).into_owned()`: always valid UTF-8, so the result is a
      well-formed `String`. */
  function Lossy(b: Bytes): (r: Bytes)
    ensures Valid(r)
    decreases |b|
  {
    if b == [] then []
    else
      var (n, ok) := Scan(b);
      var rest := Lossy(b[n..]);
      if ok then
        ScanAgreesWithTable(b, n);
        ValidCons(b[..n], rest);
        b[..n] + rest
      else
        assert WellFormedChar(Replacement);
        ValidCons(Replacement, rest);
        Replacement + rest
  }

  /** A complete step of the decoder consumed a well-formed character, and a well-formed
      character at the start of the input is consumed whole by one complete step. */
  lemma ScanAgreesWithTable(b: Bytes, n: nat)
    requires |b| > 0
    ensures Scan(b).1 ==> WellFormedChar(b[..Scan(b).0])
    ensures 1 <= n <= |b| && WellFormedChar(b[..n]) ==> Scan(b) == (n, true)
  {
    if 1 <= n <= |b| && WellFormedChar(b[..n]) {
      assert b[..n][0] == b[0];
      assert n >= 2 ==> b[..n][1] == b[1];
      assert n >= 3 ==> b[..n][2] == b[2];
      assert n >= 4 ==> b[..n][3] == b[3];
    }
  }

  /** A well-formed character followed by valid text is valid text. */
  lemma ValidCons(c: Bytes, rest: Bytes)
    requires WellFormedChar(c) && Valid(rest)
    ensures Valid(c + rest)
  {
    var b := c + rest;
    assert b[0] == c[0] && Width(c[0]) == |c|;
    assert b[..|c|] == c && b[|c|..] == rest;
  }

  /** Decoding lossily changes nothing exactly when the input is already valid UTF-8:
      bytes that came from a `&str` come back unchanged. */
  lemma {:induction false} LossyIdentityIffValid(b: Bytes)
    ensures Lossy(b) == b <==> Valid(b)
    decreases |b|
  {
    if Valid(b) {
      LossyFixesValid(b);
    } else if Lossy(b) == b {
      assert false;
    }
  }

  lemma {:induction false} LossyFixesValid(b: Bytes)
    requires Valid(b)
    ensures Lossy(b) == b
    decreases |b|
  {
    if b != [] {
      var n := Width(b[0]);
      ScanAgreesWithTable(b, n);
      assert Scan(b) == (n, true);
      LossyFixesValid(b[n..]);
      assert Lossy(b) == b[..n] + Lossy(b[n..]);
      assert b == b[..n] + b[n..];
    }
  }

  /** Bytes below 0x80 (ASCII) are valid UTF-8: each one is a character. */
  lemma {:induction false} AsciiIsValid(b: Bytes)
    requires forall i :: 0 <= i < |b| ==> b[i] < 0x80
    ensures Valid(b)
    decreases |b|
  {
    if b != [] {
      AsciiIsValid(b[1..]);
      assert Width(b[0]) == 1 && WellFormedChar(b[..1]);
    }
  }

  /** Valid text followed by valid text is valid text (what `format!` relies on). */
  lemma {:induction false} ValidConcat(a: Bytes, b: Bytes)
    requires Valid(a) && Valid(b)
    ensures Valid(a + b)
    decreases |a|
  {
    if a != [] {
      var n := Width(a[0]);
      ValidConcat(a[n..], b);
      var ab := a + b;
      assert ab[0] == a[0];
      assert ab[..n] == a[..n];
      assert ab[n..] == a[n..] + b;
    } else {
      assert a + b == b;
    }
  }
}
