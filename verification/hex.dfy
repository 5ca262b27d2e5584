/** Hexadecimal decoding as performed by the `hex` crate's `decode`:
    an even number of digits, each of `0-9`, `a-f` or `A-F`, two digits per
    byte with the high nibble first. `Encode` (lower-case) is its inverse. */
module Hex {
  import opened Base

  predicate IsDigit(c: Byte) {
    0x30 <= c <= 0x39 || 0x61 <= c <= 0x66 || 0x41 <= c <= 0x46
  }

  /** The value of one hexadecimal digit. */
  function DigitValue(c: Byte): (v: nat)
    requires IsDigit(c)
    ensures v < 16
  {
    if c <= 0x39 then c - 0x30 else if c >= 0x61 then c - 0x61 + 10 else c - 0x41 + 10
  }

  /** The lower-case digit for a nibble. */
  function Digit(v: nat): (c: Byte)
    requires v < 16
    ensures IsDigit(c) && DigitValue(c) == v
  {
    if v < 10 then 0x30 + v else 0x61 + v - 10
  }

  /** Hexadecimal decoding, pair by pair from the left. */
  function Decode(s: Bytes): (r: Option<Bytes>)
    ensures r.Some? ==> |s| % 2 == 0 && |r.value| == |s| / 2
    decreases |s|
  {
    if |s| % 2 != 0 then None
    else if |s| == 0 then Some([])
    else if !IsDigit(s[0]) || !IsDigit(s[1]) then None
    else
      match Decode(s[2..])
      case None => None
      case Some(rest) => Some([16 * DigitValue(s[0]) + DigitValue(s[1])] + rest)
  }

  /** Decoding succeeds exactly on an even-length string of hexadecimal
      digits, and byte `i` of the result is the pair of digits at `2i`. */
  lemma {:induction false} DecodeMeaning(s: Bytes)
    ensures Decode(s).Some? <==> |s| % 2 == 0 && forall i :: 0 <= i < |s| ==> IsDigit(s[i])
    ensures Decode(s).Some? ==> forall i :: 0 <= i < |s| / 2 ==>
              Decode(s).value[i] == 16 * DigitValue(s[2 * i]) + DigitValue(s[2 * i + 1])
    decreases |s|
  {
    if |s| % 2 == 0 && |s| > 0 {
      DecodeMeaning(s[2..]);
      if Decode(s).Some? {
        var rest := Decode(s[2..]).value;
        assert Decode(s).value == [16 * DigitValue(s[0]) + DigitValue(s[1])] + rest;
        forall i | 0 <= i < |s| / 2
          ensures Decode(s).value[i] == 16 * DigitValue(s[2 * i]) + DigitValue(s[2 * i + 1])
        {
          if i > 0 {
            assert s[2 * i] == s[2..][2 * (i - 1)];
            assert s[2 * i + 1] == s[2..][2 * (i - 1) + 1];
          }
        }
        forall i | 0 <= i < |s| ensures IsDigit(s[i]) {
          if i >= 2 { assert s[i] == s[2..][i - 2]; }
        }
      } else if IsDigit(s[0]) && IsDigit(s[1]) {
        var i :| 0 <= i < |s[2..]| && !IsDigit(s[2..][i]);
        assert s[i + 2] == s[2..][i];
      }
    }
  }

  /** Lower-case hexadecimal encoding, two digits per byte. */
  function Encode(b: Bytes): (s: Bytes)
    ensures |s| == 2 * |b|
    ensures forall i :: 0 <= i < |s| ==> s[i] < 0x80 && IsDigit(s[i])
  {
    if b == [] then [] else [Digit(b[0] / 16), Digit(b[0] % 16)] + Encode(b[1..])
  }

  /** Decoding inverts encoding. */
  lemma {:induction false} DecodeEncode(b: Bytes)
    ensures Decode(Encode(b)) == Some(b)
  {
    if b != [] {
      var s := Encode(b);
      DecodeEncode(b[1..]);
      assert s[2..] == Encode(b[1..]);
      assert IsDigit(s[0]) && IsDigit(s[1]);
      assert 16 * DigitValue(s[0]) + DigitValue(s[1]) == b[0];
      assert Decode(s) == Some([b[0]] + b[1..]);
      assert [b[0]] + b[1..] == b;
    }
  }
}
