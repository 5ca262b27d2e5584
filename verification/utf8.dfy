/** UTF-8 well-formedness, as decided by Rust's `str::from_utf8` and
    `String::from_utf8` (the well-formed byte sequences of the Unicode
    Standard, Table 3-7; the same set RFC 3629 defines). */
module Utf8 {
  import opened Base

  predicate IsContinuation(b: Byte) { 0x80 <= b <= 0xBF }

  /** The number of bytes of the well-formed character that starts `s`,
      or 0 when `s` does not start with one. */
  function LeadWidth(s: Bytes): (w: nat)
    ensures w <= 4 && w <= |s|
    ensures |s| > 0 && s[0] < 0x80 ==> w == 1
    ensures w > 1 ==> s[0] >= 0xC2
  {
    if |s| == 0 then 0
    else if s[0] < 0x80 then 1
    else if 0xC2 <= s[0] <= 0xDF then
      if |s| >= 2 && IsContinuation(s[1]) then 2 else 0
    else if s[0] == 0xE0 then
      if |s| >= 3 && 0xA0 <= s[1] <= 0xBF && IsContinuation(s[2]) then 3 else 0
    else if 0xE1 <= s[0] <= 0xEC || 0xEE <= s[0] <= 0xEF then
      if |s| >= 3 && IsContinuation(s[1]) && IsContinuation(s[2]) then 3 else 0
    else if s[0] == 0xED then
      if |s| >= 3 && 0x80 <= s[1] <= 0x9F && IsContinuation(s[2]) then 3 else 0
    else if s[0] == 0xF0 then
      if |s| >= 4 && 0x90 <= s[1] <= 0xBF && IsContinuation(s[2]) && IsContinuation(s[3]) then 4 else 0
    else if 0xF1 <= s[0] <= 0xF3 then
      if |s| >= 4 && IsContinuation(s[1]) && IsContinuation(s[2]) && IsContinuation(s[3]) then 4 else 0
    else if s[0] == 0xF4 then
      if |s| >= 4 && 0x80 <= s[1] <= 0x8F && IsContinuation(s[2]) && IsContinuation(s[3]) then 4 else 0
    else 0
  }

  /** Every byte after the first of a character is a continuation byte. */
  lemma LeadWidthContinuation(s: Bytes, i: nat)
    requires 1 <= i < LeadWidth(s)
    ensures IsContinuation(s[i])
  {
  }

  /** `s` is a sequence of well-formed UTF-8 characters. */
  predicate Valid(s: Bytes)
    decreases |s|
  {
    |s| == 0 || (LeadWidth(s) > 0 && Valid(s[LeadWidth(s)..]))
  }

  /** The leading character only depends on the bytes it occupies. */
  lemma LeadWidthOfPrefix(s: Bytes, n: nat)
    requires LeadWidth(s) <= n <= |s| && LeadWidth(s) > 0
    ensures LeadWidth(s[..n]) == LeadWidth(s)
  {
  }

  lemma LeadWidthOfConcat(a: Bytes, b: Bytes)
    requires LeadWidth(a) > 0
    ensures LeadWidth(a + b) == LeadWidth(a)
  {
    assert (a + b)[..|a|] == a;
    LeadWidthOfPrefix(a + b, |a|);
  }

  /** Every ASCII byte string is valid UTF-8. */
  lemma {:induction false} AsciiIsValid(s: Bytes)
    requires forall i :: 0 <= i < |s| ==> s[i] < 0x80
    ensures Valid(s)
    decreases |s|
  {
    if |s| > 0 {
      AsciiIsValid(s[1..]);
    }
  }

  /** Valid UTF-8 is closed under concatenation. */
  lemma {:induction false} ConcatIsValid(a: Bytes, b: Bytes)
    requires Valid(a) && Valid(b)
    ensures Valid(a + b)
    decreases |a|
  {
    if |a| > 0 {
      var w := LeadWidth(a);
      LeadWidthOfConcat(a, b);
      assert (a + b)[w..] == a[w..] + b;
      ConcatIsValid(a[w..], b);
    } else {
      assert a + b == b;
    }
  }

  /** Cutting valid UTF-8 just before an ASCII byte leaves valid UTF-8:
      an ASCII byte never occurs inside a multi-byte character. */
  lemma {:induction false} PrefixBeforeAsciiIsValid(s: Bytes, i: nat)
    requires Valid(s) && i < |s| && s[i] < 0x80
    ensures Valid(s[..i])
    decreases |s|
  {
    if i > 0 {
      var w := LeadWidth(s);
      if w > i {
        LeadWidthContinuation(s, i);
      }
      LeadWidthOfPrefix(s, i);
      assert s[..i][w..] == s[w..][..i - w];
      PrefixBeforeAsciiIsValid(s[w..], i - w);
    }
  }

  /** Which byte sequences are accepted: two-, three- and four-byte
      characters are, while a stray continuation or invalid byte, an
      overlong form, an encoded surrogate, a value above U+10FFFF and a
      truncated character are not. */
  lemma WellFormedExamples()
    ensures Valid([0x68, 0xC3, 0xA9])             // "hé"
    ensures Valid([0xE2, 0x82, 0xAC])             // U+20AC
    ensures Valid([0xF0, 0x9F, 0x98, 0x80])       // U+1F600
    ensures !Valid([0x80]) && !Valid([0xFF])
    ensures !Valid([0xC0, 0x80])                  // overlong U+0000
    ensures !Valid([0xE0, 0x80, 0x80])            // overlong three-byte form
    ensures !Valid([0xED, 0xA0, 0x80])            // surrogate U+D800
    ensures !Valid([0xF4, 0x90, 0x80, 0x80])      // U+110000
    ensures !Valid([0xE2, 0x82])                  // truncated
  {
    var a: Bytes := [0x68, 0xC3, 0xA9];
    assert a[1..] == [0xC3, 0xA9] && a[1..][2..] == [];
    var b: Bytes := [0xE2, 0x82, 0xAC];
    assert b[3..] == [];
    var c: Bytes := [0xF0, 0x9F, 0x98, 0x80];
    assert c[4..] == [];
  }
}
