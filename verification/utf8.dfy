/** `buf.toString('utf8')`: UTF-8 decoding in which every maximal ill-formed subsequence is
    replaced by one U+FFFD, the replacement the WHATWG Encoding standard prescribes. */
module Utf8 {
  import opened JsText

  /** U+FFFD REPLACEMENT CHARACTER. */
  const Replacement: char := '\U{FFFD}'

  /** Length of the sequence a lead byte starts: 1 for ASCII, 2 to 4 for a multi-byte lead,
      0 for a byte that starts nothing (a continuation byte, C0, C1 or F5 to FF). */
  function SequenceLength(lead: Byte): nat
  {
    if lead < 0x80 then 1
    else if 0xC2 <= lead <= 0xDF then 2
    else if 0xE0 <= lead <= 0xEF then 3
    else if 0xF0 <= lead <= 0xF4 then 4
    else 0
  }

  /** The byte at offset `j` (1 to 3) after `lead` continues its sequence. The second byte
      has a narrower range after E0, ED, F0 and F4, which rules out overlong forms,
      surrogates and values above U+10FFFF. */
  predicate Continues(lead: Byte, j: nat, x: Byte)
  {
    if j == 1 && lead == 0xE0 then 0xA0 <= x <= 0xBF
    else if j == 1 && lead == 0xED then 0x80 <= x <= 0x9F
    else if j == 1 && lead == 0xF0 then 0x90 <= x <= 0xBF
    else if j == 1 && lead == 0xF4 then 0x80 <= x <= 0x8F
    else 0x80 <= x <= 0xBF
  }

  /** Number of bytes after the lead `b[0]` that continue its sequence, counting from
      offset `j` and stopping at the first that does not or at `n - 1`. */
  function Continuations(b: seq<Byte>, n: nat, j: nat): (k: nat)
    requires 1 <= j <= n && j <= |b|
    ensures j - 1 <= k <= n - 1 && k < |b|
    ensures forall m :: j <= m <= k ==> Continues(b[0], m, b[m])
    ensures k < n - 1 ==> k + 1 == |b| || !Continues(b[0], k + 1, b[k + 1])
    decreases n - j
  {
    if j < n && j < |b| && Continues(b[0], j, b[j]) then Continuations(b, n, j + 1) else j - 1
  }

  /** The code point of a complete, valid sequence of `n` bytes. */
  function CodePoint(b: seq<Byte>, n: nat): (cp: int)
    requires 2 <= n <= 4 && |b| >= n && SequenceLength(b[0]) == n
    requires forall m :: 1 <= m < n ==> Continues(b[0], m, b[m])
    ensures 0x80 <= cp < 0xD800 || 0xE000 <= cp < 0x11_0000
  {
    var x0, x1: int := b[0], b[1] as int - 0x80;
    assert Continues(b[0], 1, b[1]);
    if n == 2 then (x0 - 0xC0) * 64 + x1
    else
      var x2: int := b[2] as int - 0x80;
      assert Continues(b[0], 2, b[2]);
      if n == 3 then (x0 - 0xE0) * 4096 + x1 * 64 + x2
      else
        var x3: int := b[3] as int - 0x80;
        assert Continues(b[0], 3, b[3]);
        (x0 - 0xF0) * 262144 + x1 * 4096 + x2 * 64 + x3
  }

  /** One step of the decoder on non-empty input: the character produced and the number of
      bytes consumed. An ASCII byte is itself; a complete sequence is its code point; any
      other byte, or an incomplete sequence, is one U+FFFD covering the lead and the bytes
      that did continue it. A non-ASCII lead never yields an ASCII character. */
  function Step(b: seq<Byte>): (r: (char, nat))
    requires |b| >= 1
    ensures 1 <= r.1 <= |b|
    ensures b[0] < 0x80 ==> r == (b[0] as char, 1)
    ensures b[0] >= 0x80 ==> r.0 as int >= 0x80
  {
    var n := SequenceLength(b[0]);
    if n == 1 then (b[0] as char, 1)
    else if n == 0 then (Replacement, 1)
    else
      var k := Continuations(b, n, 1);
      if k == n - 1 then (CodePoint(b, n) as char, n) else (Replacement, 1 + k)
  }

  /** The text of a byte sequence. */
  function Decode(b: seq<Byte>): (s: string)
    ensures |s| <= |b|
    decreases |b|
  {
    if |b| == 0 then [] else [Step(b).0] + Decode(b[Step(b).1..])
  }

  /** Bytes that are all ASCII decode to the characters with the same codes. */
  lemma {:induction false} DecodeAscii(b: seq<Byte>)
    requires forall k :: 0 <= k < |b| ==> b[k] < 0x80
    ensures |Decode(b)| == |b|
    ensures forall k :: 0 <= k < |b| ==> Decode(b)[k] as int == b[k]
    decreases |b|
  {
    if |b| > 0 {
      DecodeAscii(b[1..]);
      assert forall k :: 1 <= k < |b| ==> Decode(b)[k] == Decode(b[1..])[k - 1];
    }
  }

  /** Every ASCII character of the text comes from an ASCII byte of the input: a byte of 0x80
      or more yields only characters outside ASCII. */
  lemma {:induction false} AsciiCharsFromAsciiBytes(b: seq<Byte>, k: nat)
    requires k < |Decode(b)| && Decode(b)[k] as int < 0x80
    ensures exists j :: 0 <= j < |b| && b[j] == Decode(b)[k] as int
    decreases |b|
  {
    var n := Step(b).1;
    if k == 0 {
      assert b[0] == Decode(b)[0] as int;
    } else {
      var rest := b[n..];
      assert Decode(b)[k] == Decode(rest)[k - 1];
      AsciiCharsFromAsciiBytes(rest, k - 1);
      var j :| 0 <= j < |rest| && rest[j] == Decode(rest)[k - 1] as int;
      assert b[n + j] == rest[j];
    }
  }

  // ---------------------------------------------------------------- encoding

  /** The UTF-8 bytes of one character. */
  function EncodeChar(c: char): (e: seq<Byte>)
    ensures 1 <= |e| <= 4
  {
    var cp := c as int;
    if cp < 0x80 then [cp]
    else if cp < 0x800 then [0xC0 + cp / 64, 0x80 + cp % 64]
    else
      var q := cp / 64;
      if cp < 0x1_0000 then [0xE0 + q / 64, 0x80 + q % 64, 0x80 + cp % 64]
      else [0xF0 + q / 64 / 64, 0x80 + q / 64 % 64, 0x80 + q % 64, 0x80 + cp % 64]
  }

  /** The UTF-8 bytes of a text. */
  function Encode(s: string): (b: seq<Byte>)
    ensures |b| >= |s|
  {
    if |s| == 0 then [] else EncodeChar(s[0]) + Encode(s[1..])
  }

  /** A two-byte sequence decodes to its character, whatever follows it. */
  lemma StepTwo(c: char, rest: seq<Byte>)
    requires 0x80 <= c as int < 0x800
    ensures Step(EncodeChar(c) + rest) == (c, 2)
  {
    var cp := c as int;
    var b := EncodeChar(c) + rest;
    assert b[0] == 0xC0 + cp / 64 && b[1] == 0x80 + cp % 64;
    assert Continuations(b, 2, 2) == 1;
    assert CodePoint(b, 2) == cp;
  }

  /** A three-byte sequence decodes to its character, whatever follows it. */
  lemma StepThree(c: char, rest: seq<Byte>)
    requires 0x800 <= c as int < 0x1_0000
    ensures Step(EncodeChar(c) + rest) == (c, 3)
  {
    var cp := c as int;
    var q := cp / 64;
    var b := EncodeChar(c) + rest;
    assert b[0] == 0xE0 + q / 64 && b[1] == 0x80 + q % 64 && b[2] == 0x80 + cp % 64;
    assert Continues(b[0], 1, b[1]);
    assert Continuations(b, 3, 3) == 2;
    assert CodePoint(b, 3) == cp;
  }

  /** The four base-64 digits of a supplementary code point, with the ranges UTF-8 gives
      its second byte. */
  lemma FourDigits(cp: int)
    requires 0x1_0000 <= cp < 0x11_0000
    ensures var q := cp / 64; var r := q / 64;
      && 0 <= r / 64 <= 4
      && cp == ((r / 64 * 64 + r % 64) * 64 + q % 64) * 64 + cp % 64
      && (r / 64 == 0 ==> r % 64 >= 0x10)
      && (r / 64 == 4 ==> r % 64 <= 0x0F)
  {
  }

  /** A four-byte sequence decodes to its character, whatever follows it. */
  lemma StepFour(c: char, rest: seq<Byte>)
    requires 0x1_0000 <= c as int
    ensures Step(EncodeChar(c) + rest) == (c, 4)
  {
    var cp := c as int;
    FourDigits(cp);
    var q := cp / 64;
    var r := q / 64;
    var b := EncodeChar(c) + rest;
    assert b[0] == 0xF0 + r / 64 && b[1] == 0x80 + r % 64;
    assert b[2] == 0x80 + q % 64 && b[3] == 0x80 + cp % 64;
    assert Continues(b[0], 1, b[1]);
    assert Continuations(b, 4, 4) == 3;
    assert CodePoint(b, 4) == cp;
  }

  /** The bytes of a character decode to that character, whatever follows them. */
  lemma StepEncodeChar(c: char, rest: seq<Byte>)
    ensures Step(EncodeChar(c) + rest) == (c, |EncodeChar(c)|)
  {
    var cp := c as int;
    if cp < 0x80 {
    } else if cp < 0x800 {
      StepTwo(c, rest);
    } else if cp < 0x1_0000 {
      StepThree(c, rest);
    } else {
      StepFour(c, rest);
    }
  }

  /** Decoding undoes encoding: every text survives a round trip through UTF-8. */
  lemma {:induction false} DecodeEncode(s: string)
    ensures Decode(Encode(s)) == s
    decreases |s|
  {
    if |s| > 0 {
      var e, rest := EncodeChar(s[0]), Encode(s[1..]);
      StepEncodeChar(s[0], rest);
      assert (e + rest)[|e|..] == rest;
      DecodeEncode(s[1..]);
      assert s == [s[0]] + s[1..];
    }
  }
}
