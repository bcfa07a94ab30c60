/**
 UTF-8: the lead-byte table and the conversion of a code point to bytes, against
 section 3 of RFC 3629.
 */
module Utf8 {
  import opened CStrings
  import opened Options
  import opened Bits

  function ByteOf(n: nat): Byte
    requires n < 256
  {
    n as char
  }

  /** `utf8ByteTable`: the length of the character that starts with `lead`, 1 for an
      invalid lead byte. */
  function LeadLength(lead: Byte): (n: nat)
    ensures 1 <= n <= 4
  {
    var b := lead as int;
    if b < 0xC2 then 1
    else if b < 0xE0 then 2
    else if b < 0xF0 then 3
    else if b < 0xF5 then 4
    else 1
  }

  /** How many bytes `GetChar` and `Stamp` take for the character that starts with `lead`. */
  function CharLength(lead: Byte, enc: Encoding): (n: nat)
    ensures 1 <= n <= 4 && (!enc.Utf8? ==> n == 1)
  {
    if enc.Utf8? then LeadLength(lead) else 1
  }

  predicate AllHigh(s: Bytes, i: nat, j: nat)
    requires j <= |s|
  {
    forall k | i <= k < j :: s[k] as int >= 0x80
  }

  /** The character that starts at `i` is not cut short: the bytes its lead byte announces
      are there and the ones after the lead are not ASCII. */
  predicate CompleteAt(s: Bytes, i: nat, enc: Encoding)
    requires i < |s|
  {
    i + CharLength(s[i], enc) <= |s| && AllHigh(s, i + 1, i + CharLength(s[i], enc))
  }

  /** Every well-formed UTF-8 string is complete, and so is every legacy string. */
  predicate Complete(s: Bytes, enc: Encoding) {
    forall i | 0 <= i < |s| :: CompleteAt(s, i, enc)
  }

  // ----- code points to bytes -----

  /** The bytes of a code point below 0x200000; nothing for a larger one. */
  function Encode(cp: nat): (r: Bytes)
    ensures |r| <= 4
  {
    if cp < 0x80 then [ByteOf(cp)]
    else if cp < 0x800 then [ByteOf(0xC0 + cp / 64), ByteOf(0x80 + cp % 64)]
    else if cp < 0x10000 then
      [ByteOf(0xE0 + cp / 64 / 64), ByteOf(0x80 + cp / 64 % 64), ByteOf(0x80 + cp % 64)]
    else if cp < 0x200000 then
      [ByteOf(0xF0 + cp / 64 / 64 / 64), ByteOf(0x80 + cp / 64 / 64 % 64), ByteOf(0x80 + cp / 64 % 64),
       ByteOf(0x80 + cp % 64)]
    else []
  }

  const BYTE_MASK: Word := 0xBF
  const BYTE_MARK: Word := 0x80
  const FIRST_BYTE_MARK: seq<Word> := [0x00, 0x00, 0xC0, 0xE0, 0xF0, 0xF8, 0xFC]

  /** The cast of a word to `char`. */
  function ByteOfWord(x: Word): Byte {
    ((x & 0xFF) as int) as char
  }

  /** The mark and mask of a byte after the first keep six bits and put 10 before them. */
  lemma ContinuationBits(x: Word)
    ensures ByteOfWord((x | BYTE_MARK) & BYTE_MASK) == ByteOf(0x80 + ValueOf(x) % 64)
  {
    hide ValueOf, LowSix, ByteOfWord;
    ShiftDivides(x);
    MarkLowSix(x);
  }

  lemma MarkLowSix(x: Word)
    ensures ValueOf(LowSix(x)) < 64 && ByteOfWord((x | BYTE_MARK) & BYTE_MASK) == ByteOf(0x80 + ValueOf(LowSix(x)))
  {
    var l := LowSix(x);
    assert ((x | BYTE_MARK) & BYTE_MASK) & 0xFF == 0x80 | l;
    assert l < 64;
    assert (0x80 | l) as int == 0x80 + l as int;
  }

  /** The marks of first bytes as numbers. */
  function LeadMark(length: nat): nat {
    if length == 4 then 0xF0 else if length == 3 then 0xE0 else if length == 2 then 0xC0 else 0
  }

  /** The mark of the first byte is added to what is left of the input. */
  lemma LeadBits(x: Word, length: nat)
    requires 1 <= length <= 4
    requires ValueOf(x) < if length == 1 then 0x80 else if length == 2 then 0x20 else if length == 3 then 0x10 else 0x08
    ensures var n := ValueOf(x) + LeadMark(length); n < 256 && ByteOfWord(x | FIRST_BYTE_MARK[length]) == ByteOf(n)
  {
  }

  /** The conversion as the source does it: pick the length, then fill the bytes from the
      last to the first, shifting the input right by six bits after each. */
  method ConvertUTF32ToUTF8(input: nat) returns (output: Bytes)
    ensures output == Encode(input)
  {
    hide ValueOf, ByteOfWord;
    var length: nat;
    if input < 0x80 { length := 1; }
    else if input < 0x800 { length := 2; }
    else if input < 0x10000 { length := 3; }
    else if input < 0x200000 { length := 4; }
    else { return []; }
    var rest := input as Word;
    ghost var word := WordValue(input);
    output := [];
    if length >= 4 { output, rest := ContinuationByte(rest, output); }
    if length >= 3 { output, rest := ContinuationByte(rest, output); }
    if length >= 2 { output, rest := ContinuationByte(rest, output); }
    LeadBits(rest, length);
    output := [ByteOfWord(rest | FIRST_BYTE_MARK[length])] + output;
  }

  /** What each of the cases does that fall through. */
  method ContinuationByte(input: Word, output: Bytes) returns (r: Bytes, rest: Word)
    ensures r == [ByteOf(0x80 + ValueOf(input) % 64)] + output
    ensures ValueOf(rest) == ValueOf(input) / 64
  {
    hide ValueOf, ByteOfWord;
    ContinuationBits(input);
    ShiftDivides(input);
    r := [ByteOfWord((input | BYTE_MARK) & BYTE_MASK)] + output;
    rest := input >> 6;
  }

  predicate IsContinuation(b: Byte) {
    0x80 <= b as int < 0xC0
  }

  /** The reader of section 3 of RFC 3629, without its limit of 0x10FFFF: the lead byte
      gives the length, the other bytes are continuation bytes, and the length is the
      shortest possible. */
  function Decode(b: Bytes): Option<nat> {
    if |b| == 1 && b[0] as int < 0x80 then Some(b[0] as int)
    else if |b| == 2 && 0xC0 <= b[0] as int < 0xE0 && IsContinuation(b[1]) then
      AtLeast(0x80, (b[0] as int - 0xC0) * 64 + (b[1] as int - 0x80))
    else if |b| == 3 && 0xE0 <= b[0] as int < 0xF0 && IsContinuation(b[1]) && IsContinuation(b[2]) then
      AtLeast(0x800, (b[0] as int - 0xE0) * 4096 + (b[1] as int - 0x80) * 64 + (b[2] as int - 0x80))
    else if |b| == 4 && 0xF0 <= b[0] as int < 0xF8
            && IsContinuation(b[1]) && IsContinuation(b[2]) && IsContinuation(b[3]) then
      AtLeast(0x10000, (b[0] as int - 0xF0) * 262144 + (b[1] as int - 0x80) * 4096
                       + (b[2] as int - 0x80) * 64 + (b[3] as int - 0x80))
    else None
  }

  function AtLeast(least: nat, cp: nat): Option<nat> {
    if least <= cp then Some(cp) else None
  }

  /** The conversion and the RFC's reader are inverse to each other on every code point
      below 0x200000, so the conversion is injective and of minimal length. */
  lemma EncodeDecode(cp: nat, b: Bytes)
    requires cp < 0x200000
    ensures Decode(b) == Some(cp) <==> b == Encode(cp)
  {
    hide Encode, Decode;
    EncodedDecodes(cp);
    if Decode(b) == Some(cp) { DecodedEncodes(cp, b); }
  }

  lemma EncodedDecodes(cp: nat)
    requires cp < 0x200000
    ensures Decode(Encode(cp)) == Some(cp)
  {
    var c1, c2 := cp / 64, cp / 64 / 64;
    assert cp == c1 * 64 + cp % 64 && c1 == c2 * 64 + c1 % 64 && c2 == c2 / 64 * 64 + c2 % 64;
  }

  lemma DecodedEncodes(cp: nat, b: Bytes)
    requires cp < 0x200000 && Decode(b) == Some(cp)
    ensures b == Encode(cp)
  {
    var n := |b|;
    if n == 2 {
      Quotient(cp, b[0] as int - 0xC0, b[1] as int - 0x80);
    } else if n > 2 {
      var high := if n == 3 then b[0] as int - 0xE0 else (b[0] as int - 0xF0) * 64 + (b[1] as int - 0x80);
      Quotient(cp, high * 64 + (b[n - 2] as int - 0x80), b[n - 1] as int - 0x80);
      Quotient(cp / 64, high, b[n - 2] as int - 0x80);
      if n == 4 { Quotient(high, b[0] as int - 0xF0, b[1] as int - 0x80); }
    }
  }

  lemma Quotient(n: nat, high: nat, low: nat)
    requires n == high * 64 + low && low < 64
    ensures n / 64 == high && n % 64 == low
  {
  }

  /** The table agrees with the conversion exactly below 0x140000, which covers every
      Unicode code point; above, lead bytes 0xF5 to 0xF7 are listed as invalid. */
  lemma LeadLengthAgrees(cp: nat)
    requires cp < 0x200000
    ensures LeadLength(Encode(cp)[0]) == |Encode(cp)| <==> cp < 0x140000
    ensures forall k | 0 < k < |Encode(cp)| :: IsContinuation(Encode(cp)[k])
  {
  }

  // ----- whole strings -----

  function EncodeAll(cps: seq<nat>): Bytes {
    if cps == [] then [] else Encode(cps[0]) + EncodeAll(cps[1..])
  }

  /** Every string of code points, written in UTF-8, is complete in every encoding. */
  lemma {:induction false} EncodedIsComplete(cps: seq<nat>, enc: Encoding)
    requires forall i | 0 <= i < |cps| :: cps[i] < 0x140000
    ensures Complete(EncodeAll(cps), enc)
  {
    if cps != [] {
      var a, b := Encode(cps[0]), EncodeAll(cps[1..]);
      EncodedIsComplete(cps[1..], enc);
      LeadLengthAgrees(cps[0]);
      forall i | 0 <= i < |a + b| ensures CompleteAt(a + b, i, enc) {
        if i >= |a| {
          assert CompleteAt(b, i - |a|, enc);
          var n := CharLength(b[i - |a|], enc);
          forall k | i + 1 <= k < i + n ensures (a + b)[k] as int >= 0x80 { assert (a + b)[k] == b[k - |a|]; }
        } else if i > 0 {
          assert IsContinuation(a[i]);
        }
      }
    }
  }
}
