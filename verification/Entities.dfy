/**
 Writing and reading escaped text one character at a time: `EncodeString`, `GetEntity`
 and `GetChar`.
 */
module Entities {
  import opened CStrings
  import opened Options
  import opened Utf8

  const ENTITY: seq<(CString, Byte)> :=
    [("&amp;", '&'), ("&lt;", '<'), ("&gt;", '>'), ("&quot;", '\"'), ("&apos;", '\'')]

  // ----- writing -----

  /** A hexadecimal character reference seems to start at `i`. */
  predicate HexRefAt(s: Bytes, i: nat) {
    i + 2 < |s| && s[i] == '&' && s[i + 1] == '#' && s[i + 2] == 'x'
  }

  predicate HasHexRef(s: Bytes) {
    exists i | 0 <= i < |s| :: HexRefAt(s, i)
  }

  /** Where copying a character reference unchanged stops: at its semicolon, or at the
      last byte of the string when there is none. */
  function CopyEnd(s: Bytes, i: nat): (r: nat)
    requires i + 1 < |s|
    ensures i < r < |s|
    ensures s[r] == ';' || r == |s| - 1
    ensures forall k | i < k < r :: s[k] != ';'
    decreases |s| - i
  {
    if s[i + 1] == ';' || i + 1 == |s| - 1 then i + 1 else CopyEnd(s, i + 1)
  }

  function UpperHex(d: nat): Byte
    requires d < 16
  {
    if d < 10 then ('0' as int + d) as char else ('A' as int + d - 10) as char
  }

  /** How a single byte is escaped. */
  function EscapeByte(c: Byte): CString {
    if c == '&' then ENTITY[0].0
    else if c == '<' then ENTITY[1].0
    else if c == '>' then ENTITY[2].0
    else if c == '\"' then ENTITY[3].0
    else if c == '\'' then ENTITY[4].0
    else if c as int < 32 then ['&', '#', 'x', UpperHex(c as int / 16), UpperHex(c as int % 16), ';']
    else [c]
  }

  /** The escaped form of `s[i..]`. */
  function EncodeFrom(s: Bytes, i: nat): Bytes
    requires i <= |s|
    decreases |s| - i
  {
    if i == |s| then []
    else if HexRefAt(s, i) then s[i..CopyEnd(s, i)] + EncodeFrom(s, CopyEnd(s, i))
    else EscapeByte(s[i]) + EncodeFrom(s, i + 1)
  }

  /** The branches of `EncodeString` that escape a single byte. */
  method AppendEscaped(c: Byte, outString: Bytes) returns (r: Bytes)
    ensures r == outString + EscapeByte(c)
  {
    if c == '&' { r := outString + ENTITY[0].0; }
    else if c == '<' { r := outString + ENTITY[1].0; }
    else if c == '>' { r := outString + ENTITY[2].0; }
    else if c == '\"' { r := outString + ENTITY[3].0; }
    else if c == '\'' { r := outString + ENTITY[4].0; }
    else if c as int < 32 {
      r := outString + ['&', '#', 'x', UpperHex(c as int / 16), UpperHex(c as int % 16), ';'];
    } else { r := outString + [c]; }
  }

  /** The loop of `EncodeString` that passes a character reference through. */
  method CopyReference(str: Bytes, start: nat, outString: Bytes) returns (r: Bytes, i: nat)
    requires HexRefAt(str, start)
    ensures i == CopyEnd(str, start) && r == outString + str[start..i]
  {
    i, r := start, outString;
    while i < |str| - 1
      invariant start <= i < |str|
      invariant r == outString + str[start..i]
      invariant i == |str| - 1 || CopyEnd(str, i) == CopyEnd(str, start)
      invariant i == |str| - 1 ==> i == start || i == CopyEnd(str, start)
    {
      assert str[start..i + 1] == str[start..i] + [str[i]];
      r := r + [str[i]];
      i := i + 1;
      if str[i] == ';' { break; }
    }
  }

  method EncodeString(str: Bytes, outString: Bytes) returns (r: Bytes)
    ensures r == outString + EncodeFrom(str, 0)
  {
    r := outString;
    var i := 0;
    while i < |str|
      invariant 0 <= i <= |str|
      invariant r + EncodeFrom(str, i) == outString + EncodeFrom(str, 0)
    {
      ghost var before, start := r, i;
      if str[i] == '&' && i < |str| - 2 && str[i + 1] == '#' && str[i + 2] == 'x' {
        r, i := CopyReference(str, i, r);
        Associates(before, str[start..i], EncodeFrom(str, i));
      } else {
        r := AppendEscaped(str[i], r);
        Associates(before, EscapeByte(str[i]), EncodeFrom(str, i + 1));
        i := i + 1;
      }
    }
  }

  // ----- reading -----

  /** What reading one character gives: the bytes appended, and the pointer after it. */
  datatype Character = Character(value: Bytes, p: Ptr)

  /** `strchr` from `p`: the first position of `c`, or `|s|`. */
  function FindByte(s: CString, p: nat, c: Byte): (r: nat)
    requires p <= |s|
    ensures p <= r <= |s|
    ensures r < |s| ==> s[r] == c
    ensures c !in s[p..r]
    decreases |s| - p
  {
    if p == |s| || s[p] == c then p else FindByte(s, p + 1, c)
  }

  function DigitValue(c: Byte, base: nat): (r: Option<nat>)
    ensures r.Some? ==> r.value < 16 && (base == 10 ==> r.value < 10)
  {
    if IsDigit(c) then Some(c as int - '0' as int)
    else if base == 16 && 'a' <= c <= 'f' then Some(c as int - 'a' as int + 10)
    else if base == 16 && 'A' <= c <= 'F' then Some(c as int - 'A' as int + 10)
    else None
  }

  const TWO_32 := 0x1_0000_0000
  const TWO_64 := 0x1_0000_0000_0000_0000

  /** The digits of a numeric reference, read from right to left down to the byte that
      opens them. `mult` is a 32-bit and `ucs` a 64-bit unsigned integer; a product with
      `mult` wraps before it is added. */
  function ScanDigits(s: CString, open: nat, q: nat, base: nat, mult: nat, ucs: nat): (r: Option<nat>)
    requires open <= q < |s|
    decreases q
  {
    if s[q] == s[open] || q == open then Some(ucs)
    else
      match DigitValue(s[q], base)
      case None => None
      case Some(d) => ScanDigits(s, open, q - 1, base, mult * base % TWO_32, (ucs + mult * d % TWO_32) % TWO_64)
  }

  /** The bytes a numeric reference stands for. */
  function CodePointBytes(ucs: nat, enc: Encoding): (r: Bytes)
    ensures |r| <= 4
  {
    if enc.Utf8? then Encode(ucs) else [ByteOf(ucs % 256)]
  }

  /** A numeric reference whose digits start after `open`. */
  function NumericEntity(s: CString, open: nat, base: nat, enc: Encoding): (r: Character)
    requires open < |s|
    ensures r.p.Null? || (r.p.Pos? && open < r.p.i <= |s| && s[r.p.i - 1] == ';')
  {
    var semi := FindByte(s, open + 1, ';');
    if semi == |s| then Character([], Null)
    else
      match ScanDigits(s, open, semi - 1, base, 1, 0)
      case None => Character([], Null)
      case Some(ucs) => Character(CodePointBytes(ucs, enc), Pos(semi + 1))
  }

  /** The first of the five named entities that stands at `p`, from the `i`th on. */
  function NamedEntity(s: CString, p: nat, i: nat): (r: Character)
    requires p < |s| && i <= |ENTITY|
    ensures r.p.Pos? && p < r.p.i <= |s|
    decreases |ENTITY| - i
  {
    if i == |ENTITY| then Character([], Pos(p + 1))
    else if Has(s, p, ENTITY[i].0) then Character([ENTITY[i].1], Pos(p + |ENTITY[i].0|))
    else NamedEntity(s, p, i + 1)
  }

  /** `GetEntity` at an ampersand. An unrecognised one is dropped: the source leaves the
      length it reports at zero. */
  function EntityAt(s: CString, p: nat, enc: Encoding): (r: Character)
    requires p < |s| && s[p] == '&'
    ensures r.p.Null? || (r.p.Pos? && p < r.p.i <= |s|)
  {
    if Ch(s, p + 1) == '#' && p + 2 < |s| then
      if s[p + 2] == 'x' then NumericEntity(s, p + 2, 16, enc)
      else NumericEntity(s, p + 1, 10, enc)
    else NamedEntity(s, p, 0)
  }

  /** The loop of `GetEntity` over hexadecimal digits. */
  method ReadHex(s: CString, open: nat, last: nat) returns (r: Option<nat>)
    requires open <= last < |s| && s[open] == 'x'
    ensures r == ScanDigits(s, open, last, 16, 1, 0)
  {
    var ucs: nat, mult: nat, q := 0, 1, last;
    while s[q] != 'x'
      invariant open <= q < |s|
      invariant ScanDigits(s, open, q, 16, mult, ucs) == ScanDigits(s, open, last, 16, 1, 0)
      decreases q
    {
      var d: nat;
      if '0' <= s[q] <= '9' { d := s[q] as int - '0' as int; }
      else if 'a' <= s[q] <= 'f' { d := s[q] as int - 'a' as int + 10; }
      else if 'A' <= s[q] <= 'F' { d := s[q] as int - 'A' as int + 10; }
      else { return None; }
      ucs := (ucs + mult * d % TWO_32) % TWO_64;
      mult := mult * 16 % TWO_32;
      q := q - 1;
    }
    return Some(ucs);
  }

  /** The loop of `GetEntity` over decimal digits. */
  method ReadDecimal(s: CString, open: nat, last: nat) returns (r: Option<nat>)
    requires open <= last < |s| && s[open] == '#'
    ensures r == ScanDigits(s, open, last, 10, 1, 0)
  {
    var ucs: nat, mult: nat, q := 0, 1, last;
    while s[q] != '#'
      invariant open <= q < |s|
      invariant ScanDigits(s, open, q, 10, mult, ucs) == ScanDigits(s, open, last, 10, 1, 0)
      decreases q
    {
      if !('0' <= s[q] <= '9') { return None; }
      ucs := (ucs + mult * (s[q] as int - '0' as int) % TWO_32) % TWO_64;
      mult := mult * 10 % TWO_32;
      q := q - 1;
    }
    return Some(ucs);
  }

  method GetEntity(s: CString, p: nat, enc: Encoding) returns (value: Bytes, next: Ptr)
    requires p < |s| && s[p] == '&'
    ensures Character(value, next) == EntityAt(s, p, enc)
  {
    hide Has, Encode;
    if Ch(s, p + 1) == '#' && p + 2 < |s| {
      var ucs, q;
      if s[p + 2] == 'x' {
        if p + 3 == |s| { return [], Null; }
        q := FindByte(s, p + 3, ';');
        if q == |s| { return [], Null; }
        ucs := ReadHex(s, p + 2, q - 1);
      } else {
        q := FindByte(s, p + 2, ';');
        if q == |s| { return [], Null; }
        ucs := ReadDecimal(s, p + 1, q - 1);
      }
      if ucs.None? { return [], Null; }
      if enc.Utf8? { value := ConvertUTF32ToUTF8(ucs.value); } else { value := [ByteOf(ucs.value % 256)]; }
      return value, Pos(q + 1);
    }
    var i := 0;
    while i < |ENTITY|
      invariant i <= |ENTITY| && NamedEntity(s, p, i) == NamedEntity(s, p, 0)
    {
      if Has(s, p, ENTITY[i].0) { return [ENTITY[i].1], Pos(p + |ENTITY[i].0|); }
      i := i + 1;
    }
    return [], Pos(p + 1);
  }

  /** The bytes of a multi-byte character, padded with NULs where the string ends early. */
  function TakePadded(s: CString, p: nat, n: nat): Bytes
    requires p <= |s|
  {
    if p + n <= |s| then s[p..p + n] else s[p..] + seq(p + n - |s|, _ => '\0')
  }

  /** `GetChar` */
  function CharAt(s: CString, p: nat, enc: Encoding): (r: Character)
    requires p < |s|
    ensures !r.p.Pos? || p < r.p.i <= |s| + 1
  {
    var n := CharLength(s[p], enc);
    if n == 1 then
      if s[p] == '&' then EntityAt(s, p, enc) else Character([s[p]], Pos(p + 1))
    else Character(TakePadded(s, p, n), Forward(s, p, n))
  }

  method GetChar(s: CString, p: nat, enc: Encoding) returns (value: Bytes, next: Ptr)
    requires p < |s|
    ensures Character(value, next) == CharAt(s, p, enc)
  {
    var length := if enc.Utf8? then LeadLength(s[p]) else 1;
    if length == 1 {
      if s[p] == '&' {
        value, next := GetEntity(s, p, enc);
        return;
      }
      return [s[p]], Pos(p + 1);
    }
    var cArr := new Byte[4](_ => '\0');
    var i := 0;
    while p + i < |s| && i < length
      invariant 0 <= i <= length <= 4 && p + i <= |s|
      invariant forall k | 0 <= k < i :: cArr[k] == s[p + k]
      invariant forall k | i <= k < 4 :: cArr[k] == '\0'
    {
      cArr[i] := s[p + i];
      i := i + 1;
    }
    assert cArr[..length] == TakePadded(s, p, length);
    return cArr[..length], Forward(s, p, length);
  }
}
