/**
 What the right-to-left, wrapping accumulation of a numeric character reference computes,
 compared with the number its digits spell from left to right (section 4.1 of XML 1.0).
 */
module Numeric {
  import opened CStrings
  import opened Options
  import opened Entities

  predicate AllDigits(t: Bytes, base: nat) {
    forall k | 0 <= k < |t| :: DigitValue(t[k], base).Some?
  }

  /** The number that `digits` spells, most significant digit first. */
  function Value(digits: Bytes, base: nat): nat
    requires AllDigits(digits, base)
  {
    if digits == [] then 0
    else
      var n := |digits| - 1;
      Value(digits[..n], base) * base + DigitValue(digits[n], base).value
  }

  lemma ModOfProduct(a: nat, b: nat)
    ensures a % TWO_32 * b % TWO_32 == a * b % TWO_32
  {
    var k := a / TWO_32;
    assert a * b == (k * TWO_32 + a % TWO_32) * b == (k * b) * TWO_32 + a % TWO_32 * b;
    assert ((k * b) * TWO_32 + a % TWO_32 * b) % TWO_32 == a % TWO_32 * b % TWO_32;
  }

  /** One step of the accumulation keeps `ucs + mult * value` the same modulo 2^32. */
  lemma StepKeepsResidue(ucs: nat, mult: nat, base: nat, v: nat, d: nat)
    ensures ((ucs + mult * d % TWO_32) % TWO_64 + mult * base % TWO_32 * v) % TWO_32
         == (ucs + mult * (v * base + d)) % TWO_32
  {
    ModOfProduct(mult * base, v);
    SumOfResidues(ucs, mult * d, mult * base % TWO_32 * v, mult * base * v);
    assert mult * (v * base + d) == mult * base * v + mult * d;
  }

  lemma SumOfResidues(u: nat, m: nat, x: nat, y: nat)
    requires x % TWO_32 == y % TWO_32
    ensures ((u + m % TWO_32) % TWO_64 + x) % TWO_32 == (u + m + y) % TWO_32
  {
  }

  /** The digits `t` stand just after the byte at `open`. */
  predicate DigitsAfter(s: CString, open: nat, t: Bytes, base: nat) {
    open < |s| && Has(s, open + 1, t) && AllDigits(t, base) && DigitValue(s[open], base).None?
  }

  lemma LastDigit(s: CString, open: nat, t: Bytes, base: nat)
    requires DigitsAfter(s, open, t, base) && t != []
    ensures DigitsAfter(s, open, t[..|t| - 1], base)
    ensures open + |t| < |s| && s[open + |t|] == t[|t| - 1] != s[open]
  {
    var n := |t| - 1;
    HasAt(s, open + 1, t, n);
    assert t == t[..n] + [t[n]];
    HasConcat(s, open + 1, t[..n], [t[n]]);
    assert DigitValue(t[n], base).Some?;
  }

  lemma {:induction false} ScanResidue(s: CString, open: nat, t: Bytes, base: nat, mult: nat, ucs: nat)
    requires DigitsAfter(s, open, t, base)
    ensures ScanDigits(s, open, open + |t|, base, mult, ucs).Some?
    ensures ScanDigits(s, open, open + |t|, base, mult, ucs).value % TWO_32
         == (ucs + mult * Value(t, base)) % TWO_32
    decreases |t|
  {
    if t != [] {
      var n := |t| - 1;
      LastDigit(s, open, t, base);
      var d := DigitValue(t[n], base).value;
      ScanResidue(s, open, t[..n], base, mult * base % TWO_32, (ucs + mult * d % TWO_32) % TWO_64);
      StepKeepsResidue(ucs, mult, base, Value(t[..n], base), d);
    }
  }

  predicate HexState(mult: nat, ucs: nat) {
    || (mult == 0 && ucs < TWO_32)
    || (mult in {1, 0x10, 0x100, 0x1000, 0x1_0000, 0x10_0000, 0x100_0000, 0x1000_0000} && ucs < mult)
  }

  lemma HexStep(mult: nat, ucs: nat, d: nat)
    requires HexState(mult, ucs) && d < 16
    ensures HexState(mult * 16 % TWO_32, (ucs + mult * d % TWO_32) % TWO_64)
  {
  }

  lemma {:induction false} HexStaysSmall(s: CString, open: nat, q: nat, mult: nat, ucs: nat)
    requires open <= q < |s| && HexState(mult, ucs)
    ensures ScanDigits(s, open, q, 16, mult, ucs).Some? ==> ScanDigits(s, open, q, 16, mult, ucs).value < TWO_32
    decreases q
  {
    if s[q] != s[open] && q != open && DigitValue(s[q], 16).Some? {
      var d := DigitValue(s[q], 16).value;
      HexStep(mult, ucs, d);
      HexStaysSmall(s, open, q - 1, mult * 16 % TWO_32, (ucs + mult * d % TWO_32) % TWO_64);
    }
  }

  function PowerOfTen(k: nat): nat {
    if k == 0 then 1 else PowerOfTen(k - 1) * 10
  }

  lemma {:induction false} DecimalExact(s: CString, open: nat, t: Bytes, k: nat, ucs: nat)
    requires DigitsAfter(s, open, t, 10) && k + |t| <= 9 && ucs < PowerOfTen(k)
    ensures ScanDigits(s, open, open + |t|, 10, PowerOfTen(k), ucs) == Some(ucs + PowerOfTen(k) * Value(t, 10))
    decreases |t|
  {
    hide ScanDigits, Value, DigitValue;
    if t == [] {
      NoDigitsLeft(s, open, 10, PowerOfTen(k), ucs);
      assert Value(t, 10) == 0 by { ValueOfNone(10); }
    } else {
      var n := |t| - 1;
      LastDigit(s, open, t, 10);
      OneDigitRead(s, open, t, 10, PowerOfTen(k), ucs);
      var m, d, v := PowerOfTen(k), DigitValue(t[n], 10).value, Value(t[..n], 10);
      PowerOfTenBound(k, 8);
      DecimalStep(m, ucs, d, v, Value(t, 10));
      DecimalExact(s, open, t[..n], k + 1, ucs + m * d);
    }
  }

  lemma NoDigitsLeft(s: CString, open: nat, base: nat, mult: nat, ucs: nat)
    requires open < |s|
    ensures ScanDigits(s, open, open, base, mult, ucs) == Some(ucs)
  {
  }

  lemma ValueOfNone(base: nat)
    ensures Value([], base) == 0
  {
  }

  /** The last digit is read first. */
  lemma OneDigitRead(s: CString, open: nat, t: Bytes, base: nat, mult: nat, ucs: nat)
    requires DigitsAfter(s, open, t, base) && t != []
    ensures AllDigits(t, base) && open + |t| < |s| && DigitValue(t[|t| - 1], base).Some?
    ensures AllDigits(t[..|t| - 1], base)
    ensures var n, d := |t| - 1, DigitValue(t[|t| - 1], base).value;
      && Value(t, base) == Value(t[..n], base) * base + d
      && ScanDigits(s, open, open + |t|, base, mult, ucs)
         == ScanDigits(s, open, open + n, base, mult * base % TWO_32, (ucs + mult * d % TWO_32) % TWO_64)
  {
    LastDigit(s, open, t, base);
    assert DigitValue(t[|t| - 1], base).Some?;
  }

  lemma DecimalStep(m: nat, ucs: nat, d: nat, v: nat, value: nat)
    requires 1 <= m <= 100_000_000 && ucs < m && d < 10 && value == v * 10 + d
    ensures (ucs + m * d % TWO_32) % TWO_64 == ucs + m * d < m * 10
    ensures m * 10 % TWO_32 == m * 10
    ensures ucs + m * d + m * 10 * v == ucs + m * value
  {
    var x := m * d;
    NineTimes(m, d);
    SmallEnough(ucs, x);
    assert m * value == m * 10 * v + x by { Distribute(m, v, d); }
  }

  lemma NineTimes(m: nat, d: nat)
    requires d < 10
    ensures m * d <= m * 9
  {
  }

  lemma SmallEnough(ucs: nat, x: nat)
    requires ucs < 100_000_000 && x <= 900_000_000
    ensures (ucs + x % TWO_32) % TWO_64 == ucs + x
  {
  }

  lemma Distribute(m: nat, v: nat, d: nat)
    ensures m * (v * 10 + d) == m * 10 * v + m * d
  {
  }

  lemma {:induction false} PowerOfTenBound(k: nat, n: nat)
    requires k <= n
    ensures 1 <= PowerOfTen(k) <= PowerOfTen(n)
    ensures PowerOfTen(8) == 100_000_000
  {
    assert PowerOfTen(4) == 10_000;
    if k < n { PowerOfTenBound(k, n - 1); }
    else if k > 0 { PowerOfTenBound(k - 1, n - 1); }
  }

  lemma {:induction false} FindByteAt(s: CString, p: nat, t: Bytes, c: Byte)
    requires Has(s, p, t) && c !in t && Ch(s, p + |t|) == c && p + |t| < |s|
    ensures FindByte(s, p, c) == p + |t|
    decreases |t|
  {
    if t != [] {
      HasAt(s, p, t, 0);
      assert Has(s, p + 1, t[1..]);
      FindByteAt(s, p + 1, t[1..], c);
    }
  }

  function PowerOfSixteen(k: nat): nat {
    if k == 0 then 1 else PowerOfSixteen(k - 1) * 16
  }

  lemma {:induction false} HexBound(t: Bytes)
    requires AllDigits(t, 16)
    ensures Value(t, 16) < PowerOfSixteen(|t|)
  {
    if t != [] { HexBound(t[..|t| - 1]); }
  }

  lemma {:induction false} PowerOfSixteenGrows(k: nat, n: nat)
    requires k <= n
    ensures PowerOfSixteen(k) <= PowerOfSixteen(n)
  {
    if k < n { PowerOfSixteenGrows(k, n - 1); }
  }

  lemma HexFits(t: Bytes)
    requires AllDigits(t, 16) && |t| <= 8
    ensures Value(t, 16) < TWO_32
  {
    HexBound(t);
    PowerOfSixteenGrows(|t|, 8);
    assert PowerOfSixteen(4) == 65_536;
  }

  /** A hexadecimal reference of digits only gives the number they spell, modulo 2^32 and so
      exactly up to eight digits, and is consumed through its semicolon. */
  lemma HexReference(s: CString, p: nat, t: Bytes, enc: Encoding) returns (ucs: nat)
    requires Has(s, p, "&#x" + t + ";") && AllDigits(t, 16)
    ensures EntityAt(s, p, enc) == Character(CodePointBytes(ucs, enc), Pos(p + |t| + 4))
    ensures ucs == Value(t, 16) % TWO_32
    ensures |t| <= 8 ==> ucs == Value(t, 16)
  {
    hide ScanDigits, Value, FindByte, EntityAt, CodePointBytes;
    ReferenceAt(s, p, "&#x", t, 16);
    if |t| <= 8 { HexFits(t); }
    ucs := HexDigits(s, p + 2, t);
    ReferenceReads(s, p, p + 2, t, 16, enc, ucs);
  }

  lemma HexDigits(s: CString, open: nat, t: Bytes) returns (ucs: nat)
    requires DigitsAfter(s, open, t, 16)
    ensures ScanDigits(s, open, open + |t|, 16, 1, 0) == Some(ucs)
    ensures ucs == Value(t, 16) % TWO_32
  {
    ScanResidue(s, open, t, 16, 1, 0);
    ucs := ScanDigits(s, open, open + |t|, 16, 1, 0).value;
    HexStaysSmall(s, open, open + |t|, 1, 0);
    var v := Value(t, 16);
    assert 0 + 1 * v == v;
  }

  /** A decimal reference of digits only gives a number congruent to the one they spell
      modulo 2^32, and exactly that number when there are at most nine digits. */
  lemma DecimalReference(s: CString, p: nat, t: Bytes, enc: Encoding) returns (ucs: nat)
    requires Has(s, p, "&#" + t + ";") && AllDigits(t, 10) && t != []
    ensures EntityAt(s, p, enc) == Character(CodePointBytes(ucs, enc), Pos(p + |t| + 3))
    ensures ucs % TWO_32 == Value(t, 10) % TWO_32
    ensures |t| <= 9 ==> ucs == Value(t, 10)
  {
    hide ScanDigits, Value, FindByte, EntityAt, CodePointBytes;
    ReferenceAt(s, p, "&#", t, 10);
    ScanResidue(s, p + 1, t, 10, 1, 0);
    ucs := ScanDigits(s, p + 1, p + 1 + |t|, 10, 1, 0).value;
    if |t| <= 9 { DecimalExact(s, p + 1, t, 0, 0); }
    HasAt(s, p + 2, t, 0);
    ReferenceReads(s, p, p + 1, t, 10, enc, ucs);
  }

  lemma ReferenceAt(s: CString, p: nat, prefix: Bytes, t: Bytes, base: nat)
    requires Has(s, p, prefix + t + ";") && AllDigits(t, base)
    requires (prefix == "&#x" && base == 16) || (prefix == "&#" && base == 10)
    ensures Has(s, p, prefix) && p + |prefix| + |t| < |s|
    ensures DigitsAfter(s, p + |prefix| - 1, t, base)
    ensures FindByte(s, p + |prefix|, ';') == p + |prefix| + |t|
    ensures s[p] == '&' && s[p + 1] == '#' && (base == 16 ==> s[p + 2] == 'x')
  {
    HasConcat(s, p, prefix + t, ";");
    HasConcat(s, p, prefix, t);
    HasIff(s, p, prefix);
    assert prefix[0] == '&' && prefix[1] == '#' && (base == 16 ==> prefix[2] == 'x');
    HasAt(s, p + |prefix| + |t|, ";", 0);
    FindByteAt(s, p + |prefix|, t, ';');
  }

  lemma ReferenceReads(s: CString, p: nat, open: nat, t: Bytes, base: nat, enc: Encoding, ucs: nat)
    requires p + 2 < |s| && s[p] == '&' && s[p + 1] == '#'
    requires if s[p + 2] == 'x' then base == 16 && open == p + 2 else base == 10 && open == p + 1
    requires open + |t| + 1 < |s| && FindByte(s, open + 1, ';') == open + |t| + 1
    requires ScanDigits(s, open, open + |t|, base, 1, 0) == Some(ucs)
    ensures EntityAt(s, p, enc) == Character(CodePointBytes(ucs, enc), Pos(open + |t| + 2))
  {
    hide ScanDigits, CodePointBytes, NamedEntity, FindByte;
    var semi := FindByte(s, open + 1, ';');
    assert semi - 1 == open + |t|;
  }
}
