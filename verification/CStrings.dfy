/**
 Bytes, NUL-terminated strings and pointers into them.

 A `CString` is the part of a C string before its terminating NUL, so the byte at
 position `|s|` is the NUL itself and every position up to and including `|s|` may be read.
 C also allows the position `|s| + 1`, one past the array, to be formed but not read.
 */
module CStrings {

  type Byte = c: char | c as int < 256 witness ' '
  type Bytes = seq<Byte>
  type CString = s: Bytes | '\0' !in s witness []

  /** The null pointer, a position in a given string, or a pointer the source has
      already moved where C gives it no meaning. */
  datatype Ptr = Null | Pos(i: nat) | Wild

  /** The character encodings of `TiXmlEncoding`. */
  datatype Encoding = Undeclared | Utf8 | Legacy

  /** `c_str`: the bytes before the first NUL. */
  function CStr(t: Bytes): (r: CString)
    ensures '\0' !in t ==> r == t
  {
    if t == [] || t[0] == '\0' then [] else [t[0]] + CStr(t[1..])
  }

  /** `*p` */
  function Ch(s: CString, p: nat): Byte {
    if p < |s| then s[p] else '\0'
  }

  /** `p + n` */
  function Forward(s: CString, p: nat, n: nat): Ptr {
    if p + n <= |s| + 1 then Pos(p + n) else Wild
  }

  /** `t` stands in `s` at position `p`. */
  predicate Has(s: Bytes, p: nat, t: Bytes) {
    p + |t| <= |s| && s[p..p + |t|] == t
  }

  lemma HasConcat(s: Bytes, p: nat, a: Bytes, b: Bytes)
    ensures Has(s, p, a + b) <==> Has(s, p, a) && Has(s, p + |a|, b)
  {
    if Has(s, p, a + b) {
      assert s[p..p + |a|] == (a + b)[..|a|] == a;
      assert s[p + |a|..p + |a| + |b|] == (a + b)[|a|..] == b;
    }
    if Has(s, p, a) && Has(s, p + |a|, b) {
      assert s[p..p + |a + b|] == s[p..p + |a|] + s[p + |a|..p + |a| + |b|];
    }
  }

  lemma HasAt(s: Bytes, p: nat, t: Bytes, k: nat)
    requires Has(s, p, t) && k < |t|
    ensures p + k < |s| && s[p + k] == t[k]
  {
    assert s[p + k] == s[p..p + |t|][k];
  }

  lemma HasSlice(s: Bytes, p: nat, t: Bytes, i: nat, j: nat)
    requires Has(s, p, t) && i <= j <= |t|
    ensures Has(s, p + i, t[i..j])
  {
    HasIff(s, p, t);
    forall k {:trigger t[i..j][k]} | 0 <= k < j - i ensures s[p + i + k] == t[i..j][k] {
      assert s[p + (i + k)] == t[i + k];
    }
    HasIff(s, p + i, t[i..j]);
  }

  lemma HasMeans(s: Bytes, p: nat, t: Bytes, k: nat)
    ensures Has(s, p, t) && k < |t| ==> p + k < |s| && s[p + k] == t[k]
  {
    if Has(s, p, t) && k < |t| { HasAt(s, p, t, k); }
  }

  lemma HasIff(s: Bytes, p: nat, t: Bytes)
    ensures Has(s, p, t) <==> p + |t| <= |s| && forall k {:trigger t[k]} | 0 <= k < |t| :: s[p + k] == t[k]
  {
    if Has(s, p, t) {
      forall k | 0 <= k < |t| ensures s[p + k] == t[k] { HasAt(s, p, t, k); }
    }
    if p + |t| <= |s| && forall k {:trigger t[k]} | 0 <= k < |t| :: s[p + k] == t[k] {
      assert s[p..p + |t|] == t;
    }
  }

  lemma Associates(a: Bytes, b: Bytes, c: Bytes)
    ensures a + b + c == a + (b + c)
  {
  }

  /** `isspace` in the C locale. */
  predicate IsSpace(c: Byte) {
    '\t' <= c <= '\r' || c == ' '
  }

  predicate IsBlank(t: Bytes) {
    forall k | 0 <= k < |t| :: IsSpace(t[k])
  }

  predicate IsLetter(c: Byte) {
    'a' <= c <= 'z' || 'A' <= c <= 'Z'
  }

  predicate IsDigit(c: Byte) {
    '0' <= c <= '9'
  }
}
