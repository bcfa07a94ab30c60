/**
 The scanning primitives of `TiXmlBase`: white space, names and literal comparison.
 Each loop of the source is a method here, proved against a function.
 */
module Scan {
  import opened CStrings

  /** The three byte sequences that UTF-8 mode skips as if they were white space. */
  predicate IsZeroWidth(s: Bytes, p: nat) {
    p + 2 < |s| && s[p] as int == 0xEF
    && (|| (s[p + 1] as int == 0xBB && s[p + 2] as int == 0xBF)
        || (s[p + 1] as int == 0xBF && s[p + 2] as int == 0xBE)
        || (s[p + 1] as int == 0xBF && s[p + 2] as int == 0xBF))
  }

  /** The first position at or after `p` that white-space skipping does not pass. */
  function SkipFrom(s: CString, p: nat, enc: Encoding): (r: nat)
    requires p <= |s|
    ensures p <= r <= |s|
    ensures r < |s| ==> !IsSpace(s[r]) && !(enc.Utf8? && IsZeroWidth(s, r))
    decreases |s| - p
  {
    if p == |s| then p
    else if enc.Utf8? && IsZeroWidth(s, p) then SkipFrom(s, p + 3, enc)
    else if IsSpace(s[p]) then SkipFrom(s, p + 1, enc)
    else p
  }

  /** `SkipWhiteSpace`: null at the end of the string, even though white space that runs
      up to the end gives the end itself. */
  function SkipWs(s: CString, p: nat, enc: Encoding): (r: Ptr)
    requires p <= |s|
    ensures r.Null? <==> p == |s|
    ensures r.Null? || (r.Pos? && p <= r.i <= |s|)
  {
    if p == |s| then Null else Pos(SkipFrom(s, p, enc))
  }

  method SkipWhiteSpace(s: CString, p: nat, enc: Encoding) returns (r: Ptr)
    requires p <= |s|
    ensures r == SkipWs(s, p, enc)
  {
    if Ch(s, p) == '\0' { return Null; }
    var q := p;
    if enc.Utf8? {
      while q < |s|
        invariant p <= q <= |s| && SkipFrom(s, q, enc) == SkipFrom(s, p, enc)
      {
        if IsZeroWidth(s, q) { q := q + 3; continue; }
        if IsSpace(s[q]) { q := q + 1; } else { break; }
      }
    } else {
      while q < |s| && IsSpace(s[q])
        invariant p <= q <= |s| && SkipFrom(s, q, enc) == SkipFrom(s, p, enc)
      {
        q := q + 1;
      }
    }
    return Pos(q);
  }

  /** White space that stands in `s` is skipped, whatever the encoding. */
  lemma {:induction false} SkipBlank(s: CString, p: nat, t: Bytes, enc: Encoding)
    requires Has(s, p, t) && IsBlank(t)
    ensures SkipFrom(s, p, enc) == SkipFrom(s, p + |t|, enc)
    decreases |t|
  {
    if t != [] {
      HasAt(s, p, t, 0);
      assert IsSpace(t[0]);
      HasConcat(s, p, [t[0]], t[1..]);
      assert t == [t[0]] + t[1..];
      SkipBlank(s, p + 1, t[1..], enc);
    }
  }

  // ----- names -----

  predicate StartsName(c: Byte) {
    (if c as int < 127 then IsLetter(c) else true) || c == '_'
  }

  predicate ContinuesName(c: Byte) {
    (if c as int < 127 then IsLetter(c) || IsDigit(c) else true)
    || c == '_' || c == '-' || c == '.' || c == ':'
  }

  /** The position just past the run of name bytes at `p`. */
  function NameEnd(s: CString, p: nat): (r: nat)
    requires p <= |s|
    ensures p <= r <= |s|
    ensures r < |s| ==> !ContinuesName(s[r])
    ensures p < |s| && ContinuesName(s[p]) ==> p < r
    decreases |s| - p
  {
    if p < |s| && ContinuesName(s[p]) then NameEnd(s, p + 1) else p
  }

  datatype Name = Name(name: Bytes, p: Ptr)

  function NameAt(s: CString, p: nat): (r: Name)
    requires p <= |s|
    ensures r.p.Null? || (r.p.Pos? && p < r.p.i <= |s| && r.name == s[p..r.p.i])
  {
    if p < |s| && StartsName(s[p]) then Name(s[p..NameEnd(s, p)], Pos(NameEnd(s, p)))
    else Name([], Null)
  }

  method ReadName(s: CString, p: nat) returns (r: Name)
    requires p <= |s|
    ensures r == NameAt(s, p)
  {
    if p < |s| && StartsName(s[p]) {
      var q := p;
      while q < |s| && ContinuesName(s[q])
        invariant p <= q <= |s| && NameEnd(s, q) == NameEnd(s, p)
      {
        q := q + 1;
      }
      return Name(s[p..q], Pos(q));
    }
    return Name([], Null);
  }

  /** A string that `ReadName` takes whole. */
  predicate IsName(t: Bytes) {
    t != [] && StartsName(t[0]) && forall c <- t :: ContinuesName(c)
  }

  lemma {:induction false} NameEndAt(s: CString, p: nat, t: Bytes)
    requires Has(s, p, t) && (forall c <- t :: ContinuesName(c))
    requires !ContinuesName(Ch(s, p + |t|))
    ensures NameEnd(s, p) == p + |t|
    decreases |t|
  {
    if t != [] {
      HasAt(s, p, t, 0);
      assert Has(s, p + 1, t[1..]);
      NameEndAt(s, p + 1, t[1..]);
    }
  }

  lemma NameAtReads(s: CString, p: nat, t: Bytes)
    requires Has(s, p, t) && IsName(t)
    requires !ContinuesName(Ch(s, p + |t|))
    ensures NameAt(s, p) == Name(t, Pos(p + |t|))
  {
    HasAt(s, p, t, 0);
    NameEndAt(s, p, t);
  }

  // ----- literals -----

  function ToLower(c: Byte): Byte {
    if 'A' <= c <= 'Z' then (c as int + 32) as char else c
  }

  function Lower(t: Bytes): (r: Bytes)
    ensures |r| == |t| && forall k | 0 <= k < |t| :: r[k] == ToLower(t[k])
  {
    if t == [] then [] else [ToLower(t[0])] + Lower(t[1..])
  }

  /** The literal `tag` stands at `p`; `StringEqual` never says so at the end of the string. */
  predicate Matches(s: CString, p: nat, tag: Bytes, ignoreCase: bool) {
    p < |s| && (if ignoreCase then Has(Lower(s), p, Lower(tag)) else Has(s, p, tag))
  }

  method StringEqual(s: CString, p: nat, tag: CString, ignoreCase: bool) returns (r: bool)
    requires p <= |s|
    ensures r == Matches(s, p, tag, ignoreCase)
  {
    if p == |s| { return false; }
    var q, t := p, 0;
    if ignoreCase {
      while q < |s| && t < |tag| && ToLower(s[q]) == ToLower(tag[t])
        invariant t <= |tag| && q == p + t <= |s|
        invariant forall k {:trigger tag[k]} | 0 <= k < t :: ToLower(s[p + k]) == ToLower(tag[k])
      {
        q, t := q + 1, t + 1;
      }
      HasIff(Lower(s), p, Lower(tag));
    } else {
      while q < |s| && t < |tag| && s[q] == tag[t]
        invariant t <= |tag| && q == p + t <= |s|
        invariant forall k {:trigger tag[k]} | 0 <= k < t :: s[p + k] == tag[k]
      {
        q, t := q + 1, t + 1;
      }
      HasIff(s, p, tag);
    }
    return t == |tag|;
  }
}
