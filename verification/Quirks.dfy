/**
 Two ways in which malformed input is read without an error: an element with a repeated
 attribute ends early, and an ampersand that begins no entity is dropped.
 */
module Quirks {
  import opened CStrings
  import opened Utf8
  import opened Scan
  import opened Entities
  import opened Text
  import opened Escapes
  import opened Condensing
  import opened Trees
  import opened Parser
  import opened Printing
  import opened RoundTrip

  // ----- repeated attributes -----

  /** The attributes that can be read one after the other from `p`, up to the end of the tag or
      to the first that is not one. */
  function AttributeRun(s: CString, p: nat, cfg: Config): seq<Attribute>
    requires p <= |s|
    decreases |s| - p
  {
    var q := SkipFrom(s, p, cfg.enc);
    if q == |s| || s[q] == '/' || s[q] == '>' then []
    else
      var a := ParseAttribute(s, q, cfg, NoError);
      if a.p.Pos? && a.p.i < |s| then [a.attribute] + AttributeRun(s, a.p.i, cfg) else []
  }

  /** An attribute that is read leaves the error as it was. */
  lemma ReadWithoutError(s: CString, p: nat, cfg: Config, err: Error)
    requires p <= |s|
    ensures var a := ParseAttribute(s, p, cfg, err); a.p.Null? || a.err == err
  {
    hide TextAt, SkipFrom, NameAt, UnquotedEnd;
  }

  predicate Quiet(r: NodeResult) {
    r.p.Null? && r.err.NoError?
  }

  lemma ContentIsNotQuiet(s: CString, p: nat, name: Bytes, attributes: seq<Attribute>, cfg: Config)
    requires p <= |s|
    ensures !Quiet(ParseContent(s, p, name, attributes, cfg, NoError))
  {
    hide ReadValue, Has;
  }

  /** The attribute loop gives up without an error exactly when a name comes twice. */
  lemma {:induction false} LoopIsQuietIff(s: CString, p: nat, name: Bytes, attributes: seq<Attribute>, cfg: Config)
    requires p <= |s| && DistinctNames(attributes)
    ensures Quiet(AttributeLoop(s, p, name, attributes, cfg, NoError))
       <==> !DistinctNames(attributes + AttributeRun(s, p, cfg))
    decreases |s| - p
  {
    hide ParseAttribute, SkipFrom, ParseContent;
    assert attributes + [] == attributes;
    if p < |s| {
      var q := SkipFrom(s, p, cfg.enc);
      if q < |s| {
        ContentIsNotQuiet(s, q + 1, name, attributes, cfg);
        ReadWithoutError(s, q, cfg, NoError);
        var a := ParseAttribute(s, q, cfg, NoError);
        if s[q] != '/' && s[q] != '>' && a.p.Pos? && a.p.i < |s| {
          var run, k := AttributeRun(s, a.p.i, cfg), IndexOf(attributes, a.attribute.name);
          assert attributes + ([a.attribute] + run) == attributes + [a.attribute] + run;
          if k < |attributes| {
            var all := attributes + ([a.attribute] + run);
            assert all[k].name == all[|attributes|].name;
          } else {
            LoopIsQuietIff(s, a.p.i, name, attributes + [a.attribute], cfg);
          }
        }
      }
    }
  }

  /** An element ends with a null pointer and no error exactly when its name is read and one of
      its attributes comes twice. */
  lemma ElementIsQuietIff(s: CString, p: nat, cfg: Config)
    requires p < |s| && s[p] == '<'
    ensures var q := SkipWs(s, p + 1, cfg.enc);
      Quiet(ParseElement(s, p, cfg, NoError)) <==>
        && q.Pos? && NameAt(s, q.i).p.Pos? && NameAt(s, q.i).p.i < |s|
        && !DistinctNames(AttributeRun(s, NameAt(s, q.i).p.i, cfg))
  {
    hide AttributeLoop, AttributeRun, NameAt, SkipFrom;
    var q := SkipWs(s, p + 1, cfg.enc);
    if q.Pos? {
      var n := NameAt(s, q.i);
      if n.p.Pos? && n.p.i < |s| {
        LoopIsQuietIff(s, n.p.i, n.name, [], cfg);
        assert [] + AttributeRun(s, n.p.i, cfg) == AttributeRun(s, n.p.i, cfg);
      }
    }
  }

  /** Whatever follows a repeated attribute is not read: the element keeps the attributes so far,
      the repeated one with its last value up to a NUL, and no content. */
  lemma RepeatedAttributeEnds(s: CString, p: nat, name: Bytes, attributes: seq<Attribute>, b: Attribute, rest: Bytes,
                              cfg: Config, err: Error)
    requires NameOk(name, cfg.enc) && AttributesOk(attributes, cfg.enc) && NameOk(b.name, cfg.enc)
    requires ValueOk(b.value, cfg.enc)
    requires IndexOf(attributes, b.name) < |attributes| && rest != []
    requires Has(s, p, "<" + (name + (PrintAttributes(attributes, 0) + (" " + (PrintAttribute(b) + rest)))))
    ensures p < |s| && s[p] == '<'
    ensures ParseNode(s, p, cfg, err)
         == NodeResult(Element(name, Trees.SetAttribute(attributes, b.name, CStr(b.value)), []), Null, err)
  {
    hide Has, PrintAttribute, PrintAttributes, ParseAttribute, NameOk, ValueOk, AttributesOk, SkipFrom, ParseNode, CStr;
    var tail := " " + (PrintAttribute(b) + rest);
    var q := p + 1 + |name| + |PrintAttributes(attributes, 0)|;
    ElementStart(s, p, name, attributes, tail, cfg, err);
    HasConcat(s, q, " ", PrintAttribute(b) + rest);
    HasConcat(s, q + 1, PrintAttribute(b), rest);
    HasAt(s, q, " ", 0);
    SkipSpace(s, q, cfg.enc);
    AttributeReads(s, q + 1, b, cfg, err);
    HasAt(s, q + 1 + |PrintAttribute(b)|, rest, 0);
  }

  /** So a document that begins with such an element is loaded without an error and without
      anything after the repeated attribute. */
  lemma RepeatedAttributeLosesRest(s: CString, name: Bytes, attributes: seq<Attribute>, b: Attribute, rest: Bytes,
                                   cfg: Config)
    requires NameOk(name, cfg.enc) && AttributesOk(attributes, cfg.enc) && NameOk(b.name, cfg.enc)
    requires ValueOk(b.value, cfg.enc)
    requires IndexOf(attributes, b.name) < |attributes| && rest != []
    requires s == "<" + (name + (PrintAttributes(attributes, 0) + (" " + (PrintAttribute(b) + rest))))
    ensures ParseDocument(s, cfg)
         == DocumentResult([Element(name, Trees.SetAttribute(attributes, b.name, CStr(b.value)), [])], Null, NoError)
  {
    hide PrintAttribute, PrintAttributes, NameOk, ValueOk, AttributesOk, SkipFrom, ParseNode, CStr,
         Trees.SetAttribute, IndexOf;
    assert Has(s, 0, s);
    RepeatedAttributeEnds(s, 0, name, attributes, b, rest, cfg, NoError);
    SkipNone(s, 0, cfg.enc);
    HasMeans(s, 0, ByteOrderMark(), 0);
  }

  const REPEATED: CString := "<a x=\"1\" x=\"2\"><b/></a>"
  const CHILDLESS := Element("a", [Attribute("x", "2")], [])

  /** The child of this document is lost in every configuration, and no error says so. */
  lemma ChildIsLost(cfg: Config)
    ensures ParseDocument(REPEATED, cfg) == DocumentResult([CHILDLESS], Null, NoError)
  {
    hide ParseOnto, PrintAttribute, PrintAttributes, NameOk, ValueOk, AttributesOk;
    var x1, x2 := Attribute("x", "1"), Attribute("x", "2");
    SimplePrint("x", "1", cfg.enc);
    SimplePrint("x", "2", cfg.enc);
    assert PrintAttributes([x1], 0) == " x=\"1\"" by { OnePrinted(x1); }
    assert "<" + ("a" + (" x=\"1\"" + (" " + ("x=\"2\"" + "><b/></a>")))) == REPEATED;
    assert IndexOf([x1], "x") == 0;
    assert Trees.SetAttribute([x1], "x", CStr("2")) == [x2];
    SimpleName("a", cfg.enc);
    SimpleName("x", cfg.enc);
    assert AttributesOk([x1], cfg.enc) by { OneIsOk(x1, cfg.enc); }
    RepeatedAttributeLosesRest(REPEATED, "a", [x1], x2, "><b/></a>", cfg);
  }

  lemma OnePrinted(a: Attribute)
    ensures PrintAttributes([a], 0) == " " + PrintAttribute(a)
  {
    hide PrintAttribute;
    assert PrintAttributes([a], 1) == [];
  }

  lemma OneIsOk(a: Attribute, enc: Encoding)
    requires NameOk(a.name, enc) && ValueOk(a.value, enc)
    ensures AttributesOk([a], enc)
  {
    hide NameOk, ValueOk;
  }

  lemma SimpleName(t: Bytes, enc: Encoding)
    requires |t| == 1 && 'a' <= t[0] <= 'z'
    ensures NameOk(t, enc)
  {
  }

  lemma SimplePrint(name: Bytes, value: Bytes, enc: Encoding)
    requires |name| == 1 && 'a' <= name[0] <= 'z' && |value| == 1 && '0' <= value[0] <= '9'
    ensures PrintAttribute(Attribute(name, value)) == name + "=\"" + value + "\"" && ValueOk(value, enc)
  {
    PlainByte(name, enc);
    PlainByte(value, enc);
  }

  lemma PlainByte(t: Bytes, enc: Encoding)
    requires |t| == 1 && ('a' <= t[0] <= 'z' || '0' <= t[0] <= '9')
    ensures EncodeFrom(t, 0) == t && !HasHexRef(t) && Complete(t, enc)
  {
    assert EncodeFrom(t, 1) == [];
  }

  // ----- ampersands -----

  /** The ampersand at `p` begins neither a numeric reference nor one of the five names. */
  predicate IsBare(s: CString, p: nat)
    requires p < |s|
  {
    && s[p] == '&' && !(Ch(s, p + 1) == '#' && p + 2 < |s|)
    && forall k | 0 <= k < |ENTITY| :: !Has(s, p, ENTITY[k].0)
  }

  lemma {:induction false} NamedIsBareIff(s: CString, p: nat, i: nat)
    requires p < |s| && i <= |ENTITY|
    ensures NamedEntity(s, p, i).value == [] <==> forall k | i <= k < |ENTITY| :: !Has(s, p, ENTITY[k].0)
    ensures NamedEntity(s, p, i).value == [] ==> NamedEntity(s, p, i).p == Pos(p + 1)
    decreases |ENTITY| - i
  {
    hide Has;
    if i < |ENTITY| && !Has(s, p, ENTITY[i].0) { NamedIsBareIff(s, p, i + 1); }
  }

  /** Exactly the bare ampersands are passed over alone and stand for nothing. */
  lemma DroppedIffBare(s: CString, p: nat, enc: Encoding)
    requires p < |s| && s[p] == '&'
    ensures CharAt(s, p, enc) == Character([], Pos(p + 1)) <==> IsBare(s, p)
  {
    hide NumericEntity, NamedEntity, Has;
    if Ch(s, p + 1) == '#' && p + 2 < |s| {
      assert CharAt(s, p, enc).p != Pos(p + 1);
    } else {
      NamedIsBareIff(s, p, 0);
    }
  }

  /** The string without its ampersands. */
  function WithoutAmpersands(v: Bytes): (r: Bytes)
    ensures |r| <= |v| && (|r| == |v| <==> '&' !in v)
  {
    if v == [] then []
    else
      assert v == [v[0]] + v[1..];
      (if v[0] == '&' then [] else [v[0]]) + WithoutAmpersands(v[1..])
  }

  lemma {:induction false} WithoutNone(v: Bytes)
    requires '&' !in v
    ensures WithoutAmpersands(v) == v
  {
    if v != [] {
      assert forall c | c in v[1..] :: c in v;
      WithoutNone(v[1..]);
    }
  }

  lemma {:induction false} WithoutOnAll(v: Bytes, n: nat)
    requires n <= |v| && '&' !in v[..n]
    ensures WithoutAmpersands(v) == v[..n] + WithoutAmpersands(v[n..])
    decreases n
  {
    if n == 0 {
      assert v[n..] == v;
    } else {
      assert v[0] == v[..n][0] && v[1..][..n - 1] == v[..n][1..] && v[1..][n - 1..] == v[n..];
      WithoutOnAll(v[1..], n - 1);
      assert [v[0]] + (v[1..][..n - 1] + WithoutAmpersands(v[n..])) == v[..n] + WithoutAmpersands(v[n..]);
    }
  }

  /** Reading text that is not escaped, whose ampersands are all bare. */
  lemma {:induction false} KeepDrops(s: CString, p: nat, v: Bytes, i: nat, e: Byte, enc: Encoding, acc: Bytes)
    requires Has(s, p, v) && i <= |v| && Complete(v, enc) && e !in v && IsDelimiter(e)
    requires forall k | 0 <= k < |v| && v[k] == '&' :: p + k < |s| && IsBare(s, p + k)
    ensures p + |v| <= |s|
    ensures ReadKeep(s, p + i, [e], enc, acc) == ReadKeep(s, p + |v|, [e], enc, acc + WithoutAmpersands(v[i..]))
    decreases |v| - i
  {
    hide ReadKeep, CharLength, Has, IsBare, WithoutAmpersands;
    HasIff(s, p, v);
    if i == |v| {
      assert acc + WithoutAmpersands(v[i..]) == acc by { WithoutNone([]); }
    } else {
      assert CompleteAt(v, i, enc);
      var n := CharLength(v[i], enc);
      DropStep(s, p, v, i, e, enc, acc);
      WithoutStep(v, i, enc);
      var t := if v[i] == '&' then [] else v[i..i + n];
      KeepDrops(s, p, v, i + n, e, enc, acc + t);
      assert acc + t + WithoutAmpersands(v[i + n..]) == acc + (t + WithoutAmpersands(v[i + n..]));
    }
  }

  lemma WithoutStep(v: Bytes, i: nat, enc: Encoding)
    requires i < |v| && CompleteAt(v, i, enc)
    ensures var n := CharLength(v[i], enc);
      WithoutAmpersands(v[i..]) == (if v[i] == '&' then [] else v[i..i + n]) + WithoutAmpersands(v[i + n..])
  {
    var n := CharLength(v[i], enc);
    assert v[i..][n..] == v[i + n..] && v[i..][..n] == v[i..i + n];
    if v[i] != '&' {
      var t := v[i..i + n];
      forall k | 0 <= k < |t| ensures t[k] != '&' { assert t[k] == v[i + k]; }
      WithoutOnAll(v[i..], n);
    }
  }

  lemma DropStep(s: CString, p: nat, v: Bytes, i: nat, e: Byte, enc: Encoding, acc: Bytes)
    requires Has(s, p, v) && i < |v| && CompleteAt(v, i, enc) && v[i] != e && IsDelimiter(e)
    requires v[i] == '&' ==> p + i < |s| && IsBare(s, p + i)
    ensures var n := CharLength(v[i], enc);
      && p + i + n <= |s|
      && ReadKeep(s, p + i, [e], enc, acc)
         == ReadKeep(s, p + i + n, [e], enc, acc + if v[i] == '&' then [] else v[i..i + n])
  {
    hide CharAt, IsBare;
    HasAt(s, p, v, i);
    HasMeans(s, p + i, [e], 0);
    if v[i] == '&' {
      DroppedIffBare(s, p + i, enc);
      assert CharLength('&', enc) == 1;
    } else {
      RawChar(s, p, v, i, enc);
    }
  }

  /** Text that is not escaped and holds no entity is read without its ampersands, so it comes
      back if and only if it has none. */
  lemma RawTextReads(s: CString, p: nat, v: Bytes, e: Byte, enc: Encoding, condense: bool)
    requires Has(s, p, v + [e]) && Complete(v, enc) && e !in v && IsDelimiter(e)
    requires forall k | 0 <= k < |v| && v[k] == '&' :: p + k < |s| && IsBare(s, p + k)
    ensures TextAt(s, p, false, [e], enc, condense) == TextResult(WithoutAmpersands(v), Pos(p + |v| + 1))
    ensures TextAt(s, p, false, [e], enc, condense).text == v <==> '&' !in v
  {
    hide ReadKeep, Has, IsBare, Complete, WithoutAmpersands;
    HasConcat(s, p, v, [e]);
    HasAt(s, p + |v|, [e], 0);
    KeepDrops(s, p, v, 0, e, enc, []);
    StopsAt(s, p + |v|, e, enc, WithoutAmpersands(v));
    assert v[0..] == v && [] + WithoutAmpersands(v) == WithoutAmpersands(v);
    if '&' !in v { WithoutNone(v); }
  }
}
