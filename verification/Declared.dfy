/**
 How the encoding of a document is settled: by a byte order mark, or by the declaration that it
 begins with.
 */
module Declared {
  import opened CStrings
  import opened Scan
  import opened Entities
  import opened Text
  import opened Trees
  import opened Parser
  import opened Printing
  import opened RoundTrip
  import opened Layout
  import opened Literals
  import opened Quirks
  import opened Marks
  import Numeric

  // ----- the byte order mark -----

  /** A byte order mark in front of a printed document changes nothing about how it is read back in
      UTF-8 mode, and where no encoding is declared it puts UTF-8 in force. */
  lemma MarkedRoundTrip(nodes: seq<Node>, st: Style, cfg: Config)
    requires nodes != [] && DocumentOk(nodes, 0, Config(Utf8, cfg.condense)) && StyleOk(st) && !cfg.enc.Legacy?
    requires forall k | 0 <= k < |nodes| :: LaidOut(nodes[k], Loose(st, cfg))
    ensures '\0' !in PrintFrom(nodes, 0, 0, st)
    ensures var s: CString := [0xEF as char, 0xBB as char, 0xBF as char] + PrintFrom(nodes, 0, 0, st);
      ParseDocument(s, cfg) == DocumentResult(nodes, if st.lineBreak == [] then Null else Pos(|s|), NoError)
  {
    hide PrintFrom, DocumentLoop, DocumentOk, StyleOk, SkipFrom, LaidOut;
    var cfg' := Config(Utf8, cfg.condense);
    PrintedIsCString(nodes, 0, st, cfg');
    var mark: CString := [0xEF as char, 0xBB as char, 0xBF as char];
    var t := PrintFrom(nodes, 0, 0, st);
    var s: CString := mark + t;
    assert s[0] as int == 0xEF && s[1] as int == 0xBB && s[2] as int == 0xBF;
    assert Has(s, 0, mark) && Has(s, 3, t) by { HasConcat(s, 0, mark, t); assert Has(s, 0, s); }
    assert ByteOrderMark() == mark;
    assert nodes[..0] == [];
    TopLevelReads(s, 3, nodes, 0, st, cfg');
    SkippingIs(s, 0, Utf8);
    SkipNone(s, 3, Utf8);
  }

  // ----- the declaration -----

  /** Nothing, or `UTF-8` or `UTF8` in any letter case with anything after it. */
  predicate SpellsUtf8(e: Bytes) {
    || e == []
    || (|e| >= 5 && e[0] in "uU" && e[1] in "tT" && e[2] in "fF" && e[3] == '-' && e[4] == '8')
    || (|e| >= 4 && e[0] in "uU" && e[1] in "tT" && e[2] in "fF" && e[3] == '8')
  }

  lemma SpellingDecides(d: Node)
    requires d.Declaration? && '\0' !in d.encoding
    ensures EncodingAfter(Undeclared, d) == if SpellsUtf8(d.encoding) then Utf8 else Legacy
  {
    hide Matches;
    if d.encoding != [] {
      BeginsUtf8(d.encoding);
      BeginsUtf(d.encoding);
    }
  }

  lemma BeginsUtf8(e: CString)
    requires e != []
    ensures Matches(e, 0, "UTF-8", true)
       <==> |e| >= 5 && e[0] in "uU" && e[1] in "tT" && e[2] in "fF" && e[3] == '-' && e[4] == '8'
  {
    hide Matches;
    var t: CString := "UTF-8";
    AnyCase(e, 0, t);
    assert t[0] == 'U' && t[1] == 'T' && t[2] == 'F' && t[3] == '-' && t[4] == '8';
  }

  lemma BeginsUtf(e: CString)
    requires e != []
    ensures Matches(e, 0, "UTF8", true)
       <==> |e| >= 4 && e[0] in "uU" && e[1] in "tT" && e[2] in "fF" && e[3] == '8'
  {
    hide Matches;
    var t: CString := "UTF8";
    AnyCase(e, 0, t);
    assert t[0] == 'U' && t[1] == 'T' && t[2] == 'F' && t[3] == '8';
  }

  function FieldText(name: Bytes, value: Bytes): Bytes {
    if value == [] then [] else name + "=\"" + value + "\" "
  }

  /** A printed declaration. */
  function DeclarationText(d: Node): Bytes
    requires d.Declaration?
  {
    "<?xml " + FieldText("version", d.version) + FieldText("encoding", d.encoding)
    + FieldText("standalone", d.standalone) + "?>"
  }

  lemma DeclarationTextIs(d: Node, depth: nat, st: Style)
    requires d.Declaration?
    ensures Core(d, depth, st) == DeclarationText(d)
    ensures DeclarationText(d) == XML_OPEN + " " + PrintField(VERSION, d.version) + PrintField(ENCODING, d.encoding)
                                  + PrintField(STANDALONE, d.standalone) + "?>"
  {
    assert XML_OPEN + " " == "<?xml ";
    FieldTextIs("version", d.version);
    FieldTextIs("encoding", d.encoding);
    FieldTextIs("standalone", d.standalone);
    hide FieldText, PrintField;
  }

  lemma FieldTextIs(name: Bytes, value: Bytes)
    ensures PrintField(name, value) == FieldText(name, value)
  {
  }

  /** A document that begins with a declaration, and whose encoding is not known otherwise, is read
      in UTF-8 if the declaration names no encoding or one that begins with `UTF-8` or `UTF8` in any
      letter case, and byte by byte if it names another. */
  lemma DeclarationDecides(s: CString, d: Node, condense: bool)
    requires d.Declaration? && Has(s, 0, DeclarationText(d))
    requires NodeOk(d, Config(if SpellsUtf8(d.encoding) then Utf8 else Legacy, condense))
    ensures SpellsUtf8(d.encoding) ==>
      ParseDocument(s, Config(Undeclared, condense)) == ParseDocument(s, Config(Utf8, condense))
    ensures !SpellsUtf8(d.encoding) ==>
      ParseDocument(s, Config(Undeclared, condense)) == ParseDocument(s, Config(Legacy, condense))
    ensures var r := ParseDocument(s, Config(Undeclared, condense)); r.children != [] && r.children[0] == d
  {
    hide Has, DocumentLoop, SkipFrom, ParseNode, SpellsUtf8, DeclarationText, PrintField;
    var enc := if SpellsUtf8(d.encoding) then Utf8 else Legacy;
    var cfg := Config(enc, condense);
    UndeclaredOk(d, cfg);
    SpellingDecides(d);
    DeclarationTextIs(d, 0, Style([], []));
    DeclarationReads(s, 0, d, Config(Undeclared, condense), NoError);
    DeclarationReads(s, 0, d, cfg, NoError);
    var x := |DeclarationText(d)|;
    DocumentStep(s, 0, d, x, [], Config(Undeclared, condense), NoError);
    DocumentStep(s, 0, d, x, [], cfg, NoError);
    SkipNone(s, 0, Undeclared);
    SkipNone(s, 0, enc);
    HasMeans(s, 0, ByteOrderMark(), 0);
    assert [] + [d] == [d];
    if x < |s| { DocumentLoopAppends(s, SkipFrom(s, x, enc), [d], cfg, NoError); }
  }

  lemma UndeclaredOk(d: Node, cfg: Config)
    requires d.Declaration? && NodeOk(d, cfg)
    ensures NodeOk(d, cfg.(enc := Undeclared)) && '\0' !in d.encoding
  {
  }

  // ----- what a character reference then loads as -----

  /** A reference to a number from 128 to 255 as the only content of an element. */
  function Referring(n: nat): Bytes
    requires 128 <= n < 256
  {
    "<a>&#" + Digits(n) + ";</a>"
  }

  function Digits(n: nat): Bytes
    requires 128 <= n < 256
  {
    ["0123456789"[n / 100], "0123456789"[n / 10 % 10], "0123456789"[n % 10]]
  }

  /** Two bytes in UTF-8, and the byte of that number otherwise. */
  function Loaded(n: nat, enc: Encoding): Bytes
    requires 128 <= n < 256
  {
    if enc.Utf8? then [(0xC0 + n / 64) as char, (0x80 + n % 64) as char] else [n as char]
  }

  lemma DigitsSpell(n: nat)
    requires 128 <= n < 256
    ensures Numeric.AllDigits(Digits(n), 10) && Numeric.Value(Digits(n), 10) == n
  {
    var t := Digits(n);
    DigitsAre(t[0], n / 100);
    DigitsAre(t[1], n / 10 % 10);
    DigitsAre(t[2], n % 10);
    hide DigitValue;
    assert t[..2][..1] == t[..1] && t[..1][..0] == [];
    assert Numeric.Value([], 10) == 0;
    assert Numeric.Value(t[..1], 10) == n / 100;
    assert Numeric.Value(t[..2], 10) == n / 100 * 10 + n / 10 % 10;
  }

  lemma ReferenceLoads(s: CString, p: nat, n: nat, enc: Encoding)
    requires 128 <= n < 256 && Has(s, p, "&#" + Digits(n) + ";")
    ensures p < |s| && s[p] == '&' && CharAt(s, p, enc) == Character(Loaded(n, enc), Pos(p + 6))
  {
    hide Has, EntityAt, Numeric.Value, Numeric.AllDigits, Digits;
    DigitsSpell(n);
    assert |Digits(n)| == 3 by { ThreeDigits(n); }
    HasAt(s, p, "&#" + Digits(n) + ";", 0);
    var ucs := Numeric.DecimalReference(s, p, Digits(n), enc);
    assert n / 64 < 4;
  }

  lemma ThreeDigits(n: nat)
    requires 128 <= n < 256
    ensures |Digits(n)| == 3
  {
  }

  lemma ReferenceText(s: CString, p: nat, n: nat, cfg: Config)
    requires 128 <= n < 256 && Has(s, p, "&#" + Digits(n) + ";") && Has(s, p + 6, "</a>")
    ensures p < |s| && s[p] == '&'
    ensures TextAt(s, p, true, "<", cfg.enc, cfg.condense) == TextResult(Loaded(n, cfg.enc), Pos(p + 7))
  {
    hide Has, CharAt, Digits, Loaded;
    ReferenceLoads(s, p, n, cfg.enc);
    HasAt(s, p + 6, "</a>", 0);
    SkipNone(s, p, cfg.enc);
    HasConcat(s, p + 6, "<", "/a>");
    assert "<" + "/a>" == "</a>";
    HasMeans(s, p, "<", 0);
    var b, end: CString := Loaded(n, cfg.enc), "<";
    assert [] + b == b;
    assert Matches(s, p + 6, end, false) && !Matches(s, p, end, false);
    assert ReadCondensed(s, p + 6, end, cfg.enc, b, false) == TextResult(b, Pos(p + 7));
    assert ReadCondensed(s, p, end, cfg.enc, [], false) == TextResult(b, Pos(p + 7));
    assert ReadKeep(s, p + 6, end, cfg.enc, b) == TextResult(b, Pos(p + 7));
    assert ReadKeep(s, p, end, cfg.enc, []) == TextResult(b, Pos(p + 7));
  }

  lemma ReferenceChild(s: CString, p: nat, n: nat, cfg: Config, err: Error)
    requires 128 <= n < 256 && Has(s, p, "&#" + Digits(n) + ";") && Has(s, p + 6, "</a>")
    ensures p + 6 < |s|
    ensures ReadValue(s, p, [], cfg, err)
         == ReadValue(s, p + 6, [Text(Loaded(n, cfg.enc), false)], cfg, err)
  {
    hide Has, TextAt, Digits, ReadValue, SkipFrom;
    ReferenceText(s, p, n, cfg);
    HasAt(s, p + 6, "</a>", 0);
    SkipNone(s, p, cfg.enc);
    HasMeans(s, p, CDATA_OPEN, 0);
    ValueRound(s, p, [], cfg, err);
    assert !IsSpace(Loaded(n, cfg.enc)[0]);
    assert [] + [Text(Loaded(n, cfg.enc), false)] == [Text(Loaded(n, cfg.enc), false)];
  }

  lemma ReferringReads(s: CString, p: nat, n: nat, cfg: Config, err: Error)
    requires 128 <= n < 256 && Has(s, p, Referring(n))
    ensures p < |s| && s[p] == '<'
    ensures ParseNode(s, p, cfg, err)
         == NodeResult(Element("a", [], [Text(Loaded(n, cfg.enc), false)]), Pos(p + 13), err)
  {
    hide Has, Digits, Loaded, ParseNode, AttributeLoop, ParseContent, ReadValue, Between;
    var body := "&#" + Digits(n) + ";";
    assert |body| == 6 by { ThreeDigits(n); }
    assert Referring(n) == "<" + ("a" + ([] + (">" + (body + "</a>"))));
    assert PrintAttributes([], 0) == [];
    SimpleName("a", cfg.enc);
    ElementStart(s, p, "a", [], ">" + (body + "</a>"), cfg, err);
    HasConcat(s, p + 2, ">", body + "</a>");
    HasConcat(s, p + 3, body, "</a>");
    ElementOpened(s, p + 2, "a", [], cfg, err);
    ReferenceChild(s, p + 3, n, cfg, err);
    NoGap(s, p + 9, cfg);
    assert EndTag("a") == "</a>";
    EndChild(s, p + 9, p + 9, "a", [Text(Loaded(n, cfg.enc), false)], cfg, err);
    ContentReads(s, p + 3, "a", [], [Text(Loaded(n, cfg.enc), false)], p + 9, cfg, err);
  }

  /** Behind a declaration the reference loads as two bytes if that says nothing or UTF-8, and as
      one if it says anything else. */
  lemma DeclaredReference(s: CString, d: Node, n: nat, condense: bool)
    requires d.Declaration? && 128 <= n < 256 && s == DeclarationText(d) + Referring(n)
    requires NodeOk(d, Config(if SpellsUtf8(d.encoding) then Utf8 else Legacy, condense))
    ensures var text :=
        if SpellsUtf8(d.encoding) then [(0xC0 + n / 64) as char, (0x80 + n % 64) as char] else [n as char];
      ParseDocument(s, Config(Undeclared, condense))
      == DocumentResult([d, Element("a", [], [Text(text, false)])], Null, NoError)
  {
    hide Has, DocumentLoop, SkipFrom, ParseNode, SpellsUtf8, DeclarationText, Referring, PrintField;
    var enc := if SpellsUtf8(d.encoding) then Utf8 else Legacy;
    var cfg, x := Config(enc, condense), |DeclarationText(d)|;
    HasAll(s);
    HasConcat(s, 0, DeclarationText(d), Referring(n));
    DeclarationDecides(s, d, condense);
    DeclarationTextIs(d, 0, Style([], []));
    DeclarationReads(s, 0, d, cfg, NoError);
    DocumentStep(s, 0, d, x, [], cfg, NoError);
    SkipNone(s, 0, enc);
    ReferringReads(s, x, n, cfg, NoError);
    assert |Referring(n)| == 13 by { ReferringLength(n); }
    SkipNone(s, x, enc);
    var a := Element("a", [], [Text(Loaded(n, enc), false)]);
    DocumentStep(s, x, a, |s|, [d], cfg, NoError);
    assert [] + [d] == [d] && [d] + [a] == [d, a];
  }

  lemma HasAll(s: Bytes)
    ensures Has(s, 0, s)
  {
  }

  lemma ReferringLength(n: nat)
    requires 128 <= n < 256
    ensures |Referring(n)| == 13
  {
  }
}
