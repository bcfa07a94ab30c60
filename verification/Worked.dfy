/**
 Worked documents: one that shows every form the printer knows, and malformed ones with the error
 that each gives and the place where it is found.
 */
module Worked {
  import opened CStrings
  import opened Utf8
  import opened Scan
  import opened Entities
  import opened Text
  import opened Trees
  import opened Parser
  import opened Printing
  import opened RoundTrip
  import opened Declared
  import opened EndOfLine

  // ----- a printed document -----

  const HEAD := Declaration("1.0", "UTF-8", [])
  const INNER := [Element("b", [], [Text("t&u", false)]), Text("r<", true), Element("e", [], []), Unknown("!D")]
  const BODY := Element("a", VALUES, INNER)
  const DOCUMENT := [HEAD, Comment(" c "), BODY]

  /** The printer's default layout. */
  const LAYOUT := Style("    ", "\n")

  /** One more byte in front of an escaped text. */
  lemma OneMore(v: Bytes, i: nat)
    requires i < |v| && !HexRefAt(v, i)
    ensures EncodeFrom(v, |v|) == []
    ensures EncodeFrom(v, i) == EscapeByte(v[i]) + EncodeFrom(v, i + 1)
  {
    hide EscapeByte;
  }

  lemma ValuesWritten()
    ensures EncodeFrom("t&u", 0) == "t&amp;u" && EncodeFrom("1<2", 0) == "1&lt;2" && EncodeFrom("\"", 0) == "&quot;"
    ensures EncodeFrom("x", 0) == "x" && EncodeFrom("q", 0) == "q"
  {
    hide EncodeFrom;
    OneMore("t&u", 2);
    OneMore("t&u", 1);
    OneMore("t&u", 0);
    OneMore("1<2", 2);
    OneMore("1<2", 1);
    OneMore("1<2", 0);
    OneMore("\"", 0);
    OneMore("x", 0);
    OneMore("q", 0);
  }

  const VALUES := [Attribute("x", "1<2"), Attribute("q", "\"")]
  const X_WRITTEN: Bytes := "x=\"1&lt;2\""
  const Q_WRITTEN: Bytes := "q=\'&quot;\'"
  const ATTRIBUTES: Bytes := " " + X_WRITTEN + (" " + Q_WRITTEN)

  lemma AttributesWritten()
    ensures PrintAttributes([], 0) == [] && PrintAttributes(VALUES, 0) == ATTRIBUTES
  {
    hide EncodeFrom, PrintAttribute;
    EachWritten();
    assert PrintAttributes(VALUES, 2) == [];
    assert PrintAttributes(VALUES, 1) == " " + Q_WRITTEN + [];
    assert " " + Q_WRITTEN + [] == " " + Q_WRITTEN;
  }

  lemma EachWritten()
    ensures PrintAttribute(VALUES[0]) == X_WRITTEN && PrintAttribute(VALUES[1]) == Q_WRITTEN
  {
    hide EncodeFrom;
    ValuesWritten();
  }

  // Its lines.
  const VERSION_FIELD: Bytes := "version=\"1.0\" "
  const ENCODING_FIELD: Bytes := "encoding=\"UTF-8\" "
  const XML_LINE: Bytes := "<?xml " + (VERSION_FIELD + (ENCODING_FIELD + "?>\n"))
  const COMMENT_LINE: Bytes := "<!-- c -->\n"
  const START_LINE: Bytes := "<a" + (ATTRIBUTES + ">\n")
  const TEXT_LINE: Bytes := "    <b>t&amp;u</b>\n"
  const CDATA_LINE: Bytes := "    <![CDATA[r<]]>\n"
  const EMPTY_LINE: Bytes := "    <e />\n"
  const UNKNOWN_LINE: Bytes := "    <!D>\n"
  const END_LINE: Bytes := "</a>\n"

  lemma Indented()
    ensures Repeat("    ", 0) == [] && Repeat("    ", 1) == "    "
  {
  }

  lemma TextLine()
    ensures PrintNode(INNER[0], 1, LAYOUT) == TEXT_LINE
  {
    hide EncodeFrom, PrintAttributes, Repeat, CStr;
    Indented();
    ValuesWritten();
    AttributesWritten();
    assert EndTag("b") == "</b>";
    assert Core(INNER[0].children[0], 2, LAYOUT) == "t&amp;u";
  }

  lemma LeafLines()
    ensures PrintNode(INNER[1], 1, LAYOUT) == CDATA_LINE && PrintNode(INNER[3], 1, LAYOUT) == UNKNOWN_LINE
    ensures PrintNode(DOCUMENT[1], 0, LAYOUT) == COMMENT_LINE
  {
    hide Repeat, CStr;
    Indented();
  }

  lemma EmptyLine()
    ensures PrintNode(INNER[2], 1, LAYOUT) == EMPTY_LINE
  {
    hide Repeat, CStr, PrintAttributes;
    Indented();
    AttributesWritten();
  }

  lemma XmlLine()
    ensures PrintNode(HEAD, 0, LAYOUT) == XML_LINE
  {
    hide Repeat, PrintField;
    Indented();
    FieldsWritten();
    var v, e := VERSION_FIELD, ENCODING_FIELD;
    assert Core(HEAD, 0, LAYOUT) == XML_OPEN + " " + v + e + [] + "?>";
    assert XML_OPEN + " " == "<?xml " && "?>" + "\n" == "?>\n";
    FieldsRegrouped("<?xml ", v, e, "?>", "\n");
  }

  lemma FieldsRegrouped(a: Bytes, b: Bytes, c: Bytes, d: Bytes, e: Bytes)
    ensures [] + (a + b + c + [] + d) + e == a + (b + (c + (d + e)))
  {
  }

  lemma FieldsWritten()
    ensures PrintField(VERSION, "1.0") == VERSION_FIELD && PrintField(ENCODING, "UTF-8") == ENCODING_FIELD
    ensures PrintField(STANDALONE, []) == []
  {
  }

  function InnerText(): Bytes {
    TEXT_LINE + (CDATA_LINE + (EMPTY_LINE + UNKNOWN_LINE))
  }

  lemma InnerPrinted()
    ensures PrintFrom(INNER, 0, 1, LAYOUT) == InnerText()
  {
    hide PrintNode;
    TextLine();
    LeafLines();
    EmptyLine();
    assert PrintFrom(INNER, 4, 1, LAYOUT) == [];
    assert PrintFrom(INNER, 3, 1, LAYOUT) == UNKNOWN_LINE;
    assert PrintFrom(INNER, 2, 1, LAYOUT) == EMPTY_LINE + UNKNOWN_LINE;
    assert PrintFrom(INNER, 1, 1, LAYOUT) == CDATA_LINE + (EMPTY_LINE + UNKNOWN_LINE);
  }

  lemma BodyPrinted()
    ensures PrintNode(BODY, 0, LAYOUT) == START_LINE + (InnerText() + END_LINE)
  {
    hide PrintFrom, PrintAttributes, Repeat, CStr, InnerText, Core;
    Indented();
    BodyCore();
    Regrouped(ATTRIBUTES, InnerText());
  }

  lemma BodyCore()
    ensures Core(BODY, 0, LAYOUT) == "<" + "a" + ATTRIBUTES + ">" + "\n" + InnerText() + [] + ("</" + "a" + ">")
  {
    hide PrintFrom, PrintAttributes, Repeat, InnerText;
    Indented();
    AttributesWritten();
    InnerPrinted();
  }

  lemma Regrouped(a: Bytes, b: Bytes)
    ensures [] + ("<" + "a" + a + ">" + "\n" + b + [] + ("</" + "a" + ">")) + "\n"
         == "<a" + (a + ">\n") + (b + END_LINE)
  {
    assert "<" + "a" == "<a" && ">" + "\n" == ">\n" && "</" + "a" + ">" + "\n" == END_LINE;
    GroupsRight("<a", a, ">\n", b + END_LINE);
  }

  function WholeText(): Bytes {
    XML_LINE + (COMMENT_LINE + (START_LINE + (InnerText() + END_LINE)))
  }

  /** This document is printed as this text, in the printer's default layout. */
  lemma DocumentPrinted()
    ensures PrintFrom(DOCUMENT, 0, 0, LAYOUT) == WholeText()
  {
    hide PrintNode, InnerText;
    XmlLine();
    LeafLines();
    BodyPrinted();
    assert PrintFrom(DOCUMENT, 3, 0, LAYOUT) == [];
    assert PrintFrom(DOCUMENT, 2, 0, LAYOUT) == PrintNode(BODY, 0, LAYOUT);
  }

  lemma Ascii(v: Bytes, enc: Encoding)
    requires forall c <- v :: c as int < 0x80
    ensures Complete(v, enc)
  {
    forall i | 0 <= i < |v| ensures CompleteAt(v, i, enc) { assert v[i] in v; }
  }

  lemma HeadOk(condense: bool)
    ensures NodeOk(HEAD, Config(Undeclared, condense)) && EncodingAfter(Undeclared, HEAD) == Utf8
  {
    hide Complete, EncodingAfter;
    Ascii("1.0", Undeclared);
    Ascii("UTF-8", Undeclared);
    Ascii([], Undeclared);
    SpellingDecides(HEAD);
  }

  lemma InnerOk(cfg: Config)
    requires !cfg.condense
    ensures forall k | 0 <= k < |INNER| :: NodeOk(INNER[k], cfg) && LaidOut(INNER[k], true)
    ensures NotAdjacent(INNER) && NoPlainText(INNER)
  {
    hide Complete, HasHexRef;
    Ascii("t&u", cfg.enc);
    assert !HasHexRef("t&u") by { NoReference("t&u"); }
    assert SkippedTo("t&u", 0, cfg.enc) == 0;
    assert NodeOk(Text("t&u", false), cfg);
    assert AttributesOk([], cfg.enc) && NameOk("b", cfg.enc) && NameOk("e", cfg.enc);
    assert NodeOk(INNER[0], cfg) && NodeOk(INNER[2], cfg);
  }

  lemma NoReference(v: Bytes)
    requires '#' !in v
    ensures !HasHexRef(v)
  {
  }

  lemma BodyOk(cfg: Config)
    requires !cfg.condense
    ensures NodeOk(BODY, cfg) && LaidOut(BODY, true)
  {
    hide Complete, HasHexRef;
    InnerOk(cfg);
    Ascii("1<2", cfg.enc);
    Ascii("\"", cfg.enc);
    NoReference("1<2");
    NoReference("\"");
    assert NameOk("a", cfg.enc) && NameOk("x", cfg.enc) && NameOk("q", cfg.enc);
    assert AttributesOk(VALUES, cfg.enc);
  }

  /** And this text is read as this document, whose declaration settles the encoding. */
  lemma DocumentRead()
    ensures '\0' !in WholeText()
    ensures ParseDocument(WholeText(), Config(Undeclared, false))
         == DocumentResult(DOCUMENT, Pos(|WholeText()|), NoError)
  {
    hide NodeOk, LaidOut, EncodingAfter, PrintFrom, ParseDocument, WholeText;
    var cfg := Config(Utf8, false);
    HeadOk(false);
    BodyOk(cfg);
    assert NodeOk(DOCUMENT[1], cfg) by { CommentOk(cfg); }
    assert EncodingAfter(Utf8, DOCUMENT[1]) == Utf8 && EncodingAfter(Utf8, BODY) == Utf8 by { EncodingKept(); }
    assert DocumentOk(DOCUMENT, 3, cfg);
    assert DocumentOk(DOCUMENT, 2, cfg);
    assert DocumentOk(DOCUMENT, 1, cfg);
    assert LaidOut(DOCUMENT[0], true) && LaidOut(DOCUMENT[1], true) by { LeavesLaidOut(); }
    DocumentPrinted();
    DocumentRoundTrip(DOCUMENT, LAYOUT, Config(Undeclared, false));
  }

  lemma CommentOk(cfg: Config)
    ensures NodeOk(DOCUMENT[1], cfg)
  {
    forall k: nat ensures !Has(" c ", k, "-->") { HasMeans(" c ", k, "-->", 0); }
  }

  lemma EncodingKept()
    ensures EncodingAfter(Utf8, DOCUMENT[1]) == Utf8 && EncodingAfter(Utf8, BODY) == Utf8
  {
  }

  lemma LeavesLaidOut()
    ensures LaidOut(DOCUMENT[0], true) && LaidOut(DOCUMENT[1], true)
  {
  }

  // ----- white space -----

  const SPACED: CString := " x\t y <"

  /** Condensing drops the white space around a text and makes one space of any other run. */
  lemma SpacesCondensed(enc: Encoding)
    ensures TextAt(SPACED, 0, true, "<", enc, true) == TextResult("x y", Pos(7))
  {
    var s, end: CString := SPACED, "<";
    PlainBytes(enc);
    assert SkipFrom(s, 1, enc) == 1;
    assert SkipFrom(s, 0, enc) == 1;
    hide CharAt, SkipFrom, Has;
    assert ReadCondensed(s, 6, end, enc, "x y", true) == TextResult("x y", Pos(7));
    assert ReadCondensed(s, 5, end, enc, "x y", false) == ReadCondensed(s, 6, end, enc, "x y", true);
    assert "x" + " " + "y" == "x y" && [] + "x" == "x";
    assert ReadCondensed(s, 4, end, enc, "x", true) == ReadCondensed(s, 5, end, enc, "x y", false);
    assert ReadCondensed(s, 3, end, enc, "x", true) == ReadCondensed(s, 4, end, enc, "x", true);
    assert ReadCondensed(s, 2, end, enc, "x", false) == ReadCondensed(s, 3, end, enc, "x", true);
    assert ReadCondensed(s, 1, end, enc, [], false) == ReadCondensed(s, 2, end, enc, "x", false);
  }

  lemma PlainBytes(enc: Encoding)
    ensures forall p | 0 <= p < 6 :: CharAt(SPACED, p, enc) == Character([SPACED[p]], Pos(p + 1))
    ensures forall p | 0 <= p <= 6 :: Matches(SPACED, p, "<", false) <==> p == 6
  {
    forall p | 0 <= p <= 6 ensures Matches(SPACED, p, "<", false) <==> p == 6 { HasIff(SPACED, p, "<"); OpeningByte(); }
  }

  lemma OpeningByte()
    ensures var t: CString := "<"; |t| == 1 && t[0] == '<'
  {
  }

  /** Every way to end a line becomes one line feed. */
  lemma LineEndsNormalized()
    ensures Normalize("a\r\nb\rc\nd\r") == "a\nb\nc\nd\n"
  {
    var t: Bytes := "a\r\nb\rc\nd\r";
    assert NormalizeFrom(t, 9) == [];
    assert NormalizeFrom(t, 8) == "\n";
    assert NormalizeFrom(t, 7) == "d" + "\n";
    assert NormalizeFrom(t, 6) == "\n" + "d\n";
    assert NormalizeFrom(t, 5) == "c" + "\nd\n";
    assert NormalizeFrom(t, 4) == "\n" + "c\nd\n";
    assert NormalizeFrom(t, 3) == "b" + "\nc\nd\n";
    assert NormalizeFrom(t, 1) == "\n" + "b\nc\nd\n";
    assert NormalizeFrom(t, 0) == "a" + "\nb\nc\nd\n";
  }
}
