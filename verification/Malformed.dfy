/**
 Malformed documents, with the error that each gives and the row and column where it is found.
 */
module Malformed {
  import opened CStrings
  import opened Scan
  import opened Entities
  import opened Text
  import opened Escapes
  import opened Condensing
  import opened Trees
  import opened Location
  import opened Parser
  import opened Printing
  import opened RoundTrip
  import opened Marks
  import opened Quirks
  import opened Endings
  import opened Literals

  // ----- where an error is -----

  /** One row of printable characters. */
  predicate OneRow(s: CString) {
    forall i | 0 <= i < |s| :: 32 <= s[i] as int < 127
  }

  lemma {:induction false} WalkInRow(s: CString, tab: nat, enc: Encoding, p: nat, now: nat)
    requires OneRow(s) && now <= |s| && tab >= 1
    ensures Walk(s, tab, enc, Cursor(0, p, p), now) == if p < now then Cursor(0, now, now) else Cursor(0, p, p)
    decreases now - p
  {
    if p < now {
      StepInRow(s, tab, enc, p);
      WalkInRow(s, tab, enc, p + 1, now);
    }
  }

  lemma StepInRow(s: CString, tab: nat, enc: Encoding, p: nat)
    requires OneRow(s) && p < |s| && tab >= 1
    ensures !IsShortLead(s, enc, p) && Step(s, tab, enc, Cursor(0, p, p)) == Cursor(0, p + 1, p + 1)
  {
  }

  /** In one row the column of a call is the furthest position called so far. */
  lemma {:induction false} FollowInRow(s: CString, tab: nat, enc: Encoding, p: nat, marks: seq<Mark>, k: nat)
    requires OneRow(s) && MarksIn(s, enc, marks) && tab >= 1 && p <= k <= |s|
    requires forall i | 0 <= i < |marks| :: marks[i].now <= k && !marks[i].raised
    ensures Within(s, marks + [Mark(k, enc, true)])
    ensures Follow(s, tab, Track(Cursor(0, p, p), Nowhere), marks + [Mark(k, enc, true)]).place == At(0, k)
    decreases |marks|
  {
    hide Walk;
    var all := marks + [Mark(k, enc, true)];
    assert Within(s, all);
    if marks == [] {
      WalkInRow(s, tab, enc, p, k);
      FollowOne(s, tab, Track(Cursor(0, p, p), Nowhere), Mark(k, enc, true));
      assert all == [Mark(k, enc, true)];
    } else {
      var q := if p < marks[0].now then marks[0].now else p;
      WalkInRow(s, tab, enc, p, marks[0].now);
      FollowInRow(s, tab, enc, q, marks[1..], k);
      assert all[1..] == marks[1..] + [Mark(k, enc, true)];
    }
  }

  /** The error of a document and its place: a column of the first row, or nowhere. */
  predicate Gives(s: CString, tab: int, cfg: Config, e: Error, place: Place) {
    ParseDocument(s, cfg).err == e && ErrorPlace(s, tab, cfg) == place
  }

  lemma GivesAt(s: CString, tab: nat, cfg: Config, e: Error, starts: seq<Mark>, k: nat)
    requires ParseDocument(s, cfg).err == e && OneRow(s) && tab >= 1 && k <= |s|
    requires MarksIn(s, cfg.enc, starts) && forall i | 0 <= i < |starts| :: starts[i].now <= k && !starts[i].raised
    requires DocumentMarks(s, cfg) == starts + [Mark(k, cfg.enc, true)]
    ensures Gives(s, tab, cfg, e, At(0, k))
  {
    hide ParseDocument, DocumentMarks;
    FollowInRow(s, tab, cfg.enc, 0, starts, k);
  }

  lemma {:induction false} NoPlace(s: CString, tab: int, t: Track, marks: seq<Mark>)
    requires Within(s, marks) && forall i | 0 <= i < |marks| :: !marks[i].raised
    ensures Follow(s, tab, t, marks).place == t.place
    decreases |marks|
  {
    hide Walk;
    if marks != [] { NoPlace(s, tab, Marked(s, tab, t, marks[0]), marks[1..]); }
  }

  // ----- documents of one element -----

  /** A document of one element called `a` whose parse gives up. */
  lemma OnlyElement(s: CString, rest: Bytes, cfg: Config)
    requires s == "<a" + rest && rest != [] && (rest[0] == ' ' || rest[0] == '>')
    requires AttributeLoop(s, 2, "a", [], cfg, NoError).p == Null
    ensures ParseDocument(s, cfg).err == AttributeLoop(s, 2, "a", [], cfg, NoError).err
    ensures DocumentMarks(s, cfg) == Start(0, cfg.enc) + LoopMarks(s, 2, "a", [], cfg, NoError)
  {
    hide AttributeLoop, LoopMarks, SkipFrom, Matches;
    SkipNone(s, 0, cfg.enc);
    SkipNone(s, 1, cfg.enc);
    SecondByte(s, 0);
    MarkIs(s);
    assert NameEnd(s, 2) == 2 && NameAt(s, 1) == Name("a", Pos(2));
    assert Identify(s, 0) == ElementKind;
    assert ParseElement(s, 0, cfg, NoError) == AttributeLoop(s, 2, "a", [], cfg, NoError);
    assert ParseNode(s, 0, cfg, NoError) == AttributeLoop(s, 2, "a", [], cfg, NoError);
    assert ElementMarks(s, 0, cfg, NoError) == Start(0, cfg.enc) + LoopMarks(s, 2, "a", [], cfg, NoError);
    assert NodeMarks(s, 0, cfg, NoError) == Start(0, cfg.enc) + LoopMarks(s, 2, "a", [], cfg, NoError);
    var marks := Start(0, cfg.enc) + LoopMarks(s, 2, "a", [], cfg, NoError);
    assert DocumentLoopMarks(s, 0, cfg, NoError) == marks + [];
  }

  /** `<a ` ends before its attributes do. */
  lemma NoEnd(tab: nat, cfg: Config)
    requires tab >= 1
    ensures Gives("<a ", tab, cfg, ReadingAttributes, At(0, 2))
  {
    hide Gives, ParseDocument, DocumentMarks;
    var s: CString := "<a ";
    SkipSpace(s, 2, cfg.enc);
    assert SkipFrom(s, 3, cfg.enc) == 3;
    OnlyElement(s, " ", cfg);
    GivesAt(s, tab, cfg, ReadingAttributes, Start(0, cfg.enc), 2);
  }

  /** `<a /` has a slash without a bracket. */
  lemma NoBracket(tab: nat, cfg: Config)
    requires tab >= 1
    ensures Gives("<a /", tab, cfg, ParsingEmpty, At(0, 4))
  {
    hide Gives, ParseDocument, DocumentMarks, SkipFrom;
    var s: CString := "<a /";
    SkipSpace(s, 2, cfg.enc);
    SkipNone(s, 3, cfg.enc);
    OnlyElement(s, " /", cfg);
    GivesAt(s, tab, cfg, ParsingEmpty, Start(0, cfg.enc), 4);
  }

  // ----- a bad attribute -----

  /** An element whose first attribute, at 3, gives up. */
  lemma BadAttribute(s: CString, rest: Bytes, cfg: Config, e: Error, more: seq<Mark>)
    requires s == "<a" + rest && |rest| >= 2 && rest[0] == ' ' && rest[1] == 'b'
    requires var a := ParseAttribute(s, 3, cfg, NoError);
      && AttributeMarks(s, 3, cfg, true) == Start(3, cfg.enc) + more
      && ((a.p == Null && a.err == e && e != NoError && e != ParsingElement)
          || (e == ParsingElement && (a.p == Null || a.p == Pos(|s|)) && a.err == NoError && more == []))
    ensures ParseDocument(s, cfg).err == e
    ensures DocumentMarks(s, cfg)
         == Start(0, cfg.enc) + (Start(3, cfg.enc) + (more + ErrorAt(Pos(3), cfg.enc, e == ParsingElement)))
  {
    hide ParseDocument, DocumentMarks, ParseAttribute, AttributeMarks, SkipFrom;
    SkipSpace(s, 2, cfg.enc);
    SkipNone(s, 3, cfg.enc);
    OnlyElement(s, rest, cfg);
    var last := ErrorAt(Pos(3), cfg.enc, e == ParsingElement);
    assert AfterAttribute(s, 3, "a", [], cfg, NoError) == last;
    assert LoopMarks(s, 2, "a", [], cfg, NoError) == Start(3, cfg.enc) + more + last;
    assert Start(3, cfg.enc) + more + last == Start(3, cfg.enc) + (more + last);
  }

  /** The name `b` of the attribute at 3. */
  lemma NameB(s: CString, cfg: Config)
    requires |s| >= 4 && s[3] == 'b' && (|s| > 4 ==> s[4] in "=>")
    ensures SkipFrom(s, 3, cfg.enc) == 3 && NameAt(s, 3) == Name("b", Pos(4))
    ensures |s| > 4 ==> SkipFrom(s, 4, cfg.enc) == 4
  {
    SkipNone(s, 3, cfg.enc);
    if |s| > 4 { SkipNone(s, 4, cfg.enc); }
    assert NameEnd(s, 4) == 4;
  }

  /** `<a b` ends behind the name of an attribute, which is where the error is put. */
  lemma NoEquals(tab: nat, cfg: Config)
    requires tab >= 1
    ensures Gives("<a b", tab, cfg, ReadingAttributes, At(0, 3))
  {
    hide Gives, ParseDocument, DocumentMarks, SkipFrom, NameAt;
    var s: CString := "<a b";
    NameB(s, cfg);
    BadAttribute(s, " b", cfg, ReadingAttributes, ErrorAt(Pos(3), cfg.enc, true));
    GivesAt(s, tab, cfg, ReadingAttributes, Start(0, cfg.enc) + Start(3, cfg.enc), 3);
  }

  /** `<a b>` has a bracket where the equals sign should be. */
  lemma BracketForEquals(tab: nat, cfg: Config)
    requires tab >= 1
    ensures Gives("<a b>", tab, cfg, ReadingAttributes, At(0, 4))
  {
    hide Gives, ParseDocument, DocumentMarks, SkipFrom, NameAt;
    var s: CString := "<a b>";
    NameB(s, cfg);
    BadAttribute(s, " b>", cfg, ReadingAttributes, ErrorAt(Pos(4), cfg.enc, true));
    GivesAt(s, tab, cfg, ReadingAttributes, Start(0, cfg.enc) + Start(3, cfg.enc), 4);
  }

  /** `<a b=` ends behind the equals sign, where no position is left to report. */
  lemma NoValue(tab: nat, cfg: Config)
    requires tab >= 1
    ensures Gives("<a b=", tab, cfg, ReadingAttributes, Nowhere)
  {
    hide ParseDocument, DocumentMarks, SkipFrom, NameAt;
    var s: CString := "<a b=";
    NameB(s, cfg);
    BadAttribute(s, " b=", cfg, ReadingAttributes, []);
    NoPlace(s, tab, FreshTrack(), DocumentMarks(s, cfg));
  }

  /** `<a b=c"` has a quote at the end of a value that does not begin with one. */
  lemma StrayQuote(tab: nat, cfg: Config)
    requires tab >= 1
    ensures Gives("<a b=c\"", tab, cfg, ReadingAttributes, At(0, 6))
  {
    hide Gives, ParseDocument, DocumentMarks, SkipFrom, NameAt;
    var s: CString := "<a b=c\"";
    NameB(s, cfg);
    SkipNone(s, 5, cfg.enc);
    assert UnquotedEnd(s, 6) == 6;
    assert UnquotedEnd(s, 5) == 6;
    BadAttribute(s, " b=c\"", cfg, ReadingAttributes, ErrorAt(Pos(6), cfg.enc, true));
    GivesAt(s, tab, cfg, ReadingAttributes, Start(0, cfg.enc) + Start(3, cfg.enc), 6);
  }

  /** `<a b='c'` ends behind an attribute, which is then thrown away. */
  lemma NothingAfter(tab: nat, cfg: Config)
    requires tab >= 1
    ensures Gives("<a b=\'c\'", tab, cfg, ParsingElement, At(0, 3))
  {
    hide Gives, ParseDocument, DocumentMarks, SkipFrom, NameAt, TextAt;
    var s: CString := "<a b=\'c\'";
    NameB(s, cfg);
    SkipNone(s, 5, cfg.enc);
    QuotedC(s, cfg);
    BadAttribute(s, " b=\'c\'", cfg, ParsingElement, []);
    GivesAt(s, tab, cfg, ParsingElement, Start(0, cfg.enc) + Start(3, cfg.enc), 3);
  }

  lemma QuotedC(s: CString, cfg: Config)
    requires s == "<a b=\'c\'"
    ensures TextAt(s, 6, false, "\'", cfg.enc, cfg.condense) == TextResult("c", Pos(8))
  {
    var v: CString := "c";
    PlainByte(v, cfg.enc);
    assert Has(s, 6, v + "\'");
    hide TextAt;
    KeepRoundTrip(s, 6, v, '\'', cfg.enc, cfg.condense);
  }

  // ----- bad content -----

  /** `<a` behind which nothing comes has not even a name that counts. */
  lemma NoName(tab: nat, cfg: Config)
    requires tab >= 1
    ensures Gives("<a", tab, cfg, FailedToReadElementName, At(0, 1))
  {
    hide Gives, SkipFrom, Matches;
    var s: CString := "<a";
    SkipNone(s, 0, cfg.enc);
    SkipNone(s, 1, cfg.enc);
    SecondByte(s, 0);
    MarkIs(s);
    assert NameEnd(s, 2) == 2 && NameAt(s, 1) == Name("a", Pos(2));
    assert Identify(s, 0) == ElementKind;
    var marks := Start(0, cfg.enc) + ErrorAt(Pos(1), cfg.enc, true);
    assert ElementMarks(s, 0, cfg, NoError) == marks;
    assert NodeMarks(s, 0, cfg, NoError) == marks;
    assert ParseNode(s, 0, cfg, NoError) == NodeResult(Element("a", [], []), Null, FailedToReadElementName);
    assert DocumentLoopMarks(s, 0, cfg, NoError) == marks + [];
    GivesAt(s, tab, cfg, FailedToReadElementName, Start(0, cfg.enc), 1);
  }

  /** An element that is opened, and whose content gives up. */
  lemma BadContent(s: CString, rest: Bytes, cfg: Config)
    requires s == "<a" + rest && rest != [] && rest[0] == '>'
    requires ParseContent(s, 3, "a", [], cfg, NoError).p == Null
    ensures ParseDocument(s, cfg).err == ParseContent(s, 3, "a", [], cfg, NoError).err
    ensures DocumentMarks(s, cfg) == Start(0, cfg.enc) + ContentMarks(s, 3, "a", cfg, NoError)
  {
    hide ParseDocument, DocumentMarks, ParseContent, ContentMarks, SkipFrom;
    SkipNone(s, 2, cfg.enc);
    OnlyElement(s, rest, cfg);
  }

  /** `<a>` ends before its content. */
  lemma NoContent(tab: nat, cfg: Config)
    requires tab >= 1
    ensures Gives("<a>", tab, cfg, ReadingElementValue, Nowhere)
  {
    hide ParseDocument, DocumentMarks, SkipFrom;
    var s: CString := "<a>";
    BadContent(s, ">", cfg);
    NoPlace(s, tab, FreshTrack(), DocumentMarks(s, cfg));
  }

  /** `<a></b>` is closed by another name. */
  lemma OtherEndTag(tab: nat, cfg: Config)
    requires tab >= 1
    ensures Gives("<a></b>", tab, cfg, ReadingEndTag, At(0, 3))
  {
    hide Gives, ParseDocument, DocumentMarks, SkipFrom, ReadValue, ValuesMarks;
    var s: CString := "<a></b>";
    SkipNone(s, 3, cfg.enc);
    assert Matches(s, 3, "</", false);
    ValueStops(s, 3, [], cfg, NoError);
    assert EndTag("a") == "</a>";
    HasMeans(s, 3, "</a>", 2);
    assert ContentMarks(s, 3, "a", cfg, NoError) == [] + ErrorAt(Pos(3), cfg.enc, true);
    BadContent(s, "></b>", cfg);
    GivesAt(s, tab, cfg, ReadingEndTag, Start(0, cfg.enc), 3);
  }

  /** `<a>x` ends in its text; no position is left to report. */
  lemma NoEndOfText(tab: nat, cfg: Config)
    requires tab >= 1
    ensures Gives("<a>x", tab, cfg, ReadingElementValue, Nowhere)
  {
    hide ParseDocument, DocumentMarks, SkipFrom, ReadValue, ValuesMarks, ParseText;
    var s: CString := "<a>x";
    SkipNone(s, 3, cfg.enc);
    XToTheEnd(s, cfg);
    ValueRound(s, 3, [], cfg, NoError);
    ValueStops(s, 4, [Text("x", false)], cfg, NoError);
    assert ChildAt(s, 3, 3, cfg, NoError) == NodeResult(Text("x", false), Pos(4), NoError);
    assert [] + [Text("x", false)] == [Text("x", false)];
    assert !IsBlank("x") by { assert !IsSpace("x"[0]); }
    assert ReadValue(s, 3, [], cfg, NoError) == ReadValue(s, 4, [Text("x", false)], cfg, NoError);
    assert ValuesMarks(s, 3, cfg, NoError) == Start(3, cfg.enc) + [];
    assert ContentMarks(s, 3, "a", cfg, NoError) == Start(3, cfg.enc);
    BadContent(s, ">x", cfg);
    NoPlace(s, tab, FreshTrack(), DocumentMarks(s, cfg));
  }

  /** `<a> ` ends in white space; the error is put at the end of the input. */
  lemma NoEndTag(tab: nat, cfg: Config)
    requires tab >= 1
    ensures Gives("<a> ", tab, cfg, ReadingEndTag, At(0, 4))
  {
    hide Gives, ParseDocument, DocumentMarks, SkipFrom, ReadValue, ValuesMarks;
    var s: CString := "<a> ";
    SkipSpace(s, 3, cfg.enc);
    assert SkipFrom(s, 4, cfg.enc) == 4;
    ValueStops(s, 3, [], cfg, NoError);
    assert ContentMarks(s, 3, "a", cfg, NoError) == [] + ErrorAt(Pos(4), cfg.enc, true);
    BadContent(s, "> ", cfg);
    GivesAt(s, tab, cfg, ReadingEndTag, Start(0, cfg.enc), 4);
  }

  lemma XToTheEnd(s: CString, cfg: Config)
    requires s == "<a>x"
    ensures ParseText(s, 3, false, cfg, NoError) == NodeResult(Text("x", false), Pos(4), NoError)
    ensures TextMarks(s, 3, false, cfg, NoError) == Start(3, cfg.enc)
  {
    SkipNone(s, 3, cfg.enc);
    HasMeans(s, 3, "<![CDATA[", 0);
    HasMeans(s, 3, "<", 0);
    assert CharAt(s, 3, cfg.enc) == Character("x", Pos(4));
    assert [] + "x" == "x";
    assert ReadKeep(s, 4, "<", cfg.enc, "x") == TextResult("x", Pos(5));
    assert ReadCondensed(s, 4, "<", cfg.enc, "x", false) == TextResult("x", Pos(5));
    hide SkipFrom, CharAt;
    assert ReadKeep(s, 3, "<", cfg.enc, []) == TextResult("x", Pos(5));
    assert ReadCondensed(s, 3, "<", cfg.enc, [], false) == TextResult("x", Pos(5));
  }

  // ----- no document at all -----

  /** Nothing, white space, or anything but a tag: the document is empty. */
  lemma NoDocument(s: CString, tab: nat, cfg: Config)
    requires tab >= 1 && !cfg.enc.Undeclared?
    requires SkipFrom(s, 0, cfg.enc) == |s| || s[SkipFrom(s, 0, cfg.enc)] != '<'
    ensures ParseDocument(s, cfg) == DocumentResult([], Null, DocumentEmpty)
    ensures Gives(s, tab, cfg, DocumentEmpty, Nowhere)
  {
    hide SkipFrom;
  }

  // ----- what is stamped when there is no error -----

  const DECLARED: CString := "<?xml version=\"1.0\"?>"

  /** The bytes of this declaration that matter. */
  predicate IsDeclared(s: CString) {
    && |s| == 21 && Has(s, 0, XML_OPEN) && s[5] == ' ' && Has(s, 6, "version=\"1.0\"") && s[19] == '?' && s[20] == '>'
  }

  lemma DeclaredIs()
    ensures IsDeclared(DECLARED)
  {
    var a, b, c: Bytes := "<?xml ", "version=\"1.0\"", "?>";
    assert DECLARED == a + (b + c);
    assert Has(DECLARED, 0, DECLARED);
    HasConcat(DECLARED, 0, a, b + c);
    HasConcat(DECLARED, 6, b, c);
    assert a == XML_OPEN + " ";
    HasConcat(DECLARED, 0, XML_OPEN, " ");
  }

  lemma VersionRead(s: CString, cfg: Config)
    requires IsDeclared(s)
    ensures SkipFrom(s, 6, cfg.enc) == 6
    ensures ParseAttribute(s, 6, cfg, NoError) == AttributeResult(Attribute("version", "1.0"), Pos(19), NoError)
  {
    hide ParseAttribute, PrintAttribute, ValueOk, NameOk, SkipFrom, Has;
    var a := Attribute("version", "1.0");
    VersionWritten();
    VersionOk(cfg);
    AttributeReads(s, 6, a, cfg, NoError);
  }

  lemma VersionOk(cfg: Config)
    ensures NameOk("version", cfg.enc) && ValueOk("1.0", cfg.enc)
  {
  }

  lemma {:induction false} PlainText(v: Bytes, i: nat)
    requires i <= |v| && forall c <- v :: 'a' <= c <= 'z' || '0' <= c <= '9' || c == '.'
    ensures EncodeFrom(v, i) == v[i..]
    decreases |v| - i
  {
    hide EncodeFrom, EscapeByte;
    if i < |v| {
      assert v[i] in v;
      PlainStep(v, i);
      PlainText(v, i + 1);
      assert v[i..] == [v[i]] + v[i + 1..];
    } else {
      EndOfText(v);
    }
  }

  lemma PlainStep(v: Bytes, i: nat)
    requires i < |v| && ('a' <= v[i] <= 'z' || '0' <= v[i] <= '9' || v[i] == '.')
    ensures EncodeFrom(v, i) == [v[i]] + EncodeFrom(v, i + 1)
  {
  }

  lemma VersionWritten()
    ensures PrintAttribute(Attribute("version", "1.0")) == "version=\"1.0\""
  {
    hide EncodeFrom;
    var n, v: Bytes := "version", "1.0";
    PlainText(n, 0);
    PlainText(v, 0);
    assert n[0..] == n && v[0..] == v;
  }

  lemma FieldsStamped(s: CString, cfg: Config)
    requires IsDeclared(s)
    ensures DeclarationLoopMarks(s, 5, cfg, NoError) == Start(6, cfg.enc)
    ensures DeclarationLoop(s, 5, cfg, NoError, Declaration([], [], [])).p == Pos(21)
  {
    hide ParseAttribute, AttributeMarks, SkipFrom, SetField, FieldAt, JunkEnd, Has;
    var d := Declaration([], [], []);
    SkipSpace(s, 5, cfg.enc);
    VersionRead(s, cfg);
    FieldMarks(s, 6, cfg);
    SkipNone(s, 19, cfg.enc);
    FieldsAre(s);
    var d' := SetField(d, VersionField, "1.0");
    assert DeclarationLoopMarks(s, 20, cfg, NoError) == [] && DeclarationLoop(s, 20, cfg, NoError, d').p == Pos(21);
    assert DeclarationLoopMarks(s, 19, cfg, NoError) == [] && DeclarationLoop(s, 19, cfg, NoError, d').p == Pos(21);
  }

  lemma FieldsAre(s: CString)
    requires IsDeclared(s)
    ensures FieldAt(s, 6) == VersionField && FieldAt(s, 19) == NoField && JunkEnd(s, 19) == 20
  {
    hide Matches, Has;
    assert "version=\"1.0\"" == VERSION + "=\"1.0\"";
    HasConcat(s, 6, VERSION, "=\"1.0\"");
    MatchesAnyCase(s, 6, VERSION);
    AnyCase(s, 19, VERSION);
    AnyCase(s, 19, ENCODING);
    AnyCase(s, 19, STANDALONE);
    assert VERSION[0] == 'v' && ENCODING[0] == 'e' && STANDALONE[0] == 's';
    assert JunkEnd(s, 20) == 20;
  }

  /** A declaration is stamped where it starts and where each of its fields starts. */
  lemma DeclarationStamped(cfg: Config)
    ensures DocumentMarks(DECLARED, cfg) == [Mark(0, cfg.enc, false), Mark(6, cfg.enc, false)]
  {
    hide DeclarationLoop, DeclarationLoopMarks, SkipFrom, Matches;
    var s := DECLARED;
    DeclaredIs();
    SkipNone(s, 0, cfg.enc);
    MarkIs(s);
    FieldsStamped(s, cfg);
    MatchesAnyCase(s, 0, XML_OPEN);
    var marks := Start(0, cfg.enc) + Start(6, cfg.enc);
    assert NodeMarks(s, 0, cfg, NoError) == marks && ParseNode(s, 0, cfg, NoError).p == Pos(21);
    assert DocumentLoopMarks(s, 0, cfg, NoError) == marks + [];
  }

  /** A text is stamped where it starts, in front of its white space only if that is kept. */
  lemma TextStamped(cfg: Config)
    ensures DocumentMarks("<a> x", cfg)
         == [Mark(0, cfg.enc, false), Mark(if cfg.condense then 4 else 3, cfg.enc, false)]
  {
    hide ParseDocument, SkipFrom, ReadValue, ValuesMarks, ParseText, DocumentMarks;
    var s: CString, p := "<a> x", if cfg.condense then 4 else 3;
    SkipSpace(s, 3, cfg.enc);
    SkipNone(s, 4, cfg.enc);
    var v := SpacedX(s, cfg);
    ValueRound(s, 3, [], cfg, NoError);
    assert ChildAt(s, 3, 4, cfg, NoError) == NodeResult(Text(v, false), Pos(5), NoError);
    assert ChildMarks(s, 3, 4, cfg, NoError) == Start(p, cfg.enc);
    var t := if !IsBlank(v) then [] + [Text(v, false)] else [];
    ValueStops(s, 5, t, cfg, NoError);
    assert ValuesMarks(s, 3, cfg, NoError) == Start(p, cfg.enc) + [];
    assert ReadValue(s, 3, [], cfg, NoError) == ReadValue(s, 5, t, cfg, NoError);
    assert ContentMarks(s, 3, "a", cfg, NoError) == Start(p, cfg.enc);
    BadContent(s, "> x", cfg);
  }

  lemma SpacedX(s: CString, cfg: Config) returns (v: Bytes)
    requires s == "<a> x"
    ensures var p := if cfg.condense then 4 else 3;
      && ParseText(s, p, false, cfg, NoError) == NodeResult(Text(v, false), Pos(5), NoError)
      && TextMarks(s, p, false, cfg, NoError) == Start(p, cfg.enc)
  {
    v := if cfg.condense then "x" else " x";
    SkipNone(s, 4, cfg.enc);
    HasMeans(s, 3, "<![CDATA[", 0);
    HasMeans(s, 4, "<![CDATA[", 0);
    HasMeans(s, 3, "<", 0);
    HasMeans(s, 4, "<", 0);
    assert CharAt(s, 3, cfg.enc) == Character(" ", Pos(4)) && CharAt(s, 4, cfg.enc) == Character("x", Pos(5));
    assert [] + "x" == "x" && [] + " " == " " && " " + "x" == " x";
    assert ReadKeep(s, 5, "<", cfg.enc, " x") == TextResult(" x", Pos(6));
    assert ReadCondensed(s, 5, "<", cfg.enc, "x", false) == TextResult("x", Pos(6));
    hide SkipFrom, CharAt;
    assert ReadKeep(s, 4, "<", cfg.enc, " ") == TextResult(" x", Pos(6));
    assert ReadKeep(s, 3, "<", cfg.enc, []) == TextResult(" x", Pos(6));
    assert ReadCondensed(s, 4, "<", cfg.enc, [], false) == TextResult("x", Pos(6));
  }
}
