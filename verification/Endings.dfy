/**
 When a parse ends. The loop of `Stamp` stays for ever at a byte 0xEF that is one of the last two of
 the input and is read as a character in UTF-8 mode, so a parse that calls it for a later position
 never returns, whatever its own loops do.
 */
module Endings {
  import opened CStrings
  import opened Utf8
  import opened Scan
  import opened Entities
  import opened Text
  import opened Trees
  import opened Location
  import opened Parser
  import opened Marks
  import opened Printing
  import opened Bounds
  import opened RoundTrip
  import opened Condensing

  /** Every call of `Stamp` in the parse of a document ends. */
  predicate ParseEnds(s: CString, tab: int, cfg: Config) {
    Ends(s, tab, FreshTrack(), DocumentMarks(s, cfg))
  }

  /** The encoding changes at most once, from none declared to one. */
  lemma {:induction false} PhasedLoop(s: CString, p: nat, cfg: Config, err: Error)
    requires p <= |s|
    ensures Phased(DocumentLoopMarks(s, p, cfg, err))
    ensures !cfg.enc.Undeclared? ==> MarksIn(s, cfg.enc, DocumentLoopMarks(s, p, cfg, err))
    decreases |s| - p
  {
    hide NodeMarks, ParseNode, SkipFrom;
    if p < |s| && s[p] == '<' {
      var n := ParseNode(s, p, cfg, err);
      var cfg' := cfg.(enc := EncodingAfter(cfg.enc, n.node));
      if n.p.Pos? && n.p.i < |s| { PhasedLoop(s, SkipFrom(s, n.p.i, cfg'.enc), cfg', n.err); }
    }
  }

  lemma PhasedDocument(s: CString, cfg: Config)
    ensures Phased(DocumentMarks(s, cfg))
  {
    hide DocumentLoopMarks, SkipFrom, Phased;
    if s == [] {
      PhasedLoop(s, 0, cfg, NoError);
      assert Phased([]) by { EmptyPhased(); }
    } else {
      var enc := if cfg.enc.Undeclared? && Has(s, 0, ByteOrderMark()) then Utf8 else cfg.enc;
      PhasedLoop(s, SkipFrom(s, 0, enc), cfg.(enc := enc), NoError);
    }
  }

  lemma EmptyPhased()
    ensures Phased([])
  {
  }

  /** A parse ends if and only if positions are not tracked, or no 0xEF with fewer than two bytes
      after it is a character in front of the furthest position that is called in UTF-8 mode. */
  lemma ParseEndsIff(s: CString, tab: int, cfg: Config)
    ensures ParseEnds(s, tab, cfg) <==> tab < 1 || !Overrun(s, DocumentMarks(s, cfg), 0)
  {
    hide Ends, Overrun, DocumentMarks, Within, Phased;
    PhasedDocument(s, cfg);
    EndsIff(s, tab, FreshTrack(), DocumentMarks(s, cfg));
  }

  /** What a caller can see at once: the encoding is declared as another, or the last two bytes are
      not 0xEF, or all characters are complete. */
  lemma ParseEndsIfClean(s: CString, tab: int, cfg: Config)
    requires cfg.enc.Legacy? || Complete(s, Utf8) || forall i | 0 <= i < |s| <= i + 2 :: s[i] as int != 0xEF
    ensures ParseEnds(s, tab, cfg) && !Overrun(s, DocumentMarks(s, cfg), 0)
  {
    hide DocumentMarks, Blocked, DocumentLoopMarks, Complete;
    var marks := DocumentMarks(s, cfg);
    var p, far := Furthest(marks, false), Furthest(marks, true);
    if cfg.enc.Legacy? {
      LegacyMarks(s, cfg);
      NoneOther(marks, false);
      NotBlockedAtOnce(s, Utf8, p);
    } else if Complete(s, Utf8) {
      CompleteIsNotBlocked(s, Utf8, p, far);
    } else {
      NoShortLead(s, Utf8, p, far);
    }
    ParseEndsIff(s, tab, cfg);
  }

  lemma LegacyMarks(s: CString, cfg: Config)
    requires cfg.enc.Legacy?
    ensures forall m <- DocumentMarks(s, cfg) :: m.enc.Utf8? == false
  {
    hide DocumentLoopMarks, SkipFrom;
    if s != [] { PhasedLoop(s, SkipFrom(s, 0, Legacy), cfg, NoError); }
  }

  /** An attribute value without quotes that ends in such a byte, followed by a slash or a quote. */
  function CutValue(c: Byte): (s: CString)
    requires c in "/\'\""
    ensures |s| == 7 && s[0] == '<' && s[1] == 'a' && s[2] == ' ' && s[3] == 'b' && s[4] == '='
    ensures s[5] as int == 0xEF && s[6] == c
  {
    "<a b=" + [ByteOf(0xEF), c]
  }

  /** Every byte but the last of these texts is a character or a short lead. */
  lemma CutIsBlocked(c: Byte, now: nat)
    requires c in "/\'\"" && now > 5
    ensures Blocked(CutValue(c), Utf8, 0, now)
  {
    hide CutValue;
    var s := CutValue(c);
    assert IsShortLead(s, Utf8, 5);
    assert OnBoundary(s, Utf8, 4, 5) && OnBoundary(s, Utf8, 3, 5);
    assert OnBoundary(s, Utf8, 2, 5) && OnBoundary(s, Utf8, 1, 5) && OnBoundary(s, Utf8, 0, 5);
  }

  lemma CutAttribute(c: Byte, condense: bool)
    requires c in "/\'\""
    ensures var s, cfg, e := CutValue(c), Config(Utf8, condense), if c == '/' then Pos(6) else Null;
      && ParseAttribute(s, 3, cfg, NoError)
         == AttributeResult(Attribute("b", s[5..6]), e, if c == '/' then NoError else ReadingAttributes)
      && AttributeMarks(s, 3, cfg, true)
         == Start(3, Utf8) + if c == '/' then [] else ErrorAt(Pos(6), Utf8, true)
  {
    hide CutValue;
    var s, cfg := CutValue(c), Config(Utf8, condense);
    SkipNone(s, 3, Utf8);
    SkipNone(s, 4, Utf8);
    assert SkipFrom(s, 5, Utf8) == 5;
    assert NameEnd(s, 4) == 4 && NameAt(s, 3) == Name("b", Pos(4));
    assert UnquotedEnd(s, 6) == 6;
    assert UnquotedEnd(s, 5) == 6;
  }

  lemma CutLoop(c: Byte, condense: bool)
    requires c in "/\'\""
    ensures var s, cfg := CutValue(c), Config(Utf8, condense);
      && AttributeLoop(s, 2, "a", [], cfg, NoError).p == Null
      && LoopMarks(s, 2, "a", [], cfg, NoError)
         == Start(3, Utf8) + ErrorAt(Pos(if c == '/' then 7 else 6), Utf8, true)
  {
    hide CutValue, ParseAttribute, AttributeMarks, SkipFrom;
    var s, cfg := CutValue(c), Config(Utf8, condense);
    CutAttribute(c, condense);
    SkipSpace(s, 2, Utf8);
    SkipNone(s, 3, Utf8);
    if c == '/' {
      SkipNone(s, 6, Utf8);
      assert IndexOf([], "b") == 0;
      var found := SetAttribute([], "b", s[5..6]);
      assert LoopMarks(s, 6, "a", found, cfg, NoError) == ErrorAt(Pos(7), Utf8, true);
      assert AttributeLoop(s, 6, "a", found, cfg, NoError).p == Null;
    }
  }

  /** The parse of such a text never ends in UTF-8 mode, although the parser's own loops do. */
  lemma CutValueNeverEnds(c: Byte, tab: int, condense: bool)
    requires c in "/\'\"" && tab >= 1
    ensures !ParseEnds(CutValue(c), tab, Config(Utf8, condense))
    ensures ParseDocument(CutValue(c), Config(Utf8, condense)).p == Null
  {
    hide CutValue, AttributeLoop, LoopMarks, SkipFrom, Blocked, Ends, Matches;
    var s, cfg := CutValue(c), Config(Utf8, condense);
    SkipNone(s, 0, Utf8);
    SkipNone(s, 1, Utf8);
    SecondByte(s, 0);
    assert NameEnd(s, 2) == 2 && NameAt(s, 1) == Name("a", Pos(2));
    CutLoop(c, condense);
    var marks := Start(0, Utf8) + (Start(3, Utf8) + ErrorAt(Pos(if c == '/' then 7 else 6), Utf8, true));
    assert Identify(s, 0) == ElementKind;
    assert ElementMarks(s, 0, cfg, NoError) == marks;
    assert NodeMarks(s, 0, cfg, NoError) == marks;
    assert ParseNode(s, 0, cfg, NoError).p == Null;
    assert DocumentLoopMarks(s, 0, cfg, NoError) == marks + [];
    FurthestAtLeast(marks, 2, true);
    NoneOther(marks, true);
    CutIsBlocked(c, Furthest(marks, true));
    assert DocumentMarks(s, cfg) == marks && Overrun(s, marks, 0);
    ParseEndsIff(s, tab, cfg);
  }

  // ----- a parse without an error ends -----

  /** Every call is three bytes before the end of the input, or before `e`. */
  predicate Early(s: CString, marks: seq<Mark>, e: nat) {
    forall m <- marks :: m.now + 3 <= |s| || m.now < e
  }

  lemma BothEarly(s: CString, a: seq<Mark>, b: seq<Mark>, e: nat)
    requires Early(s, a, e) && Early(s, b, e)
    ensures Early(s, a + b, e)
  {
  }

  lemma EarlierStill(s: CString, marks: seq<Mark>, e: nat, f: nat)
    requires Early(s, marks, e) && (e <= f || e + 2 <= |s|)
    ensures Early(s, marks, f)
  {
  }

  /** An attribute that is read has a name and an equals sign, and a value or a quote. */
  lemma AttributeEarly(s: CString, p: nat, cfg: Config)
    requires p <= |s| && ParseAttribute(s, p, cfg, NoError).err.NoError?
    ensures Early(s, AttributeMarks(s, p, cfg, true), 0)
  {
    hide TextAt, UnquotedEnd, SkipFrom, NameAt;
  }

  lemma FieldEarly(s: CString, p: nat, cfg: Config)
    requires p < |s| && !FieldAt(s, p).NoField? && SkipFrom(s, p, cfg.enc) == p
    ensures Early(s, AttributeMarks(s, p, cfg, false), 0)
  {
    hide FieldAt, SkipFrom, AttributeMarks, MarksIn, Early;
    FieldIsLong(s, p);
    FieldMarks(s, p, cfg);
    StartEarly(s, p, cfg.enc, 0);
  }

  lemma FieldIsLong(s: CString, p: nat)
    requires p < |s| && !FieldAt(s, p).NoField?
    ensures p + 7 <= |s|
  {
    hide Matches;
    match FieldAt(s, p)
    case VersionField => OpenIsLong(s, p, VERSION, true);
    case EncodingField => OpenIsLong(s, p, ENCODING, true);
    case StandaloneField => OpenIsLong(s, p, STANDALONE, true);
    case NoField =>
  }

  /** An attribute without a document stamps its start only. */
  lemma FieldMarks(s: CString, p: nat, cfg: Config)
    requires p < |s| && SkipFrom(s, p, cfg.enc) == p
    ensures AttributeMarks(s, p, cfg, false) == Start(p, cfg.enc)
  {
    hide SkipFrom, NameAt;
  }

  lemma SkipAgain(s: CString, p: nat, enc: Encoding)
    requires p <= |s|
    ensures SkipFrom(s, SkipFrom(s, p, enc), enc) == SkipFrom(s, p, enc)
  {
  }

  lemma {:induction false} DeclarationEarly(s: CString, p: nat, cfg: Config, err: Error)
    requires p <= |s|
    ensures Early(s, DeclarationLoopMarks(s, p, cfg, err), 0)
    decreases |s| - p
  {
    hide ParseAttribute, AttributeMarks, FieldAt, SkipFrom, JunkEnd, Early;
    assert Early(s, [], 0) by { NoneEarly(s, 0); }
    if p < |s| && s[p] != '>' {
      var q := SkipFrom(s, p, cfg.enc);
      if FieldAt(s, q).NoField? {
        JunkAdvances(s, p, cfg.enc);
        DeclarationEarly(s, JunkEnd(s, q), cfg, err);
      } else {
        SkipAgain(s, p, cfg.enc);
        assert q < |s| by { FieldInside(s, q); }
        FieldEarly(s, q, cfg);
        var a := ParseAttribute(s, q, cfg, err);
        var rest := if a.p.Pos? && a.p.i <= |s| then DeclarationLoopMarks(s, a.p.i, cfg, err) else [];
        if a.p.Pos? && a.p.i <= |s| { DeclarationEarly(s, a.p.i, cfg, err); }
        BothEarly(s, AttributeMarks(s, q, cfg, false), rest, 0);
      }
    }
  }

  lemma NoneEarly(s: CString, e: nat)
    ensures Early(s, [], e)
  {
  }

  lemma FieldInside(s: CString, p: nat)
    requires p <= |s| && !FieldAt(s, p).NoField?
    ensures p < |s|
  {
  }

  lemma StartEarly(s: CString, p: nat, enc: Encoding, e: nat)
    requires p + 3 <= |s| || p < e
    ensures Early(s, Start(p, enc), e)
  {
  }

  /** A node that is read without an error has all its calls early, unless it is an unknown one,
      which has only the one at its start. */
  lemma {:induction false} NodeEarly(s: CString, p: nat, cfg: Config)
    requires p < |s| && s[p] == '<'
    requires var r := ParseNode(s, p, cfg, NoError); r.err.NoError? && !r.p.Wild?
    ensures Early(s, NodeMarks(s, p, cfg, NoError), 0) || NodeMarks(s, p, cfg, NoError) == Start(p, cfg.enc)
    decreases |s| - p, 1
  {
    hide Early, ParseElement, ElementMarks, DeclarationLoopMarks, Has, DeclarationLoop;
    match Identify(s, p) {
      case DeclarationKind =>
        assert p + 5 <= |s| by { OpenIsLong(s, p, XML_OPEN, true); }
        StartEarly(s, p, cfg.enc, 0);
        DeclarationEarly(s, p + 5, cfg, NoError);
        BothEarly(s, Start(p, cfg.enc), DeclarationLoopMarks(s, p + 5, cfg, NoError), 0);
      case CommentKind => assert NodeMarks(s, p, cfg, NoError) == Start(p, cfg.enc);
      case CDataKind => assert NodeMarks(s, p, cfg, NoError) == Start(p, cfg.enc);
      case UnknownKind => assert NodeMarks(s, p, cfg, NoError) == Start(p, cfg.enc);
      case ElementKind => ElementEarly(s, p, cfg);
    }
  }

  lemma OpenIsLong(s: CString, p: nat, open: CString, ignoreCase: bool)
    requires Matches(s, p, open, ignoreCase)
    ensures p + |open| <= |s|
  {
  }

  lemma {:induction false} ElementEarly(s: CString, p: nat, cfg: Config)
    requires p < |s| && s[p] == '<'
    requires var r := ParseElement(s, p, cfg, NoError); r.err.NoError? && !r.p.Wild?
    ensures Early(s, ElementMarks(s, p, cfg, NoError), 0)
    decreases |s| - p, 0
  {
    hide Early, AttributeLoop, LoopMarks, NameAt, SkipFrom;
    var q := SkipWs(s, p + 1, cfg.enc);
    var n := NameAt(s, q.i);
    LoopEarly(s, n.p.i, n.name, [], cfg);
    StartEarly(s, p, cfg.enc, 0);
    BothEarly(s, Start(p, cfg.enc), LoopMarks(s, n.p.i, n.name, [], cfg, NoError), 0);
  }

  lemma {:induction false} LoopEarly(s: CString, p: nat, name: Bytes, attributes: seq<Attribute>, cfg: Config)
    requires p < |s|
    requires var r := AttributeLoop(s, p, name, attributes, cfg, NoError); r.err.NoError? && !r.p.Wild?
    ensures Early(s, LoopMarks(s, p, name, attributes, cfg, NoError), 0)
    decreases |s| - p, 5
  {
    hide Early, ParseAttribute, AttributeMarks, ParseContent, ContentMarks, SkipFrom, SetAttribute, IndexOf;
    assert Early(s, [], 0) by { NoneEarly(s, 0); }
    var q := SkipFrom(s, p, cfg.enc);
    if s[q] == '>' {
      ContentEarly(s, q + 1, name, attributes, cfg);
    } else if s[q] != '/' {
      AttributeEarly(s, q, cfg);
      var a, rest := ParseAttribute(s, q, cfg, NoError), AfterAttribute(s, q, name, attributes, cfg, NoError);
      if IndexOf(attributes, a.attribute.name) >= |attributes| {
        LoopEarly(s, a.p.i, name, SetAttribute(attributes, a.attribute.name, a.attribute.value), cfg);
      }
      BothEarly(s, AttributeMarks(s, q, cfg, true), rest, 0);
    }
  }

  lemma {:induction false} ContentEarly(s: CString, p: nat, name: Bytes, attributes: seq<Attribute>, cfg: Config)
    requires p <= |s|
    requires var r := ParseContent(s, p, name, attributes, cfg, NoError); r.err.NoError? && !r.p.Wild?
    ensures Early(s, ContentMarks(s, p, name, cfg, NoError), 0)
    decreases |s| - p, 4
  {
    hide Early, ReadValue, ValuesMarks;
    var v := ReadValue(s, p, [], cfg, NoError);
    ValuesEarly(s, p, [], cfg);
    EarlierStill(s, ValuesMarks(s, p, cfg, NoError), v.p.i, 0);
    assert ContentMarks(s, p, name, cfg, NoError) == ValuesMarks(s, p, cfg, NoError);
  }

  lemma {:induction false} ValuesEarly(s: CString, p: nat, acc: seq<Node>, cfg: Config)
    requires p <= |s|
    requires var r := ReadValue(s, p, acc, cfg, NoError); r.err.NoError? && r.p.Pos?
    ensures Early(s, ValuesMarks(s, p, cfg, NoError), ReadValue(s, p, acc, cfg, NoError).p.i)
    decreases |s| - p, 3
  {
    hide Early, ReadValue, ReadRest, ValuesMarks, RestMarks, ChildAt, ChildMarks, Matches, SkipFrom, IsBlank;
    var w, e := SkipFrom(s, p, cfg.enc), ReadValue(s, p, acc, cfg, NoError).p.i;
    if w == |s| || (s[w] == '<' && Matches(s, w, "</", false)) {
      ValueStops(s, p, acc, cfg, NoError);
      NoneEarly(s, e);
    } else {
      ValueRound(s, p, acc, cfg, NoError);
      var n := ChildAt(s, p, w, cfg, NoError);
      var acc' := if s[w] == '<' || !IsBlank(n.node.value) then acc + [n.node] else acc;
      GoesOn(s, n.p, acc', cfg, n.err);
      ChildEarly(s, p, cfg);
      ValuesEarly(s, n.p.i, acc', cfg);
      EarlierStill(s, ChildMarks(s, p, w, cfg, NoError), n.p.i, e);
      BothEarly(s, ChildMarks(s, p, w, cfg, NoError), RestMarks(s, n.p, cfg, n.err), e);
    }
  }

  lemma {:induction false} ChildEarly(s: CString, p: nat, cfg: Config)
    requires p <= |s| && SkipFrom(s, p, cfg.enc) < |s|
    requires var r := ChildAt(s, p, SkipFrom(s, p, cfg.enc), cfg, NoError); r.err.NoError? && r.p.Pos?
    ensures var w := SkipFrom(s, p, cfg.enc);
      Early(s, ChildMarks(s, p, w, cfg, NoError), ChildAt(s, p, w, cfg, NoError).p.i)
    decreases |s| - p, 2
  {
    hide ParseNode, ParseText, NodeMarks, Early;
    var w := SkipFrom(s, p, cfg.enc);
    ChildAdvances(s, p, cfg, NoError);
    if s[w] == '<' {
      NodeEarly(s, w, cfg);
      var e := ChildAt(s, p, w, cfg, NoError).p.i;
      StartEarly(s, w, cfg.enc, e);
      if Early(s, NodeMarks(s, w, cfg, NoError), 0) { EarlierStill(s, NodeMarks(s, w, cfg, NoError), 0, e); }
    } else {
      var q := if cfg.condense then w else p;
      StartEarly(s, q, cfg.enc, ChildAt(s, p, w, cfg, NoError).p.i);
      assert ChildMarks(s, p, w, cfg, NoError) == Start(q, cfg.enc);
    }
  }

  // ----- top-level nodes -----

  /** The byte before `p`, if there is one, is not 0xEF. */
  predicate AfterNoLead(s: CString, p: nat) {
    0 < p <= |s| ==> s[p - 1] as int != 0xEF
  }

  lemma {:induction false} SkipEnds(s: CString, p: nat, enc: Encoding)
    requires p <= |s| && AfterNoLead(s, p)
    ensures AfterNoLead(s, SkipFrom(s, p, enc))
    decreases |s| - p
  {
    if p < |s| {
      if enc.Utf8? && IsZeroWidth(s, p) { SkipEnds(s, p + 3, enc); }
      else if IsSpace(s[p]) { SkipEnds(s, p + 1, enc); }
    }
  }

  lemma {:induction false} DeclarationCloses(s: CString, p: nat, cfg: Config, d: Node)
    requires p <= |s| && d.Declaration?
    ensures var r := DeclarationLoop(s, p, cfg, NoError, d); r.p.Pos? ==> s[r.p.i - 1] == '>'
    decreases |s| - p
  {
    hide ParseAttribute, FieldAt, SkipFrom, JunkEnd, SetField;
    if p < |s| && s[p] != '>' {
      var q := SkipFrom(s, p, cfg.enc);
      var f, a := FieldAt(s, q), ParseAttribute(s, q, cfg, NoError);
      if f.NoField? {
        JunkAdvances(s, p, cfg.enc);
        DeclarationCloses(s, JunkEnd(s, q), cfg, d);
      } else if a.p.Pos? && a.p.i <= |s| {
        DeclarationCloses(s, a.p.i, cfg, SetField(d, f, a.attribute.value));
      }
    }
  }

  lemma {:induction false} ElementCloses(s: CString, p: nat, name: Bytes, attributes: seq<Attribute>, cfg: Config,
                                         err: Error)
    requires p <= |s|
    ensures var r := AttributeLoop(s, p, name, attributes, cfg, err); r.p.Pos? && r.p.i < |s| ==> s[r.p.i - 1] == '>'
    decreases |s| - p
  {
    hide ParseAttribute, ParseContent, SkipFrom, SetAttribute, IndexOf;
    if p < |s| {
      var q := SkipFrom(s, p, cfg.enc);
      if q < |s| && s[q] == '>' {
        ContentCloses(s, q + 1, name, attributes, cfg, err);
      } else if q < |s| && s[q] != '/' {
        var a := ParseAttribute(s, q, cfg, err);
        if a.p.Pos? && a.p.i < |s| && IndexOf(attributes, a.attribute.name) >= |attributes| {
          ElementCloses(s, a.p.i, name, SetAttribute(attributes, a.attribute.name, a.attribute.value), cfg, a.err);
        }
      }
    }
  }

  lemma ContentCloses(s: CString, p: nat, name: Bytes, attributes: seq<Attribute>, cfg: Config, err: Error)
    requires p <= |s|
    ensures var r := ParseContent(s, p, name, attributes, cfg, err); r.p.Pos? ==> s[r.p.i - 1] == '>'
  {
    hide ReadValue, Has;
    var v := ReadValue(s, p, [], cfg, err);
    if v.p.Pos? && v.p.i < |s| && Has(s, v.p.i, EndTag(name)) {
      HasAt(s, v.p.i, EndTag(name), |EndTag(name)| - 1);
    }
  }

  lemma RawCloses(s: CString, e: nat, close: CString)
    requires e < |s| && Matches(s, e, close, false) && (close == COMMENT_CLOSE || close == CDATA_CLOSE)
    ensures e + 3 <= |s| && s[e + 2] == '>'
  {
    HasAt(s, e, close, 2);
  }

  /** A node that does not end with the input ends with a closing bracket. */
  lemma NodeCloses(s: CString, p: nat, cfg: Config)
    requires p < |s| && s[p] == '<'
    ensures var r := ParseNode(s, p, cfg, NoError); r.p.Pos? && r.p.i < |s| ==> s[r.p.i - 1] == '>'
  {
    hide FindTag, TextAt, Matches, AttributeLoop, NameAt, DeclarationLoop, FindByte;
    match Identify(s, p) {
      case DeclarationKind => if Matches(s, p, XML_OPEN, true) { DeclarationIsClosed(s, p, cfg); }
      case CommentKind =>
        OpenIsLong(s, p, COMMENT_OPEN, false);
        var e := FindTag(s, p + 4, COMMENT_CLOSE);
        if e < |s| { RawCloses(s, e, COMMENT_CLOSE); }
      case CDataKind =>
        OpenIsLong(s, p, CDATA_OPEN, false);
        var e := FindTag(s, p + 9, CDATA_CLOSE);
        if e < |s| {
          RawCloses(s, e, CDATA_CLOSE);
          CDataEnd(s, e, cfg);
        }
      case UnknownKind =>
      case ElementKind =>
        var q := SkipWs(s, p + 1, cfg.enc);
        if q.Pos? {
          var n := NameAt(s, q.i);
          if n.p.Pos? { ElementCloses(s, n.p.i, n.name, [], cfg, NoError); }
        }
    }
  }

  lemma DeclarationIsClosed(s: CString, p: nat, cfg: Config)
    requires p < |s| && s[p] == '<' && Matches(s, p, XML_OPEN, true)
    ensures var r := ParseDeclaration(s, p, cfg, NoError); r.p.Pos? ==> s[r.p.i - 1] == '>'
  {
    hide DeclarationLoop, Matches;
    OpenIsLong(s, p, XML_OPEN, true);
    DeclarationCloses(s, p + 5, cfg, Declaration([], [], []));
  }

  /** Calls inside the last two bytes stand behind a byte that is no lead. */
  predicate Harmless(s: CString, marks: seq<Mark>) {
    forall m <- marks :: m.now + 2 <= |s| || (m.now + 1 == |s| && AfterNoLead(s, m.now))
  }

  lemma NodeHarmless(s: CString, p: nat, cfg: Config)
    requires p < |s| && s[p] == '<' && AfterNoLead(s, p)
    requires var r := ParseNode(s, p, cfg, NoError); r.err.NoError? && !r.p.Wild?
    ensures Harmless(s, NodeMarks(s, p, cfg, NoError))
  {
    hide ParseNode, NodeMarks, AfterNoLead;
    NodeEarly(s, p, cfg);
  }

  lemma BothHarmless(s: CString, a: seq<Mark>, b: seq<Mark>)
    requires Harmless(s, a) && Harmless(s, b)
    ensures Harmless(s, a + b)
  {
  }

  lemma {:induction false} LoopHarmless(s: CString, p: nat, acc: seq<Node>, cfg: Config)
    requires p <= |s| && AfterNoLead(s, p)
    requires var r := DocumentLoop(s, p, acc, cfg, NoError); r.err.NoError? && !r.p.Wild?
    ensures Harmless(s, DocumentLoopMarks(s, p, cfg, NoError))
    decreases |s| - p
  {
    hide ParseNode, NodeMarks, SkipFrom, EncodingAfter, AfterNoLead, DocumentLoop, DocumentLoopMarks;
    if p == |s| || s[p] != '<' {
      DocumentStops(s, p, acc, cfg, NoError);
    } else {
      DocumentRound(s, p, acc, cfg, NoError);
      var n := ParseNode(s, p, cfg, NoError);
      var cfg' := cfg.(enc := EncodingAfter(cfg.enc, n.node));
      NodeHarmless(s, p, cfg);
      if n.p.Pos? && n.p.i < |s| {
        NodeCloses(s, p, cfg);
        assert AfterNoLead(s, n.p.i) by { BracketIsNoLead(s, n.p.i); }
        SkipEnds(s, n.p.i, cfg'.enc);
        LoopHarmless(s, SkipFrom(s, n.p.i, cfg'.enc), acc + [n.node], cfg');
      }
      BothHarmless(s, NodeMarks(s, p, cfg, NoError), AfterNode(s, n, cfg'));
    }
  }

  lemma BracketIsNoLead(s: CString, p: nat)
    requires 0 < p <= |s| && s[p - 1] == '>'
    ensures AfterNoLead(s, p)
  {
  }

  lemma {:induction false} FurthestIsOne(marks: seq<Mark>, utf8: bool)
    ensures Furthest(marks, utf8) > 0 ==> exists m <- marks :: m.now == Furthest(marks, utf8)
  {
    if marks != [] {
      FurthestIsOne(marks[1..], utf8);
      assert marks[0] in marks;
    }
  }

  /** If a document would be read without an error, and no pointer leaves the input, then its parse
      ends. */
  lemma ReadEnds(s: CString, tab: int, cfg: Config)
    requires var r := ParseDocument(s, cfg); r.err.NoError? && !r.p.Wild?
    ensures ParseEnds(s, tab, cfg) && !Overrun(s, DocumentMarks(s, cfg), 0)
  {
    hide DocumentLoop, DocumentLoopMarks, Ends, OnBoundary, SkipFrom, Has;
    var enc := if cfg.enc.Undeclared? && Has(s, 0, ByteOrderMark()) then Utf8 else cfg.enc;
    SkipEnds(s, 0, enc);
    LoopHarmless(s, SkipFrom(s, 0, enc), [], cfg.(enc := enc));
    var marks := DocumentMarks(s, cfg);
    FurthestIsOne(marks, true);
    ParseEndsIff(s, tab, cfg);
  }

  /** So the parse of a printed document that is read back ends. */
  lemma PrintedEnds(nodes: seq<Node>, st: Style, tab: int, cfg: Config)
    requires nodes != [] && DocumentOk(nodes, 0, cfg) && StyleOk(st)
    requires forall k | 0 <= k < |nodes| :: LaidOut(nodes[k], Loose(st, cfg))
    ensures '\0' !in PrintFrom(nodes, 0, 0, st)
    ensures ParseEnds(PrintFrom(nodes, 0, 0, st), tab, cfg)
  {
    hide PrintFrom, ParseDocument, ParseEnds, DocumentOk, StyleOk, LaidOut, Loose, Overrun, DocumentMarks;
    DocumentRoundTrip(nodes, st, cfg);
    ReadEnds(PrintFrom(nodes, 0, 0, st), tab, cfg);
  }
}
