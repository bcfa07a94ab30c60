/**
 The parser as the source runs it: loops that move a position forward, append to a value,
 record the first error in the document and stamp positions for rows and columns. Every method
 is proved against the function of the same name in `Parser`, and against the one in `Marks`
 that lists the positions it stamps; it is called where stamping them ends.
 */
module Document {
  import opened CStrings
  import opened Scan
  import opened Entities
  import opened Text
  import opened Trees
  import opened Location
  import opened Parser
  import opened Marks
  import opened Endings
  import opened EndOfLine

  class XmlDocument {
    var children: seq<Node>
    var error: Error
    var errorLocation: Place
    var useMicrosoftBOM: bool
    const tabsize: int
    /** The global switch `condenseWhiteSpace`. */
    const condense: bool

    constructor (tabsize: int, condense: bool)
      ensures children == [] && error == NoError && errorLocation == At(0, 0) && !useMicrosoftBOM
      ensures this.tabsize == tabsize && this.condense == condense
    {
      children, error, errorLocation, useMicrosoftBOM := [], NoError, At(0, 0), false;
      this.tabsize, this.condense := tabsize, condense;
    }

    /** The cursor of a parse, and the place of the error if there is one. */
    ghost function TrackOf(data: ParsingData): Track
      reads this`error, this`errorLocation, data
    {
      Track(data.GetCursor(), if error == NoError then Nowhere else errorLocation)
    }

    /** The calls of `Stamp` to come are on this input, and all of them end. */
    ghost predicate Ready(data: ParsingData, s: CString, marks: seq<Mark>)
      reads this`error, this`errorLocation, data
    {
      data.s == s && Within(s, marks) && Ends(s, data.tabsize, TrackOf(data), marks)
    }

    /** The calls of `Stamp` have been made, in this order and no others. */
    twostate predicate Stamped(data: ParsingData, marks: seq<Mark>)
      reads this`error, this`errorLocation, data
    {
      && Within(data.s, marks) && TrackOf(data) == Follow(data.s, data.tabsize, old(TrackOf(data)), marks)
      && (error == NoError ==> old(error) == NoError && errorLocation == old(errorLocation))
    }

    /** The calls of `a` come first, then those of `b`. */
    lemma ReadyFor(data: ParsingData, a: seq<Mark>, b: seq<Mark>)
      requires Ready(data, data.s, a + b)
      ensures Ready(data, data.s, a) && Within(data.s, b)
      ensures var t := Follow(data.s, data.tabsize, TrackOf(data), a);
        Ends(data.s, data.tabsize, t, b)
        && Follow(data.s, data.tabsize, TrackOf(data), a + b) == Follow(data.s, data.tabsize, t, b)
    {
      WithinBoth(data.s, a, b);
      FollowSplits(data.s, data.tabsize, TrackOf(data), a, b);
    }

    /** The calls `rest` still to come lead to where all of them lead from the start, and end. */
    ghost predicate OnTrack(data: ParsingData, rest: seq<Mark>, start: Track, all: seq<Mark>)
      reads this`error, this`errorLocation, data
    {
      Leads(data.s, data.tabsize, TrackOf(data), rest, start, all)
    }

    lemma Before(data: ParsingData, a: seq<Mark>, b: seq<Mark>, start: Track, all: seq<Mark>)
      requires OnTrack(data, a + b, start, all)
      ensures Ready(data, data.s, a)
      ensures Leads(data.s, data.tabsize, Follow(data.s, data.tabsize, TrackOf(data), a), b, start, all)
    {
      hide Leads, Follow, Ends;
      LeadsOn(data.s, data.tabsize, TrackOf(data), a, b, start, all);
    }

    lemma Last(data: ParsingData, rest: seq<Mark>, start: Track, all: seq<Mark>)
      requires OnTrack(data, rest, start, all)
      ensures Ready(data, data.s, rest) && Within(data.s, all)
      ensures Follow(data.s, data.tabsize, TrackOf(data), rest) == Follow(data.s, data.tabsize, start, all)
      ensures rest == [] ==> TrackOf(data) == Follow(data.s, data.tabsize, start, all)
    {
      hide Leads, Follow, Ends;
      LeadsHere(data.s, data.tabsize, TrackOf(data), rest, start, all);
    }

    method ClearError()
      modifies this`error, this`errorLocation
      ensures error == NoError && errorLocation == At(0, 0)
    {
      error, errorLocation := NoError, At(0, 0);
    }

    /** `SetError` without a position. */
    method SetError(e: Error)
      modifies this`error, this`errorLocation
      ensures error == Raise(old(error), e)
      ensures errorLocation == if old(error) == NoError then Nowhere else old(errorLocation)
    {
      if error != NoError { return; }
      error, errorLocation := e, Nowhere;
    }

    /** `SetError` with a position, unless that is null. */
    method SetErrorAt(e: Error, pError: Ptr, data: ParsingData, enc: Encoding)
      requires Ready(data, data.s, ErrorAt(pError, enc, error.NoError?)) && e != NoError
      modifies this`error, this`errorLocation, data
      ensures error == Raise(old(error), e)
      ensures Stamped(data, ErrorAt(pError, enc, old(error).NoError?))
    {
      hide Blocked, Walk;
      if error != NoError { return; }
      error, errorLocation := e, Nowhere;
      if pError.Pos? {
        FollowOne(data.s, data.tabsize, old(TrackOf(data)), Mark(pError.i, enc, true));
        data.Stamp(pError.i, enc);
        errorLocation := At(data.row, data.col);
      }
    }

    /** The errors of an attribute, which are recorded in the document it belongs to, if any. */
    method SetAttributeError(attached: bool, pError: Ptr, data: ParsingData, enc: Encoding)
      requires Ready(data, data.s, ErrorAt(pError, enc, attached && error.NoError?))
      modifies this`error, this`errorLocation, data
      ensures error == if attached then Raise(old(error), ReadingAttributes) else old(error)
      ensures Stamped(data, ErrorAt(pError, enc, attached && old(error).NoError?))
    {
      if attached { SetErrorAt(ReadingAttributes, pError, data, enc); }
    }

    /** The position where a node or an attribute starts. */
    method StampStart(p: nat, data: ParsingData, enc: Encoding)
      requires Ready(data, data.s, Start(p, enc))
      modifies data
      ensures Stamped(data, Start(p, enc))
    {
      hide Blocked, Walk;
      FollowOne(data.s, data.tabsize, TrackOf(data), Mark(p, enc, false));
      data.Stamp(p, enc);
    }

    /** The loop of `TiXmlAttribute::Parse` over a value without quotes. */
    method ParseUnquoted(s: CString, start: nat, name: Bytes, data: ParsingData, enc: Encoding, attached: bool)
      returns (a: Attribute, p: Ptr)
      requires start < |s| && s[start] != '\'' && s[start] != '\"'
      requires Ready(data, s, UnquotedMarks(s, start, enc, attached && error.NoError?))
      modifies this`error, this`errorLocation, data
      ensures var e := UnquotedEnd(s, start);
        && a == Attribute(name, s[start..e])
        && p == (if e < |s| && !EndsUnquoted(s[e]) then Null else Pos(e))
        && error == if attached && p.Null? then Raise(old(error), ReadingAttributes) else old(error)
      ensures Stamped(data, UnquotedMarks(s, start, enc, attached && old(error).NoError?))
    {
      hide Follow, Ends;
      FollowNone(s, data.tabsize, TrackOf(data));
      var value, q := [], start;
      while q < |s| && !IsSpace(s[q]) && s[q] != '/' && s[q] != '>'
        invariant start <= q <= |s| && value == s[start..q]
        invariant UnquotedEnd(s, q) == UnquotedEnd(s, start)
        invariant error == old(error) && TrackOf(data) == old(TrackOf(data))
      {
        assert s[start..q + 1] == s[start..q] + [s[q]];
        if s[q] == '\'' || s[q] == '\"' {
          SetAttributeError(attached, Pos(q), data, enc);
          return Attribute(name, value), Null;
        }
        value := value + [s[q]];
        q := q + 1;
      }
      return Attribute(name, value), Pos(q);
    }

    method ParseAttributeValue(s: CString, start: nat, name: Bytes, data: ParsingData, enc: Encoding, attached: bool)
      returns (a: Attribute, p: Ptr)
      requires start < |s|
      requires Ready(data, s, ValueMarks(s, start, Config(enc, condense), attached && error.NoError?))
      modifies this`error, this`errorLocation, data
      ensures var r := Parser.ParseAttributeValue(s, start, name, Config(enc, condense), old(error));
        a == r.attribute && p == r.p && error == if attached then r.err else old(error)
      ensures Stamped(data, ValueMarks(s, start, Config(enc, condense), attached && old(error).NoError?))
    {
      hide TextAt, UnquotedEnd, Follow, Ends, UnquotedMarks, SkipFrom;
      FollowNone(s, data.tabsize, TrackOf(data));
      a := Attribute(name, []);
      p := SkipWhiteSpace(s, start + 1, enc);
      if p.Null? || p.i == |s| {
        SetAttributeError(attached, p, data, enc);
        return a, Null;
      }
      var value;
      if s[p.i] == '\'' {
        value, p := ReadText(s, p.i + 1, false, "\'", enc, condense);
      } else if s[p.i] == '\"' {
        value, p := ReadText(s, p.i + 1, false, "\"", enc, condense);
      } else {
        a, p := ParseUnquoted(s, p.i, name, data, enc, attached);
        return;
      }
      a := Attribute(name, value);
    }

    /** `TiXmlAttribute::Parse`. Without a document attached to the attribute, an error is not
        recorded. */
    method ParseAttribute(s: CString, start: nat, data: ParsingData, enc: Encoding, attached: bool)
      returns (a: Attribute, p: Ptr)
      requires start <= |s|
      requires Ready(data, s, AttributeMarks(s, start, Config(enc, condense), attached && error.NoError?))
      modifies this`error, this`errorLocation, data
      ensures var r := Parser.ParseAttribute(s, start, Config(enc, condense), old(error));
        a == r.attribute && p == r.p && error == if attached then r.err else old(error)
      ensures Stamped(data, AttributeMarks(s, start, Config(enc, condense), attached && old(error).NoError?))
    {
      hide Parser.ParseAttributeValue, ValueMarks, Follow, Ends, NameAt, SkipFrom;
      FollowNone(s, data.tabsize, TrackOf(data));
      a := Attribute([], []);
      p := SkipWhiteSpace(s, start, enc);
      if p.Null? || p.i == |s| { return a, Null; }
      ghost var all := AttributeMarks(s, start, Config(enc, condense), attached && error.NoError?);
      assert all == Start(p.i, enc) + all[1..];
      ReadyFor(data, Start(p.i, enc), all[1..]);
      StampStart(p.i, data, enc);
      var pErr := p;
      var n := ReadName(s, p.i);
      a := Attribute(n.name, []);
      if n.p.Null? || n.p.i == |s| {
        SetAttributeError(attached, pErr, data, enc);
        return a, Null;
      }
      p := SkipWhiteSpace(s, n.p.i, enc);
      if p.Null? || p.i == |s| || s[p.i] != '=' {
        SetAttributeError(attached, p, data, enc);
        return a, Null;
      }
      a, p := ParseAttributeValue(s, p.i, n.name, data, enc, attached);
    }

    method ParseText(s: CString, start: nat, cdata: bool, data: ParsingData, enc: Encoding)
      returns (node: Node, p: Ptr)
      requires start <= |s| && Ready(data, s, TextMarks(s, start, cdata, Config(enc, condense), error))
      modifies this`error, this`errorLocation, data
      ensures NodeResult(node, p, error) == Parser.ParseText(s, start, cdata, Config(enc, condense), old(error))
      ensures Stamped(data, TextMarks(s, start, cdata, Config(enc, condense), old(error)))
    {
      hide TextAt, FindTag, Follow, Ends;
      ghost var all := TextMarks(s, start, cdata, Config(enc, condense), error);
      assert all == Start(start, enc) + all[1..];
      ReadyFor(data, Start(start, enc), all[1..]);
      StampStart(start, data, enc);
      FollowNone(s, data.tabsize, TrackOf(data));
      var value;
      var begins := StringEqual(s, start, CDATA_OPEN, false);
      if cdata || begins {
        if !begins {
          SetErrorAt(ParsingCData, Pos(start), data, enc);
          return Text([], true), Null;
        }
        var end := ReadRaw(s, start + 9, CDATA_CLOSE);
        var dummy;
        dummy, p := ReadText(s, end, false, CDATA_CLOSE, enc, condense);
        return Text(s[start + 9..end], true), p;
      }
      value, p := ReadText(s, start, true, "<", enc, condense);
      return Text(value, false), if p.Pos? then Pos(p.i - 1) else p;
    }

    /** The loops that copy bytes unchanged up to a closing tag or the end of the input. */
    static method ReadRaw(s: CString, start: nat, tag: CString) returns (q: nat)
      requires start <= |s|
      ensures q == FindTag(s, start, tag)
    {
      q := start;
      while q < |s|
        invariant start <= q <= |s| && FindTag(s, q, tag) == FindTag(s, start, tag)
      {
        var stop := StringEqual(s, q, tag, false);
        if stop { break; }
        q := q + 1;
      }
    }

    method ParseComment(s: CString, start: nat, data: ParsingData, enc: Encoding) returns (node: Node, p: Ptr)
      requires start < |s| && s[start] == '<' && Ready(data, s, CommentMarks(s, start, Config(enc, condense), error))
      modifies this`error, this`errorLocation, data
      ensures NodeResult(node, p, error) == Parser.ParseComment(s, start, old(error))
      ensures Stamped(data, CommentMarks(s, start, Config(enc, condense), old(error)))
    {
      hide FindTag, Follow, Ends;
      ghost var all := CommentMarks(s, start, Config(enc, condense), error);
      assert all == Start(start, enc) + all[1..];
      ReadyFor(data, Start(start, enc), all[1..]);
      StampStart(start, data, enc);
      FollowNone(s, data.tabsize, TrackOf(data));
      var begins := StringEqual(s, start, COMMENT_OPEN, false);
      if !begins {
        SetErrorAt(ParsingComment, Pos(start), data, enc);
        return Comment([]), Null;
      }
      var end := ReadRaw(s, start + 4, COMMENT_CLOSE);
      return Comment(s[start + 4..end]), Forward(s, end, 3);
    }

    method ParseUnknown(s: CString, start: nat, data: ParsingData, enc: Encoding) returns (node: Node, p: Ptr)
      requires start < |s| && s[start] == '<' && Ready(data, s, Start(start, enc))
      modifies data
      ensures NodeResult(node, p, error) == Parser.ParseUnknown(s, start, error)
      ensures Stamped(data, Start(start, enc))
    {
      hide Follow, Ends;
      StampStart(start, data, enc);
      var q := start + 1;
      while q < |s| && s[q] != '>'
        invariant start < q <= |s| && FindByte(s, q, '>') == FindByte(s, start + 1, '>')
        invariant Stamped(data, Start(start, enc))
      {
        q := q + 1;
      }
      return Unknown(s[start + 1..q]), Pos(if q < |s| then q + 1 else q);
    }

    static method SkipJunk(s: CString, start: nat) returns (q: nat)
      requires start <= |s|
      ensures q == JunkEnd(s, start)
    {
      q := start;
      while q < |s| && s[q] != '>' && !IsSpace(s[q])
        invariant start <= q <= |s| && JunkEnd(s, q) == JunkEnd(s, start)
      {
        q := q + 1;
      }
    }

    method ReadField(s: CString, start: nat) returns (f: Field)
      requires start <= |s|
      ensures f == FieldAt(s, start)
    {
      var found := StringEqual(s, start, VERSION, true);
      if found { return VersionField; }
      found := StringEqual(s, start, ENCODING, true);
      if found { return EncodingField; }
      found := StringEqual(s, start, STANDALONE, true);
      return if found then StandaloneField else NoField;
    }

    method ParseDeclaration(s: CString, start: nat, data: ParsingData, enc: Encoding) returns (node: Node, p: Ptr)
      requires start < |s| && s[start] == '<'
      requires Ready(data, s, DeclarationMarks(s, start, Config(enc, condense), error))
      modifies this`error, this`errorLocation, data
      ensures NodeResult(node, p, error) == Parser.ParseDeclaration(s, start, Config(enc, condense), old(error))
      ensures Stamped(data, DeclarationMarks(s, start, Config(enc, condense), old(error)))
    {
      hide Parser.ParseAttribute, FieldAt, SkipFrom, JunkEnd, SetField, Follow, Ends, Leads, Within, MarksIn,
           AttributeMarks;
      ghost var cfg, from := Config(enc, condense), TrackOf(data);
      ghost var all := DeclarationMarks(s, start, cfg, error);
      node := Declaration([], [], []);
      var begins := StringEqual(s, start, XML_OPEN, true);
      if !begins {
        FollowNone(s, data.tabsize, TrackOf(data));
        SetError(ParsingDeclaration);
        return node, Null;
      }
      assert OnTrack(data, all, from, all) by { LeadsSelf(s, data.tabsize, from, all); }
      Before(data, Start(start, enc), DeclarationLoopMarks(s, start + 5, cfg, error), from, all);
      StampStart(start, data, enc);
      var q := start + 5;
      while q < |s|
        invariant start < q <= |s| && node.Declaration? && error == old(error)
        invariant DeclarationLoop(s, q, cfg, error, node) == Parser.ParseDeclaration(s, start, cfg, old(error))
        invariant OnTrack(data, DeclarationLoopMarks(s, q, cfg, error), from, all)
        invariant error == NoError ==> old(error) == NoError && errorLocation == old(errorLocation)
      {
        Last(data, DeclarationLoopMarks(s, q, cfg, error), from, all);
        if s[q] == '>' { return node, Pos(q + 1); }
        p := SkipWhiteSpace(s, q, enc);
        var f := ReadField(s, p.i);
        if f.NoField? {
          JunkAdvances(s, q, enc);
          q := SkipJunk(s, p.i);
        } else {
          ghost var a1 := Parser.ParseAttribute(s, p.i, cfg, error);
          ghost var rest := if a1.p.Pos? && a1.p.i <= |s| then DeclarationLoopMarks(s, a1.p.i, cfg, error) else [];
          Before(data, AttributeMarks(s, p.i, cfg, false), rest, from, all);
          var a;
          a, p := ParseAttribute(s, p.i, data, enc, false);
          Last(data, rest, from, all);
          node := SetField(node, f, a.value);
          if p.Null? { return; }
          if p.Wild? || p.i > |s| { return node, Wild; }
          q := p.i;
        }
      }
      Last(data, [], from, all);
      return node, Null;
    }

    static method Identify(s: CString, p: nat) returns (k: Kind)
      requires p < |s| && s[p] == '<'
      ensures k == Parser.Identify(s, p)
    {
      var found := StringEqual(s, p, XML_OPEN, true);
      if found { return DeclarationKind; }
      found := StringEqual(s, p, COMMENT_OPEN, false);
      if found { return CommentKind; }
      found := StringEqual(s, p, CDATA_OPEN, false);
      if found { return CDataKind; }
      found := StringEqual(s, p, "<!", false);
      if found { return UnknownKind; }
      return if StartsName(Ch(s, p + 1)) then ElementKind else UnknownKind;
    }

    method ParseNode(s: CString, start: nat, data: ParsingData, enc: Encoding) returns (node: Node, p: Ptr)
      requires start < |s| && s[start] == '<' && Ready(data, s, NodeMarks(s, start, Config(enc, condense), error))
      modifies this`error, this`errorLocation, data
      ensures NodeResult(node, p, error) == Parser.ParseNode(s, start, Config(enc, condense), old(error))
      ensures Stamped(data, NodeMarks(s, start, Config(enc, condense), old(error)))
      decreases |s| - start, 1
    {
      hide Parser.Identify, Parser.ParseDeclaration, Parser.ParseComment, Parser.ParseText, Parser.ParseUnknown,
           Parser.ParseElement, DeclarationMarks, CommentMarks, TextMarks, Start, ElementMarks, Follow, Ends;
      var k := Identify(s, start);
      match k
      case DeclarationKind => node, p := ParseDeclaration(s, start, data, enc);
      case CommentKind => node, p := ParseComment(s, start, data, enc);
      case CDataKind => node, p := ParseText(s, start, true, data, enc);
      case UnknownKind => node, p := ParseUnknown(s, start, data, enc);
      case ElementKind => node, p := ParseElement(s, start, data, enc);
    }

    method ParseElement(s: CString, start: nat, data: ParsingData, enc: Encoding) returns (node: Node, p: Ptr)
      requires start < |s| && s[start] == '<' && Ready(data, s, ElementMarks(s, start, Config(enc, condense), error))
      modifies this`error, this`errorLocation, data
      ensures NodeResult(node, p, error) == Parser.ParseElement(s, start, Config(enc, condense), old(error))
      ensures Stamped(data, ElementMarks(s, start, Config(enc, condense), old(error)))
      decreases |s| - start, 0
    {
      hide Parser.ParseAttribute, NameAt, SkipFrom, AttributeLoop, LoopMarks, Follow, Ends;
      ghost var all := ElementMarks(s, start, Config(enc, condense), error);
      assert all == Start(start, enc) + all[1..];
      ReadyFor(data, Start(start, enc), all[1..]);
      StampStart(start, data, enc);
      p := SkipWhiteSpace(s, start + 1, enc);
      var pErr, n := p, Name([], Null);
      if p.Pos? { n := ReadName(s, p.i); }
      if n.p.Null? || n.p.i == |s| {
        SetErrorAt(FailedToReadElementName, pErr, data, enc);
        return Element(n.name, [], []), Null;
      }
      node, p := ParseAttributes(s, n.p.i, n.name, data, enc);
    }

    /** The loop of `TiXmlElement::Parse` over attributes, up to the end of the element. */
    method ParseAttributes(s: CString, start: nat, name: Bytes, data: ParsingData, enc: Encoding)
      returns (node: Node, p: Ptr)
      requires start <= |s| && Ready(data, s, LoopMarks(s, start, name, [], Config(enc, condense), error))
      modifies this`error, this`errorLocation, data
      ensures NodeResult(node, p, error)
           == AttributeLoop(s, start, name, [], Config(enc, condense), old(error))
      ensures Stamped(data, LoopMarks(s, start, name, [], Config(enc, condense), old(error)))
      decreases |s| - start, 4
    {
      hide Parser.ParseAttribute, SkipFrom, Parser.ParseContent, IndexOf, Trees.SetAttribute, Follow, Ends, Leads,
           Within, MarksIn, AttributeMarks, ContentMarks;
      ghost var cfg, from := Config(enc, condense), TrackOf(data);
      ghost var all := LoopMarks(s, start, name, [], cfg, error);
      assert OnTrack(data, all, from, all) by { LeadsSelf(s, data.tabsize, from, all); }
      var attributes: seq<Attribute>, q := [], start;
      while q < |s|
        invariant start <= q <= |s|
        invariant AttributeLoop(s, q, name, attributes, cfg, error)
               == AttributeLoop(s, start, name, [], cfg, old(error))
        invariant OnTrack(data, LoopMarks(s, q, name, attributes, cfg, error), from, all)
        invariant error == NoError ==> old(error) == NoError && errorLocation == old(errorLocation)
      {
        Last(data, LoopMarks(s, q, name, attributes, cfg, error), from, all);
        p := SkipWhiteSpace(s, q, enc);
        if p.i == |s| {
          SetErrorAt(ReadingAttributes, Pos(q), data, enc);
          return Element(name, attributes, []), Null;
        }
        if s[p.i] == '/' {
          if Ch(s, p.i + 1) != '>' {
            SetErrorAt(ParsingEmpty, Pos(p.i + 1), data, enc);
            return Element(name, attributes, []), Null;
          }
          return Element(name, attributes, []), Pos(p.i + 2);
        } else if s[p.i] == '>' {
          node, p := ParseContent(s, p.i + 1, name, attributes, data, enc);
          return;
        }
        var pErr := p;
        ghost var rest := AfterAttribute(s, p.i, name, attributes, cfg, error);
        Before(data, AttributeMarks(s, p.i, cfg, error.NoError?), rest, from, all);
        var a;
        a, p := ParseAttribute(s, p.i, data, enc, true);
        Last(data, rest, from, all);
        if p.Wild? || (p.Pos? && p.i > |s|) { return Element(name, attributes, []), Wild; }
        if p.Null? || p.i == |s| {
          SetErrorAt(ParsingElement, pErr, data, enc);
          return Element(name, attributes, []), Null;
        }
        var found := IndexOf(attributes, a.name) < |attributes|;
        attributes := Trees.SetAttribute(attributes, a.name, if found then CStr(a.value) else a.value);
        if found { return Element(name, attributes, []), Null; }
        q := p.i;
      }
      Last(data, [], from, all);
      return Element(name, attributes, []), Pos(q);
    }

    /** The end of `TiXmlElement::Parse`: the content of the element and its end tag. */
    method ParseContent(s: CString, start: nat, name: Bytes, attributes: seq<Attribute>, data: ParsingData,
                        enc: Encoding)
      returns (node: Node, p: Ptr)
      requires start <= |s| && Ready(data, s, ContentMarks(s, start, name, Config(enc, condense), error))
      modifies this`error, this`errorLocation, data
      ensures NodeResult(node, p, error)
           == Parser.ParseContent(s, start, name, attributes, Config(enc, condense), old(error))
      ensures Stamped(data, ContentMarks(s, start, name, Config(enc, condense), old(error)))
      decreases |s| - start, 4
    {
      hide Parser.ReadValue, ValuesMarks, Follow, Ends;
      ghost var cfg := Config(enc, condense);
      ghost var v := Parser.ReadValue(s, start, [], cfg, error);
      ReadyFor(data, ValuesMarks(s, start, cfg, error),
               if v.p.Pos? && v.p.i < |s| && Has(s, v.p.i, EndTag(name)) then []
               else ErrorAt(v.p, enc, v.err.NoError?));
      var content;
      content, p := ReadValue(s, start, data, enc);
      FollowNone(s, data.tabsize, TrackOf(data));
      node := Element(name, attributes, content);
      if p.Wild? { return; }
      if p.Null? || p.i == |s| {
        SetErrorAt(ReadingEndTag, p, data, enc);
        return node, Null;
      }
      if Has(s, p.i, EndTag(name)) { return node, Pos(p.i + |EndTag(name)|); }
      SetErrorAt(ReadingEndTag, p, data, enc);
      return node, Null;
    }

    /** A text, or the node at a `<`. A text that keeps its white space starts with it. */
    method ParseChild(s: CString, withWhiteSpace: nat, start: nat, data: ParsingData, enc: Encoding)
      returns (node: Node, p: Ptr)
      requires withWhiteSpace <= start < |s|
      requires Ready(data, s, ChildMarks(s, withWhiteSpace, start, Config(enc, condense), error))
      modifies this`error, this`errorLocation, data
      ensures NodeResult(node, p, error) == ChildAt(s, withWhiteSpace, start, Config(enc, condense), old(error))
      ensures Stamped(data, ChildMarks(s, withWhiteSpace, start, Config(enc, condense), old(error)))
      decreases |s| - start, 2
    {
      hide Parser.ParseNode, Parser.ParseText, NodeMarks, TextMarks, Follow, Ends;
      if s[start] == '<' {
        node, p := ParseNode(s, start, data, enc);
      } else if condense {
        node, p := ParseText(s, start, false, data, enc);
      } else {
        node, p := ParseText(s, withWhiteSpace, false, data, enc);
      }
    }

    method ReadValue(s: CString, start: nat, data: ParsingData, enc: Encoding) returns (content: seq<Node>, p: Ptr)
      requires start <= |s| && Ready(data, s, ValuesMarks(s, start, Config(enc, condense), error))
      modifies this`error, this`errorLocation, data
      ensures ChildrenResult(content, p, error) == Parser.ReadValue(s, start, [], Config(enc, condense), old(error))
      ensures Stamped(data, ValuesMarks(s, start, Config(enc, condense), old(error)))
      decreases |s| - start, 3
    {
      hide Parser.ReadValue, ValuesMarks, RestMarks, ReadRest, ChildAt, Matches, ChildMarks, IsBlank, SkipFrom, Follow,
           Ends, Leads, Within, MarksIn;
      ghost var cfg, from := Config(enc, condense), TrackOf(data);
      ghost var all := ValuesMarks(s, start, cfg, error);
      GoesOn(s, Pos(start), [], cfg, error);
      assert OnTrack(data, all, from, all) by { LeadsSelf(s, data.tabsize, from, all); }
      content := [];
      var withWhiteSpace := Pos(start);
      p := SkipWhiteSpace(s, start, enc);
      while p.Pos? && p.i < |s|
        invariant if withWhiteSpace.Pos? then start <= withWhiteSpace.i <= |s| && p == SkipWs(s, withWhiteSpace.i, enc)
                  else p == withWhiteSpace
        invariant ReadRest(s, withWhiteSpace, content, cfg, error) == Parser.ReadValue(s, start, [], cfg, old(error))
        invariant OnTrack(data, RestMarks(s, withWhiteSpace, cfg, error), from, all)
        invariant error == NoError ==> old(error) == NoError && errorLocation == old(errorLocation)
        decreases if withWhiteSpace.Pos? then |s| - withWhiteSpace.i else 0
      {
        var begins, w := withWhiteSpace.i, p.i;
        GoesOn(s, withWhiteSpace, content, cfg, error);
        var ended := StringEqual(s, w, "</", false);
        if s[w] == '<' && ended { break; }
        ValueRound(s, begins, content, cfg, error);
        ghost var n := ChildAt(s, begins, w, cfg, error);
        Before(data, ChildMarks(s, begins, w, cfg, error), RestMarks(s, n.p, cfg, n.err), from, all);
        var node;
        node, p := ParseChild(s, begins, w, data, enc);
        if s[w] == '<' || !IsBlank(node.value) { content := content + [node]; }
        withWhiteSpace := p;
        if p.Pos? { p := SkipWhiteSpace(s, p.i, enc); }
      }
      GoesOn(s, withWhiteSpace, content, cfg, error);
      if withWhiteSpace.Pos? { ValueStops(s, withWhiteSpace.i, content, cfg, error); }
      Last(data, [], from, all);
      if p.Null? { SetError(ReadingElementValue); }
    }

    /** The loop of `TiXmlDocument::Parse` over top-level nodes. */
    method ParseTopLevel(s: CString, start: nat, data: ParsingData, encoding: Encoding) returns (p: Ptr)
      requires start <= |s| && Ready(data, s, DocumentLoopMarks(s, start, Config(encoding, condense), error))
      modifies this`error, this`errorLocation, this`children, data
      ensures DocumentEnd(children, p, error)
           == DocumentLoop(s, start, old(children), Config(encoding, condense), old(error))
      ensures Stamped(data, DocumentLoopMarks(s, start, Config(encoding, condense), old(error)))
    {
      hide Parser.ParseNode, DocumentLoop, DocumentLoopMarks, SkipFrom, NodeMarks, EncodingAfter, Follow, Ends, Leads,
           Within, MarksIn;
      ghost var from := TrackOf(data);
      ghost var all := DocumentLoopMarks(s, start, Config(encoding, condense), error);
      assert OnTrack(data, all, from, all) by { LeadsSelf(s, data.tabsize, from, all); }
      p := Pos(start);
      var enc := encoding;
      while p.Pos? && p.i < |s|
        invariant p.Pos? ==> p.i <= |s|
        invariant (if p.Pos? then DocumentLoop(s, p.i, children, Config(enc, condense), error)
                   else DocumentEnd(children, p, error))
               == DocumentLoop(s, start, old(children), Config(encoding, condense), old(error))
        invariant OnTrack(data, if p.Pos? then DocumentLoopMarks(s, p.i, Config(enc, condense), error) else [],
                          from, all)
        invariant error == NoError ==> old(error) == NoError && errorLocation == old(errorLocation)
        decreases if p.Pos? then |s| + 1 - p.i else 0
      {
        if s[p.i] != '<' { break; }
        DocumentRound(s, p.i, children, Config(enc, condense), error);
        ghost var n := Parser.ParseNode(s, p.i, Config(enc, condense), error);
        ghost var rest := AfterNode(s, n, Config(EncodingAfter(enc, n.node), condense));
        Before(data, NodeMarks(s, p.i, Config(enc, condense), error), rest, from, all);
        var node;
        node, p := ParseNode(s, p.i, data, enc);
        children := children + [node];
        enc := EncodingAfter(enc, node);
        if p.Pos? {
          p := SkipWhiteSpace(s, p.i, enc);
        }
      }
      if p.Pos? { DocumentStops(s, p.i, children, Config(enc, condense), error); }
      Last(data, [], from, all);
    }

    /** `TiXmlDocument::Parse`, where it ends. */
    method Parse(s: CString, encoding: Encoding) returns (p: Ptr)
      requires tabsize < 1 || !Overrun(s, DocumentMarks(s, Config(encoding, condense)), 0)
      modifies this`error, this`errorLocation, this`children, this`useMicrosoftBOM
      ensures DocumentResult(children, p, error) == ParseOnto(s, old(children), Config(encoding, condense))
      ensures errorLocation
           == if error == NoError then At(0, 0) else ErrorPlace(s, tabsize, Config(encoding, condense))
      ensures useMicrosoftBOM
           == (old(useMicrosoftBOM) || (encoding.Undeclared? && |s| >= 3
                 && s[0] as int == 0xEF && s[1] as int == 0xBB && s[2] as int == 0xBF))
    {
      hide DocumentLoop, DocumentLoopMarks, SkipFrom, Has, Follow, Ends, Within, Overrun;
      var enc := encoding;
      ClearError();
      if s == [] {
        FollowNone(s, tabsize, FreshTrack());
        SetError(DocumentEmpty);
        return Null;
      }
      var data := new ParsingData(s, tabsize, 0, 0);
      ParseEndsIff(s, tabsize, Config(encoding, condense));
      MarkIs(s);
      if enc.Undeclared? && Has(s, 0, ByteOrderMark()) {
        enc, useMicrosoftBOM := Utf8, true;
      }
      p := SkipWhiteSpace(s, 0, enc);
      p := ParseTopLevel(s, p.i, data, enc);
      if children == [] {
        SetError(DocumentEmpty);
        return Null;
      }
    }

    /** `LoadFile`, with the bytes of the file given. */
    method LoadFile(file: Bytes, encoding: Encoding) returns (ok: bool)
      requires file == [] || tabsize < 1
        || !Overrun(Loaded(file), DocumentMarks(Loaded(file), Config(encoding, condense)), 0)
      modifies this`error, this`errorLocation, this`children, this`useMicrosoftBOM
      ensures file == [] ==> !ok && children == [] && error == Raise(old(error), DocumentEmpty)
      ensures file != [] ==>
        var r := ParseDocument(Loaded(file), Config(encoding, condense));
        children == r.children && error == r.err && (ok <==> r.err.NoError?)
      ensures file != [] && !ok ==> errorLocation == ErrorPlace(Loaded(file), tabsize, Config(encoding, condense))
    {
      hide ParseOnto, Normalize, CStr, Overrun, DocumentMarks;
      children := [];
      if |file| <= 0 {
        SetError(DocumentEmpty);
        return false;
      }
      var buf := new Byte[|file| + 1](i requires 0 <= i <= |file| => if i < |file| then file[i] else '\0');
      assert buf[..] == file + ['\0'];
      CStrOfTerminated(file);
      var data := NormalizeBuffer(buf);
      var p := Parse(CStr(data), encoding);
      return error == NoError;
    }
  }

  /** The text that a file is parsed as. */
  function Loaded(file: Bytes): CString {
    CStr(Normalize(CStr(file)))
  }
}
