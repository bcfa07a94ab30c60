/**
 `ReadText`: reading character data up to an end tag, keeping the white space or
 condensing it.
 */
module Text {
  import opened CStrings
  import opened Scan
  import opened Entities

  datatype TextResult = TextResult(text: Bytes, p: Ptr)

  /** The loop that keeps all white space, from `p` with `acc` read so far. */
  function ReadKeep(s: CString, p: nat, endTag: CString, enc: Encoding, acc: Bytes): (r: TextResult)
    requires p <= |s|
    ensures r.p.Pos? ==> p + |endTag| <= r.p.i <= |s| + 1
    decreases |s| - p
  {
    if p == |s| || Matches(s, p, endTag, false) then TextResult(acc, Forward(s, p, |endTag|))
    else
      var c := CharAt(s, p, enc);
      if !c.p.Pos? then TextResult(acc + c.value, c.p)
      else if c.p.i > |s| then TextResult(acc + c.value, Wild)
      else ReadKeep(s, c.p.i, endTag, enc, acc + c.value)
  }

  /** The loop that turns every run of white space into one space, where `space` says that
      a run has just been seen. */
  function ReadCondensed(s: CString, p: nat, endTag: CString, enc: Encoding, acc: Bytes, space: bool): (r: TextResult)
    requires p <= |s|
    ensures r.p.Pos? ==> p + |endTag| <= r.p.i <= |s| + 1
    decreases |s| - p
  {
    if p == |s| || Matches(s, p, endTag, false) then TextResult(acc, Forward(s, p, |endTag|))
    else if IsSpace(s[p]) then ReadCondensed(s, p + 1, endTag, enc, acc, true)
    else
      var c := CharAt(s, p, enc);
      var acc' := if space then acc + " " + c.value else acc + c.value;
      if !c.p.Pos? then TextResult(acc', c.p)
      else if c.p.i > |s| then TextResult(acc', Wild)
      else ReadCondensed(s, c.p.i, endTag, enc, acc', false)
  }

  /** `ReadText`; `condense` is the global switch `condenseWhiteSpace`. */
  function TextAt(s: CString, p: nat, trim: bool, endTag: CString, enc: Encoding, condense: bool): (r: TextResult)
    requires p <= |s|
    ensures r.p.Pos? ==> p + |endTag| <= r.p.i <= |s| + 1
  {
    if !trim || !condense then ReadKeep(s, p, endTag, enc, [])
    else
      var q := SkipWs(s, p, enc);
      if q.Null? then TextResult([], Null) else ReadCondensed(s, q.i, endTag, enc, [], false)
  }

  method ReadText(s: CString, p: nat, trim: bool, endTag: CString, enc: Encoding, condense: bool)
    returns (text: Bytes, next: Ptr)
    requires p <= |s|
    ensures TextResult(text, next) == TextAt(s, p, trim, endTag, enc, condense)
  {
    text := [];
    if !trim || !condense {
      next := Pos(p);
      while true
        invariant next.Pos? && p <= next.i <= |s|
        invariant ReadKeep(s, next.i, endTag, enc, text) == ReadKeep(s, p, endTag, enc, [])
        decreases |s| - next.i
      {
        if next.i == |s| { break; }
        var atEnd := StringEqual(s, next.i, endTag, false);
        if atEnd { break; }
        var value;
        value, next := GetChar(s, next.i, enc);
        text := text + value;
        if !next.Pos? { return; }
        if next.i > |s| { return text, Wild; }
      }
    } else {
      var whitespace := false;
      next := SkipWhiteSpace(s, p, enc);
      if !next.Pos? { return; }
      ghost var start := next.i;
      while true
        invariant next.Pos? && start <= next.i <= |s|
        invariant ReadCondensed(s, next.i, endTag, enc, text, whitespace)
               == ReadCondensed(s, start, endTag, enc, [], false)
        decreases |s| - next.i
      {
        if next.i == |s| { break; }
        var atEnd := StringEqual(s, next.i, endTag, false);
        if atEnd { break; }
        if IsSpace(s[next.i]) {
          whitespace := true;
          next := Pos(next.i + 1);
        } else {
          if whitespace {
            text := text + " ";
            whitespace := false;
          }
          var value;
          value, next := GetChar(s, next.i, enc);
          text := text + value;
          if !next.Pos? { return; }
          if next.i > |s| { return text, Wild; }
        }
      }
    }
    next := Forward(s, next.i, |endTag|);
  }
}
