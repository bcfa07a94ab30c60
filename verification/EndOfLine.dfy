/**
 The end-of-line normalisation of `TiXmlDocument::LoadFile` (section 2.11 of XML 1.0).
 */
module EndOfLine {
  import opened CStrings

  /** The text from `i` on with every CRLF and every other CR turned into LF. */
  function NormalizeFrom(t: Bytes, i: nat): Bytes
    requires i <= |t|
    decreases |t| - i
  {
    if i == |t| then []
    else if t[i] == '\r' then ['\n'] + NormalizeFrom(t, if i + 1 < |t| && t[i + 1] == '\n' then i + 2 else i + 1)
    else [t[i]] + NormalizeFrom(t, i + 1)
  }

  function Normalize(t: Bytes): Bytes {
    NormalizeFrom(t, 0)
  }

  /** The loop over the buffer read from the file, whose last byte is the NUL written after
      it. Runs of ordinary bytes are appended in one piece; what follows a NUL in the file
      is never looked at. */
  method NormalizeBuffer(buf: array<Byte>) returns (data: Bytes)
    requires buf.Length > 0 && buf[buf.Length - 1] == '\0'
    ensures data == Normalize(CStr(buf[..]))
  {
    hide CStr, NormalizeFrom;
    ghost var t := CStr(buf[..]);
    CStrIsPrefix(buf[..]);
    assert NormalizeFrom(t, |t|) == [] by { NormalizeEnd(t); }
    var lastPos, p := 0, 0;
    data := [];
    while buf[p] != '\0'
      invariant lastPos <= p <= |t| < buf.Length
      invariant data + (buf[lastPos..p] + NormalizeFrom(t, p)) == Normalize(t)
      decreases |t| - p
    {
      ghost var before, chunk := data, buf[lastPos..p];
      NormalizeStep(t, p);
      assert buf[lastPos..p + 1] == chunk + [buf[p]];
      if buf[p] == '\n' {
        data := data + buf[lastPos..p + 1];
        p := p + 1;
        lastPos := p;
        Moved(before, chunk, ['\n'], NormalizeFrom(t, p));
      } else if buf[p] == '\r' {
        if p - lastPos > 0 {
          data := data + buf[lastPos..p];
        }
        assert data == before + chunk;
        data := data + ['\n'];
        if buf[p + 1] == '\n' {
          p := p + 2;
        } else {
          p := p + 1;
        }
        lastPos := p;
        Moved(before, chunk, ['\n'], NormalizeFrom(t, p));
      } else {
        Associates(chunk, [buf[p]], NormalizeFrom(t, p + 1));
        p := p + 1;
      }
      assert p <= buf.Length - 1;
    }
    assert p == |t|;
    if p - lastPos != 0 {
      data := data + buf[lastPos..p];
    }
  }

  lemma NormalizeStep(t: Bytes, p: nat)
    requires p < |t|
    ensures NormalizeFrom(t, p)
         == (if t[p] == '\r' then ['\n'] + NormalizeFrom(t, if p + 1 < |t| && t[p + 1] == '\n' then p + 2 else p + 1)
             else [t[p]] + NormalizeFrom(t, p + 1))
  {
  }

  lemma NormalizeEnd(t: Bytes)
    ensures NormalizeFrom(t, |t|) == []
  {
  }

  lemma Moved(data: Bytes, chunk: Bytes, c: Bytes, rest: Bytes)
    ensures data + (chunk + (c + rest)) == data + chunk + c + ([] + rest)
    ensures data + (chunk + c) == data + chunk + c
  {
  }

  lemma {:induction false} CStrIsPrefix(t: Bytes)
    ensures |CStr(t)| <= |t| && CStr(t) == t[..|CStr(t)|]
    ensures |CStr(t)| < |t| ==> t[|CStr(t)|] == '\0'
  {
    if t != [] && t[0] != '\0' { CStrIsPrefix(t[1..]); }
  }

  lemma {:induction false} CStrOfTerminated(t: Bytes)
    ensures CStr(t + ['\0']) == CStr(t)
  {
    if t != [] && t[0] != '\0' {
      CStrOfTerminated(t[1..]);
      assert (t + ['\0'])[1..] == t[1..] + ['\0'];
    }
  }

  // ----- the same text, line by line -----

  /** The end of the line that starts at `i`. */
  function LineEnd(t: Bytes, i: nat): (r: nat)
    requires i <= |t|
    ensures i <= r <= |t|
    ensures r < |t| ==> t[r] == '\r' || t[r] == '\n'
    ensures '\r' !in t[i..r] && '\n' !in t[i..r]
    decreases |t| - i
  {
    if i == |t| || t[i] == '\r' || t[i] == '\n' then i else LineEnd(t, i + 1)
  }

  /** The lines of the text, whichever of LF, CRLF and CR ends each. */
  function Lines(t: Bytes, i: nat): (r: seq<Bytes>)
    requires i <= |t|
    ensures r != []
    decreases |t| - i
  {
    var e := LineEnd(t, i);
    [t[i..e]]
    + if e == |t| then [] else Lines(t, if t[e] == '\r' && e + 1 < |t| && t[e + 1] == '\n' then e + 2 else e + 1)
  }

  function Unlines(lines: seq<Bytes>): Bytes
    requires lines != []
  {
    if |lines| == 1 then lines[0] else lines[0] + ['\n'] + Unlines(lines[1..])
  }

  lemma {:induction false} NormalizeLine(t: Bytes, i: nat)
    requires i <= |t|
    ensures NormalizeFrom(t, i) == t[i..LineEnd(t, i)] + NormalizeFrom(t, LineEnd(t, i))
    decreases |t| - i
  {
    var e := LineEnd(t, i);
    if i < e {
      NormalizeLine(t, i + 1);
      assert t[i..e] == [t[i]] + t[i + 1..e];
      Associates([t[i]], t[i + 1..e], NormalizeFrom(t, e));
      assert NormalizeFrom(t, i) == [t[i]] + NormalizeFrom(t, i + 1);
    } else {
      assert t[i..e] + NormalizeFrom(t, e) == NormalizeFrom(t, e);
    }
  }

  /** Normalising keeps the lines and ends each of them but the last with a single LF. */
  lemma {:induction false} NormalizeIsUnlines(t: Bytes, i: nat)
    requires i <= |t|
    ensures NormalizeFrom(t, i) == Unlines(Lines(t, i))
    decreases |t| - i
  {
    NormalizeLine(t, i);
    var e := LineEnd(t, i);
    if e == |t| {
      assert t[i..e] + [] == t[i..e];
    } else {
      var next := if t[e] == '\r' && e + 1 < |t| && t[e + 1] == '\n' then e + 2 else e + 1;
      NormalizeIsUnlines(t, next);
      assert Lines(t, i)[1..] == Lines(t, next);
      assert NormalizeFrom(t, e) == ['\n'] + NormalizeFrom(t, next);
    }
  }

  lemma {:induction false} NormalizeHasNoCR(t: Bytes, i: nat)
    requires i <= |t|
    ensures '\r' !in NormalizeFrom(t, i) && |NormalizeFrom(t, i)| <= |t| - i
    decreases |t| - i
  {
    if i < |t| {
      NormalizeHasNoCR(t, i + 1);
      if i + 1 < |t| { NormalizeHasNoCR(t, i + 2); }
    }
  }

  lemma {:induction false} NormalizeKeeps(t: Bytes, i: nat)
    requires i <= |t|
    ensures NormalizeFrom(t, i) == t[i..] <==> '\r' !in t[i..]
    decreases |t| - i
  {
    NormalizeHasNoCR(t, i);
    if i < |t| && '\r' !in t[i..] {
      assert t[i..][0] != '\r' && t[i..] == [t[i]] + t[i + 1..];
      NormalizeKeeps(t, i + 1);
    }
  }

  /** A second pass changes nothing. */
  lemma NormalizeTwice(t: Bytes)
    ensures Normalize(Normalize(t)) == Normalize(t)
  {
    NormalizeHasNoCR(t, 0);
    NormalizeKeeps(Normalize(t), 0);
    assert Normalize(t)[0..] == Normalize(t);
  }
}
