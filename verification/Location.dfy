/**
 `TiXmlParsingData::Stamp`: the row and column of a position, tracked incrementally.
 */
module Location {
  import opened CStrings
  import opened Utf8
  import opened Scan

  /** The row and column, both from 0, of the position `p`. */
  datatype Cursor = Cursor(row: nat, col: nat, p: nat)

  /** One round of the loop, at a byte other than NUL. */
  function Step(s: CString, tab: nat, enc: Encoding, c: Cursor): Cursor
    requires c.p < |s| && tab >= 1
  {
    var b := s[c.p];
    if b == '\r' then Cursor(c.row + 1, 0, if Ch(s, c.p + 1) == '\n' then c.p + 2 else c.p + 1)
    else if b == '\n' then Cursor(c.row + 1, 0, if Ch(s, c.p + 1) == '\r' then c.p + 2 else c.p + 1)
    else if b == '\t' then Cursor(c.row, (c.col / tab + 1) * tab, c.p + 1)
    else if !enc.Utf8? then Cursor(c.row, c.col + 1, c.p + 1)
    else if b as int == 0xEF then
      if c.p + 2 >= |s| then c
      else if IsZeroWidth(s, c.p) then c.(p := c.p + 3)
      else Cursor(c.row, c.col + 1, c.p + 3)
    else Cursor(c.row, c.col + 1, c.p + CharLength(b, enc))
  }

  /** The loop advances except, in UTF-8 mode, at a lead byte 0xEF that is one of the last
      two bytes of the input, where it would stay for ever. */
  lemma StepAdvances(s: CString, tab: nat, enc: Encoding, c: Cursor)
    requires c.p < |s| && tab >= 1
    ensures Step(s, tab, enc, c).p > c.p <==> !(enc.Utf8? && s[c.p] as int == 0xEF && c.p + 2 >= |s|)
    ensures Step(s, tab, enc, c).p <= c.p ==> Step(s, tab, enc, c) == c
  {
  }

  /** A lead byte 0xEF in UTF-8 mode with fewer than two bytes after it. */
  predicate IsShortLead(s: CString, enc: Encoding, p: nat) {
    enc.Utf8? && p < |s| && s[p] as int == 0xEF && p + 2 >= |s|
  }

  /** `Stamp` from cursor `c` to the position `now`; it may pass `now` inside a character. Where
      the loop would stay for ever, the walk ends. */
  function Walk(s: CString, tab: nat, enc: Encoding, c: Cursor, now: nat): (r: Cursor)
    requires now <= |s| && tab >= 1
    ensures r.p >= c.p
    decreases now - c.p
  {
    if c.p >= now || IsShortLead(s, enc, c.p) then c
    else
      StepAdvances(s, tab, enc, c);
      Walk(s, tab, enc, Step(s, tab, enc, c), now)
  }

  /** The loop of `Stamp` ends. */
  predicate Arrives(s: CString, tab: nat, enc: Encoding, c: Cursor, now: nat)
    requires now <= |s| && tab >= 1
  {
    Walk(s, tab, enc, c, now).p >= now
  }

  /** Taking one character after the other from `p` on comes to `q`. */
  predicate OnBoundary(s: CString, enc: Encoding, p: nat, q: nat)
    decreases q - p
  {
    p == q || (p < q && p < |s| && OnBoundary(s, enc, p + CharLength(s[p], enc), q))
  }

  /** A character between `p` and `now` is a short lead. */
  predicate Blocked(s: CString, enc: Encoding, p: nat, now: nat) {
    exists q :: p <= q < now && IsShortLead(s, enc, q) && OnBoundary(s, enc, p, q)
  }

  /** The loop ends if and only if no short lead is one of the characters on its way. */
  lemma {:induction false} ArrivesIff(s: CString, tab: nat, enc: Encoding, c: Cursor, now: nat)
    requires now <= |s| && tab >= 1
    ensures Arrives(s, tab, enc, c, now) <==> !Blocked(s, enc, c.p, now)
    decreases now - c.p
  {
    hide Step, OnBoundary, IsShortLead;
    if c.p < now {
      if IsShortLead(s, enc, c.p) {
        assert OnBoundary(s, enc, c.p, c.p) by { BoundaryHere(s, enc, c.p); }
      } else {
        StepAdvances(s, tab, enc, c);
        Moves(s, tab, enc, c);
        var c' := Step(s, tab, enc, c);
        forall q | c.p <= q < now && IsShortLead(s, enc, q)
          ensures OnBoundary(s, enc, c.p, q) <==> c'.p <= q && OnBoundary(s, enc, c'.p, q)
        {
          StepBoundary(s, tab, enc, c, q);
        }
        ArrivesIff(s, tab, enc, c', now);
      }
    }
  }

  lemma BoundaryHere(s: CString, enc: Encoding, p: nat)
    ensures OnBoundary(s, enc, p, p)
  {
  }

  /** A round of the loop takes one character, or a line break of two. */
  lemma StepBoundary(s: CString, tab: nat, enc: Encoding, c: Cursor, q: nat)
    requires tab >= 1 && c.p <= q && IsShortLead(s, enc, q) && !IsShortLead(s, enc, c.p)
    ensures OnBoundary(s, enc, c.p, q)
       <==> Step(s, tab, enc, c).p <= q && OnBoundary(s, enc, Step(s, tab, enc, c).p, q)
  {
  }

  /** In front of a slash that ends the input, an 0xEF holds the loop for ever. */
  lemma ShortLeadHolds(tab: nat)
    requires tab >= 1
    ensures var s: CString := [ByteOf(0xEF), '/'];
      && Blocked(s, Utf8, 0, 2) && !Arrives(s, tab, Utf8, Cursor(0, 0, 0), 2)
      && Step(s, tab, Utf8, Cursor(0, 0, 0)) == Cursor(0, 0, 0)
  {
    var s: CString := [ByteOf(0xEF), '/'];
    assert IsShortLead(s, Utf8, 0) && OnBoundary(s, Utf8, 0, 0);
    ArrivesIff(s, tab, Utf8, Cursor(0, 0, 0), 2);
  }

  /** Without a byte 0xEF among its last two bytes, nothing in a text is blocked. */
  lemma NoShortLead(s: CString, enc: Encoding, p: nat, now: nat)
    requires forall i | 0 <= i < |s| && |s| <= i + 2 :: s[i] as int != 0xEF
    ensures !Blocked(s, enc, p, now)
  {
  }

  lemma CompleteIsNotBlocked(s: CString, enc: Encoding, p: nat, now: nat)
    requires Complete(s, enc)
    ensures !Blocked(s, enc, p, now)
  {
    forall q: nat ensures !IsShortLead(s, enc, q) { assert q < |s| ==> CompleteAt(s, q, enc); }
  }

  lemma WalkNowhere(s: CString, tab: nat, enc: Encoding, c: Cursor, now: nat)
    requires now <= |s| && tab >= 1 && c.p >= now
    ensures Walk(s, tab, enc, c, now) == c
  {
  }

  /** A walk that arrives goes on with the next round. */
  lemma WalkOn(s: CString, tab: nat, enc: Encoding, c: Cursor, now: nat)
    requires now <= |s| && tab >= 1 && c.p < now && Arrives(s, tab, enc, c, now)
    ensures !IsShortLead(s, enc, c.p) && Step(s, tab, enc, c).p > c.p
    ensures Walk(s, tab, enc, c, now) == Walk(s, tab, enc, Step(s, tab, enc, c), now)
  {
    StepAdvances(s, tab, enc, c);
  }

  class ParsingData {
    var row: nat
    var col: nat
    var stamp: nat
    const tabsize: int
    const s: CString

    constructor (s: CString, tabsize: int, row: nat, col: nat)
      ensures this.s == s && this.tabsize == tabsize && GetCursor() == Cursor(row, col, 0)
    {
      this.s, this.tabsize, this.row, this.col, this.stamp := s, tabsize, row, col, 0;
    }

    function GetCursor(): Cursor
      reads this
    {
      Cursor(row, col, stamp)
    }

    method Stamp(now: nat, enc: Encoding)
      requires now <= |s| && (tabsize >= 1 ==> !Blocked(s, enc, stamp, now))
      modifies this`row, this`col, this`stamp
      ensures GetCursor() == if tabsize < 1 then old(GetCursor()) else Walk(s, tabsize, enc, old(GetCursor()), now)
    {
      hide Walk, Blocked;
      if tabsize < 1 { return; }
      ArrivesIff(s, tabsize, enc, GetCursor(), now);
      ghost var goal := Walk(s, tabsize, enc, GetCursor(), now);
      var r: nat, c: nat, p: nat := row, col, stamp;
      while p < now
        invariant Walk(s, tabsize, enc, Cursor(r, c, p), now) == goal
        decreases now - p
      {
        ghost var step := Step(s, tabsize, enc, Cursor(r, c, p));
        WalkOn(s, tabsize, enc, Cursor(r, c, p), now);
        var b := s[p];
        if b == '\r' {
          r, c, p := r + 1, 0, p + 1;
          if Ch(s, p) == '\n' { p := p + 1; }
        } else if b == '\n' {
          r, c, p := r + 1, 0, p + 1;
          if Ch(s, p) == '\r' { p := p + 1; }
        } else if b == '\t' {
          p := p + 1;
          c := (c / tabsize + 1) * tabsize;
        } else if b as int == 0xEF && enc.Utf8? {
          if !IsZeroWidth(s, p) { c := c + 1; }
          p := p + 3;
        } else if enc.Utf8? {
          p := p + LeadLength(b);
          c := c + 1;
        } else {
          p := p + 1;
          c := c + 1;
        }
        assert Cursor(r, c, p) == step;
      }
      WalkNowhere(s, tabsize, enc, Cursor(r, c, p), now);
      row, col, stamp := r, c, p;
    }
  }

  // ----- runs of calls -----

  /** A call of `Stamp`; `raised` where it is the one of an error that is recorded. */
  datatype Mark = Mark(now: nat, enc: Encoding, raised: bool)

  /** Where an error was found, if its caller knew. */
  datatype Place = Nowhere | At(row: nat, col: nat)

  /** The cursor, and the place of the error recorded last. */
  datatype Track = Track(cursor: Cursor, place: Place)

  predicate Within(s: CString, marks: seq<Mark>) {
    forall m <- marks :: m.now <= |s|
  }

  function Marked(s: CString, tab: int, t: Track, m: Mark): Track
    requires m.now <= |s|
  {
    var c := if tab < 1 then t.cursor else Walk(s, tab, m.enc, t.cursor, m.now);
    Track(c, if m.raised then At(c.row, c.col) else t.place)
  }

  /** What a run of calls leaves. */
  function Follow(s: CString, tab: int, t: Track, marks: seq<Mark>): Track
    requires Within(s, marks)
    decreases |marks|
  {
    if marks == [] then t else Follow(s, tab, Marked(s, tab, t, marks[0]), marks[1..])
  }

  /** Every call of the run ends. */
  predicate Ends(s: CString, tab: int, t: Track, marks: seq<Mark>)
    requires Within(s, marks)
    decreases |marks|
  {
    marks == [] || tab < 1
    || (!Blocked(s, marks[0].enc, t.cursor.p, marks[0].now)
        && Ends(s, tab, Marked(s, tab, t, marks[0]), marks[1..]))
  }

  lemma FollowNone(s: CString, tab: int, t: Track)
    ensures Follow(s, tab, t, []) == t && Ends(s, tab, t, [])
  {
  }

  lemma FollowOne(s: CString, tab: int, t: Track, m: Mark)
    requires m.now <= |s|
    ensures Follow(s, tab, t, [m]) == Marked(s, tab, t, m)
    ensures Ends(s, tab, t, [m]) <==> tab < 1 || !Blocked(s, m.enc, t.cursor.p, m.now)
  {
    hide Blocked, Marked;
    var t' := Marked(s, tab, t, m);
    assert Follow(s, tab, t', []) == t' && Ends(s, tab, t', []);
  }

  lemma {:induction false} FollowSplits(s: CString, tab: int, t: Track, a: seq<Mark>, b: seq<Mark>)
    requires Within(s, a) && Within(s, b)
    ensures Within(s, a + b)
    ensures Follow(s, tab, t, a + b) == Follow(s, tab, Follow(s, tab, t, a), b)
    ensures Ends(s, tab, t, a + b) <==> Ends(s, tab, t, a) && Ends(s, tab, Follow(s, tab, t, a), b)
    decreases |a|
  {
    hide Marked, Blocked;
    if a == [] {
      assert a + b == b;
    } else {
      assert (a + b)[0] == a[0] && (a + b)[1..] == a[1..] + b;
      FollowSplits(s, tab, Marked(s, tab, t, a[0]), a[1..], b);
    }
  }

  /** From `t` the calls `rest` lead to where `all` lead from `start`, and they end. */
  predicate Leads(s: CString, tab: int, t: Track, rest: seq<Mark>, start: Track, all: seq<Mark>) {
    && Within(s, rest) && Within(s, all) && Ends(s, tab, t, rest)
    && Follow(s, tab, t, rest) == Follow(s, tab, start, all)
  }

  lemma LeadsOn(s: CString, tab: int, t: Track, a: seq<Mark>, b: seq<Mark>, start: Track, all: seq<Mark>)
    requires Leads(s, tab, t, a + b, start, all)
    ensures Within(s, a) && Ends(s, tab, t, a)
    ensures Leads(s, tab, Follow(s, tab, t, a), b, start, all)
  {
    hide Follow, Ends;
    WithinBoth(s, a, b);
    FollowSplits(s, tab, t, a, b);
  }

  lemma LeadsSelf(s: CString, tab: int, t: Track, all: seq<Mark>)
    requires Within(s, all) && Ends(s, tab, t, all)
    ensures Leads(s, tab, t, all, t, all)
  {
  }

  lemma LeadsHere(s: CString, tab: int, t: Track, rest: seq<Mark>, start: Track, all: seq<Mark>)
    requires Leads(s, tab, t, rest, start, all)
    ensures Within(s, rest) && Ends(s, tab, t, rest)
    ensures Within(s, all) && Follow(s, tab, t, rest) == Follow(s, tab, start, all)
    ensures rest == [] ==> t == Follow(s, tab, start, all)
  {
  }

  lemma {:induction false} WalkTwice(s: CString, tab: nat, enc: Encoding, c: Cursor, a: nat, b: nat)
    requires a <= |s| && b <= |s| && tab >= 1
    ensures Walk(s, tab, enc, Walk(s, tab, enc, c, a), b) == Walk(s, tab, enc, c, if a <= b then b else a)
    ensures Arrives(s, tab, enc, c, if a <= b then b else a)
       <==> Arrives(s, tab, enc, c, a) && Arrives(s, tab, enc, Walk(s, tab, enc, c, a), b)
    decreases a - c.p
  {
    hide Step;
    if c.p < a && !IsShortLead(s, enc, c.p) {
      StepAdvances(s, tab, enc, c);
      WalkTwice(s, tab, enc, Step(s, tab, enc, c), a, b);
    }
  }

  /** The furthest position of the calls in UTF-8 mode, or of the others. */
  function Furthest(marks: seq<Mark>, utf8: bool): nat {
    if marks == [] then 0
    else
      var r, m := Furthest(marks[1..], utf8), marks[0];
      if m.enc.Utf8? == utf8 && m.now > r then m.now else r
  }

  lemma {:induction false} FurthestAtLeast(marks: seq<Mark>, i: nat, utf8: bool)
    requires i < |marks| && marks[i].enc.Utf8? == utf8
    ensures Furthest(marks, utf8) >= marks[i].now
  {
    if i > 0 { FurthestAtLeast(marks[1..], i - 1, utf8); }
  }

  lemma {:induction false} FurthestWithin(s: CString, marks: seq<Mark>, utf8: bool)
    requires Within(s, marks)
    ensures Furthest(marks, utf8) <= |s|
  {
    if marks != [] { FurthestWithin(s, marks[1..], utf8); }
  }

  /** A run of calls in one encoding ends if and only if one call at the furthest position ends,
      and leaves the same cursor. */
  lemma {:induction false} StampPathIndependent(s: CString, tab: int, enc: Encoding, t: Track, marks: seq<Mark>)
    requires Within(s, marks) && tab >= 1 && forall m <- marks :: m.enc == enc
    ensures Furthest(marks, enc.Utf8?) <= |s|
    ensures Ends(s, tab, t, marks) <==> !Blocked(s, enc, t.cursor.p, Furthest(marks, enc.Utf8?))
    ensures Ends(s, tab, t, marks) ==>
      Follow(s, tab, t, marks).cursor == Walk(s, tab, enc, t.cursor, Furthest(marks, enc.Utf8?))
    decreases |marks|
  {
    hide Walk, Blocked;
    FurthestWithin(s, marks, enc.Utf8?);
    var far := Furthest(marks, enc.Utf8?);
    ArrivesIff(s, tab, enc, t.cursor, far);
    if marks == [] {
      WalkNowhere(s, tab, enc, t.cursor, 0);
    } else {
      var m, rest := marks[0], marks[1..];
      FurthestWithin(s, rest, enc.Utf8?);
      var next, c := Furthest(rest, enc.Utf8?), Walk(s, tab, enc, t.cursor, m.now);
      StampPathIndependent(s, tab, enc, Marked(s, tab, t, m), rest);
      WalkTwice(s, tab, enc, t.cursor, m.now, next);
      ArrivesIff(s, tab, enc, t.cursor, m.now);
      ArrivesIff(s, tab, enc, c, next);
    }
  }


  /** Once a call is in UTF-8 mode, so are those after it. */
  predicate Phased(marks: seq<Mark>) {
    forall i, j | 0 <= i < j < |marks| :: marks[i].enc.Utf8? ==> marks[j].enc.Utf8?
  }

  function Later(a: nat, b: nat): nat {
    if a < b then b else a
  }

  /** A short lead stands before the furthest position called in UTF-8 mode, and is one of the
      characters from the furthest position of the calls before those. */
  predicate Overrun(s: CString, marks: seq<Mark>, p: nat) {
    Blocked(s, Utf8, Later(p, Furthest(marks, false)), Furthest(marks, true))
  }

  /** A whole run of calls ends if and only if it is not overrun. */
  lemma {:induction false} EndsIff(s: CString, tab: int, t: Track, marks: seq<Mark>)
    requires Within(s, marks) && Phased(marks)
    ensures Ends(s, tab, t, marks) <==> tab < 1 || !Overrun(s, marks, t.cursor.p)
    decreases |marks|
  {
    hide Walk, Blocked, Within, IsShortLead;
    if tab >= 1 && marks != [] {
      if marks[0].enc.Utf8? {
        assert forall m <- marks :: m.enc == Utf8;
        NoneOther(marks, true);
        StampPathIndependent(s, tab, Utf8, t, marks);
      } else {
        var m, rest := marks[0], marks[1..];
        assert Within(s, rest) && m.now <= |s| by { WithinRest(s, marks); }
        var c' := Walk(s, tab, m.enc, t.cursor, m.now);
        EndsIff(s, tab, Marked(s, tab, t, m), rest);
        NeverBlocked(s, m.enc, t.cursor.p, m.now);
        BytewiseWalk(s, tab, m.enc, t.cursor, m.now);
        BlockedFrom(s, c'.p, Later(t.cursor.p, m.now), Furthest(rest, false), Furthest(rest, true));
      }
    } else if marks == [] {
      assert !Blocked(s, Utf8, t.cursor.p, 0) by { NotBlockedAtOnce(s, Utf8, t.cursor.p); }
    }
  }

  lemma WithinBoth(s: CString, a: seq<Mark>, b: seq<Mark>)
    ensures Within(s, a + b) <==> Within(s, a) && Within(s, b)
  {
    if Within(s, a + b) {
      assert forall m <- a :: m in a + b;
      assert forall m <- b :: m in a + b;
    }
  }

  lemma WithinRest(s: CString, marks: seq<Mark>)
    requires Within(s, marks) && marks != []
    ensures Within(s, marks[1..]) && marks[0].now <= |s|
  {
  }

  lemma {:induction false} NoneOther(marks: seq<Mark>, utf8: bool)
    requires forall m <- marks :: m.enc.Utf8? == utf8
    ensures Furthest(marks, !utf8) == 0
  {
    if marks != [] { NoneOther(marks[1..], utf8); }
  }

  lemma NeverBlocked(s: CString, enc: Encoding, p: nat, now: nat)
    requires !enc.Utf8?
    ensures !Blocked(s, enc, p, now)
  {
  }

  lemma NotBlockedAtOnce(s: CString, enc: Encoding, p: nat)
    ensures !Blocked(s, enc, p, 0)
  {
  }

  /** Outside UTF-8 mode the loop goes byte by byte, and past its goal only inside a line break. */
  lemma {:induction false} BytewiseWalk(s: CString, tab: nat, enc: Encoding, c: Cursor, now: nat)
    requires now <= |s| && tab >= 1 && !enc.Utf8?
    ensures var p := Walk(s, tab, enc, c, now).p;
      p == Later(c.p, now) || (p == now + 1 && c.p < now < |s| && IsSpace(s[now]))
    decreases now - c.p
  {
    if c.p < now { BytewiseWalk(s, tab, enc, Step(s, tab, enc, c), now); }
  }

  lemma BlockedFrom(s: CString, a: nat, b: nat, x: nat, far: nat)
    requires a == b || (a == b + 1 && b < |s| && IsSpace(s[b]))
    ensures Blocked(s, Utf8, Later(a, x), far) <==> Blocked(s, Utf8, Later(b, x), far)
  {
    hide IsShortLead;
    if a == b + 1 && x < a {
      assert !IsShortLead(s, Utf8, b) by { SpaceIsNoLead(s, b); }
      assert forall q | b < q :: OnBoundary(s, Utf8, b, q) <==> OnBoundary(s, Utf8, b + 1, q);
    }
  }

  lemma SpaceIsNoLead(s: CString, p: nat)
    requires p < |s| && IsSpace(s[p])
    ensures !IsShortLead(s, Utf8, p)
  {
  }

  // ----- the same position, counted byte by byte -----

  /** A line break that a second byte could still belong to. */
  datatype Pending = NoBreak | AfterCR | AfterLF

  /** A count of rows and columns; `skip` bytes of the current character are still to come. */
  datatype Tally = Tally(row: nat, col: nat, pending: Pending, skip: nat)

  /** The first multiple of `tab`, from `m` on, that lies to the right of `col`. */
  function TabStop(col: nat, tab: nat, m: nat): (r: nat)
    requires tab >= 1
    ensures r > col && r >= m
    decreases col + 1 - m
  {
    if col < m then m else TabStop(col, tab, m + tab)
  }

  lemma {:induction false} TabStopIs(col: nat, tab: nat, k: nat)
    requires tab >= 1 && k <= col / tab + 1
    ensures TabStop(col, tab, k * tab) == (col / tab + 1) * tab
    decreases col / tab + 1 - k
  {
    var n := col / tab;
    assert col == n * tab + col % tab;
    assert (n + 1) * tab == n * tab + tab;
    if k <= n {
      assert k * tab <= n * tab;
      assert (k + 1) * tab == k * tab + tab;
      TabStopIs(col, tab, k + 1);
    }
  }

  function TallyByte(s: CString, i: nat, tab: nat, enc: Encoding, t: Tally): Tally
    requires i < |s| && tab >= 1
  {
    if t.skip > 0 then t.(skip := t.skip - 1)
    else if s[i] == '\n' && t.pending.AfterCR? then t.(pending := NoBreak)
    else if s[i] == '\r' && t.pending.AfterLF? then t.(pending := NoBreak)
    else if s[i] == '\r' then Tally(t.row + 1, 0, AfterCR, 0)
    else if s[i] == '\n' then Tally(t.row + 1, 0, AfterLF, 0)
    else if s[i] == '\t' then Tally(t.row, TabStop(t.col, tab, 0), NoBreak, 0)
    else if enc.Utf8? && IsZeroWidth(s, i) then Tally(t.row, t.col, NoBreak, 2)
    else Tally(t.row, t.col + 1, NoBreak, CharLength(s[i], enc) - 1)
  }

  function TallyTo(s: CString, i: nat, j: nat, tab: nat, enc: Encoding, t: Tally): Tally
    requires i <= j <= |s| && tab >= 1
    decreases j - i
  {
    if i == j then t else TallyTo(s, i + 1, j, tab, enc, TallyByte(s, i, tab, enc, t))
  }

  /** No byte at `p` belongs to what has been counted already. */
  predicate Settled(s: CString, p: nat, t: Tally) {
    t.skip == 0 && !(t.pending.AfterCR? && Ch(s, p) == '\n') && !(t.pending.AfterLF? && Ch(s, p) == '\r')
  }

  lemma {:induction false} TallySplits(s: CString, i: nat, j: nat, k: nat, tab: nat, enc: Encoding, t: Tally)
    requires i <= j <= k <= |s| && tab >= 1
    ensures TallyTo(s, i, k, tab, enc, t) == TallyTo(s, j, k, tab, enc, TallyTo(s, i, j, tab, enc, t))
    decreases j - i
  {
    hide TallyByte;
    if i < j { TallySplits(s, i + 1, j, k, tab, enc, TallyByte(s, i, tab, enc, t)); }
  }

  /** One round of the loop counts what its bytes count one at a time, as far as there are any. */
  lemma StepIsTally(s: CString, tab: nat, enc: Encoding, c: Cursor, t: Tally)
    requires c.p < |s| && tab >= 1 && !IsShortLead(s, enc, c.p)
    requires Settled(s, c.p, t) && t.row == c.row && t.col == c.col
    ensures c.p < Step(s, tab, enc, c).p
    ensures var c' := Step(s, tab, enc, c);
      var t' := TallyTo(s, c.p, if c'.p <= |s| then c'.p else |s|, tab, enc, t);
      t'.row == c'.row && t'.col == c'.col && (c'.p <= |s| ==> Settled(s, c'.p, t'))
  {
    TabStopIs(c.col, tab, 0);
    assert 0 * tab == 0;
    var c' := Step(s, tab, enc, c);
    var t1 := TallyByte(s, c.p, tab, enc, t);
    hide TabStop;
    if s[c.p] == '\r' || s[c.p] == '\n' {
      if c'.p == c.p + 2 {
        TallyPair(s, c.p, tab, enc, t);
      } else {
        TallyOne(s, c.p, tab, enc, t);
      }
    } else {
      var e := if c'.p <= |s| then c'.p else |s|;
      SkipBytes(s, c.p + 1, e - c.p - 1, tab, enc, t1);
      TallyMore(s, c.p, e, tab, enc, t);
    }
  }

  lemma TallyMore(s: CString, i: nat, j: nat, tab: nat, enc: Encoding, t: Tally)
    requires i < j <= |s| && tab >= 1
    ensures TallyTo(s, i, j, tab, enc, t) == TallyTo(s, i + 1, j, tab, enc, TallyByte(s, i, tab, enc, t))
  {
  }

  lemma TallyOne(s: CString, i: nat, tab: nat, enc: Encoding, t: Tally)
    requires i < |s| && tab >= 1
    ensures TallyTo(s, i, i + 1, tab, enc, t) == TallyByte(s, i, tab, enc, t)
  {
  }

  lemma TallyPair(s: CString, i: nat, tab: nat, enc: Encoding, t: Tally)
    requires i + 1 < |s| && tab >= 1
    ensures TallyTo(s, i, i + 2, tab, enc, t) == TallyByte(s, i + 1, tab, enc, TallyByte(s, i, tab, enc, t))
  {
    hide TallyByte;
    TallyOne(s, i + 1, tab, enc, TallyByte(s, i, tab, enc, t));
  }

  lemma {:induction false} SkipBytes(s: CString, i: nat, n: nat, tab: nat, enc: Encoding, t: Tally)
    requires i + n <= |s| && n <= t.skip && tab >= 1
    ensures TallyTo(s, i, i + n, tab, enc, t) == t.(skip := t.skip - n)
    decreases n
  {
    if n > 0 { SkipBytes(s, i + 1, n - 1, tab, enc, t.(skip := t.skip - 1)); }
  }

  /** Where `Stamp` ends, its row and column are those of the bytes passed, counted one by
      one: CR, LF, CRLF and LFCR are one break each, a tab goes to the next tab stop and
      every character other than the three zero-width ones takes one column. A last character
      that is cut short takes it beyond the end of the input. */
  lemma {:induction false} WalkIsTally(s: CString, tab: nat, enc: Encoding, c: Cursor, now: nat, t: Tally)
    requires now <= |s| && tab >= 1
    requires c.p <= |s| && Settled(s, c.p, t) && t.row == c.row && t.col == c.col
    ensures var r := Walk(s, tab, enc, c, now);
      var t' := TallyTo(s, c.p, if r.p <= |s| then r.p else |s|, tab, enc, t);
      t'.row == r.row && t'.col == r.col
    decreases now - c.p
  {
    hide Step, TallyTo, Settled, IsShortLead;
    if c.p < now && !IsShortLead(s, enc, c.p) {
      StepAdvances(s, tab, enc, c);
      assert c.p < Step(s, tab, enc, c).p by { Moves(s, tab, enc, c); }
      StepIsTally(s, tab, enc, c, t);
      var c' := Step(s, tab, enc, c);
      if c'.p <= |s| {
        var r := Walk(s, tab, enc, c', now);
        WalkIsTally(s, tab, enc, c', now, TallyTo(s, c.p, c'.p, tab, enc, t));
        TallySplits(s, c.p, c'.p, if r.p <= |s| then r.p else |s|, tab, enc, t);
      }
    } else {
      TallyNone(s, c.p, tab, enc, t);
    }
  }

  lemma Moves(s: CString, tab: nat, enc: Encoding, c: Cursor)
    requires c.p < |s| && tab >= 1 && !IsShortLead(s, enc, c.p)
    ensures c.p < Step(s, tab, enc, c).p
  {
  }

  lemma TallyNone(s: CString, p: nat, tab: nat, enc: Encoding, t: Tally)
    requires p <= |s| && tab >= 1
    ensures TallyTo(s, p, p, tab, enc, t) == t
  {
  }
}
