/** The TCP side of the gateway: a stream of frames, each a 4-byte big-endian
    length followed by that many bytes. `ConnContext.FeedFrames` is fed
    whatever a read returned and keeps the unconsumed suffix between calls; it
    is proved to refine a parser that sees the whole stream at once. */
module TcpFraming {
  import opened Bytes

  type Frame = Bytestring

  /** The consumer of frames. Its verdict on a frame may depend on every frame
      it was given before, so it is a function of the whole list. */
  type Handler = seq<Frame> -> bool

  // ---------------------------------------------------------------- one pass

  datatype Head =
    | NeedMore
    | Illegal
    | Complete(frame: Frame, size: nat)

  /** `maxFrame` is converted to uint32 before it is compared with a length. */
  function Cap(maxFrame: int): (cap: nat)
    ensures cap < TWO_32
  {
    maxFrame % TWO_32
  }

  function NextFrame(s: Bytestring, maxFrame: int): (h: Head)
    ensures h.Complete? ==> 4 < h.size <= |s|
  {
    if |s| < 4 then NeedMore
    else
      var n := BigEndian(s[..4]);
      if n == 0 || n > Cap(maxFrame) then Illegal
      else if |s| < 4 + n then NeedMore
      else Complete(s[4..4 + n], 4 + n)
  }

  /** What a connection has handed on, whether it is still open, and what it
      still holds. */
  datatype Outcome = Outcome(frames: seq<Frame>, open: bool, rest: Bytestring)

  /** One pass over a whole stream, continuing after the frames in `done`. */
  function Parse(s: Bytestring, maxFrame: int, accept: Handler, done: seq<Frame>): Outcome
    decreases |s|
  {
    match NextFrame(s, maxFrame)
    case NeedMore => Outcome(done, true, s)
    case Illegal => Outcome(done, false, [])
    case Complete(f, n) =>
      if accept(done + [f]) then Parse(s[n..], maxFrame, accept, done + [f])
      else Outcome(done + [f], false, s[n..])
  }

  lemma NextFrameStable(a: Bytestring, b: Bytestring, maxFrame: int)
    ensures !NextFrame(a, maxFrame).NeedMore? ==> NextFrame(a + b, maxFrame) == NextFrame(a, maxFrame)
  {
    if |a| >= 4 {
      assert (a + b)[..4] == a[..4];
      var n := BigEndian(a[..4]);
      if |a| >= 4 + n {
        assert (a + b)[4..4 + n] == a[4..4 + n];
      }
    }
  }

  /** A parse can be suspended anywhere: parsing a + b is parsing a and then
      resuming with what a left over. A parse that failed within a fails the
      same way on a + b. */
  lemma {:induction false} ParseResumes(a: Bytestring, b: Bytestring, maxFrame: int, accept: Handler, done: seq<Frame>)
    ensures var p := Parse(a, maxFrame, accept, done);
            var whole := Parse(a + b, maxFrame, accept, done);
            if p.open then whole == Parse(p.rest + b, maxFrame, accept, p.frames)
            else !whole.open && whole.frames == p.frames
    decreases |a|
  {
    NextFrameStable(a, b, maxFrame);
    match NextFrame(a, maxFrame)
    case NeedMore =>
    case Illegal =>
    case Complete(f, n) =>
      assert (a + b)[n..] == a[n..] + b;
      if accept(done + [f]) {
        ParseResumes(a[n..], b, maxFrame, accept, done + [f]);
      }
  }

  // ------------------------------------------------------ wire format

  ghost predicate Legal(f: Frame, maxFrame: int)
  {
    0 < |f| <= Cap(maxFrame)
  }

  lemma UnitsCons(f: Frame, more: seq<Frame>, rest: Bytestring)
    ensures Units([f] + more) + rest == Unit(f) + (Units(more) + rest)
  {
    assert ([f] + more)[1..] == more;
  }

  lemma NextFrameOfUnit(f: Frame, tail: Bytestring, maxFrame: int)
    requires Legal(f, maxFrame)
    ensures NextFrame(Unit(f) + tail, maxFrame) == Complete(f, 4 + |f|)
    ensures (Unit(f) + tail)[4 + |f|..] == tail
  {
    var s := Unit(f) + tail;
    assert s[..4] == ToBigEndian(|f|, 4);
    Pow256Values();
    BigEndianExact(|f|, 4);
    assert s[4..4 + |f|] == f;
  }

  lemma UnitOfNextFrame(s: Bytestring, maxFrame: int)
    requires NextFrame(s, maxFrame).Complete?
    ensures var h := NextFrame(s, maxFrame);
            Legal(h.frame, maxFrame) && s == Unit(h.frame) + s[h.size..]
  {
    BigEndianInverse(s[..4]);
  }

  ghost predicate AllLegal(frames: seq<Frame>, maxFrame: int)
  {
    forall k :: 0 <= k < |frames| ==> Legal(frames[k], maxFrame)
  }

  /** The handler goes on after each of the first `n` frames. */
  ghost predicate GoesOn(accept: Handler, done: seq<Frame>, frames: seq<Frame>, n: nat)
    requires n <= |frames|
  {
    forall j :: 0 < j <= n ==> accept(done + frames[..j])
  }

  lemma GoesOnCons(accept: Handler, done: seq<Frame>, f: Frame, more: seq<Frame>, n: nat)
    requires n <= |more|
    ensures GoesOn(accept, done, [f] + more, n + 1) <==> accept(done + [f]) && GoesOn(accept, done + [f], more, n)
  {
    var all := [f] + more;
    assert done + all[..1] == done + [f];
    forall j | 0 < j <= n ensures (done + [f]) + more[..j] == done + all[..j + 1] {}
    forall j | 1 < j <= n + 1 ensures done + all[..j] == (done + [f]) + more[..j - 1] {}
  }

  lemma ParseUnit(f: Frame, tail: Bytestring, maxFrame: int, accept: Handler, done: seq<Frame>)
    requires Legal(f, maxFrame)
    ensures Parse(Unit(f) + tail, maxFrame, accept, done)
         == if accept(done + [f]) then Parse(tail, maxFrame, accept, done + [f]) else Outcome(done + [f], false, tail)
  {
    hide NextFrame, Unit;
    NextFrameOfUnit(f, tail, maxFrame);
  }

  /** How a stream of given frames and a tail is parsed, in terms of the handler. */
  lemma {:induction false} UnitsParse(frames: seq<Frame>, tail: Bytestring, maxFrame: int, accept: Handler, done: seq<Frame>)
    requires AllLegal(frames, maxFrame)
    ensures GoesOn(accept, done, frames, |frames|) ==>
              Parse(Units(frames) + tail, maxFrame, accept, done) == Parse(tail, maxFrame, accept, done + frames)
    ensures frames != [] && GoesOn(accept, done, frames, |frames| - 1) && !accept(done + frames) ==>
              Parse(Units(frames) + tail, maxFrame, accept, done) == Outcome(done + frames, false, tail)
    decreases |frames|
  {
    hide Parse, Unit, GoesOn;
    if frames == [] {
      assert Units(frames) + tail == tail && done + frames == done;
    } else {
      var f, more := frames[0], frames[1..];
      assert [f] + more == frames && (done + [f]) + more == done + frames;
      UnitsCons(f, more, tail);
      ParseUnit(f, Units(more) + tail, maxFrame, accept, done);
      UnitsParse(more, tail, maxFrame, accept, done + [f]);
      GoesOnCons(accept, done, f, more, |more|);
      if more != [] {
        GoesOnCons(accept, done, f, more, |more| - 1);
      } else {
        assert done + frames == done + [f] && Units(more) + tail == tail;
      }
    }
  }

  /** What made a parse end after given frames and before a tail. */
  ghost predicate EndsBy(p: Outcome, maxFrame: int, accept: Handler, done: seq<Frame>, frames: seq<Frame>, tail: Bytestring)
  {
    if p.open then GoesOn(accept, done, frames, |frames|) && p.rest == tail && NextFrame(tail, maxFrame).NeedMore?
    else || (GoesOn(accept, done, frames, |frames|) && NextFrame(tail, maxFrame).Illegal?)
         || (frames != [] && GoesOn(accept, done, frames, |frames| - 1) && !accept(done + frames))
  }

  lemma EndsByCons(p: Outcome, maxFrame: int, accept: Handler, done: seq<Frame>, f: Frame, more: seq<Frame>, tail: Bytestring)
    requires accept(done + [f]) && EndsBy(p, maxFrame, accept, done + [f], more, tail)
    ensures EndsBy(p, maxFrame, accept, done, [f] + more, tail)
  {
    hide NextFrame, GoesOn;
    GoesOnCons(accept, done, f, more, |more|);
    if more != [] {
      GoesOnCons(accept, done, f, more, |more| - 1);
    }
    assert (done + [f]) + more == done + ([f] + more);
  }

  /** Conversely, what was parsed is there: frames, each legal and passed to the
      handler, then what made the parse end. */
  lemma {:induction false} ParsedIsUnits(s: Bytestring, maxFrame: int, accept: Handler, done: seq<Frame>)
    returns (frames: seq<Frame>, tail: Bytestring)
    ensures var p := Parse(s, maxFrame, accept, done);
            && p.frames == done + frames && AllLegal(frames, maxFrame) && s == Units(frames) + tail
            && EndsBy(p, maxFrame, accept, done, frames, tail)
    decreases |s|
  {
    hide NextFrame, Unit, EndsBy;
    var p := Parse(s, maxFrame, accept, done);
    frames, tail := [], s;
    assert Units([]) + s == s && done + [] == done;
    match NextFrame(s, maxFrame)
    case NeedMore => assert EndsBy(p, maxFrame, accept, done, [], s) by { EndsAtOnce(p, s, maxFrame, accept, done); }
    case Illegal => assert EndsBy(p, maxFrame, accept, done, [], s) by { EndsAtOnce(p, s, maxFrame, accept, done); }
    case Complete(f, n) =>
      UnitOfNextFrame(s, maxFrame);
      if accept(done + [f]) {
        var more, end := ParsedIsUnits(s[n..], maxFrame, accept, done + [f]);
        frames, tail := [f] + more, end;
        UnitsCons(f, more, tail);
        EndsByCons(p, maxFrame, accept, done, f, more, tail);
        assert (done + [f]) + more == done + frames;
      } else {
        frames, tail := [f], s[n..];
        UnitsCons(f, [], tail);
        assert [f] + [] == [f] && Units([]) + tail == tail;
        EndsByRefusal(p, maxFrame, accept, done, f, tail);
      }
  }

  lemma EndsAtOnce(p: Outcome, s: Bytestring, maxFrame: int, accept: Handler, done: seq<Frame>)
    requires p == Parse(s, maxFrame, accept, done) && !NextFrame(s, maxFrame).Complete?
    ensures EndsBy(p, maxFrame, accept, done, [], s)
  {
  }

  lemma EndsByRefusal(p: Outcome, maxFrame: int, accept: Handler, done: seq<Frame>, f: Frame, tail: Bytestring)
    requires !p.open && !accept(done + [f])
    ensures EndsBy(p, maxFrame, accept, done, [f], tail)
  {
  }

  /** A stream leaves the connection open with given frames handed on and a rest
      exactly when it is these frames, all legal and each answered by the handler
      with going on, followed by an incomplete frame. */
  lemma ParseIffEncoded(s: Bytestring, maxFrame: int, accept: Handler, frames: seq<Frame>, rest: Bytestring)
    ensures Parse(s, maxFrame, accept, []) == Outcome(frames, true, rest)
       <==> && AllLegal(frames, maxFrame) && GoesOn(accept, [], frames, |frames|)
            && s == Units(frames) + rest && NextFrame(rest, maxFrame).NeedMore?
  {
    hide Units, NextFrame;
    var fs, tail := ParsedIsUnits(s, maxFrame, accept, []);
    assert [] + fs == fs && [] + frames == frames;
    if AllLegal(frames, maxFrame) {
      UnitsParse(frames, rest, maxFrame, accept, []);
    }
  }

  /** It closes the connection with given frames handed on exactly when it starts
      with these frames, all legal, and either an illegal length follows or the
      last of them is the first one the handler stops at. */
  lemma CloseIffEncoded(s: Bytestring, maxFrame: int, accept: Handler, frames: seq<Frame>)
    ensures !Parse(s, maxFrame, accept, []).open && Parse(s, maxFrame, accept, []).frames == frames
       <==> && AllLegal(frames, maxFrame) && Units(frames) <= s
            && (|| (GoesOn(accept, [], frames, |frames|) && NextFrame(s[|Units(frames)|..], maxFrame).Illegal?)
                || (frames != [] && GoesOn(accept, [], frames, |frames| - 1) && !accept(frames)))
  {
    hide Units, NextFrame;
    var fs, tail := ParsedIsUnits(s, maxFrame, accept, []);
    assert [] + fs == fs && [] + frames == frames;
    assert s[|Units(fs)|..] == tail;
    if AllLegal(frames, maxFrame) && Units(frames) <= s {
      var rest := s[|Units(frames)|..];
      assert s == Units(frames) + rest;
      UnitsParse(frames, rest, maxFrame, accept, []);
    }
  }

  // ------------------------------------------------------ fed in pieces

  datatype Limits = Limits(maxFrameBuf: int, maxFrame: int)

  ghost predicate Overflows(c: Outcome, data: Bytestring, lim: Limits)
  {
    c.open && |c.rest| + |data| > lim.maxFrameBuf
  }

  /** One read event. A connection that was closed gets no further chunks. */
  ghost function Feed(c: Outcome, data: Bytestring, lim: Limits, accept: Handler): Outcome
  {
    if !c.open then c
    else if Overflows(c, data, lim) then Outcome(c.frames, false, [])
    else Parse(c.rest + data, lim.maxFrame, accept, c.frames)
  }

  ghost function Run(c: Outcome, chunks: seq<Bytestring>, lim: Limits, accept: Handler): Outcome
    decreases |chunks|
  {
    if chunks == [] then c else Run(Feed(c, chunks[0], lim, accept), chunks[1..], lim, accept)
  }

  ghost predicate NeverOverflows(c: Outcome, chunks: seq<Bytestring>, lim: Limits, accept: Handler)
    decreases |chunks|
  {
    chunks == [] || (!Overflows(c, chunks[0], lim) && NeverOverflows(Feed(c, chunks[0], lim, accept), chunks[1..], lim, accept))
  }

  const FRESH := Outcome([], true, [])

  lemma {:induction false} RunFromParsed(seen: Bytestring, chunks: seq<Bytestring>, lim: Limits, accept: Handler, c: Outcome)
    requires var p := Parse(seen, lim.maxFrame, accept, []);
             c.frames == p.frames && c.open == p.open && (c.open ==> c == p)
    requires NeverOverflows(c, chunks, lim, accept)
    ensures var r, p := Run(c, chunks, lim, accept), Parse(seen + Concat(chunks), lim.maxFrame, accept, []);
            r.frames == p.frames && r.open == p.open && (r.open ==> r == p)
    decreases |chunks|
  {
    hide Parse;
    if chunks == [] {
      assert seen + Concat(chunks) == seen;
    } else {
      ParseResumes(seen, chunks[0], lim.maxFrame, accept, []);
      assert (seen + chunks[0]) + Concat(chunks[1..]) == seen + Concat(chunks);
      RunFromParsed(seen + chunks[0], chunks[1..], lim, accept, Feed(c, chunks[0], lim, accept));
    }
  }

  /** However a stream is cut into chunks, as long as no read trips the buffer
      limit, the gateway hands on the same frames and reaches the same verdict
      as one pass over the concatenated stream, and an open connection holds
      exactly the unconsumed suffix. */
  lemma ChunkingIrrelevant(chunks: seq<Bytestring>, lim: Limits, accept: Handler)
    requires NeverOverflows(FRESH, chunks, lim, accept)
    ensures var r, p := Run(FRESH, chunks, lim, accept), Parse(Concat(chunks), lim.maxFrame, accept, []);
            r.frames == p.frames && r.open == p.open && (r.open ==> r == p)
  {
    assert NextFrame([], lim.maxFrame).NeedMore?;
    assert [] + Concat(chunks) == Concat(chunks);
    RunFromParsed([], chunks, lim, accept, FRESH);
  }

  lemma {:induction false} ClosedStays(c: Outcome, chunks: seq<Bytestring>, lim: Limits, accept: Handler)
    requires !c.open
    ensures Run(c, chunks, lim, accept) == c
    decreases |chunks|
  {
    if chunks != [] {
      ClosedStays(c, chunks[1..], lim, accept);
    }
  }

  /** A read that trips the buffer limit closes the connection for good, with
      nothing handed on from it or after it, however legal its frames are. */
  lemma OverflowCloses(c: Outcome, chunks: seq<Bytestring>, lim: Limits, accept: Handler)
    requires chunks != [] && Overflows(c, chunks[0], lim)
    ensures Run(c, chunks, lim, accept) == Outcome(c.frames, false, [])
  {
    ClosedStays(Feed(c, chunks[0], lim, accept), chunks[1..], lim, accept);
  }

  // ------------------------------------------------------ the connection object

  /** One step of the parse, in terms of a buffer and an offset into it. */
  lemma ParseAt(buf: Bytestring, off: nat, maxFrame: int, accept: Handler, done: seq<Frame>)
    requires off <= |buf|
    ensures var p := Parse(buf[off..], maxFrame, accept, done);
            if |buf| - off < 4 then p == Outcome(done, true, buf[off..])
            else
              var n := BigEndian(buf[off..off + 4]);
              if n == 0 || n > Cap(maxFrame) then p == Outcome(done, false, [])
              else if |buf| - off < 4 + n then p == Outcome(done, true, buf[off..])
              else
                var fs := done + [buf[off + 4..off + 4 + n]];
                p == if accept(fs) then Parse(buf[off + 4 + n..], maxFrame, accept, fs)
                     else Outcome(fs, false, buf[off + 4 + n..])
  {
    hide BigEndian, Cap;
    if |buf| - off >= 4 {
      SliceOfSlice(buf, off, 0, 4);
      var n := BigEndian(buf[off..off + 4]);
      if |buf| - off >= 4 + n {
        SliceOfSlice(buf, off, 4, 4 + n);
      }
    }
  }

  /** Per-connection reassembly buffer: FrameBuf[frameOff..] is what has arrived
      and not been consumed. */
  class ConnContext {
    var FrameBuf: Bytestring
    var frameOff: nat

    ghost predicate Valid()
      reads this
    {
      frameOff <= |FrameBuf|
    }

    ghost function Pending(): Bytestring
      requires Valid()
      reads this
    {
      FrameBuf[frameOff..]
    }

    constructor ()
      ensures Valid() && Pending() == []
    {
      FrameBuf, frameOff := [], 0;
    }

    /** Takes one read. `done` lists the frames handed on by earlier calls and
        `delivered` extends it with the ones handed on by this call. */
    method FeedFrames(data: Bytestring, maxFrameBuf: int, maxFrame: int, accept: Handler, done: seq<Frame>)
      returns (ok: bool, delivered: seq<Frame>)
      requires Valid()
      modifies this
      ensures Valid()
      ensures Outcome(delivered, ok, Pending())
           == Feed(Outcome(done, true, old(Pending())), data, Limits(maxFrameBuf, maxFrame), accept)
    {
      hide Parse, BigEndian, Cap;
      delivered := done;
      if |FrameBuf| - frameOff + |data| > maxFrameBuf {
        FrameBuf, frameOff := [], 0;
        return false, delivered;
      }
      if frameOff > 0 {
        FrameBuf := FrameBuf[frameOff..];
        frameOff := 0;
      }
      FrameBuf := FrameBuf + data;
      ghost var stream := FrameBuf;
      assert FrameBuf[0..] == stream == old(Pending()) + data;
      while |FrameBuf| - frameOff >= 4
        invariant Valid()
        invariant Parse(Pending(), maxFrame, accept, delivered) == Parse(stream, maxFrame, accept, done)
        decreases |FrameBuf| - frameOff
      {
        var frameLen := BigEndian(FrameBuf[frameOff..frameOff + 4]);
        ParseAt(FrameBuf, frameOff, maxFrame, accept, delivered);
        if frameLen == 0 || frameLen > Cap(maxFrame) {
          FrameBuf, frameOff := [], 0;
          return false, delivered;
        }
        var totalLen := 4 + frameLen;
        if |FrameBuf| - frameOff < totalLen {
          return true, delivered;
        }
        var frame := FrameBuf[frameOff + 4..frameOff + totalLen];
        frameOff := frameOff + totalLen;
        delivered := delivered + [frame];
        if !accept(delivered) {
          return false, delivered;
        }
      }
      ParseAt(FrameBuf, frameOff, maxFrame, accept, delivered);
      if frameOff == |FrameBuf| {
        FrameBuf, frameOff := [], 0;
      }
      return true, delivered;
    }
  }
}
