/** The frame and buffer limits of the configuration, and why the cross-checks
    of `Validate` are the right ones: they are exactly what keeps the buffer
    limit from closing a connection that is fed byte by byte. */
module FrameLimits {
  import opened Bytes
  import Tcp = TcpFraming
  import Wire = WsFraming
  import Ws = WsSession

  const DEFAULT_MAX_FRAME: int := 4 * 1024 * 1024

  datatype Protection = Protection(maxFrameSize: int, maxFrameBufSize: int, maxWSFrameSize: int, maxWSBufferSize: int)

  /** Zero and negative limits are replaced one by one, without looking at the others. */
  function ApplyRuntimeDefaults(p: Protection): Protection
  {
    Protection(
      if p.maxFrameSize <= 0 then DEFAULT_MAX_FRAME else p.maxFrameSize,
      if p.maxFrameBufSize <= 0 then DEFAULT_MAX_FRAME + 4 else p.maxFrameBufSize,
      if p.maxWSFrameSize <= 0 then DEFAULT_MAX_FRAME else p.maxWSFrameSize,
      if p.maxWSBufferSize <= 0 then DEFAULT_MAX_FRAME + 14 else p.maxWSBufferSize)
  }

  predicate Validate(p: Protection)
  {
    p.maxFrameBufSize >= p.maxFrameSize + 4 && p.maxWSBufferSize >= p.maxWSFrameSize + 14
  }

  /** What Load accepts: defaults first, then validation. */
  predicate Loads(raw: Protection)
  {
    Validate(ApplyRuntimeDefaults(raw))
  }

  function TcpLimits(p: Protection): Tcp.Limits
  {
    Tcp.Limits(p.maxFrameBufSize, p.maxFrameSize)
  }

  function WsLimits(p: Protection): Ws.Limits
    requires p.maxWSFrameSize >= 0
  {
    Ws.Limits(p.maxWSBufferSize, p.maxWSFrameSize)
  }

  /** The reads of a stream that arrives one byte at a time. */
  function Bytewise(s: Bytestring): seq<Bytestring>
  {
    if s == [] then [] else [[s[0]]] + Bytewise(s[1..])
  }

  // ---------------------------------------------------------------- residue

  /** After every read an open TCP connection holds at most maxFrame + 3 bytes. */
  lemma {:induction false} TcpResidue(s: Bytestring, maxFrame: int, accept: Tcp.Handler, done: seq<Tcp.Frame>)
    ensures var p := Tcp.Parse(s, maxFrame, accept, done);
            p.open ==> |p.rest| <= Tcp.Cap(maxFrame) + 3
    decreases |s|
  {
    match Tcp.NextFrame(s, maxFrame)
    case NeedMore =>
    case Illegal =>
    case Complete(f, n) =>
      if accept(done + [f]) {
        TcpResidue(s[n..], maxFrame, accept, done + [f]);
      }
  }

  /** After every read an open WebSocket connection holds at most maxFrame + 13 bytes. */
  lemma {:induction false} WsResidue(s: Bytestring, maxFrame: nat, accept: Ws.Handler, msgs: seq<Ws.Message>, asm: Ws.Assembly)
    ensures var c := Ws.Consume(s, maxFrame, accept, msgs, asm);
            c.open ==> |c.rest| <= maxFrame + 13
    decreases |s|
  {
    match Wire.ParseFrame(s, maxFrame)
    case NeedMore =>
    case TooLarge =>
    case Complete(f, n) =>
      match Ws.React(asm, f, maxFrame)
      case Refuse =>
      case Absorb(next) => WsResidue(s[n..], maxFrame, accept, msgs, next);
      case Deliver(next, m) => WsResidue(s[n..], maxFrame, accept, msgs + [m], next);
  }

  // ---------------------------------------------------------------- room for progress

  /** Reads no larger than the room above the residue bound never trip the limit. */
  lemma {:induction false} TcpSmallReads(c: Tcp.Outcome, chunks: seq<Bytestring>, lim: Tcp.Limits, accept: Tcp.Handler)
    requires c.open ==> |c.rest| <= Tcp.Cap(lim.maxFrame) + 3
    requires forall k :: 0 <= k < |chunks| ==> |chunks[k]| <= lim.maxFrameBuf - (Tcp.Cap(lim.maxFrame) + 3)
    ensures Tcp.NeverOverflows(c, chunks, lim, accept)
    decreases |chunks|
  {
    if chunks != [] {
      hide Tcp.Parse, Tcp.Cap;
      if c.open {
        TcpResidue(c.rest + chunks[0], lim.maxFrame, accept, c.frames);
      }
      TcpSmallReads(Tcp.Feed(c, chunks[0], lim, accept), chunks[1..], lim, accept);
    }
  }

  lemma {:induction false} WsSmallReads(c: Ws.Session, chunks: seq<Bytestring>, lim: Ws.Limits, accept: Ws.Handler)
    requires c.open ==> |c.rest| <= lim.maxFrame + 13
    requires forall k :: 0 <= k < |chunks| ==> |chunks[k]| <= lim.maxBuffer - (lim.maxFrame + 13)
    ensures Ws.NeverOverflows(c, chunks, lim, accept)
    decreases |chunks|
  {
    if chunks != [] {
      hide Ws.Consume;
      if c.open {
        WsResidue(c.rest + chunks[0], lim.maxFrame, accept, c.msgs, c.asm);
      }
      WsSmallReads(Ws.Feed(c, chunks[0], lim, accept), chunks[1..], lim, accept);
    }
  }

  lemma {:induction false} BytewiseReads(s: Bytestring)
    ensures |Bytewise(s)| == |s| && forall k :: 0 <= k < |s| ==> Bytewise(s)[k] == [s[k]]
    ensures Concat(Bytewise(s)) == s
  {
    if s != [] {
      BytewiseReads(s[1..]);
      assert s == [s[0]] + s[1..];
    }
  }

  lemma {:induction false} TcpBytesPileUp(c: Tcp.Outcome, s: Bytestring, lim: Tcp.Limits, accept: Tcp.Handler)
    requires c.open && s != [] && Tcp.NeverOverflows(c, Bytewise(s), lim, accept)
    requires forall k :: 0 <= k < |s| ==> Tcp.NextFrame(c.rest + s[..k], lim.maxFrame).NeedMore?
    ensures |c.rest| + |s| <= lim.maxFrameBuf
    decreases |s|
  {
    hide Tcp.NextFrame;
    assert Bytewise(s)[0] == [s[0]] && Bytewise(s)[1..] == Bytewise(s[1..]);
    if |s| > 1 {
      assert s[..1] == [s[0]];
      var d := Tcp.Feed(c, [s[0]], lim, accept);
      assert d == Tcp.Outcome(c.frames, true, c.rest + [s[0]]);
      forall k | 0 <= k < |s| - 1
        ensures Tcp.NextFrame(d.rest + s[1..][..k], lim.maxFrame).NeedMore?
      {
        assert d.rest + s[1..][..k] == c.rest + s[..k + 1];
      }
      TcpBytesPileUp(d, s[1..], lim, accept);
    }
  }

  lemma {:induction false} WsBytesPileUp(c: Ws.Session, s: Bytestring, lim: Ws.Limits, accept: Ws.Handler)
    requires c.open && s != [] && Ws.NeverOverflows(c, Bytewise(s), lim, accept)
    requires forall k :: 0 <= k < |s| ==> Wire.ParseFrame(c.rest + s[..k], lim.maxFrame).NeedMore?
    ensures |c.rest| + |s| <= lim.maxBuffer
    decreases |s|
  {
    hide Wire.ParseFrame;
    assert Bytewise(s)[0] == [s[0]] && Bytewise(s)[1..] == Bytewise(s[1..]);
    if |s| > 1 {
      assert s[..1] == [s[0]];
      var d := Ws.Feed(c, [s[0]], lim, accept);
      assert d == Ws.Session(c.msgs, c.asm, true, c.rest + [s[0]]);
      forall k | 0 <= k < |s| - 1
        ensures Wire.ParseFrame(d.rest + s[1..][..k], lim.maxFrame).NeedMore?
      {
        assert d.rest + s[1..][..k] == c.rest + s[..k + 1];
      }
      WsBytesPileUp(d, s[1..], lim, accept);
    }
  }

  ghost predicate TcpBytewiseSafe(lim: Tcp.Limits, accept: Tcp.Handler)
  {
    forall s :: Tcp.NeverOverflows(Tcp.FRESH, Bytewise(s), lim, accept)
  }

  /** The buffer has room for the largest legal frame and its prefix exactly when no
      stream that arrives byte by byte is ever closed for overflow. Below 2^32 that
      is the TCP cross-check of Validate. */
  lemma TcpLimitsExact(lim: Tcp.Limits, accept: Tcp.Handler)
    ensures lim.maxFrameBuf >= Tcp.Cap(lim.maxFrame) + 4 <==> TcpBytewiseSafe(lim, accept)
    ensures 0 <= lim.maxFrame < TWO_32 ==> (lim.maxFrameBuf >= lim.maxFrame + 4 <==> TcpBytewiseSafe(lim, accept))
  {
    var cap := Tcp.Cap(lim.maxFrame);
    assert 0 <= lim.maxFrame < TWO_32 ==> cap == lim.maxFrame;
    if lim.maxFrameBuf >= cap + 4 {
      forall s ensures Tcp.NeverOverflows(Tcp.FRESH, Bytewise(s), lim, accept) {
        BytewiseReads(s);
        TcpSmallReads(Tcp.FRESH, Bytewise(s), lim, accept);
      }
    } else if TcpBytewiseSafe(lim, accept) {
      TcpNeedsRoom(lim, accept);
    }
  }

  /** Bytewise safety needs room for a header, and for the largest legal frame. */
  lemma TcpNeedsRoom(lim: Tcp.Limits, accept: Tcp.Handler)
    requires TcpBytewiseSafe(lim, accept)
    ensures lim.maxFrameBuf >= Tcp.Cap(lim.maxFrame) + 4
  {
    var f: Tcp.Frame := seq(Tcp.Cap(lim.maxFrame), _ => 0);
    var w := Unit(f);
    forall k | 0 <= k < |w|
      ensures Tcp.NextFrame([] + w[..k], lim.maxFrame).NeedMore?
    {
      if f != [] {
        TcpStrictPrefix(f, k, lim.maxFrame);
      }
      assert [] + w[..k] == w[..k];
    }
    hide Tcp.NextFrame;
    TcpBytesPileUp(Tcp.FRESH, w, lim, accept);
  }

  lemma TcpStrictPrefix(f: Tcp.Frame, k: nat, maxFrame: int)
    requires Tcp.Legal(f, maxFrame) && k < 4 + |f|
    ensures Tcp.NextFrame(Unit(f)[..k], maxFrame).NeedMore?
  {
    var w := Unit(f);
    assert w[..k] + w[k..] == w == w + [];
    Tcp.NextFrameOfUnit(f, [], maxFrame);
    Tcp.NextFrameStable(w[..k], w[k..], maxFrame);
  }

  ghost predicate WsBytewiseSafe(lim: Ws.Limits, accept: Ws.Handler)
  {
    forall s :: Ws.NeverOverflows(Ws.FRESH, Bytewise(s), lim, accept)
  }

  /** The same for WebSocket: a masked frame with the 64-bit length form needs
      all fourteen header bytes. */
  lemma WsLimitsExact(lim: Ws.Limits, accept: Ws.Handler)
    requires lim.maxFrame < TWO_64
    ensures lim.maxBuffer >= lim.maxFrame + 14 <==> WsBytewiseSafe(lim, accept)
  {
    if lim.maxBuffer >= lim.maxFrame + 14 {
      forall s ensures Ws.NeverOverflows(Ws.FRESH, Bytewise(s), lim, accept) {
        BytewiseReads(s);
        WsSmallReads(Ws.FRESH, Bytewise(s), lim, accept);
      }
    } else if WsBytewiseSafe(lim, accept) {
      var f := seq(lim.maxFrame, _ => 0);
      var key: MaskKey := [0, 0, 0, 0];
      var w := Wire.Wire(0x82, Wire.SixtyFour, Wire.Keyed(key), f);
      assert |w| == lim.maxFrame + 14;
      forall k | 0 <= k < |w|
        ensures Wire.ParseFrame([] + w[..k], lim.maxFrame).NeedMore?
      {
        Wire.StrictPrefixNeedsMore(0x82, Wire.SixtyFour, Wire.Keyed(key), f, k, lim.maxFrame);
        assert [] + w[..k] == w[..k];
      }
      WsBytesPileUp(Ws.FRESH, w, lim, accept);
    }
  }

  /** A limit that is set is kept, and one that is not becomes its default, which
      are consistent with each other. */
  lemma DefaultsFillIn(raw: Protection)
    ensures var p := ApplyRuntimeDefaults(raw);
            && p.maxFrameSize > 0 && p.maxFrameBufSize > 0 && p.maxWSFrameSize > 0 && p.maxWSBufferSize > 0
            && (raw.maxFrameSize > 0 ==> p.maxFrameSize == raw.maxFrameSize)
            && (raw.maxFrameBufSize > 0 ==> p.maxFrameBufSize == raw.maxFrameBufSize)
            && (raw.maxWSFrameSize > 0 ==> p.maxWSFrameSize == raw.maxWSFrameSize)
            && (raw.maxWSBufferSize > 0 ==> p.maxWSBufferSize == raw.maxWSBufferSize)
            && ApplyRuntimeDefaults(p) == p
    ensures raw.maxFrameSize <= 0 && raw.maxFrameBufSize <= 0 && raw.maxWSFrameSize <= 0 && raw.maxWSBufferSize <= 0 ==>
              Loads(raw) && ApplyRuntimeDefaults(raw).maxFrameSize == ApplyRuntimeDefaults(raw).maxWSFrameSize == 4194304
  {
  }

  /** A configuration loads if and only if, with its defaults filled in, no stream
      that arrives byte by byte is ever closed for overflow on either transport; for
      a TCP frame limit from 2^32 on, of which only the low 32 bits count, the
      cross-check asks for more. */
  lemma LoadsExactly(raw: Protection, tcpAccept: Tcp.Handler, wsAccept: Ws.Handler)
    requires raw.maxWSFrameSize < TWO_64
    ensures var p := ApplyRuntimeDefaults(raw);
            Loads(raw) <==>
              && p.maxWSFrameSize >= 0 && TcpBytewiseSafe(TcpLimits(p), tcpAccept) && WsBytewiseSafe(WsLimits(p), wsAccept)
              && (p.maxFrameSize >= TWO_32 ==> p.maxFrameBufSize >= p.maxFrameSize + 4)
  {
    hide TcpBytewiseSafe, WsBytewiseSafe;
    var p := ApplyRuntimeDefaults(raw);
    CapBelow(p.maxFrameSize);
    TcpLimitsExact(TcpLimits(p), tcpAccept);
    WsLimitsExact(WsLimits(p), wsAccept);
  }

  /** Every frame up to the configured size is legal if and only if the size has no
      more than 32 bits, or its low 32 bits are all set. */
  lemma LimitHoldsExactly(maxFrame: nat)
    ensures (forall f: Tcp.Frame :: 0 < |f| <= maxFrame && |f| < TWO_32 ==> Tcp.Legal(f, maxFrame)) <==>
              maxFrame < TWO_32 || maxFrame % TWO_32 == TWO_32 - 1
  {
    if maxFrame >= TWO_32 {
      var largest: Tcp.Frame := seq(TWO_32 - 1, _ => 0);
      assert Tcp.Legal(largest, maxFrame) <==> maxFrame % TWO_32 == TWO_32 - 1;
    }
  }

  /** A configuration that asks for frames of 2^32 bytes loads, and hands no frame on:
      four bytes close the connection. */
  lemma HugeLimitRefusesAll(s: Bytestring, accept: Tcp.Handler)
    ensures var raw := Protection(TWO_32, TWO_32 + 4, 0, 0);
            && Loads(raw)
            && Tcp.Parse(s, ApplyRuntimeDefaults(raw).maxFrameSize, accept, [])
               == if |s| < 4 then Tcp.Outcome([], true, s) else Tcp.Outcome([], false, [])
  {
    assert Tcp.Cap(TWO_32) == 0;
  }

  /** Every configuration that loads leaves room for progress on both
      transports: byte by byte nothing overflows, and a legal frame that arrives
      whole on an empty buffer fits. */
  lemma LoadedLimitsLeaveRoom(raw: Protection, tcpAccept: Tcp.Handler, wsAccept: Ws.Handler, s: Bytestring)
    requires Loads(raw)
    ensures var p := ApplyRuntimeDefaults(raw);
            && p.maxFrameSize > 0 && p.maxWSFrameSize > 0
            && Tcp.NeverOverflows(Tcp.FRESH, Bytewise(s), TcpLimits(p), tcpAccept)
            && Ws.NeverOverflows(Ws.FRESH, Bytewise(s), WsLimits(p), wsAccept)
    ensures var p := ApplyRuntimeDefaults(raw);
            && (forall f :: Tcp.Legal(f, p.maxFrameSize) ==> !Tcp.Overflows(Tcp.FRESH, Unit(f), TcpLimits(p)))
            && (|s| <= p.maxWSFrameSize + 14 ==> !Ws.Overflows(Ws.FRESH, s, WsLimits(p)))
  {
    var p := ApplyRuntimeDefaults(raw);
    BytewiseReads(s);
    CapBelow(p.maxFrameSize);
    TcpSmallReads(Tcp.FRESH, Bytewise(s), TcpLimits(p), tcpAccept);
    WsSmallReads(Ws.FRESH, Bytewise(s), WsLimits(p), wsAccept);
  }

  lemma CapBelow(maxFrame: nat)
    ensures Tcp.Cap(maxFrame) <= maxFrame
  {
  }
}
