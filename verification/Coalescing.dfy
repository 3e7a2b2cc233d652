/** Write coalescing on one client connection: pushes are appended to a buffer
    as [4-byte length][payload] units, and a flush writes the whole buffer, for
    WebSocket clients re-framed as binary frames. The client must be able to
    read back exactly the payloads that were pushed. */
module Coalescing {
  import opened Common
  import opened Bytes
  import opened WsFraming

  // ---------------------------------------------------------------- formats

  /** What a TCP client makes of a stream of units, if it ends on a boundary. */
  function SplitUnits(s: Bytestring): Option<seq<Bytestring>>
    decreases |s|
  {
    if s == [] then Some([])
    else if |s| < 4 then None
    else
      var n := BigEndian(s[..4]);
      if |s| < 4 + n then None
      else
        match SplitUnits(s[4 + n..])
        case None => None
        case Some(ps) => Some([s[4..4 + n]] + ps)
  }

  predicate AllShort(ps: seq<Bytestring>)
  {
    forall k :: 0 <= k < |ps| ==> |ps[k]| < TWO_32
  }

  function BinaryFrames(ps: seq<Bytestring>): Bytestring
  {
    if ps == [] then [] else EncodeWSFrame(0x82, ps[0]) + BinaryFrames(ps[1..])
  }

  /** What a WebSocket client makes of a stream of unfragmented binary frames. */
  function SplitFrames(s: Bytestring): Option<seq<Bytestring>>
    decreases |s|
  {
    if s == [] then Some([])
    else
      match ParseFrame(s, |s|)
      case NeedMore => None
      case TooLarge => None
      case Complete(f, n) =>
        if !f.fin || f.op != BINARY || f.masked then None
        else
          match SplitFrames(s[n..])
          case None => None
          case Some(ps) => Some([f.payload] + ps)
  }

  lemma SplitUnitsHead(p: Bytestring, tail: Bytestring)
    requires |p| < TWO_32
    ensures var s := Unit(p) + tail;
            |s| >= 4 + |p| && BigEndian(s[..4]) == |p| && s[4..4 + |p|] == p && s[4 + |p|..] == tail
  {
    var s := Unit(p) + tail;
    assert s[..4] == ToBigEndian(|p|, 4);
    Pow256Values();
    BigEndianExact(|p|, 4);
  }

  lemma {:induction false} SplitUnitsOfShort(ps: seq<Bytestring>)
    requires AllShort(ps)
    ensures SplitUnits(Units(ps)) == Some(ps)
  {
    if ps != [] {
      hide Unit, BigEndian;
      SplitUnitsHead(ps[0], Units(ps[1..]));
      SplitUnitsOfShort(ps[1..]);
      assert [ps[0]] + ps[1..] == ps;
    }
  }

  lemma {:induction false} ShortOfSplitUnits(ps: seq<Bytestring>)
    requires SplitUnits(Units(ps)) == Some(ps)
    ensures AllShort(ps)
  {
    if ps != [] {
      var s := Units(ps);
      var n := BigEndian(s[..4]);
      Pow256Values();
      BigEndianBound(s[..4]);
      assert s[4..4 + n] == ps[0];
      assert s[4 + n..] == Units(ps[1..]);
      ShortOfSplitUnits(ps[1..]);
      forall k | 0 <= k < |ps| ensures |ps[k]| < TWO_32 {
        assert k > 0 ==> ps[k] == ps[1..][k - 1];
      }
    }
  }

  /** A TCP client reads back exactly the pushed payloads if and only if every
      payload is shorter than 2^32 bytes. */
  lemma SplitUnitsIff(ps: seq<Bytestring>)
    ensures SplitUnits(Units(ps)) == Some(ps) <==> AllShort(ps)
  {
    if AllShort(ps) {
      SplitUnitsOfShort(ps);
    }
    if SplitUnits(Units(ps)) == Some(ps) {
      ShortOfSplitUnits(ps);
    }
  }

  lemma ParseBinaryFrame(p: Bytestring, tail: Bytestring)
    requires |p| < TWO_64
    ensures var head := EncodeWSFrame(0x82, p);
            var s := head + tail;
            && ParseFrame(s, |s|) == Complete(WireFrame(true, BINARY, false, p), |head|)
            && s[|head|..] == tail
  {
    var head := EncodeWSFrame(0x82, p);
    assert |p| <= |head| <= |head + tail|;
    ParseEncoded(0x82, p, tail, |head + tail|);
  }

  /** A WebSocket client reads back exactly the payloads, in order. */
  lemma {:induction false} SplitFramesOfEncoded(ps: seq<Bytestring>)
    requires forall k :: 0 <= k < |ps| ==> |ps[k]| < TWO_64
    ensures SplitFrames(BinaryFrames(ps)) == Some(ps)
  {
    hide ParseFrame, EncodeWSFrame;
    if ps != [] {
      ParseBinaryFrame(ps[0], BinaryFrames(ps[1..]));
      SplitFramesOfEncoded(ps[1..]);
      assert [ps[0]] + ps[1..] == ps;
    }
  }

  // ---------------------------------------------------------------- re-framing

  /** [len][payload]* turned into binary frames; None if the units do not line up. */
  function Reframe(data: Bytestring): Option<Bytestring>
    decreases |data|
  {
    if data == [] then Some([])
    else if |data| < 4 then None
    else
      var n := BigEndian(data[..4]);
      if |data| < 4 + n then None
      else
        match Reframe(data[4 + n..])
        case None => None
        case Some(out) => Some(EncodeWSFrame(0x82, data[4..4 + n]) + out)
  }

  /** Re-framing succeeds exactly on what a TCP client could read, and then a
      WebSocket client reads the same payloads from its output. */
  lemma {:induction false} ReframeMeaning(data: Bytestring)
    ensures var ps := SplitUnits(data);
            if ps.None? then Reframe(data) == None
            else Reframe(data) == Some(BinaryFrames(ps.value))
    decreases |data|
  {
    hide BigEndian, EncodeWSFrame;
    if |data| >= 4 {
      var n := BigEndian(data[..4]);
      if |data| >= 4 + n {
        ReframeMeaning(data[4 + n..]);
        if SplitUnits(data[4 + n..]).Some? {
          var ps := SplitUnits(data).value;
          assert ps[0] == data[4..4 + n] && ps[1..] == SplitUnits(data[4 + n..]).value;
        }
      }
    }
  }

  /** Re-framing never fails on a buffer built from appended payloads shorter
      than 2^32 bytes, and yields one frame per payload. */
  lemma ReframeOfUnits(ps: seq<Bytestring>)
    requires AllShort(ps)
    ensures Reframe(Units(ps)) == Some(BinaryFrames(ps))
  {
    SplitUnitsOfShort(ps);
    ReframeMeaning(Units(ps));
  }

  function Prepend(out: Bytestring, r: Option<Bytestring>): Option<Bytestring>
  {
    match r case None => None case Some(more) => Some(out + more)
  }

  /** One step of re-framing, in terms of an offset into the buffer. */
  lemma ReframeAt(data: Bytestring, off: nat, out: Bytestring)
    requires off <= |data|
    ensures var r := Prepend(out, Reframe(data[off..]));
            if off + 4 > |data| then r == if off == |data| then Some(out) else None
            else
              var n := BigEndian(data[off..off + 4]);
              if off + 4 + n > |data| then r == None
              else r == Prepend(out + EncodeWSFrame(0x82, data[off + 4..off + 4 + n]), Reframe(data[off + 4 + n..]))
  {
    hide BigEndian, EncodeWSFrame;
    if off + 4 > |data| {
      assert out + [] == out;
    } else {
      SliceOfSlice(data, off, 0, 4);
      var n := BigEndian(data[off..off + 4]);
      if off + 4 + n <= |data| {
        SliceOfSlice(data, off, 4, 4 + n);
        var frame, next := EncodeWSFrame(0x82, data[off + 4..off + 4 + n]), Reframe(data[off + 4 + n..]);
        assert next.Some? ==> out + (frame + next.value) == (out + frame) + next.value;
      }
    }
  }

  method ReframeCoalescedAsWSFrames(data: Bytestring) returns (result: Option<Bytestring>)
    ensures result == Reframe(data)
  {
    if |data| == 0 {
      return Some(data);
    }
    var out: Bytestring := [];
    var off := 0;
    assert data[0..] == data && Prepend([], Reframe(data)) == Reframe(data) by {
      var r := Reframe(data);
      assert r.Some? ==> [] + r.value == r.value;
    }
    hide Reframe, Prepend, BigEndian, EncodeWSFrame;
    while off + 4 <= |data|
      invariant 0 <= off <= |data|
      invariant Reframe(data) == Prepend(out, Reframe(data[off..]))
      decreases |data| - off
    {
      ReframeAt(data, off, out);
      var n := BigEndian(data[off..off + 4]);
      off := off + 4;
      if off + n > |data| {
        return None;
      }
      out := out + EncodeWSFrame(0x82, data[off..off + n]);
      off := off + n;
    }
    ReframeAt(data, off, out);
    if off != |data| {
      return None;
    }
    return Some(out);
  }

  // ---------------------------------------------------------------- the connection

  /** Coalescing state of a connection. */
  datatype Sink = Sink(data: Bytestring, count: nat, sent: Bytestring, pushed: nat)

  const EMPTY := Sink([], 0, [], 0)

  function Append(s: Sink, p: Bytestring): Sink
  {
    s.(data := s.data + Unit(p), count := s.count + 1)
  }

  /** What a flush of `data` hands to the socket. */
  function Output(isWS: bool, data: Bytestring): Bytestring
  {
    if isWS then (match Reframe(data) case None => data case Some(out) => out) else data
  }

  /** A TCP client gets the buffer as it is; a WebSocket client gets frames with the
      same payloads, or the buffer as it is if it holds none. */
  lemma OutputMeans(isWS: bool, data: Bytestring)
    ensures var ps := SplitUnits(data);
            if isWS && ps.Some? then SplitFrames(Output(isWS, data)) == ps else Output(isWS, data) == data
  {
    hide SplitUnits, SplitFrames, Reframe;
    ReframeMeaning(data);
    if SplitUnits(data).Some? {
      SplitIsShort(data);
      SplitFramesOfEncoded(SplitUnits(data).value);
    }
  }

  lemma {:induction false} SplitIsShort(data: Bytestring)
    ensures SplitUnits(data).Some? ==> AllShort(SplitUnits(data).value)
    decreases |data|
  {
    if |data| >= 4 {
      hide BigEndian;
      BigEndianBound(data[..4]);
      Pow256Values();
      var n := BigEndian(data[..4]);
      if |data| >= 4 + n {
        SplitIsShort(data[4 + n..]);
      }
    }
  }

  /** `written` says whether the asynchronous write was accepted; the buffer is
      gone in either case. */
  function Flush(s: Sink, isWS: bool, written: bool): Sink
  {
    if s.count == 0 then s
    else if written then Sink([], 0, s.sent + Output(isWS, s.data), s.pushed + s.count)
    else s.(data := [], count := 0)
  }

  class Connection {
    var coalescedData: Bytestring
    var coalescedCount: nat
    var isWS: bool
    ghost var sent: Bytestring
    ghost var pushed: nat

    ghost function State(): Sink
      reads this
    {
      Sink(coalescedData, coalescedCount, sent, pushed)
    }

    constructor (ws: bool)
      ensures State() == EMPTY && isWS == ws
    {
      coalescedData, coalescedCount, isWS, sent, pushed := [], 0, ws, [], 0;
    }

    method AppendCoalesced(payload: Bytestring)
      modifies this`coalescedData, this`coalescedCount
      ensures State() == Append(old(State()), payload)
    {
      coalescedData := coalescedData + ToBigEndian(|payload|, 4);
      coalescedData := coalescedData + payload;
      coalescedCount := coalescedCount + 1;
      assert coalescedData == old(coalescedData) + Unit(payload);
    }

    /** Returns the number of messages written and the bytes given to the socket. */
    method FlushCoalesced(written: bool) returns (n: nat, out: Option<Bytestring>)
      modifies this`coalescedData, this`coalescedCount, this`sent, this`pushed
      ensures State() == Flush(old(State()), isWS, written)
      ensures n == pushed - old(pushed)
      ensures out == if old(coalescedCount) == 0 then None else Some(Output(isWS, old(coalescedData)))
    {
      if coalescedCount == 0 {
        return 0, None;
      }
      var data, count := coalescedData, coalescedCount;
      coalescedData, coalescedCount := [], 0;
      if isWS {
        var reframed := ReframeCoalescedAsWSFrames(data);
        if reframed.Some? {
          data := reframed.value;
        }
      }
      out := Some(data);
      if !written {
        return 0, out;
      }
      sent, pushed := sent + data, pushed + count;
      return count, out;
    }
  }

  // ---------------------------------------------------------------- whole runs

  /** A flush comes with the answer of the asynchronous write. */
  datatype Op = Push(payload: Bytestring) | FlushNow(written: bool)

  /** Payloads still waiting after a run. */
  function Waiting(ops: seq<Op>): seq<Bytestring>
  {
    if ops == [] then []
    else
      match ops[|ops| - 1]
      case FlushNow(_) => []
      case Push(p) => Waiting(ops[..|ops| - 1]) + [p]
  }

  /** Payloads of the flushes whose write was accepted. */
  function Done(ops: seq<Op>): seq<Bytestring>
  {
    if ops == [] then []
    else
      var front := ops[..|ops| - 1];
      match ops[|ops| - 1]
      case FlushNow(true) => Done(front) + Waiting(front)
      case _ => Done(front)
  }

  function Pushed(ops: seq<Op>): seq<Bytestring>
  {
    if ops == [] then []
    else
      var front := Pushed(ops[..|ops| - 1]);
      match ops[|ops| - 1]
      case FlushNow(_) => front
      case Push(p) => front + [p]
  }

  /** What became of each payload that was flushed. */
  datatype Fate = Fate(payload: Bytestring, written: bool)

  function Fates(ps: seq<Bytestring>, written: bool): seq<Fate>
  {
    seq(|ps|, k requires 0 <= k < |ps| => Fate(ps[k], written))
  }

  function Settled(ops: seq<Op>): seq<Fate>
  {
    if ops == [] then []
    else
      var front := ops[..|ops| - 1];
      match ops[|ops| - 1]
      case FlushNow(written) => Settled(front) + Fates(Waiting(front), written)
      case Push(_) => Settled(front)
  }

  function Payloads(fs: seq<Fate>): seq<Bytestring>
  {
    seq(|fs|, k requires 0 <= k < |fs| => fs[k].payload)
  }

  function Written(fs: seq<Fate>): seq<Bytestring>
  {
    if fs == [] then []
    else
      var last := fs[|fs| - 1];
      Written(fs[..|fs| - 1]) + if last.written then [last.payload] else []
  }

  lemma WrittenSnoc(fs: seq<Fate>, f: Fate)
    ensures Written(fs + [f]) == Written(fs) + if f.written then [f.payload] else []
  {
    assert (fs + [f])[..|fs|] == fs;
  }

  lemma FatesSnoc(fs: seq<Fate>, ps: seq<Bytestring>, written: bool)
    requires ps != []
    ensures var n := |ps| - 1;
            fs + Fates(ps, written) == (fs + Fates(ps[..n], written)) + [Fate(ps[n], written)]
  {
  }

  lemma {:induction false} WrittenFates(fs: seq<Fate>, ps: seq<Bytestring>, written: bool)
    ensures Written(fs + Fates(ps, written)) == Written(fs) + if written then ps else []
    decreases |ps|
  {
    hide Written;
    if ps == [] {
      assert fs + Fates(ps, written) == fs && Written(fs) + [] == Written(fs);
    } else {
      var n := |ps| - 1;
      FatesSnoc(fs, ps, written);
      WrittenFates(fs, ps[..n], written);
      WrittenSnoc(fs + Fates(ps[..n], written), Fate(ps[n], written));
      if written {
        assert (Written(fs) + ps[..n]) + [ps[n]] == Written(fs) + ps;
      } else {
        assert (Written(fs) + []) + [] == Written(fs) + [];
      }
    }
  }

  lemma PayloadsOf(fs: seq<Fate>, ps: seq<Bytestring>, written: bool)
    ensures Payloads(fs + Fates(ps, written)) == Payloads(fs) + ps
  {
  }

  lemma {:induction false} WaitingIsLast(ops: seq<Op>)
    ensures Payloads(Settled(ops)) + Waiting(ops) == Pushed(ops)
  {
    hide Payloads, Fates;
    if ops == [] {
      assert Payloads([]) == [] by { NoPayloads(); }
    } else {
      var front := ops[..|ops| - 1];
      WaitingIsLast(front);
      match ops[|ops| - 1]
      case Push(p) => ConcatAssociates(Payloads(Settled(front)), Waiting(front), [p]);
      case FlushNow(written) => PayloadsOf(Settled(front), Waiting(front), written);
    }
  }

  lemma NoPayloads()
    ensures Payloads([]) == []
  {
  }

  lemma {:induction false} DoneIsWritten(ops: seq<Op>)
    ensures Done(ops) == Written(Settled(ops))
  {
    hide Written, Fates, Waiting;
    if ops == [] {
      assert Written([]) == [] by { NoneWritten(); }
    } else {
      var front := ops[..|ops| - 1];
      DoneIsWritten(front);
      if ops[|ops| - 1].FlushNow? {
        WrittenFates(Settled(front), Waiting(front), ops[|ops| - 1].written);
      }
    }
  }

  lemma NoneWritten()
    ensures Written([]) == []
  {
  }

  predicate NothingRefused(ops: seq<Op>)
  {
    forall k :: 0 <= k < |ops| && ops[k].FlushNow? ==> ops[k].written
  }

  lemma {:induction false} DoneThenWaiting(ops: seq<Op>)
    requires NothingRefused(ops)
    ensures Done(ops) + Waiting(ops) == Pushed(ops)
  {
    if ops != [] {
      var front := ops[..|ops| - 1];
      DoneThenWaiting(front);
      if ops[|ops| - 1].Push? {
        ConcatAssociates(Done(front), Waiting(front), [ops[|ops| - 1].payload]);
      }
    }
  }

  /** Every payload is written, refused or waiting, exactly once and in push order,
      and what the flushes wrote are the written ones; without a refusal nothing
      is missing. */
  lemma EveryPayloadOnce(ops: seq<Op>)
    ensures Payloads(Settled(ops)) + Waiting(ops) == Pushed(ops)
    ensures Done(ops) == Written(Settled(ops))
    ensures NothingRefused(ops) ==> Done(ops) + Waiting(ops) == Pushed(ops)
  {
    hide Done, Waiting, Settled, Written, Payloads, Pushed;
    WaitingIsLast(ops);
    DoneIsWritten(ops);
    if NothingRefused(ops) {
      DoneThenWaiting(ops);
    }
  }

  /** The bytes that make up a list of payloads on this transport. */
  function Encoded(isWS: bool, ps: seq<Bytestring>): Bytestring
  {
    if isWS then BinaryFrames(ps) else Units(ps)
  }

  function Run(ops: seq<Op>, isWS: bool): Sink
  {
    if ops == [] then EMPTY
    else
      var prev := Run(ops[..|ops| - 1], isWS);
      match ops[|ops| - 1]
      case Push(p) => Append(prev, p)
      case FlushNow(written) => Flush(prev, isWS, written)
  }

  lemma UnitsSnoc(ps: seq<Bytestring>, p: Bytestring)
    ensures Units(ps + [p]) == Units(ps) + Unit(p)
  {
    UnitsAppend(ps, [p]);
    assert Units([p]) == Unit(p) + Units([]);
  }

  lemma {:induction false} UnitsAppend(a: seq<Bytestring>, b: seq<Bytestring>)
    ensures Units(a + b) == Units(a) + Units(b)
  {
    hide Unit;
    if a == [] {
      assert a + b == b;
    } else {
      assert (a + b)[1..] == a[1..] + b;
      UnitsAppend(a[1..], b);
    }
  }

  lemma {:induction false} BinaryFramesAppend(a: seq<Bytestring>, b: seq<Bytestring>)
    ensures BinaryFrames(a + b) == BinaryFrames(a) + BinaryFrames(b)
  {
    hide EncodeWSFrame;
    if a == [] {
      assert a + b == b;
    } else {
      assert (a + b)[1..] == a[1..] + b;
      BinaryFramesAppend(a[1..], b);
    }
  }

  lemma OutputOfUnits(isWS: bool, ps: seq<Bytestring>)
    requires AllShort(ps)
    ensures Output(isWS, Units(ps)) == Encoded(isWS, ps)
  {
    ReframeOfUnits(ps);
  }

  lemma ShortHalves(a: seq<Bytestring>, b: seq<Bytestring>)
    requires AllShort(a + b)
    ensures AllShort(a) && AllShort(b)
  {
    assert forall k :: 0 <= k < |a| ==> a[k] == (a + b)[k];
    assert forall k :: 0 <= k < |b| ==> b[k] == (a + b)[|a| + k];
  }

  lemma ShortJoined(a: seq<Bytestring>, b: seq<Bytestring>)
    requires AllShort(a) && AllShort(b)
    ensures AllShort(a + b)
  {
  }

  lemma {:induction false} ShortParts(ops: seq<Op>)
    requires AllShort(Pushed(ops))
    ensures AllShort(Done(ops)) && AllShort(Waiting(ops))
    ensures ops != [] ==> AllShort(Pushed(ops[..|ops| - 1]))
    decreases |ops|
  {
    if ops == [] {
      assert AllShort([]);
    } else {
      var front := ops[..|ops| - 1];
      match ops[|ops| - 1]
      case Push(p) =>
        ShortHalves(Pushed(front), [p]);
        ShortParts(front);
        ShortJoined(Waiting(front), [p]);
      case FlushNow(written) =>
        ShortParts(front);
        ShortJoined(Done(front), Waiting(front));
    }
  }

  /** In every run, whichever writes are accepted, the buffer holds exactly the
      waiting payloads and the socket got exactly the encodings of the written ones. */
  lemma {:induction false} RunState(ops: seq<Op>, isWS: bool)
    requires AllShort(Pushed(ops))
    ensures Run(ops, isWS) == Sink(Units(Waiting(ops)), |Waiting(ops)|, Encoded(isWS, Done(ops)), |Done(ops)|)
    decreases |ops|
  {
    hide Unit, Output, AllShort;
    ShortParts(ops);
    if ops != [] {
      var front := ops[..|ops| - 1];
      RunState(front, isWS);
      ShortParts(front);
      match ops[|ops| - 1]
      case Push(p) =>
        UnitsSnoc(Waiting(front), p);
      case FlushNow(written) =>
        if Waiting(front) == [] {
          assert Done(ops) == Done(front);
        } else if written {
          OutputOfUnits(isWS, Waiting(front));
          UnitsAppend(Done(front), Waiting(front));
          BinaryFramesAppend(Done(front), Waiting(front));
        }
    }
  }

  /** In every run the client decodes from everything written so far exactly the
      payloads whose write was accepted, in push order, on either transport, and
      the counters agree. While writes are accepted, these and the waiting ones are
      all that was pushed. */
  lemma ClientReadsWhatWasPushed(ops: seq<Op>, isWS: bool)
    requires AllShort(Pushed(ops))
    ensures var s := Run(ops, isWS);
            && (if isWS then SplitFrames(s.sent) else SplitUnits(s.sent)) == Some(Done(ops))
            && SplitUnits(s.data) == Some(Waiting(ops))
            && s.pushed == |Done(ops)| && s.count == |Waiting(ops)|
    ensures Done(ops) == Written(Settled(ops)) && Payloads(Settled(ops)) + Waiting(ops) == Pushed(ops)
    ensures NothingRefused(ops) ==> Done(ops) + Waiting(ops) == Pushed(ops)
  {
    hide Done, Waiting, Settled, Written, Payloads, Pushed, Run;
    RunState(ops, isWS);
    EveryPayloadOnce(ops);
    ShortParts(ops);
    SplitUnitsOfShort(Waiting(ops));
    if isWS {
      SplitFramesOfEncoded(Done(ops));
    } else {
      SplitUnitsOfShort(Done(ops));
    }
  }
}
