/** An open WebSocket connection: frames are taken off a buffer that is fed in
    pieces, and fragments (section 5.4 of RFC 6455) are put together again. */
module WsSession {
  import opened Bytes
  import opened WsFraming

  datatype Message = Message(op: nat, payload: Bytestring)

  /** The consumer of messages; its verdict may depend on everything it was given. */
  type Handler = seq<Message> -> bool

  // ---------------------------------------------------------------- one pass

  datatype Assembly = Idle | Fragging(op: nat, buf: Bytestring)

  datatype Reaction =
    | Refuse
    | Absorb(next: Assembly)
    | Deliver(next: Assembly, msg: Message)

  /** What one client frame does. A first fragment that arrives while another
      message is being put together silently replaces it, and any final frame
      with a nonzero opcode is handed on as it is. */
  function React(asm: Assembly, f: WireFrame, maxFrame: nat): Reaction
  {
    if !f.masked then Refuse
    else if f.op == CONTINUATION then
      match asm
      case Idle => Refuse
      case Fragging(op, buf) =>
        if |buf| + |f.payload| > maxFrame then Refuse
        else if f.fin then Deliver(Idle, Message(op, buf + f.payload))
        else Absorb(Fragging(op, buf + f.payload))
    else if !f.fin then Absorb(Fragging(f.op, f.payload))
    else Deliver(asm, Message(f.op, f.payload))
  }

  datatype Session = Session(msgs: seq<Message>, asm: Assembly, open: bool, rest: Bytestring)

  /** One pass over a whole stream, from a given point in a session. */
  function Consume(s: Bytestring, maxFrame: nat, accept: Handler, msgs: seq<Message>, asm: Assembly): Session
    decreases |s|
  {
    match ParseFrame(s, maxFrame)
    case NeedMore => Session(msgs, asm, true, s)
    case TooLarge => Session(msgs, asm, false, [])
    case Complete(f, n) =>
      match React(asm, f, maxFrame)
      case Refuse => Session(msgs, asm, false, [])
      case Absorb(next) => Consume(s[n..], maxFrame, accept, msgs, next)
      case Deliver(next, m) =>
        if accept(msgs + [m]) then Consume(s[n..], maxFrame, accept, msgs + [m], next)
        else Session(msgs + [m], next, false, [])
  }

  lemma ConsumeNothing(maxFrame: nat, accept: Handler, msgs: seq<Message>, asm: Assembly)
    ensures Consume([], maxFrame, accept, msgs, asm) == Session(msgs, asm, true, [])
  {
  }

  /** Consuming a + b is consuming a and resuming with what a left over; a
      session closed within a is closed the same way on a + b. */
  lemma {:induction false} ConsumeResumes(a: Bytestring, b: Bytestring, maxFrame: nat, accept: Handler, msgs: seq<Message>, asm: Assembly)
    ensures var p := Consume(a, maxFrame, accept, msgs, asm);
            var whole := Consume(a + b, maxFrame, accept, msgs, asm);
            if p.open then whole == Consume(p.rest + b, maxFrame, accept, p.msgs, p.asm)
            else whole == p
    decreases |a|
  {
    ParseFrameStable(a, b, maxFrame);
    match ParseFrame(a, maxFrame)
    case NeedMore =>
    case TooLarge =>
    case Complete(f, n) =>
      assert (a + b)[n..] == a[n..] + b;
      match React(asm, f, maxFrame)
      case Refuse =>
      case Absorb(next) => ConsumeResumes(a[n..], b, maxFrame, accept, msgs, next);
      case Deliver(next, m) => ConsumeResumes(a[n..], b, maxFrame, accept, msgs + [m], next);
  }

  // ---------------------------------------------------------------- fed in pieces

  datatype Limits = Limits(maxBuffer: int, maxFrame: nat)

  const FRESH := Session([], Idle, true, [])

  ghost predicate Overflows(c: Session, data: Bytestring, lim: Limits)
  {
    c.open && |c.rest| + |data| > lim.maxBuffer
  }

  ghost function Feed(c: Session, data: Bytestring, lim: Limits, accept: Handler): Session
  {
    if !c.open then c
    else if Overflows(c, data, lim) then Session(c.msgs, c.asm, false, [])
    else Consume(c.rest + data, lim.maxFrame, accept, c.msgs, c.asm)
  }

  ghost function Run(c: Session, chunks: seq<Bytestring>, lim: Limits, accept: Handler): Session
    decreases |chunks|
  {
    if chunks == [] then c else Run(Feed(c, chunks[0], lim, accept), chunks[1..], lim, accept)
  }

  ghost predicate NeverOverflows(c: Session, chunks: seq<Bytestring>, lim: Limits, accept: Handler)
    decreases |chunks|
  {
    chunks == [] || (!Overflows(c, chunks[0], lim) && NeverOverflows(Feed(c, chunks[0], lim, accept), chunks[1..], lim, accept))
  }

  lemma {:induction false} RunFromConsumed(seen: Bytestring, chunks: seq<Bytestring>, lim: Limits, accept: Handler)
    requires NeverOverflows(Consume(seen, lim.maxFrame, accept, [], Idle), chunks, lim, accept)
    ensures Run(Consume(seen, lim.maxFrame, accept, [], Idle), chunks, lim, accept)
         == Consume(seen + Concat(chunks), lim.maxFrame, accept, [], Idle)
    decreases |chunks|
  {
    hide Consume;
    if chunks == [] {
      assert seen + Concat(chunks) == seen;
    } else {
      ConsumeResumes(seen, chunks[0], lim.maxFrame, accept, [], Idle);
      assert (seen + chunks[0]) + Concat(chunks[1..]) == seen + Concat(chunks);
      RunFromConsumed(seen + chunks[0], chunks[1..], lim, accept);
    }
  }

  /** However an open stream is cut into reads, as long as no read trips the
      buffer limit, the messages handed on, the verdict, the message under
      reassembly and the unconsumed suffix are those of one pass over the
      concatenated stream. */
  lemma ChunkingIrrelevant(chunks: seq<Bytestring>, lim: Limits, accept: Handler)
    requires NeverOverflows(FRESH, chunks, lim, accept)
    ensures Run(FRESH, chunks, lim, accept) == Consume(Concat(chunks), lim.maxFrame, accept, [], Idle)
  {
    assert [] + Concat(chunks) == Concat(chunks);
    RunFromConsumed([], chunks, lim, accept);
  }

  lemma {:induction false} ClosedStays(c: Session, chunks: seq<Bytestring>, lim: Limits, accept: Handler)
    requires !c.open
    ensures Run(c, chunks, lim, accept) == c
    decreases |chunks|
  {
    if chunks != [] {
      ClosedStays(c, chunks[1..], lim, accept);
    }
  }

  /** A read that trips the buffer limit closes the connection for good, with
      nothing handed on from it or after it, however legal its frames are. */
  lemma OverflowCloses(c: Session, chunks: seq<Bytestring>, lim: Limits, accept: Handler)
    requires chunks != [] && Overflows(c, chunks[0], lim)
    ensures Run(c, chunks, lim, accept) == Session(c.msgs, c.asm, false, [])
  {
    ClosedStays(Feed(c, chunks[0], lim, accept), chunks[1..], lim, accept);
  }

  // ---------------------------------------------------------------- well-formed sessions

  /** One frame of a client, which ought to be masked. */
  datatype ClientFrame = ClientFrame(fin: bool, op: nat, piece: Piece)

  /** A frame's share of a message: length form, masking and data. */
  datatype Piece = Piece(form: Form, mask: Masking, data: Bytestring)

  predicate Sendable(f: ClientFrame)
  {
    f.op < 16 && Fits(f.piece.form, |f.piece.data|)
  }

  predicate AllSendable(fs: seq<ClientFrame>)
  {
    forall k :: 0 <= k < |fs| ==> Sendable(fs[k])
  }

  function FrameBytes(f: ClientFrame): Bytestring
    requires Sendable(f)
  {
    Wire((if f.fin then 128 else 0) + f.op, f.piece.form, f.piece.mask, f.piece.data)
  }

  function StreamBytes(fs: seq<ClientFrame>): Bytestring
    requires AllSendable(fs)
  {
    if fs == [] then [] else FrameBytes(fs[0]) + StreamBytes(fs[1..])
  }

  /** What one frame of a client does; one above the limit is refused before it is
      looked at. */
  function Meet(asm: Assembly, f: ClientFrame, maxFrame: nat): Reaction
  {
    if |f.piece.data| > maxFrame then Refuse
    else React(asm, WireFrame(f.fin, f.op, f.piece.mask.Keyed?, f.piece.data), maxFrame)
  }

  /** Reassembly on its own, without the byte level. */
  function Fold(fs: seq<ClientFrame>, maxFrame: nat, accept: Handler, msgs: seq<Message>, asm: Assembly): Session
    decreases |fs|
  {
    if fs == [] then Session(msgs, asm, true, [])
    else
      match Meet(asm, fs[0], maxFrame)
      case Refuse => Session(msgs, asm, false, [])
      case Absorb(next) => Fold(fs[1..], maxFrame, accept, msgs, next)
      case Deliver(next, m) =>
        if accept(msgs + [m]) then Fold(fs[1..], maxFrame, accept, msgs + [m], next)
        else Session(msgs + [m], next, false, [])
  }

  lemma ParseClientFrame(f: ClientFrame, tail: Bytestring, maxFrame: nat)
    requires Sendable(f)
    ensures ParseFrame(FrameBytes(f) + tail, maxFrame)
         == if |f.piece.data| > maxFrame then TooLarge
            else Complete(WireFrame(f.fin, f.op, f.piece.mask.Keyed?, f.piece.data), |FrameBytes(f)|)
  {
    hide ParseFrame, Wire;
    var first := (if f.fin then 128 else 0) + f.op;
    if |f.piece.data| > maxFrame {
      OversizeWire(first, f.piece.form, f.piece.mask, f.piece.data, tail, maxFrame);
    } else {
      ParseWire(first, f.piece.form, f.piece.mask, f.piece.data, tail, maxFrame);
    }
  }

  /** The gateway sees the frames a client sent: masking, length forms and
      buffering have no influence on what is handed on. */
  lemma {:induction false} ConsumeIsFold(fs: seq<ClientFrame>, tail: Bytestring, maxFrame: nat, accept: Handler, msgs: seq<Message>, asm: Assembly)
    requires AllSendable(fs)
    ensures var r := Fold(fs, maxFrame, accept, msgs, asm);
            Consume(StreamBytes(fs) + tail, maxFrame, accept, msgs, asm)
            == if r.open then Consume(tail, maxFrame, accept, r.msgs, r.asm) else r
    decreases |fs|
  {
    hide ParseFrame, FrameBytes;
    if fs == [] {
      assert StreamBytes(fs) + tail == tail;
    } else {
      var f := fs[0];
      var head, more := FrameBytes(f), StreamBytes(fs[1..]) + tail;
      assert StreamBytes(fs) + tail == head + more;
      assert (head + more)[|head|..] == more;
      ParseClientFrame(f, more, maxFrame);
      match Meet(asm, f, maxFrame)
      case Refuse =>
      case Absorb(next) => ConsumeIsFold(fs[1..], tail, maxFrame, accept, msgs, next);
      case Deliver(next, m) => ConsumeIsFold(fs[1..], tail, maxFrame, accept, msgs + [m], next);
    }
  }

  lemma {:induction false} FoldAppend(a: seq<ClientFrame>, b: seq<ClientFrame>, maxFrame: nat, accept: Handler, msgs: seq<Message>, asm: Assembly)
    ensures var r := Fold(a, maxFrame, accept, msgs, asm);
            Fold(a + b, maxFrame, accept, msgs, asm)
            == if r.open then Fold(b, maxFrame, accept, r.msgs, r.asm) else r
    decreases |a|
  {
    if a == [] {
      assert a + b == b;
    } else {
      assert (a + b)[1..] == a[1..] + b;
      match Meet(asm, a[0], maxFrame)
      case Refuse =>
      case Absorb(next) => FoldAppend(a[1..], b, maxFrame, accept, msgs, next);
      case Deliver(next, m) => FoldAppend(a[1..], b, maxFrame, accept, msgs + [m], next);
    }
  }

  datatype Control = Control(op: nat, piece: Piece)

  /** A fragment after the first one, with the control frames injected before it. */
  datatype Later = Later(before: seq<Control>, piece: Piece)

  /** What a client may send under section 5.4: a message in one frame or a
      control frame, or a message in two or more fragments with control frames
      between them. */
  datatype Item =
    | Single(op: nat, piece: Piece)
    | Fragmented(op: nat, head: Piece, later: seq<Later>)

  function LaterData(later: seq<Later>): Bytestring
  {
    if later == [] then [] else later[0].piece.data + LaterData(later[1..])
  }

  predicate GoodPiece(p: Piece, maxFrame: nat)
  {
    p.mask.Keyed? && |p.data| <= maxFrame
  }

  predicate GoodControls(cs: seq<Control>, maxFrame: nat)
  {
    forall k :: 0 <= k < |cs| ==> 8 <= cs[k].op < 16 && GoodPiece(cs[k].piece, maxFrame)
  }

  predicate GoodLater(later: seq<Later>, maxFrame: nat)
  {
    forall k :: 0 <= k < |later| ==> GoodControls(later[k].before, maxFrame) && GoodPiece(later[k].piece, maxFrame)
  }

  predicate GoodItem(i: Item, maxFrame: nat)
  {
    && 0 < i.op < 16
    && (i.Single? ==> GoodPiece(i.piece, maxFrame))
    && (i.Fragmented? ==>
          && i.later != [] && GoodPiece(i.head, maxFrame) && GoodLater(i.later, maxFrame)
          && |i.head.data| + |LaterData(i.later)| <= maxFrame)
  }

  function ControlFrames(cs: seq<Control>): seq<ClientFrame>
  {
    if cs == [] then [] else [ClientFrame(true, cs[0].op, cs[0].piece)] + ControlFrames(cs[1..])
  }

  function LaterFrames(later: seq<Later>): seq<ClientFrame>
  {
    if later == [] then []
    else
      ControlFrames(later[0].before) + ([ClientFrame(|later| == 1, CONTINUATION, later[0].piece)] + LaterFrames(later[1..]))
  }

  function ItemFrames(i: Item): seq<ClientFrame>
  {
    match i
    case Single(op, p) => [ClientFrame(true, op, p)]
    case Fragmented(op, p, later) => [ClientFrame(false, op, p)] + LaterFrames(later)
  }

  function SessionFrames(items: seq<Item>): seq<ClientFrame>
  {
    if items == [] then [] else ItemFrames(items[0]) + SessionFrames(items[1..])
  }

  function ControlMessages(cs: seq<Control>): seq<Message>
  {
    if cs == [] then [] else [Message(cs[0].op, cs[0].piece.data)] + ControlMessages(cs[1..])
  }

  function LaterControls(later: seq<Later>): seq<Message>
  {
    if later == [] then [] else ControlMessages(later[0].before) + LaterControls(later[1..])
  }

  /** What an item means: injected control frames come first, in order, and the
      message is the concatenation of its fragments under the first opcode. */
  function ItemMessages(i: Item): seq<Message>
  {
    match i
    case Single(op, p) => [Message(op, p.data)]
    case Fragmented(op, p, later) => LaterControls(later) + [Message(op, p.data + LaterData(later))]
  }

  function SessionMessages(items: seq<Item>): seq<Message>
  {
    if items == [] then [] else ItemMessages(items[0]) + SessionMessages(items[1..])
  }

  /** The handler that refuses nothing. */
  function TakeAll(ms: seq<Message>): bool
  {
    true
  }

  /** The length, at least `from`, of the first prefix the handler refuses; one
      more than the length of the list if there is none. */
  function Refused(accept: Handler, all: seq<Message>, from: nat): (n: nat)
    requires from <= |all| + 1
    ensures from <= n <= |all| + 1
    ensures n <= |all| ==> !accept(all[..n])
    ensures forall j :: from <= j < n ==> accept(all[..j])
    decreases |all| + 1 - from
  {
    if from > |all| || !accept(all[..from]) then from else Refused(accept, all, from + 1)
  }

  lemma {:induction false} FoldGrows(fs: seq<ClientFrame>, maxFrame: nat, msgs: seq<Message>, asm: Assembly)
    ensures msgs <= Fold(fs, maxFrame, TakeAll, msgs, asm).msgs
    decreases |fs|
  {
    if fs != [] {
      match Meet(asm, fs[0], maxFrame)
      case Refuse =>
      case Absorb(next) => FoldGrows(fs[1..], maxFrame, msgs, next);
      case Deliver(next, m) => FoldGrows(fs[1..], maxFrame, msgs + [m], next);
    }
  }

  /** Any handler sees what the one that refuses nothing sees, up to the first
      message it refuses. */
  lemma {:induction false} FoldUnder(fs: seq<ClientFrame>, maxFrame: nat, accept: Handler, msgs: seq<Message>, asm: Assembly)
    ensures var r, all := Fold(fs, maxFrame, accept, msgs, asm), Fold(fs, maxFrame, TakeAll, msgs, asm);
            && |msgs| <= |all.msgs|
            && var n := Refused(accept, all.msgs, |msgs| + 1);
               if n > |all.msgs| then r == all else r.msgs == all.msgs[..n] && !r.open && r.rest == []
    decreases |fs|
  {
    hide Refused;
    FoldGrows(fs, maxFrame, msgs, asm);
    if fs != [] {
      match Meet(asm, fs[0], maxFrame)
      case Refuse =>
      case Absorb(next) => FoldUnder(fs[1..], maxFrame, accept, msgs, next);
      case Deliver(next, m) =>
        var all := Fold(fs[1..], maxFrame, TakeAll, msgs + [m], next);
        FoldGrows(fs[1..], maxFrame, msgs + [m], next);
        assert all.msgs[..|msgs| + 1] == msgs + [m];
        RefusedNext(accept, all.msgs, |msgs| + 1);
        FoldUnder(fs[1..], maxFrame, accept, msgs + [m], next);
    }
  }

  lemma RefusedNext(accept: Handler, all: seq<Message>, from: nat)
    requires from <= |all|
    ensures Refused(accept, all, from) == if accept(all[..from]) then Refused(accept, all, from + 1) else from
  {
  }

  lemma {:induction false} FoldControls(cs: seq<Control>, maxFrame: nat, msgs: seq<Message>, asm: Assembly)
    requires GoodControls(cs, maxFrame)
    ensures Fold(ControlFrames(cs), maxFrame, TakeAll, msgs, asm) == Session(msgs + ControlMessages(cs), asm, true, [])
    decreases |cs|
  {
    if cs == [] {
      assert msgs + ControlMessages(cs) == msgs;
    } else {
      var m := Message(cs[0].op, cs[0].piece.data);
      assert ControlFrames(cs)[1..] == ControlFrames(cs[1..]);
      FoldControls(cs[1..], maxFrame, msgs + [m], asm);
      assert (msgs + [m]) + ControlMessages(cs[1..]) == msgs + ControlMessages(cs);
    }
  }

  lemma FoldContinuation(fin: bool, p: Piece, more: seq<ClientFrame>, op: nat, buf: Bytestring, maxFrame: nat, msgs: seq<Message>)
    requires p.mask.Keyed? && |buf| + |p.data| <= maxFrame
    ensures Fold([ClientFrame(fin, CONTINUATION, p)] + more, maxFrame, TakeAll, msgs, Fragging(op, buf))
         == if fin then Fold(more, maxFrame, TakeAll, msgs + [Message(op, buf + p.data)], Idle)
            else Fold(more, maxFrame, TakeAll, msgs, Fragging(op, buf + p.data))
  {
    assert ([ClientFrame(fin, CONTINUATION, p)] + more)[1..] == more;
  }

  lemma FoldNone(maxFrame: nat, msgs: seq<Message>, asm: Assembly)
    ensures Fold([], maxFrame, TakeAll, msgs, asm) == Session(msgs, asm, true, [])
  {
  }

  lemma {:induction false} FoldLater(later: seq<Later>, op: nat, buf: Bytestring, maxFrame: nat, msgs: seq<Message>)
    requires later != [] && GoodLater(later, maxFrame)
    requires |buf| + |LaterData(later)| <= maxFrame
    ensures Fold(LaterFrames(later), maxFrame, TakeAll, msgs, Fragging(op, buf))
         == Session(msgs + (LaterControls(later) + [Message(op, buf + LaterData(later))]), Idle, true, [])
    decreases |later|
  {
    hide Fold, GoodControls, ControlFrames, ControlMessages;
    var l, asm := later[0], Fragging(op, buf);
    var more := [ClientFrame(|later| == 1, CONTINUATION, l.piece)] + LaterFrames(later[1..]);
    var msgs' := msgs + ControlMessages(l.before);
    FoldControls(l.before, maxFrame, msgs, asm);
    FoldAppend(ControlFrames(l.before), more, maxFrame, TakeAll, msgs, asm);
    FoldContinuation(|later| == 1, l.piece, LaterFrames(later[1..]), op, buf, maxFrame, msgs');
    assert buf + LaterData(later) == (buf + l.piece.data) + LaterData(later[1..]);
    var m := Message(op, buf + LaterData(later));
    if |later| == 1 {
      FoldNone(maxFrame, msgs' + [m], Idle);
      assert LaterData(later) == l.piece.data;
      assert LaterControls(later) == ControlMessages(l.before);
      assert msgs' + [m] == msgs + (LaterControls(later) + [m]);
    } else {
      FoldLater(later[1..], op, buf + l.piece.data, maxFrame, msgs');
      assert msgs' + (LaterControls(later[1..]) + [m]) == msgs + (LaterControls(later) + [m]);
    }
  }

  lemma FoldItem(i: Item, maxFrame: nat, msgs: seq<Message>)
    requires GoodItem(i, maxFrame)
    ensures Fold(ItemFrames(i), maxFrame, TakeAll, msgs, Idle) == Session(msgs + ItemMessages(i), Idle, true, [])
  {
    if i.Fragmented? {
      assert ItemFrames(i)[1..] == LaterFrames(i.later);
      FoldLater(i.later, i.op, i.head.data, maxFrame, msgs);
    }
  }

  lemma {:induction false} FoldSession(items: seq<Item>, maxFrame: nat, msgs: seq<Message>)
    requires forall k :: 0 <= k < |items| ==> GoodItem(items[k], maxFrame)
    ensures Fold(SessionFrames(items), maxFrame, TakeAll, msgs, Idle) == Session(msgs + SessionMessages(items), Idle, true, [])
    decreases |items|
  {
    hide Meet, ItemFrames, ItemMessages, GoodItem;
    if items == [] {
      assert msgs + SessionMessages(items) == msgs;
    } else {
      FoldItem(items[0], maxFrame, msgs);
      FoldAppend(ItemFrames(items[0]), SessionFrames(items[1..]), maxFrame, TakeAll, msgs, Idle);
      FoldSession(items[1..], maxFrame, msgs + ItemMessages(items[0]));
      assert msgs + ItemMessages(items[0]) + SessionMessages(items[1..]) == msgs + SessionMessages(items);
    }
  }

  /** End to end: a client session that is well formed under section 5.4 of
      RFC 6455, masked with arbitrary keys, printed with arbitrary length forms
      and cut into arbitrary reads that do not trip the buffer limit, is handed
      on as its messages up to and including the first one the handler refuses,
      and closed there. If it refuses none, exactly the messages are handed on and
      the connection is left open and empty. */
  lemma WellFormedSessionDelivered(items: seq<Item>, chunks: seq<Bytestring>, lim: Limits, accept: Handler)
    requires forall k :: 0 <= k < |items| ==> GoodItem(items[k], lim.maxFrame)
    requires AllSendable(SessionFrames(items))
    requires Concat(chunks) == StreamBytes(SessionFrames(items))
    requires NeverOverflows(FRESH, chunks, lim, accept)
    ensures var r, all := Run(FRESH, chunks, lim, accept), SessionMessages(items);
            var n := Refused(accept, all, 1);
            if n > |all| then r == Session(all, Idle, true, [])
            else r.msgs == all[..n] && !r.open && r.rest == []
  {
    hide Fold, Consume, SessionMessages, SessionFrames, StreamBytes, GoodItem, Run, NeverOverflows;
    ChunkingIrrelevant(chunks, lim, accept);
    assert Concat(chunks) + [] == Concat(chunks) && [] + SessionMessages(items) == SessionMessages(items);
    ConsumeIsFold(SessionFrames(items), [], lim.maxFrame, accept, [], Idle);
    FoldSession(items, lim.maxFrame, []);
    FoldUnder(SessionFrames(items), lim.maxFrame, accept, [], Idle);
    var r := Fold(SessionFrames(items), lim.maxFrame, accept, [], Idle);
    ConsumeNothing(lim.maxFrame, accept, r.msgs, r.asm);
  }

  // ---------------------------------------------------------------- any frames

  ghost predicate StartsFragments(f: ClientFrame)
  {
    f.op != CONTINUATION && !f.fin
  }

  ghost predicate EndsFragments(f: ClientFrame)
  {
    f.op == CONTINUATION && f.fin
  }

  /** A fragmented message was begun by frame j and neither ended nor replaced since. */
  ghost predicate Begun(fs: seq<ClientFrame>, j: int)
  {
    && 0 <= j < |fs| && StartsFragments(fs[j])
    && forall i :: j < i < |fs| ==> !StartsFragments(fs[i]) && !EndsFragments(fs[i])
  }

  /** The frame that began the message being put together after some frames; -1 if there is none. */
  ghost function Beginning(fs: seq<ClientFrame>): (j: int)
    ensures j == -1 || Begun(fs, j)
    ensures j == -1 ==> forall i :: !Begun(fs, i)
  {
    if fs == [] then -1
    else
      var n := |fs| - 1;
      if StartsFragments(fs[n]) then n
      else if EndsFragments(fs[n]) then -1
      else
        var j := Beginning(fs[..n]);
        BegunBefore(fs);
        j
  }

  lemma BegunBefore(fs: seq<ClientFrame>)
    requires fs != [] && !StartsFragments(fs[|fs| - 1]) && !EndsFragments(fs[|fs| - 1])
    ensures forall i :: Begun(fs, i) <==> Begun(fs[..|fs| - 1], i)
  {
    var n := |fs| - 1;
    forall i ensures Begun(fs, i) <==> Begun(fs[..n], i) {
      if Begun(fs, i) {
        assert i != n;
        forall k | i < k < n ensures !StartsFragments(fs[..n][k]) && !EndsFragments(fs[..n][k]) {
          assert fs[..n][k] == fs[k];
        }
      }
      if Begun(fs[..n], i) {
        forall k | i < k < |fs| ensures !StartsFragments(fs[k]) && !EndsFragments(fs[k]) {
          assert k < n ==> fs[k] == fs[..n][k];
        }
      }
    }
  }

  /** The data gathered from frame j on: its own and that of the continuations after it. */
  ghost function Gathered(fs: seq<ClientFrame>, j: nat): Bytestring
    requires j < |fs|
  {
    var n := |fs| - 1;
    if j == n then fs[n].piece.data
    else Gathered(fs[..n], j) + if fs[n].op == CONTINUATION then fs[n].piece.data else []
  }

  /** The message being put together after some frames. */
  ghost function AssemblyOf(fs: seq<ClientFrame>): Assembly
  {
    var j := Beginning(fs);
    if j == -1 then Idle else Fragging(fs[j].op, Gathered(fs, j))
  }

  /** A frame the gateway must close on, coming after others: too long, unmasked, a
      continuation of nothing, or one that makes a message too long. */
  ghost predicate Offends(before: seq<ClientFrame>, f: ClientFrame, maxFrame: nat)
  {
    || |f.piece.data| > maxFrame
    || f.piece.mask.Bare?
    || (f.op == CONTINUATION && Beginning(before) == -1)
    || (f.op == CONTINUATION && Beginning(before) != -1 && |Gathered(before, Beginning(before))| + |f.piece.data| > maxFrame)
  }

  ghost predicate Clean(fs: seq<ClientFrame>, maxFrame: nat)
  {
    forall k :: 0 <= k < |fs| ==> !Offends(fs[..k], fs[k], maxFrame)
  }

  /** The messages of clean frames: one for every final frame, which is the whole of
      a message or its last fragment. */
  ghost function Delivered(fs: seq<ClientFrame>): seq<Message>
  {
    if fs == [] then []
    else
      var n := |fs| - 1;
      var front, last, j := fs[..n], fs[n], Beginning(fs[..n]);
      Delivered(front) +
      if !last.fin then []
      else if last.op != CONTINUATION then [Message(last.op, last.piece.data)]
      else if j == -1 then []
      else [Message(front[j].op, Gathered(front, j) + last.piece.data)]
  }

  lemma CleanFront(fs: seq<ClientFrame>, maxFrame: nat, n: nat)
    requires Clean(fs, maxFrame) && n <= |fs|
    ensures Clean(fs[..n], maxFrame)
  {
    forall k | 0 <= k < n ensures !Offends(fs[..n][..k], fs[..n][k], maxFrame) {
      assert fs[..n][..k] == fs[..k] && fs[..n][k] == fs[k];
    }
  }

  /** One frame after clean ones. */
  lemma MeetExactly(before: seq<ClientFrame>, f: ClientFrame, maxFrame: nat)
    ensures var r, all := Meet(AssemblyOf(before), f, maxFrame), before + [f];
            if Offends(before, f, maxFrame) then r == Refuse
            else if r.Absorb? then r.next == AssemblyOf(all) && Delivered(all) == Delivered(before)
            else r.Deliver? && r.next == AssemblyOf(all) && Delivered(all) == Delivered(before) + [r.msg]
  {
    var all := before + [f];
    assert all[..|all| - 1] == before && all[|all| - 1] == f;
    var j := Beginning(before);
    if j != -1 {
      assert all[j] == before[j];
    }
  }

  lemma {:induction false} CleanFold(fs: seq<ClientFrame>, maxFrame: nat)
    requires Clean(fs, maxFrame)
    ensures Fold(fs, maxFrame, TakeAll, [], Idle) == Session(Delivered(fs), AssemblyOf(fs), true, [])
  {
    if fs != [] {
      hide Meet, Offends, AssemblyOf, Delivered;
      var n := |fs| - 1;
      var front, last := fs[..n], fs[n];
      CleanFront(fs, maxFrame, n);
      CleanFold(front, maxFrame);
      MeetExactly(front, last, maxFrame);
      assert front + [last] == fs;
      FoldAppend(front, [last], maxFrame, TakeAll, [], Idle);
      FoldOne(last, maxFrame, Delivered(front), AssemblyOf(front));
    } else {
      assert AssemblyOf(fs) == Idle;
    }
  }

  lemma FoldOne(f: ClientFrame, maxFrame: nat, msgs: seq<Message>, asm: Assembly)
    ensures var r := Meet(asm, f, maxFrame);
            Fold([f], maxFrame, TakeAll, msgs, asm)
            == if r.Refuse? then Session(msgs, asm, false, [])
               else if r.Absorb? then Session(msgs, r.next, true, [])
               else Session(msgs + [r.msg], r.next, true, [])
  {
    hide Meet;
    assert [f][1..] == [];
  }

  /** The number of frames before the first offence. */
  ghost function CleanPart(fs: seq<ClientFrame>, maxFrame: nat): (n: nat)
    ensures n <= |fs| && Clean(fs[..n], maxFrame)
    ensures n < |fs| ==> Offends(fs[..n], fs[n], maxFrame)
  {
    if fs == [] then 0
    else
      var front := fs[..|fs| - 1];
      var n := CleanPart(front, maxFrame);
      if n < |front| then assert front[..n] == fs[..n]; n
      else if Offends(front, fs[n], maxFrame) then n
      else
        assert front[..n] == front && fs[..n + 1] == fs;
        CleanSnoc(fs, maxFrame);
        n + 1
  }

  lemma CleanSnoc(fs: seq<ClientFrame>, maxFrame: nat)
    requires fs != [] && Clean(fs[..|fs| - 1], maxFrame) && !Offends(fs[..|fs| - 1], fs[|fs| - 1], maxFrame)
    ensures Clean(fs, maxFrame)
  {
    var front := fs[..|fs| - 1];
    forall k | 0 <= k < |fs| ensures !Offends(fs[..k], fs[k], maxFrame) {
      if k < |fs| - 1 {
        assert front[..k] == fs[..k] && front[k] == fs[k];
      }
    }
  }

  /** Whatever frames a client sends, a handler that refuses nothing is given the
      messages of the frames before the first offence, and the session is closed
      exactly if there is one. */
  lemma ClosesExactly(fs: seq<ClientFrame>, maxFrame: nat)
    ensures var n := CleanPart(fs, maxFrame);
            Fold(fs, maxFrame, TakeAll, [], Idle) == Session(Delivered(fs[..n]), AssemblyOf(fs[..n]), n == |fs|, [])
    ensures CleanPart(fs, maxFrame) == |fs| <==> Clean(fs, maxFrame)
  {
    hide Meet, Offends, AssemblyOf, Delivered;
    var n := CleanPart(fs, maxFrame);
    var front, more := fs[..n], fs[n..];
    assert front + more == fs;
    CleanFold(front, maxFrame);
    FoldAppend(front, more, maxFrame, TakeAll, [], Idle);
    if n < |fs| {
      MeetExactly(front, more[0], maxFrame);
    } else {
      assert front == fs;
    }
  }

  /** End to end: whatever frames a client sends, in whatever reads, the handler is
      given the messages of the frames before the first offence, up to the first one
      it refuses; the connection stays open exactly if there is neither. */
  lemma AnySessionDelivered(fs: seq<ClientFrame>, chunks: seq<Bytestring>, lim: Limits, accept: Handler)
    requires AllSendable(fs) && Concat(chunks) == StreamBytes(fs) && NeverOverflows(FRESH, chunks, lim, accept)
    ensures var r, n := Run(FRESH, chunks, lim, accept), CleanPart(fs, lim.maxFrame);
            var all := Delivered(fs[..n]);
            var k := Refused(accept, all, 1);
            && r.msgs == (if k > |all| then all else all[..k])
            && (r.open <==> n == |fs| && k > |all|) && r.rest == []
  {
    hide Fold, Consume, Delivered, CleanPart, StreamBytes, Run, NeverOverflows, AssemblyOf;
    ChunkingIrrelevant(chunks, lim, accept);
    assert Concat(chunks) + [] == Concat(chunks);
    ConsumeIsFold(fs, [], lim.maxFrame, accept, [], Idle);
    ClosesExactly(fs, lim.maxFrame);
    FoldUnder(fs, lim.maxFrame, accept, [], Idle);
    var r := Fold(fs, lim.maxFrame, accept, [], Idle);
    ConsumeNothing(lim.maxFrame, accept, r.msgs, r.asm);
  }

  /** An unmasked frame closes the session at once, whatever it holds and whatever follows. */
  lemma UnmaskedCloses(first: Byte, form: Form, payload: Bytestring, tail: Bytestring, maxFrame: nat, accept: Handler,
                       msgs: seq<Message>, asm: Assembly)
    requires Fits(form, |payload|)
    ensures Consume(Wire(first, form, Bare, payload) + tail, maxFrame, accept, msgs, asm) == Session(msgs, asm, false, [])
  {
    hide ParseFrame, Wire;
    if |payload| > maxFrame {
      OversizeWire(first, form, Bare, payload, tail, maxFrame);
    } else {
      ParseWire(first, form, Bare, payload, tail, maxFrame);
    }
  }

  // ---------------------------------------------------------------- the connection object

  /** One step of the parse, in terms of a buffer and an offset into it. */
  lemma ConsumeAt(buf: Bytestring, off: nat, maxFrame: nat, accept: Handler, msgs: seq<Message>, asm: Assembly)
    requires off <= |buf|
    ensures var c, p := Consume(buf[off..], maxFrame, accept, msgs, asm), ParseFrame(buf[off..], maxFrame);
            if p.NeedMore? then c == Session(msgs, asm, true, buf[off..])
            else if p.TooLarge? then c == Session(msgs, asm, false, [])
            else
              var r := React(asm, p.frame, maxFrame);
              if r.Refuse? then c == Session(msgs, asm, false, [])
              else if r.Absorb? then c == Consume(buf[off + p.size..], maxFrame, accept, msgs, r.next)
              else if accept(msgs + [r.msg]) then c == Consume(buf[off + p.size..], maxFrame, accept, msgs + [r.msg], r.next)
              else c == Session(msgs + [r.msg], r.next, false, [])
  {
    hide ParseFrame, React;
    if ParseFrame(buf[off..], maxFrame).Complete? {
      SliceOfSlice(buf, off, 0, ParseFrame(buf[off..], maxFrame).size);
    }
  }

  /** Buffer[bufOff..] is what has arrived and not been consumed. Payloads are
      unmasked in place, so the consumed part of Buffer is not what arrived. */
  class WebSocketConnection {
    var Buffer: Bytestring
    var bufOff: nat
    var fragOp: nat
    var fragBuf: Bytestring
    var fragging: bool

    ghost predicate Valid()
      reads this
    {
      bufOff <= |Buffer|
    }

    ghost function Asm(): Assembly
      reads this
    {
      if fragging then Fragging(fragOp, fragBuf) else Idle
    }

    ghost function State(msgs: seq<Message>): Session
      requires Valid()
      reads this
    {
      Session(msgs, Asm(), true, Buffer[bufOff..])
    }

    constructor ()
      ensures Valid() && State([]) == FRESH
    {
      Buffer, bufOff, fragOp, fragBuf, fragging := [], 0, 0, [], false;
    }

    /** The effect of one client frame; an answer of false closes the connection. */
    method Reassemble(f: WireFrame, maxFrame: nat, accept: Handler, msgs: seq<Message>)
      returns (ok: bool, delivered: seq<Message>)
      modifies this`fragOp, this`fragBuf, this`fragging
      ensures var r := React(old(Asm()), f, maxFrame);
              if r.Refuse? then !ok && delivered == msgs
              else if r.Absorb? then ok && delivered == msgs && Asm() == r.next
              else delivered == msgs + [r.msg] && ok == accept(delivered) && Asm() == r.next
    {
      delivered := msgs;
      if !f.masked {
        return false, delivered;
      }
      if f.op == CONTINUATION {
        if !fragging {
          return false, delivered;
        }
        if |fragBuf| + |f.payload| > maxFrame {
          return false, delivered;
        }
        fragBuf := fragBuf + f.payload;
        if f.fin {
          delivered := delivered + [Message(fragOp, fragBuf)];
          fragBuf := [];
          fragging := false;
          return accept(delivered), delivered;
        }
      } else if !f.fin {
        fragging := true;
        fragOp := f.op;
        fragBuf := f.payload;
      } else {
        delivered := delivered + [Message(f.op, f.payload)];
        return accept(delivered), delivered;
      }
      return true, delivered;
    }

    /** Takes one read on an open connection. `msgs` lists the messages handed
        on before; an answer of false closes the connection. */
    method HandleMessage(data: Bytestring, maxBuffer: int, maxFrame: nat, accept: Handler, msgs: seq<Message>)
      returns (ok: bool, delivered: seq<Message>)
      requires Valid()
      modifies this
      ensures Valid()
      ensures var next := Feed(old(State(msgs)), data, Limits(maxBuffer, maxFrame), accept);
              ok == next.open && delivered == next.msgs && (ok ==> State(delivered) == next)
    {
      hide ParseFrame, React, Consume;
      delivered := msgs;
      if bufOff > 0 {
        Buffer := Buffer[bufOff..];
        bufOff := 0;
      }
      if |Buffer| + |data| > maxBuffer {
        Buffer := [];
        return false, delivered;
      }
      Buffer := Buffer + data;
      ghost var goal := Consume(Buffer, maxFrame, accept, msgs, old(Asm()));
      assert Buffer[0..] == Buffer == old(Buffer[bufOff..]) + data;
      while true
        invariant Valid()
        invariant Consume(Buffer[bufOff..], maxFrame, accept, delivered, Asm()) == goal
        decreases |Buffer| - bufOff
      {
        ConsumeAt(Buffer, bufOff, maxFrame, accept, delivered, Asm());
        var parsed := ParseFrame(Buffer[bufOff..], maxFrame);
        if parsed.TooLarge? {
          return false, delivered;
        }
        if parsed.NeedMore? {
          return true, delivered;
        }
        var payload, stop := parsed.frame.payload, bufOff + parsed.size;
        SliceAfterPatch(Buffer, stop - |payload|, stop, payload);
        // the payload is unmasked in place
        Buffer := Buffer[..stop - |payload|] + payload + Buffer[stop..];
        ok, delivered := Reassemble(parsed.frame, maxFrame, accept, delivered);
        if !ok {
          return false, delivered;
        }
        bufOff := stop;
        if bufOff == |Buffer| {
          assert Buffer[bufOff..] == [];
          ConsumeNothing(maxFrame, accept, delivered, Asm());
          Buffer := [];
          bufOff := 0;
          break;
        }
      }
      return true, delivered;
    }
  }
}
