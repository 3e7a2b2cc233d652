/** Pushes from the logic server to client connections, one frame per message or
    grouped per connection into PushBatch frames. Grouping must not change what
    any connection receives. The connection registry is fixed. */
module BatchPush {
  import opened Common
  import opened Bytes

  type SessionId = string

  const CMD_HEARTBEAT_REQ := 1100010
  const BATCH_FLUSH_SIZE := 128

  datatype Message = Message(cmd: int, seqId: int, sid: SessionId, userKey: string, data: Bytestring)

  datatype PushItem = PushItem(sid: SessionId, cmd: int, data: Bytestring, seqId: int)

  /** A frame handed to a connection: one message, or a PushBatch. */
  datatype Frame = Single(cmd: int, seqId: int, data: Bytestring) | PushBatch(items: seq<PushItem>)

  /** What the client sees of one pushed message. */
  datatype Push = Push(cmd: int, seqId: int, data: Bytestring)

  datatype Gateway = Gateway(out: map<SessionId, seq<Frame>>, logins: seq<(SessionId, string)>, pushed: nat, dropped: nat)

  ghost predicate Serves(reg: set<SessionId>, g: Gateway)
  {
    g.out.Keys == reg
  }

  // ---------------------------------------------------------------- meaning of the output

  function Expand(f: Frame): seq<Push>
  {
    match f
    case Single(c, s, d) => [Push(c, s, d)]
    case PushBatch(items) => seq(|items|, i requires 0 <= i < |items| => Push(items[i].cmd, items[i].seqId, items[i].data))
  }

  function ExpandAll(fs: seq<Frame>): seq<Push>
  {
    if fs == [] then [] else ExpandAll(fs[..|fs| - 1]) + Expand(fs[|fs| - 1])
  }

  function AsPush(m: Message): Push
  {
    Push(m.cmd, m.seqId, m.data)
  }

  function AsItem(m: Message): PushItem
  {
    PushItem(m.sid, m.cmd, m.data, m.seqId)
  }

  /** The messages for one session, in order. */
  function Select(ms: seq<Message>, sid: SessionId): seq<Message>
  {
    if ms == [] then []
    else
      var rest := Select(ms[..|ms| - 1], sid);
      if ms[|ms| - 1].sid == sid then rest + [ms[|ms| - 1]] else rest
  }

  function Items(ms: seq<Message>): seq<PushItem>
  {
    seq(|ms|, i requires 0 <= i < |ms| => AsItem(ms[i]))
  }

  function Pushes(ms: seq<Message>): seq<Push>
  {
    seq(|ms|, i requires 0 <= i < |ms| => AsPush(ms[i]))
  }

  /** How many messages are for a session of the set. */
  function Count(ms: seq<Message>, to: set<SessionId>): nat
  {
    if ms == [] then 0
    else Count(ms[..|ms| - 1], to) + (if ms[|ms| - 1].sid in to then 1 else 0)
  }

  lemma {:induction false} CountBound(ms: seq<Message>, to: set<SessionId>)
    ensures Count(ms, to) <= |ms|
  {
    if ms != [] {
      CountBound(ms[..|ms| - 1], to);
    }
  }

  lemma {:induction false} CountWithout(ms: seq<Message>, to: set<SessionId>, sid: SessionId)
    requires sid in to
    ensures Count(ms, to) == Count(ms, to - {sid}) + |Select(ms, sid)|
  {
    if ms != [] {
      CountWithout(ms[..|ms| - 1], to, sid);
    }
  }

  lemma {:induction false} CountOnlyPresent(ms: seq<Message>, to: set<SessionId>, fewer: set<SessionId>)
    requires fewer <= to
    requires forall sid :: sid in to && sid !in fewer ==> Select(ms, sid) == []
    ensures Count(ms, to) == Count(ms, fewer)
  {
    if ms != [] {
      var last := ms[|ms| - 1];
      assert Select(ms, last.sid) != [];
      forall sid | sid in to && sid !in fewer ensures Select(ms[..|ms| - 1], sid) == [] {
        assert Select(ms, sid) == [];
      }
      CountOnlyPresent(ms[..|ms| - 1], to, fewer);
    }
  }

  lemma Snoc<T>(xs: seq<T>, x: T)
    ensures (xs + [x])[..|xs + [x]| - 1] == xs && (xs + [x])[|xs + [x]| - 1] == x
  {
  }

  // ---------------------------------------------------------------- the two modes

  function Send(g: Gateway, sid: SessionId, f: Frame): Gateway
    requires sid in g.out
  {
    g.(out := g.out[sid := g.out[sid] + [f]])
  }

  function LogIn(reg: set<SessionId>, g: Gateway, m: Message): Gateway
  {
    if m.userKey != "" && m.sid in reg then g.(logins := g.logins + [(m.sid, m.userKey)]) else g
  }

  function Broadcast(g: Gateway, m: Message): Gateway
  {
    g.(out := map sid | sid in g.out :: g.out[sid] + [Single(m.cmd, m.seqId, m.data)],
       pushed := g.pushed + |g.out|)
  }

  /** One message, unbatched. */
  function Unbatched(reg: set<SessionId>, g: Gateway, m: Message): Gateway
    requires Serves(reg, g)
    ensures Serves(reg, Unbatched(reg, g, m))
  {
    if m.cmd == CMD_HEARTBEAT_REQ then g
    else if m.sid == "" then Broadcast(g, m)
    else if m.sid in reg then
      var h := LogIn(reg, g, m);
      Send(h, m.sid, Single(m.cmd, m.seqId, m.data)).(pushed := g.pushed + 1)
    else g.(dropped := g.dropped + 1)
  }

  function Grouped(batch: seq<Message>, sid: SessionId): seq<Frame>
  {
    var mine := Select(batch, sid);
    if mine == [] then [] else [PushBatch(Items(mine))]
  }

  /** Sends what is pending, one PushBatch per connection that has any. */
  function Flush(reg: set<SessionId>, g: Gateway, batch: seq<Message>): Gateway
    requires Serves(reg, g)
    ensures Serves(reg, Flush(reg, g, batch))
  {
    CountBound(batch, reg);
    g.(out := map sid | sid in g.out :: g.out[sid] + Grouped(batch, sid),
       pushed := g.pushed + Count(batch, reg),
       dropped := g.dropped + |batch| - Count(batch, reg))
  }

  /** One message, batched: the gateway and the pending messages after it. */
  function Batched(reg: set<SessionId>, g: Gateway, batch: seq<Message>, m: Message): (r: (Gateway, seq<Message>))
    requires Serves(reg, g)
    ensures Serves(reg, r.0)
  {
    if m.cmd == CMD_HEARTBEAT_REQ then (g, batch)
    else if m.sid == "" then (Broadcast(Flush(reg, g, batch), m), [])
    else
      var h := LogIn(reg, g, m);
      if |batch + [m]| >= BATCH_FLUSH_SIZE then (Flush(reg, h, batch + [m]), [])
      else (h, batch + [m])
  }

  function UnbatchedRun(reg: set<SessionId>, g: Gateway, ms: seq<Message>): (r: Gateway)
    requires Serves(reg, g)
    ensures Serves(reg, r)
  {
    if ms == [] then g else Unbatched(reg, UnbatchedRun(reg, g, ms[..|ms| - 1]), ms[|ms| - 1])
  }

  function BatchedRun(reg: set<SessionId>, g: Gateway, ms: seq<Message>): (r: (Gateway, seq<Message>))
    requires Serves(reg, g)
    ensures Serves(reg, r.0)
  {
    if ms == [] then (g, [])
    else
      var s := BatchedRun(reg, g, ms[..|ms| - 1]);
      Batched(reg, s.0, s.1, ms[|ms| - 1])
  }

  // ---------------------------------------------------------------- refinement

  /** `u` is what unbatched mode has done when batched mode has done `b` and holds `batch`. */
  ghost predicate Refines(reg: set<SessionId>, u: Gateway, b: Gateway, batch: seq<Message>)
    requires Serves(reg, u) && Serves(reg, b)
  {
    && (forall sid :: sid in reg ==> Delivered(u, b, batch, sid))
    && u.logins == b.logins
    && u.pushed == b.pushed + Count(batch, reg)
    && u.dropped == b.dropped + |batch| - Count(batch, reg)
  }

  ghost predicate Delivered(u: Gateway, b: Gateway, batch: seq<Message>, sid: SessionId)
    requires sid in u.out && sid in b.out
  {
    ExpandAll(u.out[sid]) == ExpandAll(b.out[sid]) + Pushes(Select(batch, sid))
  }

  ghost predicate Pending(batch: seq<Message>)
  {
    && |batch| < BATCH_FLUSH_SIZE
    && forall i :: 0 <= i < |batch| ==> batch[i].sid != ""
  }

  lemma ExpandGrouped(fs: seq<Frame>, batch: seq<Message>, sid: SessionId)
    ensures ExpandAll(fs + Grouped(batch, sid)) == ExpandAll(fs) + Pushes(Select(batch, sid))
  {
    var mine := Select(batch, sid);
    if mine == [] {
      assert fs + Grouped(batch, sid) == fs;
      assert Pushes(mine) == [];
    } else {
      Snoc(fs, PushBatch(Items(mine)));
      assert Expand(PushBatch(Items(mine))) == Pushes(mine);
    }
  }

  lemma ExpandSingle(fs: seq<Frame>, m: Message)
    ensures ExpandAll(fs + [Single(m.cmd, m.seqId, m.data)]) == ExpandAll(fs) + [AsPush(m)]
  {
    Snoc(fs, Single(m.cmd, m.seqId, m.data));
  }

  lemma PushesSnoc(ms: seq<Message>, m: Message)
    ensures Pushes(ms + [m]) == Pushes(ms) + [AsPush(m)]
  {
  }

  lemma NonePending(sid: SessionId)
    ensures Pushes(Select([], sid)) == []
  {
  }

  lemma FlushDelivered(reg: set<SessionId>, u: Gateway, b: Gateway, batch: seq<Message>, sid: SessionId)
    requires Serves(reg, u) && Serves(reg, b) && sid in reg && Delivered(u, b, batch, sid)
    ensures Delivered(u, Flush(reg, b, batch), [], sid)
  {
    hide ExpandAll, Select, Pushes, Grouped, Count;
    ExpandGrouped(b.out[sid], batch, sid);
    NonePending(sid);
  }

  /** A flush changes what has been sent, not which unbatched output it stands for. */
  lemma FlushRefines(reg: set<SessionId>, u: Gateway, b: Gateway, batch: seq<Message>)
    requires Serves(reg, u) && Serves(reg, b) && Refines(reg, u, b, batch)
    ensures Refines(reg, u, Flush(reg, b, batch), [])
  {
    hide Delivered, Grouped;
    CountBound(batch, reg);
    forall sid | sid in reg ensures Delivered(u, Flush(reg, b, batch), [], sid) {
      FlushDelivered(reg, u, b, batch, sid);
    }
  }

  lemma BroadcastDelivered(u: Gateway, b: Gateway, m: Message, sid: SessionId)
    requires sid in u.out && sid in b.out && Delivered(u, b, [], sid)
    ensures Delivered(Broadcast(u, m), Broadcast(b, m), [], sid)
  {
    hide ExpandAll, Select, Pushes;
    NonePending(sid);
    ExpandSingle(u.out[sid], m);
    ExpandSingle(b.out[sid], m);
  }

  lemma BroadcastRefines(reg: set<SessionId>, u: Gateway, b: Gateway, m: Message)
    requires Serves(reg, u) && Serves(reg, b) && Refines(reg, u, b, [])
    ensures Serves(reg, Broadcast(u, m)) && Serves(reg, Broadcast(b, m))
    ensures Refines(reg, Broadcast(u, m), Broadcast(b, m), [])
  {
    hide Delivered;
    assert |u.out| == |u.out.Keys| && |b.out| == |b.out.Keys|;
    forall sid | sid in reg ensures Delivered(Broadcast(u, m), Broadcast(b, m), [], sid) {
      BroadcastDelivered(u, b, m, sid);
    }
  }

  lemma AppendDelivered(reg: set<SessionId>, u: Gateway, b: Gateway, batch: seq<Message>, m: Message, sid: SessionId)
    requires Serves(reg, u) && Serves(reg, b) && sid in reg && Delivered(u, b, batch, sid)
    requires m.cmd != CMD_HEARTBEAT_REQ && m.sid != ""
    ensures Delivered(Unbatched(reg, u, m), LogIn(reg, b, m), batch + [m], sid)
  {
    Snoc(batch, m);
    SelectSnoc(batch, m, sid);
    if sid == m.sid {
      hide ExpandAll, Select, Pushes;
      ExpandSingle(u.out[sid], m);
      PushesSnoc(Select(batch, sid), m);
      ConcatAssociates(ExpandAll(b.out[sid]), Pushes(Select(batch, sid)), [AsPush(m)]);
    } else {
      hide ExpandAll, Select, Pushes;
    }
  }

  lemma SelectSnoc(ms: seq<Message>, m: Message, sid: SessionId)
    ensures Select(ms + [m], sid) == if m.sid == sid then Select(ms, sid) + [m] else Select(ms, sid)
  {
    Snoc(ms, m);
  }

  lemma CountSnoc(ms: seq<Message>, m: Message, to: set<SessionId>)
    ensures Count(ms + [m], to) == Count(ms, to) + if m.sid in to then 1 else 0
  {
    Snoc(ms, m);
  }

  lemma AppendRefines(reg: set<SessionId>, u: Gateway, b: Gateway, batch: seq<Message>, m: Message)
    requires Serves(reg, u) && Serves(reg, b) && Refines(reg, u, b, batch)
    requires m.cmd != CMD_HEARTBEAT_REQ && m.sid != ""
    ensures Refines(reg, Unbatched(reg, u, m), LogIn(reg, b, m), batch + [m])
  {
    hide Delivered, Count, ExpandAll, Select;
    CountBound(batch, reg);
    CountSnoc(batch, m, reg);
    forall sid | sid in reg ensures Delivered(Unbatched(reg, u, m), LogIn(reg, b, m), batch + [m], sid) {
      AppendDelivered(reg, u, b, batch, m, sid);
    }
  }

  lemma StepRefines(reg: set<SessionId>, u: Gateway, b: Gateway, batch: seq<Message>, m: Message)
    requires Serves(reg, u) && Serves(reg, b) && Refines(reg, u, b, batch) && Pending(batch)
    ensures var r := Batched(reg, b, batch, m);
            Refines(reg, Unbatched(reg, u, m), r.0, r.1) && Pending(r.1)
  {
    hide Refines, Flush, Broadcast, Send;
    if m.cmd == CMD_HEARTBEAT_REQ {
    } else if m.sid == "" {
      FlushRefines(reg, u, b, batch);
      BroadcastRefines(reg, u, Flush(reg, b, batch), m);
    } else {
      AppendRefines(reg, u, b, batch, m);
      if |batch + [m]| >= BATCH_FLUSH_SIZE {
        FlushRefines(reg, Unbatched(reg, u, m), LogIn(reg, b, m), batch + [m]);
      }
    }
  }

  /** After any messages: per connection, the frames already sent followed by the
      pending messages are what unbatched mode has sent, in the same order; logins
      and counters agree up to what is pending, and fewer than 128 are pending. */
  lemma {:induction false} BatchingRefines(reg: set<SessionId>, g: Gateway, ms: seq<Message>)
    requires Serves(reg, g)
    ensures var r := BatchedRun(reg, g, ms);
            Refines(reg, UnbatchedRun(reg, g, ms), r.0, r.1) && Pending(r.1) && |r.1| < 128
  {
    if ms == [] {
      forall sid | sid in reg ensures Delivered(g, g, [], sid) {
        assert Pushes(Select([], sid)) == [];
      }
    } else {
      hide Refines, Batched, Unbatched;
      var s := BatchedRun(reg, g, ms[..|ms| - 1]);
      BatchingRefines(reg, g, ms[..|ms| - 1]);
      StepRefines(reg, UnbatchedRun(reg, g, ms[..|ms| - 1]), s.0, s.1, ms[|ms| - 1]);
    }
  }

  /** With the flush made when the stream ends, nothing differs: every connection
      got the same messages in the same order, and the counters are equal. */
  lemma BatchingIsInvisible(reg: set<SessionId>, g: Gateway, ms: seq<Message>)
    requires Serves(reg, g)
    ensures var u := UnbatchedRun(reg, g, ms);
            var r := BatchedRun(reg, g, ms);
            var b := Flush(reg, r.0, r.1);
            && (forall sid :: sid in reg ==> ExpandAll(u.out[sid]) == ExpandAll(b.out[sid]))
            && u.logins == b.logins && u.pushed == b.pushed && u.dropped == b.dropped
  {
    hide UnbatchedRun, BatchedRun, Flush, ExpandAll, Select, Pushes;
    var u := UnbatchedRun(reg, g, ms);
    var r := BatchedRun(reg, g, ms);
    BatchingRefines(reg, g, ms);
    FlushRefines(reg, u, r.0, r.1);
    forall sid | sid in reg ensures ExpandAll(u.out[sid]) == ExpandAll(Flush(reg, r.0, r.1).out[sid]) {
      assert Delivered(u, Flush(reg, r.0, r.1), [], sid);
      NonePending(sid);
    }
  }

  // ---------------------------------------------------------------- what the messages ask for

  /** The messages meant for a connection, in order: all broadcasts and its own. */
  function For(ms: seq<Message>, sid: SessionId): seq<Message>
  {
    if ms == [] then []
    else
      var m := ms[|ms| - 1];
      For(ms[..|ms| - 1], sid)
      + if m.cmd != CMD_HEARTBEAT_REQ && (m.sid == "" || m.sid == sid) then [m] else []
  }

  /** The logins the messages carry for registered sessions, in order. */
  function LoginsOf(reg: set<SessionId>, ms: seq<Message>): seq<(SessionId, string)>
  {
    if ms == [] then []
    else
      var m := ms[|ms| - 1];
      LoginsOf(reg, ms[..|ms| - 1])
      + if m.cmd != CMD_HEARTBEAT_REQ && m.sid != "" && m.sid in reg && m.userKey != "" then [(m.sid, m.userKey)] else []
  }

  /** The messages for sessions that are not registered. */
  function Misses(reg: set<SessionId>, ms: seq<Message>): nat
  {
    if ms == [] then 0
    else
      var m := ms[|ms| - 1];
      Misses(reg, ms[..|ms| - 1]) + if m.cmd != CMD_HEARTBEAT_REQ && m.sid != "" && m.sid !in reg then 1 else 0
  }

  lemma UnbatchedSends(reg: set<SessionId>, g: Gateway, m: Message, sid: SessionId)
    requires Serves(reg, g) && sid in reg
    ensures ExpandAll(Unbatched(reg, g, m).out[sid])
         == ExpandAll(g.out[sid])
            + if m.cmd != CMD_HEARTBEAT_REQ && (m.sid == "" || m.sid == sid) then [AsPush(m)] else []
  {
    hide ExpandAll;
    ExpandSingle(g.out[sid], m);
    assert ExpandAll(g.out[sid]) + [] == ExpandAll(g.out[sid]);
  }

  lemma {:induction false} UnbatchedReceives(reg: set<SessionId>, g: Gateway, ms: seq<Message>, sid: SessionId)
    requires Serves(reg, g) && sid in reg
    ensures ExpandAll(UnbatchedRun(reg, g, ms).out[sid]) == ExpandAll(g.out[sid]) + Pushes(For(ms, sid))
  {
    hide ExpandAll, Unbatched;
    if ms == [] {
      assert Pushes(For(ms, sid)) == [];
    } else {
      var front, m := ms[..|ms| - 1], ms[|ms| - 1];
      UnbatchedReceives(reg, g, front, sid);
      UnbatchedSends(reg, UnbatchedRun(reg, g, front), m, sid);
      PushesSnoc(For(front, sid), m);
      assert For(front, sid) + [] == For(front, sid);
    }
  }

  lemma {:induction false} UnbatchedCounts(reg: set<SessionId>, g: Gateway, ms: seq<Message>)
    requires Serves(reg, g)
    ensures var u := UnbatchedRun(reg, g, ms);
            u.logins == g.logins + LoginsOf(reg, ms) && u.dropped == g.dropped + Misses(reg, ms)
  {
    if ms != [] {
      var front, m := ms[..|ms| - 1], ms[|ms| - 1];
      UnbatchedCounts(reg, g, front);
      assert UnbatchedRun(reg, g, ms) == Unbatched(reg, UnbatchedRun(reg, g, front), m);
      assert LoginsOf(reg, front) + [] == LoginsOf(reg, front);
    }
  }

  /** In either mode, after the flush at the end of the stream, each connection has
      received exactly the messages meant for it, in order and with their contents;
      the logins are those the messages carry; a message is dropped exactly if its
      session is not registered, and everything else asked for is pushed. */
  lemma EveryoneReceivesTheirs(reg: set<SessionId>, g: Gateway, ms: seq<Message>, sid: SessionId)
    requires Serves(reg, g) && sid in reg
    ensures var u, r := UnbatchedRun(reg, g, ms), BatchedRun(reg, g, ms);
            var b := Flush(reg, r.0, r.1);
            && ExpandAll(u.out[sid]) == ExpandAll(b.out[sid]) == ExpandAll(g.out[sid]) + Pushes(For(ms, sid))
            && u.logins == b.logins == g.logins + LoginsOf(reg, ms)
            && u.dropped == b.dropped == g.dropped + Misses(reg, ms)
            && u.pushed == b.pushed == g.pushed + Demand(reg, ms) - Misses(reg, ms)
  {
    hide UnbatchedRun, BatchedRun, Flush, ExpandAll, Pushes, For, LoginsOf, Misses, Demand;
    UnbatchedReceives(reg, g, ms, sid);
    UnbatchedCounts(reg, g, ms);
    UnbatchedConserves(reg, g, ms);
    BatchingIsInvisible(reg, g, ms);
  }

  /** Session messages since the last broadcast. */
  function SinceBroadcast(ms: seq<Message>): nat
  {
    if ms == [] then 0
    else
      var before, m := SinceBroadcast(ms[..|ms| - 1]), ms[|ms| - 1];
      if m.cmd == CMD_HEARTBEAT_REQ then before else if m.sid == "" then 0 else before + 1
  }

  /** A flush happens at a broadcast and at every 128th session message after it, and
      at no other time. */
  lemma {:induction false} PendingExactly(reg: set<SessionId>, g: Gateway, ms: seq<Message>)
    requires Serves(reg, g)
    ensures |BatchedRun(reg, g, ms).1| == SinceBroadcast(ms) % 128
  {
    hide Flush, Broadcast, LogIn;
    if ms != [] {
      PendingExactly(reg, g, ms[..|ms| - 1]);
    }
  }

  /** Pushes a run of messages stands for: one per session message, one per
      registered connection for a broadcast, none for a heartbeat. */
  function Demand(reg: set<SessionId>, ms: seq<Message>): nat
  {
    if ms == [] then 0
    else
      var m := ms[|ms| - 1];
      Demand(reg, ms[..|ms| - 1])
      + (if m.cmd == CMD_HEARTBEAT_REQ then 0 else if m.sid == "" then |reg| else 1)
  }

  lemma {:induction false} UnbatchedConserves(reg: set<SessionId>, g: Gateway, ms: seq<Message>)
    requires Serves(reg, g)
    ensures var u := UnbatchedRun(reg, g, ms); u.pushed + u.dropped == g.pushed + g.dropped + Demand(reg, ms)
  {
    if ms != [] {
      UnbatchedConserves(reg, g, ms[..|ms| - 1]);
      assert |UnbatchedRun(reg, g, ms[..|ms| - 1]).out.Keys| == |reg|;
    }
  }

  /** Every push asked for is counted once as pushed or dropped, or is pending. */
  lemma BatchedConserves(reg: set<SessionId>, g: Gateway, ms: seq<Message>)
    requires Serves(reg, g)
    ensures var r := BatchedRun(reg, g, ms);
            r.0.pushed + r.0.dropped + |r.1| == g.pushed + g.dropped + Demand(reg, ms)
  {
    UnbatchedConserves(reg, g, ms);
    BatchingRefines(reg, g, ms);
    CountBound(BatchedRun(reg, g, ms).1, reg);
  }

  // ---------------------------------------------------------------- the receive loop's state

  /** Pending messages and the connection map of one shard's receive loop, with the
      gateway it pushes through. */
  class Receiver {
    const registered: set<SessionId>
    var batch: seq<Message>
    var connMap: map<SessionId, seq<PushItem>>
    var out: map<SessionId, seq<Frame>>
    var logins: seq<(SessionId, string)>
    var pushed: nat
    var dropped: nat

    ghost function View(): Gateway
      reads this
    {
      Gateway(out, logins, pushed, dropped)
    }

    /** The connection map is empty between flushes, so no flush uses a connection
        looked up by an earlier one. */
    ghost predicate Valid()
      reads this
    {
      && out.Keys == registered
      && connMap.Keys == {}
      && forall i :: 0 <= i < |batch| ==> batch[i].sid != ""
    }

    constructor (reg: set<SessionId>)
      ensures Valid() && registered == reg && batch == []
      ensures View() == Gateway(map sid | sid in reg :: [], [], 0, 0)
    {
      registered := reg;
      batch, connMap, logins, pushed, dropped := [], map[], [], 0, 0;
      out := map sid | sid in reg :: [];
    }

    /** The first loop of a flush: groups the pending messages by connection and
        counts those without one. */
    method Group()
      requires Valid()
      modifies this`connMap, this`dropped
      ensures GroupsOf(registered, batch, connMap)
      ensures Count(batch, registered) <= |batch|
      ensures dropped == old(dropped) + |batch| - Count(batch, registered)
    {
      hide Count, Select, Items, GroupsOf;
      CountBound(batch, registered);
      NoGroups(registered, connMap);
      assert batch[..0] == [];
      var i := 0;
      while i < |batch|
        invariant i <= |batch| && GroupsOf(registered, batch[..i], connMap)
        invariant dropped == old(dropped) + i - Count(batch[..i], registered)
      {
        var m := batch[i];
        assert batch[..i + 1] == batch[..i] + [m];
        GroupStep(registered, batch[..i], connMap, m);
        CountSnoc(batch[..i], m, registered);
        if m.sid != "" {
          if m.sid !in connMap && m.sid !in registered {
            dropped := dropped + 1;
          } else {
            var had := if m.sid in connMap then connMap[m.sid] else [];
            connMap := connMap[m.sid := had + [AsItem(m)]];
          }
        }
        i := i + 1;
      }
      assert batch[..|batch|] == batch;
    }

    /** The second loop: one PushBatch per connection of the map, in any order,
        each entry being removed as it is sent. */
    method SendGroups()
      requires out.Keys == registered && GroupsOf(registered, batch, connMap)
      modifies this`connMap, this`out, this`pushed
      ensures connMap.Keys == {} && out.Keys == registered
      ensures SentExcept(batch, {}, old(out), out)
      ensures pushed == old(pushed) + Count(batch, registered)
    {
      hide Count, Select, Items, Grouped, GroupsOf, SentExcept;
      ghost var all := connMap;
      GroupsPresent(registered, batch, all);
      NothingSent(batch, all, out);
      while connMap.Keys != {}
        invariant connMap.Keys <= all.Keys && forall sid :: sid in connMap ==> connMap[sid] == all[sid]
        invariant out.Keys == registered && SentExcept(batch, connMap.Keys, old(out), out)
        invariant pushed + Count(batch, connMap.Keys) == old(pushed) + Count(batch, registered)
        decreases connMap.Keys
      {
        var sid :| sid in connMap.Keys;
        var items := connMap[sid];
        ghost var keys := connMap.Keys;
        CountWithout(batch, keys, sid);
        SendOne(batch, keys, old(out), out, sid);
        out := out[sid := out[sid] + [PushBatch(items)]];
        pushed := pushed + |items|;
        connMap := map k | k in connMap && k != sid :: connMap[k];
        assert connMap.Keys == keys - {sid};
      }
      NoneCounted(batch);
    }

    method FlushBatch()
      requires Valid()
      modifies this
      ensures Valid() && batch == [] && View() == Flush(registered, old(View()), old(batch))
    {
      hide Count, Select, Items, GroupsOf, SentExcept, Grouped;
      if |batch| == 0 {
        FlushOfNothing(registered, View());
        return;
      }
      Group();
      SendGroups();
      SentToAll(registered, batch, old(out), out);
      batch := [];
    }

    /** One upstream message in batched mode. */
    method ProcessOne(m: Message)
      requires Valid()
      modifies this
      ensures Valid() && (View(), batch) == Batched(registered, old(View()), old(batch), m)
    {
      if m.cmd == CMD_HEARTBEAT_REQ {
        return;
      }
      if m.sid == "" {
        FlushBatch();
        SendToAll(m);
        return;
      }
      if m.userKey != "" && m.sid in registered {
        logins := logins + [(m.sid, m.userKey)];
      }
      batch := batch + [m];
      if |batch| >= BATCH_FLUSH_SIZE {
        FlushBatch();
      }
    }

    /** The broadcast loop over the connections, in any order. */
    method SendToAll(m: Message)
      requires Valid()
      modifies this`out, this`pushed
      ensures Valid() && View() == Broadcast(old(View()), m)
    {
      var todo := registered;
      var f := Single(m.cmd, m.seqId, m.data);
      while todo != {}
        invariant todo <= registered && out.Keys == registered
        invariant forall sid :: sid in registered ==>
                    out[sid] == if sid in todo then old(out)[sid] else old(out)[sid] + [f]
        invariant pushed + |todo| == old(pushed) + |registered|
        decreases todo
      {
        var sid :| sid in todo;
        out := out[sid := out[sid] + [f]];
        pushed := pushed + 1;
        todo := todo - {sid};
      }
      assert |old(out).Keys| == |registered|;
      assert out == (map sid | sid in old(out) :: old(out)[sid] + [f]);
    }
  }

  lemma {:induction false} NoneCounted(ms: seq<Message>)
    ensures Count(ms, {}) == 0
  {
    if ms != [] {
      NoneCounted(ms[..|ms| - 1]);
    }
  }

  // ---------------------------------------------------------------- steps of the two flush loops

  /** The map holds, for each registered session with messages, its items in order. */
  ghost predicate GroupsOf(reg: set<SessionId>, ms: seq<Message>, cm: map<SessionId, seq<PushItem>>)
  {
    && cm.Keys <= reg
    && (forall sid :: sid in cm ==> Select(ms, sid) != [] && cm[sid] == Items(Select(ms, sid)))
    && (forall sid :: sid in reg && sid !in cm ==> Select(ms, sid) == [])
  }

  lemma NoGroups(reg: set<SessionId>, cm: map<SessionId, seq<PushItem>>)
    requires cm.Keys == {}
    ensures GroupsOf(reg, [], cm) && Count([], reg) == 0
  {
  }

  lemma ItemsSnoc(ms: seq<Message>, m: Message)
    ensures Items(ms + [m]) == Items(ms) + [AsItem(m)]
  {
  }

  lemma GroupStep(reg: set<SessionId>, ms: seq<Message>, cm: map<SessionId, seq<PushItem>>, m: Message)
    requires GroupsOf(reg, ms, cm)
    ensures m.sid in reg ==>
              GroupsOf(reg, ms + [m], cm[m.sid := (if m.sid in cm then cm[m.sid] else []) + [AsItem(m)]])
    ensures m.sid !in reg ==> m.sid !in cm && GroupsOf(reg, ms + [m], cm)
  {
    hide Select, Items;
    forall sid | sid in reg
      ensures Select(ms + [m], sid) == if m.sid == sid then Select(ms, sid) + [m] else Select(ms, sid)
    {
      SelectSnoc(ms, m, sid);
    }
    ItemsSnoc(Select(ms, m.sid), m);
    if m.sid in reg && m.sid !in cm {
      assert Items([]) == [] by { NoItems(); }
    }
  }

  lemma NoItems()
    ensures Items([]) == []
  {
  }

  lemma GroupsPresent(reg: set<SessionId>, ms: seq<Message>, cm: map<SessionId, seq<PushItem>>)
    requires GroupsOf(reg, ms, cm)
    ensures Count(ms, reg) == Count(ms, cm.Keys)
    ensures forall sid :: sid in reg && sid !in cm ==> Grouped(ms, sid) == []
    ensures forall sid :: sid in cm ==> Grouped(ms, sid) == [PushBatch(cm[sid])] && |cm[sid]| == |Select(ms, sid)|
  {
    hide Count, Select;
    CountOnlyPresent(ms, reg, cm.Keys);
  }

  /** All sessions but those still to do have been sent their group. */
  ghost predicate SentExcept(ms: seq<Message>, todo: set<SessionId>,
                             before: map<SessionId, seq<Frame>>, after: map<SessionId, seq<Frame>>)
  {
    && after.Keys == before.Keys && todo <= before.Keys
    && forall sid :: sid in before ==>
         after[sid] == if sid in todo then before[sid] else before[sid] + Grouped(ms, sid)
  }

  lemma NothingSent(ms: seq<Message>, cm: map<SessionId, seq<PushItem>>, out: map<SessionId, seq<Frame>>)
    requires GroupsOf(out.Keys, ms, cm)
    ensures SentExcept(ms, cm.Keys, out, out)
  {
    GroupsPresent(out.Keys, ms, cm);
  }

  lemma SendOne(ms: seq<Message>, todo: set<SessionId>, before: map<SessionId, seq<Frame>>,
                after: map<SessionId, seq<Frame>>, sid: SessionId)
    requires SentExcept(ms, todo, before, after) && sid in todo
    ensures SentExcept(ms, todo - {sid}, before, after[sid := after[sid] + Grouped(ms, sid)])
  {
    hide Grouped;
  }

  lemma SentToAll(reg: set<SessionId>, ms: seq<Message>, before: map<SessionId, seq<Frame>>, after: map<SessionId, seq<Frame>>)
    requires SentExcept(ms, {}, before, after)
    ensures after == map sid | sid in before :: before[sid] + Grouped(ms, sid)
  {
    hide Grouped;
  }

  lemma FlushOfNothing(reg: set<SessionId>, g: Gateway)
    requires Serves(reg, g)
    ensures Flush(reg, g, []) == g
  {
    forall sid | sid in g.out ensures g.out[sid] + Grouped([], sid) == g.out[sid] {
      assert Grouped([], sid) == [];
    }
    assert g.out == map sid | sid in g.out :: g.out[sid] + Grouped([], sid);
  }
}
