/** The send side of the link to a logic server under concurrency: goroutines
    that call SendMessage, the reconnect queue with its single flusher, and one
    batching send loop per shard. Message objects come from a pool and go back to
    it, so every object must have exactly one owner at any time. Runs up to the
    closing of the client are considered. */
module LogicLink {
  import opened Common
  import opened ReconnectQueue

  const MAX_BATCH: nat := 256

  /** Fixed parameters: `route` stands for the hash of the session id. */
  datatype Setup = Setup(shards: nat, capacity: nat, route: string -> nat)

  datatype Phase = Waiting | Draining | Sending

  /** A batch the send loop is done with: it went out on the stream, or was dropped
      because there was none or it failed. */
  datatype Batch = Batch(msgs: seq<Msg>, sent: bool)

  /** A shard: its channel, the batch its send loop is working on, and as history
      what was put into the channel and the batches the loop is done with. */
  datatype Shard = Shard(chan: seq<Msg>, batch: seq<Msg>, phase: Phase, accepted: seq<Msg>, done: seq<Batch>)

  datatype Sender =
    | Free
    | ToShard(msg: Msg)  // SendMessage on a connected client
    | ToQueue(msg: Msg, refused: bool)  // the shard would not take it, or else the client was away

  /** The goroutine that holds the flushing flag: between messages, with one in its
      hand, or about to clear the flag; with its failures in a row. */
  datatype Flusher = Off | On(fails: nat) | Hand(msg: Msg, fails: nat) | Ending

  datatype State = State(
    queue: Queue,
    connected: bool,
    flusher: Flusher,
    spawned: nat,         // flush goroutines that have not looked at the flag yet
    shards: seq<Shard>,
    senders: seq<Sender>,
    objects: set<nat>,    // every object ever given to SendMessage
    returned: seq<Msg>,   // handed back to the caller with an error
    pool: seq<Msg>,       // recycled and free to be used again
    arrivals: seq<Msg>,   // accepted by the queue
    flushed: seq<Msg>)    // sent on by the flusher

  datatype Step =
    | Connect
    | Disconnect
    | Submit(who: nat, msg: Msg)
    | Reuse(who: nat, msg: Msg, slot: nat)
    | GiveBack(slot: nat)
    | ShardTakes(who: nat)
    | ShardRefuses(who: nat)
    | TryQueue(who: nat, late: bool)
    | StartFlush
    | FlushNext
    | FlushSends
    | FlushFails
    | StopFlush
    | FlushEnds
    | LoopTakes(shard: nat)
    | LoopStops(shard: nat)
    | LoopSends(shard: nat, ok: bool)

  function ShardOf(c: Setup, m: Msg): (i: nat)
    requires c.shards > 0
    ensures i < c.shards
  {
    c.route(m.session) % c.shards
  }

  ghost predicate Shape(c: Setup, s: State)
  {
    c.shards > 0 && |s.shards| == c.shards && Good(s.queue)
  }

  ghost predicate Enabled(c: Setup, s: State, t: Step)
    requires Shape(c, s)
  {
    match t
    case Connect => true
    case Disconnect => true
    case Submit(w, m) => w < |s.senders| && s.senders[w].Free? && m.id !in s.objects
    case Reuse(w, m, k) => w < |s.senders| && s.senders[w].Free? && k < |s.pool| && s.pool[k].id == m.id
    case GiveBack(k) => k < |s.returned|
    case ShardTakes(w) =>
      w < |s.senders| && s.senders[w].ToShard? && |s.shards[ShardOf(c, s.senders[w].msg)].chan| < c.capacity
    case ShardRefuses(w) => w < |s.senders| && s.senders[w].ToShard?
    case TryQueue(w, _) => w < |s.senders| && s.senders[w].ToQueue?
    case StartFlush => s.spawned > 0
    case FlushNext => s.flusher.On? && s.flusher.fails < MAX_FAILURES
    case FlushSends =>
      s.flusher.Hand? && |s.shards[ShardOf(c, s.flusher.msg)].chan| < c.capacity
    case FlushFails => s.flusher.Hand?
    case StopFlush => s.flusher.On? && s.flusher.fails >= MAX_FAILURES
    case FlushEnds => s.flusher.Ending?
    case LoopTakes(i) =>
      && i < c.shards && s.shards[i].chan != []
      && (s.shards[i].phase.Waiting? || (s.shards[i].phase.Draining? && |s.shards[i].batch| < MAX_BATCH))
    case LoopStops(i) =>
      i < c.shards && s.shards[i].phase.Draining? && (s.shards[i].chan == [] || |s.shards[i].batch| >= MAX_BATCH)
    case LoopSends(i, _) => i < c.shards && s.shards[i].phase.Sending?
  }

  function Put(sh: Shard, m: Msg): Shard
  {
    sh.(chan := sh.chan + [m], accepted := sh.accepted + [m])
  }

  function Take(sh: Shard): Shard
    requires sh.chan != []
  {
    sh.(chan := sh.chan[1..], batch := sh.batch + [sh.chan[0]], phase := Draining)
  }

  /** The batch goes to the stream if there is one; in any case its messages are
      recycled afterwards. */
  function Send(sh: Shard, ok: bool): Shard
  {
    sh.(batch := [], phase := Waiting, done := sh.done + [Batch(sh.batch, ok)])
  }

  ghost function SetShard(s: State, i: nat, sh: Shard): State
    requires i < |s.shards|
  {
    s.(shards := s.shards[i := sh])
  }

  ghost function SetSender(s: State, w: nat, x: Sender): State
    requires w < |s.senders|
  {
    s.(senders := s.senders[w := x])
  }

  /** SendMessage goes to the shard of a connected client, and to the queue otherwise. */
  function Entered(s: State, m: Msg): Sender
  {
    if s.connected then ToShard(m) else ToQueue(m, false)
  }

  function Without(xs: seq<Msg>, k: nat): seq<Msg>
    requires k < |xs|
  {
    xs[..k] + xs[k + 1..]
  }

  ghost function AfterTry(s: State, w: nat, late: bool): State
    requires w < |s.senders| && s.senders[w].ToQueue? && Good(s.queue)
  {
    var m := s.senders[w].msg;
    var (q, v) := Enqueue(s.queue, m, late);
    if v.Accepted? then
      SetSender(s.(queue := q, arrivals := s.arrivals + [m], pool := s.pool + v.dropped,
                   spawned := s.spawned + if s.senders[w].refused then 1 else 0), w, Free)
    else if v.MustWait? then s
    else SetSender(s.(returned := s.returned + [m]), w, Free)
  }

  ghost function Apply(c: Setup, s: State, t: Step): State
    requires Shape(c, s) && Enabled(c, s, t)
  {
    match t
    case Connect => s.(connected := true, spawned := s.spawned + if s.connected then 0 else 1)
    case Disconnect => s.(connected := false)
    case Submit(w, m) => SetSender(s.(objects := s.objects + {m.id}), w, Entered(s, m))
    case Reuse(w, m, k) => SetSender(s.(pool := Without(s.pool, k)), w, Entered(s, m))
    case GiveBack(k) => s.(returned := Without(s.returned, k), pool := s.pool + [s.returned[k]])
    case ShardTakes(w) =>
      var m := s.senders[w].msg;
      var i := ShardOf(c, m);
      SetSender(SetShard(s, i, Put(s.shards[i], m)), w, Free)
    case ShardRefuses(w) => SetSender(s, w, ToQueue(s.senders[w].msg, true))
    case TryQueue(w, late) => AfterTry(s, w, late)
    case StartFlush => s.(spawned := s.spawned - 1, flusher := if s.flusher.Off? then On(0) else s.flusher)
    case FlushNext =>
      if s.queue.items == [] then s.(flusher := Ending)
      else s.(flusher := Hand(s.queue.items[0], s.flusher.fails), queue := s.queue.(items := s.queue.items[1..]))
    case FlushSends =>
      var m := s.flusher.msg;
      var i := ShardOf(c, m);
      SetShard(s.(flusher := On(0), flushed := s.flushed + [m]), i, Put(s.shards[i], m))
    case FlushFails =>
      var (q, dropped) := RequeueFront(s.queue, s.flusher.msg);
      s.(queue := q, flusher := On(s.flusher.fails + 1), pool := s.pool + dropped)
    case StopFlush => s.(flusher := Ending)
    case FlushEnds => s.(flusher := Off)
    case LoopTakes(i) => SetShard(s, i, Take(s.shards[i]))
    case LoopStops(i) => SetShard(s, i, s.shards[i].(phase := Sending))
    case LoopSends(i, ok) => SetShard(s.(pool := s.pool + s.shards[i].batch), i, Send(s.shards[i], ok))
  }

  ghost predicate IsInit(c: Setup, s: State)
  {
    && Shape(c, s) && s.queue.items == [] && s.flusher.Off? && s.spawned == 0
    && (forall i :: 0 <= i < |s.shards| ==> s.shards[i] == Shard([], [], Waiting, [], []))
    && (forall w :: 0 <= w < |s.senders| ==> s.senders[w] == Free)
    && s.objects == {} && s.returned == [] && s.pool == [] && s.arrivals == [] && s.flushed == []
  }

  // ---------------------------------------------------------------- ownership

  /** How often an object occurs in a list. */
  function Occ(xs: seq<Msg>, o: nat): nat
  {
    if xs == [] then 0 else (if xs[0].id == o then 1 else 0) + Occ(xs[1..], o)
  }

  lemma {:induction false} OccAppend(a: seq<Msg>, b: seq<Msg>, o: nat)
    ensures Occ(a + b, o) == Occ(a, o) + Occ(b, o)
  {
    if a == [] {
      assert a + b == b;
    } else {
      assert (a + b)[1..] == a[1..] + b;
      OccAppend(a[1..], b, o);
    }
  }

  lemma OccSnoc(a: seq<Msg>, x: Msg, o: nat)
    ensures Occ(a + [x], o) == Occ(a, o) + (if x.id == o then 1 else 0)
  {
    OccAppend(a, [x], o);
    assert [x][1..] == [];
  }

  lemma {:induction false} OccWithout(xs: seq<Msg>, k: nat, o: nat)
    requires k < |xs|
    ensures Occ(Without(xs, k), o) == Occ(xs, o) - (if xs[k].id == o then 1 else 0)
  {
    if k == 0 {
      assert Without(xs, k) == xs[1..];
    } else {
      assert Without(xs, k)[1..] == Without(xs[1..], k - 1);
      OccWithout(xs[1..], k - 1, o);
    }
  }

  function InSender(x: Sender, o: nat): nat
  {
    if !x.Free? && x.msg.id == o then 1 else 0
  }

  function InFlusher(f: Flusher, o: nat): nat
  {
    if f.Hand? && f.msg.id == o then 1 else 0
  }

  function InShard(sh: Shard, o: nat): nat
  {
    Occ(sh.chan, o) + Occ(sh.batch, o)
  }

  function InSenders(xs: seq<Sender>, o: nat): nat
  {
    if xs == [] then 0 else InSender(xs[0], o) + InSenders(xs[1..], o)
  }

  function InShards(shs: seq<Shard>, o: nat): nat
  {
    if shs == [] then 0 else InShard(shs[0], o) + InShards(shs[1..], o)
  }

  /** The number of places an object is in: the queue, the flusher's hand, a
      channel or batch, a caller still inside SendMessage, a caller that got an
      error, or the pool. */
  ghost function Places(s: State, o: nat): nat
  {
    Occ(s.queue.items, o) + InFlusher(s.flusher, o) + InShards(s.shards, o) + InSenders(s.senders, o)
    + Occ(s.returned, o) + Occ(s.pool, o)
  }

  lemma {:induction false} SendersUpdate(xs: seq<Sender>, w: nat, x: Sender, o: nat)
    requires w < |xs|
    ensures InSenders(xs[w := x], o) == InSenders(xs, o) - InSender(xs[w], o) + InSender(x, o)
  {
    hide InSender;
    if w == 0 {
      assert xs[w := x][1..] == xs[1..];
    } else {
      assert xs[w := x][1..] == xs[1..][w - 1 := x];
      SendersUpdate(xs[1..], w - 1, x, o);
    }
  }

  lemma {:induction false} ShardsUpdate(shs: seq<Shard>, i: nat, sh: Shard, o: nat)
    requires i < |shs|
    ensures InShards(shs[i := sh], o) == InShards(shs, o) - InShard(shs[i], o) + InShard(sh, o)
  {
    hide InShard;
    if i == 0 {
      assert shs[i := sh][1..] == shs[1..];
    } else {
      assert shs[i := sh][1..] == shs[1..][i - 1 := sh];
      ShardsUpdate(shs[1..], i - 1, sh, o);
    }
  }

  lemma ShapeStep(c: Setup, s: State, t: Step)
    requires Shape(c, s) && Enabled(c, s, t)
    ensures Shape(c, Apply(c, s, t))
  {
    match t
    case TryQueue(w, late) => EnqueueKeepsBound(s.queue, s.senders[w].msg, late);
    case FlushFails => RequeueKeepsBound(s.queue, s.flusher.msg);
    case _ =>
  }

  /** What each shard operation does to the places of an object. */
  lemma ShardPlaces(sh: Shard, x: Msg, ok: bool, o: nat)
    ensures InShard(Put(sh, x), o) == InShard(sh, o) + (if x.id == o then 1 else 0)
    ensures sh.chan != [] ==> InShard(Take(sh), o) == InShard(sh, o)
    ensures InShard(Send(sh, ok), o) == InShard(sh, o) - Occ(sh.batch, o)
  {
    OccSnoc(sh.chan, x, o);
    if sh.chan != [] {
      OccSnoc(sh.batch, sh.chan[0], o);
    }
  }

  lemma PlacesTry(c: Setup, s: State, w: nat, late: bool, o: nat)
    requires Shape(c, s) && Enabled(c, s, TryQueue(w, late))
    ensures Places(Apply(c, s, TryQueue(w, late)), o) == Places(s, o)
  {
    var x := s.senders[w].msg;
    var (q, v) := Enqueue(s.queue, x, late);
    EnqueueKeepsBound(s.queue, x, late);
    hide Enqueue, InSenders, InShards, Occ;
    SendersUpdate(s.senders, w, Free, o);
    if v.Accepted? {
      OccSnoc(s.queue.items, x, o);
      OccAppend(v.dropped, q.items, o);
      OccAppend(s.pool, v.dropped, o);
    } else {
      OccSnoc(s.returned, x, o);
    }
  }

  lemma PlacesRequeue(c: Setup, s: State, o: nat)
    requires Shape(c, s) && Enabled(c, s, FlushFails)
    ensures Places(Apply(c, s, FlushFails), o) == Places(s, o)
  {
    var x := s.flusher.msg;
    var (q, dropped) := RequeueFront(s.queue, x);
    RequeueKeepsBound(s.queue, x);
    hide RequeueFront, InSenders, InShards;
    OccAppend(dropped, q.items[1..], o);
    OccAppend(s.pool, dropped, o);
  }

  /** No step loses an object or puts one in two places, and only a new one adds a place. */
  lemma PlacesStep(c: Setup, s: State, t: Step, o: nat)
    requires Shape(c, s) && Enabled(c, s, t)
    ensures Places(Apply(c, s, t), o) == Places(s, o) + (if t.Submit? && t.msg.id == o then 1 else 0)
  {
    hide InSenders, InShards, InShard, Enqueue, RequeueFront, Put, Take, Send, ShardOf, Without;
    match t
    case Submit(w, x) => SendersUpdate(s.senders, w, Entered(s, x), o);
    case Reuse(w, x, k) =>
      SendersUpdate(s.senders, w, Entered(s, x), o);
      OccWithout(s.pool, k, o);
    case GiveBack(k) =>
      OccWithout(s.returned, k, o);
      OccSnoc(s.pool, s.returned[k], o);
    case ShardTakes(w) =>
      var x := s.senders[w].msg;
      var i := ShardOf(c, x);
      SendersUpdate(s.senders, w, Free, o);
      ShardsUpdate(s.shards, i, Put(s.shards[i], x), o);
      ShardPlaces(s.shards[i], x, true, o);
    case ShardRefuses(w) => SendersUpdate(s.senders, w, ToQueue(s.senders[w].msg, true), o);
    case TryQueue(w, late) => PlacesTry(c, s, w, late, o);
    case FlushSends =>
      var x := s.flusher.msg;
      var i := ShardOf(c, x);
      ShardsUpdate(s.shards, i, Put(s.shards[i], x), o);
      ShardPlaces(s.shards[i], x, true, o);
    case FlushFails => PlacesRequeue(c, s, o);
    case LoopTakes(i) =>
      ShardsUpdate(s.shards, i, Take(s.shards[i]), o);
      ShardPlaces(s.shards[i], Msg(o, ""), true, o);
    case LoopStops(i) =>
      ShardsUpdate(s.shards, i, s.shards[i].(phase := Sending), o);
      SamePlaces(s.shards[i], o);
    case LoopSends(i, ok) =>
      ShardsUpdate(s.shards, i, Send(s.shards[i], ok), o);
      ShardPlaces(s.shards[i], Msg(o, ""), ok, o);
      OccAppend(s.pool, s.shards[i].batch, o);
    case _ =>
  }

  lemma SamePlaces(sh: Shard, o: nat)
    ensures InShard(sh.(phase := Sending), o) == InShard(sh, o)
  {
  }

  // ---------------------------------------------------------------- order in the queue

  /** a can be obtained from b by deleting elements. */
  ghost predicate Subseq(a: seq<Msg>, b: seq<Msg>)
    decreases |b|
  {
    a == [] ||
    (b != [] &&
     ((a[|a| - 1] == b[|b| - 1] && Subseq(a[..|a| - 1], b[..|b| - 1])) || Subseq(a, b[..|b| - 1])))
  }

  lemma SubseqSnoc(a: seq<Msg>, b: seq<Msg>, x: Msg)
    requires Subseq(a, b)
    ensures Subseq(a + [x], b + [x])
  {
    assert (a + [x])[..|a|] == a && (b + [x])[..|b|] == b;
  }

  lemma {:induction false} SubseqRemove(a: seq<Msg>, x: Msg, rest: seq<Msg>, b: seq<Msg>)
    requires Subseq(a + [x] + rest, b)
    ensures Subseq(a + rest, b)
    decreases |b|
  {
    var whole := a + [x] + rest;
    var front := b[..|b| - 1];
    if Subseq(whole, front) {
      SubseqRemove(a, x, rest, front);
    } else if rest == [] {
      assert whole[..|whole| - 1] == a && a + rest == a;
    } else {
      var rest' := rest[..|rest| - 1];
      assert whole[..|whole| - 1] == a + [x] + rest';
      SubseqRemove(a, x, rest', front);
      assert (a + rest)[..|a + rest| - 1] == a + rest';
    }
  }

  function HandList(f: Flusher): seq<Msg>
  {
    if f.Hand? then [f.msg] else []
  }

  /** What went through the queue: sent on, in the flusher's hand, still waiting. */
  ghost function Line(s: State): seq<Msg>
  {
    s.flushed + HandList(s.flusher) + s.queue.items
  }

  lemma EnqueueLine(p: seq<Msg>, items: seq<Msg>, m: Msg, dropped: seq<Msg>, after: seq<Msg>, arrivals: seq<Msg>)
    requires Subseq(p + items, arrivals)
    requires items + [m] == dropped + after && |dropped| <= 1
    ensures Subseq(p + after, arrivals + [m])
  {
    hide Subseq;
    SubseqSnoc(p + items, arrivals, m);
    ConcatAssociates(p, items, [m]);
    ConcatAssociates(p, dropped, after);
    if dropped == [] {
      assert p + dropped == p;
    } else {
      assert dropped == [dropped[0]];
      SubseqRemove(p, dropped[0], after, arrivals + [m]);
    }
  }

  lemma RequeueLine(p: seq<Msg>, m: Msg, items: seq<Msg>, dropped: seq<Msg>, rest: seq<Msg>, arrivals: seq<Msg>)
    requires Subseq(p + [m] + items, arrivals)
    requires items == dropped + rest && |dropped| <= 1
    ensures Subseq(p + [] + ([m] + rest), arrivals)
  {
    hide Subseq;
    assert p + [] + ([m] + rest) == (p + [m]) + rest;
    if dropped == [] {
      assert dropped + rest == rest;
    } else {
      assert p + [m] + items == (p + [m]) + [dropped[0]] + rest;
      SubseqRemove(p + [m], dropped[0], rest, arrivals);
    }
  }

  lemma LineTry(c: Setup, s: State, w: nat, late: bool)
    requires Shape(c, s) && Enabled(c, s, TryQueue(w, late)) && Subseq(Line(s), s.arrivals)
    ensures var s' := Apply(c, s, TryQueue(w, late)); Subseq(Line(s'), s'.arrivals)
  {
    hide Enqueue, Subseq;
    var m := s.senders[w].msg;
    var (q, v) := Enqueue(s.queue, m, late);
    EnqueueKeepsBound(s.queue, m, late);
    if v.Accepted? {
      EnqueueLine(s.flushed + HandList(s.flusher), s.queue.items, m, v.dropped, q.items, s.arrivals);
    }
  }

  lemma LineRequeue(c: Setup, s: State)
    requires Shape(c, s) && Enabled(c, s, FlushFails) && Subseq(Line(s), s.arrivals)
    ensures var s' := Apply(c, s, FlushFails); Subseq(Line(s'), s'.arrivals)
  {
    hide RequeueFront, Subseq;
    var m := s.flusher.msg;
    var (q, dropped) := RequeueFront(s.queue, m);
    RequeueKeepsBound(s.queue, m);
    assert q.items == [m] + q.items[1..];
    RequeueLine(s.flushed, m, s.queue.items, dropped, q.items[1..], s.arrivals);
  }

  lemma LineStep(c: Setup, s: State, t: Step)
    requires Shape(c, s) && Enabled(c, s, t) && Subseq(Line(s), s.arrivals)
    ensures var s' := Apply(c, s, t); Subseq(Line(s'), s'.arrivals)
  {
    hide Subseq, Enqueue, RequeueFront, ShardOf, Put, Take, Send;
    var s' := Apply(c, s, t);
    match t
    case TryQueue(w, late) => LineTry(c, s, w, late);
    case FlushFails => LineRequeue(c, s);
    case FlushNext => assert Line(s') == Line(s);
    case FlushSends => assert Line(s') == Line(s);
    case StartFlush => assert Line(s') == Line(s);
    case StopFlush => assert Line(s') == Line(s);
    case FlushEnds => assert Line(s') == Line(s);
    case _ =>
  }

  // ---------------------------------------------------------------- order in the shards

  function Flatten(batches: seq<Batch>): seq<Msg>
  {
    if batches == [] then [] else Flatten(batches[..|batches| - 1]) + batches[|batches| - 1].msgs
  }

  /** The messages that went out on the stream. */
  function WentOut(batches: seq<Batch>): seq<Msg>
  {
    if batches == [] then []
    else
      var last := batches[|batches| - 1];
      WentOut(batches[..|batches| - 1]) + if last.sent then last.msgs else []
  }

  lemma {:induction false} SubseqMore(a: seq<Msg>, b: seq<Msg>, more: seq<Msg>)
    requires Subseq(a, b)
    ensures Subseq(a, b + more)
    decreases |more|
  {
    if more == [] {
      assert b + more == b;
    } else {
      SubseqMore(a, b, more[..|more| - 1]);
      assert (b + more)[..|b + more| - 1] == b + more[..|more| - 1];
    }
  }

  lemma {:induction false} SubseqBoth(a: seq<Msg>, b: seq<Msg>, more: seq<Msg>)
    requires Subseq(a, b)
    ensures Subseq(a + more, b + more)
    decreases |more|
  {
    hide Subseq;
    if more == [] {
      assert a + more == a && b + more == b;
    } else {
      var n := |more| - 1;
      SubseqBoth(a, b, more[..n]);
      SubseqSnoc(a + more[..n], b + more[..n], more[n]);
      assert (a + more[..n]) + [more[n]] == a + more && (b + more[..n]) + [more[n]] == b + more;
    }
  }

  lemma {:induction false} WentOutInOrder(batches: seq<Batch>)
    ensures Subseq(WentOut(batches), Flatten(batches))
    ensures (forall k :: 0 <= k < |batches| ==> batches[k].sent) ==> WentOut(batches) == Flatten(batches)
  {
    if batches != [] {
      var before, last := batches[..|batches| - 1], batches[|batches| - 1];
      WentOutInOrder(before);
      if last.sent {
        SubseqBoth(WentOut(before), Flatten(before), last.msgs);
      } else {
        SubseqMore(WentOut(before), Flatten(before), last.msgs);
        assert WentOut(before) + [] == WentOut(before);
      }
    }
  }

  ghost predicate ShardOk(c: Setup, i: nat, sh: Shard)
    requires c.shards > 0
  {
    && Flatten(sh.done) + sh.batch + sh.chan == sh.accepted
    && (forall k :: 0 <= k < |sh.done| ==> 1 <= |sh.done[k].msgs| <= MAX_BATCH)
    && (if sh.phase.Waiting? then sh.batch == [] else 1 <= |sh.batch| <= MAX_BATCH)
    && (forall k :: 0 <= k < |sh.accepted| ==> ShardOf(c, sh.accepted[k]) == i)
  }

  lemma PutOk(c: Setup, i: nat, sh: Shard, m: Msg)
    requires c.shards > 0 && ShardOk(c, i, sh) && ShardOf(c, m) == i
    ensures ShardOk(c, i, Put(sh, m))
  {
    hide ShardOf, Flatten;
    assert Flatten(sh.done) + sh.batch + (sh.chan + [m]) == sh.accepted + [m];
  }

  lemma TakeOk(c: Setup, i: nat, sh: Shard)
    requires c.shards > 0 && ShardOk(c, i, sh) && sh.chan != []
    requires sh.phase.Waiting? || (sh.phase.Draining? && |sh.batch| < MAX_BATCH)
    ensures ShardOk(c, i, Take(sh))
  {
    hide ShardOf, Flatten;
    assert Flatten(sh.done) + (sh.batch + [sh.chan[0]]) + sh.chan[1..] == Flatten(sh.done) + sh.batch + sh.chan;
  }

  lemma SendOk(c: Setup, i: nat, sh: Shard, ok: bool)
    requires c.shards > 0 && ShardOk(c, i, sh) && sh.phase.Sending?
    ensures ShardOk(c, i, Send(sh, ok))
  {
    hide ShardOf;
    var all := sh.done + [Batch(sh.batch, ok)];
    assert all[..|all| - 1] == sh.done;
    assert Flatten(all) + [] + sh.chan == Flatten(sh.done) + sh.batch + sh.chan;
  }

  ghost predicate ShardsOk(c: Setup, shs: seq<Shard>)
    requires c.shards > 0
  {
    forall i :: 0 <= i < |shs| ==> ShardOk(c, i, shs[i])
  }

  lemma ShardsStep(c: Setup, s: State, t: Step)
    requires Shape(c, s) && Enabled(c, s, t) && ShardsOk(c, s.shards)
    ensures ShardsOk(c, Apply(c, s, t).shards)
  {
    hide Enqueue, RequeueFront, ShardOf, Put, Take, Send, ShardOk;
    match t
    case ShardTakes(w) =>
      var m := s.senders[w].msg;
      PutOk(c, ShardOf(c, m), s.shards[ShardOf(c, m)], m);
    case FlushSends =>
      var m := s.flusher.msg;
      PutOk(c, ShardOf(c, m), s.shards[ShardOf(c, m)], m);
    case LoopTakes(i) => TakeOk(c, i, s.shards[i]);
    case LoopStops(i) => StopOk(c, i, s.shards[i]);
    case LoopSends(i, ok) => SendOk(c, i, s.shards[i], ok);
    case _ =>
  }

  lemma StopOk(c: Setup, i: nat, sh: Shard)
    requires c.shards > 0 && ShardOk(c, i, sh) && sh.phase.Draining?
    ensures ShardOk(c, i, sh.(phase := Sending))
  {
    hide ShardOf, Flatten;
  }

  // ---------------------------------------------------------------- whole runs

  ghost predicate Owned(s: State)
  {
    forall o :: Places(s, o) == if o in s.objects then 1 else 0
  }

  ghost predicate Inv(c: Setup, s: State)
  {
    Shape(c, s) && Owned(s) && Subseq(Line(s), s.arrivals) && ShardsOk(c, s.shards)
  }

  lemma OwnedStep(c: Setup, s: State, t: Step)
    requires Shape(c, s) && Enabled(c, s, t) && Owned(s)
    ensures Owned(Apply(c, s, t))
  {
    hide Places, Enqueue, RequeueFront, ShardOf, Put, Take, Send;
    var s' := Apply(c, s, t);
    forall o ensures Places(s', o) == if o in s'.objects then 1 else 0 {
      PlacesStep(c, s, t, o);
    }
  }

  lemma InvStep(c: Setup, s: State, t: Step)
    requires Inv(c, s) && Enabled(c, s, t)
    ensures Inv(c, Apply(c, s, t))
  {
    hide Enabled, Apply, Owned, Subseq, ShardsOk, Shape;
    ShapeStep(c, s, t);
    OwnedStep(c, s, t);
    LineStep(c, s, t);
    ShardsStep(c, s, t);
  }

  ghost predicate IsRun(c: Setup, s: State, steps: seq<Step>, last: State)
    requires Shape(c, s)
    decreases |steps|
  {
    if steps == [] then s == last
    else
      && Enabled(c, s, steps[0])
      && (ShapeStep(c, s, steps[0]); IsRun(c, Apply(c, s, steps[0]), steps[1..], last))
  }

  lemma {:induction false} InvRun(c: Setup, s: State, steps: seq<Step>, last: State)
    requires Inv(c, s) && IsRun(c, s, steps, last)
    ensures Inv(c, last)
    decreases |steps|
  {
    hide Enabled, Apply, Owned, Subseq, ShardsOk, Shape;
    if steps != [] {
      InvStep(c, s, steps[0]);
      InvRun(c, Apply(c, s, steps[0]), steps[1..], last);
    }
  }

  lemma {:induction false} NothingAnywhere(xs: seq<Sender>, shs: seq<Shard>, o: nat)
    requires forall w :: 0 <= w < |xs| ==> xs[w] == Free
    requires forall i :: 0 <= i < |shs| ==> shs[i] == Shard([], [], Waiting, [], [])
    ensures InSenders(xs, o) == 0 && InShards(shs, o) == 0
    decreases |xs| + |shs|
  {
    if xs != [] {
      NothingAnywhere(xs[1..], shs, o);
    } else if shs != [] {
      NothingAnywhere(xs, shs[1..], o);
    }
  }

  lemma InitInv(c: Setup, s: State)
    requires IsInit(c, s)
    ensures Inv(c, s)
  {
    forall o ensures Places(s, o) == if o in s.objects then 1 else 0 {
      NothingAnywhere(s.senders, s.shards, o);
    }
  }

  /** In every run before closing each object given to SendMessage, new or out of
      the pool, is in exactly one place, and no other object is anywhere. In
      particular a message whose caller got an error belongs to that caller alone,
      and no object is in the pool twice or while somebody still holds it. */
  lemma OneOwner(c: Setup, init: State, steps: seq<Step>, s: State, o: nat)
    requires IsInit(c, init) && IsRun(c, init, steps, s)
    ensures Places(s, o) == if o in s.objects then 1 else 0
    ensures Occ(s.pool, o) <= 1
    ensures Occ(s.returned, o) > 0 ==>
              Occ(s.pool, o) == Occ(s.queue.items, o) == InShards(s.shards, o) == InFlusher(s.flusher, o) == 0
    ensures Occ(s.pool, o) > 0 ==>
              Occ(s.returned, o) == Occ(s.queue.items, o) == InShards(s.shards, o) == InFlusher(s.flusher, o) == 0
  {
    InitInv(c, init);
    InvRun(c, init, steps, s);
    hide Occ, InShards, InSenders;
  }

  /** Under every policy and interleaving the queue stays within its size, and
      what the flusher sent on, then the message in its hand, then the queue are
      a subsequence of the order in which the queue accepted messages, front
      requeues and dropped messages notwithstanding. */
  lemma QueueOrder(c: Setup, init: State, steps: seq<Step>, s: State)
    requires IsInit(c, init) && IsRun(c, init, steps, s)
    ensures |s.queue.items| <= s.queue.maxSize
    ensures Subseq(s.flushed + HandList(s.flusher) + s.queue.items, s.arrivals)
  {
    InitInv(c, init);
    InvRun(c, init, steps, s);
  }

  /** The batches a shard's loop is done with, then the batch in the making, then
      the channel are exactly the messages the shard accepted, in order; every
      batch has 1 to 256 messages; and the messages of one session are all on one
      shard. What went out on the stream is in the order of acceptance, and is all
      of the batches if none was dropped. */
  lemma ShardOrder(c: Setup, init: State, steps: seq<Step>, s: State, i: nat)
    requires IsInit(c, init) && IsRun(c, init, steps, s) && i < c.shards
    ensures i < |s.shards|
    ensures var sh := s.shards[i];
            && Flatten(sh.done) + sh.batch + sh.chan == sh.accepted
            && (forall k :: 0 <= k < |sh.done| ==> 1 <= |sh.done[k].msgs| <= 256)
            && (forall k :: 0 <= k < |sh.accepted| ==> ShardOf(c, sh.accepted[k]) == i)
            && Subseq(WentOut(sh.done), sh.accepted)
            && ((forall k :: 0 <= k < |sh.done| ==> sh.done[k].sent) ==> WentOut(sh.done) == Flatten(sh.done))
  {
    hide WentOut, Flatten, Subseq;
    InitInv(c, init);
    InvRun(c, init, steps, s);
    var sh := s.shards[i];
    assert ShardOk(c, i, sh);
    WentOutInOrder(sh.done);
    SubseqMore(WentOut(sh.done), Flatten(sh.done), sh.batch + sh.chan);
    ConcatAssociates(Flatten(sh.done), sh.batch, sh.chan);
  }

  lemma ChannelIsTheRest(c: Setup, i: nat, sh: Shard)
    requires c.shards > 0 && ShardOk(c, i, sh)
    ensures sh.chan == [] <==> Flatten(sh.done) + sh.batch == sh.accepted
    ensures sh.phase.Waiting? ==> sh.batch == []
    ensures |sh.batch| <= 256
  {
    hide Flatten, ShardOf;
  }

  /** In every run the loop ends a batch exactly when it has 256 messages or there is
      nothing the shard has accepted that is not in a batch yet, and otherwise it
      takes the next message; so the loop always has exactly one step to go on with,
      unless it waits with every accepted message sent off. */
  lemma BatchEndsExactly(c: Setup, init: State, steps: seq<Step>, s: State, i: nat)
    requires IsInit(c, init) && IsRun(c, init, steps, s) && i < c.shards
    ensures Shape(c, s)
    ensures var sh := s.shards[i];
            var all := Flatten(sh.done) + sh.batch == sh.accepted;
            && (Enabled(c, s, LoopStops(i)) <==> sh.phase.Draining? && (|sh.batch| == 256 || all))
            && (Enabled(c, s, LoopTakes(i)) <==> !sh.phase.Sending? && |sh.batch| < 256 && !all)
            && (forall ok :: Enabled(c, s, LoopSends(i, ok)) <==> sh.phase.Sending?)
  {
    hide Flatten, ShardOf, Subseq, Owned, ShardOk, Places, IsInit, IsRun;
    InitInv(c, init);
    InvRun(c, init, steps, s);
    ChannelIsTheRest(c, i, s.shards[i]);
  }

  // ---------------------------------------------------------------- where messages go

  /** A call on a connected client can go on to its shard, if the channel has room,
      and not to the queue; on a client that is away it can only go to the queue. */
  lemma SenderGoesIn(c: Setup, s: State, t: Step)
    requires Shape(c, s) && Enabled(c, s, t) && (t.Submit? || t.Reuse?)
    ensures var s' := Apply(c, s, t);
            && Shape(c, s') && s'.senders[t.who].msg == t.msg
            && (Enabled(c, s', ShardTakes(t.who)) <==> s.connected && |s.shards[ShardOf(c, t.msg)].chan| < c.capacity)
            && (Enabled(c, s', ShardRefuses(t.who)) <==> s.connected)
            && (forall late :: Enabled(c, s', TryQueue(t.who, late)) <==> !s.connected)
  {
    hide ShardOf, Without;
  }

  /** An attempt to enqueue that ends the call does exactly one of two things: the
      queue takes the message, giving up nothing or the first message of a full
      queue, which is recycled; or the message goes back to its caller with an
      error and nothing else moves. */
  lemma TryQueueEnds(c: Setup, s: State, w: nat, late: bool)
    requires Shape(c, s) && Enabled(c, s, TryQueue(w, late)) && Apply(c, s, TryQueue(w, late)).senders[w].Free?
    ensures var s', m := Apply(c, s, TryQueue(w, late)), s.senders[w].msg;
            var q, q' := s.queue, s'.queue;
            if Accepts(s, w, late) then
              && s'.arrivals == s.arrivals + [m] && s'.returned == s.returned
              && (|| (s'.pool == s.pool && q'.items == q.items + [m])
                  || (|q.items| == q.maxSize && s'.pool == s.pool + [q.items[0]] && q'.items == q.items[1..] + [m]))
            else
              s'.arrivals == s.arrivals && q' == q && s'.pool == s.pool && s'.returned == s.returned + [m]
  {
  }

  /** A caller gets out of SendMessage in one of three ways: its shard's channel has
      taken the message, the queue has taken it, or it got an error and the message
      back. */
  lemma SenderGetsOut(c: Setup, s: State, t: Step, w: nat)
    requires Shape(c, s) && Enabled(c, s, t) && w < |s.senders| && !s.senders[w].Free?
    ensures var s', m := Apply(c, s, t), s.senders[w].msg;
            && |s'.senders| == |s.senders|
            && (s'.senders[w].Free? ==>
                  || (t == ShardTakes(w) && s'.shards[ShardOf(c, m)].chan == s.shards[ShardOf(c, m)].chan + [m]
                      && s'.shards[ShardOf(c, m)].accepted == s.shards[ShardOf(c, m)].accepted + [m])
                  || (t.TryQueue? && t.who == w && Accepts(s, w, t.late) && s'.arrivals == s.arrivals + [m])
                  || (t.TryQueue? && t.who == w && !Accepts(s, w, t.late) && s'.returned == s.returned + [m]))
            && (!s'.senders[w].Free? ==> s'.senders[w].msg == m)
  {
    hide Enqueue, RequeueFront, ShardOf, Take, Send, Good, Without;
  }

  /** The objects a step puts into the pool: a batch the send loop is done with, what
      a caller gives back after an error, or the first message of a full queue. */
  ghost function Recycles(c: Setup, s: State, t: Step): seq<Msg>
    requires Shape(c, s) && Enabled(c, s, t)
  {
    match t
    case LoopSends(i, _) => s.shards[i].batch
    case GiveBack(k) => [s.returned[k]]
    case TryQueue(w, late) => if Accepts(s, w, late) then FrontIfFull(s.queue, true) else []
    case FlushFails => FrontIfFull(s.queue, false)
    case _ => []
  }

  /** The first message of a queue that is full; under the policies that refuse when
      full nothing is given up for a new message. */
  ghost function FrontIfFull(q: Queue, arriving: bool): seq<Msg>
  {
    if |q.items| == q.maxSize && q.items != [] && (arriving ==> q.policy == Drop) then [q.items[0]] else []
  }

  /** No step puts anything else into the pool, and only reuse takes something out. */
  lemma PoolChanges(c: Setup, s: State, t: Step)
    requires Shape(c, s) && Enabled(c, s, t)
    ensures Apply(c, s, t).pool == if t.Reuse? then Without(s.pool, t.slot) else s.pool + Recycles(c, s, t)
  {
    hide ShardOf, Put, Take, Send, Without;
    match t
    case TryQueue(w, late) => OnlyDropPolicyGivesUp(s.queue, s.senders[w].msg, late);
    case FlushFails =>
    case _ => assert s.pool + [] == s.pool;
  }

  lemma OnlyDropPolicyGivesUp(q: Queue, m: Msg, late: bool)
    requires Good(q)
    ensures var v := Enqueue(q, m, late).1; v.Accepted? ==> v.dropped == FrontIfFull(q, true)
  {
    if q.policy != Drop {
      OnlyDropPolicyDrops(q, m, late);
    }
  }

  ghost predicate SomeRecycles(c: Setup, s: State, steps: seq<Step>, o: nat)
    requires Shape(c, s)
    decreases |steps|
  {
    && steps != [] && Enabled(c, s, steps[0])
    && (|| Occ(Recycles(c, s, steps[0]), o) > 0
        || (ShapeStep(c, s, steps[0]); SomeRecycles(c, Apply(c, s, steps[0]), steps[1..], o)))
  }

  /** In every run, an object that is in the pool and was not got there by one of
      these steps. */
  lemma {:induction false} PoolOnlyGains(c: Setup, s: State, steps: seq<Step>, last: State, o: nat)
    requires Shape(c, s) && IsRun(c, s, steps, last) && Occ(s.pool, o) == 0 && Occ(last.pool, o) > 0
    ensures SomeRecycles(c, s, steps, o)
    decreases |steps|
  {
    hide Enabled, Apply, Recycles, Shape, Occ, Without;
    if steps != [] {
      var t := steps[0];
      ShapeStep(c, s, t);
      PoolChanges(c, s, t);
      if t.Reuse? {
        ReuseInPool(c, s, t);
        OccWithout(s.pool, t.slot, o);
      } else {
        OccAppend(s.pool, Recycles(c, s, t), o);
      }
      if Occ(Recycles(c, s, t), o) == 0 {
        PoolOnlyGains(c, Apply(c, s, t), steps[1..], last, o);
      }
    }
  }

  lemma ReuseInPool(c: Setup, s: State, t: Step)
    requires Shape(c, s) && Enabled(c, s, t) && t.Reuse?
    ensures t.slot < |s.pool|
  {
  }

  // ---------------------------------------------------------------- what a run has answered

  /** Failed attempts of the flusher since its last success or its last end. */
  function FailsIn(steps: seq<Step>): nat
  {
    if steps == [] then 0
    else
      match steps[|steps| - 1]
      case FlushFails => FailsIn(steps[..|steps| - 1]) + 1
      case FlushSends => 0
      case FlushEnds => 0
      case _ => FailsIn(steps[..|steps| - 1])
  }

  /** The answers the stream gave to the batches of a shard. */
  function Answers(steps: seq<Step>, i: nat): seq<bool>
  {
    if steps == [] then []
    else
      var before, t := Answers(steps[..|steps| - 1], i), steps[|steps| - 1];
      if t.LoopSends? && t.shard == i then before + [t.ok] else before
  }

  function SentFlags(done: seq<Batch>): seq<bool>
  {
    seq(|done|, k requires 0 <= k < |done| => done[k].sent)
  }

  ghost predicate Remembers(s: State, steps: seq<Step>)
  {
    && (s.flusher.Off? ==> FailsIn(steps) == 0)
    && (Active(s.flusher) ==> s.flusher.fails == FailsIn(steps))
    && forall i :: 0 <= i < |s.shards| ==> SentFlags(s.shards[i].done) == Answers(steps, i)
  }

  lemma RemembersStep(c: Setup, s: State, before: seq<Step>, t: Step)
    requires Shape(c, s) && Enabled(c, s, t) && Remembers(s, before)
    ensures Remembers(Apply(c, s, t), before + [t])
  {
    hide Enqueue, RequeueFront, ShardOf, Good, Without, Answers, SentFlags;
    var all := before + [t];
    assert all[..|all| - 1] == before && all[|all| - 1] == t;
    forall i | 0 <= i < |s.shards| ensures SentFlags(Apply(c, s, t).shards[i].done) == Answers(all, i) {
      AnswersSnoc(before, t, i);
      if t.LoopSends? && t.shard == i {
        FlagsSnoc(s.shards[i].done, Batch(s.shards[i].batch, t.ok));
      }
    }
  }

  lemma AnswersSnoc(before: seq<Step>, t: Step, i: nat)
    ensures Answers(before + [t], i) == if t.LoopSends? && t.shard == i then Answers(before, i) + [t.ok] else Answers(before, i)
  {
    assert (before + [t])[..|before|] == before;
  }

  lemma FlagsSnoc(done: seq<Batch>, b: Batch)
    ensures SentFlags(done + [b]) == SentFlags(done) + [b.sent]
  {
  }

  lemma {:induction false} RemembersRun(c: Setup, s: State, before: seq<Step>, steps: seq<Step>, last: State)
    requires Shape(c, s) && Remembers(s, before) && IsRun(c, s, steps, last)
    ensures Remembers(last, before + steps)
    decreases |steps|
  {
    hide Enabled, Apply, Shape, Remembers;
    if steps == [] {
      assert before + steps == before;
    } else {
      ShapeStep(c, s, steps[0]);
      RemembersStep(c, s, before, steps[0]);
      RemembersRun(c, Apply(c, s, steps[0]), before + [steps[0]], steps[1..], last);
      assert before + [steps[0]] + steps[1..] == before + steps;
    }
  }

  lemma StartRemembers(c: Setup, s: State)
    requires IsInit(c, s)
    ensures Remembers(s, [])
  {
  }

  /** In every run the batches of a shard are marked with the answers its stream gave,
      and a flush may give up exactly after a hundred failures in a row, and takes
      the next message exactly before that. */
  lemma AnswersAreKept(c: Setup, init: State, steps: seq<Step>, s: State, i: nat)
    requires IsInit(c, init) && IsRun(c, init, steps, s) && i < c.shards
    ensures Shape(c, s) && SentFlags(s.shards[i].done) == Answers(steps, i)
    ensures Enabled(c, s, StopFlush) <==> s.flusher.On? && FailsIn(steps) >= 100
    ensures Enabled(c, s, FlushNext) <==> s.flusher.On? && FailsIn(steps) < 100
  {
    hide FailsIn, Answers, SentFlags;
    InitInv(c, init);
    InvRun(c, init, steps, s);
    StartRemembers(c, init);
    RemembersRun(c, init, [], steps, s);
    assert [] + steps == steps;
  }

  // ---------------------------------------------------------------- messages left waiting

  predicate Active(f: Flusher)
  {
    f.On? || f.Hand?
  }

  /** A message waits in the queue of a connected client, and no flush is running or
      about to run. */
  ghost predicate Stranded(s: State)
  {
    s.connected && s.queue.items != [] && !Active(s.flusher) && s.spawned == 0
  }

  ghost predicate Accepts(s: State, w: nat, late: bool)
    requires w < |s.senders| && s.senders[w].ToQueue? && Good(s.queue)
  {
    Enqueue(s.queue, s.senders[w].msg, late).1.Accepted?
  }

  /** The three ways to leave a message behind: a sender that saw the client away
      enqueues after the flush for the new connection is over; a flush goroutine
      comes while the last one has seen an empty queue and not cleared the flag; or
      a flush gives up after a hundred failures in a row. */
  ghost predicate Strands(c: Setup, s: State, t: Step)
    requires Shape(c, s) && Enabled(c, s, t)
  {
    && s.connected
    && match t
       case TryQueue(w, late) =>
         !s.senders[w].refused && Accepts(s, w, late) && !Active(s.flusher) && s.spawned == 0
       case StartFlush => s.flusher.Ending? && s.spawned == 1 && s.queue.items != []
       case StopFlush => s.spawned == 0 && s.queue.items != []
       case _ => false
  }

  /** The two ways out: losing the connection, whose return starts a flush, or a
      later message that its shard refuses. */
  ghost predicate Frees(c: Setup, s: State, t: Step)
    requires Shape(c, s) && Enabled(c, s, t)
  {
    t.Disconnect? || (t.TryQueue? && s.senders[t.who].refused && Accepts(s, t.who, t.late))
  }

  /** Exactly these steps leave a message waiting on a connected client, and exactly
      these end it. */
  lemma StrandedExactly(c: Setup, s: State, t: Step)
    requires Shape(c, s) && Enabled(c, s, t)
    ensures Stranded(Apply(c, s, t)) <==> if Stranded(s) then !Frees(c, s, t) else Strands(c, s, t)
  {
    hide Enqueue, RequeueFront, ShardOf, Put, Take, Send, Good;
    match t
    case TryQueue(w, late) => EnqueueFills(s.queue, s.senders[w].msg, late);
    case FlushFails => RequeueKeepsBound(s.queue, s.flusher.msg);
    case _ =>
  }

  lemma EnqueueFills(q: Queue, m: Msg, late: bool)
    requires Good(q)
    ensures Enqueue(q, m, late).1.Accepted? ==> Enqueue(q, m, late).0.items != []
  {
  }

  ghost predicate SomeStrands(c: Setup, s: State, steps: seq<Step>)
    requires Shape(c, s)
    decreases |steps|
  {
    && steps != [] && Enabled(c, s, steps[0])
    && (Strands(c, s, steps[0]) || (ShapeStep(c, s, steps[0]); SomeStrands(c, Apply(c, s, steps[0]), steps[1..])))
  }

  /** In every run, a message is left waiting only if one of the three happened. */
  lemma {:induction false} StrandedOnlyThen(c: Setup, s: State, steps: seq<Step>, last: State)
    requires Shape(c, s) && !Stranded(s) && IsRun(c, s, steps, last) && Stranded(last)
    ensures SomeStrands(c, s, steps)
    decreases |steps|
  {
    hide Enabled, Apply, Stranded, Strands, Frees, Shape;
    if steps != [] {
      ShapeStep(c, s, steps[0]);
      StrandedExactly(c, s, steps[0]);
      if !Strands(c, s, steps[0]) {
        StrandedOnlyThen(c, Apply(c, s, steps[0]), steps[1..], last);
      }
    }
  }

  ghost predicate Reaches(c: Setup, s: State, last: State)
    requires Shape(c, s)
  {
    exists steps :: IsRun(c, s, steps, last)
  }

  lemma {:induction false} RunSnoc(c: Setup, s: State, steps: seq<Step>, last: State, t: Step)
    requires Shape(c, s) && Shape(c, last) && IsRun(c, s, steps, last) && Enabled(c, last, t)
    ensures IsRun(c, s, steps + [t], Apply(c, last, t))
    decreases |steps|
  {
    hide Enabled, Apply, Shape;
    if steps == [] {
      assert (steps + [t])[1..] == [];
      ShapeStep(c, s, t);
    } else {
      ShapeStep(c, s, steps[0]);
      RunSnoc(c, Apply(c, s, steps[0]), steps[1..], last, t);
      assert (steps + [t])[1..] == steps[1..] + [t];
    }
  }

  lemma ReachesNext(c: Setup, s: State, mid: State, t: Step)
    requires Shape(c, s) && Shape(c, mid) && Reaches(c, s, mid) && Enabled(c, mid, t)
    ensures Reaches(c, s, Apply(c, mid, t)) && Shape(c, Apply(c, mid, t))
  {
    hide Enabled, Apply, Shape, IsRun;
    var steps :| IsRun(c, s, steps, mid);
    RunSnoc(c, s, steps, mid, t);
    ShapeStep(c, mid, t);
  }

  /** A new client with one shard and one caller. */
  ghost function NewClient(): State
  {
    State(Queue([], 1, Drop, 0.8, false), false, Off, 0, [Shard([], [], Waiting, [], [])], [Free], {}, [], [], [], [])
  }

  ghost function OneShard(): Setup
  {
    Setup(1, 1, (_: string) => 0)
  }

  lemma ReachesSelf(c: Setup, s: State)
    requires Shape(c, s)
    ensures Reaches(c, s, s)
  {
    assert IsRun(c, s, [], s);
  }

  /** One more step from one known state to another. */
  lemma Then(c: Setup, s: State, mid: State, t: Step, next: State)
    requires Shape(c, s) && Shape(c, mid) && Reaches(c, s, mid) && Enabled(c, mid, t) && Apply(c, mid, t) == next
    ensures Reaches(c, s, next) && Shape(c, next)
  {
    hide Enabled, Apply, Shape, Reaches;
    ReachesNext(c, s, mid, t);
  }

  /** A caller finds the client away, the client connects and its flush ends, and
      then the caller's message enters the queue: it is left there. */
  lemma LateEnqueueStrands(m: Msg) returns (last: State)
    ensures IsInit(OneShard(), NewClient()) && Reaches(OneShard(), NewClient(), last)
    ensures Stranded(last) && last.queue.items == [m] && last.senders == [Free]
  {
    hide Reaches, IsRun, ShardOf, Put, Take, Send;
    var c, s0 := OneShard(), NewClient();
    var s1 := s0.(objects := {m.id}, senders := [ToQueue(m, false)]);
    ReachesSelf(c, s0);
    Then(c, s0, s0, Submit(0, m), s1);
    Then(c, s0, s1, Connect, s1.(connected := true, spawned := 1));
    Then(c, s0, s1.(connected := true, spawned := 1), StartFlush, s1.(connected := true, flusher := On(0)));
    Then(c, s0, s1.(connected := true, flusher := On(0)), FlushNext, s1.(connected := true, flusher := Ending));
    var s5 := s1.(connected := true);
    Then(c, s0, s1.(connected := true, flusher := Ending), FlushEnds, s5);
    last := s5.(queue := s5.queue.(items := [m]), senders := [Free], arrivals := [m]);
    Then(c, s0, s5, TryQueue(0, false), last);
  }

  /** A flush has seen the queue empty; before it clears the flag, a message that its
      shard refused enters the queue and starts a flush, which finds the flag set. */
  lemma LostFlushStrands(m: Msg) returns (last: State)
    ensures IsInit(OneShard(), NewClient()) && Reaches(OneShard(), NewClient(), last)
    ensures Stranded(last) && last.queue.items == [m] && last.senders == [Free]
  {
    hide Reaches, IsRun, ShardOf, Put, Take, Send;
    var c, s0 := OneShard(), NewClient();
    ReachesSelf(c, s0);
    Then(c, s0, s0, Connect, s0.(connected := true, spawned := 1));
    Then(c, s0, s0.(connected := true, spawned := 1), StartFlush, s0.(connected := true, flusher := On(0)));
    var s3 := s0.(connected := true, flusher := Ending);
    Then(c, s0, s0.(connected := true, flusher := On(0)), FlushNext, s3);
    last := FlushIsLost(c, s0, s3, m);
  }

  lemma FlushIsLost(c: Setup, s0: State, s3: State, m: Msg) returns (last: State)
    requires c == OneShard() && s0 == NewClient() && s3 == s0.(connected := true, flusher := Ending)
    requires Shape(c, s0) && Shape(c, s3) && Reaches(c, s0, s3)
    ensures Reaches(c, s0, last) && Stranded(last) && last.queue.items == [m] && last.senders == [Free]
  {
    hide Reaches, IsRun, ShardOf, Put, Take, Send;
    var s4 := s3.(objects := {m.id}, senders := [ToShard(m)]);
    Then(c, s0, s3, Submit(0, m), s4);
    var s5 := s4.(senders := [ToQueue(m, true)]);
    Then(c, s0, s4, ShardRefuses(0), s5);
    last := s5.(queue := s5.queue.(items := [m]), senders := [Free], arrivals := [m]);
    Then(c, s0, s5, TryQueue(0, false), last.(spawned := 1));
    Then(c, s0, last.(spawned := 1), StartFlush, last);
  }

  // ---------------------------------------------------------------- the send loop, serially

  class StreamShard {
    var sendCh: seq<Msg>

    constructor ()
      ensures sendCh == []
    {
      sendCh := [];
    }

    /** Collects the next batch: a prefix of the channel, cut off at 256 messages
        or where the channel runs empty. */
    method NextBatch() returns (batch: seq<Msg>)
      requires sendCh != []
      modifies this
      ensures old(sendCh) == batch + sendCh
      ensures 1 <= |batch| <= 256 && (|batch| < 256 ==> sendCh == [])
    {
      batch := [sendCh[0]];
      sendCh := sendCh[1..];
      var drained := true;
      while drained
        invariant old(sendCh) == batch + sendCh
        invariant 1 <= |batch| <= MAX_BATCH
        invariant drained ==> |batch| < MAX_BATCH
        invariant !drained ==> |batch| == MAX_BATCH || sendCh == []
        decreases drained, |sendCh|
      {
        if sendCh != [] {
          batch := batch + [sendCh[0]];
          sendCh := sendCh[1..];
          if |batch| >= MAX_BATCH {
            drained := false;
          }
        } else {
          drained := false;
        }
      }
    }
  }
}
