/** Clients for logic servers that dial in shard by shard, and the pool of them.
    A client is connected when all its shards have a stream; the pool answers
    "is anything connected" through a shortcut for the one-client case. */
module LogicClient {
  import opened Common

  type Stream = nat

  datatype Error = Ok | ErrNotConnected | ErrConnectionClosing

  // ---------------------------------------------------------------- one client

  datatype Client = Client(total: nat, streams: seq<Option<Stream>>, attached: int, connected: bool, closing: bool)

  function Fresh(total: nat): Client
  {
    Client(total, seq(total, _ => None), 0, false, false)
  }

  function Attach(c: Client, idx: int, st: Stream): (r: (Client, Error))
  {
    if c.closing then (c, ErrConnectionClosing)
    else if idx < 0 || idx >= |c.streams| then (c, ErrNotConnected)
    else
      var n := if c.streams[idx].None? then c.attached + 1 else c.attached;
      (c.(streams := c.streams[idx := Some(st)], attached := n, connected := c.connected || n >= c.total), Ok)
  }

  function Detach(c: Client, idx: nat, st: Stream): Client
    requires idx < |c.streams|
  {
    if c.streams[idx] != Some(st) then c
    else
      var d := c.(streams := c.streams[idx := None]);
      if c.closing then d
      else
        var n := c.attached - 1;
        if n < 0 then d.(attached := n)
        else d.(attached := n, connected := c.connected && n >= c.total)
  }

  function Close(c: Client): Client
  {
    if c.closing then c else c.(closing := true, connected := false)
  }

  /** Shards that hold a stream. */
  function Held(streams: seq<Option<Stream>>): nat
  {
    if streams == [] then 0 else (if streams[0].Some? then 1 else 0) + Held(streams[1..])
  }

  lemma {:induction false} HeldUpdate(streams: seq<Option<Stream>>, i: nat, x: Option<Stream>)
    requires i < |streams|
    ensures Held(streams[i := x]) == Held(streams) - (if streams[i].Some? then 1 else 0) + (if x.Some? then 1 else 0)
  {
    if i == 0 {
      assert streams[i := x][1..] == streams[1..];
    } else {
      assert streams[i := x][1..] == streams[1..][i - 1 := x];
      HeldUpdate(streams[1..], i - 1, x);
    }
  }

  lemma {:induction false} HeldAll(streams: seq<Option<Stream>>)
    ensures Held(streams) <= |streams|
    ensures Held(streams) == |streams| <==> forall i :: 0 <= i < |streams| ==> streams[i].Some?
  {
    if streams != [] {
      HeldAll(streams[1..]);
      assert forall i :: 1 <= i < |streams| ==> streams[i] == streams[1..][i - 1];
      assert forall i :: 0 <= i < |streams[1..]| ==> streams[1..][i] == streams[i + 1];
    }
  }

  lemma {:induction false} HeldNone(streams: seq<Option<Stream>>)
    requires forall i :: 0 <= i < |streams| ==> streams[i].None?
    ensures Held(streams) == 0
  {
    if streams != [] {
      HeldNone(streams[1..]);
    }
  }

  ghost predicate ClientOk(c: Client)
  {
    && c.total > 0 && |c.streams| == c.total
    && (!c.closing ==> c.attached == Held(c.streams))
    && (c.connected <==> !c.closing && Held(c.streams) == c.total)
  }

  datatype Op = DoAttach(idx: int, st: Stream) | DoDetach(shard: nat, st: Stream) | DoClose

  function Step(c: Client, op: Op): Client
  {
    match op
    case DoAttach(i, st) => Attach(c, i, st).0
    case DoDetach(i, st) => if i < |c.streams| then Detach(c, i, st) else c
    case DoClose => Close(c)
  }

  lemma StepOk(c: Client, op: Op)
    requires ClientOk(c)
    ensures ClientOk(Step(c, op)) && (c.closing ==> Step(c, op).closing)
  {
    match op
    case DoAttach(i, st) =>
      if 0 <= i < |c.streams| {
        HeldUpdate(c.streams, i, Some(st));
        HeldAll(c.streams[i := Some(st)]);
      }
    case DoDetach(i, st) =>
      if i < |c.streams| {
        HeldUpdate(c.streams, i, None);
        HeldAll(c.streams);
        HeldAll(c.streams[i := None]);
      }
    case DoClose =>
  }

  function Run(c: Client, ops: seq<Op>): Client
    decreases |ops|
  {
    if ops == [] then c else Run(Step(c, ops[0]), ops[1..])
  }

  lemma {:induction false} RunOk(c: Client, ops: seq<Op>)
    requires ClientOk(c)
    ensures ClientOk(Run(c, ops))
    decreases |ops|
  {
    if ops != [] {
      StepOk(c, ops[0]);
      RunOk(Step(c, ops[0]), ops[1..]);
    }
  }

  lemma FreshOk(total: nat)
    requires total > 0
    ensures ClientOk(Fresh(total))
  {
    HeldNone(Fresh(total).streams);
  }

  lemma {:induction false} TotalFixed(c: Client, ops: seq<Op>)
    ensures Run(c, ops).total == c.total
    decreases |ops|
  {
    if ops != [] {
      TotalFixed(Step(c, ops[0]), ops[1..]);
    }
  }

  /** In every run of attaches, detaches and closing: until closing the counter
      is the number of shards holding a stream, and the client is connected
      exactly while it is not closing and every shard holds a stream. */
  lemma ConnectedExactly(total: nat, ops: seq<Op>)
    requires total > 0
    ensures var c := Run(Fresh(total), ops);
            && |c.streams| == total
            && (!c.closing ==> c.attached == Held(c.streams))
            && (c.connected <==> !c.closing && forall i :: 0 <= i < |c.streams| ==> c.streams[i].Some?)
  {
    FreshOk(total);
    RunOk(Fresh(total), ops);
    TotalFixed(Fresh(total), ops);
    HeldAll(Run(Fresh(total), ops).streams);
  }

  /** A stream that was replaced by a redial can be detached late without any effect. */
  lemma ReplacedStreamIsForgotten(c: Client, i: nat, stale: Stream, current: Stream)
    requires ClientOk(c) && !c.closing && i < |c.streams| && stale != current
    ensures var d := Attach(c, i, current).0; Detach(d, i, stale) == d
    ensures Detach(Detach(c, i, stale), i, stale) == Detach(c, i, stale)
  {
  }

  /** What one attach and one detach mean for the slots, and what closing means. */
  lemma AttachMeans(c: Client, i: int, st: Stream)
    ensures var (d, err) := Attach(c, i, st);
            && (err == Ok <==> !c.closing && 0 <= i < |c.streams|)
            && (err == ErrConnectionClosing <==> c.closing)
            && (err != Ok ==> d == c)
            && (err == Ok ==>
                  && |d.streams| == |c.streams| && d.streams[i] == Some(st) && d.closing == c.closing
                  && forall k :: 0 <= k < |c.streams| && k != i ==> d.streams[k] == c.streams[k])
  {
  }

  lemma DetachMeans(c: Client, i: nat, st: Stream)
    requires i < |c.streams|
    ensures var d := Detach(c, i, st);
            && (c.streams[i] != Some(st) ==> d == c)
            && (c.streams[i] == Some(st) ==> |d.streams| == |c.streams| && d.streams[i] == None && d.closing == c.closing)
            && (forall k :: 0 <= k < |c.streams| && k != i ==> k < |d.streams| && d.streams[k] == c.streams[k])
  {
  }

  lemma CloseMeans(c: Client)
    requires ClientOk(c)
    ensures Close(c).closing && !Close(c).connected && Close(c).streams == c.streams && Close(Close(c)) == Close(c)
    ensures forall i, st :: Attach(Close(c), i, st).1 == ErrConnectionClosing
  {
  }

  /** An attach that was made while the client was not closing. */
  ghost predicate Attached(ops: seq<Op>, k: nat, i: nat)
  {
    && k < |ops| && ops[k].DoAttach? && ops[k].idx == i
    && forall j :: 0 <= j < k ==> !ops[j].DoClose?
  }

  /** The last attach of shard i that counted was of st, and no detach of st followed. */
  ghost predicate HeldBy(ops: seq<Op>, i: nat, st: Stream, k: nat)
  {
    && Attached(ops, k, i) && ops[k] == DoAttach(i, st)
    && forall j :: k < j < |ops| ==> !Attached(ops, j, i) && ops[j] != DoDetach(i, st)
  }

  lemma {:induction false} RunSnoc(c: Client, ops: seq<Op>)
    requires ops != []
    ensures Run(c, ops) == Step(Run(c, ops[..|ops| - 1]), ops[|ops| - 1])
    decreases |ops|
  {
    if |ops| > 1 {
      RunSnoc(Step(c, ops[0]), ops[1..]);
      assert ops[1..][..|ops| - 2] == ops[..|ops| - 1][1..];
    } else {
      assert ops[1..] == [] && ops[..0] == [];
    }
  }

  lemma {:induction false} SlotsFixed(total: nat, ops: seq<Op>)
    ensures |Run(Fresh(total), ops).streams| == total
    ensures Run(Fresh(total), ops).closing <==> exists j :: 0 <= j < |ops| && ops[j].DoClose?
  {
    if ops != [] {
      var front := ops[..|ops| - 1];
      RunSnoc(Fresh(total), ops);
      SlotsFixed(total, front);
      assert forall j :: 0 <= j < |front| ==> front[j] == ops[j];
    }
  }

  lemma FrontHeldBy(ops: seq<Op>, i: nat, st: Stream, k: nat)
    requires ops != [] && k < |ops| - 1
    ensures var n := |ops| - 1;
            HeldBy(ops, i, st, k) <==> HeldBy(ops[..n], i, st, k) && !Attached(ops, n, i) && ops[n] != DoDetach(i, st)
  {
    var n := |ops| - 1;
    var front := ops[..n];
    forall j | 0 <= j < n ensures Attached(ops, j, i) <==> Attached(front, j, i) {
      assert forall l :: 0 <= l <= j ==> front[l] == ops[l];
    }
    assert forall l :: 0 <= l < n ==> front[l] == ops[l];
  }

  lemma NotHeldByLater(ops: seq<Op>, i: nat, st: Stream, k: nat)
    requires ops != [] && k >= |ops| - 1
    ensures HeldBy(ops, i, st, k) <==> k == |ops| - 1 && Attached(ops, k, i) && ops[k] == DoAttach(i, st)
  {
  }

  lemma HeldBySnoc(ops: seq<Op>, i: nat, st: Stream)
    requires ops != []
    ensures var n := |ops| - 1;
            (exists k: nat :: HeldBy(ops, i, st, k)) <==>
              if Attached(ops, n, i) then ops[n] == DoAttach(i, st)
              else ops[n] != DoDetach(i, st) && exists k: nat :: HeldBy(ops[..n], i, st, k)
  {
    hide Attached;
    var n := |ops| - 1;
    forall k: nat | k < n ensures HeldBy(ops, i, st, k) <==>
        HeldBy(ops[..n], i, st, k) && !Attached(ops, n, i) && ops[n] != DoDetach(i, st) {
      FrontHeldBy(ops, i, st, k);
    }
    forall k: nat | k >= n ensures HeldBy(ops, i, st, k) <==> k == n && Attached(ops, k, i) && ops[k] == DoAttach(i, st) {
      NotHeldByLater(ops, i, st, k);
    }
    forall k: nat | HeldBy(ops[..n], i, st, k) ensures k < n {
      AttachedInside(ops[..n], k, i);
    }
    if Attached(ops, n, i) && ops[n] == DoAttach(i, st) {
      assert HeldBy(ops, i, st, n);
    }
  }

  lemma AttachedInside(ops: seq<Op>, k: nat, i: nat)
    ensures Attached(ops, k, i) ==> k < |ops|
  {
  }

  /** In every run shard i holds st exactly when its last attach that counted was of
      st and no detach of st followed. */
  lemma {:induction false} HoldsLastAttached(total: nat, ops: seq<Op>, i: nat, st: Stream)
    requires i < total
    ensures |Run(Fresh(total), ops).streams| == total
    ensures Run(Fresh(total), ops).streams[i] == Some(st) <==> exists k: nat :: HeldBy(ops, i, st, k)
    decreases |ops|
  {
    SlotsFixed(total, ops);
    if ops == [] {
    } else {
      hide HeldBy, Run, Attach, Detach;
      var n := |ops| - 1;
      var front, op := ops[..n], ops[n];
      var c := Run(Fresh(total), front);
      RunSnoc(Fresh(total), ops);
      HoldsLastAttached(total, front, i, st);
      SlotsFixed(total, front);
      assert forall j :: 0 <= j < n ==> front[j] == ops[j];
      assert Attached(ops, n, i) <==> op.DoAttach? && op.idx == i && !c.closing;
      HeldBySnoc(ops, i, st);
      if op.DoAttach? { AttachMeans(c, op.idx, op.st); }
      if op.DoDetach? && op.shard < total { DetachMeans(c, op.shard, op.st); }
    }
  }

  /** Attaching a stream to every shard of a new client connects it. */
  lemma AllAttachedConnects(total: nat, streams: seq<Stream>)
    requires total > 0 && |streams| == total
    ensures Run(Fresh(total), seq(total, i requires 0 <= i < total => DoAttach(i, streams[i]))).connected
  {
    var ops := seq(total, i requires 0 <= i < total => DoAttach(i, streams[i]));
    var c := Run(Fresh(total), ops);
    ConnectedExactly(total, ops);
    SlotsFixed(total, ops);
    forall i | 0 <= i < total ensures c.streams[i] == Some(streams[i]) {
      HoldsLastAttached(total, ops, i, streams[i]);
      assert HeldBy(ops, i, streams[i], i);
    }
  }

  // ---------------------------------------------------------------- the client object

  class LogicClient {
    const totalShards: nat
    var streams: seq<Option<Stream>>
    var attached: int
    var connected: bool
    var closing: bool

    ghost function View(): Client
      reads this
    {
      Client(totalShards, streams, attached, connected, closing)
    }

    ghost predicate Valid()
      reads this
    {
      ClientOk(View())
    }

    constructor (total: nat)
      requires total > 0
      ensures Valid() && View() == Fresh(total)
    {
      totalShards := total;
      streams := seq(total, _ => None);
      attached, connected, closing := 0, false, false;
      new;
      FreshOk(total);
    }

    /** `flush` tells that the client has just become connected, which starts the
        flush of the reconnect queue. */
    method AttachShard(idx: int, st: Stream) returns (err: Error, flush: bool)
      requires Valid()
      modifies this
      ensures Valid() && (View(), err) == Attach(old(View()), idx, st)
      ensures flush <==> connected && !old(connected)
    {
      StepOk(View(), DoAttach(idx, st));
      if closing {
        return ErrConnectionClosing, false;
      }
      if idx < 0 || idx >= |streams| {
        return ErrNotConnected, false;
      }
      var prev := streams[idx];
      streams := streams[idx := Some(st)];
      if prev.None? {
        attached := attached + 1;
      }
      flush := false;
      if attached >= totalShards && !connected {
        connected := true;
        flush := true;
      }
      return Ok, flush;
    }

    method DetachShard(idx: nat, st: Stream)
      requires Valid() && idx < |streams|
      modifies this
      ensures Valid() && View() == Detach(old(View()), idx, st)
    {
      StepOk(View(), DoDetach(idx, st));
      if streams[idx] != Some(st) {
        return;
      }
      streams := streams[idx := None];
      if closing {
        return;
      }
      attached := attached - 1;
      if attached < 0 {
        return;
      }
      if attached < totalShards && connected {
        connected := false;
      }
    }

    method CloseClient()
      requires Valid()
      modifies this
      ensures Valid() && View() == Close(old(View()))
    {
      StepOk(View(), DoClose);
      if closing {
        return;
      }
      closing := true;
      connected := false;
    }
  }

  // ---------------------------------------------------------------- the pool

  /** The handshake data of a dialling logic server; it is validated to have a
      positive shard count before it gets here. */
  datatype Meta = Meta(logicId: string, zone: string, shardIdx: int, shardCount: nat)

  class LogicClientPool {
    var clients: map<string, LogicClient>
    var fastClient: LogicClient?
    var zoneMap: map<string, string>
    var closed: bool

    ghost predicate ClientsValid()
      reads this, clients.Values
    {
      forall id :: id in clients ==> clients[id].Valid()
    }

    /** What makes the shortcut right: it is set to the only client, or left over
        on a client that was closed together with the pool. */
    ghost predicate Valid()
      reads this, clients.Values, if fastClient == null then {} else {fastClient}
    {
      && ClientsValid()
      && (fastClient == null ==> |clients| != 1)
      && (fastClient != null && clients.Keys != {} ==> clients.Values == {fastClient})
      && (fastClient != null && clients.Keys == {} ==> closed && fastClient.Valid() && fastClient.closing)
    }

    /** The answer of a full scan. */
    ghost predicate AnyConnected()
      reads this, clients.Values
    {
      exists id :: id in clients && clients[id].connected
    }

    constructor ()
      ensures Valid() && clients == map[] && !closed
    {
      clients, fastClient, zoneMap, closed := map[], null, map[], false;
    }

    method UpdateFastClient()
      requires ClientsValid()
      modifies this`fastClient
      ensures Valid() && (fastClient != null <==> |clients| == 1)
    {
      if |clients| == 1 {
        var id :| id in clients;
        OnlyValue(clients, id);
        fastClient := clients[id];
        return;
      }
      fastClient := null;
    }

    /** Puts a new client under an id. */
    method Install(meta: Meta) returns (client: LogicClient)
      requires ClientsValid() && meta.shardCount > 0
      modifies this
      ensures Valid() && closed == old(closed) && fresh(client)
      ensures clients == old(clients)[meta.logicId := client]
      ensures client.View() == Fresh(meta.shardCount)
    {
      hide ClientOk;
      client := new LogicClient(meta.shardCount);
      clients := clients[meta.logicId := client];
      if meta.zone != "" {
        zoneMap := zoneMap[meta.logicId := meta.zone];
      }
      UpdateFastClient();
    }

    /** The locked part of Attach: finds or makes the client for a dialling logic
        server. A client with another shard count is replaced and is to be
        closed by the caller. */
    method Admit(meta: Meta) returns (client: LogicClient?, stale: LogicClient?)
      requires Valid() && meta.shardCount > 0
      modifies this
      ensures Valid() && closed == old(closed)
      ensures client == null <==> old(closed)
      ensures client == null ==> stale == null && clients == old(clients)
      ensures client != null ==> clients == old(clients)[meta.logicId := client] && client.totalShards == meta.shardCount
      ensures client != null ==>
                if meta.logicId !in old(clients) then stale == null && fresh(client)
                else if old(clients)[meta.logicId].totalShards == meta.shardCount then
                  stale == null && client == old(clients)[meta.logicId]
                else stale == old(clients)[meta.logicId] && fresh(client)
    {
      hide ClientOk;
      if closed {
        return null, null;
      }
      stale := null;
      client := if meta.logicId in clients then clients[meta.logicId] else null;
      if client == null || client.totalShards != meta.shardCount {
        stale := client;
        client := Install(meta);
      }
    }

    /** Steps of a client at any moment, whether it is in the pool or not, leave
        the pool's shortcut right. */
    method ClientStep(c: LogicClient, op: Op)
      requires Valid() && c.Valid()
      modifies c
      ensures Valid() && c.View() == Step(old(c.View()), op)
    {
      StepOk(c.View(), op);
      match op
      case DoAttach(i, st) =>
        var _, _ := c.AttachShard(i, st);
      case DoDetach(i, st) =>
        if i < |c.streams| {
          c.DetachShard(i, st);
        }
      case DoClose => c.CloseClient();
    }

    /** Closes every client. The shortcut is not reset. */
    method ClosePool()
      requires Valid()
      modifies this, clients.Values
      ensures Valid() && closed && clients == map[] && zoneMap == map[]
      ensures forall id :: id in old(clients) ==> old(clients)[id].closing && !old(clients)[id].connected
    {
      hide ClientOk;
      closed := true;
      var all := clients;
      var todo := clients.Keys;
      while todo != {}
        invariant todo <= all.Keys && clients == all && closed
        invariant fastClient == old(fastClient) && zoneMap == old(zoneMap)
        invariant forall id :: id in all ==> all[id].Valid()
        invariant forall id :: id in all && id !in todo ==> all[id].closing
        invariant fastClient != null && all.Keys == {} ==> fastClient.Valid() && fastClient.closing
        decreases todo
      {
        var id :| id in todo;
        clients[id].CloseClient();
        todo := todo - {id};
      }
      forall id | id in all ensures !all[id].connected {
        ClosedNotConnected(all[id].View());
      }
      clients, zoneMap := map[], map[];
    }

    /** The answer through the shortcut, or by scanning when there is none. It is
        the answer of the full scan in every valid state, after closing too. */
    method IsConnected() returns (b: bool)
      requires Valid()
      ensures b == AnyConnected()
    {
      if fastClient != null {
        if clients.Keys == {} {
          ClosedNotConnected(fastClient.View());
        } else {
          ghost var id :| id in clients.Keys;
          forall j | j in clients ensures clients[j] == fastClient {
            assert clients[j] in clients.Values;
          }
          assert clients[id] == fastClient;
        }
        return fastClient.connected;
      }
      var todo := clients.Keys;
      while todo != {}
        invariant todo <= clients.Keys
        invariant forall id :: id in clients && id !in todo ==> !clients[id].connected
        decreases todo
      {
        var id :| id in todo;
        if clients[id].connected {
          return true;
        }
        todo := todo - {id};
      }
      return false;
    }
  }

  lemma OnlyValue(m: map<string, LogicClient>, k: string)
    requires |m| == 1 && k in m
    ensures m.Values == {m[k]}
  {
    assert |m.Keys - {k}| == 0;
    assert m.Keys == (m.Keys - {k}) + {k};
  }

  lemma ClosedNotConnected(c: Client)
    requires ClientOk(c) && c.closing
    ensures !c.connected
  {
  }
}
