/** The queue that keeps messages for a logic server while it is away: four
    overflow policies, front requeue after a failed send, and the flush loop. */
module ReconnectQueue {

  datatype Msg = Msg(id: nat, session: string)

  datatype Policy = Drop | Block | Timeout | Backpressure

  datatype Queue = Queue(items: seq<Msg>, maxSize: nat, policy: Policy, threshold: real, closed: bool)

  ghost predicate Good(q: Queue)
  {
    && q.maxSize > 0 && 0.0 < q.threshold <= 1.0
    && |q.items| <= q.maxSize
  }

  /** Outcome of one locked attempt to enqueue. Policies that wait come back
      later with MustWait; what they wait for is space, closing or the deadline. */
  datatype Verdict =
    | Accepted(dropped: seq<Msg>)
    | MustWait
    | QueueFull
    | Closing
    | PushedBack

  function DropOldest(q: Queue): (Queue, seq<Msg>)
    requires q.maxSize > 0
  {
    if |q.items| >= q.maxSize then (q.(items := q.items[1..]), [q.items[0]]) else (q, [])
  }

  function Append(q: Queue, m: Msg): Queue
  {
    q.(items := q.items + [m])
  }

  function Enqueue(q: Queue, m: Msg, late: bool): (r: (Queue, Verdict))
    requires q.maxSize > 0
  {
    match q.policy
    case Block | Timeout =>
      if |q.items| < q.maxSize then (Append(q, m), Accepted([]))
      else if q.closed then (q, Closing)
      else if late then (q, QueueFull)
      else (q, MustWait)
    case Backpressure =>
      if |q.items| as real / q.maxSize as real >= q.threshold then (q, PushedBack)
      else
        var (q', dropped) := DropOldest(q);
        (Append(q', m), Accepted(dropped))
    case Drop =>
      var (q', dropped) := DropOldest(q);
      (Append(q', m), Accepted(dropped))
  }

  function RequeueFront(q: Queue, m: Msg): (r: (Queue, seq<Msg>))
    requires q.maxSize > 0
  {
    var (q', dropped) := DropOldest(q);
    (q'.(items := [m] + q'.items), dropped)
  }

  /** Under every policy the queue stays within its size; an accepted message is
      the last one; at most the oldest message gives way, and only when full. */
  lemma EnqueueKeepsBound(q: Queue, m: Msg, late: bool)
    requires Good(q)
    ensures var (q', v) := Enqueue(q, m, late);
            && Good(q')
            && (!v.Accepted? ==> q' == q)
            && (v.Accepted? ==> q.items + [m] == v.dropped + q'.items
                                && (v.dropped != [] ==> |q.items| == q.maxSize && |v.dropped| == 1))
  {
    var (d, dropped) := DropOldest(q);
    assert q.items == dropped + d.items;
    assert dropped + (d.items + [m]) == q.items + [m];
    if q.policy == Backpressure { FullIsPushedBack(q); }
  }

  lemma FullIsPushedBack(q: Queue)
    requires Good(q) && q.policy == Backpressure
    ensures |q.items| == q.maxSize ==> |q.items| as real / q.maxSize as real == 1.0
  {
  }

  /** The drop branch of the backpressure policy is unreachable: an accepted
      message never costs another one. The same holds for the waiting policies. */
  lemma OnlyDropPolicyDrops(q: Queue, m: Msg, late: bool)
    requires Good(q) && q.policy != Drop
    ensures var (q', v) := Enqueue(q, m, late);
            v.Accepted? ==> v.dropped == [] && q'.items == q.items + [m]
  {
    if q.policy == Backpressure { FullIsPushedBack(q); }
  }

  /** When each policy takes a message, and what it answers otherwise. A full queue
      answers with closing before lateness, and waits if it is neither. */
  lemma EnqueueAnswers(q: Queue, m: Msg, late: bool)
    requires Good(q)
    ensures var v := Enqueue(q, m, late).1;
            && (v.Accepted? <==>
                  || q.policy == Drop
                  || (q.policy == Backpressure && |q.items| as real < q.threshold * q.maxSize as real)
                  || (q.policy in {Block, Timeout} && |q.items| < q.maxSize))
            && (v.PushedBack? <==> q.policy == Backpressure && |q.items| as real >= q.threshold * q.maxSize as real)
            && (v.Closing? <==> q.policy in {Block, Timeout} && |q.items| == q.maxSize && q.closed)
            && (v.QueueFull? <==> q.policy in {Block, Timeout} && |q.items| == q.maxSize && !q.closed && late)
            && (v.MustWait? <==> q.policy in {Block, Timeout} && |q.items| == q.maxSize && !q.closed && !late)
  {
    RatioIs(|q.items| as real, q.maxSize as real, q.threshold);
  }

  lemma RatioIs(a: real, b: real, t: real)
    requires b > 0.0
    ensures a / b >= t <==> a >= t * b
  {
    assert (a / b) * b == a;
    if a / b >= t {
      assert (a / b - t) * b >= 0.0;
    } else {
      assert (t - a / b) * b > 0.0;
    }
  }

  lemma RequeueKeepsBound(q: Queue, m: Msg)
    requires Good(q)
    ensures var (q', dropped) := RequeueFront(q, m);
            && Good(q')
            && q'.items != [] && q'.items[0] == m && q.items == dropped + q'.items[1..]
            && (dropped != [] ==> |q.items| == q.maxSize && |dropped| == 1)
  {
    var (d, dropped) := DropOldest(q);
    assert q.items == dropped + d.items;
    assert ([m] + d.items)[1..] == d.items;
  }

  // ---------------------------------------------------------------- the object

  datatype Attempt = Sent | Failed | ClientClosing

  const MAX_FAILURES: nat := 100
  const DEFAULT_MAX_SIZE: nat := 100000

  class StreamMessageQueue {
    var queue: seq<Msg>
    const maxSize: nat
    const policy: Policy
    const threshold: real
    var closed: bool

    ghost function View(): Queue
      reads this
    {
      Queue(queue, maxSize, policy, threshold, closed)
    }

    ghost predicate Valid()
      reads this
    {
      Good(View())
    }

    /** Sizes and thresholds out of range fall back to the defaults. */
    constructor (size: int, p: Policy, t: real)
      ensures Valid() && queue == [] && !closed && policy == p
      ensures maxSize == if size <= 0 then DEFAULT_MAX_SIZE else size
      ensures threshold == if t <= 0.0 || t > 1.0 then 0.8 else t
    {
      queue, closed, policy := [], false, p;
      maxSize := if size <= 0 then DEFAULT_MAX_SIZE else size;
      threshold := if t <= 0.0 || t > 1.0 then 0.8 else t;
    }

    /** One locked attempt; `late` says whether the caller's deadline has passed. */
    method TryEnqueue(m: Msg, late: bool) returns (v: Verdict)
      requires Valid()
      modifies this`queue
      ensures Valid()
      ensures (View(), v) == Enqueue(old(View()), m, late)
    {
      EnqueueKeepsBound(View(), m, late);
      if policy == Block || policy == Timeout {
        if |queue| >= maxSize {
          if closed {
            return Closing;
          }
          if late {
            return QueueFull;
          }
          return MustWait;
        }
        queue := queue + [m];
        return Accepted([]);
      }
      if policy == Backpressure {
        if |queue| as real / maxSize as real >= threshold {
          return PushedBack;
        }
      }
      var dropped := [];
      if |queue| >= maxSize {
        dropped := [queue[0]];
        queue := queue[1..];
      }
      queue := queue + [m];
      return Accepted(dropped);
    }

    method Dequeue() returns (m: Msg, ok: bool)
      requires Valid()
      modifies this`queue
      ensures Valid() && ok == (old(queue) != [])
      ensures ok ==> old(queue) == [m] + queue
      ensures !ok ==> queue == []
    {
      if |queue| == 0 {
        return Msg(0, ""), false;
      }
      m := queue[0];
      queue := queue[1..];
      return m, true;
    }

    method PutFront(m: Msg) returns (dropped: seq<Msg>)
      requires Valid()
      modifies this`queue
      ensures Valid()
      ensures (View(), dropped) == RequeueFront(old(View()), m)
    {
      RequeueKeepsBound(View(), m);
      dropped := [];
      if |queue| >= maxSize {
        dropped := [queue[0]];
        queue := queue[1..];
      }
      queue := [m] + queue;
    }

    /** The flush loop without interference: `outcome` says how each send attempt
        turns out. What was sent, what was thrown away because the client is
        closing, and what is left in the queue are the old queue, in order; and
        messages are left behind only after a hundred failures in a row. */
    method Flush(outcome: nat -> Attempt) returns (sent: seq<Msg>, discarded: seq<Msg>, attempts: nat)
      requires Valid()
      modifies this`queue
      ensures Valid()
      ensures old(queue) == sent + discarded + queue && |discarded| <= 1
      ensures discarded != [] ==> attempts > 0 && outcome(attempts - 1).ClientClosing?
      ensures queue != [] && discarded == [] ==>
                attempts >= MAX_FAILURES && forall k :: attempts - MAX_FAILURES <= k < attempts ==> outcome(k).Failed?
    {
      hide RequeueFront;
      var failures := 0;
      sent, discarded, attempts := [], [], 0;
      while failures < MAX_FAILURES
        invariant Valid()
        invariant old(queue) == sent + queue
        invariant failures <= attempts && failures <= MAX_FAILURES
        invariant forall k :: attempts - failures <= k < attempts ==> outcome(k).Failed?
        decreases |queue|, MAX_FAILURES - failures
      {
        ghost var before := queue;
        var m, ok := Dequeue();
        if !ok {
          return;
        }
        Regroup(sent, before, m, queue);
        attempts := attempts + 1;
        match outcome(attempts - 1)
        case ClientClosing =>
          discarded := [m];
          return;
        case Sent =>
          failures := 0;
          sent := sent + [m];
        case Failed =>
          RequeueUndoes(View(), before, m);
          var _ := PutFront(m);
          failures := failures + 1;
      }
    }
  }

  lemma Regroup(sent: seq<Msg>, before: seq<Msg>, m: Msg, rest: seq<Msg>)
    requires before == [m] + rest
    ensures sent + before == (sent + [m]) + rest
  {
  }

  /** Putting a message back right after it was taken restores the queue. */
  lemma RequeueUndoes(q: Queue, before: seq<Msg>, m: Msg)
    requires Good(q.(items := before)) && before == [m] + q.items
    ensures RequeueFront(q, m).0 == q.(items := before)
  {
  }
}
