/** The token bucket of the rate limiter. `tryConsume` is a compare-and-swap
    protocol over two atomic words; here every atomic load, store and
    compare-and-swap is a step of its own and goroutines interleave freely. */
module RateLimit {
  import opened Arith

  datatype Params = Params(max: nat, burst: nat, refresh: nat)

  ghost predicate Sane(p: Params)
  {
    0 < p.max <= p.burst && p.refresh > 0
  }

  function Min(a: int, b: int): int
  {
    if a <= b then a else b
  }

  /** Tokens owed for an elapsed time. */
  function Refill(p: Params, elapsed: nat): nat
    requires p.refresh > 0
  {
    (elapsed / p.refresh) * p.max
  }

  lemma RefillsAdd(p: Params, a: nat, b: nat)
    requires p.refresh > 0
    ensures Refill(p, a) + Refill(p, b) <= Refill(p, a + b)
  {
    QuotientsAdd(a, b, p.refresh);
    MulMonotone(a / p.refresh + b / p.refresh, (a + b) / p.refresh, p.max);
    assert (a / p.refresh + b / p.refresh) * p.max == Refill(p, a) + Refill(p, b);
  }

  lemma RefillMonotone(p: Params, a: nat, b: nat)
    requires p.refresh > 0 && a <= b
    ensures Refill(p, a) <= Refill(p, b)
  {
    QuotientMonotone(a, b, p.refresh);
    MulMonotone(a / p.refresh, b / p.refresh, p.max);
  }

  // ---------------------------------------------------------------- interleaved goroutines

  /** Where one goroutine is inside tryConsume, with what it has read. */
  datatype Local =
    | Idle
    | GotNow(now: int)
    | GotLast(now: int, last: int)
    | Refilling(refill: nat)
    | RefillRead(refill: nat, current: int)
    | Consuming
    | ConsumeRead(current: int)

  datatype State = State(tokens: int, last: int, clock: int, admitted: nat, threads: seq<Local>)

  datatype Step =
    | Tick(elapsed: nat)
    | ReadClock(who: nat)
    | LoadLast(who: nat)
    | SwapLast(who: nat)
    | LoadForRefill(who: nat)
    | SwapRefill(who: nat)
    | LoadForConsume(who: nat)
    | SwapConsume(who: nat)

  ghost predicate Enabled(s: State, t: Step)
  {
    t.Tick? || (t.who < |s.threads| &&
      match t
      case ReadClock(w) => s.threads[w].Idle?
      case LoadLast(w) => s.threads[w].GotNow?
      case SwapLast(w) => s.threads[w].GotLast?
      case LoadForRefill(w) => s.threads[w].Refilling?
      case SwapRefill(w) => s.threads[w].RefillRead?
      case LoadForConsume(w) => s.threads[w].Consuming?
      case SwapConsume(w) => s.threads[w].ConsumeRead?)
  }

  ghost function Goto(s: State, who: nat, l: Local): State
    requires who < |s.threads|
  {
    s.(threads := s.threads[who := l])
  }

  ghost function Apply(p: Params, s: State, t: Step): State
    requires p.refresh > 0 && Enabled(s, t)
  {
    match t
    case Tick(elapsed) => s.(clock := s.clock + elapsed)
    case ReadClock(w) => Goto(s, w, GotNow(s.clock))
    case LoadLast(w) =>
      var now := s.threads[w].now;
      Goto(s, w, if now - s.last > p.refresh then GotLast(now, s.last) else Consuming)
    case SwapLast(w) =>
      var GotLast(now, last) := s.threads[w];
      if s.last != last then Goto(s, w, Consuming)
      else
        var refill := if now > last then Refill(p, now - last) else 0;
        Goto(s.(last := now), w, if refill > 0 then Refilling(refill) else Consuming)
    case LoadForRefill(w) => Goto(s, w, RefillRead(s.threads[w].refill, s.tokens))
    case SwapRefill(w) =>
      var RefillRead(refill, current) := s.threads[w];
      if s.tokens != current then Goto(s, w, Refilling(refill))
      else Goto(s.(tokens := Min(current + refill, p.burst)), w, Consuming)
    case LoadForConsume(w) =>
      Goto(s, w, if s.tokens <= 0 then Idle else ConsumeRead(s.tokens))
    case SwapConsume(w) =>
      var current := s.threads[w].current;
      if s.tokens != current then Goto(s, w, Consuming)
      else Goto(s.(tokens := current - 1, admitted := s.admitted + 1), w, Idle)
  }

  /** A bucket fresh from newTokenBucket, created at time t0. */
  ghost predicate IsInit(p: Params, t0: int, s: State)
  {
    && s.tokens == p.max && s.last == t0 && s.clock == t0 && s.admitted == 0
    && forall k :: 0 <= k < |s.threads| ==> s.threads[k].Idle?
  }

  /** Tokens a goroutine has won the right to add and not added yet. */
  function Owed(l: Local): nat
  {
    if l.Refilling? || l.RefillRead? then l.refill else 0
  }

  function Pending(threads: seq<Local>): nat
  {
    if threads == [] then 0 else Owed(threads[0]) + Pending(threads[1..])
  }

  lemma {:induction false} PendingUpdate(threads: seq<Local>, w: nat, l: Local)
    requires w < |threads|
    ensures Pending(threads[w := l]) == Pending(threads) - Owed(threads[w]) + Owed(l)
  {
    var after := threads[w := l];
    if w == 0 {
      assert after[1..] == threads[1..];
    } else {
      assert after[1..] == threads[1..][w - 1 := l];
      PendingUpdate(threads[1..], w - 1, l);
    }
  }

  /** What a goroutine has read is consistent with a clock that only advances. */
  ghost predicate LocalOk(p: Params, s: State, l: Local)
  {
    match l
    case GotNow(now) => now <= s.clock
    case GotLast(now, last) => now <= s.clock && now - last > p.refresh
    case ConsumeRead(current) => current > 0
    case _ => true
  }

  ghost predicate Inv(p: Params, t0: int, issued: nat, s: State)
  {
    && 0 <= s.tokens <= p.burst
    && t0 <= s.last <= s.clock
    && (forall k :: 0 <= k < |s.threads| ==> LocalOk(p, s, s.threads[k]))
    && Paid(p, t0, issued, s)
  }

  /** Admissions, tokens and refills under way never exceed what was issued by
      time t0 and the refills since. */
  ghost predicate Paid(p: Params, t0: int, issued: nat, s: State)
    requires t0 <= s.last
  {
    p.refresh > 0 && s.admitted + s.tokens + Pending(s.threads) <= issued + Refill(p, s.last - t0)
  }

  lemma PaidStep(p: Params, t0: int, issued: nat, s: State, t: Step)
    requires Sane(p) && Inv(p, t0, issued, s) && Enabled(s, t)
    ensures t0 <= Apply(p, s, t).last && Paid(p, t0, issued, Apply(p, s, t))
  {
    hide Pending, Refill, Inv;
    assert Inv(p, t0, issued, s) ==> t0 <= s.last && Paid(p, t0, issued, s) && 0 <= s.tokens by { InvParts(p, t0, issued, s); }
    var s' := Apply(p, s, t);
    if !t.Tick? {
      PendingUpdate(s.threads, t.who, s'.threads[t.who]);
      assert s'.threads == s.threads[t.who := s'.threads[t.who]];
      if t.SwapLast? {
        InvParts(p, t0, issued, s);
        LocalOkAt(p, t0, issued, s, t.who);
        var GotLast(now, last) := s.threads[t.who];
        if s.last == last {
          RefillsAdd(p, last - t0, now - last);
        }
      }
    }
  }

  lemma InvParts(p: Params, t0: int, issued: nat, s: State)
    requires Inv(p, t0, issued, s)
    ensures t0 <= s.last <= s.clock && Paid(p, t0, issued, s) && 0 <= s.tokens <= p.burst
  {
  }

  lemma LocalOkAt(p: Params, t0: int, issued: nat, s: State, k: nat)
    requires Inv(p, t0, issued, s) && k < |s.threads|
    ensures LocalOk(p, s, s.threads[k])
  {
  }

  lemma InvStep(p: Params, t0: int, issued: nat, s: State, t: Step)
    requires Sane(p) && Inv(p, t0, issued, s) && Enabled(s, t)
    ensures Inv(p, t0, issued, Apply(p, s, t))
  {
    PaidStep(p, t0, issued, s, t);
    hide Pending, Refill, Paid;
  }

  ghost predicate IsRun(p: Params, s: State, steps: seq<Step>, last: State)
    requires p.refresh > 0
    decreases |steps|
  {
    if steps == [] then s == last
    else Enabled(s, steps[0]) && IsRun(p, Apply(p, s, steps[0]), steps[1..], last)
  }

  lemma {:induction false} InvRun(p: Params, t0: int, issued: nat, s: State, steps: seq<Step>, last: State)
    requires Sane(p) && Inv(p, t0, issued, s) && IsRun(p, s, steps, last)
    ensures Inv(p, t0, issued, last)
    decreases |steps|
  {
    if steps != [] {
      InvStep(p, t0, issued, s, steps[0]);
      InvRun(p, t0, issued, Apply(p, s, steps[0]), steps[1..], last);
    }
  }

  lemma {:induction false} NothingPending(threads: seq<Local>)
    requires forall k :: 0 <= k < |threads| ==> threads[k].Idle?
    ensures Pending(threads) == 0
  {
    if threads != [] {
      NothingPending(threads[1..]);
    }
  }

  /** Under every interleaving of any number of goroutines the token count stays
      within 0..burst, and the number of admissions since the bucket was created
      is at most max for the start plus max for every full refresh period. */
  lemma RateBound(p: Params, t0: int, init: State, steps: seq<Step>, s: State)
    requires Sane(p) && IsInit(p, t0, init) && IsRun(p, init, steps, s)
    ensures 0 <= s.tokens <= p.burst
    ensures t0 <= s.clock && s.admitted <= p.max * (1 + (s.clock - t0) / p.refresh)
  {
    NothingPending(init.threads);
    InvRun(p, t0, p.max, init, steps, s);
    RefillMonotone(p, s.last - t0, s.clock - t0);
    var n := (s.clock - t0) / p.refresh;
    assert p.max * (1 + n) == p.max + n * p.max;
  }

  // ---------------------------------------------------------------- windows of interleaved runs

  /** Whether a goroutine may still add a refill that it earned before time w0, or
      has earned and not added: at most once in either case. */
  function Carries(l: Local, w0: int): nat
  {
    match l
    case GotNow(now) => if now < w0 then 1 else 0
    case GotLast(now, _) => if now < w0 then 1 else 0
    case Refilling(_) => 1
    case RefillRead(_, _) => 1
    case _ => 0
  }

  function Carried(threads: seq<Local>, w0: int): nat
  {
    if threads == [] then 0 else Carries(threads[0], w0) + Carried(threads[1..], w0)
  }

  lemma {:induction false} CarriedUpdate(threads: seq<Local>, w: nat, l: Local, w0: int)
    requires w < |threads|
    ensures Carried(threads[w := l], w0) == Carried(threads, w0) - Carries(threads[w], w0) + Carries(l, w0)
  {
    var after := threads[w := l];
    if w == 0 {
      assert after[1..] == threads[1..];
    } else {
      assert after[1..] == threads[1..][w - 1 := l];
      CarriedUpdate(threads[1..], w - 1, l, w0);
    }
  }

  lemma {:induction false} CarriedBound(threads: seq<Local>, w0: int)
    ensures Carried(threads, w0) <= |threads|
  {
    if threads != [] {
      CarriedBound(threads[1..], w0);
    }
  }

  /** How many refills may have been earned since w0 when the last one was earned
      at `last`: they are more than a period apart. */
  function Earned(p: Params, w0: int, last: int): nat
    requires p.refresh > 0
  {
    if last < w0 then 0 else 1 + (last - w0) / p.refresh
  }

  lemma EarnedOneMore(p: Params, w0: int, last: int, now: int)
    requires p.refresh > 0 && now - last > p.refresh
    ensures Earned(p, w0, last) <= Earned(p, w0, now)
    ensures now >= w0 ==> Earned(p, w0, last) + 1 <= Earned(p, w0, now)
  {
    if last >= w0 {
      QuotientMonotone(last - w0 + p.refresh, now - w0, p.refresh);
      QuotientPlusOne(last - w0, p.refresh);
    }
  }

  /** Refills that can have been added since the window began, given that the
      goroutines still carry some. */
  ghost function Added(p: Params, w0: int, c0: nat, s: State): int
    requires p.refresh > 0
  {
    c0 + Earned(p, w0, s.last) - Carried(s.threads, w0)
  }

  /** Every refill brings at most `burst` tokens, however much it was worth. */
  ghost predicate Capped(p: Params, w0: int, a0: nat, c0: nat, s: State)
  {
    && p.refresh > 0 && w0 <= s.clock
    && s.admitted - a0 + s.tokens <= p.burst * (1 + Added(p, w0, c0, s))
  }

  lemma AddedStep(p: Params, t0: int, issued: nat, w0: int, c0: nat, s: State, t: Step)
    requires Sane(p) && Inv(p, t0, issued, s) && Enabled(s, t) && w0 <= s.clock
    ensures var s' := Apply(p, s, t);
            Added(p, w0, c0, s') >= Added(p, w0, c0, s) +
              if t.SwapRefill? && s.tokens == s.threads[t.who].current then 1 else 0
  {
    hide Carried, Earned, Inv, Refill;
    if !t.Tick? {
      LocalOkAt(p, t0, issued, s, t.who);
      var s' := Apply(p, s, t);
      var l := s'.threads[t.who];
      assert s'.threads == s.threads[t.who := l];
      CarriedUpdate(s.threads, t.who, l, w0);
      if t.SwapLast? && s.last == s.threads[t.who].last {
        EarnedOneMore(p, w0, s.last, s.threads[t.who].now);
      }
    }
  }

  lemma CappedStep(p: Params, t0: int, issued: nat, w0: int, a0: nat, c0: nat, s: State, t: Step)
    requires Sane(p) && Inv(p, t0, issued, s) && Enabled(s, t) && Capped(p, w0, a0, c0, s)
    ensures Capped(p, w0, a0, c0, Apply(p, s, t))
  {
    hide Added, Inv, Refill;
    var s' := Apply(p, s, t);
    var n, n' := 1 + Added(p, w0, c0, s), 1 + Added(p, w0, c0, s');
    InvParts(p, t0, issued, s);
    AddedStep(p, t0, issued, w0, c0, s, t);
    MulMonotone(n, n', p.burst);
    if t.SwapRefill? && s.tokens == s.threads[t.who].current {
      MulMonotone(n + 1, n', p.burst);
      assert (n + 1) * p.burst == n * p.burst + p.burst;
    }
  }

  lemma {:induction false} CappedRun(p: Params, t0: int, issued: nat, w0: int, a0: nat, c0: nat, s: State, steps: seq<Step>, last: State)
    requires Sane(p) && Inv(p, t0, issued, s) && IsRun(p, s, steps, last) && Capped(p, w0, a0, c0, s)
    ensures Inv(p, t0, issued, last) && Capped(p, w0, a0, c0, last)
    decreases |steps|
  {
    hide Inv, Capped, Apply, Enabled;
    if steps != [] {
      InvStep(p, t0, issued, s, steps[0]);
      CappedStep(p, t0, issued, w0, a0, c0, s, steps[0]);
      CappedRun(p, t0, issued, w0, a0, c0, Apply(p, s, steps[0]), steps[1..], last);
    }
  }

  /** Any window of an interleaved run of N goroutines admits at most burst for
      what the bucket holds, for each goroutine, for each refresh period in the
      window and for one more. It also admits no more than the tokens and the
      refills under way at its start and the refills earned in it. */
  lemma InterleavedWindow(p: Params, t0: int, init: State, before: seq<Step>, s0: State, window: seq<Step>, s: State)
    requires Sane(p) && IsInit(p, t0, init) && IsRun(p, init, before, s0) && IsRun(p, s0, window, s)
    ensures s0.last <= s.last <= s.clock && s0.clock <= s.clock
    ensures s.admitted - s0.admitted <= p.burst * (|s0.threads| + 2 + (s.clock - s0.clock) / p.refresh)
    ensures s.admitted - s0.admitted <= s0.tokens + Pending(s0.threads) + Refill(p, s.last - s0.last)
  {
    NothingPending(init.threads);
    InvRun(p, t0, p.max, init, before, s0);
    WindowByGoroutines(p, t0, p.max, s0, window, s);
    InvRun(p, s0.last, s0.admitted + s0.tokens + Pending(s0.threads), s0, window, s);
  }

  lemma AddedBound(p: Params, w0: int, c0: nat, s: State)
    requires p.refresh > 0 && w0 <= s.clock && s.last <= s.clock
    ensures Added(p, w0, c0, s) <= c0 + 1 + (s.clock - w0) / p.refresh
  {
    hide Carried;
    if s.last >= w0 {
      QuotientMonotone(s.last - w0, s.clock - w0, p.refresh);
    }
  }

  lemma CappedStart(p: Params, s: State)
    requires p.refresh > 0 && s.tokens <= p.burst
    ensures Capped(p, s.clock, s.admitted, Carried(s.threads, s.clock), s)
  {
    hide Carried, Earned;
    MulMonotone(1, 1 + Added(p, s.clock, Carried(s.threads, s.clock), s), p.burst);
  }

  lemma WindowByGoroutines(p: Params, t0: int, issued: nat, s0: State, window: seq<Step>, s: State)
    requires Sane(p) && Inv(p, t0, issued, s0) && IsRun(p, s0, window, s)
    ensures s0.clock <= s.clock
    ensures s.admitted - s0.admitted <= p.burst * (|s0.threads| + 2 + (s.clock - s0.clock) / p.refresh)
  {
    hide Inv, Carried, IsRun, Added, Paid;
    var w0, c0 := s0.clock, Carried(s0.threads, s0.clock);
    InvParts(p, t0, issued, s0);
    CappedStart(p, s0);
    CappedRun(p, t0, issued, w0, s0.admitted, c0, s0, window, s);
    InvParts(p, t0, issued, s);
    CarriedBound(s0.threads, w0);
    AddedBound(p, w0, c0, s);
    var periods := (s.clock - w0) / p.refresh;
    MulMonotone(1 + Added(p, w0, c0, s), |s0.threads| + 2 + periods, p.burst);
  }

  // ---------------------------------------------------------------- no window bound under interleaving

  ghost predicate Reaches(p: Params, s: State, last: State)
    requires p.refresh > 0
  {
    exists steps :: IsRun(p, s, steps, last)
  }

  lemma {:induction false} RunAppend(p: Params, s: State, a: seq<Step>, mid: State, b: seq<Step>, last: State)
    requires p.refresh > 0 && IsRun(p, s, a, mid) && IsRun(p, mid, b, last)
    ensures IsRun(p, s, a + b, last)
    decreases |a|
  {
    if a == [] {
      assert a + b == b;
    } else {
      RunAppend(p, Apply(p, s, a[0]), a[1..], mid, b, last);
      assert (a + b)[1..] == a[1..] + b;
    }
  }

  lemma ReachesNext(p: Params, s: State, mid: State, t: Step)
    requires p.refresh > 0 && Reaches(p, s, mid) && Enabled(mid, t)
    ensures Reaches(p, s, Apply(p, mid, t))
  {
    var a :| IsRun(p, s, a, mid);
    assert [t][1..] == [];
    assert IsRun(p, mid, [t], Apply(p, mid, t));
    RunAppend(p, s, a, mid, [t], Apply(p, mid, t));
  }

  const TIGHT := Params(1, 1, 1)

  /** n goroutines, of which the first `owing` have each earned a refill of two and
      not added it yet. */
  function Crowd(n: nat, owing: nat): seq<Local>
  {
    seq(n, i => if i < owing then Refilling(2) else Idle)
  }

  ghost function Start(n: nat): State
  {
    State(1, 0, 0, 0, Crowd(n, 0))
  }

  /** One goroutine after the other wakes two periods later and earns a refill. */
  lemma {:induction false} CrowdGathers(n: nat, k: nat)
    requires k <= n
    ensures Reaches(TIGHT, Start(n), State(1, 2 * k, 2 * k, 0, Crowd(n, k)))
  {
    if k == 0 {
      assert IsRun(TIGHT, Start(n), [], Start(n));
    } else {
      CrowdGathers(n, k - 1);
      var w := k - 1;
      var s0 := State(1, 2 * w, 2 * w, 0, Crowd(n, w));
      ReachesNext(TIGHT, Start(n), s0, Tick(2));
      var s1 := s0.(clock := 2 * k);
      ReachesNext(TIGHT, Start(n), s1, ReadClock(w));
      var s2 := Goto(s1, w, GotNow(2 * k));
      ReachesNext(TIGHT, Start(n), s2, LoadLast(w));
      var s3 := Goto(s1, w, GotLast(2 * k, 2 * w));
      assert Apply(TIGHT, s2, LoadLast(w)) == s3 by {
        assert s2.threads[w := GotLast(2 * k, 2 * w)] == s3.threads;
      }
      ReachesNext(TIGHT, Start(n), s3, SwapLast(w));
      assert s3.threads[w := Refilling(2)] == Crowd(n, k);
      assert Refill(TIGHT, 2) == 2;
    }
  }

  ghost function Spent(n: nat, k: nat, clock: int): State
    requires k <= n
  {
    State(if k == 0 then 1 else 0, clock, clock, k, Crowd(n, n - k))
  }

  /** Then, without the clock moving, each adds its refill and is admitted. */
  lemma {:induction false} CrowdSpends(n: nat, k: nat, clock: int)
    requires k <= n
    ensures Reaches(TIGHT, State(1, clock, clock, 0, Crowd(n, n)), Spent(n, k, clock))
  {
    var from := State(1, clock, clock, 0, Crowd(n, n));
    if k == 0 {
      assert IsRun(TIGHT, from, [], from);
    } else {
      CrowdSpends(n, k - 1, clock);
      var w := n - k;
      var s0 := Spent(n, k - 1, clock);
      ReachesNext(TIGHT, from, s0, LoadForRefill(w));
      var s1 := Goto(s0, w, RefillRead(2, s0.tokens));
      ReachesNext(TIGHT, from, s1, SwapRefill(w));
      var s2 := Goto(s0.(tokens := 1), w, Consuming);
      assert s1.threads[w := Consuming] == s2.threads;
      ReachesNext(TIGHT, from, s2, LoadForConsume(w));
      var s3 := Goto(s0.(tokens := 1), w, ConsumeRead(1));
      assert s2.threads[w := ConsumeRead(1)] == s3.threads;
      ReachesNext(TIGHT, from, s3, SwapConsume(w));
      assert s3.threads[w := Idle] == Crowd(n, w);
    }
  }

  /** Interleaved calls have no window bound in terms of the parameters alone: with
      max, burst and refresh all one, any number of calls can be admitted at one
      instant of a run from a new bucket. */
  lemma NoWindowBound(n: nat) returns (init: State, s0: State, s: State)
    ensures Sane(TIGHT) && IsInit(TIGHT, 0, init) && Reaches(TIGHT, init, s0) && Reaches(TIGHT, s0, s)
    ensures s0.clock == s.clock && s.admitted == s0.admitted + n
  {
    CrowdGathers(n, n);
    CrowdSpends(n, n, 2 * n);
    init, s0, s := Start(n), State(1, 2 * n, 2 * n, 0, Crowd(n, n)), Spent(n, n, 2 * n);
  }

  // ---------------------------------------------------------------- one caller at a time

  datatype Bucket = Bucket(tokens: int, last: int)

  function Refilled(p: Params, b: Bucket, now: int): Bucket
    requires p.refresh > 0
  {
    if now - b.last > p.refresh then
      var refill := Refill(p, now - b.last);
      Bucket(if refill > 0 then Min(b.tokens + refill, p.burst) else b.tokens, now)
    else b
  }

  function TryConsume(p: Params, b: Bucket, now: int): (r: (Bucket, bool))
    requires p.refresh > 0
  {
    var c := Refilled(p, b, now);
    if c.tokens <= 0 then (c, false) else (c.(tokens := c.tokens - 1), true)
  }

  function After(p: Params, b: Bucket, times: seq<int>): Bucket
    requires p.refresh > 0
    decreases |times|
  {
    if times == [] then b else After(p, TryConsume(p, b, times[0]).0, times[1..])
  }

  function Admitted(p: Params, b: Bucket, times: seq<int>): nat
    requires p.refresh > 0
    decreases |times|
  {
    if times == [] then 0
    else
      var (c, ok) := TryConsume(p, b, times[0]);
      (if ok then 1 else 0) + Admitted(p, c, times[1..])
  }

  ghost predicate Nondecreasing(times: seq<int>)
  {
    forall i, j :: 0 <= i <= j < |times| ==> times[i] <= times[j]
  }

  ghost predicate BucketOk(p: Params, b: Bucket)
  {
    0 <= b.tokens <= p.burst
  }

  lemma StepOk(p: Params, b: Bucket, now: int)
    requires Sane(p) && BucketOk(p, b) && b.last <= now
    ensures var c := TryConsume(p, b, now).0;
            BucketOk(p, c) && b.last <= c.last <= now
  {
  }

  // ------------------------------ what calls are given

  lemma {:induction false} AdmittedFromBucket(p: Params, b: Bucket, n: nat, t: int)
    requires Sane(p) && BucketOk(p, b) && t - b.last <= p.refresh
    ensures Admitted(p, b, seq(n, _ => t)) == Min(n, b.tokens)
    decreases n
  {
    if n > 0 {
      var times := seq(n, _ => t);
      assert times[1..] == seq(n - 1, _ => t);
      AdmittedFromBucket(p, TryConsume(p, b, t).0, n - 1, t);
    }
  }

  /** Of n calls at one time, exactly as many are admitted as there are tokens: those
      in the bucket and, if more than a refresh period has passed, `max` for every
      full period, up to `burst`. */
  lemma AdmittedExactly(p: Params, b: Bucket, n: nat, t: int)
    requires Sane(p) && BucketOk(p, b) && b.last <= t
    ensures Admitted(p, b, seq(n, _ => t))
         == if t - b.last > p.refresh then Min(n, Min(b.tokens + ((t - b.last) / p.refresh) * p.max, p.burst))
            else Min(n, b.tokens)
  {
    hide Admitted, Refilled, Refill;
    if t - b.last <= p.refresh {
      AdmittedFromBucket(p, b, n, t);
    } else {
      RefilledIs(p, b, t);
      AdmittedRefilled(p, b, n, t);
    }
  }

  lemma AdmittedRefilled(p: Params, b: Bucket, n: nat, t: int)
    requires Sane(p) && BucketOk(p, b) && t - b.last > p.refresh
    ensures Admitted(p, b, seq(n, _ => t)) == Min(n, Refilled(p, b, t).tokens)
  {
    hide Refill;
    if n > 0 {
      RefillFirst(p, b, seq(n, _ => t));
      hide Admitted;
      AdmittedFromBucket(p, Refilled(p, b, t), n, t);
    }
  }

  lemma RefilledIs(p: Params, b: Bucket, t: int)
    requires Sane(p) && t - b.last > p.refresh
    ensures Refilled(p, b, t) == Bucket(Min(b.tokens + ((t - b.last) / p.refresh) * p.max, p.burst), t)
  {
    QuotientMonotone(p.refresh, t - b.last, p.refresh);
    MulMonotone(1, (t - b.last) / p.refresh, p.max);
  }

  // ------------------------------ one goroutine alone

  /** Steps of one goroutine inside a call. */
  ghost predicate Inside(steps: seq<Step>, w: nat)
  {
    forall k :: 0 <= k < |steps| ==> !steps[k].Tick? && !steps[k].ReadClock? && steps[k].who == w
  }

  lemma InsideTail(steps: seq<Step>, w: nat)
    requires Inside(steps, w) && steps != []
    ensures Inside(steps[1..], w)
  {
  }

  lemma AloneIdle(p: Params, s: State, steps: seq<Step>, last: State, w: nat)
    requires p.refresh > 0 && w < |s.threads| && s.threads[w].Idle? && Inside(steps, w) && IsRun(p, s, steps, last)
    ensures last == s
  {
  }

  lemma AloneConsumeRead(p: Params, s: State, steps: seq<Step>, last: State, w: nat)
    requires p.refresh > 0 && w < |s.threads| && s.threads[w] == ConsumeRead(s.tokens)
    requires Inside(steps, w) && IsRun(p, s, steps, last) && w < |last.threads| && last.threads[w].Idle?
    ensures last == Goto(s.(tokens := s.tokens - 1, admitted := s.admitted + 1), w, Idle)
  {
    if steps != [] {
      InsideTail(steps, w);
      AloneIdle(p, Apply(p, s, steps[0]), steps[1..], last, w);
    }
  }

  /** The consuming half of a call. */
  ghost function Consumed(s: State, w: nat): State
    requires w < |s.threads|
  {
    Goto(if s.tokens <= 0 then s else s.(tokens := s.tokens - 1, admitted := s.admitted + 1), w, Idle)
  }

  lemma AloneConsuming(p: Params, s: State, steps: seq<Step>, last: State, w: nat)
    requires p.refresh > 0 && w < |s.threads| && s.threads[w].Consuming?
    requires Inside(steps, w) && IsRun(p, s, steps, last) && w < |last.threads| && last.threads[w].Idle?
    ensures last == Consumed(s, w)
  {
    if steps != [] {
      InsideTail(steps, w);
      var next := Apply(p, s, steps[0]);
      if s.tokens <= 0 {
        AloneIdle(p, next, steps[1..], last, w);
      } else {
        AloneConsumeRead(p, next, steps[1..], last, w);
        assert next.threads[w := Idle] == s.threads[w := Idle];
      }
    }
  }

  lemma AloneRefillRead(p: Params, s: State, steps: seq<Step>, last: State, w: nat, refill: nat)
    requires p.refresh > 0 && w < |s.threads| && s.threads[w] == RefillRead(refill, s.tokens)
    requires Inside(steps, w) && IsRun(p, s, steps, last) && w < |last.threads| && last.threads[w].Idle?
    ensures last == Consumed(s.(tokens := Min(s.tokens + refill, p.burst)), w)
  {
    if steps != [] {
      InsideTail(steps, w);
      var next := Apply(p, s, steps[0]);
      AloneConsuming(p, next, steps[1..], last, w);
      assert next.threads[w := Idle] == s.threads[w := Idle];
    }
  }

  lemma AloneRefilling(p: Params, s: State, steps: seq<Step>, last: State, w: nat, refill: nat)
    requires p.refresh > 0 && w < |s.threads| && s.threads[w] == Refilling(refill)
    requires Inside(steps, w) && IsRun(p, s, steps, last) && w < |last.threads| && last.threads[w].Idle?
    ensures last == Consumed(s.(tokens := Min(s.tokens + refill, p.burst)), w)
  {
    if steps != [] {
      InsideTail(steps, w);
      var next := Apply(p, s, steps[0]);
      AloneRefillRead(p, next, steps[1..], last, w, refill);
      assert next.threads[w := Idle] == s.threads[w := Idle];
    }
  }

  /** The state after one call of `tryConsume` by a goroutine. */
  ghost function Called(p: Params, s: State, w: nat): State
    requires p.refresh > 0 && w < |s.threads|
  {
    var (b, ok) := TryConsume(p, Bucket(s.tokens, s.last), s.clock);
    Goto(s.(tokens := b.tokens, last := b.last, admitted := s.admitted + if ok then 1 else 0), w, Idle)
  }

  lemma AloneGotLast(p: Params, s: State, steps: seq<Step>, last: State, w: nat)
    requires p.refresh > 0 && w < |s.threads| && s.threads[w] == GotLast(s.clock, s.last) && s.clock - s.last > p.refresh
    requires Inside(steps, w) && IsRun(p, s, steps, last) && w < |last.threads| && last.threads[w].Idle?
    ensures last == Called(p, s, w)
  {
    hide Refill, Called, Inside;
    if steps != [] {
      InsideTail(steps, w);
      assert steps[0] == SwapLast(w) by { FirstIs(s, steps, w); }
      var next := Apply(p, s, steps[0]);
      var refill := Refill(p, s.clock - s.last);
      CalledIs(p, s, w);
      if refill > 0 {
        AloneRefilling(p, next, steps[1..], last, w, refill);
      } else {
        AloneConsuming(p, next, steps[1..], last, w);
      }
      assert next.threads[w := Idle] == s.threads[w := Idle];
    }
  }

  lemma FirstIs(s: State, steps: seq<Step>, w: nat)
    requires Inside(steps, w) && steps != [] && w < |s.threads| && s.threads[w].GotLast? && Enabled(s, steps[0])
    ensures steps[0] == SwapLast(w)
  {
  }

  lemma CalledIs(p: Params, s: State, w: nat)
    requires p.refresh > 0 && w < |s.threads| && s.clock - s.last > p.refresh
    ensures var refill, t := Refill(p, s.clock - s.last), s.(last := s.clock);
            Called(p, s, w) == Consumed(if refill > 0 then t.(tokens := Min(s.tokens + refill, p.burst)) else t, w)
  {
  }

  /** One goroutine running alone through the steps of the protocol, from one call
      to its end, leaves the bucket and gets the answer of the serial call. */
  lemma AloneIsSerial(p: Params, s: State, steps: seq<Step>, last: State, w: nat)
    requires p.refresh > 0 && w < |s.threads| && s.threads[w].Idle?
    requires steps != [] && steps[0] == ReadClock(w) && Inside(steps[1..], w) && IsRun(p, s, steps, last)
    requires w < |last.threads| && last.threads[w].Idle?
    ensures last == Called(p, s, w)
  {
    var s1 := Goto(s, w, GotNow(s.clock));
    var rest := steps[1..];
    if rest != [] {
      InsideTail(rest, w);
      var s2 := Apply(p, s1, rest[0]);
      assert s2.threads == s.threads[w := s2.threads[w]];
      if s.clock - s.last > p.refresh {
        AloneGotLast(p, s2, rest[1..], last, w);
      } else {
        AloneConsuming(p, s2, rest[1..], last, w);
      }
      assert s2.threads[w := Idle] == s.threads[w := Idle];
    }
  }

  /** And it gets to that end. */
  lemma AloneFinishes(p: Params, s: State, w: nat)
    requires Sane(p) && w < |s.threads| && s.threads[w].Idle?
    ensures Reaches(p, s, Called(p, s, w))
  {
    hide Refill, IsRun, Reaches;
    SelfReaches(p, s);
    ReachesNext(p, s, s, ReadClock(w));
    var s1 := Goto(s, w, GotNow(s.clock));
    ReachesNext(p, s, s1, LoadLast(w));
    var s2 := Apply(p, s1, LoadLast(w));
    if s.clock - s.last > p.refresh {
      assert s2 == Goto(s, w, GotLast(s.clock, s.last)) by { GotoTwice(s, w, GotNow(s.clock), GotLast(s.clock, s.last)); }
      ReachesNext(p, s, s2, SwapLast(w));
      var refill, s3 := Refill(p, s.clock - s.last), s.(last := s.clock);
      GotoTwice(s3, w, GotLast(s.clock, s.last), if refill > 0 then Refilling(refill) else Consuming);
      if refill > 0 {
        RefillFinishes(p, s, s3, w, refill);
      } else {
        ConsumeFinishes(p, s, s3, w);
      }
    } else {
      GotoTwice(s, w, GotNow(s.clock), Consuming);
      ConsumeFinishes(p, s, s, w);
    }
  }

  lemma SelfReaches(p: Params, s: State)
    requires p.refresh > 0
    ensures Reaches(p, s, s)
  {
    assert IsRun(p, s, [], s);
  }

  lemma GotoTwice(s: State, w: nat, a: Local, b: Local)
    requires w < |s.threads|
    ensures Goto(Goto(s, w, a), w, b) == Goto(s, w, b)
  {
  }

  lemma RefillFinishes(p: Params, s0: State, s: State, w: nat, refill: nat)
    requires p.refresh > 0 && w < |s.threads| && Reaches(p, s0, Goto(s, w, Refilling(refill)))
    ensures Reaches(p, s0, Consumed(s.(tokens := Min(s.tokens + refill, p.burst)), w))
  {
    hide Reaches, Consumed;
    ReachesNext(p, s0, Goto(s, w, Refilling(refill)), LoadForRefill(w));
    GotoTwice(s, w, Refilling(refill), RefillRead(refill, s.tokens));
    ReachesNext(p, s0, Goto(s, w, RefillRead(refill, s.tokens)), SwapRefill(w));
    var t := s.(tokens := Min(s.tokens + refill, p.burst));
    GotoTwice(t, w, RefillRead(refill, s.tokens), Consuming);
    ConsumeFinishes(p, s0, t, w);
  }

  lemma ConsumeFinishes(p: Params, s0: State, s: State, w: nat)
    requires p.refresh > 0 && w < |s.threads| && Reaches(p, s0, Goto(s, w, Consuming))
    ensures Reaches(p, s0, Consumed(s, w))
  {
    hide Reaches;
    ReachesNext(p, s0, Goto(s, w, Consuming), LoadForConsume(w));
    if s.tokens <= 0 {
      GotoTwice(s, w, Consuming, Idle);
    } else {
      GotoTwice(s, w, Consuming, ConsumeRead(s.tokens));
      ReachesNext(p, s0, Goto(s, w, ConsumeRead(s.tokens)), SwapConsume(w));
      GotoTwice(s.(tokens := s.tokens - 1, admitted := s.admitted + 1), w, ConsumeRead(s.tokens), Idle);
    }
  }

  // ------------------------------ bounds

  /** Without looking at the cap: what is admitted is in the bucket or refilled. */
  lemma {:induction false} AdmittedAtMost(p: Params, b: Bucket, times: seq<int>, end: int)
    requires Sane(p) && BucketOk(p, b) && Nondecreasing(times) && b.last <= end
    requires forall k :: 0 <= k < |times| ==> b.last <= times[k] <= end
    ensures Admitted(p, b, times) <= b.tokens + Refill(p, end - b.last)
    decreases |times|
  {
    if times != [] {
      hide Refill;
      var now := times[0];
      var (c, ok) := TryConsume(p, b, now);
      StepOk(p, b, now);
      AdmittedAtMost(p, c, times[1..], end);
      if now - b.last > p.refresh {
        RefillsAdd(p, now - b.last, end - now);
      }
    }
  }

  lemma WindowRefill(p: Params, b: Bucket, times: seq<int>, end: int)
    requires Sane(p) && BucketOk(p, b) && times != [] && Nondecreasing(times)
    requires b.last <= times[0] && times[|times| - 1] <= end
    ensures Admitted(p, b, times) <= p.burst + Refill(p, (end - times[0]) + p.refresh)
  {
    hide Refill, Admitted;
    var a := times[0];
    if a - b.last > p.refresh {
      // the first call refills before it consumes
      RefillFirst(p, b, times);
      AdmittedAtMost(p, Refilled(p, b, a), times, end);
      RefillMonotone(p, end - a, (end - a) + p.refresh);
    } else {
      AdmittedAtMost(p, b, times, end);
      RefillMonotone(p, end - b.last, (end - a) + p.refresh);
    }
  }

  /** Any window of a serial run, from its first call at time a to its end at
      time b, admits at most burst plus max for every refresh period begun. */
  lemma WindowBound(p: Params, b: Bucket, times: seq<int>, end: int)
    requires Sane(p) && BucketOk(p, b) && times != [] && Nondecreasing(times)
    requires b.last <= times[0] && times[|times| - 1] <= end
    ensures Admitted(p, b, times) <= p.burst + p.max * ((end - times[0]) / p.refresh + 1)
  {
    hide Refill, Admitted;
    WindowRefill(p, b, times, end);
    RefillProduct(p, end - times[0]);
  }

  lemma RefillProduct(p: Params, d: nat)
    requires p.refresh > 0
    ensures Refill(p, d + p.refresh) == p.max * (d / p.refresh + 1)
  {
    QuotientPlusOne(d, p.refresh);
  }

  lemma RefillFirst(p: Params, b: Bucket, times: seq<int>)
    requires p.refresh > 0 && times != []
    ensures Admitted(p, Refilled(p, b, times[0]), times) == Admitted(p, b, times)
  {
    hide Refill;
    var c := Refilled(p, b, times[0]);
    assert Refilled(p, c, times[0]) == c;
  }

  lemma {:induction false} AfterOk(p: Params, b: Bucket, times: seq<int>, end: int)
    requires Sane(p) && BucketOk(p, b) && Nondecreasing(times) && b.last <= end
    requires forall k :: 0 <= k < |times| ==> b.last <= times[k] <= end
    ensures BucketOk(p, After(p, b, times)) && After(p, b, times).last <= end
    decreases |times|
  {
    if times != [] {
      StepOk(p, b, times[0]);
      AfterOk(p, TryConsume(p, b, times[0]).0, times[1..], end);
    }
  }

  /** The window bound inside a run that starts with a fresh bucket: `before`
      are the calls ahead of the window, `window` the calls in it. */
  lemma SerialWindow(p: Params, t0: int, before: seq<int>, window: seq<int>, end: int)
    requires Sane(p) && window != [] && Nondecreasing([t0] + before + window + [end])
    ensures Admitted(p, After(p, Bucket(p.max, t0), before), window)
         <= p.burst + p.max * ((end - window[0]) / p.refresh + 1)
  {
    var all := [t0] + before + window + [end];
    var n := |before|;
    assert forall k :: 0 <= k < n ==> before[k] == all[1 + k];
    assert forall k :: 0 <= k < |window| ==> window[k] == all[1 + n + k];
    assert all[|all| - 1] == end && all[0] == t0;
    AfterOk(p, Bucket(p.max, t0), before, window[0]);
    WindowBound(p, After(p, Bucket(p.max, t0), before), window, end);
  }

  // ---------------------------------------------------------------- the object, serially

  const SECOND: int := 1_000_000_000

  class TokenBucket {
    var tokens: int
    var lastUpdate: int
    var maxTokens: nat
    var burstTokens: nat
    var refreshNanos: int

    ghost function P(): Params
      requires refreshNanos > 0
      reads this
    {
      Params(maxTokens, burstTokens, refreshNanos)
    }

    constructor (max: nat, burst: nat, refresh: int, now: int)
      ensures refreshNanos == if refresh <= 0 then SECOND else refresh
      ensures tokens == maxTokens == max && burstTokens == burst && lastUpdate == now
    {
      refreshNanos := if refresh <= 0 then SECOND else refresh;
      maxTokens, burstTokens, tokens, lastUpdate := max, burst, max, now;
    }

    /** A non-positive refresh period neither refills nor consumes. */
    method Consume(now: int) returns (ok: bool)
      modifies this`tokens, this`lastUpdate
      ensures refreshNanos <= 0 ==> ok == (old(tokens) > 0) && tokens == old(tokens) && lastUpdate == old(lastUpdate)
      ensures refreshNanos > 0 ==>
                (Bucket(tokens, lastUpdate), ok) == TryConsume(P(), Bucket(old(tokens), old(lastUpdate)), now)
    {
      if refreshNanos <= 0 {
        return tokens > 0;
      }
      var last := lastUpdate;
      if now - last > refreshNanos {
        lastUpdate := now;
        var refill := ((now - last) / refreshNanos) * maxTokens;
        assert refill == Refill(P(), now - last);
        if refill > 0 {
          tokens := Min(tokens + refill, burstTokens);
        }
      }
      if tokens <= 0 {
        return false;
      }
      tokens := tokens - 1;
      return true;
    }

    /** A hot update: tokens above the new cap are cut off, none are added. */
    method UpdateParams(max: nat, burst: nat, refresh: int)
      modifies this
      ensures maxTokens == max && burstTokens == burst && refreshNanos == if refresh <= 0 then SECOND else refresh
      ensures tokens == Min(old(tokens), burst) && lastUpdate == old(lastUpdate)
    {
      maxTokens, burstTokens := max, burst;
      refreshNanos := if refresh <= 0 then SECOND else refresh;
      if tokens > burst {
        tokens := burst;
      }
    }
  }
}
