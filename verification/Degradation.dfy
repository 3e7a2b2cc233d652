/** The degradation rule of a route: a ring buffer of the latest results with an
    incremental error count, and a flag that trips when the error rate of a full
    window reaches the threshold. */
module Degradation {
  import opened Arith

  /** Number of errors in a list of results. */
  function Errors(results: seq<bool>): nat
  {
    if results == [] then 0 else Errors(results[..|results| - 1]) + (if results[|results| - 1] then 1 else 0)
  }

  /** The latest min(n, w) of n results. */
  function Window(history: seq<bool>, w: nat): seq<bool>
  {
    if |history| <= w then history else history[|history| - w..]
  }

  lemma {:induction false} ErrorsDropFirst(results: seq<bool>)
    requires results != []
    ensures Errors(results) == (if results[0] then 1 else 0) + Errors(results[1..])
  {
    var n := |results|;
    if n > 1 {
      assert results[..n - 1][1..] == results[1..][..n - 2];
      ErrorsDropFirst(results[..n - 1]);
    }
  }

  /** Sliding the window by one result changes the count by the result that
      enters and, once the window is full, the one that leaves. */
  lemma WindowSlides(history: seq<bool>, w: nat, e: bool)
    requires w > 0
    ensures Errors(Window(history + [e], w))
         == Errors(Window(history, w)) + (if e then 1 else 0)
            - (if |history| >= w && history[|history| - w] then 1 else 0)
  {
    var before, n := Window(history, w), |history|;
    var next := Window(history + [e], w);
    if n < w {
      assert next[..|next| - 1] == before;
    } else {
      assert next == before[1..] + [e];
      assert next[..|next| - 1] == before[1..];
      ErrorsDropFirst(before);
    }
  }

  // ---------------------------------------------------------------- what a rule should do

  /** A rule described by the full list of results it has seen. */
  datatype Rule = Rule(threshold: real, window: nat, history: seq<bool>, degraded: bool, triggered: nat)

  function ErrorRate(results: seq<bool>): real
    requires results != []
  {
    Errors(results) as real / |results| as real
  }

  lemma RateOf(history: seq<bool>, w: nat)
    requires 0 < w <= |history|
    ensures |Window(history, w)| == w
    ensures ErrorRate(Window(history, w)) == Errors(Window(history, w)) as real / w as real
  {
  }

  predicate RateReached(r: Rule)
    requires r.window > 0
  {
    |r.history| >= r.window && ErrorRate(Window(r.history, r.window)) >= r.threshold
  }

  function Record(r: Rule, e: bool): Rule
    requires r.window > 0
  {
    var next := r.(history := r.history + [e]);
    if RateReached(next) && !r.degraded then next.(degraded := true, triggered := r.triggered + 1) else next
  }

  lemma RecordFrame(r: Rule, e: bool)
    requires r.window > 0
    ensures var next := Record(r, e);
            next.history == r.history + [e] && next.window == r.window && next.threshold == r.threshold
  {
    hide RateReached;
  }

  datatype Event = Result(isError: bool) | CoolDownOver

  function After(r: Rule, events: seq<Event>): (last: Rule)
    requires r.window > 0
    ensures last.window == r.window && last.threshold == r.threshold
    decreases |events|
  {
    if events == [] then r
    else
      match events[0]
      case Result(e) => After(Record(r, e), events[1..])
      case CoolDownOver => After(r.(degraded := false), events[1..])
  }

  function Results(events: seq<Event>): seq<bool>
  {
    if events == [] then []
    else if events[0].Result? then [events[0].isError] + Results(events[1..])
    else Results(events[1..])
  }

  lemma {:induction false} HistoryOfRun(r: Rule, events: seq<Event>)
    requires r.window > 0
    ensures After(r, events).history == r.history + Results(events)
    decreases |events|
  {
    hide Record;
    if events == [] {
      assert r.history + Results(events) == r.history;
    } else {
      match events[0]
      case Result(e) =>
        RecordFrame(r, e);
        HistoryOfRun(Record(r, e), events[1..]);
        assert r.history + [e] + Results(events[1..]) == r.history + Results(events);
      case CoolDownOver =>
        HistoryOfRun(r.(degraded := false), events[1..]);
    }
  }

  lemma {:induction false} AfterSnoc(r: Rule, events: seq<Event>, last: Event)
    requires r.window > 0
    ensures var before := After(r, events);
            After(r, events + [last])
            == if last.Result? then Record(before, last.isError) else before.(degraded := false)
    decreases |events|
  {
    hide Record;
    if events == [] {
      assert (events + [last])[1..] == [];
      if last.Result? { RecordFrame(r, last.isError); }
    } else {
      assert (events + [last])[1..] == events[1..] + [last];
      if events[0].Result? { RecordFrame(r, events[0].isError); }
      match events[0]
      case Result(e) => AfterSnoc(Record(r, e), events[1..], last);
      case CoolDownOver => AfterSnoc(r.(degraded := false), events[1..], last);
    }
  }

  /** In every run of results and cool-downs, one more result makes a rule
      degraded exactly when it was not degraded and the error rate of the last
      `window` results, there being that many, has reached the threshold; the
      trigger counter goes up exactly then. Only a cool-down ends it. */
  lemma TripsExactly(r: Rule, events: seq<Event>, e: bool)
    requires r.window > 0 && r.history == []
    ensures var before, now := After(r, events), After(r, events + [Result(e)]);
            var seen := Results(events) + [e];
            var trips := !before.degraded && |seen| >= r.window && ErrorRate(seen[|seen| - r.window..]) >= r.threshold;
            && (trips <==> !before.degraded && now.degraded)
            && now.triggered == before.triggered + (if trips then 1 else 0)
            && (before.degraded ==> now.degraded)
  {
    hide ErrorRate, After, Results;
    AfterSnoc(r, events, Result(e));
    HistoryOfRun(r, events);
    var seen := Results(events) + [e];
    assert [] + Results(events) == Results(events);
    assert |seen| >= r.window ==> Window(seen, r.window) == seen[|seen| - r.window..];
  }

  // ---------------------------------------------------------------- the ring buffer

  function Slot(i: nat, w: nat): (k: nat)
    requires w > 0
    ensures k < w
  {
    i % w
  }

  /** The slot about to be written is the one of the result that leaves the
      window, and no other result in the window uses it. */
  lemma SlotsOfWindow(n: nat, w: nat)
    requires w > 0
    ensures n >= w ==> Slot(n - w, w) == Slot(n, w)
    ensures forall i :: 0 <= i < n && n - w < i ==> Slot(i, w) != Slot(n, w)
  {
    if n >= w {
      var a := n - w;
      assert a == (a / w) * w + a % w;
      assert n == (a / w + 1) * w + a % w;
      DivModUnique(n, w, a / w + 1, a % w);
    }
    forall i | 0 <= i < n && n - w < i ensures Slot(i, w) != Slot(n, w) {
      SlotsDiffer(i, n, w);
    }
  }

  lemma SlotsDiffer(i: nat, n: nat, w: nat)
    requires w > 0 && n - w < i < n
    ensures Slot(i, w) != Slot(n, w)
  {
    var qi, qn := i / w, n / w;
    assert i == qi * w + Slot(i, w) && n == qn * w + Slot(n, w);
    if Slot(i, w) == Slot(n, w) {
      if qn <= qi {
        MulMonotone(qn, qi, w);
      } else {
        MulMonotone(qi + 1, qn, w);
      }
      assert false;
    }
  }

  /** Times are in nanoseconds. */
  const SECOND: int := 1_000_000_000

  class DegradeRule {
    const errorThreshold: real
    const windowSize: nat
    const coolDown: int
    const recentErrors: array<bool>
    var pos: nat
    var count: nat
    var errorCount: int
    var degraded: bool
    var lastDegrade: int
    var triggered: nat
    ghost var history: seq<bool>

    ghost predicate Valid()
      reads this, recentErrors
    {
      && windowSize > 0 && recentErrors.Length == windowSize
      && pos == count == |history|
      && (forall i :: 0 <= i < count && count - windowSize <= i ==> recentErrors[Slot(i, windowSize)] == history[i])
      && errorCount == Errors(Window(history, windowSize))
    }

    ghost function View(): Rule
      reads this
    {
      Rule(errorThreshold, windowSize, history, degraded, triggered)
    }

    constructor (threshold: real, window: nat, cool: int)
      requires threshold > 0.0 && window > 0
      ensures Valid() && fresh(recentErrors)
      ensures View() == Rule(threshold, window, [], false, 0) && coolDown == cool
    {
      errorThreshold, windowSize, coolDown := threshold, window, cool;
      recentErrors := new bool[window](_ => false);
      pos, count, errorCount, degraded, lastDegrade, triggered := 0, 0, 0, false, 0, 0;
      history := [];
    }

    /** The ring buffer half of recordResult. */
    method Slide(isError: bool)
      requires Valid()
      modifies this`pos, this`count, this`errorCount, this`history, recentErrors
      ensures Valid() && history == old(history) + [isError]
    {
      hide Errors, Window, Slot;
      var p := Slot(pos, windowSize);
      WindowSlides(history, windowSize, isError);
      SlotsOfWindow(count, windowSize);
      if count >= windowSize {
        assert recentErrors[Slot(count - windowSize, windowSize)] == history[count - windowSize];
        if recentErrors[p] {
          errorCount := errorCount - 1;
        }
      }
      recentErrors[p] := isError;
      if isError {
        errorCount := errorCount + 1;
      }
      pos := pos + 1;
      count := count + 1;
      history := history + [isError];
    }

    method RecordResult(isError: bool, now: int)
      requires Valid()
      modifies this, recentErrors
      ensures Valid() && View() == Record(old(View()), isError)
      ensures lastDegrade == if degraded && !old(degraded) then now / SECOND else old(lastDegrade)
    {
      hide Errors, Window, Slot, ErrorRate;
      Slide(isError);
      if count >= windowSize {
        RateOf(history, windowSize);
        var rate := errorCount as real / windowSize as real;
        if rate >= errorThreshold {
          if !degraded {
            degraded := true;
            lastDegrade := now / SECOND;
            triggered := triggered + 1;
          }
        }
      }
    }

    /** Whether a request gets the fallback answer; an expired cool-down ends the
        degradation. The start of degradation was cut to whole seconds. */
    method Process(now: int) returns (fallback: bool)
      requires Valid()
      modifies this`degraded
      ensures Valid()
      ensures fallback <==> old(degraded) && now - lastDegrade * SECOND < coolDown
      ensures View() == if fallback then old(View()) else old(View()).(degraded := false)
    {
      if degraded {
        if now - lastDegrade * SECOND < coolDown {
          return true;
        }
        degraded := false;
      }
      return false;
    }
  }

  /** Building a rule from configuration. A window size of zero falls back to
      100 and a threshold of zero or less to one half, but a negative window
      size never reaches the fallback: allocating the buffer panics first. */
  method NewDegradationRule(threshold: real, windowSize: int, coolDown: int) returns (r: DegradeRule?)
    ensures r == null <==> windowSize < 0
    ensures r != null ==>
              && fresh(r) && fresh(r.recentErrors) && r.Valid() && r.coolDown == coolDown
              && r.View() == Rule(if threshold <= 0.0 then 0.5 else threshold, if windowSize == 0 then 100 else windowSize, [], false, 0)
  {
    if windowSize < 0 {
      return null;
    }
    r := new DegradeRule(if threshold <= 0.0 then 0.5 else threshold, if windowSize == 0 then 100 else windowSize, coolDown);
  }
}
