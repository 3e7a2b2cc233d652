/** The dirty set of the write coalescer under concurrency. Goroutines push by
    appending to a connection's buffer under that connection's lock and then
    marking the connection dirty under the coalescer's lock; the flusher swaps
    the dirty list out and works through it. Every lock section and every
    registry lookup is a step of its own, and steps interleave arbitrarily. */
module DirtySet {

  type Id = string
  type Payload = seq<int>

  datatype Adder =
    | Ready
    | Appended(id: Id)  // payload is in the buffer, the mark is still to come

  datatype Flusher =
    | Resting
    | Working(todo: seq<Id>)
    | Holding(id: Id, todo: seq<Id>)  // connection looked up, buffer not yet taken

  datatype Marks = Marks(dirty: seq<Id>, dirtySet: set<Id>)

  datatype State = State(
    known: set<Id>,                  // connections that were ever registered
    registered: set<Id>,
    buffer: map<Id, seq<Payload>>,
    pushed: map<Id, seq<Payload>>,   // history: everything pushed
    written: map<Id, seq<Payload>>,  // history: everything handed to the socket
    marks: Marks,
    adders: seq<Adder>,
    flusher: Flusher)

  function At(m: map<Id, seq<Payload>>, id: Id): seq<Payload>
  {
    if id in m then m[id] else []
  }

  function Mark(m: Marks, id: Id): Marks
  {
    if id in m.dirtySet then m else Marks(m.dirty + [id], m.dirtySet + {id})
  }

  datatype Step =
    | Register(id: Id)
    | Unregister(id: Id)
    | DoAppend(who: nat, id: Id, payload: Payload)
    | DoMark(who: nat)
    | Swap
    | Lookup
    | Take
    | Finish

  ghost predicate Enabled(s: State, t: Step)
  {
    match t
    case Register(id) => id !in s.known  // connection ids are never reused
    case Unregister(id) => true
    case DoAppend(who, id, p) => who < |s.adders| && s.adders[who].Ready? && id in s.known
    case DoMark(who) => who < |s.adders| && s.adders[who].Appended?
    case Swap => s.flusher.Resting? && s.marks.dirty != []
    case Lookup => s.flusher.Working? && s.flusher.todo != []
    case Take => s.flusher.Holding?
    case Finish => s.flusher == Working([])
  }

  ghost function Apply(s: State, t: Step): State
    requires Enabled(s, t)
  {
    match t
    case Register(id) => s.(known := s.known + {id}, registered := s.registered + {id})
    case Unregister(id) => s.(registered := s.registered - {id})
    case DoAppend(who, id, p) =>
      s.(buffer := s.buffer[id := At(s.buffer, id) + [p]],
         pushed := s.pushed[id := At(s.pushed, id) + [p]],
         adders := s.adders[who := Appended(id)])
    case DoMark(who) =>
      s.(marks := Mark(s.marks, s.adders[who].id), adders := s.adders[who := Ready])
    case Swap =>
      s.(marks := Marks([], {}), flusher := Working(s.marks.dirty))
    case Lookup =>
      var id, todo := s.flusher.todo[0], s.flusher.todo[1..];
      s.(flusher := if id in s.registered then Holding(id, todo) else Working(todo))
    case Take =>
      var id := s.flusher.id;
      s.(buffer := s.buffer[id := []],
         written := s.written[id := At(s.written, id) + At(s.buffer, id)],
         flusher := Working(s.flusher.todo))
    case Finish => s.(flusher := Resting)
  }

  ghost predicate IsInit(s: State)
  {
    && s.known == {} && s.registered == {}
    && s.buffer == map[] && s.pushed == map[] && s.written == map[]
    && s.marks == Marks([], {}) && s.flusher == Resting
    && forall k :: 0 <= k < |s.adders| ==> s.adders[k] == Ready
  }

  // ---------------------------------------------------------------- invariant

  ghost predicate MarksAgree(m: Marks)
  {
    && (forall id :: id in m.dirtySet <==> id in m.dirty)
    && (forall i, j :: 0 <= i < j < |m.dirty| ==> m.dirty[i] != m.dirty[j])
  }

  ghost predicate InWork(f: Flusher, id: Id)
  {
    match f
    case Resting => false
    case Working(todo) => id in todo
    case Holding(held, todo) => id == held || id in todo
  }

  ghost predicate Owned(adders: seq<Adder>, id: Id)
  {
    exists k :: 0 <= k < |adders| && adders[k] == Appended(id)
  }

  /** Somebody is still going to look at this connection. */
  ghost predicate Tracked(s: State, id: Id)
  {
    id in s.marks.dirtySet || InWork(s.flusher, id) || Owned(s.adders, id)
  }

  ghost predicate Inv(s: State)
  {
    && MarksAgree(s.marks)
    && s.registered <= s.known
    && (forall id :: At(s.buffer, id) != [] ==> id in s.known)
    && (forall id :: id in s.registered && At(s.buffer, id) != [] ==> Tracked(s, id))
    && (forall id :: At(s.written, id) + At(s.buffer, id) == At(s.pushed, id))
  }

  lemma MarkKeepsMarks(m: Marks, id: Id)
    requires MarksAgree(m)
    ensures MarksAgree(Mark(m, id)) && Mark(m, id).dirtySet == m.dirtySet + {id}
  {
  }

  lemma OwnedAfterUpdate(adders: seq<Adder>, who: nat, a: Adder, id: Id)
    requires who < |adders| && Owned(adders, id)
    ensures Owned(adders[who := a], id) || adders[who] == Appended(id)
  {
    var k :| 0 <= k < |adders| && adders[k] == Appended(id);
    assert k != who ==> adders[who := a][k] == Appended(id);
  }

  lemma TrackedStep(s: State, t: Step, id: Id)
    requires Inv(s) && Enabled(s, t)
    requires id in Apply(s, t).registered && At(Apply(s, t).buffer, id) != []
    ensures Tracked(Apply(s, t), id)
  {
    var s' := Apply(s, t);
    match t
    case Register(_) => assert Tracked(s, id);
    case Unregister(_) => assert Tracked(s, id);
    case DoAppend(who, c, _) =>
      if id == c {
        assert s'.adders[who] == Appended(id);
      } else {
        assert Tracked(s, id);
        if Owned(s.adders, id) { OwnedAfterUpdate(s.adders, who, Appended(c), id); }
      }
    case DoMark(who) =>
      assert Tracked(s, id);
      MarkKeepsMarks(s.marks, s.adders[who].id);
      if Owned(s.adders, id) { OwnedAfterUpdate(s.adders, who, Ready, id); }
    case Swap => assert Tracked(s, id);
    case Lookup => assert Tracked(s, id);
    case Take => assert Tracked(s, id);
    case Finish => assert Tracked(s, id);
  }

  lemma MarksStep(s: State, t: Step)
    requires Inv(s) && Enabled(s, t)
    ensures MarksAgree(Apply(s, t).marks) && Apply(s, t).registered <= Apply(s, t).known
  {
    hide Tracked, At, Mark;
    if t.DoMark? { MarkKeepsMarks(s.marks, s.adders[t.who].id); }
  }

  lemma BooksStep(s: State, t: Step, id: Id)
    requires Inv(s) && Enabled(s, t)
    ensures var s' := Apply(s, t);
            && (At(s'.buffer, id) != [] ==> id in s'.known)
            && At(s'.written, id) + At(s'.buffer, id) == At(s'.pushed, id)
  {
    hide Tracked, Mark, MarksAgree;
    assert At(s.written, id) + At(s.buffer, id) == At(s.pushed, id);
  }

  lemma InvStep(s: State, t: Step)
    requires Inv(s) && Enabled(s, t)
    ensures Inv(Apply(s, t))
  {
    hide Tracked, MarksAgree, At, Apply, Enabled;
    var s' := Apply(s, t);
    MarksStep(s, t);
    forall id ensures At(s'.buffer, id) != [] ==> id in s'.known
              ensures At(s'.written, id) + At(s'.buffer, id) == At(s'.pushed, id) {
      BooksStep(s, t, id);
    }
    forall id | id in s'.registered && At(s'.buffer, id) != [] ensures Tracked(s', id) {
      TrackedStep(s, t, id);
    }
  }

  // ---------------------------------------------------------------- runs

  ghost predicate IsRun(s: State, steps: seq<Step>, last: State)
    decreases |steps|
  {
    if steps == [] then s == last
    else Enabled(s, steps[0]) && IsRun(Apply(s, steps[0]), steps[1..], last)
  }

  lemma {:induction false} InvRun(s: State, steps: seq<Step>, last: State)
    requires Inv(s) && IsRun(s, steps, last)
    ensures Inv(last)
    decreases |steps|
  {
    if steps != [] {
      InvStep(s, steps[0]);
      InvRun(Apply(s, steps[0]), steps[1..], last);
    }
  }

  /** No lost wake-up: in every reachable state of every interleaving, a
      registered connection with data in its buffer is marked dirty, or in the
      remaining work of the flusher, or owned by a goroutine that is about to
      mark it. And whatever was pushed to a connection is what was written to it
      followed by what is in its buffer, so nothing is lost, duplicated or
      reordered on the way. */
  lemma NothingStranded(init: State, steps: seq<Step>, s: State, id: Id)
    requires IsInit(init) && IsRun(init, steps, s)
    ensures id in s.registered && At(s.buffer, id) != [] ==> Tracked(s, id)
    ensures At(s.written, id) + At(s.buffer, id) == At(s.pushed, id)
    ensures MarksAgree(s.marks)
  {
    InvRun(init, steps, s);
  }

  // ---------------------------------------------------------------- one flush

  /** While a connection stays registered, what was pushed to it before is written
      or will be, because the flusher still has it in its work. */
  ghost predicate Served(before: seq<Payload>, s: State, id: Id)
  {
    && id in s.known && before <= At(s.pushed, id)
    && (id in s.registered ==> before <= At(s.written, id) || InWork(s.flusher, id))
  }

  lemma ServedAtSwap(s: State, id: Id)
    requires Inv(s) && Enabled(s, Swap) && id in s.registered && !Owned(s.adders, id)
    ensures Served(At(s.pushed, id), Apply(s, Swap), id)
  {
    assert At(s.written, id) + At(s.buffer, id) == At(s.pushed, id);
    if At(s.buffer, id) != [] {
      assert Tracked(s, id);
    }
  }

  lemma ServedStep(before: seq<Payload>, s: State, t: Step, id: Id)
    requires Inv(s) && Enabled(s, t) && Served(before, s, id)
    ensures Served(before, Apply(s, t), id)
  {
    hide Tracked, MarksAgree, Mark;
    assert At(s.written, id) + At(s.buffer, id) == At(s.pushed, id);
  }

  lemma {:induction false} ServedRun(before: seq<Payload>, s: State, steps: seq<Step>, last: State, id: Id)
    requires Inv(s) && IsRun(s, steps, last) && Served(before, s, id)
    ensures Inv(last) && Served(before, last, id)
    decreases |steps|
  {
    hide Inv, Apply, Enabled, Served;
    if steps != [] {
      InvStep(s, steps[0]);
      ServedStep(before, s, steps[0], id);
      ServedRun(before, Apply(s, steps[0]), steps[1..], last, id);
    }
  }

  /** One flush delivers everything pushed before it, whatever goroutines append,
      mark, register or unregister while it runs: from any reachable state, when
      the flusher has swapped the dirty set out and is at rest again, then or
      after further flushes, all data pushed before the swap is written for every
      connection that stayed registered and had no goroutine between its append
      and its mark. */
  lemma FlushDelivers(init: State, before: seq<Step>, s: State, steps: seq<Step>, last: State, id: Id)
    requires IsInit(init) && IsRun(init, before, s)
    requires Enabled(s, Swap) && IsRun(Apply(s, Swap), steps, last) && last.flusher == Resting
    requires id in s.registered && id in last.registered && !Owned(s.adders, id)
    ensures At(s.pushed, id) <= At(last.written, id)
  {
    InvRun(init, before, s);
    InvStep(s, Swap);
    ServedAtSwap(s, id);
    ServedRun(At(s.pushed, id), Apply(s, Swap), steps, last, id);
  }

  /** A connection that is gone and not in the flusher's hand. */
  ghost predicate Gone(s: State, id: Id)
  {
    id in s.known && id !in s.registered && !(s.flusher.Holding? && s.flusher.id == id)
  }

  /** Nothing is written to a connection that is gone. */
  lemma {:induction false} GoneGetsNothing(s: State, steps: seq<Step>, last: State, id: Id)
    requires Gone(s, id) && IsRun(s, steps, last)
    ensures Gone(last, id) && At(last.written, id) == At(s.written, id)
    decreases |steps|
  {
    if steps != [] {
      GoneStep(s, steps[0], id);
      hide Apply, Enabled, Gone, At;
      GoneGetsNothing(Apply(s, steps[0]), steps[1..], last, id);
    }
  }

  lemma GoneStep(s: State, t: Step, id: Id)
    requires Gone(s, id) && Enabled(s, t)
    ensures Gone(Apply(s, t), id) && At(Apply(s, t).written, id) == At(s.written, id)
  {
    hide Mark;
  }

  predicate FlusherOnly(steps: seq<Step>)
  {
    forall k :: 0 <= k < |steps| ==> steps[k].Lookup? || steps[k].Take? || steps[k].Finish?
  }

  lemma {:induction false} FlusherOnlyFrame(s: State, steps: seq<Step>, last: State)
    requires FlusherOnly(steps) && IsRun(s, steps, last)
    ensures last.registered == s.registered && last.pushed == s.pushed
    decreases |steps|
  {
    if steps != [] {
      FlusherOnlyFrame(Apply(s, steps[0]), steps[1..], last);
    }
  }

  /** In particular, if nothing but the flusher moves, no such connection is left
      with unwritten data. */
  lemma FlushDrains(init: State, before: seq<Step>, s: State, steps: seq<Step>, last: State, id: Id)
    requires IsInit(init) && IsRun(init, before, s)
    requires Enabled(s, Swap) && FlusherOnly(steps) && IsRun(Apply(s, Swap), steps, last) && last.flusher == Resting
    requires id in s.registered && !Owned(s.adders, id)
    ensures At(last.buffer, id) == [] && At(last.written, id) == At(s.pushed, id)
  {
    FlusherOnlyFrame(Apply(s, Swap), steps, last);
    FlushDelivers(init, before, s, steps, last, id);
    InvRun(init, before, s);
    InvStep(s, Swap);
    InvRun(Apply(s, Swap), steps, last);
    assert At(last.written, id) + At(last.buffer, id) == At(last.pushed, id);
  }

  // ---------------------------------------------------------------- the object

  /** The lock sections of the coalescer on its own fields. */
  class WriteCoalescer {
    var dirty: seq<Id>
    var dirtySet: set<Id>

    ghost function View(): Marks
      reads this
    {
      Marks(dirty, dirtySet)
    }

    ghost predicate Valid()
      reads this
    {
      MarksAgree(View())
    }

    constructor ()
      ensures Valid() && View() == Marks([], {})
    {
      dirty, dirtySet := [], {};
    }

    /** The locked half of addMulti. */
    method MarkDirty(id: Id)
      requires Valid()
      modifies this
      ensures Valid() && View() == Mark(old(View()), id)
    {
      MarkKeepsMarks(View(), id);
      if id !in dirtySet {
        dirty := dirty + [id];
        dirtySet := dirtySet + {id};
      }
    }

    /** The locked half of flush. */
    method SwapOut() returns (work: seq<Id>)
      requires Valid()
      modifies this
      ensures Valid() && View() == Marks([], {})
      ensures work == old(dirty) && forall id :: id in work <==> id in old(dirtySet)
    {
      work := dirty;
      if |dirty| == 0 {
        assert dirtySet == {};
        return;
      }
      dirty, dirtySet := [], {};
    }
  }
}
