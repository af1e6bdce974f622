/** The in-flight request tracker of apps/backend/src/prize-engine-load-server.ts: a counter fed by
    request hooks, and the promises that wait for it to reach zero. */
module DrainTracker {
  import opened JsText

  /** How a waiting promise was resolved, and the counter at that moment. */
  datatype Answer = Answer(waiter: nat, drained: bool, count: nat)

  // ---- what the callbacks do, on values ----

  /** `waiters` are in the order in which they started to wait. */
  datatype Tracker = Tracker(count: nat, done: set<nat>, waiters: seq<nat>, answers: seq<Answer>)

  const HEALTH_URL := "/health"

  function Drained(waiters: seq<nat>): (answers: seq<Answer>)
    ensures |answers| == |waiters|
    ensures forall i :: 0 <= i < |waiters| ==> answers[i] == Answer(waiters[i], true, 0)
  {
    seq(|waiters|, i requires 0 <= i < |waiters| => Answer(waiters[i], true, 0))
  }

  lemma {:induction false} DrainedConcat(a: seq<nat>, b: seq<nat>)
    ensures Drained(a + b) == Drained(a) + Drained(b)
  {}

  lemma {:induction false} DrainedOne(w: nat)
    ensures Drained([w]) == [Answer(w, true, 0)] && Drained([]) == []
  {}

  function Notified(t: Tracker): Tracker {
    if t.count != 0 then t else t.(waiters := [], answers := t.answers + Drained(t.waiters))
  }

  function Arrived(t: Tracker, url: string): Tracker {
    if url == HEALTH_URL then t else t.(count := t.count + 1)
  }

  function MarkedDone(t: Tracker, id: nat): Tracker {
    if id in t.done then t
    else Notified(t.(done := t.done + {id}, count := if t.count == 0 then 0 else t.count - 1))
  }

  function Waiting(t: Tracker, waiter: nat): Tracker {
    if t.count == 0 then t.(answers := t.answers + [Answer(waiter, true, 0)])
    else t.(waiters := t.waiters + [waiter])
  }

  function Remove(s: seq<nat>, x: nat): (r: seq<nat>)
    ensures forall y :: y in r <==> y in s && y != x
    ensures Distinct(s) ==> Distinct(r)
  {
    if s == [] then []
    else
      assert Distinct(s) ==> Distinct(s[1..]) && s[0] !in s[1..];
      if s[0] == x then Remove(s[1..], x) else [s[0]] + Remove(s[1..], x)
  }

  /** The timer of a waiter goes off; it was cleared when the waiter is no longer waiting. */
  function TimedOut(t: Tracker, waiter: nat): Tracker {
    if waiter !in t.waiters then t
    else t.(waiters := Remove(t.waiters, waiter), answers := t.answers + [Answer(waiter, false, t.count)])
  }

  ghost predicate Distinct(s: seq<nat>) {
    forall i, j :: 0 <= i < j < |s| ==> s[i] != s[j]
  }

  // ---- the mutable tracker ----

  function Kept(slots: seq<Option<nat>>): seq<nat> {
    if slots == [] then []
    else (if slots[0].Some? then [slots[0].value] else []) + Kept(slots[1..])
  }

  lemma {:induction false} KeptConcat(a: seq<Option<nat>>, b: seq<Option<nat>>)
    ensures Kept(a + b) == Kept(a) + Kept(b)
  {
    if a == [] {
      assert a + b == b;
    } else {
      var head := if a[0].Some? then [a[0].value] else [];
      assert (a + b)[1..] == a[1..] + b;
      KeptConcat(a[1..], b);
      assert head + (Kept(a[1..]) + Kept(b)) == head + Kept(a[1..]) + Kept(b);
    }
  }

  lemma {:induction false} KeptStep(slots: seq<Option<nat>>, i: nat)
    requires i < |slots|
    ensures Kept(slots[..i + 1]) == Kept(slots[..i]) + if slots[i].Some? then [slots[i].value] else []
  {
    KeptConcat(slots[..i], [slots[i]]);
    assert slots[..i + 1] == slots[..i] + [slots[i]];
    assert Kept([slots[i]][1..]) == [];
  }

  lemma {:induction false} KeptIn(slots: seq<Option<nat>>, w: nat)
    ensures w in Kept(slots) <==> Some(w) in slots
  {
    if slots != [] {
      KeptIn(slots[1..], w);
      assert slots == [slots[0]] + slots[1..];
    }
  }

  /** The set of waiters is the engine's insertion-ordered set: deleting a member empties its slot, so
      that an iteration under way skips it and goes on. */
  class DrainTracker {
    var activeRequestCount: nat
    var drainWaiters: seq<Option<nat>>
    var timers: set<nat>
    var doneRequests: set<nat>
    var answers: seq<Answer>

    ghost predicate Valid()
      reads this
    {
      Distinct(Kept(drainWaiters)) && forall w :: w in timers <==> w in Kept(drainWaiters)
    }

    ghost function View(): Tracker
      reads this
    {
      Tracker(activeRequestCount, doneRequests, Kept(drainWaiters), answers)
    }

    constructor ()
      ensures Valid() && View() == Tracker(0, {}, [], [])
    {
      activeRequestCount, drainWaiters, timers, doneRequests, answers := 0, [], {}, {}, [];
    }

    /** `onDrain` of the waiter in slot `i`. */
    method OnDrain(i: nat)
      requires i < |drainWaiters| && drainWaiters[i].Some?
      modifies this
      ensures drainWaiters == old(drainWaiters)[i := None]
      ensures timers == old(timers) - {old(drainWaiters)[i].value}
      ensures answers == old(answers) + [Answer(old(drainWaiters)[i].value, true, activeRequestCount)]
      ensures activeRequestCount == old(activeRequestCount) && doneRequests == old(doneRequests)
    {
      var waiter := drainWaiters[i].value;
      timers := timers - {waiter};
      drainWaiters := drainWaiters[i := None];
      answers := answers + [Answer(waiter, true, activeRequestCount)];
    }

    method NotifyDrainWaiters()
      requires Valid()
      modifies this
      ensures Valid() && View() == Notified(old(View()))
    {
      if activeRequestCount != 0 {
        return;
      }
      ghost var slots := drainWaiters;
      var i := 0;
      while i < |drainWaiters|
        invariant i <= |drainWaiters| == |slots|
        invariant activeRequestCount == 0 && doneRequests == old(doneRequests)
        invariant forall j :: i <= j < |slots| ==> drainWaiters[j] == slots[j]
        invariant answers == old(answers) + Drained(Kept(slots[..i]))
        invariant forall w :: w in timers <==> w in old(timers) && w !in Kept(slots[..i])
      {
        hide Kept, Drained;
        KeptStep(slots, i);
        DrainedConcat(Kept(slots[..i]), if slots[i].Some? then [slots[i].value] else []);
        DrainedOne(if slots[i].Some? then slots[i].value else 0);
        if drainWaiters[i].Some? {
          OnDrain(i);
        }
        i := i + 1;
      }
      assert slots[..|slots|] == slots;
      drainWaiters := [];
    }

    method OnRequest(url: string)
      requires Valid()
      modifies this
      ensures Valid() && View() == Arrived(old(View()), url)
    {
      if url == HEALTH_URL {
        return;
      }
      activeRequestCount := activeRequestCount + 1;
    }

    /** The response, error, timeout and abort hooks. */
    method MarkRequestDone(id: nat)
      requires Valid()
      modifies this
      ensures Valid() && View() == MarkedDone(old(View()), id)
    {
      if id in doneRequests {
        return;
      }
      doneRequests := doneRequests + {id};
      activeRequestCount := if activeRequestCount - 1 > 0 then activeRequestCount - 1 else 0;
      NotifyDrainWaiters();
    }

    /** A new promise: answered at once, or put among the waiters with a timer of its own. */
    method WaitForActiveRequestsToDrain(waiter: nat)
      requires Valid() && waiter !in Kept(drainWaiters)
      modifies this
      ensures Valid() && View() == Waiting(old(View()), waiter)
    {
      if activeRequestCount == 0 {
        answers := answers + [Answer(waiter, true, activeRequestCount)];
        return;
      }
      KeptConcat(drainWaiters, [Some(waiter)]);
      assert Kept([Some(waiter)]) == [waiter];
      timers := timers + {waiter};
      drainWaiters := drainWaiters + [Some(waiter)];
    }

    method OnTimeout(waiter: nat)
      requires Valid()
      modifies this
      ensures Valid() && View() == TimedOut(old(View()), waiter)
    {
      if waiter !in timers {
        return;
      }
      timers := timers - {waiter};
      KeptWithout(drainWaiters, waiter);
      drainWaiters := Without(drainWaiters, waiter);
      answers := answers + [Answer(waiter, false, activeRequestCount)];
    }
  }

  /** `Set.delete` on the slots. */
  function Without(slots: seq<Option<nat>>, w: nat): seq<Option<nat>> {
    if slots == [] then []
    else [if slots[0] == Some(w) then None else slots[0]] + Without(slots[1..], w)
  }

  lemma {:induction false} KeptWithout(slots: seq<Option<nat>>, w: nat)
    ensures Kept(Without(slots, w)) == Remove(Kept(slots), w)
  {
    if slots != [] {
      KeptWithout(slots[1..], w);
      var rest := Without(slots[1..], w);
      assert Without(slots, w)[1..] == rest;
      assert Kept(slots)[if slots[0].Some? then 1 else 0..] == Kept(slots[1..]);
    }
  }

  // ---- what each callback does, without its definition ----

  /** Removing a waiter keeps the order of the others. */
  lemma {:induction false} RemoveSplits(front: seq<nat>, x: nat, back: seq<nat>)
    requires x !in front && x !in back
    ensures Remove(front + [x] + back, x) == front + back
  {
    if front == [] {
      assert ([] + [x] + back)[1..] == back;
      RemoveAbsent(back, x);
    } else {
      assert (front + [x] + back)[1..] == front[1..] + [x] + back;
      RemoveSplits(front[1..], x, back);
      assert [front[0]] + (front[1..] + back) == front + back;
    }
  }

  lemma {:induction false} RemoveAbsent(s: seq<nat>, x: nat)
    requires x !in s
    ensures Remove(s, x) == s
  {
    if s != [] {
      RemoveAbsent(s[1..], x);
    }
  }

  /** A timer that goes off for a waiter answers it with false, at the count of that moment, and takes it from
      among the others, whose order stays; for anybody else it does nothing. */
  lemma {:induction false} TimerAnswers(t: Tracker, front: seq<nat>, waiter: nat, back: seq<nat>)
    requires Distinct(t.waiters)
    ensures t.waiters == front + [waiter] + back ==>
              TimedOut(t, waiter) == Tracker(t.count, t.done, front + back,
                                             t.answers + [Answer(waiter, false, t.count)])
    ensures waiter !in t.waiters ==> TimedOut(t, waiter) == t
  {
    if t.waiters == front + [waiter] + back {
      var n := |front|;
      assert t.waiters[n] == waiter;
      assert forall i :: 0 <= i < n ==> front[i] == t.waiters[i];
      assert forall i :: 0 <= i < |back| ==> back[i] == t.waiters[n + 1 + i];
      RemoveSplits(front, waiter, back);
    }
  }

  /** A request counts unless it is a health check, and nobody is told. */
  lemma {:induction false} ArrivalCounts(t: Tracker, url: string)
    ensures Arrived(t, url) == Tracker(if url == "/health" then t.count else t.count + 1, t.done, t.waiters, t.answers)
  {}

  /** The first completion of a request takes one off the counter, down to zero; at zero everyone who waits is
      answered with true, in order, and nobody waits any more.  Later completions do nothing. */
  lemma {:induction false} CompletionTells(t: Tracker, id: nat)
    ensures id in t.done ==> MarkedDone(t, id) == t
    ensures id !in t.done && t.count > 1 ==>
              MarkedDone(t, id) == Tracker(t.count - 1, t.done + {id}, t.waiters, t.answers)
    ensures id !in t.done && t.count <= 1 ==>
              MarkedDone(t, id) == Tracker(0, t.done + {id}, [], t.answers + Drained(t.waiters))
  {}

  /** Who asks at zero is answered at once; who asks later waits behind those who asked before. */
  lemma {:induction false} AskingWaits(t: Tracker, waiter: nat)
    ensures Waiting(t, waiter)
         == if t.count == 0 then Tracker(0, t.done, t.waiters, t.answers + [Answer(waiter, true, 0)])
            else Tracker(t.count, t.done, t.waiters + [waiter], t.answers)
  {}
}
