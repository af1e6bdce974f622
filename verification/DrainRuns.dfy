/** The request tracker under every interleaving of its hooks, waits and timers: what its counter counts,
    and what its waiters are told. */
module DrainRuns {
  import opened JsText
  import opened DrainTracker

  datatype Hook = OnResponse | OnError | OnTimeout | OnRequestAbort

  datatype Event =
    | Request(id: nat, url: string)
    | Completed(id: nat, hook: Hook)
    | Await(waiter: nat)
    | TimerFires(waiter: nat)

  /** The tracker, with the requests that arrived (and their URLs) and the waiters that came. */
  datatype History = History(tracker: Tracker, urls: map<nat, string>, came: set<nat>)

  const Start := History(Tracker(0, {}, [], []), map[], {})

  /** Requests and promises are new when they arrive; only requests that arrived complete. */
  predicate Possible(h: History, e: Event) {
    match e
    case Request(id, _) => id !in h.urls
    case Completed(id, _) => id in h.urls
    case Await(waiter) => waiter !in h.came
    case TimerFires(_) => true
  }

  function Apply(h: History, e: Event): History {
    match e
    case Request(id, url) => h.(tracker := Arrived(h.tracker, url), urls := h.urls[id := url])
    case Completed(id, _) => h.(tracker := MarkedDone(h.tracker, id))
    case Await(waiter) => h.(tracker := Waiting(h.tracker, waiter), came := h.came + {waiter})
    case TimerFires(waiter) => h.(tracker := TimedOut(h.tracker, waiter))
  }

  ghost predicate CanRun(h: History, events: seq<Event>)
    decreases |events|
  {
    events == [] || (Possible(h, events[0]) && CanRun(Apply(h, events[0]), events[1..]))
  }

  ghost function Run(h: History, events: seq<Event>): History
    decreases |events|
  {
    if events == [] then h else Run(Apply(h, events[0]), events[1..])
  }

  /** Requests other than health checks that arrived and have not been marked done. */
  function InFlight(h: History): set<nat> {
    set id | id in h.urls && h.urls[id] != HEALTH_URL && id !in h.tracker.done
  }

  function Answered(h: History): set<nat> {
    set i | 0 <= i < |h.tracker.answers| :: h.tracker.answers[i].waiter
  }

  // ---- the counter ----

  ghost predicate CountInv(h: History) {
    && (forall id :: id in h.tracker.done ==> id in h.urls)
    && h.tracker.count <= |InFlight(h)|
  }

  /** How one event changes the requests in flight. */
  lemma {:induction false} InFlightStep(h: History, e: Event)
    requires Possible(h, e)
    requires forall id :: id in h.tracker.done ==> id in h.urls
    ensures InFlight(Apply(h, e)) ==
            match e
            case Request(id, url) => if url == HEALTH_URL then InFlight(h) else InFlight(h) + {id}
            case Completed(id, _) => InFlight(h) - {id}
            case Await(_) => InFlight(h)
            case TimerFires(_) => InFlight(h)
    ensures e.Request? ==> e.id !in InFlight(h)
  {}

  lemma {:induction false} CountStep(h: History, e: Event)
    requires CountInv(h) && Possible(h, e)
    ensures CountInv(Apply(h, e))
    ensures h.tracker.count == |InFlight(h)| && !Stray(h, e) ==>
              Apply(h, e).tracker.count == |InFlight(Apply(h, e))|
    ensures h.tracker.count == |InFlight(h)| && Stray(h, e) ==>
              Apply(h, e).tracker.count < |InFlight(Apply(h, e))|
  {
    InFlightStep(h, e);
    if e.Completed? && e.id !in h.tracker.done && h.urls[e.id] != HEALTH_URL {
      assert e.id in InFlight(h);
    }
    if e.Completed? && (e.id in h.tracker.done || h.urls[e.id] == HEALTH_URL) {
      assert InFlight(h) - {e.id} == InFlight(h);
    }
  }

  /** A health check completes while the counter is positive: it was skipped on entry, and takes another
      request's place off the counter. */
  predicate Stray(h: History, e: Event) {
    e.Completed? && e.id in h.urls && h.urls[e.id] == HEALTH_URL && e.id !in h.tracker.done && h.tracker.count > 0
  }

  ghost predicate NoStray(h: History, events: seq<Event>)
    decreases |events|
  {
    events == [] || (!Stray(h, events[0]) && NoStray(Apply(h, events[0]), events[1..]))
  }

  /** The counter is the number of requests in flight at every moment of the run. */
  ghost predicate ExactThroughout(h: History, events: seq<Event>)
    decreases |events|
  {
    h.tracker.count == |InFlight(h)| && (events == [] || ExactThroughout(Apply(h, events[0]), events[1..]))
  }

  /** On every interleaving the counter never exceeds the number of requests in flight (and is never
      negative). */
  lemma {:induction false} CountIsLowerBound(h: History, events: seq<Event>)
    requires CountInv(h) && CanRun(h, events)
    ensures CountInv(Run(h, events))
    decreases |events|
  {
    if events != [] {
      CountStep(h, events[0]);
      CountIsLowerBound(Apply(h, events[0]), events[1..]);
    }
  }

  lemma {:induction false} ExactFrom(h: History, events: seq<Event>)
    requires CountInv(h) && CanRun(h, events)
    requires h.tracker.count == |InFlight(h)|
    ensures ExactThroughout(h, events) <==> NoStray(h, events)
    decreases |events|
  {
    if events != [] {
      CountStep(h, events[0]);
      if !Stray(h, events[0]) {
        ExactFrom(Apply(h, events[0]), events[1..]);
      }
    }
  }

  /** The counter is exact throughout a run exactly when no health check completes while it is positive. */
  lemma {:induction false} ExactIffNoStray(events: seq<Event>)
    requires CanRun(Start, events)
    ensures ExactThroughout(Start, events) <==> NoStray(Start, events)
  {
    assert InFlight(Start) == {};
    ExactFrom(Start, events);
  }

  ghost predicate NoHealthTraffic(events: seq<Event>) {
    forall i :: 0 <= i < |events| && events[i].Request? ==> events[i].url != HEALTH_URL
  }

  lemma {:induction false} NoHealthNoStray(h: History, events: seq<Event>)
    requires forall id :: id in h.urls ==> h.urls[id] != HEALTH_URL
    requires NoHealthTraffic(events)
    ensures NoStray(h, events)
    decreases |events|
  {
    if events != [] {
      NoHealthNoStray(Apply(h, events[0]), events[1..]);
    }
  }

  /** Without health checks the counter is always exact. */
  lemma {:induction false} ExactWithoutHealth(events: seq<Event>)
    requires CanRun(Start, events) && NoHealthTraffic(events)
    ensures ExactThroughout(Start, events)
  {
    NoHealthNoStray(Start, events);
    ExactIffNoStray(events);
  }

  /** With them it need not be: a drain is reported while a request is still in flight. */
  lemma {:induction false} HealthCheckHidesRequest()
    ensures var events := [Request(1, "/draw"), Request(2, HEALTH_URL), Completed(2, OnResponse), Await(7)];
            CanRun(Start, events)
            && Run(Start, events).tracker.answers == [Answer(7, true, 0)]
            && 1 in InFlight(Run(Start, events))
  {
    var e0, e1, e2, e3 := Request(1, "/draw"), Request(2, HEALTH_URL), Completed(2, OnResponse), Await(7);
    var events := [e0, e1, e2, e3];
    assert "/draw" != HEALTH_URL by { assert "/draw"[1] != HEALTH_URL[1]; }
    var h1 := Apply(Start, e0);
    var h2 := Apply(h1, e1);
    var h3 := Apply(h2, e2);
    var h4 := Apply(h3, e3);
    assert events[1..] == [e1, e2, e3] && [e1, e2, e3][1..] == [e2, e3] && [e2, e3][1..] == [e3] && [e3][1..] == [];
    assert Run(Start, events) == Run(h1, [e1, e2, e3]) == Run(h2, [e2, e3]) == Run(h3, [e3]) == Run(h4, []);
    assert CanRun(h4, []) && CanRun(h3, [e3]) && CanRun(h2, [e2, e3]) && CanRun(h1, [e1, e2, e3]);
  }

  // ---- the waiters ----

  /** At a count of zero nobody waits; every waiter that came either waits or has one answer; `true` was
      given at a count of zero, `false` at a positive one. */
  ghost predicate WaiterInv(h: History) {
    && Distinct(h.tracker.waiters)
    && (h.tracker.count == 0 ==> h.tracker.waiters == [])
    && (forall w :: w in h.tracker.waiters ==> w in h.came && w !in Answered(h))
    && (forall w :: w in h.came ==> w in h.tracker.waiters || w in Answered(h))
    && (forall w :: w in Answered(h) ==> w in h.came)
    && (forall i, j :: 0 <= i < j < |h.tracker.answers| ==> h.tracker.answers[i].waiter != h.tracker.answers[j].waiter)
    && (forall i :: 0 <= i < |h.tracker.answers| ==>
          (h.tracker.answers[i].drained <==> h.tracker.answers[i].count == 0))
  }

  /** The answers that an event adds. */
  function NewAnswers(h: History, e: Event): seq<Answer>
    requires |h.tracker.answers| <= |Apply(h, e).tracker.answers|
  {
    Apply(h, e).tracker.answers[|h.tracker.answers|..]
  }

  /** Answers are never taken back.  `true` is only given when the counter is zero afterwards, and then to
      everyone who waits; `false` only to the waiter whose own timer fires. */
  lemma {:induction false} AnswersStep(h: History, e: Event)
    requires WaiterInv(h) && Possible(h, e)
    ensures h.tracker.answers <= Apply(h, e).tracker.answers
    ensures forall a :: a in NewAnswers(h, e) ==>
              a.count == Apply(h, e).tracker.count
              && (a.drained ==> a.count == 0 && !e.TimerFires?)
              && (!a.drained ==> a.count > 0 && e == TimerFires(a.waiter) && a.waiter in h.tracker.waiters)
    ensures h.tracker.count > 0 && Apply(h, e).tracker.count == 0 ==> NewAnswers(h, e) == Drained(h.tracker.waiters)
  {
    var a, b := h.tracker.answers, Apply(h, e).tracker.answers;
    if e.Completed? && e.id !in h.tracker.done && b != a {
      assert b == a + Drained(h.tracker.waiters);
      assert b[|a|..] == Drained(h.tracker.waiters);
    }
  }

  lemma {:induction false} AnsweredAppend(h: History, g: History, more: seq<Answer>)
    requires g.tracker.answers == h.tracker.answers + more
    ensures forall w :: w in Answered(g) <==> w in Answered(h) || exists i :: 0 <= i < |more| && more[i].waiter == w
  {
    forall w | w in Answered(h) ensures w in Answered(g) {
      var i :| 0 <= i < |h.tracker.answers| && h.tracker.answers[i].waiter == w;
      assert g.tracker.answers[i].waiter == w;
    }
    forall i | 0 <= i < |more| ensures more[i].waiter in Answered(g) {
      assert g.tracker.answers[|h.tracker.answers| + i].waiter == more[i].waiter;
    }
  }

  /** Answering a batch of waiters who had not been answered keeps the answers of the invariant in order. */
  lemma {:induction false} AnswerBatch(h: History, g: History, more: seq<Answer>)
    requires WaiterInv(h)
    requires g.tracker.answers == h.tracker.answers + more
    requires forall i :: 0 <= i < |more| ==> more[i].waiter !in Answered(h) && (more[i].drained <==> more[i].count == 0)
    requires forall i, j :: 0 <= i < j < |more| ==> more[i].waiter != more[j].waiter
    ensures forall i, j :: 0 <= i < j < |g.tracker.answers| ==>
              g.tracker.answers[i].waiter != g.tracker.answers[j].waiter
    ensures forall i :: 0 <= i < |g.tracker.answers| ==>
              (g.tracker.answers[i].drained <==> g.tracker.answers[i].count == 0)
  {
    var n := |h.tracker.answers|;
    forall i, j | 0 <= i < j < |g.tracker.answers|
      ensures g.tracker.answers[i].waiter != g.tracker.answers[j].waiter
    {
      if i < n <= j {
        assert h.tracker.answers[i].waiter in Answered(h);
        assert g.tracker.answers[j] == more[j - n];
      } else if n <= i {
        assert g.tracker.answers[i] == more[i - n] && g.tracker.answers[j] == more[j - n];
      }
    }
  }

  lemma {:induction false} CompletionServesWaiters(h: History, e: Event)
    requires WaiterInv(h) && Possible(h, e) && e.Completed?
    ensures WaiterInv(Apply(h, e))
  {
    var g := Apply(h, e);
    if e.id in h.tracker.done || g.tracker.count != 0 {
      assert Answered(g) == Answered(h);
    } else {
      var more := Drained(h.tracker.waiters);
      AnsweredAppend(h, g, more);
      AnswerBatch(h, g, more);
      forall w | w in h.tracker.waiters ensures w in Answered(g) {
        var i :| 0 <= i < |h.tracker.waiters| && h.tracker.waiters[i] == w;
        assert more[i].waiter == w;
      }
    }
  }

  lemma {:induction false} AwaitKeepsWaiters(h: History, w: nat)
    requires WaiterInv(h) && Possible(h, Await(w))
    ensures WaiterInv(Apply(h, Await(w)))
  {
    var g := Apply(h, Await(w));
    if h.tracker.count == 0 {
      var more := [Answer(w, true, 0)];
      AnsweredAppend(h, g, more);
      AnswerBatch(h, g, more);
      assert more[0].waiter == w;
    } else {
      assert Answered(g) == Answered(h);
    }
  }

  lemma {:induction false} TimerServesWaiter(h: History, w: nat)
    requires WaiterInv(h)
    ensures WaiterInv(Apply(h, TimerFires(w)))
  {
    var g := Apply(h, TimerFires(w));
    if w in h.tracker.waiters {
      var more := [Answer(w, false, h.tracker.count)];
      AnsweredAppend(h, g, more);
      AnswerBatch(h, g, more);
      assert more[0].waiter == w;
    }
  }

  lemma {:induction false} WaiterStep(h: History, e: Event)
    requires WaiterInv(h) && Possible(h, e)
    ensures WaiterInv(Apply(h, e))
  {
    match e
    case Request(_, _) => assert Answered(Apply(h, e)) == Answered(h);
    case Completed(_, _) => CompletionServesWaiters(h, e);
    case Await(w) => AwaitKeepsWaiters(h, w);
    case TimerFires(w) => TimerServesWaiter(h, w);
  }

  lemma {:induction false} WaitersAreServed(h: History, events: seq<Event>)
    requires WaiterInv(h) && CanRun(h, events)
    ensures WaiterInv(Run(h, events))
    decreases |events|
  {
    if events != [] {
      WaiterStep(h, events[0]);
      WaitersAreServed(Apply(h, events[0]), events[1..]);
    }
  }

  /** In every reachable state the counter is a lower bound and every promise is either waiting, at a
      positive count, or answered once and rightly. */
  lemma {:induction false} EveryReachableState(events: seq<Event>)
    requires CanRun(Start, events)
    ensures CountInv(Run(Start, events)) && WaiterInv(Run(Start, events))
  {
    assert InFlight(Start) == {};
    CountIsLowerBound(Start, events);
    WaitersAreServed(Start, events);
  }

  // ---- timers answer ----

  /** In every reachable state, a timer that goes off for a waiter gives exactly one answer, false at the
      count of that moment; that waiter no longer waits, and the others keep their order.  For anybody else
      nothing happens. */
  lemma {:induction false} TimerStep(events: seq<Event>, front: seq<nat>, w: nat, back: seq<nat>)
    requires CanRun(Start, events)
    ensures var h := Run(Start, events);
            var next := Apply(h, TimerFires(w));
            (h.tracker.waiters == front + [w] + back ==>
               NewAnswers(h, TimerFires(w)) == [Answer(w, false, h.tracker.count)]
               && h.tracker.count > 0 && next.tracker.waiters == front + back && w !in next.tracker.waiters)
            && (w !in h.tracker.waiters ==> next == h)
  {
    var h := Run(Start, events);
    EveryReachableState(events);
    TimerAnswers(h.tracker, front, w, back);
    if h.tracker.waiters == front + [w] + back {
      assert h.tracker.waiters[|front|] == w;
    }
  }

  lemma {:induction false} RunConcat(h: History, a: seq<Event>, b: seq<Event>)
    ensures Run(h, a + b) == Run(Run(h, a), b)
    ensures CanRun(h, a + b) <==> CanRun(h, a) && CanRun(Run(h, a), b)
    decreases |a|
  {
    if a == [] {
      assert a + b == b;
    } else {
      assert (a + b)[1..] == a[1..] + b;
      RunConcat(Apply(h, a[0]), a[1..], b);
    }
  }

  lemma {:induction false} AnsweredStays(h: History, events: seq<Event>, w: nat)
    requires WaiterInv(h) && CanRun(h, events) && w in Answered(h)
    ensures w in Answered(Run(h, events))
    decreases |events|
  {
    if events != [] {
      var next := Apply(h, events[0]);
      AnswersStep(h, events[0]);
      WaiterStep(h, events[0]);
      var i :| 0 <= i < |h.tracker.answers| && h.tracker.answers[i].waiter == w;
      assert next.tracker.answers[i].waiter == w;
      AnsweredStays(next, events[1..], w);
    }
  }

  lemma {:induction false} CameStays(h: History, events: seq<Event>, w: nat)
    requires w in h.came
    ensures w in Run(h, events).came
    decreases |events|
  {
    if events != [] {
      CameStays(Apply(h, events[0]), events[1..], w);
    }
  }

  /** No promise outlives its timer: in every run in which the timer of a waiter goes off after it came, it
      has been answered at the end. */
  lemma {:induction false} TimerEndsTheWait(before: seq<Event>, w: nat, between: seq<Event>, after: seq<Event>)
    requires CanRun(Start, before + [Await(w)] + between + [TimerFires(w)] + after)
    ensures w in Answered(Run(Start, before + [Await(w)] + between + [TimerFires(w)] + after))
  {
    hide WaiterInv, Answered, Apply, Possible, CanRun, Run;
    var asked := before + [Await(w)];
    var late := asked + between;
    var timed := late + [TimerFires(w)];
    RunConcat(Start, timed, after);
    RunConcat(Start, late, [TimerFires(w)]);
    RunConcat(Start, asked, between);
    RunConcat(Start, before, [Await(w)]);
    assert timed + after == before + [Await(w)] + between + [TimerFires(w)] + after;
    EveryReachableState(late);
    EveryReachableState(timed);
    OneStep(Run(Start, before), Await(w));
    OneStep(Run(Start, late), TimerFires(w));
    assert w in Apply(Run(Start, before), Await(w)).came by { AwaitComes(Run(Start, before), w); }
    CameStays(Run(Start, asked), between, w);
    FiredIsAnswered(Run(Start, late), w);
    AnsweredStays(Run(Start, timed), after, w);
  }

  lemma {:induction false} OneStep(h: History, e: Event)
    ensures Run(h, [e]) == Apply(h, e)
  {
    assert [e][1..] == [];
  }

  lemma {:induction false} AwaitComes(h: History, w: nat)
    ensures w in Apply(h, Await(w)).came
  {}

  /** Whoever came has been answered once the timer has gone off. */
  lemma {:induction false} FiredIsAnswered(h: History, w: nat)
    requires WaiterInv(h) && w in h.came
    ensures w in Answered(Apply(h, TimerFires(w)))
  {
    var next := Apply(h, TimerFires(w));
    if w in h.tracker.waiters {
      var i :| 0 <= i < |h.tracker.waiters| && h.tracker.waiters[i] == w;
      var front, back := h.tracker.waiters[..i], h.tracker.waiters[i + 1..];
      assert h.tracker.waiters == front + [w] + back;
      TimerAnswers(h.tracker, front, w, back);
      assert next.tracker.answers[|h.tracker.answers|].waiter == w;
    } else {
      TimerAnswers(h.tracker, [], w, []);
    }
  }

  // ---- when a reported drain is one ----

  /** Whoever is told that the requests have drained by this event is told so while none is in flight. */
  ghost predicate TellsTruth(h: History, e: Event)
    requires |h.tracker.answers| <= |Apply(h, e).tracker.answers|
  {
    forall a :: a in NewAnswers(h, e) && a.drained ==> InFlight(Apply(h, e)) == {}
  }

  lemma {:induction false} AnswersGrow(h: History, e: Event)
    ensures h.tracker.answers <= Apply(h, e).tracker.answers
  {}

  ghost predicate TruthfulThroughout(h: History, events: seq<Event>)
    decreases |events|
  {
    events == [] || (AnswersGrow(h, events[0]);
                     TellsTruth(h, events[0]) && TruthfulThroughout(Apply(h, events[0]), events[1..]))
  }

  /** While the counter is exact and nothing strays, only true drains are reported. */
  lemma {:induction false} ExactTellsTruth(h: History, events: seq<Event>)
    requires CountInv(h) && WaiterInv(h) && CanRun(h, events)
    requires h.tracker.count == |InFlight(h)| && NoStray(h, events)
    ensures TruthfulThroughout(h, events)
    decreases |events|
  {
    if events != [] {
      hide CountInv, WaiterInv, InFlight, Apply, Possible, Stray;
      var e, next := events[0], Apply(h, events[0]);
      AnswersStep(h, e);
      CountStep(h, e);
      WaiterStep(h, e);
      ExactTellsTruth(next, events[1..]);
    }
  }

  /** In a run in which no health check completes while the counter is positive, every drain that is
      reported is one: no request is in flight at that moment. */
  lemma {:induction false} DrainsReportedRightly(events: seq<Event>)
    requires CanRun(Start, events) && NoStray(Start, events)
    ensures TruthfulThroughout(Start, events)
  {
    assert InFlight(Start) == {};
    ExactTellsTruth(Start, events);
  }

  /** The opposite: in-flight requests complete until the counter is zero, and then someone asks. */
  lemma {:induction false} ShortCountLies(h: History, w: nat) returns (more: seq<Event>)
    requires CountInv(h) && h.tracker.count < |InFlight(h)|
    requires w !in h.came
    ensures CanRun(h, more) && NoStray(h, more) && NoHealthTraffic(more)
    ensures !TruthfulThroughout(h, more)
    decreases h.tracker.count
  {
    if h.tracker.count == 0 {
      more := [Await(w)];
      AskedAtZero(h, w);
    } else {
      var id :| id in InFlight(h);
      var e := Completed(id, OnResponse);
      var next := Apply(h, e);
      InFlightStep(h, e);
      var rest := ShortCountLies(next, w);
      more := [e] + rest;
      assert more[1..] == rest;
    }
  }

  lemma {:induction false} AskedAtZero(h: History, w: nat)
    requires h.tracker.count == 0 && InFlight(h) != {} && w !in h.came
    ensures CanRun(h, [Await(w)]) && NoStray(h, [Await(w)]) && !TruthfulThroughout(h, [Await(w)])
  {
    var e := Await(w);
    var next := Apply(h, e);
    assert [e][1..] == [];
    assert CanRun(next, []) && NoStray(next, []);
    assert NewAnswers(h, e) == [Answer(w, true, 0)];
    assert Answer(w, true, 0) in NewAnswers(h, e);
    assert InFlight(next) == InFlight(h);
  }

  lemma {:induction false} SomeoneNew(came: set<nat>) returns (w: nat)
    ensures forall x :: x in came ==> x < w
    decreases came
  {
    w := 0;
    if came != {} {
      var x :| x in came;
      var y := SomeoneNew(came - {x});
      assert forall z :: z in came ==> z == x || z in came - {x};
      w := if x < y then y else x + 1;
    }
  }

  /** Every continuation without stray health checks reports drains rightly. */
  ghost predicate ReliableFrom(h: History) {
    forall more: seq<Event> :: CanRun(h, more) && NoStray(h, more) ==> TruthfulThroughout(h, more)
  }

  /** After any run, the reports that are still to come can be relied on exactly when the counter is exact
      now.  A counter that is short stays a trap: requests without any further health check lead to a drain
      that is reported with a request in flight. */
  lemma {:induction false} ReliableIffExact(events: seq<Event>)
    requires CanRun(Start, events)
    ensures var h := Run(Start, events);
            ReliableFrom(h) <==> h.tracker.count == |InFlight(h)|
  {
    var h := Run(Start, events);
    EveryReachableState(events);
    if h.tracker.count == |InFlight(h)| {
      forall more: seq<Event> | CanRun(h, more) && NoStray(h, more) ensures TruthfulThroughout(h, more) {
        ExactTellsTruth(h, more);
      }
    } else {
      var w := SomeoneNew(h.came);
      var more := ShortCountLies(h, w);
      assert !ReliableFrom(h);
    }
  }
}
