/** What the input queue (input/event.c) and the window queues (gfx/gui_srv.c) do with events, on sequences,
    and what that means over whole runs. */
module EventPolicy {
  /** An event: its kind, its window, and everything else it carries. */
  datatype Event = Event(kind: int, window: int, payload: seq<int>)

  const CAPACITY: nat := 128
  const PAINT: int := 1
  const MOUSE_MOVE: int := 8

  predicate Low(e: Event) {
    e.kind == MOUSE_MOVE || e.kind == PAINT
  }

  /** The new event replaces the last one instead of following it. */
  predicate Coalesces(q: seq<Event>, e: Event) {
    q != [] && Low(e) && q[|q| - 1].kind == e.kind && q[|q| - 1].window == e.window
  }

  /** The position of the oldest low-priority event, |q| if there is none. */
  function OldestLow(q: seq<Event>): (i: nat)
    ensures i <= |q| && (i < |q| ==> Low(q[i])) && forall j | 0 <= j < i :: !Low(q[j])
  {
    if q == [] then 0 else if Low(q[0]) then 0 else 1 + OldestLow(q[1..])
  }

  function Without(q: seq<Event>, i: nat): (r: seq<Event>)
    requires i < |q|
    ensures |r| == |q| - 1
  {
    q[..i] + q[i + 1..]
  }

  /** Room for one more: a full queue loses its oldest low-priority event, or else its oldest event. */
  function MakeRoom(q: seq<Event>): seq<Event> {
    if |q| < CAPACITY then q else Without(q, if OldestLow(q) < |q| then OldestLow(q) else 0)
  }

  function Enqueue(q: seq<Event>, e: Event): seq<Event> {
    if Coalesces(q, e) then q[..|q| - 1] + [e] else MakeRoom(q) + [e]
  }

  function Highs(s: seq<Event>): seq<Event> {
    if s == [] then [] else Highs(s[..|s| - 1]) + if Low(s[|s| - 1]) then [] else [s[|s| - 1]]
  }

  /** All retained events are of high priority, and there is no room. */
  predicate AllHigh(q: seq<Event>) {
    |q| >= CAPACITY && OldestLow(q) == |q|
  }

  // ---- what a new event does, in numbers ----

  /** The kinds that may be dropped or replaced: 1, to paint, and 8, a mouse move. */
  predicate Droppable(e: Event) {
    e.kind == 1 || e.kind == 8
  }

  /** The new event is of such a kind, and the newest one waiting is of the same kind and for the same window. */
  predicate Repeats(q: seq<Event>, e: Event) {
    Droppable(e) && q != [] && q[|q| - 1].kind == e.kind && q[|q| - 1].window == e.window
  }

  /** After an event: it has replaced the newest one, which it repeats; or it follows all that waited, less, of 128,
      the oldest droppable one or else the oldest. */
  ghost predicate Took(q: seq<Event>, e: Event, q': seq<Event>) {
    if Repeats(q, e) then q' == q[..|q| - 1] + [e]
    else if |q| < 128 then q' == q + [e]
    else exists i: nat :: Gives(q, i) && q' == q[..i] + q[i + 1..] + [e]
  }

  /** The event that makes room. */
  predicate Gives(q: seq<Event>, i: nat) {
    i < |q| &&
    if Droppable(q[i]) then forall j {:trigger q[j]} | 0 <= j < i :: !Droppable(q[j])
    else i == 0 && forall j {:trigger q[j]} | 0 <= j < |q| :: !Droppable(q[j])
  }

  lemma EnqueueCases(q: seq<Event>, e: Event)
    ensures
      if Coalesces(q, e) then q != [] && Enqueue(q, e) == q[..|q| - 1] + [e]
      else if |q| < CAPACITY then Enqueue(q, e) == q + [e]
      else if OldestLow(q) < |q| then Enqueue(q, e) == Without(q, OldestLow(q)) + [e]
      else q != [] && Enqueue(q, e) == q[1..] + [e]
    ensures CAPACITY > 0
  {
    if |q| >= CAPACITY {
      assert Without(q, 0) == q[1..];
    }
  }

  lemma EnqueueTakes(q: seq<Event>, e: Event)
    ensures Took(q, e, Enqueue(q, e))
  {
    if !Repeats(q, e) && |q| >= 128 {
      var i := if OldestLow(q) < |q| then OldestLow(q) else 0;
      assert Gives(q, i);
    }
  }

  // ---- subsequences ----

  /** a is what remains of b after leaving out some of its elements. */
  predicate Within(a: seq<Event>, b: seq<Event>) {
    a == [] ||
    (b != [] &&
     ((a[|a| - 1] == b[|b| - 1] && Within(a[..|a| - 1], b[..|b| - 1])) || Within(a, b[..|b| - 1])))
  }

  lemma {:induction false} WithinSelf(a: seq<Event>)
    ensures Within(a, a)
  {
    if a != [] {
      WithinSelf(a[..|a| - 1]);
    }
  }

  lemma WithinBoth(a: seq<Event>, b: seq<Event>, e: Event)
    requires Within(a, b)
    ensures Within(a + [e], b + [e]) && Within(a, b + [e])
  {
    assert (a + [e])[..|a|] == a && (b + [e])[..|b|] == b;
  }

  lemma {:induction false} WithinTransitive(a: seq<Event>, b: seq<Event>, c: seq<Event>)
    requires Within(a, b) && Within(b, c)
    ensures Within(a, c)
    decreases |b| + |c|
  {
    if a != [] {
      if b[|b| - 1] == c[|c| - 1] && Within(b[..|b| - 1], c[..|c| - 1]) {
        if a[|a| - 1] == b[|b| - 1] && Within(a[..|a| - 1], b[..|b| - 1]) {
          WithinTransitive(a[..|a| - 1], b[..|b| - 1], c[..|c| - 1]);
        } else {
          WithinTransitive(a, b[..|b| - 1], c[..|c| - 1]);
        }
      } else {
        WithinTransitive(a, b, c[..|c| - 1]);
      }
    }
  }

  lemma {:induction false} WithinRest(p: seq<Event>, a: seq<Event>, b: seq<Event>)
    requires Within(a, b)
    ensures Within(p + a, p + b)
    decreases |a| + |b|
  {
    if b == [] {
      assert a == [];
      WithinSelf(p);
      assert p + a == p && p + b == p;
    } else {
      var b' := b[..|b| - 1];
      assert p + b == (p + b') + [b[|b| - 1]];
      if a != [] && a[|a| - 1] == b[|b| - 1] && Within(a[..|a| - 1], b') {
        WithinRest(p, a[..|a| - 1], b');
        assert p + a == (p + a[..|a| - 1]) + [a[|a| - 1]];
        WithinBoth(p + a[..|a| - 1], p + b', a[|a| - 1]);
      } else {
        WithinRest(p, a, b');
        WithinBoth(p + a, p + b', b[|b| - 1]);
      }
    }
  }

  lemma {:induction false} WithoutIsWithin(q: seq<Event>, i: nat)
    requires i < |q|
    ensures Within(Without(q, i), q)
    decreases |q|
  {
    var q' := q[..|q| - 1];
    if i == |q| - 1 {
      assert Without(q, i) == q';
      WithinSelf(q');
      WithinBoth(q', q', q[i]);
      assert q == q' + [q[i]];
    } else {
      WithoutIsWithin(q', i);
      assert Without(q, i) == Without(q', i) + [q[|q| - 1]] && q == q' + [q[|q| - 1]];
      WithinBoth(Without(q', i), q', q[|q| - 1]);
    }
  }

  /** What is left of a queue that takes a new event is within the old queue followed by that event. */
  lemma EnqueueIsWithin(q: seq<Event>, e: Event)
    ensures Within(Enqueue(q, e), q + [e])
  {
    if Coalesces(q, e) {
      WithoutIsWithin(q, |q| - 1);
      assert Without(q, |q| - 1) == q[..|q| - 1];
      WithinBoth(q[..|q| - 1], q, e);
    } else if |q| < CAPACITY {
      WithinSelf(q + [e]);
    } else {
      WithoutIsWithin(q, if OldestLow(q) < |q| then OldestLow(q) else 0);
      WithinBoth(MakeRoom(q), q, e);
    }
  }

  // ---- high-priority events ----

  lemma {:induction false} HighsJoin(a: seq<Event>, b: seq<Event>)
    ensures Highs(a + b) == Highs(a) + Highs(b)
    decreases |b|
  {
    if b == [] {
      assert a + b == a;
    } else {
      var b' := b[..|b| - 1];
      assert (a + b)[..|a + b| - 1] == a + b';
      HighsJoin(a, b');
      assert Highs(a + b') + Highs([b[|b| - 1]]) == Highs(a) + (Highs(b') + Highs([b[|b| - 1]])) by {
        assert [b[|b| - 1]][..0] == [];
      }
    }
  }

  lemma HighsOne(e: Event)
    ensures Highs([e]) == if Low(e) then [] else [e]
  {
    assert [e][..0] == [];
  }

  lemma HighsWithout(q: seq<Event>, i: nat)
    requires i < |q|
    ensures Low(q[i]) ==> Highs(Without(q, i)) == Highs(q)
    ensures !Low(q[i]) ==> |Highs(Without(q, i))| == |Highs(q)| - 1
  {
    assert q == q[..i] + [q[i]] + q[i + 1..];
    HighsJoin(q[..i], [q[i]]);
    HighsJoin(q[..i] + [q[i]], q[i + 1..]);
    HighsJoin(q[..i], q[i + 1..]);
    HighsOne(q[i]);
  }

  /** A new event costs a high-priority one exactly when it finds 128 high-priority events and none else. */
  lemma EnqueueKeepsHighs(q: seq<Event>, e: Event)
    ensures Coalesces(q, e) || !AllHigh(q) <==> Highs(Enqueue(q, e)) == Highs(q + [e])
    ensures |Highs(Enqueue(q, e))| == |Highs(q + [e])| - if !Coalesces(q, e) && AllHigh(q) then 1 else 0
  {
    HighsJoin(q, [e]);
    HighsOne(e);
    if Coalesces(q, e) {
      HighsWithout(q, |q| - 1);
      assert Without(q, |q| - 1) == q[..|q| - 1];
      HighsJoin(q[..|q| - 1], [e]);
    } else {
      HighsJoin(MakeRoom(q), [e]);
      if |q| >= CAPACITY {
        HighsWithout(q, if OldestLow(q) < |q| then OldestLow(q) else 0);
      }
    }
  }

  // ---- runs ----

  datatype Op = Put(event: Event) | Get

  /** A queue with its past: what was put in, what came out, how often an event was put to a full queue of
      high-priority events, and the counters of a window queue. */
  datatype History = History(queue: seq<Event>, sent: seq<Event>, got: seq<Event>, overflows: nat, enqueued: nat,
    low: nat, oldest: nat)

  const START: History := History([], [], [], 0, 0, 0, 0)

  function Step(h: History, op: Op): History {
    match op
    case Get => if h.queue == [] then h else h.(queue := h.queue[1..], got := h.got + [h.queue[0]])
    case Put(e) =>
      var full := !Coalesces(h.queue, e) && |h.queue| >= CAPACITY;
      h.(queue := Enqueue(h.queue, e), sent := h.sent + [e],
         overflows := h.overflows + (if full && AllHigh(h.queue) then 1 else 0),
         enqueued := h.enqueued + (if Coalesces(h.queue, e) then 0 else 1),
         low := h.low + (if full && !AllHigh(h.queue) then 1 else 0),
         oldest := h.oldest + (if full && AllHigh(h.queue) then 1 else 0))
  }

  function Run(ops: seq<Op>): History {
    if ops == [] then START else Step(Run(ops[..|ops| - 1]), ops[|ops| - 1])
  }

  /** Order, loss and counts, as they stand after any run. */
  predicate Accounted(h: History) {
    |h.queue| <= CAPACITY && Within(h.got + h.queue, h.sent) &&
    |Highs(h.sent)| == |Highs(h.got + h.queue)| + h.overflows &&
    (h.overflows == 0 ==> Highs(h.got + h.queue) == Highs(h.sent)) &&
    h.enqueued == |h.got| + h.low + h.oldest + |h.queue|
  }

  lemma StepKeepsAccount(h: History, op: Op)
    requires Accounted(h)
    ensures Accounted(Step(h, op))
  {
    var h' := Step(h, op);
    match op
    case Get =>
      if h.queue != [] {
        assert h'.got + h'.queue == h.got + h.queue;
      }
    case Put(e) =>
      var was := h.got + h.queue;
      EnqueueIsWithin(h.queue, e);
      WithinRest(h.got, h'.queue, h.queue + [e]);
      assert h.got + (h.queue + [e]) == was + [e];
      WithinBoth(was, h.sent, e);
      WithinTransitive(h'.got + h'.queue, was + [e], h'.sent);
      EnqueueKeepsHighs(h.queue, e);
      HighsJoin(h.got, h'.queue);
      HighsJoin(h.got, h.queue + [e]);
      HighsJoin(was, [e]);
      HighsJoin(h.sent, [e]);
  }

  /** Over any run the delivered events, followed by those still queued, are an in-order part of those sent; as many
      high-priority events are missing as were displaced from a queue of 128 high-priority events; and every event
      counted as enqueued is delivered, dropped or still queued. */
  lemma {:induction false} RunIsAccounted(ops: seq<Op>)
    ensures Accounted(Run(ops))
  {
    if ops == [] {
      assert START.got + START.queue == [];
    } else {
      RunIsAccounted(ops[..|ops| - 1]);
      StepKeepsAccount(Run(ops[..|ops| - 1]), ops[|ops| - 1]);
    }
  }

  /** What a new event adds to the counters. */
  lemma StepCounts(h: History, e: Event)
    ensures
      var q, h' := h.queue, Step(h, Put(e));
      var full := !Repeats(q, e) && |q| >= 128;
      var some := exists i :: 0 <= i < |q| && Droppable(q[i]);
      h'.enqueued == h.enqueued + (if Repeats(q, e) then 0 else 1) &&
      h'.low == h.low + (if full && some then 1 else 0) && h'.oldest == h.oldest + (if full && !some then 1 else 0) &&
      h'.got == h.got && h'.sent == h.sent + [e]
  {
    var i := OldestLow(h.queue);
    assert i < |h.queue| ==> Droppable(h.queue[i]);
  }

  // ---- one event ----

  /** The events delivered and behind them those that wait. */
  function Line(h: History): seq<Event> { h.got + h.queue }

  /** After these calls, none of those puts an event to a queue of 128. */
  ghost predicate NeverFull(before: seq<Op>, ops: seq<Op>) {
    forall k: nat {:trigger ops[k]} | k < |ops| && ops[k].Put? :: |Run(before + ops[..k]).queue| < 128
  }

  /** x stands where e stood: it is e, or it was put later and asks for the same. */
  ghost predicate StandsFor(x: Event, e: Event, later: seq<Op>) {
    x.kind == e.kind && x.window == e.window && (x == e || ((e.kind == 1 || e.kind == 8) && Put(x) in later))
  }

  /** As long as the queue is not full again, an event keeps its place in the line until it is delivered, or gives it to
      a later one of its kind and window; only requests to paint and mouse moves do. */
  lemma {:induction false} EventArrives(before: seq<Op>, e: Event, after: seq<Op>)
    requires NeverFull(before + [Put(e)], after)
    ensures
      var n := |Line(Run(before + [Put(e)]))| - 1;
      var line := Line(Run(before + [Put(e)] + after));
      |Run(before).got| <= n < |line| && StandsFor(line[n], e, after)
    decreases |after|
  {
    hide *;
    var start := before + [Put(e)];
    if after == [] {
      assert start + after == start;
      JustPut(before, e, after);
    } else {
      var init, op := after[..|after| - 1], after[|after| - 1];
      assert after == init + [op];
      OneCall(start, init, op);
      EventArrives(before, e, init);
      var n := |Line(Run(start))| - 1;
      LineKeeps(Run(start + init), op, n);
      StandsLater(Line(Run(start + after))[n], Line(Run(start + init))[n], e, init, op);
    }
  }

  lemma JustPut(before: seq<Op>, e: Event, later: seq<Op>)
    ensures
      var line := Line(Run(before + [Put(e)]));
      |Run(before).got| < |line| && StandsFor(line[|line| - 1], e, later)
  {
    RunMore(before, Put(e));
    EnqueueTakes(Run(before).queue, e);
    hide Run, Enqueue;
  }

  lemma OneCall(start: seq<Op>, init: seq<Op>, op: Op)
    requires NeverFull(start, init + [op])
    ensures Run(start + (init + [op])) == Step(Run(start + init), op) && NeverFull(start, init)
    ensures op.Put? ==> |Run(start + init).queue| < 128
  {
    hide Run, Step;
    RunMore(start + init, op);
    assert start + (init + [op]) == start + init + [op];
    var after := init + [op];
    assert after[|init|] == op && after[..|init|] == init;
    forall j: nat | j < |init| && init[j].Put? ensures |Run(start + init[..j]).queue| < 128 {
      assert after[j] == init[j] && after[..j] == init[..j];
    }
  }

  lemma RunMore(ops: seq<Op>, op: Op)
    ensures Run(ops + [op]) == Step(Run(ops), op)
  {
    var all := ops + [op];
    assert all[..|all| - 1] == ops && all[|all| - 1] == op;
    hide Step;
  }

  lemma StandsLater(y: Event, x: Event, e: Event, later: seq<Op>, op: Op)
    requires StandsFor(x, e, later) && StandsFor(y, x, [op])
    ensures StandsFor(y, e, later + [op])
  {
    assert (later + [op])[|later|] == op;
    assert op in later + [op] && forall o | o in later :: o in later + [op];
  }

  lemma LineKeeps(h: History, op: Op, n: nat)
    requires n < |Line(h)| && (op.Put? ==> |h.queue| < 128)
    ensures
      var was, now := Line(h), Line(Step(h, op));
      n < |now| && StandsFor(now[n], was[n], [op])
  {
    match op
    case Get => assert Line(Step(h, op)) == Line(h);
    case Put(e) =>
      EnqueueTakes(h.queue, e);
  }

  lemma NothingLost(ops: seq<Op>)
    ensures var h := Run(ops); Highs(h.got + h.queue) == Highs(h.sent) <==> h.overflows == 0
  {
    RunIsAccounted(ops);
  }
}
