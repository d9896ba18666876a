/** The two event queues of the system, ring buffers of 128 events: input/event.c:9-125, and the queue of a
    window in gfx/gui_srv.c:101-158 and 722-749. */
module EventQueues {
  import opened EventPolicy

  /** The slot that is rel places after the head. */
  function Slot(head: nat, rel: nat): (i: nat)
    ensures i < CAPACITY
  {
    (head + rel) % CAPACITY
  }

  /** The events in a ring, oldest first. */
  function Contents(buf: seq<Event>, head: nat, count: nat): (q: seq<Event>)
    requires |buf| == CAPACITY
    ensures |q| == count && forall i | 0 <= i < count :: q[i] == buf[Slot(head, i)]
  {
    seq(count, i requires 0 <= i < count => buf[Slot(head, i)])
  }

  lemma SlotsApart(head: nat, i: nat, j: nat)
    requires i < j < CAPACITY && head < CAPACITY
    ensures Slot(head, i) != Slot(head, j)
  {}

  lemma NextHead(head: nat, i: nat)
    requires head < CAPACITY
    ensures Slot((head + 1) % CAPACITY, i) == Slot(head, i + 1)
  {}

  lemma Popped(buf: seq<Event>, head: nat, count: nat)
    requires |buf| == CAPACITY && head < CAPACITY && 0 < count <= CAPACITY
    ensures Contents(buf, (head + 1) % CAPACITY, count - 1) == Contents(buf, head, count)[1..]
  {
    forall i: nat | i < count - 1
      ensures Contents(buf, (head + 1) % CAPACITY, count - 1)[i] == Contents(buf, head, count)[1..][i] {
      NextHead(head, i);
    }
  }

  lemma Pushed(buf: seq<Event>, head: nat, count: nat, e: Event)
    requires |buf| == CAPACITY && head < CAPACITY && count < CAPACITY
    ensures Contents(buf[Slot(head, count) := e], head, count + 1) == Contents(buf, head, count) + [e]
  {
    forall i: nat | i < count ensures Slot(head, i) != Slot(head, count) {
      SlotsApart(head, i, count);
    }
  }

  lemma Stored(buf: seq<Event>, head: nat, count: nat, i: nat, e: Event)
    requires |buf| == CAPACITY && head < CAPACITY && i < count <= CAPACITY
    ensures Contents(buf[Slot(head, i) := e], head, count) == Contents(buf, head, count)[i := e]
  {
    forall j: nat | j < count && j != i ensures Slot(head, j) != Slot(head, i) {
      SlotsApart(head, if i < j then i else j, if i < j then j else i);
    }
  }

  /** The shifting loop after i steps: slots rel to i - 1 hold what came after them. */
  function Shifted(q: seq<Event>, rel: nat, i: nat): (r: seq<Event>)
    requires rel <= i < |q|
    ensures |r| == |q|
  {
    q[..rel] + q[rel + 1..i + 1] + q[i..]
  }

  lemma ShiftOnce(q: seq<Event>, rel: nat, i: nat)
    requires rel <= i && i + 1 < |q|
    ensures Shifted(q, rel, i)[i := Shifted(q, rel, i)[i + 1]] == Shifted(q, rel, i + 1)
  {
    var a, b := Shifted(q, rel, i)[i := Shifted(q, rel, i)[i + 1]], Shifted(q, rel, i + 1);
    forall j | 0 <= j < |q| ensures a[j] == b[j] {}
  }

  lemma ShiftedAll(q: seq<Event>, rel: nat)
    requires rel < |q|
    ensures Shifted(q, rel, rel) == q
    ensures Shifted(q, rel, |q| - 1)[..|q| - 1] == Without(q, rel)
  {}

  lemma Shortened(buf: seq<Event>, head: nat, count: nat)
    requires |buf| == CAPACITY && 0 < count
    ensures Contents(buf, head, count - 1) == Contents(buf, head, count)[..count - 1]
  {}

  lemma IsOldestLow(q: seq<Event>, i: nat)
    requires i <= |q| && (i < |q| ==> Low(q[i])) && forall j | 0 <= j < i :: !Low(q[j])
    ensures OldestLow(q) == i
  {}

  lemma GapStep(buf: seq<Event>, head: nat, count: nat, q: seq<Event>, rel: nat, i: nat)
    requires |buf| == CAPACITY && head < CAPACITY && count <= CAPACITY && rel <= i && i + 1 < count == |q|
    requires Contents(buf, head, count) == Shifted(q, rel, i)
    ensures Contents(buf[Slot(head, i) := buf[Slot(head, i + 1)]], head, count) == Shifted(q, rel, i + 1)
  {
    Stored(buf, head, count, i, buf[Slot(head, i + 1)]);
    ShiftOnce(q, rel, i);
  }

  lemma GapClosed(buf: seq<Event>, head: nat, count: nat, q: seq<Event>, rel: nat)
    requires |buf| == CAPACITY && head < CAPACITY && rel < count == |q| &&
      Contents(buf, head, count) == Shifted(q, rel, count - 1)
    ensures Contents(buf, head, count - 1) == Without(q, rel) &&
      (Slot(head, count) + CAPACITY - 1) % CAPACITY == Slot(head, count - 1)
  {
    ShiftedAll(q, rel);
    Shortened(buf, head, count);
    PreviousSlot(head, count);
  }

  /** The loop that shifts the events after place rel forward. */
  method ShiftAll(buf: array<Event>, head: nat, count: nat, rel: nat)
    requires buf.Length == CAPACITY && head < CAPACITY && rel < count <= CAPACITY
    modifies buf
    ensures Contents(buf[..], head, count) == Shifted(Contents(old(buf[..]), head, count), rel, count - 1)
  {
    hide *;
    ghost var q := Contents(buf[..], head, count);
    ShiftedAll(q, rel);
    var i := rel;
    while i + 1 < count
      invariant rel <= i < count && Contents(buf[..], head, count) == Shifted(q, rel, i)
    {
      SlotIs(head, i);
      SlotIs(head, i + 1);
      var dst := (head + i) % CAPACITY;
      var src := (head + i + 1) % CAPACITY;
      GapStep(buf[..], head, count, q, rel, i);
      buf[dst] := buf[src];
      i := i + 1;
    }
  }

  class InputQueue {
    const buf: array<Event>
    var head: nat
    var tail: nat
    var count: nat

    ghost predicate Valid()
      reads this, buf
    {
      buf.Length == CAPACITY && head < CAPACITY && count <= CAPACITY && tail == Slot(head, count)
    }

    ghost function Queue(): (q: seq<Event>)
      requires Valid()
      reads this, buf
      ensures |q| == count
    {
      Contents(buf[..], head, count)
    }

    constructor ()
      ensures Valid() && Queue() == [] && fresh(buf)
    {
      buf := new Event[CAPACITY](_ => Event(0, 0, []));
      head, tail, count := 0, 0, 0;
    }

    /** The shifting loop of try_drop_low_priority_locked. */
    method CloseGap(rel: nat)
      requires Valid() && rel < count
      modifies buf, `tail, `count
      ensures Valid() && Queue() == Without(old(Queue()), rel)
    {
      ghost var q := Queue();
      ShiftAll(buf, head, count, rel);
      GapClosed(buf[..], head, count, q, rel);
      tail := (tail + CAPACITY - 1) % CAPACITY;
      count := count - 1;
    }

    /** try_drop_low_priority_locked. */
    method TryDropLow() returns (dropped: bool)
      requires Valid()
      modifies buf, `tail, `count
      ensures Valid() && (dropped <==> OldestLow(old(Queue())) < |old(Queue())|)
      ensures Queue() == if dropped then Without(old(Queue()), OldestLow(old(Queue()))) else old(Queue())
    {
      for rel := 0 to count
        invariant Valid() && Queue() == old(Queue()) && count == old(count) &&
          forall j | 0 <= j < rel :: !Low(Queue()[j])
      {
        var idx := (head + rel) % CAPACITY;
        if Low(buf[idx]) {
          IsOldestLow(Queue(), rel);
          CloseGap(rel);
          return true;
        }
      }
      IsOldestLow(Queue(), count);
      return false;
    }

    /** try_coalesce_tail_locked. */
    method TryCoalesce(e: Event) returns (done: bool)
      requires Valid()
      modifies buf
      ensures Valid() && (done <==> Coalesces(old(Queue()), e))
      ensures Queue() == if done then old(Queue())[..|old(Queue())| - 1] + [e] else old(Queue())
    {
      if count == 0 || !Low(e) {
        return false;
      }
      PreviousSlot(head, count);
      var last := (tail + CAPACITY - 1) % CAPACITY;
      if buf[last].kind != e.kind || buf[last].window != e.window {
        return false;
      }
      Stored(buf[..], head, count, count - 1, e);
      buf[last] := e;
      return true;
    }

    /** event_enqueue. */
    method Put(e: Event)
      requires Valid()
      modifies this, buf
      ensures Valid() && Queue() == Enqueue(old(Queue()), e)
      ensures Took(old(Queue()), e, Queue())
    {
      hide *;
      Bounds();
      ghost var q := Queue();
      EnqueueTakes(q, e);
      EnqueueCases(q, e);
      var done := TryCoalesce(e);
      if done {
        return;
      }
      if count >= CAPACITY {
        var dropped := TryDropLow();
        if !dropped {
          DropHead();
        }
      }
      assert |Queue()| == count;
      Append(e);
    }

    lemma Bounds()
      requires Valid()
      ensures count <= CAPACITY && CAPACITY > 0
    {}

    method DropHead()
      requires Valid() && count > 0
      modifies `head, `count
      ensures Valid() && Queue() == old(Queue())[1..]
    {
      Popped(buf[..], head, count);
      NextHead(head, count - 1);
      hide Contents, Slot;
      head := (head + 1) % CAPACITY;
      count := count - 1;
    }

    method Append(e: Event)
      requires Valid() && count < CAPACITY
      modifies buf, `tail, `count
      ensures Valid() && Queue() == old(Queue()) + [e]
    {
      Pushed(buf[..], head, count, e);
      NextSlot(head, count);
      hide Contents, Slot;
      buf[tail] := e;
      tail := (tail + 1) % CAPACITY;
      count := count + 1;
    }

    /** event_dequeue. */
    method Get() returns (found: bool, e: Event)
      requires Valid()
      modifies this
      ensures Valid() && (found <==> old(Queue()) != [])
      ensures if found then old(Queue()) == [e] + Queue() else Queue() == old(Queue())
    {
      e := Event(0, 0, []);
      if count == 0 {
        return false, e;
      }
      e := buf[head];
      assert e == Queue()[0];
      DropHead();
      return true, e;
    }
  }

  const WRAP32: nat := 0x1_0000_0000

  lemma OneMore(x: nat)
    ensures (x % WRAP32 + 1) % WRAP32 == (x + 1) % WRAP32
  {}

  /** The step of a new event, case by case. */
  lemma PostSteps(h: History, e: Event)
    requires Accounted(h)
    ensures
      var h' := Step(h, Put(e));
      var q := h.queue;
      Accounted(h') && h'.got == h.got &&
      if Coalesces(q, e) then q != [] && h'.queue == q[..|q| - 1] + [e] && h'.low == h.low && h'.oldest == h.oldest &&
        h'.enqueued == h.enqueued
      else
        h'.enqueued == h.enqueued + 1 &&
        if |q| < CAPACITY then h'.queue == q + [e] && h'.low == h.low && h'.oldest == h.oldest
        else if OldestLow(q) < |q| then h'.queue == Without(q, OldestLow(q)) + [e] && h'.low == h.low + 1 &&
          h'.oldest == h.oldest
        else q != [] && h'.queue == q[1..] + [e] && h'.low == h.low && h'.oldest == h.oldest + 1
  {
    StepKeepsAccount(h, Put(e));
    hide Accounted;
    assert h.queue != [] ==> Without(h.queue, 0) == h.queue[1..];
  }

  lemma StepTakes(h: History, e: Event)
    ensures Took(h.queue, e, Step(h, Put(e)).queue)
  {
    EnqueueTakes(h.queue, e);
  }

  lemma GetSteps(h: History)
    requires Accounted(h) && h.queue != []
    ensures
      var h' := Step(h, Get);
      Accounted(h') && h'.queue == h.queue[1..] && h'.low == h.low && h'.oldest == h.oldest && h'.enqueued == h.enqueued
  {
    StepKeepsAccount(h, Get);
  }

  datatype Fetched = NotYours | TryAgain | Got(event: Event)

  /** The queue and counters of a window. Its past is a run of the policy; the counters count in 32 bits. */
  class WindowQueue {
    const events: array<Event>
    const owner: int
    var head: nat
    var tail: nat
    var count: nat
    var dirty: bool
    var dropped: nat
    var droppedLow: nat
    var droppedOldest: nat
    var enqueued: nat
    ghost var past: History

    ghost predicate Ring()
      reads `head, `tail, `count, events
    {
      events.Length == CAPACITY && head < CAPACITY && count <= CAPACITY && tail == Slot(head, count)
    }

    ghost predicate Counters()
      reads `dropped, `droppedLow, `droppedOldest, `enqueued, `past
    {
      dropped == (past.low + past.oldest) % WRAP32 && droppedLow == past.low % WRAP32 &&
        droppedOldest == past.oldest % WRAP32 &&
      enqueued == past.enqueued % WRAP32
    }

    ghost predicate Valid()
      reads this, events
    {
      Ring() && Accounted(past) && past.queue == Queue() && Counters()
    }

    ghost function Queue(): (q: seq<Event>)
      requires Ring()
      reads `head, `tail, `count, events
      ensures |q| == count
    {
      Contents(events[..], head, count)
    }

    constructor (owner: int)
      ensures Valid() && past == START && fresh(events) && this.owner == owner
    {
      events := new Event[CAPACITY](_ => Event(0, 0, []));
      this.owner := owner;
      head, tail, count, dirty := 0, 0, 0, false;
      dropped, droppedLow, droppedOldest, enqueued := 0, 0, 0, 0;
      past := START;
      new;
      RunIsAccounted([]);
    }

    /** evt_enqueue: one step of the policy, counted. */
    method Post(ev: Event)
      requires Valid()
      modifies this, events
      ensures Valid() && past == Step(old(past), Put(ev))
      ensures Took(old(past).queue, ev, past.queue)
    {
      hide *;
      Opens();
      StepTakes(past, ev);
      ghost var q := Queue();
      PostSteps(past, ev);
      assert past.queue == q && |q| == count;
      CountersUp();
      if count > 0 {
        var coalesced := TryCoalesce(ev);
        if coalesced {
          assert Queue() == q[..|q| - 1] + [ev];
          past := Step(past, Put(ev));
          CountersAre();
          return;
        }
      } else {
        NoTail(ev);
      }
      if count >= CAPACITY {
        var found := TryDropLow();
        if found {
          droppedLow := (droppedLow + 1) % WRAP32;
        } else {
          DropHead();
          droppedOldest := (droppedOldest + 1) % WRAP32;
        }
        dropped := (dropped + 1) % WRAP32;
      }
      assert !Coalesces(q, ev);
      assert Queue() == (if |q| < CAPACITY then q else if OldestLow(q) < |q| then Without(q, OldestLow(q)) else q[1..]);
      assert |Queue()| == count;
      Append(ev);
      past := Step(past, Put(ev));
      enqueued := (enqueued + 1) % WRAP32;
      CountersAre();
    }

    lemma Opens()
      requires Valid()
      ensures Ring() && Accounted(past) && past.queue == Queue() && Counters()
      ensures CAPACITY > 0 && WRAP32 > 0 && count <= CAPACITY
    {}

    lemma HeadIs()
      requires Ring() && count > 0
      ensures head < events.Length && events[head] == Queue()[0]
    {}

    lemma NoTail(ev: Event)
      requires Ring() && count == 0
      ensures !Coalesces(Queue(), ev)
    {}

    /** The counters one higher. */
    lemma CountersUp()
      requires Counters()
      ensures dropped == (past.low + past.oldest) % WRAP32 &&
        (dropped + 1) % WRAP32 == (past.low + past.oldest + 1) % WRAP32
      ensures droppedLow == past.low % WRAP32 && (droppedLow + 1) % WRAP32 == (past.low + 1) % WRAP32
      ensures droppedOldest == past.oldest % WRAP32 && (droppedOldest + 1) % WRAP32 == (past.oldest + 1) % WRAP32
      ensures enqueued == past.enqueued % WRAP32 && (enqueued + 1) % WRAP32 == (past.enqueued + 1) % WRAP32
    {
      OneMore(past.low + past.oldest);
      OneMore(past.low);
      OneMore(past.oldest);
      OneMore(past.enqueued);
    }

    lemma CountersAre()
      requires Ring() && Accounted(past) && past.queue == Queue()
      requires dropped == (past.low + past.oldest) % WRAP32 && droppedLow == past.low % WRAP32
      requires droppedOldest == past.oldest % WRAP32 && enqueued == past.enqueued % WRAP32
      ensures Valid()
    {}

    method TryCoalesce(ev: Event) returns (done: bool)
      requires Ring() && count > 0
      modifies events
      ensures Ring() && (done <==> Coalesces(old(Queue()), ev))
      ensures Queue() == if done then old(Queue())[..|old(Queue())| - 1] + [ev] else old(Queue())
    {
      if !Low(ev) {
        return false;
      }
      PreviousSlot(head, count);
      var last := (tail + CAPACITY - 1) % CAPACITY;
      if events[last].kind != ev.kind || events[last].window != ev.window {
        return false;
      }
      Stored(events[..], head, count, count - 1, ev);
      events[last] := ev;
      return true;
    }

    /** The loop of evt_enqueue over a full queue. */
    method TryDropLow() returns (found: bool)
      requires Ring()
      modifies events, `tail, `count
      ensures Ring() && (found <==> OldestLow(old(Queue())) < |old(Queue())|)
      ensures Queue() == if found then Without(old(Queue()), OldestLow(old(Queue()))) else old(Queue())
    {
      for rel := 0 to count
        invariant Ring() && Queue() == old(Queue()) && count == old(count) &&
          forall j | 0 <= j < rel :: !Low(Queue()[j])
      {
        var idx := (head + rel) % CAPACITY;
        if Low(events[idx]) {
          IsOldestLow(Queue(), rel);
          CloseGap(rel);
          return true;
        }
      }
      IsOldestLow(Queue(), count);
      return false;
    }

    method CloseGap(rel: nat)
      requires Ring() && rel < count
      modifies events, `tail, `count
      ensures Ring() && Queue() == Without(old(Queue()), rel)
    {
      ghost var q := Queue();
      ShiftAll(events, head, count, rel);
      GapClosed(events[..], head, count, q, rel);
      tail := (tail + CAPACITY - 1) % CAPACITY;
      count := count - 1;
    }

    method DropHead()
      requires Ring() && count > 0
      modifies `head, `count
      ensures Ring() && Queue() == old(Queue())[1..]
    {
      Popped(events[..], head, count);
      NextHead(head, count - 1);
      hide Contents, Slot;
      head := (head + 1) % CAPACITY;
      count := count - 1;
    }

    method Append(ev: Event)
      requires Ring() && count < CAPACITY
      modifies events, `tail, `count
      ensures Ring() && Queue() == old(Queue()) + [ev]
    {
      Pushed(events[..], head, count, ev);
      NextSlot(head, count);
      hide Contents, Slot;
      events[tail] := ev;
      tail := (tail + 1) % CAPACITY;
      count := count + 1;
    }

    /** gui_srv_get_event for a window that was found. */
    method GetFor(pid: int) returns (r: Fetched)
      requires Valid()
      modifies this
      ensures Valid()
      ensures r == (if pid != owner then NotYours else if old(past).queue == [] then TryAgain
        else Got(old(past).queue[0]))
      ensures past == if r.Got? then Step(old(past), Get) else old(past)
      ensures dirty == (old(dirty) && !(r.Got? && r.event.kind == PAINT))
    {
      hide *;
      Opens();
      CountersUp();
      if owner != pid {
        return NotYours;
      }
      if count == 0 {
        return TryAgain;
      }
      GetSteps(past);
      HeadIs();
      var ev := events[head];
      DropHead();
      past := Step(past, Get);
      if ev.kind == PAINT {
        dirty := false;
      }
      CountersAre();
      return Got(ev);
    }

    /** Up to the width of the counters, events counted as enqueued are those delivered, dropped or still queued, and
        every drop is one of a low-priority or of an oldest event. */
    lemma CountersBalance()
      requires Valid()
      ensures enqueued == (|past.got| + dropped + count) % WRAP32 && dropped == (droppedLow + droppedOldest) % WRAP32
    {
      assert past.enqueued == |past.got| + (past.low + past.oldest) + count;
      Balanced(|past.got|, past.low, past.oldest, count);
      hide Accounted, Ring;
    }
  }

  lemma Balanced(got: nat, low: nat, oldest: nat, count: nat)
    ensures (got + (low + oldest) + count) % WRAP32 == (got + (low + oldest) % WRAP32 + count) % WRAP32
    ensures (low + oldest) % WRAP32 == (low % WRAP32 + oldest % WRAP32) % WRAP32
  {
    Carried(got + count, low + oldest);
    Carried(low % WRAP32, oldest);
    Carried(oldest, low);
  }

  lemma Carried(a: nat, b: nat)
    ensures (a + b % WRAP32) % WRAP32 == (a + b) % WRAP32
  {
    assert a + b == a + b % WRAP32 + b / WRAP32 * WRAP32;
  }

  lemma SlotIs(head: nat, rel: nat)
    ensures CAPACITY > 0 && Slot(head, rel) == (head + rel) % CAPACITY
  {}

  lemma NextSlot(head: nat, rel: nat)
    ensures (Slot(head, rel) + 1) % CAPACITY == Slot(head, rel + 1)
  {}

  lemma PreviousSlot(head: nat, rel: nat)
    requires rel > 0
    ensures (Slot(head, rel) + CAPACITY - 1) % CAPACITY == Slot(head, rel - 1)
  {}
}
