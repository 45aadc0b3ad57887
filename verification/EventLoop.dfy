/** The timer half of the event loop (src/event_loop.cpp). */
module EventLoops {
  import opened Bytes
  import opened Timers

  class EventLoop {
    // The clock's successive readings; only that they never go back is used.
    const clock: nat -> int
    var reading: nat
    var time: int
    // The priority queue. Only which timer is on top matters, so the order in the sequence is free.
    var timers: seq<Timer>
    // The callbacks run so far, in order.
    var fired: seq<Firing>
    // Every timer ever set.
    ghost var granted: seq<Timer>

    ghost predicate Valid()
      reads this
    {
      && (forall i, j :: 0 <= i <= j ==> clock(i) <= clock(j)) && 0 <= time <= clock(reading)
      && Books(time, timers, fired, granted)
    }

    constructor (clock: nat -> int)
      requires (forall i, j :: 0 <= i <= j ==> clock(i) <= clock(j)) && clock(0) >= 0
      ensures Valid() && this.clock == clock && timers == [] && fired == [] && granted == []
    {
      this.clock := clock;
      reading, time, timers, fired, granted := 0, 0, [], [], [];
    }

    method UpdateTime() returns (now: int)
      requires Valid()
      modifies this`time, this`reading
      ensures Valid() && now == time == clock(old(reading)) && time >= old(time)
    {
      time := clock(reading);
      reading := reading + 1;
      now := time;
    }

    /** The index of a timer nothing in the queue expires before. */
    method Top() returns (k: nat)
      requires timers != []
      ensures k < |timers| && forall t <- timers :: timers[k].expiry <= t.expiry
    {
      k := 0;
      var i := 1;
      while i < |timers|
        invariant 1 <= i <= |timers| && k < i
        invariant forall j :: 0 <= j < i ==> timers[k].expiry <= timers[j].expiry
      {
        if timers[i].expiry < timers[k].expiry { k := i; }
        i := i + 1;
      }
    }

    method SetTimer(t: Timer)
      requires Valid() && t.repeats >= 0
      modifies this
      ensures Valid() && granted == old(granted) + [t] && fired == old(fired)
      ensures time >= old(time) && timers == old(timers) + [t.(expiry := time + t.timeout)]
    {
      var now := UpdateTime();
      SetKeepsBooks(time, timers, fired, granted, t, now);
      timers := timers + [t.Start(now)];
      granted := granted + [t];
    }

    /**
     * Runs what is due until nothing is. Callbacks are taken not to touch the queue. It terminates because every
     * turn leaves one run fewer owed, in whatever order the readings of the clock keep timers due.
     */
    method RunTimers()
      requires Valid()
      modifies this
      ensures Valid() && granted == old(granted) && old(fired) <= fired && time >= old(time)
      ensures forall t <- timers :: t.expiry > time
    {
      while timers != []
        invariant Valid() && granted == old(granted) && old(fired) <= fired && time >= old(time)
        decreases OwedInAll(timers)
      {
        var k := Top();
        if timers[k].expiry > time { break; }
        Fire(k);
      }
    }

    // One turn: the timer on top is popped and run, and comes back if it repeats.
    method Fire(k: nat)
      requires Valid() && k < |timers| && timers[k].expiry <= time && forall t <- timers :: timers[k].expiry <= t.expiry
      modifies this
      ensures Valid() && granted == old(granted) && time >= old(time)
      ensures fired == old(fired + [Firing(timers[k].tag, timers[k].expiry, time)])
      ensures OwedInAll(timers) == old(OwedInAll(timers)) - 1 >= 0
      ensures var t := old(timers[k]);
              var again := if t.repeats > 0 then [Timer(t.tag, t.timeout, t.repeats - 1, time + t.timeout)] else [];
              timers == old(timers[..k] + timers[k + 1..]) + again
      ensures time == clock(old(reading)) && reading == old(reading) + 1
    {
      hide Books, OwedInAll;
      BooksFacts(time, timers, fired, granted);
      RunKeepsBooks(time, timers, fired, granted, k, clock(reading));
      var timer := timers[k];
      fired := fired + [Firing(timer.tag, timer.expiry, time)];
      timers := Without(timers, k);
      // The clock is read once the timer has been popped.
      time := clock(reading);
      reading := reading + 1;
      var (again, left) := timer.Repeat();
      if again {
        timers := timers + [left.Start(time)];
      }
    }

    /** How long the loop may sleep: not past the next expiry, and up to it unless that is more than an `int` holds. */
    method ComputeNextTimeout() returns (r: int)
      ensures r == -1 <==> timers == []
      ensures timers != [] ==> 0 <= r <= INT_MAX
      ensures forall t <- timers :: r > 0 ==> time + r <= t.expiry
      ensures timers != [] && r < INT_MAX ==> exists t <- timers :: t.expiry <= time + r
    {
      if timers == [] { return -1; }
      var k := Top();
      var expiry := timers[k].expiry;
      assert timers[k] in timers;
      if expiry <= time { return 0; }
      var diff := expiry - time;
      r := if diff > INT_MAX then INT_MAX else diff;
    }
  }

  /** A timer set once runs at most max(1, repeat) times, and exactly that often once it has left the queue. */
  lemma RunsAsAsked(loop: EventLoop, tag: nat, timeout: nat, repeat: int, k: nat)
    requires loop.Valid() && k < |loop.granted| && loop.granted[k] == Repeating(tag, timeout, repeat)
    requires forall j :: 0 <= j < |loop.granted| && j != k ==> loop.granted[j].tag != tag
    ensures Runs(loop.fired, tag) <= if repeat > 1 then repeat else 1
    ensures (Runs(loop.fired, tag) == if repeat > 1 then repeat else 1) <==> forall t <- loop.timers :: t.tag != tag
  {
    OwedWithout(loop.granted, k, tag);
    NoneOwed(Without(loop.granted, k), tag);
    NothingOwedBelowZero(loop.timers, tag);
    assert Runs(loop.fired, tag) + Owed(loop.timers, tag) == Owed(loop.granted, tag);
  }

  lemma {:induction false} NoneOwed(q: seq<Timer>, tag: nat)
    requires forall t <- q :: t.tag != tag
    ensures Owed(q, tag) == 0
  {
    if q != [] {
      assert q[|q| - 1] in q;
      NoneOwed(q[..|q| - 1], tag);
    }
  }
}
