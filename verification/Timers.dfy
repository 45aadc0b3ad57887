/** Timers (include/timer.h, src/timer.cpp). The queue copies them, so they are values here. */
module Timers {
  // `tag` stands for the callback and its argument.
  datatype Timer = Timer(tag: nat, timeout: nat, repeats: int, expiry: int) {
    // `start`: the sum is kept unless it is below the timeout, and then clamped.
    function Start(loopTime: int): Timer {
      var sum := loopTime + timeout;
      this.(expiry := if sum < timeout then -1 else sum)
    }

    // `repeat`: whether to run again, and the timer with one run fewer.
    function Repeat(): (bool, Timer) {
      (repeats > 0, this.(repeats := repeats - 1))
    }
  }

  // Both constructors: as often as asked and at least once; the one without a count asks for one run.
  function Repeating(tag: nat, timeout: nat, repeat: int): Timer {
    Timer(tag, timeout, if repeat <= 0 then 0 else repeat - 1, 0)
  }

  // How many runs with this tag the timers in `q` still owe.
  function Owed(q: seq<Timer>, tag: nat): int {
    if q == [] then 0
    else Owed(q[..|q| - 1], tag) + if q[|q| - 1].tag == tag then q[|q| - 1].repeats + 1 else 0
  }

  function OwedInAll(q: seq<Timer>): int {
    if q == [] then 0 else OwedInAll(q[..|q| - 1]) + q[|q| - 1].repeats + 1
  }

  function Without(q: seq<Timer>, k: nat): seq<Timer>
    requires k < |q|
  {
    q[..k] + q[k + 1..]
  }

  lemma OwedSnoc(q: seq<Timer>, t: Timer, tag: nat)
    ensures Owed(q + [t], tag) == Owed(q, tag) + if t.tag == tag then t.repeats + 1 else 0
    ensures OwedInAll(q + [t]) == OwedInAll(q) + t.repeats + 1
  {
    assert (q + [t])[..|q|] == q;
  }

  lemma {:induction false} OwedWithout(q: seq<Timer>, k: nat, tag: nat)
    requires k < |q|
    ensures Owed(q, tag) == Owed(Without(q, k), tag) + if q[k].tag == tag then q[k].repeats + 1 else 0
    ensures OwedInAll(q) == OwedInAll(Without(q, k)) + q[k].repeats + 1
    decreases |q|
  {
    var last := |q| - 1;
    if k == last {
      assert Without(q, k) == q[..last];
    } else {
      OwedWithout(q[..last], k, tag);
      assert Without(q, k) == Without(q[..last], k) + [q[last]];
      OwedSnoc(Without(q[..last], k), q[last], tag);
    }
  }

  predicate Runnable(q: seq<Timer>) {
    forall t <- q :: t.repeats >= 0
  }

  lemma {:induction false} NothingOwedBelowZero(q: seq<Timer>, tag: nat)
    requires Runnable(q)
    ensures Owed(q, tag) >= 0 && OwedInAll(q) >= |q|
    ensures Owed(q, tag) == 0 <==> forall t <- q :: t.tag != tag
  {
    if q != [] {
      var last := |q| - 1;
      assert forall t <- q[..last] :: t in q;
      NothingOwedBelowZero(q[..last], tag);
      assert q[last] in q;
      assert forall t <- q :: t in q[..last] || t == q[last];
    }
  }

  // One run of a callback: what the timer was set for, and the loop's time when it ran.
  datatype Firing = Firing(tag: nat, expiry: int, at: int)

  function Runs(fired: seq<Firing>, tag: nat): nat {
    if fired == [] then 0 else Runs(fired[..|fired| - 1], tag) + if fired[|fired| - 1].tag == tag then 1 else 0
  }

  lemma RunsSnoc(fired: seq<Firing>, f: Firing, tag: nat)
    ensures Runs(fired + [f], tag) == Runs(fired, tag) + if f.tag == tag then 1 else 0
  {
    assert (fired + [f])[..|fired|] == fired;
  }

  ghost predicate InOrder(fired: seq<Firing>) {
    && (forall i, j :: 0 <= i < j < |fired| ==> fired[i].expiry <= fired[j].expiry)
    && (forall f <- fired :: f.expiry <= f.at)
  }

  // What holds of the loop at any time: who has run, in what order, and who is still owed a run.
  ghost predicate Books(time: int, timers: seq<Timer>, fired: seq<Firing>, granted: seq<Timer>) {
    && Runnable(timers) && Runnable(granted) && InOrder(fired)
    && (forall f <- fired :: f.expiry <= time)
    && (forall f <- fired, t <- timers :: f.expiry <= t.expiry)
    && (forall tag :: Runs(fired, tag) + Owed(timers, tag) == Owed(granted, tag))
  }

  lemma BooksFacts(time: int, timers: seq<Timer>, fired: seq<Firing>, granted: seq<Timer>)
    requires Books(time, timers, fired, granted)
    ensures OwedInAll(timers) >= |timers|
  {
    NothingOwedBelowZero(timers, 0);
  }

  // A timer set at `now`, no earlier than the last time seen.
  lemma SetKeepsBooks(time: int, timers: seq<Timer>, fired: seq<Firing>, granted: seq<Timer>, t: Timer, now: int)
    requires Books(time, timers, fired, granted) && 0 <= time <= now && t.repeats >= 0
    ensures t.Start(now).expiry == now + t.timeout
    ensures Books(now, timers + [t.Start(now)], fired, granted + [t])
  {
    forall tag ensures Runs(fired, tag) + Owed(timers + [t.Start(now)], tag) == Owed(granted + [t], tag) {
      OwedSnoc(timers, t.Start(now), tag);
      OwedSnoc(granted, t, tag);
    }
  }

  // The timer at `k`, due and expiring first, runs once and leaves the queue, or is set again at `now`.
  lemma RunKeepsBooks(time: int, timers: seq<Timer>, fired: seq<Firing>, granted: seq<Timer>, k: nat, now: int)
    requires Books(time, timers, fired, granted) && k < |timers| && timers[k].expiry <= time && 0 <= time <= now
    requires forall t <- timers :: timers[k].expiry <= t.expiry
    ensures var (again, left) := timers[k].Repeat();
            var q := if again then Without(timers, k) + [left.Start(now)] else Without(timers, k);
            && Books(now, q, fired + [Firing(timers[k].tag, timers[k].expiry, time)], granted)
            && OwedInAll(q) == OwedInAll(timers) - 1
  {
    hide InOrder, Owed, OwedInAll, Runs;
    var (again, left) := timers[k].Repeat();
    var next := left.Start(now);
    var q := if again then Without(timers, k) + [next] else Without(timers, k);
    var f := Firing(timers[k].tag, timers[k].expiry, time);
    assert timers[k] in timers;
    OwedWithout(timers, k, 0);
    OwedSnoc(Without(timers, k), next, 0);
    RunCounted(timers, fired, k, q, next, f, again);
    OrderKept(timers, fired, k, q, next, f);
    assert forall t <- q :: t in timers || t == next;
  }

  // One run less is owed for the timer's tag, and one more has happened.
  lemma RunCounted(timers: seq<Timer>, fired: seq<Firing>, k: nat, q: seq<Timer>, next: Timer, f: Firing, again: bool)
    requires k < |timers| && f.tag == timers[k].tag == next.tag && next.repeats == timers[k].repeats - 1
    requires timers[k].repeats >= 0 && (again <==> timers[k].repeats > 0)
    requires q == if again then Without(timers, k) + [next] else Without(timers, k)
    ensures forall tag :: Runs(fired + [f], tag) + Owed(q, tag) == Runs(fired, tag) + Owed(timers, tag)
  {
    hide Owed, Runs;
    forall tag ensures Runs(fired + [f], tag) + Owed(q, tag) == Runs(fired, tag) + Owed(timers, tag) {
      OwedWithout(timers, k, tag);
      OwedSnoc(Without(timers, k), next, tag);
      RunsSnoc(fired, f, tag);
    }
  }

  lemma OrderKept(timers: seq<Timer>, fired: seq<Firing>, k: nat, q: seq<Timer>, next: Timer, f: Firing)
    requires k < |timers| && (q == Without(timers, k) || q == Without(timers, k) + [next])
    requires InOrder(fired) && f.expiry == timers[k].expiry <= f.at && f.expiry <= next.expiry
    requires forall g <- fired, t <- timers :: g.expiry <= t.expiry
    requires forall t <- timers :: timers[k].expiry <= t.expiry
    ensures InOrder(fired + [f])
    ensures forall g <- fired + [f], t <- q :: g.expiry <= t.expiry
  {
    forall t <- q ensures t in timers || t == next {
      if t != next { assert t in Without(timers, k); }
    }
    forall g <- fired + [f] ensures g in fired || g == f {}
    forall g <- fired ensures g.expiry <= f.expiry { assert timers[k] in timers; }
  }
}
