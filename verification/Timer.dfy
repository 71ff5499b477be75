/** The sorted timer queue of kore-3.2.0/src/timer.c. */
module Timers {

  datatype Timer = Timer(id: nat, nextrun: nat, interval: nat, oneshot: bool)

  predicate Sorted(q: seq<Timer>) {
    forall i, j | 0 <= i < j < |q| :: q[i].nextrun <= q[j].nextrun
  }

  /** How many leading timers run at `n` or before. */
  function Rank(q: seq<Timer>, n: nat): (k: nat)
    ensures k <= |q|
    ensures forall i | 0 <= i < k :: q[i].nextrun <= n
    ensures k < |q| ==> q[k].nextrun > n
  {
    if q == [] || q[0].nextrun > n then 0 else 1 + Rank(q[1..], n)
  }

  /** The queue with `t` behind every timer that does not run later: ties keep their order. */
  function Insert(q: seq<Timer>, t: Timer): seq<Timer> {
    var k := Rank(q, t.nextrun);
    q[..k] + [t] + q[k..]
  }

  lemma LaterBehindRank(q: seq<Timer>, n: nat)
    requires Sorted(q)
    ensures forall i | Rank(q, n) <= i < |q| :: q[i].nextrun > n
  {
    hide Rank;
  }

  lemma InsertPositions(q: seq<Timer>, t: Timer)
    ensures
      var k, r := Rank(q, t.nextrun), Insert(q, t);
      && |r| == |q| + 1 && r[k] == t
      && (forall i | 0 <= i < k :: r[i] == q[i])
      && (forall i | k < i < |r| :: r[i] == q[i - 1])
  {
    hide Rank;
  }

  /** First come, first served: in a sorted queue a timer goes behind exactly those that run no later. */
  lemma InsertIsFair(q: seq<Timer>, t: Timer)
    requires Sorted(q)
    ensures exists k | 0 <= k <= |q| ::
              && Insert(q, t) == q[..k] + [t] + q[k..]
              && (forall i | 0 <= i < k :: q[i].nextrun <= t.nextrun)
              && (forall i | k <= i < |q| :: t.nextrun < q[i].nextrun)
  {
    LaterBehindRank(q, t.nextrun);
    hide Rank;
    var k := Rank(q, t.nextrun);
    assert Insert(q, t) == q[..k] + [t] + q[k..];
  }

  lemma InsertKeepsSorted(q: seq<Timer>, t: Timer)
    requires Sorted(q)
    ensures Sorted(Insert(q, t))
  {
    hide Insert, Rank;
    LaterBehindRank(q, t.nextrun);
    InsertPositions(q, t);
  }

  lemma InsertAdds(q: seq<Timer>, t: Timer)
    ensures multiset(Insert(q, t)) == multiset(q) + multiset{t}
  {
    hide Rank;
    var k := Rank(q, t.nextrun);
    assert q == q[..k] + q[k..];
  }

  /** After the due timers have run: each periodic one is queued again, in turn. */
  function Requeue(rest: seq<Timer>, due: seq<Timer>, now: nat): seq<Timer> {
    if due == [] then rest
    else
      var t := due[|due| - 1];
      var q := Requeue(rest, due[..|due| - 1], now);
      if t.oneshot then q else Insert(q, t.(nextrun := now + t.interval))
  }

  predicate Periodic(q: seq<Timer>) {
    forall i | 0 <= i < |q| :: q[i].oneshot || q[i].interval >= 1
  }

  predicate Later(q: seq<Timer>, now: nat) {
    forall i | 0 <= i < |q| :: q[i].nextrun > now
  }

  lemma InsertSound(q: seq<Timer>, t: Timer, now: nat)
    requires Sorted(q) && Later(q, now) && Periodic(q) && t.nextrun > now && t.interval >= 1
    ensures Sorted(Insert(q, t)) && Later(Insert(q, t), now) && Periodic(Insert(q, t))
  {
    hide Insert, Rank;
    InsertKeepsSorted(q, t);
    InsertPositions(q, t);
  }

  lemma {:induction false} RequeueSound(rest: seq<Timer>, due: seq<Timer>, now: nat)
    requires Sorted(rest) && Later(rest, now) && Periodic(rest) && Periodic(due)
    ensures Sorted(Requeue(rest, due, now)) && Later(Requeue(rest, due, now), now) && Periodic(Requeue(rest, due, now))
    decreases due
  {
    hide Insert, Sorted, Later;
    if due != [] {
      var init, t := due[..|due| - 1], due[|due| - 1];
      RequeueSound(rest, init, now);
      if !t.oneshot {
        InsertSound(Requeue(rest, init, now), t.(nextrun := now + t.interval), now);
      }
    }
  }

  /** The periodic ones of the due timers, with their next deadline. */
  function Rescheduled(due: seq<Timer>, now: nat): seq<Timer> {
    if due == [] then []
    else
      var t := due[|due| - 1];
      Rescheduled(due[..|due| - 1], now) + if t.oneshot then [] else [t.(nextrun := now + t.interval)]
  }

  lemma {:induction false} RescheduledConcat(a: seq<Timer>, b: seq<Timer>, now: nat)
    ensures Rescheduled(a + b, now) == Rescheduled(a, now) + Rescheduled(b, now)
    decreases b
  {
    if b == [] {
      assert a + b == a;
    } else {
      var n := |b| - 1;
      assert (a + b)[..|a| + n] == a + b[..n] && (a + b)[|a| + n] == b[n];
      RescheduledConcat(a, b[..n], now);
    }
  }

  /** A periodic timer runs again one interval after it ran, whenever it was due. */
  lemma {:induction false} PeriodicRunsAgain(due: seq<Timer>, now: nat)
    requires forall i | 0 <= i < |due| :: !due[i].oneshot
    ensures |Rescheduled(due, now)| == |due|
    ensures forall i | 0 <= i < |due| ::
              Rescheduled(due, now)[i] == Timer(due[i].id, now + due[i].interval, due[i].interval, false)
    decreases due
  {
    if due != [] {
      PeriodicRunsAgain(due[..|due| - 1], now);
    }
  }

  /** And a one-shot timer never does. */
  lemma {:induction false} OneshotRunsOnce(due: seq<Timer>, now: nat)
    requires forall i | 0 <= i < |due| :: due[i].oneshot
    ensures Rescheduled(due, now) == []
    decreases due
  {
    if due != [] {
      OneshotRunsOnce(due[..|due| - 1], now);
    }
  }

  /** Nothing is lost and nothing doubled: the queue afterwards holds what was not due and, once
      each, the periodic timers that were. */
  lemma {:induction false} RequeueKeeps(rest: seq<Timer>, due: seq<Timer>, now: nat)
    ensures multiset(Requeue(rest, due, now)) == multiset(rest) + multiset(Rescheduled(due, now))
    decreases due
  {
    if due != [] {
      hide Insert, Requeue, Rescheduled;
      var init, t := due[..|due| - 1], due[|due| - 1];
      assert init + [t] == due;
      RequeueKeeps(rest, init, now);
      KeepsOne(rest, init, t, now);
    }
  }

  lemma KeepsOne(rest: seq<Timer>, init: seq<Timer>, t: Timer, now: nat)
    requires multiset(Requeue(rest, init, now)) == multiset(rest) + multiset(Rescheduled(init, now))
    ensures multiset(Requeue(rest, init + [t], now)) == multiset(rest) + multiset(Rescheduled(init + [t], now))
  {
    hide Insert;
    var due := init + [t];
    assert due[..|due| - 1] == init;
    var q, r, u := Requeue(rest, init, now), Rescheduled(init, now), t.(nextrun := now + t.interval);
    if t.oneshot {
      assert r + [] == r;
    } else {
      InsertAdds(q, u);
    }
  }

  /** A timer that runs later than all due ones is inserted behind them. */
  lemma {:induction false} InsertBehindDue(due: seq<Timer>, q: seq<Timer>, t: Timer)
    requires forall i | 0 <= i < |due| :: due[i].nextrun <= t.nextrun
    ensures Insert(due + q, t) == due + Insert(q, t)
    decreases due
  {
    hide Insert;
    if due == [] {
      assert due + q == q && due + Insert(q, t) == Insert(q, t);
    } else {
      InsertBehindDue(due[1..], q, t);
      InsertBehindOne(due[0], due[1..] + q, t);
      assert due + q == [due[0]] + (due[1..] + q);
      assert due + Insert(q, t) == [due[0]] + (due[1..] + Insert(q, t));
    }
  }

  lemma InsertBehindOne(d: Timer, q: seq<Timer>, t: Timer)
    requires d.nextrun <= t.nextrun
    ensures Insert([d] + q, t) == [d] + Insert(q, t)
  {
    var r := [d] + q;
    assert r[1..] == q;
    var k := Rank(q, t.nextrun);
    assert Rank(r, t.nextrun) == k + 1;
    assert r[..k + 1] == [d] + q[..k] && r[k + 1..] == q[k..];
    assert [d] + q[..k] + [t] + q[k..] == [d] + (q[..k] + [t] + q[k..]);
  }

  class TimerQueue {
    var timers: seq<Timer>
    /** The callbacks made, in order. */
    var fired: seq<Timer>

    /** Sorted by nextrun, and periodic timers have an interval. */
    ghost predicate Valid()
      reads this
    {
      Sorted(timers) && Periodic(timers)
    }

    /** `kore_timer_init` */
    constructor ()
      ensures Valid() && timers == [] && fired == []
    {
      timers, fired := [], [];
    }

    /** The TAILQ_FOREACH that finds a timer's place, and the insertion. */
    method Place(timer: Timer)
      modifies this`timers
      ensures timers == Insert(old(timers), timer)
    {
      var k := 0;
      while k < |timers| && timers[k].nextrun <= timer.nextrun
        invariant k <= |timers| && timers == old(timers)
        invariant Rank(timers, timer.nextrun) == k + Rank(timers[k..], timer.nextrun)
      {
        assert timers[k..][1..] == timers[k + 1..];
        k := k + 1;
      }
      assert k == |timers| ==> timers[k..] == [];
      timers := timers[..k] + [timer] + timers[k..];
    }

    /** `kore_timer_add` */
    method Add(now: nat, id: nat, interval: nat, oneshot: bool) returns (timer: Timer)
      requires Valid() && (oneshot || interval >= 1)
      modifies this`timers
      ensures Valid() && timer == Timer(id, now + interval, interval, oneshot)
      ensures timers == Insert(old(timers), timer)
    {
      timer := Timer(id, now + interval, interval, oneshot);
      InsertKeepsSorted(timers, timer);
      Place(timer);
    }

    /** One turn of kore_timer_run, on the first due timer of `due`. */
    method Fire(now: nat, ghost due: seq<Timer>, ghost queued: seq<Timer>) returns (timer: Timer)
      requires due != [] && timers == due + queued
      requires forall k | 0 <= k < |due| :: due[k].nextrun <= now
      modifies this
      ensures timer == due[0] && fired == old(fired) + [timer]
      ensures timers == due[1..] +
                if timer.oneshot then queued else Insert(queued, timer.(nextrun := now + timer.interval))
    {
      hide Insert;
      timer := timers[0];
      timers := timers[1..];
      assert timers == due[1..] + queued;
      fired := fired + [timer];
      if !timer.oneshot {
        InsertBehindDue(due[1..], queued, timer.(nextrun := now + timer.interval));
        Place(timer.(nextrun := now + timer.interval));
      }
    }

    /** The loop of kore_timer_run. */
    method FireAll(now: nat, ghost due: seq<Timer>, ghost rest: seq<Timer>)
      requires timers == due + rest && Sorted(rest) && Later(rest, now) && Periodic(rest) && Periodic(due)
      requires forall k | 0 <= k < |due| :: due[k].nextrun <= now
      modifies this
      ensures fired == old(fired) + due && timers == Requeue(rest, due, now)
    {
      hide Insert, Sorted, Periodic;
      ghost var i := 0;
      assert due[0..] == due && due[..0] == [];
      while timers != [] && timers[0].nextrun <= now
        invariant 0 <= i <= |due| && timers == due[i..] + Requeue(rest, due[..i], now)
        invariant fired == old(fired) + due[..i] && Later(Requeue(rest, due[..i], now), now)
        decreases |due| - i
      {
        ghost var queued := Requeue(rest, due[..i], now);
        HeadIsDue(due, i, queued, now);
        var timer := Fire(now, due[i..], queued);
        assert due[..i + 1][..i] == due[..i] && due[i..][1..] == due[i + 1..];
        PeriodicPrefix(due, i + 1);
        RequeueSound(rest, due[..i + 1], now);
        i := i + 1;
      }
      HeadIsDue(due, i, Requeue(rest, due[..i], now), now);
      assert due[..i] == due && due[i..] == [];
      assert timers == Requeue(rest, due, now);
    }

    /** `kore_timer_run`: fires every due timer exactly once, in queue order, leaves the periodic
        ones queued again and only later timers behind, and returns a wait that does not pass the
        next deadline. */
    method Run(now: nat) returns (wait: nat)
      requires Valid()
      modifies this
      ensures Valid() && Later(timers, now)
      ensures
        var d := Rank(old(timers), now);
        && fired == old(fired) + old(timers)[..d]
        && timers == Requeue(old(timers)[d..], old(timers)[..d], now)
      ensures timers != [] ==> 1 <= wait && now + wait <= timers[0].nextrun <= now + wait + 1
      ensures timers == [] ==> wait == 999
    {
      hide Requeue, Rank;
      ghost var d := Rank(timers, now);
      LaterBehindRank(timers, now);
      assert timers == timers[..d] + timers[d..];
      RequeueSound(timers[d..], timers[..d], now);
      FireAll(now, timers[..d], timers[d..]);
      wait := 1000;
      if timers != [] {
        wait := timers[0].nextrun - now;
      }
      if wait > 1 {
        wait := wait - 1;
      }
    }
  }

  lemma HeadIsDue(due: seq<Timer>, i: nat, queued: seq<Timer>, now: nat)
    requires i <= |due| && forall k | 0 <= k < |due| :: due[k].nextrun <= now
    ensures i < |due| ==> due[i..] + queued != [] && (due[i..] + queued)[0].nextrun <= now
    ensures i == |due| ==> due[i..] + queued == queued
  {
  }

  lemma PeriodicPrefix(q: seq<Timer>, n: nat)
    requires Periodic(q) && n <= |q|
    ensures Periodic(q[..n])
  {
  }
}
