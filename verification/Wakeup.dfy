/** The waiters of a semaphore: who sleeps, who is awake, and the wake-ups on their way. A release signals
    after it has let go of the lock, and a waiter that gives up passes on the signal it may have used. */
module Wakeup {
  import opened Bytes
  import Admission

  /** `awake` waiters are about to take the lock and look; `parked` ones sleep on the condition variable;
      `notices` releases have returned their permit and not signalled yet. */
  datatype Waits = Waits(capacity: nat, permits: nat, awake: set<nat>, parked: set<nat>, notices: nat)

  datatype Step =
    | Arrive(id: nat)
    | Take(id: nat)                        // finds a permit free
    | Park(id: nat)                        // finds none
    | Decline(id: nat, wakes: Option<nat>) // is cancelled; with a permit free, signals another
    | Stir(id: nat)                        // the poll interval runs out, or the wake-up is spurious
    | TryTake                              // a caller that does not wait
    | Release
    | Signal(wakes: Option<nat>)           // what a release does last

  /** `notify_one` wakes one sleeper, any of them, if there is one. */
  predicate Notifies(w: Waits, wakes: Option<nat>) {
    if w.parked == {} then wakes.None? else wakes.Some? && wakes.value in w.parked
  }

  predicate Enabled(w: Waits, step: Step) {
    match step
    case Arrive(id) => id !in w.awake && id !in w.parked
    case Take(id) => id in w.awake && w.permits > 0
    case Park(id) => id in w.awake && w.permits == 0
    case Decline(id, wakes) => id in w.awake && if w.permits > 0 then Notifies(w, wakes) else wakes.None?
    case Stir(id) => id in w.parked
    case TryTake => w.permits > 0
    case Release => w.permits < w.capacity
    case Signal(wakes) => w.notices > 0 && Notifies(w, wakes)
  }

  function Woken(w: Waits, wakes: Option<nat>): (w': Waits) {
    if wakes.None? then w else w.(awake := w.awake + {wakes.value}, parked := w.parked - {wakes.value})
  }

  function Apply(w: Waits, step: Step): (w': Waits)
    requires Enabled(w, step)
  {
    match step
    case Arrive(id) => w.(awake := w.awake + {id})
    case Take(id) => w.(permits := w.permits - 1, awake := w.awake - {id})
    case Park(id) => w.(awake := w.awake - {id}, parked := w.parked + {id})
    case Decline(id, wakes) => Woken(w.(awake := w.awake - {id}), wakes)
    case Stir(id) => Woken(w, Some(id))
    case TryTake => w.(permits := w.permits - 1)
    case Release => w.(permits := w.permits + 1, notices := w.notices + 1)
    case Signal(wakes) => Woken(w.(notices := w.notices - 1), wakes)
  }

  /** While anyone sleeps, every free permit has a waiter awake or a signal on its way. */
  ghost predicate Inv(w: Waits) {
    && w.awake !! w.parked && w.permits <= w.capacity
    && (w.parked != {} ==> w.permits <= |w.awake| + w.notices)
  }

  lemma StepKeepsInv(w: Waits, step: Step)
    requires Inv(w) && Enabled(w, step)
    ensures Inv(Apply(w, step))
  {
    var w' := Apply(w, step);
    match step
    case Decline(id, wakes) =>
      assert |w.awake - {id}| == |w.awake| - 1;
      if wakes.Some? { assert |(w.awake - {id}) + {wakes.value}| == |w.awake|; }
    case Signal(wakes) =>
      if wakes.Some? { assert |w.awake + {wakes.value}| == |w.awake| + 1; }
    case Take(id) => assert |w.awake - {id}| == |w.awake| - 1;
    case Arrive(id) => assert |w.awake + {id}| == |w.awake| + 1;
    case Stir(id) => assert |w.awake + {id}| == |w.awake| + 1;
    case _ =>
  }

  ghost predicate IsRun(run: seq<Waits>) {
    && run != [] && run[0] == Waits(run[0].capacity, run[0].capacity, {}, {}, 0)
    && forall i :: 0 <= i < |run| - 1 ==> Follows(run[i], run[i + 1])
  }

  ghost predicate Follows(w: Waits, w': Waits) {
    exists step :: Enabled(w, step) && w' == Apply(w, step)
  }

  /** In every state of every run, no waiter sleeps beside a free permit unless someone is awake to take it or
      a signal is on its way. */
  lemma {:induction false} NoLostWakeup(run: seq<Waits>, i: nat)
    requires IsRun(run) && i < |run|
    ensures Inv(run[i])
    ensures run[i].parked != {} && run[i].awake == {} && run[i].notices == 0 ==> run[i].permits == 0
  {
    if i > 0 {
      NoLostWakeup(run, i - 1);
      assert Follows(run[i - 1], run[i - 1 + 1]);
      var step :| Enabled(run[i - 1], step) && run[i] == Apply(run[i - 1], step);
      StepKeepsInv(run[i - 1], step);
    }
  }

  lemma Fresh(capacity: nat) returns (run: seq<Waits>)
    ensures IsRun(run) && |run| > 0 && run[|run| - 1] == Waits(capacity, capacity, {}, {}, 0)
  {
    run := [Waits(capacity, capacity, {}, {}, 0)];
  }

  lemma Extend(run: seq<Waits>, step: Step) returns (more: seq<Waits>)
    requires IsRun(run) && |run| > 0 && Enabled(run[|run| - 1], step)
    ensures IsRun(more) && |more| > 0 && more[|more| - 1] == Apply(run[|run| - 1], step)
  {
    more := run + [Apply(run[|run| - 1], step)];
    forall i | 0 <= i < |more| - 1 ensures Follows(more[i], more[i + 1]) {
      if i < |run| - 1 { assert Follows(run[i], run[i + 1]); }
    }
  }

  /** Why a waiter that gives up must signal: one permit, held while two waiters go to sleep; its release
      wakes the first, which is cancelled. Leaving without a signal, it leaves the second asleep beside the
      free permit. */
  lemma SilentDeclineStrands() returns (run: seq<Waits>)
    ensures IsRun(run) && |run| > 0
    ensures var last := run[|run| - 1];
            && 1 in last.awake && last.permits == 1 && last.parked == {2} && last.notices == 0
            && !Inv(last.(awake := last.awake - {1}))
            && Apply(last, Decline(1, Some(2))) == Waits(1, 1, {2}, {}, 0)
  {
    hide IsRun;
    run := Fresh(1);
    run := Extend(run, TryTake);
    run := Extend(run, Arrive(1));
    run := Extend(run, Park(1));
    run := Extend(run, Arrive(2));
    run := Extend(run, Park(2));
    run := Extend(run, Release);
    run := Extend(run, Signal(Some(1)));
    assert run[|run| - 1].awake == {1} && run[|run| - 1].parked == {2};
  }

  // ------------------------------------------------------------------ the semaphore follows

  /** A semaphore with its waiters: each locked pass of it is the step of that name. */
  class Waiters {
    const semaphore: Admission.Semaphore
    ghost var waits: Waits

    ghost predicate Valid()
      reads this, semaphore
    {
      && semaphore.Valid() && Inv(waits)
      && semaphore.permits == waits.permits && semaphore.capacity == waits.capacity
    }

    constructor (configured: nat)
      ensures Valid() && fresh(semaphore)
      ensures waits == Waits(Max(configured, 1), Max(configured, 1), {}, {}, 0)
    {
      semaphore := new Admission.Semaphore(configured);
      waits := Waits(Max(configured, 1), Max(configured, 1), {}, {}, 0);
    }

    /** One pass of waiter `id`; `wakes` is the sleeper its signal would reach. */
    method Look(id: nat, cancelled: bool, ghost wakes: Option<nat>) returns (r: Admission.Waited)
      requires Valid() && id in waits.awake && Notifies(waits, wakes)
      modifies this, semaphore
      ensures Valid()
      ensures (r.GaveUp? <==> cancelled) && (r.GaveUp? ==> (r.signals <==> old(waits).permits > 0))
      ensures r.GaveUp? ==> waits == Apply(old(waits), Decline(id, if r.signals then wakes else None))
      ensures r.Got? ==> old(waits).permits > 0 && waits == Apply(old(waits), Take(id))
      ensures r.Asleep? ==> old(waits).permits == 0 && waits == Apply(old(waits), Park(id))
    {
      var taken, waitOn, signals := semaphore.AcquireOrCancel(cancelled);
      ghost var step := if taken then Take(id) else if waitOn then Park(id)
                        else Decline(id, if signals then wakes else None);
      StepKeepsInv(waits, step);
      waits := Apply(waits, step);
      return if taken then Admission.Got else if waitOn then Admission.Asleep else Admission.GaveUp(signals);
    }

    method Try() returns (taken: bool)
      requires Valid()
      modifies this, semaphore
      ensures Valid() && (taken <==> old(waits).permits > 0)
      ensures waits == if taken then Apply(old(waits), TryTake) else old(waits)
    {
      taken := semaphore.TryAcquire();
      if taken {
        StepKeepsInv(waits, TryTake);
        waits := Apply(waits, TryTake);
      }
    }

    /** Gives a permit back; the signal follows once the lock is let go. */
    method Return()
      requires Valid() && semaphore.held > 0
      modifies this, semaphore
      ensures Valid() && waits == Apply(old(waits), Release)
    {
      semaphore.Release();
      StepKeepsInv(waits, Release);
      waits := Apply(waits, Release);
    }
  }
}
