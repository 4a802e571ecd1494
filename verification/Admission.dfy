/** Read admission on a connection: a read runs on an in-flight permit it takes up front, or waits on
    an overflow slot and takes its permit on the worker. Permits release themselves when dropped. */
module Admission {
  import opened Bytes

  // ------------------------------------------------------------------ the semaphore

  /** What a waiter finds when it holds the lock: whether it is cancelled, and how many permits others hold. */
  datatype Round = Round(cancelled: bool, others: nat)

  /** How a wait ends, if it does; one that gives up signals another waiter or does not. */
  datatype Waited = Got | GaveUp(signals: bool) | Asleep

  class Semaphore {
    const capacity: nat
    var permits: nat
    /** Permits handed out and not returned. */
    ghost var held: nat

    ghost predicate Valid()
      reads this
    {
      permits + held == capacity >= 1
    }

    /** At least one permit, whatever the configuration says. */
    constructor (configured: nat)
      ensures Valid() && capacity == Max(configured, 1) && held == 0
    {
      capacity := Max(configured, 1);
      permits, held := Max(configured, 1), 0;
    }

    method TryAcquire() returns (taken: bool)
      requires Valid()
      modifies this
      ensures Valid() && (taken <==> old(held) < capacity)
      ensures held == old(held) + if taken then 1 else 0
    {
      if permits == 0 {
        return false;
      }
      permits, held := permits - 1, held + 1;
      return true;
    }

    /** Dropping a permit. */
    method Release()
      requires Valid() && held > 0
      modifies this
      ensures Valid() && held == old(held) - 1
    {
      permits, held := permits + 1, held - 1;
    }

    /** One pass of the cancellable wait: gives up once cancelled, signalling another waiter if that leaves a
        permit free, takes a permit if one is free, else sleeps. */
    method AcquireOrCancel(cancelled: bool) returns (taken: bool, waitOn: bool, signals: bool)
      requires Valid()
      modifies this
      ensures Valid() && (taken <==> !cancelled && old(held) < capacity)
      ensures waitOn <==> !cancelled && old(held) == capacity
      ensures signals <==> cancelled && old(held) < capacity
      ensures held == old(held) + if taken then 1 else 0
    {
      if cancelled {
        return false, false, permits > 0;
      }
      if permits > 0 {
        permits, held := permits - 1, held + 1;
        return true, false, false;
      }
      return false, true, false;
    }

    /** The whole wait, over what it finds each time it holds the lock: it ends at the first round where it
        is cancelled or a permit is free, and sleeps through all before. */
    method AcquireGuardOrCancel(rounds: seq<Round>) returns (r: Waited, round: nat)
      requires Valid() && forall i :: 0 <= i < |rounds| ==> rounds[i].others <= capacity
      modifies this
      ensures Valid() && round <= |rounds| && (r.Asleep? <==> round == |rounds|)
      ensures forall i :: 0 <= i < round ==> !rounds[i].cancelled && rounds[i].others == capacity
      ensures round < |rounds| ==>
                var free := rounds[round].others < capacity;
                && r == (if rounds[round].cancelled then GaveUp(free) else Got) && (r.Got? ==> free)
                && held == rounds[round].others + if r.Got? then 1 else 0
    {
      for i := 0 to |rounds|
        invariant Valid()
        invariant forall j :: 0 <= j < i ==> !rounds[j].cancelled && rounds[j].others == capacity
      {
        permits, held := capacity - rounds[i].others, rounds[i].others;
        var taken, waitOn, signals := AcquireOrCancel(rounds[i].cancelled);
        if taken { return Got, i; }
        if !waitOn { return GaveUp(signals), i; }
      }
      return Asleep, |rounds|;
    }
  }

  // ------------------------------------------------------------------ the protocol

  /** Where a read is: queued with a permit, queued or parked with a slot, holding both for the moment
      between acquiring the one and dropping the other, or running. */
  datatype Stage = Queued | Overflow | Upgrading | Running
  {
    predicate HoldsPermit() { Queued? || Upgrading? || Running? }
    predicate HoldsSlot() { Overflow? || Upgrading? }
  }

  /** What a read has taken and given back so far. */
  datatype Ledger = Ledger(tookPermit: nat, tookSlot: nat, gavePermit: nat, gaveSlot: nat)

  datatype State = State(
    capacity: nat, permits: nat, slots: nat,
    attempting: set<nat>, live: map<nat, Stage>, cancelled: set<nat>, ledgers: map<nat, Ledger>)

  /** Each step is one critical section of a semaphore, or one store. */
  datatype Step =
    | TryPermit(id: nat) // a fresh request tries for a permit
    | TrySlot(id: nat)   // and, having failed, for a slot; refused if there is none
    | Cancel(id: nat)
    | Start(id: nat)     // a worker picks up a read that has its permit
    | Acquire(id: nat)   // a worker gets the permit for an overflow read
    | FreeSlot(id: nat)
    | GiveUp(id: nat)    // cancelled while waiting
    | Finish(id: nat)
    | Drop(id: nat)      // the job is dropped where it is: shutdown, unwinding

  ghost predicate Enabled(s: State, step: Step) {
    var id := step.id;
    match step
    case TryPermit(_) => id !in s.ledgers
    case TrySlot(_) => id in s.attempting
    case Cancel(_) => true
    case Start(_) => id in s.live && s.live[id].Queued?
    case Acquire(_) => id in s.live && s.live[id].Overflow? && s.permits > 0
    case FreeSlot(_) => id in s.live && s.live[id].Upgrading?
    case GiveUp(_) => id in s.live && s.live[id].Overflow? && id in s.cancelled
    case Finish(_) => id in s.live && s.live[id].Running?
    case Drop(_) => id in s.live && !s.live[id].Upgrading?
  }

  function Initial(configured: nat): (s: State) {
    State(Max(configured, 1), Max(configured, 1), Max(configured, 1), {}, map[], {}, map[])
  }

  ghost function Apply(s: State, step: Step): (s': State)
    requires Enabled(s, step)
  {
    var id := step.id;
    match step
    case TryPermit(_) =>
      var entered := s.(ledgers := s.ledgers[id := Ledger(0, 0, 0, 0)]);
      if s.permits > 0 then Book(entered.(permits := s.permits - 1, live := s.live[id := Queued]), id, 1, 0, 0, 0)
      else entered.(attempting := s.attempting + {id})
    case TrySlot(_) =>
      var decided := s.(attempting := s.attempting - {id});
      if s.slots > 0 then Book(decided.(slots := s.slots - 1, live := s.live[id := Overflow]), id, 0, 1, 0, 0)
      else decided
    case Cancel(_) => s.(cancelled := s.cancelled + {id})
    case Start(_) => s.(live := s.live[id := Running])
    case Acquire(_) => Book(s.(permits := s.permits - 1, live := s.live[id := Upgrading]), id, 1, 0, 0, 0)
    case FreeSlot(_) => Book(s.(slots := s.slots + 1, live := s.live[id := Running]), id, 0, 0, 0, 1)
    case GiveUp(_) => Release(s, id)
    case Finish(_) => Release(s, id)
    case Drop(_) => Release(s, id)
  }

  /** Enters what a read takes and gives back in its ledger. */
  ghost function Book(s: State, id: nat, tookPermit: nat, tookSlot: nat, gavePermit: nat, gaveSlot: nat): (s': State) {
    if id !in s.ledgers then s
    else
      var l := s.ledgers[id];
      s.(ledgers := s.ledgers[id := Ledger(
        l.tookPermit + tookPermit, l.tookSlot + tookSlot, l.gavePermit + gavePermit, l.gaveSlot + gaveSlot)])
  }

  /** The read's guards are dropped: whatever it holds goes back, and the read is gone. */
  ghost function Release(s: State, id: nat): (s': State)
    requires id in s.live
  {
    var p, q := if s.live[id].HoldsPermit() then 1 else 0, if s.live[id].HoldsSlot() then 1 else 0;
    Book(s.(permits := s.permits + p, slots := s.slots + q, live := s.live - {id}), id, 0, 0, p, q)
  }

  // ------------------------------------------------------------------ what every run keeps

  ghost function PermitHolders(s: State): (ids: set<nat>) {
    set id | id in s.live && s.live[id].HoldsPermit()
  }

  ghost function SlotHolders(s: State): (ids: set<nat>) {
    set id | id in s.live && s.live[id].HoldsSlot()
  }

  /** The permit, and the slot, a read holds. */
  ghost function PermitOf(s: State, id: nat): (n: nat) {
    if id in s.live && s.live[id].HoldsPermit() then 1 else 0
  }

  ghost function SlotOf(s: State, id: nat): (n: nat) {
    if id in s.live && s.live[id].HoldsSlot() then 1 else 0
  }

  /** A read's books: at most one of each taken; what is out is what the stage holds; what is gone is
      settled. */
  ghost predicate Settles(s: State, id: nat) {
    id in s.ledgers ==>
      var l := s.ledgers[id];
      && l.tookPermit <= 1 && l.tookSlot <= 1
      && l.tookPermit == l.gavePermit + PermitOf(s, id)
      && l.tookSlot == l.gaveSlot + SlotOf(s, id)
      && (id in s.live && s.live[id].Overflow? ==> l.tookPermit == 0)
      && (id in s.attempting ==> id !in s.live && l == Ledger(0, 0, 0, 0))
  }

  /** Free plus held is the capacity, in both budgets. */
  ghost predicate Balanced(s: State) {
    && s.capacity >= 1
    && s.permits + |PermitHolders(s)| == s.capacity
    && s.slots + |SlotHolders(s)| == s.capacity
  }

  /** Every read's books are in order. */
  ghost predicate Booked(s: State) {
    && (forall id :: id in s.live || id in s.attempting ==> id in s.ledgers)
    && (forall id :: Settles(s, id))
  }

  ghost predicate Inv(s: State) {
    Balanced(s) && Booked(s)
  }

  /** Every step keeps both budgets balanced and every read's books in order. */
  lemma StepKeepsInv(s: State, step: Step)
    requires Inv(s) && Enabled(s, step)
    ensures Inv(Apply(s, step))
  {
    StepKeepsBalance(s, step);
    StepKeepsBooks(s, step);
  }

  lemma StepKeepsBooks(s: State, step: Step)
    requires Booked(s) && Enabled(s, step)
    ensures Booked(Apply(s, step))
  {
    var s' := Apply(s, step);
    assert Settles(s, step.id);
    forall other ensures Settles(s', other) {
      assert Settles(s, other);
    }
  }

  lemma StepKeepsBalance(s: State, step: Step)
    requires Inv(s) && Enabled(s, step)
    ensures Balanced(Apply(s, step))
  {
    var s', id := Apply(s, step), step.id;
    assert Settles(s, id) && (id in s.live || id in s.attempting ==> id in s.ledgers);
    hide Booked, PermitHolders, SlotHolders;
    Holders(s, s', id);
  }

  /** A step moves at most the read it names in or out of each set of holders. */
  lemma Holders(s: State, s': State, id: nat)
    requires forall other :: other != id ==> (other in s.live <==> other in s'.live)
    requires forall other :: other != id && other in s.live ==> s'.live[other] == s.live[other]
    ensures |PermitHolders(s')| - |PermitHolders(s)| == PermitOf(s', id) - PermitOf(s, id)
    ensures |SlotHolders(s')| - |SlotHolders(s)| == SlotOf(s', id) - SlotOf(s, id)
  {
    assert PermitHolders(s') - {id} == PermitHolders(s) - {id};
    assert SlotHolders(s') - {id} == SlotHolders(s) - {id};
    var a, b, c, d := PermitHolders(s), PermitHolders(s'), SlotHolders(s), SlotHolders(s');
    assert id in a <==> id in s.live && s.live[id].HoldsPermit();
    assert id in b <==> id in s'.live && s'.live[id].HoldsPermit();
    assert id in c <==> id in s.live && s.live[id].HoldsSlot();
    assert id in d <==> id in s'.live && s'.live[id].HoldsSlot();
    hide PermitHolders, SlotHolders;
    Moved(a, b, id);
    Moved(c, d, id);
  }

  lemma Moved(a: set<nat>, b: set<nat>, id: nat)
    requires b - {id} == a - {id}
    ensures |b| - |a| == (if id in b then 1 else 0) - (if id in a then 1 else 0)
  {
    Without(a, id);
    Without(b, id);
  }

  lemma Without(ids: set<nat>, id: nat)
    ensures |ids - {id}| == |ids| - if id in ids then 1 else 0
  {
    if id !in ids { assert ids - {id} == ids; }
  }

  /** Unfinished reads never exceed twice the budget. */
  lemma Bounded(s: State)
    requires Inv(s)
    ensures |s.live| <= 2 * s.capacity
  {
    assert s.live.Keys == PermitHolders(s) + SlotHolders(s);
    AtMostSum(PermitHolders(s), SlotHolders(s));
  }

  lemma AtMostSum(p: set<nat>, q: set<nat>)
    ensures |p + q| <= |p| + |q|
  {
    assert p + q == p + (q - p);
    Smaller(q - p, q);
  }

  lemma {:induction false} Smaller(a: set<nat>, b: set<nat>)
    requires a <= b
    ensures |a| <= |b|
    decreases |a|
  {
    if a != {} {
      var x :| x in a;
      Smaller(a - {x}, b - {x});
    }
  }

  // ------------------------------------------------------------------ runs

  ghost predicate StepAt(run: seq<State>, steps: seq<Step>, i: nat)
    requires i < |steps| && i + 1 < |run|
  {
    Enabled(run[i], steps[i]) && run[i + 1] == Apply(run[i], steps[i])
  }

  ghost predicate IsRun(run: seq<State>, steps: seq<Step>, configured: nat) {
    && |run| == |steps| + 1 && run[0] == Initial(configured)
    && forall i :: 0 <= i < |steps| ==> StepAt(run, steps, i)
  }

  /** Over every interleaving: free plus held is the capacity in both budgets, at most twice the
      capacity of reads is unfinished, and a read that is gone has given back exactly what it took,
      which was at most one permit and one slot. */
  lemma {:induction false} RunBalances(run: seq<State>, steps: seq<Step>, configured: nat, i: nat)
    requires IsRun(run, steps, configured) && i < |run|
    ensures Inv(run[i]) && run[i].capacity == Max(configured, 1) && |run[i].live| <= 2 * run[i].capacity
    ensures forall id :: id in run[i].ledgers && id !in run[i].live ==>
              var l := run[i].ledgers[id]; l.tookPermit == l.gavePermit <= 1 && l.tookSlot == l.gaveSlot <= 1
  {
    if i == 0 {
      var s := run[0];
      assert PermitHolders(s) == {} && SlotHolders(s) == {};
    } else {
      RunBalances(run, steps, configured, i - 1);
      assert StepAt(run, steps, i - 1);
      StepKeepsInv(run[i - 1], steps[i - 1]);
    }
    Bounded(run[i]);
    forall id | id in run[i].ledgers && id !in run[i].live
      ensures var l := run[i].ledgers[id]; l.tookPermit == l.gavePermit <= 1 && l.tookSlot == l.gaveSlot <= 1
    {
      assert Settles(run[i], id);
    }
  }

  /** With nothing unfinished, both budgets are whole again. */
  lemma IdleIsWhole(s: State)
    requires Inv(s) && s.live == map[]
    ensures s.permits == s.capacity && s.slots == s.capacity
  {
    assert PermitHolders(s) == {} && SlotHolders(s) == {};
  }

  /** The interleaving between the two attempts: a permit freed after a read failed to get one leaves that
      read in overflow while a permit is free. */
  lemma OverflowWithPermitFree(configured: nat)
    ensures var n := Max(configured, 1);
            exists run, steps :: IsRun(run, steps, configured) && |steps| == n + 3 && AwaitsFreePermit(run[|steps|], n)
  {
    var run, steps := Filled(configured, Max(configured, 1));
    var n := Max(configured, 1);
    run, steps := Extended(run, steps, configured, TryPermit(n));
    run, steps := Extended(run, steps, configured, Drop(0));
    run, steps := Extended(run, steps, configured, TrySlot(n));
    assert AwaitsFreePermit(run[|steps|], n);
  }

  ghost predicate AwaitsFreePermit(s: State, id: nat) {
    id in s.live && s.live[id].Overflow? && s.permits > 0
  }

  /** A run that takes `n` permits for reads `0..n`. */
  lemma Filled(configured: nat, n: nat) returns (run: seq<State>, steps: seq<Step>)
    requires n <= Max(configured, 1)
    ensures IsRun(run, steps, configured) && |steps| == n
    ensures var s := run[n];
            && s.permits == Max(configured, 1) - n && s.slots == Max(configured, 1)
            && (forall id :: id in s.live <==> 0 <= id < n) && (forall id :: id in s.ledgers <==> 0 <= id < n)
            && (forall id :: 0 <= id < n ==> s.live[id] == Queued)
  {
    if n == 0 {
      run, steps := [Initial(configured)], [];
    } else {
      run, steps := Filled(configured, n - 1);
      run, steps := Extended(run, steps, configured, TryPermit(n - 1));
    }
  }

  lemma Extended(run: seq<State>, steps: seq<Step>, configured: nat, step: Step)
    returns (run': seq<State>, steps': seq<Step>)
    requires IsRun(run, steps, configured) && Enabled(run[|steps|], step)
    ensures IsRun(run', steps', configured) && steps' == steps + [step]
    ensures run' == run + [Apply(run[|steps|], step)]
  {
    run', steps' := run + [Apply(run[|steps|], step)], steps + [step];
    forall i | 0 <= i < |steps'| ensures StepAt(run', steps', i) {
      if i < |steps| { assert StepAt(run, steps, i); }
    }
  }

  // ------------------------------------------------------------------ the budgets as the code holds them

  /** A connection's two read budgets. Each method is one critical section, and does to the semaphores what
      its step does to the protocol's state. */
  class ReadBudgets {
    const inflight: Semaphore
    const overflow: Semaphore
    ghost var state: State

    ghost predicate Valid()
      reads this, inflight, overflow
    {
      && inflight != overflow && inflight.Valid() && overflow.Valid() && Inv(state)
      && inflight.capacity == overflow.capacity == state.capacity
      && inflight.permits == state.permits && overflow.permits == state.slots
    }

    constructor (configured: nat)
      ensures Valid() && fresh(inflight) && fresh(overflow) && state == Initial(configured)
    {
      inflight := new Semaphore(configured);
      overflow := new Semaphore(configured);
      state := Initial(configured);
      new;
      assert PermitHolders(state) == {} && SlotHolders(state) == {};
    }

    /** The first attempt of `spawn_read`. */
    method TryPermitGuard(id: nat) returns (taken: bool)
      requires Valid() && Enabled(state, TryPermit(id))
      modifies this, inflight
      ensures Valid() && state == Apply(old(state), TryPermit(id))
      ensures taken <==> id in state.live
    {
      StepKeepsInv(state, TryPermit(id));
      assert Settles(state, id);
      taken := inflight.TryAcquire();
      state := Apply(state, TryPermit(id));
    }

    /** The second, after the first has failed. */
    method TrySlotGuard(id: nat) returns (taken: bool)
      requires Valid() && Enabled(state, TrySlot(id))
      modifies this, overflow
      ensures Valid() && state == Apply(old(state), TrySlot(id))
      ensures taken <==> id in state.live
    {
      StepKeepsInv(state, TrySlot(id));
      assert Settles(state, id);
      taken := overflow.TryAcquire();
      state := Apply(state, TrySlot(id));
    }

    /** One pass of an overflow read's wait for its permit. `cancelled` is the flag as this pass read it; on
        giving up, the slot is dropped. */
    method AwaitPermit(id: nat, cancelled: bool) returns (taken: bool, waitOn: bool)
      requires Valid() && id in state.live && state.live[id].Overflow? && (cancelled ==> id in state.cancelled)
      modifies this, inflight, overflow
      ensures Valid()
      ensures taken ==> old(state).permits > 0 && state == Apply(old(state), Acquire(id))
      ensures waitOn ==> state == old(state) && state.permits == 0
      ensures !taken && !waitOn ==> cancelled && state == Apply(old(state), GiveUp(id))
      ensures !(taken && waitOn)
    {
      Holding(state, id);
      var signals;
      taken, waitOn, signals := inflight.AcquireOrCancel(cancelled);
      if taken {
        StepKeepsInv(state, Acquire(id));
        state := Apply(state, Acquire(id));
      } else if !waitOn {
        StepKeepsInv(state, GiveUp(id));
        overflow.Release();
        state := Apply(state, GiveUp(id));
      }
    }

    /** The slot guard dropped once the permit is held. */
    method DropSlot(id: nat)
      requires Valid() && Enabled(state, FreeSlot(id))
      modifies this, overflow
      ensures Valid() && state == Apply(old(state), FreeSlot(id))
    {
      Holding(state, id);
      StepKeepsInv(state, FreeSlot(id));
      overflow.Release();
      state := Apply(state, FreeSlot(id));
    }

    /** A finished or dropped read's one guard goes back where it came from. */
    method DropGuard(id: nat, permit: bool)
      requires Valid() && Enabled(state, Drop(id)) && (permit <==> state.live[id].HoldsPermit())
      modifies this, inflight, overflow
      ensures Valid() && state == Apply(old(state), Drop(id))
    {
      Holding(state, id);
      StepKeepsInv(state, Drop(id));
      if permit {
        inflight.Release();
      } else {
        overflow.Release();
      }
      state := Apply(state, Drop(id));
    }
  }

  /** A read that holds something keeps it out of the free count. */
  lemma Holding(s: State, id: nat)
    requires Inv(s) && id in s.live
    ensures s.live[id].HoldsPermit() ==> s.permits < s.capacity
    ensures s.live[id].HoldsSlot() ==> s.slots < s.capacity
  {
    assert s.live[id].HoldsPermit() ==> id in PermitHolders(s);
    assert s.live[id].HoldsSlot() ==> id in SlotHolders(s);
  }
}
