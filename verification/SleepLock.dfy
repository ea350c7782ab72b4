/**
 Sleep locks (kernel/sleeplock.c) over sleep and wakeup (kernel/proc.c), as the
 interleaved steps of any number of processes.  Each step is one lock operation
 or one access under a lock; p->lock is held and handed over as sched and the
 scheduler do.
 */
module SleepLock {
  import opened Common

  /** Where a process is. */
  datatype Pc =
    | Outside           // not using the lock
    | Trying            // acquiresleep, about to acquire lk->lk
    | Looking           // holds lk->lk, about to test lk->locked
    | Resting           // sleep: holds lk->lk, about to acquire its p->lock
    | Letting           // sleep: holds both, about to release lk->lk
    | Dozing            // sleep: holds p->lock, about to become SLEEPING
    | Switching         // SLEEPING; sched has not yet let go of p->lock
    | Away              // off the CPU; runs again once it is RUNNABLE
    | Back              // scheduled again, holds p->lock
    | Holding           // has the sleep lock
    | Releasing         // releasesleep: holds lk->lk, about to clear lk->locked
    | Waking(j: nat)    // wakeup: about to acquire the lock of process j
    | Waker(j: nat)     // wakeup: holds the lock of process j
  {
    /** Code of acquiresleep. */
    predicate Acquiring() {
      Trying? || Looking? || Resting? || Letting? || Dozing? || Switching? || Away? || Back?
    }

    /** Code of sleep before the process is SLEEPING. */
    predicate Settling() { Resting? || Letting? || Dozing? }
  }

  /** lk and plock name the holders of the spinlocks; asleep is SLEEPING on this lock. */
  datatype State = State(lk: int, plock: seq<int>, locked: bool, asleep: seq<bool>, pc: seq<Pc>) {

    ghost predicate Enabled(p: nat) {
      && p < |pc| == |plock| == |asleep|
      && match pc[p] {
           case Trying => lk == NOBODY
           case Resting => plock[p] == NOBODY
           case Away => !asleep[p] && plock[p] == NOBODY
           case Holding => lk == NOBODY
           case Waking(j) => j < |pc| && j != p ==> plock[j] == NOBODY
           case _ => true
         }
    }

    /** The next step of process p. */
    ghost function Next(p: nat): (s: State)
      requires Enabled(p)
    {
      match pc[p]
      case Outside => this.(pc := pc[p := Trying])
      case Trying => this.(lk := p, pc := pc[p := Looking])
      case Looking =>
        if locked then this.(pc := pc[p := Resting])
        else this.(locked := true, lk := NOBODY, pc := pc[p := Holding])
      case Resting => this.(plock := plock[p := p], pc := pc[p := Letting])
      case Letting => this.(lk := NOBODY, pc := pc[p := Dozing])
      case Dozing => this.(asleep := asleep[p := true], pc := pc[p := Switching])
      case Switching => this.(plock := plock[p := NOBODY], pc := pc[p := Away])
      case Away => this.(plock := plock[p := p], pc := pc[p := Back])
      case Back => this.(plock := plock[p := NOBODY], pc := pc[p := Trying])
      case Holding => this.(lk := p, pc := pc[p := Releasing])
      case Releasing => this.(locked := false, pc := pc[p := Waking(0)])
      case Waking(j) =>
        if j >= |pc| then this.(lk := NOBODY, pc := pc[p := Outside])
        else if j == p then this.(pc := pc[p := Waking(j + 1)])
        else this.(plock := plock[j := p], pc := pc[p := Waker(j)])
      case Waker(j) =>
        if j >= |pc| then this
        else this.(asleep := asleep[j := false], plock := plock[j := NOBODY], pc := pc[p := Waking(j + 1)])
    }

    /** kill may wake any process whose lock is free. */
    ghost predicate Killable(p: nat) {
      p < |pc| == |plock| == |asleep| && plock[p] == NOBODY && asleep[p]
    }

    ghost function Killed(p: nat): (s: State)
      requires Killable(p)
    {
      this.(asleep := asleep[p := false])
    }

    // ----------------------------------------------------------------
    // The invariant

    ghost predicate InLk(p: nat)
      requires p < |pc|
    {
      pc[p].Looking? || pc[p].Resting? || pc[p].Letting? || pc[p].Releasing? || pc[p].Waking? || pc[p].Waker?
    }

    /** p has decided to sleep and let go of lk->lk. */
    ghost predicate Committed(p: nat)
      requires p < |pc| == |asleep|
    {
      pc[p].Dozing? || pc[p].Switching? || (pc[p].Away? && asleep[p])
    }

    /** q is in wakeup and has yet to look at p. */
    ghost predicate WillWake(q: int, p: nat) {
      0 <= q < |pc| && ((pc[q].Waking? && pc[q].j <= p) || (pc[q].Waker? && pc[q].j <= p))
    }

    /** lk->lk is held exactly where the code holds it, and a process rests only while the lock is held. */
    ghost predicate LkAt(p: nat) {
      p < |pc| ==> (InLk(p) <==> lk == p) && (pc[p].Resting? || pc[p].Letting? ==> locked)
    }

    /** p->lock is held by p where the code holds it, or by a process that is looking at p. */
    ghost predicate PlockAt(p: nat)
      requires |pc| == |plock|
    {
      p < |pc| ==>
        && (plock[p] == p <==> pc[p].Letting? || pc[p].Dozing? || pc[p].Switching? || pc[p].Back?)
        && (plock[p] != NOBODY && plock[p] != p ==> 0 <= plock[p] < |pc| && pc[plock[p]] == Waker(p))
    }

    ghost predicate WakerAt(p: nat)
      requires |pc| == |plock|
    {
      p < |pc| && pc[p].Waker? ==> pc[p].j < |pc| && pc[p].j != p && plock[pc[p].j] == p
    }

    ghost predicate SleepAt(p: nat)
      requires |pc| == |asleep|
    {
      p < |pc| && asleep[p] ==> pc[p].Switching? || pc[p].Away?
    }

    ghost predicate Locks()
      requires |pc| == |plock| == |asleep|
    {
      (forall p :: LkAt(p)) && (forall p :: PlockAt(p)) && (forall p :: WakerAt(p)) && (forall p :: SleepAt(p))
    }

    /** Whoever sleeps while the lock is not held is about to be woken by the holder of lk->lk. */
    ghost predicate WokenAt(p: nat)
      requires |pc| == |asleep|
    {
      p < |pc| && Committed(p) && !locked ==> WillWake(lk, p)
    }

    /** The sleep lock has one holder at most. */
    ghost predicate AloneAt(p: nat, q: nat) {
      p < |pc| && q < |pc| && Has(p) && Has(q) ==> p == q && locked
    }

    ghost predicate Has(p: nat)
      requires p < |pc|
    {
      pc[p].Holding? || pc[p].Releasing?
    }

    ghost predicate Inv() {
      && |pc| == |plock| == |asleep| && lk >= NOBODY
      && Locks() && (forall p :: WokenAt(p)) && (forall p, q :: AloneAt(p, q))
    }

    /** locked is set exactly while some process has the lock. */
    ghost predicate Taken() {
      locked ==> exists p :: HasIt(p)
    }

    ghost predicate HasIt(p: nat) {
      p < |pc| && Has(p)
    }

    lemma StepTaken(p: nat)
      requires Inv() && Taken() && Enabled(p)
      ensures Next(p).Taken()
    {
      var s := Next(p);
      assert AloneAt(p, p);
      if s.locked {
        if pc[p].Looking? && !locked {
          assert s.HasIt(p);
        } else {
          var q: nat :| HasIt(q);
          assert AloneAt(q, p);
          assert s.HasIt(q);
        }
      }
    }

    lemma KillTaken(p: nat)
      requires Taken() && Killable(p)
      ensures Killed(p).Taken()
    {
      if locked {
        var q: nat :| HasIt(q);
        assert Killed(p).HasIt(q);
      }
    }

    lemma StepLk(p: nat, r: nat)
      requires Inv() && Enabled(p)
      ensures Next(p).LkAt(r)
    {
      assert LkAt(p) && LkAt(r) && AloneAt(p, p);
    }

    /** What the invariant says about the lock of r while p moves. */
    lemma Plocks(p: nat, r: nat)
      requires Inv() && p < |pc|
      ensures |pc| == |plock| && PlockAt(p) && PlockAt(r) && WakerAt(p) && (pc[p].Waker? ==> PlockAt(pc[p].j))
    {
    }

    lemma WakingPlock(p: nat, r: nat)
      requires Inv() && Enabled(p) && (pc[p].Waking? || pc[p].Waker?)
      ensures |Next(p).pc| == |Next(p).plock| && Next(p).PlockAt(r)
    {
      hide State.Inv;
      Plocks(p, r);
    }

    lemma SleepingPlock(p: nat, r: nat)
      requires Inv() && Enabled(p) && (pc[p].Resting? || pc[p].Letting? || pc[p].Dozing? || pc[p].Switching?)
      ensures |Next(p).pc| == |Next(p).plock| && Next(p).PlockAt(r)
    {
      hide State.Inv;
      Plocks(p, r);
    }

    lemma StepPlock(p: nat, r: nat)
      requires Inv() && Enabled(p)
      ensures |Next(p).pc| == |Next(p).plock| && Next(p).PlockAt(r)
    {
      hide State.Inv;
      Plocks(p, r);
      match pc[p] {
        case Waking(_) => WakingPlock(p, r);
        case Waker(_) => WakingPlock(p, r);
        case Resting => SleepingPlock(p, r);
        case Letting => SleepingPlock(p, r);
        case Dozing => SleepingPlock(p, r);
        case Switching => SleepingPlock(p, r);
        case _ =>
      }
    }

    lemma StepWaker(p: nat, r: nat)
      requires Inv() && Enabled(p)
      ensures |Next(p).pc| == |Next(p).plock| && Next(p).WakerAt(r)
    {
      assert PlockAt(p) && WakerAt(p) && WakerAt(r) && LkAt(p) && LkAt(r);
    }

    lemma StepSleep(p: nat, r: nat)
      requires Inv() && Enabled(p)
      ensures |Next(p).pc| == |Next(p).asleep| && Next(p).SleepAt(r)
    {
      assert SleepAt(p) && SleepAt(r);
    }

    lemma StepWoken(p: nat, r: nat)
      requires Inv() && Enabled(p)
      ensures |Next(p).pc| == |Next(p).asleep| && Next(p).WokenAt(r)
    {
      assert LkAt(p) && LkAt(r) && WokenAt(r) && WokenAt(p) && WakerAt(p) && PlockAt(r) && SleepAt(r);
    }

    lemma StepAlone(p: nat, q: nat, r: nat)
      requires Inv() && Enabled(p)
      ensures Next(p).AloneAt(q, r)
    {
      assert AloneAt(q, r) && LkAt(p) && AloneAt(p, q) && AloneAt(p, r);
      assert AloneAt(q, q) && AloneAt(r, r);
    }

    lemma StepKeeps(p: nat)
      requires Inv() && Enabled(p)
      ensures Next(p).Inv()
    {
      var s := Next(p);
      StepSleep(p, p);
      forall r: nat ensures s.LkAt(r) && s.PlockAt(r) && s.WakerAt(r) && s.SleepAt(r) && s.WokenAt(r) {
        StepLk(p, r);
        StepPlock(p, r);
        StepWaker(p, r);
        StepSleep(p, r);
        StepWoken(p, r);
      }
      forall q: nat, r: nat ensures s.AloneAt(q, r) {
        StepAlone(p, q, r);
      }
    }

    lemma KillKeeps(p: nat)
      requires Inv() && Killable(p)
      ensures Killed(p).Inv()
    {
      var s := Killed(p);
      forall r: nat ensures s.LkAt(r) && s.PlockAt(r) && s.WakerAt(r) && s.SleepAt(r) && s.WokenAt(r) {
        assert LkAt(r) && PlockAt(r) && WakerAt(r) && SleepAt(r) && WokenAt(r);
      }
      forall q: nat, r: nat ensures s.AloneAt(q, r) {
        assert AloneAt(q, r);
      }
    }
  }

  // ------------------------------------------------------------------
  // Runs

  ghost predicate Init(s: State) {
    && |s.pc| == |s.plock| == |s.asleep| && s.lk == NOBODY && !s.locked
    && forall p :: 0 <= p < |s.pc| ==> s.pc[p].Outside? && s.plock[p] == NOBODY && !s.asleep[p]
  }

  ghost predicate Step(s: State, s': State) {
    exists p :: (s.Enabled(p) && s' == s.Next(p)) || (s.Killable(p) && s' == s.Killed(p))
  }

  ghost predicate StepAt(run: seq<State>, i: nat) {
    i + 1 < |run| ==> Step(run[i], run[i + 1])
  }

  ghost predicate Run(run: seq<State>) {
    |run| > 0 && Init(run[0]) && forall i :: StepAt(run, i)
  }

  lemma {:induction false} RunInv(run: seq<State>, i: nat)
    requires Run(run) && i < |run|
    ensures run[i].Inv() && run[i].Taken()
  {
    hide State.Inv, State.Taken, State.Next;
    if i == 0 {
      InitInv(run[0]);
    } else {
      RunInv(run, i - 1);
      assert StepAt(run, i - 1);
      var s := run[i - 1];
      var p: nat :| (s.Enabled(p) && run[i] == s.Next(p)) || (s.Killable(p) && run[i] == s.Killed(p));
      if s.Enabled(p) && run[i] == s.Next(p) {
        s.StepKeeps(p);
        s.StepTaken(p);
      } else {
        s.KillKeeps(p);
        s.KillTaken(p);
      }
    }
  }

  lemma InitInv(s: State)
    requires Init(s)
    ensures s.Inv() && s.Taken()
  {
  }

  /** In every state of every run: with both locks free nobody sleeps on the lock, and one at most holds it. */
  lemma NoLostWakeup(run: seq<State>, i: nat)
    requires Run(run) && i < |run|
    ensures run[i].lk == NOBODY && !run[i].locked ==> forall p :: 0 <= p < |run[i].asleep| ==> !run[i].asleep[p]
    ensures forall p, q :: run[i].AloneAt(p, q)
  {
    RunInv(run, i);
    var s := run[i];
    forall p: nat | p < |s.asleep| && s.lk == NOBODY && !s.locked ensures !s.asleep[p] {
      assert s.SleepAt(p) && s.WokenAt(p);
    }
  }

  /**
   In every state of every run: acquiresleep ends, with the lock, exactly when
   it finds that nobody has it; if somebody has it, the process goes to sleep.
   */
  lemma AcquireOutcome(run: seq<State>, i: nat, p: nat)
    requires Run(run) && i < |run| && run[i].Enabled(p) && run[i].pc[p].Acquiring()
    ensures var s, s' := run[i], run[i].Next(p);
            && p < |s'.pc| && (s'.pc[p].Holding? || s'.pc[p].Acquiring())
            && (s'.pc[p].Holding? <==> s.pc[p].Looking? && forall q :: !s.HasIt(q))
            && (s.pc[p].Looking? && !s'.pc[p].Holding? ==> s'.pc[p].Settling())
  {
    RunInv(run, i);
    var s := run[i];
    if q :| s.HasIt(q) {
      assert s.AloneAt(q, q);
    }
  }

  /** releasesleep takes the lock from whoever calls it, and nobody has it then. */
  lemma ReleaseOutcome(run: seq<State>, i: nat, p: nat)
    requires Run(run) && i < |run| && run[i].Enabled(p) && run[i].pc[p].Releasing?
    ensures forall q :: !run[i].Next(p).HasIt(q)
  {
    RunInv(run, i);
    forall q ensures !run[i].Next(p).HasIt(q) {
      assert run[i].AloneAt(p, q);
    }
  }

  lemma OwnSettling(s: State, p: nat)
    requires s.Enabled(p) && s.pc[p].Settling()
    ensures var s' := s.Next(p); |s'.pc| == |s'.asleep| == |s.pc| && (s'.pc[p].Settling() || s'.asleep[p])
  {
  }

  /** A step of q moves no other process along. */
  lemma OtherPc(s: State, q: nat, p: nat)
    requires s.Enabled(q) && p < |s.pc| && p != q
    ensures var s' := s.Next(q); |s'.pc| == |s'.asleep| == |s.pc| && s'.pc[p] == s.pc[p]
  {
  }

  lemma SettlingStep(s: State, s': State, p: nat)
    requires Step(s, s') && p < |s.pc| == |s.asleep| && s.pc[p].Settling()
    ensures |s'.pc| == |s'.asleep| == |s.pc| && (s'.pc[p].Settling() || s'.asleep[p])
  {
    hide State.Next;
    var q: nat :| (s.Enabled(q) && s' == s.Next(q)) || (s.Killable(q) && s' == s.Killed(q));
    if s.Enabled(q) && s' == s.Next(q) {
      if q == p {
        OwnSettling(s, p);
      } else {
        OtherPc(s, q, p);
      }
    }
  }

  /** A process that found the lock taken does not look again before it has been asleep. */
  lemma {:induction false} SleepsBetween(run: seq<State>, i: nat, j: nat, p: nat) returns (m: nat)
    requires Run(run) && i <= j < |run| && p < |run[i].pc| && run[i].pc[p].Settling()
    requires p < |run[j].pc| && !run[j].pc[p].Settling()
    ensures i < m <= j && p < |run[m].asleep| && run[m].asleep[p]
    decreases j - i
  {
    hide Step;
    RunInv(run, i);
    assert StepAt(run, i);
    SettlingStep(run[i], run[i + 1], p);
    if run[i + 1].pc[p].Settling() {
      m := SleepsBetween(run, i + 1, j, p);
    } else {
      m := i + 1;
    }
  }
}
