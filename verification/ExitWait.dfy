/**
 fork, exit, wait and kill of kernel/proc.c as interleaved steps over the
 process table.  A step is one operation on wait_lock, or one stretch of code
 under a single p->lock; a process keeps its own p->lock across several steps
 where the code does.
 */
module ExitWait {
  import opened Common

  /** The slot of initproc. */
  const INIT: nat := 0

  /** p->state; Live stands for RUNNABLE, RUNNING and sleeping elsewhere than in wait. */
  datatype Status = Unused | Used | Live | Asleep | Zombie

  /** Where the process in a slot is. */
  datatype Pc =
    | Idle                        // nobody runs here
    | Running                     // anywhere else
    | WaitTry                     // wait: about to acquire wait_lock
    | Scan(j: nat, kids: bool)    // wait: holds wait_lock, about to look at slot j
    | Rest                        // sleep: holds wait_lock, about to acquire its p->lock
    | Let                         // sleep: holds both, about to release wait_lock
    | Doze                        // sleep: holds p->lock, about to become SLEEPING
    | Switch                      // SLEEPING; sched has not yet let go of p->lock
    | Away                        // off the CPU; runs again once it is RUNNABLE
    | Back                        // scheduled again, holds p->lock
    | ExitTry                     // exit: about to acquire wait_lock
    | Reparent(j: nat)            // exit: holds wait_lock, about to look at slot j
    | CallInit(j: nat)            // exit: gave slot j to init, about to wake init
    | CallParent                  // exit: about to wake the parent
    | Dying                       // exit: about to acquire its p->lock
    | Dead1                       // exit: holds both, about to become a zombie
    | Dead2                       // exit: zombie, about to release wait_lock
    | Dead3                       // exit: sched has not yet let go of p->lock
    | Gone                        // exit: never runs again
    | ForkParent(c: nat)          // fork: about to set the parent of slot c
    | ForkReady(c: nat)           // fork: about to make slot c RUNNABLE
  {
    /** Code that holds wait_lock. */
    predicate InWl() {
      Scan? || Rest? || Let? || Reparent? || CallInit? || CallParent? || Dying? || Dead1? || Dead2?
    }

    /** Code that holds the process's own p->lock. */
    predicate HoldsOwn() {
      Let? || Doze? || Switch? || Back? || Dead1? || Dead2? || Dead3?
    }

    /** Code of wait, asleep or not. */
    predicate InWait() {
      WaitTry? || Scan? || Rest? || Let? || Doze? || Switch? || Away? || Back?
    }

    /** Code of sleep, called from wait, before the process is SLEEPING. */
    predicate Settling() { Rest? || Let? || Doze? }

    predicate Exiting() { ExitTry? || Reparent? || CallInit? || CallParent? || Dying? || Dead1? }
    predicate Dead() { Dead2? || Dead3? || Gone? }
    predicate Forking() { ForkParent? || ForkReady? }
    /** Code of exit with no children left. */
    predicate Childless() { CallParent? || Dying? || Dead1? }
    /** Code of exit after the parent has been woken. */
    predicate Parting() { Dying? || Dead1? }
  }

  /**
   What a process does next.  FailFork: fork gives the slot back at once because
   memory is exhausted; GiveUp: it was killed, or the copy of the status fails.
   */
  datatype Choice = DoWait | DoExit(status: int) | DoFork(c: nat) | FailFork | GiveUp

  /**
   code is the argument of exit; exited and reaped record, by pid, the status
   with which a process exited and the one that wait gave to its parent.
   */
  datatype State = State(wl: int, st: seq<Status>, parent: seq<int>, xstate: seq<int>, code: seq<int>, pid: seq<nat>,
                         pc: seq<Pc>, nextpid: nat, exited: map<nat, int>, reaped: map<nat, int>) {

    ghost predicate Sizes() {
      |st| == |parent| == |xstate| == |code| == |pid| == |pc| > INIT
    }

    ghost predicate Enabled(p: nat, ch: Choice)
    {
      && Sizes() && p < |pc|
      && match pc[p] {
           case Idle => false
           case Gone => false
           case Running => (ch.DoFork? ==> ch.c < |pc| && st[ch.c] == Unused) && (ch.DoExit? ==> p != INIT)
           case WaitTry => wl == NOBODY
           case Scan(j, kids) => j < |pc| && parent[j] == p ==> !pc[j].HoldsOwn()
           case Away => st[p] != Asleep
           case ExitTry => wl == NOBODY
           case CallInit(j) => !pc[INIT].HoldsOwn()
           case CallParent => 0 <= parent[p] < |pc| && !pc[parent[p]].HoldsOwn()
           case ForkParent(c) => c < |pc| && wl == NOBODY
           case ForkReady(c) => c < |pc|
           case _ => true
         }
    }

    function At(p: nat, x: Pc): (s: State)
      requires p < |pc|
    {
      this.(pc := pc[p := x])
    }

    /** wakeup on the channel of slot t. */
    function Woken(t: nat): (s: State)
      requires t < |st|
    {
      if st[t] == Asleep then this.(st := st[t := Live]) else this
    }

    /** freeproc of a zombie, whose status goes to its parent. */
    function Reap(j: nat): (s: State)
      requires j < |st| == |parent| == |pc| == |pid| == |xstate|
    {
      this.(st := st[j := Unused], parent := parent[j := NOBODY], pc := pc[j := Idle],
            reaped := reaped[pid[j] := xstate[j]])
    }

    function ScanStep(p: nat, j: nat, kids: bool, ch: Choice): (s: State)
      requires |st| == |parent| == |xstate| == |pid| == |pc| && p < |pc|
    {
      if j >= |pc| then
        if !kids || ch.GiveUp? then this.(wl := NOBODY).At(p, Running) else At(p, Rest)
      else if parent[j] != p then At(p, Scan(j + 1, kids))
      else if st[j] != Zombie then At(p, Scan(j + 1, true))
      else if ch.GiveUp? then this.(wl := NOBODY).At(p, Running)
      else Reap(j).(wl := NOBODY).At(p, Running)
    }

    function ReparentStep(p: nat, j: nat): (s: State)
      requires |st| == |parent| == |pc| && p < |pc|
    {
      if j >= |pc| then At(p, CallParent)
      else if parent[j] == p then this.(parent := parent[j := INIT]).At(p, CallInit(j))
      else At(p, Reparent(j + 1))
    }

    function Start(p: nat, ch: Choice): (s: State)
      requires |st| == |code| == |pid| == |pc| && p < |pc| && (ch.DoFork? ==> ch.c < |pc|)
    {
      match ch
      case GiveUp => this
      case DoWait => At(p, WaitTry)
      case DoExit(status) => this.(code := code[p := status]).At(p, ExitTry)
      case FailFork => this.(nextpid := nextpid + 1)
      case DoFork(c) =>
        this.(st := st[c := Used], pid := pid[c := nextpid], nextpid := nextpid + 1).At(p, ForkParent(c))
    }

    /** The step frees the zombie in slot pc[p].j. */
    ghost predicate Reaps(p: nat, ch: Choice)
      requires Sizes() && p < |pc|
    {
      pc[p].Scan? && pc[p].j < |pc| && parent[pc[p].j] == p && st[pc[p].j] == Zombie && !ch.GiveUp?
    }

    ghost function WaitStep(p: nat, ch: Choice): (s: State)
      requires Enabled(p, ch) && pc[p].InWait()
      ensures s.Sizes() && |s.pc| == |pc|
      ensures s.reaped == if Reaps(p, ch) then reaped[pid[pc[p].j] := xstate[pc[p].j]] else reaped
    {
      match pc[p]
      case WaitTry => this.(wl := p).At(p, Scan(0, false))
      case Scan(j, kids) => ScanStep(p, j, kids, ch)
      case Rest => At(p, Let)
      case Let => this.(wl := NOBODY).At(p, Doze)
      case Doze => this.(st := st[p := Asleep]).At(p, Switch)
      case Switch => At(p, Away)
      case Away => At(p, Back)
      case Back => At(p, WaitTry)
    }

    ghost function ExitStep(p: nat, ch: Choice): (s: State)
      requires Enabled(p, ch) && (pc[p].Exiting() || pc[p].Dead())
      ensures s.Sizes() && |s.pc| == |pc| && s.reaped == reaped
    {
      match pc[p]
      case ExitTry => this.(wl := p).At(p, Reparent(0))
      case Reparent(j) => ReparentStep(p, j)
      case CallInit(j) => Woken(INIT).At(p, Reparent(j + 1))
      case CallParent => Woken(parent[p]).At(p, Dying)
      case Dying => At(p, Dead1)
      case Dead1 =>
        this.(xstate := xstate[p := code[p]], st := st[p := Zombie], exited := exited[pid[p] := code[p]]).At(p, Dead2)
      case Dead2 => this.(wl := NOBODY).At(p, Dead3)
      case Dead3 => At(p, Gone)
    }

    ghost function RunStep(p: nat, ch: Choice): (s: State)
      requires Enabled(p, ch) && (pc[p].Running? || pc[p].Forking())
      ensures s.Sizes() && |s.pc| == |pc| && s.reaped == reaped
    {
      match pc[p]
      case Running => Start(p, ch)
      case ForkParent(c) => this.(parent := parent[c := p]).At(p, ForkReady(c))
      case ForkReady(c) => this.(st := st[c := Live]).At(p, Running).At(c, Running)
    }

    /** The next step of the process in slot p. */
    ghost function Next(p: nat, ch: Choice): (s: State)
      requires Enabled(p, ch)
      ensures s.Sizes() && |s.pc| == |pc|
      ensures s.reaped == if Reaps(p, ch) then reaped[pid[pc[p].j] := xstate[pc[p].j]] else reaped
    {
      if pc[p].InWait() then WaitStep(p, ch)
      else if pc[p].Running? || pc[p].Forking() then RunStep(p, ch)
      else ExitStep(p, ch)
    }

    /** kill wakes a process that sleeps in wait. */
    ghost predicate Killable(p: nat) {
      Sizes() && p < |pc| && !pc[p].HoldsOwn() && st[p] == Asleep
    }

    // ----------------------------------------------------------------
    // The invariant

    ghost predicate WlAt(p: nat) {
      p < |pc| ==> (pc[p].InWl() <==> wl == p)
    }

    /** The state of a slot says where its process can be. */
    ghost predicate StatusAt(p: nat)
      requires Sizes()
    {
      p < |pc| ==>
        && (st[p] == Unused || st[p] == Used <==> pc[p].Idle?)
        && (st[p] == Zombie <==> pc[p].Dead())
        && (st[p] == Asleep ==> pc[p].Switch? || pc[p].Away?)
        && (pc[p].Switch? ==> st[p] == Asleep)
        && (p == INIT ==> !pc[p].Exiting() && !pc[p].Dead() && !pc[p].Idle?)
    }

    /** The slot that p is forking. */
    ghost predicate ForkAt(p: nat)
      requires Sizes()
    {
      p < |pc| && pc[p].Forking() ==>
        pc[p].c < |pc| && pc[p].c != p && st[pc[p].c] == Used && (pc[p].ForkReady? ==> parent[pc[p].c] == p)
    }

    ghost predicate Forks(p: nat, c: nat) {
      p < |pc| && pc[p].Forking() && pc[p].c == c
    }

    ghost predicate ForkOnceAt(p: nat, q: nat, c: nat) {
      Forks(p, c) && Forks(q, c) ==> p == q
    }

    ghost predicate Alive(p: int) {
      0 <= p < |pc| == |st| && !pc[p].Idle? && st[p] != Zombie
    }

    /** A parent pointer names a living process; every living process but init has one. */
    ghost predicate ParentAt(c: nat)
      requires Sizes()
    {
      c < |pc| ==>
        && (parent[c] != NOBODY ==> Alive(parent[c]) && parent[c] != c && st[c] != Unused)
        && (c != INIT && !pc[c].Idle? ==> parent[c] != NOBODY)
        && (c == INIT ==> parent[c] == NOBODY)
    }

    /** The slots that an exiting process has passed are not its children. */
    ghost predicate ChildlessAt(p: nat, c: nat)
      requires Sizes()
    {
      p < |pc| && c < |pc| && parent[c] == p ==>
        && !pc[p].Childless()
        && (pc[p].Reparent? ==> c >= pc[p].j) && (pc[p].CallInit? ==> c > pc[p].j)
    }

    /** The children that a waiting process has passed are not zombies. */
    ghost predicate ScannedAt(p: nat, c: nat)
      requires Sizes()
    {
      p < |pc| && c < |pc| && parent[c] == p && st[c] == Zombie ==>
        (pc[p].Scan? ==> c >= pc[p].j) && !pc[p].Rest? && !pc[p].Let?
    }

    /** p has decided to sleep and let go of wait_lock. */
    ghost predicate Committed(p: int) {
      0 <= p < |pc| == |st| && (pc[p].Doze? || pc[p].Switch? || (pc[p].Away? && st[p] == Asleep))
    }

    /** A process with a zombie child does not sleep, unless it is init and about to be woken. */
    ghost predicate WokenAt(c: nat)
      requires Sizes()
    {
      c < |pc| && Committed(parent[c]) ==>
        && (st[c] == Zombie ==> parent[c] == INIT && 0 <= wl < |pc| && pc[wl].CallInit?)
        && !pc[c].Parting()
    }

    /** A status is recorded once, under the pid of the slot. */
    ghost predicate RecordAt(p: nat)
      requires Sizes()
    {
      p < |pc| && st[p] != Unused ==>
        && pid[p] < nextpid && pid[p] !in reaped
        && if st[p] == Zombie then pid[p] in exited && exited[pid[p]] == xstate[p] else pid[p] !in exited
    }

    ghost predicate PidsAt(p: nat, q: nat)
      requires Sizes()
    {
      p < |pc| && q < |pc| && p != q && st[p] != Unused && st[q] != Unused ==> pid[p] != pid[q]
    }

    /** What wait reported is what exit was given. */
    ghost predicate Faithful() {
      && (forall k :: k in exited ==> k < nextpid)
      && (forall k :: k in reaped ==> k in exited && reaped[k] == exited[k])
    }

    ghost predicate Inv() {
      && Sizes() && wl >= NOBODY && Faithful()
      && (forall p :: WlAt(p)) && (forall p :: StatusAt(p))
      && (forall p :: ForkAt(p)) && (forall p, q, c :: ForkOnceAt(p, q, c))
      && (forall c :: ParentAt(c)) && (forall p, c :: ChildlessAt(p, c)) && (forall p, c :: ScannedAt(p, c))
      && (forall c :: WokenAt(c)) && (forall p :: RecordAt(p)) && (forall p, q :: PidsAt(p, q))
    }

    // ----------------------------------------------------------------
    // Steps that only move one process along, and wait_lock with it

    /** wait_lock is taken, kept or let go of as the code says. */
    ghost predicate MovesLock(p: nat, x: Pc, w: int)
      requires p < |pc|
    {
      || (w == wl && (x.InWl() <==> pc[p].InWl()))
      || (w == p && wl == NOBODY && x.InWl())
      || (w == NOBODY && wl == p && !x.InWl())
    }

    /** x is a place for the process in slot p as things stand. */
    ghost predicate Fits(p: nat, x: Pc)
      requires Sizes() && p < |pc|
    {
      && !pc[p].Idle? && !x.Idle? && !pc[p].Forking() && !x.Forking() && !x.CallInit?
      && (x.Dead() <==> pc[p].Dead()) && (x.Exiting() ==> p != INIT)
      && (st[p] == Asleep ==> x.Switch? || x.Away?) && (x.Switch? ==> st[p] == Asleep)
      && (pc[p].CallInit? ==> !Committed(INIT)) && (x.Parting() ==> !Committed(parent[p]))
    }

    /** The children of p allow it to be at x. */
    ghost predicate FitsChild(p: nat, x: Pc, c: nat)
      requires Sizes() && p < |pc|
    {
      c < |pc| && parent[c] == p ==>
        && !x.Childless() && (x.Reparent? ==> c >= x.j)
        && (st[c] == Zombie ==> (x.Scan? ==> c >= x.j) && !x.Rest? && !x.Let?)
        && (x.Doze? || x.Switch? || (x.Away? && st[p] == Asleep) ==>
              Committed(p) || (st[c] != Zombie && !pc[c].Parting()))
    }

    lemma MoveKeeps(p: nat, x: Pc, w: int)
      requires Inv() && p < |pc| && MovesLock(p, x, w) && Fits(p, x) && forall c :: FitsChild(p, x, c)
      ensures this.(wl := w).At(p, x).Inv()
    {
      var s := this.(wl := w).At(p, x);
      MoveLocks(p, x, w);
      MoveFamily(p, x, w);
      forall c: nat ensures s.WokenAt(c) {
        MoveWoken(p, x, w, c);
      }
      forall q: nat ensures s.RecordAt(q) {
        assert RecordAt(q);
      }
      forall q: nat, r: nat ensures s.PidsAt(q, r) {
        assert PidsAt(q, r);
      }
    }

    lemma MoveLocks(p: nat, x: Pc, w: int)
      requires Inv() && p < |pc| && MovesLock(p, x, w) && Fits(p, x)
      ensures var s := this.(wl := w).At(p, x);
              && s.Sizes() && s.wl >= NOBODY
              && (forall r :: s.WlAt(r)) && (forall r :: s.StatusAt(r)) && (forall r :: s.ForkAt(r))
              && forall q, r, c :: s.ForkOnceAt(q, r, c)
    {
      var s := this.(wl := w).At(p, x);
      forall r: nat ensures s.WlAt(r) && s.StatusAt(r) && s.ForkAt(r) {
        assert WlAt(p) && WlAt(r) && StatusAt(p) && StatusAt(r) && ForkAt(r);
      }
      forall q: nat, r: nat, c: nat ensures s.ForkOnceAt(q, r, c) {
        assert ForkOnceAt(q, r, c);
      }
    }

    lemma MoveFamily(p: nat, x: Pc, w: int)
      requires Inv() && p < |pc| && MovesLock(p, x, w) && Fits(p, x) && forall c :: FitsChild(p, x, c)
      ensures var s := this.(wl := w).At(p, x);
              && s.Sizes() && (forall c :: s.ParentAt(c))
              && (forall q, c :: s.ChildlessAt(q, c)) && forall q, c :: s.ScannedAt(q, c)
    {
      var s := this.(wl := w).At(p, x);
      forall c: nat ensures s.ParentAt(c) {
        assert ParentAt(c);
      }
      forall q: nat, c: nat ensures s.ChildlessAt(q, c) && s.ScannedAt(q, c) {
        assert ChildlessAt(q, c) && ScannedAt(q, c) && FitsChild(p, x, c);
      }
    }

    lemma MoveWoken(p: nat, x: Pc, w: int, c: nat)
      requires Inv() && p < |pc| && MovesLock(p, x, w) && Fits(p, x) && forall c :: FitsChild(p, x, c)
      ensures this.(wl := w).At(p, x).Sizes() && this.(wl := w).At(p, x).WokenAt(c)
    {
      assert WokenAt(c) && FitsChild(p, x, c) && ParentAt(c) && WlAt(p);
    }

    // ----------------------------------------------------------------
    // Steps that change the table

    /** wakeup (or kill) of a process that has let go of its lock. */
    lemma WakeKeeps(t: nat)
      requires Inv() && t < |pc| && !pc[t].HoldsOwn()
      ensures Woken(t).Inv() && !Woken(t).Committed(t)
    {
      var s := Woken(t);
      assert StatusAt(t);
      forall r: nat
        ensures s.WlAt(r) && s.StatusAt(r) && s.ForkAt(r) && s.ParentAt(r) && s.RecordAt(r) && s.WokenAt(r)
      {
        assert WlAt(r) && StatusAt(r) && ForkAt(r) && ParentAt(r) && RecordAt(r) && WokenAt(r);
      }
      forall q: nat, r: nat, c: nat ensures s.ForkOnceAt(q, r, c) {
        assert ForkOnceAt(q, r, c);
      }
      forall q: nat, c: nat ensures s.ChildlessAt(q, c) && s.ScannedAt(q, c) && s.PidsAt(q, c) {
        assert ChildlessAt(q, c) && ScannedAt(q, c) && PidsAt(q, c);
      }
    }

    /** sleep: the process becomes SLEEPING. */
    ghost function Slept(p: nat): (s: State)
      requires p < |st| && p < |pc|
    {
      this.(st := st[p := Asleep]).At(p, Switch)
    }

    lemma SleptKeeps(p: nat)
      requires Inv() && p < |pc| && pc[p].Doze?
      ensures Slept(p).Inv()
    {
      var s := Slept(p);
      assert StatusAt(p);
      forall r: nat
        ensures s.WlAt(r) && s.StatusAt(r) && s.ForkAt(r) && s.ParentAt(r) && s.RecordAt(r) && s.WokenAt(r)
      {
        assert WlAt(r) && StatusAt(r) && ForkAt(r) && ParentAt(r) && RecordAt(r) && WokenAt(r) && WlAt(p);
      }
      forall q: nat, r: nat, c: nat ensures s.ForkOnceAt(q, r, c) {
        assert ForkOnceAt(q, r, c);
      }
      forall q: nat, c: nat ensures s.ChildlessAt(q, c) && s.ScannedAt(q, c) && s.PidsAt(q, c) {
        assert ChildlessAt(q, c) && ScannedAt(q, c) && PidsAt(q, c);
      }
    }

    /** exit: the process becomes a zombie with its status. */
    ghost function Buried(p: nat): (s: State)
      requires Sizes() && p < |pc|
    {
      this.(xstate := xstate[p := code[p]], st := st[p := Zombie], exited := exited[pid[p] := code[p]]).At(p, Dead2)
    }

    lemma BuriedKeeps(p: nat)
      requires Inv() && p < |pc| && pc[p].Dead1?
      ensures Buried(p).Inv()
    {
      var s := Buried(p);
      BuriedRecords(p);
      assert StatusAt(p) && RecordAt(p) && WlAt(p) && WokenAt(p);
      forall r: nat ensures s.WlAt(r) && s.StatusAt(r) && s.ForkAt(r) && s.WokenAt(r) {
        assert WlAt(r) && StatusAt(r) && ForkAt(r) && WokenAt(r);
      }
      forall q: nat, r: nat, c: nat ensures s.ForkOnceAt(q, r, c) {
        assert ForkOnceAt(q, r, c);
      }
      forall r: nat ensures s.ParentAt(r) {
        assert ParentAt(r) && ChildlessAt(p, r);
      }
      forall q: nat, c: nat ensures s.ChildlessAt(q, c) && s.ScannedAt(q, c) {
        assert ChildlessAt(q, c) && ScannedAt(q, c) && WlAt(q);
      }
    }

    lemma BuriedRecords(p: nat)
      requires Inv() && p < |pc| && pc[p].Dead1?
      ensures Buried(p).Faithful() && (forall r :: Buried(p).RecordAt(r)) && forall q, r :: Buried(p).PidsAt(q, r)
    {
      var s := Buried(p);
      assert StatusAt(p) && RecordAt(p);
      forall r: nat ensures s.RecordAt(r) {
        assert RecordAt(r) && PidsAt(p, r);
      }
      forall q: nat, r: nat ensures s.PidsAt(q, r) {
        assert PidsAt(q, r);
      }
    }

    /** wait: a zombie that has let go of its lock is freed. */
    lemma ReapKeeps(j: nat)
      requires Inv() && j < |pc| && st[j] == Zombie && !pc[j].HoldsOwn()
      ensures Reap(j).Inv() && pid[j] !in reaped && pid[j] in exited && exited[pid[j]] == xstate[j]
    {
      var s := Reap(j);
      assert StatusAt(j) && RecordAt(j) && ForkAt(j);
      forall r: nat ensures s.WlAt(r) && s.StatusAt(r) && s.ForkAt(r) && s.WokenAt(r) {
        assert WlAt(r) && StatusAt(r) && ForkAt(r) && WokenAt(r) && WlAt(j);
      }
      forall q: nat, r: nat, c: nat ensures s.ForkOnceAt(q, r, c) {
        assert ForkOnceAt(q, r, c);
      }
      forall r: nat ensures s.ParentAt(r) && s.RecordAt(r) {
        assert ParentAt(r) && RecordAt(r) && PidsAt(j, r);
      }
      forall q: nat, c: nat ensures s.ChildlessAt(q, c) && s.ScannedAt(q, c) && s.PidsAt(q, c) {
        assert ChildlessAt(q, c) && ScannedAt(q, c) && PidsAt(q, c);
      }
    }

    /** exit: a child goes to init. */
    ghost function Adopted(p: nat, j: nat): (s: State)
      requires p < |pc| && j < |parent|
    {
      this.(parent := parent[j := INIT]).At(p, CallInit(j))
    }

    lemma AdoptedKeeps(p: nat, j: nat)
      requires Inv() && p < |pc| && j < |pc| && pc[p] == Reparent(j) && parent[j] == p
      ensures Adopted(p, j).Inv()
    {
      var s := Adopted(p, j);
      assert StatusAt(p) && StatusAt(INIT) && ParentAt(j) && WlAt(p) && ChildlessAt(p, j);
      forall r: nat ensures s.WlAt(r) && s.StatusAt(r) && s.ForkAt(r) && s.RecordAt(r) {
        assert WlAt(r) && StatusAt(r) && ForkAt(r) && RecordAt(r) && StatusAt(j);
        assert r < |pc| && pc[r].Forking() ==> StatusAt(pc[r].c);
      }
      forall q: nat, r: nat, c: nat ensures s.ForkOnceAt(q, r, c) {
        assert ForkOnceAt(q, r, c);
      }
      forall r: nat ensures s.ParentAt(r) && s.WokenAt(r) {
        assert ParentAt(r) && WokenAt(r) && WlAt(r);
      }
      forall q: nat, c: nat ensures s.ChildlessAt(q, c) && s.ScannedAt(q, c) && s.PidsAt(q, c) {
        assert ChildlessAt(q, c) && ScannedAt(q, c) && PidsAt(q, c) && WlAt(q) && ChildlessAt(p, c);
      }
    }

    /** fork: a slot is taken for the child. */
    ghost function Taken(p: nat, c: nat): (s: State)
      requires Sizes() && p < |pc| && c < |pc|
    {
      this.(st := st[c := Used], pid := pid[c := nextpid], nextpid := nextpid + 1).At(p, ForkParent(c))
    }

    lemma TakenPlaces(p: nat, c: nat)
      requires Inv() && p < |pc| && c < |pc| && pc[p].Running? && st[c] == Unused
      ensures Taken(p, c).Sizes()
      ensures var s := Taken(p, c);
              && (forall r :: s.WlAt(r)) && (forall r :: s.StatusAt(r))
              && (forall r :: s.ForkAt(r)) && forall q, r, d :: s.ForkOnceAt(q, r, d)
    {
      hide State.ChildlessAt, State.ScannedAt, State.WokenAt, State.RecordAt, State.PidsAt, State.Faithful;
      hide State.ParentAt;
      var s := Taken(p, c);
      assert StatusAt(p) && StatusAt(c);
      forall r: nat ensures s.WlAt(r) && s.StatusAt(r) && s.ForkAt(r) {
        assert WlAt(r) && StatusAt(r) && ForkAt(r);
      }
      forall q: nat, r: nat, d: nat ensures s.ForkOnceAt(q, r, d) {
        assert ForkOnceAt(q, r, d) && ForkAt(q) && ForkAt(r);
      }
    }

    lemma TakenKeeps(p: nat, c: nat)
      requires Inv() && p < |pc| && c < |pc| && pc[p].Running? && st[c] == Unused
      ensures Taken(p, c).Inv()
    {
      hide State.ForkAt, State.ForkOnceAt;
      var s := Taken(p, c);
      assert StatusAt(p) && StatusAt(c) && ParentAt(c);
      TakenPlaces(p, c);
      forall r: nat ensures s.ParentAt(r) && s.RecordAt(r) && s.WokenAt(r) {
        assert ParentAt(r) && RecordAt(r) && WokenAt(r);
      }
      forall q: nat, r: nat ensures s.ChildlessAt(q, r) && s.ScannedAt(q, r) && s.PidsAt(q, r) {
        assert ChildlessAt(q, r) && ScannedAt(q, r) && PidsAt(q, r) && RecordAt(q) && RecordAt(r);
      }
    }

    /** fork: the child gets its parent, under wait_lock. */
    ghost function Fathered(p: nat, c: nat): (s: State)
      requires p < |pc| && c < |parent|
    {
      this.(parent := parent[c := p]).At(p, ForkReady(c))
    }

    lemma FatheredPlaces(p: nat, c: nat)
      requires Inv() && p < |pc| && pc[p] == ForkParent(c)
      ensures c < |pc| && Fathered(p, c).Sizes()
      ensures var s := Fathered(p, c);
              && (forall r :: s.WlAt(r)) && (forall r :: s.StatusAt(r))
              && (forall r :: s.ForkAt(r)) && forall q, r, d :: s.ForkOnceAt(q, r, d)
    {
      hide State.ChildlessAt, State.ScannedAt, State.WokenAt, State.RecordAt, State.PidsAt, State.Faithful;
      hide State.ParentAt;
      assert ForkAt(p) && StatusAt(p);
      var s := Fathered(p, c);
      forall r: nat ensures s.WlAt(r) && s.StatusAt(r) && s.ForkAt(r) {
        assert WlAt(r) && StatusAt(r) && ForkAt(r) && ForkOnceAt(p, r, c);
      }
      forall q: nat, r: nat, d: nat ensures s.ForkOnceAt(q, r, d) {
        assert ForkOnceAt(q, r, d);
      }
    }

    lemma FatheredKeeps(p: nat, c: nat)
      requires Inv() && p < |pc| && pc[p] == ForkParent(c) && wl == NOBODY
      ensures c < |pc| && Fathered(p, c).Inv()
    {
      hide State.ForkOnceAt;
      assert ForkAt(p) && StatusAt(p) && StatusAt(c) && ParentAt(c) && StatusAt(INIT);
      var s := Fathered(p, c);
      FatheredPlaces(p, c);
      forall r: nat ensures s.ParentAt(r) && s.WokenAt(r) && s.RecordAt(r) {
        assert ParentAt(r) && WokenAt(r) && WlAt(r) && RecordAt(r);
      }
      forall q: nat, r: nat ensures s.ChildlessAt(q, r) && s.ScannedAt(q, r) && s.PidsAt(q, r) {
        assert ChildlessAt(q, r) && ScannedAt(q, r) && PidsAt(q, r);
      }
    }

    /** fork: the child becomes RUNNABLE. */
    ghost function Started(p: nat, c: nat): (s: State)
      requires p < |pc| && c < |pc| && c < |st|
    {
      this.(st := st[c := Live]).At(p, Running).At(c, Running)
    }

    lemma StartedPlaces(p: nat, c: nat)
      requires Inv() && p < |pc| && pc[p] == ForkReady(c)
      ensures c < |pc| && Started(p, c).Sizes()
      ensures var s := Started(p, c);
              && (forall r :: s.WlAt(r)) && (forall r :: s.StatusAt(r))
              && (forall r :: s.ForkAt(r)) && forall q, r, d :: s.ForkOnceAt(q, r, d)
    {
      hide State.ChildlessAt, State.ScannedAt, State.WokenAt, State.RecordAt, State.PidsAt, State.Faithful;
      assert ForkAt(p) && StatusAt(p) && StatusAt(c);
      var s := Started(p, c);
      forall r: nat ensures s.WlAt(r) && s.StatusAt(r) && s.ForkAt(r) {
        assert WlAt(r) && StatusAt(r) && ForkAt(r) && ForkOnceAt(p, r, c) && WlAt(c) && WlAt(p);
      }
      forall q: nat, r: nat, d: nat ensures s.ForkOnceAt(q, r, d) {
        assert ForkOnceAt(q, r, d);
      }
    }

    lemma StartedKeeps(p: nat, c: nat)
      requires Inv() && p < |pc| && pc[p] == ForkReady(c)
      ensures c < |pc| && Started(p, c).Inv()
    {
      hide State.ForkOnceAt;
      StartedPlaces(p, c);
      assert ForkAt(p) && StatusAt(p) && StatusAt(c) && ParentAt(c);
      var s := Started(p, c);
      forall r: nat ensures s.ParentAt(r) && s.WokenAt(r) && s.RecordAt(r) {
        assert ParentAt(r) && WokenAt(r) && RecordAt(r) && WlAt(p) && WlAt(c);
      }
      forall q: nat, r: nat ensures s.ChildlessAt(q, r) && s.ScannedAt(q, r) && s.PidsAt(q, r) {
        assert ChildlessAt(q, r) && ScannedAt(q, r) && PidsAt(q, r);
      }
    }

    // ----------------------------------------------------------------
    // Every step keeps the invariant

    /** A move for which the children are no obstacle. */
    lemma PlainMove(p: nat, x: Pc, w: int)
      requires Inv() && p < |pc| && MovesLock(p, x, w) && Fits(p, x)
      requires !x.Childless() && !x.Reparent? && !x.Scan? && !x.Rest? && !x.Let? && !x.Doze? && !x.Switch?
      requires x.Away? ==> Committed(p)
      ensures this.(wl := w).At(p, x).Inv()
    {
      forall c: nat ensures FitsChild(p, x, c) {
      }
      MoveKeeps(p, x, w);
    }

    /** What the invariant says about one process, and about it and another. */
    lemma Placed(p: nat)
      requires Inv()
      ensures Sizes() && StatusAt(p) && WlAt(p) && ForkAt(p) && WokenAt(p) && ParentAt(p)
    {
    }

    lemma Related(p: nat, c: nat)
      requires Inv()
      ensures Sizes() && ScannedAt(p, c) && ChildlessAt(p, c) && WlAt(c)
    {
    }

    lemma WaitSteps(p: nat, ch: Choice)
      requires Inv() && Enabled(p, ch)
      requires pc[p].WaitTry? || pc[p].Rest? || pc[p].Let? || pc[p].Switch? || pc[p].Away? || pc[p].Back?
      ensures Next(p, ch).Inv()
    {
      hide State.Inv, State.ForkAt, State.WokenAt, State.ParentAt, State.ChildlessAt;
      Placed(p);
      match pc[p] {
        case WaitTry =>
          forall c: nat ensures FitsChild(p, Scan(0, false), c) {
          }
          MoveKeeps(p, Scan(0, false), p);
        case Rest =>
          forall c: nat ensures FitsChild(p, Let, c) {
            Related(p, c);
          }
          MoveKeeps(p, Let, wl);
        case Let =>
          forall c: nat ensures FitsChild(p, Doze, c) {
            Related(p, c);
          }
          MoveKeeps(p, Doze, NOBODY);
        case Switch => PlainMove(p, Away, wl);
        case Away => PlainMove(p, Back, wl);
        case Back => PlainMove(p, WaitTry, wl);
      }
    }

    lemma DozeStep(p: nat, ch: Choice)
      requires Inv() && Enabled(p, ch) && pc[p].Doze?
      ensures Next(p, ch).Inv()
    {
      SleptKeeps(p);
    }

    lemma ReapStep(p: nat, j: nat)
      requires Inv() && p < |pc| && pc[p].Scan? && j < |pc| && parent[j] == p && st[j] == Zombie && !pc[j].HoldsOwn()
      ensures Reap(j).(wl := NOBODY).At(p, Running).Inv()
    {
      assert StatusAt(p) && WlAt(p) && ParentAt(j);
      ReapKeeps(j);
      Reap(j).PlainMove(p, Running, NOBODY);
    }

    lemma ScanMove(p: nat, x: Pc)
      requires Inv() && p < |pc| && pc[p].Scan? && (x.Scan? || x.Rest?)
      requires x.Rest? ==> pc[p].j >= |pc|
      requires x.Scan? ==> x.j == pc[p].j + 1 && pc[p].j < |pc| && (parent[pc[p].j] != p || st[pc[p].j] != Zombie)
      ensures At(p, x).Inv()
    {
      assert StatusAt(p) && WlAt(p);
      forall c: nat ensures FitsChild(p, x, c) {
        assert ScannedAt(p, c);
      }
      MoveKeeps(p, x, wl);
    }

    lemma ScanSteps(p: nat, ch: Choice)
      requires Inv() && Enabled(p, ch) && pc[p].Scan?
      ensures Next(p, ch).Inv()
    {
      hide State.Inv, State.ForkAt, State.WokenAt, State.ParentAt;
      Placed(p);
      var j, kids := pc[p].j, pc[p].kids;
      if j >= |pc| && kids && !ch.GiveUp? {
        ScanMove(p, Rest);
      } else if j < |pc| && (parent[j] != p || st[j] != Zombie) {
        ScanMove(p, Scan(j + 1, if parent[j] != p then kids else true));
      } else if j < |pc| && !ch.GiveUp? {
        ReapStep(p, j);
      } else {
        PlainMove(p, Running, NOBODY);
      }
    }

    lemma ExitSteps(p: nat, ch: Choice)
      requires Inv() && Enabled(p, ch)
      requires pc[p].ExitTry? || pc[p].Dying? || pc[p].Dead1? || pc[p].Dead2? || pc[p].Dead3?
      ensures Next(p, ch).Inv()
    {
      hide State.Inv, State.ForkAt, State.ParentAt, State.ScannedAt;
      Placed(p);
      match pc[p] {
        case ExitTry =>
          forall c: nat ensures FitsChild(p, Reparent(0), c) {
          }
          MoveKeeps(p, Reparent(0), p);
        case Dying =>
          forall c: nat ensures FitsChild(p, Dead1, c) {
            Related(p, c);
          }
          MoveKeeps(p, Dead1, wl);
        case Dead1 => BuriedKeeps(p);
        case Dead2 => PlainMove(p, Dead3, NOBODY);
        case Dead3 => PlainMove(p, Gone, wl);
      }
    }

    lemma ReparentMove(p: nat, ch: Choice)
      requires Inv() && Enabled(p, ch) && pc[p].Reparent?
      ensures Next(p, ch).Inv()
    {
      assert StatusAt(p) && WlAt(p);
      var j := pc[p].j;
      if j < |pc| && parent[j] == p {
        AdoptedKeeps(p, j);
      } else {
        var x := if j >= |pc| then CallParent else Reparent(j + 1);
        forall c: nat ensures FitsChild(p, x, c) {
          assert ChildlessAt(p, c);
        }
        MoveKeeps(p, x, wl);
      }
    }

    lemma CallInitStep(p: nat, ch: Choice)
      requires Inv() && Enabled(p, ch) && pc[p].CallInit?
      ensures Next(p, ch).Inv()
    {
      assert StatusAt(p) && WlAt(p);
      WakeKeeps(INIT);
      var s, x := Woken(INIT), Reparent(pc[p].j + 1);
      forall c: nat ensures s.FitsChild(p, x, c) {
        assert ChildlessAt(p, c);
      }
      s.MoveKeeps(p, x, wl);
    }

    lemma CallParentStep(p: nat, ch: Choice)
      requires Inv() && Enabled(p, ch) && pc[p].CallParent?
      ensures Next(p, ch).Inv()
    {
      assert StatusAt(p) && WlAt(p) && ParentAt(p);
      WakeKeeps(parent[p]);
      var s := Woken(parent[p]);
      forall c: nat ensures s.FitsChild(p, Dying, c) {
        assert ChildlessAt(p, c);
      }
      s.MoveKeeps(p, Dying, wl);
    }

    lemma RunSteps(p: nat, ch: Choice)
      requires Inv() && Enabled(p, ch) && (pc[p].Running? || pc[p].Forking())
      ensures Next(p, ch).Inv()
    {
      hide State.Inv, State.WaitStep, State.ExitStep, State.ForkAt, State.WokenAt, State.ParentAt;
      Placed(p);
      match pc[p] {
        case Running =>
          match ch {
            case GiveUp =>
            case DoWait => PlainMove(p, WaitTry, wl);
            case DoExit(status) =>
              CodeKeeps(code[p := status], nextpid);
              this.(code := code[p := status]).PlainMove(p, ExitTry, wl);
            case FailFork => CodeKeeps(code, nextpid + 1);
            case DoFork(c) => TakenKeeps(p, c);
          }
        case ForkParent(c) => FatheredKeeps(p, c);
        case ForkReady(c) => StartedKeeps(p, c);
      }
    }

    /** The argument of exit matters only when the process becomes a zombie, and pids may be left unused. */
    lemma CodeKeeps(code': seq<int>, nextpid': nat)
      requires Inv() && |code'| == |code| && nextpid' >= nextpid
      ensures this.(code := code', nextpid := nextpid').Inv()
    {
      var s := this.(code := code', nextpid := nextpid');
      forall r: nat
        ensures s.WlAt(r) && s.StatusAt(r) && s.ForkAt(r) && s.ParentAt(r) && s.RecordAt(r) && s.WokenAt(r)
      {
        assert WlAt(r) && StatusAt(r) && ForkAt(r) && ParentAt(r) && RecordAt(r) && WokenAt(r);
      }
      forall q: nat, r: nat, c: nat ensures s.ForkOnceAt(q, r, c) {
        assert ForkOnceAt(q, r, c);
      }
      forall q: nat, c: nat ensures s.ChildlessAt(q, c) && s.ScannedAt(q, c) && s.PidsAt(q, c) {
        assert ChildlessAt(q, c) && ScannedAt(q, c) && PidsAt(q, c);
      }
    }

    lemma StepKeeps(p: nat, ch: Choice)
      requires Inv() && Enabled(p, ch)
      ensures Next(p, ch).Inv()
    {
      hide State.Inv, State.Next;
      if pc[p].Scan? {
        ScanSteps(p, ch);
      } else if pc[p].Running? || pc[p].Forking() {
        RunSteps(p, ch);
      } else if pc[p].Reparent? {
        ReparentMove(p, ch);
      } else if pc[p].CallInit? {
        CallInitStep(p, ch);
      } else if pc[p].CallParent? {
        CallParentStep(p, ch);
      } else if pc[p].ExitTry? || pc[p].Dying? || pc[p].Dead1? || pc[p].Dead2? || pc[p].Dead3? {
        ExitSteps(p, ch);
      } else if pc[p].Doze? {
        DozeStep(p, ch);
      } else {
        WaitSteps(p, ch);
      }
    }
  }

  // ------------------------------------------------------------------
  // Runs

  /** Only init is there. */
  ghost predicate Init(s: State) {
    && s.Sizes() && s.wl == NOBODY && s.exited == map[] && s.reaped == map[]
    && (forall p :: 0 <= p < |s.pc| ==> s.parent[p] == NOBODY)
    && (forall p :: 0 <= p < |s.pc| ==> if p == INIT then s.st[p] == Live && s.pc[p].Running? && s.pid[p] < s.nextpid
                                        else s.st[p] == Unused && s.pc[p].Idle?)
  }

  lemma InitInv(s: State)
    requires Init(s)
    ensures s.Inv()
  {
    forall r: nat ensures s.WlAt(r) && s.StatusAt(r) && s.ForkAt(r) && s.ParentAt(r) && s.RecordAt(r) && s.WokenAt(r) {
    }
    forall q: nat, r: nat, c: nat ensures s.ForkOnceAt(q, r, c) {
    }
    forall q: nat, c: nat ensures s.ChildlessAt(q, c) && s.ScannedAt(q, c) && s.PidsAt(q, c) {
    }
  }

  /** A process makes its next step, or is killed. */
  datatype Event = Do(p: nat, ch: Choice) | Kill(p: nat)

  ghost predicate Steps(s: State, e: Event, s': State) {
    match e
    case Do(p, ch) => s.Enabled(p, ch) && s' == s.Next(p, ch)
    case Kill(p) => s.Killable(p) && s' == s.Woken(p)
  }

  ghost predicate Run(run: seq<State>, events: seq<Event>) {
    && |run| == |events| + 1 && Init(run[0])
    && forall i :: 0 <= i < |events| ==> Steps(run[i], events[i], run[i + 1])
  }

  lemma {:induction false} RunInv(run: seq<State>, events: seq<Event>, i: nat)
    requires Run(run, events) && i < |run|
    ensures run[i].Inv()
  {
    hide State.Inv, Steps, Init;
    if i == 0 {
      InitInv(run[0]);
    } else {
      RunInv(run, events, i - 1);
      KeepsStep(run[i - 1], events[i - 1], run[i]);
    }
  }

  lemma KeepsStep(s: State, e: Event, s': State)
    requires s.Inv() && Steps(s, e, s')
    ensures s'.Inv()
  {
    hide State.Inv, State.Next;
    match e
    case Do(p, ch) => s.StepKeeps(p, ch);
    case Kill(p) => s.WakeKeeps(p);
  }

  /**
   Whenever wait_lock is free: no process asleep in wait has a zombie child,
   and no parent pointer names a zombie or an unused slot.
   */
  lemma NoZombieUnnoticed(run: seq<State>, events: seq<Event>, i: nat, c: nat)
    requires Run(run, events) && i < |run| && c < |run[i].pc| && run[i].wl == NOBODY
    ensures run[i].Sizes()
    ensures run[i].st[c] == Zombie && 0 <= run[i].parent[c] < |run[i].pc| ==> run[i].st[run[i].parent[c]] != Asleep
    ensures run[i].parent[c] != NOBODY ==> run[i].Alive(run[i].parent[c])
    ensures run[i].st[c] == Zombie ==> run[i].parent[c] != NOBODY
  {
    RunInv(run, events, i);
    var s := run[i];
    assert s.WokenAt(c) && s.ParentAt(c) && s.StatusAt(c);
    assert 0 <= s.parent[c] < |s.pc| ==> s.StatusAt(s.parent[c]);
  }

  /** Every status that wait has reported is the one its child exited with. */
  lemma ReapedAsExited(run: seq<State>, events: seq<Event>, i: nat, k: nat)
    requires Run(run, events) && i < |run| && k in run[i].reaped
    ensures k in run[i].exited && run[i].reaped[k] == run[i].exited[k]
  {
    RunInv(run, events, i);
  }

  /** No child is reaped twice, and none before it has exited: a step reports at most one new pid, of a zombie. */
  lemma ReapedOnce(run: seq<State>, events: seq<Event>, i: nat, k: nat)
    requires Run(run, events) && i + 1 < |run| && k in run[i + 1].reaped
    ensures if k in run[i].reaped then run[i + 1].reaped[k] == run[i].reaped[k]
            else k in run[i].exited && run[i + 1].reaped[k] == run[i].exited[k]
  {
    hide State.Inv, Steps, Init;
    RunInv(run, events, i);
    ReapedInStep(run[i], events[i], run[i + 1], k);
  }

  lemma ReapedInStep(s: State, e: Event, s': State, k: nat)
    requires s.Inv() && Steps(s, e, s') && k in s'.reaped
    ensures if k in s.reaped then s'.reaped[k] == s.reaped[k] else k in s.exited && s'.reaped[k] == s.exited[k]
  {
    hide State.Inv, State.Next;
    if e.Do? && s.Reaps(e.p, e.ch) {
      s.ReapKeeps(s.pc[e.p].j);
    }
  }

  // ------------------------------------------------------------------
  // What wait returns

  /** One of the slots below j is a child of p. */
  ghost predicate HasChild(s: State, p: nat, j: nat) {
    exists c: nat :: c < j && c < |s.parent| && s.parent[c] == p
  }

  /** havekids says whether a child has been seen. */
  ghost predicate KidsAt(s: State, p: nat) {
    p < |s.pc| && s.pc[p].Scan? ==> (s.pc[p].kids <==> HasChild(s, p, s.pc[p].j))
  }

  /** A step of p leaves the process in slot q alone, unless it is wait and frees the slot. */
  ghost predicate Aside(s: State, p: nat, ch: Choice, s': State, q: nat)
    requires s.Sizes() && s'.Sizes() && p < |s.pc| && q < |s.pc| == |s'.pc|
  {
    && s'.pc[q] == (if s.Reaps(p, ch) && s.pc[p].j == q then Idle else s.pc[q])
    && s'.pid[q] == s.pid[q] && s'.code[q] == s.code[q] && s'.xstate[q] == s.xstate[q]
  }

  lemma WaitAside(s: State, p: nat, ch: Choice, q: nat)
    requires s.Enabled(p, ch) && s.pc[p].InWait() && q < |s.pc| && q != p
    ensures Aside(s, p, ch, s.WaitStep(p, ch), q)
  {
  }

  lemma ExitAside(s: State, p: nat, ch: Choice, q: nat)
    requires s.Enabled(p, ch) && (s.pc[p].Exiting() || s.pc[p].Dead()) && q < |s.pc| && q != p
    ensures Aside(s, p, ch, s.ExitStep(p, ch), q)
  {
  }

  lemma RunAside(s: State, p: nat, ch: Choice, q: nat)
    requires s.Enabled(p, ch) && (s.pc[p].Running? || s.pc[p].Forking()) && q < |s.pc| && q != p
    requires !s.pc[q].Idle? && s.ForkAt(p) && s.StatusAt(q)
    ensures Aside(s, p, ch, s.RunStep(p, ch), q)
  {
  }

  lemma NextAside(s: State, p: nat, ch: Choice, q: nat)
    requires s.Enabled(p, ch) && q < |s.pc| && q != p && !s.pc[q].Idle? && s.ForkAt(p) && s.StatusAt(q)
    ensures Aside(s, p, ch, s.Next(p, ch), q)
  {
    hide State.WaitStep, State.ExitStep, State.RunStep, Aside, State.ForkAt, State.StatusAt;
    if s.pc[p].InWait() {
      WaitAside(s, p, ch, q);
    } else if s.pc[p].Running? || s.pc[p].Forking() {
      RunAside(s, p, ch, q);
    } else {
      ExitAside(s, p, ch, q);
    }
  }

  lemma OtherParents(s: State, p: nat, ch: Choice, q: nat)
    requires s.Enabled(p, ch) && q < |s.pc| && q != p && s.WlAt(p) && s.WlAt(q) && s.pc[q].InWl()
    ensures s.Next(p, ch).parent == s.parent
  {
  }

  /** The steps of others leave a process where it is; only wait frees a slot. */
  lemma OtherStep(s: State, e: Event, s': State, q: nat)
    requires s.Inv() && Steps(s, e, s') && q < |s.pc| && !s.pc[q].Idle? && !(e.Do? && e.p == q)
    ensures s'.Sizes() && |s'.pc| == |s.pc|
    ensures s'.pid[q] == s.pid[q] && s'.code[q] == s.code[q] && s'.xstate[q] == s.xstate[q]
    ensures s'.pc[q] == if e.Do? && s.Reaps(e.p, e.ch) && s.pc[e.p].j == q then Idle else s.pc[q]
    ensures s.pc[q].InWl() ==> s'.parent == s.parent
  {
    hide State.Inv, State.Next, State.WokenAt, State.ParentAt, State.WlAt, State.StatusAt, State.ForkAt;
    s.Placed(q);
    if e.Do? {
      s.Placed(e.p);
      NextAside(s, e.p, e.ch, q);
      if s.pc[q].InWl() {
        OtherParents(s, e.p, e.ch, q);
      }
    }
  }

  lemma StaysOut(s: State, p: nat, ch: Choice)
    requires s.Enabled(p, ch)
    ensures !s.pc[p].InWait() ==> !s.Next(p, ch).pc[p].Scan?
  {
    hide State.WaitStep;
  }

  /** The scan of the process itself. */
  lemma OwnKids(s: State, p: nat, ch: Choice)
    requires s.Enabled(p, ch) && KidsAt(s, p)
    ensures p < |s.Next(p, ch).pc| && KidsAt(s.Next(p, ch), p)
  {
    hide State.RunStep, State.ExitStep;
    StaysOut(s, p, ch);
    var s' := s.Next(p, ch);
    if s.pc[p].Scan? && s'.pc[p].Scan? {
      assert s'.parent == s.parent;
      if s.parent[s.pc[p].j] == p {
        assert HasChild(s', p, s.pc[p].j + 1);
      }
    }
  }

  /** A slot that nobody runs in does not come to scan. */
  lemma RunNew(s: State, p: nat, ch: Choice, q: nat)
    requires s.Enabled(p, ch) && (s.pc[p].Running? || s.pc[p].Forking()) && q < |s.pc| && s.pc[q].Idle?
    ensures !s.RunStep(p, ch).pc[q].Scan?
  {
  }

  lemma NewKids(s: State, e: Event, s': State, q: nat)
    requires Steps(s, e, s') && (q >= |s.pc| || s.pc[q].Idle?)
    ensures KidsAt(s', q)
  {
    hide State.WaitStep, State.ExitStep, State.RunStep, HasChild;
    if e.Do? && q < |s.pc| {
      if s.pc[e.p].InWait() {
        WaitAside(s, e.p, e.ch, q);
      } else if s.pc[e.p].Running? || s.pc[e.p].Forking() {
        RunNew(s, e.p, e.ch, q);
      } else {
        ExitAside(s, e.p, e.ch, q);
      }
    }
  }

  lemma KidsStep(s: State, e: Event, s': State, q: nat)
    requires s.Inv() && Steps(s, e, s') && KidsAt(s, q)
    ensures KidsAt(s', q)
  {
    hide State.Inv, State.Next;
    if q >= |s.pc| || s.pc[q].Idle? {
      NewKids(s, e, s', q);
    } else if e.Do? && e.p == q {
      OwnKids(s, q, e.ch);
    } else {
      OtherStep(s, e, s', q);
    }
  }

  lemma {:induction false} RunKids(run: seq<State>, events: seq<Event>, i: nat, p: nat)
    requires Run(run, events) && i < |run|
    ensures KidsAt(run[i], p)
  {
    hide State.Inv, Steps, KidsAt;
    if i == 0 {
      NoScan(run[0], p);
    } else {
      RunKids(run, events, i - 1, p);
      RunInv(run, events, i - 1);
      KidsStep(run[i - 1], events[i - 1], run[i], p);
    }
  }

  lemma NoScan(s: State, p: nat)
    requires Init(s)
    ensures KidsAt(s, p)
  {
  }

  /**
   A process leaves wait only with the status of a child, because it is killed
   or the copy fails, or because it has no child.  At the end of its scan it
   goes to sleep if and only if it has a child, and then none is a zombie.
   */
  lemma WaitReturns(run: seq<State>, events: seq<Event>, i: nat, p: nat, ch: Choice)
    requires Run(run, events) && i < |events| && events[i] == Do(p, ch)
    requires p < |run[i].pc| && (run[i].pc[p].InWait() || (run[i].pc[p].Running? && ch == DoWait))
    ensures var s, s' := run[i], run[i + 1];
            && s.Sizes() && s'.Sizes() && |s'.pc| == |s.pc| && (s.pc[p].Running? ==> s'.pc[p].InWait())
            && (!s'.pc[p].InWait() ==>
                  s'.pc[p].Running? && (s.Reaps(p, ch) || ch.GiveUp? || !HasChild(s, p, |s.pc|)))
            && (s.pc[p].Scan? && s.pc[p].j >= |s.pc| && !ch.GiveUp? ==>
                  (s'.pc[p].Rest? <==> HasChild(s, p, |s.pc|))
                  && (s'.pc[p].Rest? <==> !s'.pc[p].Running?)
                  && forall c :: 0 <= c < |s.pc| && s.parent[c] == p ==> s.st[c] != Zombie)
  {
    hide State.Inv;
    var s, s' := run[i], run[i + 1];
    RunInv(run, events, i);
    RunInv(run, events, i + 1);
    RunKids(run, events, i, p);
    s.Placed(p);
    s'.Placed(p);
    if s.pc[p].Scan? && s.pc[p].j >= |s.pc| {
      forall c: nat | c < |s.pc| && s.parent[c] == p ensures s.st[c] != Zombie {
        s.Related(p, c);
      }
    }
  }

  lemma SettlingStep(s: State, e: Event, s': State, p: nat)
    requires s.Inv() && Steps(s, e, s') && p < |s.pc| && s.pc[p].Settling()
    ensures s'.Sizes() && |s'.pc| == |s.pc| && (s'.pc[p].Settling() || s'.st[p] == Asleep)
  {
    hide State.Inv;
    s.Placed(p);
    if e.Do? && e.p == p {
      hide State.ExitStep, State.RunStep;
    } else {
      hide State.Next;
      OtherStep(s, e, s', p);
    }
  }

  /** A process that found children but no zombie does not scan again before it has been asleep. */
  lemma {:induction false} SleepsBetween(run: seq<State>, events: seq<Event>, i: nat, j: nat, p: nat) returns (m: nat)
    requires Run(run, events) && i <= j < |run| && p < |run[i].pc| && run[i].pc[p].Settling()
    requires p < |run[j].pc| && !run[j].pc[p].Settling()
    ensures i < m <= j && p < |run[m].st| && run[m].st[p] == Asleep
    decreases j - i
  {
    hide State.Inv, Steps, Init;
    RunInv(run, events, i);
    SettlingStep(run[i], events[i], run[i + 1], p);
    if run[i + 1].pc[p].Settling() {
      m := SleepsBetween(run, events, i + 1, j, p);
    } else {
      m := i + 1;
    }
  }

  // ------------------------------------------------------------------
  // What exit does

  /** The process with pid k in slot p is on its way out with status v, or its parent has been told v. */
  ghost predicate Leaving(s: State, p: nat, k: nat, v: int) {
    || (k in s.reaped && s.reaped[k] == v)
    || (s.Sizes() && p < |s.pc| && s.pid[p] == k && s.pc[p].Exiting() && s.code[p] == v)
    || (s.Sizes() && p < |s.pc| && s.pid[p] == k && s.pc[p].Dead() && s.xstate[p] == v)
  }

  lemma ReapedStays(s: State, e: Event, s': State, k: nat)
    requires s.Inv() && Steps(s, e, s') && k in s.reaped
    ensures k in s'.reaped && s'.reaped[k] == s.reaped[k]
  {
    hide State.Inv, State.Next;
    if e.Do? && s.Reaps(e.p, e.ch) {
      s.ReapKeeps(s.pc[e.p].j);
    }
  }

  lemma OwnLeaving(s: State, p: nat, ch: Choice, k: nat, v: int)
    requires s.Enabled(p, ch) && s.pid[p] == k
    requires (s.pc[p].Exiting() && s.code[p] == v) || (s.pc[p].Dead() && s.xstate[p] == v)
    ensures Leaving(s.ExitStep(p, ch), p, k, v) && s.Next(p, ch) == s.ExitStep(p, ch)
  {
  }

  lemma LeavingStep(s: State, e: Event, s': State, p: nat, k: nat, v: int)
    requires s.Inv() && Steps(s, e, s') && Leaving(s, p, k, v)
    ensures Leaving(s', p, k, v)
  {
    hide State.Inv, State.Next;
    if k in s.reaped && s.reaped[k] == v {
      ReapedStays(s, e, s', k);
    } else if e.Do? && e.p == p {
      OwnLeaving(s, p, e.ch, k, v);
    } else {
      s.Placed(p);
      OtherStep(s, e, s', p);
    }
  }

  /**
   exit does not return: from the call on, the process is in exit or a zombie
   with the status it gave, until a parent has been told that status.
   */
  lemma {:induction false} ExitIsFinal(run: seq<State>, events: seq<Event>, j: nat, i: nat, p: nat, v: int)
    requires Run(run, events) && j < i < |run| && events[j] == Do(p, DoExit(v))
    requires p < |run[j].pc| == |run[j].pid| && run[j].pc[p].Running?
    ensures Leaving(run[i], p, run[j].pid[p], v)
  {
    hide State.Inv, Init;
    RunInv(run, events, i - 1);
    if j + 1 < i {
      hide Steps, Leaving;
      ExitIsFinal(run, events, j, i - 1, p, v);
      LeavingStep(run[i - 1], events[i - 1], run[i], p, run[j].pid[p], v);
    }
  }

  // ------------------------------------------------------------------
  // What fork does

  /** p is making the process in slot c, with pid k. */
  ghost predicate Making(s: State, p: nat, c: nat, k: nat) {
    && s.Sizes() && p < |s.pc| && c < |s.pc| && s.pid[c] == k
    && (s.pc[p] == ForkParent(c) || s.pc[p] == ForkReady(c))
  }

  /** fork has returned to p, and its child in slot c, with pid k, runs. */
  ghost predicate Made(s: State, p: nat, c: nat, k: nat) {
    && s.Sizes() && p < |s.pc| && c < |s.pc| && p != c && s.pc[p].Running?
    && s.pid[c] == k && s.parent[c] == p && s.st[c] == Live && s.pc[c].Running?
    && k !in s.exited && k !in s.reaped
    && forall q :: 0 <= q < |s.pc| && q != c && s.st[q] != Unused ==> s.pid[q] != k
  }

  /** Only fork gives out a pid, to an unused slot. */
  lemma PidStays(s: State, e: Event, s': State, q: nat)
    requires Steps(s, e, s') && q < |s.pc| == |s.st| == |s.pid| && s.st[q] != Unused
    ensures s'.Sizes() && |s'.pc| == |s.pc| && s'.pid[q] == s.pid[q]
  {
    hide State.ExitStep;
    if e.Do? && (s.pc[e.p].Exiting() || s.pc[e.p].Dead()) {
      ExitPids(s, e.p, e.ch);
    }
  }

  lemma ExitPids(s: State, p: nat, ch: Choice)
    requires s.Enabled(p, ch) && (s.pc[p].Exiting() || s.pc[p].Dead())
    ensures s.ExitStep(p, ch).pid == s.pid
  {
  }

  lemma OwnMaking(s: State, p: nat, ch: Choice, c: nat, k: nat)
    requires s.Inv() && s.Enabled(p, ch) && s.Next(p, ch).Inv() && Making(s, p, c, k)
    ensures Making(s.Next(p, ch), p, c, k) || Made(s.Next(p, ch), p, c, k)
  {
    hide State.Inv;
    s.Placed(p);
    if s.pc[p].ForkReady? {
      Named(s.Next(p, ch), c);
    }
  }

  lemma MakingStep(s: State, e: Event, s': State, p: nat, c: nat, k: nat)
    requires s.Inv() && s'.Inv() && Steps(s, e, s') && Making(s, p, c, k)
    ensures Making(s', p, c, k) || Made(s', p, c, k)
  {
    hide State.Inv, State.Next;
    if e.Do? && e.p == p {
      OwnMaking(s, p, e.ch, c, k);
    } else {
      s.Placed(p);
      OtherStep(s, e, s', p);
      PidStays(s, e, s', c);
    }
  }

  lemma Named(s: State, c: nat)
    requires s.Inv() && c < |s.pc| && s.st[c] == Live
    ensures s.Sizes() && s.RecordAt(c) && forall q :: 0 <= q < |s.pc| && q != c && s.st[q] != Unused ==>
              s.pid[q] != s.pid[c]
  {
    forall q: nat | q < |s.pc| && q != c && s.st[q] != Unused ensures s.pid[q] != s.pid[c] {
      assert s.PidsAt(q, c);
    }
  }

  /**
   When fork returns to its caller, the slot it took holds a running process,
   the caller's child, with a pid that no other process has and none that exited had.
   */
  lemma {:induction false} ForkStarts(run: seq<State>, events: seq<Event>, j: nat, i: nat, p: nat, c: nat)
    requires Run(run, events) && j < i < |run| && events[j] == Do(p, DoFork(c))
    requires p < |run[j].pc| && run[j].pc[p].Running?
    requires forall m :: j < m < i && p < |run[m].pc| ==> !run[m].pc[p].Running?
    ensures Making(run[i], p, c, run[j].nextpid) || Made(run[i], p, c, run[j].nextpid)
  {
    hide State.Inv, Init;
    RunInv(run, events, i - 1);
    RunInv(run, events, i);
    if j + 1 < i {
      hide Steps;
      ForkStarts(run, events, j, i - 1, p, c);
      MakingStep(run[i - 1], events[i - 1], run[i], p, c, run[j].nextpid);
    }
  }
}
