/**
 Whole runs of the log: operations, commits write by write, power failures
 between or in the middle of block writes, recoveries and power failures inside
 recoveries, in any order.  While one process commits, others may try to begin.
 Every run refines a file system whose groups of operations are atomic and
 durable.
 */
module LogRuns {
  import opened Common
  import opened LogSpec
  import opened LogTorn

  /** The write under way at a power failure has not begun, or leaves this block behind. */
  datatype Tear = Clean | Torn(data: Block)

  datatype Event =
    | Begin
    | Refused
    | Update(b: nat, data: Block)
    | End
    | CommitWrite
    | Done
    | PowerFail(tear: Tear)
    | CrashInRecovery(k: nat, tear: Tear)
    | Reboot

  /**
   Memory and disk; or, in a commit, both as it began and the number of writes
   made; or only the disk after the power is gone.
   */
  datatype State =
    | Up(disk: Disk, view: Disk, lh: seq<int>, outstanding: nat)
    | Committing(disk: Disk, view: Disk, lh: seq<int>, k: nat)
    | Down(disk: Disk)

  /** begin_op's second test. */
  ghost predicate HasRoom(s: State)
    requires s.Up?
  {
    |s.lh| + (s.outstanding + 1) * MAXOPBLOCKS <= LOGSIZE
  }

  /** The power fails after k of the writes ws, perhaps within the next. */
  ghost predicate Cut(l: Layout, d: Disk, ws: seq<Write>, k: nat, tear: Tear, d': Disk)
    requires InRange(d, ws)
  {
    && k <= |ws|
    && match tear
       case Clean => d' == After(d, ws, k)
       case Torn(t) => k < |ws| && Tears(l, After(d, ws, k), ws[k], t) && d' == After(d, ws, k)[ws[k].block := t]
  }

  /** The steps of kernel/log.c; the methods of Log.RedoLog have these effects. */
  ghost predicate Next(l: Layout, s: State, e: Event, s': State) {
    Wf(l, s) &&
    match e
    case Begin => s.Up? && HasRoom(s) && s' == s.(outstanding := s.outstanding + 1)
    case Refused => (s.Committing? || (s.Up? && !HasRoom(s))) && s' == s
    case Update(b, data) =>
      s.Up? && s.outstanding > 0 && l.IsHome(b) && |s.lh| < l.size - 1 &&
      s' == Up(s.disk, s.view[b := data], if b in s.lh then s.lh else s.lh + [b], s.outstanding)
    case End =>
      s.Up? && s.outstanding > 0 &&
      s' == if s.outstanding > 1 then s.(outstanding := s.outstanding - 1) else Committing(s.disk, s.view, s.lh, 0)
    case CommitWrite =>
      s.Committing? && s.k < |CommitWrites(l, s.disk, s.lh, s.view)| && s' == s.(k := s.k + 1)
    case Done =>
      s.Committing? && s.k == |CommitWrites(l, s.disk, s.lh, s.view)| &&
      var d := CommittedDisk(l, s.disk, s.lh, s.view); s' == Up(d, d, [], 0)
    case PowerFail(tear) =>
      s'.Down? && !s.Down? &&
      if s.Up? then tear.Clean? && s'.disk == s.disk
      else Cut(l, s.disk, CommitWrites(l, s.disk, s.lh, s.view), s.k, tear, s'.disk)
    case CrashInRecovery(k, tear) =>
      s'.Down? && s.Down? && Cut(l, s.disk, RecoveryWrites(l, s.disk), k, tear, s'.disk)
    case Reboot =>
      s.Down? && var d := RecoveredDisk(l, s.disk); s' == Up(d, d, [], 0)
  }

  /** What every reachable state satisfies. */
  ghost predicate Wf(l: Layout, s: State) {
    && l.ValidDisk(s.disk)
    && (!s.Down? ==>
          && s.disk[l.start].words[0] == 0 && |s.view| == |s.disk| && l.ValidList(s.lh)
          && forall b :: 0 <= b < l.nblocks && b !in s.lh ==> s.view[b] == s.disk[b])
    && (s.Committing? ==> s.k <= |CommitWrites(l, s.disk, s.lh, s.view)|)
  }

  // ------------------------------------------------------------------
  // The file system the log is meant to provide

  type Files = map<nat, Block>

  datatype Spec = Spec(durable: Files, current: Files, running: nat, committing: bool, up: bool)

  /** Groups of operations become durable at once or, in a crash, perhaps not at all. */
  ghost predicate SpecNext(a: Spec, e: Event, a': Spec) {
    match e
    case Begin => a.up && !a.committing && a' == a.(running := a.running + 1)
    case Refused => a.up && a' == a
    case Update(b, data) =>
      a.up && a.running > 0 && b in a.current && a' == a.(current := a.current[b := data])
    case End =>
      a.up && a.running > 0 &&
      a' == if a.running > 1 then a.(running := a.running - 1) else a.(running := 0, committing := true)
    case CommitWrite =>
      a.up && a.committing && a.running == 0 && (a' == a || a' == a.(durable := a.current))
    case Done =>
      a.up && a.committing && a.running == 0 && a' == a.(durable := a.current, committing := false)
    case PowerFail(_) =>
      a.up && (a' == Lost(a.durable) || (a.committing && a.running == 0 && a' == Lost(a.current)))
    case CrashInRecovery(_, _) => !a.up && a' == a
    case Reboot => !a.up && a' == Spec(a.durable, a.durable, 0, false, true)
  }

  function Lost(f: Files): Spec { Spec(f, f, 0, false, false) }

  /** The file system that a state of the log stands for. */
  ghost function Abs(l: Layout, s: State): (a: Spec)
    requires Wf(l, s)
  {
    match s
    case Up(d, v, _, n) => Spec(l.Home(d), l.Home(v), n, false, true)
    case Committing(d, v, lh, k) => Spec(if k <= |lh| then l.Home(d) else l.Home(v), l.Home(v), 0, true, true)
    case Down(d) => Lost(Recovered(l, d))
  }

  /** For logged and unlogged blocks alike, the overlay is what the cache holds. */
  lemma OverlayIsView(l: Layout, s: State)
    requires !s.Down? && Wf(l, s)
    ensures Overlay(l, s.disk, s.lh, s.view) == l.Home(s.view)
  {
  }

  /** Every step of the log is a step of that file system, and keeps Wf. */
  lemma StepRefines(l: Layout, s: State, e: Event, s': State)
    requires Next(l, s, e, s')
    ensures Wf(l, s') && SpecNext(Abs(l, s), e, Abs(l, s'))
  {
    hide CommitWrites, CommittedDisk, RecoveryWrites, RecoveredDisk, Recovered, Cut, Overlay, Tears;
    match e
    case Begin =>
    case Refused =>
    case Update(b, data) =>
      assert l.Home(s'.view) == l.Home(s.view)[b := data];
    case End =>
    case CommitWrite =>
    case Done =>
      OverlayIsView(l, s);
      CommitComplete(l, s.disk, s.lh, s.view);
    case PowerFail(tear) =>
      PowerFailRefines(l, s, tear, s');
    case CrashInRecovery(k, tear) =>
      RecoveryCrashRefines(l, s, k, tear, s');
    case Reboot =>
      RecoveryClears(l, s.disk);
      RecoveredIs(l, s.disk);
  }

  lemma RecoveredIs(l: Layout, d: Disk)
    requires l.ValidDisk(d)
    ensures Recovered(l, d) == l.Home(RecoveredDisk(l, d))
  {
  }

  lemma PowerFailRefines(l: Layout, s: State, tear: Tear, s': State)
    requires Next(l, s, PowerFail(tear), s')
    ensures Wf(l, s') && SpecNext(Abs(l, s), PowerFail(tear), Abs(l, s'))
  {
    hide CommitWrites, Recovered, Overlay, Tears, Layout.Home, Layout.ValidDisk, Layout.ValidList;
    if s.Up? {
      RecoveredEmpty(l, s.disk);
    } else {
      OverlayIsView(l, s);
      match tear
      case Clean => CommitAtomic(l, s.disk, s.lh, s.view, s.k);
      case Torn(t) => CommitTorn(l, s.disk, s.lh, s.view, s.k, t);
    }
  }

  lemma RecoveryCrashRefines(l: Layout, s: State, k: nat, tear: Tear, s': State)
    requires Next(l, s, CrashInRecovery(k, tear), s')
    ensures Wf(l, s') && SpecNext(Abs(l, s), CrashInRecovery(k, tear), Abs(l, s'))
  {
    match tear
    case Clean => RecoveryRestartable(l, s.disk, k);
    case Torn(t) => RecoveryTorn(l, s.disk, k, t);
  }

  // ------------------------------------------------------------------
  // What readers see during a commit

  /** Writes that all put x into a block that holds x. */
  lemma {:induction false} AfterSame(d: Disk, ws: seq<Write>, k: nat, b: nat)
    requires InRange(d, ws) && k <= |ws| && b < |d|
    requires forall i :: 0 <= i < k && ws[i].block == b ==> ws[i].data == d[b]
    ensures After(d, ws, k)[b] == d[b]
  {
    if k > 0 {
      AfterSame(d, ws, k - 1, b);
    }
  }

  /** A write of a commit to a home block carries what the cache holds for it. */
  lemma WriteHome(l: Layout, d: Disk, lh: seq<int>, view: Disk, i: nat)
    requires l.ValidDisk(d) && l.ValidList(lh) && |view| == |d| && i < |CommitWrites(l, d, lh, view)|
    requires l.IsHome(CommitWrites(l, d, lh, view)[i].block)
    ensures CommitWrites(l, d, lh, view)[i].data == view[CommitWrites(l, d, lh, view)[i].block]
  {
    hide CommitWrites;
    CommitEmpty(l, d, view);
    if i <= |lh| {
      FirstWrites(l, d, lh, view, i);
    } else {
      InstallWrite(l, d, lh, view, i - |lh| - 1);
    }
  }

  lemma InstallWrite(l: Layout, d: Disk, lh: seq<int>, view: Disk, j: nat)
    requires l.ValidDisk(d) && l.ValidList(lh) && |view| == |d| && |lh| + 1 + j < |CommitWrites(l, d, lh, view)|
    ensures var w := CommitWrites(l, d, lh, view)[|lh| + 1 + j];
            if j < |lh| then w == Write(lh[j], view[lh[j]]) else w.block == l.start
  {
    var d2 := HeadedDisk(l, d, lh, view);
    CommitSuffix(l, d, lh, view, 0);
    HeadedDiskHeader(l, d, lh, view);
    assert CommitWrites(l, d, lh, view)[|lh| + 1 + j] == RecoveryWrites(l, d2)[j];
    if j < |lh| {
      HeadedDiskSlot(l, d, lh, view, j);
    }
  }

  /** At every point of a commit, whoever reads a home block sees the whole group, and nothing moves. */
  lemma ViewStands(l: Layout, d: Disk, lh: seq<int>, view: Disk, k: nat)
    requires l.ValidDisk(d) && l.ValidList(lh) && |view| == |d| && k <= |CommitWrites(l, d, lh, view)|
    ensures InRange(view, CommitWrites(l, d, lh, view))
    ensures l.Home(After(view, CommitWrites(l, d, lh, view), k)) == l.Home(view)
  {
    var ws := CommitWrites(l, d, lh, view);
    forall b: nat | b < l.nblocks && !l.InLog(b) ensures After(view, ws, k)[b] == view[b] {
      forall i | 0 <= i < k && ws[i].block == b ensures ws[i].data == view[b] {
        WriteHome(l, d, lh, view, i);
      }
      AfterSame(view, ws, k, b);
    }
  }

  // ------------------------------------------------------------------
  // Runs of that file system

  ghost predicate SpecStep(specs: seq<Spec>, events: seq<Event>, i: int)
    requires 0 <= i < |events| == |specs| - 1
  {
    SpecNext(specs[i], events[i], specs[i + 1])
  }

  ghost predicate SpecRun(specs: seq<Spec>, events: seq<Event>) {
    && |specs| == |events| + 1
    && specs[0].up && specs[0].running == 0 && specs[0].durable == specs[0].current
    && forall i :: 0 <= i < |events| ==> SpecStep(specs, events, i)
  }

  /** A point where no operation is running: a whole group is complete. */
  ghost predicate Boundary(specs: seq<Spec>, j: nat)
    requires j < |specs|
  {
    specs[j].up && specs[j].running == 0
  }

  ghost predicate NoneCommitsBetween(events: seq<Event>, j: nat, i: nat)
    requires i <= |events|
  {
    forall m :: j < m < i ==> !events[m].Done?
  }

  /**
   At every point the durable files are those of some earlier boundary between
   groups, at or after the last completed commit: no operation is half applied
   and no committed operation is lost.
   */
  lemma {:induction false} DurableIsABoundary(specs: seq<Spec>, events: seq<Event>, i: nat) returns (j: nat)
    requires SpecRun(specs, events) && i < |specs|
    ensures j <= i && Boundary(specs, j)
    ensures specs[i].durable == specs[j].current
    ensures NoneCommitsBetween(events, j, i)
  {
    if i == 0 {
      j := 0;
    } else {
      j := DurableIsABoundary(specs, events, i - 1);
      assert SpecStep(specs, events, i - 1);
      if specs[i].durable != specs[i - 1].durable || events[i - 1].Done? {
        j := i - 1;
      }
    }
  }

  // ------------------------------------------------------------------
  // Runs of the log

  ghost predicate Step(l: Layout, states: seq<State>, events: seq<Event>, i: int)
    requires 0 <= i < |events| == |states| - 1
  {
    Next(l, states[i], events[i], states[i + 1])
  }

  /** Step after step, from a log with nothing in it. */
  ghost predicate Run(l: Layout, states: seq<State>, events: seq<Event>) {
    && |states| == |events| + 1
    && Wf(l, states[0]) && states[0].Up? && states[0].outstanding == 0 && states[0].lh == []
    && forall i :: 0 <= i < |events| ==> Step(l, states, events, i)
  }

  lemma {:induction false} RunWf(l: Layout, states: seq<State>, events: seq<Event>, i: nat)
    requires Run(l, states, events) && i < |states|
    ensures Wf(l, states[i])
  {
    if i > 0 {
      assert Step(l, states, events, i - 1);
      StepRefines(l, states[i - 1], events[i - 1], states[i]);
    }
  }

  ghost predicate StandsForAt(l: Layout, states: seq<State>, specs: seq<Spec>, i: int)
    requires 0 <= i < |states| == |specs|
  {
    Wf(l, states[i]) && specs[i] == Abs(l, states[i])
  }

  /** specs are the file systems that the states of a run stand for. */
  ghost predicate StandFor(l: Layout, states: seq<State>, specs: seq<Spec>) {
    |specs| == |states| && forall i :: 0 <= i < |states| ==> StandsForAt(l, states, specs, i)
  }

  lemma RunRefines(l: Layout, states: seq<State>, events: seq<Event>) returns (specs: seq<Spec>)
    requires Run(l, states, events)
    ensures SpecRun(specs, events) && StandFor(l, states, specs)
  {
    hide SpecNext, Next, Wf, Abs;
    specs := seq(|states|, i requires 0 <= i < |states| =>
      if Wf(l, states[i]) then Abs(l, states[i]) else Lost(map[]));
    StartsDurable(l, states[0]);
    forall i | 0 <= i < |states| ensures StandsForAt(l, states, specs, i) {
      RunWf(l, states, events, i);
    }
    forall i | 0 <= i < |events| ensures SpecStep(specs, events, i) {
      assert Step(l, states, events, i) && StandsForAt(l, states, specs, i) && StandsForAt(l, states, specs, i + 1);
      StepRefines(l, states[i], events[i], states[i + 1]);
    }
  }

  lemma StartsDurable(l: Layout, s: State)
    requires Wf(l, s) && s.Up? && s.lh == [] && s.outstanding == 0
    ensures var a := Abs(l, s); a.up && a.running == 0 && a.durable == a.current
  {
    assert l.Home(s.disk) == l.Home(s.view);
  }

  /** A reboot brings up exactly the durable files. */
  lemma RebootReads(l: Layout, s: State, s': State)
    requires Next(l, s, Reboot, s')
    ensures Wf(l, s') && s'.Up? && l.Home(s'.disk) == Abs(l, s).durable
  {
    StepRefines(l, s, Reboot, s');
  }

  /**
   At point i the home blocks on the disk are those that the running system
   held at the earlier point j, where no operation was running, and no commit
   was completed after j.
   */
  ghost predicate ComesUpAs(l: Layout, states: seq<State>, events: seq<Event>, i: nat, j: nat)
    requires |states| == |events| + 1 && j < i < |states|
  {
    && states[i].Up? && !states[j].Down? && (states[j].Up? ==> states[j].outstanding == 0)
    && |states[i].disk| == |states[j].view| == l.nblocks
    && l.Home(states[i].disk) == l.Home(states[j].view)
    && NoneCommitsBetween(events, j, i)
  }

  lemma {:induction false} RebootAt(l: Layout, states: seq<State>, events: seq<Event>, specs: seq<Spec>, i: nat, j: nat)
    requires Run(l, states, events) && 0 < i < |states| && events[i - 1] == Reboot && j < i
    requires StandFor(l, states, specs) && Boundary(specs, j)
    requires specs[i - 1].durable == specs[j].current && NoneCommitsBetween(events, j, i - 1)
    ensures ComesUpAs(l, states, events, i, j)
  {
    hide Next, Recovered, CommitWrites, Overlay;
    assert StandsForAt(l, states, specs, j) && StandsForAt(l, states, specs, i - 1);
    assert Step(l, states, events, i - 1);
    RebootReads(l, states[i - 1], states[i]);
  }

  /**
   Crash atomicity of whole runs: whenever the system comes up again, its files
   are exactly those of a boundary between groups of operations after which no
   commit was completed, however often the power failed, also in the middle of
   block writes and of recoveries.
   */
  lemma CrashAtomicity(l: Layout, states: seq<State>, events: seq<Event>, i: nat) returns (j: nat)
    requires Run(l, states, events) && 0 < i < |states| && events[i - 1] == Reboot
    ensures j < i && ComesUpAs(l, states, events, i, j)
  {
    var specs := RunRefines(l, states, events);
    j := DurableIsABoundary(specs, events, i - 1);
    RebootAt(l, states, events, specs, i, j);
  }

  // ------------------------------------------------------------------
  // A commit as a stretch of a run

  /** Every state but the last makes the next write of a commit. */
  ghost predicate CommitSteps(l: Layout, states: seq<State>) {
    forall i :: 0 <= i < |states| - 1 ==> Next(l, states[i], CommitWrite, states[i + 1])
  }

  /** m writes of a commit, one after the other, are steps of a run. */
  lemma {:induction false} CommitStretch(l: Layout, s: State, m: nat) returns (states: seq<State>)
    requires Wf(l, s) && s.Committing? && s.k + m <= |CommitWrites(l, s.disk, s.lh, s.view)|
    ensures |states| == m + 1 && states[0] == s && states[m] == s.(k := s.k + m)
    ensures CommitSteps(l, states)
    decreases m
  {
    hide CommitWrites, CommittedDisk, RecoveryWrites, RecoveredDisk, Cut, Layout.ValidDisk, Layout.ValidList;
    if m == 0 {
      states := [s];
    } else {
      var rest := CommitStretch(l, s.(k := s.k + 1), m - 1);
      states := [s] + rest;
    }
  }
}
