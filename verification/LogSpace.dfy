/**
 Space in the log (kernel/log.c): begin_op reserves MAXOPBLOCKS blocks for each
 running operation against LOGSIZE, while log_write panics when the list holds
 log.size - 1 blocks, and mkfs builds logs with log.size == LOGSIZE.
 Every run of the log is considered, with books on which operation logged what,
 each operation logging at most `budget` distinct blocks.
 */
module LogSpace {
  import opened Common
  import opened LogSpec
  import opened LogRuns
  import Sets

  /** The distinct logged blocks, and for each running operation those it logged. */
  datatype Books = Books(logged: set<int>, ops: seq<set<int>>)

  const Idle := Books({}, [])

  /** Operation i may log block b without exceeding its budget. */
  ghost predicate MayLog(budget: nat, a: Books, i: nat, b: int) {
    i < |a.ops| && |a.ops[i] + {b}| <= budget
  }

  /** The books after an event of operation i; a commit or a power failure closes them. */
  ghost function Booked(a: Books, e: Event, i: nat): (a': Books) {
    match e
    case Begin => a.(ops := a.ops + [{}])
    case Update(b, _) =>
      if i < |a.ops| then Books(a.logged + {b}, a.ops[i := a.ops[i] + {b}]) else a
    case End =>
      if i < |a.ops| then Books(if |a.ops| == 1 then {} else a.logged, Without(a.ops, i)) else a
    case PowerFail(_) => Idle
    case _ => a
  }

  /** The books before event k; who says whose each event is. */
  ghost function BooksAt(events: seq<Event>, who: seq<nat>, k: nat): (a: Books)
    requires |who| == |events| && k <= |events|
  {
    if k == 0 then Idle else Booked(BooksAt(events, who, k - 1), events[k - 1], who[k - 1])
  }

  /** Event k belongs to a running operation that keeps to its budget. */
  ghost predicate FairAt(budget: nat, events: seq<Event>, who: seq<nat>, k: nat)
    requires |who| == |events|
  {
    k < |events| ==>
      && (events[k].Update? ==> MayLog(budget, BooksAt(events, who, k), who[k], events[k].b))
      && (events[k].End? ==> who[k] < |BooksAt(events, who, k).ops|)
  }

  ghost predicate Fair(budget: nat, events: seq<Event>, who: seq<nat>) {
    |who| == |events| && forall k :: FairAt(budget, events, who, k)
  }

  ghost function ListSet(lh: seq<int>): (s: set<int>) { set b | b in lh }

  /** The books are about this state of the log. */
  ghost predicate Agrees(s: State, a: Books) {
    if s.Up? then a.logged == ListSet(s.lh) && s.outstanding == |a.ops| else a == Idle
  }

  lemma ListSize(l: Layout, lh: seq<int>)
    requires l.ValidList(lh)
    ensures |ListSet(lh)| == |lh|
  {
    Sets.DistinctSize(lh);
  }

  // ------------------------------------------------------------------
  // Budgets

  /** What the running operations may still log, at `budget` blocks each. */
  ghost function Left(budget: nat, ops: seq<set<int>>): (r: int)
    decreases |ops|
  {
    if ops == [] then 0
    else Left(budget, ops[..|ops| - 1]) + budget - |ops[|ops| - 1]|
  }

  ghost predicate Within(budget: nat, ops: seq<set<int>>) {
    forall i :: 0 <= i < |ops| ==> |ops[i]| <= budget
  }

  lemma {:induction false} LeftBounds(budget: nat, ops: seq<set<int>>)
    requires Within(budget, ops)
    ensures 0 <= Left(budget, ops) <= |ops| * budget
    decreases |ops|
  {
    if ops != [] {
      LeftBounds(budget, ops[..|ops| - 1]);
    }
  }

  lemma {:induction false} LeftUpdate(budget: nat, ops: seq<set<int>>, i: nat, o: set<int>)
    requires i < |ops|
    ensures Left(budget, ops[i := o]) == Left(budget, ops) + |ops[i]| - |o|
    decreases |ops|
  {
    var n := |ops| - 1;
    if i < n {
      LeftUpdate(budget, ops[..n], i, o);
      assert ops[i := o][..n] == ops[..n][i := o];
    } else {
      assert ops[i := o][..n] == ops[..n];
    }
  }

  lemma {:induction false} LeftRemove(budget: nat, ops: seq<set<int>>, i: nat)
    requires i < |ops|
    ensures Left(budget, ops[..i] + ops[i + 1..]) == Left(budget, ops) - budget + |ops[i]|
    decreases |ops|
  {
    var n := |ops| - 1;
    var rest := ops[..i] + ops[i + 1..];
    if i < n {
      LeftRemove(budget, ops[..n], i);
      assert rest[..|rest| - 1] == ops[..n][..i] + ops[..n][i + 1..];
    } else {
      assert rest == ops[..n];
    }
  }

  // ------------------------------------------------------------------
  // The reservation is sound

  /**
   `slack` is the room kept free: with it, the list plus everything that
   running operations may still log stays within LOGSIZE - slack.
   */
  ghost predicate Reserved(budget: nat, slack: nat, a: Books) {
    && Within(budget, a.ops)
    && (forall i :: 0 <= i < |a.ops| ==> a.ops[i] <= a.logged)
    && (a.ops == [] ==> a.logged == {})
    && (a.ops != [] ==> |a.logged| + Left(budget, a.ops) <= LOGSIZE - slack)
  }

  /** Slack that the reservation leaves: none at the full budget, two blocks below it. */
  ghost predicate Fits(budget: nat, slack: nat) {
    (budget == MAXOPBLOCKS && slack == 0) || (budget < MAXOPBLOCKS && slack == 2)
  }

  lemma BeginKeeps(budget: nat, slack: nat, a: Books)
    requires Fits(budget, slack) && Reserved(budget, slack, a)
    requires |a.logged| + (|a.ops| + 1) * MAXOPBLOCKS <= LOGSIZE
    ensures Reserved(budget, slack, Booked(a, Begin, 0))
  {
    var ops := a.ops + [{}];
    LeftBounds(budget, a.ops);
    assert ops[..|ops| - 1] == a.ops;
    assert Left(budget, ops) == Left(budget, a.ops) + budget;
    if budget < MAXOPBLOCKS {
      MulMono(|a.ops|, budget, MAXOPBLOCKS - 1);
    }
  }

  lemma MulMono(a: nat, b: nat, c: nat)
    requires b <= c
    ensures a * b <= a * c
  {
  }

  lemma LogKeeps(budget: nat, slack: nat, a: Books, b: nat, data: Block, i: nat)
    requires Reserved(budget, slack, a) && MayLog(budget, a, i, b)
    ensures Reserved(budget, slack, Booked(a, Update(b, data), i))
  {
    LeftUpdate(budget, a.ops, i, a.ops[i] + {b});
    if b in a.ops[i] {
      assert a.ops[i] + {b} == a.ops[i] && a.logged + {b} == a.logged;
    }
  }

  lemma EndKeeps(budget: nat, slack: nat, a: Books, i: nat)
    requires Reserved(budget, slack, a) && i < |a.ops|
    ensures Reserved(budget, slack, Booked(a, End, i))
  {
    LeftRemove(budget, a.ops, i);
  }

  /** One step of the log, with its entry in the books. */
  lemma StepKeeps(l: Layout, budget: nat, slack: nat, s: State, e: Event, s': State, a: Books, i: nat)
    requires Fits(budget, slack) && Next(l, s, e, s') && Agrees(s, a) && Reserved(budget, slack, a)
    requires e.Update? ==> MayLog(budget, a, i, e.b)
    requires e.End? ==> i < |a.ops|
    ensures Agrees(s', Booked(a, e, i)) && Reserved(budget, slack, Booked(a, e, i))
  {
    hide Layout.ValidDisk, CommitWrites, CommittedDisk, RecoveredDisk, RecoveryWrites, Cut, Left;
    if s.Up? {
      ListSize(l, s.lh);
    }
    match e
    case Begin => BeginKeeps(budget, slack, a);
    case Update(b, data) =>
      LogKeeps(budget, slack, a, b, data, i);
      assert ListSet(s'.lh) == ListSet(s.lh) + {b};
    case End => EndKeeps(budget, slack, a, i);
    case Done => assert ListSet([]) == {};
    case Reboot => assert ListSet([]) == {};
    case _ =>
  }

  /** At every point of every run the books are about the list, and within the reservation. */
  lemma {:induction false} ReservationHolds(l: Layout, budget: nat, slack: nat, states: seq<State>, events: seq<Event>,
                                            who: seq<nat>, k: nat)
    requires Fits(budget, slack) && Run(l, states, events) && Fair(budget, events, who) && k < |states|
    ensures Agrees(states[k], BooksAt(events, who, k)) && Reserved(budget, slack, BooksAt(events, who, k))
  {
    hide Next, Reserved, Agrees, Booked, Wf;
    if k == 0 {
      IdleKeeps(l, budget, slack, states[0]);
    } else {
      ReservationHolds(l, budget, slack, states, events, who, k - 1);
      assert Step(l, states, events, k - 1) && FairAt(budget, events, who, k - 1);
      StepKeeps(l, budget, slack, states[k - 1], events[k - 1], states[k], BooksAt(events, who, k - 1), who[k - 1]);
    }
  }

  lemma IdleKeeps(l: Layout, budget: nat, slack: nat, s: State)
    requires s.Up? && s.lh == [] && s.outstanding == 0
    ensures Agrees(s, Idle) && Reserved(budget, slack, Idle)
  {
    assert ListSet([]) == {};
  }

  /**
   With operations of at most MAXOPBLOCKS blocks, the list plus all that is
   still allowed never exceeds LOGSIZE.
   */
  lemma FullBudgetFitsLog(l: Layout, states: seq<State>, events: seq<Event>, who: seq<nat>, k: nat)
    requires Run(l, states, events) && Fair(MAXOPBLOCKS, events, who) && k < |states| && states[k].Up?
    ensures 0 <= Left(MAXOPBLOCKS, BooksAt(events, who, k).ops)
    ensures |states[k].lh| + Left(MAXOPBLOCKS, BooksAt(events, who, k).ops) <= LOGSIZE
  {
    ReservationHolds(l, MAXOPBLOCKS, 0, states, events, who, k);
    RunWf(l, states, events, k);
    ListSize(l, states[k].lh);
    LeftBounds(MAXOPBLOCKS, BooksAt(events, who, k).ops);
  }

  /**
   Below MAXOPBLOCKS, whatever an operation may still log finds room: both
   tests of log_write pass (Log.RedoLog.LogWrite succeeds on exactly these).
   */
  lemma NeverTooBig(l: Layout, budget: nat, states: seq<State>, events: seq<Event>, who: seq<nat>, k: nat, i: nat,
                    b: int)
    requires l.size == LOGSIZE && budget < MAXOPBLOCKS
    requires Run(l, states, events) && Fair(budget, events, who) && k < |states|
    requires MayLog(budget, BooksAt(events, who, k), i, b)
    ensures states[k].Up? && |states[k].lh| < l.size - 1 && states[k].outstanding >= 1
  {
    ReservationHolds(l, budget, 2, states, events, who, k);
    RunWf(l, states, events, k);
    assert states[k].Up?;
    ListSize(l, states[k].lh);
    LeftBounds(budget, BooksAt(events, who, k).ops);
  }

  // ------------------------------------------------------------------
  // Three operations that use their full budget

  ghost predicate Between(lo: int, x: int, hi: int) { lo <= x < hi }

  ghost function Range(lo: int, hi: int): (s: set<int>)
  {
    set x | lo <= x < hi && Between(lo, x, hi)
  }

  lemma {:induction false} RangeSize(lo: int, hi: int)
    requires lo <= hi
    ensures |Range(lo, hi)| == hi - lo
    decreases hi - lo
  {
    if lo < hi {
      RangeSize(lo, hi - 1);
      assert Range(lo, hi) == Range(lo, hi - 1) + {hi - 1};
    }
  }

  /** The part of the blocks h .. h + n that operation i logged, ten each. */
  ghost function Share(h: int, n: int, i: int): (s: set<int>)
  {
    Range(h + MAXOPBLOCKS * i, h + if n < MAXOPBLOCKS * (i + 1) then n else MAXOPBLOCKS * (i + 1))
  }

  ghost function Filling(h: int, n: int): (a: Books)
  {
    Books(Range(h, h + n), [Share(h, n, 0), Share(h, n, 1), Share(h, n, 2)])
  }

  lemma RangeMore(lo: int, hi: int)
    requires lo <= hi
    ensures Range(lo, hi + 1) == Range(lo, hi) + {hi}
  {
  }

  /** One block more goes to one share, and leaves that share within the budget. */
  lemma ShareStep(h: int, n: nat, i: nat)
    ensures if i == n / MAXOPBLOCKS
            then Share(h, n + 1, i) == Share(h, n, i) + {h + n} && |Share(h, n + 1, i)| <= MAXOPBLOCKS
            else Share(h, n + 1, i) == Share(h, n, i)
  {
    if i == n / MAXOPBLOCKS {
      RangeSize(h + MAXOPBLOCKS * i, h + n + 1);
      assert Share(h, n + 1, i) == Range(h + MAXOPBLOCKS * i, h + n + 1);
    }
  }

  lemma FillingStep(h: nat, n: nat, data: Block)
    requires n < LOGSIZE
    ensures MayLog(MAXOPBLOCKS, Filling(h, n), n / MAXOPBLOCKS, h + n)
    ensures Booked(Filling(h, n), Update(h + n, data), n / MAXOPBLOCKS) == Filling(h, n + 1)
  {
    hide Range, Share;
    var i := n / MAXOPBLOCKS;
    RangeMore(h, h + n);
    ShareStep(h, n, 0);
    ShareStep(h, n, 1);
    ShareStep(h, n, 2);
    assert Filling(h, n + 1).ops == Filling(h, n).ops[i := Share(h, n + 1, i)];
  }

  /** Books do not depend on later events. */
  lemma {:induction false} BooksPrefix(events: seq<Event>, who: seq<nat>, e: Event, i: nat, k: nat)
    requires |who| == |events| && k <= |events|
    ensures BooksAt(events + [e], who + [i], k) == BooksAt(events, who, k)
  {
    if k > 0 {
      BooksPrefix(events, who, e, i, k - 1);
    }
  }

  /** A fair run goes on with a fair step. */
  lemma FairMore(l: Layout, budget: nat, states: seq<State>, events: seq<Event>, who: seq<nat>, e: Event, i: nat,
                 s': State)
    requires Run(l, states, events) && Fair(budget, events, who) && Next(l, states[|events|], e, s')
    requires e.Update? ==> MayLog(budget, BooksAt(events, who, |events|), i, e.b)
    requires e.End? ==> i < |BooksAt(events, who, |events|).ops|
    ensures Run(l, states + [s'], events + [e]) && Fair(budget, events + [e], who + [i])
    ensures BooksAt(events + [e], who + [i], |events| + 1) == Booked(BooksAt(events, who, |events|), e, i)
  {
    hide Next, Booked, MayLog, Wf;
    var events', who', states' := events + [e], who + [i], states + [s'];
    BooksPrefix(events, who, e, i, |events|);
    forall k: nat ensures FairAt(budget, events', who', k) {
      if k < |events| {
        BooksPrefix(events, who, e, i, k);
        assert FairAt(budget, events, who, k);
      }
    }
    forall k | 0 <= k < |events'| ensures Step(l, states', events', k) {
      assert k < |events| ==> Step(l, states, events, k);
    }
  }

  /** An update of one of these blocks. */
  ghost predicate UpdateIn(l: Layout, blocks: set<int>, e: Event) {
    e.Update? && e.b in blocks && l.IsHome(e.b)
  }

  /**
   An operation that logs no more distinct blocks than its budget may log them in
   any order and as often as it likes, at any point of any fair run: what follows
   is a fair run again, so that log_write never panics in it.
   */
  lemma {:induction false} OperationIsFair(l: Layout, budget: nat, states: seq<State>, events: seq<Event>,
                                           who: seq<nat>, i: nat, blocks: set<int>, ups: seq<Event>)
      returns (states': seq<State>, who': seq<nat>)
    requires l.size == LOGSIZE && budget < MAXOPBLOCKS && Run(l, states, events) && Fair(budget, events, who)
    requires i < |BooksAt(events, who, |events|).ops| && BooksAt(events, who, |events|).ops[i] <= blocks
    requires |blocks| <= budget && forall e :: e in ups ==> UpdateIn(l, blocks, e)
    ensures Run(l, states', events + ups) && Fair(budget, events + ups, who')
    ensures states <= states' && who <= who' && forall k :: |who| <= k < |who'| ==> who'[k] == i
    ensures var a := BooksAt(events + ups, who', |events + ups|); i < |a.ops| && a.ops[i] <= blocks
    decreases |ups|
  {
    hide Run, Fair, BooksAt, UpdateIn;
    if ups == [] {
      assert events + ups == events;
      return states, who;
    }
    var n := |ups| - 1;
    var e := ups[n];
    assert e in ups && events + ups == (events + ups[..n]) + [e];
    states', who' := OperationIsFair(l, budget, states, events, who, i, blocks, ups[..n]);
    var s' := UpdateIsFair(l, budget, states', events + ups[..n], who', i, blocks, e);
    states', who' := states' + [s'], who' + [i];
  }

  lemma UpdateIsFair(l: Layout, budget: nat, states: seq<State>, events: seq<Event>, who: seq<nat>, i: nat,
                     blocks: set<int>, e: Event)
      returns (s': State)
    requires l.size == LOGSIZE && budget < MAXOPBLOCKS && Run(l, states, events) && Fair(budget, events, who)
    requires i < |BooksAt(events, who, |events|).ops| && BooksAt(events, who, |events|).ops[i] <= blocks
    requires |blocks| <= budget && UpdateIn(l, blocks, e)
    ensures Run(l, states + [s'], events + [e]) && Fair(budget, events + [e], who + [i])
    ensures var a := BooksAt(events + [e], who + [i], |events + [e]|); i < |a.ops| && a.ops[i] <= blocks
  {
    hide Next, FairAt, Step, Wf, Booked, BooksAt;
    var a := BooksAt(events, who, |events|);
    Sets.SubsetSize(a.ops[i] + {e.b as int}, blocks);
    NeverTooBig(l, budget, states, events, who, |events|, i, e.b);
    s' := UpdateNext(l, states, events, e);
    FairMore(l, budget, states, events, who, e, i, s');
    BookedUpdate(a, e, i);
  }

  lemma UpdateNext(l: Layout, states: seq<State>, events: seq<Event>, e: Event) returns (s': State)
    requires Run(l, states, events) && e.Update? && l.IsHome(e.b)
    requires var s := states[|events|]; s.Up? && s.outstanding > 0 && |s.lh| < l.size - 1
    ensures Next(l, states[|events|], e, s')
  {
    RunWf(l, states, events, |events|);
    var s := states[|events|];
    s' := Up(s.disk, s.view[e.b := e.data], if e.b in s.lh then s.lh else s.lh + [e.b], s.outstanding);
  }

  lemma BookedUpdate(a: Books, e: Event, i: nat)
    requires e.Update? && i < |a.ops|
    ensures i < |Booked(a, e, i).ops| && Booked(a, e, i).ops[i] == a.ops[i] + {e.b as int}
  {
  }

  function Blank(): (b: Block) { Block(seq(BWORDS, _ => 0)) }

  /** Three operations begin. */
  lemma ThreeBegin(l: Layout) returns (states: seq<State>, events: seq<Event>, who: seq<nat>)
    requires l.Valid()
    ensures Run(l, states, events) && Fair(MAXOPBLOCKS, events, who)
    ensures states[|events|].Up? && states[|events|].lh == [] && states[|events|].outstanding == 3
    ensures BooksAt(events, who, |events|) == Books({}, [{}, {}, {}])
  {
    var d: Disk := seq(l.nblocks, _ => Blank());
    var s := Up(d, d, [], 0);
    assert Wf(l, s);
    states, events, who := [s], [], [];
    FairMore(l, MAXOPBLOCKS, states, events, who, Begin, 0, Up(d, d, [], 1));
    states, events, who := states + [Up(d, d, [], 1)], events + [Begin], who + [0];
    FairMore(l, MAXOPBLOCKS, states, events, who, Begin, 0, Up(d, d, [], 2));
    states, events, who := states + [Up(d, d, [], 2)], events + [Begin], who + [0];
    FairMore(l, MAXOPBLOCKS, states, events, who, Begin, 0, Up(d, d, [], 3));
    states, events, who := states + [Up(d, d, [], 3)], events + [Begin], who + [0];
  }

  /** A run in which they log n blocks behind the log region. */
  lemma {:induction false} FillingRun(l: Layout, n: nat) returns (states: seq<State>, events: seq<Event>, who: seq<nat>)
    requires l.Valid() && l.size == LOGSIZE && l.start + l.size + LOGSIZE <= l.nblocks && n < LOGSIZE
    ensures Run(l, states, events) && Fair(MAXOPBLOCKS, events, who)
    ensures states[|events|].Up? && states[|events|].outstanding == 3
    ensures states[|events|].lh == Blocks(l, n) && BooksAt(events, who, |events|) == Filling(l.start + l.size, n)
  {
    hide Next, Wf, Step, FairAt, Filling, Blank, Booked, BooksAt, MayLog, Layout.Valid;
    var h := l.start + l.size;
    if n == 0 {
      states, events, who := ThreeBegin(l);
      FillingNone(h);
    } else {
      states, events, who := FillingRun(l, n - 1);
      var e := Update(h + n - 1, Blank());
      RunWf(l, states, events, |events|);
      var s' := FillingNext(l, states[|events|], n - 1);
      FillingStep(h, n - 1, Blank());
      FairMore(l, MAXOPBLOCKS, states, events, who, e, (n - 1) / MAXOPBLOCKS, s');
      states, events, who := states + [s'], events + [e], who + [(n - 1) / MAXOPBLOCKS];
    }
  }

  lemma FillingNone(h: int)
    ensures Filling(h, 0) == Books({}, [{}, {}, {}])
  {
    assert Range(h, h) == {} && Share(h, 0, 0) == {} && Share(h, 0, 1) == {} && Share(h, 0, 2) == {};
  }

  lemma FillingNext(l: Layout, s: State, n: nat) returns (s': State)
    requires Wf(l, s) && s.Up? && s.outstanding == 3 && s.lh == Blocks(l, n)
    requires l.size == LOGSIZE && l.start + l.size + n < l.nblocks && n < LOGSIZE - 1
    ensures Next(l, s, Update(l.start + l.size + n, Blank()), s')
    ensures s'.Up? && s'.outstanding == 3 && s'.lh == Blocks(l, n + 1)
  {
    var b := l.start + l.size + n;
    s' := Up(s.disk, s.view[b := Blank()], s.lh + [b], 3);
    assert b !in s.lh && s.lh + [b] == Blocks(l, n + 1);
  }

  ghost function Blocks(l: Layout, n: nat): (lh: seq<int>)
    ensures |lh| == n && forall i :: 0 <= i < n ==> lh[i] == l.start + l.size + i
  {
    seq(n, i => l.start + l.size + i)
  }

  /** A larger budget allows all that a smaller one does. */
  lemma FairWithMore(budget: nat, more: nat, events: seq<Event>, who: seq<nat>)
    requires budget <= more && Fair(budget, events, who)
    ensures Fair(more, events, who)
  {
    forall k: nat ensures FairAt(more, events, who, k) {
      assert FairAt(budget, events, who, k);
    }
  }

  /** log_write's first panic, for a write that the budget allows. */
  ghost predicate CanPanic(l: Layout, budget: nat, states: seq<State>, events: seq<Event>, who: seq<nat>) {
    && Run(l, states, events) && Fair(budget, events, who)
    && var s := states[|events|];
       && s.Up? && |s.lh| >= l.size - 1
       && exists i, b :: l.IsHome(b) && MayLog(budget, BooksAt(events, who, |events|), i, b)
  }

  /**
   The exact bound.  "too big a transaction" is unreachable in every run if and
   only if no operation logs as many as MAXOPBLOCKS distinct blocks: the
   reservation against LOGSIZE is one block more than log_write accepts.
   */
  lemma PanicUnreachableIff(l: Layout, budget: nat)
    requires l.Valid() && l.size == LOGSIZE && l.start + l.size + LOGSIZE <= l.nblocks
    ensures (forall states, events, who :: !CanPanic(l, budget, states, events, who)) <==> budget < MAXOPBLOCKS
  {
    hide Step, FairAt;
    if budget < MAXOPBLOCKS {
      forall states, events, who ensures !CanPanic(l, budget, states, events, who) {
        if CanPanic(l, budget, states, events, who) {
          var i, b :| l.IsHome(b) && MayLog(budget, BooksAt(events, who, |events|), i, b);
          NeverTooBig(l, budget, states, events, who, |events|, i, b);
        }
      }
    } else {
      var states, events, who := PanicReachable(l, budget);
    }
  }

  lemma PanicReachable(l: Layout, budget: nat) returns (states: seq<State>, events: seq<Event>, who: seq<nat>)
    requires l.Valid() && l.size == LOGSIZE && l.start + l.size + LOGSIZE <= l.nblocks && budget >= MAXOPBLOCKS
    ensures CanPanic(l, budget, states, events, who)
  {
    hide Run, Fair, Filling, Booked, Blank;
    var h := l.start + l.size;
    states, events, who := FillingRun(l, LOGSIZE - 1);
    FairWithMore(MAXOPBLOCKS, budget, events, who);
    FillingStep(h, LOGSIZE - 1, Blank());
    assert l.IsHome(h + LOGSIZE - 1) && MayLog(budget, BooksAt(events, who, |events|), 2, h + LOGSIZE - 1);
  }
}
