/**
 * absl::call_once as the interleaved steps of any number of threads that share one control word.
 * A step is one atomic access to the word, one futex call, or the end of the user's function.
 */
module CallOnce {

  type Word = w: int | 0 <= w < 0x1_0000_0000

  const INIT: Word := 0
  const RUNNING: Word := 0x65C2937B
  const WAITER: Word := 0x05A308D2
  const DONE: Word := 221

  datatype Transition = Transition(from: Word, to: Word, done: bool)

  const TABLE: seq<Transition> :=
    [Transition(INIT, RUNNING, true), Transition(RUNNING, WAITER, false), Transition(DONE, DONE, true)]

  /** The first row of a table that leaves v, or the length of the table. */
  function FirstFrom(table: seq<Transition>, v: Word): (i: nat)
    ensures i <= |table|
    ensures i < |table| ==> table[i].from == v
    ensures forall j :: 0 <= j < i ==> table[j].from != v
  {
    if table == [] || table[0].from == v then 0 else 1 + FirstFrom(table[1..], v)
  }

  /** Where a thread is: before the step that each name describes, or asleep, or out of the call. */
  datatype Pc =
    | Enter            // the acquire load in call_once
    | TryStart         // the compare-exchange in CallOnceImpl
    | Spin             // the load in SpinLockWait
    | Seen(v: Word)    // the transition, or the delay, for the value just loaded
    | Parked           // inside the futex wait
    | Running          // inside the user's function
    | Finishing        // the exchange that stores DONE
    | Waking           // the futex wake
    | Returned

  datatype Event = Begin(t: nat) | End(t: nat) | Return(t: nat)

  /** The control word, the threads, and all that has happened to the function and the calls. */
  datatype State = State(control: Word, threads: seq<Pc>, log: seq<Event>) {

    function Goto(t: nat, pc: Pc): State
      requires t < |threads|
    {
      this.(threads := threads[t := pc])
    }

    function Store(w: Word): State {
      this.(control := w)
    }

    function Note(e: Event): State {
      this.(log := log + [e])
    }

    function Call(t: nat): State
      requires t < |threads|
    {
      Goto(t, Running).Note(Begin(t))
    }

    function Leave(t: nat): State
      requires t < |threads|
    {
      Goto(t, Returned).Note(Return(t))
    }

    /** SpinLockWait returns v. */
    function LeaveWait(t: nat, v: Word): State
      requires t < |threads|
    {
      if v == INIT then Call(t) else Leave(t)
    }

    /** The futex compares the word with v and sleeps in one step. */
    function Delay(t: nat, v: Word): State
      requires t < |threads|
    {
      Goto(t, if control == v then Parked else Spin)
    }

    function Take(t: nat, row: Transition): State
      requires t < |threads|
    {
      if row.to != row.from && control != row.from then Goto(t, Spin)
      else
        var s := if row.to == row.from then this else Store(row.to);
        if row.done then s.LeaveWait(t, row.from) else s.Goto(t, Spin)
    }

    function Wake(): (s: State)
      ensures |s.threads| == |threads|
    {
      this.(threads := seq(|threads|, i requires 0 <= i < |threads| => Woken(threads[i])))
    }

    predicate CanAct(t: nat) {
      t < |threads| && threads[t] != Parked && threads[t] != Returned
    }

    /** The next step of thread t. */
    function Act(t: nat): (s: State)
      requires CanAct(t)
    {
      match threads[t]
      case Enter => if control == DONE then Leave(t) else Goto(t, TryStart)
      case TryStart => if control == INIT then Store(RUNNING).Call(t) else Goto(t, Spin)
      case Spin => Goto(t, Seen(control))
      case Seen(v) =>
        var i := FirstFrom(TABLE, v);
        if i == |TABLE| then Delay(t, v) else Take(t, TABLE[i])
      case Running => Goto(t, Finishing).Note(End(t))
      case Finishing => if control == WAITER then Store(DONE).Goto(t, Waking) else Store(DONE).Leave(t)
      case Waking => Wake().Leave(t)
    }

    /** A delay may also end early, or not sleep at all. */
    predicate CanStir(t: nat) {
      t < |threads| && (threads[t] == Parked || (threads[t].Seen? && FirstFrom(TABLE, threads[t].v) == |TABLE|))
    }

    predicate Can(step: Step) {
      match step
      case Act(t) => CanAct(t)
      case Stir(t) => CanStir(t)
    }

    function Do(step: Step): State
      requires Can(step)
    {
      match step
      case Act(t) => Act(t)
      case Stir(t) => Goto(t, Spin)
    }
  }

  function Woken(pc: Pc): Pc {
    if pc == Parked then Spin else pc
  }

  datatype Step = Act(t: nat) | Stir(t: nat)

  function Start(n: nat): State {
    State(INIT, seq(n, i => Enter), [])
  }

  /** The states that n threads pass through when they take the given steps. */
  predicate IsRun(run: seq<State>, steps: seq<Step>, n: nat) {
    && |run| == |steps| + 1
    && run[0] == Start(n)
    && forall i :: 0 <= i < |steps| ==> run[i].Can(steps[i]) && run[i + 1] == run[i].Do(steps[i])
  }

  // What the log may say.

  /**
   * The function begins once, ends once in the same thread, and only then do calls return,
   * each of them once.
   */
  predicate Orderly(log: seq<Event>) {
    && (|log| > 0 ==> log[0].Begin?)
    && (|log| > 1 ==> log[1] == End(log[0].t))
    && (forall i :: 2 <= i < |log| ==> log[i].Return?)
    && (forall i, j :: 0 <= i < j < |log| ==> log[i] != log[j])
  }

  // The inductive invariant.

  function Stage(w: Word): (k: nat)
    ensures k <= 3
  {
    if w == INIT then 0 else if w == RUNNING then 1 else if w == WAITER then 2 else 3
  }

  predicate IsStage(w: Word) {
    w == INIT || w == RUNNING || w == WAITER || w == DONE
  }

  /** What a thread's place says about the control word and the log. */
  predicate Fits(pc: Pc, t: nat, control: Word, log: seq<Event>) {
    match pc
    case Seen(v) => IsStage(v) && Stage(v) <= Stage(control)
    case Parked => Stage(control) >= 2
    case Running => log == [Begin(t)]
    case Finishing => log == [Begin(t), End(t)] && control != DONE
    case Waking => control == DONE && |log| >= 2 && log[0] == Begin(t)
    case _ => true
  }

  /** What the control word says about the thread that runs the function. */
  predicate Phase(control: Word, threads: seq<Pc>, log: seq<Event>) {
    && IsStage(control)
    && (control == INIT <==> log == [])
    && (control == DONE ==> |log| >= 2)
    && (log != [] ==>
          && log[0].Begin? && log[0].t < |threads|
          && (control != DONE ==> threads[log[0].t] == if |log| == 1 then Running else Finishing)
          && (control == DONE && Parked in threads ==> threads[log[0].t] == Waking))
  }

  ghost predicate Invariant(s: State) {
    && Phase(s.control, s.threads, s.log)
    && Orderly(s.log)
    && (forall t :: 0 <= t < |s.threads| ==> Fits(s.threads[t], t, s.control, s.log))
    && (forall t: nat :: Return(t) in s.log <==> t < |s.threads| && s.threads[t] == Returned)
  }

  lemma TableRows(v: Word)
    requires IsStage(v)
    ensures FirstFrom(TABLE, v) == if v == INIT then 0 else if v == RUNNING then 1 else if v == DONE then 2 else 3
  {
    assert TABLE[1..][0].from == RUNNING && TABLE[1..][1..][0].from == DONE;
    assert TABLE[1..][1..][1..] == [];
  }

  lemma StartHolds(n: nat)
    ensures Invariant(Start(n))
  {
  }

  /** A thread that neither runs the function nor has returned may move on where its new place fits. */
  lemma MoveHolds(s: State, t: nat, pc: Pc)
    requires Invariant(s) && t < |s.threads|
    requires s.threads[t] in {Enter, TryStart, Spin, Parked} || s.threads[t].Seen?
    requires pc in {Enter, TryStart, Spin} || pc.Seen? || (pc == Parked && s.control == WAITER)
    requires Fits(pc, t, s.control, s.log)
    ensures Invariant(s.Goto(t, pc))
  {
  }

  lemma StoreHolds(s: State)
    requires Invariant(s) && s.control == RUNNING
    ensures Invariant(s.Store(WAITER))
  {
  }

  lemma CallHolds(s: State, t: nat)
    requires Invariant(s) && s.control == INIT && t < |s.threads|
    ensures Invariant(s.Store(RUNNING).Call(t))
  {
  }

  lemma LeaveHolds(s: State, t: nat)
    requires Invariant(s) && s.control == DONE && t < |s.threads|
    requires s.threads[t] != Returned
    requires s.threads[t] == Waking ==> Parked !in s.threads
    ensures Invariant(s.Leave(t))
  {
  }

  lemma EndHolds(s: State, t: nat)
    requires Invariant(s) && t < |s.threads| && s.threads[t] == Running
    ensures Invariant(s.Goto(t, Finishing).Note(End(t)))
  {
  }

  lemma FinishHolds(s: State, t: nat)
    requires Invariant(s) && t < |s.threads| && s.threads[t] == Finishing
    ensures Invariant(s.Act(t))
  {
  }

  lemma WakeHolds(s: State, t: nat)
    requires Invariant(s) && t < |s.threads| && s.threads[t] == Waking
    ensures Invariant(s.Act(t))
  {
    var w := s.Wake();
    LeaveHolds(w, t);
  }

  lemma SeenHolds(s: State, t: nat)
    requires Invariant(s) && t < |s.threads| && s.threads[t].Seen?
    ensures Invariant(s.Act(t))
  {
    var v := s.threads[t].v;
    TableRows(v);
    if v == INIT && s.control == INIT {
      CallHolds(s, t);
    } else if v == RUNNING && s.control == RUNNING {
      StoreHolds(s);
      MoveHolds(s.Store(WAITER), t, Spin);
    } else if v == DONE {
      LeaveHolds(s, t);
    } else {
      MoveHolds(s, t, if s.control == v then Parked else Spin);
    }
  }

  lemma StepHolds(s: State, step: Step)
    requires Invariant(s) && s.Can(step)
    ensures Invariant(s.Do(step))
  {
    var t := step.t;
    match step
    case Stir(_) => MoveHolds(s, t, Spin);
    case Act(_) =>
      match s.threads[t]
      case Enter => if s.control == DONE { LeaveHolds(s, t); } else { MoveHolds(s, t, TryStart); }
      case TryStart => if s.control == INIT { CallHolds(s, t); } else { MoveHolds(s, t, Spin); }
      case Spin => MoveHolds(s, t, Seen(s.control));
      case Seen(_) => SeenHolds(s, t);
      case Running => EndHolds(s, t);
      case Finishing => FinishHolds(s, t);
      case Waking => WakeHolds(s, t);
  }

  lemma {:induction false} RunHolds(run: seq<State>, steps: seq<Step>, n: nat, i: nat)
    requires IsRun(run, steps, n) && i < |run|
    ensures Invariant(run[i]) && |run[i].threads| == n
  {
    hide Invariant;
    if i == 0 {
      StartHolds(n);
    } else {
      RunHolds(run, steps, n, i - 1);
      StepHolds(run[i - 1], steps[i - 1]);
    }
  }

  // Safety, over every run.

  /**
   * However the threads interleave, the function is begun at most once; a call that has returned
   * came after its end; and the control word never leaves its four values.
   */
  lemma FunctionRunsOnce(run: seq<State>, steps: seq<Step>, n: nat, i: nat)
    requires IsRun(run, steps, n) && i < |run|
    ensures |run[i].threads| == n && IsStage(run[i].control) && Orderly(run[i].log)
    ensures forall t :: 0 <= t < n && run[i].threads[t] == Returned ==>
                |run[i].log| >= 2 && run[i].log[1].End? && Return(t) in run[i].log[2..]
    ensures forall t, u :: 0 <= t < n && 0 <= u < n && run[i].threads[t] == run[i].threads[u] == Running ==> t == u
  {
    RunHolds(run, steps, n, i);
    forall t | 0 <= t < n && run[i].threads[t] == Returned
      ensures |run[i].log| >= 2 && run[i].log[1].End? && Return(t) in run[i].log[2..]
    {
      assert Return(t) in run[i].log;
    }
  }

  /** Once every call has returned, the function has begun and ended, exactly once each. */
  lemma EveryCallFindsItDone(run: seq<State>, steps: seq<Step>, n: nat, i: nat)
    requires IsRun(run, steps, n) && i < |run| && n > 0
    requires forall pc <- run[i].threads :: pc == Returned
    ensures run[i].control == DONE
    ensures forall j :: 0 <= j < |run[i].log| ==> (run[i].log[j].Begin? <==> j == 0) && (run[i].log[j].End? <==> j == 1)
    ensures |run[i].log| >= 2
  {
    RunHolds(run, steps, n, i);
    assert run[i].threads[0] in run[i].threads;
    assert Return(0) in run[i].log;
  }

  /**
   * A sleeping thread has either a live runner that will find WAITER in the control word when it
   * stores DONE, or a wake on its way.
   */
  lemma SleeperIsOwedAWake(run: seq<State>, steps: seq<Step>, n: nat, i: nat, t: nat) returns (r: nat)
    requires IsRun(run, steps, n) && i < |run| && t < |run[i].threads| && run[i].threads[t] == Parked
    ensures r < |run[i].threads|
    ensures || (run[i].control == WAITER && run[i].threads[r] in {Running, Finishing})
            || (run[i].control == DONE && run[i].threads[r] == Waking)
  {
    RunHolds(run, steps, n, i);
    r := run[i].log[0].t;
  }

  // Progress, without any assumption of fairness.

  /** Until all the calls have returned, some thread can take a step, and not by an early waking. */
  lemma NoDeadlock(run: seq<State>, steps: seq<Step>, n: nat, i: nat, t: nat) returns (u: nat)
    requires IsRun(run, steps, n) && i < |run| && t < n
    requires |run[i].threads| == n ==> run[i].threads[t] != Returned
    ensures run[i].CanAct(u)
  {
    RunHolds(run, steps, n, i);
    if run[i].threads[t] == Parked {
      u := SleeperIsOwedAWake(run, steps, n, i, t);
    } else {
      u := t;
    }
  }

  /** How far a thread is from the end of its call, while the control word stays as it is. */
  function Rank(pc: Pc, control: Word, n: nat): nat {
    match pc
    case Enter => 6
    case TryStart => 5
    case Spin => 3
    case Seen(v) => if v == control then 2 else 4
    case Parked => 1
    case Running => 2 * n + 3
    case Finishing => 2 * n + 2
    case Waking => 2 * n + 1
    case Returned => 0
  }

  function Ranks(threads: seq<Pc>, control: Word, n: nat): nat {
    if threads == [] then 0 else Rank(threads[0], control, n) + Ranks(threads[1..], control, n)
  }

  function Distance(s: State): nat {
    var n := |s.threads|;
    (3 - Stage(s.control)) * (4 * n + 4) + Ranks(s.threads, s.control, n)
  }

  /** Changing one thread, and letting the others rise by 2 at most. */
  lemma {:induction false} RanksChange(a: seq<Pc>, c: Word, b: seq<Pc>, d: Word, t: nat, n: nat, rise: nat)
    requires |a| == |b| && t < |a| && rise <= 2
    requires forall u :: 0 <= u < |a| && u != t ==> Rank(b[u], d, n) <= Rank(a[u], c, n) + rise
    ensures Ranks(b, d, n) + Rank(a[t], c, n) <= Ranks(a, c, n) + Rank(b[t], d, n) + rise * (|a| - 1)
    decreases |a|
  {
    if t > 0 {
      RanksChange(a[1..], c, b[1..], d, t - 1, n, rise);
    } else {
      RanksRise(a[1..], c, b[1..], d, n, rise);
    }
  }

  lemma {:induction false} RanksRise(a: seq<Pc>, c: Word, b: seq<Pc>, d: Word, n: nat, rise: nat)
    requires |a| == |b| && rise <= 2
    requires forall u :: 0 <= u < |a| ==> Rank(b[u], d, n) <= Rank(a[u], c, n) + rise
    ensures Ranks(b, d, n) <= Ranks(a, c, n) + rise * |a|
    decreases |a|
  {
    if a != [] {
      RanksRise(a[1..], c, b[1..], d, n, rise);
      assert Rank(b[0], d, n) <= Rank(a[0], c, n) + rise;
    }
  }

  /** What a step does to the other threads: at most a change of the word, or a wake. */
  lemma OthersRise(s: State, step: Step, u: nat) returns (rise: nat)
    requires Invariant(s) && s.Can(step) && u < |s.threads| && u != step.t
    ensures rise == if s.Do(step).control == s.control && s.threads[step.t] != Waking then 0 else 2
    ensures |s.Do(step).threads| == |s.threads|
    ensures Rank(s.Do(step).threads[u], s.Do(step).control, |s.threads|) <= Rank(s.threads[u], s.control, |s.threads|) + rise
  {
    hide Phase, Orderly, FirstFrom;
    rise := if s.Do(step).control == s.control && s.threads[step.t] != Waking then 0 else 2;
  }

  /** What it does to its own thread, against how far it takes the control word. */
  lemma OwnRank(s: State, step: Step)
    requires Invariant(s) && s.Can(step)
    ensures |s.Do(step).threads| == |s.threads|
    ensures Stage(s.control) <= Stage(s.Do(step).control)
    ensures var s', n := s.Do(step), |s.threads|;
            var own, own' := Rank(s.threads[step.t], s.control, n), Rank(s'.threads[step.t], s'.control, n);
            if step.Stir? then s'.control == s.control && own' <= own + 2
            else if s'.control != s.control then Stage(s.control) < Stage(s'.control) && own' <= own + 2 * n + 1
            else if s.threads[step.t] == Waking then own == 2 * n + 1 && own' == 0
            else own' < own
  {
    hide Orderly, FirstFrom;
    if s.threads[step.t].Seen? { TableRows(s.threads[step.t].v); }
  }

  lemma StageWeight(k: nat, k': nat, w: nat)
    requires k <= k' <= 3
    ensures (3 - k') * w + (if k == k' then 0 else w) <= (3 - k) * w
  {
    assert (3 - k) * w - (3 - k') * w == (k' - k) * w;
  }

  /** Every step of the protocol brings the end nearer; an early waking costs at most two steps. */
  lemma StepGetsNearer(s: State, step: Step)
    requires Invariant(s) && s.Can(step)
    ensures Distance(s.Do(step)) <= Distance(s) + if step.Act? then -1 else 2
  {
    hide Phase, Orderly, Fits, Rank, Ranks, Stage, State.Do;
    var t, s', n := step.t, s.Do(step), |s.threads|;
    OwnRank(s, step);
    StageWeight(Stage(s.control), Stage(s'.control), 4 * n + 4);
    var rise := if s'.control == s.control && s.threads[t] != Waking then 0 else 2;
    forall u | 0 <= u < n && u != t
      ensures Rank(s'.threads[u], s'.control, n) <= Rank(s.threads[u], s.control, n) + rise
    {
      var _ := OthersRise(s, step, u);
    }
    RanksChange(s.threads, s.control, s'.threads, s'.control, t, n, rise);
  }

  /** How many of the steps are early wakings. */
  function Stirs(steps: seq<Step>): nat {
    if steps == [] then 0 else Stirs(steps[..|steps| - 1]) + if steps[|steps| - 1].Stir? then 1 else 0
  }

  lemma {:induction false} DistanceLeft(run: seq<State>, steps: seq<Step>, n: nat, i: nat)
    requires IsRun(run, steps, n) && i < |run|
    ensures Distance(run[i]) + i <= Distance(run[0]) + 3 * Stirs(steps[..i])
  {
    hide Distance, Invariant, State.Do, State.Can;
    if i > 0 {
      DistanceLeft(run, steps, n, i - 1);
      RunHolds(run, steps, n, i - 1);
      StepGetsNearer(run[i - 1], steps[i - 1]);
      assert steps[..i][..i - 1] == steps[..i - 1];
    }
  }

  lemma {:induction false} RanksAtEntry(threads: seq<Pc>, n: nat)
    requires forall t :: 0 <= t < |threads| ==> threads[t] == Enter
    ensures Ranks(threads, INIT, n) == 6 * |threads|
  {
    if threads != [] {
      RanksAtEntry(threads[1..], n);
    }
  }

  lemma DistanceAtStart(n: nat)
    ensures Distance(Start(n)) == 18 * n + 12
  {
    hide Ranks, Rank;
    RanksAtEntry(Start(n).threads, n);
    assert 3 * (4 * n + 4) + 6 * n == 18 * n + 12;
  }

  /** n threads take at most 18 n + 12 steps, and three more for each early waking. */
  lemma StepsAreBounded(run: seq<State>, steps: seq<Step>, n: nat)
    requires IsRun(run, steps, n)
    ensures |steps| <= 18 * n + 12 + 3 * Stirs(steps)
  {
    hide Distance, Stirs;
    DistanceAtStart(n);
    DistanceLeft(run, steps, n, |steps|);
    assert steps[..|steps|] == steps;
  }

  /** Where no thread can step any more, all have returned. */
  lemma NobodyIsLeftBehind(run: seq<State>, steps: seq<Step>, n: nat, i: nat)
    requires IsRun(run, steps, n) && i < |run| && forall t :: !run[i].CanAct(t)
    ensures forall pc <- run[i].threads :: pc == Returned
  {
    hide Invariant;
    RunHolds(run, steps, n, i);
    forall pc | pc in run[i].threads
      ensures pc == Returned
    {
      var t: nat :| t < |run[i].threads| && run[i].threads[t] == pc;
      if pc != Returned {
        hide IsRun;
        var u := NoDeadlock(run, steps, n, i, t);
      }
    }
  }

  /**
   * However they are scheduled, the threads take a bounded number of steps; as some step is always
   * possible before the end, all the calls return.
   */
  lemma CallsReturn(run: seq<State>, steps: seq<Step>, n: nat)
    requires IsRun(run, steps, n)
    ensures |steps| <= 18 * n + 12 + 3 * Stirs(steps)
    ensures (forall t :: !run[|steps|].CanAct(t)) ==> forall pc <- run[|steps|].threads :: pc == Returned
  {
    hide Stirs, State.CanAct;
    StepsAreBounded(run, steps, n);
    if forall t :: !run[|steps|].CanAct(t) {
      NobodyIsLeftBehind(run, steps, n, |steps|);
    }
  }
}
