/**
  Synchronisation barriers (libuzi/barrier.c): N threads reuse one barrier forever, each entering
  with its own flags. The two manual-reset events are the handles 0 and 1.
  Every access to a field of the barrier and every event operation is one step.
 */
module Barrier {
  import opened Sums
  import opened Wrappers

  /** Reserved1, Reserved2, Reserved3[0], Reserved3[1], the state of the two events, Reserved4, Reserved5. */
  datatype Shared = Shared(remaining: int, total: int, current: nat, dormant: nat, set0: bool, set1: bool,
                           processors: int, spinCount: int)

  datatype Flags = Flags(spinOnly: bool, blockOnly: bool)

  datatype PC =
    | Idle
    | ReadCurrent(flags: Flags)
    | ReadDormant(flags: Flags, cur: nat)
    | Decrement(flags: Flags, cur: nat, dorm: nat)
    | Spin(spinOnly: bool, cur: nat, spins: int)
    | Block(cur: nat)
    | LastReset(cur: nat, dorm: nat)
    | LastCounter(cur: nat, dorm: nat)
    | LastDormant(cur: nat, dorm: nat)
    | LastCurrent(cur: nat, dorm: nat)
    | LastSet(cur: nat)

  /** `results` are the answers of the rounds the thread has completed. */
  datatype Thread = Thread(pc: PC, results: seq<bool>)

  /** `round` counts the event switches; the code never looks at it. */
  datatype State = State(sh: Shared, threads: seq<Thread>, round: nat)

  datatype Action = Call(flags: Flags) | Continue

  predicate IsSet(sh: Shared, event: nat) { if event == 0 then sh.set0 else sh.set1 }

  function SetTo(sh: Shared, event: nat, b: bool): Shared {
    if event == 0 then sh.(set0 := b) else sh.(set1 := b)
  }

  /** InitializeSynchronizationBarrier, both events created. */
  function Initialize(totalThreads: int, spinCount: int, processors: int): Option<Shared> {
    if totalThreads < 1 || spinCount < -1 then None
    else Some(Shared(totalThreads, totalThreads, 0, 1, false, false, processors,
                     if spinCount == -1 then 2000 else spinCount))
  }

  function Return(th: Thread, answer: bool): Thread {
    th.(pc := Idle, results := th.results + [answer])
  }

  /** The next step of EnterSynchronizationBarrier; None while the thread is blocked. */
  function Exec(sh: Shared, th: Thread, a: Action): Option<(Shared, Thread)> {
    if th.pc.Idle? then
      if a.Call? then Some((sh, th.(pc := ReadCurrent(a.flags)))) else None
    else if !a.Continue? then None
    else
      match th.pc
      case ReadCurrent(flags) => Some((sh, th.(pc := ReadDormant(flags, sh.current))))
      case ReadDormant(flags, cur) => Some((sh, th.(pc := Decrement(flags, cur, sh.dormant))))
      case Decrement(flags, cur, dorm) =>
        var remaining := sh.remaining - 1;
        Some((sh.(remaining := remaining),
              th.(pc := if remaining <= 0 then LastReset(cur, dorm)
                        else if flags.spinOnly || (remaining < sh.processors && !flags.blockOnly)
                             then Spin(flags.spinOnly, cur, 0)
                        else Block(cur))))
      case Spin(spinOnly, cur, spins) =>
        if sh.current != cur then Some((sh, Return(th, false)))
        else if spinOnly then Some((sh, th))
        else Some((sh, th.(pc := if spins + 1 > sh.spinCount then Block(cur) else Spin(spinOnly, cur, spins + 1))))
      case Block(cur) =>
        if IsSet(sh, cur) then Some((sh, Return(th, false))) else None
      case LastReset(cur, dorm) => Some((SetTo(sh, dorm, false), th.(pc := LastCounter(cur, dorm))))
      case LastCounter(cur, dorm) => Some((sh.(remaining := sh.total), th.(pc := LastDormant(cur, dorm))))
      case LastDormant(cur, dorm) => Some((sh.(dormant := cur), th.(pc := LastCurrent(cur, dorm))))
      case LastCurrent(cur, dorm) => Some((sh.(current := dorm), th.(pc := LastSet(cur))))
      case LastSet(cur) => Some((SetTo(sh, cur, true), Return(th, true)))
  }

  ghost predicate Step(s: State, me: nat, a: Action, s': State) {
    && me < |s.threads|
    && var r := Exec(s.sh, s.threads[me], a);
    && r.Some?
    && s' == State(r.value.0, s.threads[me := r.value.1],
                   s.round + if s.threads[me].pc.LastCurrent? then 1 else 0)
  }

  ghost predicate Next(s: State, s': State) {
    exists me: nat, a: Action :: Step(s, me, a, s')
  }

  /** A freshly initialised barrier used by exactly as many threads as it was initialised for. */
  ghost predicate Init(s: State) {
    && (exists spinCount: int, processors: int :: Initialize(|s.threads|, spinCount, processors) == Some(s.sh))
    && (forall i | 0 <= i < |s.threads| :: s.threads[i] == Thread(Idle, []))
    && s.round == 0
  }

  ghost predicate NextAt(run: seq<State>, i: nat)
    requires 0 < i < |run|
  {
    Next(run[i - 1], run[i])
  }

  ghost predicate IsRun(run: seq<State>) {
    && run != []
    && Init(run[0])
    && forall i | 0 < i < |run| :: NextAt(run, i)
  }

  // ---- what the invariant counts ----

  function Rounds(th: Thread): nat { |th.results| }

  /** How many rounds the thread has entered (decremented the counter for). */
  function EnteredRounds(th: Thread): nat {
    match th.pc
    case Idle => |th.results|
    case ReadCurrent(_) => |th.results|
    case ReadDormant(_, _) => |th.results|
    case Decrement(_, _, _) => |th.results|
    case _ => |th.results| + 1
  }

  /** How far the last thread of a round has come; 0 for everybody else. */
  function Phase(th: Thread): nat {
    match th.pc
    case LastReset(_, _) => 1
    case LastCounter(_, _) => 2
    case LastDormant(_, _) => 3
    case LastCurrent(_, _) => 4
    case LastSet(_) => 5
    case _ => 0
  }

  ghost function Leader(th: Thread): nat { if Phase(th) > 0 then 1 else 0 }

  /** One for every thread that has yet to enter this round. */
  ghost function Missing(round: nat): Thread -> nat {
    (th: Thread) => if EnteredRounds(th) <= round then 1 else 0
  }

  /** One for a thread that answered TRUE in this round or is bound to. */
  ghost function Wins(round: nat): Thread -> nat {
    (th: Thread) => if (round < |th.results| && th.results[round]) || (Phase(th) > 0 && |th.results| == round) then 1 else 0
  }

  ghost predicate ThreadOk(th: Thread, round: nat) {
    var r := Rounds(th);
    match th.pc
    case Idle => r == round
    case ReadCurrent(_) => r == round
    case ReadDormant(_, cur) => r == round && cur == round % 2
    case Decrement(_, cur, dorm) => r == round && cur == round % 2 && dorm == (round + 1) % 2
    case Spin(_, cur, _) => r <= round <= r + 1 && cur == r % 2
    case Block(cur) => r <= round <= r + 1 && cur == r % 2
    case LastSet(cur) => r + 1 == round && cur == r % 2
    case _ => r == round && th.pc.cur == round % 2 && th.pc.dorm == (round + 1) % 2
  }

  /** The shared fields, given how many threads are missing and how far the last thread has come. */
  ghost predicate SharedOk(sh: Shared, round: nat, missing: nat, phase: nat) {
    && sh.current == round % 2
    && sh.dormant == (if phase == 4 then round else round + 1) % 2
    && (missing == 0 <==> 1 <= phase <= 4)
    && sh.remaining == (if phase == 3 || phase == 4 then sh.total else missing)
    && !IsSet(sh, round % 2)
    && (IsSet(sh, (round + 1) % 2) <==> round > 0 && phase <= 1)
  }

  ghost predicate Inv(s: State) {
    && s.sh.total == |s.threads| > 0
    && (forall i | 0 <= i < |s.threads| :: ThreadOk(s.threads[i], s.round))
    && Sum(s.threads, Leader) <= 1
    && SharedOk(s.sh, s.round, Sum(s.threads, Missing(s.round)), Sum(s.threads, Phase))
    && forall k: nat :: Sum(s.threads, Wins(k)) == (if k < s.round || (k == s.round && 1 <= Sum(s.threads, Phase) <= 4) then 1 else 0)
  }

  lemma LeaderPhase(s: State, me: nat)
    requires Sum(s.threads, Leader) <= 1 && me < |s.threads| && Phase(s.threads[me]) > 0
    ensures Sum(s.threads, Phase) == Phase(s.threads[me])
  {
    forall i | 0 <= i < |s.threads| && i != me ensures Phase(s.threads[i]) == 0 {
      SumAtLeastTwo(s.threads, if i < me then i else me, if i < me then me else i, Leader);
    }
    SumOnly(s.threads, me, Phase);
  }

  /** What one step does, seen from the stepping thread and the counts. */
  lemma LocalStep(sh: Shared, th: Thread, a: Action, round: nat, missing: nat, phase: nat)
    requires ThreadOk(th, round) && SharedOk(sh, round, missing, phase) && phase <= 5
    requires Phase(th) > 0 ==> phase == Phase(th)
    requires Missing(round)(th) <= missing
    requires phase == 5 && th.pc.Decrement? ==> missing >= 2
    requires Exec(sh, th, a).Some? && !th.pc.LastCurrent?
    ensures var (sh', th') := Exec(sh, th, a).value;
            && ThreadOk(th', round)
            && sh'.total == sh.total
            && missing + Missing(round)(th') >= Missing(round)(th)
            && phase + Phase(th') >= Phase(th)
            && SharedOk(sh', round, missing + Missing(round)(th') - Missing(round)(th), phase + Phase(th') - Phase(th))
            && (Leader(th') > Leader(th) ==> phase == 0 && th.pc.Decrement?)
            && (sh'.current == sh.current)
  {
  }

  /** The winners of every round, after one step of one thread. */
  lemma WinsStep(s: State, me: nat, a: Action, s': State, k: nat)
    requires Inv(s) && Step(s, me, a, s')
    requires var th := s.threads[me];
             Phase(th) == 0 && Phase(s'.threads[me]) > 0 ==> Rounds(th) == s.round && Sum(s.threads, Phase) == 0
    ensures var th, th' := s.threads[me], s'.threads[me];
            Sum(s'.threads, Wins(k)) ==
            Sum(s.threads, Wins(k)) + (if k == s.round && Phase(th) == 0 && Phase(th') > 0 then 1 else 0)
  {
    var th, th' := s.threads[me], s'.threads[me];
    assert ThreadOk(th, s.round);
    SumUpdate(s.threads, me, th', Wins(k));
    if Rounds(th) == k && th'.results == th.results + [false] {
      assert th'.results[k] == false;
    }
    if k < Rounds(th) {
      assert th'.results[k] == th.results[k];
    }
  }

  /** A thread that is not missing and not leading waits in the current round. */
  lemma SwitchThreads(s: State, me: nat)
    requires Inv(s) && me < |s.threads| && s.threads[me].pc.LastCurrent?
    ensures forall i | 0 <= i < |s.threads| && i != me :: ThreadOk(s.threads[i], s.round + 1)
    ensures forall i | 0 <= i < |s.threads| :: EnteredRounds(s.threads[i]) == s.round + 1
    ensures Sum(s.threads, Phase) == 4
  {
    LeaderPhase(s, me);
    SumZero(s.threads, Missing(s.round));
    forall i | 0 <= i < |s.threads| && i != me
      ensures ThreadOk(s.threads[i], s.round + 1) && EnteredRounds(s.threads[i]) == s.round + 1
    {
      assert Missing(s.round)(s.threads[i]) == 0;
      assert ThreadOk(s.threads[i], s.round);
      SumAtLeastTwo(s.threads, if i < me then i else me, if i < me then me else i, Leader);
    }
    assert ThreadOk(s.threads[me], s.round);
  }

  lemma SwitchKeepsInv(s: State, me: nat, a: Action, s': State)
    requires Inv(s) && Step(s, me, a, s') && s.threads[me].pc.LastCurrent?
    ensures Inv(s')
  {
    SwitchThreads(s, me);
    var th' := s'.threads[me];
    assert ThreadOk(s.threads[me], s.round);
    SumUpdate(s.threads, me, th', Leader);
    SumUpdate(s.threads, me, th', Phase);
    forall i | 0 <= i < |s'.threads| ensures ThreadOk(s'.threads[i], s'.round) && Missing(s'.round)(s'.threads[i]) == 1 {
    }
    SumFull(s'.threads, Missing(s'.round));
    forall k: nat ensures Sum(s'.threads, Wins(k)) ==
      (if k < s'.round || (k == s'.round && 1 <= Sum(s'.threads, Phase) <= 4) then 1 else 0)
    {
      WinsStep(s, me, a, s', k);
    }
  }

  lemma OrdinaryStepKeepsInv(s: State, me: nat, a: Action, s': State)
    requires Inv(s) && Step(s, me, a, s') && !s.threads[me].pc.LastCurrent?
    ensures Inv(s')
  {
    var th, th' := s.threads[me], s'.threads[me];
    var missing, phase := Sum(s.threads, Missing(s.round)), Sum(s.threads, Phase);
    PhaseBound(s);
    SumAtLeast(s.threads, me, Missing(s.round));
    if Phase(th) > 0 { LeaderPhase(s, me); }
    if phase == 5 && th.pc.Decrement? { SetterIsMissing(s, me); }
    LocalStep(s.sh, th, a, s.round, missing, phase);
    SumUpdate(s.threads, me, th', Leader);
    SumUpdate(s.threads, me, th', Phase);
    SumUpdate(s.threads, me, th', Missing(s.round));
    if Leader(th') > Leader(th) { NoPhaseNoLeader(s); }
    forall i | 0 <= i < |s'.threads| ensures ThreadOk(s'.threads[i], s'.round) {
      assert ThreadOk(s.threads[i], s.round);
    }
    forall k: nat ensures Sum(s'.threads, Wins(k)) ==
      (if k < s'.round || (k == s'.round && 1 <= Sum(s'.threads, Phase) <= 4) then 1 else 0)
    {
      assert ThreadOk(th, s.round);
      WinsStep(s, me, a, s', k);
    }
  }

  lemma PhaseBound(s: State)
    requires Inv(s)
    ensures Sum(s.threads, Phase) <= 5
  {
    if Sum(s.threads, Phase) > 0 {
      var i := SumWitness(s.threads, Phase);
      LeaderPhase(s, i);
    }
  }

  lemma NoPhaseNoLeader(s: State)
    requires Sum(s.threads, Phase) == 0
    ensures Sum(s.threads, Leader) == 0
  {
    SumZero(s.threads, Phase);
    SumZero(s.threads, Leader);
  }

  /** While the last thread of a round has yet to set its event, it is itself missing from the next round. */
  lemma SetterIsMissing(s: State, me: nat)
    requires Inv(s) && me < |s.threads| && s.threads[me].pc.Decrement?
    requires Sum(s.threads, Phase) == 5
    ensures Sum(s.threads, Missing(s.round)) >= 2
  {
    var i := SumWitness(s.threads, Phase);
    LeaderPhase(s, i);
    assert ThreadOk(s.threads[i], s.round) && ThreadOk(s.threads[me], s.round);
    SumAtLeastTwo(s.threads, if i < me then i else me, if i < me then me else i, Missing(s.round));
  }

  /** Every step of every thread keeps the invariant. */
  lemma StepKeepsInv(s: State, me: nat, a: Action, s': State)
    requires Inv(s) && Step(s, me, a, s')
    ensures Inv(s')
  {
    if s.threads[me].pc.LastCurrent? {
      SwitchKeepsInv(s, me, a, s');
    } else {
      OrdinaryStepKeepsInv(s, me, a, s');
    }
  }

  lemma InitEstablishesInv(s: State)
    requires Init(s)
    ensures Inv(s)
  {
    SumZero(s.threads, Leader);
    SumZero(s.threads, Phase);
    SumFull(s.threads, Missing(0));
    forall k: nat ensures Sum(s.threads, Wins(k)) == 0 {
      SumZero(s.threads, Wins(k));
    }
  }

  lemma {:induction false} RunInv(run: seq<State>, i: nat)
    requires IsRun(run) && i < |run|
    ensures Inv(run[i])
  {
    if i == 0 {
      InitEstablishesInv(run[0]);
    } else {
      RunInv(run, i - 1);
      assert NextAt(run, i);
      var me: nat, a: Action :| Step(run[i - 1], me, a, run[i]);
      StepKeepsInv(run[i - 1], me, a, run[i]);
    }
  }

  // ---- what the threads get, in every run ----

  /** Nobody has left a round that somebody has not entered. */
  lemma NobodyLeavesEarly(run: seq<State>, i: nat, t: nat, u: nat)
    requires IsRun(run) && i < |run| && t < |run[i].threads| && u < |run[i].threads|
    ensures Rounds(run[i].threads[t]) <= EnteredRounds(run[i].threads[u])
  {
    RunInv(run, i);
    assert ThreadOk(run[i].threads[t], run[i].round) && ThreadOk(run[i].threads[u], run[i].round);
  }

  /** Two threads' completed rounds never differ by more than one. */
  lemma RoundsStayClose(run: seq<State>, i: nat, t: nat, u: nat)
    requires IsRun(run) && i < |run| && t < |run[i].threads| && u < |run[i].threads|
    ensures Rounds(run[i].threads[t]) <= Rounds(run[i].threads[u]) + 1
  {
    RunInv(run, i);
    assert ThreadOk(run[i].threads[t], run[i].round) && ThreadOk(run[i].threads[u], run[i].round);
  }

  predicate GotTrue(th: Thread, k: nat) { k < |th.results| && th.results[k] }

  /** Once everybody has completed round k, exactly one thread got TRUE from it. */
  lemma ExactlyOneTrue(run: seq<State>, i: nat, k: nat)
    requires IsRun(run) && i < |run|
    requires forall t | 0 <= t < |run[i].threads| :: k < Rounds(run[i].threads[t])
    ensures exists w | 0 <= w < |run[i].threads| :: GotTrue(run[i].threads[w], k)
    ensures forall t, u | 0 <= t < u < |run[i].threads| :: !(GotTrue(run[i].threads[t], k) && GotTrue(run[i].threads[u], k))
  {
    RunInv(run, i);
    var s := run[i];
    assert ThreadOk(s.threads[0], s.round);
    var w := SumWitness(s.threads, Wins(k));
    assert GotTrue(s.threads[w], k);
    forall t, u | 0 <= t < u < |s.threads| ensures !(GotTrue(s.threads[t], k) && GotTrue(s.threads[u], k)) {
      SumAtLeastTwo(s.threads, t, u, Wins(k));
    }
  }

  /** The counter never goes below zero, and a decrement always finds it positive. */
  lemma CounterNeverNegative(run: seq<State>, i: nat, t: nat)
    requires IsRun(run) && i < |run| && t < |run[i].threads|
    ensures 0 <= run[i].sh.remaining <= |run[i].threads|
    ensures run[i].threads[t].pc.Decrement? ==> run[i].sh.remaining >= 1
  {
    RunInv(run, i);
    var s := run[i];
    SumFull(s.threads, Missing(s.round));
    assert ThreadOk(s.threads[t], s.round);
    SumAtLeast(s.threads, t, Missing(s.round));
  }

  ghost predicate Waiting(th: Thread) { th.pc.Spin? || th.pc.Block? }

  /** The waiter's next look lets it go: its spin test has flipped, or its event is set. */
  ghost predicate CanLeave(s: State, t: nat)
    requires t < |s.threads|
  {
    var pc := s.threads[t].pc;
    (pc.Spin? && s.sh.current != pc.cur) || (pc.Block? && IsSet(s.sh, pc.cur))
  }

  /**
    A waiter whose round everybody has entered can leave, or the last thread of that very round is still on
    its way to let it go. So it can leave once that thread has finished.
   */
  lemma WaiterIsReleased(run: seq<State>, i: nat, t: nat)
    requires IsRun(run) && i < |run| && t < |run[i].threads| && Waiting(run[i].threads[t])
    requires forall u | 0 <= u < |run[i].threads| :: EnteredRounds(run[i].threads[u]) > Rounds(run[i].threads[t])
    ensures var s := run[i];
            CanLeave(s, t) || exists u | 0 <= u < |s.threads| ::
              Phase(s.threads[u]) > 0 && Rounds(s.threads[u]) == Rounds(s.threads[t])
  {
    RunInv(run, i);
    var s := run[i];
    assert ThreadOk(s.threads[t], s.round);
    if Sum(s.threads, Phase) > 0 {
      var u := SumWitness(s.threads, Phase);
      LeaderPhase(s, u);
      SumAtLeast(s.threads, t, Missing(s.round));
      assert ThreadOk(s.threads[u], s.round);
    } else if Rounds(s.threads[t]) == s.round {
      SumZero(s.threads, Missing(s.round));
    }
  }

  /** Nothing another thread does takes a release back: the event is not reset and the spin test does not flip back. */
  lemma ReleaseIsStable(run: seq<State>, i: nat, me: nat, a: Action, t: nat)
    requires IsRun(run) && 0 < i < |run| && Step(run[i - 1], me, a, run[i])
    requires t < |run[i - 1].threads| && t != me && CanLeave(run[i - 1], t)
    ensures CanLeave(run[i], t)
  {
    var s := run[i - 1];
    RunInv(run, i - 1);
    assert ThreadOk(s.threads[t], s.round) && ThreadOk(s.threads[me], s.round);
    assert Rounds(s.threads[t]) + 1 == s.round;
    if Phase(s.threads[me]) > 0 {
      LeaderPhase(s, me);
      SumAtLeast(s.threads, t, Missing(s.round));
    }
  }

  /** A waiter leaves only after every thread has entered its round. */
  lemma ReleaseMeansAllEntered(run: seq<State>, i: nat, t: nat, u: nat)
    requires IsRun(run) && i < |run| && t < |run[i].threads| && u < |run[i].threads|
    requires CanLeave(run[i], t)
    ensures EnteredRounds(run[i].threads[u]) > Rounds(run[i].threads[t])
  {
    RunInv(run, i);
    assert ThreadOk(run[i].threads[t], run[i].round) && ThreadOk(run[i].threads[u], run[i].round);
  }

  /** With every thread inside a call, somebody can make progress other than by spinning on. */
  lemma NoDeadlock(run: seq<State>, i: nat)
    requires IsRun(run) && i < |run|
    requires forall t | 0 <= t < |run[i].threads| :: !run[i].threads[t].pc.Idle?
    ensures var s := run[i];
            exists t | 0 <= t < |s.threads| ::
              CanLeave(s, t) || (!Waiting(s.threads[t]) && Exec(s.sh, s.threads[t], Continue).Some?)
  {
    RunInv(run, i);
    var s := run[i];
    if Sum(s.threads, Phase) > 0 {
      var u := SumWitness(s.threads, Phase);
      assert !Waiting(s.threads[u]) && Exec(s.sh, s.threads[u], Continue).Some?;
    } else {
      var u := SumWitness(s.threads, Missing(s.round));
      assert ThreadOk(s.threads[u], s.round);
      assert CanLeave(s, u) || (!Waiting(s.threads[u]) && Exec(s.sh, s.threads[u], Continue).Some?);
    }
  }

  // ---- whole calls, from the call to the return, however others interleave ----

  /** Thread t is in the middle of a call after every step from j on, up to m. */
  ghost predicate Busy(run: seq<State>, j: nat, m: nat, t: nat) {
    && j < m < |run|
    && forall x | j < x <= m :: t < |run[x].threads| && !run[x].threads[t].pc.Idle?
  }

  /** Thread t enters the barrier with these flags at j and returns at i. */
  ghost predicate Returns(run: seq<State>, j: nat, i: nat, t: nat, flags: Flags) {
    && j + 1 < i < |run|
    && Step(run[j], t, Call(flags), run[j + 1])
    && Busy(run, j, i - 1, t)
    && t < |run[i].threads| && run[i].threads[t].pc.Idle?
  }

  ghost predicate OwnStep(sh: Shared, th: Thread, sh': Shared, th': Thread) { Exec(sh, th, Continue) == Some((sh', th')) }

  lemma ThreadStep(run: seq<State>, m: nat, t: nat)
    requires IsRun(run) && m + 1 < |run| && t < |run[m].threads| && !run[m].threads[t].pc.Idle?
    ensures t < |run[m + 1].threads|
    ensures run[m + 1].threads[t] == run[m].threads[t]
            || OwnStep(run[m].sh, run[m].threads[t], run[m + 1].sh, run[m + 1].threads[t])
  {
    assert NextAt(run, m + 1);
    var u: nat, a: Action :| Step(run[m], u, a, run[m + 1]);
  }

  /** A call with these flags, by a thread with these results, not yet returned: the flags say how it waits. */
  ghost predicate Midway(flags: Flags, results: seq<bool>, th: Thread) {
    && th.results == results
    && match th.pc
       case Idle => false
       case ReadCurrent(f) => f == flags
       case ReadDormant(f, _) => f == flags
       case Decrement(f, _, _) => f == flags
       case Spin(spinOnly, _, _) => spinOnly == flags.spinOnly && (flags.blockOnly ==> flags.spinOnly)
       case Block(_) => !flags.spinOnly
       case _ => true
  }

  ghost predicate OneMore(results: seq<bool>, now: seq<bool>) { now == results + [true] || now == results + [false] }

  lemma MidwayStep(flags: Flags, results: seq<bool>, sh: Shared, th: Thread, sh': Shared, th': Thread)
    requires Midway(flags, results, th) && OwnStep(sh, th, sh', th')
    ensures if th'.pc.Idle? then OneMore(results, th'.results) else Midway(flags, results, th')
  {
  }

  lemma CallBegins(s: State, t: nat, flags: Flags, s': State)
    requires Step(s, t, Call(flags), s')
    ensures t < |s'.threads| && Midway(flags, s.threads[t].results, s'.threads[t])
  {
  }

  lemma {:induction false} MidwayAll(run: seq<State>, j: nat, m: nat, t: nat, flags: Flags, results: seq<bool>)
    requires IsRun(run) && Busy(run, j, m, t) && Midway(flags, results, run[j + 1].threads[t])
    ensures Midway(flags, results, run[m].threads[t])
    decreases m
  {
    if m > j + 1 {
      MidwayAll(run, j, m - 1, t, flags, results);
      ThreadStep(run, m - 1, t);
      if run[m].threads[t] != run[m - 1].threads[t] {
        MidwayStep(flags, results, run[m - 1].sh, run[m - 1].threads[t], run[m].sh, run[m].threads[t]);
      }
    }
  }

  /** Every call returns one answer. With the spin-only flag it never blocks, with the block-only flag alone it never spins. */
  lemma CallReturns(run: seq<State>, j: nat, i: nat, t: nat, flags: Flags)
    requires IsRun(run) && Returns(run, j, i, t, flags)
    ensures OneMore(run[j].threads[t].results, run[i].threads[t].results)
    ensures forall m | j < m < i ::
              && (flags.spinOnly ==> !run[m].threads[t].pc.Block?)
              && (flags.blockOnly && !flags.spinOnly ==> !run[m].threads[t].pc.Spin?)
  {
    var results := run[j].threads[t].results;
    CallBegins(run[j], t, flags, run[j + 1]);
    forall m | j < m < i ensures Midway(flags, results, run[m].threads[t]) {
      MidwayAll(run, j, m, t, flags, results);
    }
    ThreadStep(run, i - 1, t);
    MidwayStep(flags, results, run[i - 1].sh, run[i - 1].threads[t], run[i].sh, run[i].threads[t]);
  }

  /** A waiter returns, with FALSE, exactly when it can leave. */
  lemma WaiterReturnsExactly(s: State, t: nat)
    requires t < |s.threads| && Waiting(s.threads[t])
    ensures CanLeave(s, t) <==> Exec(s.sh, s.threads[t], Continue) == Some((s.sh, Return(s.threads[t], false)))
  {
  }

  // ---- a thread on its own ----

  /** What comes of a thread's own steps when no other thread makes any. */
  function Alone(sh: Shared, th: Thread, steps: nat): (Shared, Thread)
    decreases steps
  {
    if steps == 0 then (sh, th)
    else
      var r := Exec(sh, th, Continue);
      if r == None then (sh, th) else Alone(r.value.0, r.value.1, steps - 1)
  }

  /** The last thread of a round switches the events, restores the counter, releases the others and gets TRUE. */
  lemma LastThreadFinishes(sh: Shared, th: Thread)
    requires th.pc.LastReset? && th.pc.cur == sh.current < 2 && th.pc.dorm == sh.dormant == 1 - sh.current
    ensures Alone(sh, th, 5)
            == (Shared(sh.total, sh.total, sh.dormant, sh.current, sh.current == 0, sh.current == 1, sh.processors, sh.spinCount),
                Return(th, true))
  {
    var cur, dorm := sh.current, sh.dormant;
    var sh1 := SetTo(sh, dorm, false);
    var sh2 := sh1.(remaining := sh1.total);
    var sh3 := sh2.(dormant := cur);
    var sh4 := sh3.(current := dorm);
    var sh5 := SetTo(sh4, cur, true);
    assert Alone(sh4, th.(pc := LastSet(cur)), 1) == Alone(sh5, Return(th, true), 0);
    assert Alone(sh3, th.(pc := LastCurrent(cur, dorm)), 2) == Alone(sh4, th.(pc := LastSet(cur)), 1);
    assert Alone(sh2, th.(pc := LastDormant(cur, dorm)), 3) == Alone(sh3, th.(pc := LastCurrent(cur, dorm)), 2);
    assert Alone(sh1, th.(pc := LastCounter(cur, dorm)), 4) == Alone(sh2, th.(pc := LastDormant(cur, dorm)), 3);
    assert th == th.(pc := LastReset(cur, dorm));
    assert Alone(sh, th, 5) == Alone(sh1, th.(pc := LastCounter(cur, dorm)), 4);
  }

  /** A thread that enters a round as the last to do so gets through without waiting. */
  lemma LastToEnterFinishes(sh: Shared, th: Thread, flags: Flags)
    requires sh.remaining == 1 && sh.current < 2 && sh.dormant == 1 - sh.current && th.pc == ReadCurrent(flags)
    ensures Alone(sh, th, 8).0.current == sh.dormant && IsSet(Alone(sh, th, 8).0, sh.current)
    ensures Alone(sh, th, 8).0.remaining == sh.total && Alone(sh, th, 8).1 == Return(th, true)
  {
    var cur, dorm := sh.current, sh.dormant;
    var sh1 := sh.(remaining := 0);
    var last := th.(pc := LastReset(cur, dorm));
    LastThreadFinishes(sh1, last);
    assert Alone(sh, th.(pc := Decrement(flags, cur, dorm)), 6) == Alone(sh1, last, 5);
    assert Alone(sh, th.(pc := ReadDormant(flags, cur)), 7) == Alone(sh, th.(pc := Decrement(flags, cur, dorm)), 6);
    assert Alone(sh, th, 8) == Alone(sh, th.(pc := ReadDormant(flags, cur)), 7);
  }

  /** A waiter of a round still open tests until it has done so more than `spinCount` times, and then blocks. */
  lemma {:induction false} AloneSpins(sh: Shared, th: Thread, cur: nat, spins: nat, k: nat)
    requires sh.current == cur && spins + k <= sh.spinCount + 1
    ensures Alone(sh, th.(pc := Spin(false, cur, spins)), k)
            == (sh, th.(pc := if k == 0 || spins + k <= sh.spinCount then Spin(false, cur, spins + k) else Block(cur)))
    decreases k
  {
    var here := th.(pc := Spin(false, cur, spins));
    if k > 0 && spins < sh.spinCount {
      AloneSpins(sh, th, cur, spins + 1, k - 1);
      assert Alone(sh, here, k) == Alone(sh, th.(pc := Spin(false, cur, spins + 1)), k - 1);
    } else if k > 0 {
      assert Alone(sh, here, 1) == Alone(sh, th.(pc := Block(cur)), 0);
    }
  }

  /** A spin-only one goes on testing. */
  lemma {:induction false} AloneSpinsOn(sh: Shared, th: Thread, cur: nat, spins: int, k: nat)
    requires sh.current == cur && th.pc == Spin(true, cur, spins)
    ensures Alone(sh, th, k) == (sh, th)
    decreases k
  {
    if k > 0 {
      AloneSpinsOn(sh, th, cur, spins, k - 1);
      assert Alone(sh, th, k) == Alone(sh, th, k - 1);
    }
  }

  /** Without a spin count of its own a barrier lets its waiters test 2001 times, and no oftener. */
  lemma DefaultSpins(n: int, processors: int, th: Thread, k: nat)
    requires n >= 1 && k <= 2001
    ensures var r := Initialize(n, -1, processors);
            && r.Some?
            && Alone(r.value, th.(pc := Spin(false, 0, 0)), k) == (r.value, th.(pc := if k <= 2000 then Spin(false, 0, k) else Block(0)))
  {
    AloneSpins(Initialize(n, -1, processors).value, th, 0, 0, k);
  }

  /**
    How a thread waits that is not the last: it spins if told to, or if fewer are missing than there are
    processors, unless told not to.
   */
  lemma AloneWaits(sh: Shared, th: Thread, flags: Flags)
    requires sh.remaining > 1 && th.pc == ReadCurrent(flags)
    ensures var (sh', th') := Alone(sh, th, 3);
            && sh' == sh.(remaining := sh.remaining - 1) && th'.results == th.results
            && (th'.pc.Spin? <==> flags.spinOnly || (!flags.blockOnly && sh.remaining - 1 < sh.processors))
            && th'.pc == if th'.pc.Spin? then Spin(flags.spinOnly, sh.current, 0) else Block(sh.current)
  {
    var sh' := sh.(remaining := sh.remaining - 1);
    var pc := if flags.spinOnly || (sh.remaining - 1 < sh.processors && !flags.blockOnly) then Spin(flags.spinOnly, sh.current, 0)
              else Block(sh.current);
    assert Alone(sh, th.(pc := Decrement(flags, sh.current, sh.dormant)), 1) == Alone(sh', th.(pc := pc), 0);
    assert Alone(sh, th.(pc := ReadDormant(flags, sh.current)), 2) == Alone(sh, th.(pc := Decrement(flags, sh.current, sh.dormant)), 1);
    assert Alone(sh, th, 3) == Alone(sh, th.(pc := ReadDormant(flags, sh.current)), 2);
  }
}
