/**
  Critical sections (libuzi/critical.c) as a step system over any number of threads.

  Every read, write or atomic operation on a shared field is one step, so a recursion-count
  increment is a read followed by a write. A thread is its index; the null owner is `None`.
  EnterCriticalSection (with the spin loop compiled in), TryEnterCriticalSection,
  LeaveCriticalSection and SetCriticalSectionSpinCount may interleave in any way; Leave is
  only called by a thread that is inside.
 */
module CriticalSection {
  import opened Sums
  import opened Wrappers

  datatype Shared = Shared(lockCount: int, recursion: int, owner: Option<nat>, tokens: nat, spinCount: nat)

  /** Who called TryEnterCriticalSection: Enter, with this many spins left, or the client. */
  datatype Caller = FromEnter(spin: nat) | FromClient

  datatype PC =
    | Idle
    | EnterSpinCount
    | TryCas(caller: Caller) | TryOwner(caller: Caller)
    | TryRecRead(caller: Caller) | TryRecWrite(caller: Caller, rec: int) | TryIncrement(caller: Caller)
    | SpinTest(spin: nat) | SpinCas(spin: nat)
    | EnterIncrement | EnterOwner | EnterRecRead | EnterRecWrite(rec: int) | EnterWait
    | SetRecursion | SetOwner
    | LeaveRecRead | LeaveRecWrite(rec: int) | LeaveClearOwner | LeaveLast | LeavePost | LeaveInner

  /** `depth` counts the thread's completed enters minus its leaves; `granted` is the answer of its last try. */
  datatype Thread = Thread(pc: PC, depth: nat, granted: bool)

  datatype State = State(sh: Shared, threads: seq<Thread>)

  datatype Action = CallEnter | CallTry | CallLeave | CallSetSpinCount(spin: nat) | Continue

  /** The next step of thread `me`; None when the action is not possible or the thread is blocked. */
  function Exec(sh: Shared, me: nat, th: Thread, a: Action): Option<(Shared, Thread)> {
    if th.pc.Idle? then
      match a
      case CallEnter => Some((sh, th.(pc := EnterSpinCount)))
      case CallTry => Some((sh, th.(pc := TryCas(FromClient))))
      case CallLeave => if th.depth > 0 then Some((sh, th.(pc := LeaveRecRead))) else None
      case CallSetSpinCount(spin) => Some((sh.(spinCount := spin), th))
      case Continue => None
    else if !a.Continue? then None
    else
      match th.pc
      // EnterCriticalSection
      case EnterSpinCount =>
        Some((sh, th.(pc := if sh.spinCount != 0 then TryCas(FromEnter(sh.spinCount)) else EnterIncrement)))
      case SpinTest(spin) =>
        Some((sh, th.(pc := if spin != 0 && sh.lockCount < 1 then SpinCas(spin - 1) else EnterIncrement)))
      case SpinCas(spin) =>
        if sh.lockCount == -1
        then Some((sh.(lockCount := 0), th.(pc := SetRecursion)))
        else Some((sh, th.(pc := SpinTest(spin))))
      case EnterIncrement =>
        Some((sh.(lockCount := sh.lockCount + 1),
              th.(pc := if sh.lockCount + 1 != 0 then EnterOwner else SetRecursion)))
      case EnterOwner =>
        Some((sh, th.(pc := if sh.owner == Some(me) then EnterRecRead else EnterWait)))
      case EnterRecRead => Some((sh, th.(pc := EnterRecWrite(sh.recursion))))
      case EnterRecWrite(rec) =>
        Some((sh.(recursion := rec + 1), th.(pc := Idle, depth := th.depth + 1)))
      case EnterWait =>
        if sh.tokens == 0 then None
        else Some((sh.(tokens := sh.tokens - 1), th.(pc := SetRecursion)))
      // taking over the section: both Enter and a successful try end here
      case SetRecursion => Some((sh.(recursion := 1), th.(pc := SetOwner)))
      case SetOwner => Some((sh.(owner := Some(me)), th.(pc := Idle, depth := th.depth + 1, granted := true)))
      // TryEnterCriticalSection
      case TryCas(caller) =>
        if sh.lockCount == -1
        then Some((sh.(lockCount := 0), th.(pc := SetRecursion)))
        else Some((sh, th.(pc := TryOwner(caller))))
      case TryOwner(caller) =>
        if sh.owner == Some(me) then Some((sh, th.(pc := TryRecRead(caller))))
        else if caller.FromClient? then Some((sh, th.(pc := Idle, granted := false)))
        else Some((sh, th.(pc := SpinTest(caller.spin))))
      case TryRecRead(caller) => Some((sh, th.(pc := TryRecWrite(caller, sh.recursion))))
      case TryRecWrite(caller, rec) => Some((sh.(recursion := rec + 1), th.(pc := TryIncrement(caller))))
      case TryIncrement(caller) =>
        Some((sh.(lockCount := sh.lockCount + 1), th.(pc := Idle, depth := th.depth + 1, granted := true)))
      // LeaveCriticalSection
      case LeaveRecRead => Some((sh, th.(pc := LeaveRecWrite(sh.recursion))))
      case LeaveRecWrite(rec) =>
        Some((sh.(recursion := rec - 1), th.(pc := if rec - 1 < 1 then LeaveClearOwner else LeaveInner)))
      case LeaveClearOwner => Some((sh.(owner := None), th.(pc := LeaveLast)))
      case LeaveLast =>
        Some((sh.(lockCount := sh.lockCount - 1),
              th.(pc := if sh.lockCount - 1 >= 0 then LeavePost else Idle, depth := 0)))
      case LeavePost => Some((sh.(tokens := sh.tokens + 1), th.(pc := Idle)))
      case LeaveInner =>
        Some((sh.(lockCount := sh.lockCount - 1), th.(pc := Idle, depth := if th.depth > 0 then th.depth - 1 else 0)))
  }

  ghost predicate Step(s: State, me: nat, a: Action, s': State) {
    && me < |s.threads|
    && var r := Exec(s.sh, me, s.threads[me], a);
    && r.Some?
    && s' == State(r.value.0, s.threads[me := r.value.1])
  }

  ghost predicate Next(s: State, s': State) {
    exists me: nat, a: Action :: Step(s, me, a, s')
  }

  /** InitializeCriticalSectionEx with zero flags, before any thread has called in. */
  ghost predicate Init(s: State) {
    && s.sh.(spinCount := 0) == Shared(-1, 0, None, 0, 0)
    && forall i | 0 <= i < |s.threads| :: s.threads[i].pc == Idle && s.threads[i].depth == 0
  }

  ghost predicate NextAt(run: seq<State>, i: nat)
    requires 0 < i < |run|
  {
    Next(run[i - 1], run[i])
  }

  ghost predicate IsRun(run: seq<State>) {
    && run != []
    && Init(run[0])
    && forall i | 0 < i < |run| :: NextAt(run, i)
  }

  // ---- what the invariant counts ----

  /** The thread has been given the section and has not given it back. */
  ghost predicate Holds(th: Thread) {
    th.depth > 0 || th.pc.SetRecursion? || th.pc.SetOwner?
  }

  /** The thread is inside: its enter has returned and its last leave has not yet unlocked. */
  ghost predicate Inside(th: Thread) {
    th.depth > 0
  }

  /** The thread has raised LockCount and is on its way to, or blocked on, the semaphore. */
  ghost predicate Queued(th: Thread) {
    th.pc.EnterWait? || (th.pc.EnterOwner? && th.depth == 0)
  }

  /** How much of LockCount + 1 is due to this thread. */
  ghost function LockUnits(th: Thread): nat {
    match th.pc
    case SetRecursion => 1
    case SetOwner => 1
    case EnterWait => 1
    case EnterOwner => th.depth + 1
    case EnterRecRead => th.depth + 1
    case EnterRecWrite(_) => th.depth + 1
    case _ => th.depth
  }

  /** One for the thread that holds the section or is about to post it to the next. */
  ghost function Permit(th: Thread): nat {
    if Holds(th) || th.pc.LeavePost? then 1 else 0
  }

  ghost function QueuedUnit(th: Thread): nat { if Queued(th) then 1 else 0 }

  /** The owner field names this thread exactly in these states. */
  ghost predicate Registered(th: Thread) {
    th.depth > 0 && !th.pc.LeaveLast?
  }

  /** The value of RecursionCount while this thread holds the section. */
  ghost function HolderRecursion(th: Thread): int {
    match th.pc
    case SetRecursion => 0
    case SetOwner => 1
    case TryIncrement(_) => th.depth + 1
    case LeaveClearOwner => 0
    case LeaveLast => 0
    case LeaveInner => th.depth - 1
    case _ => th.depth
  }

  ghost predicate ThreadOk(th: Thread) {
    match th.pc
    case SetRecursion => th.depth == 0
    case SetOwner => th.depth == 0
    case SpinTest(_) => th.depth == 0
    case SpinCas(_) => th.depth == 0
    case EnterWait => th.depth == 0
    case LeavePost => th.depth == 0
    case EnterRecRead => th.depth > 0
    case EnterRecWrite(rec) => th.depth > 0 && rec == th.depth
    case TryRecRead(_) => th.depth > 0
    case TryRecWrite(_, rec) => th.depth > 0 && rec == th.depth
    case TryIncrement(_) => th.depth > 0
    case LeaveRecRead => th.depth > 0
    case LeaveRecWrite(rec) => th.depth > 0 && rec == th.depth
    case LeaveClearOwner => th.depth == 1
    case LeaveLast => th.depth == 1
    case LeaveInner => th.depth > 1
    case _ => true
  }

  ghost predicate Inv(s: State) {
    && s.sh.lockCount + 1 == Sum(s.threads, LockUnits)
    && s.sh.tokens + Sum(s.threads, Permit) == (if s.sh.lockCount >= 0 then 1 else 0)
    && (forall i | 0 <= i < |s.threads| :: ThreadOk(s.threads[i]))
    && (s.sh.owner.Some? ==> s.sh.owner.value < |s.threads|)
    && (forall i | 0 <= i < |s.threads| :: s.sh.owner == Some(i) <==> Registered(s.threads[i]))
    && (forall i | 0 <= i < |s.threads| :: Holds(s.threads[i]) ==> s.sh.recursion == HolderRecursion(s.threads[i]))
    && ((forall i | 0 <= i < |s.threads| :: !Holds(s.threads[i])) ==> s.sh.recursion == 0)
  }

  /** At most one thread holds the section or is about to post it. */
  lemma PermitUnique(s: State, i: nat, j: nat)
    requires Inv(s) && i < |s.threads| && j < |s.threads| && i != j
    ensures Permit(s.threads[i]) + Permit(s.threads[j]) + s.sh.tokens <= 1
  {
    SumAtLeastTwo(s.threads, if i < j then i else j, if i < j then j else i, Permit);
  }

  /** What the invariant says about one thread `me` on its own. */
  ghost predicate LocalInv(sh: Shared, me: nat, th: Thread) {
    && ThreadOk(th)
    && LockUnits(th) <= sh.lockCount + 1
    && sh.tokens + Permit(th) <= (if sh.lockCount >= 0 then 1 else 0)
    && (sh.owner == Some(me) <==> Registered(th))
    && (Holds(th) ==> sh.recursion == HolderRecursion(th))
    && (sh.lockCount == -1 || sh.tokens > 0 ==> sh.recursion == 0)
  }

  /** One step moves LockCount and the permits exactly as the stepping thread's own share moves. */
  lemma StepCounts(sh: Shared, me: nat, th: Thread, a: Action)
    requires LocalInv(sh, me, th) && Exec(sh, me, th, a).Some?
    ensures var (sh', th') := Exec(sh, me, th, a).value;
            && sh'.lockCount + LockUnits(th) == sh.lockCount + LockUnits(th')
            && sh'.tokens + Permit(th') + (if sh.lockCount >= 0 then 1 else 0)
               == sh.tokens + Permit(th) + (if sh'.lockCount >= 0 then 1 else 0)
  {
  }

  /** Only the holder writes the owner and recursion fields, and it keeps them right. */
  lemma StepOwnership(sh: Shared, me: nat, th: Thread, a: Action)
    requires LocalInv(sh, me, th) && Exec(sh, me, th, a).Some?
    ensures var (sh', th') := Exec(sh, me, th, a).value;
            && ThreadOk(th')
            && (sh'.owner == Some(me) <==> Registered(th'))
            && (sh'.owner != sh.owner ==> Holds(th) && sh'.owner in {None, Some(me)})
            && (sh'.recursion != sh.recursion ==> Holds(th))
            && (Holds(th') ==> sh'.recursion == HolderRecursion(th'))
            && (Holds(th) && !Holds(th') ==> sh'.recursion == 0)
  {
  }

  lemma LocalFromGlobal(s: State, me: nat)
    requires Inv(s) && me < |s.threads|
    ensures LocalInv(s.sh, me, s.threads[me])
  {
    SumAtLeast(s.threads, me, LockUnits);
    SumAtLeast(s.threads, me, Permit);
    if s.sh.lockCount == -1 || s.sh.tokens > 0 {
      SumZero(s.threads, Permit);
      forall i | 0 <= i < |s.threads| ensures !Holds(s.threads[i]) {
        assert Permit(s.threads[i]) == 0;
      }
    }
  }

  lemma OthersUntouched(s: State, me: nat, a: Action, s': State, i: nat)
    requires Inv(s) && Step(s, me, a, s') && i < |s.threads| && i != me
    ensures s'.sh.owner == Some(i) <==> Registered(s'.threads[i])
    ensures Holds(s'.threads[i]) ==> s'.sh.recursion == HolderRecursion(s'.threads[i])
  {
    LocalFromGlobal(s, me);
    StepOwnership(s.sh, me, s.threads[me], a);
    PermitUnique(s, i, me);
  }

  /** Every step of every thread keeps the invariant. */
  lemma StepKeepsInv(s: State, me: nat, a: Action, s': State)
    requires Inv(s) && Step(s, me, a, s')
    ensures Inv(s')
  {
    var th, th' := s.threads[me], s'.threads[me];
    LocalFromGlobal(s, me);
    StepCounts(s.sh, me, th, a);
    StepOwnership(s.sh, me, th, a);
    SumUpdate(s.threads, me, th', LockUnits);
    SumUpdate(s.threads, me, th', Permit);
    forall i | 0 <= i < |s.threads|
      ensures ThreadOk(s'.threads[i])
      ensures s'.sh.owner == Some(i) <==> Registered(s'.threads[i])
      ensures Holds(s'.threads[i]) ==> s'.sh.recursion == HolderRecursion(s'.threads[i])
    {
      if i != me { OthersUntouched(s, me, a, s', i); }
    }
    if forall i | 0 <= i < |s'.threads| :: !Holds(s'.threads[i]) {
      assert !Holds(th');
      if !Holds(th) {
        forall i | 0 <= i < |s.threads| ensures !Holds(s.threads[i]) {
          assert i != me ==> s.threads[i] == s'.threads[i];
        }
      }
    }
  }

  lemma InitEstablishesInv(s: State)
    requires Init(s)
    ensures Inv(s)
  {
    SumZero(s.threads, LockUnits);
    SumZero(s.threads, Permit);
  }

  /** Every state of every run satisfies the invariant. */
  lemma {:induction false} RunInv(run: seq<State>, i: nat)
    requires IsRun(run) && i < |run|
    ensures Inv(run[i])
  {
    if i == 0 {
      InitEstablishesInv(run[0]);
    } else {
      RunInv(run, i - 1);
      assert NextAt(run, i);
      var me: nat, a: Action :| Step(run[i - 1], me, a, run[i]);
      StepKeepsInv(run[i - 1], me, a, run[i]);
    }
  }

  // ---- what a client gets, in every run ----

  /** Mutual exclusion: two different threads are never inside together. */
  lemma MutualExclusion(run: seq<State>, i: nat, t: nat, u: nat)
    requires IsRun(run) && i < |run| && t < |run[i].threads| && u < |run[i].threads|
    requires Inside(run[i].threads[t]) && Inside(run[i].threads[u])
    ensures t == u
  {
    RunInv(run, i);
    if t != u { PermitUnique(run[i], t, u); }
  }

  /**
    A thread that reads its own id in OwningThread is inside, whatever the others are doing at
    that moment; and a thread that is inside and not unlocking always finds its id there.
   */
  lemma OwnerTestIsExact(run: seq<State>, i: nat, t: nat)
    requires IsRun(run) && i < |run| && t < |run[i].threads|
    ensures run[i].sh.owner == Some(t) <==> Inside(run[i].threads[t]) && !run[i].threads[t].pc.LeaveLast?
  {
    RunInv(run, i);
  }

  /** Holders, pending posts and semaphore tokens add up to one while LockCount is at least zero, to none at -1. */
  lemma OnePermit(run: seq<State>, i: nat)
    requires IsRun(run) && i < |run|
    ensures run[i].sh.lockCount >= -1
    ensures run[i].sh.tokens + Sum(run[i].threads, Permit) == (if run[i].sh.lockCount >= 0 then 1 else 0)
  {
    RunInv(run, i);
  }

  /** Between its calls, the thread inside sees its own depth in RecursionCount. */
  lemma RecursionIsDepth(run: seq<State>, i: nat, t: nat)
    requires IsRun(run) && i < |run| && t < |run[i].threads|
    requires run[i].threads[t].pc.Idle? && Inside(run[i].threads[t])
    ensures run[i].sh.recursion == run[i].threads[t].depth
  {
    RunInv(run, i);
  }

  /** Threads other than the holder that are queued. */
  ghost function QueuedCount(s: State): nat { Sum(s.threads, QueuedUnit) }

  /** What the holder adds to its completed depth while it is in the middle of an enter. */
  ghost function MidCall(th: Thread): nat {
    match th.pc
    case SetRecursion => 1
    case SetOwner => 1
    case EnterOwner => 1
    case EnterRecRead => 1
    case EnterRecWrite(_) => 1
    case _ => 0
  }

  /** LockUnits without a queued thread's unit. */
  ghost function HolderUnits(th: Thread): nat {
    LockUnits(th) - QueuedUnit(th)
  }

  lemma {:induction false} SplitUnits(ts: seq<Thread>)
    ensures Sum(ts, LockUnits) == Sum(ts, HolderUnits) + Sum(ts, QueuedUnit)
  {
    if ts != [] { SplitUnits(ts[1..]); }
  }

  /** LockCount + 1 is the holder's depth, with its call in progress, plus the queued threads. */
  lemma LockCountAccounting(run: seq<State>, i: nat, h: nat)
    requires IsRun(run) && i < |run| && h < |run[i].threads| && Holds(run[i].threads[h])
    ensures var s := run[i]; s.sh.lockCount + 1 == s.threads[h].depth + MidCall(s.threads[h]) + QueuedCount(s)
  {
    RunInv(run, i);
    var s := run[i];
    SplitUnits(s.threads);
    forall j | 0 <= j < |s.threads| && j != h ensures HolderUnits(s.threads[j]) == 0 {
      PermitUnique(s, j, h);
    }
    SumOnly(s.threads, h, HolderUnits);
  }

  /** With nobody holding, LockCount + 1 is exactly the number of queued threads. */
  lemma FreeLockCount(run: seq<State>, i: nat)
    requires IsRun(run) && i < |run|
    requires forall j | 0 <= j < |run[i].threads| :: !Holds(run[i].threads[j])
    ensures run[i].sh.lockCount + 1 == QueuedCount(run[i])
  {
    RunInv(run, i);
    SumSame(run[i].threads, LockUnits, QueuedUnit);
  }

  /** No wake-up is lost: a thread blocked on the semaphore can go on, or somebody holds or is posting. */
  lemma NoLostWakeup(run: seq<State>, i: nat, t: nat)
    requires IsRun(run) && i < |run| && t < |run[i].threads|
    requires Queued(run[i].threads[t])
    ensures var s := run[i];
            s.sh.tokens == 1 || exists h | 0 <= h < |s.threads| :: h != t && Permit(s.threads[h]) == 1
  {
    RunInv(run, i);
    var s := run[i];
    SumAtLeast(s.threads, t, LockUnits);
    assert s.sh.lockCount >= 0;
    if s.sh.tokens == 0 {
      var h := SumWitness(s.threads, Permit);
      assert h != t;
    }
  }

  /** The protocol itself never deadlocks: if nobody can continue, everybody is out of any call or the holder is idle inside. */
  lemma NoDeadlock(run: seq<State>, i: nat, t: nat)
    requires IsRun(run) && i < |run| && t < |run[i].threads|
    requires !run[i].threads[t].pc.Idle?
    ensures var s := run[i];
            exists h | 0 <= h < |s.threads| ::
              Exec(s.sh, h, s.threads[h], Continue).Some? || (s.threads[h].pc.Idle? && Inside(s.threads[h]))
  {
    var s := run[i];
    if s.threads[t].pc.EnterWait? {
      NoLostWakeup(run, i, t);
      if s.sh.tokens != 1 {
        var h :| 0 <= h < |s.threads| && h != t && Permit(s.threads[h]) == 1;
        RunInv(run, i);
        assert ThreadOk(s.threads[h]);
        assert Exec(s.sh, h, s.threads[h], Continue).Some? || s.threads[h].pc.Idle?;
      } else {
        assert Exec(s.sh, t, s.threads[t], Continue).Some?;
      }
    } else {
      assert Exec(s.sh, t, s.threads[t], Continue).Some?;
    }
  }

  /** After balanced use the section is back in its initial state, the spin count aside. */
  lemma BalancedUseRestores(run: seq<State>, i: nat)
    requires IsRun(run) && i < |run|
    requires forall j | 0 <= j < |run[i].threads| :: run[i].threads[j].pc.Idle? && run[i].threads[j].depth == 0
    ensures Init(run[i])
  {
    RunInv(run, i);
    SumZero(run[i].threads, LockUnits);
    SumZero(run[i].threads, Permit);
  }

  /**
    A client's try returns TRUE exactly when the thread is inside afterwards. Its failing steps, the swap
    and then the owner test, leave everything shared as it was, so a try that returns FALSE has touched nothing.
   */
  lemma TryAnswers(run: seq<State>, i: nat, me: nat, a: Action)
    requires IsRun(run) && 0 < i < |run| && Step(run[i - 1], me, a, run[i])
    ensures var th, th' := run[i - 1].threads[me], run[i].threads[me];
            && (th.pc in {TryOwner(FromClient), TryIncrement(FromClient), SetOwner} && th'.pc.Idle? ==>
                  (th'.granted <==> Inside(th')))
            && (th.pc == TryCas(FromClient) ==>
                  if th'.pc.SetRecursion? then run[i - 1].sh.lockCount == -1 && run[i].sh.lockCount == 0
                  else th'.pc == TryOwner(FromClient) && run[i].sh == run[i - 1].sh)
            && (th.pc == TryOwner(FromClient) ==>
                  run[i].sh == run[i - 1].sh && (th'.pc.Idle? ==> !th'.granted))
            && (th'.pc.Idle? && !th'.granted && th.pc.TryOwner? ==> th.pc == TryOwner(FromClient))
            && (th'.pc == TryOwner(FromClient) ==> th.pc == TryCas(FromClient))
  {
    RunInv(run, i - 1);
    assert ThreadOk(run[i - 1].threads[me]);
    assert run[i - 1].sh.owner == Some(me) <==> Registered(run[i - 1].threads[me]);
  }

  // ---- whole calls, from the call to the return, however others interleave ----

  /** Thread t is in the middle of a call after every step from j on, up to m. */
  ghost predicate Busy(run: seq<State>, j: nat, m: nat, t: nat) {
    && j < m < |run|
    && forall x | j < x <= m :: t < |run[x].threads| && !run[x].threads[t].pc.Idle?
  }

  /** Thread t makes the call at j and returns from it at i. */
  ghost predicate Returns(run: seq<State>, j: nat, i: nat, t: nat, call: Action) {
    && j + 1 < i < |run|
    && Step(run[j], t, call, run[j + 1])
    && Busy(run, j, i - 1, t)
    && t < |run[i].threads| && run[i].threads[t].pc.Idle?
  }

  /** The thread has made this step of its own. */
  ghost predicate OwnStep(sh: Shared, me: nat, th: Thread, sh': Shared, th': Thread) {
    LocalInv(sh, me, th) && Exec(sh, me, th, Continue) == Some((sh', th'))
  }

  /** Between two states a busy thread has made a step of its own or is as it was. */
  lemma ThreadStep(run: seq<State>, m: nat, t: nat)
    requires IsRun(run) && m + 1 < |run| && t < |run[m].threads| && !run[m].threads[t].pc.Idle?
    ensures t < |run[m + 1].threads|
    ensures run[m + 1].threads[t] == run[m].threads[t]
            || OwnStep(run[m].sh, t, run[m].threads[t], run[m + 1].sh, run[m + 1].threads[t])
  {
    RunInv(run, m);
    LocalFromGlobal(run[m], t);
    assert NextAt(run, m + 1);
    var u: nat, a: Action :| Step(run[m], u, a, run[m + 1]);
  }

  /** A thread that has d enters behind it is in the middle of one more, or of a leave. */
  ghost predicate Midway(call: Action, d: nat, th: Thread) {
    match call
    case CallEnter =>
      && th.depth == d
      && (th.pc.EnterSpinCount? || th.pc.SpinTest? || th.pc.SpinCas? || th.pc.EnterIncrement? || th.pc.EnterOwner?
          || th.pc.EnterRecRead? || th.pc.EnterRecWrite? || th.pc.EnterWait? || th.pc.SetRecursion? || th.pc.SetOwner?
          || (th.pc.TryCas? && th.pc.caller.FromEnter?) || (th.pc.TryOwner? && th.pc.caller.FromEnter?)
          || (th.pc.TryRecRead? && th.pc.caller.FromEnter?) || (th.pc.TryRecWrite? && th.pc.caller.FromEnter?)
          || (th.pc.TryIncrement? && th.pc.caller.FromEnter?))
    case CallLeave =>
      && d > 0
      && if th.pc.LeavePost? then th.depth == d - 1
         else th.depth == d && (th.pc.LeaveRecRead? || th.pc.LeaveRecWrite? || th.pc.LeaveClearOwner? || th.pc.LeaveLast?
                                || th.pc.LeaveInner?)
    case _ => false
  }

  function DepthAfter(call: Action, d: nat): int { if call.CallEnter? then d + 1 else d - 1 }

  lemma MidwayStep(call: Action, d: nat, sh: Shared, me: nat, th: Thread, sh': Shared, th': Thread)
    requires Midway(call, d, th) && OwnStep(sh, me, th, sh', th')
    ensures if th'.pc.Idle? then th'.depth == DepthAfter(call, d) else Midway(call, d, th')
  {
  }

  lemma CallBegins(s: State, t: nat, call: Action, s': State)
    requires (call.CallEnter? || call.CallLeave?) && Step(s, t, call, s')
    ensures t < |s'.threads| && Midway(call, s.threads[t].depth, s'.threads[t])
  {
  }

  lemma {:induction false} MidwayAll(run: seq<State>, j: nat, m: nat, t: nat, call: Action, d: nat)
    requires IsRun(run) && Busy(run, j, m, t) && Midway(call, d, run[j + 1].threads[t])
    ensures Midway(call, d, run[m].threads[t])
    decreases m
  {
    if m > j + 1 {
      MidwayAll(run, j, m - 1, t, call, d);
      ThreadStep(run, m - 1, t);
      if run[m].threads[t] != run[m - 1].threads[t] {
        MidwayStep(call, d, run[m - 1].sh, t, run[m - 1].threads[t], run[m].sh, run[m].threads[t]);
      }
    }
  }

  /** Enter returns with the caller one level deeper inside, leave with the caller one level less deep. */
  lemma EnterAndLeaveReturn(run: seq<State>, j: nat, i: nat, t: nat, call: Action)
    requires IsRun(run) && (call.CallEnter? || call.CallLeave?) && Returns(run, j, i, t, call)
    ensures run[i].threads[t].depth == run[j].threads[t].depth + (if call.CallEnter? then 1 else -1)
  {
    var d := run[j].threads[t].depth;
    CallBegins(run[j], t, call, run[j + 1]);
    MidwayAll(run, j, i - 1, t, call, d);
    ThreadStep(run, i - 1, t);
    MidwayStep(call, d, run[i - 1].sh, t, run[i - 1].threads[t], run[i].sh, run[i].threads[t]);
  }

  /** A client's try by a thread that has d enters behind it, past its swap, which found the section free or not. */
  ghost predicate PastSwap(d: nat, free: bool, th: Thread) {
    && th.depth == d
    && if free then d == 0 && (th.pc.SetRecursion? || th.pc.SetOwner?)
       else
         || th.pc == TryOwner(FromClient)
         || (d > 0 && (th.pc == TryRecRead(FromClient) || th.pc == TryIncrement(FromClient)
                       || (th.pc.TryRecWrite? && th.pc.caller.FromClient?)))
  }

  lemma SwapStep(sh: Shared, me: nat, th: Thread, sh': Shared, th': Thread)
    requires th.pc == TryCas(FromClient) && OwnStep(sh, me, th, sh', th')
    ensures PastSwap(th.depth, sh.lockCount == -1, th') && !th'.pc.Idle?
  {
  }

  lemma PastSwapStep(d: nat, free: bool, sh: Shared, me: nat, th: Thread, sh': Shared, th': Thread)
    requires PastSwap(d, free, th) && OwnStep(sh, me, th, sh', th')
    ensures if th'.pc.Idle? then th'.depth == (if th'.granted then d + 1 else d) && (th'.granted <==> free || d > 0)
            else PastSwap(d, free, th')
  {
  }

  lemma TryBegins(s: State, t: nat, s': State)
    requires Step(s, t, CallTry, s')
    ensures t < |s'.threads| && s'.threads[t].pc == TryCas(FromClient) && s'.threads[t].depth == s.threads[t].depth
  {
  }

  /** Where a client's try stands at m: before its swap, or past the one it made at k. */
  ghost predicate TryAt(run: seq<State>, j: nat, m: nat, t: nat, d: nat, swapped: bool, k: nat)
    requires m < |run| && t < |run[m].threads|
  {
    if swapped
    then
      && j < k < m && t < |run[k].threads| && run[k].threads[t].pc == TryCas(FromClient)
      && PastSwap(d, run[k].sh.lockCount == -1, run[m].threads[t])
    else run[m].threads[t].pc == TryCas(FromClient) && run[m].threads[t].depth == d
  }

  lemma {:induction false} TryUpTo(run: seq<State>, j: nat, m: nat, t: nat, d: nat) returns (swapped: bool, k: nat)
    requires IsRun(run) && Busy(run, j, m, t)
    requires run[j + 1].threads[t].pc == TryCas(FromClient) && run[j + 1].threads[t].depth == d
    ensures TryAt(run, j, m, t, d, swapped, k)
    decreases m
  {
    swapped, k := false, 0;
    if m > j + 1 {
      swapped, k := TryUpTo(run, j, m - 1, t, d);
      ThreadStep(run, m - 1, t);
      if run[m].threads[t] != run[m - 1].threads[t] {
        if swapped {
          PastSwapStep(d, run[k].sh.lockCount == -1, run[m - 1].sh, t, run[m - 1].threads[t], run[m].sh, run[m].threads[t]);
        } else {
          SwapStep(run[m - 1].sh, t, run[m - 1].threads[t], run[m].sh, run[m].threads[t]);
          swapped, k := true, m - 1;
        }
      }
    }
  }

  /**
    A try answers TRUE exactly when its swap found LockCount at -1 or the caller was inside already, and
    then the caller is one level deeper inside; otherwise the caller is as far inside as before.
   */
  lemma TryReturns(run: seq<State>, j: nat, i: nat, t: nat) returns (k: nat)
    requires IsRun(run) && Returns(run, j, i, t, CallTry)
    ensures j < k < i && t < |run[k].threads| && run[k].threads[t].pc == TryCas(FromClient)
    ensures var th, th' := run[j].threads[t], run[i].threads[t];
            && (th'.granted <==> run[k].sh.lockCount == -1 || Inside(th))
            && th'.depth == th.depth + (if th'.granted then 1 else 0)
  {
    var d := run[j].threads[t].depth;
    TryBegins(run[j], t, run[j + 1]);
    var swapped;
    swapped, k := TryUpTo(run, j, i - 1, t, d);
    ThreadStep(run, i - 1, t);
    if !swapped { SwapStep(run[i - 1].sh, t, run[i - 1].threads[t], run[i].sh, run[i].threads[t]); }
    PastSwapStep(d, run[k].sh.lockCount == -1, run[i - 1].sh, t, run[i - 1].threads[t], run[i].sh, run[i].threads[t]);
  }

  // ---- a thread on its own ----

  /** What comes of a thread's own steps when no other thread makes any. */
  function Alone(sh: Shared, me: nat, th: Thread, steps: nat): (Shared, Thread)
    decreases steps
  {
    if steps == 0 then (sh, th)
    else
      var r := Exec(sh, me, th, Continue);
      if r == None then (sh, th) else Alone(r.value.0, me, r.value.1, steps - 1)
  }

  function AloneFrom(sh: Shared, me: nat, th: Thread, call: Action, steps: nat): (Shared, Thread) {
    var r := Exec(sh, me, th, call);
    if r == None then (sh, th) else Alone(r.value.0, me, r.value.1, steps)
  }

  /** From the moment it is taken: two steps to be inside. */
  lemma AloneTakesOver(sh: Shared, me: nat, th: Thread)
    requires th.pc == SetRecursion && th.depth == 0
    ensures Alone(sh, me, th, 2) == (sh.(recursion := 1, owner := Some(me)), th.(pc := Idle, depth := 1, granted := true))
  {
    var sh1, th1 := sh.(recursion := 1), th.(pc := SetOwner);
    assert Alone(sh, me, th, 2) == Alone(sh1, me, th1, 1);
    assert Alone(sh1, me, th1, 1) == Alone(sh1.(owner := Some(me)), me, th1.(pc := Idle, depth := 1, granted := true), 0);
  }

  /** A free section is entered at once, with or without spinning. */
  lemma AloneGoesIn(sh: Shared, me: nat, th: Thread)
    requires sh.lockCount == -1 && th.pc == Idle && th.depth == 0
    ensures var inside, th' := sh.(lockCount := 0, recursion := 1, owner := Some(me)), th.(depth := 1, granted := true);
            AloneFrom(sh, me, th, CallEnter, 4) == (inside, th') && AloneFrom(sh, me, th, CallTry, 3) == (inside, th')
  {
    var sh1 := sh.(lockCount := 0);
    AloneTakesOver(sh1, me, th.(pc := SetRecursion));
    var th1 := th.(pc := if sh.spinCount != 0 then TryCas(FromEnter(sh.spinCount)) else EnterIncrement);
    assert Alone(sh, me, th.(pc := EnterSpinCount), 4) == Alone(sh, me, th1, 3);
    assert Alone(sh, me, th1, 3) == Alone(sh1, me, th.(pc := SetRecursion), 2);
    assert Alone(sh, me, th.(pc := TryCas(FromClient)), 3) == Alone(sh1, me, th.(pc := SetRecursion), 2);
  }

  lemma AloneFrees(sh: Shared, me: nat, th: Thread)
    requires sh.lockCount == 0 && th.pc == LeaveClearOwner
    ensures Alone(sh, me, th, 2) == (sh.(lockCount := -1, owner := None), th.(pc := Idle, depth := 0))
  {
    var sh1 := sh.(owner := None);
    assert Alone(sh1, me, th.(pc := LeaveLast), 1) == Alone(sh1.(lockCount := -1), me, th.(pc := Idle, depth := 0), 0);
    assert Alone(sh, me, th, 2) == Alone(sh1, me, th.(pc := LeaveLast), 1);
  }

  /** The last leave, with nobody queued, makes the section free. */
  lemma AloneGoesOut(sh: Shared, me: nat, th: Thread)
    requires sh.lockCount == 0 && sh.recursion == 1 && th.pc == Idle && th.depth == 1
    ensures AloneFrom(sh, me, th, CallLeave, 4) == (sh.(lockCount := -1, recursion := 0, owner := None), th.(depth := 0))
  {
    var sh1 := sh.(recursion := 0);
    AloneFrees(sh1, me, th.(pc := LeaveClearOwner));
    assert Alone(sh, me, th.(pc := LeaveRecWrite(1)), 3) == Alone(sh1, me, th.(pc := LeaveClearOwner), 2);
    assert Alone(sh, me, th.(pc := LeaveRecRead), 4) == Alone(sh, me, th.(pc := LeaveRecWrite(1)), 3);
  }

  /** The holder goes in again: one more on both counters. */
  lemma AloneGoesDeeper(sh: Shared, me: nat, th: Thread)
    requires sh.owner == Some(me) && sh.lockCount >= 0 && sh.spinCount == 0 && th.pc == Idle
    ensures AloneFrom(sh, me, th, CallEnter, 5)
            == (sh.(lockCount := sh.lockCount + 1, recursion := sh.recursion + 1), th.(depth := th.depth + 1))
  {
    var r := sh.recursion;
    var up := sh.(lockCount := sh.lockCount + 1);
    assert Alone(up, me, th.(pc := EnterRecWrite(r)), 1) == Alone(up.(recursion := r + 1), me, th.(depth := th.depth + 1), 0);
    assert Alone(up, me, th.(pc := EnterRecRead), 2) == Alone(up, me, th.(pc := EnterRecWrite(r)), 1);
    assert Alone(up, me, th.(pc := EnterOwner), 3) == Alone(up, me, th.(pc := EnterRecRead), 2);
    assert Alone(sh, me, th.(pc := EnterIncrement), 4) == Alone(up, me, th.(pc := EnterOwner), 3);
    assert Alone(sh, me, th.(pc := EnterSpinCount), 5) == Alone(sh, me, th.(pc := EnterIncrement), 4);
  }

  /** And out again, but not all the way: one less. */
  lemma AloneGoesBack(sh: Shared, me: nat, th: Thread)
    requires sh.recursion > 1 && th.pc == Idle && th.depth > 1
    ensures AloneFrom(sh, me, th, CallLeave, 3)
            == (sh.(lockCount := sh.lockCount - 1, recursion := sh.recursion - 1), th.(depth := th.depth - 1))
  {
    var r := sh.recursion;
    var sh1 := sh.(recursion := r - 1);
    assert Alone(sh1, me, th.(pc := LeaveInner), 1) == Alone(sh1.(lockCount := sh.lockCount - 1), me, th.(depth := th.depth - 1), 0);
    assert Alone(sh, me, th.(pc := LeaveRecWrite(r)), 2) == Alone(sh1, me, th.(pc := LeaveInner), 1);
    assert Alone(sh, me, th.(pc := LeaveRecRead), 3) == Alone(sh, me, th.(pc := LeaveRecWrite(r)), 2);
  }

  /** The holder goes deeper through a try as well, which is also how a spinning enter begins. */
  lemma AloneTriesDeeper(sh: Shared, me: nat, th: Thread, caller: Caller)
    requires sh.owner == Some(me) && sh.lockCount >= 0
    ensures Alone(sh, me, th.(pc := TryCas(caller)), 5)
            == (sh.(lockCount := sh.lockCount + 1, recursion := sh.recursion + 1),
                th.(pc := Idle, depth := th.depth + 1, granted := true))
  {
    var r := sh.recursion;
    var sh1 := sh.(recursion := r + 1);
    var sh2, th2 := sh1.(lockCount := sh.lockCount + 1), th.(pc := Idle, depth := th.depth + 1, granted := true);
    assert Alone(sh1, me, th.(pc := TryIncrement(caller)), 1) == Alone(sh2, me, th2, 0);
    assert Alone(sh, me, th.(pc := TryRecWrite(caller, r)), 2) == Alone(sh1, me, th.(pc := TryIncrement(caller)), 1);
    assert Alone(sh, me, th.(pc := TryRecRead(caller)), 3) == Alone(sh, me, th.(pc := TryRecWrite(caller, r)), 2);
    assert Alone(sh, me, th.(pc := TryOwner(caller)), 4) == Alone(sh, me, th.(pc := TryRecRead(caller)), 3);
    assert Alone(sh, me, th.(pc := TryCas(caller)), 5) == Alone(sh, me, th.(pc := TryOwner(caller)), 4);
  }

  /** While the section is held and nobody waits, a spinning enter tests it `spin` times; then it queues. */
  lemma {:induction false} AloneSpins(sh: Shared, me: nat, th: Thread, spin: nat)
    requires sh.lockCount == 0
    ensures Alone(sh, me, th.(pc := SpinTest(spin)), 2 * spin + 1) == (sh, th.(pc := EnterIncrement))
  {
    if spin == 0 {
      assert Alone(sh, me, th.(pc := SpinTest(0)), 1) == Alone(sh, me, th.(pc := EnterIncrement), 0);
    } else {
      AloneSpins(sh, me, th, spin - 1);
      var n := 2 * (spin - 1) + 1;
      assert Alone(sh, me, th.(pc := SpinCas(spin - 1)), n + 1) == Alone(sh, me, th.(pc := SpinTest(spin - 1)), n);
      assert Alone(sh, me, th.(pc := SpinTest(spin)), n + 2) == Alone(sh, me, th.(pc := SpinCas(spin - 1)), n + 1);
    }
  }

  /** So a whole enter of a held section with a spin count tries, tests that many times, and only then queues. */
  lemma AloneSpinsFirst(sh: Shared, me: nat, th: Thread)
    requires sh.lockCount == 0 && sh.owner != Some(me) && sh.spinCount > 0 && th.pc == Idle
    ensures AloneFrom(sh, me, th, CallEnter, 2 * sh.spinCount + 4) == (sh, th.(pc := EnterIncrement))
  {
    var spin, n := sh.spinCount, 2 * sh.spinCount + 1;
    AloneSpins(sh, me, th, spin);
    assert Alone(sh, me, th.(pc := TryOwner(FromEnter(spin))), n + 1) == Alone(sh, me, th.(pc := SpinTest(spin)), n);
    assert Alone(sh, me, th.(pc := TryCas(FromEnter(spin))), n + 2) == Alone(sh, me, th.(pc := TryOwner(FromEnter(spin))), n + 1);
    assert Alone(sh, me, th.(pc := EnterSpinCount), n + 3) == Alone(sh, me, th.(pc := TryCas(FromEnter(spin))), n + 2);
  }

  /** With others queued it does not compete. */
  lemma AloneDoesNotCompete(sh: Shared, me: nat, th: Thread, spin: nat)
    requires sh.lockCount >= 1
    ensures Alone(sh, me, th.(pc := SpinTest(spin)), 1) == (sh, th.(pc := EnterIncrement))
  {
    assert Alone(sh, me, th.(pc := SpinTest(spin)), 1) == Alone(sh, me, th.(pc := EnterIncrement), 0);
  }

  /** From the last part of a leave on, with threads queued: one token is posted. */
  lemma AlonePosts(sh: Shared, me: nat, th: Thread)
    requires sh.lockCount > 0 && th.pc == LeaveClearOwner
    ensures Alone(sh, me, th, 3)
            == (sh.(lockCount := sh.lockCount - 1, owner := None, tokens := sh.tokens + 1), th.(pc := Idle, depth := 0))
  {
    var sh1 := sh.(owner := None);
    var sh2, th2 := sh1.(lockCount := sh.lockCount - 1), th.(pc := LeavePost, depth := 0);
    assert Alone(sh2, me, th2, 1) == Alone(sh2.(tokens := sh.tokens + 1), me, th2.(pc := Idle), 0);
    assert Alone(sh1, me, th.(pc := LeaveLast), 2) == Alone(sh2, me, th2, 1);
    assert Alone(sh, me, th, 3) == Alone(sh1, me, th.(pc := LeaveLast), 2);
  }

  /** A leave with threads queued hands the section on. */
  lemma AloneHandsOver(sh: Shared, me: nat, th: Thread)
    requires sh.lockCount > 0 && sh.recursion == 1 && th.pc == Idle && th.depth == 1
    ensures AloneFrom(sh, me, th, CallLeave, 5)
            == (sh.(lockCount := sh.lockCount - 1, recursion := 0, owner := None, tokens := sh.tokens + 1), th.(depth := 0))
  {
    var sh1 := sh.(recursion := 0);
    AlonePosts(sh1, me, th.(pc := LeaveClearOwner));
    assert Alone(sh, me, th.(pc := LeaveRecWrite(1)), 4) == Alone(sh1, me, th.(pc := LeaveClearOwner), 3);
    assert Alone(sh, me, th.(pc := LeaveRecRead), 5) == Alone(sh, me, th.(pc := LeaveRecWrite(1)), 4);
  }

  /** A queued thread that finds a token is inside three steps later. */
  lemma AloneTakesToken(sh: Shared, me: nat, th: Thread)
    requires sh.tokens > 0 && th.pc == EnterWait && th.depth == 0
    ensures Alone(sh, me, th, 3)
            == (sh.(tokens := sh.tokens - 1, recursion := 1, owner := Some(me)), th.(pc := Idle, depth := 1, granted := true))
  {
    var sh1 := sh.(tokens := sh.tokens - 1);
    AloneTakesOver(sh1, me, th.(pc := SetRecursion));
    assert Alone(sh, me, th, 3) == Alone(sh1, me, th.(pc := SetRecursion), 2);
  }

  /** In every run, a swap, of a try or in the spin loop, takes the section exactly when LockCount is -1. */
  lemma SwapTakesExactly(run: seq<State>, i: nat, t: nat)
    requires IsRun(run) && i + 1 < |run| && t < |run[i].threads|
    requires run[i].threads[t].pc.TryCas? || run[i].threads[t].pc.SpinCas?
    requires t < |run[i + 1].threads| && run[i + 1].threads[t] != run[i].threads[t]
    ensures run[i + 1].threads[t].pc.SetRecursion? <==> run[i].sh.lockCount == -1
    ensures run[i + 1].sh == if run[i].sh.lockCount == -1 then run[i].sh.(lockCount := 0) else run[i].sh
  {
    assert NextAt(run, i + 1);
    var u: nat, a: Action :| Step(run[i], u, a, run[i + 1]);
  }
}
