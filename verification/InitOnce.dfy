/**
  One-time initialisation (libuzi/init.c): any number of threads call InitOnceExecuteOnce on one
  control word; the initialiser may fail, in which case a later call tries again.
  Each access to the word, and the call of InitFn, is one step.
 */
module InitOnce {
  import opened Sums
  import opened Wrappers

  datatype PC = Idle | ReadWord | CompareExchange | InInitFn | WriteDone | WriteReset | Sleeping

  /** `answers` are the thread's returns; `failures` counts its InitFn calls that returned an error. */
  datatype Thread = Thread(pc: PC, answers: seq<bool>, failures: nat)

  /** The word, and how often InitFn has been entered and has succeeded. */
  datatype Shared = Shared(word: int, entered: nat, succeeded: nat)

  datatype State = State(sh: Shared, threads: seq<Thread>)

  datatype Action = Call | Continue | InitFnReturns(ok: bool)

  function Return(th: Thread, answer: bool): Thread {
    th.(pc := Idle, answers := th.answers + [answer])
  }

  function Exec(sh: Shared, th: Thread, a: Action): Option<(Shared, Thread)> {
    if th.pc.Idle? then
      if a.Call? then Some((sh, th.(pc := ReadWord))) else None
    else if th.pc.InInitFn? then
      match a
      case InitFnReturns(ok) =>
        if ok then Some((sh.(succeeded := sh.succeeded + 1), th.(pc := WriteDone)))
        else Some((sh, th.(pc := WriteReset, failures := th.failures + 1)))
      case _ => None
    else if !a.Continue? then None
    else
      match th.pc
      case ReadWord =>
        var status := sh.word % 4;
        if status == 2 then Some((sh, Return(th, true)))
        else if status == 0 then Some((sh, th.(pc := CompareExchange)))
        else if status == 1 then Some((sh, th.(pc := Sleeping)))
        else Some((sh, Return(th, false)))
      case CompareExchange =>
        if sh.word == 0
        then Some((sh.(word := 1, entered := sh.entered + 1), th.(pc := InInitFn)))
        else Some((sh, th.(pc := Sleeping)))
      case WriteDone => Some((sh.(word := 2), Return(th, true)))
      case WriteReset => Some((sh.(word := 0), Return(th, false)))
      case Sleeping => Some((sh, th.(pc := ReadWord)))
  }

  ghost predicate Step(s: State, me: nat, a: Action, s': State) {
    && me < |s.threads|
    && var r := Exec(s.sh, s.threads[me], a);
    && r.Some?
    && s' == State(r.value.0, s.threads[me := r.value.1])
  }

  ghost predicate Next(s: State, s': State) {
    exists me: nat, a: Action :: Step(s, me, a, s')
  }

  ghost predicate Init(s: State) {
    && s.sh == Shared(0, 0, 0)
    && forall i | 0 <= i < |s.threads| :: s.threads[i] == Thread(Idle, [], 0)
  }

  ghost predicate NextAt(run: seq<State>, i: nat)
    requires 0 < i < |run|
  {
    Next(run[i - 1], run[i])
  }

  ghost predicate IsRun(run: seq<State>) {
    && run != []
    && Init(run[0])
    && forall i | 0 < i < |run| :: NextAt(run, i)
  }

  ghost function Resetting(th: Thread): nat { if th.pc.WriteReset? then 1 else 0 }

  ghost function Finishing(th: Thread): nat { if th.pc.WriteDone? then 1 else 0 }

  ghost function Running(th: Thread): nat { if th.pc.InInitFn? then 1 else 0 }

  ghost function Failures(th: Thread): nat { th.failures }

  function Count(answers: seq<bool>, b: bool): nat {
    if answers == [] then 0
    else Count(answers[..|answers| - 1], b) + (if answers[|answers| - 1] == b then 1 else 0)
  }

  ghost predicate ThreadOk(sh: Shared, th: Thread) {
    && Count(th.answers, false) + (if th.pc.WriteReset? then 1 else 0) == th.failures
    && (Count(th.answers, true) > 0 ==> sh.word == 2)
  }

  /** The shared record against the number of threads that hold the word (to reset it, to finish, or in InitFn) and past failures. */
  ghost predicate SharedOk(sh: Shared, resetting: nat, finishing: nat, running: nat, failures: nat) {
    && 0 <= sh.word <= 2
    && resetting + finishing + running == (if sh.word == 1 then 1 else 0)
    && sh.succeeded == finishing + (if sh.word == 2 then 1 else 0)
    && sh.entered == sh.succeeded + running + failures
  }

  ghost predicate Inv(s: State) {
    && SharedOk(s.sh, Sum(s.threads, Resetting), Sum(s.threads, Finishing), Sum(s.threads, Running), Sum(s.threads, Failures))
    && forall i | 0 <= i < |s.threads| :: ThreadOk(s.sh, s.threads[i])
  }

  lemma CountReturn(th: Thread, answer: bool, b: bool)
    ensures Count(Return(th, answer).answers, b) == Count(th.answers, b) + (if answer == b then 1 else 0)
  {
    assert (th.answers + [answer])[..|th.answers|] == th.answers;
  }

  /** One step, seen from the stepping thread and the counts. */
  lemma LocalStep(sh: Shared, th: Thread, a: Action, resetting: nat, finishing: nat, running: nat, failures: nat)
    requires SharedOk(sh, resetting, finishing, running, failures)
    requires Resetting(th) <= resetting && Finishing(th) <= finishing && Running(th) <= running && Failures(th) <= failures
    requires Exec(sh, th, a).Some?
    ensures var (sh', th') := Exec(sh, th, a).value;
            && SharedOk(sh', resetting + Resetting(th') - Resetting(th), finishing + Finishing(th') - Finishing(th),
                        running + Running(th') - Running(th), failures + Failures(th') - Failures(th))
            && (sh.word == 2 ==> sh'.word == 2)
            && (sh.succeeded > 0 ==> sh'.entered == sh.entered)
            && sh'.succeeded >= sh.succeeded
  {
  }

  lemma ReturnOk(sh: Shared, sh': Shared, th: Thread, answer: bool)
    requires ThreadOk(sh, th) && (sh.word == 2 ==> sh'.word == 2)
    requires if answer then sh'.word == 2 && !th.pc.WriteReset? else th.pc.WriteReset?
    ensures ThreadOk(sh', Return(th, answer))
  {
    CountReturn(th, answer, true);
    CountReturn(th, answer, false);
  }

  lemma GoingOnOk(sh: Shared, sh': Shared, th: Thread, th': Thread)
    requires ThreadOk(sh, th) && (sh.word == 2 ==> sh'.word == 2) && !th.pc.WriteReset?
    requires th'.answers == th.answers
    requires th'.failures == th.failures + (if th'.pc.WriteReset? then 1 else 0)
    ensures ThreadOk(sh', th')
  {
  }

  /** A step either returns TRUE with the word done, or returns FALSE after a reset, or goes on. */
  ghost predicate Shape(sh: Shared, th: Thread, sh': Shared, th': Thread) {
    && (sh.word == 2 ==> sh'.word == 2)
    && if th.pc.WriteReset? then th' == Return(th, false)
       else if th.pc.WriteDone? || (th.pc.ReadWord? && sh.word == 2) then th' == Return(th, true) && sh'.word == 2
       else th'.answers == th.answers && th'.failures == th.failures + (if th'.pc.WriteReset? then 1 else 0)
  }

  lemma StepHasShape(sh: Shared, th: Thread, a: Action)
    requires 0 <= sh.word <= 2 && Exec(sh, th, a).Some?
    requires Resetting(th) + Finishing(th) + Running(th) > 0 ==> sh.word == 1
    ensures Shape(sh, th, Exec(sh, th, a).value.0, Exec(sh, th, a).value.1)
  {
  }

  /** The stepping thread's own assertion. */
  lemma LocalThread(sh: Shared, th: Thread, sh': Shared, th': Thread)
    requires ThreadOk(sh, th) && Shape(sh, th, sh', th')
    ensures ThreadOk(sh', th')
  {
    if th.pc.WriteReset? {
      ReturnOk(sh, sh', th, false);
    } else if th.pc.WriteDone? || (th.pc.ReadWord? && sh.word == 2) {
      ReturnOk(sh, sh', th, true);
    } else {
      GoingOnOk(sh, sh', th, th');
    }
  }

  lemma StepKeepsInv(s: State, me: nat, a: Action, s': State)
    requires Inv(s) && Step(s, me, a, s')
    ensures Inv(s')
    ensures s'.sh.succeeded >= s.sh.succeeded
    ensures s.sh.succeeded > 0 ==> s'.sh.entered == s.sh.entered
  {
    var th' := s'.threads[me];
    SumUpdate(s.threads, me, th', Resetting);
    SumUpdate(s.threads, me, th', Finishing);
    SumUpdate(s.threads, me, th', Running);
    SumUpdate(s.threads, me, th', Failures);
    SumAtLeast(s.threads, me, Resetting);
    SumAtLeast(s.threads, me, Finishing);
    SumAtLeast(s.threads, me, Running);
    SumAtLeast(s.threads, me, Failures);
    LocalStep(s.sh, s.threads[me], a, Sum(s.threads, Resetting), Sum(s.threads, Finishing),
              Sum(s.threads, Running), Sum(s.threads, Failures));
    StepHasShape(s.sh, s.threads[me], a);
    LocalThread(s.sh, s.threads[me], s'.sh, th');
    forall i | 0 <= i < |s'.threads| ensures ThreadOk(s'.sh, s'.threads[i]) {
      assert ThreadOk(s.sh, s.threads[i]);
    }
  }

  lemma {:induction false} RunInv(run: seq<State>, i: nat)
    requires IsRun(run) && i < |run|
    ensures Inv(run[i])
  {
    if i == 0 {
      SumZero(run[0].threads, Resetting);
      SumZero(run[0].threads, Finishing);
      SumZero(run[0].threads, Running);
      SumZero(run[0].threads, Failures);
    } else {
      RunInv(run, i - 1);
      assert NextAt(run, i);
      var me: nat, a: Action :| Step(run[i - 1], me, a, run[i]);
      StepKeepsInv(run[i - 1], me, a, run[i]);
    }
  }

  // ---- what the callers get, in every run ----

  /** InitFn never runs in two threads at once. */
  lemma InitFnIsExclusive(run: seq<State>, i: nat, t: nat, u: nat)
    requires IsRun(run) && i < |run| && t < |run[i].threads| && u < |run[i].threads|
    requires run[i].threads[t].pc.InInitFn? && run[i].threads[u].pc.InInitFn?
    ensures t == u
  {
    RunInv(run, i);
    if t != u { SumAtLeastTwo(run[i].threads, if t < u then t else u, if t < u then u else t, Running); }
  }

  /** InitFn succeeds at most once and is never entered after that. */
  lemma {:induction false} NeverAgainAfterSuccess(run: seq<State>, i: nat, j: nat)
    requires IsRun(run) && i <= j < |run| && run[i].sh.succeeded > 0
    ensures run[j].sh.entered == run[i].sh.entered && run[j].sh.succeeded == 1
  {
    RunInv(run, j);
    if i < j {
      NeverAgainAfterSuccess(run, i, j - 1);
      RunInv(run, j - 1);
      assert NextAt(run, j);
      var me: nat, a: Action :| Step(run[j - 1], me, a, run[j]);
      StepKeepsInv(run[j - 1], me, a, run[j]);
    }
  }

  /** Every TRUE return follows the one success. */
  lemma TrueMeansDone(run: seq<State>, i: nat, t: nat)
    requires IsRun(run) && i < |run| && t < |run[i].threads| && Count(run[i].threads[t].answers, true) > 0
    ensures run[i].sh.succeeded == 1 && run[i].sh.word == 2
  {
    RunInv(run, i);
    assert ThreadOk(run[i].sh, run[i].threads[t]);
    SumZero(run[i].threads, Resetting);
  }

  /** A call returns FALSE exactly for each failed InitFn of its own that it has reset. */
  lemma FalseCountsFailures(run: seq<State>, i: nat, t: nat)
    requires IsRun(run) && i < |run| && t < |run[i].threads|
    ensures var th := run[i].threads[t];
            Count(th.answers, false) == th.failures - (if th.pc.WriteReset? then 1 else 0)
  {
    RunInv(run, i);
    assert ThreadOk(run[i].sh, run[i].threads[t]);
  }

  /** Every InitFn call ever entered is the success, a counted failure, or still running. */
  lemma EveryCallAccountedFor(run: seq<State>, i: nat)
    requires IsRun(run) && i < |run|
    ensures var s := run[i];
            s.sh.entered == s.sh.succeeded + Sum(s.threads, Running) + Sum(s.threads, Failures)
  {
    RunInv(run, i);
  }

  /** A waiting caller is never stuck for good: the word is claimable, done, or some thread is about to release it. */
  lemma NoDeadlock(run: seq<State>, i: nat)
    requires IsRun(run) && i < |run|
    ensures var s := run[i];
            s.sh.word in {0, 2} ||
            exists t | 0 <= t < |s.threads| ::
              s.threads[t].pc.InInitFn? || Exec(s.sh, s.threads[t], Continue) == Some((s.sh.(word := 2), Return(s.threads[t], true)))
              || Exec(s.sh, s.threads[t], Continue) == Some((s.sh.(word := 0), Return(s.threads[t], false)))
  {
    RunInv(run, i);
    var s := run[i];
    if Sum(s.threads, Running) > 0 {
      var t := SumWitness(s.threads, Running);
      assert s.threads[t].pc.InInitFn?;
    } else if Sum(s.threads, Finishing) > 0 {
      var t := SumWitness(s.threads, Finishing);
      assert Exec(s.sh, s.threads[t], Continue) == Some((s.sh.(word := 2), Return(s.threads[t], true)));
    } else if Sum(s.threads, Resetting) > 0 {
      var t := SumWitness(s.threads, Resetting);
      assert Exec(s.sh, s.threads[t], Continue) == Some((s.sh.(word := 0), Return(s.threads[t], false)));
    }
  }

  // ---- whole calls, from the call to the return, however others interleave ----

  /** Thread t is in the middle of a call after every step from j on, up to m. */
  ghost predicate Busy(run: seq<State>, j: nat, m: nat, t: nat) {
    && j < m < |run|
    && forall x | j < x <= m :: t < |run[x].threads| && !run[x].threads[t].pc.Idle?
  }

  /** Thread t makes the call at j and returns from it at i. */
  ghost predicate Returns(run: seq<State>, j: nat, i: nat, t: nat) {
    && j + 1 < i < |run|
    && Step(run[j], t, Call, run[j + 1])
    && Busy(run, j, i - 1, t)
    && t < |run[i].threads| && run[i].threads[t].pc.Idle?
  }

  ghost predicate OwnStep(sh: Shared, th: Thread, sh': Shared, th': Thread) {
    && 0 <= sh.word <= 2
    && (th.pc.WriteDone? || th.pc.WriteReset? || th.pc.InInitFn? ==> sh.word == 1)
    && exists a: Action :: Exec(sh, th, a) == Some((sh', th'))
  }

  lemma ThreadStep(run: seq<State>, m: nat, t: nat)
    requires IsRun(run) && m + 1 < |run| && t < |run[m].threads|
    ensures t < |run[m + 1].threads|
    ensures run[m + 1].threads[t] == run[m].threads[t]
            || OwnStep(run[m].sh, run[m].threads[t], run[m + 1].sh, run[m + 1].threads[t])
  {
    RunInv(run, m);
    SumAtLeast(run[m].threads, t, Resetting);
    SumAtLeast(run[m].threads, t, Finishing);
    SumAtLeast(run[m].threads, t, Running);
    assert NextAt(run, m + 1);
    var u: nat, a: Action :| Step(run[m], u, a, run[m + 1]);
  }

  /** A call by a thread with these answers and failures, not yet returned: its own InitFn has failed in it just before a reset. */
  ghost predicate Midway(answers: seq<bool>, failures: nat, th: Thread) {
    && !th.pc.Idle? && th.answers == answers
    && th.failures == (if th.pc.WriteReset? then failures + 1 else failures)
  }

  /** A return, with what the thread knows then. */
  ghost predicate Answered(answers: seq<bool>, failures: nat, th: Thread, word: int) {
    || (th.answers == answers + [true] && th.failures == failures && word == 2)
    || (th.answers == answers + [false] && th.failures == failures + 1 && word == 0)
  }

  lemma MidwayStep(answers: seq<bool>, failures: nat, sh: Shared, th: Thread, sh': Shared, th': Thread)
    requires Midway(answers, failures, th) && OwnStep(sh, th, sh', th')
    ensures if th'.pc.Idle? then Answered(answers, failures, th', sh'.word) else Midway(answers, failures, th')
  {
  }

  lemma {:induction false} MidwayAll(run: seq<State>, j: nat, m: nat, t: nat, answers: seq<bool>, failures: nat)
    requires IsRun(run) && Busy(run, j, m, t) && Midway(answers, failures, run[j + 1].threads[t])
    ensures Midway(answers, failures, run[m].threads[t])
    decreases m
  {
    if m > j + 1 {
      MidwayAll(run, j, m - 1, t, answers, failures);
      ThreadStep(run, m - 1, t);
      if run[m].threads[t] != run[m - 1].threads[t] {
        MidwayStep(answers, failures, run[m - 1].sh, run[m - 1].threads[t], run[m].sh, run[m].threads[t]);
      }
    }
  }

  lemma CallBegins(s: State, t: nat, s': State)
    requires Step(s, t, Call, s')
    ensures t < |s'.threads| && Midway(s.threads[t].answers, s.threads[t].failures, s'.threads[t])
  {
  }

  /**
    A call returns one answer: FALSE exactly when the caller's own InitFn has failed in it, once, and the word
    is free again; otherwise TRUE with the word done.
   */
  lemma CallAnswers(run: seq<State>, j: nat, i: nat, t: nat)
    requires IsRun(run) && Returns(run, j, i, t)
    ensures Answered(run[j].threads[t].answers, run[j].threads[t].failures, run[i].threads[t], run[i].sh.word)
  {
    var th := run[j].threads[t];
    CallBegins(run[j], t, run[j + 1]);
    MidwayAll(run, j, i - 1, t, th.answers, th.failures);
    ThreadStep(run, i - 1, t);
    MidwayStep(th.answers, th.failures, run[i - 1].sh, run[i - 1].threads[t], run[i].sh, run[i].threads[t]);
  }

  // ---- a thread on its own ----

  /** What comes of a thread's own steps. */
  function Alone(sh: Shared, th: Thread, acts: seq<Action>): (Shared, Thread)
    decreases |acts|
  {
    if acts == [] then (sh, th)
    else
      var r := Exec(sh, th, acts[0]);
      if r == None then (sh, th) else Alone(r.value.0, r.value.1, acts[1..])
  }

  /** A lone caller claims a free word, runs InitFn and returns what it says; the word is then done, or free again. */
  lemma AloneInitializes(sh: Shared, th: Thread, ok: bool)
    requires sh.word == 0 && th.pc == Idle
    ensures Alone(sh, th, [Call, Continue, Continue, InitFnReturns(ok), Continue])
            == (Shared(if ok then 2 else 0, sh.entered + 1, if ok then sh.succeeded + 1 else sh.succeeded),
                Thread(Idle, th.answers + [ok], if ok then th.failures else th.failures + 1))
  {
    var sh1 := sh.(word := 1, entered := sh.entered + 1);
    var sh2 := if ok then sh1.(succeeded := sh.succeeded + 1) else sh1;
    var th2 := if ok then th.(pc := WriteDone) else th.(pc := WriteReset, failures := th.failures + 1);
    var sh3, th3 := sh2.(word := if ok then 2 else 0), Return(th2, ok);
    assert Alone(sh3, th3, []) == (sh3, th3);
    assert [Continue][1..] == [];
    assert Alone(sh2, th2, [Continue]) == Alone(sh3, th3, []);
    assert [InitFnReturns(ok), Continue][1..] == [Continue];
    assert Alone(sh1, th.(pc := InInitFn), [InitFnReturns(ok), Continue]) == Alone(sh2, th2, [Continue]);
    assert [Continue, InitFnReturns(ok), Continue][1..] == [InitFnReturns(ok), Continue];
    assert Alone(sh, th.(pc := CompareExchange), [Continue, InitFnReturns(ok), Continue])
           == Alone(sh1, th.(pc := InInitFn), [InitFnReturns(ok), Continue]);
    assert [Continue, Continue, InitFnReturns(ok), Continue][1..] == [Continue, InitFnReturns(ok), Continue];
    assert Alone(sh, th.(pc := ReadWord), [Continue, Continue, InitFnReturns(ok), Continue])
           == Alone(sh, th.(pc := CompareExchange), [Continue, InitFnReturns(ok), Continue]);
    assert [Call, Continue, Continue, InitFnReturns(ok), Continue][1..] == [Continue, Continue, InitFnReturns(ok), Continue];
  }

  /** Once done, a call returns TRUE at its first look at the word. */
  lemma DoneAnswersAtOnce(sh: Shared, th: Thread)
    requires sh.word == 2 && th.pc == Idle
    ensures Alone(sh, th, [Call, Continue]) == (sh, th.(answers := th.answers + [true]))
  {
    assert [Call, Continue][1..] == [Continue] && [Continue][1..] == [];
    assert Alone(sh, th.(pc := ReadWord), [Continue]) == Alone(sh, Return(th, true), []);
  }

  /** In every run, the swap of a caller that finds the word free makes it run InitFn, and any other sends it to sleep. */
  lemma SwapClaimsExactly(run: seq<State>, i: nat, t: nat)
    requires IsRun(run) && i + 1 < |run| && t < |run[i].threads| && run[i].threads[t].pc.CompareExchange?
    requires t < |run[i + 1].threads| && !run[i + 1].threads[t].pc.CompareExchange?
    ensures run[i + 1].threads[t].pc.InInitFn? <==> run[i].sh.word == 0
    ensures run[i].sh.word == 0 ==> run[i + 1].sh.word == 1 && run[i + 1].sh.entered == run[i].sh.entered + 1
    ensures run[i].sh.word != 0 ==> run[i + 1].threads[t].pc.Sleeping? && run[i + 1].sh == run[i].sh
  {
    ThreadStep(run, i, t);
  }

  /** A caller that has slept looks again: done means TRUE, and a word that is free again is claimed. */
  lemma SleeperLooksAgain(sh: Shared, th: Thread)
    requires th.pc == Sleeping
    ensures sh.word == 2 ==> Alone(sh, th, [Continue, Continue]) == (sh, Return(th, true))
    ensures sh.word == 1 ==> Alone(sh, th, [Continue, Continue]) == (sh, th)
    ensures sh.word == 0 ==>
              Alone(sh, th, [Continue, Continue, Continue]) == (sh.(word := 1, entered := sh.entered + 1), th.(pc := InInitFn))
  {
    assert [Continue, Continue, Continue][1..] == [Continue, Continue] && [Continue, Continue][1..] == [Continue];
    assert [Continue][1..] == [];
    var awake := th.(pc := ReadWord);
    assert Alone(sh, th, [Continue, Continue]) == Alone(sh, awake, [Continue]);
    assert Alone(sh, th, [Continue, Continue, Continue]) == Alone(sh, awake, [Continue, Continue]);
    if sh.word == 0 {
      assert Alone(sh, awake, [Continue, Continue]) == Alone(sh, th.(pc := CompareExchange), [Continue]);
      var sh1 := sh.(word := 1, entered := sh.entered + 1);
      assert Alone(sh, th.(pc := CompareExchange), [Continue]) == Alone(sh1, th.(pc := InInitFn), []);
    } else if sh.word == 1 {
      assert Alone(sh, awake, [Continue]) == Alone(sh, th, []);
    } else if sh.word == 2 {
      assert Alone(sh, awake, [Continue]) == Alone(sh, Return(th, true), []);
    }
  }
}
