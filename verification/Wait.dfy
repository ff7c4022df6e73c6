/**
  WaitForMultipleObjects of libuzi/wait.c: wait for any handle, or for all of them without a time limit.
  Handles, poll and cleanup are the world outside; the world may answer differently in every round.
 */
module Wait {
  import opened Wrappers

  const WAIT_OBJECT_0: nat := 0
  const WAIT_TIMEOUT: nat := 0x102
  const WAIT_FAILED: nat := 0xFFFF_FFFF
  const MAXIMUM_WAIT_OBJECTS: nat := 64

  /** What poll reports: its status, and which of the polled positions have a requested event. */
  datatype Answer = Answer(status: int, ready: nat -> bool)

  /**
    The world by round: whether handle i can be used (before and after polling), what poll reports for
    a list of handles, and what the cleanup of handle i returns.
   */
  datatype World = World(valid: (nat, bool, nat) -> bool, poll: (nat, seq<nat>) -> Answer, cleanup: (nat, nat) -> nat)

  /** Why the call returns; Pending when it has not within the rounds looked at. */
  datatype Exit = AllSignalled | Signalled(index: nat) | Refused(rc: nat) | TimedOut | Failed | Pending

  /** A call of a handle's cleanup, its answer, and the round it was made in. */
  datatype Call = Call(index: nat, rc: nat, round: nat)

  /** What the call returned, which cleanups it made and which lists of handles it polled. */
  datatype Log = Log(exit: Exit, calls: seq<Call>, polls: seq<seq<nat>>)

  function ReturnCode(exit: Exit): nat
    requires !exit.Pending?
  {
    match exit
    case AllSignalled => WAIT_OBJECT_0
    case Signalled(index) => WAIT_OBJECT_0 + index
    case Refused(rc) => rc
    case TimedOut => WAIT_TIMEOUT
    case Failed => WAIT_FAILED
  }

  // ---- the call, round by round ----

  /** The handles still waited for, from number i on, in order. */
  function Waiting(flags: seq<bool>, i: nat): (p: seq<nat>)
    requires i <= |flags|
    decreases |flags| - i
  {
    if i == |flags| then []
    else if flags[i] then Waiting(flags, i + 1)
    else [i] + Waiting(flags, i + 1)
  }

  predicate AllSet(flags: seq<bool>) { forall i | 0 <= i < |flags| :: flags[i] }

  predicate AllValid(w: World, round: nat, before: bool, p: seq<nat>) {
    forall k | 0 <= k < |p| :: w.valid(round, before, p[k])
  }

  /** What going through the polled handles comes to: an exit or not, the flags, the cleanups. */
  datatype Swept = Swept(exit: Exit, flags: seq<bool>, calls: seq<Call>)

  /** Going through the polled handles from position k on; Pending means on to the next round. */
  function Sweep(w: World, all: bool, flags: seq<bool>, p: seq<nat>, ready: nat -> bool, round: nat, k: nat): (s: Swept)
    requires k <= |p| && forall j | 0 <= j < |p| :: p[j] < |flags|
    ensures |s.flags| == |flags|
    decreases |p| - k
  {
    if k == |p| then Swept(Pending, flags, [])
    else if !w.valid(round, false, p[k]) then Swept(Failed, flags, [])
    else if !ready(k) then Sweep(w, all, flags, p, ready, round, k + 1)
    else
      var call := Call(p[k], w.cleanup(round, p[k]), round);
      if call.rc != WAIT_OBJECT_0 then Swept(Refused(call.rc), flags, [call])
      else if !all then Swept(Signalled(k), flags, [call])
      else
        var flags' := flags[p[k] := true];
        if AllSet(flags') then Swept(AllSignalled, flags', [call])
        else
          var rest := Sweep(w, all, flags', p, ready, round, k + 1);
          rest.(calls := [call] + rest.calls)
  }

  /** The call from a round on, for a number of rounds at most. */
  function Rounds(w: World, all: bool, flags: seq<bool>, round: nat, rounds: nat): Log
    decreases rounds
  {
    if rounds == 0 then Log(Pending, [], [])
    else
      WaitingIs(flags, 0);
      var p := Waiting(flags, 0);
      if !AllValid(w, round, true, p) then Log(Failed, [], [])
      else
        var answer := w.poll(round, p);
        if answer.status < 0 then Log(Failed, [], [p])
        else if answer.status == 0 then Log(TimedOut, [], [p])
        else
          var s := Sweep(w, all, flags, p, answer.ready, round, 0);
          if !s.exit.Pending? then Log(s.exit, s.calls, [p])
          else
            var rest := Rounds(w, all, s.flags, round + 1, rounds - 1);
            Log(rest.exit, s.calls + rest.calls, [p] + rest.polls)
  }

  ghost predicate Ascending(p: seq<nat>) { forall i, j | 0 <= i < j < |p| :: p[i] < p[j] }

  /** Handles still waited for, from number i on. */
  ghost predicate WaitedFrom(flags: seq<bool>, p: seq<nat>, i: nat) {
    forall k | 0 <= k < |p| :: i <= p[k] < |flags| && !flags[p[k]]
  }

  lemma WaitedCons(flags: seq<bool>, i: nat, rest: seq<nat>)
    requires i < |flags| && !flags[i] && WaitedFrom(flags, rest, i + 1) && Ascending(rest)
    ensures WaitedFrom(flags, [i] + rest, i) && Ascending([i] + rest)
  {
  }

  lemma {:induction false} WaitingInOrder(flags: seq<bool>, i: nat)
    requires i <= |flags|
    ensures WaitedFrom(flags, Waiting(flags, i), i) && Ascending(Waiting(flags, i))
    decreases |flags| - i
  {
    if i < |flags| {
      WaitingInOrder(flags, i + 1);
      if !flags[i] { WaitedCons(flags, i, Waiting(flags, i + 1)); }
    }
  }

  lemma {:induction false} WaitingAll(flags: seq<bool>, i: nat, m: nat)
    requires i <= m < |flags| && !flags[m]
    ensures m in Waiting(flags, i)
    decreases |flags| - i
  {
    if i < m { WaitingAll(flags, i + 1, m); }
  }

  lemma WaitingIs(flags: seq<bool>, i: nat)
    requires i <= |flags|
    ensures var p := Waiting(flags, i);
            && (forall k | 0 <= k < |p| :: i <= p[k] < |flags| && !flags[p[k]])
            && (forall j, k | 0 <= j < k < |p| :: p[j] < p[k])
            && (forall m | i <= m < |flags| && !flags[m] :: m in p)
  {
    WaitingInOrder(flags, i);
    forall m | i <= m < |flags| && !flags[m] ensures m in Waiting(flags, i) { WaitingAll(flags, i, m); }
  }

  // ---- what holds of every call ----

  /** The cleanups made are those that turn one set of flags into the other, each handle's once, all successful. */
  ghost predicate Accounts(flags: seq<bool>, calls: seq<Call>, flags': seq<bool>) {
    && |flags| == |flags'|
    && (forall j | 0 <= j < |calls| :: calls[j].rc == WAIT_OBJECT_0 && calls[j].index < |flags| && !flags[calls[j].index])
    && (forall j, k | 0 <= j < k < |calls| :: calls[j].index != calls[k].index)
    && (forall i | 0 <= i < |flags| :: flags'[i] <==> flags[i] || exists j | 0 <= j < |calls| :: calls[j].index == i)
  }

  lemma AccountsOne(flags: seq<bool>, i: nat, call: Call)
    requires i < |flags| && !flags[i] && call.index == i && call.rc == WAIT_OBJECT_0
    ensures Accounts(flags, [call], flags[i := true])
  {
    assert [call][0] == call;
  }

  lemma AccountsMore(a: seq<bool>, calls: seq<Call>, b: seq<bool>, more: seq<Call>, c: seq<bool>)
    requires Accounts(a, calls, b) && Accounts(b, more, c)
    ensures Accounts(a, calls + more, c)
  {
    var both := calls + more;
    forall j, k | 0 <= j < k < |both| ensures both[j].index != both[k].index {
      if j < |calls| <= k { assert b[both[j].index]; }
    }
    forall i | 0 <= i < |a| ensures c[i] <==> a[i] || exists j | 0 <= j < |both| :: both[j].index == i {
      if j :| 0 <= j < |calls| && calls[j].index == i { assert both[j].index == i; }
      if j :| 0 <= j < |more| && more[j].index == i { assert both[|calls| + j].index == i; }
    }
  }

  lemma AccountsNone(flags: seq<bool>)
    ensures Accounts(flags, [], flags)
  {
  }

  /** What cleanups a wait-all has made when it stands at `flags'` with that exit: a refused one comes last. */
  ghost predicate Fair(flags: seq<bool>, exit: Exit, calls: seq<Call>, flags': seq<bool>) {
    && !exit.Signalled?
    && (exit.AllSignalled? <==> AllSet(flags'))
    && if exit.Refused?
       then
         && calls != [] && Accounts(flags, calls[..|calls| - 1], flags')
         && var last := calls[|calls| - 1];
            last.rc == exit.rc != WAIT_OBJECT_0 && last.index < |flags'| && !flags'[last.index]
       else Accounts(flags, calls, flags')
  }

  lemma FairAfter(a: seq<bool>, calls: seq<Call>, b: seq<bool>, exit: Exit, more: seq<Call>, c: seq<bool>)
    requires Accounts(a, calls, b) && Fair(b, exit, more, c)
    ensures Fair(a, exit, calls + more, c)
  {
    if exit.Refused? {
      AccountsMore(a, calls, b, more[..|more| - 1], c);
      assert (calls + more)[..|calls + more| - 1] == calls + more[..|more| - 1];
    } else {
      AccountsMore(a, calls, b, more, c);
    }
  }

  /** The handles from position k on are distinct and still waited for. */
  ghost predicate StillWaiting(flags: seq<bool>, p: seq<nat>, k: nat) {
    && (forall j | 0 <= j < |p| :: p[j] < |flags|)
    && (forall j | k <= j < |p| :: !flags[p[j]])
    && (forall i, j | 0 <= i < j < |p| :: p[i] < p[j])
  }

  lemma {:induction false} SweepIsFair(w: World, flags: seq<bool>, p: seq<nat>, ready: nat -> bool, round: nat, k: nat)
    requires k <= |p| && StillWaiting(flags, p, k) && !AllSet(flags)
    ensures var s := Sweep(w, true, flags, p, ready, round, k); Fair(flags, s.exit, s.calls, s.flags)
    decreases |p| - k
  {
    AccountsNone(flags);
    if k == |p| || !w.valid(round, false, p[k]) {
    } else if !ready(k) {
      SweepIsFair(w, flags, p, ready, round, k + 1);
    } else {
      var call := Call(p[k], w.cleanup(round, p[k]), round);
      if call.rc == WAIT_OBJECT_0 {
        var flags' := flags[p[k] := true];
        AccountsOne(flags, p[k], call);
        if !AllSet(flags') {
          SweepIsFair(w, flags', p, ready, round, k + 1);
          var rest := Sweep(w, true, flags', p, ready, round, k + 1);
          FairAfter(flags, [call], flags', rest.exit, rest.calls, rest.flags);
        }
      } else {
        assert [call][..0] == [];
      }
    }
  }

  lemma {:induction false} RoundsAreFair(w: World, flags: seq<bool>, round: nat, rounds: nat) returns (flags': seq<bool>)
    requires !AllSet(flags)
    ensures var log := Rounds(w, true, flags, round, rounds); Fair(flags, log.exit, log.calls, flags')
    decreases rounds
  {
    flags' := flags;
    AccountsNone(flags);
    if rounds > 0 {
      WaitingIs(flags, 0);
      var p := Waiting(flags, 0);
      var answer := w.poll(round, p);
      if AllValid(w, round, true, p) && answer.status > 0 {
        var s := Sweep(w, true, flags, p, answer.ready, round, 0);
        SweepIsFair(w, flags, p, answer.ready, round, 0);
        flags' := s.flags;
        if s.exit.Pending? {
          flags' := RoundsAreFair(w, s.flags, round + 1, rounds - 1);
          var rest := Rounds(w, true, s.flags, round + 1, rounds - 1);
          FairAfter(flags, s.calls, s.flags, rest.exit, rest.calls, flags');
        }
      }
    }
  }

  function NoneSet(n: nat): seq<bool> { seq(n, _ => false) }

  ghost predicate Cleaned(calls: seq<Call>, i: nat) {
    exists j | 0 <= j < |calls| :: calls[j].index == i && calls[j].rc == WAIT_OBJECT_0
  }

  /**
    Wait-all, over any number of rounds: no handle is cleaned twice, every cleanup but a refused last one
    succeeded, and the call reports success exactly when every handle has been cleaned.
   */
  lemma WaitAllCleansOnce(w: World, n: nat, rounds: nat)
    requires n > 0
    ensures var log := Rounds(w, true, NoneSet(n), 0, rounds);
            && (forall j, k | 0 <= j < k < |log.calls| :: log.calls[j].index != log.calls[k].index)
            && (forall j | 0 <= j < |log.calls| ::
                  log.calls[j].rc == WAIT_OBJECT_0 || (j == |log.calls| - 1 && log.exit == Refused(log.calls[j].rc)))
            && (log.exit.AllSignalled? <==> forall i | 0 <= i < n :: Cleaned(log.calls, i))
            && (!log.exit.Pending? ==> (ReturnCode(log.exit) == WAIT_OBJECT_0 <==> log.exit.AllSignalled?))
  {
    var none := NoneSet(n);
    assert !none[0];
    var log := Rounds(w, true, none, 0, rounds);
    var flags := RoundsAreFair(w, none, 0, rounds);
    CleanedExactly(none, log.exit, log.calls, flags);
    if log.exit.Refused? {
      var done := log.calls[..|log.calls| - 1];
      forall j, k | 0 <= j < k < |log.calls| ensures log.calls[j].index != log.calls[k].index {
        assert done[j] == log.calls[j];
        if k == |done| { assert flags[done[j].index]; }
      }
      forall j | 0 <= j < |done| ensures log.calls[j].rc == WAIT_OBJECT_0 { assert done[j] == log.calls[j]; }
    }
  }

  lemma CleanedExactly(flags: seq<bool>, exit: Exit, calls: seq<Call>, flags': seq<bool>)
    requires Fair(flags, exit, calls, flags') && forall i | 0 <= i < |flags| :: !flags[i]
    ensures forall i | 0 <= i < |flags| :: flags'[i] <==> Cleaned(calls, i)
  {
    forall i | 0 <= i < |flags| ensures flags'[i] <==> Cleaned(calls, i) {
      if exit.Refused? {
        CleanedIs(flags, calls[..|calls| - 1], flags', i);
        if Cleaned(calls, i) {
          var j :| 0 <= j < |calls| && calls[j].index == i && calls[j].rc == WAIT_OBJECT_0;
          assert calls[..|calls| - 1][j] == calls[j];
        }
        if Cleaned(calls[..|calls| - 1], i) {
          var j :| 0 <= j < |calls| - 1 && calls[..|calls| - 1][j].index == i && calls[..|calls| - 1][j].rc == WAIT_OBJECT_0;
          assert calls[j].index == i && calls[j].rc == WAIT_OBJECT_0;
        }
      } else {
        CleanedIs(flags, calls, flags', i);
      }
    }
  }

  lemma CleanedIs(flags: seq<bool>, calls: seq<Call>, flags': seq<bool>, i: nat)
    requires Accounts(flags, calls, flags') && i < |flags| && !flags[i]
    ensures flags'[i] <==> Cleaned(calls, i)
  {
    if flags'[i] {
      var j :| 0 <= j < |calls| && calls[j].index == i;
      assert calls[j].index == i && calls[j].rc == WAIT_OBJECT_0;
    }
    if Cleaned(calls, i) {
      var j :| 0 <= j < |calls| && calls[j].index == i && calls[j].rc == WAIT_OBJECT_0;
      assert calls[j].index == i;
    }
  }

  // ---- polling ----

  lemma SomeWaiting(flags: seq<bool>)
    requires !AllSet(flags)
    ensures Waiting(flags, 0) != []
  {
    WaitingIs(flags, 0);
    var i :| 0 <= i < |flags| && !flags[i];
    assert i in Waiting(flags, 0);
  }

  /** A sweep only adds to the flags, and when it ends without an exit some are still missing. */
  lemma SweepGoesOn(w: World, flags: seq<bool>, p: seq<nat>, ready: nat -> bool, round: nat)
    requires !AllSet(flags) && p == Waiting(flags, 0)
    requires forall j | 0 <= j < |p| :: p[j] < |flags|
    ensures var s := Sweep(w, true, flags, p, ready, round, 0);
            && (forall i | 0 <= i < |flags| && flags[i] :: s.flags[i])
            && (s.exit.Pending? ==> !AllSet(s.flags))
  {
    WaitingIs(flags, 0);
    SweepIsFair(w, flags, p, ready, round, 0);
  }

  ghost predicate Part(p: seq<nat>, q: seq<nat>) { forall i | i in p :: i in q }

  ghost predicate Unset(flags: seq<bool>, p: seq<nat>) { forall i | i in p :: i < |flags| && !flags[i] }

  /** Lists that are polled: not empty, in order, of handles still waited for, and each one part of all before. */
  ghost predicate Shrinking(flags: seq<bool>, polls: seq<seq<nat>>) {
    && (forall r | 0 <= r < |polls| :: polls[r] != [] && Ascending(polls[r]) && Unset(flags, polls[r]))
    && (forall q, r | 0 <= q < r < |polls| :: Part(polls[r], polls[q]))
  }

  lemma ShrinkingMore(flags: seq<bool>, flags': seq<bool>, p: seq<nat>, rest: seq<seq<nat>>)
    requires |flags| == |flags'| && forall i | 0 <= i < |flags| && flags[i] :: flags'[i]
    requires Shrinking(flags', rest)
    requires p == Waiting(flags, 0) && p != []
    ensures Shrinking(flags, [p] + rest)
  {
    WaitingIs(flags, 0);
    var polls := [p] + rest;
    forall r | 0 < r < |polls| ensures Unset(flags, polls[r]) && Part(polls[r], p) {
      assert polls[r] == rest[r - 1] && Unset(flags', rest[r - 1]);
    }
    forall q, r | 0 <= q < r < |polls| ensures Part(polls[r], polls[q]) {
      if q > 0 { assert Part(rest[r - 1], rest[q - 1]); }
    }
  }

  /** Wait-all never polls an empty list, and polls nothing that was not polled before. */
  lemma {:induction false} PollsShrink(w: World, flags: seq<bool>, round: nat, rounds: nat)
    requires !AllSet(flags)
    ensures Shrinking(flags, Rounds(w, true, flags, round, rounds).polls)
    decreases rounds
  {
    if rounds > 0 {
      WaitingIs(flags, 0);
      SomeWaiting(flags);
      var p := Waiting(flags, 0);
      var answer := w.poll(round, p);
      ShrinkingMore(flags, flags, p, []);
      if AllValid(w, round, true, p) && answer.status > 0 {
        var s := Sweep(w, true, flags, p, answer.ready, round, 0);
        SweepGoesOn(w, flags, p, answer.ready, round);
        if s.exit.Pending? {
          PollsShrink(w, s.flags, round + 1, rounds - 1);
          ShrinkingMore(flags, s.flags, p, Rounds(w, true, s.flags, round + 1, rounds - 1).polls);
        }
      }
    }
  }

  /** Every poll that reports anything reports an event asked for. */
  ghost predicate Helpful(w: World) {
    forall r, p | p != [] && w.poll(r, p).status > 0 :: exists k | 0 <= k < |p| :: w.poll(r, p).ready(k)
  }

  lemma {:induction false} WaitingSet(flags: seq<bool>, m: nat, i: nat)
    requires i <= m < |flags| && !flags[m]
    ensures |Waiting(flags[m := true], i)| + 1 == |Waiting(flags, i)|
    decreases |flags| - i
  {
    if i < m {
      WaitingSet(flags, m, i + 1);
    } else {
      SameWaiting(flags, flags[m := true], m + 1);
    }
  }

  lemma {:induction false} SameWaiting(a: seq<bool>, b: seq<bool>, i: nat)
    requires |a| == |b| && i <= |a| && forall j | i <= j < |a| :: a[j] == b[j]
    ensures Waiting(a, i) == Waiting(b, i)
    decreases |a| - i
  {
    if i < |a| { SameWaiting(a, b, i + 1); }
  }

  /** A sweep that ends without an exit has struck off as many handles as it cleaned, at least one if one was ready. */
  lemma {:induction false} SweepStrikesOff(w: World, flags: seq<bool>, p: seq<nat>, ready: nat -> bool, round: nat, k: nat)
    requires k <= |p| && StillWaiting(flags, p, k) && !AllSet(flags)
    ensures var s := Sweep(w, true, flags, p, ready, round, k);
            s.exit.Pending? ==>
              && |Waiting(s.flags, 0)| + |s.calls| == |Waiting(flags, 0)|
              && ((exists j | k <= j < |p| :: ready(j)) ==> s.calls != [])
    decreases |p| - k
  {
    if k < |p| && w.valid(round, false, p[k]) {
      if !ready(k) {
        SweepStrikesOff(w, flags, p, ready, round, k + 1);
      } else if w.cleanup(round, p[k]) == WAIT_OBJECT_0 {
        var flags' := flags[p[k] := true];
        WaitingSet(flags, p[k], 0);
        if !AllSet(flags') { SweepStrikesOff(w, flags', p, ready, round, k + 1); }
      }
    }
  }

  /** Then wait-all needs no more polls than it has handles to wait for, and has returned after that many. */
  lemma {:induction false} PollsAreBounded(w: World, flags: seq<bool>, round: nat, rounds: nat)
    requires Helpful(w) && !AllSet(flags)
    ensures var log := Rounds(w, true, flags, round, rounds);
            && |log.polls| <= |Waiting(flags, 0)|
            && (rounds >= |Waiting(flags, 0)| ==> !log.exit.Pending?)
    decreases rounds
  {
    WaitingIs(flags, 0);
    SomeWaiting(flags);
    var p := Waiting(flags, 0);
    if rounds > 0 {
      var answer := w.poll(round, p);
      if AllValid(w, round, true, p) && answer.status > 0 {
        var s := Sweep(w, true, flags, p, answer.ready, round, 0);
        SweepGoesOn(w, flags, p, answer.ready, round);
        SweepStrikesOff(w, flags, p, answer.ready, round, 0);
        if s.exit.Pending? {
          PollsAreBounded(w, s.flags, round + 1, rounds - 1);
        }
      }
    }
  }

  /** So nCount polls are enough for nCount handles. */
  lemma WaitAllPollBound(w: World, n: nat, rounds: nat)
    requires Helpful(w) && n > 0
    ensures var log := Rounds(w, true, NoneSet(n), 0, rounds);
            |log.polls| <= n && (rounds >= n ==> !log.exit.Pending?)
  {
    assert !NoneSet(n)[0];
    AllWaiting(NoneSet(n), 0);
    PollsAreBounded(w, NoneSet(n), 0, rounds);
  }

  // ---- wait-all, round by round ----

  /** The cleanup is of a handle that the poll of its round has reported ready, and that can still be used. */
  ghost predicate WasReady(w: World, round: nat, polls: seq<seq<nat>>, c: Call) {
    && round <= c.round < round + |polls|
    && var p := polls[c.round - round];
       && w.poll(c.round, p).status > 0 && w.valid(c.round, false, c.index) && c.rc == w.cleanup(c.round, c.index)
       && exists k | 0 <= k < |p| :: p[k] == c.index && w.poll(c.round, p).ready(k)
  }

  /** Every handle reported ready in that round has been cleaned in it, and every polled one could be used. */
  ghost predicate AllReadyCleaned(w: World, round: nat, p: seq<nat>, calls: seq<Call>) {
    && w.poll(round, p).status > 0 && AllValid(w, round, false, p)
    && forall k | 0 <= k < |p| && w.poll(round, p).ready(k) :: Call(p[k], 0, round) in calls
  }

  ghost predicate CleanedBefore(calls: seq<Call>, i: nat, round: nat) { exists c | c in calls :: c.index == i && c.round < round }

  /** The list polled in a round is that of all handles not cleaned in an earlier one, in order. */
  ghost predicate PollsTheRest(w: World, flags: seq<bool>, round: nat, p: seq<nat>, calls: seq<Call>) {
    && Ascending(p) && AllValid(w, round, true, p)
    && forall i: nat :: i in p <==> i < |flags| && !flags[i] && !CleanedBefore(calls, i, round)
  }

  ghost predicate PollAt(w: World, flags: seq<bool>, round: nat, log: Log, r: nat)
    requires r < |log.polls|
  {
    PollsTheRest(w, flags, round + r, log.polls[r], log.calls)
  }

  ghost predicate CleanedAt(w: World, round: nat, log: Log, r: nat)
    requires r < |log.polls|
  {
    AllReadyCleaned(w, round + r, log.polls[r], log.calls)
  }

  /** What a wait-all with these rounds behind it has polled and cleaned. */
  ghost predicate Story(w: World, flags: seq<bool>, round: nat, log: Log) {
    && (forall c | c in log.calls :: WasReady(w, round, log.polls, c))
    && (forall r | 0 <= r < |log.polls| :: PollAt(w, flags, round, log, r))
    && (forall r | 0 <= r < |log.polls| - 1 :: CleanedAt(w, round, log, r))
  }

  /** A sweep from position k on: what it cleans is ready, and nothing ready is passed over. */
  ghost predicate SweepStory(w: World, flags: seq<bool>, p: seq<nat>, ready: nat -> bool, round: nat, k: nat, s: Swept) {
    && |s.flags| == |flags|
    && (forall c | c in s.calls :: c.round == round && w.valid(round, false, c.index) && c.rc == w.cleanup(round, c.index)
                                   && exists j | k <= j < |p| :: p[j] == c.index && ready(j))
    && (s.exit.Pending? ==>
          && (forall j | k <= j < |p| :: w.valid(round, false, p[j]))
          && (forall j | k <= j < |p| && ready(j) :: Call(p[j], 0, round) in s.calls)
          && (forall i | 0 <= i < |flags| :: s.flags[i] <==> flags[i] || exists c | c in s.calls :: c.index == i))
    && (s.exit.Failed? ==> exists j | k <= j < |p| :: !w.valid(round, false, p[j]))
    && (s.exit.Refused? ==> s.calls != [] && s.calls[|s.calls| - 1].rc == s.exit.rc != 0)
    && !s.exit.TimedOut?
  }

  lemma SweepStoryOne(w: World, flags: seq<bool>, p: seq<nat>, ready: nat -> bool, round: nat, k: nat, s: Swept, rest: Swept)
    requires k < |p| && p[k] < |flags| && ready(k) && w.valid(round, false, p[k]) && w.cleanup(round, p[k]) == 0
    requires SweepStory(w, flags[p[k] := true], p, ready, round, k + 1, rest)
    requires s == rest.(calls := [Call(p[k], 0, round)] + rest.calls)
    ensures SweepStory(w, flags, p, ready, round, k, s)
  {
    var call := Call(p[k], 0, round);
    assert call in s.calls && forall c | c in s.calls :: c == call || c in rest.calls;
    if s.exit.Pending? {
      forall i | 0 <= i < |flags| ensures s.flags[i] <==> flags[i] || exists c | c in s.calls :: c.index == i {
        if c :| c in rest.calls && c.index == i { assert c in s.calls; }
      }
    }
  }

  lemma {:induction false} SweepTells(w: World, flags: seq<bool>, p: seq<nat>, ready: nat -> bool, round: nat, k: nat)
    requires k <= |p| && forall j | 0 <= j < |p| :: p[j] < |flags|
    ensures SweepStory(w, flags, p, ready, round, k, Sweep(w, true, flags, p, ready, round, k))
    decreases |p| - k
  {
    if k == |p| || !w.valid(round, false, p[k]) {
    } else if !ready(k) {
      SweepTells(w, flags, p, ready, round, k + 1);
    } else {
      var call := Call(p[k], w.cleanup(round, p[k]), round);
      var flags' := flags[p[k] := true];
      if call.rc == 0 && !AllSet(flags') {
        SweepTells(w, flags', p, ready, round, k + 1);
        SweepStoryOne(w, flags, p, ready, round, k, Sweep(w, true, flags, p, ready, round, k),
                      Sweep(w, true, flags', p, ready, round, k + 1));
      }
    }
  }

  lemma FirstPoll(w: World, flags: seq<bool>, p: seq<nat>, round: nat, calls: seq<Call>)
    requires p == Waiting(flags, 0) && AllValid(w, round, true, p) && forall c | c in calls :: c.round >= round
    ensures PollsTheRest(w, flags, round, p, calls)
  {
    WaitingIs(flags, 0);
  }

  lemma ReadyInFirst(w: World, p: seq<nat>, round: nat, calls: seq<Call>, polls: seq<seq<nat>>, c: Call)
    requires polls != [] && polls[0] == p && w.poll(round, p).status > 0 && c in calls
    requires c.round == round && w.valid(round, false, c.index) && c.rc == w.cleanup(round, c.index)
    requires exists j | 0 <= j < |p| :: p[j] == c.index && w.poll(round, p).ready(j)
    ensures WasReady(w, round, polls, c)
  {
  }

  lemma ReadyLater(w: World, round: nat, p: seq<nat>, rest: seq<seq<nat>>, c: Call)
    requires WasReady(w, round + 1, rest, c)
    ensures WasReady(w, round, [p] + rest, c)
  {
    assert ([p] + rest)[c.round - round] == rest[c.round - (round + 1)];
  }

  lemma RestLater(w: World, flags: seq<bool>, flags': seq<bool>, calls: seq<Call>, more: seq<Call>, round: nat, r: nat, p: seq<nat>)
    requires |flags| == |flags'| && r > round && PollsTheRest(w, flags', r, p, more)
    requires forall c | c in calls :: c.round == round
    requires forall i | 0 <= i < |flags| :: flags'[i] <==> flags[i] || exists c | c in calls :: c.index == i
    ensures PollsTheRest(w, flags, r, p, calls + more)
  {
    var both := calls + more;
    assert forall c :: c in both <==> c in calls || c in more;
    forall i: nat ensures i in p <==> i < |flags| && !flags[i] && !CleanedBefore(both, i, r) {
      if i < |flags| {
        if c :| c in calls && c.index == i { assert c in both; }
        if c :| c in more && c.index == i && c.round < r { assert c in both; }
      }
    }
  }

  ghost function Joined(p: seq<nat>, s: Swept, rest: Log): Log { Log(rest.exit, s.calls + rest.calls, [p] + rest.polls) }

  lemma CallsTell(w: World, flags: seq<bool>, p: seq<nat>, round: nat, s: Swept, rest: Log, c: Call)
    requires w.poll(round, p).status > 0 && SweepStory(w, flags, p, w.poll(round, p).ready, round, 0, s)
    requires c in s.calls || WasReady(w, round + 1, rest.polls, c)
    ensures WasReady(w, round, Joined(p, s, rest).polls, c)
  {
    if c in s.calls {
      ReadyInFirst(w, p, round, s.calls, Joined(p, s, rest).polls, c);
    } else {
      ReadyLater(w, round, p, rest.polls, c);
    }
  }

  lemma PollLater(w: World, flags: seq<bool>, p: seq<nat>, round: nat, s: Swept, rest: Log, r: nat)
    requires r < |rest.polls| && |s.flags| == |flags| && PollAt(w, s.flags, round + 1, rest, r)
    requires forall c | c in s.calls :: c.round == round
    requires forall i | 0 <= i < |flags| :: s.flags[i] <==> flags[i] || exists c | c in s.calls :: c.index == i
    ensures PollAt(w, flags, round, Joined(p, s, rest), r + 1)
  {
    RestLater(w, flags, s.flags, s.calls, rest.calls, round, round + 1 + r, rest.polls[r]);
  }

  lemma CleanedLater(w: World, p: seq<nat>, round: nat, s: Swept, rest: Log, r: nat)
    requires r < |rest.polls| && CleanedAt(w, round + 1, rest, r)
    ensures CleanedAt(w, round, Joined(p, s, rest), r + 1)
  {
  }

  lemma FirstTells(w: World, flags: seq<bool>, p: seq<nat>, round: nat, s: Swept, rest: Log)
    requires p == Waiting(flags, 0) && AllValid(w, round, true, p) && w.poll(round, p).status > 0
    requires SweepStory(w, flags, p, w.poll(round, p).ready, round, 0, s) && s.exit.Pending?
    requires forall c | c in rest.calls :: c.round >= round
    ensures PollAt(w, flags, round, Joined(p, s, rest), 0) && CleanedAt(w, round, Joined(p, s, rest), 0)
  {
    FirstPoll(w, flags, p, round, s.calls + rest.calls);
  }

  lemma StoryMore(w: World, flags: seq<bool>, p: seq<nat>, round: nat, s: Swept, rest: Log)
    requires p == Waiting(flags, 0) && AllValid(w, round, true, p) && w.poll(round, p).status > 0
    requires SweepStory(w, flags, p, w.poll(round, p).ready, round, 0, s) && s.exit.Pending?
    requires Story(w, s.flags, round + 1, rest)
    ensures Story(w, flags, round, Joined(p, s, rest))
  {
    var log := Joined(p, s, rest);
    forall c | c in log.calls ensures WasReady(w, round, log.polls, c) {
      CallsTell(w, flags, p, round, s, rest, c);
    }
    FirstTells(w, flags, p, round, s, rest);
    forall r | 0 < r < |log.polls| ensures PollAt(w, flags, round, log, r) {
      PollLater(w, flags, p, round, s, rest, r - 1);
    }
    forall r | 0 < r < |log.polls| - 1 ensures CleanedAt(w, round, log, r) {
      CleanedLater(w, p, round, s, rest, r - 1);
    }
  }

  lemma StoryOne(w: World, flags: seq<bool>, p: seq<nat>, round: nat, s: Swept)
    requires p == Waiting(flags, 0) && AllValid(w, round, true, p) && w.poll(round, p).status > 0
    requires SweepStory(w, flags, p, w.poll(round, p).ready, round, 0, s)
    ensures Story(w, flags, round, Log(s.exit, s.calls, [p]))
  {
    forall c | c in s.calls ensures WasReady(w, round, [p], c) { ReadyInFirst(w, p, round, s.calls, [p], c); }
    FirstPoll(w, flags, p, round, s.calls);
  }

  /** A sweep of a wait-all in the terms of its story. */
  lemma SweepInAll(w: World, flags: seq<bool>, round: nat) returns (s: Swept)
    requires !AllSet(flags)
    ensures var p := Waiting(flags, 0);
            && (forall j | 0 <= j < |p| :: p[j] < |flags|)
            && s == Sweep(w, true, flags, p, w.poll(round, p).ready, round, 0)
            && SweepStory(w, flags, p, w.poll(round, p).ready, round, 0, s)
            && !s.exit.Signalled? && (s.exit.Pending? ==> !AllSet(s.flags))
  {
    WaitingIs(flags, 0);
    var p := Waiting(flags, 0);
    s := Sweep(w, true, flags, p, w.poll(round, p).ready, round, 0);
    SweepTells(w, flags, p, w.poll(round, p).ready, round, 0);
    SweepIsFair(w, flags, p, w.poll(round, p).ready, round, 0);
  }

  lemma StoryNone(w: World, flags: seq<bool>, round: nat, exit: Exit)
    ensures var p := Waiting(flags, 0);
            && Story(w, flags, round, Log(exit, [], []))
            && (AllValid(w, round, true, p) ==> Story(w, flags, round, Log(exit, [], [p])))
  {
    if AllValid(w, round, true, Waiting(flags, 0)) {
      FirstPoll(w, flags, Waiting(flags, 0), round, []);
      assert PollAt(w, flags, round, Log(exit, [], [Waiting(flags, 0)]), 0);
    }
  }

  /**
    Wait-all, round by round: each poll is of exactly the handles not cleaned before, every cleanup is of a handle
    its round's poll has reported ready, and no round goes by with a ready handle left uncleaned.
   */
  lemma {:induction false} WaitAllStory(w: World, flags: seq<bool>, round: nat, rounds: nat)
    requires !AllSet(flags)
    ensures Story(w, flags, round, Rounds(w, true, flags, round, rounds))
    decreases rounds
  {
    var p, log := Waiting(flags, 0), Rounds(w, true, flags, round, rounds);
    StoryNone(w, flags, round, log.exit);
    if rounds > 0 && AllValid(w, round, true, p) && w.poll(round, p).status > 0 {
      var s := SweepInAll(w, flags, round);
      if s.exit.Pending? {
        WaitAllStory(w, s.flags, round + 1, rounds - 1);
        var rest := Rounds(w, true, s.flags, round + 1, rounds - 1);
        StoryMore(w, flags, p, round, s, rest);
        assert log == Joined(p, s, rest);
      } else {
        StoryOne(w, flags, p, round, s);
        assert log == Log(s.exit, s.calls, [p]);
      }
    }
  }

  /** Some handle not cleaned in an earlier round cannot be polled in this one. */
  ghost predicate CannotPoll(w: World, flags: seq<bool>, round: nat, calls: seq<Call>) {
    exists i: nat :: i < |flags| && !flags[i] && !CleanedBefore(calls, i, round) && !w.valid(round, true, i)
  }

  /** What number a wait-all returns, by its last poll and its last cleanup. */
  ghost predicate Answers(w: World, flags: seq<bool>, round: nat, log: Log) {
    var n := |log.polls|;
    var status := if n == 0 then 1 else w.poll(round + n - 1, log.polls[n - 1]).status;
    && (status == 0 <==> log.exit.TimedOut?)
    && (status < 0 ==> log.exit.Failed?)
    && match log.exit
       case TimedOut => ReturnCode(log.exit) == 0x102
       case Refused(_) => log.calls != [] && ReturnCode(log.exit) == log.calls[|log.calls| - 1].rc != 0
       case Failed =>
         && ReturnCode(log.exit) == 0xFFFF_FFFF
         && (|| status < 0
             || CannotPoll(w, flags, round + n, log.calls)
             || (n > 0 && !AllValid(w, round + n - 1, false, log.polls[n - 1])))
       case AllSignalled => ReturnCode(log.exit) == 0
       case Signalled(_) => false
       case Pending => true
  }

  lemma CannotPollLater(w: World, flags: seq<bool>, flags': seq<bool>, calls: seq<Call>, more: seq<Call>, round: nat)
    requires |flags| == |flags'| && CannotPoll(w, flags', round, more)
    requires forall i | 0 <= i < |flags| :: flags'[i] <==> flags[i] || exists c | c in calls :: c.index == i
    ensures CannotPoll(w, flags, round, calls + more)
  {
    var i: nat :| i < |flags'| && !flags'[i] && !CleanedBefore(more, i, round) && !w.valid(round, true, i);
    assert !CleanedBefore(calls + more, i, round);
  }

  lemma AnswersMore(w: World, flags: seq<bool>, p: seq<nat>, round: nat, s: Swept, rest: Log)
    requires w.poll(round, p).status > 0 && Answers(w, s.flags, round + 1, rest)
    requires SweepStory(w, flags, p, w.poll(round, p).ready, round, 0, s) && s.exit.Pending?
    ensures Answers(w, flags, round, Log(rest.exit, s.calls + rest.calls, [p] + rest.polls))
  {
    var polls, n := [p] + rest.polls, |rest.polls|;
    if n > 0 { assert polls[n] == rest.polls[n - 1]; }
    if CannotPoll(w, s.flags, round + 1 + n, rest.calls) {
      CannotPollLater(w, flags, s.flags, s.calls, rest.calls, round + 1 + n);
    }
  }

  lemma AnswersOne(w: World, flags: seq<bool>, p: seq<nat>, round: nat, s: Swept)
    requires w.poll(round, p).status > 0 && !s.exit.Signalled?
    requires SweepStory(w, flags, p, w.poll(round, p).ready, round, 0, s)
    ensures Answers(w, flags, round, Log(s.exit, s.calls, [p]))
  {
  }

  lemma AnswersInvalid(w: World, flags: seq<bool>, round: nat)
    requires !AllValid(w, round, true, Waiting(flags, 0))
    ensures CannotPoll(w, flags, round, [])
  {
    WaitingIs(flags, 0);
    var p := Waiting(flags, 0);
    var k :| 0 <= k < |p| && !w.valid(round, true, p[k]);
    assert !flags[p[k]] && !CleanedBefore([], p[k], round);
  }

  /** A last poll that reports nothing makes it a timeout, a failed one or an unusable handle a failure, a refused cleanup its own code. */
  lemma {:induction false} WaitAllAnswers(w: World, flags: seq<bool>, round: nat, rounds: nat)
    requires !AllSet(flags)
    ensures Answers(w, flags, round, Rounds(w, true, flags, round, rounds))
    decreases rounds
  {
    if rounds > 0 {
      var p := Waiting(flags, 0);
      var s := SweepInAll(w, flags, round);
      if !AllValid(w, round, true, p) {
        AnswersInvalid(w, flags, round);
      } else if w.poll(round, p).status > 0 {
        if s.exit.Pending? {
          WaitAllAnswers(w, s.flags, round + 1, rounds - 1);
          AnswersMore(w, flags, p, round, s, Rounds(w, true, s.flags, round + 1, rounds - 1));
        } else {
          AnswersOne(w, flags, p, round, s);
        }
      }
    }
  }

  // ---- wait-any ----

  /** Position k is the first that is ready or no longer valid. */
  ghost predicate FirstToMatter(w: World, n: nat, ready: nat -> bool, round: nat, k: nat) {
    && k < n && (ready(k) || !w.valid(round, false, k))
    && forall j | 0 <= j < k :: !ready(j) && w.valid(round, false, j)
  }

  lemma {:induction false} SweepAny(w: World, flags: seq<bool>, p: seq<nat>, ready: nat -> bool, round: nat, k: nat)
    requires k <= |p| == |flags| && (forall j | 0 <= j < |p| :: p[j] == j)
    requires forall j | 0 <= j < k :: !ready(j) && w.valid(round, false, j)
    ensures var s := Sweep(w, false, flags, p, ready, round, k);
            && s.flags == flags
            && if s.exit.Pending? then s.calls == [] && forall j | 0 <= j < |p| :: !ready(j) && w.valid(round, false, j)
               else exists m: nat :: FirstToMatter(w, |p|, ready, round, m) && SweepAnswer(w, round, m, s)
    decreases |p| - k
  {
    if k < |p| {
      if w.valid(round, false, p[k]) && !ready(k) {
        SweepAny(w, flags, p, ready, round, k + 1);
      } else {
        assert FirstToMatter(w, |p|, ready, round, k) && SweepAnswer(w, round, k, Sweep(w, false, flags, p, ready, round, k));
      }
    }
  }

  ghost predicate SweepAnswer(w: World, round: nat, m: nat, s: Swept) {
    if !w.valid(round, false, m) then s.exit == Failed && s.calls == []
    else
      var rc := w.cleanup(round, m);
      s.exit == (if rc == 0 then Signalled(m) else Refused(rc)) && s.calls == [Call(m, rc, round)]
  }

  function Upto(n: nat): (p: seq<nat>)
    ensures |p| == n && forall j | 0 <= j < n :: p[j] == j
  {
    seq(n, j => j)
  }

  lemma {:induction false} AllWaiting(flags: seq<bool>, i: nat)
    requires i <= |flags| && forall j | 0 <= j < |flags| :: !flags[j]
    ensures Waiting(flags, i) == Upto(|flags|)[i..]
    decreases |flags| - i
  {
    if i < |flags| { AllWaiting(flags, i + 1); }
  }

  /** A round of wait-any that comes to nothing: all handles can be used, and poll reports something but no requested event. */
  ghost predicate QuietAt(w: World, n: nat, round: nat) {
    var answer := w.poll(round, Upto(n));
    && AllValid(w, round, true, Upto(n)) && answer.status > 0
    && forall j | 0 <= j < n :: !answer.ready(j) && w.valid(round, false, j)
  }

  /** A round of wait-any that ends the call: the number it returns and the cleanups it makes, one at most. */
  ghost predicate Decides(w: World, n: nat, round: nat, code: nat, calls: seq<Call>) {
    var answer := w.poll(round, Upto(n));
    if !AllValid(w, round, true, Upto(n)) || answer.status < 0 then code == 0xFFFF_FFFF && calls == []
    else if answer.status == 0 then code == 0x102 && calls == []
    else exists k: nat ::
      && FirstToMatter(w, n, answer.ready, round, k)
      && if !w.valid(round, false, k) then code == 0xFFFF_FFFF && calls == []
         else
           var rc := w.cleanup(round, k);
           code == (if rc == 0 then k else rc) && calls == [Call(k, rc, round)]
  }

  /** What a round comes to when it does not go on to the next. */
  lemma RoundDecides(w: World, flags: seq<bool>, round: nat, left: nat)
    requires (forall j | 0 <= j < |flags| :: !flags[j]) && !QuietAt(w, |flags|, round) && left > 0
    ensures var log := Rounds(w, false, flags, round, left);
            && !log.exit.Pending? && Decides(w, |flags|, round, ReturnCode(log.exit), log.calls)
            && (log.polls == [] || log.polls == [Upto(|flags|)])
  {
    AllWaiting(flags, 0);
    var p := Upto(|flags|);
    assert Waiting(flags, 0) == p;
    SweepAny(w, flags, p, w.poll(round, p).ready, round, 0);
  }

  lemma RoundIsQuiet(w: World, flags: seq<bool>, round: nat, left: nat)
    requires (forall j | 0 <= j < |flags| :: !flags[j]) && QuietAt(w, |flags|, round) && left > 0
    ensures var log, rest := Rounds(w, false, flags, round, left), Rounds(w, false, flags, round + 1, left - 1);
            log == Log(rest.exit, rest.calls, [Upto(|flags|)] + rest.polls)
  {
    AllWaiting(flags, 0);
    var p := Upto(|flags|);
    assert Waiting(flags, 0) == p;
    SweepAny(w, flags, p, w.poll(round, p).ready, round, 0);
    assert [] + Rounds(w, false, flags, round + 1, left - 1).calls == Rounds(w, false, flags, round + 1, left - 1).calls;
  }

  /**
    Wait-any: quiet rounds go by until one decides. If a handle is ready then, only the lowest is cleaned; the
    number returned is its index if that succeeds and the refusal if not. Every poll is of all handles.
   */
  lemma {:induction false} WaitAnyCleansLowest(w: World, flags: seq<bool>, round: nat, rounds: nat) returns (last: nat)
    requires forall j | 0 <= j < |flags| :: !flags[j]
    ensures round <= last <= round + rounds && forall r | round <= r < last :: QuietAt(w, |flags|, r)
    ensures var log := Rounds(w, false, flags, round, rounds);
            && (forall r | 0 <= r < |log.polls| :: log.polls[r] == Upto(|flags|))
            && if log.exit.Pending? then last == round + rounds && log.calls == []
               else last < round + rounds && Decides(w, |flags|, last, ReturnCode(log.exit), log.calls)
    decreases rounds
  {
    last := round;
    if rounds > 0 {
      if QuietAt(w, |flags|, round) {
        RoundIsQuiet(w, flags, round, rounds);
        last := WaitAnyCleansLowest(w, flags, round + 1, rounds - 1);
      } else {
        RoundDecides(w, flags, round, rounds);
      }
    }
  }

  /** Quiet rounds up to `last`, which decides; or, for as long as the call is looked at, nothing but quiet rounds. */
  ghost predicate AnyAnswers(w: World, n: nat, rounds: nat, last: nat, code: Option<nat>, calls: seq<Call>) {
    && last <= rounds && (forall r | 0 <= r < last :: QuietAt(w, n, r))
    && if code.None? then last == rounds && calls == [] else last < rounds && Decides(w, n, last, code.value, calls)
  }

  lemma WaitAnyReturns(w: World, n: nat, rounds: nat, code: Option<nat>)
    requires var log := Rounds(w, false, NoneSet(n), 0, rounds);
             code == if log.exit.Pending? then None else Some(ReturnCode(log.exit))
    ensures exists last: nat :: AnyAnswers(w, n, rounds, last, code, Rounds(w, false, NoneSet(n), 0, rounds).calls)
  {
    var last := WaitAnyCleansLowest(w, NoneSet(n), 0, rounds);
    assert AnyAnswers(w, n, rounds, last, code, Rounds(w, false, NoneSet(n), 0, rounds).calls);
  }

  /** A wait-all returns 0 exactly when all handles have been cleaned, and otherwise as its last poll and cleanup say. */
  ghost predicate AllAnswers(w: World, n: nat, code: Option<nat>, log: Log) {
    && (code == Some(0) <==> forall i | 0 <= i < n :: Cleaned(log.calls, i))
    && (forall j, k | 0 <= j < k < |log.calls| :: log.calls[j].index != log.calls[k].index)
    && (code.Some? ==> !log.exit.Pending? && code.value == ReturnCode(log.exit))
    && Story(w, NoneSet(n), 0, log) && Answers(w, NoneSet(n), 0, log)
  }

  lemma WaitAllReturns(w: World, n: nat, rounds: nat, code: Option<nat>)
    requires n > 0
    requires var log := Rounds(w, true, NoneSet(n), 0, rounds);
             code == if log.exit.Pending? then None else Some(ReturnCode(log.exit))
    ensures AllAnswers(w, n, code, Rounds(w, true, NoneSet(n), 0, rounds))
  {
    assert !NoneSet(n)[0];
    WaitAllCleansOnce(w, n, rounds);
    WaitAllStory(w, NoneSet(n), 0, rounds);
    WaitAllAnswers(w, NoneSet(n), 0, rounds);
  }

  // ---- the code ----

  /** The handles before `signalled` are all signalled, and the one there is not: the longest signalled prefix. */
  ghost predicate Prefix(flags: seq<bool>, signalled: nat) {
    && signalled <= |flags| && (forall j | 0 <= j < signalled :: flags[j])
    && (signalled < |flags| ==> !flags[signalled])
  }

  /** The innermost loop: on from the last position. */
  method Advance(flags: array<bool>, from: nat) returns (signalled: nat)
    requires from <= flags.Length && forall j | 0 <= j < from :: flags[j]
    ensures Prefix(flags[..], signalled)
    ensures signalled >= flags.Length <==> AllSet(flags[..])
  {
    signalled := from;
    while signalled < flags.Length
      invariant from <= signalled <= flags.Length
      invariant forall j | 0 <= j < signalled :: flags[j]
    {
      if !flags[signalled] {
        break;
      }
      signalled := signalled + 1;
    }
    if signalled < flags.Length { assert !flags[..][signalled]; }
  }

  lemma WaitingStep(flags: seq<bool>, sofar: seq<nat>, i: nat)
    requires i < |flags| && Waiting(flags, 0) == sofar + Waiting(flags, i)
    ensures Waiting(flags, 0) == (if flags[i] then sofar else sofar + [i]) + Waiting(flags, i + 1)
  {
  }

  lemma ValidMore(w: World, round: nat, sofar: seq<nat>, i: nat)
    requires AllValid(w, round, true, sofar) && w.valid(round, true, i)
    ensures AllValid(w, round, true, sofar + [i])
  {
  }

  lemma InvalidIn(w: World, round: nat, sofar: seq<nat>, i: nat, rest: seq<nat>)
    requires !w.valid(round, true, i)
    ensures !AllValid(w, round, true, sofar + [i] + rest)
  {
    assert (sofar + [i] + rest)[|sofar|] == i;
  }

  /** One more entry of a list kept in an array. */
  method Put(a: array<nat>, n: nat, x: nat)
    requires n < a.Length
    modifies a
    ensures a[..n + 1] == old(a[..n]) + [x]
  {
    a[n] := x;
  }

  /** The first loop of a round: the handles to poll, and the map back from their positions. */
  method Collect(w: World, bWaitAll: bool, signalledIdx: array<bool>, pollMap: array<nat>, pollfds: array<nat>, round: nat)
    returns (polled: nat, ok: bool)
    requires signalledIdx.Length == pollMap.Length == pollfds.Length
    requires pollMap != pollfds
    requires !bWaitAll ==> forall j | 0 <= j < signalledIdx.Length :: !signalledIdx[j]
    modifies pollMap, pollfds
    ensures ok <==> AllValid(w, round, true, Waiting(signalledIdx[..], 0))
    ensures ok ==> polled <= pollfds.Length && pollfds[..polled] == Waiting(signalledIdx[..], 0)
    ensures ok && bWaitAll ==> pollMap[..polled] == pollfds[..polled]
  {
    ghost var flags, sofar := signalledIdx[..], [];
    polled, ok := 0, true;
    var index := 0;
    while index < signalledIdx.Length
      invariant polled <= index <= signalledIdx.Length
      invariant sofar == pollfds[..polled] && (bWaitAll ==> pollMap[..polled] == sofar)
      invariant Waiting(flags, 0) == sofar + Waiting(flags, index)
      invariant AllValid(w, round, true, sofar)
    {
      WaitingStep(flags, sofar, index);
      if bWaitAll {
        if signalledIdx[index] {
          index := index + 1;
          continue;
        }
        Put(pollMap, polled, index);
      }
      if !w.valid(round, true, index) {
        ok := false;
        InvalidIn(w, round, sofar, index, Waiting(flags, index + 1));
        return;
      }
      ValidMore(w, round, sofar, index);
      Put(pollfds, polled, index);
      polled := polled + 1;
      sofar := sofar + [index];
      index := index + 1;
    }
    assert Waiting(flags, index) == [];
  }

  /** Where a sweep has got to: it comes to `goal` if it goes on from position k with these flags and cleanups. */
  ghost predicate SweepLeads(goal: Swept, w: World, all: bool, flags: seq<bool>, p: seq<nat>, ready: nat -> bool, round: nat, k: nat, calls: seq<Call>)
    requires k <= |p| && forall j | 0 <= j < |p| :: p[j] < |flags|
  {
    var s := Sweep(w, all, flags, p, ready, round, k);
    goal == Swept(s.exit, s.flags, calls + s.calls)
  }

  lemma SweepStarts(w: World, all: bool, flags: seq<bool>, p: seq<nat>, ready: nat -> bool, round: nat)
    requires forall j | 0 <= j < |p| :: p[j] < |flags|
    ensures SweepLeads(Sweep(w, all, flags, p, ready, round, 0), w, all, flags, p, ready, round, 0, [])
  {
    assert [] + Sweep(w, all, flags, p, ready, round, 0).calls == Sweep(w, all, flags, p, ready, round, 0).calls;
  }

  /** The next position: invalid or refused or the last one needed, then the goal is reached; otherwise on. */
  lemma SweepStep(goal: Swept, w: World, all: bool, flags: seq<bool>, p: seq<nat>, ready: nat -> bool, round: nat, k: nat, calls: seq<Call>)
    requires k < |p| && forall j | 0 <= j < |p| :: p[j] < |flags|
    requires SweepLeads(goal, w, all, flags, p, ready, round, k, calls)
    ensures var call := Call(p[k], w.cleanup(round, p[k]), round);
            var flags' := flags[p[k] := true];
            if !w.valid(round, false, p[k]) then goal == Swept(Failed, flags, calls)
            else if !ready(k) then SweepLeads(goal, w, all, flags, p, ready, round, k + 1, calls)
            else if call.rc != WAIT_OBJECT_0 then goal == Swept(Refused(call.rc), flags, calls + [call])
            else if !all then goal == Swept(Signalled(k), flags, calls + [call])
            else if AllSet(flags') then goal == Swept(AllSignalled, flags', calls + [call])
            else SweepLeads(goal, w, all, flags', p, ready, round, k + 1, calls + [call])
  {
    assert calls + [] == calls;
    if w.valid(round, false, p[k]) && ready(k) {
      var call := Call(p[k], w.cleanup(round, p[k]), round);
      if all && call.rc == WAIT_OBJECT_0 && !AllSet(flags[p[k] := true]) {
        var rest := Sweep(w, all, flags[p[k] := true], p, ready, round, k + 1);
        assert calls + ([call] + rest.calls) == (calls + [call]) + rest.calls;
      }
    }
  }

  lemma SweepEnds(goal: Swept, w: World, all: bool, flags: seq<bool>, p: seq<nat>, ready: nat -> bool, round: nat, calls: seq<Call>)
    requires forall j | 0 <= j < |p| :: p[j] < |flags|
    requires SweepLeads(goal, w, all, flags, p, ready, round, |p|, calls)
    ensures goal == Swept(Pending, flags, calls)
  {
    assert calls + [] == calls;
  }

  /** The second loop of a round: the polled handles that are ready are cleaned. */
  method SweepPolled(w: World, bWaitAll: bool, signalledIdx: array<bool>, pollMap: array<nat>, polled: nat, ready: nat -> bool,
                     round: nat, from: nat, ghost p: seq<nat>)
    returns (exit: Exit, calls: seq<Call>, signalled: nat, signalHandled: bool)
    requires polled == |p| <= pollMap.Length && forall j | 0 <= j < |p| :: p[j] < signalledIdx.Length
    requires if bWaitAll then pollMap[..polled] == p else forall j | 0 <= j < |p| :: p[j] == j
    requires Prefix(signalledIdx[..], from)
    modifies signalledIdx
    ensures Swept(exit, signalledIdx[..], calls) == Sweep(w, bWaitAll, old(signalledIdx[..]), p, ready, round, 0)
    ensures Prefix(signalledIdx[..], signalled)
    ensures signalHandled && exit.Pending? ==> bWaitAll
  {
    ghost var goal := Sweep(w, bWaitAll, signalledIdx[..], p, ready, round, 0);
    SweepStarts(w, bWaitAll, signalledIdx[..], p, ready, round);
    exit, calls, signalled, signalHandled := Pending, [], from, false;
    var index := 0;
    while index < polled
      invariant index <= polled && Prefix(signalledIdx[..], signalled)
      invariant SweepLeads(goal, w, bWaitAll, signalledIdx[..], p, ready, round, index, calls)
      invariant signalHandled ==> bWaitAll
    {
      ghost var flags := signalledIdx[..];
      SweepStep(goal, w, bWaitAll, flags, p, ready, round, index, calls);
      var idx := index;
      if bWaitAll {
        idx := pollMap[index];
        assert idx == pollMap[..polled][index];
      }
      assert idx == p[index];
      if !w.valid(round, false, idx) {
        exit := Failed;
        return;
      }
      if ready(index) {
        var rc := w.cleanup(round, idx);
        calls := calls + [Call(idx, rc, round)];
        if rc != WAIT_OBJECT_0 {
          exit := Refused(rc);
          return;
        }
        if bWaitAll {
          signalledIdx[idx] := true;
          assert signalledIdx[..] == flags[idx := true];
          signalled := Advance(signalledIdx, signalled);
        }
        if !bWaitAll {
          exit := Signalled(index);
          return;
        }
        if bWaitAll && signalled >= signalledIdx.Length {
          exit := AllSignalled;
          return;
        }
        signalHandled := true;
      }
      index := index + 1;
    }
    SweepEnds(goal, w, bWaitAll, signalledIdx[..], p, ready, round, calls);
  }

  /** A call that has done this much so far and goes on from a round comes to `goal`. */
  ghost predicate RoundsLead(goal: Log, w: World, all: bool, flags: seq<bool>, round: nat, left: nat, calls: seq<Call>, polls: seq<seq<nat>>) {
    var rest := Rounds(w, all, flags, round, left);
    goal == Log(rest.exit, calls + rest.calls, polls + rest.polls)
  }

  lemma RoundsStart(w: World, all: bool, flags: seq<bool>, rounds: nat)
    ensures RoundsLead(Rounds(w, all, flags, 0, rounds), w, all, flags, 0, rounds, [], [])
  {
    var log := Rounds(w, all, flags, 0, rounds);
    assert [] + log.calls == log.calls && [] + log.polls == log.polls;
  }

  lemma RoundsEnd(goal: Log, w: World, all: bool, flags: seq<bool>, round: nat, calls: seq<Call>, polls: seq<seq<nat>>)
    requires RoundsLead(goal, w, all, flags, round, 0, calls, polls)
    ensures goal == Log(Pending, calls, polls)
  {
    assert calls + [] == calls && polls + [] == polls;
  }

  /** A round that ends the call before or by its poll. */
  lemma RoundFails(goal: Log, w: World, all: bool, flags: seq<bool>, round: nat, left: nat, calls: seq<Call>, polls: seq<seq<nat>>)
    requires 0 < left && RoundsLead(goal, w, all, flags, round, left, calls, polls)
    ensures var p := Waiting(flags, 0);
            if !AllValid(w, round, true, p) then goal == Log(Failed, calls, polls)
            else w.poll(round, p).status <= 0 ==>
              goal == Log(if w.poll(round, p).status < 0 then Failed else TimedOut, calls, polls + [p])
  {
    WaitingIs(flags, 0);
    assert calls + [] == calls && polls + [] == polls;
  }

  /** A round that sweeps. */
  lemma RoundSweeps(goal: Log, w: World, all: bool, flags: seq<bool>, round: nat, left: nat, calls: seq<Call>, polls: seq<seq<nat>>, s: Swept)
    requires 0 < left && RoundsLead(goal, w, all, flags, round, left, calls, polls)
    requires var p := Waiting(flags, 0);
             && (forall j | 0 <= j < |p| :: p[j] < |flags|)
             && AllValid(w, round, true, p) && w.poll(round, p).status > 0
             && s == Sweep(w, all, flags, p, w.poll(round, p).ready, round, 0)
    ensures var p := Waiting(flags, 0);
            if s.exit.Pending?
            then RoundsLead(goal, w, all, s.flags, round + 1, left - 1, calls + s.calls, polls + [p])
            else goal == Log(s.exit, calls + s.calls, polls + [p])
  {
    var p := Waiting(flags, 0);
    if s.exit.Pending? {
      var rest := Rounds(w, all, s.flags, round + 1, left - 1);
      assert calls + (s.calls + rest.calls) == (calls + s.calls) + rest.calls;
      assert polls + ([p] + rest.polls) == (polls + [p]) + rest.polls;
    }
  }

  /** One round: the handles still waited for are polled, and the ready ones cleaned. */
  method OneRound(w: World, bWaitAll: bool, signalledIdx: array<bool>, pollMap: array<nat>, pollfds: array<nat>, round: nat,
                  from: nat, callsBefore: seq<Call>, pollsBefore: seq<seq<nat>>, ghost goal: Log, ghost left: nat)
    returns (exit: Exit, calls: seq<Call>, polls: seq<seq<nat>>, signalled: nat, signalHandled: bool)
    requires signalledIdx.Length == pollMap.Length == pollfds.Length && pollMap != pollfds
    requires !bWaitAll ==> forall j | 0 <= j < signalledIdx.Length :: !signalledIdx[j]
    requires Prefix(signalledIdx[..], from) && 0 < left
    requires RoundsLead(goal, w, bWaitAll, signalledIdx[..], round, left, callsBefore, pollsBefore)
    modifies signalledIdx, pollMap, pollfds
    ensures !exit.Pending? ==> goal == Log(exit, calls, polls)
    ensures exit.Pending? ==>
              && Prefix(signalledIdx[..], signalled) && (signalHandled ==> bWaitAll)
              && RoundsLead(goal, w, bWaitAll, signalledIdx[..], round + 1, left - 1, calls, polls)
    ensures !bWaitAll ==> signalledIdx[..] == old(signalledIdx[..])
  {
    ghost var flags := signalledIdx[..];
    exit, calls, polls, signalled, signalHandled := Failed, callsBefore, pollsBefore, from, false;
    WaitingIs(flags, 0);
    RoundFails(goal, w, bWaitAll, flags, round, left, calls, polls);
    var polled, ok := Collect(w, bWaitAll, signalledIdx, pollMap, pollfds, round);
    if !ok {
      return;
    }
    var p := pollfds[..polled];
    var answer := w.poll(round, p);
    polls := pollsBefore + [p];
    if answer.status < 0 {
      return;
    }
    if answer.status == 0 {
      exit := TimedOut;
      return;
    }
    if !bWaitAll {
      AllWaiting(flags, 0);
      SweepAny(w, flags, p, answer.ready, round, 0);
    }
    ghost var s := Sweep(w, bWaitAll, flags, p, answer.ready, round, 0);
    RoundSweeps(goal, w, bWaitAll, flags, round, left, calls, pollsBefore, s);
    var cleaned;
    exit, cleaned, signalled, signalHandled :=
      SweepPolled(w, bWaitAll, signalledIdx, pollMap, polled, answer.ready, round, signalled, p);
    assert Swept(exit, signalledIdx[..], cleaned) == s;
    calls := calls + cleaned;
  }

  /** The do loop, for a number of rounds at most. */
  method WaitLoop(w: World, nCount: nat, bWaitAll: bool, rounds: nat) returns (log: Log)
    ensures log == Rounds(w, bWaitAll, NoneSet(nCount), 0, rounds)
  {
    var signalledIdx := new bool[nCount](_ => false);
    var pollMap := new nat[nCount](_ => 0);
    var pollfds := new nat[nCount](_ => 0);
    var signalled, round, calls, polls := 0, 0, [], [];
    ghost var goal := Rounds(w, bWaitAll, NoneSet(nCount), 0, rounds);
    assert signalledIdx[..] == NoneSet(nCount);
    RoundsStart(w, bWaitAll, NoneSet(nCount), rounds);
    var again := true;
    while again && round < rounds
      invariant round <= rounds && again
      invariant Prefix(signalledIdx[..], signalled)
      invariant !bWaitAll ==> forall j | 0 <= j < nCount :: !signalledIdx[..][j]
      invariant RoundsLead(goal, w, bWaitAll, signalledIdx[..], round, rounds - round, calls, polls)
    {
      assert forall j | 0 <= j < nCount :: signalledIdx[j] == signalledIdx[..][j];
      var exit, signalHandled;
      exit, calls, polls, signalled, signalHandled :=
        OneRound(w, bWaitAll, signalledIdx, pollMap, pollfds, round, signalled, calls, polls, goal, rounds - round);
      if !exit.Pending? {
        return Log(exit, calls, polls);
      }
      again := bWaitAll || !signalHandled;
      round := round + 1;
    }
    RoundsEnd(goal, w, bWaitAll, signalledIdx[..], round, calls, polls);
    return Log(Pending, calls, polls);
  }

  /** WaitForMultipleObjects, followed for a number of rounds at most, with the number it returns if it has. */
  method WaitForMultipleObjects(w: World, nCount: nat, bWaitAll: bool, rounds: nat) returns (log: Log, code: Option<nat>)
    ensures code.None? <==> log.exit.Pending?
    ensures nCount == 0 || nCount > 64 ==> code == Some(0xFFFF_FFFF) && log.calls == [] && log.polls == []
    ensures 0 < nCount <= 64 ==> log == Rounds(w, bWaitAll, NoneSet(nCount), 0, rounds)
    ensures 0 < nCount <= 64 && !bWaitAll ==> exists last: nat :: AnyAnswers(w, nCount, rounds, last, code, log.calls)
    ensures 0 < nCount <= 64 && bWaitAll ==> AllAnswers(w, nCount, code, log)
  {
    if nCount == 0 || nCount > MAXIMUM_WAIT_OBJECTS {
      return Log(Failed, [], []), Some(WAIT_FAILED);
    }
    log := WaitLoop(w, nCount, bWaitAll, rounds);
    code := if log.exit.Pending? then None else Some(ReturnCode(log.exit));
    if bWaitAll {
      WaitAllReturns(w, nCount, rounds, code);
    } else {
      WaitAnyReturns(w, nCount, rounds, code);
    }
  }
}
