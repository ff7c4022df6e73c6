/** The timer queue of libuzi/timer.c: singly linked timers, fired, re-armed and re-inserted. */
module TimerQueues {
  import opened Sequences
  import opened Timespec

  // ---- where a timer goes, on the expiration times of the queue ----

  /** The node that InsertTimerQueueTimer's loop stops behind, from node i on. */
  function Scan(times: seq<Time>, e: Time, i: nat): (k: nat)
    requires i < |times|
    ensures i < k <= |times|
    decreases |times| - i
  {
    if i + 1 == |times| then |times|
    else if Compare(e, times[i]) > 0 && Compare(e, times[i + 1]) < 0 then i + 1
    else Scan(times, e, i + 1)
  }

  /** How many nodes keep their place in front of a new timer; the node after those is dropped, if there is one. */
  function InsertAt(times: seq<Time>, e: Time): (k: nat)
    ensures k <= |times|
  {
    if times == [] then 0 else Scan(times, e, 0)
  }

  function Inserted<T>(s: seq<T>, t: T, k: nat): seq<T>
    requires k <= |s|
  {
    if k < |s| then s[..k] + [t] + s[k + 1..] else s + [t]
  }

  /** timespec_compare puts the time strictly between the neighbours k - 1 and k. */
  predicate Between(times: seq<Time>, e: Time, k: nat) {
    0 < k < |times| && Compare(e, times[k - 1]) > 0 && Compare(e, times[k]) < 0
  }

  ghost predicate FirstBetween(times: seq<Time>, e: Time, k: nat) {
    Between(times, e, k) && forall j: nat | j < k :: !Between(times, e, j)
  }

  lemma {:induction false} ScanFinds(times: seq<Time>, e: Time, i: nat)
    requires i < |times|
    ensures var k := Scan(times, e, i);
            && (k < |times| ==> Between(times, e, k))
            && (forall j: nat | i < j < k :: !Between(times, e, j))
    decreases |times| - i
  {
    if i + 1 < |times| && !Between(times, e, i + 1) {
      ScanFinds(times, e, i + 1);
    }
  }

  /** A new element takes the place of the second of the first two neighbours its time falls between, or else comes last. */
  ghost predicate PutIn<T>(s: seq<T>, times: seq<Time>, t: T, e: Time, now: seq<T>)
    requires |s| == |times|
  {
    && (forall k: nat | FirstBetween(times, e, k) ::
          |now| == |s| && now[k] == t && forall i | 0 <= i < |s| && i != k :: now[i] == s[i])
    && ((forall k: nat :: !Between(times, e, k)) ==> now == s + [t])
  }

  /** Inserting drops at most one element, and every other keeps its place. */
  lemma InsertedPutsIn<T>(s: seq<T>, times: seq<Time>, t: T, e: Time)
    requires |s| == |times|
    ensures PutIn(s, times, t, e, Inserted(s, t, InsertAt(times, e)))
  {
    if times != [] { ScanFinds(times, e, 0); }
  }

  ghost predicate Sorted(times: seq<Time>) {
    forall i, j | 0 <= i < j < |times| :: Nanos(times[i]) <= Nanos(times[j])
  }

  /** Close enough together for timespec_compare. */
  ghost predicate Comparable(times: seq<Time>, e: Time) {
    forall i | 0 <= i < |times| :: Orders(e, times[i])
  }

  lemma {:induction false} ScanIs(times: seq<Time>, e: Time, i: nat)
    requires i < |times| && Comparable(times, e)
    ensures var k := Scan(times, e, i);
            && (k < |times| ==> Nanos(times[k - 1]) < Nanos(e) < Nanos(times[k]))
            && (forall j | i < j < k :: !(Nanos(times[j - 1]) < Nanos(e) < Nanos(times[j])))
    decreases |times| - i
  {
    if i + 1 < |times| && !(Compare(e, times[i]) > 0 && Compare(e, times[i + 1]) < 0) {
      ScanIs(times, e, i + 1);
    }
  }

  /** The neighbours a time falls between, in a sorted queue where it is no node's time. */
  lemma {:induction false} Neighbours(times: seq<Time>, e: Time, last: nat) returns (j: nat)
    requires 0 < last < |times|
    requires Nanos(times[0]) < Nanos(e) < Nanos(times[last])
    requires forall i | 0 <= i < |times| :: Nanos(times[i]) != Nanos(e)
    ensures 0 < j <= last && Nanos(times[j - 1]) < Nanos(e) < Nanos(times[j])
  {
    if Nanos(times[last - 1]) < Nanos(e) {
      j := last;
    } else {
      j := Neighbours(times, e, last - 1);
    }
  }

  /** Inserting into a sorted queue loses a node exactly when the new time is strictly inside and no node's own. */
  lemma LosesNodeExactly(times: seq<Time>, e: Time)
    requires Sorted(times) && Comparable(times, e)
    ensures InsertAt(times, e) < |times| <==>
            && times != [] && Nanos(times[0]) < Nanos(e) < Nanos(times[|times| - 1])
            && forall i | 0 <= i < |times| :: Nanos(times[i]) != Nanos(e)
  {
    if times != [] {
      ScanIs(times, e, 0);
      var k := Scan(times, e, 0);
      if k < |times| {
        forall i | 0 <= i < |times| ensures Nanos(times[i]) != Nanos(e) {
          if i < k - 1 { assert Nanos(times[i]) <= Nanos(times[k - 1]); }
          if i > k { assert Nanos(times[k]) <= Nanos(times[i]); }
        }
        assert Nanos(times[0]) <= Nanos(times[k - 1]) || k == 1;
        assert Nanos(times[k]) <= Nanos(times[|times| - 1]) || k == |times| - 1;
      } else if Nanos(times[0]) < Nanos(e) < Nanos(times[|times| - 1])
                && forall i | 0 <= i < |times| :: Nanos(times[i]) != Nanos(e) {
        var j := Neighbours(times, e, |times| - 1);
        assert false;
      }
    }
  }

  /** One such queue: between 0 s and 2 s a timer for 1 s takes the place of the second. */
  lemma LosesNode()
    ensures var times, e := [Time(0, 0), Time(2, 0)], Time(1, 0);
            Sorted(times) && InsertAt(times, e) == 1 && Inserted(times, e, 1) == [Time(0, 0), e]
  {
    var times, e := [Time(0, 0), Time(2, 0)], Time(1, 0);
    assert Scan(times, e, 0) == 1;
  }

  /** A sorted queue stays a sorted queue of all its timers exactly when the new time is not before the last. */
  lemma InsertKeepsExactly(times: seq<Time>, e: Time)
    requires Sorted(times) && Comparable(times, e)
    ensures InsertAt(times, e) == |times| && Sorted(Inserted(times, e, InsertAt(times, e))) <==>
            times == [] || Nanos(times[|times| - 1]) <= Nanos(e)
  {
    LosesNodeExactly(times, e);
    if times != [] {
      var last := |times| - 1;
      if Nanos(times[last]) <= Nanos(e) {
        forall i, j | 0 <= i < j < |times + [e]| ensures Nanos((times + [e])[i]) <= Nanos((times + [e])[j]) {
          if i < last { assert Nanos(times[i]) <= Nanos(times[last]); }
        }
      } else {
        assert (times + [e])[last] == times[last] && (times + [e])[last + 1] == e;
      }
    }
  }

  // ---- firing, on expiration times ----

  /** How often a timer is due by `now`: once every `step` nanoseconds, or once if it does not move on. */
  function Firings(due: int, step: nat, now: int): nat {
    if due > now then 0
    else if step == 0 then 1
    else (now - due) / step + 1
  }

  lemma FiringsStep(due: int, step: nat, now: int)
    requires 0 < step && due <= now
    ensures Firings(due, step, now) == 1 + Firings(due + step, step, now)
  {
    var rest := now - due;
    if rest < step {
      assert rest / step == 0;
    } else {
      assert rest == (rest - step) + step;
      DivideStep(rest - step, step);
    }
  }

  lemma TimesAtLeast(k: int, p: int)
    requires 0 < p && 0 < k
    ensures p <= k * p
  {
  }

  lemma DivideIs(x: int, p: int, q: int, r: int)
    requires 0 <= r < p && x == q * p + r
    ensures x / p == q
  {
    var d := x / p - q;
    assert d * p == (x / p) * p - q * p;
    assert (x / p) * p + x % p == x;
    if d > 0 { TimesAtLeast(d, p); }
    assert (-d) * p == -(d * p);
    if d < 0 { TimesAtLeast(-d, p); }
  }

  lemma DivideStep(x: int, p: int)
    requires 0 < p
    ensures (x + p) / p == x / p + 1
  {
    assert (x / p) * p + x % p == x;
    assert (x / p + 1) * p == (x / p) * p + p;
    DivideIs(x + p, p, x / p + 1, x % p);
  }

  /** Active times that firing with a common step keeps in order, at the time `now`. */
  ghost predicate Regular(active: seq<Time>, step: nat, now: Time) {
    && Sorted(active) && AllNear(active, now)
    && (active != [] ==> Nanos(active[|active| - 1]) <= Nanos(active[0]) + step)
  }

  /** Inactive times that single shots of the active queue may join. */
  ghost predicate Ready(active: seq<Time>, inactive: seq<Time>, now: Time) {
    && Sorted(inactive) && AllNear(inactive, now)
    && (inactive != [] && active != [] ==> Nanos(inactive[|inactive| - 1]) <= Nanos(active[0]))
  }

  /** Normalised, and within 2^30 seconds of now. */
  ghost predicate AllNear(times: seq<Time>, now: Time) {
    forall i | 0 <= i < |times| :: Normal(times[i]) && Within(times[i], now, 0x3FFF_FFFF)
  }

  lemma NearIsComparable(times: seq<Time>, e: Time, now: Time)
    requires AllNear(times, now) && Normal(e) && Within(e, now, 0x3FFF_FFFF)
    ensures Comparable(times, e)
  {
    forall i | 0 <= i < |times| ensures Orders(e, times[i]) {
      OrdersNear(e, times[i]);
    }
  }

  /** A time not before any other goes to the end of a queue. */
  lemma GoesLast(times: seq<Time>, e: Time, now: Time)
    requires Sorted(times) && AllNear(times, now) && Normal(e) && Within(e, now, 0x3FFF_FFFF)
    requires times != [] ==> Nanos(times[|times| - 1]) <= Nanos(e)
    ensures InsertAt(times, e) == |times| && Sorted(times + [e]) && AllNear(times + [e], now)
  {
    NearIsComparable(times, e, now);
    InsertKeepsExactly(times, e);
  }

  /** The first timer fires and comes back a step later, as the last. */
  lemma Rearm(active: seq<Time>, period: nat, now: Time)
    requires Regular(active, Added(period), now) && Normal(now)
    requires active != [] && Nanos(active[0]) <= Nanos(now)
    ensures var e := AddMs(active[0], period);
            && Nanos(e) == Nanos(active[0]) + Added(period)
            && InsertAt(active[1..], e) == |active| - 1
            && Regular(active[1..] + [e], Added(period), now)
            && forall inactive | Ready(active, inactive, now) :: Ready(active[1..] + [e], inactive, now)
  {
    var e := AddMs(active[0], period);
    AddMsAdds(active[0], period);
    assert Within(e, now, 0x3FFF_FFFF);
    GoesLast(active[1..], e, now);
    assert Nanos(active[0]) <= Nanos((active[1..] + [e])[0]);
  }

  /** The first timer fires for the only time and is retired. */
  lemma Retire(active: seq<Time>, inactive: seq<Time>, step: nat, now: Time)
    requires Regular(active, step, now) && Ready(active, inactive, now)
    requires active != []
    ensures InsertAt(inactive, active[0]) == |inactive|
    ensures Regular(active[1..], step, now) && Ready(active[1..], inactive + [active[0]], now)
  {
    GoesLast(inactive, active[0], now);
    if |active| > 1 { assert Nanos(active[0]) <= Nanos(active[1]); }
  }

  // ---- the linked timers ----

  class Timer {
    var next: Timer?
    var exp: Time
    const period: nat
    var fireCount: int

    /** CreateTimerQueueTimer, up to the insertion. */
    constructor (now: Time, dueTime: nat, period: nat)
      ensures next == null && exp == AddMs(now, dueTime) && this.period == period && fireCount == 0
    {
      this.period := period;
      exp := AddMs(now, dueTime);
      fireCount := 0;
      next := null;
    }
  }

  ghost predicate Link(s: seq<Timer>, i: nat)
    requires i < |s|
    reads s`next
  {
    s[i].next == if i + 1 < |s| then s[i + 1] else null
  }

  /** The timers reached from `head` are those of `s`, in that order. */
  ghost predicate Linked(head: Timer?, s: seq<Timer>)
    reads s`next
  {
    && Distinct(s)
    && head == (if s == [] then null else s[0])
    && forall i | 0 <= i < |s| :: Link(s, i)
  }

  ghost function Times(s: seq<Timer>): (times: seq<Time>)
    reads s`exp
    ensures |times| == |s|
  {
    if s == [] then [] else [s[0].exp] + Times(s[1..])
  }

  lemma {:induction false} TimesAt(s: seq<Timer>, i: nat)
    requires i < |s|
    ensures Times(s)[i] == s[i].exp
  {
    if i > 0 { TimesAt(s[1..], i - 1); }
  }

  lemma InsertedDistinct<T>(s: seq<T>, t: T, k: nat)
    requires Distinct(s) && t !in s && k <= |s|
    ensures Distinct(Inserted(s, t, k))
  {
    var now := Inserted(s, t, k);
    forall i, j | 0 <= i < j < |now| ensures Differ(now, i, j) {
      if i != k && j != k { assert Differ(s, i, j); }
    }
  }

  /** The end of InsertTimerQueueTimer: the timer takes the place of the node after s[i], or comes last. */
  method PlaceAfter(node: Timer, timer: Timer, ghost head: Timer?, ghost s: seq<Timer>, ghost i: nat)
    requires Linked(head, s) && timer !in s && i < |s| && node == s[i]
    modifies node`next, timer`next
    ensures Linked(head, Inserted(s, timer, i + 1))
  {
    ghost var now := Inserted(s, timer, i + 1);
    InsertedDistinct(s, timer, i + 1);
    OthersDiffer(s, i);
    assert Link(s, i);
    assert i + 1 < |s| ==> Link(s, i + 1);
    assert forall k | 0 <= k < |s| :: Link(s, k);
    if node.next != null {
      timer.next := node.next.next;
      node.next := timer;
    } else {
      node.next := timer;
      timer.next := null;
    }
    forall k | 0 <= k < |now| ensures Link(now, k) {
      if k != i && k != i + 1 {
        assert old(Link(s, k));
      }
    }
  }

  /** InsertTimerQueueTimer. */
  method InsertTimerQueueTimer(pHead: Timer?, timer: Timer, ghost s: seq<Timer>) returns (head: Timer, ghost now: seq<Timer>)
    requires Linked(pHead, s) && timer !in s
    modifies s`next, timer`next
    ensures Linked(head, now)
    ensures PutIn(s, old(Times(s)), timer, timer.exp, now)
    ensures now == Inserted(s, timer, InsertAt(old(Times(s)), timer.exp))
  {
    InsertedPutsIn(s, Times(s), timer, timer.exp);
    if pHead == null {
      timer.next := null;
      return timer, [timer];
    }
    head := pHead;
    var node: Timer := pHead;
    ghost var i, times, e := 0, Times(s), timer.exp;
    while node.next != null
      invariant i < |s| && node == s[i]
      invariant Scan(times, e, 0) == Scan(times, e, i)
      decreases |s| - i
      modifies {}
    {
      assert Link(s, i);
      TimesAt(s, i);
      TimesAt(s, i + 1);
      if Compare(timer.exp, node.exp) > 0 {
        if Compare(timer.exp, node.next.exp) < 0 {
          break;
        }
      }
      node := node.next;
      i := i + 1;
    }
    assert Link(s, i);
    assert InsertAt(times, e) == i + 1;
    now := Inserted(s, timer, i + 1);
    PlaceAfter(node, timer, head, s, i);
  }

  /** The end of RemoveTimerQueueTimer: s[i] is taken out from behind its predecessor. */
  method Unlink(prevNode: Timer, timer: Timer, ghost head: Timer?, ghost s: seq<Timer>, ghost i: nat)
    requires Linked(head, s) && 0 < i < |s| && prevNode == s[i - 1] && timer == s[i]
    modifies prevNode`next, timer`next
    ensures Linked(head, Without(s, i)) && timer.next == null
  {
    ghost var now := Without(s, i);
    WithoutDistinct(s, i);
    OthersDiffer(s, i);
    OthersDiffer(s, i - 1);
    assert Link(s, i);
    prevNode.next := timer.next;
    timer.next := null;
    forall k | 0 <= k < |now| ensures Link(now, k) {
      if k != i - 1 {
        assert old(Link(s, if k < i then k else k + 1));
      }
    }
  }

  /** The first timer of a list is taken off it. */
  method UnlinkFirst(timer: Timer, ghost s: seq<Timer>) returns (head: Timer?)
    requires s != [] && Linked(timer, s)
    modifies timer`next
    ensures Linked(head, s[1..]) && timer !in s[1..] && timer.next == null
  {
    WithoutDistinct(s, 0);
    assert Without(s, 0) == s[1..];
    assert Link(s, 0);
    head := timer.next;
    timer.next := null;
    ghost var now := s[1..];
    forall k | 0 <= k < |now| ensures Link(now, k) {
      assert old(Link(s, k + 1));
      OthersDiffer(s, 0);
    }
  }

  /** RemoveTimerQueueTimer. */
  method RemoveTimerQueueTimer(pHead: Timer?, timer: Timer, ghost s: seq<Timer>) returns (head: Timer?, ghost now: seq<Timer>)
    requires Linked(pHead, s)
    modifies s`next
    ensures Linked(head, now)
    ensures timer !in s ==> now == s
    ensures timer in s ==> timer.next == null && exists k | 0 <= k < |s| :: s[k] == timer && now == s[..k] + s[k + 1..]
  {
    head, now := pHead, s;
    if timer == pHead {
      head := UnlinkFirst(timer, s);
      now := Without(s, 0);
      assert now == s[1..];
      return;
    }
    var found, node, prevNode := false, pHead, null;
    ghost var i := 0;
    while node != null
      invariant i <= |s| && node == (if i < |s| then s[i] else null)
      invariant prevNode == (if i == 0 then null else s[i - 1])
      invariant timer !in s[..i] && !found
      decreases |s| - i
      modifies {}
    {
      if node == timer {
        found := true;
        break;
      }
      assert Link(s, i);
      prevNode := node;
      node := node.next;
      i := i + 1;
    }
    if found {
      now := Without(s, i);
      if prevNode != null {
        Unlink(prevNode, timer, head, s, i);
      }
    }
  }

  // ---- the queue as a value ----

  /** What there is to know about a timer in a queue. */
  datatype Entry = Entry(timer: Timer, period: nat, exp: Time, fires: int)

  datatype State = State(active: seq<Entry>, inactive: seq<Entry>)

  ghost function TimesOf(es: seq<Entry>): (times: seq<Time>)
    ensures |times| == |es| && forall i | 0 <= i < |es| :: times[i] == es[i].exp
  {
    if es == [] then [] else [es[0].exp] + TimesOf(es[1..])
  }

  ghost function InsertEntry(es: seq<Entry>, e: Entry): seq<Entry> {
    Inserted(es, e, InsertAt(TimesOf(es), e.exp))
  }

  /** One pass of the loop of FireExpiredTimerQueueTimers, on any queue. */
  ghost function FireOne(q: State): State
    requires q.active != []
  {
    var e := q.active[0].(fires := q.active[0].fires + 1);
    if e.period != 0
    then q.(active := InsertEntry(q.active[1..], e.(exp := AddMs(e.exp, e.period))))
    else State(q.active[1..], InsertEntry(q.inactive, e))
  }

  lemma FireOneIs(q: State, e: Entry, next: State)
    requires q.active != [] && e == q.active[0].(fires := q.active[0].fires + 1)
    requires e.period != 0 ==> next == State(InsertEntry(q.active[1..], e.(exp := AddMs(e.exp, e.period))), q.inactive)
    requires e.period == 0 ==> next == State(q.active[1..], InsertEntry(q.inactive, e))
    ensures next == FireOne(q)
  {
  }

  ghost predicate Expired(q: State, now: Time) {
    q.active != [] && Compare(now, q.active[0].exp) >= 0
  }

  // ---- when firing ends ----

  /** In 32 bits a period of this many milliseconds is no time at all. */
  const STUCK: nat := 0x400_0000

  /** 15625 is odd, so it has an inverse modulo 2^26. */
  lemma OddFactor(r: int, k: int)
    requires r * 15625 == k * STUCK
    ensures r == STUCK * (12738873 * k - 2966 * r)
  {
  }

  lemma MultipleIs(x: int, k: int, d: int)
    requires 0 < d && x == k * d
    ensures x % d == 0
  {
    DivideIs(x, d, k, 0);
  }

  lemma StuckIfNothingAdded(period: nat)
    requires Added(period) == 0
    ensures period % STUCK == 0
  {
    var k := period * MILLI / WORD;
    assert period * MILLI == k * WORD;
    OddFactor(period, k);
    MultipleIs(period, 12738873 * k - 2966 * period, STUCK);
  }

  lemma NothingAddedIfStuck(period: nat)
    requires period % STUCK == 0
    ensures Added(period) == 0
  {
    var k := period / STUCK;
    assert period == k * STUCK;
    MultipleIs(period * MILLI, k * 15625, WORD);
  }

  lemma StuckIs(period: nat)
    ensures Added(period) == 0 <==> period % STUCK == 0
  {
    if Added(period) == 0 { StuckIfNothingAdded(period); }
    if period % STUCK == 0 { NothingAddedIfStuck(period); }
  }

  /** A timer near the current time that moves on when it fires, or fires but once. */
  ghost predicate Fit(e: Entry, now: Time) {
    Normal(e.exp) && Within(e.exp, now, 0x3FFF_FFFF) && (e.period == 0 || e.period % STUCK != 0)
  }

  /** The condition under which firing ends: any order, any mix of periods, timers dropped or not. */
  ghost predicate Firable(q: State, now: Time) {
    Normal(now) && forall i | 0 <= i < |q.active| :: Fit(q.active[i], now)
  }

  /** How far a timer is behind the current time. */
  ghost function Behind(e: Entry, now: Time): nat {
    if Nanos(e.exp) > Nanos(now) then 0 else Nanos(now) - Nanos(e.exp) + 1
  }

  ghost function AllBehind(es: seq<Entry>, now: Time): nat {
    if es == [] then 0 else Behind(es[0], now) + AllBehind(es[1..], now)
  }

  lemma {:induction false} AllBehindConcat(a: seq<Entry>, b: seq<Entry>, now: Time)
    ensures AllBehind(a + b, now) == AllBehind(a, now) + AllBehind(b, now)
  {
    if a == [] {
      assert a + b == b;
    } else {
      AllBehindConcat(a[1..], b, now);
      assert (a + b)[1..] == a[1..] + b;
    }
  }

  lemma InsertedBehind(es: seq<Entry>, e: Entry, k: nat, now: Time)
    requires k <= |es|
    ensures AllBehind(Inserted(es, e, k), now) <= AllBehind(es, now) + Behind(e, now)
  {
    assert AllBehind([e], now) == Behind(e, now);
    if k < |es| {
      assert es == es[..k] + ([es[k]] + es[k + 1..]);
      AllBehindConcat(es[..k], [es[k]] + es[k + 1..], now);
      AllBehindConcat([es[k]], es[k + 1..], now);
      AllBehindConcat(es[..k] + [e], es[k + 1..], now);
      AllBehindConcat(es[..k], [e], now);
    } else {
      AllBehindConcat(es, [e], now);
    }
  }

  lemma FitExpired(q: State, now: Time)
    requires Normal(now) && q.active != [] && Normal(q.active[0].exp) && Within(q.active[0].exp, now, 0x3FFF_FFFF)
    ensures Expired(q, now) <==> Nanos(q.active[0].exp) <= Nanos(now)
  {
    OrdersNear(now, q.active[0].exp);
  }

  /** An expired timer that is put back moves on, and stays near. */
  lemma MovesOn(e: Entry, now: Time)
    requires Normal(now) && Fit(e, now) && e.period != 0 && Nanos(e.exp) <= Nanos(now)
    ensures forall fires: int ::
              var e' := e.(fires := fires, exp := AddMs(e.exp, e.period)); Fit(e', now) && Behind(e', now) < Behind(e, now)
  {
    StuckIs(e.period);
    AddMsAdds(e.exp, e.period);
  }

  /** Every pass keeps the condition and brings the queue nearer to the current time. */
  lemma PassGoesOn(q: State, now: Time)
    requires Firable(q, now) && Expired(q, now)
    ensures Firable(FireOne(q), now) && AllBehind(FireOne(q).active, now) < AllBehind(q.active, now)
  {
    var e, rest := q.active[0], q.active[1..];
    assert Fit(e, now);
    FitExpired(q, now);
    assert forall i | 0 <= i < |rest| :: rest[i] == q.active[i + 1];
    if e.period != 0 {
      MovesOn(e, now);
      var e' := e.(fires := e.fires + 1, exp := AddMs(e.exp, e.period));
      var k := InsertAt(TimesOf(rest), e'.exp);
      InsertedBehind(rest, e', k, now);
      var now' := Inserted(rest, e', k);
      forall i | 0 <= i < |now'| ensures Fit(now'[i], now) {
        assert now'[i] == e' || now'[i] == rest[i];
      }
    }
  }

  /** A callback: which timer, for which expiration time. */
  datatype Firing = Firing(timer: Timer, due: Time)

  datatype Run = Run(state: State, fired: seq<Firing>)

  /** All passes of the loop. */
  ghost function FireAll(q: State, now: Time): Run
    requires Firable(q, now)
    decreases AllBehind(q.active, now)
  {
    if !Expired(q, now) then Run(q, [])
    else
      PassGoesOn(q, now);
      var r := FireAll(FireOne(q), now);
      r.(fired := [Firing(q.active[0].timer, q.active[0].exp)] + r.fired)
  }

  /** A loop that has come to `q` with these callbacks made is on its way to `goal`. */
  ghost predicate Leads(goal: Run, q: State, fired: seq<Firing>, now: Time) {
    && Firable(q, now)
    && goal == Run(FireAll(q, now).state, fired + FireAll(q, now).fired)
  }

  lemma LeadsFromStart(q: State, now: Time)
    requires Firable(q, now)
    ensures Leads(FireAll(q, now), q, [], now)
  {
    assert [] + FireAll(q, now).fired == FireAll(q, now).fired;
  }

  lemma LeadsOn(goal: Run, q: State, fired: seq<Firing>, now: Time)
    requires Leads(goal, q, fired, now) && Expired(q, now)
    ensures Leads(goal, FireOne(q), fired + [Firing(q.active[0].timer, q.active[0].exp)], now)
    ensures AllBehind(FireOne(q).active, now) < AllBehind(q.active, now)
  {
    PassGoesOn(q, now);
    var f, rest := Firing(q.active[0].timer, q.active[0].exp), FireAll(FireOne(q), now).fired;
    assert fired + ([f] + rest) == (fired + [f]) + rest;
  }

  lemma LeadsToEnd(goal: Run, q: State, fired: seq<Firing>, now: Time)
    requires Leads(goal, q, fired, now) && !Expired(q, now)
    ensures goal == Run(q, fired)
  {
    assert fired + [] == fired;
  }

  /** The queue after n passes, or after fewer when the loop ends before. */
  ghost function Passes(q: State, now: Time, n: nat): State
    decreases n
  {
    if n == 0 || !Expired(q, now) then q else Passes(FireOne(q), now, n - 1)
  }

  ghost predicate Ends(q: State, now: Time) { exists n: nat :: !Expired(Passes(q, now, n), now) }

  /** One pass for every callback, and then the loop ends. */
  lemma {:induction false} FirableEnds(q: State, now: Time)
    requires Firable(q, now)
    ensures var r := FireAll(q, now); Passes(q, now, |r.fired|) == r.state && !Expired(r.state, now)
    ensures Ends(q, now)
    decreases AllBehind(q.active, now)
  {
    if Expired(q, now) {
      PassGoesOn(q, now);
      FirableEnds(FireOne(q), now);
    }
    assert !Expired(Passes(q, now, |FireAll(q, now).fired|), now);
  }

  /** An expired timer whose period is no time, or which has none. */
  ghost predicate Idles(e: Entry, now: Time) {
    Normal(e.exp) && Within(e.exp, now, 0x3FFF_FFFF) && Nanos(e.exp) <= Nanos(now) && e.period % STUCK == 0
  }

  /** Nothing but such timers, and one of them has a period. */
  ghost predicate Hangs(q: State, now: Time) {
    && Normal(now)
    && (forall i | 0 <= i < |q.active| :: Idles(q.active[i], now))
    && exists i | 0 <= i < |q.active| :: q.active[i].period != 0
  }

  lemma StuckStays(e: Entry)
    requires Normal(e.exp) && e.period % STUCK == 0
    ensures AddMs(e.exp, e.period) == e.exp
  {
    StuckIs(e.period);
  }

  lemma PassHangs(q: State, now: Time)
    requires Hangs(q, now)
    ensures Expired(q, now) && Hangs(FireOne(q), now)
  {
    var e, rest := q.active[0], q.active[1..];
    assert Idles(e, now);
    FitExpired(q, now);
    assert forall i | 0 <= i < |rest| :: rest[i] == q.active[i + 1];
    if e.period != 0 {
      StuckStays(e);
      var e' := e.(fires := e.fires + 1);
      var k := InsertAt(TimesOf(rest), e'.exp);
      var now' := Inserted(rest, e', k);
      assert FireOne(q).active == now';
      assert now'[k] == e';
      forall i | 0 <= i < |now'| ensures Idles(now'[i], now) {
        assert now'[i] == e' || now'[i] == rest[i];
      }
    } else {
      var j :| 0 <= j < |q.active| && q.active[j].period != 0;
      assert rest[j - 1].period != 0;
    }
  }

  /** Then callbacks are made without end. */
  lemma {:induction false} NeverEnds(q: State, now: Time, n: nat)
    requires Hangs(q, now)
    ensures Expired(Passes(q, now, n), now)
    decreases n
  {
    PassHangs(q, now);
    if n > 0 { NeverEnds(FireOne(q), now, n - 1); }
  }

  /** When all timers are due and share a period, firing ends exactly if that is no multiple of 67108864 ms, or never used. */
  lemma CommonPeriodEndsExactly(q: State, period: nat, now: Time)
    requires Normal(now)
    requires forall i | 0 <= i < |q.active| :: Idles(q.active[i].(period := 0), now) && q.active[i].period in {0, period}
    ensures Ends(q, now) <==> period % STUCK != 0 || forall i | 0 <= i < |q.active| :: q.active[i].period == 0
  {
    if period % STUCK != 0 || forall i | 0 <= i < |q.active| :: q.active[i].period == 0 {
      forall i | 0 <= i < |q.active| ensures Fit(q.active[i], now) {
        assert Idles(q.active[i].(period := 0), now);
      }
      FirableEnds(q, now);
    } else {
      forall i | 0 <= i < |q.active| ensures Idles(q.active[i], now) {
        assert Idles(q.active[i].(period := 0), now);
      }
      forall n: nat ensures Expired(Passes(q, now, n), now) {
        NeverEnds(q, now, n);
      }
    }
  }

  /** With one timer firing ends exactly if it is not due, has no period, or one that is no multiple of 67108864 ms. */
  lemma OneTimerEndsExactly(e: Entry, inactive: seq<Entry>, now: Time)
    requires Normal(now) && Normal(e.exp) && Within(e.exp, now, 0x3FFF_FFFF)
    ensures Ends(State([e], inactive), now) <==> Nanos(e.exp) > Nanos(now) || e.period == 0 || e.period % STUCK != 0
  {
    var q := State([e], inactive);
    if Nanos(e.exp) > Nanos(now) {
      FitExpired(q, now);
      assert !Expired(Passes(q, now, 0), now);
    } else {
      assert Idles(q.active[0].(period := 0), now);
      CommonPeriodEndsExactly(q, e.period, now);
      assert q.active[0].period == e.period;
    }
  }

  /** One such timer: its every pass leaves the queue as it was, but for the count. */
  lemma StuckTimer(timer: Timer, now: Time, fires: int)
    requires Normal(now)
    ensures var e := Entry(timer, STUCK, now, fires);
            && FireOne(State([e], [])) == State([e.(fires := fires + 1)], [])
            && !Ends(State([e], []), now)
  {
    var e := Entry(timer, STUCK, now, fires);
    StuckStays(e);
    OneTimerEndsExactly(e, [], now);
  }

  // ---- timers that do not move on, with others pending ----

  ghost predicate StillAt(es: seq<Entry>, i: nat, now: Time)
    requires i < |es|
  {
    Normal(es[i].exp) && Within(es[i].exp, now, 0x3FFF_FFFF) && es[i].period % STUCK == 0
  }

  ghost predicate NotAfter(es: seq<Entry>, i: nat, exp: Time)
    requires i < |es|
  {
    Nanos(es[i].exp) <= Nanos(exp)
  }

  ghost predicate OrderedAt(es: seq<Entry>, i: nat, j: nat)
    requires i < |es| && j < |es|
  {
    NotAfter(es, i, es[j].exp)
  }

  /** Near timers in order of expiration, none of which moves on when it fires. */
  ghost predicate Still(es: seq<Entry>, now: Time) {
    && (forall i | 0 <= i < |es| :: StillAt(es, i, now))
    && forall i, j | 0 <= i < j < |es| :: OrderedAt(es, i, j)
  }

  /** Those still in their places, the last of them pending, and those that have been fired and put behind them. */
  ghost predicate Winding(rest: seq<Entry>, done: seq<Entry>, now: Time) {
    && Normal(now) && Still(rest, now) && Still(done, now)
    && rest != [] && Nanos(rest[|rest| - 1].exp) > Nanos(now)
    && forall j | 0 <= j < |done| :: NotAfter(done, j, rest[0].exp)
  }

  lemma WindingIsNear(rest: seq<Entry>, done: seq<Entry>, now: Time, i: nat)
    requires Winding(rest, done, now) && i < |rest + done|
    ensures StillAt(rest + done, i, now)
  {
    if i < |rest| { assert StillAt(rest, i, now); } else { assert StillAt(done, i - |rest|, now); }
  }

  /** No two neighbours have such a time between them. */
  lemma NoGap(rest: seq<Entry>, done: seq<Entry>, e: Time, now: Time, k: nat)
    requires Winding(rest, done, now) && Nanos(e) <= Nanos(rest[0].exp)
    requires forall j | 0 <= j < |done| :: NotAfter(done, j, e)
    requires 0 < k < |rest + done|
    ensures !(Nanos((rest + done)[k - 1].exp) < Nanos(e) < Nanos((rest + done)[k].exp))
  {
    if k > |rest| {
      assert NotAfter(done, k - |rest|, e);
    } else if k == |rest| {
      assert NotAfter(done, 0, e);
    } else if k > 1 {
      assert OrderedAt(rest, 0, k - 1);
    }
  }

  /** A timer that has not moved on goes behind all the others. */
  lemma GoesBehind(rest: seq<Entry>, done: seq<Entry>, e: Entry, now: Time)
    requires Winding(rest, done, now) && Normal(e.exp) && Within(e.exp, now, 0x3FFF_FFFF)
    requires Nanos(e.exp) <= Nanos(rest[0].exp) && forall j | 0 <= j < |done| :: NotAfter(done, j, e.exp)
    ensures InsertEntry(rest + done, e) == rest + done + [e]
  {
    var es := rest + done;
    var times := TimesOf(es);
    forall i | 0 <= i < |times| ensures Orders(e.exp, times[i]) {
      WindingIsNear(rest, done, now, i);
      OrdersNear(e.exp, times[i]);
    }
    forall k | 0 < k < |times| ensures !(Nanos(times[k - 1]) < Nanos(e.exp) < Nanos(times[k])) {
      NoGap(rest, done, e.exp, now, k);
    }
    ScanIs(times, e.exp, 0);
  }

  lemma WindingTail(rest: seq<Entry>, done: seq<Entry>, now: Time)
    requires Winding(rest, done, now) && Nanos(rest[0].exp) <= Nanos(now)
    ensures |rest| > 1 && Nanos(rest[0].exp) <= Nanos(rest[1].exp) && Winding(rest[1..], done, now)
  {
    assert OrderedAt(rest, 0, 1);
    var rest' := rest[1..];
    forall i | 0 <= i < |rest'| ensures StillAt(rest', i, now) { assert StillAt(rest, i + 1, now); }
    forall i, j | 0 <= i < j < |rest'| ensures OrderedAt(rest', i, j) { assert OrderedAt(rest, i + 1, j + 1); }
    forall j | 0 <= j < |done| ensures NotAfter(done, j, rest'[0].exp) { assert NotAfter(done, j, rest[0].exp); }
  }

  lemma WindingJoins(rest: seq<Entry>, done: seq<Entry>, e: Entry, now: Time)
    requires Winding(rest, done, now) && Normal(e.exp) && Within(e.exp, now, 0x3FFF_FFFF) && e.period % STUCK == 0
    requires Nanos(e.exp) <= Nanos(rest[0].exp) && forall j | 0 <= j < |done| :: NotAfter(done, j, e.exp)
    ensures Winding(rest, done + [e], now)
  {
    var done' := done + [e];
    forall i | 0 <= i < |done'| ensures StillAt(done', i, now) { if i < |done| { assert StillAt(done, i, now); } }
    forall i, j | 0 <= i < j < |done'| ensures OrderedAt(done', i, j) {
      if j < |done| { assert OrderedAt(done, i, j); } else { assert NotAfter(done, i, e.exp); }
    }
    forall j | 0 <= j < |done'| ensures NotAfter(done', j, rest[0].exp) { if j < |done| { assert NotAfter(done, j, e.exp); } }
  }

  lemma FireOneRest(q: State, rest: seq<Entry>, done: seq<Entry>, e: Entry)
    requires rest != [] && q.active == rest + done && e == rest[0].(fires := rest[0].fires + 1)
    requires e.period != 0 ==> AddMs(e.exp, e.period) == e.exp
    ensures FireOne(q).active == if e.period == 0 then rest[1..] + done else InsertEntry(rest[1..] + done, e)
  {
    assert q.active[0] == rest[0] && q.active[1..] == rest[1..] + done;
  }

  /** A pass puts the first timer behind the others, or retires it. */
  lemma PassWinds(q: State, rest: seq<Entry>, done: seq<Entry>, now: Time) returns (done': seq<Entry>)
    requires Winding(rest, done, now) && q.active == rest + done && Nanos(rest[0].exp) <= Nanos(now)
    ensures Winding(rest[1..], done', now) && FireOne(q).active == rest[1..] + done'
  {
    var e := rest[0].(fires := rest[0].fires + 1);
    assert StillAt(rest, 0, now);
    StuckStays(e);
    FireOneRest(q, rest, done, e);
    WindingTail(rest, done, now);
    if e.period == 0 {
      done' := done;
    } else {
      forall j | 0 <= j < |done| ensures NotAfter(done, j, e.exp) { assert NotAfter(done, j, rest[0].exp); }
      GoesBehind(rest[1..], done, e, now);
      WindingJoins(rest[1..], done, e, now);
      done' := done + [e];
      assert rest[1..] + done + [e] == rest[1..] + done';
    }
  }

  lemma WindingStops(q: State, rest: seq<Entry>, done: seq<Entry>, now: Time)
    requires Winding(rest, done, now) && q.active == rest + done
    ensures q.active != [] && (Expired(q, now) <==> Nanos(rest[0].exp) <= Nanos(now))
  {
    assert q.active[0] == rest[0] && StillAt(rest, 0, now);
    FitExpired(q, now);
  }

  lemma PassesEnd(q: State, now: Time, n: nat)
    requires q.active != [] && !Expired(Passes(FireOne(q), now, n), now)
    ensures !Expired(Passes(q, now, n + 1), now)
  {
  }

  /** So the loop comes to the pending timer and ends. */
  lemma {:induction false} WindingEnds(q: State, rest: seq<Entry>, done: seq<Entry>, now: Time) returns (n: nat)
    requires Winding(rest, done, now) && q.active == rest + done
    ensures !Expired(Passes(q, now, n), now)
    decreases |rest|
  {
    WindingStops(q, rest, done, now);
    if Nanos(rest[0].exp) > Nanos(now) {
      n := 0;
    } else {
      var done' := PassWinds(q, rest, done, now);
      var m := WindingEnds(FireOne(q), rest[1..], done', now);
      PassesEnd(q, now, m);
      n := m + 1;
    }
  }

  ghost predicate InTime(q: State, now: Time) {
    forall i | 0 <= i < |q.active| :: Normal(q.active[i].exp) && Within(q.active[i].exp, now, 0x3FFF_FFFF)
  }

  ghost predicate Pending(q: State, now: Time) {
    exists i | 0 <= i < |q.active| :: Nanos(q.active[i].exp) > Nanos(now)
  }

  ghost predicate OnlySingleShots(q: State) { forall i | 0 <= i < |q.active| :: q.active[i].period == 0 }

  lemma MovingEnds(q: State, now: Time)
    requires Normal(now) && InTime(q, now)
    requires forall i | 0 <= i < |q.active| :: q.active[i].period == 0 || q.active[i].period % STUCK != 0
    ensures Ends(q, now)
  {
    forall i | 0 <= i < |q.active| ensures Fit(q.active[i], now) {
    }
    FirableEnds(q, now);
  }

  lemma SortedPendingEnds(q: State, now: Time)
    requires Normal(now) && InTime(q, now) && Sorted(TimesOf(q.active)) && Pending(q, now)
    requires forall i | 0 <= i < |q.active| :: q.active[i].period % STUCK == 0
    ensures Ends(q, now)
  {
    var es, times := q.active, TimesOf(q.active);
    forall i | 0 <= i < |es| ensures StillAt(es, i, now) {}
    forall i, j | 0 <= i < j < |es| ensures OrderedAt(es, i, j) {
      assert Nanos(times[i]) <= Nanos(times[j]);
    }
    var i :| 0 <= i < |es| && Nanos(es[i].exp) > Nanos(now);
    assert i < |es| - 1 ==> OrderedAt(es, i, |es| - 1);
    assert es + [] == es;
    var n := WindingEnds(q, es, [], now);
  }

  /**
    A sorted queue with a common period: firing ends exactly if the period moves timers on, or no timer has
    it, or some timer is pending. In the last case timers that do not move on end up behind the pending ones.
   */
  lemma SortedQueueEndsExactly(q: State, period: nat, now: Time)
    requires Normal(now) && InTime(q, now) && Sorted(TimesOf(q.active))
    requires forall i | 0 <= i < |q.active| :: q.active[i].period in {0, period}
    ensures Ends(q, now) <==> period % STUCK != 0 || OnlySingleShots(q) || Pending(q, now)
  {
    if period % STUCK != 0 || OnlySingleShots(q) {
      MovingEnds(q, now);
    } else if Pending(q, now) {
      SortedPendingEnds(q, now);
    } else {
      CommonPeriodEndsExactly(q, period, now);
    }
  }

  /** With another timer pending, a timer that does not move on is called once and put behind it, out of order. */
  lemma StuckBehindPending(t: Timer, u: Timer, now: Time)
    requires Normal(now)
    ensures var stuck, later := Entry(t, STUCK, now, 0), Entry(u, STUCK, Time(now.sec + 10, now.nsec), 0);
            var q := State([stuck, later], []);
            && FireOne(q) == State([later, stuck.(fires := 1)], [])
            && Expired(q, now) && !Expired(FireOne(q), now) && Ends(q, now)
            && !Sorted(TimesOf(FireOne(q).active))
  {
    var stuck, later := Entry(t, STUCK, now, 0), Entry(u, STUCK, Time(now.sec + 10, now.nsec), 0);
    var q := State([stuck, later], []);
    StuckStays(stuck);
    FitExpired(q, now);
    assert q.active[1..] == [later];
    assert FireOne(q) == State([later, stuck.(fires := 1)], []);
    FitExpired(FireOne(q), now);
    assert !Expired(Passes(q, now, 1), now);
    assert TimesOf(FireOne(q).active) == [later.exp, stuck.exp];
    assert Nanos([later.exp, stuck.exp][0]) > Nanos([later.exp, stuck.exp][1]);
  }

  lemma FireThree(a: Entry, b: Entry, c: Entry)
    requires a.exp == Time(0, 0) && b.exp == Time(1, 0) && c.exp == Time(2, 0)
    requires a.period == c.period == STUCK && b.period == 4000
    ensures var a', b', c' := a.(fires := a.fires + 1), b.(fires := b.fires + 1, exp := Time(5, 0)), c.(fires := c.fires + 1);
            && FireOne(State([a, b, c], [])) == State([b, c, a'], [])
            && FireOne(State([b, c, a'], [])) == State([c, a', b'], [])
            && FireOne(State([c, a', b'], [])) == State([a', c'], [])
  {
    StuckStays(a);
    StuckStays(c);
    var a', b' := a.(fires := a.fires + 1), b.(fires := b.fires + 1, exp := Time(5, 0));
    assert AddMs(Time(1, 0), 4000) == Time(5, 0);
    assert [a, b, c][1..] == [b, c] && [b, c, a'][1..] == [c, a'] && [c, a', b'][1..] == [a', b'];
    assert TimesOf([b, c]) == [b.exp, c.exp] && TimesOf([c, a']) == [c.exp, a'.exp] && TimesOf([a', b']) == [a'.exp, b'.exp];
  }

  lemma PassesOn(q: State, next: State, now: Time, n: nat)
    requires Expired(q, now) && FireOne(q) == next && (n > 0 ==> Expired(Passes(next, now, n - 1), now))
    ensures Expired(Passes(q, now, n), now)
  {
  }

  lemma TwoHang(a: Entry, c: Entry, now: Time, n: nat)
    requires Normal(now) && Idles(a, now) && Idles(c, now) && a.period != 0
    ensures Expired(Passes(State([a, c], []), now, n), now)
  {
    var q := State([a, c], []);
    assert q.active[0].period != 0;
    NeverEnds(q, now, n);
  }

  lemma ThreePasses(q0: State, q1: State, q2: State, q3: State, now: Time, n: nat)
    requires q0.active != [] && q1.active != [] && q2.active != []
    requires q1 == FireOne(q0) && q2 == FireOne(q1) && q3 == FireOne(q2)
    requires Expired(q0, now) && Expired(q1, now) && Expired(q2, now)
    requires forall k: nat :: Expired(Passes(q3, now, k), now)
    ensures Expired(Passes(q0, now, n), now)
  {
    if n >= 2 { PassesOn(q2, q3, now, n - 2); }
    if n >= 1 { PassesOn(q1, q2, now, n - 1); }
    PassesOn(q0, q1, now, n);
  }

  /** A timer that moves on does not help if it is dropped: three timers, in order and due, that are fired without end. */
  lemma MixedQueueCanHang(t: Timer, u: Timer, v: Timer, n: nat)
    ensures var q := State([Entry(t, STUCK, Time(0, 0), 0), Entry(u, 4000, Time(1, 0), 0), Entry(v, STUCK, Time(2, 0), 0)], []);
            Expired(Passes(q, Time(3, 0), n), Time(3, 0))
  {
    var now := Time(3, 0);
    var a, b, c := Entry(t, STUCK, Time(0, 0), 0), Entry(u, 4000, Time(1, 0), 0), Entry(v, STUCK, Time(2, 0), 0);
    var a', b', c' := a.(fires := 1), b.(fires := 1, exp := Time(5, 0)), c.(fires := 1);
    FireThree(a, b, c);
    forall k: nat ensures Expired(Passes(State([a', c'], []), now, k), now) {
      TwoHang(a', c', now, k);
    }
    ThreePasses(State([a, b, c], []), State([b, c, a'], []), State([c, a', b'], []), State([a', c'], []), now, n);
  }

  // ---- regular queues ----

  ghost predicate HasSingleShot(es: seq<Entry>) { exists i | 0 <= i < |es| :: es[i].period == 0 }

  /**
    A common period that moves timers on, or none, and a sorted active list that spans no more than one step.
    The inactive list matters only when a single shot may join it.
   */
  ghost predicate RegularQueue(q: State, period: nat, now: Time) {
    && 0 < Added(period) && Firable(q, now)
    && (forall i | 0 <= i < |q.active| :: q.active[i].period in {0, period})
    && Regular(TimesOf(q.active), Added(period), now)
    && (HasSingleShot(q.active) ==> Ready(TimesOf(q.active), TimesOf(q.inactive), now))
  }

  ghost function Due(e: Entry, now: Time): nat { Firings(Nanos(e.exp), Added(e.period), Nanos(now)) }

  ghost function StillDue(es: seq<Entry>, now: Time): nat {
    if es == [] then 0 else Due(es[0], now) + StillDue(es[1..], now)
  }

  lemma {:induction false} StillDueAppend(es: seq<Entry>, e: Entry, now: Time)
    ensures StillDue(es + [e], now) == StillDue(es, now) + Due(e, now)
  {
    if es == [] {
      assert es + [e] == [e];
    } else {
      StillDueAppend(es[1..], e, now);
      assert (es + [e])[1..] == es[1..] + [e];
    }
  }

  /** The comparison with the current time is right in a regular queue. */
  lemma ExpiredIs(q: State, period: nat, now: Time)
    requires RegularQueue(q, period, now)
    ensures Expired(q, now) <==> q.active != [] && Nanos(q.active[0].exp) <= Nanos(now)
  {
    if q.active != [] { OrdersNear(now, TimesOf(q.active)[0]); }
  }

  lemma FirstIsExpired(q: State, period: nat, now: Time)
    requires RegularQueue(q, period, now) && Expired(q, now)
    ensures Normal(q.active[0].exp) && Nanos(q.active[0].exp) <= Nanos(now) && q.active[0].period in {0, period}
  {
    ExpiredIs(q, period, now);
    assert TimesOf(q.active)[0] == q.active[0].exp;
  }

  lemma TimesOfTail(es: seq<Entry>, e: Entry)
    ensures es != [] ==> TimesOf(es[1..]) == TimesOf(es)[1..]
    ensures TimesOf(es + [e]) == TimesOf(es) + [e.exp]
  {
  }

  lemma OnceIsDue(e: Entry, now: Time)
    requires Nanos(e.exp) <= Nanos(now)
    ensures e.period == 0 ==> Due(e, now) == 1
    ensures forall e': Entry | 0 < Added(e.period) && e'.period == e.period && Nanos(e'.exp) == Nanos(e.exp) + Added(e.period) ::
              Due(e, now) == 1 + Due(e', now)
  {
    if 0 < Added(e.period) { FiringsStep(Nanos(e.exp), Added(e.period), Nanos(now)); }
  }

  lemma RetiredIsRegular(q: State, e: Entry, period: nat, now: Time)
    requires RegularQueue(q, period, now) && q.active != [] && e.exp == q.active[0].exp && q.active[0].period == 0
    ensures InsertEntry(q.inactive, e) == q.inactive + [e]
    ensures RegularQueue(State(q.active[1..], q.inactive + [e]), period, now)
  {
    assert HasSingleShot(q.active);
    Retire(TimesOf(q.active), TimesOf(q.inactive), Added(period), now);
    TimesOfTail(q.active, e);
    TimesOfTail(q.inactive, e);
  }

  lemma RearmedIsFirable(q: State, e: Entry, now: Time)
    requires Firable(q, now) && q.active != [] && Nanos(q.active[0].exp) <= Nanos(now) && q.active[0].period != 0
    requires e == q.active[0].(fires := q.active[0].fires + 1, exp := AddMs(q.active[0].exp, q.active[0].period))
    ensures Firable(State(q.active[1..] + [e], q.inactive), now)
  {
    assert Fit(q.active[0], now);
    MovesOn(q.active[0], now);
    var es := q.active[1..] + [e];
    assert forall i | 0 <= i < |es| :: es[i] == if i + 1 < |q.active| then q.active[i + 1] else e;
  }

  lemma RearmedIsRegular(q: State, e: Entry, period: nat, now: Time)
    requires RegularQueue(q, period, now) && q.active != [] && Nanos(q.active[0].exp) <= Nanos(now)
    requires q.active[0].period != 0
    requires e == q.active[0].(fires := q.active[0].fires + 1, exp := AddMs(q.active[0].exp, period))
    ensures InsertEntry(q.active[1..], e) == q.active[1..] + [e]
    ensures RegularQueue(State(q.active[1..] + [e], q.inactive), period, now)
    ensures Nanos(e.exp) == Nanos(q.active[0].exp) + Added(period)
  {
    Rearm(TimesOf(q.active), period, now);
    TimesOfTail(q.active, e);
    TimesOfTail(q.active[1..], e);
    RearmedIsFirable(q, e, now);
    var es := q.active[1..] + [e];
    assert forall i | 0 <= i < |es| :: es[i] == if i + 1 < |q.active| then q.active[i + 1] else e;
    if HasSingleShot(es) {
      var i :| 0 <= i < |es| && es[i].period == 0;
      assert q.active[i + 1].period == 0;
    }
  }

  /** The pass for a timer without a period. */
  lemma PassRetires(q: State, period: nat, now: Time)
    requires RegularQueue(q, period, now) && Expired(q, now) && q.active[0].period == 0
    ensures var e := q.active[0].(fires := q.active[0].fires + 1);
            FireOne(q) == State(q.active[1..], q.inactive + [e]) && RegularQueue(FireOne(q), period, now)
  {
    RetiredIsRegular(q, q.active[0].(fires := q.active[0].fires + 1), period, now);
  }

  /** The pass for a timer with the common period. */
  lemma PassRearms(q: State, period: nat, now: Time)
    requires RegularQueue(q, period, now) && Expired(q, now) && q.active[0].period != 0
    ensures var e := q.active[0].(fires := q.active[0].fires + 1, exp := AddMs(q.active[0].exp, period));
            FireOne(q) == State(q.active[1..] + [e], q.inactive) && RegularQueue(FireOne(q), period, now)
    ensures Nanos(AddMs(q.active[0].exp, period)) == Nanos(q.active[0].exp) + Added(period)
  {
    ExpiredIs(q, period, now);
    var e := q.active[0].(fires := q.active[0].fires + 1, exp := AddMs(q.active[0].exp, period));
    RearmedIsRegular(q, e, period, now);
  }

  /** What a pass does in a regular queue: no timer is lost, the queue stays regular and one firing is used up. */
  lemma PassKeepsRegular(q: State, period: nat, now: Time)
    requires RegularQueue(q, period, now) && Expired(q, now)
    ensures RegularQueue(FireOne(q), period, now)
    ensures StillDue(FireOne(q).active, now) + 1 == StillDue(q.active, now)
  {
    ExpiredIs(q, period, now);
    OnceIsDue(q.active[0], now);
    if q.active[0].period == 0 {
      PassRetires(q, period, now);
    } else {
      PassRearms(q, period, now);
      StillDueAppend(q.active[1..], q.active[0].(fires := q.active[0].fires + 1, exp := AddMs(q.active[0].exp, period)), now);
    }
  }

  // ---- what firing does to a regular queue ----

  /** A time some nanoseconds later. */
  function Later(t: Time, nanos: nat): Time {
    var x := Nanos(t) + nanos;
    Time(x / NANOS, x % NANOS)
  }

  lemma LaterIs(t: Time, nanos: nat, u: Time)
    requires Normal(u) && Nanos(u) == Nanos(t) + nanos
    ensures Later(t, nanos) == u
  {
  }

  /** A timer after all its firings that are due by now: counted exactly and moved on by as many steps. */
  ghost function After(e: Entry, now: Time): Entry {
    var n := Due(e, now);
    e.(fires := e.fires + n, exp := if n == 0 then e.exp else Later(e.exp, n * Added(e.period)))
  }

  ghost function AllAfter(es: seq<Entry>, now: Time): seq<Entry> {
    if es == [] then [] else [After(es[0], now)] + AllAfter(es[1..], now)
  }

  lemma {:induction false} AllAfterAppend(es: seq<Entry>, e: Entry, now: Time)
    ensures AllAfter(es + [e], now) == AllAfter(es, now) + [After(e, now)]
  {
    if es == [] {
      assert es + [e] == [e];
    } else {
      AllAfterAppend(es[1..], e, now);
      assert (es + [e])[1..] == es[1..] + [e];
    }
  }

  lemma LaterOnce(t: Time, u: Time, n: nat, step: nat)
    requires Normal(u) && Nanos(u) == Nanos(t) + step
    ensures Later(t, (n + 1) * step) == if n == 0 then u else Later(u, n * step)
  {
    assert (n + 1) * step == n * step + step;
    if n == 0 { LaterIs(t, step, u); }
  }

  /** Firing once and moving on a step changes nothing about where a timer ends up. */
  lemma AfterOnce(e: Entry, e': Entry, now: Time)
    requires Normal(e.exp) && Nanos(e.exp) <= Nanos(now)
    requires e'.timer == e.timer && e'.period == e.period && e'.fires == e.fires + 1
    requires if e.period == 0 then e'.exp == e.exp
             else 0 < Added(e.period) && Normal(e'.exp) && Nanos(e'.exp) == Nanos(e.exp) + Added(e.period)
    ensures After(e, now) == if e.period == 0 then e' else After(e', now)
  {
    OnceIsDue(e, now);
    if e.period == 0 {
      LaterIs(e.exp, 0, e.exp);
    } else {
      LaterOnce(e.exp, e'.exp, Due(e', now), Added(e.period));
    }
  }

  lemma AfterRearmed(e: Entry, now: Time)
    requires Normal(e.exp) && Nanos(e.exp) <= Nanos(now) && 0 < Added(e.period)
    ensures After(e, now) == After(e.(fires := e.fires + 1, exp := AddMs(e.exp, e.period)), now)
  {
    AddMsAdds(e.exp, e.period);
    AfterOnce(e, e.(fires := e.fires + 1, exp := AddMs(e.exp, e.period)), now);
  }

  lemma {:induction false} NothingDue(es: seq<Entry>, now: Time)
    requires forall i | 0 <= i < |es| :: Nanos(es[i].exp) > Nanos(now)
    ensures AllAfter(es, now) == es
  {
    if es != [] { NothingDue(es[1..], now); }
  }

  /** All timers after their firings, the inactive ones included. */
  ghost function Final(q: State, now: Time): multiset<Entry> {
    multiset(AllAfter(q.active, now)) + multiset(q.inactive)
  }

  lemma FinalIfRetired(q: State, e: Entry, now: Time)
    requires q.active != [] && After(q.active[0], now) == e
    ensures Final(State(q.active[1..], q.inactive + [e]), now) == Final(q, now)
  {
    assert AllAfter(q.active, now) == [e] + AllAfter(q.active[1..], now);
  }

  lemma FinalIfRearmed(q: State, e: Entry, now: Time)
    requires q.active != [] && After(q.active[0], now) == After(e, now)
    ensures Final(State(q.active[1..] + [e], q.inactive), now) == Final(q, now)
  {
    AllAfterAppend(q.active[1..], e, now);
    assert AllAfter(q.active, now) == [After(e, now)] + AllAfter(q.active[1..], now);
  }

  lemma RetiringKeepsFinal(q: State, e: Entry, next: State, now: Time)
    requires q.active != [] && Normal(q.active[0].exp) && Nanos(q.active[0].exp) <= Nanos(now) && q.active[0].period == 0
    requires e == q.active[0].(fires := q.active[0].fires + 1)
    requires next == State(q.active[1..], q.inactive + [e])
    ensures Final(next, now) == Final(q, now) && q.inactive <= next.inactive
  {
    AfterOnce(q.active[0], e, now);
    FinalIfRetired(q, e, now);
  }

  lemma RearmingKeepsFinal(q: State, e: Entry, next: State, now: Time)
    requires q.active != [] && Normal(q.active[0].exp) && Nanos(q.active[0].exp) <= Nanos(now)
    requires q.active[0].period != 0 && 0 < Added(q.active[0].period)
    requires e == q.active[0].(fires := q.active[0].fires + 1, exp := AddMs(q.active[0].exp, q.active[0].period))
    requires next == State(q.active[1..] + [e], q.inactive)
    ensures Final(next, now) == Final(q, now) && q.inactive <= next.inactive
  {
    AfterRearmed(q.active[0], now);
    FinalIfRearmed(q, e, now);
  }

  /** A pass leaves every timer on its way to the same end. */
  lemma PassKeepsFinal(q: State, period: nat, now: Time)
    requires RegularQueue(q, period, now) && Expired(q, now)
    ensures Final(FireOne(q), now) == Final(q, now) && q.inactive <= FireOne(q).inactive
  {
    FirstIsExpired(q, period, now);
    var e := q.active[0].(fires := q.active[0].fires + 1);
    if e.period == 0 {
      PassRetires(q, period, now);
      RetiringKeepsFinal(q, e, FireOne(q), now);
    } else {
      PassRearms(q, period, now);
      RearmingKeepsFinal(q, e.(exp := AddMs(e.exp, period)), FireOne(q), now);
    }
  }

  /**
    FireExpiredTimerQueueTimers: in a regular queue every timer ends up fired floor((now-exp)/step)+1
    times if it was due and not at all otherwise, no timer is lost, nothing is due any more, and the queue
    is still regular. The step is the period for up to 4294 ms (AfterIsPromised), and shorter beyond (FiresTooOften).
   */
  lemma {:induction false} FiringOutcome(q: State, period: nat, now: Time)
    requires RegularQueue(q, period, now)
    ensures var r := FireAll(q, now).state;
            && RegularQueue(r, period, now) && !Expired(r, now)
            && multiset(r.active) + multiset(r.inactive) == multiset(AllAfter(q.active, now)) + multiset(q.inactive)
            && q.inactive <= r.inactive
    decreases StillDue(q.active, now)
  {
    if Expired(q, now) {
      PassKeepsRegular(q, period, now);
      PassKeepsFinal(q, period, now);
      FiringOutcome(FireOne(q), period, now);
    } else {
      ExpiredIs(q, period, now);
      var times := TimesOf(q.active);
      forall i | 0 <= i < |q.active| ensures Nanos(q.active[i].exp) > Nanos(now) {
        if i > 0 { assert Nanos(times[0]) <= Nanos(times[i]); }
      }
      NothingDue(q.active, now);
    }
  }

  /** What the period promises: a timer counted once a period and moved on by as many periods. */
  ghost function Promised(e: Entry, now: Time): Entry {
    var n := Firings(Nanos(e.exp), e.period * MILLI, Nanos(now));
    e.(fires := e.fires + n, exp := if n == 0 then e.exp else Later(e.exp, n * (e.period * MILLI)))
  }

  /** For up to 4294 ms that is what happens. */
  lemma AfterIsPromised(e: Entry, now: Time)
    requires e.period <= 4294
    ensures After(e, now) == Promised(e, now)
  {
    AddedIs(e.period);
  }

  lemma DivideByLess(x: int, p: int, q: int)
    requires 0 <= x && 0 < p <= q
    ensures x / q <= x / p
  {
    var a, b := x / q, x / p;
    assert x == a * q + x % q && x == b * p + x % p;
    if a > b {
      assert a * q == b * q + (a - b) * q;
      TimesAtLeast(a - b, q);
      TimesNotLess(b, p, q);
    }
  }

  lemma TimesNotLess(k: int, p: int, q: int)
    requires 0 <= k && p <= q
    ensures k * p <= k * q
  {
  }

  /** For a longer period that moves timers on there are never fewer firings, and soon more than one in a period. */
  lemma FiresTooOften(e: Entry, now: Time)
    requires e.period > 4294 && e.period % STUCK != 0
    ensures Due(e, now) >= Firings(Nanos(e.exp), e.period * MILLI, Nanos(now))
    ensures Nanos(e.exp) + Added(e.period) <= Nanos(now) < Nanos(e.exp) + e.period * MILLI ==>
              Due(e, now) >= 2 && Firings(Nanos(e.exp), e.period * MILLI, Nanos(now)) == 1
  {
    AddedIs(e.period);
    StuckIs(e.period);
    var x, p, q := Nanos(now) - Nanos(e.exp), Added(e.period), e.period * MILLI;
    if 0 <= x {
      DivideByLess(x, p, q);
      if p <= x < q {
        DivideIs(x, q, 0, x);
        DivideStep(x - p, p);
      }
    }
  }

  ghost predicate InOrder(fired: seq<Firing>, from: int, to: int) {
    && (forall i | 0 <= i < |fired| :: from <= Nanos(fired[i].due) <= to)
    && (forall i, j | 0 <= i < j < |fired| :: Nanos(fired[i].due) <= Nanos(fired[j].due))
  }

  lemma InOrderCons(f: Firing, rest: seq<Firing>, from: int, to: int)
    requires Nanos(f.due) <= from && Nanos(f.due) <= to && InOrder(rest, from, to)
    ensures InOrder([f] + rest, Nanos(f.due), to)
  {
  }

  lemma HeadMovesOn(q: State, period: nat, now: Time)
    requires RegularQueue(q, period, now) && Expired(q, now) && FireOne(q).active != []
    ensures Nanos(q.active[0].exp) <= Nanos(FireOne(q).active[0].exp)
  {
    var times := TimesOf(q.active);
    if q.active[0].period == 0 { PassRetires(q, period, now); } else { PassRearms(q, period, now); }
    if |q.active| > 1 { assert Nanos(times[0]) <= Nanos(times[1]); }
  }

  /** Callbacks come in order of expiration, and only for expired times. */
  lemma {:induction false} FiresInOrder(q: State, period: nat, now: Time)
    requires RegularQueue(q, period, now) && q.active != []
    ensures InOrder(FireAll(q, now).fired, Nanos(q.active[0].exp), Nanos(now))
    decreases StillDue(q.active, now)
  {
    if Expired(q, now) {
      ExpiredIs(q, period, now);
      PassKeepsRegular(q, period, now);
      if FireOne(q).active != [] {
        HeadMovesOn(q, period, now);
        FiresInOrder(FireOne(q), period, now);
        InOrderCons(Firing(q.active[0].timer, q.active[0].exp), FireAll(FireOne(q), now).fired,
                    Nanos(FireOne(q).active[0].exp), Nanos(now));
      }
    }
  }

  /** The callbacks a timer is owed by now: one for its expiration time and for every step after that. */
  ghost function Calls(timer: Timer, exp: Time, step: nat, now: Time): multiset<Firing>
    decreases Firings(Nanos(exp), step, Nanos(now))
  {
    if Nanos(exp) > Nanos(now) then multiset{}
    else if step == 0 then multiset{Firing(timer, exp)}
    else
      FiringsStep(Nanos(exp), step, Nanos(now));
      multiset{Firing(timer, exp)} + Calls(timer, Later(exp, step), step, now)
  }

  ghost function AllCalls(es: seq<Entry>, now: Time): multiset<Firing> {
    if es == [] then multiset{} else Calls(es[0].timer, es[0].exp, Added(es[0].period), now) + AllCalls(es[1..], now)
  }

  lemma {:induction false} AllCallsAppend(es: seq<Entry>, e: Entry, now: Time)
    ensures AllCalls(es + [e], now) == AllCalls(es, now) + Calls(e.timer, e.exp, Added(e.period), now)
  {
    if es == [] {
      assert es + [e] == [e];
    } else {
      AllCallsAppend(es[1..], e, now);
      assert (es + [e])[1..] == es[1..] + [e];
    }
  }

  lemma {:induction false} NoCalls(es: seq<Entry>, now: Time)
    requires forall i | 0 <= i < |es| :: Nanos(es[i].exp) > Nanos(now)
    ensures AllCalls(es, now) == multiset{}
  {
    if es != [] { NoCalls(es[1..], now); }
  }

  lemma CallOfSingleShot(es: seq<Entry>, now: Time)
    requires es != [] && Nanos(es[0].exp) <= Nanos(now) && es[0].period == 0
    ensures AllCalls(es, now) == multiset{Firing(es[0].timer, es[0].exp)} + AllCalls(es[1..], now)
  {
  }

  lemma CallOfPeriodic(es: seq<Entry>, e: Entry, now: Time)
    requires es != [] && Normal(es[0].exp) && Nanos(es[0].exp) <= Nanos(now) && 0 < Added(es[0].period)
    requires e == es[0].(fires := es[0].fires + 1, exp := AddMs(es[0].exp, es[0].period))
    ensures AllCalls(es, now) == multiset{Firing(es[0].timer, es[0].exp)} + AllCalls(es[1..] + [e], now)
  {
    AddMsAdds(es[0].exp, es[0].period);
    LaterIs(es[0].exp, Added(es[0].period), e.exp);
    AllCallsAppend(es[1..], e, now);
  }

  lemma PassMakesCall(q: State, period: nat, now: Time)
    requires RegularQueue(q, period, now) && Expired(q, now)
    ensures AllCalls(q.active, now)
            == multiset{Firing(q.active[0].timer, q.active[0].exp)} + AllCalls(FireOne(q).active, now)
  {
    FirstIsExpired(q, period, now);
    var e := q.active[0];
    if e.period == 0 {
      PassRetires(q, period, now);
      CallOfSingleShot(q.active, now);
    } else {
      PassRearms(q, period, now);
      CallOfPeriodic(q.active, e.(fires := e.fires + 1, exp := AddMs(e.exp, period)), now);
    }
  }

  /** Every timer gets exactly the callbacks it is owed. */
  lemma {:induction false} FiresExactly(q: State, period: nat, now: Time)
    requires RegularQueue(q, period, now)
    ensures multiset(FireAll(q, now).fired) == AllCalls(q.active, now)
    decreases StillDue(q.active, now)
  {
    if Expired(q, now) {
      PassKeepsRegular(q, period, now);
      PassMakesCall(q, period, now);
      FiresExactly(FireOne(q), period, now);
    } else {
      ExpiredIs(q, period, now);
      var times := TimesOf(q.active);
      forall i | 0 <= i < |q.active| ensures Nanos(q.active[i].exp) > Nanos(now) {
        if i > 0 { assert Nanos(times[0]) <= Nanos(times[i]); }
      }
      NoCalls(q.active, now);
    }
  }

  // ---- the queue of timers in memory ----

  ghost function EntryOf(t: Timer): Entry
    reads t
  {
    Entry(t, t.period, t.exp, t.fireCount)
  }

  ghost function Entries(s: seq<Timer>): (es: seq<Entry>)
    reads s`exp, s`fireCount
    ensures |es| == |s|
  {
    if s == [] then [] else [Entry(s[0], s[0].period, s[0].exp, s[0].fireCount)] + Entries(s[1..])
  }

  lemma {:induction false} EntriesAt(s: seq<Timer>, i: nat)
    requires i < |s|
    ensures Entries(s)[i] == EntryOf(s[i])
  {
    if i > 0 { EntriesAt(s[1..], i - 1); }
  }

  lemma TimesOfEntries(s: seq<Timer>)
    ensures TimesOf(Entries(s)) == Times(s)
  {
    forall i | 0 <= i < |s| ensures TimesOf(Entries(s))[i] == Times(s)[i] {
      EntriesAt(s, i);
      TimesAt(s, i);
    }
  }

  lemma {:induction false} EntriesConcat(a: seq<Timer>, b: seq<Timer>)
    ensures Entries(a + b) == Entries(a) + Entries(b)
  {
    if a == [] {
      assert a + b == b;
    } else {
      EntriesConcat(a[1..], b);
      assert (a + b)[1..] == a[1..] + b;
    }
  }

  lemma EntriesSlice(s: seq<Timer>, k: nat)
    requires k <= |s|
    ensures Entries(s[..k]) == Entries(s)[..k] && Entries(s[k..]) == Entries(s)[k..]
  {
    EntriesConcat(s[..k], s[k..]);
    assert s[..k] + s[k..] == s;
  }

  lemma EntriesInserted(s: seq<Timer>, t: Timer, k: nat)
    requires k <= |s|
    ensures Entries(Inserted(s, t, k)) == Inserted(Entries(s), EntryOf(t), k)
  {
    assert Entries([t]) == [EntryOf(t)];
    if k < |s| {
      EntriesSlice(s, k);
      EntriesSlice(s, k + 1);
      EntriesConcat(s[..k], [t]);
      EntriesConcat(s[..k] + [t], s[k + 1..]);
    } else {
      EntriesConcat(s, [t]);
    }
  }

  /** InsertTimerQueueTimer on entries. */
  method InsertTimer(pHead: Timer?, timer: Timer, ghost s: seq<Timer>) returns (head: Timer, ghost now: seq<Timer>)
    requires Linked(pHead, s) && timer !in s
    modifies s`next, timer`next
    ensures Linked(head, now) && (forall t | t in now :: t in s || t == timer)
    ensures Entries(now) == InsertEntry(old(Entries(s)), old(EntryOf(timer)))
  {
    TimesOfEntries(s);
    head, now := InsertTimerQueueTimer(pHead, timer, s);
    EntriesInserted(s, timer, InsertAt(Times(s), timer.exp));
  }

  ghost predicate Apart<T>(a: seq<T>, b: seq<T>) { forall t | t in a :: t !in b }

  class TimerQueue {
    var activeHead: Timer?
    var inactiveHead: Timer?
    ghost var active: seq<Timer>
    ghost var inactive: seq<Timer>

    /** CreateTimerQueue. */
    constructor ()
      ensures Valid() && View() == State([], [])
    {
      activeHead, inactiveHead, active, inactive := null, null, [], [];
    }

    ghost predicate Valid()
      reads this, active`next, inactive`next
    {
      Linked(activeHead, active) && Linked(inactiveHead, inactive) && Apart(active, inactive)
    }

    ghost function View(): State
      reads this, active`exp, active`fireCount, inactive`exp, inactive`fireCount
    {
      State(Entries(active), Entries(inactive))
    }

    ghost function Timers(): set<Timer>
      reads this
    {
      (set t | t in active) + (set t | t in inactive)
    }

    /** The first timer is taken off the active list. */
    method Detach(node: Timer)
      requires Valid() && active != [] && node == active[0]
      modifies this`activeHead, this`active, node`next
      ensures Valid() && node !in active && node !in inactive
      ensures active == old(active)[1..]
    {
      activeHead := UnlinkFirst(node, active);
      active := active[1..];
      forall i | 0 <= i < |inactive| ensures Link(inactive, i) {
        assert old(Link(inactive, i)) && node in old(active);
      }
    }

    method InsertActive(node: Timer)
      requires Valid() && node !in active && node !in inactive
      modifies this`activeHead, this`active, active`next, node`next
      ensures Valid() && (forall t | t in active :: t in old(active) || t == node)
      ensures Entries(active) == InsertEntry(old(Entries(active)), old(EntryOf(node)))
      ensures Entries(inactive) == old(Entries(inactive))
    {
      activeHead, active := InsertTimer(activeHead, node, active);
      forall i | 0 <= i < |inactive| ensures Link(inactive, i) {
        assert old(Link(inactive, i)) && inactive[i] !in old(active);
      }
    }

    method InsertInactive(node: Timer)
      requires Valid() && node !in active && node !in inactive
      modifies this`inactiveHead, this`inactive, inactive`next, node`next
      ensures Valid() && (forall t | t in inactive :: t in old(inactive) || t == node)
      ensures Entries(inactive) == InsertEntry(old(Entries(inactive)), old(EntryOf(node)))
      ensures Entries(active) == old(Entries(active))
    {
      inactiveHead, inactive := InsertTimer(inactiveHead, node, inactive);
      forall i | 0 <= i < |active| ensures Link(active, i) {
        assert old(Link(active, i)) && active[i] !in old(inactive);
      }
    }

    /** The first timer is counted as fired and taken off. */
    method TakeFirst(node: Timer)
      requires Valid() && active != [] && node == active[0]
      modifies this`activeHead, this`active, node`next, node`fireCount
      ensures Valid() && node !in active && node !in inactive && active == old(active)[1..]
      ensures Entries(active) == old(Entries(active))[1..] && Entries(inactive) == old(Entries(inactive))
      ensures var e := old(Entries(active))[0]; EntryOf(node) == e.(fires := e.fires + 1)
    {
      node.fireCount := node.fireCount + 1;
      Detach(node);
    }

    /** A periodic timer's next expiration time, and its return. */
    method RearmTimer(node: Timer)
      requires Valid() && node !in active && node !in inactive
      modifies this`activeHead, this`active, active`next, node`next, node`exp
      ensures Valid() && (forall t | t in active :: t in old(active) || t == node)
      ensures var e := old(EntryOf(node));
              Entries(active) == InsertEntry(old(Entries(active)), e.(exp := AddMs(e.exp, e.period)))
      ensures Entries(inactive) == old(Entries(inactive))
    {
      node.exp := AddMs(node.exp, node.period);
      InsertActive(node);
    }

    /** One pass of the loop of FireExpiredTimerQueueTimers, for an expired first timer. */
    method FireFirst(node: Timer)
      requires Valid() && active != [] && node == active[0]
      modifies this, Timers()
      ensures Valid() && View() == FireOne(old(View()))
      ensures Timers() <= old(Timers())
    {
      ghost var q := View();
      TakeFirst(node);
      ghost var e := EntryOf(node);
      if node.period != 0 {
        RearmTimer(node);
      } else {
        InsertInactive(node);
      }
      FireOneIs(q, e, View());
    }

    /**
      FireExpiredTimerQueueTimers at the time `now`. The result lists the callbacks in the order they are
      made. What the passes add up to is stated by FiringOutcome, FiresInOrder and FiresExactly.
     */
    method FireExpiredTimerQueueTimers(now: Time) returns (fired: seq<Firing>)
      requires Valid() && Firable(View(), now)
      modifies this, Timers()
      ensures Valid()
      ensures Run(View(), fired) == FireAll(old(View()), now)
    {
      fired := [];
      ghost var goal := FireAll(View(), now);
      LeadsFromStart(View(), now);
      if activeHead == null {
        LeadsToEnd(goal, View(), fired, now);
        return;
      }
      var node := activeHead;
      while node != null
        invariant Valid() && node == activeHead
        invariant Timers() <= old(Timers())
        invariant Leads(goal, View(), fired, now)
        decreases AllBehind(View().active, now)
      {
        EntriesAt(active, 0);
        if Compare(now, node.exp) >= 0 {
          LeadsOn(goal, View(), fired, now);
          fired := fired + [Firing(node, node.exp)];
          FireFirst(node);
          node := activeHead;
        } else {
          break;
        }
      }
      LeadsToEnd(goal, View(), fired, now);
    }
  }
}
