/** The time arithmetic of libuzi/timer.c and libuzi/wait.c, for a 64-bit long. */
module Timespec {

  datatype Time = Time(sec: int, nsec: int)

  const NANOS: int := 1_000_000_000
  const MILLI: int := 1_000_000
  const WORD: int := 0x1_0000_0000

  predicate Normal(t: Time) { 0 <= t.nsec < NANOS }

  /** The instant a time stands for, in nanoseconds. */
  function Nanos(t: Time): int { t.sec * NANOS + t.nsec }

  /** timespec_add_ms: the product is taken in 32 bits. */
  function AddMs(t: Time, ms: nat): Time {
    var ns := t.nsec + ms * MILLI % WORD;
    Time(t.sec + ns / NANOS, ns % NANOS)
  }

  /** What timespec_add_ms really adds, in nanoseconds. */
  function Added(ms: nat): nat { ms * MILLI % WORD }

  lemma AddMsAdds(t: Time, ms: nat)
    requires Normal(t)
    ensures Normal(AddMs(t, ms)) && Nanos(AddMs(t, ms)) == Nanos(t) + Added(ms)
  {
  }

  /** That is what it should add for up to 4294 ms, and less for anything longer. */
  lemma AddedIs(ms: nat)
    ensures ms <= 4294 ==> Added(ms) == ms * MILLI
    ensures ms > 4294 ==> Added(ms) < ms * MILLI
  {
  }

  /** ts_add_ms, statement by statement. */
  method TsAddMs(t: Time, ms: nat) returns (r: Time)
    requires Normal(t)
    ensures Normal(r) && Nanos(r) == Nanos(t) + ms * MILLI
  {
    r := t;
    r := r.(sec := r.sec + ms / 1000);
    r := r.(nsec := r.nsec + ms % 1000 * MILLI);
    r := r.(sec := r.sec + r.nsec / NANOS);
    r := r.(nsec := r.nsec % NANOS);
  }

  /** Normalised times are equal when they stand for the same instant. */
  lemma SameInstant(a: Time, b: Time)
    requires Normal(a) && Normal(b)
    ensures Nanos(a) == Nanos(b) <==> a == b
    ensures Nanos(a) < Nanos(b) <==> a.sec < b.sec || (a.sec == b.sec && a.nsec < b.nsec)
  {
  }

  /** timespec_add_ms is exact, and so agrees with ts_add_ms, for up to 4294 ms and for nothing longer. */
  lemma AddMsExactly(t: Time, ms: nat)
    requires Normal(t) && ms < WORD
    ensures Normal(AddMs(t, ms))
    ensures Nanos(AddMs(t, ms)) == Nanos(t) + ms * MILLI <==> ms <= 4294
  {
    var product := ms * MILLI;
    assert product % WORD == product <==> product < WORD;
  }

  /** A long cut down to an int. */
  function ToInt32(x: int): int {
    var low := x % WORD;
    if low < 0x8000_0000 then low else low - WORD
  }

  /** timespec_compare: the difference is returned as an int. */
  function Compare(a: Time, b: Time): int {
    if a.sec == b.sec then ToInt32(a.nsec - b.nsec) else ToInt32(a.sec - b.sec)
  }

  /** The sign of the comparison is the order of the instants. */
  predicate Orders(a: Time, b: Time) {
    && (Compare(a, b) > 0 <==> Nanos(a) > Nanos(b))
    && (Compare(a, b) < 0 <==> Nanos(a) < Nanos(b))
  }

  predicate Within(a: Time, b: Time, seconds: int) { -seconds <= a.sec - b.sec <= seconds }

  /** Exactly which pairs compare right: the low 32 bits of the difference have the sign of the difference. */
  lemma OrdersExactly(a: Time, b: Time)
    requires Normal(a) && Normal(b)
    ensures var d := a.sec - b.sec;
            Orders(a, b) <==> d == 0 || (if d > 0 then 0 < d % WORD < 0x8000_0000 else d % WORD >= 0x8000_0000)
  {
    SameInstant(a, b);
    SameInstant(b, a);
  }

  lemma OrdersNear(a: Time, b: Time)
    requires Normal(a) && Normal(b) && Within(a, b, 0x7FFF_FFFF)
    ensures Orders(a, b)
  {
    OrdersExactly(a, b);
  }

  /** So all times up to `seconds` apart compare right exactly when that is below 2^31. */
  lemma OrdersWithinExactly(seconds: nat)
    ensures (forall a, b | Normal(a) && Normal(b) && Within(a, b, seconds) :: Orders(a, b)) <==> seconds < 0x8000_0000
  {
    if seconds < 0x8000_0000 {
      forall a, b | Normal(a) && Normal(b) && Within(a, b, seconds) ensures Orders(a, b) {
        OrdersNear(a, b);
      }
    } else {
      var a, b := Time(0x8000_0000, 0), Time(0, 0);
      assert Normal(a) && Normal(b) && Within(a, b, seconds) && !Orders(a, b);
    }
  }
}
