/** Seconds and microseconds, as the timer macros handle them. */
module Timeval {
  const MILLION := 1_000_000

  datatype Timeval = Timeval(sec: nat, usec: nat)

  predicate Normal(t: Timeval): (r: bool)
    ensures r <==> t.usec < 1_000_000
  {
    t.usec < MILLION
  }

  function Micros(t: Timeval): (r: nat)
    ensures r == 1_000_000 * t.sec + t.usec
  {
    MILLION * t.sec + t.usec
  }

  function Add(a: Timeval, b: Timeval): (r: Timeval)
    requires Normal(a) && Normal(b)
    ensures Normal(r) && Micros(r) == Micros(a) + Micros(b)
  {
    var usec := a.usec + b.usec;
    if usec >= MILLION then Timeval(a.sec + b.sec + 1, usec - MILLION) else Timeval(a.sec + b.sec, usec)
  }

  predicate AtLeast(a: Timeval, b: Timeval): (r: bool)
    requires Normal(a) && Normal(b)
    ensures r <==> Micros(a) >= Micros(b)
  {
    if a.sec == b.sec then a.usec >= b.usec else a.sec >= b.sec
  }

  predicate Less(a: Timeval, b: Timeval): (r: bool)
    requires Normal(a) && Normal(b)
    ensures r <==> Micros(a) < Micros(b)
  {
    if a.sec == b.sec then a.usec < b.usec else a.sec < b.sec
  }

  function Sub(a: Timeval, b: Timeval): (r: Timeval)
    requires Normal(a) && Normal(b) && AtLeast(a, b)
    ensures Normal(r) && Micros(r) == Micros(a) - Micros(b)
  {
    if a.usec < b.usec then Timeval(a.sec - b.sec - 1, a.usec + MILLION - b.usec)
    else Timeval(a.sec - b.sec, a.usec - b.usec)
  }

  function Min(a: Timeval, b: Timeval): (r: Timeval)
    requires Normal(a) && Normal(b)
    ensures (r == a || r == b) && Micros(r) <= Micros(a) && Micros(r) <= Micros(b)
  {
    if Less(a, b) then a else b
  }

  /** Waiting this long from now ends at the deadline, or at once if it has passed. */
  function TimeTo(deadline: Timeval, now: Timeval): (r: Timeval)
    requires Normal(deadline) && Normal(now)
    ensures Normal(r)
    ensures Micros(now) + Micros(r) == if Micros(deadline) > Micros(now) then Micros(deadline) else Micros(now)
  {
    if AtLeast(now, deadline) then Timeval(0, 0) else Sub(deadline, now)
  }
}
