/** The request limiter: one call may pass every 1000 nanoseconds. Calls are sequential. */
module RateLimiter {
  const SPAN: int := 1000
  const MIN_INT64: int := -0x8000_0000_0000_0000

  type int64 = n: int | -0x8000_0000_0000_0000 <= n < 0x8000_0000_0000_0000

  /** Subtraction of Go's int64, which wraps. */
  function Minus(a: int64, b: int64): (d: int64)
    ensures a >= 0 && b >= 0 ==> d == a - b
    ensures (d - (a - b)) % 0x1_0000_0000_0000_0000 == 0
  {
    (a - b + 0x8000_0000_0000_0000) % 0x1_0000_0000_0000_0000 - 0x8000_0000_0000_0000
  }

  /** Whether a call at `now` is refused after the last accepted one at `last`. */
  predicate Refused(last: int64, now: int64) {
    last > MIN_INT64 && Minus(now, last) <= SPAN
  }

  class Limiter {
    var last: int64

    constructor ()
      ensures last == MIN_INT64
    {
      last := MIN_INT64;
    }

    method TooManyRequests(now: int64) returns (refused: bool)
      modifies this
      ensures refused == Refused(old(last), now)
      ensures last == if refused then old(last) else now
    {
      var currentTime := now;
      if last > MIN_INT64 && Minus(currentTime, last) <= SPAN {
        return true;
      }
      last := currentTime;
      return false;
    }
  }

  // ---------- Runs ----------

  /** The readings of the accepted calls. */
  function Accepted(last: int64, readings: seq<int64>): seq<int64>
    decreases readings
  {
    if readings == [] then []
    else if Refused(last, readings[0]) then Accepted(last, readings[1..])
    else [readings[0]] + Accepted(readings[0], readings[1..])
  }

  /** A run of calls on one limiter. */
  method Run(readings: seq<int64>) returns (accepted: seq<int64>)
    ensures accepted == Accepted(MIN_INT64, readings)
  {
    var limiter := new Limiter();
    accepted := [];
    for i := 0 to |readings|
      invariant accepted + Accepted(limiter.last, readings[i..]) == Accepted(MIN_INT64, readings)
    {
      assert readings[i..][1..] == readings[i + 1..];
      var refused := limiter.TooManyRequests(readings[i]);
      if !refused {
        accepted := accepted + [readings[i]];
      }
    }
  }

  /** A clock that does not go back, from `start` on. */
  predicate Clock(start: int, readings: seq<int64>) {
    (forall i :: 0 <= i < |readings| ==> start <= readings[i]) &&
    forall i, j :: 0 <= i < j < |readings| ==> readings[i] <= readings[j]
  }

  /** Consecutive readings are more than the span apart. */
  predicate Apart(readings: seq<int64>) {
    forall i :: 0 < i < |readings| ==> readings[i] - readings[i - 1] > SPAN
  }

  /** `sub` picks some of the readings, in order. */
  predicate Picks(sub: seq<int64>, readings: seq<int64>) {
    sub == [] ||
    (readings != [] &&
     ((sub[0] == readings[0] && Picks(sub[1..], readings[1..])) || Picks(sub, readings[1..])))
  }

  lemma {:induction false} AcceptedAreReadings(last: int64, readings: seq<int64>)
    requires Clock(0, readings) && (last == MIN_INT64 || 0 <= last)
    ensures Picks(Accepted(last, readings), readings)
    ensures Apart(Accepted(last, readings))
    ensures Accepted(last, readings) != [] && last >= 0 ==> Accepted(last, readings)[0] - last > SPAN
    decreases readings
  {
    if readings != [] {
      AcceptedAreReadings(if Refused(last, readings[0]) then last else readings[0], readings[1..]);
    }
  }

  /** Any two accepted calls are more than 1000 ns apart, and at least as many spans as calls between. */
  lemma {:induction false} ApartAdds(a: seq<int64>, i: nat, j: nat)
    requires Apart(a) && i <= j < |a|
    ensures a[j] - a[i] >= (j - i) * (SPAN + 1)
  {
    if i < j {
      ApartAdds(a, i, j - 1);
    }
  }

  lemma AcceptedPairwiseApart(readings: seq<int64>, i: nat, j: nat)
    requires Clock(0, readings)
    requires i < j < |Accepted(MIN_INT64, readings)|
    ensures Accepted(MIN_INT64, readings)[j] - Accepted(MIN_INT64, readings)[i] > SPAN
  {
    AcceptedAreReadings(MIN_INT64, readings);
    ApartAdds(Accepted(MIN_INT64, readings), i, j);
  }

  /** A closed window of `width` ns holds at most width / 1001 + 1 accepted calls. */
  lemma WindowBound(readings: seq<int64>, from: int, width: nat, i: nat, j: nat)
    requires Clock(0, readings)
    requires i <= j < |Accepted(MIN_INT64, readings)|
    requires from <= Accepted(MIN_INT64, readings)[i] && Accepted(MIN_INT64, readings)[j] <= from + width
    ensures j - i + 1 <= width / 1001 + 1
  {
    AcceptedAreReadings(MIN_INT64, readings);
    ApartAdds(Accepted(MIN_INT64, readings), i, j);
    assert (j - i) * 1001 <= width;
  }

  /** The bound cannot be lowered: calls 1001 ns apart all pass. */
  lemma {:induction false} WindowBoundIsReached(n: nat, start: int64, readings: seq<int64>)
    requires 0 <= start && |readings| == n
    requires forall i :: 0 <= i < n ==> readings[i] == start + 1001 * i
    ensures Accepted(MIN_INT64, readings) == readings
  {
    if n > 0 {
      EvenlySpacedPass(n - 1, start, readings[1..]);
      assert readings == [readings[0]] + readings[1..];
    }
  }

  lemma {:induction false} EvenlySpacedPass(n: nat, last: int64, readings: seq<int64>)
    requires 0 <= last && |readings| == n
    requires forall i :: 0 <= i < n ==> readings[i] == last + 1001 * (i + 1)
    ensures Accepted(last, readings) == readings
  {
    if n > 0 {
      var rest := readings[1..];
      assert forall i :: 0 <= i < n - 1 ==> rest[i] == readings[0] + 1001 * (i + 1);
      EvenlySpacedPass(n - 1, readings[0], rest);
      assert readings == [readings[0]] + rest;
    }
  }

  /**
   * The exchange argument: a choice that could have been made after an acceptance no earlier than
   * the limiter's last one is no longer than the limiter's.
   */
  lemma {:induction false} GreedyStaysAhead(last: int64, other: int64, readings: seq<int64>, sub: seq<int64>)
    requires Clock(0, readings) && Picks(sub, readings) && Apart(sub)
    requires last == MIN_INT64 || 0 <= last <= other
    requires sub != [] && last >= 0 ==> sub[0] - other > SPAN
    ensures |sub| <= |Accepted(last, readings)|
    decreases readings
  {
    if sub != [] {
      var now, rest := readings[0], readings[1..];
      if Refused(last, now) {
        assert sub[0] != now;
        GreedyStaysAhead(last, other, rest, sub);
      } else {
        PickedLater(sub, readings);
        var tail := sub[1..];
        TailPicks(sub, readings);
        assert Apart(tail);
        GreedyStaysAhead(now, sub[0], rest, tail);
      }
    }
  }

  lemma {:induction false} PickedLater(sub: seq<int64>, readings: seq<int64>)
    requires sub != [] && Picks(sub, readings) && Clock(0, readings)
    ensures readings[0] <= sub[0]
  {
    if !(sub[0] == readings[0] && Picks(sub[1..], readings[1..])) {
      PickedLater(sub, readings[1..]);
      assert readings[0] <= readings[1..][0];
    }
  }

  lemma {:induction false} TailPicks(sub: seq<int64>, readings: seq<int64>)
    requires sub != [] && Picks(sub, readings)
    ensures Picks(sub[1..], readings[1..])
  {
    if !(sub[0] == readings[0] && Picks(sub[1..], readings[1..])) {
      TailPicks(sub, readings[1..]);
    }
  }

  /** No choice of readings more than 1000 ns apart is larger than the accepted ones. */
  lemma NoLargerChoice(readings: seq<int64>, sub: seq<int64>)
    requires Clock(0, readings) && Picks(sub, readings) && Apart(sub)
    ensures |sub| <= |Accepted(MIN_INT64, readings)|
  {
    GreedyStaysAhead(MIN_INT64, 0, readings, sub);
  }
}
