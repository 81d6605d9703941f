/** Time arithmetic: the deadline of hid_read_timeout and the split sleep of lib/fcd_common.c. */
module Timing {
  import opened Bytes

  const NS_PER_S := 1_000_000_000
  const MAX_INT := 0x7fff_ffff

  datatype Timespec = Timespec(sec: int, nsec: int)

  /** A point in time in nanoseconds. */
  function Instant(t: Timespec): int {
    t.sec * NS_PER_S + t.nsec
  }

  predicate Normal(t: Timespec) {
    0 <= t.nsec < NS_PER_S
  }

  /** The normalised form of an instant is unique, so Deadline's contract leaves it no choice. */
  lemma OneNormalForm(a: Timespec, b: Timespec)
    requires Normal(a) && Normal(b) && Instant(a) == Instant(b)
    ensures a == b
  {
    assert (a.sec - b.sec) * NS_PER_S == b.nsec - a.nsec;
  }

  /** The absolute deadline: now plus the timeout, normalised. The nanosecond sum before normalising fits a
      signed 32-bit long. */
  method Deadline(now: Timespec, milliseconds: int) returns (ts: Timespec)
    requires Normal(now) && 0 < milliseconds <= MAX_INT
    ensures Normal(ts) && Instant(ts) == Instant(now) + milliseconds * 1_000_000
  {
    var sec, nsec := now.sec, now.nsec;
    sec := sec + milliseconds / 1000;
    nsec := nsec + (milliseconds % 1000) * 1_000_000;
    assert nsec <= MAX_INT;
    if nsec >= NS_PER_S {
      sec := sec + 1;
      nsec := nsec - NS_PER_S;
    }
    ts := Timespec(sec, nsec);
    assert milliseconds == milliseconds / 1000 * 1000 + milliseconds % 1000;
  }

  function Sum(s: seq<nat>): nat {
    if s == [] then 0 else Sum(s[..|s| - 1]) + s[|s| - 1]
  }

  lemma SumOneMore(s: seq<nat>, x: nat)
    ensures Sum(s + [x]) == Sum(s) + x
  {
    assert (s + [x])[..|s|] == s;
  }

  /** ms_sleep with usleep. sleeps: the arguments of its calls, in microseconds. */
  method MsSleep(ms: Word32) returns (sleeps: seq<nat>)
    ensures Sum(sleeps) == ms * 1000
    ensures forall s <- sleeps :: s < 1_000_000
    ensures |sleeps| == 2 * (ms / 1000) + 1
  {
    sleeps := [];
    var t: nat := ms;
    while t >= 1000
      invariant 0 <= t <= ms
      invariant Sum(sleeps) + t * 1000 == ms * 1000
      invariant forall s <- sleeps :: s < 1_000_000
      invariant |sleeps| == 2 * (ms / 1000 - t / 1000)
    {
      SumOneMore(sleeps, 500 * 1000);
      SumOneMore(sleeps + [500 * 1000], 500 * 1000);
      sleeps := sleeps + [500 * 1000] + [500 * 1000];
      t := t - 1000;
    }
    SumOneMore(sleeps, t * 1000);
    sleeps := sleeps + [t * 1000];
  }
}
