/** The inter-command delay of endpoints with the minimum-time quirk. */
module Delay {
  import opened Wire

  const NSEC_PER_SEC: int := 1_000_000_000

  type uint32 = x: int | 0 <= x < 0x1_0000_0000

  datatype Time = Time(sec: int, nsec: int)

  predicate Proper(t: Time) { 0 <= t.nsec < 1_000_000_000 }

  function Ns(t: Time): int { 1_000_000_000 * t.sec + t.nsec }

  /** timespec_cmp with >=. */
  predicate NotBefore(a: Time, b: Time) { if a.sec == b.sec then a.nsec >= b.nsec else a.sec >= b.sec }

  /** timespec_sub. */
  function Minus(a: Time, b: Time): Time {
    var d := Time(a.sec - b.sec, a.nsec - b.nsec);
    if d.nsec < 0 then Time(d.sec - 1, d.nsec + 1_000_000_000) else d
  }

  /** cxlmi_insert_delay: the time to sleep, if any. The delay in nanoseconds is a 32-bit product, and
      one second at most is carried. */
  function InsertDelay(last: Option<Time>, us: uint32, now: Option<Time>): Option<Time> {
    if last.None? then None
    else
      var nsec := last.value.nsec + us * 1000 % 0x1_0000_0000;
      var next := if nsec > NSEC_PER_SEC then Time(last.value.sec + 1, nsec - NSEC_PER_SEC) else Time(last.value.sec, nsec);
      if now.None? then None
      else if NotBefore(now.value, next) then None
      else Some(Minus(next, now.value))
  }

  /** A sleep that nanosleep accepts. */
  predicate Sleepable(d: Time) { d.sec >= 0 && Proper(d) }

  /** The command goes out no earlier than `us` microseconds after the last response. */
  predicate KeepsDistance(last: Time, us: uint32, now: Time) {
    match InsertDelay(Some(last), us, Some(now))
    case None => Ns(now) >= Ns(last) + 1000 * us
    case Some(d) => Sleepable(d) && Ns(now) + Ns(d) >= Ns(last) + 1000 * us
  }

  /** Below one second the sleep is accepted and exact, also when the sum is exactly one second. */
  lemma ShortDelay(last: Time, us: uint32, now: Time)
    requires Proper(last) && Proper(now) && Ns(now) >= Ns(last) && us < 1_000_000
    ensures match InsertDelay(Some(last), us, Some(now))
            case None => Ns(now) >= Ns(last) + 1000 * us
            case Some(d) => Sleepable(d) && Ns(d) > 0 && Ns(now) + Ns(d) == Ns(last) + 1000 * us
  {
    assert us * 1000 % 0x1_0000_0000 == 1000 * us;
  }

  ghost predicate KeepsDistanceAlways(us: uint32) {
    forall last, now :: Proper(last) && Proper(now) && Ns(now) >= Ns(last) ==> KeepsDistance(last, us, now)
  }

  /** From one second on, some monotone pair of clock readings breaks the promise: the 32-bit product
      wraps, or the sleep is not a proper time. */
  lemma LongDelayFails(us: uint32) returns (last: Time, now: Time)
    requires us >= 1_000_000
    ensures Proper(last) && Proper(now) && Ns(now) >= Ns(last) && !KeepsDistance(last, us, now)
  {
    var d := us * 1000 % 0x1_0000_0000;
    if d < 1_000_000_000 {
      last, now := Time(0, 0), Time(0, d);
      assert d < 1000 * us;
    } else if d == 1_000_000_000 {
      last, now := Time(0, 0), Time(0, 0);
    } else {
      last, now := Time(0, 999_999_999), Time(1, 0);
    }
  }

  /** The exact condition. */
  lemma KeepsDistanceIff(us: uint32)
    ensures KeepsDistanceAlways(us) <==> us < 1_000_000
  {
    if us < 1_000_000 {
      forall last, now | Proper(last) && Proper(now) && Ns(now) >= Ns(last) ensures KeepsDistance(last, us, now) {
        ShortDelay(last, us, now);
      }
    } else {
      var last, now := LongDelayFails(us);
    }
  }

  // ---------------------------------------------------------------- runs

  /** One command: the clock reading before it, when it went out, and the recorded response time. */
  datatype Send = Send(now: Option<Time>, sent: Time, recorded: Option<Time>)

  /** Command `k` of a run: the clock is monotone and sleeps last as long as requested. */
  predicate Follows(run: seq<Send>, us: uint32, k: nat)
    requires k < |run|
  {
    var last := if k == 0 then None else run[k - 1].recorded;
    && (run[k].recorded.Some? ==> Proper(run[k].recorded.value))
    && (run[k].now.Some? ==>
          && Proper(run[k].now.value) && (last.Some? ==> Ns(run[k].now.value) >= Ns(last.value))
          && var d := InsertDelay(last, us, run[k].now);
             Ns(run[k].sent) >= Ns(run[k].now.value) + if d.Some? then Ns(d.value) else 0)
  }

  /** Over every run, a command goes out at least the delay after the response recorded before it. */
  lemma RunKeepsDistance(run: seq<Send>, us: uint32, k: nat)
    requires us < 1_000_000 && (forall i :: 0 <= i < |run| ==> Follows(run, us, i))
    requires 0 < k < |run| && run[k - 1].recorded.Some? && run[k].now.Some?
    ensures Ns(run[k].sent) >= Ns(run[k - 1].recorded.value) + 1000 * us
  {
    assert Follows(run, us, k - 1) && Follows(run, us, k);
    ShortDelay(run[k - 1].recorded.value, us, run[k].now.value);
  }
}
