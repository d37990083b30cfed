/**
 * When `main` unregisters the advertisement. `seconds` is the `-t` option:
 * an integer, or `None` when the option is given without a value. A timer
 * thread unregisters it after `seconds` when `seconds` is positive; once
 * the main loop ends, `main` unregisters it itself unless the advertising
 * time has already run out. Timestamps are inputs.
 */
module Daemon {
  import opened Wrappers

  /** Python's exception for ordering `None` against an integer. */
  datatype PyError = TypeError

  /** Python truthiness of the option's value: `None` and `0` are false. */
  predicate Truthy(seconds: Option<int>) {
    seconds.Some? && seconds.value != 0
  }

  /** Whether `main` starts the timer thread: `seconds and seconds >= 0`. */
  function TimerStarts(seconds: Option<int>): (r: bool)
    ensures r <==> seconds.Some? && seconds.value > 0
  {
    Truthy(seconds) && seconds.value >= 0
  }

  /** `stop_advertisement_after(…, seconds)` started at `startedAt` unregisters at this time. */
  function StopTime(startedAt: real, seconds: int): (r: real)
    ensures r >= startedAt
    ensures seconds > 0 ==> r == startedAt + seconds as real
    ensures seconds <= 0 ==> r == startedAt
  {
    if seconds > 0 then startedAt + seconds as real else startedAt
  }

  /**
   * Whether `main` unregisters the advertisement after the loop ended at
   * `now`: `seconds <= 0 or now - start_at < seconds`, which raises
   * `TypeError` when `seconds` is `None`.
   */
  function FinalStop(seconds: Option<int>, startAt: real, now: real): (r: Result<bool, PyError>)
    ensures r.Failure? <==> seconds.None?
    ensures r.Success? ==> (r.value <==> !TimerStarts(seconds) || now < startAt + seconds.value as real)
  {
    match seconds
    case None => Failure(TypeError)
    case Some(s) => Success(s <= 0 || now - startAt < s as real)
  }

  /**
   * How many times the advertisement is unregistered when the timer
   * thread begins at `threadAt` (no earlier than `startAt`) and the main
   * loop ends at `now`: once by the timer if it started and is due by
   * `now`, once by `main` if its test passes.
   */
  function StopCount(seconds: Option<int>, startAt: real, threadAt: real, now: real): (r: Result<nat, PyError>)
    ensures r.Failure? <==> seconds.None?
    ensures r.Success? ==> r.value <= 2
    ensures r.Success? && !TimerStarts(seconds) ==> r.value == 1
    ensures r.Success? && TimerStarts(seconds) && now < threadAt + seconds.value as real ==>
      (r.value == 1 <==> now < startAt + seconds.value as real) && (r.value == 0 <==> startAt + seconds.value as real <= now)
  {
    var byTimer := if TimerStarts(seconds) && StopTime(threadAt, seconds.value) <= now then 1 else 0;
    match FinalStop(seconds, startAt, now)
    case Failure(e) => Failure(e)
    case Success(stop) => Success(byTimer + if stop then 1 else 0)
  }

  /** Without `-t` value, `main` dies with `TypeError` once its loop ends; no timer was started. */
  lemma NoneRaises(startAt: real, threadAt: real, now: real)
    ensures !TimerStarts(None)
    ensures StopCount(None, startAt, threadAt, now) == Failure(TypeError)
  {
  }

  /** With no positive time limit there is no timer, and `main` always unregisters. */
  lemma NoLimitMainStops(s: int, startAt: real, threadAt: real, now: real)
    requires s <= 0
    ensures !TimerStarts(Some(s)) && FinalStop(Some(s), startAt, now) == Success(true)
    ensures StopCount(Some(s), startAt, threadAt, now) == Success(1)
  {
  }

  /**
   * The two stops exclude each other: once the timer has unregistered the
   * advertisement, `main` sees that the time is up and does not do it again.
   */
  lemma AtMostOneStop(seconds: Option<int>, startAt: real, threadAt: real, now: real)
    requires startAt <= threadAt
    ensures StopCount(seconds, startAt, threadAt, now).Success? ==> StopCount(seconds, startAt, threadAt, now).value <= 1
  {
  }

  /**
   * The advertisement is unregistered exactly once, except when the loop
   * ends inside the window between the limit measured from `start_at`
   * and the limit measured from the thread's own start: then neither stop
   * happens before `main` returns.
   */
  lemma ExactlyOneStopOutsideWindow(s: int, startAt: real, threadAt: real, now: real)
    requires startAt <= threadAt
    ensures StopCount(Some(s), startAt, threadAt, now) == Success(0) <==>
      s > 0 && startAt + s as real <= now < threadAt + s as real
    ensures StopCount(Some(s), startAt, threadAt, now) == Success(1) <==>
      !(s > 0 && startAt + s as real <= now < threadAt + s as real)
  {
  }
}
