/**
 * The notify flag of the wifi-name and IP-address characteristics
 * (`WifiNameChrc`, `IPAddressChrc`). Each creates its poller thread once,
 * in its constructor; `StartNotify` sets `notifying` and then starts that
 * thread, `StopNotify` only clears the flag. A thread object can be
 * started once, so a second subscription after an unsubscription finds the
 * thread already started: `start()` raises `RuntimeError`, after
 * `notifying` has been set again.
 */
module Notify {
  import opened Wrappers
  import opened DBus

  /** The flag and whether the characteristic's poller thread has been started. */
  datatype NotifyState = NotifyState(notifying: bool, threadStarted: bool)

  /** What a freshly constructed characteristic holds. */
  const INITIAL: NotifyState := NotifyState(false, false)

  /** A client's request on the characteristic. */
  datatype Op = Start | Stop

  /** The state after `op`; `StartNotify` sets the flag before it starts the thread, even when that raises. */
  function Apply(st: NotifyState, op: Op): (r: NotifyState)
    ensures r.notifying <==> op == Start
    ensures op == Stop ==> r.threadStarted == st.threadStarted
    ensures op == Start ==> (r.threadStarted <==> st.threadStarted || !st.notifying)
  {
    match op
    case Start => if st.notifying then st else NotifyState(true, true)
    case Stop => st.(notifying := false)
  }

  /** Whether `op` raises: starting a thread that has already been started. */
  predicate Raises(st: NotifyState, op: Op): (r: bool)
    ensures r ==> op == Start && Apply(st, op) == NotifyState(true, true)
  {
    op == Start && !st.notifying && st.threadStarted
  }

  /** What the D-Bus caller of `op` gets back: nothing, or the error. */
  function Outcome(st: NotifyState, op: Op): (r: Option<Error>)
    ensures r.Some? <==> Raises(st, op)
    ensures r.Some? ==> r.value == RuntimeError
  {
    if Raises(st, op) then Some(RuntimeError) else None
  }

  /** The state a characteristic keeps: the thread runs (or has run) whenever the flag is set. */
  predicate Consistent(st: NotifyState) {
    st.notifying ==> st.threadStarted
  }

  /** The state after a sequence of requests on a fresh characteristic. */
  function After(ops: seq<Op>): (r: NotifyState)
    decreases |ops|
    ensures Consistent(r)
  {
    if ops == [] then INITIAL else Apply(After(ops[..|ops| - 1]), ops[|ops| - 1])
  }

  class NotifyChrc {
    var notifying: bool
    /** Whether `start()` has been called on the thread object built by the constructor. */
    var threadStarted: bool

    function State(): NotifyState
      reads this
    {
      NotifyState(notifying, threadStarted)
    }

    constructor()
      ensures State() == INITIAL
    {
      notifying := false;
      threadStarted := false;
    }

    /** Subscribe: a no-op when already notifying; otherwise set the flag and start the poller. */
    method StartNotify() returns (raised: Option<Error>)
      modifies this
      ensures State() == Apply(old(State()), Start)
      ensures raised == Outcome(old(State()), Start)
    {
      raised := None;
      if !notifying {
        notifying := true;
        if threadStarted {
          raised := Some(RuntimeError);
        } else {
          threadStarted := true;
        }
      }
    }

    /** Unsubscribe: the poller loop sees the cleared flag and ends; the thread is not replaced. */
    method StopNotify()
      modifies this
      ensures State() == Apply(old(State()), Stop)
    {
      notifying := false;
    }
  }

  /** A second `StartNotify` while notifying changes nothing and raises nothing. */
  lemma StartWhileNotifying(st: NotifyState)
    requires st.notifying
    ensures Apply(st, Start) == st && Outcome(st, Start).None?
  {
  }

  /** `StopNotify` always clears the flag, never raises, and never un-starts the thread. */
  lemma StopClears(st: NotifyState)
    ensures !Apply(st, Stop).notifying && Apply(st, Stop).threadStarted == st.threadStarted
    ensures Outcome(st, Stop).None?
  {
  }

  /** Every request keeps a consistent state consistent. */
  lemma ApplyConsistent(st: NotifyState, op: Op)
    requires Consistent(st)
    ensures Consistent(Apply(st, op))
  {
  }

  /**
   * After any sequence of requests the characteristic is notifying exactly
   * when the last request was a subscription, and its thread has been
   * started exactly when there was a subscription at all.
   */
  lemma {:induction false} AfterIs(ops: seq<Op>)
    ensures After(ops).notifying <==> |ops| > 0 && ops[|ops| - 1] == Start
    ensures After(ops).threadStarted <==> Start in ops
    decreases |ops|
  {
    if ops != [] {
      var init := ops[..|ops| - 1];
      AfterIs(init);
      assert ops == init + [ops[|ops| - 1]];
    }
  }

  /**
   * A subscription raises exactly when an earlier request was a
   * subscription and the one just before it was an unsubscription.
   */
  lemma StartRaisesIff(ops: seq<Op>)
    ensures Raises(After(ops), Start) <==> Start in ops && |ops| > 0 && ops[|ops| - 1] == Stop
  {
    AfterIs(ops);
  }

  /**
   * Subscribe, unsubscribe, subscribe: the third request raises
   * `RuntimeError` and leaves the flag set. The first poller keeps running
   * only if it has not yet woken up and seen the flag cleared in between;
   * otherwise no poller serves the flag.
   */
  lemma RestartFails()
    ensures Outcome(After([Start, Stop]), Start) == Some(RuntimeError)
    ensures After([Start, Stop, Start]) == NotifyState(true, true)
  {
    AfterIs([Start, Stop]);
    assert [Start, Stop][..1] == [Start];
    assert [Start, Stop, Start][..2] == [Start, Stop];
  }
}
