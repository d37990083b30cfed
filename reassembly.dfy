/**
 * The segmented credential input characteristic (`InputSepChrc`): a
 * message `key SEP ssid SEP password END` may arrive over several writes.
 * Bytes accumulate in a buffer that is dropped when more than a second
 * passes between writes; once the whole buffer is UTF-8 text ending in
 * `END`, the text before the first `END` is parsed.
 *
 * The buffer is NOT emptied after a message is parsed (the source assigns
 * the prefix to a local variable), so a second message written within a
 * second of the first makes the first one be parsed again; see
 * `SecondMessageWithinGapReappliesFirst`.
 */
module Reassembly {
  import opened Wrappers
  import opened Text
  import opened Utf8
  import opened Credentials

  /** A write later than this many seconds after the previous one starts a new message. */
  const SESSION_GAP: real := 1.0

  /** The two fields of the characteristic: the byte buffer and the time of the last write. */
  datatype SepState = SepState(fullMsg: seq<byte>, lastUpdateAt: real)

  /**
   * The text handed to `parse_and_set_wifi` for a buffer, if any: present
   * exactly when the buffer is UTF-8 text ending in `END`, and then the
   * text up to the FIRST `END`.
   */
  function CompletedMessage(buf: seq<byte>): (r: Option<string>)
    ensures r.Some? ==> Decode(buf).Some? && EndsWith(Decode(buf).value, END)
    ensures r.Some? ==> !Contains(r.value, END)
  {
    match Decode(buf)
    case None => None
    case Some(text) => if EndsWith(text, END) then Some(Split(text, END)[0]) else None
  }

  lemma CompletedMessageSpec(buf: seq<byte>)
    ensures CompletedMessage(buf).Some? <==> Decode(buf).Some? && EndsWith(Decode(buf).value, END)
    ensures CompletedMessage(buf).Some? ==>
      var text, msg := Decode(buf).value, CompletedMessage(buf).value;
      && Find(text, END) == Some(|msg|)
      && |msg| + |END| <= |text| && text[..|msg| + |END|] == msg + END
  {
    if CompletedMessage(buf).Some? {
      var text := Decode(buf).value;
      var fields := Split(text, END);
      assert |fields| >= 2 by {
        if |fields| == 1 {
          assert fields[0] == text;
          assert OccursAt(text, END, |text| - |END|);
        }
      }
      assert text == fields[0] + END + Join(fields[1..], END);
      SplitHeadIsClean(text, END);
      FindAfterCleanField(fields[0], END, Join(fields[1..], END));
    }
  }

  /** The `set_wifi` call a buffer triggers: only a completed message with three fields makes one. */
  function Triggered(buf: seq<byte>): (r: Option<WifiCredentials>)
    ensures r.Some? ==> CompletedMessage(buf).Some? && |Split(CompletedMessage(buf).value, SEP)| == 3
  {
    match CompletedMessage(buf)
    case None => None
    case Some(msg) => ParseAndSetWifi(msg)
  }

  /** One `WriteValue(value)` at time `now`: the new state and the `set_wifi` call made. */
  function SepWrite(st: SepState, value: seq<byte>, now: real): (r: (SepState, Option<WifiCredentials>))
    ensures r.0.lastUpdateAt == now
    ensures now - st.lastUpdateAt > SESSION_GAP ==> r.0.fullMsg == value
    ensures now - st.lastUpdateAt <= SESSION_GAP ==> r.0.fullMsg == st.fullMsg + value
    ensures r.1 == Triggered(r.0.fullMsg)
  {
    var kept := if now - st.lastUpdateAt > SESSION_GAP then [] else st.fullMsg;
    var buf := kept + value;
    (SepState(buf, now), Triggered(buf))
  }

  /** The characteristic's state is the two fields the source updates on every write. */
  class InputSepChrc {
    var fullMsg: seq<byte>
    var lastUpdateAt: real
    /** The `set_wifi(ssid, password)` calls made so far, oldest first. */
    ghost var applied: seq<WifiCredentials>

    function State(): SepState
      reads this
    {
      SepState(fullMsg, lastUpdateAt)
    }

    constructor(now: real)
      ensures fullMsg == [] && lastUpdateAt == now && applied == []
    {
      fullMsg := [];
      lastUpdateAt := now;
      applied := [];
    }

    method WriteValue(value: seq<byte>, now: real)
      modifies this
      ensures fullMsg == (if now - old(lastUpdateAt) > SESSION_GAP then [] else old(fullMsg)) + value
      ensures lastUpdateAt == now
      ensures applied == old(applied) + OptionToSeq(Triggered(fullMsg))
      ensures (State(), Triggered(fullMsg)) == SepWrite(old(State()), value, now)
    {
      if now - lastUpdateAt > SESSION_GAP {
        fullMsg := [];
      }
      lastUpdateAt := now;
      fullMsg := fullMsg + value;
      assert State() == SepWrite(old(State()), value, now).0;
      var text := Decode(fullMsg);
      if text.Some? && EndsWith(text.value, END) {
        var msg := Split(text.value, END)[0];
        var call := ParseAndSetWifi(msg);
        assert Triggered(fullMsg) == call;
        if call.Some? {
          applied := applied + [call.value];
        }
      } else {
        assert Triggered(fullMsg) == None;
      }
    }
  }

  /** One write as the host delivers it: the bytes and the time of delivery. */
  datatype Write = Write(value: seq<byte>, at: real)

  /** One write as a step of the characteristic's state machine. */
  function WriteStep(st: SepState, w: Write): (SepState, Option<WifiCredentials>) {
    SepWrite(st, w.value, w.at)
  }

  /** Writes applied in order by `step`: the final state and every call made, in order. */
  function Replay<S, E>(step: (S, Write) -> (S, Option<E>), st: S, writes: seq<Write>): (r: (S, seq<E>))
    decreases |writes|
    ensures |r.1| <= |writes|
  {
    if writes == [] then (st, [])
    else
      var s := step(st, writes[0]);
      var rest := Replay(step, s.0, writes[1..]);
      (rest.0, OptionToSeq(s.1) + rest.1)
  }

  /** Replaying two batches in turn is replaying their concatenation. */
  lemma {:induction false} ReplayAppend<S, E>(step: (S, Write) -> (S, Option<E>), st: S, a: seq<Write>, b: seq<Write>)
    ensures var x := Replay(step, st, a);
      var y := Replay(step, x.0, b);
      Replay(step, st, a + b) == (y.0, x.1 + y.1)
    decreases |a|
  {
    if a == [] {
      assert a + b == b;
      assert [] + Replay(step, st, b).1 == Replay(step, st, b).1;
    } else {
      var s := step(st, a[0]);
      assert (a + b)[0] == a[0] && (a + b)[1..] == a[1..] + b;
      ReplayAppend(step, s.0, a[1..], b);
      var x := Replay(step, s.0, a[1..]);
      var y := Replay(step, x.0, b);
      assert OptionToSeq(s.1) + (x.1 + y.1) == (OptionToSeq(s.1) + x.1) + y.1;
    }
  }

  /** A sequence of writes applied in delivery order: the final state and every `set_wifi` call. */
  function Run(st: SepState, writes: seq<Write>): (r: (SepState, seq<WifiCredentials>))
    ensures |r.1| <= |writes|
  {
    Replay(WriteStep, st, writes)
  }

  function Concat(writes: seq<Write>): seq<byte>
    decreases |writes|
  {
    if writes == [] then [] else writes[0].value + Concat(writes[1..])
  }

  /** No gap of more than a second between successive writes. */
  predicate Timely(writes: seq<Write>) {
    forall i :: 0 < i < |writes| ==> writes[i].at - writes[i - 1].at <= SESSION_GAP
  }

  /**
   * The last write carries bytes. Earlier writes may be empty: an empty
   * write leaves a proper prefix incomplete. An empty write after the
   * last byte would trigger the parse again (`EmptyWriteReappliesMessage`).
   */
  predicate LastChunkNonEmpty(writes: seq<Write>) {
    |writes| >= 1 && writes[|writes| - 1].value != []
  }

  lemma {:induction false} ConcatNonEmpty(writes: seq<Write>)
    requires LastChunkNonEmpty(writes)
    ensures Concat(writes) != []
    decreases |writes|
  {
    if |writes| > 1 {
      assert writes[1..][|writes[1..]| - 1] == writes[|writes| - 1];
      ConcatNonEmpty(writes[1..]);
    }
  }

  /** A whole encoded message whose only `END` is the final one completes as that message. */
  lemma CompletedWhole(msg: string)
    requires Clean(msg, END)
    ensures CompletedMessage(Encode(msg + END)) == Some(msg)
  {
    DecodeEncode(msg + END);
    assert msg + END == msg + END + "";
    SplitCons(msg, END, "");
  }

  /** A proper prefix of such a message never completes, however it was cut. */
  lemma NoEarlyCompletion(msg: string, k: nat)
    requires Clean(msg, END) && k < |Encode(msg + END)|
    ensures CompletedMessage(Encode(msg + END)[..k]).None?
  {
    var s := msg + END;
    if Decode(Encode(s)[..k]).Some? {
      DecodeEncodedPrefix(s, k);
      var t := Decode(Encode(s)[..k]).value;
      if EndsWith(t, END) {
        var j := |t| - |END|;
        assert s[j..j + |END|] == t[j..];
        assert OccursAt(s, END, j) && j < |msg|;
        assert false;
      }
    }
  }

  /** The last write of a whole encoded message makes the call its text calls for. */
  lemma TriggeredWhole(msg: string)
    requires Clean(msg, END)
    ensures Triggered(Encode(msg + END)) == ParseAndSetWifi(msg)
  {
    CompletedWhole(msg);
  }

  /** An earlier write of it makes none. */
  lemma TriggeredPrefix(msg: string, k: nat)
    requires Clean(msg, END) && k < |Encode(msg + END)|
    ensures Triggered(Encode(msg + END)[..k]).None?
  {
    NoEarlyCompletion(msg, k);
  }

  /** `Run` of a non-empty sequence of writes: the first write, then the rest. */
  lemma RunFirst(st: SepState, writes: seq<Write>)
    requires |writes| >= 1
    ensures var step := SepWrite(st, writes[0].value, writes[0].at);
      Run(st, writes) == (Run(step.0, writes[1..]).0, OptionToSeq(step.1) + Run(step.0, writes[1..]).1)
  {
  }

  lemma TimelyTail(writes: seq<Write>)
    requires |writes| >= 1 && Timely(writes)
    ensures Timely(writes[1..])
  {
    var rest := writes[1..];
    forall i | 0 < i < |rest| ensures rest[i].at - rest[i - 1].at <= SESSION_GAP {
      assert rest[i] == writes[i + 1] && rest[i - 1] == writes[i];
    }
  }

  /**
   * One timely write that extends the buffer along the encoded message:
   * it makes the message's call when it completes the message, and none
   * before.
   */
  lemma DeliverOne(st: SepState, value: seq<byte>, now: real, msg: string)
    requires Clean(msg, END) && now - st.lastUpdateAt <= SESSION_GAP
    requires |st.fullMsg + value| <= |Encode(msg + END)|
    requires st.fullMsg + value == Encode(msg + END)[..|st.fullMsg + value|]
    ensures SepWrite(st, value, now).0 == SepState(st.fullMsg + value, now)
    ensures SepWrite(st, value, now).1
         == if |st.fullMsg + value| == |Encode(msg + END)| then ParseAndSetWifi(msg) else None
  {
    var buf := st.fullMsg + value;
    if |buf| == |Encode(msg + END)| {
      assert buf == Encode(msg + END);
      TriggeredWhole(msg);
    } else {
      TriggeredPrefix(msg, |buf|);
    }
  }

  /**
   * Delivery from `done` on: when the buffer already holds `done` and the
   * remaining chunks, the last one non-empty, follow in time and complete the encoded
   * message, the last write triggers exactly the message's call.
   */
  lemma {:induction false} DeliverRest(st: SepState, writes: seq<Write>, msg: string)
    requires Clean(msg, END) && |writes| >= 1
    requires LastChunkNonEmpty(writes) && Timely(writes)
    requires writes[0].at - st.lastUpdateAt <= SESSION_GAP
    requires st.fullMsg + Concat(writes) == Encode(msg + END)
    ensures Run(st, writes).1 == OptionToSeq(ParseAndSetWifi(msg))
    ensures Run(st, writes).0.fullMsg == Encode(msg + END)
    decreases |writes|
  {
    var whole := Encode(msg + END);
    var w := writes[0];
    var rest := writes[1..];
    var buf := st.fullMsg + w.value;
    assert Concat(writes) == w.value + Concat(rest);
    assert buf + Concat(rest) == whole;
    assert buf == whole[..|buf|];
    DeliverOne(st, w.value, w.at, msg);
    var st1 := SepState(buf, w.at);
    RunFirst(st, writes);
    if |writes| == 1 {
      assert Run(st1, rest) == (st1, []);
    } else {
      assert rest[|rest| - 1] == writes[|writes| - 1];
      ConcatNonEmpty(rest);
      TimelyTail(writes);
      DeliverRest(st1, rest, msg);
    }
  }

  /**
   * A message cut into chunks of any sizes, the last one non-empty, written with no gap
   * over a second and starting a new session, makes exactly the one
   * `set_wifi` call its text calls for, on the last chunk; the buffer then
   * holds the whole message.
   */
  lemma ChunkedDelivery(st: SepState, writes: seq<Write>, msg: string)
    requires Clean(msg, END) && |writes| >= 1
    requires LastChunkNonEmpty(writes) && Timely(writes)
    requires st.fullMsg == [] || writes[0].at - st.lastUpdateAt > SESSION_GAP
    requires Concat(writes) == Encode(msg + END)
    ensures Run(st, writes).1 == OptionToSeq(ParseAndSetWifi(msg))
    ensures Run(st, writes).0.fullMsg == Encode(msg + END)
  {
    if writes[0].at - st.lastUpdateAt > SESSION_GAP {
      var st' := SepState([], writes[0].at - SESSION_GAP);
      assert SepWrite(st, writes[0].value, writes[0].at) == SepWrite(st', writes[0].value, writes[0].at);
      assert Run(st, writes) == Run(st', writes);
      DeliverRest(st', writes, msg);
    } else {
      DeliverRest(st, writes, msg);
    }
  }

  /** The end-to-end form: a well-formed credential message applies its own credentials once. */
  lemma ChunkedCredentials(st: SepState, writes: seq<Write>, key: string, ssid: string, password: string)
    requires Clean(key, SEP) && Clean(ssid, SEP) && !Contains(password, SEP)
    requires Clean(key + SEP + ssid + SEP + password, END)
    requires |writes| >= 1 && LastChunkNonEmpty(writes) && Timely(writes)
    requires st.fullMsg == [] || writes[0].at - st.lastUpdateAt > SESSION_GAP
    requires Concat(writes) == Encode(key + SEP + ssid + SEP + password + END)
    ensures Run(st, writes).1 == [WifiCredentials(ssid, password)]
  {
    ChunkedDelivery(st, writes, key + SEP + ssid + SEP + password);
    ParseWellFormed(key, ssid, password);
  }

  lemma RunAppend(st: SepState, a: seq<Write>, b: seq<Write>)
    ensures Run(st, a + b) == (Run(Run(st, a).0, b).0, Run(st, a).1 + Run(Run(st, a).0, b).1)
  {
    ReplayAppend(WriteStep, st, a, b);
  }

  lemma {:induction false} RunLastUpdate(st: SepState, writes: seq<Write>)
    requires |writes| >= 1
    ensures Run(st, writes).0.lastUpdateAt == writes[|writes| - 1].at
    decreases |writes|
  {
    RunFirst(st, writes);
    if |writes| > 1 {
      RunLastUpdate(SepWrite(st, writes[0].value, writes[0].at).0, writes[1..]);
    } else {
      assert Run(SepWrite(st, writes[0].value, writes[0].at).0, writes[1..]).0 == SepWrite(st, writes[0].value, writes[0].at).0;
    }
  }

  /**
   * A gap of more than a second forgets everything written before it: the
   * calls made from then on are those of the later writes alone, starting
   * from an empty buffer.
   */
  lemma GapForgetsEarlierWrites(st: SepState, writes: seq<Write>, i: nat)
    requires 0 < i < |writes| && writes[i].at - writes[i - 1].at > SESSION_GAP
    ensures Run(st, writes).1
         == Run(st, writes[..i]).1 + Run(SepState([], writes[i - 1].at), writes[i..]).1
  {
    var restart := SepState([], writes[i - 1].at);
    var mid := Run(st, writes[..i]).0;
    assert mid.lastUpdateAt == writes[i - 1].at by { RunLastUpdate(st, writes[..i]); }
    StaleStatesAgree(mid, restart, writes[i]);
    ReplayRestart(WriteStep, st, writes, i, restart);
  }

  /** After a gap, what the buffer held before does not matter. */
  lemma {:induction false} StaleStatesAgree(st1: SepState, st2: SepState, w: Write)
    requires w.at - st1.lastUpdateAt > SESSION_GAP && w.at - st2.lastUpdateAt > SESSION_GAP
    ensures WriteStep(st1, w) == WriteStep(st2, w)
  {
    assert WriteStep(st1, w).0 == SepState(w.value, w.at);
    assert WriteStep(st2, w).0 == SepState(w.value, w.at);
  }

  /**
   * When write `i` takes the state reached before it to the same place as
   * it takes `restart`, the writes from `i` on replay as if from `restart`.
   */
  lemma {:induction false} ReplayRestart<S, E>(step: (S, Write) -> (S, Option<E>), st: S, writes: seq<Write>, i: nat, restart: S)
    requires 0 < i < |writes|
    requires step(Replay(step, st, writes[..i]).0, writes[i]) == step(restart, writes[i])
    ensures Replay(step, st, writes).1 == Replay(step, st, writes[..i]).1 + Replay(step, restart, writes[i..]).1
  {
    var earlier, later := writes[..i], writes[i..];
    assert writes == earlier + later;
    ReplayAppend(step, st, earlier, later);
    assert later[0] == writes[i];
  }

  /** Two writes: the first, then the second from the state the first left. */
  lemma RunTwo(st: SepState, w1: Write, w2: Write)
    ensures var s1 := SepWrite(st, w1.value, w1.at);
      var s2 := SepWrite(s1.0, w2.value, w2.at);
      Run(st, [w1, w2]) == (s2.0, OptionToSeq(s1.1) + OptionToSeq(s2.1))
  {
    ReplayTwo(WriteStep, st, w1, w2);
  }

  lemma ReplayTwo<S, E>(step: (S, Write) -> (S, Option<E>), st: S, w1: Write, w2: Write)
    ensures var s1 := step(st, w1);
      var s2 := step(s1.0, w2);
      Replay(step, st, [w1, w2]) == (s2.0, OptionToSeq(s1.1) + OptionToSeq(s2.1))
  {
    var s1 := step(st, w1);
    var s2 := step(s1.0, w2);
    assert [w1, w2][1..] == [w2];
    assert [w2][1..] == [];
    assert Replay(step, s2.0, []) == (s2.0, []);
    assert OptionToSeq(s2.1) + [] == OptionToSeq(s2.1);
    assert Replay(step, s1.0, [w2]) == (s2.0, OptionToSeq(s2.1));
  }

  /** A whole message written into an empty or stale buffer fills it and makes the message's call. */
  lemma FreshMessage(st: SepState, msg: string, t: real)
    requires Clean(msg, END)
    requires st.fullMsg == [] || t - st.lastUpdateAt > SESSION_GAP
    ensures SepWrite(st, Encode(msg + END), t) == (SepState(Encode(msg + END), t), ParseAndSetWifi(msg))
  {
    assert [] + Encode(msg + END) == Encode(msg + END);
    TriggeredWhole(msg);
  }

  /**
   * The buffer is not emptied after a parse: a second complete message
   * written within a second of a first one triggers the FIRST message's
   * call again, and the second message is never applied.
   */
  lemma SecondMessageWithinGapReappliesFirst(st: SepState, msg1: string, msg2: string, t1: real, t2: real)
    requires Clean(msg1, END) && Clean(msg2, END)
    requires st.fullMsg == [] || t1 - st.lastUpdateAt > SESSION_GAP
    requires t2 - t1 <= SESSION_GAP
    ensures Run(st, [Write(Encode(msg1 + END), t1), Write(Encode(msg2 + END), t2)]).1
         == OptionToSeq(ParseAndSetWifi(msg1)) + OptionToSeq(ParseAndSetWifi(msg1))
  {
    var b1, b2 := Encode(msg1 + END), Encode(msg2 + END);
    FreshMessage(st, msg1, t1);
    var s1 := SepState(b1, t1);
    assert SepWrite(s1, b2, t2).0.fullMsg == b1 + b2;
    TriggeredTwice(msg1, msg2);
    RunTwo(st, Write(b1, t1), Write(b2, t2));
  }

  /**
   * An empty write within a second of a whole message finds the buffer
   * still complete and applies the message a second time.
   */
  lemma EmptyWriteReappliesMessage(st: SepState, msg: string, t1: real, t2: real)
    requires Clean(msg, END)
    requires st.fullMsg == [] || t1 - st.lastUpdateAt > SESSION_GAP
    requires t2 - t1 <= SESSION_GAP
    ensures Run(st, [Write(Encode(msg + END), t1), Write([], t2)]).1
         == OptionToSeq(ParseAndSetWifi(msg)) + OptionToSeq(ParseAndSetWifi(msg))
  {
    var b := Encode(msg + END);
    FreshMessage(st, msg, t1);
    assert SepWrite(SepState(b, t1), [], t2).0.fullMsg == b + [] == b;
    TriggeredWhole(msg);
    RunTwo(st, Write(b, t1), Write([], t2));
  }

  /** A buffer holding two whole messages triggers the first one. */
  lemma TriggeredTwice(msg1: string, msg2: string)
    requires Clean(msg1, END)
    ensures Triggered(Encode(msg1 + END) + Encode(msg2 + END)) == ParseAndSetWifi(msg1)
  {
    EncodeAppend(msg1 + END, msg2 + END);
    var text := msg1 + END + (msg2 + END);
    DecodeEncode(text);
    SplitCons(msg1, END, msg2 + END);
    assert EndsWith(text, END);
  }

  /** With a pause of more than a second in between, both messages are applied in order. */
  lemma SecondMessageAfterGapAppliesBoth(st: SepState, msg1: string, msg2: string, t1: real, t2: real)
    requires Clean(msg1, END) && Clean(msg2, END)
    requires st.fullMsg == [] || t1 - st.lastUpdateAt > SESSION_GAP
    requires t2 - t1 > SESSION_GAP
    ensures Run(st, [Write(Encode(msg1 + END), t1), Write(Encode(msg2 + END), t2)]).1
         == OptionToSeq(ParseAndSetWifi(msg1)) + OptionToSeq(ParseAndSetWifi(msg2))
  {
    var b1, b2 := Encode(msg1 + END), Encode(msg2 + END);
    FreshMessage(st, msg1, t1);
    FreshMessage(SepState(b1, t1), msg2, t2);
    RunTwo(st, Write(b1, t1), Write(b2, t2));
  }
}
