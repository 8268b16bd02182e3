/** The edge-capture state machine: the body of `ISR(INT0_vect)` from the
    point where the duration since the last level change is known, together
    with the decode coordinator it runs and `enableReceive`.

    Each call of the handler is one atomic `Step` taking the duration in
    microseconds as input. Reading the hardware timer and its overflow
    counter to obtain that duration is not part of the model. */
module Capture {

  import opened Arith
  import opened Options
  import opened Protocols
  import opened Receiver

  /** Two gaps closer than this many microseconds are taken as the same
      sender repeating its frame. */
  const REPEAT_GAP_TOLERANCE: uint16 := 200

  /** The tolerance percentage `enableReceive` sets. */
  const DEFAULT_TOLERANCE: uint16 := 60

  /** The handler's statics `changeCount` and `repeatCount`, the buffer
      `timings`, the published result and `nReceiveTolerance`. */
  datatype CaptureState = CaptureState(
    timings: seq<uint16>,
    changeCount: nat,
    repeatCount: nat,
    received: Received,
    tolerance: uint16)

  /** What holds between two handler calls: the buffer has its fixed size,
      the write index is within it, at most one matching gap is pending,
      and none is pending before the first duration is recorded. */
  predicate Valid(s: CaptureState)
  {
    && |s.timings| == MAX_CHANGES
    && s.changeCount <= MAX_CHANGES
    && s.repeatCount <= 1
    && (s.changeCount == 0 ==> s.repeatCount == 0)
  }

  /** All statics start at zero. */
  const INITIAL: CaptureState := CaptureState(seq(MAX_CHANGES, _ => 0), 0, 0, NO_RESULT, 0)

  /** `enableReceive`: clears the published result and sets the tolerance
      to 60 percent. The capture statics are untouched. */
  function EnableReceive(s: CaptureState): (s': CaptureState)
    ensures s'.received == NO_RESULT && !Available(s'.received)
    ensures s'.tolerance == DEFAULT_TOLERANCE
    ensures s'.timings == s.timings && s'.changeCount == s.changeCount && s'.repeatCount == s.repeatCount
  {
    s.(received := NO_RESULT, tolerance := DEFAULT_TOLERANCE)
  }

  lemma InitialValid()
    ensures Valid(INITIAL) && Valid(EnableReceive(INITIAL))
  {
  }

  /** Protocol `q` decodes the buffer and no protocol from `p` up to `q`
      does. */
  predicate FirstToDecode(t: seq<uint16>, changeCount: nat, tolerance: uint16, p: nat, q: nat)
    requires |t| == MAX_CHANGES && 1 <= changeCount <= MAX_CHANGES
  {
    && p <= q && 1 <= q <= NUM_PROTO
    && ReceiveProtocol(t, q, changeCount, tolerance).Some?
    && forall q' :: p <= q' < q && q' >= 1 ==> ReceiveProtocol(t, q', changeCount, tolerance).None?
  }

  /** The loop `for (i = 1; i <= numProto; i++)` from protocol `p` on: the
      first protocol that decodes the buffer publishes; if none does, the
      prior result stays. */
  function TryProtocols(t: seq<uint16>, changeCount: nat, tolerance: uint16, prior: Received, p: nat): Received
    requires 1 <= p <= NUM_PROTO + 1
    requires |t| == MAX_CHANGES && 1 <= changeCount <= MAX_CHANGES
    decreases NUM_PROTO + 1 - p
  {
    if p > NUM_PROTO then prior
    else
      match ReceiveProtocol(t, p, changeCount, tolerance)
      case Some(r) => r
      case None => TryProtocols(t, changeCount, tolerance, prior, p + 1)
  }

  /** The first protocol from `p` on that decodes the buffer is the one
      whose result is published. */
  lemma {:induction false} FirstDecoderWins(t: seq<uint16>, changeCount: nat, tolerance: uint16, prior: Received, p: nat, q: nat)
    requires 1 <= p <= NUM_PROTO + 1
    requires |t| == MAX_CHANGES && 1 <= changeCount <= MAX_CHANGES
    requires FirstToDecode(t, changeCount, tolerance, p, q)
    ensures TryProtocols(t, changeCount, tolerance, prior, p) == ReceiveProtocol(t, q, changeCount, tolerance).value
    decreases NUM_PROTO + 1 - p
  {
    if p < q {
      assert ReceiveProtocol(t, p, changeCount, tolerance).None?;
      FirstDecoderWins(t, changeCount, tolerance, prior, p + 1, q);
    }
  }

  /** When no protocol from `p` on decodes the buffer, the prior result
      stays. */
  lemma {:induction false} NoDecoderKeepsPrior(t: seq<uint16>, changeCount: nat, tolerance: uint16, prior: Received, p: nat)
    requires 1 <= p <= NUM_PROTO + 1
    requires |t| == MAX_CHANGES && 1 <= changeCount <= MAX_CHANGES
    requires forall q :: p <= q <= NUM_PROTO ==> ReceiveProtocol(t, q, changeCount, tolerance).None?
    ensures TryProtocols(t, changeCount, tolerance, prior, p) == prior
    decreases NUM_PROTO + 1 - p
  {
    if p <= NUM_PROTO {
      assert ReceiveProtocol(t, p, changeCount, tolerance).None?;
      NoDecoderKeepsPrior(t, changeCount, tolerance, prior, p + 1);
    }
  }

  /** The decode coordinator: protocols 1 to 6 in ascending order. */
  function DecodeFrame(t: seq<uint16>, changeCount: nat, tolerance: uint16, prior: Received): (r: Received)
    requires |t| == MAX_CHANGES && 1 <= changeCount <= MAX_CHANGES
    ensures (forall q :: 1 <= q <= NUM_PROTO ==> ReceiveProtocol(t, q, changeCount, tolerance).None?) ==> r == prior
    ensures forall q :: FirstToDecode(t, changeCount, tolerance, 1, q) ==>
      r == ReceiveProtocol(t, q, changeCount, tolerance).value
  {
    DecodeFrameOutcome(t, changeCount, tolerance, prior);
    TryProtocols(t, changeCount, tolerance, prior, 1)
  }

  lemma DecodeFrameOutcome(t: seq<uint16>, changeCount: nat, tolerance: uint16, prior: Received)
    requires |t| == MAX_CHANGES && 1 <= changeCount <= MAX_CHANGES
    ensures var r := TryProtocols(t, changeCount, tolerance, prior, 1);
      && ((forall q :: 1 <= q <= NUM_PROTO ==> ReceiveProtocol(t, q, changeCount, tolerance).None?) ==> r == prior)
      && (forall q :: FirstToDecode(t, changeCount, tolerance, 1, q) ==> r == ReceiveProtocol(t, q, changeCount, tolerance).value)
  {
    if forall q :: 1 <= q <= NUM_PROTO ==> ReceiveProtocol(t, q, changeCount, tolerance).None? {
      NoDecoderKeepsPrior(t, changeCount, tolerance, prior, 1);
    }
    forall q | FirstToDecode(t, changeCount, tolerance, 1, q)
      ensures TryProtocols(t, changeCount, tolerance, prior, 1) == ReceiveProtocol(t, q, changeCount, tolerance).value
    {
      FirstDecoderWins(t, changeCount, tolerance, prior, 1, q);
    }
  }

  /** A duration long enough to separate two transmissions, and within 200
      microseconds (as `diff` measures it) of the gap that opened the
      buffer. */
  predicate IsRepeatGap(s: CaptureState, duration: uint16)
    requires |s.timings| > 0
  {
    duration > SEPARATION_LIMIT && Diff(duration, s.timings[0]) < REPEAT_GAP_TOLERANCE
  }

  /** The handler decodes on this duration: it is the second matching gap
      in a row. */
  predicate DecodesOn(s: CaptureState, duration: uint16)
    requires |s.timings| > 0
  {
    IsRepeatGap(s, duration) && s.repeatCount == 1
  }

  /** One run of `ISR(INT0_vect)` on a level change `duration`
      microseconds after the previous one.

      A gap (over 4300 microseconds) that matches the buffer's opening gap
      counts one repeat, and on the second it runs the decode coordinator
      on the buffer as it stands; a gap that does not match leaves the
      repeat count alone. Every gap restarts the buffer. A full buffer
      restarts too and forgets the pending repeat. The duration is then
      written at the write index, which advances. */
  function Step(s: CaptureState, duration: uint16): (s': CaptureState)
    requires Valid(s)
    ensures Valid(s') && 1 <= s'.changeCount
    ensures s'.timings == s.timings[s'.changeCount - 1 := duration]
    ensures s'.tolerance == s.tolerance
    ensures duration > SEPARATION_LIMIT ==> s'.changeCount == 1
    ensures duration <= SEPARATION_LIMIT ==> s'.received == s.received
    ensures duration <= SEPARATION_LIMIT && s.changeCount < MAX_CHANGES ==>
      s'.changeCount == s.changeCount + 1 && s'.repeatCount == s.repeatCount
    ensures duration <= SEPARATION_LIMIT && s.changeCount == MAX_CHANGES ==>
      s'.changeCount == 1 && s'.repeatCount == 0
    ensures duration > SEPARATION_LIMIT && !IsRepeatGap(s, duration) ==>
      s'.repeatCount == s.repeatCount && s'.received == s.received
    ensures IsRepeatGap(s, duration) && s.repeatCount == 0 ==>
      s'.repeatCount == 1 && s'.received == s.received
    ensures DecodesOn(s, duration) ==>
      s'.repeatCount == 0 && s'.received == DecodeFrame(s.timings, s.changeCount, s.tolerance, s.received)
  {
    var gap := duration > SEPARATION_LIMIT;
    var repeats := if gap && IsRepeatGap(s, duration) then s.repeatCount + 1 else s.repeatCount;
    var received := if repeats == 2 then DecodeFrame(s.timings, s.changeCount, s.tolerance, s.received) else s.received;
    var repeatCount := if repeats == 2 then 0 else repeats;
    var index := if gap then 0 else s.changeCount;
    // a full buffer restarts at slot 0 and drops the pending repeat
    var index', repeatCount' := if index >= MAX_CHANGES then 0 else index, if index >= MAX_CHANGES then 0 else repeatCount;
    CaptureState(s.timings[index' := duration], index' + 1, repeatCount', received, s.tolerance)
  }

  /** The handler run on a sequence of durations, in order. */
  function Run(s: CaptureState, durations: seq<uint16>): (s': CaptureState)
    requires Valid(s)
    ensures Valid(s')
    ensures s'.tolerance == s.tolerance
    ensures |durations| > 0 ==> 1 <= s'.changeCount
  {
    if |durations| == 0 then s
    else Step(Run(s, durations[..|durations| - 1]), durations[|durations| - 1])
  }

  /** A decode never follows a decode: after one the repeat count is zero,
      so it takes two more matching gaps to decode again. */
  lemma NoBackToBackDecodes(s: CaptureState, d1: uint16, d2: uint16)
    requires Valid(s) && DecodesOn(s, d1)
    ensures Step(s, d1).repeatCount == 0
    ensures !DecodesOn(Step(s, d1), d2)
  {
  }

  /** Durations that are not gaps, as long as the buffer has room, are
      stored one after another behind the opening gap and change nothing
      else. */
  lemma {:induction false} DataFillsBuffer(s: CaptureState, data: seq<uint16>)
    requires Valid(s) && s.changeCount == 1
    requires |data| < MAX_CHANGES
    requires forall k :: 0 <= k < |data| ==> data[k] <= SEPARATION_LIMIT
    ensures var s' := Run(s, data);
      && s'.changeCount == 1 + |data|
      && s'.timings[..1 + |data|] == s.timings[..1] + data
      && s'.repeatCount == s.repeatCount
      && s'.received == s.received
      && s'.tolerance == s.tolerance
  {
    if |data| > 0 {
      var init := data[..|data| - 1];
      DataFillsBuffer(s, init);
      var mid := Run(s, init);
      var s' := Step(mid, data[|data| - 1]);
      assert s' == Run(s, data);
      assert s'.timings[..1 + |data|] == mid.timings[..|data|] + [data[|data| - 1]];
      assert s.timings[..1] + data == (s.timings[..1] + init) + [data[|data| - 1]];
    }
  }

  /** The framing heuristic end to end: a gap matching the buffer's opening
      gap, a run of data durations, and a second gap matching the first
      run the decode coordinator exactly once, on a buffer that starts with
      the first gap followed by the data, with `changeCount` one more than
      the number of data durations. Afterwards the second gap opens a new
      buffer and no repeat is pending. */
  lemma RepeatedGapDecodes(s: CaptureState, g1: uint16, data: seq<uint16>, g2: uint16)
    requires Valid(s) && s.repeatCount == 0 && IsRepeatGap(s, g1)
    requires |data| < MAX_CHANGES
    requires forall k :: 0 <= k < |data| ==> data[k] <= SEPARATION_LIMIT
    requires g2 > SEPARATION_LIMIT && Diff(g2, g1) < REPEAT_GAP_TOLERANCE
    ensures var mid := Run(s, [g1] + data);
      var s' := Run(s, [g1] + data + [g2]);
      && mid.timings[..1 + |data|] == [g1] + data
      && DecodesOn(mid, g2)
      && s' == Step(mid, g2)
      && s'.received == DecodeFrame(mid.timings, 1 + |data|, s.tolerance, s.received)
      && s'.repeatCount == 0 && s'.changeCount == 1 && s'.timings[0] == g2
  {
    var first := Step(s, g1);
    assert Run(s, [g1]) == first by {
      assert [g1][..0] == [];
    }
    DataFillsBuffer(first, data);
    RunAppend(s, [g1], data);
    var mid := Run(s, [g1] + data);
    assert mid.timings[..1 + |data|] == [g1] + data by {
      assert first.timings[..1] == [g1];
    }
    assert mid.timings[0] == g1 by {
      assert mid.timings[..1 + |data|][0] == g1;
    }
    assert ([g1] + data + [g2])[..|[g1] + data|] == [g1] + data;
  }

  lemma {:induction false} RunAppend(s: CaptureState, xs: seq<uint16>, ys: seq<uint16>)
    requires Valid(s)
    ensures Run(s, xs + ys) == Run(Run(s, xs), ys)
    decreases |ys|
  {
    if |ys| == 0 {
      assert xs + ys == xs;
    } else {
      var init := ys[..|ys| - 1];
      RunAppend(s, xs, init);
      assert (xs + ys)[..|xs + ys| - 1] == xs + init;
    }
  }
}
