/** The receive-side decoder of RCSwitch.c: `receiveProtocol` with its helper
    `diff`, the published result record, and `available` / `resetAvailable`.

    `receiveProtocol` is a pure function here: it reads the capture buffer,
    the protocol number, the tolerance and `changeCount`, and yields the
    record it would publish, or `None` when it returns false and publishes
    nothing. */
module Receiver {

  import opened Arith
  import opened Options
  import opened Bits
  import opened Protocols

  /** The published result: `nReceivedValue` (a `long`),
      `nReceivedBitlength`, `nReceivedDelay` and `nReceivedProtocol`. */
  datatype Received = Received(value: int32, bitlength: uint16, delay: uint16, protocol: uint16)

  /** The record `enableReceive` starts from. */
  const NO_RESULT: Received := Received(0, 0, 0, 0)

  /** `available()`: a result is unread while its value is non-zero, so a
      decoded code of 0 is never reported. */
  predicate Available(r: Received)
  {
    r.value != 0
  }

  /** `resetAvailable()` clears the value and nothing else. */
  function ResetAvailable(r: Received): (r': Received)
    ensures !Available(r')
    ensures r'.bitlength == r.bitlength && r'.delay == r.delay && r'.protocol == r.protocol
  {
    r.(value := 0)
  }

  /** `syncLengthInPulses`: the longer half of the sync pulse, which the
      decoder assumes is the gap captured in slot 0. */
  function SyncLengthInPulses(pro: Protocol): (n: uint16)
    ensures n >= pro.syncFactor.high && n >= pro.syncFactor.low
    ensures n == pro.syncFactor.high || n == pro.syncFactor.low
  {
    if pro.syncFactor.low > pro.syncFactor.high then pro.syncFactor.low else pro.syncFactor.high
  }

  /** Every protocol of the table has a sync pulse to divide by. */
  lemma SyncLengthPositive(p: nat)
    requires 1 <= p <= NUM_PROTO
    ensures SyncLengthInPulses(ProtocolAt(p)) > 0
  {
    assert ProtocolAt(p).syncFactor.high > 0;
  }

  /** The durations a pulse is expected to last, high then low. */
  datatype Levels = Levels(high: uint16, low: uint16)

  /** What `receiveProtocol` derives from the captured sync duration and
      compares the captured durations with: the base pulse length `delay`,
      the absolute `delayTolerance`, and the expected levels of a zero and a
      one, `delay * pro.zero.high` and so on. */
  datatype Window = Window(delay: uint16, tolerance: uint16, zero: Levels, one: Levels)

  /** The levels `delay` base pulses of pattern `hl` last; the products
      wrap in 16 bits. */
  function Expect(delay: uint16, hl: HighLow): Levels
  {
    Levels(Mul16(delay, hl.high), Mul16(delay, hl.low))
  }

  /** `delay = timings[0] / syncLengthInPulses` and
      `delayTolerance = delay * nReceiveTolerance / 100`, the product
      wrapping in 16 bits before the division. */
  function WindowFor(pro: Protocol, sync: uint16, percent: uint16): Window
    requires SyncLengthInPulses(pro) > 0
  {
    var delay := sync / SyncLengthInPulses(pro);
    Window(delay, Mul16(delay, percent) / 100, Expect(delay, pro.zero), Expect(delay, pro.one))
  }

  /** The window protocol `p` derives from the sync duration in slot 0. */
  function ProtocolWindow(t: seq<uint16>, p: nat, tolerance: uint16): Window
    requires 1 <= p <= NUM_PROTO && |t| > 0
  {
    SyncLengthPositive(p);
    WindowFor(ProtocolAt(p), t[0], tolerance)
  }

  /** The tolerance product wraps before the division: protocol 2 on an
      11000 microsecond gap derives delay 1100, and 1100 * 60 = 66000 wraps to
      464, so the tolerance is 4 rather than 660. */
  lemma ToleranceWraps()
    ensures var w := ProtocolWindow([11000], 2, 60);
      w.delay == 1100 && w.tolerance == 4 && w.delay * 60 / 100 == 660
  {
    var w := ProtocolWindow([11000], 2, 60);
    assert SyncLengthInPulses(ProtocolAt(2)) == 10;
    assert Mul16(1100, 60) == 464;
  }

  /** A captured duration lies strictly within tolerance of the expected
      one. */
  predicate Within(w: Window, duration: uint16, expected: uint16)
  {
    Diff(duration, expected) < w.tolerance
  }

  predicate Matches(w: Window, high: uint16, low: uint16, lv: Levels)
  {
    Within(w, high, lv.high) && Within(w, low, lv.low)
  }

  /** The bit one pair of durations encodes: zero is checked first, then one;
      a pair matching neither is `None`. */
  function PairBit(w: Window, high: uint16, low: uint16): Option<bool>
  {
    if Matches(w, high, low, w.zero) then Some(false)
    else if Matches(w, high, low, w.one) then Some(true)
    else None
  }

  /** `firstDataTiming`: data starts in slot 1, or in slot 2 for a protocol
      whose signal starts low. */
  function FirstDataTiming(pro: Protocol): nat
  {
    if pro.invertedSignal then 2 else 1
  }

  /** The duration pairs the decoder reads: slots `i`, `i + 1`, then
      `i + 2`, `i + 3`, ..., as long as `i < changeCount - 1`. */
  function Pairs(t: seq<uint16>, i: nat, changeCount: nat): (ps: seq<(uint16, uint16)>)
    requires changeCount <= |t|
    ensures i + 1 < changeCount ==> i + 2 * |ps| <= changeCount <= i + 2 * |ps| + 1
    ensures i + 1 >= changeCount ==> |ps| == 0
    decreases changeCount - i
  {
    if i + 1 < changeCount then [(t[i], t[i + 1])] + Pairs(t, i + 2, changeCount) else []
  }

  /** Pair `k` is made of slots `i + 2k` and `i + 2k + 1`, both below
      `changeCount`. */
  lemma {:induction false} PairAt(t: seq<uint16>, i: nat, changeCount: nat, k: nat)
    requires changeCount <= |t| && k < |Pairs(t, i, changeCount)|
    ensures i + 2 * k + 1 < changeCount
    ensures Pairs(t, i, changeCount)[k] == (t[i + 2 * k], t[i + 2 * k + 1])
    decreases k
  {
    PairsCons(t, i, changeCount);
    if k > 0 {
      PairAt(t, i + 2, changeCount, k - 1);
    }
  }

  /** The pairs protocol `p` reads from a capture of `changeCount` slots. */
  function DataPairs(t: seq<uint16>, p: nat, changeCount: nat): seq<(uint16, uint16)>
    requires 1 <= p <= NUM_PROTO && changeCount <= |t|
  {
    Pairs(t, FirstDataTiming(ProtocolAt(p)), changeCount)
  }

  predicate AllMatch(w: Window, ps: seq<(uint16, uint16)>)
  {
    forall k :: 0 <= k < |ps| ==> PairBit(w, ps[k].0, ps[k].1).Some?
  }

  /** The bits a fully matching sequence of pairs encodes, in order. */
  function PairBits(w: Window, ps: seq<(uint16, uint16)>): (bits: seq<bool>)
    requires AllMatch(w, ps)
    ensures |bits| == |ps|
  {
    seq(|ps|, k requires 0 <= k < |ps| => PairBit(w, ps[k].0, ps[k].1).value)
  }

  /** The loop of `receiveProtocol` from slot `i` on, with `code` the
      `uint16_t` accumulator: shift, then OR in the bit of the pair; a pair
      matching neither pattern makes the whole decode fail. */
  function Decode(t: seq<uint16>, w: Window, i: nat, changeCount: nat, code: uint16): Option<uint16>
    requires changeCount <= |t|
    decreases changeCount - i
  {
    if i + 1 < changeCount then
      match PairBit(w, t[i], t[i + 1])
      case None => None
      case Some(b) => Decode(t, w, i + 2, changeCount, Wrap16(2 * code + (if b then 1 else 0)))
    else Some(code)
  }

  /** The loop succeeds exactly when every pair it reads matches, and then
      holds the bits of those pairs, appended to what it started with,
      truncated to 16 bits. */
  lemma DecodeReadsPairs(t: seq<uint16>, w: Window, i: nat, changeCount: nat, prefix: seq<bool>, code: uint16)
    requires changeCount <= |t| && code == ValueOf(prefix) % TWO_16
    ensures var r := Decode(t, w, i, changeCount, code);
      var ps := Pairs(t, i, changeCount);
      && (r.Some? <==> AllMatch(w, ps))
      && (r.Some? ==> r.value == ValueOf(prefix + PairBits(w, ps)) % TWO_16)
  {
    DecodeMatches(t, w, i, changeCount, code);
    if AllMatch(w, Pairs(t, i, changeCount)) {
      DecodeValue(t, w, i, changeCount, prefix, code);
    }
  }

  /** The loop runs to the end exactly when every pair matches. */
  lemma {:induction false} DecodeMatches(t: seq<uint16>, w: Window, i: nat, changeCount: nat, code: uint16)
    requires changeCount <= |t|
    ensures Decode(t, w, i, changeCount, code).Some? <==> AllMatch(w, Pairs(t, i, changeCount))
    decreases changeCount - i
  {
    if i + 1 < changeCount {
      var first := PairBit(w, t[i], t[i + 1]);
      if first.None? {
        DecodeStops(t, w, i, changeCount, code);
      } else {
        var next := Wrap16(2 * code + (if first.value then 1 else 0));
        DecodeStep(t, w, i, changeCount, code, first.value);
        DecodeMatches(t, w, i + 2, changeCount, next);
        MatchingPairCons(t, w, i, changeCount);
      }
    }
  }

  /** When every pair matches, the loop ends holding the bits it started
      with followed by the pairs' bits, truncated to 16 bits. */
  lemma {:induction false} DecodeValue(t: seq<uint16>, w: Window, i: nat, changeCount: nat,
                                       prefix: seq<bool>, code: uint16)
    requires changeCount <= |t| && code == ValueOf(prefix) % TWO_16
    requires AllMatch(w, Pairs(t, i, changeCount))
    ensures Decode(t, w, i, changeCount, code)
      == Some(ValueOf(prefix + PairBits(w, Pairs(t, i, changeCount))) % TWO_16)
    decreases changeCount - i
  {
    var ps := Pairs(t, i, changeCount);
    if i + 1 < changeCount {
      PairsCons(t, i, changeCount);
      var rest := Pairs(t, i + 2, changeCount);
      assert PairBit(w, ps[0].0, ps[0].1).Some?;
      var b := PairBit(w, t[i], t[i + 1]).value;
      var next := Wrap16(2 * code + (if b then 1 else 0));
      DecodeStep(t, w, i, changeCount, code, b);
      AccumulateBit(prefix, b);
      AllMatchCons(w, ps, rest);
      DecodeValue(t, w, i + 2, changeCount, prefix + [b], next);
      PairBitsCons(w, ps, rest);
      ConcatAssoc(prefix, [b], PairBits(w, rest));
    } else {
      assert PairBits(w, ps) == [];
      assert prefix + PairBits(w, ps) == prefix;
    }
  }

  /** One turn of the loop over a matching pair shifts its bit in. */
  lemma DecodeStep(t: seq<uint16>, w: Window, i: nat, changeCount: nat, code: uint16, b: bool)
    requires changeCount <= |t| && i + 1 < changeCount
    requires PairBit(w, t[i], t[i + 1]) == Some(b)
    ensures Decode(t, w, i, changeCount, code)
      == Decode(t, w, i + 2, changeCount, Wrap16(2 * code + (if b then 1 else 0)))
  {
  }

  /** After a matching first pair, all pairs match when the rest do. */
  lemma MatchingPairCons(t: seq<uint16>, w: Window, i: nat, changeCount: nat)
    requires changeCount <= |t| && i + 1 < changeCount
    requires PairBit(w, t[i], t[i + 1]).Some?
    ensures AllMatch(w, Pairs(t, i, changeCount)) <==> AllMatch(w, Pairs(t, i + 2, changeCount))
  {
    PairsCons(t, i, changeCount);
    AllMatchCons(w, Pairs(t, i, changeCount), Pairs(t, i + 2, changeCount));
  }

  /** A pair that matches neither pattern stops the loop with nothing, and
      the pairs from there do not all match. */
  lemma DecodeStops(t: seq<uint16>, w: Window, i: nat, changeCount: nat, code: uint16)
    requires changeCount <= |t| && i + 1 < changeCount
    requires PairBit(w, t[i], t[i + 1]).None?
    ensures Decode(t, w, i, changeCount, code).None?
    ensures !AllMatch(w, Pairs(t, i, changeCount))
  {
    PairsCons(t, i, changeCount);
    assert Pairs(t, i, changeCount)[0] == (t[i], t[i + 1]);
  }

  lemma PairsCons(t: seq<uint16>, i: nat, changeCount: nat)
    requires changeCount <= |t| && i + 1 < changeCount
    ensures Pairs(t, i, changeCount) == [(t[i], t[i + 1])] + Pairs(t, i + 2, changeCount)
    ensures Pairs(t, i, changeCount)[1..] == Pairs(t, i + 2, changeCount)
  {
  }

  lemma AllMatchCons(w: Window, ps: seq<(uint16, uint16)>, rest: seq<(uint16, uint16)>)
    requires |ps| > 0 && rest == ps[1..] && PairBit(w, ps[0].0, ps[0].1).Some?
    ensures AllMatch(w, ps) <==> AllMatch(w, rest)
  {
    if AllMatch(w, rest) {
      forall k | 0 <= k < |ps|
        ensures PairBit(w, ps[k].0, ps[k].1).Some?
      {
        if k > 0 {
          assert ps[k] == rest[k - 1];
        }
      }
    }
  }

  lemma PairBitsCons(w: Window, ps: seq<(uint16, uint16)>, rest: seq<(uint16, uint16)>)
    requires |ps| > 0 && rest == ps[1..] && AllMatch(w, ps) && AllMatch(w, rest)
    ensures PairBits(w, ps) == [PairBit(w, ps[0].0, ps[0].1).value] + PairBits(w, rest)
  {
    var lhs := PairBits(w, ps);
    var rhs := [PairBit(w, ps[0].0, ps[0].1).value] + PairBits(w, rest);
    assert |lhs| == |rhs|;
    forall k | 0 <= k < |lhs|
      ensures lhs[k] == rhs[k]
    {
      if k > 0 {
        assert rhs[k] == PairBits(w, rest)[k - 1];
      }
    }
  }

  /** `receiveProtocol(p, changeCount)`. It succeeds exactly when every pair
      read matches the protocol's zero or one pattern and more than seven
      level changes were captured; it then publishes the code truncated to
      16 bits, `(changeCount - 1) / 2` as the bit length, the derived base
      pulse length and `p`. */
  function ReceiveProtocol(t: seq<uint16>, p: nat, changeCount: nat, tolerance: uint16): (r: Option<Received>)
    requires 1 <= p <= NUM_PROTO
    requires |t| == MAX_CHANGES && 1 <= changeCount <= MAX_CHANGES
    ensures var w := ProtocolWindow(t, p, tolerance);
      var ps := DataPairs(t, p, changeCount);
      && (r.Some? <==> changeCount > 7 && AllMatch(w, ps))
      && (r.Some? ==> r.value == Received(ValueOf(PairBits(w, ps)) % TWO_16, (changeCount - 1) / 2, w.delay, p))
  {
    var w := ProtocolWindow(t, p, tolerance);
    var first := FirstDataTiming(ProtocolAt(p));
    var ps := Pairs(t, first, changeCount);
    DecodeReadsPairs(t, w, first, changeCount, [], 0);
    match Decode(t, w, first, changeCount, 0)
    case None => None
    case Some(code) =>
      assert [] + PairBits(w, ps) == PairBits(w, ps);
      if changeCount > 7 then Some(Received(code, (changeCount - 1) / 2, w.delay, p)) else None
  }

  /** For frames of at most 16 bits nothing is truncated, and the result is
      reported by `available()` exactly when some pair decoded as a one. */
  lemma ShortFrameAvailable(t: seq<uint16>, p: nat, changeCount: nat, tolerance: uint16)
    requires 1 <= p <= NUM_PROTO
    requires |t| == MAX_CHANGES && 1 <= changeCount <= MAX_CHANGES
    requires ReceiveProtocol(t, p, changeCount, tolerance).Some?
    requires |DataPairs(t, p, changeCount)| <= 16
    ensures var bits := PairBits(ProtocolWindow(t, p, tolerance), DataPairs(t, p, changeCount));
      && ReceiveProtocol(t, p, changeCount, tolerance).value.value == ValueOf(bits)
      && (Available(ReceiveProtocol(t, p, changeCount, tolerance).value) <==> exists k :: 0 <= k < |bits| && bits[k])
  {
    var r := ReceiveProtocol(t, p, changeCount, tolerance).value;
    var bits := PairBits(ProtocolWindow(t, p, tolerance), DataPairs(t, p, changeCount));
    var v := ValueOf(bits);
    assert r.value == v % TWO_16;
    Pow2Monotone(|bits|, 16);
    Pow2Sixteen();
    ModUnique(v, TWO_16, 0, v);
    ValueOfZero(bits);
  }
}
