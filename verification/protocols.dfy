/** The line-coding protocols of RCSwitch: the `HighLow` and `Protocol` records
    of RCSwitch.h, the built-in table `proto[]`, `setProtocol`, and the
    constants that size and frame the receive buffer. */
module Protocols {

  import opened Arith

  /** One pulse: a high level lasting `high` base units followed by a low
      level lasting `low` base units. */
  datatype HighLow = HighLow(high: uint16, low: uint16)

  datatype Protocol = Protocol(
    pulseLength: uint16,   // base pulse length in microseconds
    syncFactor: HighLow,
    zero: HighLow,
    one: HighLow,
    invertedSignal: bool)  // pulses start low and end high

  /** `proto[]`, protocol n at position n - 1. */
  const PROTOCOLS: seq<Protocol> := [
    Protocol(350, HighLow(1, 31), HighLow(1, 3), HighLow(3, 1), false),
    Protocol(650, HighLow(1, 10), HighLow(1, 2), HighLow(2, 1), false),
    Protocol(100, HighLow(30, 71), HighLow(4, 11), HighLow(9, 6), false),
    Protocol(380, HighLow(1, 6), HighLow(1, 3), HighLow(3, 1), false),
    Protocol(500, HighLow(6, 14), HighLow(1, 2), HighLow(2, 1), false),
    Protocol(450, HighLow(23, 1), HighLow(1, 2), HighLow(2, 1), true)  // HT6P20B
  ]

  const NUM_PROTO: nat := 6

  /** `RCSWITCH_MAX_CHANGES`: slots of the receive buffer `timings`. */
  const MAX_CHANGES: nat := 67

  /** The widest frame the header sizes the buffer for: 32 data bits, two
      level changes per bit, plus two for the sync pulse. */
  const MAX_FRAME_BITS: nat := 32

  /** `nSeparationLimit`: a level lasting longer than this many microseconds
      is a candidate gap between two transmissions. */
  const SEPARATION_LIMIT: uint16 := 4300

  /** `proto[p - 1]`: protocols are numbered from 1. */
  function ProtocolAt(p: nat): Protocol
    requires 1 <= p <= NUM_PROTO
  {
    PROTOCOLS[p - 1]
  }

  /** `setProtocol`: an index outside 1..6 falls back to protocol 1. */
  function SetProtocol(n: uint16): (pro: Protocol)
    ensures pro in PROTOCOLS
    ensures 1 <= n <= NUM_PROTO ==> pro == PROTOCOLS[n - 1]
    ensures pro == PROTOCOLS[0] <==> n <= 1 || n > NUM_PROTO
  {
    var k := if n < 1 || n > NUM_PROTO then 1 else n;
    ProtocolAt(k)
  }

  /** The receive buffer holds the sync slot plus two durations for each of
      the widest frame's bits, with one slot to spare. */
  lemma BufferFitsWidestFrame()
    ensures 2 * MAX_FRAME_BITS + 2 <= MAX_CHANGES
    ensures MAX_CHANGES == 2 * MAX_FRAME_BITS + 3
  {
  }

  /** Every product `pulseLength * factor` formed from the table fits in 16
      bits, so the table's pulse durations never wrap. */
  lemma TableDurationsFit(p: nat)
    requires 1 <= p <= NUM_PROTO
    ensures var pro := ProtocolAt(p);
      && pro.pulseLength * pro.syncFactor.high < TWO_16
      && pro.pulseLength * pro.syncFactor.low < TWO_16
      && pro.pulseLength * pro.zero.high < TWO_16
      && pro.pulseLength * pro.zero.low < TWO_16
      && pro.pulseLength * pro.one.high < TWO_16
      && pro.pulseLength * pro.one.low < TWO_16
  {
  }

  // ---------------------------------------------------------------------
  // Levels. The header's account of a HighLow as a two-level waveform.

  datatype Level = High | Low

  datatype Segment = Segment(level: Level, micros: nat)

  /** A `HighLow` scaled by a base pulse length: first level lasting
      `high * pulseLength`, then the other level lasting `low * pulseLength`.
      The first level is high unless the signal is inverted. */
  function Waveform(hl: HighLow, pulseLength: nat, inverted: bool): (w: seq<Segment>)
    ensures |w| == 2 && w[0].level != w[1].level
    ensures w[0].micros + w[1].micros == (hl.high + hl.low) * pulseLength
  {
    var first := if inverted then Low else High;
    var second := if inverted then High else Low;
    [Segment(first, hl.high * pulseLength), Segment(second, hl.low * pulseLength)]
  }

  /** Inverting a signal swaps which level comes first and keeps both
      durations in place. */
  lemma InversionKeepsDurations(hl: HighLow, pulseLength: nat)
    ensures var plain := Waveform(hl, pulseLength, false);
      var inverted := Waveform(hl, pulseLength, true);
      && plain[0].level == High && inverted[0].level == Low
      && plain[0].micros == inverted[0].micros == hl.high * pulseLength
      && plain[1].micros == inverted[1].micros == hl.low * pulseLength
  {
  }
}
