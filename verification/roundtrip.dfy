/** The transmitter and the receiver together: what `receiveProtocol` and
    the capture handler make of the frames `send` puts on the air.

    A frame is its data pulses followed by the sync pulse, each pulse a high
    level and then a low level. Sent repeatedly, the long low level of one
    frame's sync pulse is the gap that opens the capture of the next, so the
    receiver records the gap, the two durations of every data pulse and the
    high level of the sync pulse, and then meets the next gap. */
module RoundTrip {

  import opened Arith
  import opened Options
  import opened Bits
  import opened Protocols
  import opened Transmitter
  import opened Receiver
  import opened Capture

  /** The level durations of a pulse train, high then low for each pulse. */
  function Durations(ps: seq<Pulse>): (ds: seq<uint16>)
    ensures |ds| == 2 * |ps|
  {
    if |ps| == 0 then [] else [ps[0].high, ps[0].low] + Durations(ps[1..])
  }

  /** Pulse `k` occupies durations `2k` and `2k + 1`. */
  lemma {:induction false} DurationsAt(ps: seq<Pulse>, k: nat)
    requires k < |ps|
    ensures Durations(ps)[2 * k] == ps[k].high && Durations(ps)[2 * k + 1] == ps[k].low
  {
    if k > 0 {
      DurationsAt(ps[1..], k - 1);
      assert Durations(ps) == [ps[0].high, ps[0].low] + Durations(ps[1..]);
    }
  }

  /** The low level of the sync pulse: the gap between two frames. */
  function Gap(pro: Protocol): uint16
  {
    Transmit(pro, pro.syncFactor).low
  }

  /** What the receiver holds in slots 0 to `2 * length + 1` once the gap
      after a frame arrives: the gap before the frame, then every duration
      of the frame but the last. */
  function CapturedFrame(pro: Protocol, code: uint16, length: uint16): (ds: seq<uint16>)
    ensures |ds| == 2 * BitCount(length) + 2
    ensures ds[0] == Gap(pro)
  {
    var d := Durations(Frame(pro, code, length));
    [Gap(pro)] + d[..|d| - 1]
  }

  /** The window protocol `q` derives from the gap of protocol `p`, at the
      tolerance `enableReceive` sets. */
  function CrossWindow(p: nat, q: nat): Window
    requires 1 <= p <= NUM_PROTO && 1 <= q <= NUM_PROTO
  {
    SyncLengthPositive(q);
    WindowFor(ProtocolAt(q), Gap(ProtocolAt(p)), DEFAULT_TOLERANCE)
  }

  /** How protocol `q` reads one data pulse of protocol `p` carrying `b`. */
  function Reading(p: nat, q: nat, b: bool): Option<bool>
    requires 1 <= p <= NUM_PROTO && 1 <= q <= NUM_PROTO
  {
    var pulse := BitPulse(ProtocolAt(p), b);
    PairBit(CrossWindow(p, q), pulse.high, pulse.low)
  }

  /** Unfolds `Reading` once the window and the two pulses are known. */
  lemma ReadingIs(p: nat, q: nat, w: Window, zero: Pulse, one: Pulse)
    requires 1 <= p <= NUM_PROTO && 1 <= q <= NUM_PROTO
    requires CrossWindow(p, q) == w
    requires BitPulse(ProtocolAt(p), false) == zero && BitPulse(ProtocolAt(p), true) == one
    ensures Reading(p, q, false) == PairBit(w, zero.high, zero.low)
    ensures Reading(p, q, true) == PairBit(w, one.high, one.low)
  {
  }

  /** The data pulses of protocols 1 to 5 in microseconds. */
  lemma PulsesOf(p: nat)
    requires 1 <= p <= 5
    ensures var zero := BitPulse(ProtocolAt(p), false);
      var one := BitPulse(ProtocolAt(p), true);
      match p
      case 1 => zero == Pulse(350, 1050) && one == Pulse(1050, 350)
      case 2 => zero == Pulse(650, 1300) && one == Pulse(1300, 650)
      case 3 => zero == Pulse(400, 1100) && one == Pulse(900, 600)
      case 4 => zero == Pulse(380, 1140) && one == Pulse(1140, 380)
      case _ => zero == Pulse(500, 1000) && one == Pulse(1000, 500)
  {
    match p {
      case 1 =>
      case 2 =>
      case 3 =>
      case 4 =>
      case _ =>
    }
  }

  /** Protocols 1 to 5 read their own pulses back at the default tolerance,
      and the base pulse length they recover from their own gap is their
      pulse length. */
  lemma OwnReading(p: nat)
    requires 1 <= p <= 5
    ensures Reading(p, p, false) == Some(false) && Reading(p, p, true) == Some(true)
    ensures CrossWindow(p, p).delay == ProtocolAt(p).pulseLength
  {
    var w := OwnWindow(p);
    var zero, one := BitPulse(ProtocolAt(p), false), BitPulse(ProtocolAt(p), true);
    ReadingIs(p, p, w, zero, one);
    PulsesOf(p);
    if p == 1 {
      assert PairBit(w, 350, 1050) == Some(false) && PairBit(w, 1050, 350) == Some(true);
    } else if p == 2 {
      assert PairBit(w, 650, 1300) == Some(false) && PairBit(w, 1300, 650) == Some(true);
    } else if p == 3 {
      assert PairBit(w, 400, 1100) == Some(false) && PairBit(w, 900, 600) == Some(true);
    } else if p == 4 {
      assert PairBit(w, 380, 1140) == Some(false) && PairBit(w, 1140, 380) == Some(true);
    } else {
      assert PairBit(w, 500, 1000) == Some(false) && PairBit(w, 1000, 500) == Some(true);
    }
  }

  /** The window protocols 1 to 5 derive from their own gap: their pulse
      length, with 60 percent of it as the tolerance, and their own
      patterns in microseconds. */
  lemma OwnWindow(p: nat) returns (w: Window)
    requires 1 <= p <= 5
    ensures w == CrossWindow(p, p)
    ensures w.delay == ProtocolAt(p).pulseLength
    ensures match p
      case 1 => w == Window(350, 210, Levels(350, 1050), Levels(1050, 350))
      case 2 => w == Window(650, 390, Levels(650, 1300), Levels(1300, 650))
      case 3 => w == Window(100, 60, Levels(400, 1100), Levels(900, 600))
      case 4 => w == Window(380, 228, Levels(380, 1140), Levels(1140, 380))
      case _ => w == Window(500, 300, Levels(500, 1000), Levels(1000, 500))
  {
    w := CrossWindow(p, p);
    if p == 1 {
      OwnWindowOne();
    } else if p == 2 {
      OwnWindowTwo();
    } else if p == 3 {
      OwnWindowThree();
    } else if p == 4 {
      OwnWindowFour();
    } else {
      OwnWindowFive();
    }
  }

  lemma OwnWindowOne()
    ensures CrossWindow(1, 1) == Window(350, 210, Levels(350, 1050), Levels(1050, 350))
    ensures ProtocolAt(1).pulseLength == 350
  {
    assert Gap(ProtocolAt(1)) == 10850;
  }

  lemma OwnWindowTwo()
    ensures CrossWindow(2, 2) == Window(650, 390, Levels(650, 1300), Levels(1300, 650))
    ensures ProtocolAt(2).pulseLength == 650
  {
    assert Gap(ProtocolAt(2)) == 6500;
  }

  lemma OwnWindowThree()
    ensures CrossWindow(3, 3) == Window(100, 60, Levels(400, 1100), Levels(900, 600))
    ensures ProtocolAt(3).pulseLength == 100
  {
    assert Gap(ProtocolAt(3)) == 7100;
  }

  lemma OwnWindowFour()
    ensures CrossWindow(4, 4) == Window(380, 228, Levels(380, 1140), Levels(1140, 380))
    ensures ProtocolAt(4).pulseLength == 380
  {
    assert Gap(ProtocolAt(4)) == 2280;
  }

  lemma OwnWindowFive()
    ensures CrossWindow(5, 5) == Window(500, 300, Levels(500, 1000), Levels(1000, 500))
    ensures ProtocolAt(5).pulseLength == 500
  {
    assert Gap(ProtocolAt(5)) == 7000;
  }

  /** Computes `CrossWindow` one step at a time: the base length from the
      gap, the tolerance from the base length, then the expected levels. */
  lemma CrossWindowIs(p: nat, q: nat, gap: uint16, sync: uint16, delay: uint16, w: Window)
    requires 1 <= p <= NUM_PROTO && 1 <= q <= NUM_PROTO
    requires Gap(ProtocolAt(p)) == gap && SyncLengthInPulses(ProtocolAt(q)) == sync
    requires sync > 0 && gap / sync == delay
    requires w.delay == delay && w.tolerance == Mul16(delay, DEFAULT_TOLERANCE) / 100
    requires w.zero == Expect(delay, ProtocolAt(q).zero) && w.one == Expect(delay, ProtocolAt(q).one)
    ensures CrossWindow(p, q) == w
  {
  }

  /** Protocol 1, tried first, reads no pulse of protocols 2, 3 and 5:
      their gaps give it base lengths of 209, 229 and 225 microseconds. */
  lemma ProtocolOneRejects(p: nat)
    requires p in {2, 3, 5}
    ensures Reading(p, 1, false).None? && Reading(p, 1, true).None?
  {
    if p == 2 {
      ProtocolOneRejectsTwo();
    } else if p == 3 {
      ProtocolOneRejectsThree();
    } else {
      ProtocolOneRejectsFive();
    }
  }

  lemma ProtocolOneRejectsTwo()
    ensures Reading(2, 1, false).None? && Reading(2, 1, true).None?
  {
    PulsesOf(2);
    var w := Window(209, 125, Levels(209, 627), Levels(627, 209));
    assert Gap(ProtocolAt(2)) == 6500;
    CrossWindowIs(2, 1, 6500, 31, 209, w);
    ReadingIs(2, 1, w, Pulse(650, 1300), Pulse(1300, 650));
    assert PairBit(w, 650, 1300).None? && PairBit(w, 1300, 650).None?;
  }

  lemma ProtocolOneRejectsThree()
    ensures Reading(3, 1, false).None? && Reading(3, 1, true).None?
  {
    PulsesOf(3);
    var w := Window(229, 137, Levels(229, 687), Levels(687, 229));
    assert Gap(ProtocolAt(3)) == 7100;
    CrossWindowIs(3, 1, 7100, 31, 229, w);
    ReadingIs(3, 1, w, Pulse(400, 1100), Pulse(900, 600));
    assert PairBit(w, 400, 1100).None? && PairBit(w, 900, 600).None?;
  }

  lemma ProtocolOneRejectsFive()
    ensures Reading(5, 1, false).None? && Reading(5, 1, true).None?
  {
    PulsesOf(5);
    var w := Window(225, 135, Levels(225, 675), Levels(675, 225));
    assert Gap(ProtocolAt(5)) == 7000;
    CrossWindowIs(5, 1, 7000, 31, 225, w);
    ReadingIs(5, 1, w, Pulse(500, 1000), Pulse(1000, 500));
    assert PairBit(w, 500, 1000).None? && PairBit(w, 1000, 500).None?;
  }

  /** Protocol 2 reads protocol 5's pulses as the bits they carry, at a
      base length of 700 microseconds. */
  lemma ProtocolTwoReadsFive()
    ensures Reading(5, 2, false) == Some(false) && Reading(5, 2, true) == Some(true)
    ensures CrossWindow(5, 2).delay == 700
  {
    PulsesOf(5);
    var w := Window(700, 420, Levels(700, 1400), Levels(1400, 700));
    assert Gap(ProtocolAt(5)) == 7000;
    CrossWindowIs(5, 2, 7000, 10, 700, w);
    ReadingIs(5, 2, w, Pulse(500, 1000), Pulse(1000, 500));
    assert PairBit(w, 500, 1000) == Some(false) && PairBit(w, 1000, 500) == Some(true);
  }

  /** Of protocol 3's pulses, protocol 2 reads the zeros only, at a base
      length of 710 microseconds. */
  lemma ProtocolTwoReadsThreesZeros()
    ensures Reading(3, 2, false) == Some(false) && Reading(3, 2, true).None?
    ensures CrossWindow(3, 2).delay == 710
  {
    PulsesOf(3);
    var w := Window(710, 426, Levels(710, 1420), Levels(1420, 710));
    assert Gap(ProtocolAt(3)) == 7100;
    CrossWindowIs(3, 2, 7100, 10, 710, w);
    ReadingIs(3, 2, w, Pulse(400, 1100), Pulse(900, 600));
    assert PairBit(w, 400, 1100) == Some(false) && PairBit(w, 900, 600).None?;
  }

  /** Pulse `j` of a frame sits in slots `2j + 1` (high) and `2j + 2`
      (low) of its capture; the low level of the sync pulse is not
      captured, since it is the next gap. */
  lemma CapturedAt(pro: Protocol, code: uint16, length: uint16, j: nat)
    requires j <= BitCount(length)
    ensures var f := Frame(pro, code, length);
      var c := CapturedFrame(pro, code, length);
      && c[1 + 2 * j] == f[j].high
      && (j < BitCount(length) ==> c[2 + 2 * j] == f[j].low)
  {
    var f := Frame(pro, code, length);
    var d := Durations(f);
    assert CapturedFrame(pro, code, length) == [Gap(pro)] + d[..|d| - 1];
    DurationsAt(f, j);
    ShiftedAt(Gap(pro), d, 2 * j);
    if j < BitCount(length) {
      ShiftedAt(Gap(pro), d, 2 * j + 1);
    }
  }

  /** Putting `g` in front and dropping the last element moves every
      other element one place on. */
  lemma ShiftedAt<T>(g: T, d: seq<T>, i: nat)
    requires i + 1 < |d|
    ensures ([g] + d[..|d| - 1])[i + 1] == d[i]
  {
  }

  /** Every level a protocol sends, but the low level of its sync pulse,
      lasts at most 4300 microseconds. */
  predicate ShortLevels(pro: Protocol)
  {
    var zero, one, sync := BitPulse(pro, false), BitPulse(pro, true), Transmit(pro, pro.syncFactor);
    && zero.high <= SEPARATION_LIMIT && zero.low <= SEPARATION_LIMIT
    && one.high <= SEPARATION_LIMIT && one.low <= SEPARATION_LIMIT
    && sync.high <= SEPARATION_LIMIT
  }

  /** Protocols 1 to 5 against the separation limit: all their levels but
      the gap are short, and the gap is longer for all of them but
      protocol 4, whose 2280 microseconds never separate two frames. */
  lemma PulseBounds(p: nat)
    requires 1 <= p <= 5
    ensures ShortLevels(ProtocolAt(p))
    ensures Gap(ProtocolAt(p)) > SEPARATION_LIMIT <==> p != 4
  {
    PulsesOf(p);
    match p {
      case 1 =>
      case 2 =>
      case 3 =>
      case 4 =>
      case _ =>
    }
  }

  /** Every duration the receiver records after the opening gap is at most
      4300 microseconds, so none of them restarts the capture. */
  lemma FrameIsShort(pro: Protocol, code: uint16, length: uint16)
    requires ShortLevels(pro) && 1 <= length <= 32
    ensures forall k :: 1 <= k < |CapturedFrame(pro, code, length)| ==>
      CapturedFrame(pro, code, length)[k] <= SEPARATION_LIMIT
  {
    var c := CapturedFrame(pro, code, length);
    forall k | 1 <= k < |c|
      ensures c[k] <= SEPARATION_LIMIT
    {
      var j := (k - 1) / 2;
      assert k == 1 + 2 * j || k == 2 + 2 * j;
      PulseIsShort(pro, code, length, j);
    }
  }

  lemma PulseIsShort(pro: Protocol, code: uint16, length: uint16, j: nat)
    requires ShortLevels(pro) && 1 <= length <= 32 && j <= length
    ensures var c := CapturedFrame(pro, code, length);
      && c[1 + 2 * j] <= SEPARATION_LIMIT
      && (j < length ==> c[2 + 2 * j] <= SEPARATION_LIMIT)
  {
    CapturedAt(pro, code, length, j);
    FrameLevelIsShort(pro, code, length, j);
  }

  /** Pulse `j` of a frame keeps its high level short, and its low level
      too unless it is the sync pulse. */
  lemma FrameLevelIsShort(pro: Protocol, code: uint16, length: uint16, j: nat)
    requires ShortLevels(pro) && 1 <= length <= 32 && j <= length
    ensures var f := Frame(pro, code, length);
      && f[j].high <= SEPARATION_LIMIT
      && (j < length ==> f[j].low <= SEPARATION_LIMIT)
  {
    var f := Frame(pro, code, length);
    if j < length {
      if Bit(code, length - 1 - j) {
        assert f[j] == BitPulse(pro, true);
      } else {
        assert f[j] == BitPulse(pro, false);
      }
    } else {
      assert f[j] == Transmit(pro, pro.syncFactor);
    }
  }

  /** The pairs every non-inverted protocol reads from a captured frame are
      the frame's data pulses, in order. */
  lemma {:induction false} CapturedPairs(p: nat, q: nat, code: uint16, length: uint16, t: seq<uint16>)
    requires 1 <= p <= NUM_PROTO && 1 <= q <= 5 && 1 <= length <= 32
    requires |t| == MAX_CHANGES
    requires t[..2 * length + 2] == CapturedFrame(ProtocolAt(p), code, length)
    ensures t[0] == Gap(ProtocolAt(p))
    ensures var ps := DataPairs(t, q, 2 * length + 2);
      var f := Frame(ProtocolAt(p), code, length);
      && |ps| == length
      && forall k :: 0 <= k < length ==> ps[k] == (f[k].high, f[k].low)
  {
    var pro := ProtocolAt(p);
    var f := Frame(pro, code, length);
    var cc := 2 * length + 2;
    assert t[0] == t[..cc][0];
    var ps := DataPairs(t, q, cc);
    assert ps == Pairs(t, 1, cc) by {
      StartsHigh(q);
    }
    forall k | 0 <= k < length
      ensures ps[k] == (f[k].high, f[k].low)
    {
      PairAt(t, 1, cc, k);
      CapturedPulse(pro, code, length, t, k);
    }
  }

  /** Data pulse `k` of a captured frame sits in slots `2k + 1` and
      `2k + 2`. */
  lemma CapturedPulse(pro: Protocol, code: uint16, length: uint16, t: seq<uint16>, k: nat)
    requires 1 <= length <= 32 && k < length
    requires 2 * length + 2 <= |t|
    requires t[..2 * length + 2] == CapturedFrame(pro, code, length)
    ensures var f := Frame(pro, code, length);
      t[1 + 2 * k] == f[k].high && t[2 + 2 * k] == f[k].low
  {
    var c := CapturedFrame(pro, code, length);
    CapturedAt(pro, code, length, k);
    PrefixAt(t, c, 1 + 2 * k);
    PrefixAt(t, c, 2 + 2 * k);
  }

  lemma PrefixAt<T>(t: seq<T>, c: seq<T>, i: nat)
    requires |c| <= |t| && t[..|c|] == c && i < |c|
    ensures t[i] == c[i]
  {
    assert t[..|c|][i] == t[i];
  }

  /** Only protocol 6 starts low. */
  lemma StartsHigh(q: nat)
    requires 1 <= q <= NUM_PROTO
    ensures FirstDataTiming(ProtocolAt(q)) == 1 <==> q != 6
  {
    match q {
      case 6 =>
      case 5 =>
      case 4 =>
      case 3 =>
      case 2 =>
      case _ =>
    }
  }

  /** Pair `k` of a captured frame is read as protocol `q` reads the pulse
      for bit `k` of the code, most significant first. */
  lemma FramePairReading(p: nat, q: nat, code: uint16, length: uint16, t: seq<uint16>, k: nat)
    requires 1 <= p <= NUM_PROTO && 1 <= q <= 5 && 1 <= length <= 32 && k < length
    requires |t| == MAX_CHANGES
    requires t[..2 * length + 2] == CapturedFrame(ProtocolAt(p), code, length)
    ensures var ps := DataPairs(t, q, 2 * length + 2);
      && k < |ps|
      && PairBit(ProtocolWindow(t, q, DEFAULT_TOLERANCE), ps[k].0, ps[k].1) == Reading(p, q, MsbFirst(code, length)[k])
  {
    CapturedPairs(p, q, code, length, t);
    WindowFromGap(t, p, q);
    FramePulse(ProtocolAt(p), code, length, k);
    var ps := DataPairs(t, q, 2 * length + 2);
    ReadingOf(p, q, MsbFirst(code, length)[k], ProtocolWindow(t, q, DEFAULT_TOLERANCE), ps[k].0, ps[k].1);
  }

  /** The window any protocol derives from a buffer opened by protocol
      `p`'s gap. */
  lemma WindowFromGap(t: seq<uint16>, p: nat, q: nat)
    requires 1 <= p <= NUM_PROTO && 1 <= q <= NUM_PROTO
    requires |t| > 0 && t[0] == Gap(ProtocolAt(p))
    ensures ProtocolWindow(t, q, DEFAULT_TOLERANCE) == CrossWindow(p, q)
  {
  }

  /** Data pulse `k` of a frame carries bit `k` of the code, most
      significant first. */
  lemma FramePulse(pro: Protocol, code: uint16, length: uint16, k: nat)
    requires 1 <= length <= 32 && k < length
    ensures Frame(pro, code, length)[k] == BitPulse(pro, MsbFirst(code, length)[k])
  {
    var i := length as nat - 1 - k;
    assert BitCount(length) == length;
    assert Frame(pro, code, length)[k] == BitPulse(pro, Bit(code, i));
    assert MsbFirst(code, length)[k] == Bit(code, i);
  }

  /** `Reading` is `PairBit` on the cross window and the pulse. */
  lemma ReadingOf(p: nat, q: nat, b: bool, w: Window, high: uint16, low: uint16)
    requires 1 <= p <= NUM_PROTO && 1 <= q <= NUM_PROTO
    requires w == CrossWindow(p, q)
    requires high == BitPulse(ProtocolAt(p), b).high && low == BitPulse(ProtocolAt(p), b).low
    ensures PairBit(w, high, low) == Reading(p, q, b)
  {
  }

  /** A code taken modulo 2^n still fits in 16 bits. */
  lemma TruncatedCodeFits(code: uint16, n: nat)
    ensures code % Pow2(n) < TWO_16
    ensures code % Pow2(n) == code || n < 16
  {
    Pow2Sixteen();
    if n < 16 {
      Pow2Monotone(n, 16);
    } else {
      Pow2Monotone(16, n);
      ModUnique(code, Pow2(n), 0, code);
    }
  }

  /** Protocol `q` reads a captured frame of protocol `p` whenever it reads
      each of `p`'s pulses as the bit it carries: the result is the low
      `length` bits of the code, `length` itself and the base pulse length
      `q` derives from `p`'s gap. */
  lemma {:induction false} FrameReadsBack(p: nat, q: nat, code: uint16, length: uint16, t: seq<uint16>)
    requires 1 <= p <= NUM_PROTO && 1 <= q <= 5 && 3 <= length <= 32
    requires Reading(p, q, false) == Some(false) && Reading(p, q, true) == Some(true)
    requires |t| == MAX_CHANGES
    requires t[..2 * length + 2] == CapturedFrame(ProtocolAt(p), code, length)
    ensures var r := ReceiveProtocol(t, q, 2 * length + 2, DEFAULT_TOLERANCE);
      && r.Some?
      && r.value.value == code % Pow2(length)
      && r.value.bitlength == length
      && r.value.delay == CrossWindow(p, q).delay
      && r.value.protocol == q
  {
    var cc := 2 * length + 2;
    CapturedPairs(p, q, code, length, t);
    var w := ProtocolWindow(t, q, DEFAULT_TOLERANCE);
    assert w == CrossWindow(p, q);
    var ps := DataPairs(t, q, cc);
    var bits := MsbFirst(code, length);
    forall k | 0 <= k < length
      ensures PairBit(w, ps[k].0, ps[k].1) == Some(bits[k])
    {
      FramePairReading(p, q, code, length, t, k);
    }
    assert AllMatch(w, ps);
    assert PairBits(w, ps) == bits;
    ValueOfMsbFirst(code, length);
    TruncatedCodeFits(code, length);
    var v := code % Pow2(length);
    assert ValueOf(PairBits(w, ps)) % TWO_16 == v by {
      ModUnique(v, TWO_16, 0, v);
    }
  }

  /** Protocol `q` rejects a captured frame of protocol `p` when it reads
      none of `p`'s pulses. */
  lemma {:induction false} FrameRejected(p: nat, q: nat, code: uint16, length: uint16, t: seq<uint16>)
    requires 1 <= p <= NUM_PROTO && 1 <= q <= 5 && 1 <= length <= 32
    requires Reading(p, q, false).None? && Reading(p, q, true).None?
    requires |t| == MAX_CHANGES
    requires t[..2 * length + 2] == CapturedFrame(ProtocolAt(p), code, length)
    ensures ReceiveProtocol(t, q, 2 * length + 2, DEFAULT_TOLERANCE).None?
  {
    CapturedPairs(p, q, code, length, t);
    var w := ProtocolWindow(t, q, DEFAULT_TOLERANCE);
    assert w == CrossWindow(p, q);
    var ps := DataPairs(t, q, 2 * length + 2);
    FramePairReading(p, q, code, length, t, 0);
    assert PairBit(w, ps[0].0, ps[0].1).None?;
  }

  /** Protocol `q` reading only `p`'s zero pulses accepts a frame exactly
      when the low `length` bits of the code are all zero, and then
      publishes 0. */
  lemma {:induction false} FrameReadsZerosOnly(p: nat, q: nat, code: uint16, length: uint16, t: seq<uint16>)
    requires 1 <= p <= NUM_PROTO && 1 <= q <= 5 && 3 <= length <= 32
    requires Reading(p, q, false) == Some(false) && Reading(p, q, true).None?
    requires |t| == MAX_CHANGES
    requires t[..2 * length + 2] == CapturedFrame(ProtocolAt(p), code, length)
    ensures var r := ReceiveProtocol(t, q, 2 * length + 2, DEFAULT_TOLERANCE);
      && (r.Some? <==> code % Pow2(length) == 0)
      && (r.Some? ==> r.value.value == 0 && r.value.protocol == q && r.value.delay == CrossWindow(p, q).delay)
  {
    var cc := 2 * length + 2;
    CapturedPairs(p, q, code, length, t);
    var w := ProtocolWindow(t, q, DEFAULT_TOLERANCE);
    assert w == CrossWindow(p, q);
    var ps := DataPairs(t, q, cc);
    var bits := MsbFirst(code, length);
    ValueOfMsbFirst(code, length);
    ValueOfZero(bits);
    assert AllMatch(w, ps) <==> forall k :: 0 <= k < length ==> !bits[k] by {
      forall k | 0 <= k < length
        ensures PairBit(w, ps[k].0, ps[k].1).Some? <==> !bits[k]
      {
        FramePairReading(p, q, code, length, t, k);
      }
    }
    if AllMatch(w, ps) {
      assert forall k :: 0 <= k < length ==> !PairBits(w, ps)[k];
      ValueOfZero(PairBits(w, ps));
    }
  }

  /** The protocol `DecodeFrame` reports for a frame sent with protocol
      `p`, and the base pulse length it reports with it. */
  function ReportedProtocol(p: nat, code: uint16, length: uint16): nat
  {
    if p == 5 || (p == 3 && code % Pow2(length) == 0) then 2 else p
  }

  function ReportedDelay(p: nat, code: uint16, length: uint16): nat
  {
    match p
    case 1 => 350
    case 2 => 650
    case 3 => if code % Pow2(length) == 0 then 710 else 100
    case _ => 700
  }

  /** The receiver's buffer `t` holds, from its start, the gap before one
      frame of `send(code, length)` under protocol `p` and that frame's
      durations. */
  predicate InBuffer(p: nat, code: uint16, length: uint16, t: seq<uint16>)
  {
    && 1 <= p <= NUM_PROTO && 3 <= length <= 32 && |t| == MAX_CHANGES
    && t[..2 * length + 2] == CapturedFrame(ProtocolAt(p), code, length)
  }

  /** The decode coordinator on a captured frame of protocol 1, 2, 3 or 5:
      the value is the low `length` bits of the code and the bit length is
      `length`. Protocol 5's frames are also protocol 2's, read at a base
      length of 700, and since protocol 2 is tried first they are reported
      as protocol 2; so is a protocol 3 frame of all-zero bits, which
      protocol 2 reads as zeros. */
  lemma DecodeFrameRoundTrip(p: nat, code: uint16, length: uint16, t: seq<uint16>, prior: Received)
    requires p in {1, 2, 3, 5}
    requires InBuffer(p, code, length, t)
    ensures var r := DecodeFrame(t, 2 * length + 2, DEFAULT_TOLERANCE, prior);
      && r.value == code % Pow2(length)
      && r.bitlength == length
      && r.protocol == ReportedProtocol(p, code, length)
      && r.delay == ReportedDelay(p, code, length)
  {
    if p == 1 {
      DecodesOwnProtocolFirst(code, length, t, prior);
    } else if p == 2 {
      DecodesAfterProtocolOne(2, 2, code, length, t, prior);
    } else if p == 5 {
      DecodesAfterProtocolOne(5, 2, code, length, t, prior);
    } else if code % Pow2(length) == 0 {
      DecodesAfterProtocolOne(3, 2, code, length, t, prior);
    } else {
      DecodesProtocolThree(code, length, t, prior);
    }
  }

  lemma DecodesOwnProtocolFirst(code: uint16, length: uint16, t: seq<uint16>, prior: Received)
    requires InBuffer(1, code, length, t)
    ensures var r := DecodeFrame(t, 2 * length + 2, DEFAULT_TOLERANCE, prior);
      r.value == code % Pow2(length) && r.bitlength == length && r.protocol == 1 && r.delay == 350
  {
    OwnProtocolReads(1, code, length, t);
    assert ProtocolAt(1).pulseLength == 350;
    assert FirstToDecode(t, 2 * length + 2, DEFAULT_TOLERANCE, 1, 1);
  }

  /** A frame of protocol `p` that protocol 1 rejects and protocol 2 reads
      bit for bit (or, for protocol 3, reads at all) is reported as
      protocol 2. */
  lemma DecodesAfterProtocolOne(p: nat, q: nat, code: uint16, length: uint16, t: seq<uint16>, prior: Received)
    requires p in {2, 3, 5} && q == 2
    requires p == 3 ==> code % Pow2(length) == 0
    requires InBuffer(p, code, length, t)
    ensures var r := DecodeFrame(t, 2 * length + 2, DEFAULT_TOLERANCE, prior);
      && r.value == code % Pow2(length) && r.bitlength == length && r.protocol == 2
      && r.delay == ReportedDelay(p, code, length)
  {
    ProtocolOneSkips(p, code, length, t);
    ProtocolTwoReads(p, code, length, t);
    assert FirstToDecode(t, 2 * length + 2, DEFAULT_TOLERANCE, 1, 2);
  }

  /** A protocol 3 frame with a one bit gets past protocols 1 and 2. */
  lemma DecodesProtocolThree(code: uint16, length: uint16, t: seq<uint16>, prior: Received)
    requires code % Pow2(length) != 0
    requires InBuffer(3, code, length, t)
    ensures var r := DecodeFrame(t, 2 * length + 2, DEFAULT_TOLERANCE, prior);
      r.value == code % Pow2(length) && r.bitlength == length && r.protocol == 3 && r.delay == 100
  {
    ReportsProtocolThree(code, length, t, prior);
    ProtocolThreeReads(code, length, t);
  }

  lemma ProtocolThreeReads(code: uint16, length: uint16, t: seq<uint16>)
    requires InBuffer(3, code, length, t)
    ensures var r := ReceiveProtocol(t, 3, 2 * length + 2, DEFAULT_TOLERANCE);
      && r.Some? && r.value.value == code % Pow2(length) && r.value.bitlength == length
      && r.value.protocol == 3 && r.value.delay == 100
  {
    OwnProtocolReads(3, code, length, t);
    assert ProtocolAt(3).pulseLength == 100;
  }

  /** Protocols 1 and 2 find nothing in a protocol 3 frame with a one bit,
      so the coordinator publishes what protocol 3 reads. */
  lemma ReportsProtocolThree(code: uint16, length: uint16, t: seq<uint16>, prior: Received)
    requires code % Pow2(length) != 0
    requires InBuffer(3, code, length, t)
    ensures ReceiveProtocol(t, 3, 2 * length + 2, DEFAULT_TOLERANCE).Some?
    ensures DecodeFrame(t, 2 * length + 2, DEFAULT_TOLERANCE, prior)
      == ReceiveProtocol(t, 3, 2 * length + 2, DEFAULT_TOLERANCE).value
  {
    ProtocolThreeSkipsOneAndTwo(code, length, t);
    ProtocolThreeFinds(code, length, t);
    ThirdDecoderWins(t, 2 * length + 2, DEFAULT_TOLERANCE, prior);
  }

  lemma ProtocolThreeFinds(code: uint16, length: uint16, t: seq<uint16>)
    requires InBuffer(3, code, length, t)
    ensures ReceiveProtocol(t, 3, 2 * length + 2, DEFAULT_TOLERANCE).Some?
  {
    OwnProtocolReads(3, code, length, t);
  }

  /** When protocols 1 and 2 find nothing and protocol 3 finds a code, the
      coordinator publishes protocol 3's result. */
  lemma ThirdDecoderWins(t: seq<uint16>, changeCount: nat, tolerance: uint16, prior: Received)
    requires |t| == MAX_CHANGES && 1 <= changeCount <= MAX_CHANGES
    requires ReceiveProtocol(t, 1, changeCount, tolerance).None?
    requires ReceiveProtocol(t, 2, changeCount, tolerance).None?
    requires ReceiveProtocol(t, 3, changeCount, tolerance).Some?
    ensures DecodeFrame(t, changeCount, tolerance, prior) == ReceiveProtocol(t, 3, changeCount, tolerance).value
  {
    assert FirstToDecode(t, changeCount, tolerance, 1, 3);
  }

  /** Protocols 1 to 5 read a buffer holding their own frame back: the low
      `length` bits of the code, `length`, their own pulse length and their
      own number. */
  lemma OwnProtocolReads(p: nat, code: uint16, length: uint16, t: seq<uint16>)
    requires 1 <= p <= 5
    requires InBuffer(p, code, length, t)
    ensures var r := ReceiveProtocol(t, p, 2 * length + 2, DEFAULT_TOLERANCE);
      && r.Some? && r.value.value == code % Pow2(length) && r.value.bitlength == length
      && r.value.protocol == p && r.value.delay == ProtocolAt(p).pulseLength
  {
    OwnReading(p);
    FrameReadsBack(p, p, code, length, t);
  }

  /** Protocol 1 finds nothing in a frame of protocol 2, 3 or 5. */
  lemma ProtocolOneSkips(p: nat, code: uint16, length: uint16, t: seq<uint16>)
    requires p in {2, 3, 5}
    requires InBuffer(p, code, length, t)
    ensures ReceiveProtocol(t, 1, 2 * length + 2, DEFAULT_TOLERANCE).None?
  {
    ProtocolOneRejects(p);
    FrameRejected(p, 1, code, length, t);
  }

  /** Protocols 1 and 2 find nothing in a protocol 3 frame with a one bit. */
  lemma ProtocolThreeSkipsOneAndTwo(code: uint16, length: uint16, t: seq<uint16>)
    requires code % Pow2(length) != 0
    requires InBuffer(3, code, length, t)
    ensures ReceiveProtocol(t, 1, 2 * length + 2, DEFAULT_TOLERANCE).None?
    ensures ReceiveProtocol(t, 2, 2 * length + 2, DEFAULT_TOLERANCE).None?
  {
    ProtocolOneSkips(3, code, length, t);
    ProtocolTwoSkipsThree(code, length, t);
  }

  /** Protocol 2 finds nothing in a protocol 3 frame with a one bit. */
  lemma ProtocolTwoSkipsThree(code: uint16, length: uint16, t: seq<uint16>)
    requires code % Pow2(length) != 0
    requires InBuffer(3, code, length, t)
    ensures ReceiveProtocol(t, 2, 2 * length + 2, DEFAULT_TOLERANCE).None?
  {
    ProtocolTwoReadsThreesZeros();
    FrameReadsZerosOnly(3, 2, code, length, t);
  }

  /** Protocol 2 reads a frame of protocol 2 or 5, or an all-zero frame of
      protocol 3, as the low `length` bits of the code. */
  lemma ProtocolTwoReads(p: nat, code: uint16, length: uint16, t: seq<uint16>)
    requires p in {2, 3, 5}
    requires p == 3 ==> code % Pow2(length) == 0
    requires InBuffer(p, code, length, t)
    ensures var r := ReceiveProtocol(t, 2, 2 * length + 2, DEFAULT_TOLERANCE);
      && r.Some? && r.value.value == code % Pow2(length) && r.value.bitlength == length
      && r.value.protocol == 2 && r.value.delay == ReportedDelay(p, code, length)
  {
    if p == 2 {
      OwnProtocolReads(2, code, length, t);
      assert ProtocolAt(2).pulseLength == 650;
    } else if p == 5 {
      ProtocolTwoReadsFive();
      FrameReadsBack(5, 2, code, length, t);
    } else {
      ProtocolTwoReadsThreesZeros();
      FrameReadsZerosOnly(3, 2, code, length, t);
      assert (2 * length + 2 - 1) / 2 == length;
    }
  }

  /** Protocol 6 sends uninverted, so its sync high (10350 microseconds)
      is what the receiver takes as the gap and its sync low lands in slot
      1. Data then starts in slot 2, where protocol 6 reads it: the frame
      of `send(5, 3)` decodes as 5 with bit length 3 and base length 450. */
  lemma ProtocolSixExample()
    ensures var t := [10350, 450, 900, 450, 450, 900, 900, 450] + seq(MAX_CHANGES - 8, _ => 0);
      ReceiveProtocol(t, 6, 8, DEFAULT_TOLERANCE) == Some(Received(5, 3, 450, 6))
  {
    var t: seq<uint16> := [10350, 450, 900, 450, 450, 900, 900, 450] + seq(MAX_CHANGES - 8, _ => 0);
    var w := ProtocolWindow(t, 6, DEFAULT_TOLERANCE);
    assert w == Window(450, 270, Levels(450, 900), Levels(900, 450));
    assert PairBit(w, 900, 450) == Some(true) && PairBit(w, 450, 900) == Some(false);
    assert Decode(t, w, 2, 8, 0) == Some(5);
  }

  /** End to end: with the receiver enabled and its buffer opened by a gap
      like protocol `p`'s, one frame of `send` followed by the next frame's
      gap makes the handler publish the low `length` bits of the code with
      bit length `length`, as protocol `ReportedProtocol`. */
  lemma CaptureRoundTrip(s: CaptureState, p: nat, code: uint16, length: uint16)
    requires Valid(s) && s.repeatCount == 0 && s.tolerance == DEFAULT_TOLERANCE
    requires p in {1, 2, 3, 5} && 3 <= length <= 32
    requires IsRepeatGap(s, Gap(ProtocolAt(p)))
    ensures var c := CapturedFrame(ProtocolAt(p), code, length);
      var r := Run(s, c + [c[0]]).received;
      && r.value == code % Pow2(length)
      && r.bitlength == length
      && r.protocol == ReportedProtocol(p, code, length)
      && r.delay == ReportedDelay(p, code, length)
  {
    var pro := ProtocolAt(p);
    var c := CapturedFrame(pro, code, length);
    var g := c[0];
    var data := c[1..];
    assert c == [g] + data;
    assert forall k :: 0 <= k < |data| ==> data[k] <= SEPARATION_LIMIT by {
      PulseBounds(p);
      FrameIsShort(pro, code, length);
    }
    RepeatedGapDecodes(s, g, data, g);
    var mid := Run(s, [g] + data);
    assert mid.timings[..2 * length + 2] == c;
    DecodeFrameRoundTrip(p, code, length, mid.timings, s.received);
  }
}
