/** The transmit path of RCSwitch.c: `enableTransmit`, `disableTransmit`,
    `sendTriState`, `sendBinary`, `send` and `transmit`.

    The output line is not modelled. `transmit` appends the pulse it would
    produce, as its two busy-wait lengths in microseconds, to the output. */
module Transmitter {

  import opened Arith
  import opened Bits
  import opened Protocols

  /** One call of `transmit`: the output is held high for `high` and then low
      for `low` microseconds. */
  datatype Pulse = Pulse(high: uint16, low: uint16)

  /** The transmit configuration: the active protocol, `nRepeatTransmit`,
      `nTransmitterPin`, and whether the transmitter is switched on. The
      source has no such flag; see `SendAsWritten`. */
  datatype TxConfig = TxConfig(protocol: Protocol, repeatTransmit: uint16, pin: uint8, enabled: bool)

  /** A code word ready for `send`: the code and its length in bits. */
  datatype CodeWord = CodeWord(code: uint16, length: uint16)

  function EnableTransmit(pin: uint8): (c: TxConfig)
    ensures c.enabled && c.pin == pin
    ensures c.protocol == PROTOCOLS[0] && c.repeatTransmit == 10
  {
    TxConfig(SetProtocol(1), 10, pin, true)
  }

  /** `disableTransmit` stores -1 in the `uint8_t` pin, which keeps 255. */
  function DisableTransmit(c: TxConfig): (d: TxConfig)
    ensures !d.enabled && d.pin == 255
    ensures d.protocol == c.protocol && d.repeatTransmit == c.repeatTransmit
  {
    c.(pin := -1 % 0x100, enabled := false)
  }

  function SelectProtocol(c: TxConfig, n: uint16): (d: TxConfig)
    ensures d.protocol == SetProtocol(n)
    ensures d.repeatTransmit == c.repeatTransmit && d.pin == c.pin && d.enabled == c.enabled
  {
    c.(protocol := SetProtocol(n))
  }

  /** `transmit(pulses)`: both durations are `uint16_t` products, and the
      pulse always starts high, since inverted protocols are not honoured on
      transmit. */
  function Transmit(pro: Protocol, hl: HighLow): (pulse: Pulse)
    ensures pulse.high <= pro.pulseLength * hl.high && pulse.low <= pro.pulseLength * hl.low
    ensures (pro.pulseLength * hl.high - pulse.high) % TWO_16 == 0
    ensures (pro.pulseLength * hl.low - pulse.low) % TWO_16 == 0
    ensures pro.pulseLength * hl.high < TWO_16 && pro.pulseLength * hl.low < TWO_16 ==>
      [Segment(High, pulse.high), Segment(Low, pulse.low)] == Waveform(hl, pro.pulseLength, false)
  {
    Pulse(Mul16(pro.pulseLength, hl.high), Mul16(pro.pulseLength, hl.low))
  }

  /** The pulse `send` emits for one data bit. */
  function BitPulse(pro: Protocol, b: bool): Pulse
  {
    Transmit(pro, if b then pro.one else pro.zero)
  }

  /** The first index of `send`'s bit loop: `int8_t i = length - 1` keeps the
      low byte of the 16-bit difference and reads it as signed. */
  function LoopStart(length: uint16): int8
  {
    Int8Of(Wrap16(length - 1) % 0x100)
  }

  /** How many data bits one frame of `send(code, length)` carries. Lengths
      up to 128 are honoured; 129 to 256 send no data bits at all. */
  function BitCount(length: uint16): (n: nat)
    ensures n <= 128
    ensures 1 <= length <= 128 ==> n == length
    ensures length == 0 || 129 <= length <= 256 ==> n == 0
    ensures n == 0 <==> LoopStart(length) < 0
  {
    var i := LoopStart(length);
    if i < 0 then 0 else i + 1
  }

  /** The data pulses for bits `i`, `i - 1`, ..., 0 of `code`. */
  function DataPulses(pro: Protocol, code: uint16, i: int): (ps: seq<Pulse>)
    ensures |ps| == if i < 0 then 0 else i + 1
    ensures forall k :: 0 <= k < |ps| ==> ps[k] == BitPulse(pro, Bit(code, i - k))
    decreases i + 1
  {
    if i < 0 then [] else [BitPulse(pro, Bit(code, i))] + DataPulses(pro, code, i - 1)
  }

  /** One frame of `send`: the data bits from the most significant down,
      then the sync pulse. */
  function Frame(pro: Protocol, code: uint16, length: uint16): (f: seq<Pulse>)
    ensures |f| == BitCount(length) + 1
    ensures forall k :: 0 <= k < BitCount(length) ==>
      f[k] == BitPulse(pro, Bit(code, BitCount(length) - 1 - k))
    ensures f[BitCount(length)] == Transmit(pro, pro.syncFactor)
  {
    DataPulses(pro, code, LoopStart(length)) + [Transmit(pro, pro.syncFactor)]
  }

  /** A code has 16 bits; data bits above bit 15 go out as zero pulses. */
  lemma HighBitsSendZero(pro: Protocol, code: uint16, length: uint16, k: nat)
    requires k < BitCount(length) && BitCount(length) - 1 - k >= 16
    ensures Frame(pro, code, length)[k] == Transmit(pro, pro.zero)
  {
    Pow2Sixteen();
    BitAboveWidth(code, 16, BitCount(length) - 1 - k);
  }

  /** `r` copies of `f` back to back: position `k` holds `f[k % |f|]`. */
  function Repeat<T>(f: seq<T>, r: nat): (s: seq<T>)
    ensures |s| == r * |f|
    ensures forall k :: 0 <= k < |s| ==> s[k] == f[k % |f|]
  {
    if r == 0 then []
    else
      var prev := Repeat(f, r - 1);
      assert |prev| + |f| == r * |f|;
      forall k | |prev| <= k < |prev| + |f|
        ensures (prev + f)[k] == f[k % |f|]
      {
        ModUnique(k, |f|, r - 1, k - |prev|);
      }
      prev + f
  }

  /** The inner loop of `send`: every data bit from `LoopStart` down to 0,
      then the sync pulse. `1L << i` is undefined for `i` of 32 or more, so
      `length` must keep the first index below 32. */
  method EmitFrame(pro: Protocol, code: uint16, length: uint16) returns (out: seq<Pulse>)
    requires LoopStart(length) < 32
    ensures out == Frame(pro, code, length)
  {
    out := [];
    var i: int8 := LoopStart(length);
    ghost var all := DataPulses(pro, code, i);
    while i >= 0
      invariant i < 32
      invariant out + DataPulses(pro, code, i) == all
    {
      ghost var before := out;
      if Bit(code, i) {
        out := out + [Transmit(pro, pro.one)];
      } else {
        out := out + [Transmit(pro, pro.zero)];
      }
      assert out == before + [BitPulse(pro, Bit(code, i))];
      EmitStep(before, pro, code, i as int, all);
      i := i - 1;
    }
    assert out == all;
    out := out + [Transmit(pro, pro.syncFactor)];
  }

  /** Emitting data bit `i` moves its pulse from what is left to send onto
      what has been sent. */
  lemma EmitStep(out: seq<Pulse>, pro: Protocol, code: uint16, i: int, all: seq<Pulse>)
    requires i >= 0 && out + DataPulses(pro, code, i) == all
    ensures out + [BitPulse(pro, Bit(code, i))] + DataPulses(pro, code, i - 1) == all
  {
    var rest := DataPulses(pro, code, i - 1);
    assert DataPulses(pro, code, i) == [BitPulse(pro, Bit(code, i))] + rest;
    assert out + [BitPulse(pro, Bit(code, i))] + rest == out + ([BitPulse(pro, Bit(code, i))] + rest);
  }

  /** The outer loop of `send`: `repeat` frames back to back, so the sync
      pulse closes every (n + 1)-th slot of the n-bit frames. */
  method EmitFrames(pro: Protocol, repeat: uint16, code: uint16, length: uint16) returns (out: seq<Pulse>)
    requires LoopStart(length) < 32
    ensures out == Repeat(Frame(pro, code, length), repeat)
    ensures |out| == repeat * (BitCount(length) + 1)
    ensures forall k :: 0 <= k < |out| ==>
      out[k] == Frame(pro, code, length)[k % (BitCount(length) + 1)]
  {
    out := [];
    var nRepeat: uint16 := 0;
    while nRepeat < repeat
      invariant nRepeat <= repeat
      invariant out == Repeat(Frame(pro, code, length), nRepeat)
    {
      var frame := EmitFrame(pro, code, length);
      out := out + frame;
      nRepeat := nRepeat + 1;
    }
  }

  /** `send(code, length)` with the transmitter switched off emits nothing;
      otherwise it emits `nRepeatTransmit` copies of the frame. */
  method Send(c: TxConfig, code: uint16, length: uint16) returns (out: seq<Pulse>)
    requires LoopStart(length) < 32
    ensures !c.enabled ==> out == []
    ensures c.enabled ==> out == Repeat(Frame(c.protocol, code, length), c.repeatTransmit)
  {
    if !c.enabled {
      return [];
    }
    out := EmitFrames(c.protocol, c.repeatTransmit, code, length);
  }

  /** `send` with its guard as written: `nTransmitterPin == -1` compares a
      `uint8_t`, promoted to `int` in 0..255, with -1, so it never holds and
      the frames go out even after `disableTransmit`. */
  method SendAsWritten(c: TxConfig, code: uint16, length: uint16) returns (out: seq<Pulse>)
    requires LoopStart(length) < 32
    ensures out == Repeat(Frame(c.protocol, code, length), c.repeatTransmit)
    ensures |out| == c.repeatTransmit * (BitCount(length) + 1)
  {
    if c.pin == -1 {
      return [];
    }
    out := EmitFrames(c.protocol, c.repeatTransmit, code, length);
  }

  /** After `enableTransmit` and `disableTransmit`, the guard as written
      still lets `send(123, 7)` emit ten frames of eight pulses, where the
      disabled transmitter emits none. */
  lemma DisabledTransmitterStillSends()
    ensures var c := DisableTransmit(EnableTransmit(4));
      && !c.enabled
      && |Repeat(Frame(c.protocol, 123, 7), c.repeatTransmit)| == 80
  {
  }

  // ---------------------------------------------------------------------
  // Code words.

  /** The two bits a tri-state symbol stands for: 0 is 00, F is 01, 1 is 11.
      The source's `switch` has no default, so any other character adds 00. */
  function SymbolBits(ch: char): (bits: seq<bool>)
    ensures |bits| == 2
  {
    match ch
    case '0' => [false, false]
    case 'F' => [false, true]
    case '1' => [true, true]
    case _ => [false, false]
  }

  /** The bit string a tri-state word expands to, symbol by symbol. */
  function TriStateBits(w: string): (bits: seq<bool>)
    ensures |bits| == 2 * |w|
  {
    if |w| == 0 then [] else TriStateBits(w[..|w| - 1]) + SymbolBits(w[|w| - 1])
  }

  /** What one symbol ORs into the code after the shift by two. */
  function SymbolCode(ch: char): nat
  {
    match ch
    case '0' => 0
    case 'F' => 1
    case '1' => 3
    case _ => 0
  }

  /** The loop of `sendTriState`: `code <<= 2`, OR in the symbol, and
      `length += 2`, all in `uint16_t`. */
  function TriStateWord(w: string): (cw: CodeWord)
    ensures cw.length == Wrap16(2 * |w|)
    ensures cw.code == ValueOf(TriStateBits(w)) % TWO_16
  {
    if |w| == 0 then CodeWord(0, 0)
    else
      var init := w[..|w| - 1];
      var prev := TriStateWord(init);
      var ch := w[|w| - 1];
      AccumulateSymbol(TriStateBits(init), ch);
      WrapAdd(2 * |init|, 2);
      CodeWord(Wrap16(4 * prev.code + SymbolCode(ch)), Wrap16(prev.length + 2))
  }

  /** One step of `sendTriState`'s accumulator, `code <<= 2; code |= c`,
      appends the symbol's two bits. */
  lemma AccumulateSymbol(bits: seq<bool>, ch: char)
    ensures Wrap16(4 * (ValueOf(bits) % TWO_16) + SymbolCode(ch)) == ValueOf(bits + SymbolBits(ch)) % TWO_16
  {
    AppendSymbol(bits, ch);
    ShiftIn(ValueOf(bits), 4, SymbolCode(ch), ValueOf(bits + SymbolBits(ch)));
  }

  /** Appending a symbol's two bits shifts by two and adds its code. */
  lemma AppendSymbol(bits: seq<bool>, ch: char)
    ensures ValueOf(bits + SymbolBits(ch)) == 4 * ValueOf(bits) + SymbolCode(ch)
  {
    var sb := SymbolBits(ch);
    assert bits + sb == bits + [sb[0]] + [sb[1]];
    ValueOfAppendTwo(bits, sb[0], sb[1]);
    SymbolBitsCode(ch);
  }

  /** The two bits of a symbol, read as a number, are its code. */
  lemma SymbolBitsCode(ch: char)
    ensures var sb := SymbolBits(ch);
      (if sb[0] then 2 else 0) + (if sb[1] then 1 else 0) == SymbolCode(ch)
  {
    match ch
    case '0' =>
    case 'F' =>
    case '1' =>
    case _ =>
  }

  /** The bit string a binary word stands for: every character other than
      '0' is a one. */
  function BinaryBits(w: string): (bits: seq<bool>)
    ensures |bits| == |w|
    ensures forall k :: 0 <= k < |w| ==> (bits[k] <==> w[k] != '0')
  {
    seq(|w|, k requires 0 <= k < |w| => w[k] != '0')
  }

  /** The loop of `sendBinary`: `code <<= 1`, OR in 1 unless the character
      is '0', and `length++`, all in `uint16_t`. */
  function BinaryWord(w: string): (cw: CodeWord)
    ensures cw.length == Wrap16(|w|)
    ensures cw.code == ValueOf(BinaryBits(w)) % TWO_16
  {
    if |w| == 0 then CodeWord(0, 0)
    else
      var init := w[..|w| - 1];
      var prev := BinaryWord(init);
      var b := w[|w| - 1] != '0';
      assert BinaryBits(w) == BinaryBits(init) + [b];
      AccumulateBit(BinaryBits(init), b);
      WrapAdd(|init|, 1);
      CodeWord(Wrap16(2 * prev.code + (if b then 1 else 0)), Wrap16(prev.length + 1))
  }

  lemma TriStateExample()
    ensures TriStateBits("0F1") == [false, false, false, true, true, true]
    ensures TriStateWord("0F1") == CodeWord(7, 6)
  {
    assert "0F1"[..2] == "0F";
    assert "0F"[..1] == "0";
    assert "0"[..0] == "";
  }

  lemma BinaryExample()
    ensures BinaryWord("0111") == CodeWord(7, 4)
  {
    assert BinaryBits("0111") == [false, true, true, true];
    assert ValueOf([false, true, true, true]) == 7 by {
      assert [false, true, true, true][..3] == [false, true, true];
      assert [false, true, true][..2] == [false, true];
      assert [false, true][..1] == [false];
      assert [false][..0] == [];
    }
  }

  /** `sendTriState(w)`: two data bits per symbol, so a word of up to 16
      symbols goes out as frames of 2|w| data pulses and a sync pulse. */
  method SendTriState(c: TxConfig, w: string) returns (out: seq<Pulse>)
    requires LoopStart(TriStateWord(w).length) < 32
    ensures !c.enabled ==> out == []
    ensures c.enabled ==> out == Repeat(Frame(c.protocol, TriStateWord(w).code, TriStateWord(w).length), c.repeatTransmit)
    ensures c.enabled && |w| <= 16 ==> |out| == c.repeatTransmit * (2 * |w| + 1)
  {
    var cw := TriStateWord(w);
    out := Send(c, cw.code, cw.length);
  }

  /** `sendBinary(w)`: one data bit per character. */
  method SendBinary(c: TxConfig, w: string) returns (out: seq<Pulse>)
    requires LoopStart(BinaryWord(w).length) < 32
    ensures !c.enabled ==> out == []
    ensures c.enabled ==> out == Repeat(Frame(c.protocol, BinaryWord(w).code, BinaryWord(w).length), c.repeatTransmit)
    ensures c.enabled && 1 <= |w| <= 32 ==> |out| == c.repeatTransmit * (|w| + 1)
  {
    var cw := BinaryWord(w);
    out := Send(c, cw.code, cw.length);
  }
}
