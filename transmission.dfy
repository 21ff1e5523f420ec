/**
 * The transmission layer: packing the four cells into a frame and putting the
 * frame on the wire. The hardware is an event log; a flush appends to it.
 */
module Transmission {
  import opened Symbols

  datatype Level = Low | High

  /** What the driver does to the hardware, in the order it does it. */
  datatype Event =
      /** One addressed two-wire transaction: begin(addr), write(payload), end. */
    | BusWrite(addr: byte, payload: seq<byte>)
      /** The single-wire pin made an output and driven to a level (no delay). */
    | ConfigureOutput(pin: byte, level: Level)
      /** The single-wire pin driven to a level, then a blocking delay of `units`. */
    | Pulse(level: Level, units: nat)

  const StartUnits: nat := 3
  const BitUnits: nat := 2
  const StopUnits: nat := 2

  /** Bits per byte, pulses per byte and time units per byte on the single wire. */
  const BitsPerByte: nat := 8
  const PulsesPerByte: nat := 10
  const UnitsPerByte: nat := 21

  function Pow2(n: nat): (r: nat)
    ensures r >= 1
  {
    if n == 0 then 1 else 2 * Pow2(n - 1)
  }

  /** Bit i of b, the test `b & (1 << i)` of the source. */
  predicate BitSet(b: byte, i: nat)
  {
    if i == 0 then b % 2 == 1 else BitSet(b / 2, i - 1)
  }

  /** `b | 0x80`: bit 7 set, the low seven bits kept. */
  function WithDot(b: byte): (r: byte)
    ensures r >= 128
    ensures r % 128 == b % 128
  {
    if b < 128 then b + 128 else b
  }

  /** One frame byte: the symbol id, with bit 7 set when the dot is on. */
  function FrameByte(c: Cell): (r: byte)
  {
    if c.dot != 0 then WithDot(c.valueID) else c.valueID
  }

  /** The four frame bytes, in position order 0..3. */
  function Frame(cs: seq<Cell>): (r: seq<byte>)
    requires |cs| == 4
    ensures |r| == 4
    ensures forall i :: 0 <= i < 4 ==> r[i] % 128 == cs[i].valueID % 128
    ensures forall i :: 0 <= i < 4 ==> (r[i] >= 128 <==> cs[i].dot != 0 || cs[i].valueID >= 128)
  {
    seq(4, i requires 0 <= i < 4 => FrameByte(cs[i]))
  }

  /** How a receiver reads one frame byte back into a cell. */
  function UnpackByte(b: byte): Cell
  {
    Cell(b % 128, if BitSet(b, 7) then 1 else 0)
  }

  /** The top bit of a value below 2^(i+1) is set exactly when the value is at least 2^i. */
  lemma {:induction false} TopBitOf(b: byte, i: nat)
    requires b < Pow2(i + 1)
    ensures BitSet(b, i) <==> b >= Pow2(i)
  {
    if i > 0 {
      TopBitOf(b / 2, i - 1);
    }
  }

  /** Bit 7 of a byte is set exactly when the byte is at least 128. */
  lemma TopBit(b: byte)
    ensures BitSet(b, 7) <==> b >= 128
  {
    Pow2Values();
    TopBitOf(b, 7);
  }

  /** Every cell a receiver reads back from a frame is the cell it was packed from,
      for any ids that leave bit 7 free (symbols, and the acknowledgement codes). */
  lemma FrameRoundTrip(cs: seq<Cell>)
    requires |cs| == 4
    requires forall i :: 0 <= i < 4 ==> cs[i].valueID < 128 && cs[i].dot <= 1
    ensures forall i :: 0 <= i < 4 ==> UnpackByte(Frame(cs)[i]) == cs[i]
  {
    forall i | 0 <= i < 4
      ensures UnpackByte(Frame(cs)[i]) == cs[i]
    {
      TopBit(cs[i].valueID);
      TopBit(Frame(cs)[i]);
    }
  }

  function LevelOf(b: byte, i: nat): Level
  {
    if BitSet(b, i) then High else Low
  }

  /** The pulses for bits n-1 down to 0 of `b`, most significant first. */
  function BitPulses(b: byte, n: nat): seq<Event>
  {
    if n == 0 then [] else [Pulse(LevelOf(b, n - 1), BitUnits)] + BitPulses(b, n - 1)
  }

  /** One byte on the single wire: start, eight data bits MSB first, stop. */
  function ByteWaveform(b: byte): seq<Event>
  {
    [Pulse(Low, StartUnits)] + BitPulses(b, BitsPerByte) + [Pulse(High, StopUnits)]
  }

  /** A sequence of bytes on the single wire, one after another. */
  function Waveform(bs: seq<byte>): seq<Event>
  {
    if bs == [] then [] else ByteWaveform(bs[0]) + Waveform(bs[1..])
  }

  /** What one flush appends: one addressed bus write of the frame, or on the single
      wire the device address followed by the four frame bytes. */
  function Flush(cs: seq<Cell>, addr: byte, i2cMode: bool): seq<Event>
    requires |cs| == 4
  {
    if i2cMode then [BusWrite(addr, Frame(cs))] else Waveform([addr] + Frame(cs))
  }

  /** Total blocking delay of a stretch of the log. */
  function Units(es: seq<Event>): nat
  {
    if es == [] then 0 else (if es[0].Pulse? then es[0].units else 0) + Units(es[1..])
  }

  // ---------------------------------------------------------------------------
  // A receiver for the single-wire protocol

  /** The value of a run of bit pulses, most significant first. */
  function BitsValue(ps: seq<Event>): (r: nat)
    ensures r < Pow2(|ps|)
  {
    if ps == [] then 0
    else 2 * BitsValue(ps[..|ps| - 1]) + (if ps[|ps| - 1].Pulse? && ps[|ps| - 1].level == High then 1 else 0)
  }

  predicate IsBitPulse(e: Event)
  {
    e.Pulse? && e.units == BitUnits
  }

  /** A receiver sampling ten pulses: the byte they carry, if they are framed correctly. */
  function DecodeByte(w: seq<Event>): Option<byte>
    requires |w| == PulsesPerByte
  {
    if w[0] == Pulse(Low, StartUnits) && w[9] == Pulse(High, StopUnits)
       && forall k :: 1 <= k < 9 ==> IsBitPulse(w[k])
    then
      assert Pow2(8) == 256;
      Some(BitsValue(w[1..9]))
    else None
  }

  /** A receiver reading byte after byte until the line falls silent. */
  function DecodeStream(w: seq<Event>): Option<seq<byte>>
    decreases |w|
  {
    if w == [] then Some([])
    else if |w| < PulsesPerByte then None
    else match DecodeByte(w[..PulsesPerByte])
      case None => None
      case Some(b) =>
        match DecodeStream(w[PulsesPerByte..])
        case None => None
        case Some(rest) => Some([b] + rest)
  }

  // ---------------------------------------------------------------------------
  // Properties of the single-wire encoding

  lemma Pow2Values()
    ensures Pow2(0) == 1 && Pow2(1) == 2 && Pow2(2) == 4 && Pow2(3) == 8 && Pow2(4) == 16
    ensures Pow2(5) == 32 && Pow2(6) == 64 && Pow2(7) == 128 && Pow2(8) == 256
  {
  }

  /** The bit pulses of b end with bit 0; before it come the pulses of b / 2. */
  lemma {:induction false} BitPulsesLast(b: byte, n: nat)
    requires n > 0
    ensures BitPulses(b, n) == BitPulses(b / 2, n - 1) + [Pulse(LevelOf(b, 0), BitUnits)]
  {
    if n > 1 {
      BitPulsesLast(b, n - 1);
    }
  }

  /** The bit pulses of a value below 2^n carry exactly that value. */
  lemma {:induction false} BitPulsesValue(b: byte, n: nat)
    requires b < Pow2(n)
    ensures |BitPulses(b, n)| == n
    ensures forall k :: 0 <= k < n ==> IsBitPulse(BitPulses(b, n)[k])
    ensures BitsValue(BitPulses(b, n)) == b
  {
    if n > 0 {
      BitPulsesValue(b / 2, n - 1);
      BitPulsesLast(b, n);
      var ps := BitPulses(b, n);
      assert ps[..n - 1] == BitPulses(b / 2, n - 1);
    }
  }

  /** Pulse k+1 of a byte is bit 7-k, two units long. */
  lemma {:induction false} BitPulsesAt(b: byte, n: nat, k: nat)
    requires k < n
    ensures |BitPulses(b, n)| == n
    ensures BitPulses(b, n)[k] == Pulse(LevelOf(b, n - 1 - k), BitUnits)
  {
    if k > 0 {
      BitPulsesAt(b, n - 1, k - 1);
    } else if n > 1 {
      BitPulsesAt(b, n - 1, 0);
    } else {
      assert BitPulses(b, 0) == [];
    }
  }

  lemma {:induction false} BitPulsesUnits(b: byte, n: nat)
    ensures Units(BitPulses(b, n)) == BitUnits * n
  {
    if n > 0 {
      BitPulsesUnits(b, n - 1);
      var ps := BitPulses(b, n);
      assert ps[1..] == BitPulses(b, n - 1);
    }
  }

  lemma {:induction false} UnitsAppend(a: seq<Event>, b: seq<Event>)
    ensures Units(a + b) == Units(a) + Units(b)
  {
    if a == [] {
      assert a + b == b;
    } else {
      assert (a + b)[1..] == a[1..] + b;
      UnitsAppend(a[1..], b);
    }
  }

  /** One byte is a start pulse (low, 3), the eight bits MSB first (2 each), a stop
      pulse (high, 2): ten pulses, 21 time units. */
  lemma ByteWaveformShape(b: byte)
    ensures |ByteWaveform(b)| == PulsesPerByte
    ensures ByteWaveform(b)[0] == Pulse(Low, StartUnits)
    ensures forall k :: 1 <= k < 9 ==> ByteWaveform(b)[k] == Pulse(LevelOf(b, 8 - k), BitUnits)
    ensures ByteWaveform(b)[9] == Pulse(High, StopUnits)
    ensures Units(ByteWaveform(b)) == UnitsPerByte
  {
    Pow2Values();
    BitPulsesValue(b, 8);
    var w := ByteWaveform(b);
    forall k | 1 <= k < 9
      ensures w[k] == Pulse(LevelOf(b, 8 - k), BitUnits)
    {
      BitPulsesAt(b, 8, k - 1);
    }
    BitPulsesUnits(b, 8);
    UnitsAppend([Pulse(Low, StartUnits)], BitPulses(b, 8));
    UnitsAppend([Pulse(Low, StartUnits)] + BitPulses(b, 8), [Pulse(High, StopUnits)]);
  }

  /** A receiver reads every byte back from its waveform. */
  lemma ByteWaveformDecodes(b: byte)
    ensures |ByteWaveform(b)| == PulsesPerByte
    ensures DecodeByte(ByteWaveform(b)) == Some(b)
  {
    Pow2Values();
    BitPulsesValue(b, 8);
    var w := ByteWaveform(b);
    assert w[1..9] == BitPulses(b, 8);
    assert Pow2(8) == 256;
  }

  /** A receiver reads a whole byte sequence back from its waveform. */
  lemma {:induction false} WaveformDecodes(bs: seq<byte>)
    ensures |Waveform(bs)| == PulsesPerByte * |bs|
    ensures Units(Waveform(bs)) == UnitsPerByte * |bs|
    ensures DecodeStream(Waveform(bs)) == Some(bs)
  {
    if bs != [] {
      WaveformDecodes(bs[1..]);
      ByteWaveformDecodes(bs[0]);
      ByteWaveformShape(bs[0]);
      var w := Waveform(bs);
      assert w[..PulsesPerByte] == ByteWaveform(bs[0]);
      assert w[PulsesPerByte..] == Waveform(bs[1..]);
      UnitsAppend(ByteWaveform(bs[0]), Waveform(bs[1..]));
      assert [bs[0]] + bs[1..] == bs;
    }
  }

  /** Sending bit i moves its pulse from the bits still to send to those sent. */
  lemma BitPulsesStep(b: byte, i: nat, sent: seq<Event>)
    ensures (sent + [Pulse(LevelOf(b, i), BitUnits)]) + BitPulses(b, i) == sent + BitPulses(b, i + 1)
  {
    assert BitPulses(b, i + 1) == [Pulse(LevelOf(b, i), BitUnits)] + BitPulses(b, i);
  }

  /** Sending one more byte appends its waveform. */
  lemma {:induction false} WaveformSnoc(bs: seq<byte>, b: byte)
    ensures Waveform(bs + [b]) == Waveform(bs) + ByteWaveform(b)
  {
    if bs == [] {
      assert [] + [b] == [b];
      assert Waveform([b]) == ByteWaveform(b) + Waveform([]);
    } else {
      assert (bs + [b])[1..] == bs[1..] + [b];
      WaveformSnoc(bs[1..], b);
    }
  }

  /** A single-wire flush is 50 pulses lasting 105 units, and a receiver reads from
      it the device address followed by the four frame bytes; a two-wire flush is
      one write of the four frame bytes to the device address. */
  lemma FlushContents(cs: seq<Cell>, addr: byte, i2cMode: bool)
    requires |cs| == 4
    ensures i2cMode ==> Flush(cs, addr, i2cMode) == [BusWrite(addr, Frame(cs))]
    ensures !i2cMode ==> |Flush(cs, addr, i2cMode)| == 5 * PulsesPerByte
    ensures !i2cMode ==> Units(Flush(cs, addr, i2cMode)) == 105
    ensures !i2cMode ==> DecodeStream(Flush(cs, addr, i2cMode)) == Some([addr] + Frame(cs))
  {
    WaveformDecodes([addr] + Frame(cs));
  }

  /** The default device address 0x16 goes out as bits 0,0,0,1,0,1,1,0. */
  lemma DefaultAddressWaveform()
    ensures ByteWaveform(DevI2cAddress) ==
      [Pulse(Low, 3),
       Pulse(Low, 2), Pulse(Low, 2), Pulse(Low, 2), Pulse(High, 2),
       Pulse(Low, 2), Pulse(High, 2), Pulse(High, 2), Pulse(Low, 2),
       Pulse(High, 2)]
  {
    ByteWaveformShape(DevI2cAddress);
    Pow2Values();
    var w := ByteWaveform(DevI2cAddress);
    assert w[1] == Pulse(Low, 2) && w[2] == Pulse(Low, 2) && w[3] == Pulse(Low, 2) && w[4] == Pulse(High, 2);
    assert w[5] == Pulse(Low, 2) && w[6] == Pulse(High, 2) && w[7] == Pulse(High, 2) && w[8] == Pulse(Low, 2);
  }
}
