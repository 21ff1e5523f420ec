/** The display driver object: four cells held in place, the transport settings,
    and every operation that writes the cells and then sends them to the display.
    What the driver does to the bus and to the pin is recorded in `trace`. */
module Driver {
  import opened Symbols
  import opened Transmission
  import opened Formatting

  /** Decomposes m into decimal digits, least significant first, at the front of
      `digits` (a do-while: zero yields the single digit 0). Entries past the
      digits keep whatever they held. */
  method SplitDigits(m: nat, digits: array<byte>) returns (n: nat)
    requires |DigitsLsb(m)| <= digits.Length
    modifies digits
    ensures n == |DigitsLsb(m)|
    ensures digits[..n] == DigitsLsb(m)
    ensures digits[n..] == old(digits[n..])
  {
    var v := m;
    n := 0;
    while true
      invariant n + |DigitsLsb(v)| == |DigitsLsb(m)|
      invariant digits[..n] + DigitsLsb(v) == DigitsLsb(m)
      invariant digits[n..] == old(digits[n..])
      decreases v
    {
      ghost var done := digits[..n];
      ghost var rest := if v < 10 then [] else DigitsLsb(v / 10);
      assert DigitsLsb(v) == [v % 10] + rest;
      digits[n] := v % 10;
      assert digits[..n + 1] == done + [v % 10];
      n := n + 1;
      v := v / 10;
      if v == 0 {
        assert rest == [];
        return;
      }
      assert rest == DigitsLsb(v);
    }
  }

  class Display {
    /** The four positions, left to right. */
    const cells: array<Cell>
    /** Address of the display on the bus (also sent first in single-wire mode). */
    var devAddr: byte
    /** Pin of the single-wire line. */
    const sdpPin: byte
    /** Two-wire bus when true, single-wire line otherwise. */
    const i2cMode: bool
    /** Everything the driver has done to the bus or the pin, oldest first. */
    var trace: seq<Event>

    /** Four cells, each dot flag 0 or 1. */
    ghost predicate Valid()
      reads cells
    {
      cells.Length == 4 && forall k :: 0 <= k < 4 ==> cells[k].dot <= 1
    }

    ghost function Cells(): (r: seq<Cell>)
      requires cells.Length == 4
      reads cells
      ensures |r| == 4
    {
      cells[..]
    }

    /** Two-wire mode: a fresh driver shows a minus in every position. */
    constructor I2C(addr: byte)
      ensures Valid() && fresh(cells)
      ensures Cells() == InitialCells && SymbolsValid(Cells())
      ensures devAddr == addr && i2cMode && sdpPin == 0 && trace == []
    {
      cells := new Cell[4](_ => MinusCell);
      devAddr := addr;
      sdpPin := 0;
      i2cMode := true;
      trace := [];
    }

    /** Single-wire mode: the pin is made an output and driven high (the idle level). */
    constructor SingleWire(addr: byte, pin: byte)
      ensures Valid() && fresh(cells)
      ensures Cells() == InitialCells && SymbolsValid(Cells())
      ensures devAddr == addr && !i2cMode && sdpPin == pin
      ensures trace == [ConfigureOutput(pin, High)]
    {
      cells := new Cell[4](_ => MinusCell);
      devAddr := addr;
      sdpPin := pin;
      i2cMode := false;
      trace := [ConfigureOutput(pin, High)];
    }

    /** The four bytes sent for the cells: each symbol id, with the top bit set
        when the dot is on. */
    method PackFrame() returns (data: array<byte>)
      requires Valid()
      ensures data.Length == 4 && data[..] == Frame(Cells())
    {
      data := new byte[4];
      for i := 0 to 4
        invariant forall j :: 0 <= j < i ==> data[j] == FrameByte(cells[j])
      {
        data[i] := cells[i].valueID;
        if cells[i].dot != 0 {
          data[i] := WithDot(data[i]);
        }
      }
    }

    /** One byte on the single-wire line: a start pulse, the eight bits from the
        most significant, a stop pulse. */
    method WriteSdpByte(b: byte)
      modifies `trace
      ensures trace == old(trace) + ByteWaveform(b)
    {
      trace := trace + [Pulse(Low, StartUnits)];
      WriteBits(b);
      trace := trace + [Pulse(High, StopUnits)];
    }

    /** The data-bit loop of WriteSdpByte: bits 7 down to 0, each held for two units. */
    method WriteBits(b: byte)
      modifies `trace
      ensures trace == old(trace) + BitPulses(b, BitsPerByte)
    {
      ghost var sent: seq<Event> := [];
      var i := 7;
      while i >= 0
        invariant -1 <= i <= 7
        invariant trace == old(trace) + sent
        invariant sent + BitPulses(b, i + 1) == BitPulses(b, BitsPerByte)
      {
        var level := if BitSet(b, i) then High else Low;
        trace := trace + [Pulse(level, BitUnits)];
        BitPulsesStep(b, i, sent);
        sent := sent + [Pulse(level, BitUnits)];
        i := i - 1;
      }
      assert sent == sent + BitPulses(b, 0);
    }

    /** Sends the cells over the active transport: one bus write of the four frame
        bytes, or the address and then the four frame bytes on the single wire. */
    method Update()
      requires Valid()
      modifies `trace
      ensures trace == old(trace) + Flush(Cells(), devAddr, i2cMode)
    {
      var data := PackFrame();
      if i2cMode {
        trace := trace + [BusWrite(devAddr, data[..])];
      } else {
        SendAll(data);
      }
    }

    /** The single-wire transmission: the address byte, then the four data bytes. */
    method SendAll(data: array<byte>)
      requires data.Length == 4
      modifies `trace
      ensures trace == old(trace) + Waveform([devAddr] + data[..])
    {
      WriteSdpByte(devAddr);
      WaveformSnoc([], devAddr);
      assert [devAddr] + data[..0] == [] + [devAddr];
      for i := 0 to 4
        invariant trace == old(trace) + Waveform([devAddr] + data[..i])
      {
        WriteSdpByte(data[i]);
        WaveformSnoc([devAddr] + data[..i], data[i]);
        assert [devAddr] + data[..i + 1] == ([devAddr] + data[..i]) + [data[i]];
      }
      assert data[..4] == data[..];
    }

    /** Every cell blank, every dot off (no flush). */
    method Blank()
      requires cells.Length == 4
      modifies cells
      ensures Cells() == Blanks(4)
    {
      for i := 0 to 4
        invariant forall k :: 0 <= k < i ==> cells[k] == BlankCell
      {
        cells[i] := BlankCell;
      }
    }

    /** Writes the first n entries of `digits` as symbol ids into positions top,
        top - 1, ..., top - n + 1, leaving dots and other positions alone. */
    method PlaceDigits(digits: array<byte>, n: nat, top: int)
      requires cells.Length == 4
      requires n <= digits.Length && top < 4 && top - n >= -1
      modifies cells
      ensures forall k :: 0 <= k < 4 ==>
        cells[k] == (if top - n < k <= top then old(cells[k]).(valueID := digits[top - k]) else old(cells[k]))
    {
      for i := 0 to n
        invariant forall k :: 0 <= k < 4 ==>
          cells[k] == (if top - i < k <= top then old(cells[k]).(valueID := digits[top - k]) else old(cells[k]))
      {
        cells[top - i] := cells[top - i].(valueID := digits[i]);
      }
    }

    /** One position: out-of-range positions are ignored without a flush; otherwise
        the clamped id is stored, the dot is set when asked for and otherwise kept. */
    method SetDigit(pos: byte, value: byte, dot: bool)
      requires Valid()
      modifies this, cells
      ensures Valid() && devAddr == old(devAddr)
      ensures pos > 3 ==> Cells() == old(Cells()) && trace == old(trace)
      ensures pos <= 3 ==>
        Cells() == old(Cells())[pos := Cell(ClampSymbol(value), if dot then 1 else old(cells[pos].dot))]
        && trace == old(trace) + Flush(Cells(), devAddr, i2cMode)
      ensures old(SymbolsValid(Cells())) ==> SymbolsValid(Cells())
    {
      if pos > 3 {
        return;
      }
      var v := value;
      if v >= SymbolsNum {
        v := MinusId;
      }
      if dot {
        cells[pos] := cells[pos].(dot := 1);
      }
      cells[pos] := cells[pos].(valueID := v);
      Update();
    }

    /** An integer: rejected with -1 and no change outside [-999, 9999]; otherwise
        the digits right-aligned, a minus just left of them when negative, the
        other positions blank, no dots, then a flush. */
    method SetInt(value: int) returns (status: int)
      requires Valid()
      modifies this, cells
      ensures Valid() && devAddr == old(devAddr)
      ensures !IntInRange(value) ==> status == -1 && Cells() == old(Cells()) && trace == old(trace)
      ensures IntInRange(value) ==>
        status == 0 && Cells() == IntCells(value) && SymbolsValid(Cells())
        && trace == old(trace) + Flush(Cells(), devAddr, i2cMode)
    {
      if value > 9999 || value < -999 {
        return -1;
      }
      Blank();
      ShowInt(value);
      IntCellsValid(value);
      Update();
      status := 0;
    }

    /** The body of SetInt after the range check and the clearing loop: the digits
        right-aligned, then the minus just left of them. */
    method ShowInt(value: int)
      requires IntInRange(value)
      requires cells.Length == 4 && Cells() == Blanks(4)
      modifies cells
      ensures Cells() == IntCells(value)
    {
      var isNeg := false;
      var v := value;
      if v < 0 {
        isNeg := true;
        v := -v;
      }
      ghost var ds := DigitsLsb(v);
      IntFits(value);
      var digits := new byte[4];
      var n := SplitDigits(v, digits);
      PlaceDigits(digits, n, 3);
      if isNeg {
        cells[3 - n] := cells[3 - n].(valueID := MinusId);
      }
      RenderAt(isNeg, ds, [], false);
      assert forall k | 0 <= k < 4 :: cells[k] == RenderCell(isNeg, ds, [], false, k);
    }

    /** A decimal: rejected with -1 and no change unless it lies in (-1000, 10000).
        When the sign and integral digits fill the display, they are shown with a
        point after the last one and 1 is returned; otherwise ShownPlaces entries of
        the fraction-digit buffer follow the point and 0 is returned. The buffer is
        not initialised: `buffer` is what it held, and the display holds
        DecimalCells for it. Only when the fraction's digits fill the places shown
        is that the zero-buffer layout, which shows symbols only. */
    method SetFloat(x: Decimal, fractNum: byte) returns (status: int, ghost buffer: seq<byte>)
      requires Valid() && WellSigned(x)
      modifies this, cells
      ensures Valid() && devAddr == old(devAddr)
      ensures !DecimalInRange(x) ==> status == -1 && Cells() == old(Cells()) && trace == old(trace)
      ensures DecimalInRange(x) ==>
        status == (if FreePositions(x) == 0 then 1 else 0)
        && |buffer| == 4 && Cells() == DecimalCells(x, fractNum, buffer)
        && trace == old(trace) + Flush(Cells(), devAddr, i2cMode)
      ensures DecimalInRange(x) && FractionFilled(x, fractNum) ==>
        Cells() == DecimalCells(x, fractNum, ZeroBuffer) && SymbolsValid(Cells())
    {
      buffer := ZeroBuffer;
      if (!x.neg && x.whole >= 10000) || (x.neg && x.whole >= 1000) {
        return -1, buffer;
      }
      Blank();
      var full;
      full, buffer := ShowDecimal(x, fractNum);
      DecimalCellsDots(x, fractNum, buffer);
      if FractionFilled(x, fractNum) {
        FilledIgnoresBuffer(x, fractNum, buffer);
        DecimalCellsValid(x, fractNum);
      }
      Update();
      status := if full then 1 else 0;
    }

    /** The body of SetFloat after the range check and the clearing loop: the
        digits of the integral part decide how many positions are free, then one
        of the two branches places the digits. `buffer` is what the fraction-digit
        buffer held before the fraction was decomposed into it. */
    method ShowDecimal(x: Decimal, fractNum: byte) returns (full: bool, ghost buffer: seq<byte>)
      requires DecimalInRange(x)
      requires cells.Length == 4 && Cells() == Blanks(4)
      modifies cells
      ensures full == (FreePositions(x) == 0)
      ensures |buffer| == 4 && Cells() == DecimalCells(x, fractNum, buffer)
    {
      var freePos := 4;
      if x.neg {
        freePos := freePos - 1;
      }
      assert FreePositions(x) == 4 - SignWidth(x.neg) - |DigitsLsb(x.whole)|;
      var intDigits := new byte[4];
      var intNum := SplitDigits(x.whole, intDigits);
      freePos := freePos - intNum;
      if freePos == 0 {
        // no fraction buffer is read on this path: DecimalCells shows none of it
        buffer := ZeroBuffer;
        PlaceWhole(x, fractNum, intDigits, intNum);
        return true, buffer;
      }
      var fractFinal := if freePos >= fractNum then fractNum else freePos;
      var fracDigits;
      fracDigits, buffer := FractionDigits(x, fractNum, fractFinal);
      PlaceFraction(x, fractNum, intDigits, intNum, fracDigits, buffer);
      return false, buffer;
    }

    /** The digits of the first fractFinal places after the point, least significant
        first, decomposed into a fresh four-entry buffer that is not initialised:
        `buffer` is what it held, and entries past the digits keep it. */
    method FractionDigits(x: Decimal, fractNum: byte, fractFinal: nat) returns (fracDigits: array<byte>, ghost buffer: seq<byte>)
      requires DecimalInRange(x) && fractFinal == ShownPlaces(x, fractNum)
      ensures fresh(fracDigits) && fracDigits.Length == 4 && |buffer| == 4
      ensures fracDigits[..] == FractionBuffer(x, fractNum, buffer)
    {
      ScaledDigits(x, fractNum);
      fracDigits := new byte[4];
      buffer := fracDigits[..];
      var fracNum := SplitDigits(FracValue(x.frac, fractFinal), fracDigits);
      assert fracDigits[fracNum..] == buffer[fracNum..];
      assert fracDigits[..] == fracDigits[..fracNum] + fracDigits[fracNum..];
    }

    /** The branch of SetFloat where the sign and the integral digits fill the display:
        the digits, the minus, and the point on the last position. */
    method PlaceWhole(x: Decimal, fractNum: byte, intDigits: array<byte>, intNum: nat)
      requires DecimalInRange(x) && FreePositions(x) == 0
      requires cells.Length == 4 && Cells() == Blanks(4)
      requires intDigits.Length == 4 && intNum == |DigitsLsb(x.whole)| && intDigits[..intNum] == DigitsLsb(x.whole)
      modifies cells
      ensures Cells() == DecimalCells(x, fractNum, ZeroBuffer)
    {
      PlaceDigits(intDigits, intNum, 3);
      if x.neg {
        cells[3 - intNum] := cells[3 - intNum].(valueID := MinusId);
      }
      cells[3] := cells[3].(dot := 1);
      FloatCellsAt(x, fractNum, ZeroBuffer, []);
    }

    /** The branch of SetFloat with room for fraction digits: the fraction digits from
        the right, the point, the integral digits, the minus. The fraction digits are
        whatever the buffer holds after the decomposition. */
    method PlaceFraction(x: Decimal, fractNum: byte, intDigits: array<byte>, intNum: nat, fracDigits: array<byte>, ghost buffer: seq<byte>)
      requires DecimalInRange(x) && FreePositions(x) > 0
      requires cells.Length == 4 && Cells() == Blanks(4)
      requires intDigits.Length == 4 && intNum == |DigitsLsb(x.whole)| && intDigits[..intNum] == DigitsLsb(x.whole)
      requires |buffer| == 4 && fracDigits.Length == 4 && fracDigits[..] == FractionBuffer(x, fractNum, buffer)
      modifies cells
      ensures Cells() == DecimalCells(x, fractNum, buffer)
    {
      var fractFinal := ShownPlaces(x, fractNum);
      ghost var fs := fracDigits[..fractFinal];
      ghost var ds := DigitsLsb(x.whole);
      var pos := 3;
      PlaceDigits(fracDigits, fractFinal, pos);
      assert forall k :: 0 <= k < 4 ==> cells[k] == (if 3 - k < |fs| then Cell(fs[3 - k], 0) else BlankCell);
      pos := pos - fractFinal;
      cells[pos] := cells[pos].(dot := 1);
      assert forall k :: 0 <= k < 4 ==> cells[k] == (if 3 - k < |fs| then Cell(fs[3 - k], 0) else if k == pos then Cell(EmptyId, 1) else BlankCell);
      PlaceDigits(intDigits, intNum, pos);
      assert forall k :: 0 <= k < 4 ==>
        cells[k] == (if 3 - k < |fs| then Cell(fs[3 - k], 0)
                     else if 3 - |fs| - k < |ds| then Cell(ds[3 - |fs| - k], if k == pos then 1 else 0)
                     else BlankCell);
      pos := pos - intNum;
      if x.neg {
        cells[pos] := cells[pos].(valueID := MinusId);
      }
      FloatCellsAt(x, fractNum, buffer, fs);
    }

    /** The cells match DecimalCells position by position once the fraction digits
        fs, the point and the integral digits are placed. */
    lemma FloatCellsAt(x: Decimal, fractNum: byte, buffer: seq<byte>, fs: seq<byte>)
      requires DecimalInRange(x) && cells.Length == 4 && |buffer| == 4
      requires fs == FractionBuffer(x, fractNum, buffer)[..ShownPlaces(x, fractNum)]
      requires forall k :: 0 <= k < 4 ==>
        cells[k] == RenderCell(x.neg, DigitsLsb(x.whole), fs, true, k)
      ensures Cells() == DecimalCells(x, fractNum, buffer)
    {
      RenderAt(x.neg, DigitsLsb(x.whole), fs, true);
    }

    /** Turns one dot on and flushes; nothing else changes. */
    method SetDot(pos: byte)
      requires Valid() && pos < 4
      modifies this, cells
      ensures Valid() && devAddr == old(devAddr)
      ensures Cells() == old(Cells())[pos := old(cells[pos]).(dot := 1)]
      ensures trace == old(trace) + Flush(Cells(), devAddr, i2cMode)
      ensures old(SymbolsValid(Cells())) ==> SymbolsValid(Cells())
    {
      cells[pos] := cells[pos].(dot := 1);
      Update();
    }

    /** Turns one dot off and flushes; nothing else changes. */
    method ResetDot(pos: byte)
      requires Valid() && pos < 4
      modifies this, cells
      ensures Valid() && devAddr == old(devAddr)
      ensures Cells() == old(Cells())[pos := old(cells[pos]).(dot := 0)]
      ensures trace == old(trace) + Flush(Cells(), devAddr, i2cMode)
      ensures old(SymbolsValid(Cells())) ==> SymbolsValid(Cells())
    {
      cells[pos] := cells[pos].(dot := 0);
      Update();
    }

    /** All four symbol ids at once, each clamped; dots are kept. */
    method SetAllDigits(value0: byte, value1: byte, value2: byte, value3: byte)
      requires Valid()
      modifies this, cells
      ensures Valid() && devAddr == old(devAddr)
      ensures Cells() == WithSymbols(old(Cells()), ClampAll([value0, value1, value2, value3]))
      ensures SymbolsValid(Cells())
      ensures trace == old(trace) + Flush(Cells(), devAddr, i2cMode)
    {
      var v0, v1, v2, v3 := value0, value1, value2, value3;
      if v0 >= SymbolsNum { v0 := MinusId; }
      if v1 >= SymbolsNum { v1 := MinusId; }
      if v2 >= SymbolsNum { v2 := MinusId; }
      if v3 >= SymbolsNum { v3 := MinusId; }
      ClampAllValid(cells[..], [value0, value1, value2, value3]);
      cells[0] := cells[0].(valueID := v0);
      cells[1] := cells[1].(valueID := v1);
      cells[2] := cells[2].(valueID := v2);
      cells[3] := cells[3].(valueID := v3);
      Update();
    }

    /** All four symbol ids from the caller's buffer: out-of-range entries are
        replaced by MINUS in the buffer itself, then copied; dots are kept. */
    method SetAllDigitsFrom(values: array<byte>)
      requires Valid() && values.Length >= 4
      modifies this, cells, values
      ensures Valid() && devAddr == old(devAddr)
      ensures values[..4] == ClampAll(old(values[..4])) && values[4..] == old(values[4..])
      ensures Cells() == WithSymbols(old(Cells()), values[..4])
      ensures SymbolsValid(Cells())
      ensures trace == old(trace) + Flush(Cells(), devAddr, i2cMode)
    {
      ClampAllValid(cells[..], values[..4]);
      for i := 0 to 4
        invariant forall j :: 0 <= j < i ==>
          values[j] == ClampSymbol(old(values[j])) && cells[j] == old(cells[j]).(valueID := values[j])
        invariant forall j :: i <= j < values.Length ==> values[j] == old(values[j])
        invariant forall j :: i <= j < 4 ==> cells[j] == old(cells[j])
        invariant trace == old(trace) && devAddr == old(devAddr)
      {
        if values[i] >= SymbolsNum {
          values[i] := MinusId;
        }
        cells[i] := cells[i].(valueID := values[i]);
      }
      Update();
    }

    /** Every cell blank with its dot off, then a flush. */
    method Clear()
      requires Valid()
      modifies this, cells
      ensures Valid() && devAddr == old(devAddr)
      ensures Cells() == Blanks(4) && SymbolsValid(Cells())
      ensures trace == old(trace) + Flush(Cells(), devAddr, i2cMode)
    {
      Blank();
      Update();
    }

    /** Shows the acknowledgement ids (65, 68, 82, then the new address) with dots
        kept, flushes them to the OLD address, and only then switches address. */
    method SetDevAddr(addr: byte)
      requires Valid()
      modifies this, cells
      ensures Valid() && devAddr == addr
      ensures Cells() == WithSymbols(old(Cells()), AddressIds(addr))
      ensures trace == old(trace) + Flush(Cells(), old(devAddr), i2cMode)
    {
      cells[0] := cells[0].(valueID := 65);
      cells[1] := cells[1].(valueID := 68);
      cells[2] := cells[2].(valueID := 82);
      cells[3] := cells[3].(valueID := addr);
      Update();
      devAddr := addr;
    }
  }
}
