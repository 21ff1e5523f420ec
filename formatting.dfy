/**
 * The formatting engine as values: what the four cells hold after a number is
 * written, and a reader that recovers the number from the cells.
 */
module Formatting {
  import opened Symbols

  function Pow10(n: nat): (r: nat)
    ensures r >= 1
    ensures n >= 1 ==> r >= 10
  {
    if n == 0 then 1 else 10 * Pow10(n - 1)
  }

  function Abs(v: int): nat
  {
    if v < 0 then -v else v
  }

  // ---------------------------------------------------------------------------
  // Decimal digits

  /** The decimal digits of m, least significant first, as the source's
      do-while loops produce them: always at least one, so 0 gives [0]. */
  function DigitsLsb(m: nat): (r: seq<Digit>)
    ensures |r| >= 1
    decreases m
  {
    if m < 10 then [m] else [m % 10] + DigitsLsb(m / 10)
  }

  /** The number that digits, least significant first, stand for. */
  function ValueLsb(ds: seq<byte>): nat
  {
    if ds == [] then 0 else ds[0] + 10 * ValueLsb(ds[1..])
  }

  predicate AllDigits(ds: seq<byte>)
  {
    forall i :: 0 <= i < |ds| ==> ds[i] < 10
  }

  /** Decomposing and recomposing gives the number back. */
  lemma {:induction false} DigitsRoundTrip(m: nat)
    ensures ValueLsb(DigitsLsb(m)) == m
  {
    if m >= 10 {
      DigitsRoundTrip(m / 10);
      assert DigitsLsb(m)[1..] == DigitsLsb(m / 10);
    }
  }

  /** m has at most k digits exactly when m < 10^k. */
  lemma {:induction false} DigitsCount(m: nat, k: nat)
    requires k >= 1
    ensures |DigitsLsb(m)| <= k <==> m < Pow10(k)
  {
    if m >= 10 && k > 1 {
      DigitsCount(m / 10, k - 1);
    }
  }

  /** Zeros above the most significant digit do not change the value. */
  lemma {:induction false} ValueLsbZeros(a: seq<byte>, z: seq<byte>)
    requires forall i :: 0 <= i < |z| ==> z[i] == 0
    ensures ValueLsb(a + z) == ValueLsb(a)
  {
    if a == [] {
      ValueZeros(z);
      assert a + z == z;
    } else {
      assert (a + z)[1..] == a[1..] + z;
      ValueLsbZeros(a[1..], z);
    }
  }

  lemma {:induction false} ValueZeros(z: seq<byte>)
    requires forall i :: 0 <= i < |z| ==> z[i] == 0
    ensures ValueLsb(z) == 0
  {
    if z != [] {
      ValueZeros(z[1..]);
    }
  }

  // ---------------------------------------------------------------------------
  // Layout

  /** Digits, least significant first, as cells left to right: the last digit leftmost. */
  function DigitCells(ds: seq<byte>): (r: seq<Cell>)
    ensures |r| == |ds|
  {
    seq(|ds|, j requires 0 <= j < |ds| => Cell(ds[|ds| - 1 - j], 0))
  }

  function Blanks(n: nat): (r: seq<Cell>)
    ensures |r| == n
  {
    seq(n, _ => BlankCell)
  }

  /** The same cells with the dot of the last one on. */
  function MarkLast(cs: seq<Cell>): (r: seq<Cell>)
    requires |cs| > 0
    ensures |r| == |cs|
  {
    cs[..|cs| - 1] + [cs[|cs| - 1].(dot := 1)]
  }

  function SignWidth(neg: bool): nat
  {
    if neg then 1 else 0
  }

  /** An integral part of at least one digit, a sign and the fraction fit in four cells. */
  predicate Fits(neg: bool, ds: seq<byte>, fs: seq<byte>)
  {
    1 <= |ds| && SignWidth(neg) + |ds| + |fs| <= 4
  }

  function SignCells(neg: bool): (r: seq<Cell>)
    ensures |r| == SignWidth(neg)
  {
    if neg then [MinusCell] else []
  }

  function IntegralCells(ds: seq<byte>, point: bool): (r: seq<Cell>)
    requires |ds| >= 1
    ensures |r| == |ds|
  {
    if point then MarkLast(DigitCells(ds)) else DigitCells(ds)
  }

  /** The occupied cells: the minus sign if negative, the integral digits (the last
      one dotted when there is a point), the fraction digits. */
  function Shown(neg: bool, ds: seq<byte>, fs: seq<byte>, point: bool): (r: seq<Cell>)
    requires |ds| >= 1
    ensures |r| == SignWidth(neg) + |ds| + |fs|
  {
    SignCells(neg) + (IntegralCells(ds, point) + DigitCells(fs))
  }

  /** The display right-aligned: blanks, then the occupied cells. */
  function Render(neg: bool, ds: seq<byte>, fs: seq<byte>, point: bool): (r: seq<Cell>)
    requires Fits(neg, ds, fs)
    ensures |r| == 4
  {
    Blanks(4 - SignWidth(neg) - |ds| - |fs|) + Shown(neg, ds, fs, point)
  }

  /** The cell at position k of a rendering, counted from the right as the source does. */
  function RenderCell(neg: bool, ds: seq<byte>, fs: seq<byte>, point: bool, k: nat): Cell
    requires Fits(neg, ds, fs) && k < 4
  {
    if 3 - k < |fs| then Cell(fs[3 - k], 0)
    else if 3 - |fs| - k < |ds| then Cell(ds[3 - |fs| - k], if point && k == 3 - |fs| then 1 else 0)
    else if neg && k == 3 - |fs| - |ds| then MinusCell
    else BlankCell
  }

  /** Fraction digit i sits in cell 3-i; the point is on cell 3-|fs|; integral digit i
      sits in cell 3-|fs|-i; the minus sign directly left of the integral digits. */
  lemma RenderAt(neg: bool, ds: seq<byte>, fs: seq<byte>, point: bool)
    requires Fits(neg, ds, fs)
    ensures forall k :: 0 <= k < 4 ==> Render(neg, ds, fs, point)[k] == RenderCell(neg, ds, fs, point, k)
  {
    forall k | 0 <= k < 4
      ensures Render(neg, ds, fs, point)[k] == RenderCell(neg, ds, fs, point, k)
    {
      RenderCellAt(neg, ds, fs, point, k);
    }
  }

  lemma RenderCellAt(neg: bool, ds: seq<byte>, fs: seq<byte>, point: bool, k: nat)
    requires Fits(neg, ds, fs) && k < 4
    ensures Render(neg, ds, fs, point)[k] == RenderCell(neg, ds, fs, point, k)
  {
    var b := 4 - SignWidth(neg) - |ds| - |fs|;
    var s := SignCells(neg);
    var ints := IntegralCells(ds, point);
    var tail := ints + DigitCells(fs);
    var r := Render(neg, ds, fs, point);
    if k < b {
      assert r[k] == Blanks(b)[k];
    } else {
      assert r[k] == Shown(neg, ds, fs, point)[k - b];
      if k - b < |s| {
        assert r[k] == s[k - b];
      } else {
        assert r[k] == tail[k - b - |s|];
        if k - b - |s| < |ints| {
          assert r[k] == ints[k - b - |s|];
        } else {
          assert r[k] == DigitCells(fs)[k - b - |s| - |ints|];
        }
      }
    }
  }

  // ---------------------------------------------------------------------------
  // Writing symbol ids directly

  /** New symbol ids in all four cells, every dot kept. */
  function WithSymbols(cs: seq<Cell>, ids: seq<byte>): (r: seq<Cell>)
    requires |cs| == 4 && |ids| == 4
    ensures |r| == 4
  {
    seq(4, k requires 0 <= k < 4 => cs[k].(valueID := ids[k]))
  }

  /** Every id clamped: ids that name no symbol become MINUS. */
  function ClampAll(ids: seq<byte>): (r: seq<byte>)
    ensures |r| == |ids|
  {
    seq(|ids|, k requires 0 <= k < |ids| => ClampSymbol(ids[k]))
  }

  /** Clamped ids that already name symbols are unchanged, others become MINUS;
      written into the cells, they keep every cell a symbol. */
  lemma ClampAllValid(cs: seq<Cell>, ids: seq<byte>)
    requires |cs| == 4 && |ids| == 4
    requires forall k :: 0 <= k < 4 ==> cs[k].dot <= 1
    ensures forall k :: 0 <= k < 4 ==> ClampAll(ids)[k] == (if ids[k] < SymbolsNum then ids[k] else MinusId)
    ensures SymbolsValid(WithSymbols(cs, ClampAll(ids)))
    ensures forall k :: 0 <= k < 4 ==> WithSymbols(cs, ClampAll(ids))[k].dot == cs[k].dot
  {
  }

  /** The acknowledgement shown when the address changes: 'A', 'D', 'R' as character
      codes, then the new address itself. */
  function AddressIds(addr: byte): (r: seq<byte>)
    ensures |r| == 4
  {
    [65, 68, 82, addr]
  }

  /** The acknowledgement is not made of symbols: the one operation after which the
      cells no longer all hold symbol ids. */
  lemma AddressIdsNotSymbols(cs: seq<Cell>, addr: byte)
    requires |cs| == 4
    ensures !SymbolsValid(WithSymbols(cs, AddressIds(addr)))
    ensures forall k :: 0 <= k < 3 ==> FromId(WithSymbols(cs, AddressIds(addr))[k].valueID).None?
  {
    assert WithSymbols(cs, AddressIds(addr))[0].valueID == 65;
  }

  // ---------------------------------------------------------------------------
  // Reading the display back

  /** What a person reads off the display: a sign, the integral number, the
      fraction as a number with its count of places, and whether a point shows. */
  datatype Reading = Reading(neg: bool, whole: nat, fraction: nat, places: nat, point: bool)

  predicate IsDigitCell(c: Cell)
  {
    c.valueID < 10 && c.dot == 0
  }

  /** The digits of a run of undotted digit cells, rightmost first. */
  function ReadDigits(cs: seq<Cell>): (r: Option<seq<byte>>)
    ensures r.Some? ==> |r.value| == |cs| && AllDigits(r.value)
  {
    if cs == [] then Some([])
    else if !IsDigitCell(cs[|cs| - 1]) then None
    else match ReadDigits(cs[..|cs| - 1])
      case None => None
      case Some(ds) => Some([cs[|cs| - 1].valueID] + ds)
  }

  function DropBlanks(cs: seq<Cell>): (r: seq<Cell>)
    ensures |r| <= |cs|
  {
    if cs != [] && cs[0] == BlankCell then DropBlanks(cs[1..]) else cs
  }

  function FirstDot(cs: seq<Cell>): (r: nat)
    ensures r <= |cs|
  {
    if cs == [] then 0 else if cs[0].dot != 0 then 0 else 1 + FirstDot(cs[1..])
  }

  /** Reads the display left to right: leading blanks, an optional minus, then digits;
      a dotted digit ends the integral part and the digits after it are the fraction. */
  function ReadCells(cs: seq<Cell>): Option<Reading>
  {
    var t := DropBlanks(cs);
    if t != [] && t[0] == MinusCell then ReadNumber(true, t[1..]) else ReadNumber(false, t)
  }

  /** Reads the digits after the sign. */
  function ReadNumber(neg: bool, u: seq<Cell>): Option<Reading>
  {
    var k := FirstDot(u);
    if u == [] then None
    else if k == |u| then
      match ReadDigits(u)
      case None => None
      case Some(ds) => Some(Reading(neg, ValueLsb(ds), 0, 0, false))
    else
      match ReadDigits(u[..k] + [u[k].(dot := 0)])
      case None => None
      case Some(ds) =>
        match ReadDigits(u[k + 1..])
        case None => None
        case Some(fs) => Some(Reading(neg, ValueLsb(ds), ValueLsb(fs), |fs|, true))
  }

  lemma {:induction false} ReadDigitCells(ds: seq<byte>)
    requires AllDigits(ds)
    ensures ReadDigits(DigitCells(ds)) == Some(ds)
  {
    if ds != [] {
      var cs := DigitCells(ds);
      assert cs[..|cs| - 1] == DigitCells(ds[1..]);
      ReadDigitCells(ds[1..]);
      assert [ds[0]] + ds[1..] == ds;
    }
  }

  lemma {:induction false} DropBlanksPrefix(n: nat, t: seq<Cell>)
    requires t == [] || t[0] != BlankCell
    ensures DropBlanks(Blanks(n) + t) == t
  {
    if n == 0 {
      assert Blanks(n) + t == t;
    } else {
      assert (Blanks(n) + t)[1..] == Blanks(n - 1) + t;
      DropBlanksPrefix(n - 1, t);
    }
  }

  lemma {:induction false} FirstDotAt(u: seq<Cell>, k: nat)
    requires k <= |u|
    requires forall j :: 0 <= j < k ==> u[j].dot == 0
    requires k < |u| ==> u[k].dot != 0
    ensures FirstDot(u) == k
  {
    if k > 0 {
      FirstDotAt(u[1..], k - 1);
    }
  }

  /** A reader recovers from a rendering exactly the sign, the integral number, the
      fraction digits and the point it was rendered from. */
  lemma ReadRender(neg: bool, ds: seq<byte>, fs: seq<byte>, point: bool)
    requires Fits(neg, ds, fs) && AllDigits(ds) && AllDigits(fs)
    requires !point ==> fs == []
    ensures ReadCells(Render(neg, ds, fs, point)) == Some(Reading(neg, ValueLsb(ds), ValueLsb(fs), |fs|, point))
  {
    var u := IntegralCells(ds, point) + DigitCells(fs);
    assert u[0].valueID == ds[|ds| - 1];
    var sh := Shown(neg, ds, fs, point);
    assert sh == SignCells(neg) + u;
    ReadSigned(neg, u);
    DropBlanksPrefix(4 - SignWidth(neg) - |ds| - |fs|, sh);
    assert DropBlanks(Render(neg, ds, fs, point)) == sh;
    ReadNumberDigits(neg, ds, fs, point);
  }

  /** After the blanks, a minus cell is read as the sign. */
  lemma ReadSigned(neg: bool, u: seq<Cell>)
    requires u != [] && u[0].valueID < 10
    ensures var t := SignCells(neg) + u;
      t != [] && t[0] != BlankCell &&
      (if t[0] == MinusCell then ReadNumber(true, t[1..]) else ReadNumber(false, t)) == ReadNumber(neg, u)
  {
    if neg {
      assert ([MinusCell] + u)[1..] == u;
    } else {
      assert [] + u == u;
    }
  }

  lemma ReadNumberDigits(neg: bool, ds: seq<byte>, fs: seq<byte>, point: bool)
    requires |ds| >= 1 && AllDigits(ds) && AllDigits(fs)
    requires !point ==> fs == []
    ensures ReadNumber(neg, IntegralCells(ds, point) + DigitCells(fs))
         == Some(Reading(neg, ValueLsb(ds), ValueLsb(fs), |fs|, point))
  {
    ReadDigitCells(ds);
    if point {
      ReadPointed(neg, ds, fs);
    } else {
      var u := DigitCells(ds) + DigitCells(fs);
      assert u == DigitCells(ds);
      FirstDotAt(u, |u|);
    }
  }

  /** With a point, the digits up to the dotted one are the integral part and the rest the fraction. */
  lemma ReadPointed(neg: bool, ds: seq<byte>, fs: seq<byte>)
    requires |ds| >= 1 && AllDigits(ds) && AllDigits(fs)
    requires ReadDigits(DigitCells(ds)) == Some(ds)
    ensures ReadNumber(neg, MarkLast(DigitCells(ds)) + DigitCells(fs))
         == Some(Reading(neg, ValueLsb(ds), ValueLsb(fs), |fs|, true))
  {
    var dc := DigitCells(ds);
    var u := MarkLast(dc) + DigitCells(fs);
    var k := |ds| - 1;
    FirstDotAt(u, k);
    assert u[..k] + [u[k].(dot := 0)] == dc;
    assert u[k + 1..] == DigitCells(fs);
    ReadDigitCells(fs);
  }

  // ---------------------------------------------------------------------------
  // Integers

  /** The integers that fit in four cells. */
  predicate IntInRange(v: int)
  {
    -999 <= v <= 9999
  }

  /** An in-range integer has room for its digits and its sign. */
  lemma IntFits(v: int)
    requires IntInRange(v)
    ensures Fits(v < 0, DigitsLsb(Abs(v)), [])
  {
    assert Pow10(3) == 1000 && Pow10(4) == 10000;
    DigitsCount(Abs(v), if v < 0 then 3 else 4);
  }

  /** The cells after writing an in-range integer: no dots, digits right-aligned,
      a minus sign directly left of them when negative, blanks elsewhere. */
  function IntCells(v: int): (r: seq<Cell>)
    requires IntInRange(v)
    ensures |r| == 4
  {
    IntFits(v);
    Render(v < 0, DigitsLsb(Abs(v)), [], false)
  }

  function IntOf(r: Reading): int
  {
    if r.neg then -(r.whole as int) else r.whole
  }

  /** Reading the display back after an integer is written gives that integer. */
  lemma IntReadsBack(v: int)
    requires IntInRange(v)
    ensures ReadCells(IntCells(v)).Some?
    ensures !ReadCells(IntCells(v)).value.point
    ensures IntOf(ReadCells(IntCells(v)).value) == v
  {
    IntFits(v);
    ReadRender(v < 0, DigitsLsb(Abs(v)), [], false);
    DigitsRoundTrip(Abs(v));
  }

  /** Every cell of an integer shows a symbol and no dot. */
  lemma IntCellsValid(v: int)
    requires IntInRange(v)
    ensures SymbolsValid(IntCells(v))
    ensures forall k :: 0 <= k < 4 ==> IntCells(v)[k].dot == 0
  {
    IntFits(v);
    RenderAt(v < 0, DigitsLsb(Abs(v)), [], false);
  }

  /** Zero shows as one 0 in the rightmost cell. */
  lemma ZeroCells()
    ensures IntCells(0) == [BlankCell, BlankCell, BlankCell, Cell(0, 0)]
  {
    IntFits(0);
    RenderAt(false, [0], [], false);
  }

  /** Different integers give different displays. */
  lemma IntCellsInjective(v: int, w: int)
    requires IntInRange(v) && IntInRange(w) && IntCells(v) == IntCells(w)
    ensures v == w
  {
    IntReadsBack(v);
    IntReadsBack(w);
  }

  // ---------------------------------------------------------------------------
  // Decimal fractions

  /** A decimal number: whether it is below zero, the integral part of its magnitude
      and the digits after the point, most significant first (the value the source
      receives as a float; minus zero has neg false, as `value < 0` is false for it). */
  datatype Decimal = Decimal(neg: bool, whole: nat, frac: seq<Digit>)

  /** The sign flag says the value is below zero, so a value of zero magnitude is
      never marked negative (minus zero compares equal to zero). */
  predicate WellSigned(x: Decimal)
  {
    x.neg ==> x.whole > 0 || exists i :: 0 <= i < |x.frac| && x.frac[i] != 0
  }

  /** Not rejected by the range check: the value is below 10000 and above -1000. */
  predicate DecimalInRange(x: Decimal)
  {
    if x.neg then x.whole < 1000 else x.whole < 10000
  }

  function FracDigit(frac: seq<Digit>, i: nat): Digit
  {
    if i < |frac| then frac[i] else 0
  }

  /** The first k digits after the point as one number: the fraction scaled by 10^k
      and truncated toward zero. */
  function FracValue(frac: seq<Digit>, k: nat): (r: nat)
    ensures r < Pow10(k)
  {
    if k == 0 then 0 else 10 * FracValue(frac, k - 1) + FracDigit(frac, k - 1)
  }

  /** Cells left for fraction digits once the sign and the integral digits are placed
      (`freePos`). The first ensures is the count itself, which the proofs use; the
      result being a nat and at most 3 is the content: the `uint8_t` subtraction that
      computes it never wraps. */
  function FreePositions(x: Decimal): (r: nat)
    requires DecimalInRange(x)
    ensures r == 4 - SignWidth(x.neg) - |DigitsLsb(x.whole)|
    ensures r <= 3
  {
    assert Pow10(3) == 1000 && Pow10(4) == 10000;
    DigitsCount(x.whole, if x.neg then 3 else 4);
    4 - SignWidth(x.neg) - |DigitsLsb(x.whole)|
  }

  /** The number of fraction digits shown: as many as asked for, if there is room. */
  function ShownPlaces(x: Decimal, fractNum: byte): (r: nat)
    requires DecimalInRange(x)
    ensures r <= fractNum && r <= FreePositions(x)
    ensures r == fractNum || r == FreePositions(x)
  {
    if FreePositions(x) >= fractNum then fractNum else FreePositions(x)
  }

  /** The scaled fraction has no more digits than are shown (one, a 0, when none are). */
  lemma ScaledDigits(x: Decimal, fractNum: byte)
    requires DecimalInRange(x)
    ensures var n := |DigitsLsb(FracValue(x.frac, ShownPlaces(x, fractNum)))|;
      n <= 3 && (ShownPlaces(x, fractNum) > 0 ==> n <= ShownPlaces(x, fractNum))
  {
    var k := ShownPlaces(x, fractNum);
    if k > 0 {
      DigitsCount(FracValue(x.frac, k), k);
    }
  }

  /** The four-entry digit buffer after the fraction is decomposed into it: the
      digits of the scaled fraction, then whatever the buffer held before. */
  function FractionBuffer(x: Decimal, fractNum: byte, buffer: seq<byte>): (r: seq<byte>)
    requires DecimalInRange(x) && |buffer| == 4
    ensures |r| == 4
  {
    ScaledDigits(x, fractNum);
    var fd := DigitsLsb(FracValue(x.frac, ShownPlaces(x, fractNum)));
    fd + buffer[|fd|..]
  }

  /** The cells after writing a decimal, given the buffer's contents before the
      fraction is decomposed into it: the integral digits, a point after them,
      then ShownPlaces entries of the buffer. */
  function DecimalCells(x: Decimal, fractNum: byte, buffer: seq<byte>): (r: seq<Cell>)
    requires DecimalInRange(x) && |buffer| == 4
    ensures |r| == 4
  {
    Render(x.neg, DigitsLsb(x.whole), FractionBuffer(x, fractNum, buffer)[..ShownPlaces(x, fractNum)], true)
  }

  const ZeroBuffer: seq<byte> := [0, 0, 0, 0]

  /** With a zeroed buffer, the display reads back as the sign, the integral part and
      the first ShownPlaces digits after the point: the value truncated toward zero
      at min(fractNum, FreePositions) places, followed by a point. */
  lemma DecimalReadsBack(x: Decimal, fractNum: byte)
    requires DecimalInRange(x)
    ensures ReadCells(DecimalCells(x, fractNum, ZeroBuffer))
         == Some(Reading(x.neg, x.whole, FracValue(x.frac, ShownPlaces(x, fractNum)), ShownPlaces(x, fractNum), true))
  {
    var k := ShownPlaces(x, fractNum);
    var m := FracValue(x.frac, k);
    var fd := DigitsLsb(m);
    var fs := FractionBuffer(x, fractNum, ZeroBuffer)[..k];
    ScaledDigits(x, fractNum);
    if k == 0 {
      assert fs == [];
      assert m == 0;
    } else {
      assert fs == fd + ZeroBuffer[|fd|..k];
      ValueLsbZeros(fd, ZeroBuffer[|fd|..k]);
      DigitsRoundTrip(m);
    }
    ReadRender(x.neg, DigitsLsb(x.whole), fs, true);
    DigitsRoundTrip(x.whole);
  }

  /** With a zeroed buffer every cell shows a symbol, and the only dot is the point. */
  lemma DecimalCellsValid(x: Decimal, fractNum: byte)
    requires DecimalInRange(x)
    ensures SymbolsValid(DecimalCells(x, fractNum, ZeroBuffer))
    ensures forall k :: 0 <= k < 4 ==>
      DecimalCells(x, fractNum, ZeroBuffer)[k].dot == (if k == 3 - ShownPlaces(x, fractNum) then 1 else 0)
  {
    var k := ShownPlaces(x, fractNum);
    var ds := DigitsLsb(x.whole);
    var fs := FractionBuffer(x, fractNum, ZeroBuffer)[..k];
    ScaledDigits(x, fractNum);
    assert AllDigits(fs);
    RenderAt(x.neg, ds, fs, true);
  }

  /** A value whose integral part fills every cell, such as 1234.5, shows its
      integral digits with the point on the last cell and no fraction. */
  lemma FullIntegralPart()
    ensures FreePositions(Decimal(false, 1234, [5])) == 0
    ensures DecimalCells(Decimal(false, 1234, [5]), 2, ZeroBuffer)
         == [Cell(1, 0), Cell(2, 0), Cell(3, 0), Cell(4, 1)]
  {
    var x := Decimal(false, 1234, [5]);
    assert DigitsLsb(1234) == [4, 3, 2, 1];
    RenderAt(false, [4, 3, 2, 1], [], true);
  }

  /** The source's buffer is not initialised: when the scaled fraction has fewer
      digits than are shown (0.05 at two places is 5), a stale entry is displayed
      in place of the leading zero, and 0.05 reads as 0.75. */
  lemma StaleFractionDigit()
    ensures FracValue([0, 5], 2) == 5
    ensures ReadCells(DecimalCells(Decimal(false, 0, [0, 5]), 2, [0, 7, 0, 0]))
         == Some(Reading(false, 0, 75, 2, true))
  {
    var x := Decimal(false, 0, [0, 5]);
    assert DigitsLsb(0) == [0];
    assert ShownPlaces(x, 2) == 2;
    assert FracValue(x.frac, 2) == 5;
    assert FractionBuffer(x, 2, [0, 7, 0, 0])[..2] == [5, 7];
    ReadRender(false, [0], [5, 7], true);
  }

  /** Whatever the buffer held, the point is the only dot: it follows the integral digits. */
  lemma DecimalCellsDots(x: Decimal, fractNum: byte, buffer: seq<byte>)
    requires DecimalInRange(x) && |buffer| == 4
    ensures forall k :: 0 <= k < 4 ==>
      DecimalCells(x, fractNum, buffer)[k].dot == (if k == 3 - ShownPlaces(x, fractNum) then 1 else 0)
  {
    var fs := FractionBuffer(x, fractNum, buffer)[..ShownPlaces(x, fractNum)];
    RenderAt(x.neg, DigitsLsb(x.whole), fs, true);
  }

  /** The scaled fraction has a digit for every place shown (no leading zero after
      the point), or no place is shown. */
  predicate FractionFilled(x: Decimal, fractNum: byte)
    requires DecimalInRange(x)
  {
    var k := ShownPlaces(x, fractNum);
    k == 0 || |DigitsLsb(FracValue(x.frac, k))| == k
  }

  /** When the fraction's digits fill the places shown, no buffer entry is displayed
      that the decomposition did not write: the stale contents make no difference. */
  lemma FilledIgnoresBuffer(x: Decimal, fractNum: byte, buffer: seq<byte>)
    requires DecimalInRange(x) && |buffer| == 4 && FractionFilled(x, fractNum)
    ensures DecimalCells(x, fractNum, buffer) == DecimalCells(x, fractNum, ZeroBuffer)
  {
    var k := ShownPlaces(x, fractNum);
    ScaledDigits(x, fractNum);
    var fd := DigitsLsb(FracValue(x.frac, k));
    assert FractionBuffer(x, fractNum, buffer)[..k] == fd[..k] == FractionBuffer(x, fractNum, ZeroBuffer)[..k];
  }
}
