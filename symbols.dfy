/** Symbol table, cell type and constants of the Geegrow 3641AS driver header. */
module Symbols {

  /** An unsigned 8-bit value (`uint8_t`). */
  type byte = x: int | 0 <= x < 256

  /** One decimal digit. */
  type Digit = x: int | 0 <= x < 10

  datatype Option<T> = None | Some(value: T)

  /** Default address of the display on the two-wire bus. */
  const DevI2cAddress: byte := 0x16

  /** Number of symbols the display can render. */
  const SymbolsNum: nat := 20

  /** The symbols, in the order of their ids. */
  datatype Symbol =
    | Digit0 | Digit1 | Digit2 | Digit3 | Digit4
    | Digit5 | Digit6 | Digit7 | Digit8 | Digit9
    | DigitMinus | DigitEmpty
    | LetterA | LetterC | LetterE | LetterF | LetterH | LetterL | LetterP | LetterU

  /** The id the display uses for a symbol: enumerators count up from 0. */
  function Id(s: Symbol): (r: byte)
    ensures r < SymbolsNum
  {
    match s
    case Digit0 => 0  case Digit1 => 1  case Digit2 => 2  case Digit3 => 3  case Digit4 => 4
    case Digit5 => 5  case Digit6 => 6  case Digit7 => 7  case Digit8 => 8  case Digit9 => 9
    case DigitMinus => 10  case DigitEmpty => 11
    case LetterA => 12  case LetterC => 13  case LetterE => 14  case LetterF => 15
    case LetterH => 16  case LetterL => 17  case LetterP => 18  case LetterU => 19
  }

  /** The symbol an id names, if any: exactly the ids below SymbolsNum name one. */
  function FromId(id: byte): (r: Option<Symbol>)
    ensures r.Some? <==> id < SymbolsNum
    ensures r.Some? ==> Id(r.value) == id
  {
    if id < SymbolsNum then
      Some([Digit0, Digit1, Digit2, Digit3, Digit4, Digit5, Digit6, Digit7, Digit8, Digit9,
            DigitMinus, DigitEmpty, LetterA, LetterC, LetterE, LetterF, LetterH, LetterL,
            LetterP, LetterU][id])
    else None
  }

  /** Every symbol is named by its own id, so the ids are distinct and cover [0, SymbolsNum). */
  lemma IdRoundTrip(s: Symbol)
    ensures FromId(Id(s)) == Some(s)
  {
    match s
    case Digit0 => case Digit1 => case Digit2 => case Digit3 => case Digit4 =>
    case Digit5 => case Digit6 => case Digit7 => case Digit8 => case Digit9 =>
    case DigitMinus => case DigitEmpty =>
    case LetterA => case LetterC => case LetterE => case LetterF =>
    case LetterH => case LetterL => case LetterP => case LetterU =>
  }

  const MinusId: byte := 10
  const EmptyId: byte := 11

  /** One display position: a symbol id and a dot flag, both stored as bytes. */
  datatype Cell = Cell(valueID: byte, dot: byte)

  const MinusCell := Cell(MinusId, 0)
  const BlankCell := Cell(EmptyId, 0)

  /** A fresh driver shows a minus, without dot, in all four positions. */
  const InitialCells: seq<Cell> := [MinusCell, MinusCell, MinusCell, MinusCell]

  /** The defensive clamp: an id that names no symbol is stored as MINUS. */
  function ClampSymbol(v: byte): (r: byte)
    ensures FromId(r).Some?
    ensures FromId(v).Some? ==> r == v
    ensures FromId(v).None? ==> FromId(r) == Some(DigitMinus)
  {
    if v >= SymbolsNum then MinusId else v
  }

  /** Every cell holds a symbol id and a dot flag of 0 or 1. */
  ghost predicate SymbolsValid(cs: seq<Cell>)
  {
    forall k :: 0 <= k < |cs| ==> cs[k].valueID < SymbolsNum && cs[k].dot <= 1
  }
}
