# Geegrow 3641AS four-digit display driver, modelled in Dafny

The Geegrow 3641AS is a four-digit seven-segment display module. Its driver
(`Geegrow_3641AS`) keeps four cells, each holding a symbol id and a dot flag. Each
public operation rewrites the cells and then flushes them to the module. A flush
goes either over the two-wire bus as one addressed write of four bytes, or over a
single-wire line. On the single wire the driver sends the address and the four
bytes, each as a start pulse, eight data bits with the most significant first,
and a stop pulse.

The model has four modules:

- `Symbols` holds the header's constants: the 20 symbol ids, the default bus
  address 0x16, the cell record and the defensive clamp.
- `Transmission` covers frame packing (the symbol id, with bit 7 set when the dot
  is on) and the single-wire waveform. A decoder for the waveform and an unpacker
  for frame bytes serve as the partners in round-trip lemmas.
- `Formatting` specifies the cells that `setInt` and `setFloat` leave behind, as
  functions of the input. `ReadCells` reads the display back into a number, and
  the round-trip lemmas state that the number shown is the number written. The
  integer is written exactly; the decimal is truncated at the digits that fit.
- `Driver` holds the class `Display`. It has the four cells as an array, the
  address, the transport mode and the hardware log `trace`, with the source's
  methods as imperative methods. Every method's postcondition gives the whole new
  state: the new cells, either as a function from `Formatting` (`setInt`,
  `setFloat`, `clear`, both `setAllDigits`, `setDevAddr`) or as a one-cell update
  of the old cells (`setDigit`, `setDot`, `resetDot`), and the new trace as the
  old one plus `Flush(cells, address, mode)`.

Hardware effects become events appended to `trace`:

- `BusWrite(addr, payload)` is one begin, write and end transaction on the bus.
- `ConfigureOutput(pin, level)` is the single-wire constructor's pin setup.
- `Pulse(level, units)` is a `digitalWrite` followed by `delay(units)`.

`setFloat` receives a `Decimal`: whether the value is below zero, the integral
part of its magnitude, and its digits after the point. A value of zero magnitude
is never marked negative (`WellSigned`), as `value < 0` is false for minus zero. `(int)value` is its
integral part. "Remove the integral part, multiply by 10^k and truncate" is the
first k digits after the point (`FracValue`).

Code and design description differ in two places. In both, the model follows the
code:

- The code's `setInt` and `setFloat` have no `return` on their success paths
  (undefined in C++). The model returns 0 there. It keeps the explicit `return 1`
  of `setFloat` when the integral part fills the display.
- The design describes `setDevAddr` as showing an "ADR" letter pattern. The code
  stores the raw character codes 65, 68 and 82, then the address, as symbol ids.
  None of the three character codes names a symbol
  (`Formatting.AddressIdsNotSymbols`); the address does only when it is below 20.
  With `setFloat` (see Findings), it is one of the operations after which the
  cells need not hold symbol ids.

## Model

| member | source | states |
|---|---|---|
| Symbols.Id | src/Geegrow_3641AS.h:35-56 | every symbol's id is below SYMBOLS_NUM (20) |
| Symbols.FromId | src/Geegrow_3641AS.h:35-62 | an id names a symbol exactly when it is below 20, and that symbol's id is the id |
| Symbols.IdRoundTrip | src/Geegrow_3641AS.h:35-56 | the enumerators are numbered 0..19 in order: each symbol is recovered from its id, so ids are distinct |
| Symbols.ClampSymbol | src/Geegrow_3641AS.cpp:57-58 | the stored id always names a symbol; a valid id is kept; an invalid one becomes MINUS |
| Transmission.WithDot | src/Geegrow_3641AS.cpp:294-296 | `b \| 0x80` has bit 7 set and the same low seven bits |
| Transmission.Frame | src/Geegrow_3641AS.cpp:291-297 | four bytes; each keeps its cell's id in the low seven bits; the top bit is on exactly when the dot is on (or the id already had it) |
| Transmission.TopBit | src/Geegrow_3641AS.cpp:325 | the bit test `b & (1 << 7)` holds exactly when b >= 128 |
| Transmission.FrameRoundTrip | src/Geegrow_3641AS.cpp:291-297 | for cells whose ids leave bit 7 free (symbols, and the acknowledgement codes 65, 68, 82) and whose dots are 0/1, unpacking each frame byte gives back the cell |
| Transmission.ByteWaveformShape | src/Geegrow_3641AS.cpp:318-336 | one byte is 10 pulses: Low 3, then bits 7..0 as High/Low 2 each, then High 2; 21 time units in all |
| Transmission.ByteWaveformDecodes | src/Geegrow_3641AS.cpp:318-336 | decoding a byte's waveform gives the byte back |
| Transmission.WaveformDecodes | src/Geegrow_3641AS.cpp:304-308 | n bytes on the wire are 10n pulses and 21n units, and decode back to the same n bytes in order |
| Transmission.WaveformSnoc | src/Geegrow_3641AS.cpp:305-308 | sending one more byte appends exactly that byte's waveform |
| Transmission.FlushContents | src/Geegrow_3641AS.cpp:299-309 | two-wire: one write of the 4 frame bytes to the address; single wire: 50 pulses, 105 units, decoding to the address followed by the 4 frame bytes |
| Transmission.DefaultAddressWaveform | src/Geegrow_3641AS.h:27 | the default address 0x16 goes out as start, bits 0,0,0,1,0,1,1,0, stop |
| Formatting.DigitsRoundTrip | src/Geegrow_3641AS.cpp:92-96 | the do-while digit split, read back least significant first, is the number |
| Formatting.DigitsCount | src/Geegrow_3641AS.cpp:75-77 | a number has at most k digits exactly when it is below 10^k |
| Formatting.IntFits | src/Geegrow_3641AS.cpp:75-77 | every accepted integer, with its sign, fits in four cells |
| Formatting.RenderAt | src/Geegrow_3641AS.cpp:98-104 | cell by cell: fraction digits at the right, integral digits left of them (the last one carrying the point), the minus just left of those, blanks elsewhere |
| Formatting.ReadRender | src/Geegrow_3641AS.cpp:79-104 | reading the laid-out cells back gives the sign, integral value, fraction value, number of places and point |
| Formatting.IntReadsBack | src/Geegrow_3641AS.cpp:73-107 | after an accepted integer the display reads back as that integer, with no point |
| Formatting.IntCellsValid | src/Geegrow_3641AS.cpp:79-104 | an integer leaves only symbol ids and no dots |
| Formatting.ZeroCells | src/Geegrow_3641AS.cpp:92-99 | zero shows three blanks and a single 0 |
| Formatting.IntCellsInjective | src/Geegrow_3641AS.cpp:73-107 | different accepted integers leave different cells |
| Formatting.FreePositions | src/Geegrow_3641AS.cpp:129-152 | the positions left are 4, less one for a minus, less the integral digit count; never more than 3 |
| Formatting.ShownPlaces | src/Geegrow_3641AS.cpp:172-180 | fraction digits shown = fractNum when it fits, else the free positions |
| Formatting.ScaledDigits | src/Geegrow_3641AS.cpp:183-191 | the scaled fraction has no more digits than places shown, so the digit buffer never overflows |
| Formatting.DecimalReadsBack | src/Geegrow_3641AS.cpp:117-210 | with a zeroed digit buffer, an accepted decimal reads back as its sign, integral part, first ShownPlaces fraction digits and a point |
| Formatting.DecimalCellsValid | src/Geegrow_3641AS.cpp:185-207 | with a zeroed digit buffer, a decimal leaves only symbol ids and exactly one dot, right after the integral digits |
| Formatting.FullIntegralPart | src/Geegrow_3641AS.cpp:156-167 | 1234.5 fills the display: 1,2,3,4 with the point on the last cell |
| Formatting.StaleFractionDigit | src/Geegrow_3641AS.cpp:185-198 | as written, 0.05 at two places (scaled fraction 5) reads back as 0.75 when the digit buffer held a 7 |
| Formatting.DecimalCellsDots | src/Geegrow_3641AS.cpp:199-200 | whatever the digit buffer held, the only dot is the point, right after the integral digits |
| Formatting.FilledIgnoresBuffer | src/Geegrow_3641AS.cpp:187-198 | when the scaled fraction has a digit for every place shown, the cells are those of the zeroed buffer: the stale contents make no difference |
| Formatting.ClampAllValid | src/Geegrow_3641AS.cpp:248-260 | the four ids are clamped one by one; afterwards every cell holds a symbol and keeps its dot |
| Formatting.AddressIdsNotSymbols | src/Geegrow_3641AS.cpp:360-363 | the address acknowledgement stores ids (65, 68, 82) that name no symbol |
| Driver.SplitDigits | src/Geegrow_3641AS.cpp:90-96 | the do-while loop leaves the decimal digits, least significant first, at the front of the buffer and the rest untouched |
| Driver.Display.I2C | src/Geegrow_3641AS.cpp:23-27 | two-wire mode at the given address, pin 0, all cells MINUS without dots, nothing sent |
| Driver.Display.SingleWire | src/Geegrow_3641AS.cpp:36-43 | single-wire mode; the pin is configured as an output at High; all cells MINUS without dots |
| Driver.Display.PackFrame | src/Geegrow_3641AS.cpp:291-297 | the loop builds exactly Frame(cells) |
| Driver.Display.WriteSdpByte | src/Geegrow_3641AS.cpp:318-336 | appends exactly ByteWaveform(b): start, the eight bits, stop |
| Driver.Display.WriteBits | src/Geegrow_3641AS.cpp:324-332 | the loop from bit 7 down to bit 0 appends exactly BitPulses(b, 8), one two-unit pulse per bit at that bit's level |
| Driver.Display.SendAll | src/Geegrow_3641AS.cpp:304-308 | the single-wire flush appends the waveform of the address followed by the four data bytes |
| Driver.Display.Update | src/Geegrow_3641AS.cpp:289-310 | appends Flush(cells, address, mode): one bus write, or address and four bytes on the wire |
| Driver.Display.Blank | src/Geegrow_3641AS.cpp:79-82 | every cell becomes EMPTY with dot 0 |
| Driver.Display.PlaceDigits | src/Geegrow_3641AS.cpp:98-100 | digit i goes to position top - i; dots and other positions are unchanged |
| Driver.Display.SetDigit | src/Geegrow_3641AS.cpp:53-65 | pos > 3 changes nothing and sends nothing; otherwise only that cell changes (clamped id; dot set when asked for, otherwise kept), then a flush |
| Driver.Display.SetInt | src/Geegrow_3641AS.cpp:73-107 | outside [-999, 9999]: -1, nothing changed, nothing sent; otherwise 0, cells = IntCells(value), symbols only, one flush |
| Driver.Display.SetFloat | src/Geegrow_3641AS.cpp:117-210 | outside (-1000, 10000): -1, nothing changed, nothing sent; otherwise 1 when the integral part fills the display, else 0; cells = DecimalCells for whatever the uninitialised digit buffer held; when the fraction's digits fill the places shown, exactly the zero-buffer layout, symbols only; one flush |
| Driver.Display.ShowInt | src/Geegrow_3641AS.cpp:84-104 | from blank cells, the sign handling, digit split and placement leave exactly IntCells(value) |
| Driver.Display.ShowDecimal | src/Geegrow_3641AS.cpp:128-207 | from blank cells, leaves DecimalCells for the digit buffer's prior contents and reports whether the integral part filled the display |
| Driver.Display.FractionDigits | src/Geegrow_3641AS.cpp:183-191 | an uninitialised buffer holding the digits of the scaled fraction, least significant first, then whatever it held before |
| Driver.Display.PlaceWhole | src/Geegrow_3641AS.cpp:156-167 | the no-room branch leaves DecimalCells: digits, minus, point on position 3 |
| Driver.Display.PlaceFraction | src/Geegrow_3641AS.cpp:193-207 | whatever the digit buffer holds, its first ShownPlaces entries, the point, the integral digits and the minus placed from the right leave DecimalCells for that buffer |
| Driver.Display.SetDot | src/Geegrow_3641AS.cpp:218-222 | only that cell's dot becomes 1, then a flush |
| Driver.Display.ResetDot | src/Geegrow_3641AS.cpp:230-234 | only that cell's dot becomes 0, then a flush |
| Driver.Display.SetAllDigits | src/Geegrow_3641AS.cpp:246-262 | the four ids, each clamped, replace the old ones; dots are kept; one flush |
| Driver.Display.SetAllDigitsFrom | src/Geegrow_3641AS.cpp:272-282 | the caller's first four entries are clamped in place and copied into the cells; later entries are untouched; dots are kept; one flush |
| Driver.Display.Clear | src/Geegrow_3641AS.cpp:343-350 | every cell EMPTY with dot 0, then a flush |
| Driver.Display.SetDevAddr | src/Geegrow_3641AS.cpp:358-367 | ids 65, 68, 82 and the new address with dots kept, flushed to the OLD address; the address changes afterwards |

## Left out

- Hardware I/O (`Wire`, `pinMode`, `digitalWrite`, `delay`) is an event log. Bus errors, timing jitter and the receiving module are not modelled.
- `Pulse` events carry no pin: the pin is fixed per driver (`sdpPin`).
- Floating point is not modelled. `Driver.Display.SetFloat` receives an exact decimal, so binary rounding of the input, of `value -= (int)value` and of `value *= pow(10, k)` is outside the model (e.g. in single precision 1.3 at two places gives a scaled fraction of 29, not 30).
- The `int` parameter of `setInt` is unbounded in the model. Every value outside [-999, 9999] is rejected, so the platform's `int` width does not change the result.
- Driver.Display.SetDot: requires `pos < 4`. The source does no check, and other positions write outside the array (undefined behaviour).
- Driver.Display.ResetDot: requires `pos < 4`, for the same reason as SetDot.
- Driver.Display.SetAllDigitsFrom: requires a buffer of at least four entries. The source reads and writes four entries unchecked.
- Driver.Display.SetFloat: requires `WellSigned(x)`, because minus zero is not below zero and the source treats it as zero. The uninitialised digit buffer is modelled as is: what it held is an unconstrained ghost result.
- `pos` in `setFloat` is a `uint8_t` that can wrap to 255 after the last digit. The wrapped value is never used to index, so the model uses an unbounded counter.
- The destructor does nothing and is not modelled.

## Findings

| source | as written | input that shows it | evidently intended | confidence | as-written member | corrected member |
|---|---|---|---|---|---|---|
| src/Geegrow_3641AS.cpp:185-198 | `frac_digits[4]` is not initialised. The do-while fills only as many entries as the scaled fraction has digits, yet `fract_final` entries are shown, so a leading zero after the point shows whatever the stack held. | `setFloat(0.05, 2)`: the scaled fraction is 5, one digit, so `frac_digits[1]` is stale. With a 7 there, the display reads 0.75. | Shown fraction digits are the digits of the value, leading zeros included (0.05), i.e. the buffer starts zeroed. | high; not executed | Formatting.StaleFractionDigit | Formatting.DecimalReadsBack |
