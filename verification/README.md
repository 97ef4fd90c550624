# AMG8833 thermal camera sketch — integer pipeline model

The sketch runs on an M5Stack. Once per refresh it reads the 128 pixel
registers of an AMG8833 8x8 infrared sensor, decodes them into 64
temperatures, mirrors the grid for the screen, turns each temperature into
a 0..100 colour level, colours the cell with `heat`, and prints the
whole-degree reading over it.

This project models the integer part of that pipeline as pure Dafny
functions and proves its properties:

- `FrameDecoder` covers word assembly, the `int16_t` narrowing and the
  sign rule (`> 0x200`, offset `0xFFF`). The rule is kept exactly as
  written. Temperatures are integer quarter-degrees: `q` means `q / 4` degC.
  The model is exact because every value the sketch stores is a multiple
  of 0.25 small enough for a `float`.
- `GridLayout` covers the axis-mirroring index map of the drawing loop and
  its inverse.
- `Rescale` covers `(int)t`, Arduino's `constrain` and `map`, and the
  argument handed to `heat`.
- `Rgb565` covers the RGB565 packing that `heat` returns. It works on the
  three channel integers `(int)(c * 255)` in 0..255.
- `ThermalView` is one refresh as a list of 64 cells in drawing order.
- `CInt` and `Arduino` hold the C and Arduino semantics the sketch relies on:
  truncating division, `int16_t` narrowing, `constrain` and `map`. The last
  two are not in the repository. They are defined here after the Arduino
  reference: `map` computes `(x - a) * (d - c) / (b - a) + c` in `long`.

Two consequences of the code are worth stating:

- The word is stored in an `int16_t`, so a high byte of 0x80 or more gives
  a negative word. That word fails `> 0x200` and decodes as `w` quarters
  (`NegativeWordsPassThrough`).
- The level comes from whole degrees through integer `map`, so it is
  `floor(5 * d / 3)` for whole degrees `d` in 1..59 (`LevelFormula`).

## Model

| member | source | states |
|---|---|---|
| CInt.ToInt16 | src/main.cpp:114 | narrowing to `int16_t` gives the unique value in [-32768, 32767] congruent to the input modulo 2^16, and leaves values already in range unchanged |
| CInt.TruncDiv | src/main.cpp:130 | C integer division: the remainder is smaller than the divisor in magnitude and never has the opposite sign of the dividend; for non-negative operands it is floor division |
| Arduino.Constrain | src/main.cpp:130 | `constrain` on a well-formed range is the clamp min(max(amt, low), high), lies in [low, high], and leaves in-range values unchanged |
| Arduino.MapRange | src/main.cpp:130 | `map` sends the input range's ends to the output range's ends, and an input inside an increasing range to a value inside the output range |
| Arduino.MapStepBounds | src/main.cpp:130 | the truncated step `delta * rise / run` is 0 at delta 0, rise at delta run, and within [0, rise] in between |
| FrameDecoder.Word | src/main.cpp:114 | the word is hi*256+lo when hi < 0x80 and hi*256+lo-65536 otherwise; it is negative exactly when hi >= 0x80; it fits in 16 signed bits; and it determines both bytes again |
| FrameDecoder.DecodeWord | src/main.cpp:115-119 | a 12-bit word decodes into (0x200 - 0xFFF, 0x200] quarter-degrees; every word up to 0x200, negatives included, decodes to itself; no word decodes above its own value |
| FrameDecoder.DecodeFrame | src/main.cpp:113-120 | the frame has one reading per byte pair, in input order, and reading i is the decode of the word from bytes 2i (low) and 2i+1 (high) |
| FrameDecoder.DecodeBoundary | src/main.cpp:115-119 | 0x200 decodes to +512 quarters (128 degC); 0x201 takes the negative branch |
| FrameDecoder.DecodeZeroIff | src/main.cpp:115-119 | a word decodes to 0 degC if and only if it is 0 or 0xFFF |
| FrameDecoder.DecodeCollision | src/main.cpp:115-119 | two distinct words decode alike if and only if one is at or below 0x200, the other above it, and they are 0xFFF apart |
| FrameDecoder.DecodeMonotoneLow | src/main.cpp:115-119 | decoding is non-decreasing on words at or below 0x200 |
| FrameDecoder.DecodeMonotoneHigh | src/main.cpp:115-119 | decoding is strictly increasing on words above 0x200 |
| FrameDecoder.DecodeNegativeBand | src/main.cpp:115-119 | every word strictly between 0x200 and 0xFFF decodes to a negative temperature |
| FrameDecoder.DecodeVersusTwosComplement | src/main.cpp:112-119 | against the 12-bit two's complement reading of the pixel register: equal up to 0x200, one quarter-degree higher on words with bit 11 set, and negative instead of positive on 0x201..0x7FF |
| FrameDecoder.DecodeVersusSixteenBit | src/main.cpp:112-119 | against the 16-bit two's complement word the comment names: the decode keeps the `int16_t` word unchanged if and only if the word is at most 0x200 |
| FrameDecoder.NegativeWordsPassThrough | src/main.cpp:114-118 | a high byte of 0x80 or more gives a negative word that the else branch keeps as is |
| FrameDecoder.DecodeFrameLocal | src/main.cpp:113-114 | reading i is unaffected by any byte other than 2i and 2i+1 |
| FrameDecoder.DecodeZeroFrame | src/main.cpp:113-120 | a buffer of 128 zero bytes decodes to 64 readings of 0 |
| GridLayout.SourceIndex | src/main.cpp:129 | every grid cell reads an element index in [0, 64) |
| GridLayout.CellOf | src/main.cpp:129 | every element index in [0, 64) has a grid cell that reads it |
| GridLayout.RasterPosition | src/main.cpp:127-128 | the k-th cell drawn (y outer, x inner) is the valid cell with y*8 + x == k |
| GridLayout.Corners | src/main.cpp:129 | cell (0,0) reads element 63 and cell (7,7) reads element 0 |
| GridLayout.SourceIndexReversesRaster | src/main.cpp:127-129 | the k-th cell drawn reads element 63 - k: mirroring both axes reverses the frame |
| GridLayout.SourceIndexInjective | src/main.cpp:129 | distinct cells read distinct elements |
| GridLayout.SourceIndexSurjective | src/main.cpp:129 | every element in [0, 64) is read by some cell |
| GridLayout.CellOfSourceIndex | src/main.cpp:129 | the inverse map takes each cell's element back to that cell |
| Rescale.Degrees | src/main.cpp:130 | `(int)t` is t truncated toward zero: within one degree of t, on t's side of zero, never further from zero than t |
| Rescale.Level | src/main.cpp:130 | the level handed on to `heat` always lies in [0, 100] |
| Rescale.HeatArgument | src/main.cpp:130 | `heat` always receives a value in [0, 1]; it is 0 exactly at level 0 and 1 exactly at level 100 |
| Rescale.LevelFormula | src/main.cpp:130 | from 1 degC up to but excluding 60 degC the level is floor(whole degrees * 5 / 3) |
| Rescale.LevelZeroBelowOneDegree | src/main.cpp:130 | every temperature below 1 degC, including all negative ones, gets level 0 |
| Rescale.LevelFullFromSixty | src/main.cpp:130 | every temperature of 60 degC or more gets level 100 |
| Rescale.LevelMonotone | src/main.cpp:130 | a warmer reading never gets a lower level |
| Rescale.LevelExtremes | src/main.cpp:130 | level 0 holds exactly below 1 degC and level 100 exactly from 60 degC up |
| Rgb565.PackWord | src/main.cpp:41 | the packed `int` is below 65536; bits 11 up hold r>>3, bits 5..10 hold g>>2, bits 0..4 hold b>>3 |
| Rgb565.Pack | src/main.cpp:34-41 | the `uint16_t` return keeps the whole packed value: narrowing loses no bit |
| Rgb565.UnpackPack | src/main.cpp:41 | reading the fields of a packed colour gives back r>>3, g>>2 and b>>3 |
| Rgb565.PackUnpack | src/main.cpp:41 | every 16-bit colour is the packing of its own fields, so packing reaches every RGB565 value |
| Rgb565.FieldsDisjoint | src/main.cpp:41 | the red, green and blue fields are disjoint and cover 16 bits; each channel sets bits only in its own field, so the OR is a sum of the three parts |
| ThermalView.CellAt | src/main.cpp:129-135 | the cell drawn at a position keeps that position and has a level in [0, 100] |
| ThermalView.RenderPlan | src/main.cpp:127-137 | a refresh draws 64 cells in row-major order (y outer, x inner), each with a level in [0, 100] |
| ThermalView.RenderPlanReversesFrame | src/main.cpp:127-130 | cell k shows the level and the whole degrees of the element decoded from bytes 2(63-k) and 2(63-k)+1 |
| ThermalView.RenderPlanShowsEachElementOnce | src/main.cpp:127-129 | every element of the frame is drawn in exactly one cell |
| ThermalView.RenderPlanZeroFrame | src/main.cpp:113-130 | an all-zero buffer draws every cell at level 0 with 0 printed |

## Left out

- The sigmoid/tanh colour curves and the rescale `x * 2 - 1` inside `heat` (src/main.cpp:21-29, 35-40) are floating-point transcendental maths. `Rgb565.Pack` takes the three channel integers as inputs instead.
- Rescale.HeatArgument: the value is the exact real level / 100. The sketch computes it as a `double` and narrows it to `float`, which rounds values such as 0.01. That rounding is not modelled.
- Bus I/O (`write8`, the register writes in `setup`, `dataread`, src/main.cpp:48-100) goes through the Wire and M5Stack libraries, which are not part of this model.
- Short reads in `dataread` (src/main.cpp:97) would leave buffer entries uninitialised. The model requires exactly 128 bytes, each in 0..255.
- Drawing and timing (`fillScreen`, `fillRect`, `setCursor`, `setTextColor`, `printf`, the `WIDTH`/`HEIGHT` cell geometry, `delay(500)`; src/main.cpp:3-4, 122, 132-135, 140) have no logic to verify. `ThermalView.Cell` records what would be drawn: its position, its level and the number printed.
- Arduino.Constrain: says nothing about an empty range (low > high). The sketch only calls it with [0, 60].
- Arduino.MapRange: bounds the result only for increasing ranges. The sketch only calls it with [0, 60] to [0, 100]. Its `long` arithmetic cannot overflow on those inputs, so it is modelled with unbounded integers.
- The `int` shifts in the packing are modelled on 32-bit words. The `float`-to-`int` conversions that produce the channel integers are left out with the colour curves.
