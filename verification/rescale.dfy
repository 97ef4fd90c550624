/** The per-cell step of the drawing loop: a temperature `t` (held as
    quarter-degrees `q`, `t == q / 4`) is truncated to whole degrees with
    `(int)t`, clamped to [0, 60] degC with `constrain`, rescaled to a 0..100
    level with `map`, and divided by 100.0 to give `heat` its argument. The
    truncated degrees are also the number printed in the cell. */
module Rescale {
  import opened CInt
  import opened Arduino

  /** Temperatures at or above this many degrees get the hottest colour. */
  const MaxCelsius: int := 60
  /** The level that `map` assigns to `MaxCelsius`. */
  const FullScale: int := 100

  /** `(int)t`: whole degrees, truncated toward zero. */
  function Degrees(q: int): (d: int)
    ensures q >= 0 ==> 0 <= 4 * d <= q < 4 * d + 4
    ensures q < 0 ==> 4 * d - 4 < q <= 4 * d <= 0
  {
    TruncDiv(q, 4)
  }

  /** `map(constrain((int)t, 0, 60), 0, 60, 0, 100)`. */
  function Level(q: int): (l: int)
    ensures 0 <= l <= FullScale
  {
    MapRange(Constrain(Degrees(q), 0, MaxCelsius), 0, MaxCelsius, 0, FullScale)
  }

  /** What the sketch passes to `heat`: the level divided by 100. */
  function HeatArgument(q: int): (x: real)
    ensures 0.0 <= x <= 1.0
    ensures x == 0.0 <==> Level(q) == 0
    ensures x == 1.0 <==> Level(q) == FullScale
  {
    Level(q) as real / FullScale as real
  }

  /** Between 1 and 60 degC the level is the whole degrees times 5/3,
      rounded down: a closed form independent of `constrain` and `map`. */
  lemma LevelFormula(q: int)
    requires 4 <= q < 4 * MaxCelsius
    ensures Level(q) == (q / 4) * 5 / 3
  {
  }

  /** Every temperature below 1 degC, negatives included, gets level 0. */
  lemma LevelZeroBelowOneDegree(q: int)
    requires q < 4
    ensures Level(q) == 0
  {
  }

  /** Every temperature of 60 degC or more gets level 100. */
  lemma LevelFullFromSixty(q: int)
    requires q >= 4 * MaxCelsius
    ensures Level(q) == FullScale
  {
  }

  /** A warmer reading never gets a lower level. */
  lemma LevelMonotone(q1: int, q2: int)
    requires q1 <= q2
    ensures Level(q1) <= Level(q2)
  {
  }

  /** Level 0 is reached exactly below 1 degC and level 100 exactly from
      60 degC on. */
  lemma LevelExtremes(q: int)
    ensures Level(q) == 0 <==> q < 4
    ensures Level(q) == FullScale <==> q >= 4 * MaxCelsius
  {
  }
}
