/** Quantisation of a clamped brightness into a glyph of the shade ramp and a 256-colour gray code. */
module Shading {
  import opened Numeric

  /** `SHADES`: from sparsest (space) to densest (`@`). */
  const SHADES: string := " .:-=+*#%@"

  /** `NSHADES = strlen(SHADES)`. */
  const NSHADES: int := |SHADES|

  /**
   * `int((1 - L) * (NSHADES - 1))`: the shade index of a clamped brightness. It is truncated, not
   * rounded, so each index but the last covers a ninth of the brightness range. Brighter means sparser.
   */
  function ShadeIndex(L: Unit): (k: int)
    ensures 0 <= k < NSHADES
    ensures L == 0.0 ==> k == NSHADES - 1
    ensures L == 1.0 ==> k == 0
    ensures k as real <= (1.0 - L) * (NSHADES - 1) as real < k as real + 1.0
  {
    Trunc((1.0 - L) * (NSHADES - 1) as real)
  }

  /** The shade index never increases as the brightness grows. */
  lemma ShadeIndexMonotone(L1: Unit, L2: Unit)
    requires L1 <= L2
    ensures ShadeIndex(L2) <= ShadeIndex(L1)
  {
    TruncMonotone((1.0 - L2) * (NSHADES - 1) as real, (1.0 - L1) * (NSHADES - 1) as real);
  }

  /** `SHADES[shadeIdx]`: the glyph drawn for a clamped brightness. */
  function Glyph(L: Unit): (g: char)
    ensures g in SHADES
    ensures L == 0.0 ==> g == '@'
    ensures L == 1.0 ==> g == ' '
  {
    SHADES[ShadeIndex(L)]
  }

  /**
   * `int(bclamped * 23 + 0.5)` with `bclamped` the brightness clamped to [0,1]: the nearest of the 24
   * gray levels, halves rounding up.
   */
  function GrayLevel(b: real): (g: int)
    ensures 0 <= g <= 23
    ensures Clamp01(b) == 0.0 ==> g == 0
    ensures Clamp01(b) == 1.0 ==> g == 23
    ensures g as real - 0.5 <= Clamp01(b) * 23.0 < g as real + 0.5
  {
    Trunc(Clamp01(b) * 23.0 + 0.5)
  }

  lemma GrayLevelMonotone(b1: real, b2: real)
    requires b1 <= b2
    ensures GrayLevel(b1) <= GrayLevel(b2)
  {
    Clamp01Monotone(b1, b2);
    TruncMonotone(Clamp01(b1) * 23.0 + 0.5, Clamp01(b2) * 23.0 + 0.5);
  }

  /** `ansiCode = 232 + grayLevel`: one of the 24 grays at the top of the 256-colour palette. */
  function AnsiCode(b: real): (code: int)
    ensures 232 <= code <= 255
    ensures Clamp01(b) == 0.0 ==> code == 232
    ensures Clamp01(b) == 1.0 ==> code == 255
  {
    232 + GrayLevel(b)
  }
}
