/** The colour palette and the colour choices derived from it. */
module Colors {
  import Arith

  /** An RGB triple. */
  datatype Color = Color(r: int, g: int, b: int)

  const Black := Color(0, 0, 0)
  const White := Color(255, 255, 255)

  /** The brick palette, one entry per column, cycling after ten columns. */
  const BrickColors: seq<Color> := [
    Color(255, 99, 71),
    Color(255, 165, 0),
    Color(255, 215, 0),
    Color(144, 238, 144),
    Color(135, 206, 250),
    Color(216, 191, 216),
    Color(173, 216, 230),
    Color(240, 128, 128),
    Color(255, 182, 193),
    Color(152, 251, 152)
  ]

  /** The two outline colours a special brick alternates between. */
  const SpecialBrickFlashColors: seq<Color> := [Color(255, 69, 0), Color(255, 215, 0)]

  /** Sum of the three channels. */
  function ChannelSum(c: Color): int { c.r + c.g + c.b }

  /**
    Text colour readable on `bg`: white on dark backgrounds (mean channel below 140),
    black otherwise. The mean is a true (fractional) division.
  */
  function TextColorForBackground(bg: Color): (c: Color)
    ensures c == White || c == Black
    ensures c == White <==> ChannelSum(bg) < 420
  {
    if (ChannelSum(bg) as real) / 3.0 < 140.0 then White else Black
  }

  /** A darker background never gets black text when a lighter one gets white. */
  lemma TextColorMonotone(dark: Color, light: Color)
    requires ChannelSum(dark) <= ChannelSum(light)
    requires TextColorForBackground(light) == White
    ensures TextColorForBackground(dark) == White
  {
  }

  /** Black gets white text, white gets black text, and mean 140 is already "light". */
  lemma TextColorExamples()
    ensures TextColorForBackground(Black) == White
    ensures TextColorForBackground(White) == Black
    ensures TextColorForBackground(Color(140, 140, 140)) == Black
    ensures TextColorForBackground(Color(139, 140, 140)) == White
  {
  }

  /** Colour of every brick in column `col`: the palette entry `col mod 10`. */
  function BrickColorForColumn(col: int): (c: Color)
    ensures c in BrickColors
  {
    BrickColors[col % |BrickColors|]
  }

  /** The column colour repeats with the palette's period of ten. */
  lemma {:induction false} BrickColorPeriodic(col: int, k: nat)
    ensures BrickColorForColumn(col + 10 * k) == BrickColorForColumn(col)
  {
    if k > 0 {
      BrickColorPeriodic(col, k - 1);
      var prev := col + 10 * (k - 1);
      assert col + 10 * k == prev + 10;
      Arith.DivModUnique(prev + 10, 10, prev / 10 + 1, prev % 10);
    }
  }

  /** The ten first columns all get different colours. */
  lemma BrickColorsDistinct(i: int, j: int)
    requires 0 <= i < j < 10
    ensures BrickColorForColumn(i) != BrickColorForColumn(j)
  {
  }

  /** Outline phase at `ticks` milliseconds: flips every 300 ms, always a palette index. */
  function FlashPhase(ticks: int): (p: int)
    ensures 0 <= p < |SpecialBrickFlashColors|
  {
    (ticks / 300) % 2
  }

  /** Advancing the clock by one period switches to the other outline colour. */
  lemma FlashPhaseAlternates(ticks: int)
    ensures FlashPhase(ticks + 300) == 1 - FlashPhase(ticks)
  {
    assert (ticks + 300) / 300 == ticks / 300 + 1;
  }

  /** The outline colour of a special brick at `ticks` milliseconds. */
  function FlashColor(ticks: int): (c: Color)
    ensures c in SpecialBrickFlashColors
  {
    SpecialBrickFlashColors[FlashPhase(ticks)]
  }
}
