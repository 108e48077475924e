/** Tile colours (`colourID`). The numeric values order the colours
    grey < yellow < green, so a colour can only be raised by taking the
    larger of two values. */
module Colours {

  /** `colourID` is an int; only the three named values are ever used. */
  newtype ColourId = c: int | 0 <= c <= 2

  const Grey: ColourId := 0
  const Yellow: ColourId := 1
  const Green: ColourId := 2

  /** The larger of two colours: what a recorded colour becomes when it may
      only move towards green. */
  function Max(a: ColourId, b: ColourId): (m: ColourId)
    ensures a <= m && b <= m
    ensures m == a || m == b
  {
    if a < b then b else a
  }
}
