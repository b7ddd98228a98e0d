// The per-pixel comparison inside bmpgrep's innermost loop: an exact path
// when no tolerance is positive, and a per-channel tolerance path otherwise.

module Compare {
  import opened Raster

  /** The three per-channel tolerances given on the command line. */
  datatype Tolerance = Tolerance(r: int, g: int, b: int)

  function Abs(n: int): (r: int)
    ensures 0 <= r
    ensures r == n || r == -n
  {
    if n >= 0 then n else -n
  }

  /** The flag that selects the tolerance path: some tolerance is positive. */
  predicate HasTolerance(t: Tolerance)
  {
    t.r > 0 || t.g > 0 || t.b > 0
  }

  predicate NonNegative(t: Tolerance)
  {
    0 <= t.r && 0 <= t.g && 0 <= t.b
  }

  /** `t` is at most `u` on every channel. */
  predicate AtMost(t: Tolerance, u: Tolerance)
  {
    t.r <= u.r && t.g <= u.g && t.b <= u.b
  }

  predicate SameColour(big: Pixel, small: Pixel)
  {
    big.r == small.r && big.g == small.g && big.b == small.b
  }

  predicate WithinTolerance(big: Pixel, small: Pixel, t: Tolerance)
  {
    Abs(big.r - small.r) <= t.r && Abs(big.g - small.g) <= t.g && Abs(big.b - small.b) <= t.b
  }

  /** When a big-image pixel is accepted for a small-image pixel. */
  predicate PixelMatches(big: Pixel, small: Pixel, t: Tolerance)
  {
    if HasTolerance(t) then WithinTolerance(big, small, t) else SameColour(big, small)
  }

  /**
   * The comparison as the program performs it: channel by channel, red
   * first, stopping at the first channel that fails.
   */
  method ComparePixel(big: Pixel, small: Pixel, t: Tolerance, hasTolerance: bool)
    returns (allChannelsMatched: bool)
    requires hasTolerance == HasTolerance(t)
    ensures allChannelsMatched == PixelMatches(big, small, t)
  {
    allChannelsMatched := true;
    if !hasTolerance {
      if big.r != small.r {
        allChannelsMatched := false;
      } else if big.g != small.g {
        allChannelsMatched := false;
      } else if big.b != small.b {
        allChannelsMatched := false;
      }
    } else {
      if Abs(big.r - small.r) > t.r {
        allChannelsMatched := false;
      } else if Abs(big.g - small.g) > t.g {
        allChannelsMatched := false;
      } else if Abs(big.b - small.b) > t.b {
        allChannelsMatched := false;
      }
    }
  }

  /**
   * For tolerances that are not negative the exact path is the tolerance
   * path with all tolerances zero, so the acceptance test is always the
   * per-channel bound.
   */
  lemma ExactPathAgrees(big: Pixel, small: Pixel, t: Tolerance)
    requires NonNegative(t)
    ensures PixelMatches(big, small, t) <==> WithinTolerance(big, small, t)
    ensures !HasTolerance(t) ==> (PixelMatches(big, small, t) <==> SameColour(big, small))
  {
  }

  /** Raising tolerances never turns an accepted pixel into a rejected one. */
  lemma PixelMatchesMonotone(big: Pixel, small: Pixel, t: Tolerance, u: Tolerance)
    requires NonNegative(t) && AtMost(t, u)
    requires PixelMatches(big, small, t)
    ensures PixelMatches(big, small, u)
  {
  }

  /** A pixel is always accepted for itself. */
  lemma PixelMatchesItself(p: Pixel, t: Tolerance)
    requires NonNegative(t)
    ensures PixelMatches(p, p, t)
  {
  }
}
