/** The compression ratio shown to the user: the percentage reduction from the original size to
    the compressed size, rounded to two decimals (`toFixed(2)`, then `parseFloat`). Values are
    kept exactly, as integers counting hundredths of a percent, so 41.18 % is 4118. */
module Ratio {

  function Abs(x: int): nat {
    if x < 0 then -x else x
  }

  /** `n / d` rounded to the nearest integer, halves away from zero: `toFixed` chooses the larger
      of two equally near candidates for the magnitude and then restores the sign. */
  function RoundHalfAway(n: int, d: int): (r: int)
    requires d > 0
    ensures 2 * Abs(r * d - n) <= d
    ensures 2 * Abs(r * d - n) == d ==> Abs(r * d) > Abs(n)
    ensures n >= 0 ==> r >= 0
    ensures n <= 0 ==> r <= 0
  {
    if n >= 0 then RoundUpHalf(n, d) else -(RoundUpHalf(-n, d) as int)
  }

  /** Nearest integer to `n / d` for `n >= 0`, halves rounding up. */
  function RoundUpHalf(n: nat, d: int): (r: nat)
    requires d > 0
    ensures -d < 2 * (r * d - n) <= d
    ensures 2 * (r * d - n) == d ==> r * d > n
  {
    var q := (2 * n + d) / (2 * d);
    var m := (2 * n + d) % (2 * d);
    assert 2 * n + d == 2 * d * q + m;
    assert 2 * (q * d - n) == d - m;
    q
  }

  /** The ratio computed by the compress handler, in hundredths of a percent: zero when the
      original size is zero, otherwise `(1 - compressed / original) * 100` to two decimals. */
  function RatioHundredths(original: nat, compressed: nat): (r: int)
    ensures original == 0 ==> r == 0
    ensures original > 0 ==> 2 * Abs(r * original - 10000 * (original - compressed)) <= original
    ensures r <= 10000
    ensures compressed <= original ==> r >= 0
    ensures compressed >= original ==> r <= 0
    ensures original > 0 && 20000 * (compressed - original) >= original ==> r < 0
  {
    if original > 0 then
      var n := 10000 * (original - compressed);
      var r := RoundHalfAway(n, original);
      BelowOneHundredPercent(r, original, n);
      NegativeWhenGrown(r, original, n);
      r
    else 0
  }

  /** A reduction can never pass 100 %: the exact value is at most 10000 hundredths and rounding
      moves it by at most half a hundredth. */
  lemma BelowOneHundredPercent(r: int, d: int, n: int)
    requires d > 0 && n <= 10000 * d
    requires 2 * Abs(r * d - n) <= d
    ensures r <= 10000
  {
  }

  /** Growth by at least half a hundredth of a percent rounds to a strictly negative ratio. */
  lemma NegativeWhenGrown(r: int, d: int, n: int)
    requires d > 0
    requires 2 * Abs(r * d - n) <= d
    requires 2 * Abs(r * d - n) == d ==> Abs(r * d) > Abs(n)
    ensures -2 * n >= d ==> r < 0
  {
  }

  /** Two whole numbers both within half of `d` of `n` on the scale `d` coincide, unless both
      sit exactly on the boundary. */
  lemma NearestIsUnique(h: int, r: int, d: int, n: int)
    requires d > 0
    requires 2 * Abs(h * d - n) < d
    requires 2 * Abs(r * d - n) <= d
    ensures h == r
  {
    var a := h * d - n;
    var b := r * d - n;
    assert -d < a - b < d;
    if h != r {
      AtLeastOneStep(h - r, d);
    }
  }

  /** A non-zero multiple of `d` is at least `d` away from zero. */
  lemma AtLeastOneStep(k: int, d: int)
    requires d > 0 && k != 0
    ensures Abs(k * d) >= d
  {
  }

  /** The ratio is the only whole number of hundredths strictly within half a hundredth of the
      exact reduction `(1 - compressed / original) * 100`. */
  lemma RatioIsNearest(original: nat, compressed: nat, h: int)
    requires original > 0
    requires 2 * Abs(h * original - 10000 * (original - compressed)) < original
    ensures h == RatioHundredths(original, compressed)
  {
    NearestIsUnique(h, RatioHundredths(original, compressed), original, 10000 * (original - compressed));
  }

  /** The worked example: 17 bytes compressed to 10 give a 41.18 % reduction. */
  lemma SeventeenToTen()
    ensures RatioHundredths(17, 10) == 4118
  {
  }
}
