/** `Docx::twipToPt`: twips (1/20 of a point) to whole points. */
module Units {

  /** PHP's `round` on a real number: to the nearest integer, halves away
      from zero. */
  function Round(x: real): int {
    if x >= 0.0 then (x + 0.5).Floor else -((-x + 0.5).Floor)
  }

  /** `twipToPt`: `round($twip / 20)`, with the division exact. The result is
      the nearest whole point; a tie (a twip count ending in 10 modulo 20)
      goes away from zero. */
  function TwipToPt(twip: int): (pt: int)
    ensures twip >= 0 ==> -10 < 20 * pt - twip <= 10
    ensures twip < 0 ==> -10 <= 20 * pt - twip < 10
  {
    Round(twip as real / 20.0)
  }

  /** The bounds above pin the result down: no other whole number of points
      satisfies them. */
  lemma TwipToPtUnique(twip: int, k: int)
    requires twip >= 0 ==> -10 < 20 * k - twip <= 10
    requires twip < 0 ==> -10 <= 20 * k - twip < 10
    ensures k == TwipToPt(twip)
  {
  }

  /** Whole points convert exactly. */
  lemma TwipToPtExact(k: int)
    ensures TwipToPt(20 * k) == k
  {
    TwipToPtUnique(20 * k, k);
  }

  /** Rounding is symmetric about zero. */
  lemma TwipToPtNegate(twip: int)
    ensures TwipToPt(-twip) == -TwipToPt(twip)
  {
    TwipToPtUnique(-twip, -TwipToPt(twip));
  }

  lemma TwipToPtExamples()
    ensures TwipToPt(240) == 12 && TwipToPt(0) == 0
    ensures TwipToPt(10) == 1 && TwipToPt(9) == 0 && TwipToPt(-10) == -1
  {
    TwipToPtExact(12);
    TwipToPtExact(0);
    TwipToPtUnique(10, 1);
    TwipToPtUnique(9, 0);
    TwipToPtUnique(-10, -1);
  }
}
