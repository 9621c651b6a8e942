/**
 * Shares and percentages, as the comparison and summary code computes them
 * with `/` on counts: `count / total * 100`.
 */
module Percentages {
  /** `count / total * 100` when there is a total, and 0 otherwise. */
  function Percent(count: nat, total: nat): real {
    if total > 0 then count as real / total as real * 100.0 else 0.0
  }

  /** A part of a whole is a share between 0 and 1. */
  lemma ShareAtMostOne(part: nat, whole: nat)
    requires 0 < whole && part <= whole
    ensures 0.0 <= part as real / whole as real <= 1.0
  {
    var x := part as real / whole as real;
    assert x * whole as real == part as real;
    assert (1.0 - x) * whole as real == (whole - part) as real;
  }

  /** The share is the whole exactly when the part is. */
  lemma ShareIsOneIff(part: nat, whole: nat)
    requires 0 < whole
    ensures part as real / whole as real == 1.0 <==> part == whole
  {
    var x := part as real / whole as real;
    assert x * whole as real == part as real;
  }

  /** Four parts that make up a non-empty whole have percentages adding up to 100. */
  lemma FourPercentsAddUp(a: nat, b: nat, c: nat, d: nat, total: nat)
    requires total > 0 && a + b + c + d == total
    ensures Percent(a, total) + Percent(b, total) + Percent(c, total) + Percent(d, total) == 100.0
  {
    var t := total as real;
    var x, y, z, w := a as real / t, b as real / t, c as real / t, d as real / t;
    SharesAddUp(a as real, b as real, c as real, d as real, t);
    assert Percent(a, total) + Percent(b, total) + Percent(c, total) + Percent(d, total) == (x + y + z + w) * 100.0;
  }

  lemma SharesAddUp(a: real, b: real, c: real, d: real, t: real)
    requires t > 0.0 && a + b + c + d == t
    ensures a / t + b / t + c / t + d / t == 1.0
  {
    var x, y, z, w := a / t, b / t, c / t, d / t;
    assert x * t == a && y * t == b && z * t == c && w * t == d;
    assert (x + y + z + w - 1.0) * t == x * t + y * t + z * t + w * t - t;
  }
}
