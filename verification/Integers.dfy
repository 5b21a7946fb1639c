/**
 The 32-bit `int` of the source. C leaves a signed overflow undefined; this model takes the
 two's-complement wrap-around that machines compute.
 */
module Integers {
  const INT_MAX := 0x7FFF_FFFF
  const INT_MIN := -0x8000_0000

  predicate FitsInt(x: int) {
    INT_MIN <= x <= INT_MAX
  }

  type int32 = x: int | FitsInt(x)

  /** The `int` that `x` becomes. */
  function Wrap(x: int): (w: int32)
    ensures w == x <==> FitsInt(x)
    ensures x > INT_MAX ==> w <= x - 0x1_0000_0000
  {
    (x + 0x8000_0000) % 0x1_0000_0000 - 0x8000_0000
  }

  lemma WrapPeriodic(x: int, k: int)
    ensures Wrap(x + k * 0x1_0000_0000) == Wrap(x)
  {
  }

  /** Wrapping early makes no difference to a later multiplication and addition. */
  lemma WrapStep(a: int, factor: int, c: int)
    ensures Wrap(Wrap(a) * factor + c) == Wrap(a * factor + c)
  {
    var k := (a + 0x8000_0000) / 0x1_0000_0000;
    assert a == Wrap(a) + k * 0x1_0000_0000;
    assert a * factor + c == Wrap(a) * factor + c + (k * factor) * 0x1_0000_0000;
    WrapPeriodic(Wrap(a) * factor + c, k * factor);
  }
}
