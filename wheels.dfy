/** The shift that the three wheels together apply to one symbol. */
module Wheels {
  import opened Alphabet

  /** (wheel1 - 2 wheel2 + 2 wheel3) mod 69, the remainder taken Euclidean so it is never
      negative. */
  function WheelOffset(wheel1: int, wheel2: int, wheel3: int): (r: int)
    ensures 0 <= r < WHEEL_SIZE
  {
    (wheel1 - 2 * wheel2 + 2 * wheel3) % WHEEL_SIZE
  }

  /** Turning any wheel by whole revolutions changes nothing. */
  lemma WheelOffsetPeriodic(wheel1: int, wheel2: int, wheel3: int, k1: int, k2: int, k3: int)
    ensures WheelOffset(wheel1 + k1 * WHEEL_SIZE, wheel2 + k2 * WHEEL_SIZE, wheel3 + k3 * WHEEL_SIZE)
         == WheelOffset(wheel1, wheel2, wheel3)
  {
    var d := wheel1 - 2 * wheel2 + 2 * wheel3;
    assert wheel1 + k1 * WHEEL_SIZE - 2 * (wheel2 + k2 * WHEEL_SIZE) + 2 * (wheel3 + k3 * WHEEL_SIZE)
        == d + (k1 - 2 * k2 + 2 * k3) * WHEEL_SIZE;
    ModAddMultiple(d, k1 - 2 * k2 + 2 * k3);
  }

  /** The offset is the baseline offset (wheel3 = 0) advanced by twice wheel3. */
  lemma WheelOffsetBaseline(wheel1: int, wheel2: int, wheel3: int)
    ensures WheelOffset(wheel1, wheel2, wheel3) == (WheelOffset(wheel1, wheel2, 0) + 2 * wheel3) % WHEEL_SIZE
  {
    var d := wheel1 - 2 * wheel2;
    var q := d / WHEEL_SIZE;
    assert d == q * WHEEL_SIZE + d % WHEEL_SIZE;
    assert d + 2 * wheel3 == (d % WHEEL_SIZE + 2 * wheel3) + q * WHEEL_SIZE;
    ModAddMultiple(d % WHEEL_SIZE + 2 * wheel3, q);
  }

  /** Two settings of the first two wheels with the same baseline offset give the same offset
      whatever wheel3 holds: the offset sees wheel1 and wheel2 only through wheel1 - 2 wheel2. */
  lemma WheelOffsetEquivalent(a1: int, a2: int, b1: int, b2: int, wheel3: int)
    requires WheelOffset(a1, a2, 0) == WheelOffset(b1, b2, 0)
    ensures WheelOffset(a1, a2, wheel3) == WheelOffset(b1, b2, wheel3)
  {
    WheelOffsetBaseline(a1, a2, wheel3);
    WheelOffsetBaseline(b1, b2, wheel3);
  }

  /** For a fixed wheel1, exactly one wheel2 on the dial gives a chosen baseline offset:
      2 is invertible mod 69, its inverse being 35. */
  lemma BaselinePartner(wheel1: int, wheel2: int, offset: int)
    requires 0 <= wheel2 < WHEEL_SIZE && 0 <= offset < WHEEL_SIZE
    ensures WheelOffset(wheel1, wheel2, 0) == offset <==> wheel2 == (35 * (wheel1 - offset)) % WHEEL_SIZE
  {
    var d := wheel1 - 2 * wheel2;
    var x := 35 * (wheel1 - offset);
    if WheelOffset(wheel1, wheel2, 0) == offset {
      var q := d / WHEEL_SIZE;
      assert d == q * WHEEL_SIZE + offset;
      assert x == (35 * q + wheel2) * WHEEL_SIZE + wheel2;
      ModOfMultiplePlus(x, 35 * q + wheel2, wheel2);
    }
    if wheel2 == x % WHEEL_SIZE {
      var p := x / WHEEL_SIZE;
      assert x == p * WHEEL_SIZE + wheel2;
      assert d == (2 * p - wheel1 + offset) * WHEEL_SIZE + offset;
      ModOfMultiplePlus(d, 2 * p - wheel1 + offset, offset);
    }
  }
}
