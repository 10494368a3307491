// The inter-frame silence an RTU receiver waits for before it treats the bytes
// received so far as one frame: t3.5, three and a half character times
// (section 2.5.1.1 of "MODBUS over Serial Line Specification and
// Implementation Guide V1.02"), kept in milliseconds.

module Timing {
  import opened Common

  /** Above this rate the guide fixes the silence instead of scaling it with the baud rate. */
  const FixedRateBaud: nat := 19200

  /** The fixed silence, in milliseconds, used above `FixedRateBaud` and after `begin`. */
  const FixedSilence: nat := 2

  /**
   * The silence, in milliseconds, that `setBaudrate(baud)` stores in `_t`:
   * 35000 / baud + 1 up to 19200 baud, that is the smallest whole number of
   * milliseconds longer than 35 bit times (3.5 characters of 10 bits), and a
   * flat 2 ms above it.
   */
  function SilenceThreshold(baud: uint32): (t: nat)
    requires baud > 0
    ensures t >= FixedSilence
    ensures baud > FixedRateBaud ==> t == FixedSilence
    ensures baud <= FixedRateBaud ==> (t - 1) * baud <= 35000 < t * baud
  {
    if baud > FixedRateBaud then FixedSilence else 35000 / baud + 1
  }

  /** A faster line never waits longer. */
  lemma ThresholdAntitone(slow: uint32, fast: uint32)
    requires 0 < slow <= fast
    ensures SilenceThreshold(fast) <= SilenceThreshold(slow)
  {
    if fast <= FixedRateBaud {
      var ts, tf := SilenceThreshold(slow), SilenceThreshold(fast);
      if tf > ts {
        calc {
          35000;
        <  ts * slow;
        <= { MulMonotone(slow, ts, tf - 1); }
          (tf - 1) * slow;
        <= { MulMonotone(tf - 1, slow, fast); }
          (tf - 1) * fast;
        }
        assert false;
      }
    }
  }

  /** Multiplying by a natural number keeps an order, on either side. */
  lemma MulMonotone(k: nat, a: nat, b: nat)
    requires a <= b
    ensures k * a <= k * b && a * k <= b * k
  {
    var d := b - a;
    assert k * b == k * a + k * d;
    assert b * k == a * k + d * k;
  }

  /** At 9600 baud, the rate most Modbus devices ship with, the silence is 4 ms. */
  lemma SilenceAt9600()
    ensures SilenceThreshold(9600) == 4
  {
  }
}
