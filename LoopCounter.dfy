// The counted read loops of `task` (lines 143, 149, 158 and 163 of
// src/ModbusRTU.cpp): `for (uint8_t i = 0; i < _len; i++)` around one
// `read()`. The counter is a `uint8_t`, so `i++` takes 255 back to 0.

module LoopCounter {
  import opened Common

  /**
   * The loop as written, started with counter `i` and run for at most `fuel`
   * turns: the number of reads it makes before `i < n` fails, or `None` when
   * it is still running after `fuel` turns.
   */
  function ReadsAsWritten(n: nat, i: uint8, fuel: nat): (r: Option<nat>)
    ensures r.Some? ==> i + r.value >= n
    decreases fuel
  {
    if i >= n then Some(0)
    else if fuel == 0 then None
    else match ReadsAsWritten(n, U8(i + 1), fuel - 1)
      case Some(k) => Some(k + 1)
      case None => None
  }

  /** The same loop with a counter as wide as the count `n` it runs up to. */
  function Reads(n: nat, i: nat, fuel: nat): (r: Option<nat>)
    decreases fuel
  {
    if i >= n then Some(0)
    else if fuel == 0 then None
    else match Reads(n, i + 1, fuel - 1)
      case Some(k) => Some(k + 1)
      case None => None
  }

  /**
   * With a wide counter the loop reads exactly the `n - i` bytes still
   * counted, and ends as soon as it has had that many turns.
   */
  lemma {:induction false} ReadsCounted(n: nat, i: nat, fuel: nat)
    ensures i >= n ==> Reads(n, i, fuel) == Some(0)
    ensures i < n && fuel >= n - i ==> Reads(n, i, fuel) == Some(n - i)
    ensures i < n && fuel < n - i ==> Reads(n, i, fuel) == None
    decreases fuel
  {
    if i < n && fuel > 0 {
      ReadsCounted(n, i + 1, fuel - 1);
    }
  }

  /**
   * As written, a count of 256 or more is never reached: the `uint8_t`
   * counter stays below it, so the loop never ends however long it runs.
   */
  lemma {:induction false} AsWrittenNeverEnds(n: nat, i: uint8, fuel: nat)
    requires n >= 256
    ensures ReadsAsWritten(n, i, fuel) == None
    decreases fuel
  {
    if fuel > 0 {
      AsWrittenNeverEnds(n, U8(i + 1), fuel - 1);
    }
  }

  /** Below 256 the `uint8_t` counter never wraps, and the loop is the one with a wide counter. */
  lemma {:induction false} AsWrittenAgrees(n: nat, i: uint8, fuel: nat)
    requires n < 256
    ensures ReadsAsWritten(n, i, fuel) == Reads(n, i, fuel)
    decreases fuel
  {
    if i < n && fuel > 0 {
      AsWrittenAgrees(n, U8(i + 1), fuel - 1);
    }
  }

  /**
   * A frame of 258 bytes leaves `_len` at 257 once the address is read: the
   * loop that skips or reads its body never ends.
   */
  lemma LongFrameNeverRead(fuel: nat)
    ensures ReadsAsWritten(257, 0, fuel) == None
    ensures Reads(257, 0, fuel) == (if fuel >= 257 then Some(257) else None)
  {
    AsWrittenNeverEnds(257, 0, fuel);
    ReadsCounted(257, 0, fuel);
  }
}
