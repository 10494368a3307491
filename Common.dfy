// Machine types shared by the Modbus RTU model.

module Common {

  /** An octet on the serial line (`uint8_t`). */
  type byte = bv8

  /** A `uint8_t` used as a count. */
  type uint8 = x: nat | x < 0x100

  /** A `uint32_t`, the type of `millis()` and of the timestamps derived from it. */
  type uint32 = x: nat | x < 0x1_0000_0000

  /** A nullable value: a pointer that is null or points at something. */
  datatype Option<T> = None | Some(value: T)

  /** `x` cast to `uint8_t`, keeping the low eight bits. */
  function U8(x: nat): (r: uint8)
    ensures x < 0x100 ==> r == x
    ensures (x - r) % 0x100 == 0
  {
    x % 0x100
  }

  /**
   * The unsigned difference `now - since` of two `millis()` readings, taken
   * modulo 2^32 as `uint32_t` subtraction does, so that it stays correct across
   * a wrap-around of the millisecond counter.
   */
  function Elapsed(now: uint32, since: uint32): (d: uint32)
    ensures (since + d) % 0x1_0000_0000 == now
    ensures since <= now ==> d == now - since
  {
    (now - since) % 0x1_0000_0000
  }
}
