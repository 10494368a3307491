// The serial port a Modbus RTU engine talks through (Arduino's `Stream`): a
// queue of received bytes and a log of transmitted ones.

module SerialPort {
  import opened Common

  /**
   * The byte `read()` yields from queue `q`. An empty queue makes `read()`
   * return -1, which the `uint8_t` the caller stores it in turns into 0xFF.
   */
  function Head(q: seq<byte>): (b: byte)
    ensures q != [] ==> b == q[0]
    ensures q == [] ==> b == 0xFF
  {
    if q == [] then 0xFF else q[0]
  }

  /** The queue after one `read()`: an empty queue stays empty. */
  function Tail(q: seq<byte>): (r: seq<byte>)
    ensures |r| == if q == [] then 0 else |q| - 1
    ensures q != [] ==> [q[0]] + r == q
  {
    if q == [] then [] else q[1..]
  }

  /** The queue after `n` reads. */
  function Drop(q: seq<byte>, n: nat): (r: seq<byte>)
    ensures n <= |q| ==> r == q[n..]
    ensures n >= |q| ==> r == []
  {
    if n <= |q| then q[n..] else []
  }

  /** The bytes `n` reads yield, 0xFF for every read past the end of the queue. */
  function Take(q: seq<byte>, n: nat): (r: seq<byte>)
    ensures |r| == n
    ensures forall i :: 0 <= i < n && i < |q| ==> r[i] == q[i]
    ensures forall i :: |q| <= i < n ==> r[i] == 0xFF
  {
    seq(n, i requires 0 <= i < n => if i < |q| then q[i] else 0xFF)
  }

  /** One more read drops one more byte. */
  lemma DropNext(q: seq<byte>, n: nat)
    ensures Drop(q, n + 1) == Tail(Drop(q, n))
  {
  }

  /** Reading one byte and then `n` more drops `n + 1` bytes. */
  lemma DropTail(q: seq<byte>, n: nat)
    ensures Drop(Tail(q), n) == Drop(q, n + 1)
  {
  }

  /** One more read appends the byte at the front of what is left. */
  lemma TakeNext(q: seq<byte>, n: nat)
    ensures Take(q, n + 1) == Take(q, n) + [Head(Drop(q, n))]
  {
    var l, r := Take(q, n + 1), Take(q, n) + [Head(Drop(q, n))];
    assert |l| == |r|;
    forall i | 0 <= i < |l|
      ensures l[i] == r[i]
    {
      if i == n && n < |q| {
        assert Drop(q, n)[0] == q[n];
      }
    }
  }

  /** Reading a whole frame that is in the queue yields exactly that frame. */
  lemma TakeFrame(frame: seq<byte>, later: seq<byte>)
    ensures Take(frame + later, |frame|) == frame
    ensures Drop(frame + later, |frame|) == later
  {
    assert (frame + later)[|frame|..] == later;
  }

  /** A port: the bytes received and not yet read, and everything written so far. */
  class Stream {
    var rx: seq<byte>
    var tx: seq<byte>

    constructor ()
      ensures rx == [] && tx == []
    {
      rx := [];
      tx := [];
    }

    /** `available()` */
    function Available(): (n: nat)
      reads this
      ensures n == |rx|
    {
      |rx|
    }

    /** Bytes arriving from the line. */
    method Receive(bs: seq<byte>)
      modifies this
      ensures rx == old(rx) + bs && tx == old(tx)
    {
      rx := rx + bs;
    }

    /** `read()`, truncated to the `uint8_t` every caller in the engine stores it in. */
    method Read() returns (b: byte)
      modifies this
      ensures b == Head(old(rx)) && rx == Tail(old(rx))
      ensures tx == old(tx)
    {
      if rx == [] {
        b := 0xFF;
      } else {
        b := rx[0];
        rx := rx[1..];
      }
    }

    /** `write(b)` */
    method Write(b: byte)
      modifies this
      ensures tx == old(tx) + [b] && rx == old(rx)
    {
      tx := tx + [b];
    }

    /** `write(buf, len)` */
    method WriteBytes(buf: seq<byte>, len: nat)
      requires len <= |buf|
      modifies this
      ensures tx == old(tx) + buf[..len] && rx == old(rx)
    {
      tx := tx + buf[..len];
    }
  }
}
