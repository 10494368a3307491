// The ModbusRTU engine object: its fields, `begin`, `setBaudrate`, `rawSend`,
// `send`, `cleanup` and `task`. Each state-changing method is proved to move
// the object and its port exactly as the matching function of module
// Transactions says, so every property proved there holds of the object.
// Line numbers in the comments are those of src/ModbusRTU.cpp.

module Rtu {
  import opened Common
  import opened Crc16
  import opened Framing
  import opened SerialPort
  import opened Timing
  import opened Transactions

  class ModbusRtu {
    /** `_port`; null until `begin`. */
    var port: Stream?
    var isMaster: bool
    /** `_t`: the inter-frame silence, in milliseconds. */
    var t35: nat
    /** `t`: when the byte count last grew. */
    var t: uint32
    /** `_len`: the bytes counted but not yet read, or the length of `_frame`. */
    var len: nat
    /** `_frame`; `None` when null. */
    var frame: Option<seq<byte>>
    var reply: byte
    /** `_slaveId`: the unit a master waits on (0 for none), or a slave's own address. */
    var slaveId: byte
    var timestamp: uint32
    var cb: Option<Callback>
    var data: Option<nat>
    /** `_sentFrame`; `None` when null. */
    var sentFrame: Option<seq<byte>>
    var sentReg: nat
    /** Every callback call so far, in order. */
    var events: seq<Event>

    /** The request fields, as one value. */
    function Trans(): Transaction
      reads this
    {
      Transaction(slaveId, timestamp, cb, data, sentFrame, sentReg)
    }

    /** The object and its port, as the value the functions of Transactions act on. */
    function Snap(): State
      reads this, port
      requires port != null
    {
      State(port.rx, port.tx, isMaster, t35, t, len, frame, reply, Trans(), events)
    }

    /** The object has a port and, as a master waiting on a unit, holds the request it sent. */
    predicate Valid()
      reads this, port
    {
      port != null && PendingWellFormed(Snap())
    }

    /** Every field but `_port` and `_t` is as it was. */
    twostate predicate KeepsEngine()
      reads this
    {
      old(isMaster) == isMaster && old(t) == t && old(len) == len && old(frame) == frame
      && old(reply) == reply && old(Trans()) == Trans() && old(events) == events
    }

    /** `master()`: an engine that sends requests, with none outstanding. */
    constructor Master()
      ensures port == null && isMaster && slaveId == 0 && frame.None? && len == 0
      ensures t35 == FixedSilence && sentFrame.None? && cb.None? && events == []
    {
      port := null;
      isMaster := true;
      t35 := FixedSilence;
      t := 0;
      len := 0;
      frame := None;
      reply := ExSuccess;
      slaveId := 0;
      timestamp := 0;
      cb := None;
      data := None;
      sentFrame := None;
      sentReg := 0;
      events := [];
    }

    /** `slave(id)`: an engine that answers requests to unit `id`. */
    constructor Slave(id: byte)
      ensures port == null && !isMaster && slaveId == id && frame.None? && len == 0
      ensures t35 == FixedSilence && sentFrame.None? && cb.None? && events == []
    {
      port := null;
      isMaster := false;
      t35 := FixedSilence;
      t := 0;
      len := 0;
      frame := None;
      reply := ExSuccess;
      slaveId := id;
      timestamp := 0;
      cb := None;
      data := None;
      sentFrame := None;
      sentReg := 0;
      events := [];
    }

    /** `begin(port)`: attach the port and fall back to the fixed silence. */
    method Begin(p: Stream) returns (ok: bool)
      modifies this
      ensures port == p && t35 == FixedSilence && ok
      ensures KeepsEngine()
    {
      port := p;
      t35 := FixedSilence;
      ok := true;
    }

    /** `setBaudrate(baud)`: derive the silence from the line rate. */
    method SetBaudrate(baud: uint32)
      requires baud > 0
      modifies this
      ensures t35 == SilenceThreshold(baud) && port == old(port)
      ensures KeepsEngine()
    {
      if baud > 19200 {
        t35 := 2;
      } else {
        t35 := 35000 / baud + 1;
      }
    }

    /**
     * `rawSend(slaveId, frame, len)`: write the address, the first `len` bytes
     * of `frame` and their CRC, high byte first.
     */
    method RawSend(slaveId: byte, frame: seq<byte>, len: uint8) returns (ok: bool)
      requires port != null && len <= |frame|
      modifies port
      ensures port.tx == old(port.tx) + EncodeFrame(slaveId, frame, len)
      ensures port.rx == old(port.rx) && ok
    {
      var newCrc := ComputeCrc16(slaveId, frame, len);
      port.Write(slaveId);
      port.WriteBytes(frame, len);
      port.Write(HighByte(newCrc));
      port.Write(LowByte(newCrc));
      ok := true;
    }

    /**
     * A stand-in for the request builders of the Modbus base class, which are
     * not part of this model: they leave a PDU in `_frame` and its length in
     * `_len` for `send`.
     */
    method Prepare(pdu: seq<byte>)
      requires Valid()
      modifies this
      ensures port == old(port) && Valid()
      ensures Snap() == old(Snap()).(frame := Some(pdu), len := |pdu|)
    {
      frame := Some(pdu);
      len := |pdu|;
    }

    /**
     * `send(slaveId, startreg, cb, unit, data, waitResponse)` at time `now`.
     * `_frame` must hold the `_len` bytes `rawSend` reads from it.
     */
    method Send(slaveId: byte, startreg: nat, cb: Option<Callback>, unit: byte, data: Option<nat>,
                waitResponse: bool, now: uint32) returns (result: bool)
      requires Valid() && (frame.Some? ==> len <= |frame.value|)
      modifies this, port
      ensures port == old(port) && Valid()
      ensures result == CanSend(old(Snap()))
      ensures Snap() == Transactions.Send(old(Snap()), slaveId, startreg, cb, data, waitResponse, now).0
    {
      ghost var s := Snap();
      SendKeepsPending(s, slaveId, startreg, cb, data, waitResponse, now);
      result := false;
      if this.slaveId == 0 && len > 0 && frame.Some? {
        var _ := RawSend(slaveId, frame.value, U8(len));
        if waitResponse && slaveId != 0 {
          Record(slaveId, startreg, cb, data, now);
        }
        result := true;
      }
      frame := None;
      len := 0;
    }

    /** Lines 94-100 of `send`: remember the request just sent as the outstanding one. */
    method Record(slaveId: byte, startreg: nat, cb: Option<Callback>, data: Option<nat>, now: uint32)
      requires port != null
      modifies this
      ensures port == old(port)
      ensures Snap() == old(Snap()).(trans := Transaction(slaveId, now, cb, data, old(frame), startreg), frame := None)
    {
      ghost var s := Snap();
      this.slaveId, timestamp, this.cb, this.data, sentFrame, sentReg, frame :=
        slaveId, now, cb, data, frame, startreg, None;
      assert Trans() == Transaction(slaveId, now, cb, data, s.frame, startreg);
    }

    /** `cleanup()` at time `now`: give up on a request that has waited too long. */
    method Cleanup(now: uint32) returns (fired: bool)
      requires port != null
      modifies this
      ensures port == old(port)
      ensures Snap() == Transactions.Cleanup(old(Snap()), now)
      ensures fired == TimedOut(old(Snap()), now)
    {
      if slaveId != 0 && Elapsed(now, timestamp) > Timeout {
        Conclude(ExTimeout);
        return true;
      }
      return false;
    }

    /**
     * End the outstanding request with result `code`: call the callback once,
     * if there is one, and forget the request (lines 242-249, and 188-195 of
     * `task`).
     */
    method Conclude(code: byte)
      requires port != null
      modifies this
      ensures port == old(port)
      ensures Completed(old(Snap()), Snap(), code)
      ensures Snap() == old(Snap()).(events := Snap().events, trans := Snap().trans)
    {
      if cb.Some? {
        events := events + [Event(cb.value, code)];
        cb := None;
      }
      sentFrame := None;
      data := None;
      slaveId := 0;
    }

    /** `if (isMaster) cleanup();`, the last step of every path of `task` that reached a frame. */
    method Finish(now: uint32)
      requires port != null
      modifies this
      ensures port == old(port)
      ensures Snap() == Transactions.Finish(old(Snap()), now)
    {
      if isMaster {
        var _ := Cleanup(now);
      }
    }

    /** Read and discard `n` bytes. */
    method Skip(n: uint8)
      requires port != null
      modifies port
      ensures port.rx == Drop(old(port.rx), n) && port.tx == old(port.tx)
    {
      var i: uint8 := 0;
      while i < n
        invariant i <= n
        invariant port.rx == Drop(old(port.rx), i) && port.tx == old(port.tx)
      {
        DropNext(old(port.rx), i);
        var _ := port.Read();
        i := i + 1;
      }
    }

    /** Skip the `_len` bytes left of a frame that is not taken (lines 143-144, 149-150 and 158-159). */
    method SkipFrame()
      requires port != null && len <= 255
      modifies this, port
      ensures port == old(port)
      ensures Snap() == old(Snap()).(rx := Drop(old(port.rx), old(len)), len := 0)
    {
      Skip(len as uint8);
      len := 0;
    }

    /** Read `n` bytes into a new buffer. */
    method ReadBytes(n: uint8) returns (buf: seq<byte>)
      requires port != null
      modifies port
      ensures buf == Take(old(port.rx), n)
      ensures port.rx == Drop(old(port.rx), n) && port.tx == old(port.tx)
    {
      buf := [];
      var i: uint8 := 0;
      while i < n
        invariant i <= n
        invariant buf == Take(old(port.rx), i)
        invariant port.rx == Drop(old(port.rx), i) && port.tx == old(port.tx)
      {
        DropNext(old(port.rx), i);
        TakeNext(old(port.rx), i);
        var b := port.Read();
        buf := buf + [b];
        i := i + 1;
      }
    }

    /**
     * `task()` at time `now`, with the engine's collaborators as parameters
     * (see `Transactions.Task`). The `uint8_t` loop counters of the source
     * only reach a count below 256.
     */
    method Task(now: uint32, quiet: bool, allocOk: bool, pduReply: byte,
                slaveReply: byte, response: seq<byte>)
      requires Valid() && len <= 256 && |port.rx| <= 256
      modifies this, port
      ensures port == old(port) && Valid()
      ensures Snap() == Transactions.Task(old(Snap()), now, quiet, allocOk, pduReply, slaveReply, response)
    {
      TaskKeepsPending(Snap(), now, quiet, allocOk, pduReply, slaveReply, response);
      if port.Available() > len {
        len := port.Available();
        t := now;
      }
      if len == 0 {
        Finish(now);
        return;
      }
      if isMaster {
        if Elapsed(now, t) < t35 {
          return;
        }
      } else if !quiet {
        return;
      }
      ReadFrame(now, allocOk, pduReply, slaveReply, response);
    }

    /** Lines 140-147 of `task`: read the address; a master waiting on no unit skips the frame. */
    method ReadFrame(now: uint32, allocOk: bool, pduReply: byte, slaveReply: byte, response: seq<byte>)
      requires Valid() && 0 < len <= 256
      modifies this, port
      ensures port == old(port)
      ensures Snap() == Transactions.ReadFrame(old(Snap()), now, allocOk, pduReply, slaveReply, response)
    {
      ghost var o := Snap();
      DropTail(o.rx, len - 1);
      var address := port.Read();
      len := len - 1;
      if isMaster && slaveId == 0 {
        SkipFrame();
        return;
      }
      Admit(address, now, allocOk, pduReply, slaveReply, response, o);
    }

    /**
     * Lines 148-172 of `task`, once the address of the frame counted in `o`
     * is read: skip a frame for another unit and take any other.
     */
    method Admit(address: byte, now: uint32, allocOk: bool, pduReply: byte, slaveReply: byte,
                 response: seq<byte>, ghost o: State)
      requires PendingWellFormed(o) && 0 < o.len <= 256 && !(o.isMaster && o.trans.slaveId == 0)
      requires port != null && address == Head(o.rx) && Snap() == o.(rx := Tail(o.rx), len := o.len - 1)
      modifies this, port
      ensures port == old(port)
      ensures Snap() == Transactions.ReadFrame(o, now, allocOk, pduReply, slaveReply, response)
    {
      ghost var r := o.(rx := Drop(o.rx, o.len), len := 0);
      DropTail(o.rx, len);
      if address != Broadcast && address != slaveId {
        SkipFrame();
        assert Snap() == r;
        Finish(now);
        return;
      }
      Allocate(address, now, allocOk, pduReply, slaveReply, response, o);
    }

    /**
     * Lines 155-172 of `task`, for a frame addressed to this object: replace
     * `_frame` by a new buffer, or skip the frame when there is none, and read
     * the bytes after the address into it.
     */
    method Allocate(address: byte, now: uint32, allocOk: bool, pduReply: byte, slaveReply: byte,
                    response: seq<byte>, ghost o: State)
      requires PendingWellFormed(o) && 0 < o.len <= 256 && !(o.isMaster && o.trans.slaveId == 0)
      requires port != null && address == Head(o.rx) && Snap() == o.(rx := Tail(o.rx), len := o.len - 1)
      requires Addressed(o)
      modifies this, port
      ensures port == old(port)
      ensures Snap() == Transactions.ReadFrame(o, now, allocOk, pduReply, slaveReply, response)
    {
      DropTail(o.rx, len);
      frame := None;
      if !allocOk {
        SkipFrame();
        assert Snap() == o.(rx := Drop(o.rx, o.len), len := 0, frame := None);
        Finish(now);
        return;
      }
      var body := ReadBytes(len as uint8);
      frame := Some(body);
      assert Snap() == Buffered(o);
      Accept(address, now, pduReply, slaveReply, response);
    }

    /**
     * Lines 174-182 of `task`: check the CRC and hand an intact frame on. A
     * frame too short to hold the two check bytes is refused, the guard line
     * 174 lacks.
     */
    method Accept(address: byte, now: uint32, pduReply: byte, slaveReply: byte, response: seq<byte>)
      requires Valid() && frame.Some? && len == |frame.value| && len <= 255
      requires isMaster ==> slaveId != 0
      modifies this, port
      ensures port == old(port)
      ensures Snap() == Transactions.Accept(old(Snap()), address, old(frame.value), now, pduReply, slaveReply, response)
    {
      var body := frame.value;
      if len < 2 {
        frame := None;
        len := 0;
        Finish(now);
        return;
      }
      var frameCrc := Join(body[len - 2], body[len - 1]);
      len := len - 2;
      var crc := ComputeCrc16(address, body, len as uint8);
      if frameCrc != crc {
        frame := None;
        len := 0;
        Finish(now);
        return;
      }
      Deliver(address, now, pduReply, slaveReply, response);
    }

    /** Lines 183-232 of `task`: hand an intact frame to the master or slave side, then release the buffer. */
    method Deliver(address: byte, now: uint32, pduReply: byte, slaveReply: byte, response: seq<byte>)
      requires Valid() && frame.Some? && 2 <= |frame.value| && len == |frame.value| - 2
      requires isMaster ==> slaveId != 0
      modifies this, port
      ensures port == old(port)
      ensures Snap() == Transactions.Deliver(old(Snap()), address, old(frame.value), now, pduReply, slaveReply, response)
    {
      ghost var r := Snap();
      assert r.(frame := Some(frame.value), len := |frame.value| - 2) == r;
      if isMaster {
        HandleReply(address, pduReply, slaveReply, response);
      } else {
        HandleRequest(address, pduReply, slaveReply, response);
      }
      frame := None;
      len := 0;
      Finish(now);
    }

    // The two sides of `Transactions.Dispatch`, each taking all of its parameters.

    /** Lines 183-197 of `task`: a master takes a reply to its request, or ignores the frame. */
    method HandleReply(address: byte, pduReply: byte, slaveReply: byte, response: seq<byte>)
      requires Valid() && isMaster && slaveId != 0 && frame.Some? && |frame.value| >= 2
      modifies this
      ensures port == old(port)
      ensures Snap() == Transactions.Dispatch(old(Snap()), address, old(frame.value), pduReply, slaveReply, response)
    {
      reply := ExSuccess;
      if frame.value[0] & 0x7F == sentFrame.value[0] {
        // masterPDU leaves its result in `_reply`
        reply := pduReply;
        Conclude(reply);
      }
      reply := ReplyOff;
    }

    /** Lines 198-204 of `task`: a slave serves a request and answers it unless it was broadcast. */
    method HandleRequest(address: byte, pduReply: byte, slaveReply: byte, response: seq<byte>)
      requires port != null && !isMaster && frame.Some? && |frame.value| >= 2
      modifies this, port
      ensures port == old(port)
      ensures Snap() == Transactions.Dispatch(old(Snap()), address, old(frame.value), pduReply, slaveReply, response)
    {
      // slavePDU leaves the response in `_frame` and its choice in `_reply`
      frame := Some(response);
      len := |response|;
      reply := slaveReply;
      if address == Broadcast {
        reply := ReplyOff;
      }
      if reply != ReplyOff {
        var _ := RawSend(slaveId, frame.value, U8(len));
      }
    }
  }
}
