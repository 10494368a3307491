// What one call of `send`, `cleanup` and `task` does to a ModbusRTU object and
// its port, as functions on a snapshot of their state, with the properties
// the engine promises proved about them. The class in Rtu.dfy is proved to
// follow these functions step by step.
// Line numbers in the comments are those of src/ModbusRTU.cpp.

module Transactions {
  import opened Common
  import opened Crc16
  import opened Framing
  import opened SerialPort

  /** `MODBUSRTU_BROADCAST`: the address every slave accepts (section 2.2 of the serial line guide). */
  const Broadcast: byte := 0

  /** `MODBUSRTU_TIMEOUT`, in milliseconds: how long a master waits for a reply. */
  const Timeout: nat := 1000

  /** `Modbus::EX_SUCCESS`, the result a master reports for an accepted reply. */
  const ExSuccess: byte := 0x00

  /** `Modbus::EX_TIMEOUT`, the result a master reports when no reply came in time. */
  const ExTimeout: byte := 0xE4

  /** `Modbus::REPLY_OFF`: send nothing back. */
  const ReplyOff: byte := 0x01

  /** A transaction callback `_cb`, known only by its identity. */
  type Callback = nat

  /** One call of a callback with the result code it was given. */
  datatype Event = Event(callback: Callback, code: byte)

  /**
   * The fields a master uses to track its outstanding request: the unit it
   * waits on (`_slaveId`, 0 when it waits on none), when it sent the request,
   * the callback, the `_data` pointer (known only by its identity), the
   * request frame kept in `_sentFrame` (`None` when null) and `_sentReg`. A
   * slave keeps its own address in `slaveId` and leaves the rest unused.
   */
  datatype Transaction = Transaction(
    slaveId: byte, timestamp: uint32, cb: Option<Callback>, data: Option<nat>,
    sentFrame: Option<seq<byte>>, sentReg: nat)

  /**
   * The fields of a ModbusRTU object and the two directions of its port.
   * `frame` is the heap buffer `_frame`, `None` when the pointer is null;
   * `events` is every callback call so far.
   */
  datatype State = State(
    rx: seq<byte>, tx: seq<byte>,
    isMaster: bool, t35: nat, t: uint32, len: nat,
    frame: Option<seq<byte>>, reply: byte,
    trans: Transaction,
    events: seq<Event>)

  /** A master with a request outstanding still holds the non-empty request it sent. */
  predicate PendingWellFormed(s: State) {
    s.isMaster && s.trans.slaveId != 0 ==> s.trans.sentFrame.Some? && |s.trans.sentFrame.value| > 0
  }

  /** The outstanding transaction of `s'` is that of `s`. */
  predicate SamePending(s: State, s': State) {
    s'.trans == s.trans
  }

  /** A transaction once completed or abandoned: no unit, no callback, no data, no request frame. */
  function Dropped(q: Transaction): Transaction {
    q.(slaveId := 0, cb := None, sentFrame := None, data := None)
  }

  /** The callback call that ends the request of `s` with result `code`, if it has a callback. */
  function Report(s: State, code: byte): seq<Event> {
    if s.trans.cb.Some? then [Event(s.trans.cb.value, code)] else []
  }

  /** `s'` is `s` after its request ended with result `code`: reported once and dropped. */
  predicate Completed(s: State, s': State, code: byte) {
    s'.events == s.events + Report(s, code) && s'.trans == Dropped(s.trans)
  }

  // ----- cleanup -----

  /** Whether `cleanup` at time `now` gives up on the outstanding request. */
  predicate TimedOut(s: State, now: uint32) {
    s.trans.slaveId != 0 && Elapsed(now, s.trans.timestamp) > Timeout
  }

  /**
   * The state after `cleanup()` at time `now`: nothing is left timed out, and
   * the port, the prepared frame and the engine's settings are untouched.
   */
  function Cleanup(s: State, now: uint32): (c: State)
    ensures !TimedOut(c, now)
    ensures c.rx == s.rx && c.tx == s.tx && c.len == s.len && c.frame == s.frame
    ensures c.isMaster == s.isMaster && c.t35 == s.t35 && c.t == s.t && c.reply == s.reply
  {
    if TimedOut(s, now) then
      s.(events := s.events + Report(s, ExTimeout), trans := Dropped(s.trans))
    else s
  }

  /**
   * `cleanup` reports a timed-out request at most once: it calls the callback
   * with `EX_TIMEOUT`, if there is one, drops the request and returns true;
   * otherwise it changes nothing and returns false.
   */
  lemma CleanupOutcome(s: State, now: uint32)
    ensures var s' := Cleanup(s, now);
      if TimedOut(s, now) then
        s'.trans.slaveId == 0 && s'.trans.cb.None? && s'.trans.sentFrame.None? && s'.trans.data.None?
        && s'.events == s.events + (if s.trans.cb.Some? then [Event(s.trans.cb.value, ExTimeout)] else [])
        && s'.rx == s.rx && s'.tx == s.tx && s'.len == s.len && s'.frame == s.frame
        && s'.isMaster == s.isMaster && s'.t35 == s.t35 && s'.t == s.t && s'.reply == s.reply
        && s'.trans.timestamp == s.trans.timestamp && s'.trans.sentReg == s.trans.sentReg
      else s' == s
  {
  }

  /** A second `cleanup` right after the first finds nothing to do. */
  lemma CleanupTwice(s: State, now: uint32)
    ensures !TimedOut(Cleanup(s, now), now)
    ensures Cleanup(Cleanup(s, now), now) == Cleanup(s, now)
  {
  }

  /** `cleanup` keeps an outstanding request well formed (it only ever drops one). */
  lemma CleanupKeepsPending(s: State, now: uint32)
    requires PendingWellFormed(s)
    ensures PendingWellFormed(Cleanup(s, now))
  {
  }

  // ----- send -----

  /** Whether `send` transmits: no request outstanding and a prepared, non-empty frame. */
  predicate CanSend(s: State) {
    s.trans.slaveId == 0 && s.len > 0 && s.frame.Some?
  }

  /**
   * The state after `send(slaveId, startreg, cb, unit, data, waitResponse)` at
   * time `now`, and its result.
   */
  function Send(s: State, slaveId: byte, startreg: nat, cb: Option<Callback>, data: Option<nat>,
                waitResponse: bool, now: uint32): (r: (State, bool))
    requires s.frame.Some? ==> s.len <= |s.frame.value|
    ensures r.1 <==> CanSend(s)
    ensures r.0.frame.None? && r.0.len == 0
    ensures r.0.rx == s.rx && r.0.events == s.events && r.0.isMaster == s.isMaster && r.0.t35 == s.t35
  {
    if CanSend(s) then
      var sent := s.(tx := s.tx + EncodeFrame(slaveId, s.frame.value, U8(s.len)));
      var pending :=
        if waitResponse && slaveId != 0 then
          sent.(trans := Transaction(slaveId, now, cb, data, s.frame, startreg))
        else sent;
      (pending.(frame := None, len := 0), true)
    else
      (s.(frame := None, len := 0), false)
  }

  /**
   * `send` transmits exactly when `CanSend` holds; when it does not, it writes
   * nothing and leaves any outstanding request alone. Either way the prepared
   * frame is gone afterwards. It never calls a callback.
   */
  lemma SendOutcome(s: State, slaveId: byte, startreg: nat, cb: Option<Callback>, data: Option<nat>,
                    waitResponse: bool, now: uint32)
    requires s.frame.Some? ==> s.len <= |s.frame.value|
    ensures var (s', ok) := Send(s, slaveId, startreg, cb, data, waitResponse, now);
      (ok <==> CanSend(s))
      && s'.frame.None? && s'.len == 0 && s'.events == s.events && s'.rx == s.rx
      && (ok ==> s'.tx == s.tx + EncodeFrame(slaveId, s.frame.value, U8(s.len)))
      && (!ok ==> s'.tx == s.tx && SamePending(s, s'))
  {
  }

  /**
   * A successful `send` leaves a request outstanding exactly when it was asked
   * to wait for a reply from a unicast address; the request then remembers the
   * unit, the time, the callback, the data and the bytes sent.
   */
  lemma SendRecordsPending(s: State, slaveId: byte, startreg: nat, cb: Option<Callback>, data: Option<nat>,
                           waitResponse: bool, now: uint32)
    requires s.frame.Some? ==> s.len <= |s.frame.value|
    requires CanSend(s)
    ensures var (s', _) := Send(s, slaveId, startreg, cb, data, waitResponse, now);
      (s'.trans.slaveId != 0 <==> waitResponse && slaveId != 0)
      && (s'.trans.slaveId != 0 ==>
            s'.trans.slaveId == slaveId && s'.trans.timestamp == now && s'.trans.cb == cb && s'.trans.data == data
            && s'.trans.sentFrame == s.frame && s'.trans.sentReg == startreg)
  {
  }

  /** `send` keeps an outstanding request well formed: the one it records is the non-empty frame it sent. */
  lemma SendKeepsPending(s: State, slaveId: byte, startreg: nat, cb: Option<Callback>, data: Option<nat>,
                         waitResponse: bool, now: uint32)
    requires s.frame.Some? ==> s.len <= |s.frame.value|
    requires PendingWellFormed(s)
    ensures PendingWellFormed(Send(s, slaveId, startreg, cb, data, waitResponse, now).0)
  {
  }

  // ----- task -----

  /**
   * Lines 114-117: a larger byte count than last seen restarts the silence
   * timer. The count never shrinks and covers every queued byte; nothing but
   * the count and its time changes, and the time only when the count grows.
   */
  function Observe(s: State, now: uint32): (o: State)
    ensures o.len >= s.len && o.len >= |s.rx| && (o.len == s.len || o.len == |s.rx|)
    ensures o == s.(len := o.len, t := o.t)
    ensures o.len > s.len ==> o.t == now
    ensures o.len == s.len ==> o == s
  {
    if |s.rx| > s.len then s.(len := |s.rx|, t := now) else s
  }

  /**
   * The end of every path that reached a frame: a master then runs `cleanup`,
   * which leaves the port, the buffer and the settings alone; a slave does nothing.
   */
  function Finish(s: State, now: uint32): (f: State)
    ensures f.rx == s.rx && f.tx == s.tx && f.len == s.len && f.frame == s.frame
    ensures f.isMaster == s.isMaster && f.t35 == s.t35
    ensures !s.isMaster ==> f == s
  {
    if s.isMaster then Cleanup(s, now) else s
  }

  /** Lines 183-204: handle a frame that passed the check, `body` being its bytes after the address. */
  function Dispatch(s: State, address: byte, body: seq<byte>, pduReply: byte,
                    slaveReply: byte, response: seq<byte>): (d: State)
    requires PendingWellFormed(s) && |body| >= 2
    ensures d.rx == s.rx && d.isMaster == s.isMaster && d.t35 == s.t35 && d.t == s.t
    ensures s.isMaster ==> d.reply == ReplyOff && d.tx == s.tx && d.frame == s.frame && d.len == s.len
    ensures !s.isMaster ==> d.events == s.events && d.trans == s.trans
    ensures address == Broadcast ==> d.tx == s.tx
  {
    if s.isMaster then
      if s.trans.slaveId != 0 && FunctionCodeMatches(body, s.trans.sentFrame.value) then
        s.(reply := ReplyOff, events := s.events + Report(s, pduReply), trans := Dropped(s.trans))
      else s.(reply := ReplyOff)
    else
      var reply := if address == Broadcast then ReplyOff else slaveReply;
      s.(frame := Some(response), len := |response|, reply := reply,
         tx := if reply != ReplyOff then s.tx + EncodeFrame(s.trans.slaveId, response, U8(|response|)) else s.tx)
  }

  /**
   * Line 185: the reply answers the request when its function code, exception
   * bit cleared, is the request's. For a request code below 0x80 that is the
   * normal response and the exception response (code | 0x80), and nothing else;
   * a request code of 0x80 or more is never answered.
   */
  function FunctionCodeMatches(body: seq<byte>, sent: seq<byte>): (m: bool)
    requires |body| > 0 && |sent| > 0
    ensures m ==> sent[0] < 0x80
    ensures sent[0] < 0x80 ==> (m <==> body[0] == sent[0] || body[0] == sent[0] | 0x80)
  {
    body[0] & 0x7F == sent[0]
  }


  /**
   * The state after `task()` at time `now`. The engine's collaborators are
   * parameters: `quiet` is whether a slave's wait for silence ended before
   * `MODBUSRTU_MAX_READMS`, `allocOk` whether `malloc` succeeded, `pduReply`
   * the `_reply` that `masterPDU` leaves, and `slaveReply` and `response` the
   * `_reply` and `_frame` that `slavePDU` leaves.
   */
  function Task(s: State, now: uint32, quiet: bool, allocOk: bool, pduReply: byte,
                slaveReply: byte, response: seq<byte>): (r: State)
    requires PendingWellFormed(s)
    ensures r.isMaster == s.isMaster && r.t35 == s.t35
    ensures r.rx == s.rx || (r.len == 0 && r.rx == Drop(s.rx, Observe(s, now).len))
  {
    var o := Observe(s, now);
    if o.len == 0 then Finish(o, now)
    else if !Silent(o, now, quiet) then o
    else ReadFrame(o, now, allocOk, pduReply, slaveReply, response)
  }

  /**
   * Whether the line has been quiet for `_t` since the last byte arrived: a
   * master checks the clock once, a slave waits for it (or gives up, `!quiet`).
   */
  predicate Silent(o: State, now: uint32, quiet: bool) {
    if o.isMaster then Elapsed(now, o.t) >= o.t35 else quiet
  }

  /** Whether `task` at time `now` goes past the wait for silence and reads a frame. */
  predicate Reads(s: State, now: uint32, quiet: bool) {
    var o := Observe(s, now);
    o.len > 0 && Silent(o, now, quiet)
  }

  /** The bytes `task` reads after the address: the `len - 1` it still counts. */
  function Body(o: State): seq<byte>
    requires o.len > 0
  {
    Take(Tail(o.rx), o.len - 1)
  }

  /** Whether the frame is for this object: sent to the broadcast address or to `_slaveId`. */
  predicate Addressed(o: State) {
    Head(o.rx) == Broadcast || Head(o.rx) == o.trans.slaveId
  }

  /**
   * Read the address and the `len - 1` bytes after it, `len` bytes in all;
   * then drop them or check them.
   */
  function ReadFrame(o: State, now: uint32, allocOk: bool, pduReply: byte,
                     slaveReply: byte, response: seq<byte>): (r: State)
    requires PendingWellFormed(o) && o.len > 0
    ensures r.rx == Drop(o.rx, o.len) && r.len == 0
    ensures r.isMaster == o.isMaster && r.t35 == o.t35
    ensures o.isMaster ==> r.tx == o.tx
  {
    var r := o.(rx := Drop(o.rx, o.len), len := 0);
    if o.isMaster && o.trans.slaveId == 0 then r
    else if !Addressed(o) then Finish(r, now)
    else if !allocOk then Finish(r.(frame := None), now)
    else Accept(Buffered(o), Head(o.rx), Body(o), now, pduReply, slaveReply, response)
  }

  /** The state once the bytes after the address are read into a new `_frame` of `len - 1` bytes. */
  function Buffered(o: State): State
    requires o.len > 0
  {
    o.(rx := Drop(o.rx, o.len), len := o.len - 1, frame := Some(Body(o)))
  }

  /**
   * Check the bytes read after the address, hand an intact frame on and
   * release the buffer. A body too short to hold the check bytes is refused
   * like one whose CRC disagrees.
   */
  function Accept(r: State, address: byte, body: seq<byte>, now: uint32, pduReply: byte,
                  slaveReply: byte, response: seq<byte>): (a: State)
    requires PendingWellFormed(r)
    ensures a.rx == r.rx && a.len == 0 && a.frame.None?
    ensures a.isMaster == r.isMaster && a.t35 == r.t35
    ensures r.isMaster || address == Broadcast ==> a.tx == r.tx
  {
    match CheckBody(address, body)
    case Intact(_) => Deliver(r, address, body, now, pduReply, slaveReply, response)
    case _ => Finish(r.(frame := None, len := 0), now)
  }

  /** Hand an intact frame, PDU and check bytes, on; then release the buffer. */
  function Deliver(r: State, address: byte, body: seq<byte>, now: uint32, pduReply: byte,
                   slaveReply: byte, response: seq<byte>): (d: State)
    requires PendingWellFormed(r) && |body| >= 2
    ensures d.rx == r.rx && d.len == 0 && d.frame.None?
    ensures d.isMaster == r.isMaster && d.t35 == r.t35
    ensures r.isMaster || address == Broadcast ==> d.tx == r.tx
  {
    var d := Dispatch(r.(frame := Some(body), len := |body| - 2), address, body,
                      pduReply, slaveReply, response);
    Finish(d.(frame := None, len := 0), now)
  }

  /**
   * Whether a frame read from `o` gets past every filter: a master must be
   * waiting for a reply, the frame must be addressed to this object, the
   * buffer must be allocated and the CRC must hold.
   */
  predicate Delivered(o: State, allocOk: bool)
    requires o.len > 0
  {
    !(o.isMaster && o.trans.slaveId == 0) && Addressed(o) && allocOk
    && CheckBody(Head(o.rx), Body(o)).Intact?
  }

  /** Whether a master takes the frame read from `o` as the reply to its request. */
  predicate Answers(o: State, allocOk: bool)
    requires PendingWellFormed(o) && o.len > 0
  {
    o.isMaster && Delivered(o, allocOk) && FunctionCodeMatches(Body(o), o.trans.sentFrame.value)
  }

  /** Whether a slave answers the frame read from `o`. */
  predicate Replies(o: State, allocOk: bool, slaveReply: byte)
    requires o.len > 0
  {
    !o.isMaster && Delivered(o, allocOk) && Head(o.rx) != Broadcast && slaveReply != ReplyOff
  }

  // ----- The properties of each layer -----

  lemma DeliverKeepsPending(r: State, address: byte, body: seq<byte>, now: uint32, pduReply: byte,
                            slaveReply: byte, response: seq<byte>)
    requires PendingWellFormed(r) && |body| >= 2
    ensures var a := Deliver(r, address, body, now, pduReply, slaveReply, response);
      PendingWellFormed(a) && a.rx == r.rx && a.len == 0
  {
  }

  lemma DeliverTransmits(r: State, address: byte, body: seq<byte>, now: uint32, pduReply: byte,
                         slaveReply: byte, response: seq<byte>)
    requires PendingWellFormed(r) && |body| >= 2
    ensures Deliver(r, address, body, now, pduReply, slaveReply, response).tx ==
      if !r.isMaster && address != Broadcast && slaveReply != ReplyOff
      then r.tx + EncodeFrame(r.trans.slaveId, response, U8(|response|))
      else r.tx
  {
  }

  lemma DeliverReports(r: State, address: byte, body: seq<byte>, now: uint32, pduReply: byte,
                       slaveReply: byte, response: seq<byte>)
    requires PendingWellFormed(r) && |body| >= 2
    ensures var a := Deliver(r, address, body, now, pduReply, slaveReply, response);
      if r.isMaster && r.trans.slaveId != 0 && FunctionCodeMatches(body, r.trans.sentFrame.value)
      then Completed(r, a, pduReply)
      else SamePending(Finish(r, now), a) && a.events == Finish(r, now).events
  {
  }

  lemma AcceptKeepsPending(r: State, address: byte, body: seq<byte>, now: uint32, pduReply: byte,
                           slaveReply: byte, response: seq<byte>)
    requires PendingWellFormed(r)
    ensures var a := Accept(r, address, body, now, pduReply, slaveReply, response);
      PendingWellFormed(a) && a.rx == r.rx && a.len == 0
  {
    if CheckBody(address, body).Intact? {
      DeliverKeepsPending(r, address, body, now, pduReply, slaveReply, response);
    }
  }

  lemma AcceptTransmits(r: State, address: byte, body: seq<byte>, now: uint32, pduReply: byte,
                        slaveReply: byte, response: seq<byte>)
    requires PendingWellFormed(r)
    ensures Accept(r, address, body, now, pduReply, slaveReply, response).tx ==
      if !r.isMaster && CheckBody(address, body).Intact? && address != Broadcast && slaveReply != ReplyOff
      then r.tx + EncodeFrame(r.trans.slaveId, response, U8(|response|))
      else r.tx
  {
    if CheckBody(address, body).Intact? {
      DeliverTransmits(r, address, body, now, pduReply, slaveReply, response);
    }
  }

  lemma AcceptReports(r: State, address: byte, body: seq<byte>, now: uint32, pduReply: byte,
                      slaveReply: byte, response: seq<byte>)
    requires PendingWellFormed(r)
    ensures var a := Accept(r, address, body, now, pduReply, slaveReply, response);
      if r.isMaster && r.trans.slaveId != 0 && CheckBody(address, body).Intact?
         && FunctionCodeMatches(body, r.trans.sentFrame.value)
      then Completed(r, a, pduReply)
      else SamePending(Finish(r, now), a) && a.events == Finish(r, now).events
  {
    if CheckBody(address, body).Intact? {
      DeliverReports(r, address, body, now, pduReply, slaveReply, response);
    }
  }

  lemma ReadFrameKeepsPending(o: State, now: uint32, allocOk: bool, pduReply: byte,
                              slaveReply: byte, response: seq<byte>)
    requires PendingWellFormed(o) && o.len > 0
    ensures var a := ReadFrame(o, now, allocOk, pduReply, slaveReply, response);
      PendingWellFormed(a) && a.rx == Drop(o.rx, o.len) && a.len == 0
  {
    AcceptKeepsPending(Buffered(o), Head(o.rx), Body(o), now, pduReply, slaveReply, response);
  }

  lemma ReadFrameTransmits(o: State, now: uint32, allocOk: bool, pduReply: byte,
                           slaveReply: byte, response: seq<byte>)
    requires PendingWellFormed(o) && o.len > 0
    ensures ReadFrame(o, now, allocOk, pduReply, slaveReply, response).tx ==
      if Replies(o, allocOk, slaveReply) then o.tx + EncodeFrame(o.trans.slaveId, response, U8(|response|))
      else o.tx
  {
    AcceptTransmits(Buffered(o), Head(o.rx), Body(o), now, pduReply, slaveReply, response);
  }

  lemma ReadFrameReports(o: State, now: uint32, allocOk: bool, pduReply: byte,
                         slaveReply: byte, response: seq<byte>)
    requires PendingWellFormed(o) && o.len > 0
    ensures var a := ReadFrame(o, now, allocOk, pduReply, slaveReply, response);
      if Answers(o, allocOk) then Completed(o, a, pduReply)
      else SamePending(Finish(o, now), a) && a.events == Finish(o, now).events
  {
    var a := ReadFrame(o, now, allocOk, pduReply, slaveReply, response);
    var r := o.(rx := Drop(o.rx, o.len), len := 0);
    if o.isMaster && o.trans.slaveId == 0 {
      assert !TimedOut(o, now) && a == r;
    } else if !Addressed(o) {
      FinishSeesOnlyRequest(o, r, now);
    } else if !allocOk {
      FinishSeesOnlyRequest(o, r.(frame := None), now);
    } else {
      AcceptReports(Buffered(o), Head(o.rx), Body(o), now, pduReply, slaveReply, response);
      FinishSeesOnlyRequest(o, Buffered(o), now);
    }
  }

  /** What `Finish` does to the request and the callbacks depends on nothing else. */
  lemma FinishSeesOnlyRequest(s: State, s': State, now: uint32)
    requires s'.isMaster == s.isMaster && s'.trans == s.trans && s'.events == s.events
    ensures Finish(s', now).trans == Finish(s, now).trans && Finish(s', now).events == Finish(s, now).events
  {
  }

  // ----- The properties of task -----

  /** `task` keeps an outstanding request well formed. */
  lemma TaskKeepsPending(s: State, now: uint32, quiet: bool, allocOk: bool, pduReply: byte,
                         slaveReply: byte, response: seq<byte>)
    requires PendingWellFormed(s)
    ensures PendingWellFormed(Task(s, now, quiet, allocOk, pduReply, slaveReply, response))
  {
    if Reads(s, now, quiet) {
      ReadFrameKeepsPending(Observe(s, now), now, allocOk, pduReply, slaveReply, response);
    }
  }

  /**
   * Until the line has been silent for `_t` milliseconds after the last byte
   * arrived, a master reads nothing: `task` only notes the byte count and the
   * time it last grew.
   */
  lemma MasterWaitsForSilence(s: State, now: uint32, quiet: bool, allocOk: bool, pduReply: byte,
                              slaveReply: byte, response: seq<byte>)
    requires PendingWellFormed(s) && s.isMaster && Observe(s, now).len > 0
    requires Elapsed(now, Observe(s, now).t) < s.t35
    ensures Task(s, now, quiet, allocOk, pduReply, slaveReply, response) == Observe(s, now)
  {
  }

  /** In particular a master never reads in the step in which new bytes showed up. */
  lemma MasterWaitsAfterArrival(s: State, now: uint32, quiet: bool, allocOk: bool, pduReply: byte,
                                slaveReply: byte, response: seq<byte>)
    requires PendingWellFormed(s) && s.isMaster && |s.rx| > s.len && s.t35 > 0
    ensures Task(s, now, quiet, allocOk, pduReply, slaveReply, response).rx == s.rx
  {
    MasterWaitsForSilence(s, now, quiet, allocOk, pduReply, slaveReply, response);
  }

  /**
   * When `task` reads, it reads exactly the bytes it counted, whatever it then
   * does with them, and ends with nothing counted; when it does not, the
   * queue is untouched and the count is the larger of the old count and what
   * is waiting.
   */
  lemma TaskConsumesObserved(s: State, now: uint32, quiet: bool, allocOk: bool, pduReply: byte,
                             slaveReply: byte, response: seq<byte>)
    requires PendingWellFormed(s)
    ensures var s' := Task(s, now, quiet, allocOk, pduReply, slaveReply, response);
      var o := Observe(s, now);
      o.len >= s.len && o.len >= |s.rx|
      && if Reads(s, now, quiet) then s'.rx == Drop(s.rx, o.len) && s'.len == 0
         else s'.rx == s.rx && s'.len == o.len
  {
    var o := Observe(s, now);
    assert o.rx == s.rx;
    if Reads(s, now, quiet) {
      ReadFrameKeepsPending(o, now, allocOk, pduReply, slaveReply, response);
    } else if o.len == 0 {
      assert Task(s, now, quiet, allocOk, pduReply, slaveReply, response) == Finish(o, now);
    } else {
      assert Task(s, now, quiet, allocOk, pduReply, slaveReply, response) == o;
    }
  }

  /**
   * `task` transmits only when a slave answers an intact frame addressed to
   * its own unit and `slavePDU` asked for a reply; it then transmits the
   * response framed under its own address, exactly as `rawSend` does.
   */
  lemma TaskTransmits(s: State, now: uint32, quiet: bool, allocOk: bool, pduReply: byte,
                      slaveReply: byte, response: seq<byte>)
    requires PendingWellFormed(s)
    ensures Task(s, now, quiet, allocOk, pduReply, slaveReply, response).tx ==
      if Reads(s, now, quiet) && Replies(Observe(s, now), allocOk, slaveReply)
      then s.tx + EncodeFrame(s.trans.slaveId, response, U8(|response|))
      else s.tx
  {
    if Reads(s, now, quiet) {
      ReadFrameTransmits(Observe(s, now), now, allocOk, pduReply, slaveReply, response);
    }
  }

  /** A master never transmits from `task`: replies are the slave's business. */
  lemma MasterNeverTransmits(s: State, now: uint32, quiet: bool, allocOk: bool, pduReply: byte,
                             slaveReply: byte, response: seq<byte>)
    requires PendingWellFormed(s) && s.isMaster
    ensures Task(s, now, quiet, allocOk, pduReply, slaveReply, response).tx == s.tx
  {
    TaskTransmits(s, now, quiet, allocOk, pduReply, slaveReply, response);
  }

  /** A slave never answers a frame sent to the broadcast address. */
  lemma SlaveSilentOnBroadcast(s: State, now: uint32, quiet: bool, allocOk: bool, pduReply: byte,
                               slaveReply: byte, response: seq<byte>)
    requires PendingWellFormed(s) && !s.isMaster && Head(s.rx) == Broadcast
    ensures Task(s, now, quiet, allocOk, pduReply, slaveReply, response).tx == s.tx
  {
    TaskTransmits(s, now, quiet, allocOk, pduReply, slaveReply, response);
  }

  /**
   * What `task` does to the outstanding request and the callbacks: a reply
   * that answers it completes it and reports `masterPDU`'s result; any other
   * frame read leaves it to `cleanup`; a master still waiting for silence
   * touches neither.
   */
  lemma TaskReports(s: State, now: uint32, quiet: bool, allocOk: bool, pduReply: byte,
                    slaveReply: byte, response: seq<byte>)
    requires PendingWellFormed(s)
    ensures var s' := Task(s, now, quiet, allocOk, pduReply, slaveReply, response);
      if Reads(s, now, quiet) && Answers(Observe(s, now), allocOk) then Completed(s, s', pduReply)
      else if Observe(s, now).len > 0 && !Reads(s, now, quiet) then SamePending(s, s') && s'.events == s.events
      else SamePending(Finish(s, now), s') && s'.events == Finish(s, now).events
  {
    if Reads(s, now, quiet) {
      ReadFrameReports(Observe(s, now), now, allocOk, pduReply, slaveReply, response);
    }
  }

  /** One `task` calls at most one callback, and the record of earlier calls is kept. */
  lemma TaskReportsAtMostOnce(s: State, now: uint32, quiet: bool, allocOk: bool, pduReply: byte,
                              slaveReply: byte, response: seq<byte>)
    requires PendingWellFormed(s)
    ensures var s' := Task(s, now, quiet, allocOk, pduReply, slaveReply, response);
      |s.events| <= |s'.events| <= |s.events| + 1 && s'.events[..|s.events|] == s.events
  {
    TaskReports(s, now, quiet, allocOk, pduReply, slaveReply, response);
    CleanupOutcome(s, now);
  }

  /**
   * A reply whose function code differs from the request's is dropped but the
   * request stays outstanding, for `cleanup` to time out later.
   */
  lemma MismatchKeepsPending(s: State, now: uint32, pduReply: byte,
                             slaveReply: byte, response: seq<byte>)
    requires PendingWellFormed(s) && s.isMaster && Reads(s, now, true) && !TimedOut(s, now)
    requires Delivered(Observe(s, now), true)
    requires !FunctionCodeMatches(Body(Observe(s, now)), s.trans.sentFrame.value)
    ensures var s' := Task(s, now, true, true, pduReply, slaveReply, response);
      SamePending(s, s') && s'.events == s.events && s'.rx == Drop(s.rx, Observe(s, now).len)
  {
    TaskReports(s, now, true, true, pduReply, slaveReply, response);
    TaskConsumesObserved(s, now, true, true, pduReply, slaveReply, response);
  }

  /** A whole frame in the queue is read as its address and a body that passes the check. */
  lemma FrameArrives(s: State, now: uint32, pdu: seq<byte>)
    requires s.rx == EncodeFrame(Head(s.rx), pdu, |pdu|) && s.len <= |s.rx|
    ensures var o := Observe(s, now);
      o.len == |s.rx| && Drop(s.rx, o.len) == [] && Body(o) == s.rx[1..]
      && CheckBody(Head(s.rx), Body(o)) == Intact(pdu)
  {
    var body := s.rx[1..];
    EncodeThenCheck(Head(s.rx), pdu, |pdu|);
    assert pdu[..|pdu|] == pdu;
    TakeFrame(body, []);
    assert body + [] == body;
  }

  /**
   * The round trip from `rawSend` to `task`: when a master waiting on unit `a`
   * finds, after the silence, exactly the frame `rawSend(a, pdu, |pdu|)`
   * writes, and the PDU answers its request, `task` reads it all, calls the
   * callback once with the result `masterPDU` left, and drops the request.
   */
  lemma ReplyCompletesRequest(s: State, now: uint32, pdu: seq<byte>, pduReply: byte,
                              slaveReply: byte, response: seq<byte>)
    requires PendingWellFormed(s) && s.isMaster && s.trans.slaveId != 0
    requires |pdu| > 0 && pdu[0] & 0x7F == s.trans.sentFrame.value[0]
    requires s.rx == EncodeFrame(s.trans.slaveId, pdu, |pdu|) && s.len <= |s.rx|
    requires Elapsed(now, Observe(s, now).t) >= s.t35
    ensures var s' := Task(s, now, true, true, pduReply, slaveReply, response);
      s'.rx == [] && s'.tx == s.tx && Completed(s, s', pduReply)
  {
    var o := Observe(s, now);
    FrameArrives(s, now, pdu);
    assert Body(o)[0] == pdu[0];
    assert Reads(s, now, true) && Answers(o, true);
    TaskReports(s, now, true, true, pduReply, slaveReply, response);
    TaskConsumesObserved(s, now, true, true, pduReply, slaveReply, response);
    MasterNeverTransmits(s, now, true, true, pduReply, slaveReply, response);
  }

  /**
   * The round trip seen from the slave: a request `rawSend` framed for this
   * slave's own unit, found whole after the silence, is answered with the
   * response `slavePDU` left, framed under the slave's address.
   */
  lemma RequestIsAnswered(s: State, now: uint32, pdu: seq<byte>, pduReply: byte,
                          slaveReply: byte, response: seq<byte>)
    requires PendingWellFormed(s) && !s.isMaster && s.trans.slaveId != Broadcast
    requires s.rx == EncodeFrame(s.trans.slaveId, pdu, |pdu|) && s.len <= |s.rx|
    requires slaveReply != ReplyOff
    ensures var s' := Task(s, now, true, true, pduReply, slaveReply, response);
      s'.rx == [] && s'.tx == s.tx + EncodeFrame(s.trans.slaveId, response, U8(|response|))
  {
    FrameArrives(s, now, pdu);
    TaskTransmits(s, now, true, true, pduReply, slaveReply, response);
    TaskConsumesObserved(s, now, true, true, pduReply, slaveReply, response);
  }
}
