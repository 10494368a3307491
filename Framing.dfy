// An RTU frame on the wire: the address byte, the PDU, and the CRC, the CRC's
// `crc >> 8` byte first. `rawSend` produces it; `task` checks it.
// Line numbers in the comments are those of src/ModbusRTU.cpp.

module Framing {
  import opened Common
  import opened Crc16

  /** The 16-bit value `(hi << 8) | lo` that `task` rebuilds from two received bytes. */
  function Join(hi: byte, lo: byte): (v: bv16)
    ensures HighByte(v) == hi && LowByte(v) == lo
  {
    (hi as bv16 << 8) | lo as bv16
  }

  /** Splitting a value into its two bytes and joining them gives it back. */
  lemma JoinSplit(v: bv16)
    ensures Join(HighByte(v), LowByte(v)) == v
  {
  }

  /** The two check bytes `rawSend` writes after the PDU: `crc >> 8`, then `crc & 0xFF`. */
  function CheckBytes(address: byte, frame: seq<byte>, len: nat): (c: seq<byte>)
    requires len <= |frame|
    ensures |c| == 2 && Join(c[0], c[1]) == Crc(address, frame, len)
  {
    var crc := Crc(address, frame, len);
    JoinSplit(crc);
    [HighByte(crc), LowByte(crc)]
  }

  /**
   * Everything `rawSend(address, frame, len)` writes to the port, in order:
   * the address, the first `len` bytes of `frame`, and the check bytes.
   */
  function EncodeFrame(address: byte, frame: seq<byte>, len: nat): (wire: seq<byte>)
    requires len <= |frame|
    ensures |wire| == len + 3 && wire[0] == address
  {
    [address] + frame[..len] + CheckBytes(address, frame, len)
  }

  /** What `task` makes of the bytes that follow the address byte of a frame. */
  datatype Verdict =
    | TooShort          // fewer than the two check bytes
    | BadCrc            // the check bytes disagree with the CRC of the rest
    | Intact(pdu: seq<byte>)

  /**
   * The check of lines 174-176, on the `body` that follows `address`: its last
   * two bytes, high byte first, must equal the CRC of the address and the
   * bytes before them. A body shorter than two bytes has no check bytes.
   */
  function CheckBody(address: byte, body: seq<byte>): (v: Verdict)
    ensures v.TooShort? <==> |body| < 2
    ensures v.Intact? ==> |v.pdu| == |body| - 2 && v.pdu == body[..|body| - 2]
  {
    if |body| < 2 then TooShort
    else
      var n := |body| - 2;
      if Join(body[n], body[n + 1]) == Crc(address, body, n) then Intact(body[..n]) else BadCrc
  }

  /** A frame `rawSend` wrote passes the check of the receiver: nothing else in the PDU is needed. */
  lemma EncodeThenCheck(address: byte, frame: seq<byte>, len: nat)
    requires len <= |frame|
    ensures var wire := EncodeFrame(address, frame, len);
            wire[0] == address && CheckBody(address, wire[1..]) == Intact(frame[..len])
  {
    var wire := EncodeFrame(address, frame, len);
    var body := wire[1..];
    var c := CheckBytes(address, frame, len);
    assert body == frame[..len] + c;
    assert body[..len] == frame[..len];
    assert body[len] == c[0] && body[len + 1] == c[1];
    CrcReadsOnlyPrefix(address, body, frame, len);
  }

  /** Conversely, a body that passes the check is exactly a PDU followed by its check bytes. */
  lemma CheckThenEncode(address: byte, body: seq<byte>)
    requires CheckBody(address, body).Intact?
    ensures var pdu := CheckBody(address, body).pdu;
            [address] + body == EncodeFrame(address, pdu, |pdu|)
  {
    var n := |body| - 2;
    var pdu := body[..n];
    var c := CheckBytes(address, pdu, n);
    assert pdu[..n] == pdu;
    CrcReadsOnlyPrefix(address, body, pdu, n);
    assert Join(body[n], body[n + 1]) == Join(c[0], c[1]);
    assert body[n] == HighByte(Join(body[n], body[n + 1]));
    assert body == pdu + [body[n], body[n + 1]];
  }

  /** The only two bytes that make a PDU pass the check are its own check bytes. */
  lemma CheckBytesUnique(address: byte, pdu: seq<byte>, c: seq<byte>)
    requires |c| == 2 && CheckBody(address, pdu + c).Intact?
    ensures c == CheckBytes(address, pdu, |pdu|)
  {
    var body := pdu + c;
    assert body[..|pdu|] == pdu;
    CheckThenEncode(address, body);
    var wire := EncodeFrame(address, pdu, |pdu|);
    assert wire[1 + |pdu|..] == CheckBytes(address, pdu, |pdu|);
    assert ([address] + body)[1 + |pdu|..] == c;
  }

  /** A PDU followed by any two bytes other than its own check bytes is refused. */
  lemma AlteredCheckBytesRefused(address: byte, pdu: seq<byte>, c: seq<byte>)
    requires |c| == 2 && c != CheckBytes(address, pdu, |pdu|)
    ensures CheckBody(address, pdu + c) == BadCrc
  {
    if CheckBody(address, pdu + c).Intact? {
      CheckBytesUnique(address, pdu, c);
      assert false;
    }
  }

  /**
   * A PDU with one byte corrupted in transit, followed by the check bytes of the
   * PDU that was sent, is refused.
   */
  lemma CorruptedPduRefused(address: byte, sent: seq<byte>, received: seq<byte>, i: nat)
    requires |received| == |sent| && i < |sent| && received[i] != sent[i]
    requires forall j :: 0 <= j < |sent| && j != i ==> received[j] == sent[j]
    ensures CheckBody(address, received + CheckBytes(address, sent, |sent|)) == BadCrc
  {
    var c := CheckBytes(address, sent, |sent|);
    if CheckBody(address, received + c).Intact? {
      CheckBytesUnique(address, received, c);
      var d := CheckBytes(address, received, |received|);
      assert Join(c[0], c[1]) == Join(d[0], d[1]);
      ByteErrorDetected(address, sent, received, i);
      assert false;
    }
  }

  // ----- The check as written, with no length guard -----

  /**
   * The index line 174 reads the high check byte from, as written: `_len - 2`,
   * where `_len` counts the bytes after the address. Nothing before it
   * ensures `_len >= 2`.
   */
  function TrailerIndexAsWritten(bodyLen: uint8): (i: int)
    ensures i < 0 <==> bodyLen < 2
  {
    bodyLen as int - 2
  }

  /**
   * The PDU length as written: what line 175 leaves in `_len`, as seen by the
   * `uint8_t pduLen` that line 176 passes it to `crc16` as.
   */
  function PduLenAsWritten(bodyLen: uint8): (n: uint8)
    ensures bodyLen >= 2 ==> n == bodyLen - 2
    ensures bodyLen < 2 ==> n == bodyLen + 254
  {
    U8(bodyLen + 254)
  }

  /**
   * A frame of the address byte alone reaches line 174 (only an empty port is
   * turned away, at line 118): its check bytes are read from before the start
   * of the zero-byte buffer, and the CRC is then computed over 254 bytes of it.
   */
  lemma LoneAddressOverruns()
    ensures TrailerIndexAsWritten(0) == -2
    ensures PduLenAsWritten(0) == 254
    ensures CheckBody(0x01, []) == TooShort
  {
  }
}
