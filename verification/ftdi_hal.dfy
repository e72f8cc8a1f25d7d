/** The channelized FTDI transport of the Linux build: frame dispatch on read
    (Buffer Status Notifications are consumed, DATA frames delivered or
    discarded), and the flow-controlled write that only sends a frame the
    device has advertised room for, otherwise sending a rate-limited Buffer
    Status Query. The serial port is an oracle: the bytes it has to offer, and
    the index of the first byte write that fails with a hard I/O error. */
module FtdiHal {
  import opened Common
  import opened Rfc1662

  /** Size of the on-stack encode buffer of the write path. */
  const WRITE_BUF_LEN: nat := 1024
  /** Minimum spacing of Buffer Status Queries, in microseconds. */
  const INTER_BSQ_DELAY_US: nat := 10000

  /** The transport's mutable state. `rx.frame` is the receive buffer, whose
      length is the library's maximum inbound payload. */
  datatype Hal = Hal(isOpen: bool, lastBsn: uint16, rx: Decoder, lastBsqTime: uint32)

  /** Between calls: the receive buffer holds at least a protocol id and a
      16-bit count, and no completed frame is left pending (every completed
      frame is dispatched and the decoder reset before the read returns). */
  predicate Valid(h: Hal) {
    |h.rx.frame| >= 3 && !h.rx.ready
  }

  datatype ReadResult = ReadResult(hal: Hal, retval: int, delivered: seq<byte>,
                                   timestamp: Option<uint32>, rest: seq<RxByte>)

  /** What the dispatcher does with a completed frame. */
  datatype Disposition = Bsn(count: uint16) | Discard | Deliver

  function Dispose(d: Decoder, len: nat): (r: Disposition)
    requires |d.frame| >= 3
    ensures r.Bsn? <==> d.frameLen > 0 && d.frame[0] == PROTOCOL_CONTROL
    ensures r.Bsn? ==> r.count == Val(d.frame[1]) + 256 * Val(d.frame[2])
    ensures r.Deliver? <==> (&& !(d.frameLen > 0 && d.frame[0] == PROTOCOL_CONTROL)
                             && d.frameLen <= |d.frame| && d.frameLen <= len)
  {
    if d.frameLen > 0 && d.frame[0] == PROTOCOL_CONTROL then Bsn(LittleEndian16(d.frame[1], d.frame[2]))
    else if d.frameLen > |d.frame| then Discard
    else if d.frameLen > len then Discard
    else Deliver
  }

  /** ftdi_hal_read: pull bytes while the port has them, decoding each; stop at
      the first deliverable DATA frame. `len` is the caller's buffer size. The
      result holds the new state, the return value, the bytes copied to the
      caller (the frame without its protocol id), the frame-start timestamp
      if one was reported, and the bytes the port still holds. */
  function Read(h: Hal, input: seq<RxByte>, len: nat): (r: ReadResult)
    requires Valid(h)
    ensures Valid(r.hal) && |r.hal.rx.frame| == |h.rx.frame|
    ensures r.hal.isOpen == h.isOpen && r.hal.lastBsqTime == h.lastBsqTime
    ensures r.retval >= 0
    ensures r.retval == 0 ==> r.delivered == [] && r.timestamp == None && r.rest == []
    ensures r.retval > 0 ==> && r.retval == 1 + |r.delivered| && r.retval <= len
                             && r.retval <= |h.rx.frame| && r.timestamp.Some?
    ensures |r.rest| < |input| || (r.rest == input && input == [])
    decreases |input|
  {
    if |input| == 0 then ReadResult(h, 0, [], None, [])
    else
      var d := Decode(h.rx, input[0].value, input[0].clock);
      if !d.ready then Read(h.(rx := d), input[1..], len)
      else
        match Dispose(d, len)
        case Bsn(n) => Read(h.(lastBsn := n, rx := Reset(d)), input[1..], len)
        case Discard => Read(h.(rx := Reset(d)), input[1..], len)
        case Deliver =>
          ReadResult(h.(rx := Reset(d)), d.frameLen, d.frame[1..d.frameLen], Some(d.startTime), input[1..])
  }

  /** Write result: new state, return value, and the bytes put on the wire. */
  datatype WriteResult = WriteResult(hal: Hal, retval: int, wire: seq<byte>)

  /** Send `bytes` one at a time; `failAt` is the index of the first byte
      whose write fails with a hard error (retries on EAGAIN are invisible). */
  function PutBytes(bytes: seq<byte>, failAt: Option<nat>): (r: (bool, seq<byte>))
    ensures r.0 ==> r.1 == bytes
    ensures !r.0 ==> failAt.Some? && failAt.value < |bytes| && r.1 == bytes[..failAt.value]
  {
    if failAt.Some? && failAt.value < |bytes| then (false, bytes[..failAt.value]) else (true, bytes)
  }

  /** ftdi_hal_write at clock `now`. */
  function Write(h: Hal, p: seq<byte>, now: uint32, failAt: Option<nat>): (r: WriteResult)
    // an encoding that overflows the write buffer is refused before any I/O
    ensures |Frame(p)| > WRITE_BUF_LEN ==> r == WriteResult(h, SH2_ERR_BAD_PARAM, [])
    // enough advertised room: the frame goes out and the advertisement is used up
    ensures |Frame(p)| <= WRITE_BUF_LEN && h.lastBsn >= |Frame(p)| ==>
              && r.hal == h.(lastBsn := 0, lastBsqTime := 0)
              && r.wire <= Frame(p)
              && (r.wire == Frame(p) <==> r.retval == |p|)
              && (r.retval != |p| ==> r.retval == SH2_ERR_IO)
    // not enough room: no payload byte is written and nothing is reported sent
    ensures h.lastBsn < |Frame(p)| ==> r.retval <= 0 && (r.wire <= BSQ)
    // a query goes out only when none was sent before or the last is over 10 ms old
    ensures |Frame(p)| <= WRITE_BUF_LEN && h.lastBsn < |Frame(p)| ==>
              if h.lastBsqTime == 0 || Elapsed32(now, h.lastBsqTime) > INTER_BSQ_DELAY_US
              then r.hal == h.(lastBsqTime := now) && (r.wire == BSQ <==> r.retval == 0)
              else r == WriteResult(h, 0, [])
    ensures r.hal.isOpen == h.isOpen && r.hal.rx == h.rx
  {
    var frame := Frame(p);
    if |frame| > WRITE_BUF_LEN then WriteResult(h, SH2_ERR_BAD_PARAM, [])
    else if h.lastBsn >= |frame| then
      var h' := h.(lastBsn := 0, lastBsqTime := 0);
      var (ok, wire) := PutBytes(frame, failAt);
      WriteResult(h', if ok then |p| else SH2_ERR_IO, wire)
    else if h.lastBsqTime == 0 || Elapsed32(now, h.lastBsqTime) > INTER_BSQ_DELAY_US then
      var h' := h.(lastBsqTime := now);
      var (ok, wire) := PutBytes(BSQ, failAt);
      WriteResult(h', if ok then 0 else SH2_ERR_IO, wire)
    else WriteResult(h, 0, [])
  }

  /** ftdi_hal_open: `t0` and `t1` are the clock readings before and after the
      reset pulse; `portOk` says whether the serial device could be opened
      and configured. */
  function Open(h: Hal, t0: uint32, t1: uint32, portOk: bool): (r: (Hal, int))
    ensures h.isOpen ==> r == (h, SH2_ERR)
    ensures !h.isOpen ==> && r.0.lastBsn == 0 && r.0.rx == Reset(h.rx).(startTime := t0)
                          && (r.1 == SH2_OK <==> portOk) && (r.0.isOpen <==> portOk)
                          && (portOk ==> r.0.lastBsqTime == t1)
                          && (!portOk ==> r.1 == SH2_ERR_IO)
  {
    if h.isOpen then (h, SH2_ERR)
    else
      var h1 := h.(isOpen := true, rx := Reset(h.rx).(startTime := t0), lastBsn := 0);
      if !portOk then (h1.(isOpen := false), SH2_ERR_IO)
      else (h1.(lastBsqTime := t1), SH2_OK)
  }

  /** ftdi_hal_close. */
  function Close(h: Hal): (r: Hal)
    ensures !r.isOpen && r.rx == h.rx && r.lastBsn == h.lastBsn
  {
    h.(isOpen := false)
  }

  // ---------------------------------------------------------------------
  // Properties of read and write

  /** Bytes that complete no frame are simply absorbed by the decoder. */
  lemma {:induction false} ReadQuiet(h: Hal, s: seq<RxByte>, rest: seq<RxByte>, len: nat)
    requires Valid(h) && Quiet(h.rx, s)
    ensures Valid(h.(rx := DecodeAll(h.rx, s)))
    ensures Read(h, s + rest, len) == Read(h.(rx := DecodeAll(h.rx, s)), rest, len)
    decreases |s|
  {
    if |s| > 0 {
      assert (s + rest)[0] == s[0];
      assert (s + rest)[1..] == s[1..] + rest;
      var d := Decode(h.rx, s[0].value, s[0].clock);
      ReadQuiet(h.(rx := d), s[1..], rest, len);
    } else {
      assert s + rest == rest;
    }
  }

  /** One whole frame with a non-empty body arriving from outside a frame:
      a CONTROL frame updates the advertised capacity from its two count bytes
      (least significant first) and is not delivered; a DATA frame too long for
      the receive buffer or for the caller is dropped; any other frame is
      delivered without its protocol id, with the clock of its opening flag,
      and the read returns its length. Dropped and consumed frames leave the
      read to carry on with the bytes that follow. */
  lemma ReadWire(h: Hal, body: seq<byte>, t: uint32, rest: seq<RxByte>, len: nat)
    requires Valid(h) && h.rx.rxState == OutsideFrame && |body| >= 1
    ensures var d := DecodeAll(h.rx, Timed(Wire(body), t));
      var r := Read(h, Timed(Wire(body), t) + rest, len);
      && (body[0] == PROTOCOL_CONTROL && 3 <= |body| <= |h.rx.frame| ==>
            r == Read(h.(lastBsn := LittleEndian16(body[1], body[2]), rx := Reset(d)), rest, len))
      && (body[0] != PROTOCOL_CONTROL && (|body| > |h.rx.frame| || |body| > len) ==>
            r == Read(h.(rx := Reset(d)), rest, len))
      && (body[0] != PROTOCOL_CONTROL && |body| <= |h.rx.frame| && |body| <= len ==>
            && r.retval == |body| && r.delivered == body[1..] && r.timestamp == Some(t)
            && r.rest == rest && r.hal == h.(rx := Reset(d)))
  {
    var w := Wire(body);
    var pre := Timed(w[..|w| - 1], t);
    DecodeWire(h.rx, body, t);
    assert Timed(w, t) == pre + [RxByte(FLAG, t)];
    assert Timed(w, t) + rest == pre + ([RxByte(FLAG, t)] + rest);
    ReadQuiet(h, pre, [RxByte(FLAG, t)] + rest, len);
    var h1 := h.(rx := DecodeAll(h.rx, pre));
    DecodeAllAppend(h.rx, pre, [RxByte(FLAG, t)]);
    assert DecodeAll(h1.rx, [RxByte(FLAG, t)]) == Decode(h1.rx, FLAG, t);
    assert ([RxByte(FLAG, t)] + rest)[1..] == rest;
    if |body| <= |h.rx.frame| {
      var d := DecodeAll(h.rx, Timed(w, t));
      assert d.frame[..d.frameLen] == body;
      if |body| >= 3 {
        assert d.frame[..d.frameLen][1] == body[1];
        assert d.frame[..d.frameLen][2] == body[2];
      }
      assert d.frame[1..d.frameLen] == body[1..];
    }
  }

  /** Host round trip: the DATA frame for a payload the caller can receive,
      arriving from outside a frame, is delivered whole by a single read. */
  lemma ReadDeliversFrame(h: Hal, p: seq<byte>, t: uint32, rest: seq<RxByte>, len: nat)
    requires Valid(h) && h.rx.rxState == OutsideFrame
    requires 1 + |p| <= |h.rx.frame| && 1 + |p| <= len
    ensures var r := Read(h, Timed(Frame(p), t) + rest, len);
      && r.retval == 1 + |p| && r.delivered == p && r.timestamp == Some(t)
      && r.rest == rest && r.hal.lastBsn == h.lastBsn && r.hal.rx.rxState == OutsideFrame
  {
    FrameIsWire(p);
    ReadWire(h, [PROTOCOL_SHTP] + p, t, rest, len);
    assert ([PROTOCOL_SHTP] + p)[1..] == p;
  }

  /** A successful write puts on the wire exactly the frame whose decoding
      from outside a frame yields the protocol id followed by the payload. */
  lemma WriteRoundTrip(h: Hal, p: seq<byte>, now: uint32, d: Decoder, t: uint32)
    requires d.rxState == OutsideFrame && 1 + |p| <= |d.frame|
    requires Write(h, p, now, None).retval > 0
    ensures var w := Write(h, p, now, None).wire;
      var r := DecodeAll(d, Timed(w, t));
      && r.ready && r.frameLen == 1 + |p| && r.frameLen <= |r.frame|
      && r.frame[..r.frameLen] == [PROTOCOL_SHTP] + p
  {
    FrameLength(p);
    RoundTrip(d, p, t);
  }

  /** A run of write calls without intervening reads, each at its own clock
      reading and without I/O failure: returns the final state, the return
      values, and the clock readings at which a Buffer Status Query went out. */
  function WriteMany(h: Hal, calls: seq<(seq<byte>, uint32)>): (r: (Hal, seq<int>, seq<uint32>))
    ensures |r.1| == |calls|
    decreases |calls|
  {
    if |calls| == 0 then (h, [], [])
    else
      var w := Write(h, calls[0].0, calls[0].1, None);
      var tail := WriteMany(w.hal, calls[1..]);
      (tail.0, [w.retval] + tail.1, (if w.wire == BSQ then [calls[0].1] else []) + tail.2)
  }

  /** Query times `ts`, in order, each sent when none had been sent before
      (last time zero) or more than 10 ms after the previous one. */
  predicate Spaced(last: uint32, ts: seq<uint32>)
    decreases |ts|
  {
    |ts| == 0 ||
    ((last == 0 || Elapsed32(ts[0], last) > INTER_BSQ_DELAY_US) && Spaced(ts[0], ts[1..]))
  }

  /** One write without advertised room and without I/O failure. */
  lemma WriteWithoutRoom(h: Hal, p: seq<byte>, now: uint32)
    requires h.lastBsn == 0
    ensures var w := Write(h, p, now, None);
      && w.hal.lastBsn == 0 && w.retval <= 0
      && (w.wire == BSQ ==> && w.hal.lastBsqTime == now
                            && (h.lastBsqTime == 0 || Elapsed32(now, h.lastBsqTime) > INTER_BSQ_DELAY_US))
      && (w.wire != BSQ ==> w.hal.lastBsqTime == h.lastBsqTime)
  {
    FrameLength(p);
  }

  /** Flow control with a device that never advertises room: no payload is
      ever reported sent, the capacity stays zero, successive queries keep the
      10 ms spacing, and the state remembers the time of the last query. */
  lemma {:induction false} NoCapacityNoData(h: Hal, calls: seq<(seq<byte>, uint32)>)
    requires h.lastBsn == 0
    ensures var r := WriteMany(h, calls);
      && r.0.lastBsn == 0
      && (forall i :: 0 <= i < |r.1| ==> r.1[i] <= 0)
      && Spaced(h.lastBsqTime, r.2)
      && r.0.lastBsqTime == (if |r.2| > 0 then r.2[|r.2| - 1] else h.lastBsqTime)
    decreases |calls|
  {
    if |calls| > 0 {
      var p := calls[0].0;
      var now := calls[0].1;
      var w := Write(h, p, now, None);
      WriteWithoutRoom(h, p, now);
      NoCapacityNoData(w.hal, calls[1..]);
      var tail := WriteMany(w.hal, calls[1..]);
      var r := WriteMany(h, calls);
      assert r.1 == [w.retval] + tail.1;
      if w.wire == BSQ {
        assert r.2 == [now] + tail.2;
      } else {
        assert r.2 == tail.2;
      }
    }
  }
}
