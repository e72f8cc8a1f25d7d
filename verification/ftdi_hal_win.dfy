/** The Windows build of the FTDI transport. It shares the framing and the
    frame dispatch of the Linux build but differs in three ways: a read
    processes only the bytes the driver reported queued at entry, and a
    failed single-byte read abandons the frame in progress; a write never
    consumes the advertised capacity and sends a Buffer Status Query every
    time there is not enough of it; and an open that fails part-way leaves
    the transport marked open. The Windows transport keeps no query time, so
    `lastBsqTime` is carried along untouched. */
module FtdiHalWin {
  import opened Common
  import opened Rfc1662
  import opened FtdiHal

  /** Result of a read: new state, return value, bytes for the caller,
      frame-start time if reported, and how many of the bytes counted at
      entry were left unread in the driver. */
  datatype WinReadResult = WinReadResult(hal: Hal, retval: int, delivered: seq<byte>,
                                         timestamp: Option<uint32>, unread: nat)

  /** ftdi_hal_read. `input` has one entry per byte the driver reported
      queued at entry: `Some` for a byte read (with the clock at that moment),
      `None` for a failed read. */
  function ReadWin(h: Hal, input: seq<Option<RxByte>>, len: nat): (r: WinReadResult)
    requires Valid(h)
    ensures Valid(r.hal) && |r.hal.rx.frame| == |h.rx.frame|
    ensures r.hal.isOpen == h.isOpen && r.hal.lastBsqTime == h.lastBsqTime
    ensures r.retval >= 0 && r.unread < |input| + (if r.retval == 0 then 1 else 0)
    ensures r.retval == 0 ==> r.delivered == [] && r.timestamp == None && r.unread == 0
    ensures r.retval > 0 ==> && r.retval == 1 + |r.delivered| && r.retval <= len
                             && r.retval <= |h.rx.frame| && r.timestamp.Some?
    // a failed read abandons any frame in progress
    ensures |input| > 0 && input[0].None? ==> r == ReadWin(h.(rx := Reset(h.rx)), input[1..], len)
    decreases |input|
  {
    if |input| == 0 then WinReadResult(h, 0, [], None, 0)
    else if input[0].None? then ReadWin(h.(rx := Reset(h.rx)), input[1..], len)
    else
      var d := Decode(h.rx, input[0].value.value, input[0].value.clock);
      if !d.ready then ReadWin(h.(rx := d), input[1..], len)
      else
        match Dispose(d, len)
        case Bsn(n) => ReadWin(h.(lastBsn := n, rx := Reset(d)), input[1..], len)
        case Discard => ReadWin(h.(rx := Reset(d)), input[1..], len)
        case Deliver =>
          WinReadResult(h.(rx := Reset(d)), d.frameLen, d.frame[1..d.frameLen], Some(d.startTime), |input| - 1)
  }

  /** Every byte read successfully. */
  function AllRead(s: seq<RxByte>): (r: seq<Option<RxByte>>)
    ensures |r| == |s| && forall i :: 0 <= i < |s| ==> r[i] == Some(s[i])
  {
    seq(|s|, i requires 0 <= i < |s| => Some(s[i]))
  }

  /** When no single-byte read fails, the Windows read dispatches exactly as
      the Linux read does on the same bytes, and leaves unread exactly the
      bytes the Linux read leaves in the port. */
  lemma {:induction false} ReadWinAgrees(h: Hal, s: seq<RxByte>, len: nat)
    requires Valid(h)
    ensures var w := ReadWin(h, AllRead(s), len);
      var l := Read(h, s, len);
      && w.hal == l.hal && w.retval == l.retval && w.delivered == l.delivered
      && w.timestamp == l.timestamp && w.unread == |l.rest|
    decreases |s|
  {
    if |s| > 0 {
      assert AllRead(s)[1..] == AllRead(s[1..]);
      var d := Decode(h.rx, s[0].value, s[0].clock);
      if !d.ready {
        ReadWinAgrees(h.(rx := d), s[1..], len);
      } else {
        match Dispose(d, len)
        case Bsn(n) => ReadWinAgrees(h.(lastBsn := n, rx := Reset(d)), s[1..], len);
        case Discard => ReadWinAgrees(h.(rx := Reset(d)), s[1..], len);
        case Deliver =>
      }
    }
  }

  /** A failed read while a frame is arriving loses that frame: the DATA
      frame whose opening flag and first byte were read is not delivered when
      the next read fails, and the bytes after the failure are decoded from
      outside a frame. */
  lemma InterruptedFrameLost(h: Hal, b: byte, t: uint32, s: seq<Option<RxByte>>, len: nat)
    requires Valid(h) && h.rx.rxState == OutsideFrame && b != FLAG && b != ESCAPE
    ensures var d := Decode(Decode(h.rx, FLAG, t), b, t);
      ReadWin(h, [Some(RxByte(FLAG, t)), Some(RxByte(b, t)), None] + s, len)
        == ReadWin(h.(rx := Reset(d)), s, len)
  {
    var input := [Some(RxByte(FLAG, t)), Some(RxByte(b, t)), None] + s;
    assert input[1..] == [Some(RxByte(b, t)), None] + s;
    assert input[1..][1..] == [None] + s;
    assert input[1..][1..][1..] == s;
  }

  /** ftdi_hal_write of the Windows build. */
  function WriteWin(h: Hal, p: seq<byte>, failAt: Option<nat>): (r: WriteResult)
    // the state is never changed, in particular the capacity is not consumed
    ensures r.hal == h
    ensures |Frame(p)| > WRITE_BUF_LEN ==> r.retval == SH2_ERR_BAD_PARAM && r.wire == []
    ensures |Frame(p)| <= WRITE_BUF_LEN && h.lastBsn >= |Frame(p)| ==>
              && r.wire <= Frame(p)
              && (r.wire == Frame(p) <==> r.retval == |p|)
              && (r.retval != |p| ==> r.retval == SH2_ERR_IO)
    // not enough room: a query goes out on every call
    ensures |Frame(p)| <= WRITE_BUF_LEN && h.lastBsn < |Frame(p)| ==>
              && r.wire <= BSQ
              && (r.wire == BSQ <==> r.retval == 0)
              && (r.retval != 0 ==> r.retval == SH2_ERR_IO)
  {
    var frame := Frame(p);
    if |frame| > WRITE_BUF_LEN then WriteResult(h, SH2_ERR_BAD_PARAM, [])
    else if h.lastBsn >= |frame| then
      var (ok, wire) := PutBytes(frame, failAt);
      WriteResult(h, if ok then |p| else SH2_ERR_IO, wire)
    else
      var (ok, wire) := PutBytes(BSQ, failAt);
      WriteResult(h, if ok then 0 else SH2_ERR_IO, wire)
  }

  /** The two builds agree on a transport that has never sent a query (or
      whose last query went out at clock zero): same return value, same bytes
      on the wire. They differ only in what they remember. */
  lemma WriteWinAgrees(h: Hal, p: seq<byte>, now: uint32, failAt: Option<nat>)
    requires h.lastBsqTime == 0
    ensures WriteWin(h, p, failAt).retval == Write(h, p, now, failAt).retval
    ensures WriteWin(h, p, failAt).wire == Write(h, p, now, failAt).wire
  {
  }

  /** The Linux build uses up the advertisement: right after a frame went out,
      a second non-empty payload is not sent until the device advertises
      again. The Windows build keeps the advertisement, so the same second
      write is sent at once. */
  lemma CapacityConsumedOnlyOnLinux(h: Hal, p: seq<byte>, q: seq<byte>, now: uint32, later: uint32)
    requires |Frame(p)| <= WRITE_BUF_LEN && h.lastBsn >= |Frame(p)|
    requires |Frame(q)| <= |Frame(p)|
    ensures Write(Write(h, p, now, None).hal, q, later, None).retval == 0
    ensures WriteWin(WriteWin(h, p, None).hal, q, None).retval == |q|
  {
    FrameLength(p);
    FrameLength(q);
  }

  /** A failure while opening, in the order the driver calls are made. */
  datatype OpenFailure = NoDevice | BadBaudRate | BadDataCharacteristics | BadLatencyTimer | BadTimeouts

  /** ftdi_hal_open of the Windows build. `t0` is the clock reading taken
      after the de-framer reset. */
  function OpenWin(h: Hal, t0: uint32, failure: Option<OpenFailure>): (r: (Hal, int))
    ensures h.isOpen ==> r == (h, SH2_ERR)
    // once past the first check, the transport is marked open whatever happens next
    ensures !h.isOpen ==> && r.0.isOpen && r.0.lastBsn == 0
                          && r.0.rx == Reset(h.rx).(startTime := t0)
                          && (r.1 == SH2_OK <==> failure.None?)
    ensures !h.isOpen && failure.Some? ==>
              r.1 == (if failure.value in {NoDevice, BadBaudRate} then SH2_ERR_BAD_PARAM else SH2_ERR_IO)
  {
    if h.isOpen then (h, SH2_ERR)
    else
      var h1 := h.(isOpen := true, rx := Reset(h.rx).(startTime := t0), lastBsn := 0);
      match failure
      case None => (h1, SH2_OK)
      case Some(NoDevice) => (h1, SH2_ERR_BAD_PARAM)
      case Some(BadBaudRate) => (h1, SH2_ERR_BAD_PARAM)
      case Some(_) => (h1, SH2_ERR_IO)
  }

  /** Unlike the Linux build, a failed open cannot simply be retried: the
      transport stays marked open, so the next open is refused until the
      transport is closed. */
  lemma FailedOpenBlocksRetry(h: Hal, t0: uint32, t1: uint32, f: OpenFailure, g: Option<OpenFailure>)
    requires !h.isOpen
    ensures OpenWin(h, t0, Some(f)).1 < 0
    ensures OpenWin(OpenWin(h, t0, Some(f)).0, t1, g).1 == SH2_ERR
    ensures OpenWin(Close(OpenWin(h, t0, Some(f)).0), t1, None).1 == SH2_OK
  {
  }
}
