/** The lockstep firmware update of the BNO08x bootloader. Every packet the
    host sends carries a CRC-16 and is acknowledged by the device with the
    byte 's'; the host sends the application length, then the packet length,
    then the application in packets, retrying each send up to five times.
    The HAL is an oracle: for each send, for each attempt, the clock at the
    attempt's start and the replies of the successive write and read calls,
    each with the clock reading taken after it. A script that runs out is
    read as the window closing without an answer. */
module BnoDfu {
  import opened Common
  import opened Crc16
  import opened FirmwareImage
  import opened Chunking

  const DFU_MAX_ATTEMPTS: nat := 5
  const DFU_SEND_TIMEOUT_US: nat := 100000
  /** The acknowledgement byte, ASCII 's'. */
  const ACK: byte := 0x73
  /** Largest application packet; the packet buffer holds it and its CRC. */
  const MAX_PACKET_LEN: nat := 64
  /** Shorter applications are taken for a dummy image. */
  const MIN_APP_LEN: nat := 1024

  // ---------------------------------------------------------------------------
  // Packets

  /** `appendCrc`: the packet followed by the CRC-16 of its bytes, most
      significant byte first. */
  function AppendCrc(p: seq<byte>): (r: seq<byte>)
    requires |p| <= MAX_PACKET_LEN
    ensures |r| == |p| + 2 && r[..|p|] == p
    ensures Val(r[|p|]) * 256 + Val(r[|p| + 1]) == CrcOf(p) as int
  {
    var t := BigEndian16(CrcOf(p));
    assert (p + t)[..|p|] == p;
    p + t
  }

  /** Every packet sent passes the receiver's check: the CRC of the whole
      packet, trailer included, is zero. */
  lemma AppendCrcChecks(p: seq<byte>)
    requires |p| <= MAX_PACKET_LEN
    ensures CrcOf(AppendCrc(p)) == 0
  {
    var c := CrcOf(p);
    FoldAppend(CRC16_INIT, p, BigEndian16(c));
    Residue(c);
  }

  /** `sendAppSize`'s packet: the application length, most significant byte
      first, and its CRC. */
  function AppSizePacket(appLen: uint32): (r: seq<byte>)
    ensures |r| == 6 && BigEndian(0, r[..4]) == appLen && CrcOf(r) == 0
  {
    var w := Write32be(appLen);
    AppendCrcChecks(w);
    AppendCrc(w)
  }

  /** `sendPktSize`'s packet: the packet length byte and its CRC. */
  function PktSizePacket(n: byte): (r: seq<byte>)
    ensures |r| == 3 && r[0] == n && CrcOf(r) == 0
  {
    AppendCrcChecks([n]);
    AppendCrc([n])
  }

  /** `sendPkt`'s packet: the application bytes and their CRC. */
  function DataPacket(data: seq<byte>): (r: seq<byte>)
    requires |data| <= MAX_PACKET_LEN
    ensures |r| == |data| + 2 && r[..|data|] == data && CrcOf(r) == 0
  {
    AppendCrcChecks(data);
    AppendCrc(data)
  }

  // ---------------------------------------------------------------------------
  // Sending one packet

  /** One call into the HAL: what write or read returned, the byte read (for
      a read), and the clock reading taken right after the call. */
  datatype Reply = Reply(ret: int, data: byte, now: uint32)

  /** One attempt: the clock at its start, the replies to its successive
      write calls and those to its successive read calls. */
  datatype Attempt = Attempt(start: uint32, onWrite: seq<Reply>, onRead: seq<Reply>)

  /** The end of a retry loop: the last status, the byte of the last call,
      the last clock reading and the number of calls made. */
  datatype Polled = Polled(status: int, data: byte, now: uint32, used: nat)

  /** The attempt's window is still open at clock reading `now`. */
  predicate WindowOpen(now: uint32, start: uint32) {
    Elapsed32(now, start) < DFU_SEND_TIMEOUT_US
  }

  /** A retry loop: call while the last call returned 0 and the window is
      open. */
  function Poll(calls: seq<Reply>, start: uint32, now: uint32): (r: Polled)
    ensures r.used <= |calls|
    // the loop stops at the first non-zero reply...
    ensures r.status != 0 ==> && r.used > 0 && r.status == calls[r.used - 1].ret
                              && r.data == calls[r.used - 1].data && r.now == calls[r.used - 1].now
    ensures forall j :: 0 <= j < r.used - 1 ==> calls[j].ret == 0
    // ...or with nothing but zeros once the window has closed
    ensures r.status == 0 ==> forall j :: 0 <= j < r.used ==> calls[j].ret == 0
    ensures r.status == 0 ==> r.used == |calls| || !WindowOpen(r.now, start)
    ensures r.used == 0 ==> r.now == now
    ensures r.used > 0 ==> r.now == calls[r.used - 1].now
    // every call is made inside the window
    ensures r.used > 0 ==> WindowOpen(now, start)
    ensures forall j :: 0 <= j < r.used - 1 ==> WindowOpen(calls[j].now, start)
    decreases |calls|
  {
    if !WindowOpen(now, start) || |calls| == 0 then Polled(0, 0, now, 0)
    else if calls[0].ret != 0 then Polled(calls[0].ret, calls[0].data, calls[0].now, 1)
    else
      var rest := calls[1..];
      var r := Poll(rest, start, calls[0].now);
      assert forall j :: 0 < j <= r.used ==> calls[j] == rest[j - 1];
      r.(used := r.used + 1)
  }

  /** A retry loop that ended on zero timed out. */
  function Settle(status: int): (r: int)
    ensures status != 0 ==> r == status
    ensures status == 0 ==> r == SH2_ERR_TIMEOUT
  {
    if status == 0 then SH2_ERR_TIMEOUT else status
  }

  /** One attempt of `dfuSend`: write the packet, then read one byte, both
      within one window from the attempt's start. */
  function Try(a: Attempt): (r: int)
    ensures r == SH2_OK || r < 0
  {
    var w := Poll(a.onWrite, a.start, a.start);
    var ws := Settle(w.status);
    if ws <= 0 then ws
    else
      var rd := Poll(a.onRead, a.start, w.now);
      var rs := Settle(rd.status);
      if rs <= 0 then rs
      else if rd.data == ACK then SH2_OK
      else SH2_ERR_HUB
  }

  /** An attempt succeeds exactly when a write was accepted and the byte read
      back is the acknowledgement; a write error or timeout is the attempt's
      result without any read; any other byte is a hub error. */
  lemma TrySpec(a: Attempt)
    ensures var w := Poll(a.onWrite, a.start, a.start);
            && (w.status <= 0 ==> Try(a) == Settle(w.status))
            && (w.status > 0 ==>
                  var rd := Poll(a.onRead, a.start, w.now);
                  && (rd.status <= 0 ==> Try(a) == Settle(rd.status))
                  && (rd.status > 0 ==> (Try(a) == SH2_OK <==> rd.data == ACK))
                  && (rd.status > 0 && rd.data != ACK ==> Try(a) == SH2_ERR_HUB))
  {
  }

  /** A HAL that accepts the first write and answers the first read with the
      acknowledgement, both in time, completes the attempt. */
  lemma TryPromptAck(a: Attempt)
    requires |a.onWrite| > 0 && a.onWrite[0].ret > 0 && WindowOpen(a.onWrite[0].now, a.start)
    requires |a.onRead| > 0 && a.onRead[0].ret > 0 && a.onRead[0].data == ACK
    ensures Try(a) == SH2_OK
  {
  }

  /** A HAL that never answers times the attempt out. */
  lemma TrySilent(start: uint32)
    ensures Try(Attempt(start, [], [])) == SH2_ERR_TIMEOUT
  {
  }

  /** The attempt `k` of a script; a missing one gets no answer. */
  function AttemptAt(attempts: seq<Attempt>, k: nat): Attempt {
    if k < |attempts| then attempts[k] else Attempt(0, [], [])
  }

  /** Status of `dfuSend` and the number of attempts it made. */
  datatype Sent = Sent(status: int, tries: nat)

  /** The results the five attempts of a script would have. */
  function Outcomes(attempts: seq<Attempt>): (o: seq<int>)
    ensures |o| == DFU_MAX_ATTEMPTS
    ensures forall k :: 0 <= k < DFU_MAX_ATTEMPTS ==> o[k] == Try(AttemptAt(attempts, k))
  {
    seq(DFU_MAX_ATTEMPTS, k requires 0 <= k => Try(AttemptAt(attempts, k)))
  }

  /** Attempts from the `k`-th on, with results `o`, until one succeeds or
      the fifth is done. */
  function Retry(o: seq<int>, k: nat): (r: Sent)
    requires |o| == DFU_MAX_ATTEMPTS && k < DFU_MAX_ATTEMPTS
    requires forall j :: 0 <= j < DFU_MAX_ATTEMPTS ==> o[j] == SH2_OK || o[j] < 0
    ensures k < r.tries <= DFU_MAX_ATTEMPTS
    ensures r.status == o[r.tries - 1]
    ensures forall j :: k <= j < r.tries - 1 ==> o[j] != SH2_OK
    ensures r.status != SH2_OK ==> && r.tries == DFU_MAX_ATTEMPTS
                                   && forall j :: k <= j < DFU_MAX_ATTEMPTS ==> o[j] != SH2_OK
    decreases DFU_MAX_ATTEMPTS - k
  {
    if o[k] == SH2_OK || k + 1 == DFU_MAX_ATTEMPTS then Sent(o[k], k + 1) else Retry(o, k + 1)
  }

  /** `dfuSend`: succeeds exactly when one of the first five attempts is
      acknowledged, stopping at the first; otherwise fails with the fifth
      attempt's error. */
  function DfuSend(attempts: seq<Attempt>): (r: Sent)
    ensures 1 <= r.tries <= DFU_MAX_ATTEMPTS
    ensures r.status == SH2_OK <==> exists k :: 0 <= k < DFU_MAX_ATTEMPTS && Try(AttemptAt(attempts, k)) == SH2_OK
    ensures r.status == SH2_OK ==> && Try(AttemptAt(attempts, r.tries - 1)) == SH2_OK
                                   && forall k :: 0 <= k < r.tries - 1 ==> Try(AttemptAt(attempts, k)) != SH2_OK
    ensures r.status != SH2_OK ==> && r.status < 0 && r.tries == DFU_MAX_ATTEMPTS
                                   && r.status == Try(AttemptAt(attempts, DFU_MAX_ATTEMPTS - 1))
  {
    var o := Outcomes(attempts);
    var s := Retry(o, 0);
    assert s.status == SH2_OK ==> o[s.tries - 1] == SH2_OK;
    Sent(if s.status >= 0 then SH2_OK else s.status, s.tries)
  }

  // ---------------------------------------------------------------------------
  // Cutting the application into packets

  /** The packets that carry the application: each piece with its CRC. */
  function ImagePackets(d: seq<byte>, n: nat): (r: seq<seq<byte>>)
    requires 0 < n <= MAX_PACKET_LEN
    ensures |r| == |Chunks(d, n)|
    ensures forall i :: 0 <= i < |r| ==> r[i] == DataPacket(Chunks(d, n)[i])
  {
    Packets(Chunks(d, n))
  }

  /** One data packet per piece, in order. */
  function Packets(cs: seq<seq<byte>>): (r: seq<seq<byte>>)
    ensures |r| == |cs|
    requires forall i :: 0 <= i < |cs| ==> |cs[i]| <= MAX_PACKET_LEN
    ensures forall i :: 0 <= i < |r| ==> r[i] == DataPacket(cs[i])
    decreases |cs|
  {
    if |cs| == 0 then [] else [DataPacket(cs[0])] + Packets(cs[1..])
  }

  /** A packet without its two CRC bytes. */
  function Body(p: seq<byte>): seq<byte> {
    if |p| < 2 then [] else p[..|p| - 2]
  }

  /** The bodies of packets, in order. */
  function Bodies(ps: seq<seq<byte>>): (r: seq<seq<byte>>)
    ensures |r| == |ps| && forall i :: 0 <= i < |ps| ==> r[i] == Body(ps[i])
  {
    seq(|ps|, i requires 0 <= i < |ps| => Body(ps[i]))
  }

  /** The application packets carry the application, in order, and nothing
      else. */
  lemma ImagePacketsCarryImage(d: seq<byte>, n: nat)
    requires 0 < n <= MAX_PACKET_LEN
    ensures Concat(Bodies(ImagePackets(d, n))) == d
  {
    var cs := Chunks(d, n);
    var ps := ImagePackets(d, n);
    assert Bodies(ps) == cs;
  }

  // ---------------------------------------------------------------------------
  // The update procedure

  /** The image format this procedure accepts. */
  const BNO_FORMAT: seq<byte> := Bytes("BNO_V1")
  /** The part numbers this procedure accepts. */
  const BNO_PART_NUMBERS: seq<seq<byte>> :=
    [Bytes("1000-3608"), Bytes("1000-3676"), Bytes("1000-4148"), Bytes("1000-4563")]

  /** The image passes `run`'s checks: BNO format, a BNO part number, and an
      application of at least 1024 bytes. */
  predicate Accepted(fw: Firmware) {
    && Matches(fw.format, BNO_FORMAT)
    && fw.partNumber.Some? && CStr(fw.partNumber.value) in BNO_PART_NUMBERS
    && fw.appLen >= MIN_APP_LEN
  }

  /** The checks, in the order `run` makes them. */
  function Validate(fw: Firmware): (r: int)
    ensures r == SH2_OK <==> Accepted(fw)
    ensures r != SH2_OK ==> r == SH2_ERR_BAD_PARAM
  {
    if !Matches(fw.format, BNO_FORMAT) then SH2_ERR_BAD_PARAM
    else if fw.partNumber.None? then SH2_ERR_BAD_PARAM
    else if CStr(fw.partNumber.value) !in BNO_PART_NUMBERS then SH2_ERR_BAD_PARAM
    else if fw.appLen < MIN_APP_LEN then SH2_ERR_BAD_PARAM
    else SH2_OK
  }

  /** The packet length: the image's preference truncated to eight bits, and
      64 when that is zero or above 64. */
  function PacketLen(p: uint32): (r: nat)
    ensures 0 < r <= MAX_PACKET_LEN
    // a preference in range is honoured
    ensures 0 < p <= MAX_PACKET_LEN ==> r == p
    // no preference, or one above 64 whose low byte is too, gives the maximum
    ensures p == 0 || MAX_PACKET_LEN < p < 256 ==> r == MAX_PACKET_LEN
  {
    var b := p % 256;
    if b == 0 || b > MAX_PACKET_LEN then MAX_PACKET_LEN else b
  }

  /** The truncation comes before the range check: a preference of 257 bytes
      gives one-byte packets. */
  lemma PacketLenTruncates()
    ensures PacketLen(0x101) == 1
  {
  }

  /** The HAL: the status its `open` returns and, for each `dfuSend` call in
      order, the attempts it answers. */
  datatype DfuHal = DfuHal(openStatus: int, sends: seq<seq<Attempt>>)

  /** The attempts of the `k`-th send; a missing one gets no answers. */
  function ScriptAt(h: DfuHal, k: nat): seq<Attempt> {
    if k < |h.sends| then h.sends[k] else []
  }

  /** The status of each scripted send. */
  function Statuses(h: DfuHal): (st: seq<int>)
    ensures |st| == |h.sends| && forall k :: 0 <= k < |st| ==> st[k] == DfuSend(h.sends[k]).status
  {
    seq(|h.sends|, k requires 0 <= k < |h.sends| => DfuSend(h.sends[k]).status)
  }

  /** The status of the `k`-th send; one past the script times out. */
  function SendStatus(st: seq<int>, k: nat): int {
    if k < |st| then st[k] else SH2_ERR_TIMEOUT
  }

  /** A send the HAL never answers times out, so the statuses decide every
      send. */
  lemma SendStatusAgrees(h: DfuHal, k: nat)
    ensures SendStatus(Statuses(h), k) == DfuSend(ScriptAt(h, k)).status
  {
    if k >= |h.sends| {
      SilentSend();
    }
  }

  /** Five unanswered attempts time out. */
  lemma SilentSend()
    ensures DfuSend([]).status == SH2_ERR_TIMEOUT
  {
    TrySilent(0);
    assert AttemptAt([], DFU_MAX_ATTEMPTS - 1) == Attempt(0, [], []);
  }

  /** Whether the `k`-th send is acknowledged. */
  predicate Acked(st: seq<int>, k: nat) {
    SendStatus(st, k) == SH2_OK
  }

  /** The `count` sends from the `k`-th on are all acknowledged. */
  predicate AllAcked(st: seq<int>, k: nat, count: nat) {
    forall j :: k <= j < k + count ==> Acked(st, j)
  }

  /** The send loop from `offset`, the next send being the `k`-th: read a
      piece of the application and send it, until the end or a failure. The
      result holds the status and the packets handed to `dfuSend`. */
  function SendImage(fw: Firmware, n: nat, offset: nat, st: seq<int>, k: nat): (r: (int, seq<seq<byte>>))
    requires 0 < n <= MAX_PACKET_LEN && offset <= fw.appLen
    decreases fw.appLen - offset
  {
    if offset >= fw.appLen then (SH2_OK, [])
    else
      var size := if fw.appLen - offset > n then n else fw.appLen - offset;
      var got := GetAppData(fw, offset, size);
      if got.0 != SH2_OK then (got.0, [])
      else
        var p := DataPacket(got.1);
        var s := SendStatus(st, k);
        if s != SH2_OK then (s, [p])
        else
          var rest := SendImage(fw, n, offset + size, st, k + 1);
          (rest.0, [p] + rest.1)
  }

  /** The part of `run` between opening and closing the image: the status,
      the packets handed to `dfuSend` in order, and whether the HAL's `open`
      was called. */
  datatype Transfer = Transfer(status: int, packets: seq<seq<byte>>, halOpenCalled: bool)

  /** Checks, HAL open, and the sends, each failure ending the transfer. */
  function Download(fw: Firmware, h: DfuHal): Transfer {
    var v := Validate(fw);
    if v != SH2_OK then Transfer(v, [], false)
    else if h.openStatus != SH2_OK then Transfer(h.openStatus, [], true)
    else
      var n := PacketLen(fw.packetLen);
      var st := Statuses(h);
      var p0 := AppSizePacket(fw.appLen);
      var s0 := SendStatus(st, 0);
      if s0 != SH2_OK then Transfer(s0, [p0], true)
      else
        var p1 := PktSizePacket(ToByte(n));
        var s1 := SendStatus(st, 1);
        if s1 != SH2_OK then Transfer(s1, [p0, p1], true)
        else
          var sent := SendImage(fw, n, 0, st, 2);
          Transfer(sent.0, [p0, p1] + sent.1, true)
  }

  /** What `run` did: its result and status, the packets handed to
      `dfuSend` in order, whether it closed the image, called the HAL's open,
      closed the HAL, and waited for the flash writes to settle. */
  datatype Outcome = Outcome(ok: bool, status: int, packets: seq<seq<byte>>, firmwareClosed: bool,
                             halOpenCalled: bool, halClosed: bool, settled: bool)

  /** `run`: a failed open returns at once; every other path closes the
      image, waits only after success, and closes the HAL. */
  function Run(fw: Firmware, h: DfuHal): Outcome {
    if fw.openStatus != 0 then Outcome(false, SH2_ERR, [], false, false, false, false)
    else
      var t := Download(fw, h);
      var ok := t.status == SH2_OK;
      Outcome(ok, t.status, t.packets, true, t.halOpenCalled, true, ok)
  }

  // ---------------------------------------------------------------------------
  // What the procedure sends

  /** The packets of a complete update, in order: the application length, the
      packet length, the application in pieces. */
  function Plan(fw: Firmware): seq<seq<byte>>
    requires fw.appLen <= |fw.image|
  {
    var n := PacketLen(fw.packetLen);
    [AppSizePacket(fw.appLen), PktSizePacket(ToByte(n))] + ImagePackets(fw.image[..fw.appLen], n)
  }

  /** The application packets after the first piece. */
  lemma ImagePacketsStep(d: seq<byte>, n: nat, size: nat, data: seq<byte>, tail: seq<byte>)
    requires 0 < n <= MAX_PACKET_LEN && 0 < |d|
    requires size == (if |d| > n then n else |d|) && data == d[..size] && tail == d[size..]
    ensures ImagePackets(d, n) == [DataPacket(data)] + ImagePackets(tail, n)
  {
    ChunksStep(d, n, size, data, tail);
    var cs := Chunks(d, n);
    assert cs[0] == data && cs[1..] == Chunks(tail, n);
  }

  /** A piece of a slice is a slice. */
  lemma SliceOfSlice(s: seq<byte>, a: nat, b: nat, e: nat, d: seq<byte>)
    requires a <= b <= e <= |s| && d == s[a..e]
    ensures d[..b - a] == s[a..b] && d[b - a..] == s[b..e]
  {
  }

  /** Sends from the `k`-th on: all acknowledged exactly when the first is and
      the rest are. */
  lemma AllAckedStep(st: seq<int>, k: nat, count: nat)
    requires count > 0
    ensures AllAcked(st, k, count) <==> Acked(st, k) && AllAcked(st, k + 1, count - 1)
  {
  }

  /** The send loop hands `dfuSend` the application packets in order; it
      completes exactly when every one of them is acknowledged, and then it
      has sent them all. */
  lemma {:induction false} SendImageSpec(fw: Firmware, n: nat, offset: nat, st: seq<int>, k: nat)
    requires 0 < n <= MAX_PACKET_LEN && offset <= fw.appLen <= |fw.image|
    ensures var r := SendImage(fw, n, offset, st, k);
            var ps := ImagePackets(fw.image[offset..fw.appLen], n);
            && r.1 <= ps
            && (r.0 == SH2_OK <==> AllAcked(st, k, |ps|))
            && (r.0 == SH2_OK ==> r.1 == ps)
    decreases fw.appLen - offset
  {
    var d := fw.image[offset..fw.appLen];
    if offset == fw.appLen {
      assert d == [];
    } else {
      var size := if fw.appLen - offset > n then n else fw.appLen - offset;
      var end := offset + size;
      var data := fw.image[offset..end];
      var tail := fw.image[end..fw.appLen];
      SliceOfSlice(fw.image, offset, end, fw.appLen, d);
      ImagePacketsStep(d, n, size, data, tail);
      var ps, pt, p := ImagePackets(d, n), ImagePackets(tail, n), DataPacket(data);
      var r := SendImage(fw, n, offset, st, k);
      if Acked(st, k) {
        var rest := SendImage(fw, n, end, st, k + 1);
        SendImageSpec(fw, n, end, st, k + 1);
        SendImageAcked(fw, n, offset, st, k, size, end, data, rest);
        FollowsAcked(st, k, p, pt, ps, rest, r);
      } else {
        SendImageRefused(fw, n, offset, st, k, size, end, data);
        FollowsRefused(st, k, p, pt, ps, r);
      }
    }
  }

  /** An acknowledged send in front of a loop that follows the rest of the
      packets follows them all. */
  lemma FollowsAcked(st: seq<int>, k: nat, p: seq<byte>, pt: seq<seq<byte>>, ps: seq<seq<byte>>,
                     rest: (int, seq<seq<byte>>), r: (int, seq<seq<byte>>))
    requires ps == [p] + pt && Acked(st, k) && r == (rest.0, [p] + rest.1)
    requires rest.1 <= pt && (rest.0 == SH2_OK <==> AllAcked(st, k + 1, |pt|))
    requires rest.0 == SH2_OK ==> rest.1 == pt
    ensures r.1 <= ps && (r.0 == SH2_OK <==> AllAcked(st, k, |ps|))
    ensures r.0 == SH2_OK ==> r.1 == ps
  {
    AllAckedStep(st, k, |ps|);
    PrefixAfter([p], rest.1, pt);
  }

  /** A refused send stops the loop after its own packet. */
  lemma FollowsRefused(st: seq<int>, k: nat, p: seq<byte>, pt: seq<seq<byte>>, ps: seq<seq<byte>>,
                       r: (int, seq<seq<byte>>))
    requires ps == [p] + pt && !Acked(st, k) && r == (SendStatus(st, k), [p])
    ensures r.1 <= ps && r.0 != SH2_OK && !AllAcked(st, k, |ps|)
  {
    AllAckedStep(st, k, |ps|);
    PrefixAfter([p], [], pt);
  }

  /** One round of the send loop whose send is acknowledged: the piece read
      is `data`, and the loop carries on after it. */
  lemma SendImageAcked(fw: Firmware, n: nat, offset: nat, st: seq<int>, k: nat, size: nat, end: nat, data: seq<byte>,
                        rest: (int, seq<seq<byte>>))
    requires 0 < n <= MAX_PACKET_LEN && offset < fw.appLen && end <= |fw.image|
    requires size == (if fw.appLen - offset > n then n else fw.appLen - offset)
    requires end == offset + size && data == fw.image[offset..end] && Acked(st, k)
    requires rest == SendImage(fw, n, end, st, k + 1)
    ensures SendImage(fw, n, offset, st, k) == (rest.0, [DataPacket(data)] + rest.1)
  {
    ReadsPiece(fw, offset, size, end, data);
  }

  /** One round of the send loop whose send fails: the loop stops with that
      status after sending the piece read, `data`. */
  lemma SendImageRefused(fw: Firmware, n: nat, offset: nat, st: seq<int>, k: nat, size: nat, end: nat, data: seq<byte>)
    requires 0 < n <= MAX_PACKET_LEN && offset < fw.appLen && end <= |fw.image|
    requires size == (if fw.appLen - offset > n then n else fw.appLen - offset)
    requires end == offset + size && data == fw.image[offset..end] && !Acked(st, k)
    ensures SendImage(fw, n, offset, st, k) == (SendStatus(st, k), [DataPacket(data)])
    ensures SendStatus(st, k) != SH2_OK
  {
    ReadsPiece(fw, offset, size, end, data);
  }

  /** A read inside the image succeeds with the bytes it covers. */
  lemma ReadsPiece(fw: Firmware, offset: nat, size: nat, end: nat, data: seq<byte>)
    requires end == offset + size && end <= |fw.image| && data == fw.image[offset..end]
    ensures GetAppData(fw, offset, size) == (SH2_OK, data)
  {
  }

  /** An image shorter than its announced length never completes: the read
      past its end fails. */
  lemma {:induction false} SendImageNeedsImage(fw: Firmware, n: nat, offset: nat, st: seq<int>, k: nat)
    requires 0 < n <= MAX_PACKET_LEN && offset <= |fw.image| < fw.appLen
    ensures SendImage(fw, n, offset, st, k).0 != SH2_OK
    decreases fw.appLen - offset
  {
    var size := if fw.appLen - offset > n then n else fw.appLen - offset;
    var end := offset + size;
    if end > |fw.image| {
      assert GetAppData(fw, offset, size).0 != SH2_OK;
    } else if Acked(st, k) {
      SendImageNeedsImage(fw, n, end, st, k + 1);
      SendImageAcked(fw, n, offset, st, k, size, end, fw.image[offset..end], SendImage(fw, n, end, st, k + 1));
    } else {
      SendImageRefused(fw, n, offset, st, k, size, end, fw.image[offset..end]);
    }
  }

  // ---------------------------------------------------------------------------
  // Properties of the procedure

  /** Every way out of `run` but a failed open closes the image and the HAL,
      opened or not; only success waits for the flash writes; the result is
      the status being success. */
  lemma RunCleanup(fw: Firmware, h: DfuHal)
    ensures var r := Run(fw, h);
            && (r.ok <==> r.status == SH2_OK)
            && (fw.openStatus != 0 ==> r == Outcome(false, SH2_ERR, [], false, false, false, false))
            && (fw.openStatus == 0 ==> r.firmwareClosed && r.halClosed && (r.settled <==> r.ok))
  {
  }

  /** An image that fails the checks is refused with a bad-parameter status
      before the HAL is opened, and nothing is sent. */
  lemma RunRejects(fw: Firmware, h: DfuHal)
    requires fw.openStatus == 0 && !Accepted(fw)
    ensures var r := Run(fw, h);
            r.status == SH2_ERR_BAD_PARAM && r.packets == [] && !r.halOpenCalled && r.halClosed
  {
  }

  /** An image shorter than its announced length never updates the device. */
  lemma RunNeedsImage(fw: Firmware, h: DfuHal)
    requires |fw.image| < fw.appLen
    ensures !Run(fw, h).ok
  {
    if fw.openStatus == 0 && Accepted(fw) && h.openStatus == SH2_OK {
      SendImageNeedsImage(fw, PacketLen(fw.packetLen), 0, Statuses(h), 2);
    }
  }

  /** For an accepted image `run` hands `dfuSend` the planned packets in
      order, stopping at the first failure; it succeeds exactly when the HAL
      opens and every planned send is acknowledged, and then it has sent the
      whole plan. */
  lemma RunFollowsPlan(fw: Firmware, h: DfuHal)
    requires fw.openStatus == 0 && Accepted(fw) && fw.appLen <= |fw.image|
    ensures Run(fw, h).packets <= Plan(fw)
    ensures Run(fw, h).ok <==> h.openStatus == SH2_OK && AllAcked(Statuses(h), 0, |Plan(fw)|)
    ensures Run(fw, h).ok ==> Run(fw, h).packets == Plan(fw)
  {
    var t := Download(fw, h);
    if h.openStatus == SH2_OK {
      var n := PacketLen(fw.packetLen);
      var st := Statuses(h);
      var d := fw.image[..fw.appLen];
      assert fw.image[0..fw.appLen] == d;
      var ps := ImagePackets(d, n);
      var p0, p1 := AppSizePacket(fw.appLen), PktSizePacket(ToByte(n));
      PlanParts(fw, n, d, p0, p1, ps);
      SendImageSpec(fw, n, 0, st, 2);
      var sent := SendImage(fw, n, 0, st, 2);
      DownloadOpened(fw, h, n, st, p0, p1, sent, t);
      FollowsPlanCases(st, p0, p1, ps, sent, t);
    }
  }

  /** `Download` once the image is accepted and the HAL is open. */
  lemma DownloadOpened(fw: Firmware, h: DfuHal, n: nat, st: seq<int>, p0: seq<byte>, p1: seq<byte>,
                       sent: (int, seq<seq<byte>>), t: Transfer)
    requires Accepted(fw) && h.openStatus == SH2_OK && t == Download(fw, h)
    requires n == PacketLen(fw.packetLen) && st == Statuses(h)
    requires p0 == AppSizePacket(fw.appLen) && p1 == PktSizePacket(ToByte(n))
    requires sent == SendImage(fw, n, 0, st, 2)
    ensures t == if SendStatus(st, 0) != SH2_OK then Transfer(SendStatus(st, 0), [p0], true)
                 else if SendStatus(st, 1) != SH2_OK then Transfer(SendStatus(st, 1), [p0, p1], true)
                 else Transfer(sent.0, [p0, p1] + sent.1, true)
  {
  }

  /** The three ways the sends after a successful open can end, against the
      plan: the length refused, the packet length refused, or the image loop's
      own outcome. */
  lemma FollowsPlanCases(st: seq<int>, p0: seq<byte>, p1: seq<byte>, ps: seq<seq<byte>>,
                         sent: (int, seq<seq<byte>>), t: Transfer)
    requires sent.1 <= ps && (sent.0 == SH2_OK <==> AllAcked(st, 2, |ps|))
    requires sent.0 == SH2_OK ==> sent.1 == ps
    requires t == if SendStatus(st, 0) != SH2_OK then Transfer(SendStatus(st, 0), [p0], true)
                  else if SendStatus(st, 1) != SH2_OK then Transfer(SendStatus(st, 1), [p0, p1], true)
                  else Transfer(sent.0, [p0, p1] + sent.1, true)
    ensures t.packets <= [p0, p1] + ps
    ensures t.status == SH2_OK <==> AllAcked(st, 0, |ps| + 2)
    ensures t.status == SH2_OK ==> t.packets == [p0, p1] + ps
  {
    AllAckedStep(st, 0, |ps| + 2);
    AllAckedStep(st, 1, |ps| + 1);
    PrefixAfter([p0, p1], sent.1, ps);
  }

  /** A common front keeps a prefix a prefix. */
  lemma PrefixAfter(a: seq<seq<byte>>, x: seq<seq<byte>>, y: seq<seq<byte>>)
    requires x <= y
    ensures a + x <= a + y
  {
    assert (a + y)[..|a + x|] == a + x;
  }

  /** A complete update makes two sends more than there are pieces of the
      packet length `n` in use in the application, the last one possibly
      shorter; `Chunking.PiecesIsCeiling` counts them as the length divided
      by `n`, rounded up. */
  lemma PlanLength(fw: Firmware, n: nat)
    requires fw.appLen <= |fw.image| && n == PacketLen(fw.packetLen)
    ensures |Plan(fw)| == 2 + Pieces(fw.appLen, n)
  {
    var d := fw.image[..fw.appLen];
    PlanSize(fw, n, d);
    ChunkPieces(d, n);
  }

  /** Two announcements in front of one packet per piece, before counting. */
  lemma PlanSize(fw: Firmware, n: nat, d: seq<byte>)
    requires fw.appLen <= |fw.image| && n == PacketLen(fw.packetLen) && d == fw.image[..fw.appLen]
    ensures |Plan(fw)| == 2 + |Chunks(d, n)|
  {
    PlanParts(fw, n, d, AppSizePacket(fw.appLen), PktSizePacket(ToByte(n)), ImagePackets(d, n));
  }

  /** The plan's three parts. */
  lemma PlanParts(fw: Firmware, n: nat, d: seq<byte>, p0: seq<byte>, p1: seq<byte>, ps: seq<seq<byte>>)
    requires fw.appLen <= |fw.image| && n == PacketLen(fw.packetLen) && d == fw.image[..fw.appLen]
    requires p0 == AppSizePacket(fw.appLen) && p1 == PktSizePacket(ToByte(n)) && ps == ImagePackets(d, n)
    ensures Plan(fw) == [p0, p1] + ps
  {
  }

  /** A complete update first announces the application length and the
      packet length. */
  lemma PlanAnnounces(fw: Firmware)
    requires fw.appLen <= |fw.image|
    ensures BigEndian(0, Plan(fw)[0][..4]) == fw.appLen
    ensures Val(Plan(fw)[1][0]) == PacketLen(fw.packetLen)
  {
    var n := PacketLen(fw.packetLen);
    var d := fw.image[..fw.appLen];
    PlanParts(fw, n, d, AppSizePacket(fw.appLen), PktSizePacket(ToByte(n)), ImagePackets(d, n));
  }

  /** After the announcements a complete update carries the application, in
      order, and nothing else. */
  lemma PlanCarriesImage(fw: Firmware)
    requires fw.appLen <= |fw.image|
    ensures Concat(Bodies(Plan(fw)[2..])) == fw.image[..fw.appLen]
  {
    var n := PacketLen(fw.packetLen);
    var d := fw.image[..fw.appLen];
    var ps := ImagePackets(d, n);
    PlanParts(fw, n, d, AppSizePacket(fw.appLen), PktSizePacket(ToByte(n)), ps);
    assert Plan(fw)[2..] == ps;
    ImagePacketsCarryImage(d, n);
  }

  /** Every packet of the plan passes the device's CRC check. */
  lemma PlanChecks(fw: Firmware)
    requires fw.appLen <= |fw.image|
    ensures forall i :: 0 <= i < |Plan(fw)| ==> CrcOf(Plan(fw)[i]) == 0
  {
    var n := PacketLen(fw.packetLen);
    var d := fw.image[..fw.appLen];
    var ps := ImagePackets(d, n);
    var p0, p1 := AppSizePacket(fw.appLen), PktSizePacket(ToByte(n));
    PlanParts(fw, n, d, p0, p1, ps);
    ImagePacketsCheck(d, n, ps);
    ChecksJoin(p0, p1, ps, Plan(fw));
  }

  /** Two checked packets in front of checked packets. */
  lemma ChecksJoin(p0: seq<byte>, p1: seq<byte>, ps: seq<seq<byte>>, all: seq<seq<byte>>)
    requires all == [p0, p1] + ps && CrcOf(p0) == 0 && CrcOf(p1) == 0
    requires forall i :: 0 <= i < |ps| ==> CrcOf(ps[i]) == 0
    ensures forall i :: 0 <= i < |all| ==> CrcOf(all[i]) == 0
  {
    forall i | 0 <= i < |all|
      ensures CrcOf(all[i]) == 0
    {
      if i >= 2 {
        assert all[i] == ps[i - 2];
      }
    }
  }

  /** Every application packet passes the device's CRC check. */
  lemma ImagePacketsCheck(d: seq<byte>, n: nat, ps: seq<seq<byte>>)
    requires 0 < n <= MAX_PACKET_LEN && ps == ImagePackets(d, n)
    ensures forall i :: 0 <= i < |ps| ==> CrcOf(ps[i]) == 0
  {
    var cs := Chunks(d, n);
    assert forall i :: 0 <= i < |ps| ==> ps[i] == DataPacket(cs[i]);
  }
}
