/** The report-driven firmware update of the FSP200 bootloader. The host
    asks the bootloader for upgrade mode, writes the application in requests
    of at most sixteen 32-bit words, waits for the final status and asks for
    the application to be launched. Each report the bootloader sends on the
    control channel is looked up in a table of (state, report id) pairs; a
    report no row matches is counted and otherwise ignored.
    The SHTP transport is an oracle: the requests the host sends are
    collected in order, and the reports it receives arrive in ticks, each tick
    the reports one service call delivers together with the clock reading
    taken after it. */
module FspDfu {
  import opened Common
  import opened FirmwareImage
  import opened Chunking
  import HcBin

  /** The whole update must finish within 240 seconds. */
  const DFU_TIMEOUT_US: nat := 240_000_000

  /** Bootloader report ids. */
  const ID_OPMODE_REQ: byte := 0xE3
  const ID_OPMODE_RESP: byte := 0xE4
  const ID_STATUS_RESP: byte := 0xE6
  const ID_WRITE_REQ: byte := 0xE7
  const ID_WRITE_RESP: byte := 0xE8

  /** Bootloader operating modes. */
  const OPMODE_UPGRADE: byte := 1
  const OPMODE_APPLICATION: byte := 3

  /** Flags of the bootloader's status word. */
  const STATUS_LAUNCH_BOOTLOADER: bv32 := 0x0000_0002
  const STATUS_APP_VALID: bv32 := 0x0000_0010
  const STATUS_ERROR: bv32 := 0x4000_0000

  /** The error code of a clean update. */
  const DFU_NO_ERROR: bv32 := 0

  /** The smallest application worth sending. */
  const MIN_APP_LEN: nat := 1024
  /** The most words one write request carries. */
  const MAX_WRITE_WORDS: nat := 16

  const FSP_FORMAT: seq<byte> := Bytes("EFM32_V1")
  const FSP_PART_NUMBER: seq<byte> := Bytes("1000-4095")

  // ---------------------------------------------------------------------------
  // Reports and requests

  /** Byte `i` of a report. The source reads fixed positions without looking
      at the report's length; the model reads zero past the end. */
  function At(p: seq<byte>, i: nat): byte {
    if i < |p| then p[i] else 0
  }

  /** `getU32`: four bytes from `o`, least significant first. */
  function GetU32(p: seq<byte>, o: nat): bv32 {
    (At(p, o) as bv32) + ((At(p, o + 1) as bv32) << 8) + ((At(p, o + 2) as bv32) << 16) + ((At(p, o + 3) as bv32) << 24)
  }

  /** `getU16`: two bytes from `o`, least significant first. */
  function GetU16(p: seq<byte>, o: nat): bv16 {
    (At(p, o) as bv16) + ((At(p, o + 1) as bv16) << 8)
  }

  /** A 32-bit word as the four bytes `getU32` reads back. */
  function PutU32(v: bv32): (r: seq<byte>)
    ensures |r| == 4
  {
    [(v & 0xFF) as bv8, ((v >> 8) & 0xFF) as bv8, ((v >> 16) & 0xFF) as bv8, ((v >> 24) & 0xFF) as bv8]
  }

  /** A 16-bit word as the two bytes `getU16` reads back. */
  function PutU16(v: bv16): (r: seq<byte>)
    ensures |r| == 2
  {
    [(v & 0xFF) as bv8, ((v >> 8) & 0xFF) as bv8]
  }

  /** `getU32` reads back what `PutU32` wrote, wherever it sits in a report. */
  lemma GetPutU32(pre: seq<byte>, v: bv32, post: seq<byte>)
    ensures GetU32(pre + PutU32(v) + post, |pre|) == v
  {
    var p := pre + PutU32(v) + post;
    var w := PutU32(v);
    assert At(p, |pre|) == w[0] && At(p, |pre| + 1) == w[1];
    assert At(p, |pre| + 2) == w[2] && At(p, |pre| + 3) == w[3];
    JoinU32(v, w[0], w[1], w[2], w[3]);
  }

  /** The four bytes of a word join back into it. */
  lemma JoinU32(v: bv32, b0: byte, b1: byte, b2: byte, b3: byte)
    requires [b0, b1, b2, b3] == PutU32(v)
    ensures (b0 as bv32) + ((b1 as bv32) << 8) + ((b2 as bv32) << 16) + ((b3 as bv32) << 24) == v
  {
  }

  /** `getU16` reads back what `PutU16` wrote, wherever it sits in a report. */
  lemma GetPutU16(pre: seq<byte>, v: bv16, post: seq<byte>)
    ensures GetU16(pre + PutU16(v) + post, |pre|) == v
  {
    var p := pre + PutU16(v) + post;
    var w := PutU16(v);
    assert At(p, |pre|) == w[0] && At(p, |pre| + 1) == w[1];
  }

  /** What the host sends on the control channel: an operating-mode request,
      or a write of `words` words of `data` at word offset `wordOffset`. */
  datatype Request =
    | OpModeRequest(mode: byte)
    | WriteRequest(words: byte, wordOffset: uint16, data: seq<byte>)

  /** The bytes of a request: report id, then the fields, the word offset
      least significant byte first. */
  function Encode(r: Request): seq<byte> {
    match r
    case OpModeRequest(m) => [ID_OPMODE_REQ, m]
    case WriteRequest(w, o, data) => [ID_WRITE_REQ, w, ToByte(o % 256), ToByte(o / 256)] + data
  }

  /** Reading a request back from its bytes. */
  function Decode(b: seq<byte>): Option<Request> {
    if |b| == 2 && b[0] == ID_OPMODE_REQ then Some(OpModeRequest(b[1]))
    else if |b| >= 4 && b[0] == ID_WRITE_REQ then Some(WriteRequest(b[1], Val(b[2]) + 256 * Val(b[3]), b[4..]))
    else None
  }

  /** Every request reads back as itself. */
  lemma DecodeEncode(r: Request)
    ensures Decode(Encode(r)) == Some(r)
  {
    if r.WriteRequest? {
      var b := Encode(r);
      assert b[4..] == r.data;
      SplitByte(r.wordOffset % 256, r.wordOffset / 256);
    }
  }

  // ---------------------------------------------------------------------------
  // The state of the update

  /** `DfuState_t`. */
  datatype Phase = Init | SettingMode | SendingData | WaitCompletion | Launching | Finished

  /** The fields of the update object: status, whether the image is open, the
      application length, the next word to write and the words in flight,
      the count of ignored reports, the state, and every request sent so far. */
  datatype Dfu = Dfu(status: int, firmwareOpened: bool, appLen: uint32, wordOffset: uint16, writeLen: uint16,
                     ignored: uint32, phase: Phase, sent: seq<Request>)

  /** `initState`. The word offset and write length are not initialised by
      the source; every path sets them before reading them. */
  function InitState(): (d: Dfu)
    ensures d.status == SH2_OK && !d.firmwareOpened && d.phase == Init && d.sent == [] && d.ignored == 0
  {
    Dfu(SH2_OK, false, 0, 0, 0, 0, Init, [])
  }

  /** The image checks `openFirmware` makes once the image is open. */
  predicate Accepted(fw: Firmware) {
    && Matches(fw.format, FSP_FORMAT)
    && Matches(fw.partNumber, FSP_PART_NUMBER)
    && fw.appLen >= MIN_APP_LEN
    && fw.appLen % 4 == 0
  }

  /** `openFirmware` on a fresh state: a missing image is a bad parameter, an
      image that does not open is an error, and an open image must pass the
      checks. The application length is recorded once the part number
      passes. */
  function OpenFirmware(fw: Option<Firmware>): Dfu {
    var d := InitState();
    if fw.None? then d.(status := SH2_ERR_BAD_PARAM)
    else
      var f := fw.value;
      if f.openStatus != 0 then d.(status := SH2_ERR)
      else
        var d := d.(firmwareOpened := true);
        if !Matches(f.format, FSP_FORMAT) then d.(status := SH2_ERR_BAD_PARAM)
        else if f.partNumber.None? then d.(status := SH2_ERR_BAD_PARAM)
        else if CStr(f.partNumber.value) != FSP_PART_NUMBER then d.(status := SH2_ERR_BAD_PARAM)
        else
          var d := d.(appLen := f.appLen);
          if f.appLen < MIN_APP_LEN then d.(status := SH2_ERR_BAD_PARAM)
          else if f.appLen % 4 != 0 then d.(status := SH2_ERR_BAD_PARAM)
          else d
  }

  /** `openFirmware` succeeds exactly for a present image that opens and
      passes the checks; it reports a missing image and a rejected one as bad
      parameters and an image that does not open as an error, and the image
      counts as opened exactly when its `open` succeeded. */
  lemma OpenFirmwareSpec(fw: Option<Firmware>)
    ensures var d := OpenFirmware(fw);
            && (d.status == SH2_OK <==> fw.Some? && fw.value.openStatus == 0 && Accepted(fw.value))
            && (d.firmwareOpened <==> fw.Some? && fw.value.openStatus == 0)
            && (fw.None? ==> d.status == SH2_ERR_BAD_PARAM)
            && (fw.Some? && fw.value.openStatus != 0 ==> d.status == SH2_ERR)
            && (fw.Some? && fw.value.openStatus == 0 && !Accepted(fw.value) ==> d.status == SH2_ERR_BAD_PARAM)
            && (d.status == SH2_OK ==> d.appLen == fw.value.appLen)
            && d.phase == Init && d.sent == [] && d.ignored == 0
  {
  }

  /** An hcbin image whose header puts the payload offset inside itself opens
      "successfully" without opening: the session counts the image as opened
      (so it is closed at the end), and rejects it as a bad parameter because
      a closed reader has no FW-Format. */
  lemma AbandonedImageRejected(f: seq<byte>)
    requires HcBin.HeaderPasses(f) && HcBin.Word(f, 12) < HcBin.HEADER_LEN
    ensures var d := OpenFirmware(Some(FromHcBin(Some(f))));
            d.firmwareOpened && d.status == SH2_ERR_BAD_PARAM
  {
    FromHcBinSpec(f, 0, 0);
  }

  // ---------------------------------------------------------------------------
  // Requests and report handlers

  /** The words the next write carries: what is left of the application,
      computed in 32 bits and stored in 16, and at most sixteen. */
  function WriteWords(appLen: uint32, wordOffset: uint16): (r: uint16)
    ensures r <= MAX_WRITE_WORDS
  {
    var left := ((appLen / 4 - wordOffset) % TWO_32) % TWO_16;
    if left > MAX_WRITE_WORDS then MAX_WRITE_WORDS else left
  }

  /** `requestWrite`: the next write of the application from the current word
      offset. The source ignores the status of the image read; a failed read
      sends no application bytes here. */
  function RequestWrite(fw: Firmware, d: Dfu): (r: Dfu)
    ensures r == d.(writeLen := r.writeLen, sent := r.sent)
  {
    var len := WriteWords(d.appLen, d.wordOffset);
    var got := GetAppData(fw, d.wordOffset * 4, len * 4);
    d.(writeLen := len, sent := d.sent + [WriteRequest(ToByte(len), d.wordOffset, got.1)])
  }

  /** A handler's failure: the hub reported a problem and the update is over. */
  function Fail(d: Dfu): Dfu {
    d.(status := SH2_ERR_HUB, phase := Finished)
  }

  /** `handleInitStatus`: go on only when the bootloader says it is running. */
  function HandleInitStatus(d: Dfu, p: seq<byte>): Dfu {
    var status := GetU32(p, 4);
    if status & STATUS_LAUNCH_BOOTLOADER != 0 then
      d.(sent := d.sent + [OpModeRequest(OPMODE_UPGRADE)], phase := SettingMode)
    else Fail(d)
  }

  /** `handleModeResponse`: upgrade mode entered, start writing from word 0. */
  function HandleModeResponse(fw: Firmware, d: Dfu, p: seq<byte>): Dfu {
    if At(p, 1) == OPMODE_UPGRADE && At(p, 2) == 0 then
      RequestWrite(fw, d.(wordOffset := 0)).(phase := SendingData)
    else Fail(d)
  }

  /** `handleWriteResponse`: a write accepted moves the offset on, and either
      the whole application is written or the next write goes out. */
  function HandleWriteResponse(fw: Firmware, d: Dfu, p: seq<byte>): Dfu {
    if At(p, 1) == 0 then
      var d' := d.(wordOffset := (d.wordOffset + d.writeLen) % TWO_16);
      if d'.wordOffset * 4 == d.appLen then d'.(phase := WaitCompletion)
      else RequestWrite(fw, d').(phase := SendingData)
    else Fail(d)
  }

  /** `handleFinalStatus`: a valid application, no error flag and no error
      code launch it. */
  function HandleFinalStatus(d: Dfu, p: seq<byte>): Dfu {
    var status := GetU32(p, 4);
    var errCode := GetU32(p, 8);
    if status & STATUS_APP_VALID != 0 && status & STATUS_ERROR == 0 && errCode == DFU_NO_ERROR then
      d.(sent := d.sent + [OpModeRequest(OPMODE_APPLICATION)], status := SH2_OK, phase := Launching)
    else Fail(d)
  }

  /** `handleLaunchResp`: the application is running. */
  function HandleLaunchResponse(d: Dfu, p: seq<byte>): Dfu {
    if At(p, 1) == OPMODE_APPLICATION && At(p, 2) == 0 then d.(status := SH2_OK, phase := Finished)
    else Fail(d)
  }

  // ---------------------------------------------------------------------------
  // The transition table

  /** The handlers a table row can name. */
  datatype Action = InitStatus | ModeResponse | WriteResponse | FinalStatus | LaunchResponse

  /** One row of `dfuStateTransition`. */
  datatype Transition = Transition(phase: Phase, reportId: byte, action: Action)

  /** `dfuStateTransition`. */
  function Transitions(): seq<Transition> {
    [ Transition(Init, ID_STATUS_RESP, InitStatus),
      Transition(SettingMode, ID_OPMODE_RESP, ModeResponse),
      Transition(SendingData, ID_WRITE_RESP, WriteResponse),
      Transition(WaitCompletion, ID_STATUS_RESP, FinalStatus),
      Transition(Launching, ID_OPMODE_RESP, LaunchResponse) ]
  }

  predicate RowMatches(t: Transition, phase: Phase, id: byte) {
    t.phase == phase && t.reportId == id
  }

  /** The first row from `k` on matching the state and the report id. */
  function Find(table: seq<Transition>, phase: Phase, id: byte, k: nat): (r: Option<nat>)
    requires k <= |table|
    ensures r.Some? ==> k <= r.value < |table| && RowMatches(table[r.value], phase, id)
    ensures r.Some? ==> forall j :: k <= j < r.value ==> !RowMatches(table[j], phase, id)
    ensures r.None? ==> forall j :: k <= j < |table| ==> !RowMatches(table[j], phase, id)
    decreases |table| - k
  {
    if k == |table| then None
    else if RowMatches(table[k], phase, id) then Some(k)
    else Find(table, phase, id, k + 1)
  }

  /** `findTransition`: the handler of the first matching row, if any. */
  function FindTransition(phase: Phase, id: byte): Option<Action> {
    var t := Transitions();
    match Find(t, phase, id, 0)
    case None => None
    case Some(i) => Some(t[i].action)
  }

  /** The table read as a case analysis: each of the five waiting states
      accepts exactly one report id, and the finished state none. */
  lemma TransitionTable(phase: Phase, id: byte)
    ensures FindTransition(phase, id) ==
            match phase
            case Init => if id == ID_STATUS_RESP then Some(InitStatus) else None
            case SettingMode => if id == ID_OPMODE_RESP then Some(ModeResponse) else None
            case SendingData => if id == ID_WRITE_RESP then Some(WriteResponse) else None
            case WaitCompletion => if id == ID_STATUS_RESP then Some(FinalStatus) else None
            case Launching => if id == ID_OPMODE_RESP then Some(LaunchResponse) else None
            case Finished => None
  {
    var t := Transitions();
    assert RowMatches(t[0], phase, id) <==> phase == Init && id == ID_STATUS_RESP;
  }

  /** Run the handler a row names. */
  function Apply(fw: Firmware, d: Dfu, a: Action, p: seq<byte>): Dfu {
    match a
    case InitStatus => HandleInitStatus(d, p)
    case ModeResponse => HandleModeResponse(fw, d, p)
    case WriteResponse => HandleWriteResponse(fw, d, p)
    case FinalStatus => HandleFinalStatus(d, p)
    case LaunchResponse => HandleLaunchResponse(d, p)
  }

  /** `bootloader_ctrl_hdlr`: dispatch on the report id in byte 0, counting
      (with 32-bit wrap-around) a report no row matches. */
  function HandleReport(fw: Firmware, d: Dfu, p: seq<byte>): Dfu {
    match FindTransition(d.phase, At(p, 0))
    case None => d.(ignored := (d.ignored + 1) % TWO_32)
    case Some(a) => Apply(fw, d, a, p)
  }

  /** The reports one service call delivers, in order. */
  function Service(fw: Firmware, d: Dfu, reports: seq<seq<byte>>): Dfu
    decreases |reports|
  {
    if |reports| == 0 then d else Service(fw, HandleReport(fw, d, reports[0]), reports[1..])
  }

  // ---------------------------------------------------------------------------
  // The status flags as report bytes

  /** The launch-bootloader flag is bit 1 of report byte 4. */
  lemma LaunchBootloaderBit(p: seq<byte>)
    ensures GetU32(p, 4) & STATUS_LAUNCH_BOOTLOADER != 0 <==> At(p, 4) & 0x02 != 0
  {
  }

  /** The application-valid flag is bit 4 of report byte 4. */
  lemma AppValidBit(p: seq<byte>)
    ensures GetU32(p, 4) & STATUS_APP_VALID != 0 <==> At(p, 4) & 0x10 != 0
  {
  }

  /** The error flag is bit 6 of report byte 7. */
  lemma ErrorBit(p: seq<byte>)
    ensures GetU32(p, 4) & STATUS_ERROR != 0 <==> At(p, 7) & 0x40 != 0
  {
  }

  /** The error code is clear exactly when report bytes 8 to 11 are zero. */
  lemma NoErrorCode(p: seq<byte>)
    ensures GetU32(p, 8) == DFU_NO_ERROR <==> At(p, 8) == 0 && At(p, 9) == 0 && At(p, 10) == 0 && At(p, 11) == 0
  {
  }

  // ---------------------------------------------------------------------------
  // The handlers in terms of the report bytes

  /** The first status report: with bit 1 of byte 4 set the host asks for
      upgrade mode and waits for the answer; otherwise the update fails. */
  lemma InitStatusOutcome(d: Dfu, p: seq<byte>)
    ensures At(p, 4) & 0x02 != 0 ==>
              HandleInitStatus(d, p) == d.(sent := d.sent + [OpModeRequest(OPMODE_UPGRADE)], phase := SettingMode)
    ensures At(p, 4) & 0x02 == 0 ==> HandleInitStatus(d, p) == d.(status := SH2_ERR_HUB, phase := Finished)
  {
    LaunchBootloaderBit(p);
  }

  /** The final status report: the application is launched exactly when
      byte 4 has bit 4 set, byte 7 has bit 6 clear and bytes 8 to 11 are
      zero; otherwise the update fails. */
  lemma FinalStatusOutcome(d: Dfu, p: seq<byte>)
    ensures var good := At(p, 4) & 0x10 != 0 && At(p, 7) & 0x40 == 0
                        && At(p, 8) == 0 && At(p, 9) == 0 && At(p, 10) == 0 && At(p, 11) == 0;
            && (good ==> HandleFinalStatus(d, p)
                         == d.(sent := d.sent + [OpModeRequest(OPMODE_APPLICATION)], status := SH2_OK, phase := Launching))
            && (!good ==> HandleFinalStatus(d, p) == d.(status := SH2_ERR_HUB, phase := Finished))
  {
    AppValidBit(p);
    ErrorBit(p);
    NoErrorCode(p);
  }

  /** A report no row matches only counts one more ignored report; in the
      finished state every report is such a report. */
  lemma IgnoredReport(fw: Firmware, d: Dfu, p: seq<byte>)
    requires FindTransition(d.phase, At(p, 0)).None? || d.phase == Finished
    ensures HandleReport(fw, d, p) == d.(ignored := (d.ignored + 1) % TWO_32)
    ensures HandleReport(fw, d, p).sent == d.sent && HandleReport(fw, d, p).phase == d.phase
  {
    TransitionTable(d.phase, At(p, 0));
  }

  // ---------------------------------------------------------------------------
  // The writes of a complete update

  /** The word offset is 16 bits wide: the application must have fewer than
      2^16 words for the offsets not to wrap. */
  predicate Fits(appLen: nat) {
    appLen / 4 < TWO_16
  }

  /** An opened and accepted image that fits, and the state agreeing with it
      on the application length. */
  predicate Ready(fw: Firmware, d: Dfu) {
    d.appLen == fw.appLen && fw.appLen >= MIN_APP_LEN && fw.appLen % 4 == 0 && Fits(fw.appLen)
  }

  /** The write request `requestWrite` builds at word offset `o`. */
  function WriteAt(fw: Firmware, o: uint16): Request {
    var len := WriteWords(fw.appLen, o);
    WriteRequest(ToByte(len), o, GetAppData(fw, o * 4, len * 4).1)
  }

  /** The number of write requests: sixteen words each, rounded up. */
  function Rounds(appLen: nat): nat {
    (appLen / 4 + 15) / 16
  }

  /** The write requests of a complete update, one every sixteen words. */
  function Writes(fw: Firmware): (r: seq<Request>)
    requires Fits(fw.appLen)
    ensures |r| == Rounds(fw.appLen)
    ensures forall i :: 0 <= i < |r| ==> 16 * i < TWO_16 && r[i] == WriteAt(fw, 16 * i)
  {
    seq(Rounds(fw.appLen), i requires 0 <= i < Rounds(fw.appLen) => WriteAt(fw, 16 * i))
  }

  /** Everything a complete update sends: the upgrade request, the writes,
      the launch request. */
  function Protocol(fw: Firmware): seq<Request>
    requires Fits(fw.appLen)
  {
    [OpModeRequest(OPMODE_UPGRADE)] + Writes(fw) + [OpModeRequest(OPMODE_APPLICATION)]
  }

  /** What each state has sent: nothing before the first status, the upgrade
      request while waiting for upgrade mode, the writes up to the one in
      flight while sending (at a multiple of sixteen words, with the write
      length that offset gives), all writes while waiting for the final
      status, and the launch request after them; an update that finished
      with success has sent everything. Only the finished state can hold an
      error. */
  predicate Inv(fw: Firmware, d: Dfu) {
    && Ready(fw, d)
    && (d.phase != Finished ==> d.status == SH2_OK)
    && match d.phase
       case Init => d.sent == []
       case SettingMode => d.sent == [OpModeRequest(OPMODE_UPGRADE)]
       case SendingData =>
         && d.wordOffset % 16 == 0 && d.wordOffset < fw.appLen / 4
         && d.writeLen == WriteWords(fw.appLen, d.wordOffset)
         && d.sent == [OpModeRequest(OPMODE_UPGRADE)] + Writes(fw)[..d.wordOffset / 16 + 1]
       case WaitCompletion => d.sent == [OpModeRequest(OPMODE_UPGRADE)] + Writes(fw)
       case Launching => d.sent == Protocol(fw)
       case Finished => d.status == SH2_OK ==> d.sent == Protocol(fw)
  }

  /** Inside a fitting application the write length is what is left, at most
      sixteen words. */
  lemma WriteWordsFit(appLen: nat, o: uint16)
    requires appLen < TWO_32 && Fits(appLen) && o <= appLen / 4
    ensures WriteWords(appLen, o) == if appLen / 4 - o > 16 then 16 else appLen / 4 - o
  {
  }

  /** The state after a successful open satisfies the invariant. */
  lemma InvInit(fw: Firmware)
    requires fw.openStatus == 0 && Accepted(fw) && Fits(fw.appLen)
    ensures Inv(fw, OpenFirmware(Some(fw)))
  {
  }

  /** Entering upgrade mode sends the first write. */
  lemma InvModeResponse(fw: Firmware, d: Dfu, p: seq<byte>)
    requires Inv(fw, d) && d.phase == SettingMode
    ensures Inv(fw, HandleModeResponse(fw, d, p))
  {
    if At(p, 1) == OPMODE_UPGRADE && At(p, 2) == 0 {
      var r := HandleModeResponse(fw, d, p);
      var w := Writes(fw);
      assert Rounds(fw.appLen) >= 1;
      assert w[..1] == [WriteAt(fw, 0)];
      WriteWordsFit(fw.appLen, 0);
    }
  }

  /** An accepted write either completes the application or sends the next
      sixteen words. */
  lemma InvWriteResponse(fw: Firmware, d: Dfu, p: seq<byte>)
    requires Inv(fw, d) && d.phase == SendingData
    ensures Inv(fw, HandleWriteResponse(fw, d, p))
  {
    var r := HandleWriteResponse(fw, d, p);
    if At(p, 1) == 0 {
      var o: nat, len: nat := d.wordOffset, d.writeLen;
      WriteWordsFit(fw.appLen, d.wordOffset);
      var o' := o + len;
      WriteAccepted(fw, d, p, o', r);
      if o' * 4 == fw.appLen {
        WriteDone(fw, d, o, len, r);
      } else {
        WriteNext(fw, d, o, len, o', r);
      }
    }
  }

  /** An accepted write moves the offset past it, without wrapping below
      65536 words, and either waits for completion or sends the next write. */
  lemma WriteAccepted(fw: Firmware, d: Dfu, p: seq<byte>, o': nat, r: Dfu)
    requires At(p, 1) == 0 && o' == d.wordOffset + d.writeLen && o' < TWO_16 && d.appLen == fw.appLen
    requires r == HandleWriteResponse(fw, d, p)
    ensures o' * 4 == fw.appLen ==> r == d.(wordOffset := o', phase := WaitCompletion)
    ensures o' * 4 != fw.appLen ==> r == RequestWrite(fw, d.(wordOffset := o')).(phase := SendingData)
  {
    var w: uint16 := (d.wordOffset + d.writeLen) % TWO_16;
    assert w == o';
  }

  /** The write that ends the application leaves every write sent. */
  lemma WriteDone(fw: Firmware, d: Dfu, o: nat, len: nat, r: Dfu)
    requires Inv(fw, d) && d.phase == SendingData && o == d.wordOffset && len == d.writeLen
    requires len == (if fw.appLen / 4 - o > 16 then 16 else fw.appLen / 4 - o) && (o + len) * 4 == fw.appLen
    requires r == d.(wordOffset := o + len, phase := WaitCompletion)
    ensures Inv(fw, r)
  {
    var w := Writes(fw);
    LastRound(fw.appLen / 4, o, len);
    assert w[..o / 16 + 1] == w;
  }

  /** A write that does not end the application is followed by the next
      round's. */
  lemma WriteNext(fw: Firmware, d: Dfu, o: nat, len: nat, o': nat, r: Dfu)
    requires Inv(fw, d) && d.phase == SendingData && o == d.wordOffset && len == d.writeLen
    requires len == (if fw.appLen / 4 - o > 16 then 16 else fw.appLen / 4 - o)
    requires o' == o + len && o' * 4 != fw.appLen && o' < TWO_16
    requires r == RequestWrite(fw, d.(wordOffset := o')).(phase := SendingData)
    ensures Inv(fw, r)
  {
    var w := Writes(fw);
    NextRound(fw.appLen / 4, o, len);
    WriteWordsFit(fw.appLen, o');
    var d' := d.(wordOffset := o');
    var k := o' / 16;
    assert 16 * k == o' && k == o / 16 + 1;
    RequestWriteSends(fw, d', RequestWrite(fw, d'));
    GrowPrefix([OpModeRequest(OPMODE_UPGRADE)], w, k, WriteAt(fw, o'));
  }

  /** `requestWrite` sends the write at the current offset and records its
      length. */
  lemma RequestWriteSends(fw: Firmware, d: Dfu, r: Dfu)
    requires d.appLen == fw.appLen && r == RequestWrite(fw, d)
    ensures r.sent == d.sent + [WriteAt(fw, d.wordOffset)] && r.writeLen == WriteWords(fw.appLen, d.wordOffset)
  {
  }

  /** Growing a prefix of `w`, behind a fixed head, by the next element. */
  lemma GrowPrefix(head: seq<Request>, w: seq<Request>, k: nat, x: Request)
    requires 0 < k < |w| && w[k] == x
    ensures (head + w[..k]) + [x] == head + w[..k + 1]
  {
    assert w[..k + 1] == w[..k] + [x];
  }

  /** The last write: it ends the application exactly at the last round. */
  lemma LastRound(words: nat, o: nat, len: nat)
    requires o % 16 == 0 && len == (if words - o > 16 then 16 else words - o) && o < words && o + len == words
    ensures o / 16 + 1 == (words + 15) / 16
  {
  }

  /** A write that does not end the application is a full one, and the next
      write is the next round's. */
  lemma NextRound(words: nat, o: nat, len: nat)
    requires o % 16 == 0 && len == (if words - o > 16 then 16 else words - o) && o < words && o + len != words
    ensures len == 16 && (o + 16) % 16 == 0 && o + 16 < words
    ensures (o + 16) / 16 == o / 16 + 1 && (o + 16) / 16 < (words + 15) / 16
  {
  }

  /** Every report keeps the invariant. */
  lemma InvHandleReport(fw: Firmware, d: Dfu, p: seq<byte>)
    requires Inv(fw, d)
    ensures Inv(fw, HandleReport(fw, d, p))
  {
    var id := At(p, 0);
    TransitionTable(d.phase, id);
    match FindTransition(d.phase, id)
    case None =>
    case Some(a) =>
      match a
      case InitStatus =>
      case ModeResponse => InvModeResponse(fw, d, p);
      case WriteResponse => InvWriteResponse(fw, d, p);
      case FinalStatus =>
      case LaunchResponse =>
  }

  /** Every service call keeps the invariant. */
  lemma {:induction false} InvService(fw: Firmware, d: Dfu, reports: seq<seq<byte>>)
    requires Inv(fw, d)
    ensures Inv(fw, Service(fw, d, reports))
    decreases |reports|
  {
    if |reports| > 0 {
      InvHandleReport(fw, d, reports[0]);
      InvService(fw, HandleReport(fw, d, reports[0]), reports[1..]);
    }
  }

  // ---------------------------------------------------------------------------
  // The run

  /** What one `shtp_service` call delivered, and the clock read after it. */
  datatype Tick = Tick(reports: seq<seq<byte>>, now: uint32)

  /** The service loop: while the update is unfinished and fewer than
      240 seconds have passed on the 32-bit clock since `start`, service the
      transport and read the clock. A clock script that runs out is read as
      the time running out. */
  function Loop(fw: Firmware, d: Dfu, start: uint32, now: uint32, ticks: seq<Tick>): Dfu
    decreases |ticks|
  {
    if Elapsed32(now, start) >= DFU_TIMEOUT_US || d.phase == Finished || |ticks| == 0 then d
    else Loop(fw, Service(fw, d, ticks[0].reports), start, ticks[0].now, ticks[1..])
  }

  /** The service loop keeps the invariant. */
  lemma {:induction false} InvLoop(fw: Firmware, d: Dfu, start: uint32, now: uint32, ticks: seq<Tick>)
    requires Inv(fw, d)
    ensures Inv(fw, Loop(fw, d, start, now, ticks))
    decreases |ticks|
  {
    if !(Elapsed32(now, start) >= DFU_TIMEOUT_US || d.phase == Finished || |ticks| == 0) {
      InvService(fw, d, ticks[0].reports);
      InvLoop(fw, Service(fw, d, ticks[0].reports), start, ticks[0].now, ticks[1..]);
    }
  }

  /** What `run` did: its result and status, the requests it sent, the
      reports it ignored, whether it closed the image, and whether it opened
      and closed the transport. */
  datatype Outcome = Outcome(ok: bool, status: int, sent: seq<Request>, ignored: uint32,
                             firmwareClosed: bool, shtpOpened: bool, shtpClosed: bool)

  /** The end of `run` once the transport is open: an unfinished update has
      timed out; the transport and the image are closed. */
  function Finish(d: Dfu): (r: Outcome)
    ensures r.shtpOpened && r.shtpClosed && r.firmwareClosed
  {
    var status := if d.phase != Finished then SH2_ERR_TIMEOUT else d.status;
    Outcome(status == SH2_OK, status, d.sent, d.ignored, true, true, true)
  }

  /** `run` as written: open and check the image, open the transport, and
      service it from the first clock reading `start`. When the transport
      does not open, `run` returns at once and leaves the image open. */
  function RunAsWritten(fw: Option<Firmware>, shtpOpens: bool, start: uint32, ticks: seq<Tick>): Outcome {
    var d := OpenFirmware(fw);
    if d.status != SH2_OK then Outcome(false, d.status, [], d.ignored, d.firmwareOpened, false, false)
    else if !shtpOpens then Outcome(false, d.status, [], d.ignored, false, false, false)
    else Finish(Loop(fw.value, d, start, start, ticks))
  }

  /** `run`, closing the image on every path that opened it. */
  function Run(fw: Option<Firmware>, shtpOpens: bool, start: uint32, ticks: seq<Tick>): Outcome {
    var d := OpenFirmware(fw);
    if d.status != SH2_OK then Outcome(false, d.status, [], d.ignored, d.firmwareOpened, false, false)
    else if !shtpOpens then Outcome(false, SH2_ERR, [], d.ignored, true, false, false)
    else Finish(Loop(fw.value, d, start, start, ticks))
  }

  /** When the transport does not open, `run` as written reports failure with
      the image still open: the one path that skips the close. */
  lemma RunAsWrittenLeaksImage(fw: Firmware, start: uint32, ticks: seq<Tick>)
    requires fw.openStatus == 0 && Accepted(fw)
    ensures OpenFirmware(Some(fw)).firmwareOpened
    ensures var r := RunAsWritten(Some(fw), false, start, ticks);
            !r.ok && r.status == SH2_OK && !r.firmwareClosed
  {
  }

  /** `run` closes the image exactly when it opened it, and the transport
      exactly when it opened it; its result is its status being success. */
  lemma RunCleanup(fw: Option<Firmware>, shtpOpens: bool, start: uint32, ticks: seq<Tick>)
    ensures var r := Run(fw, shtpOpens, start, ticks);
            && (r.firmwareClosed <==> OpenFirmware(fw).firmwareOpened)
            && (r.shtpClosed <==> r.shtpOpened)
            && (r.ok <==> r.status == SH2_OK)
  {
  }

  /** An image that is missing, does not open or fails the checks is turned
      away before the transport is opened, with nothing sent. */
  lemma RunRejects(fw: Option<Firmware>, shtpOpens: bool, start: uint32, ticks: seq<Tick>)
    requires fw.None? || fw.value.openStatus != 0 || !Accepted(fw.value)
    ensures var r := Run(fw, shtpOpens, start, ticks);
            && !r.ok && r.sent == [] && !r.shtpOpened
            && r.status == (if fw.Some? && fw.value.openStatus != 0 then SH2_ERR else SH2_ERR_BAD_PARAM)
  {
    OpenFirmwareSpec(fw);
  }

  /** An update that has not finished when the loop ends times out. */
  lemma RunTimesOut(fw: Firmware, start: uint32, ticks: seq<Tick>)
    requires OpenFirmware(Some(fw)).status == SH2_OK
    requires Loop(fw, OpenFirmware(Some(fw)), start, start, ticks).phase != Finished
    ensures Run(Some(fw), true, start, ticks).status == SH2_ERR_TIMEOUT
  {
  }

  /** A successful update of a fitting image sent exactly the upgrade
      request, the writes of the whole application in order, and the launch
      request. */
  lemma RunFollowsProtocol(fw: Firmware, shtpOpens: bool, start: uint32, ticks: seq<Tick>)
    requires Fits(fw.appLen)
    ensures Run(Some(fw), shtpOpens, start, ticks).ok ==>
              shtpOpens && Accepted(fw) && Run(Some(fw), shtpOpens, start, ticks).sent == Protocol(fw)
  {
    var d := OpenFirmware(Some(fw));
    OpenFirmwareSpec(Some(fw));
    if d.status == SH2_OK && shtpOpens {
      InvInit(fw);
      InvLoop(fw, d, start, start, ticks);
    }
  }

  // ---------------------------------------------------------------------------
  // What the writes carry

  /** The application bytes of each write. */
  function Payloads(ws: seq<Request>): (r: seq<seq<byte>>)
    ensures |r| == |ws|
    ensures forall i :: 0 <= i < |ws| ==> r[i] == (if ws[i].WriteRequest? then ws[i].data else [])
  {
    seq(|ws|, i requires 0 <= i < |ws| => if ws[i].WriteRequest? then ws[i].data else [])
  }

  /** There is one write per 64-byte piece of the application. */
  lemma RoundsArePieces(appLen: nat, words: nat, q: nat)
    requires appLen == 4 * words && q == (words + 15) / 16
    ensures (appLen + 64 - 1) / 64 == q
  {
    var m := (words + 15) % 16;
    assert words + 15 == 16 * q + m;
    DivUnique(appLen + 64 - 1, 64, q, 4 * m + 3);
  }

  /** Write `i` carries the `i`th 64-byte piece of the application. */
  lemma WriteCarriesPiece(fw: Firmware, app: seq<byte>, i: nat, words: nat, len: nat, lo: nat, hi: nat)
    requires Fits(fw.appLen) && fw.appLen % 4 == 0 && fw.appLen <= |fw.image| && app == fw.image[..fw.appLen]
    requires words == fw.appLen / 4 && i < Rounds(fw.appLen) && i < |Chunks(app, 64)|
    requires len == (if words - 16 * i > 16 then 16 else words - 16 * i)
    requires lo == 64 * i && hi == Min(lo + 64, |app|)
    ensures Writes(fw)[i].WriteRequest? && Writes(fw)[i].data == Chunks(app, 64)[i]
  {
    var o: uint16 := 16 * i;
    WriteWordsFit(fw.appLen, o);
    WriteData(fw, o, len, lo, hi);
    ChunkAt(app, 64, i, lo, hi);
    SliceOfPrefix(fw.image, fw.appLen, app, lo, hi);
  }

  /** The write at word offset `o` reads its bytes straight from the image. */
  lemma WriteData(fw: Firmware, o: uint16, len: nat, lo: nat, hi: nat)
    requires len == WriteWords(fw.appLen, o) && lo == o * 4 && hi == lo + len * 4 && hi <= |fw.image|
    ensures WriteAt(fw, o).WriteRequest? && WriteAt(fw, o).data == fw.image[lo..hi]
  {
  }

  /** A slice of a prefix is the same slice of the whole. */
  lemma SliceOfPrefix(s: seq<byte>, n: nat, p: seq<byte>, lo: nat, hi: nat)
    requires n <= |s| && p == s[..n] && lo <= hi <= n
    ensures p[lo..hi] == s[lo..hi]
  {
  }

  /** The writes of a complete update carry the application, in order and
      nothing else: write `i` holds bytes `64 i` up to `64 (i + 1)`, and
      joined they give the first `appLen` bytes of the image. */
  lemma WritesCarryImage(fw: Firmware)
    requires Fits(fw.appLen) && fw.appLen % 4 == 0 && fw.appLen <= |fw.image|
    ensures Payloads(Writes(fw)) == Chunks(fw.image[..fw.appLen], 64)
    ensures Concat(Payloads(Writes(fw))) == fw.image[..fw.appLen]
  {
    var app := fw.image[..fw.appLen];
    var words := fw.appLen / 4;
    var w := Writes(fw);
    var c := Chunks(app, 64);
    ChunkCount(app, 64);
    RoundsArePieces(fw.appLen, words, Rounds(fw.appLen));
    forall i | 0 <= i < |w|
      ensures Payloads(w)[i] == c[i]
    {
      var len := if words - 16 * i > 16 then 16 else words - 16 * i;
      WriteCarriesPiece(fw, app, i, words, len, 64 * i, Min(64 * i + 64, |app|));
    }
  }

  /** The smallest accepted application, 1024 bytes, goes in sixteen writes of
      sixteen words. */
  lemma SixteenWrites(fw: Firmware)
    requires fw.appLen == 1024
    ensures Fits(fw.appLen) && |Writes(fw)| == 16
    ensures forall i :: 0 <= i < 16 ==> WriteWords(fw.appLen, 16 * i) == 16
  {
    forall i | 0 <= i < 16
      ensures WriteWords(fw.appLen, 16 * i) == 16
    {
      WriteWordsFit(fw.appLen, 16 * i);
    }
  }

  /** Past 65535 words the remaining-length arithmetic is taken modulo
      2^16: an application of 65552 words (one more than 65535 plus
      sixteen) is told, at offset 0, that sixteen words remain, though the
      16-bit word offset cannot reach its end. */
  lemma WriteWordsTruncates()
    ensures !Fits(262208) && WriteWords(262208, 0) == 16
    ensures WriteWords(4 * TWO_16, 0) == 0
  {
  }
}
