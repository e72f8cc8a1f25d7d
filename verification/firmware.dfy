/** The firmware image interface both update procedures consume: `open`, two
    metadata strings, the application length, a preferred packet length, and
    reads of the application bytes. The BNO image is compiled into the program
    (its generated header is not part of this model), the FSP200 image is an
    hcbin container; both are described by the same record, and
    `FromHcBin` builds the record an hcbin reader presents, and
    `FromHcBinChecked` the one the corrected reader would. */
module FirmwareImage {
  import opened Common
  import HcBin

  /** What the interface answers: the status `open` returns, the values of
      the FW-Format and SW-Part-Number metadata keys (None when the key
      is missing), `getAppLen`, `getPacketLen`, and the application bytes that
      `getAppData` copies from. */
  datatype Firmware = Firmware(openStatus: int, format: Option<seq<byte>>, partNumber: Option<seq<byte>>,
                               appLen: uint32, packetLen: uint32, image: seq<byte>)

  const FW_FORMAT_KEY: HcBin.CString := Bytes("FW-Format")
  const SW_PART_NUMBER_KEY: HcBin.CString := Bytes("SW-Part-Number")

  /** The string `strcmp` sees: the bytes before the first NUL. */
  function CStr(s: seq<byte>): (r: seq<byte>)
    ensures r <= s && HcBin.NUL !in r
    ensures |r| < |s| ==> s[|r|] == HcBin.NUL
    decreases |s|
  {
    if |s| == 0 || s[0] == HcBin.NUL then [] else [s[0]] + CStr(s[1..])
  }

  /** A metadata lookup that found a value equal, as a C string, to `lit`. */
  predicate Matches(v: Option<seq<byte>>, lit: seq<byte>) {
    v.Some? && CStr(v.value) == lit
  }

  /** `getAppData`: `len` bytes from `offset`, or a bad-parameter status and
      nothing when the range runs past the image. */
  function GetAppData(fw: Firmware, offset: nat, len: nat): (r: (int, seq<byte>))
    ensures r.0 == SH2_OK <==> offset + len <= |fw.image|
    ensures r.0 == SH2_OK ==> r.1 == fw.image[offset..offset + len]
    ensures r.0 != SH2_OK ==> r == (SH2_ERR_BAD_PARAM, [])
  {
    if offset + len > |fw.image| then (SH2_ERR_BAD_PARAM, []) else (SH2_OK, fw.image[offset..offset + len])
  }

  /** The interface an hcbin reader presents after `open` on `file`, with
      `open` as written: a header that puts the payload offset inside itself
      is reported as a success on an object that stays closed. */
  function FromHcBin(file: Option<seq<byte>>): Firmware {
    var (h, rc) := HcBin.Open(HcBin.Closed, file);
    Firmware(rc, HcBin.GetMeta(h, FW_FORMAT_KEY), HcBin.GetMeta(h, SW_PART_NUMBER_KEY),
             HcBin.GetAppLen(h), HcBin.GetPacketLen(h), h.appData)
  }

  /** The same interface over the corrected `open`. */
  function FromHcBinChecked(file: Option<seq<byte>>): Firmware {
    var (h, rc) := HcBin.OpenChecked(HcBin.Closed, file);
    Firmware(rc, HcBin.GetMeta(h, FW_FORMAT_KEY), HcBin.GetMeta(h, SW_PART_NUMBER_KEY),
             HcBin.GetAppLen(h), HcBin.GetPacketLen(h), h.appData)
  }

  /** An hcbin file opens when it is well formed, and also when its header
      passes but puts the payload offset inside itself; in that second case
      the interface answers as a closed reader does: no metadata, `SH2_ERR`
      as the length, no bytes. A well-formed file offers its whole payload,
      asks for no particular packet length, and reads exactly as the
      reader's own accessor does. On the closed path, reads from the record
      answer as from an empty image, not with the `SH2_ERR` a closed reader's
      `getAppData` gives; no updater reads from an image it has rejected. */
  lemma FromHcBinSpec(f: seq<byte>, offset: uint32, len: uint32)
    ensures FromHcBin(Some(f)).openStatus == SH2_OK <==>
              HcBin.WellFormed(f) || (HcBin.HeaderPasses(f) && HcBin.Word(f, 12) < HcBin.HEADER_LEN)
    ensures HcBin.HeaderPasses(f) && HcBin.Word(f, 12) < HcBin.HEADER_LEN ==>
              FromHcBin(Some(f)) == Firmware(SH2_OK, None, None, TWO_32 - 1, TWO_32 - 1, [])
    ensures HcBin.WellFormed(f) ==> && FromHcBin(Some(f)).image == f[HcBin.Word(f, 12)..HcBin.PayloadEnd(f)]
                                    && FromHcBin(Some(f)).appLen == |FromHcBin(Some(f)).image|
                                    && FromHcBin(Some(f)).packetLen == 0
    ensures HcBin.WellFormed(f) ==>
              GetAppData(FromHcBin(Some(f)), offset, len) == HcBin.GetAppData(HcBin.Open(HcBin.Closed, Some(f)).0, offset, len)
  {
    HcBin.OpenSpec(HcBin.Closed, f);
    HcBin.LoadSpec(f);
  }

  /** Over the corrected `open`, an hcbin file opens exactly when it is well
      formed, and otherwise the interface agrees with the one over `open` as
      written. */
  lemma FromHcBinCheckedSpec(f: seq<byte>)
    ensures FromHcBinChecked(Some(f)).openStatus == SH2_OK <==> HcBin.WellFormed(f)
    ensures !(HcBin.HeaderPasses(f) && HcBin.Word(f, 12) < HcBin.HEADER_LEN) ==>
              FromHcBinChecked(Some(f)) == FromHcBin(Some(f))
  {
    HcBin.OpenSpec(HcBin.Closed, f);
    HcBin.LoadSpec(f);
  }
}
