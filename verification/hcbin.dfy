/** The HcBin firmware container reader. A container is a header of four
    big-endian 32-bit words (magic, size, format version, payload offset),
    `key: value` metadata lines up to the payload offset, the payload, and a
    big-endian trailer holding the CRC-32 of every byte before it. The reader
    keeps the CRC-32 register running over each byte it consumes. The file is
    a byte sequence and the stream position a cursor into it. */
module HcBin {
  import opened Common
  import opened Crc32

  const HCBIN_ID: nat := 0x6572_d028
  const HCBIN_FF_VER: nat := 4
  /** Length of the four header words. */
  const HEADER_LEN: nat := 16

  // ---------------------------------------------------------------------------
  // Reading the stream

  /** Stream position and CRC-32 register. */
  datatype Cursor = Cursor(pos: nat, crc: bv32)


  /** The register holds the CRC-32 of exactly the bytes before the position. */
  predicate Tracks(f: seq<byte>, c: Cursor) {
    c.pos <= |f| && c.crc == CrcOf(f[..c.pos])
  }

  /** A freshly opened file: position 0, register at its initial value. */
  function Begin(f: seq<byte>): (c: Cursor)
    ensures c.pos == 0 && Tracks(f, c)
  {
    assert f[..0] == [];
    Cursor(0, CRC32_INIT)
  }

  /** Outcome of a read: end of file was hit, or a value and the cursor after it.
      After a failed read the register is never used again (the open fails and
      the next open restarts it), so a failure carries no cursor. */
  datatype Read<T> = Fail | Got(value: T, cur: Cursor)

  /** Consuming one byte keeps the register in step with the position. */
  lemma AdvanceTracks(f: seq<byte>, c: Cursor)
    requires c.pos < |f|
    ensures Tracks(f, c) ==> Tracks(f, Cursor(c.pos + 1, UpdateCrc32(c.crc, f[c.pos])))
  {
    assert f[..c.pos + 1] == f[..c.pos] + [f[c.pos]];
    CrcOfSnoc(f[..c.pos], f[c.pos]);
  }

  /** `fgetc` followed by `updateCrc32`: the next byte, folded into the
      register, or end of file. */
  function Next(f: seq<byte>, c: Cursor): (r: Read<byte>)
    requires c.pos <= |f|
    ensures r.Got? <==> c.pos < |f|
    ensures r.Got? ==> r.value == f[c.pos] && r.cur.pos == c.pos + 1
    ensures r.Got? && Tracks(f, c) ==> Tracks(f, r.cur)
  {
    if c.pos < |f| then
      AdvanceTracks(f, c);
      Got(f[c.pos], Cursor(c.pos + 1, UpdateCrc32(c.crc, f[c.pos])))
    else Fail
  }

  /** The loop of `read32be`: `k` more bytes shifted into `acc`. */
  function ReadBE(f: seq<byte>, c: Cursor, k: nat, acc: nat): (r: Read<nat>)
    requires c.pos <= |f|
    ensures r.Got? <==> c.pos + k <= |f|
    ensures r.Got? ==> r.cur.pos == c.pos + k && r.value == BigEndian(acc, f[c.pos..c.pos + k])
    ensures r.Got? && Tracks(f, c) ==> Tracks(f, r.cur)
    decreases k
  {
    if k == 0 then Got(acc, c)
    else
      match Next(f, c)
      case Fail => Fail
      case Got(b, c1) =>
        assert c.pos + k <= |f| ==> f[c.pos..c.pos + k][1..] == f[c1.pos..c1.pos + (k - 1)];
        ReadBE(f, c1, k - 1, acc * 256 + Val(b))
  }

  /** `read32be`: four bytes, most significant first, each folded into the
      register; end of file is an error. */
  function Read32be(f: seq<byte>, c: Cursor): (r: Read<nat>)
    requires c.pos <= |f|
    ensures r.Got? <==> c.pos + 4 <= |f|
    ensures r.Got? ==> && r.cur.pos == c.pos + 4 && r.value < TWO_32
                       && r.value == BigEndian(0, f[c.pos..c.pos + 4])
    ensures r.Got? && Tracks(f, c) ==> Tracks(f, r.cur)
  {
    var r := ReadBE(f, c, 4, 0);
    if r.Got? then BigEndian4Bound(f[c.pos..c.pos + 4]); r else r
  }

  /** `readPayload`: `n` bytes, each folded into the register; end of file is
      an error. */
  function ReadPayload(f: seq<byte>, c: Cursor, n: nat): (r: Read<seq<byte>>)
    requires c.pos <= |f|
    ensures r.Got? <==> c.pos + n <= |f|
    ensures r.Got? ==> r.cur.pos == c.pos + n && r.value == f[c.pos..c.pos + n]
    ensures r.Got? && Tracks(f, c) ==> Tracks(f, r.cur)
    decreases n
  {
    if n == 0 then Got([], c)
    else
      match Next(f, c)
      case Fail => Fail
      case Got(b, c1) =>
        match ReadPayload(f, c1, n - 1)
        case Fail => Fail
        case Got(rest, c2) =>
          assert [b] + rest == f[c.pos..c.pos + n];
          Got([b] + rest, c2)
  }

  /** The loop that skips whatever lies between the metadata and the payload
      offset, still folding it into the register. None when the file ends
      first. */
  function SkipGap(f: seq<byte>, c: Cursor, offset: nat): (r: Option<Cursor>)
    requires c.pos <= |f|
    ensures r.Some? <==> c.pos >= offset || offset <= |f|
    ensures r.Some? ==> r.value.pos == if c.pos >= offset then c.pos else offset
    ensures r.Some? && Tracks(f, c) ==> Tracks(f, r.value)
    decreases offset - c.pos
  {
    if c.pos >= offset then Some(c)
    else
      match Next(f, c)
      case Fail => None
      case Got(_, c1) => SkipGap(f, c1, offset)
  }

  // ---------------------------------------------------------------------------
  // Metadata

  const COLON: byte := 0x3A
  const SPACE: byte := 0x20
  const LF: byte := 0x0A
  const CR: byte := 0x0D
  const NUL: byte := 0x00

  /** A byte that ends a value: line feed, carriage return or NUL. */
  predicate Terminator(c: byte) {
    c == LF || c == CR || c == NUL
  }

  datatype Phase = InKey | InSep | InValue | AtEol

  /** One metadata entry, in the order it appears in the file. */
  datatype Entry = Entry(key: seq<byte>, value: seq<byte>)

  /** The parser: its phase, the key and value being accumulated, and the
      entries completed so far. */
  datatype Meta = Meta(phase: Phase, key: seq<byte>, value: seq<byte>, entries: seq<Entry>)

  const MetaStart: Meta := Meta(InKey, [], [], [])

  /** What the parser can hold: no colon in a key and no terminator in a
      value, both for the parts being accumulated and for every entry. */
  predicate CleanKey(k: seq<byte>) {
    forall i :: 0 <= i < |k| ==> k[i] != COLON
  }

  predicate CleanValue(v: seq<byte>) {
    forall i :: 0 <= i < |v| ==> !Terminator(v[i])
  }

  predicate CleanEntries(es: seq<Entry>) {
    forall i :: 0 <= i < |es| ==> CleanKey(es[i].key) && CleanValue(es[i].value)
  }

  predicate Clean(m: Meta) {
    CleanKey(m.key) && CleanValue(m.value) && CleanEntries(m.entries)
  }

  /** Whether the parser pushes the byte back rather than consuming it: a
      byte that is not a terminator at the end of a line starts the next key. */
  predicate PushesBack(m: Meta, c: byte) {
    m.phase == AtEol && !Terminator(c)
  }

  /** The parser's transition on a byte it consumes. */
  function Consume(m: Meta, c: byte): (r: Meta)
    // entries are only ever appended, one at a time, and only at a terminator
    ensures m.entries <= r.entries && |r.entries| <= |m.entries| + 1
    ensures |r.entries| == |m.entries| + 1 <==> m.phase == InValue && Terminator(c)
    ensures |r.entries| == |m.entries| + 1 ==> r.entries[|m.entries|] == Entry(m.key, m.value)
    ensures Clean(m) ==> Clean(r)
  {
    match m.phase
    case InKey => if c == COLON then m.(phase := InSep) else m.(key := m.key + [c])
    case InSep => if c == SPACE then m.(phase := InValue) else m
    case InValue =>
      if Terminator(c) then Meta(AtEol, [], [], m.entries + [Entry(m.key, m.value)])
      else m.(value := m.value + [c])
    case AtEol => m
  }

  /** A byte as the parser ends up treating it: one pushed back at the end of
      a line is read again as the first byte of a key. */
  function Feed(m: Meta, c: byte): Meta {
    if PushesBack(m, c) then Consume(m.(phase := InKey), c) else Consume(m, c)
  }

  /** The parser run over a run of bytes. */
  function Parse(m: Meta, s: seq<byte>): (r: Meta)
    ensures m.entries <= r.entries && |r.entries| <= |m.entries| + |s|
    ensures Clean(m) ==> Clean(r)
    decreases |s|
  {
    if |s| == 0 then m else Parse(Feed(m, s[0]), s[1..])
  }

  /** `readMetadata`: runs the parser from the cursor to the payload offset.
      A pushed-back byte is read again without being counted or folded into
      the register a second time; end of file is an error. */
  function ReadMetadata(f: seq<byte>, c: Cursor, offset: nat, m: Meta): (r: Read<Meta>)
    requires c.pos <= |f|
    ensures r.Got? <==> c.pos >= offset || offset <= |f|
    ensures r.Got? && c.pos >= offset ==> r == Got(m, c)
    // every byte up to the offset is parsed, and folded into the register, once
    ensures r.Got? && c.pos < offset ==> r.cur.pos == offset && r.value == Parse(m, f[c.pos..offset])
    ensures r.Got? && Tracks(f, c) ==> Tracks(f, r.cur)
    decreases offset - c.pos, if m.phase == AtEol then 1 else 0
  {
    if c.pos >= offset then Got(m, c)
    else
      match Next(f, c)
      case Fail => Fail
      case Got(b, c1) =>
        assert offset <= |f| ==> f[c.pos..offset][1..] == f[c1.pos..offset];
        if PushesBack(m, b) then ReadMetadata(f, c, offset, m.(phase := InKey))
        else ReadMetadata(f, c1, offset, Consume(m, b))
  }

  // ---------------------------------------------------------------------------
  // Loading a container

  /** What reading a container comes to: its entries and payload, a failure
      (reported as a bad parameter), or one of the two early exits that leave
      the status as it was. */
  datatype Outcome = Loaded(entries: seq<Entry>, payload: seq<byte>) | Failed | Abandoned

  /** The payload length `sz - offset - 4`, in 32-bit unsigned arithmetic. */
  function PayloadLen(sz: nat, offset: nat): (r: uint32)
    ensures sz >= offset + 4 && sz - offset - 4 < TWO_32 ==> r == sz - offset - 4
  {
    (sz - offset - 4) % TWO_32
  }

  /** The big-endian word at byte `i`. */
  function Word(f: seq<byte>, i: nat): nat
    requires i + 4 <= |f|
  {
    BigEndian(0, f[i..i + 4])
  }

  /** The size, offset and cursor after the four header words. */
  datatype Head = Head(sz: nat, offset: nat, cur: Cursor)

  /** The header reads of `open`: magic, size, version and offset, each word
      folded into the register; a short file, a wrong magic or a wrong version
      fails. */
  function ReadHeader(f: seq<byte>): Option<Head> {
    var id := Read32be(f, Begin(f));
    if id.Fail? || id.value != HCBIN_ID then None
    else
      var sz := Read32be(f, id.cur);
      if sz.Fail? then None
      else
        var ver := Read32be(f, sz.cur);
        if ver.Fail? || ver.value != HCBIN_FF_VER then None
        else
          var offset := Read32be(f, ver.cur);
          if offset.Fail? then None
          else Some(Head(sz.value, offset.value, offset.cur))
  }

  /** A header whose magic and version pass. */
  predicate HeaderPasses(f: seq<byte>) {
    |f| >= HEADER_LEN && Word(f, 0) == HCBIN_ID && Word(f, 8) == HCBIN_FF_VER
  }

  /** One header word read at its place. */
  lemma WordRead(f: seq<byte>, c: Cursor, i: nat)
    requires Tracks(f, c) && c.pos == i && i + 4 <= |f|
    ensures Read32be(f, c).Got? && Read32be(f, c).value == Word(f, i)
    ensures Read32be(f, c).cur.pos == i + 4 && Tracks(f, Read32be(f, c).cur)
  {
  }

  /** A file shorter than the header fails the header reads. */
  lemma ShortHeader(f: seq<byte>)
    requires |f| < HEADER_LEN
    ensures ReadHeader(f).None?
  {
    var id := Read32be(f, Begin(f));
    if id.Got? {
      var sz := Read32be(f, id.cur);
      if sz.Got? {
        var ver := Read32be(f, sz.cur);
        if ver.Got? {
          assert Read32be(f, ver.cur).Fail?;
        }
      }
    }
  }

  /** The header reads succeed exactly when the magic and version pass, and
      leave the cursor after the header with the register over it. */
  lemma HeaderSpec(f: seq<byte>)
    ensures ReadHeader(f).Some? <==> HeaderPasses(f)
    ensures ReadHeader(f).Some? ==> && ReadHeader(f).value.sz == Word(f, 4)
                                    && ReadHeader(f).value.offset == Word(f, 12)
                                    && ReadHeader(f).value.cur.pos == HEADER_LEN
                                    && Tracks(f, ReadHeader(f).value.cur)
  {
    if |f| < HEADER_LEN {
      ShortHeader(f);
    } else {
      var r0 := Read32be(f, Begin(f));
      WordRead(f, Begin(f), 0);
      var r1 := Read32be(f, r0.cur);
      WordRead(f, r0.cur, 4);
      var r2 := Read32be(f, r1.cur);
      WordRead(f, r1.cur, 8);
      var r3 := Read32be(f, r2.cur);
      WordRead(f, r2.cur, 12);
      HeaderChain(f, r0, r1, r2, r3);
    }
  }

  /** The header reads of a file long enough for them. */
  lemma HeaderChain(f: seq<byte>, r0: Read<nat>, r1: Read<nat>, r2: Read<nat>, r3: Read<nat>)
    requires r0 == Read32be(f, Begin(f)) && r0.Got? && r0.cur.pos <= |f|
    requires r1 == Read32be(f, r0.cur) && r1.Got? && r1.cur.pos <= |f|
    requires r2 == Read32be(f, r1.cur) && r2.Got? && r2.cur.pos <= |f|
    requires r3 == Read32be(f, r2.cur) && r3.Got?
    ensures ReadHeader(f) == if r0.value != HCBIN_ID || r2.value != HCBIN_FF_VER then None
                             else Some(Head(r1.value, r3.value, r3.cur))
  {
  }

  /** The reading steps of `open`, from the first header word to the trailer. */
  function Load(f: seq<byte>): Outcome {
    match ReadHeader(f)
    case None => Failed
    case Some(hd) =>
      if hd.cur.pos > |f| then Failed  // not reached: the header reads stay within the file
      else LoadBody(f, hd.sz, hd.offset, hd.cur)
  }

  /** Metadata, gap, payload and trailer. */
  function LoadBody(f: seq<byte>, sz: nat, offset: nat, c: Cursor): Outcome
    requires c.pos <= |f|
  {
    match ReadMetadata(f, c, offset, MetaStart)
    case Fail => Failed
    case Got(m, c1) =>
      if c1.pos > offset then Abandoned
      else
        match SkipGap(f, c1, offset)
        case None => Abandoned
        case Some(c2) => LoadPayload(f, m.entries, PayloadLen(sz, offset), c2)
  }

  /** Payload and trailer: the stored CRC must be the complement of the register. */
  function LoadPayload(f: seq<byte>, es: seq<Entry>, len: nat, c: Cursor): Outcome
    requires c.pos <= |f|
  {
    match ReadPayload(f, c, len)
    case Fail => Failed
    case Got(data, c1) => CheckTrailer(f, es, data, c1, Unsigned32(!c1.crc))
  }

  /** The trailer word read after the payload, against the computed CRC. */
  function CheckTrailer(f: seq<byte>, es: seq<Entry>, data: seq<byte>, c: Cursor, computed: uint32): Outcome
    requires c.pos <= |f|
  {
    match Read32be(f, c)
    case Fail => Failed
    case Got(stored, _) => if stored != computed then Failed else Loaded(es, data)
  }

  /** Where the payload ends, according to the header. */
  function PayloadEnd(f: seq<byte>): nat
    requires |f| >= HEADER_LEN
  {
    Word(f, 12) + PayloadLen(Word(f, 4), Word(f, 12))
  }

  /** The bytes before the payload end carry their CRC-32 in the trailer. */
  predicate TrailerMatches(f: seq<byte>, end: nat)
    requires end + 4 <= |f|
  {
    Word(f, end) == Unsigned32(Checksum(f[..end]))
  }

  /** A well-formed container, stated on the bytes alone: the magic and the
      version match, the payload offset is not inside the header, the file
      holds the payload the header announces and a trailer after it, and the
      trailer is the CRC-32 of every byte before it. Bytes after the trailer
      are not looked at. */
  predicate WellFormed(f: seq<byte>) {
    && HeaderPasses(f)
    && Word(f, 12) >= HEADER_LEN
    && PayloadEnd(f) + 4 <= |f|
    && TrailerMatches(f, PayloadEnd(f))
  }

  /** Payload and trailer read from the payload offset; `end` is where the
      payload ends. */
  lemma PayloadSpec(f: seq<byte>, es: seq<Entry>, len: nat, c: Cursor, end: nat)
    requires Tracks(f, c) && end == c.pos + len
    ensures LoadPayload(f, es, len, c).Loaded? <==> end + 4 <= |f| && TrailerMatches(f, end)
    ensures LoadPayload(f, es, len, c).Loaded? ==> LoadPayload(f, es, len, c) == Loaded(es, f[c.pos..end])
  {
    var p := ReadPayload(f, c, len);
    if p.Got? {
      PayloadPresent(f, es, len, c, end);
      PayloadContents(f, es, len, c, p, Unsigned32(!p.cur.crc));
      PayloadBytes(f, c, len, end, p);
    } else {
      PayloadShort(f, es, len, c);
    }
  }

  /** When the payload bytes are there, the trailer decides. */
  lemma PayloadPresent(f: seq<byte>, es: seq<Entry>, len: nat, c: Cursor, end: nat)
    requires Tracks(f, c) && ReadPayload(f, c, len).Got? && end == c.pos + len
    ensures LoadPayload(f, es, len, c).Loaded? <==> end + 4 <= |f| && TrailerMatches(f, end)
  {
    var p := ReadPayload(f, c, len);
    var n := Unsigned32(!p.cur.crc);
    PayloadRead(f, es, len, c, p, n);
    TrailerSpec(f, es, p.value, p.cur, end, n);
  }

  /** What a successful read yields: the entries and the payload bytes read. */
  lemma PayloadContents(f: seq<byte>, es: seq<Entry>, len: nat, c: Cursor, p: Read<seq<byte>>, n: uint32)
    requires c.pos <= |f| && p == ReadPayload(f, c, len) && p.Got? && n == Unsigned32(!p.cur.crc)
    ensures LoadPayload(f, es, len, c).Loaded? ==> LoadPayload(f, es, len, c) == Loaded(es, p.value)
  {
    PayloadRead(f, es, len, c, p, n);
    TrailerYields(f, es, p.value, p.cur, n);
  }

  /** The payload read is the file's bytes up to `end`. */
  lemma PayloadBytes(f: seq<byte>, c: Cursor, len: nat, end: nat, p: Read<seq<byte>>)
    requires c.pos <= |f| && p == ReadPayload(f, c, len) && p.Got? && end == c.pos + len
    ensures p.value == f[c.pos..end]
  {
    SameSlice(f, c.pos, end, len);
  }

  /** Two spellings of the same slice. */
  lemma SameSlice(f: seq<byte>, a: nat, b: nat, n: nat)
    requires b == a + n <= |f|
    ensures f[a..b] == f[a..a + n]
  {
  }

  /** After the payload bytes come the trailer checks. */
  lemma PayloadRead(f: seq<byte>, es: seq<Entry>, len: nat, c: Cursor, p: Read<seq<byte>>, n: uint32)
    requires c.pos <= |f| && p == ReadPayload(f, c, len) && p.Got? && n == Unsigned32(!p.cur.crc)
    ensures LoadPayload(f, es, len, c) == CheckTrailer(f, es, p.value, p.cur, n)
  {
  }

  /** A file that ends inside the payload fails. */
  lemma PayloadShort(f: seq<byte>, es: seq<Entry>, len: nat, c: Cursor)
    requires c.pos <= |f| && ReadPayload(f, c, len).Fail?
    ensures c.pos + len > |f| && LoadPayload(f, es, len, c) == Failed
  {
  }

  /** The trailer read after the payload: the object is loaded exactly when the
      stored word is the CRC-32 of everything before it. */
  lemma TrailerSpec(f: seq<byte>, es: seq<Entry>, data: seq<byte>, c: Cursor, end: nat, n: uint32)
    requires Tracks(f, c) && c.pos == end && n == Unsigned32(!c.crc)
    ensures CheckTrailer(f, es, data, c, n).Loaded? <==> end + 4 <= |f| && TrailerMatches(f, end)
    ensures CheckTrailer(f, es, data, c, n).Loaded? ==> CheckTrailer(f, es, data, c, n) == Loaded(es, data)
  {
    TrailerAgainst(f, es, data, c, n);
    TrailerYields(f, es, data, c, n);
    if end + 4 <= |f| {
      WordRead(f, c, end);
      ComplementIsChecksum(f, c, end, n);
      StoredAgainstChecksum(f, end, n);
    }
  }

  /** The complemented register is the checksum of the bytes before the cursor. */
  lemma ComplementIsChecksum(f: seq<byte>, c: Cursor, end: nat, n: uint32)
    requires Tracks(f, c) && c.pos == end && n == Unsigned32(!c.crc)
    ensures n == Unsigned32(Checksum(f[..end]))
  {
    assert !c.crc == Checksum(f[..end]);
  }

  /** Comparing the trailer word with the checksum is the trailer test. */
  lemma StoredAgainstChecksum(f: seq<byte>, end: nat, n: uint32)
    requires end + 4 <= |f| && n == Unsigned32(Checksum(f[..end]))
    ensures Word(f, end) == n <==> TrailerMatches(f, end)
  {
  }

  /** Reading the trailer against a given value. */
  lemma TrailerAgainst(f: seq<byte>, es: seq<Entry>, data: seq<byte>, c: Cursor, n: uint32)
    requires c.pos <= |f|
    ensures CheckTrailer(f, es, data, c, n).Loaded? <==> Read32be(f, c).Got? && Read32be(f, c).value == n
  {
  }

  /** A passing trailer check yields the entries and the payload it was given. */
  lemma TrailerYields(f: seq<byte>, es: seq<Entry>, data: seq<byte>, c: Cursor, n: uint32)
    requires c.pos <= |f|
    ensures CheckTrailer(f, es, data, c, n).Loaded? ==> CheckTrailer(f, es, data, c, n) == Loaded(es, data)
  {
  }

  /** Metadata, gap, payload and trailer read from the end of the header. */
  lemma BodySpec(f: seq<byte>, sz: nat, offset: nat, c: Cursor)
    requires Tracks(f, c) && c.pos == HEADER_LEN
    ensures LoadBody(f, sz, offset, c) == Abandoned <==> offset < HEADER_LEN
    ensures offset >= HEADER_LEN ==>
      LoadBody(f, sz, offset, c) == if offset <= |f| then
        LoadPayload(f, Parse(MetaStart, f[HEADER_LEN..offset]).entries, PayloadLen(sz, offset), Cursor(offset, CrcOf(f[..offset])))
      else Failed
  {
    if offset < HEADER_LEN {
      BodyOffsetInHeader(f, sz, offset, c);
    } else if offset > |f| {
      BodyOffsetPastEnd(f, sz, offset, c);
    } else {
      var m := ReadMetadata(f, c, offset, MetaStart);
      BodyMetadata(f, offset, c, m);
      BodyOffsetInFile(f, sz, offset, c, m);
    }
  }

  /** With the offset inside the header, no metadata is read and the open is abandoned. */
  lemma BodyOffsetInHeader(f: seq<byte>, sz: nat, offset: nat, c: Cursor)
    requires c.pos <= |f| && offset < c.pos
    ensures LoadBody(f, sz, offset, c) == Abandoned
  {
  }

  /** With the offset beyond the file, the metadata read hits end of file. */
  lemma BodyOffsetPastEnd(f: seq<byte>, sz: nat, offset: nat, c: Cursor)
    requires c.pos <= offset && c.pos <= |f| < offset
    ensures LoadBody(f, sz, offset, c) == Failed
  {
  }

  /** The metadata read from the end of the header to the payload offset. */
  lemma BodyMetadata(f: seq<byte>, offset: nat, c: Cursor, m: Read<Meta>)
    requires Tracks(f, c) && c.pos == HEADER_LEN <= offset <= |f| && m == ReadMetadata(f, c, offset, MetaStart)
    ensures m.Got? && m.cur == Cursor(offset, CrcOf(f[..offset]))
    ensures m.value.entries == Parse(MetaStart, f[HEADER_LEN..offset]).entries
  {
  }

  /** After the metadata the gap is empty and the payload is read at the offset. */
  lemma BodyOffsetInFile(f: seq<byte>, sz: nat, offset: nat, c: Cursor, m: Read<Meta>)
    requires c.pos <= offset <= |f| && m == ReadMetadata(f, c, offset, MetaStart) && m.Got? && m.cur.pos == offset
    ensures LoadBody(f, sz, offset, c) == LoadPayload(f, m.value.entries, PayloadLen(sz, offset), m.cur)
  {
    assert SkipGap(f, m.cur, offset) == Some(m.cur);
  }

  /** Reading a container succeeds exactly on a well-formed one, and yields
      the entries parsed from the metadata region and the payload bytes. */
  lemma LoadSpec(f: seq<byte>)
    ensures Load(f).Loaded? <==> WellFormed(f)
    ensures WellFormed(f) ==>
      Load(f) == Loaded(Parse(MetaStart, f[HEADER_LEN..Word(f, 12)]).entries, f[Word(f, 12)..PayloadEnd(f)])
    // the early exits are taken exactly when the payload offset lies inside the header
    ensures Load(f) == Abandoned <==> HeaderPasses(f) && Word(f, 12) < HEADER_LEN
  {
    if !HeaderPasses(f) {
      LoadBadHeader(f);
    } else if Word(f, 12) < HEADER_LEN {
      LoadOffsetInHeader(f);
    } else if Word(f, 12) > |f| {
      LoadOffsetPastEnd(f);
    } else {
      LoadOffsetInFile(f);
    }
  }

  /** A wrong magic, a wrong version or a short file fails. */
  lemma LoadBadHeader(f: seq<byte>)
    requires !HeaderPasses(f)
    ensures Load(f) == Failed
  {
    HeaderSpec(f);
  }

  /** A passing header hands over to the body reads. */
  lemma LoadHeader(f: seq<byte>)
    requires HeaderPasses(f)
    ensures ReadHeader(f).Some? && Tracks(f, ReadHeader(f).value.cur) && ReadHeader(f).value.cur.pos == HEADER_LEN
    ensures Load(f) == LoadBody(f, Word(f, 4), Word(f, 12), ReadHeader(f).value.cur)
  {
    HeaderSpec(f);
  }

  /** A payload offset inside the header abandons the open. */
  lemma LoadOffsetInHeader(f: seq<byte>)
    requires HeaderPasses(f) && Word(f, 12) < HEADER_LEN
    ensures Load(f) == Abandoned
  {
    LoadHeader(f);
    var hd := ReadHeader(f).value;
    BodySpec(f, Word(f, 4), Word(f, 12), hd.cur);
  }

  /** A payload offset beyond the end of the file fails. */
  lemma LoadOffsetPastEnd(f: seq<byte>)
    requires HeaderPasses(f) && HEADER_LEN <= Word(f, 12) && Word(f, 12) > |f|
    ensures Load(f) == Failed && !WellFormed(f)
  {
    LoadHeader(f);
    var hd := ReadHeader(f).value;
    BodySpec(f, Word(f, 4), Word(f, 12), hd.cur);
  }

  /** A payload offset within the file: the payload and trailer decide. */
  lemma LoadOffsetInFile(f: seq<byte>)
    requires HeaderPasses(f) && HEADER_LEN <= Word(f, 12) <= |f|
    ensures Load(f).Loaded? <==> WellFormed(f)
    ensures Load(f).Loaded? ==>
      Load(f) == Loaded(Parse(MetaStart, f[HEADER_LEN..Word(f, 12)]).entries, f[Word(f, 12)..PayloadEnd(f)])
    ensures Load(f) != Abandoned
  {
    var offset := Word(f, 12);
    var es := Parse(MetaStart, f[HEADER_LEN..offset]).entries;
    var c := Cursor(offset, CrcOf(f[..offset]));
    var len := PayloadLen(Word(f, 4), offset);
    var end := offset + len;
    LoadAtPayload(f, offset, es, c);
    PayloadSpec(f, es, len, c, end);
    WellFormedAt(f, end);
  }

  /** Well-formedness of a container whose header passes, at its payload end. */
  lemma WellFormedAt(f: seq<byte>, end: nat)
    requires HeaderPasses(f) && HEADER_LEN <= Word(f, 12) && end == PayloadEnd(f)
    ensures WellFormed(f) <==> end + 4 <= |f| && TrailerMatches(f, end)
    ensures end == PayloadEnd(f)
  {
  }

  /** With the offset within the file, the load is the payload read at the offset. */
  lemma LoadAtPayload(f: seq<byte>, offset: nat, es: seq<Entry>, c: Cursor)
    requires HeaderPasses(f) && offset == Word(f, 12) && HEADER_LEN <= offset <= |f|
    requires es == Parse(MetaStart, f[HEADER_LEN..offset]).entries && c == Cursor(offset, CrcOf(f[..offset]))
    ensures Tracks(f, c) && Load(f) == LoadPayload(f, es, PayloadLen(Word(f, 4), offset), c)
  {
    LoadHeader(f);
    var hd := ReadHeader(f).value;
    BodySpec(f, Word(f, 4), offset, hd.cur);
  }

  // ---------------------------------------------------------------------------
  // The container object

  /** A payload length fits the 32-bit length field. */
  type Payload = s: seq<byte> | |s| < TWO_32

  /** The reader object: whether it is open, its metadata entries and its
      payload. While closed both are empty. */
  datatype HcBinFile = HcBinFile(isOpen: bool, metadata: seq<Entry>, appData: Payload)

  const Closed: HcBinFile := HcBinFile(false, [], [])

  /** `close`: releases the payload and the entries and marks the object closed. */
  function Close(h: HcBinFile): (r: (HcBinFile, int))
    ensures !r.0.isOpen && r.0.metadata == [] && r.0.appData == [] && r.1 == SH2_OK
  {
    (Closed, SH2_OK)
  }

  /** Where `open` ends: an open object, or `close` with a status. The status
      of the early exits is a parameter: `open` as written returns success. */
  function Finish(o: Outcome, abandoned: int): (HcBinFile, int)
    requires o.Loaded? ==> |o.payload| < TWO_32
  {
    match o
    case Loaded(es, data) => (HcBinFile(true, es, data), SH2_OK)
    case Failed => (Close(Closed).0, SH2_ERR_BAD_PARAM)
    case Abandoned => (Close(Closed).0, abandoned)
  }

  /** A loaded payload is no longer than its 32-bit length field. */
  lemma LoadedFits(f: seq<byte>)
    ensures Load(f).Loaded? ==> |Load(f).payload| < TWO_32
  {
    LoadSpec(f);
  }

  /** `open` as written. `file` is None when the file cannot be opened. */
  function Open(h: HcBinFile, file: Option<seq<byte>>): (r: (HcBinFile, int))
    ensures h.isOpen ==> r == (h, SH2_ERR)
    ensures !h.isOpen && file.None? ==> r == (Closed, SH2_ERR_BAD_PARAM)
    ensures r.0.isOpen && !h.isOpen ==> r.1 == SH2_OK
    ensures !r.0.isOpen ==> r.0 == Closed
  {
    if h.isOpen then (h, SH2_ERR)
    else if file.None? then (Close(h).0, SH2_ERR_BAD_PARAM)
    else
      LoadedFits(file.value);
      Finish(Load(file.value), SH2_OK)
  }

  /** `open` with the early exits reported as a bad parameter. */
  function OpenChecked(h: HcBinFile, file: Option<seq<byte>>): (r: (HcBinFile, int))
    ensures h.isOpen ==> r == (h, SH2_ERR)
    // success is reported exactly when the object ends up open
    ensures !h.isOpen ==> (r.1 == SH2_OK <==> r.0.isOpen)
    ensures !r.0.isOpen ==> r.0 == Closed || h.isOpen
  {
    if h.isOpen then (h, SH2_ERR)
    else if file.None? then (Close(h).0, SH2_ERR_BAD_PARAM)
    else
      LoadedFits(file.value);
      Finish(Load(file.value), SH2_ERR_BAD_PARAM)
  }

  /** An open succeeds exactly on a well-formed container, and the object then
      holds the entries of its metadata region and its payload. The checked
      open agrees with the original everywhere but on the early exits. */
  lemma OpenSpec(h: HcBinFile, f: seq<byte>)
    requires !h.isOpen
    ensures Open(h, Some(f)).0.isOpen <==> WellFormed(f)
    ensures WellFormed(f) ==> Open(h, Some(f)).0.metadata == Parse(MetaStart, f[HEADER_LEN..Word(f, 12)]).entries
    ensures WellFormed(f) ==> Open(h, Some(f)).0.appData == f[Word(f, 12)..PayloadEnd(f)]
    ensures Load(f) != Abandoned ==> OpenChecked(h, Some(f)) == Open(h, Some(f))
  {
    LoadSpec(f);
  }

  /** The header of a container: magic, size, version, offset. */
  function Header(sz: uint32, offset: uint32): seq<byte> {
    Write32be(HCBIN_ID) + Write32be(sz) + Write32be(HCBIN_FF_VER) + Write32be(offset)
  }

  /** Four words written one after the other read back at their places. */
  lemma FourWords(a: uint32, b: uint32, c: uint32, d: uint32, f: seq<byte>)
    requires f == Write32be(a) + Write32be(b) + Write32be(c) + Write32be(d)
    ensures |f| == HEADER_LEN && Word(f, 0) == a && Word(f, 4) == b && Word(f, 8) == c && Word(f, 12) == d
  {
    var w0, w1, w2, w3 := Write32be(a), Write32be(b), Write32be(c), Write32be(d);
    assert f[0..4] == w0 && f[4..8] == w1 && f[8..12] == w2 && f[12..16] == w3;
  }

  /** Open as written reports success without opening when the payload offset
      lies inside the header: a bare header with offset 0 is one such file. */
  lemma OpenReportsSuccessUnopened(sz: uint32, offset: uint32)
    requires offset < HEADER_LEN
    ensures var r := Open(Closed, Some(Header(sz, offset)));
      r.1 == SH2_OK && !r.0.isOpen
    // the checked open reports the same file as a bad parameter
    ensures OpenChecked(Closed, Some(Header(sz, offset))).1 == SH2_ERR_BAD_PARAM
  {
    var f := Header(sz, offset);
    FourWords(HCBIN_ID, sz, HCBIN_FF_VER, offset, f);
    OpenAbandoned(Closed, f);
  }

  /** The two opens part ways on the early exits: a header that passes but
      puts the payload offset inside itself. */
  lemma OpenAbandoned(h: HcBinFile, f: seq<byte>)
    requires !h.isOpen && HeaderPasses(f) && Word(f, 12) < HEADER_LEN
    ensures Open(h, Some(f)) == (Closed, SH2_OK)
    ensures OpenChecked(h, Some(f)) == (Closed, SH2_ERR_BAD_PARAM)
  {
    LoadOffsetInHeader(f);
  }

  // ---------------------------------------------------------------------------
  // Accessors

  /** The value of the first entry whose key equals `key`. */
  function FirstMatch(es: seq<Entry>, key: seq<byte>): (r: Option<seq<byte>>)
    ensures r.Some? <==> exists i :: 0 <= i < |es| && es[i].key == key
    ensures r.Some? ==> exists i :: && 0 <= i < |es| && es[i].key == key && r.value == es[i].value
                                   && forall j :: 0 <= j < i ==> es[j].key != key
  {
    if |es| == 0 then None
    else if es[0].key == key then Some(es[0].value)
    else
      var r := FirstMatch(es[1..], key);
      assert forall i :: 1 <= i < |es| ==> es[i] == es[1..][i - 1];
      r
  }

  /** A C string: its bytes up to the terminating NUL. */
  type CString = s: seq<byte> | NUL !in s

  /** `getMeta`: nothing while closed, otherwise the value of the first entry
      whose key is `key`. */
  function GetMeta(h: HcBinFile, key: CString): (r: Option<seq<byte>>)
    ensures !h.isOpen ==> r.None?
    ensures h.isOpen ==> r == FirstMatch(h.metadata, key)
  {
    if !h.isOpen then None else FirstMatch(h.metadata, key)
  }

  /** `SH2_ERR` returned through a `uint32_t`. */
  const ERR_AS_UINT32: uint32 := (SH2_ERR + TWO_32) as nat

  /** `getAppLen`. */
  function GetAppLen(h: HcBinFile): (r: uint32)
    ensures h.isOpen ==> r == |h.appData|
    ensures !h.isOpen ==> r == TWO_32 - 1
  {
    if !h.isOpen then ERR_AS_UINT32 else |h.appData|
  }

  /** `getPacketLen`: this container has no preferred packet length. */
  function GetPacketLen(h: HcBinFile): (r: uint32)
    ensures h.isOpen ==> r == 0
    ensures !h.isOpen ==> r == TWO_32 - 1
  {
    if !h.isOpen then ERR_AS_UINT32 else 0
  }

  /** `getAppData` with the bound checked without 32-bit wrap-around: a slice
      of the payload, or an error status and no bytes. */
  function GetAppData(h: HcBinFile, offset: uint32, len: uint32): (r: (int, seq<byte>))
    ensures !h.isOpen ==> r == (SH2_ERR, [])
    ensures r.0 == SH2_OK <==> h.isOpen && offset + len <= |h.appData|
    ensures r.0 == SH2_OK ==> |r.1| == len && forall i :: 0 <= i < len ==> r.1[i] == h.appData[offset + i]
    ensures r.0 != SH2_OK ==> r.1 == [] && (r.0 == SH2_ERR || r.0 == SH2_ERR_BAD_PARAM)
  {
    if !h.isOpen then (SH2_ERR, [])
    else if offset + len > |h.appData| then (SH2_ERR_BAD_PARAM, [])
    else (SH2_OK, h.appData[offset..offset + len])
  }

  /** `getAppData` as written: the bound `offset + len` is computed in 32 bits.
      None when the copy would read outside the payload. */
  function GetAppDataAsWritten(h: HcBinFile, offset: uint32, len: uint32): (r: Option<(int, seq<byte>)>)
    // below the wrap-around it is the checked accessor
    ensures offset + len < TWO_32 ==> r == Some(GetAppData(h, offset, len))
  {
    if !h.isOpen then Some((SH2_ERR, []))
    else if (offset + len) % TWO_32 > |h.appData| then Some((SH2_ERR_BAD_PARAM, []))
    else if offset + len > |h.appData| then None
    else Some((SH2_OK, h.appData[offset..offset + len]))
  }

  /** The wrapped bound lets a read far outside the payload through: offset
      0xFFFFFFFF and length 2 add up to 1. */
  lemma WrappedBoundReadsOutside(payload: Payload)
    requires |payload| >= 1
    ensures GetAppDataAsWritten(HcBinFile(true, [], payload), 0xFFFF_FFFF, 2).None?
    ensures GetAppData(HcBinFile(true, [], payload), 0xFFFF_FFFF, 2).0 == SH2_ERR_BAD_PARAM
  {
  }

  /** Adjacent slices join into the slice that spans both. */
  lemma SlicesJoin(h: HcBinFile, offset: uint32, a: uint32, b: uint32)
    requires h.isOpen && offset + a + b <= |h.appData|
    ensures GetAppData(h, offset, a).1 + GetAppData(h, offset + a, b).1 == GetAppData(h, offset, a + b).1
  {
    assert h.appData[offset..offset + a] + h.appData[offset + a..offset + a + b]
      == h.appData[offset..offset + a + b];
  }

  // ---------------------------------------------------------------------------
  // Writing a container

  /** A metadata entry as a line: key, colon, space, value, line feed. */
  function Line(e: Entry): seq<byte> {
    e.key + [COLON, SPACE] + e.value + [LF]
  }

  /** Entries as metadata lines. */
  function Lines(es: seq<Entry>): seq<byte>
    decreases |es|
  {
    if |es| == 0 then [] else Line(es[0]) + Lines(es[1..])
  }

  /** Entries that survive being written as lines: keys without a colon or a
      terminator, values without a terminator. */
  predicate Writable(es: seq<Entry>) {
    forall i :: 0 <= i < |es| ==> CleanKey(es[i].key) && CleanValue(es[i].key) && CleanValue(es[i].value)
  }

  /** Parsing runs on the concatenation of two runs of bytes as on each in turn. */
  lemma {:induction false} ParseAppend(m: Meta, s: seq<byte>, t: seq<byte>)
    ensures Parse(m, s + t) == Parse(Parse(m, s), t)
    decreases |s|
  {
    if |s| > 0 {
      assert (s + t)[0] == s[0];
      assert (s + t)[1..] == s[1..] + t;
      ParseAppend(Feed(m, s[0]), s[1..], t);
    } else {
      assert s + t == t;
    }
  }

  /** Key bytes accumulate. */
  lemma {:induction false} ParseKey(k0: seq<byte>, k: seq<byte>, es: seq<Entry>)
    requires CleanKey(k)
    ensures Parse(Meta(InKey, k0, [], es), k) == Meta(InKey, k0 + k, [], es)
    decreases |k|
  {
    if |k| > 0 {
      assert k0 + k == (k0 + [k[0]]) + k[1..];
      ParseKey(k0 + [k[0]], k[1..], es);
    }
  }

  /** Value bytes accumulate. */
  lemma {:induction false} ParseValue(k: seq<byte>, v0: seq<byte>, v: seq<byte>, es: seq<Entry>)
    requires CleanValue(v)
    ensures Parse(Meta(InValue, k, v0, es), v) == Meta(InValue, k, v0 + v, es)
    decreases |v|
  {
    if |v| > 0 {
      assert v0 + v == (v0 + [v[0]]) + v[1..];
      ParseValue(k, v0 + [v[0]], v[1..], es);
    }
  }

  /** One line read from the start of a key. */
  lemma ParseLineFromKey(e: Entry, es: seq<Entry>)
    requires CleanKey(e.key) && CleanValue(e.value)
    ensures Parse(Meta(InKey, [], [], es), Line(e)) == Meta(AtEol, [], [], es + [e])
  {
    var m0 := Meta(InKey, [], [], es);
    ParseKey([], e.key, es);
    assert [] + e.key == e.key && [] + e.value == e.value;
    var m1 := Meta(InKey, e.key, [], es);
    assert Parse(m1, [COLON, SPACE]) == Meta(InValue, e.key, [], es) by {
      assert [COLON, SPACE][1..] == [SPACE];
      assert Parse(m1, [COLON, SPACE]) == Parse(m1.(phase := InSep), [SPACE]);
      assert Parse(m1.(phase := InSep), [SPACE]) == Parse(Meta(InValue, e.key, [], es), []);
    }
    ParseValue(e.key, [], e.value, es);
    var m2 := Meta(InValue, e.key, e.value, es);
    assert Parse(m2, [LF]) == Parse(Meta(AtEol, [], [], es + [e]), []);
    ParseAppend(m0, e.key, [COLON, SPACE]);
    ParseAppend(m0, e.key + [COLON, SPACE], e.value);
    ParseAppend(m0, e.key + [COLON, SPACE] + e.value, [LF]);
  }

  /** At the end of a line, a byte that is not a terminator is read as the
      first byte of a key. */
  lemma EolStartsKey(es: seq<Entry>, s: seq<byte>)
    requires |s| > 0 && !Terminator(s[0])
    ensures Parse(Meta(AtEol, [], [], es), s) == Parse(Meta(InKey, [], [], es), s)
  {
  }

  /** One line read from the start of a key or the end of the previous line. */
  lemma ParseLine(ph: Phase, e: Entry, es: seq<Entry>)
    requires ph == InKey || ph == AtEol
    requires CleanKey(e.key) && CleanValue(e.key) && CleanValue(e.value)
    ensures Parse(Meta(ph, [], [], es), Line(e)) == Meta(AtEol, [], [], es + [e])
  {
    ParseLineFromKey(e, es);
    if ph == AtEol {
      var l := Line(e);
      assert !Terminator(l[0]) by {
        if |e.key| > 0 { assert l[0] == e.key[0]; } else { assert l[0] == COLON; }
      }
      EolStartsKey(es, l);
    }
  }

  /** Metadata lines parse back into their entries, in order. */
  lemma {:induction false} ParseLines(ph: Phase, es0: seq<Entry>, es: seq<Entry>)
    requires ph == InKey || ph == AtEol
    requires Writable(es)
    ensures |es| > 0 ==> Parse(Meta(ph, [], [], es0), Lines(es)) == Meta(AtEol, [], [], es0 + es)
    ensures Parse(Meta(ph, [], [], es0), Lines(es)).entries == es0 + es
    decreases |es|
  {
    if |es| > 0 {
      var es1 := es0 + [es[0]];
      LinesStep(ph, es0, es);
      WritableTail(es);
      ParseLines(AtEol, es1, es[1..]);
      assert es1 + es[1..] == es0 + es;
      if |es| == 1 {
        assert es[1..] == [];
        NoLines(Meta(AtEol, [], [], es1));
      }
    } else {
      assert es == [];
      NoLines(Meta(ph, [], [], es0));
      assert es0 + es == es0;
    }
  }

  /** The first line of several is read into the first entry. */
  lemma LinesStep(ph: Phase, es0: seq<Entry>, es: seq<Entry>)
    requires ph == InKey || ph == AtEol
    requires |es| > 0 && Writable(es)
    ensures Parse(Meta(ph, [], [], es0), Lines(es)) == Parse(Meta(AtEol, [], [], es0 + [es[0]]), Lines(es[1..]))
  {
    var m := Meta(ph, [], [], es0);
    var l := Line(es[0]);
    var rest := Lines(es[1..]);
    assert Lines(es) == l + rest;
    WritableTail(es);
    ParseLine(ph, es[0], es0);
    ParseAppend(m, l, rest);
  }

  /** No lines leave the parser where it was. */
  lemma NoLines(m: Meta)
    ensures Parse(m, Lines([])) == m
  {
  }

  /** The entries after the first are writable too. */
  lemma WritableTail(es: seq<Entry>)
    requires |es| > 0 && Writable(es)
    ensures Writable(es[1..]) && CleanKey(es[0].key) && CleanValue(es[0].key) && CleanValue(es[0].value)
  {
    forall i | 0 <= i < |es[1..]|
      ensures CleanKey(es[1..][i].key) && CleanValue(es[1..][i].key) && CleanValue(es[1..][i].value)
    {
      assert es[1..][i] == es[i + 1];
    }
  }

  /** A container holding `es` and `payload`: header, metadata lines, payload,
      and the CRC-32 of all of it. */
  function Container(es: seq<Entry>, payload: seq<byte>): seq<byte>
    requires HEADER_LEN + |Lines(es)| + |payload| + 4 < TWO_32
  {
    var offset := HEADER_LEN + |Lines(es)|;
    var body := Header(offset + |payload| + 4, offset) + Lines(es) + payload;
    body + Write32be(Unsigned32(Checksum(body)))
  }

  /** Writing entries and a payload into a container and opening it gives them
      back. */
  lemma ContainerRoundTrip(es: seq<Entry>, payload: seq<byte>)
    requires Writable(es) && HEADER_LEN + |Lines(es)| + |payload| + 4 < TWO_32
    ensures var r := Open(Closed, Some(Container(es, payload)));
      r.1 == SH2_OK && r.0.isOpen && r.0.metadata == es && r.0.appData == payload
  {
    var f := Container(es, payload);
    var offset := HEADER_LEN + |Lines(es)|;
    var sz := offset + |payload| + 4;
    var body := Header(sz, offset) + Lines(es) + payload;
    var t := Write32be(Unsigned32(Checksum(body)));
    ContainerParts(es, payload, offset, sz, body, t);
    ContainerWellFormed(Lines(es), payload, f, offset, sz, body, t);
    ParseLines(InKey, [], es);
    assert [] + es == es;
    OpenSpec(Closed, f);
  }

  /** A written container is well formed, with the metadata lines and the
      payload where its header says. */
  lemma ContainerWellFormed(lines: seq<byte>, payload: seq<byte>, f: seq<byte>, offset: nat, sz: nat, body: seq<byte>, t: seq<byte>)
    requires HEADER_LEN + |lines| + |payload| + 4 < TWO_32
    requires offset == HEADER_LEN + |lines| && sz == offset + |payload| + 4
    requires body == Header(sz, offset) + lines + payload
    requires t == Write32be(Unsigned32(Checksum(body))) && f == body + t
    ensures WellFormed(f) && Word(f, 12) == offset && PayloadEnd(f) == |body|
    ensures f[HEADER_LEN..offset] == lines && f[offset..|body|] == payload
  {
    var hd := Header(sz, offset);
    TrailerAfter(f, body, t);
    FourWords(HCBIN_ID, sz, HCBIN_FF_VER, offset, hd);
    Layout(hd, lines, payload, body, f, HEADER_LEN, offset, |body|);
    HeaderInFront(f, hd, sz, offset);
    PayloadEndAt(f, sz, offset, |payload|);
    WellFormedAt(f, |body|);
  }

  /** The payload end of a header announcing `n` payload bytes. */
  lemma PayloadEndAt(f: seq<byte>, sz: nat, offset: nat, n: nat)
    requires |f| >= HEADER_LEN && Word(f, 4) == sz && Word(f, 12) == offset
    requires sz == offset + n + 4 && n < TWO_32
    ensures PayloadEnd(f) == offset + n
  {
  }

  /** A container is its body followed by the body's checksum. */
  lemma ContainerParts(es: seq<Entry>, payload: seq<byte>, offset: nat, sz: nat, body: seq<byte>, t: seq<byte>)
    requires HEADER_LEN + |Lines(es)| + |payload| + 4 < TWO_32
    requires offset == HEADER_LEN + |Lines(es)| && sz == offset + |payload| + 4
    requires body == Header(sz, offset) + Lines(es) + payload && t == Write32be(Unsigned32(Checksum(body)))
    ensures Container(es, payload) == body + t
  {
  }

  /** Where the parts of a container sit. */
  lemma Layout(hd: seq<byte>, lines: seq<byte>, payload: seq<byte>, body: seq<byte>, f: seq<byte>, a: nat, b: nat, e: nat)
    requires body == hd + lines + payload && |body| <= |f| && f[..|body|] == body
    requires a == |hd| && b == a + |lines| && e == b + |payload|
    ensures e == |body| && f[..a] == hd && f[a..b] == lines && f[b..e] == payload
  {
    assert f[..a] == body[..a];
    assert f[a..b] == body[a..b];
    assert f[b..e] == body[b..e];
  }

  /** A body followed by its checksum passes the trailer test. */
  lemma TrailerAfter(f: seq<byte>, body: seq<byte>, t: seq<byte>)
    requires f == body + t && t == Write32be(Unsigned32(Checksum(body)))
    ensures |body| + 4 == |f| && f[..|body|] == body && TrailerMatches(f, |body|)
  {
    assert f[..|body|] == body;
    assert f[|body|..|body| + 4] == t;
  }

  /** A file that starts with a written header reads that header back. */
  lemma HeaderInFront(f: seq<byte>, hd: seq<byte>, sz: uint32, offset: uint32)
    requires hd == Header(sz, offset) && |hd| == HEADER_LEN <= |f| && f[..HEADER_LEN] == hd
    ensures HeaderPasses(f) && Word(f, 4) == sz && Word(f, 12) == offset
  {
    FourWords(HCBIN_ID, sz, HCBIN_FF_VER, offset, hd);
    WordInPrefix(f, hd, 0);
    WordInPrefix(f, hd, 4);
    WordInPrefix(f, hd, 8);
    WordInPrefix(f, hd, 12);
  }

  /** A word inside a prefix reads the same in the whole. */
  lemma WordInPrefix(f: seq<byte>, p: seq<byte>, i: nat)
    requires |p| <= |f| && f[..|p|] == p && i + 4 <= |p|
    ensures Word(f, i) == Word(p, i)
  {
    assert f[i..i + 4] == p[i..i + 4];
  }
}
