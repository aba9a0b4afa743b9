/** A ZIP reader for archives without comments or extra fields, written from
    the record layouts of PKWARE APPNOTE.TXT rather than from the writer: it
    finds the end of central directory record at the end of the stream,
    walks the central directory it points to, and follows every central
    record's offset to its local record to fetch the stored bytes. It is the
    independent partner the writer's layout is checked against. */
module ZipReader {
  import opened Common
  import opened JsBits
  import opened LittleEndian
  import opened DosTime
  import opened ZipLayout

  /** Reads consecutive little-endian fields of the given widths. */
  function ReadFields(bs: seq<Byte>, ws: seq<FieldWidth>): (vs: seq<nat>)
    requires TotalWidth(ws) <= |bs|
    ensures |vs| == |ws|
  {
    if |ws| == 0 then []
    else
      var v := if ws[0] == 2 then ReadLE16(bs[..2]) else ReadLE32(bs[..4]);
      [v] + ReadFields(bs[ws[0]..], ws[1..])
  }

  function Values(fs: seq<Field>): (vs: seq<nat>)
    ensures |vs| == |fs|
    ensures forall i :: 0 <= i < |fs| ==> vs[i] == FieldValue(fs[i])
  {
    seq(|fs|, i requires 0 <= i < |fs| => FieldValue(fs[i]))
  }

  /** Reading encoded fields back with their own widths recovers every value
      modulo its width, whatever follows them. */
  lemma {:induction false} ReadEncodedFields(fs: seq<Field>, rest: seq<Byte>)
    ensures TotalWidth(Shape(fs)) <= |EncodeFields(fs) + rest|
    ensures ReadFields(EncodeFields(fs) + rest, Shape(fs)) == Values(fs)
  {
    EncodedLength(fs);
    if |fs| > 0 {
      EncodeFieldsCons(fs);
      var bs := EncodeFields(fs) + rest;
      var head := EncodeField(fs[0]);
      var tail := EncodeFields(fs[1..]) + rest;
      assert bs == head + tail;
      assert Shape(fs)[1..] == Shape(fs[1..]);
      ReadEncodedFields(fs[1..], rest);
      ReadHeadField(fs[0], tail);
      assert Values(fs) == [FieldValue(fs[0])] + Values(fs[1..]);
    }
  }

  /** The first field reads back as its value, and the rest starts right
      after it. */
  lemma ReadHeadField(f: Field, tail: seq<Byte>)
    ensures var bs := EncodeField(f) + tail;
      && Width(f) <= |bs|
      && (if Width(f) == 2 then ReadLE16(bs[..2]) else ReadLE32(bs[..4])) == FieldValue(f)
      && bs[Width(f)..] == tail
  {
    var bs := EncodeField(f) + tail;
    match f
    case U16(v) =>
      assert bs[..2] == EncodeField(f);
      LE16RoundTrip(v);
    case U32(v) =>
      assert bs[..4] == EncodeField(f);
      LE32RoundTrip(v);
  }

  const LOCAL_SHAPE: seq<FieldWidth> := [4, 2, 2, 2, 2, 2, 4, 4, 4, 2, 2]
  const CENTRAL_FRONT: seq<FieldWidth> := [4, 2, 2, 2, 2, 2, 2, 4]
  const CENTRAL_BACK: seq<FieldWidth> := [4, 4, 2, 2, 2, 2, 2, 4, 4]
  const END_SHAPE: seq<FieldWidth> := [4, 2, 2, 2, 2, 4, 4, 2]

  lemma LocalShapeWidth()
    ensures TotalWidth(LOCAL_SHAPE) == 30
  {
    var front: seq<FieldWidth> := [4, 2, 2, 2, 2, 2];
    var back: seq<FieldWidth> := [4, 4, 4, 2, 2];
    assert TotalWidth(front) == 14;
    assert TotalWidth(back) == 16;
    assert LOCAL_SHAPE == front + back;
    TotalWidthConcat(front, back);
  }

  lemma CentralShapeWidth()
    ensures TotalWidth(CENTRAL_FRONT) == 20
    ensures TotalWidth(CENTRAL_BACK) == 26
  {
  }

  lemma EndShapeWidth()
    ensures TotalWidth(END_SHAPE) == 22
  {
    var front: seq<FieldWidth> := [4, 2, 2, 2];
    var back: seq<FieldWidth> := [2, 4, 4, 2];
    assert TotalWidth(front) == 10;
    assert TotalWidth(back) == 12;
    assert END_SHAPE == front + back;
    TotalWidthConcat(front, back);
  }

  /** The eleven fields of the local file header at k. */
  function LocalFields(bs: seq<Byte>, k: nat): (h: seq<nat>)
    requires k + 30 <= |bs|
    ensures |h| == 11
  {
    LocalShapeWidth();
    ReadFields(bs[k..], LOCAL_SHAPE)
  }

  /** The central header at k up to the CRC. */
  function CentralFrontFields(bs: seq<Byte>, k: nat): (a: seq<nat>)
    requires k + 20 <= |bs|
    ensures |a| == 8
  {
    CentralShapeWidth();
    ReadFields(bs[k..], CENTRAL_FRONT)
  }

  /** The central header at k from the sizes on. */
  function CentralBackFields(bs: seq<Byte>, k: nat): (b: seq<nat>)
    requires k + 46 <= |bs|
    ensures |b| == 9
  {
    CentralShapeWidth();
    ReadFields(bs[k + 20..], CENTRAL_BACK)
  }

  /** The fields of the end record in the last 22 bytes. */
  function EndFields(bs: seq<Byte>): (h: seq<nat>)
    requires 22 <= |bs|
    ensures |h| == 8
  {
    EndShapeWidth();
    ReadFields(bs[|bs| - 22..], END_SHAPE)
  }

  /** A run of encoded fields, wherever it sits, reads back as its values. */
  lemma FieldsRead(fs: seq<Field>, bs: seq<Byte>, rest: seq<Byte>, ws: seq<FieldWidth>)
    requires bs == EncodeFields(fs) + rest && Shape(fs) == ws
    ensures TotalWidth(ws) <= |bs| && ReadFields(bs, ws) == Values(fs)
  {
    ReadEncodedFields(fs, rest);
  }

  // ---------------------------------------------------------------- records

  /** The fields of a local file header as a reader sees them. */
  datatype LocalInfo = LocalInfo(version: nat, flags: nat, compressionMethod: nat, time: nat, date: nat, crc: nat,
                                 compressedSize: nat, size: nat, name: seq<Byte>, data: seq<Byte>)

  /** The local record at position k: header, name, extra field, data. */
  function ParseLocal(bs: seq<Byte>, k: nat): Option<LocalInfo>
  {
    if k + 30 > |bs| then None
    else
      var h := LocalFields(bs, k);
      var nameEnd := k + 30 + h[9];
      var dataStart := nameEnd + h[10];
      var dataEnd := dataStart + h[7];
      if h[0] != LOCAL_SIGNATURE || dataEnd > |bs| then None
      else Some(LocalInfo(h[1], h[2], h[3], h[4], h[5], h[6], h[7], h[8], bs[k + 30..nameEnd], bs[dataStart..dataEnd]))
  }

  /** The fields of a central directory header as a reader sees them. */
  datatype CentralInfo = CentralInfo(madeBy: nat, version: nat, flags: nat, compressionMethod: nat, time: nat, date: nat,
                                     crc: nat, compressedSize: nat, size: nat, name: seq<Byte>,
                                     externalAttributes: nat, offset: nat)

  /** The central record at position k and the position after it. The
      header is read in two runs of fields: up to the CRC, and from the sizes on. */
  function ParseCentral(bs: seq<Byte>, k: nat): Option<(CentralInfo, nat)>
  {
    if k + 46 > |bs| then None
    else
      var a := CentralFrontFields(bs, k);
      var b := CentralBackFields(bs, k);
      var nameEnd := k + 46 + b[2];
      var next := nameEnd + b[3] + b[4];
      if a[0] != CENTRAL_SIGNATURE || next > |bs| then None
      else
        var info := CentralInfo(a[1], a[2], a[3], a[4], a[5], a[6], a[7], b[0], b[1], bs[k + 46..nameEnd], b[7], b[8]);
        Some((info, next))
  }

  /** n consecutive central records starting at position k. */
  function ParseCentrals(bs: seq<Byte>, k: nat, n: nat): Option<seq<CentralInfo>>
    decreases n
  {
    if n == 0 then Some([])
    else
      var (c, next) :- ParseCentral(bs, k);
      var rest :- ParseCentrals(bs, next, n - 1);
      Some([c] + rest)
  }

  datatype EndInfo = EndInfo(entriesOnDisk: nat, entries: nat, directorySize: nat, directoryOffset: nat)

  /** The end of central directory record, the last 22 bytes of an archive
      without a comment. */
  function ParseEnd(bs: seq<Byte>): Option<EndInfo>
  {
    if |bs| < 22 then None
    else
      var h := EndFields(bs);
      if h[0] != END_SIGNATURE || h[7] != 0 then None
      else Some(EndInfo(h[3], h[4], h[5], h[6]))
  }

  /** What an unzipper reports for one member. */
  datatype Member = Member(name: seq<Byte>, compressionMethod: nat, crc: nat, data: seq<Byte>, size: nat, directory: bool)

  function ReadMembers(bs: seq<Byte>, cds: seq<CentralInfo>): Option<seq<Member>>
  {
    if |cds| == 0 then Some([])
    else
      var local :- ParseLocal(bs, cds[0].offset);
      if !Agrees(local, cds[0]) then None
      else
        var rest :- ReadMembers(bs, cds[1..]);
        Some([MemberOf(cds[0], local)] + rest)
  }

  /** A local header repeats what its central record says about the entry:
      name, version, flags, method, stamp, CRC and both sizes, and it holds
      as many data bytes as the compressed size. */
  predicate Agrees(local: LocalInfo, c: CentralInfo)
  {
    && local.name == c.name && local.version == c.version && local.flags == c.flags
    && local.compressionMethod == c.compressionMethod && local.time == c.time && local.date == c.date
    && local.crc == c.crc && local.compressedSize == c.compressedSize && local.size == c.size
    && |local.data| == c.compressedSize
  }

  /** A member as its central record describes it, with the bytes its local
      record holds; external attributes 0x10 mark a directory. */
  function MemberOf(c: CentralInfo, local: LocalInfo): Member
  {
    Member(c.name, c.compressionMethod, c.crc, local.data, c.size, c.externalAttributes == 0x10)
  }

  function ReadArchive(bs: seq<Byte>): Option<seq<Member>>
  {
    var end :- ParseEnd(bs);
    var cds :- ParseCentrals(bs, end.directoryOffset, end.entries);
    ReadMembers(bs, cds)
  }

  // ---------------------------------------------------------------- reading the writer's records

  /** A local record as the writer lays it out parses back to its fields,
      its name and its stored bytes. */
  lemma ParseLocalRecord(stamp: DosDateTime, f: Realized, bs: seq<Byte>, k: nat, rest: seq<Byte>)
    requires k <= |bs| && bs[k..] == LocalRecord(stamp, f) + rest
    requires |f.name| < TWO16 && |f.stored| < TWO32
    ensures ParseLocal(bs, k) == Some(LocalInfo(VersionNeeded(f), 0, Method(f), stamp.time % TWO16, stamp.date % TWO16,
                                                f.crc % TWO32, |f.stored|, f.size % TWO32, f.name, f.stored))
  {
    LocalFieldsAt(stamp, f, bs, k, rest);
    LocalSlicesAt(stamp, f, bs, k, rest);
    var h := LocalValues(stamp, f);
    assert h[7] == |f.stored| && h[9] == |f.name|;
    ParseLocalAt(bs, k, h);
  }

  /** The local record at k, given the values its header reads as. */
  lemma ParseLocalAt(bs: seq<Byte>, k: nat, h: seq<nat>)
    requires k + 30 <= |bs| && LocalFields(bs, k) == h
    requires |h| == 11 && h[0] == LOCAL_SIGNATURE && h[10] == 0 && k + 30 + h[9] + h[7] <= |bs|
    ensures ParseLocal(bs, k) == Some(LocalInfo(h[1], h[2], h[3], h[4], h[5], h[6], h[7], h[8],
                                                bs[k + 30..k + 30 + h[9]], bs[k + 30 + h[9]..k + 30 + h[9] + h[7]]))
  {
  }

  lemma LocalFieldsAt(stamp: DosDateTime, f: Realized, bs: seq<Byte>, k: nat, rest: seq<Byte>)
    requires k <= |bs| && bs[k..] == LocalRecord(stamp, f) + rest
    requires |f.name| < TWO16 && |f.stored| < TWO32
    ensures k + 30 <= |bs| && LocalFields(bs, k) == LocalValues(stamp, f)
  {
    var h := LocalHeader(stamp, f);
    LocalRecordSplit(stamp, f);
    LocalHeaderWidth(stamp, f);
    LocalHeaderShape(stamp, f);
    LocalHeaderValues(stamp, f);
    LocalFieldsRead(bs, k, h, f.name + f.stored + rest);
  }

  lemma LocalFieldsRead(bs: seq<Byte>, k: nat, h: seq<Field>, rest: seq<Byte>)
    requires k + 30 <= |bs| && bs[k..] == EncodeFields(h) + rest && Shape(h) == LOCAL_SHAPE
    ensures LocalFields(bs, k) == Values(h)
  {
    FieldsRead(h, bs[k..], rest, LOCAL_SHAPE);
  }

  lemma LocalSlicesAt(stamp: DosDateTime, f: Realized, bs: seq<Byte>, k: nat, rest: seq<Byte>)
    requires k <= |bs| && bs[k..] == LocalRecord(stamp, f) + rest
    ensures k + 30 + |f.name| + |f.stored| <= |bs|
    ensures bs[k + 30..k + 30 + |f.name|] == f.name
    ensures bs[k + 30 + |f.name|..k + 30 + |f.name| + |f.stored|] == f.stored
  {
    LocalRecordSplit(stamp, f);
    LocalHeaderWidth(stamp, f);
    PiecesAt(bs, k, EncodeFields(LocalHeader(stamp, f)), f.name, f.stored, rest);
  }

  /** Where a header followed by two pieces sits at k, each piece can be
      sliced back out at its offset. */
  lemma PiecesAt(bs: seq<Byte>, k: nat, head: seq<Byte>, a: seq<Byte>, b: seq<Byte>, rest: seq<Byte>)
    requires k <= |bs| && bs[k..] == head + (a + b) + rest
    ensures k + |head| + |a| + |b| <= |bs|
    ensures bs[k + |head|..k + |head| + |a|] == a
    ensures bs[k + |head| + |a|..k + |head| + |a| + |b|] == b
  {
    var n := k + |head|;
    assert bs[n..n + |a|] == bs[k..][|head|..|head| + |a|];
    assert bs[n + |a|..n + |a| + |b|] == bs[k..][|head| + |a|..|head| + |a| + |b|];
  }

  /** The values a reader finds in the writer's local header. */
  function LocalValues(stamp: DosDateTime, f: Realized): seq<nat>
  {
    [LOCAL_SIGNATURE, VersionNeeded(f), 0, Method(f), stamp.time % TWO16, stamp.date % TWO16,
     f.crc % TWO32, |f.stored| % TWO32, f.size % TWO32, |f.name| % TWO16, 0]
  }

  lemma LocalHeaderValues(stamp: DosDateTime, f: Realized)
    ensures Values(LocalHeader(stamp, f)) == LocalValues(stamp, f)
  {
  }

  /** The central header split as a reader sees it: eight fields up to the
      CRC, then nine with each zero 32-bit field read as two 16-bit ones. */
  function CentralFront(stamp: DosDateTime, f: Realized): seq<Field>
  {
    [U32(CENTRAL_SIGNATURE), U16(VERSION_MADE_BY), U16(VersionNeeded(f)), U16(0), U16(Method(f)),
     U16(stamp.time), U16(stamp.date), U32(f.crc)]
  }

  function CentralBackAsRead(f: Realized, offset: int): seq<Field>
  {
    [U32(|f.stored|), U32(f.size), U16(|f.name|), U16(0), U16(0), U16(0), U16(0), U32(ExternalAttributes(f)), U32(offset)]
  }

  lemma CentralHeaderAsRead(stamp: DosDateTime, f: Realized, offset: int)
    ensures EncodeFields(CentralHeader(stamp, f, offset))
         == EncodeFields(CentralFront(stamp, f)) + EncodeFields(CentralBackAsRead(f, offset))
  {
    var front := CentralFront(stamp, f);
    var mid := [U32(|f.stored|), U32(f.size), U16(|f.name|)];
    var last := [U32(ExternalAttributes(f)), U32(offset)];
    assert CentralHeader(stamp, f, offset) == (front + mid) + [U32(0)] + ([U32(0)] + last);
    SplitZeroField(front + mid, [U32(0)] + last);
    assert (front + mid) + [U16(0), U16(0)] + ([U32(0)] + last) == (front + mid + [U16(0), U16(0)]) + [U32(0)] + last;
    SplitZeroField(front + mid + [U16(0), U16(0)], last);
    assert (front + mid + [U16(0), U16(0)]) + [U16(0), U16(0)] + last == front + CentralBackAsRead(f, offset);
    EncodeFieldsConcat(front, CentralBackAsRead(f, offset));
  }

  /** A central record as the writer lays it out parses back to its fields
      and its name, and the next record starts right after the name. */
  lemma ParseCentralRecord(stamp: DosDateTime, f: Realized, offset: int, bs: seq<Byte>, k: nat, rest: seq<Byte>)
    requires k <= |bs| && bs[k..] == CentralRecord(stamp, f, offset) + rest
    requires |f.name| < TWO16
    ensures ParseCentral(bs, k) == Some((CentralInfo(VERSION_MADE_BY, VersionNeeded(f), 0, Method(f),
                                                     stamp.time % TWO16, stamp.date % TWO16, f.crc % TWO32,
                                                     |f.stored| % TWO32, f.size % TWO32, f.name,
                                                     ExternalAttributes(f), offset % TWO32),
                                         k + 46 + |f.name|))
  {
    CentralFieldsAt(stamp, f, offset, bs, k, rest);
    CentralRecordLength(stamp, f, offset);
    PiecesAt(bs, k, EncodeFields(CentralHeader(stamp, f, offset)), f.name, [], rest);
    CentralFrontValues(stamp, f);
    CentralBackValues(f, offset);
    ParseCentralAt(bs, k, Values(CentralFront(stamp, f)), Values(CentralBackAsRead(f, offset)));
  }

  /** The central record at k, given the values its header reads as. */
  lemma ParseCentralAt(bs: seq<Byte>, k: nat, a: seq<nat>, b: seq<nat>)
    requires k + 46 <= |bs| && CentralFrontFields(bs, k) == a && CentralBackFields(bs, k) == b
    requires a[0] == CENTRAL_SIGNATURE && b[3] == 0 && b[4] == 0 && k + 46 + b[2] <= |bs|
    ensures ParseCentral(bs, k) == Some((CentralInfo(a[1], a[2], a[3], a[4], a[5], a[6], a[7], b[0], b[1],
                                                     bs[k + 46..k + 46 + b[2]], b[7], b[8]),
                                         k + 46 + b[2]))
  {
  }

  lemma CentralFrontValues(stamp: DosDateTime, f: Realized)
    ensures Values(CentralFront(stamp, f)) == [CENTRAL_SIGNATURE, VERSION_MADE_BY, VersionNeeded(f), 0, Method(f),
                                               stamp.time % TWO16, stamp.date % TWO16, f.crc % TWO32]
  {
  }

  lemma CentralBackValues(f: Realized, offset: int)
    requires |f.name| < TWO16
    ensures Values(CentralBackAsRead(f, offset)) == [|f.stored| % TWO32, f.size % TWO32, |f.name|, 0, 0, 0, 0,
                                                     ExternalAttributes(f), offset % TWO32]
  {
  }

  lemma CentralRecordAsRead(stamp: DosDateTime, f: Realized, offset: int)
    ensures |EncodeFields(CentralFront(stamp, f))| == 20
    ensures CentralRecord(stamp, f, offset)
         == EncodeFields(CentralFront(stamp, f)) + (EncodeFields(CentralBackAsRead(f, offset)) + f.name)
  {
    CentralHeaderAsRead(stamp, f, offset);
    EncodedLength(CentralFront(stamp, f));
    CentralShapeWidth();
    CentralFrontShape(stamp, f);
  }

  lemma CentralFieldsAt(stamp: DosDateTime, f: Realized, offset: int, bs: seq<Byte>, k: nat, rest: seq<Byte>)
    requires k <= |bs| && bs[k..] == CentralRecord(stamp, f, offset) + rest
    ensures k + 46 <= |bs|
    ensures CentralFrontFields(bs, k) == Values(CentralFront(stamp, f))
    ensures CentralBackFields(bs, k) == Values(CentralBackAsRead(f, offset))
  {
    CentralRecordAsRead(stamp, f, offset);
    var back := EncodeFields(CentralBackAsRead(f, offset)) + (f.name + rest);
    assert bs[k..] == EncodeFields(CentralFront(stamp, f)) + back;
    assert bs[k + 20..] == back;
    CentralFrontAt(stamp, f, bs, k, back);
    CentralBackAt(f, offset, bs, k, f.name + rest);
  }

  lemma CentralFrontAt(stamp: DosDateTime, f: Realized, bs: seq<Byte>, k: nat, rest: seq<Byte>)
    requires k + 20 <= |bs| && bs[k..] == EncodeFields(CentralFront(stamp, f)) + rest
    ensures CentralFrontFields(bs, k) == Values(CentralFront(stamp, f))
  {
    CentralFrontShape(stamp, f);
    FieldsRead(CentralFront(stamp, f), bs[k..], rest, CENTRAL_FRONT);
  }

  lemma CentralBackAt(f: Realized, offset: int, bs: seq<Byte>, k: nat, rest: seq<Byte>)
    requires k + 46 <= |bs| && bs[k + 20..] == EncodeFields(CentralBackAsRead(f, offset)) + rest
    ensures CentralBackFields(bs, k) == Values(CentralBackAsRead(f, offset))
  {
    CentralBackShape(f, offset);
    FieldsRead(CentralBackAsRead(f, offset), bs[k + 20..], rest, CENTRAL_BACK);
  }

  /** The end record as the writer lays it out, read as a reader sees it. */
  function EndAsRead(count: int, directorySize: int, directoryOffset: int): seq<Field>
  {
    [U32(END_SIGNATURE), U16(0), U16(0), U16(count), U16(count), U32(directorySize), U32(directoryOffset), U16(0)]
  }

  lemma ParseEndRecord(prefix: seq<Byte>, count: int, directorySize: int, directoryOffset: int)
    ensures ParseEnd(prefix + EndRecord(count, directorySize, directoryOffset))
         == Some(EndInfo(count % TWO16, count % TWO16, directorySize % TWO32, directoryOffset % TWO32))
  {
    var bs := prefix + EndRecord(count, directorySize, directoryOffset);
    var rest := [U16(count), U16(count), U32(directorySize), U32(directoryOffset), U16(0)];
    assert EndHeader(count, directorySize, directoryOffset) == [U32(END_SIGNATURE)] + [U32(0)] + rest;
    SplitZeroField([U32(END_SIGNATURE)], rest);
    assert [U32(END_SIGNATURE)] + [U16(0), U16(0)] + rest == EndAsRead(count, directorySize, directoryOffset);
    var h := EndAsRead(count, directorySize, directoryOffset);
    assert bs[|bs| - 22..] == EncodeFields(h) + [];
    EndShape(count, directorySize, directoryOffset);
    EndFieldsRead(bs, h);
  }

  lemma EndFieldsRead(bs: seq<Byte>, h: seq<Field>)
    requires 22 <= |bs| && bs[|bs| - 22..] == EncodeFields(h) + [] && Shape(h) == END_SHAPE
    ensures EndFields(bs) == Values(h)
  {
    FieldsRead(h, bs[|bs| - 22..], [], END_SHAPE);
  }

  // ---------------------------------------------------------------- the widths the reader expects

  lemma LocalHeaderShape(stamp: DosDateTime, f: Realized)
    ensures Shape(LocalHeader(stamp, f)) == LOCAL_SHAPE
  {
  }

  lemma CentralFrontShape(stamp: DosDateTime, f: Realized)
    ensures Shape(CentralFront(stamp, f)) == CENTRAL_FRONT
  {
  }

  lemma CentralBackShape(f: Realized, offset: int)
    ensures Shape(CentralBackAsRead(f, offset)) == CENTRAL_BACK
  {
  }

  lemma EndShape(count: int, directorySize: int, directoryOffset: int)
    ensures Shape(EndAsRead(count, directorySize, directoryOffset)) == END_SHAPE
  {
  }
}
