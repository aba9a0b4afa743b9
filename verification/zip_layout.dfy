/** The byte layout of the archive `generate` emits (PKWARE APPNOTE.TXT,
    sections 4.3.7 local file header, 4.3.12 central directory header and
    4.3.16 end of central directory record), over entries whose contents
    have already been resolved, checksummed and compressed. */
module ZipLayout {
  import opened Common
  import opened JsBits
  import opened LittleEndian
  import opened DosTime

  /** A little-endian integer field of a record, by width. */
  datatype Field = U16(v: int) | U32(v: int)

  type FieldWidth = w: nat | w == 2 || w == 4 witness 2

  function Width(f: Field): FieldWidth
  {
    if f.U16? then 2 else 4
  }

  function EncodeField(f: Field): (b: seq<Byte>)
    ensures |b| == Width(f)
  {
    match f
    case U16(v) => LE16(v)
    case U32(v) => LE32(v)
  }

  /** The value a reader recovers from a field: the number modulo 2^(8*width). */
  function FieldValue(f: Field): nat
  {
    match f
    case U16(v) => v % TWO16
    case U32(v) => v % TWO32
  }

  /** The byte arrays a record is assembled from, one per field. */
  function FieldParts(fs: seq<Field>): (parts: seq<seq<Byte>>)
    ensures |parts| == |fs|
    ensures forall i :: 0 <= i < |fs| ==> parts[i] == EncodeField(fs[i])
  {
    seq(|fs|, i requires 0 <= i < |fs| => EncodeField(fs[i]))
  }

  function Shape(fs: seq<Field>): (ws: seq<FieldWidth>)
    ensures |ws| == |fs|
    ensures forall i :: 0 <= i < |fs| ==> ws[i] == Width(fs[i])
  {
    seq(|fs|, i requires 0 <= i < |fs| => Width(fs[i]))
  }

  function TotalWidth(ws: seq<FieldWidth>): nat
  {
    if |ws| == 0 then 0 else ws[0] + TotalWidth(ws[1..])
  }

  function EncodeFields(fs: seq<Field>): seq<Byte>
  {
    Flatten(FieldParts(fs))
  }

  // ---------------------------------------------------------------- entries

  /** An entry after content resolution: its name as UTF-8 bytes, whether it
      is deflated and whether it is a directory, its CRC-32 as the checksum
      routine returned it, the bytes written to the archive and the length
      of the content before compression. */
  datatype Realized = Realized(name: seq<Byte>, deflated: bool, directory: bool, crc: int, stored: seq<Byte>, size: nat)

  /** `compression === 'deflate' ? 20 : 10` */
  function VersionNeeded(f: Realized): int { if f.deflated then 20 else 10 }

  /** `compression === 'deflate' ? 8 : 0` */
  function Method(f: Realized): int { if f.deflated then 8 else 0 }

  /** `type === 'directory' ? 0x10 : 0x20` */
  function ExternalAttributes(f: Realized): int { if f.directory then 0x10 else 0x20 }

  const LOCAL_SIGNATURE: int := 0x04034b50
  const CENTRAL_SIGNATURE: int := 0x02014b50
  const END_SIGNATURE: int := 0x06054b50
  const VERSION_MADE_BY: int := 0x20

  /** The eleven fixed fields of a local file header. */
  function LocalHeader(stamp: DosDateTime, f: Realized): seq<Field>
  {
    [U32(LOCAL_SIGNATURE), U16(VersionNeeded(f)), U16(0), U16(Method(f)), U16(stamp.time), U16(stamp.date),
     U32(f.crc), U32(|f.stored|), U32(f.size), U16(|f.name|), U16(0)]
  }

  /** The pieces of `localRecord`: header fields, name bytes, stored bytes. */
  function LocalParts(stamp: DosDateTime, f: Realized): seq<seq<Byte>>
  {
    FieldParts(LocalHeader(stamp, f)) + [f.name, f.stored]
  }

  function LocalRecord(stamp: DosDateTime, f: Realized): (r: seq<Byte>)
    ensures |r| == 30 + |f.name| + |f.stored|
  {
    LocalRecordLength(stamp, f);
    Flatten(LocalParts(stamp, f))
  }

  /** The fifteen fixed fields of a central directory header, with the two
      pairs of zero 16-bit fields written as one zero 32-bit field each. */
  function CentralHeader(stamp: DosDateTime, f: Realized, offset: int): seq<Field>
  {
    [U32(CENTRAL_SIGNATURE), U16(VERSION_MADE_BY), U16(VersionNeeded(f)), U16(0), U16(Method(f)),
     U16(stamp.time), U16(stamp.date), U32(f.crc), U32(|f.stored|), U32(f.size), U16(|f.name|),
     U32(0), U32(0), U32(ExternalAttributes(f)), U32(offset)]
  }

  function CentralRecord(stamp: DosDateTime, f: Realized, offset: int): (r: seq<Byte>)
    ensures |r| == 46 + |f.name|
  {
    CentralRecordLength(stamp, f, offset);
    EncodeFields(CentralHeader(stamp, f, offset)) + f.name
  }

  function EndHeader(count: int, directorySize: int, directoryOffset: int): seq<Field>
  {
    [U32(END_SIGNATURE), U32(0), U16(count), U16(count), U32(directorySize), U32(directoryOffset), U16(0)]
  }

  function EndRecord(count: int, directorySize: int, directoryOffset: int): (r: seq<Byte>)
    ensures |r| == 22
  {
    EndRecordLength(count, directorySize, directoryOffset);
    EncodeFields(EndHeader(count, directorySize, directoryOffset))
  }

  // ---------------------------------------------------------------- archive

  function LocalRecords(stamp: DosDateTime, fs: seq<Realized>): (rs: seq<seq<Byte>>)
    ensures |rs| == |fs|
    ensures forall i :: 0 <= i < |fs| ==> rs[i] == LocalRecord(stamp, fs[i])
  {
    seq(|fs|, i requires 0 <= i < |fs| => LocalRecord(stamp, fs[i]))
  }

  /** Where the local record of entry i begins: the total length of the
      local records before it. */
  function LocalOffset(stamp: DosDateTime, fs: seq<Realized>, i: nat): nat
    requires i <= |fs|
  {
    SumLengths(LocalRecords(stamp, fs)[..i])
  }

  function CentralRecords(stamp: DosDateTime, fs: seq<Realized>): (rs: seq<seq<Byte>>)
    ensures |rs| == |fs|
    ensures forall i :: 0 <= i < |fs| ==> rs[i] == CentralRecord(stamp, fs[i], LocalOffset(stamp, fs, i))
  {
    seq(|fs|, i requires 0 <= i < |fs| => CentralRecord(stamp, fs[i], LocalOffset(stamp, fs, i)))
  }

  /** The whole archive: every local record in registration order, then every
      central directory record in the same order, then the end record. */
  function Archive(stamp: DosDateTime, fs: seq<Realized>): seq<Byte>
  {
    var locals := LocalRecords(stamp, fs);
    var centrals := CentralRecords(stamp, fs);
    Flatten(locals) + Flatten(centrals) + EndRecord(|fs|, SumLengths(centrals), SumLengths(locals))
  }

  // ---------------------------------------------------------------- offsets

  /** Each local record moves the next offset on by its 30 fixed bytes, its
      name and its stored bytes: the bookkeeping `byteIndex` does. */
  lemma LocalOffsetAdvance(stamp: DosDateTime, fs: seq<Realized>, i: nat)
    requires i < |fs|
    ensures LocalOffset(stamp, fs, i + 1) == LocalOffset(stamp, fs, i) + 30 + |fs[i].name| + |fs[i].stored|
  {
    FlattenAt(LocalRecords(stamp, fs), i);
  }

  /** Each central record adds 46 bytes and its name to the directory size:
      the bookkeeping `cdLength` does. */
  lemma CentralSizeAdvance(stamp: DosDateTime, fs: seq<Realized>, i: nat)
    requires i < |fs|
    ensures SumLengths(CentralRecords(stamp, fs)[..i + 1]) == SumLengths(CentralRecords(stamp, fs)[..i]) + 46 + |fs[i].name|
  {
    FlattenAt(CentralRecords(stamp, fs), i);
  }

  /** The archive is the local records, the directory and 22 bytes. */
  lemma ArchiveLength(stamp: DosDateTime, fs: seq<Realized>)
    ensures |Archive(stamp, fs)| == SumLengths(LocalRecords(stamp, fs)) + SumLengths(CentralRecords(stamp, fs)) + 22
  {
    FlattenLength(LocalRecords(stamp, fs));
    FlattenLength(CentralRecords(stamp, fs));
  }

  // ---------------------------------------------------------------- lengths

  lemma {:induction false} EncodedLength(fs: seq<Field>)
    ensures |EncodeFields(fs)| == TotalWidth(Shape(fs))
  {
    if |fs| > 0 {
      assert FieldParts(fs)[1..] == FieldParts(fs[1..]);
      assert Shape(fs)[1..] == Shape(fs[1..]);
      EncodedLength(fs[1..]);
    }
  }

  lemma {:induction false} TotalWidthConcat(a: seq<FieldWidth>, b: seq<FieldWidth>)
    ensures TotalWidth(a + b) == TotalWidth(a) + TotalWidth(b)
  {
    if |a| == 0 {
      assert a + b == b;
    } else {
      assert (a + b)[1..] == a[1..] + b;
      TotalWidthConcat(a[1..], b);
    }
  }

  lemma FlattenPair<T>(a: seq<T>, b: seq<T>)
    ensures Flatten([a, b]) == a + b
  {
    assert [a, b][1..] == [b];
    assert [b][1..] == [];
    assert Flatten([b]) == b + Flatten([]);
  }

  lemma LocalRecordLength(stamp: DosDateTime, f: Realized)
    ensures |Flatten(LocalParts(stamp, f))| == 30 + |f.name| + |f.stored|
  {
    var h := LocalHeader(stamp, f);
    LocalHeaderWidth(stamp, f);
    FlattenConcat(FieldParts(h), [f.name, f.stored]);
    FlattenPair(f.name, f.stored);
  }

  lemma LocalHeaderWidth(stamp: DosDateTime, f: Realized)
    ensures |EncodeFields(LocalHeader(stamp, f))| == 30
  {
    var h := LocalHeader(stamp, f);
    EncodedLength(h);
    LocalShape(stamp, f);
    assert TotalWidth([4, 2, 2, 2, 2, 2, 4, 4, 4, 2, 2]) == 30;
  }

  lemma LocalShape(stamp: DosDateTime, f: Realized)
    ensures Shape(LocalHeader(stamp, f)) == [4, 2, 2, 2, 2, 2, 4, 4, 4, 2, 2]
  {
  }

  lemma CentralShape(stamp: DosDateTime, f: Realized, offset: int)
    ensures Shape(CentralHeader(stamp, f, offset)) == [4, 2, 2, 2, 2, 2, 2, 4] + [4, 4, 2, 4, 4, 4, 4]
  {
  }

  lemma CentralRecordLength(stamp: DosDateTime, f: Realized, offset: int)
    ensures |EncodeFields(CentralHeader(stamp, f, offset))| == 46
  {
    var h := CentralHeader(stamp, f, offset);
    EncodedLength(h);
    var front: seq<FieldWidth> := [4, 2, 2, 2, 2, 2, 2, 4];
    var back: seq<FieldWidth> := [4, 4, 2, 4, 4, 4, 4];
    CentralShape(stamp, f, offset);
    assert TotalWidth(front + back) == 46 by {
      assert TotalWidth([4, 2, 2, 2, 2, 2, 2, 4]) == 20;
      assert TotalWidth([4, 4, 2, 4, 4, 4, 4]) == 26;
      TotalWidthConcat(front, back);
    }
  }

  lemma EndRecordLength(count: int, directorySize: int, directoryOffset: int)
    ensures |EncodeFields(EndHeader(count, directorySize, directoryOffset))| == 22
  {
    var h := EndHeader(count, directorySize, directoryOffset);
    EncodedLength(h);
    assert Shape(h) == [4, 4, 2, 2, 4, 4, 2];
    assert TotalWidth([4, 4, 2, 2, 4, 4, 2]) == 22;
  }

  lemma {:induction false} EncodeFieldsConcat(a: seq<Field>, b: seq<Field>)
    ensures EncodeFields(a + b) == EncodeFields(a) + EncodeFields(b)
  {
    assert FieldParts(a + b) == FieldParts(a) + FieldParts(b);
    FlattenConcat(FieldParts(a), FieldParts(b));
  }

  lemma EncodeFieldsCons(fs: seq<Field>)
    requires |fs| > 0
    ensures EncodeFields(fs) == EncodeField(fs[0]) + EncodeFields(fs[1..])
  {
    assert FieldParts(fs)[1..] == FieldParts(fs[1..]);
  }

  /** A zero 32-bit field is the same four bytes as two zero 16-bit fields. */
  lemma SplitZeroField(a: seq<Field>, b: seq<Field>)
    ensures EncodeFields(a + [U32(0)] + b) == EncodeFields(a + [U16(0), U16(0)] + b)
  {
    var wide: seq<Field> := [U32(0)];
    var narrow: seq<Field> := [U16(0), U16(0)];
    assert EncodeFields(wide) == EncodeFields(narrow) by {
      EncodeFieldsCons(wide);
      EncodeFieldsCons(narrow);
      EncodeFieldsCons([U16(0)]);
      assert narrow[1..] == [U16(0)];
      assert EncodeFields([]) == [];
      assert LE32(0) == LE16(0) + LE16(0);
    }
    assert EncodeFields(a + wide + b) == EncodeFields(a) + EncodeFields(wide) + EncodeFields(b) by {
      EncodeFieldsConcat(a + wide, b);
      EncodeFieldsConcat(a, wide);
    }
    assert EncodeFields(a + narrow + b) == EncodeFields(a) + EncodeFields(narrow) + EncodeFields(b) by {
      EncodeFieldsConcat(a + narrow, b);
      EncodeFieldsConcat(a, narrow);
    }
  }

  lemma LocalRecordSplit(stamp: DosDateTime, f: Realized)
    ensures LocalRecord(stamp, f) == EncodeFields(LocalHeader(stamp, f)) + (f.name + f.stored)
  {
    FlattenConcat(FieldParts(LocalHeader(stamp, f)), [f.name, f.stored]);
    FlattenPair(f.name, f.stored);
  }
}
