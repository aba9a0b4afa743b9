/** What the container `generate` builds promises its readers: every
    registered entry comes back, in order, with its name, its directory
    flag, its compression method, its checksum and its bytes; and the
    archive opens with the uncompressed `mimetype` member the EPUB Open
    Container Format requires. */
module OcfContainer {
  import opened Common
  import opened JsBits
  import opened LittleEndian
  import opened DosTime
  import opened OcfRegistry
  import opened ZipLayout
  import opened ZipReader
  import opened ArchiveRoundTrip
  import opened OcfGenerate

  /** What a reader should report for one registered entry. */
  predicate ReportsEntry(c: Codecs, e: Entry, m: Member)
    requires Resolve(c, e.contents).Success?
  {
    var bytes := Resolve(c, e.contents).value;
    && m.name == c.encodeText(e.name)
    && m.directory == (e.kind == Directory)
    && m.compressionMethod == (if e.compression == DEFLATE then 8 else 0)
    && m.crc == c.crc32(bytes) % TWO32
    && m.size == |bytes|
    && m.data == (if e.compression == DEFLATE then c.deflateRaw(bytes) else bytes)
  }

  /** Every entry of a generated archive reads back, in registration order. */
  lemma GeneratedArchiveReadsBack(c: Codecs, r: Registry)
    requires Generate(c, r).Success?
    requires Fits(r.stamp, RealizeAll(c, r.entries).value)
    ensures ReadArchive(Generate(c, r).value).Some?
    ensures var ms := ReadArchive(Generate(c, r).value).value;
      && |ms| == |r.entries|
      && forall i :: 0 <= i < |r.entries| ==>
           ResolvesAt(c, r.entries, i) && ReportsEntry(c, r.entries[i], ms[i])
  {
    var fs := RealizeAll(c, r.entries).value;
    ArchiveReadsBack(r.stamp, fs);
  }

  /** The bytes TextEncoder produces for an ASCII string: its code units. */
  function AsciiBytes(s: string): (bs: seq<Byte>)
    ensures |bs| == |s|
  {
    seq(|s|, i requires 0 <= i < |s| => (s[i] as int) % 0x100)
  }

  /** A writer that started with `create` yields an archive whose first
      member is `mimetype`, stored uncompressed, with the media type as its
      contents: the name at byte 30 and the contents at byte 38. */
  lemma MimetypeLeadsArchive(c: Codecs, r: Registry)
    requires BootstrapFront(r) && Generate(c, r).Success?
    requires c.encodeText(MIMETYPE) == AsciiBytes(MIMETYPE)
    requires c.encodeText(EPUB_MEDIA_TYPE) == AsciiBytes(EPUB_MEDIA_TYPE)
    ensures var bs := Generate(c, r).value;
      && |bs| >= 58
      && bs[30..38] == AsciiBytes(MIMETYPE)
      && bs[38..58] == AsciiBytes(EPUB_MEDIA_TYPE)
      && ParseLocal(bs, 0) == Some(LocalInfo(10, 0, 0, r.stamp.time % TWO16, r.stamp.date % TWO16,
                                             c.crc32(AsciiBytes(EPUB_MEDIA_TYPE)) % TWO32, 20, 20,
                                             AsciiBytes(MIMETYPE), AsciiBytes(EPUB_MEDIA_TYPE)))
  {
    var fs := RealizeAll(c, r.entries).value;
    var bs := Generate(c, r).value;
    var f := fs[0];
    assert NONE != DEFLATE by { assert NONE[0] != DEFLATE[0]; }
    assert Resolve(c, r.entries[0].contents) == Success(AsciiBytes(EPUB_MEDIA_TYPE));
    assert f == Realized(AsciiBytes(MIMETYPE), false, false, c.crc32(AsciiBytes(EPUB_MEDIA_TYPE)), AsciiBytes(EPUB_MEDIA_TYPE), 20);
    var locals := LocalRecords(r.stamp, fs);
    var rest := Flatten(locals[1..]) + Flatten(CentralRecords(r.stamp, fs)) +
      EndRecord(|fs|, SumLengths(CentralRecords(r.stamp, fs)), SumLengths(locals));
    assert bs == locals[0] + rest;
    LocalRecordSplit(r.stamp, f);
    var header := EncodeFields(LocalHeader(r.stamp, f));
    LocalHeaderWidth(r.stamp, f);
    assert bs == header + (f.name + f.stored) + rest;
    assert bs[30..38] == f.name;
    assert bs[38..58] == f.stored;
    assert bs[0..] == LocalRecord(r.stamp, f) + rest;
    ParseLocalRecord(r.stamp, f, bs, 0, rest);
  }
}
