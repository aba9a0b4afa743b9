/** The archive the writer lays out reads back, through the independent
    reader, as exactly the registered members in registration order: names,
    compression methods, checksums, stored bytes, uncompressed sizes and
    directory flags. */
module ArchiveRoundTrip {
  import opened Common
  import opened JsBits
  import opened LittleEndian
  import opened DosTime
  import opened ZipLayout
  import opened ZipReader

  /** Every field the writer emits holds its value without wrapping: names
      under 2^16 bytes, sizes and offsets under 2^32, fewer than 2^16
      entries. Beyond these limits the 16- and 32-bit fields silently wrap. */
  predicate Fits(stamp: DosDateTime, fs: seq<Realized>)
  {
    && |fs| < TWO16
    && (forall i :: 0 <= i < |fs| ==> |fs[i].name| < TWO16 && |fs[i].stored| < TWO32 && fs[i].size < TWO32)
    && SumLengths(LocalRecords(stamp, fs)) < TWO32
    && SumLengths(CentralRecords(stamp, fs)) < TWO32
  }

  /** What a reader should report for the entries. */
  function Expected(fs: seq<Realized>): (ms: seq<Member>)
    ensures |ms| == |fs|
    ensures forall i :: 0 <= i < |fs| ==>
      ms[i] == Member(fs[i].name, Method(fs[i]), fs[i].crc % TWO32, fs[i].stored, fs[i].size, fs[i].directory)
  {
    seq(|fs|, i requires 0 <= i < |fs| =>
      Member(fs[i].name, Method(fs[i]), fs[i].crc % TWO32, fs[i].stored, fs[i].size, fs[i].directory))
  }

  function ExpectedCentral(stamp: DosDateTime, fs: seq<Realized>, i: nat): CentralInfo
    requires i < |fs|
  {
    var f := fs[i];
    CentralInfo(VERSION_MADE_BY, VersionNeeded(f), 0, Method(f), stamp.time % TWO16, stamp.date % TWO16,
                f.crc % TWO32, |f.stored|, f.size, f.name, ExternalAttributes(f), LocalOffset(stamp, fs, i))
  }

  function ExpectedCentrals(stamp: DosDateTime, fs: seq<Realized>): (cs: seq<CentralInfo>)
    ensures |cs| == |fs|
    ensures forall i :: 0 <= i < |fs| ==> cs[i] == ExpectedCentral(stamp, fs, i)
  {
    seq(|fs|, i requires 0 <= i < |fs| => ExpectedCentral(stamp, fs, i))
  }

  /** Reading the archive recovers every entry, in registration order. */
  lemma ArchiveReadsBack(stamp: DosDateTime, fs: seq<Realized>)
    requires Fits(stamp, fs)
    ensures ReadArchive(Archive(stamp, fs)) == Some(Expected(fs))
  {
    var bs := Archive(stamp, fs);
    var locals := LocalRecords(stamp, fs);
    var centrals := CentralRecords(stamp, fs);
    EndParses(stamp, fs);
    DirectoryParses(stamp, fs);
    MembersParse(stamp, fs);
    ReadArchiveSteps(bs, EndInfo(|fs|, |fs|, SumLengths(centrals), SumLengths(locals)),
                     ExpectedCentrals(stamp, fs), Expected(fs));
  }

  lemma ReadArchiveSteps(bs: seq<Byte>, end: EndInfo, cds: seq<CentralInfo>, ms: seq<Member>)
    requires ParseEnd(bs) == Some(end)
    requires ParseCentrals(bs, end.directoryOffset, end.entries) == Some(cds)
    requires ReadMembers(bs, cds) == Some(ms)
    ensures ReadArchive(bs) == Some(ms)
  {
  }

  /** The directory the end record points at parses to the expected
      central records. */
  lemma DirectoryParses(stamp: DosDateTime, fs: seq<Realized>)
    requires Fits(stamp, fs)
    ensures ParseCentrals(Archive(stamp, fs), SumLengths(LocalRecords(stamp, fs)), |fs|) == Some(ExpectedCentrals(stamp, fs))
  {
    var locals := LocalRecords(stamp, fs);
    var centrals := CentralRecords(stamp, fs);
    var tail := EndRecord(|fs|, SumLengths(centrals), SumLengths(locals));
    ArchiveSplit(stamp, fs);
    DirectoryFrom(stamp, fs, Archive(stamp, fs), SumLengths(locals), tail);
  }

  /** The archive past its local records is the directory and the end record. */
  lemma ArchiveSplit(stamp: DosDateTime, fs: seq<Realized>)
    ensures var locals := LocalRecords(stamp, fs);
      var centrals := CentralRecords(stamp, fs);
      && SumLengths(locals) <= |Archive(stamp, fs)|
      && Archive(stamp, fs)[SumLengths(locals)..]
         == Flatten(centrals) + EndRecord(|fs|, SumLengths(centrals), SumLengths(locals))
  {
    FlattenLength(LocalRecords(stamp, fs));
  }

  lemma DirectoryFrom(stamp: DosDateTime, fs: seq<Realized>, bs: seq<Byte>, k: nat, tail: seq<Byte>)
    requires Fits(stamp, fs)
    requires k <= |bs| && bs[k..] == Flatten(CentralRecords(stamp, fs)) + tail
    ensures ParseCentrals(bs, k, |fs|) == Some(ExpectedCentrals(stamp, fs))
  {
    assert CentralRecords(stamp, fs)[0..] == CentralRecords(stamp, fs);
    CentralsParse(stamp, fs, 0, bs, k, tail);
    assert ExpectedCentrals(stamp, fs)[0..] == ExpectedCentrals(stamp, fs);
  }

  /** Following the expected central records reads every member. */
  lemma MembersParse(stamp: DosDateTime, fs: seq<Realized>)
    requires Fits(stamp, fs)
    ensures ReadMembers(Archive(stamp, fs), ExpectedCentrals(stamp, fs)) == Some(Expected(fs))
  {
    var locals := LocalRecords(stamp, fs);
    var centrals := CentralRecords(stamp, fs);
    var tail := EndRecord(|fs|, SumLengths(centrals), SumLengths(locals));
    assert Archive(stamp, fs) == Flatten(locals) + (Flatten(centrals) + tail);
    MembersFrom(stamp, fs, Archive(stamp, fs), Flatten(centrals) + tail);
  }

  lemma MembersFrom(stamp: DosDateTime, fs: seq<Realized>, bs: seq<Byte>, tail: seq<Byte>)
    requires Fits(stamp, fs)
    requires bs == Flatten(LocalRecords(stamp, fs)) + tail
    ensures ReadMembers(bs, ExpectedCentrals(stamp, fs)) == Some(Expected(fs))
  {
    MembersRead(stamp, fs, 0, bs, tail);
    assert ExpectedCentrals(stamp, fs)[0..] == ExpectedCentrals(stamp, fs);
    assert Expected(fs)[0..] == Expected(fs);
  }

  /** The end record reports the entry count and where the central
      directory lies. */
  lemma EndParses(stamp: DosDateTime, fs: seq<Realized>)
    requires Fits(stamp, fs)
    ensures var locals := LocalRecords(stamp, fs);
      var centrals := CentralRecords(stamp, fs);
      ParseEnd(Archive(stamp, fs)) == Some(EndInfo(|fs|, |fs|, SumLengths(centrals), SumLengths(locals)))
  {
    var locals := LocalRecords(stamp, fs);
    var centrals := CentralRecords(stamp, fs);
    ParseEndRecord(Flatten(locals) + Flatten(centrals), |fs|, SumLengths(centrals), SumLengths(locals));
    Unwrapped(|fs|, TWO16);
    Unwrapped(SumLengths(centrals), TWO32);
    Unwrapped(SumLengths(locals), TWO32);
  }

  lemma Unwrapped(x: int, m: int)
    requires 0 <= x < m
    ensures x % m == x
  {
  }

  /** Entry j fits its fields. */
  lemma EntryFits(stamp: DosDateTime, fs: seq<Realized>, j: nat)
    requires Fits(stamp, fs) && j < |fs|
    ensures |fs[j].name| < TWO16 && |fs[j].stored| < TWO32 && fs[j].size < TWO32
    ensures LocalOffset(stamp, fs, j) < TWO32
  {
    FlattenAt(LocalRecords(stamp, fs), j);
  }

  /** The central records j and later, wherever they sit, parse to the
      expected central records j and later. */
  lemma {:induction false} CentralsParse(stamp: DosDateTime, fs: seq<Realized>, j: nat, bs: seq<Byte>, k: nat, tail: seq<Byte>)
    requires Fits(stamp, fs) && j <= |fs|
    requires k <= |bs| && bs[k..] == Flatten(CentralRecords(stamp, fs)[j..]) + tail
    ensures ParseCentrals(bs, k, |fs| - j) == Some(ExpectedCentrals(stamp, fs)[j..])
    decreases |fs| - j
  {
    if j < |fs| {
      var next := CentralStep(stamp, fs, j, bs, k, tail);
      CentralsParse(stamp, fs, j + 1, bs, next, tail);
      ParseCentralsCons(bs, k, |fs| - j, ExpectedCentral(stamp, fs, j), next, ExpectedCentrals(stamp, fs)[j + 1..]);
      assert ExpectedCentrals(stamp, fs)[j..] == [ExpectedCentral(stamp, fs, j)] + ExpectedCentrals(stamp, fs)[j + 1..];
    } else {
      assert ExpectedCentrals(stamp, fs)[j..] == [];
    }
  }

  /** One central record parses and leaves the reader at the next one. */
  lemma CentralStep(stamp: DosDateTime, fs: seq<Realized>, j: nat, bs: seq<Byte>, k: nat, tail: seq<Byte>) returns (next: nat)
    requires Fits(stamp, fs) && j < |fs|
    requires k <= |bs| && bs[k..] == Flatten(CentralRecords(stamp, fs)[j..]) + tail
    ensures ParseCentral(bs, k) == Some((ExpectedCentral(stamp, fs, j), next))
    ensures next <= |bs| && bs[next..] == Flatten(CentralRecords(stamp, fs)[j + 1..]) + tail
  {
    var centrals := CentralRecords(stamp, fs);
    var f := fs[j];
    var rest := Flatten(centrals[j + 1..]) + tail;
    assert centrals[j..][1..] == centrals[j + 1..];
    assert bs[k..] == centrals[j] + rest;
    EntryFits(stamp, fs, j);
    ParseCentralRecord(stamp, f, LocalOffset(stamp, fs, j), bs, k, rest);
    Unwrapped(|f.stored|, TWO32);
    Unwrapped(f.size, TWO32);
    Unwrapped(LocalOffset(stamp, fs, j), TWO32);
    next := k + 46 + |f.name|;
    assert bs[next..] == bs[k..][46 + |f.name|..];
  }

  lemma ParseCentralsCons(bs: seq<Byte>, k: nat, n: nat, c: CentralInfo, next: nat, rest: seq<CentralInfo>)
    requires n > 0 && ParseCentral(bs, k) == Some((c, next)) && ParseCentrals(bs, next, n - 1) == Some(rest)
    ensures ParseCentrals(bs, k, n) == Some([c] + rest)
  {
  }

  /** Following the expected central records j and later to their local
      records yields the expected members j and later. */
  lemma {:induction false} MembersRead(stamp: DosDateTime, fs: seq<Realized>, j: nat, bs: seq<Byte>, tail: seq<Byte>)
    requires Fits(stamp, fs) && j <= |fs|
    requires bs == Flatten(LocalRecords(stamp, fs)) + tail
    ensures ReadMembers(bs, ExpectedCentrals(stamp, fs)[j..]) == Some(Expected(fs)[j..])
    decreases |fs| - j
  {
    if j < |fs| {
      var local := LocalStep(stamp, fs, j, bs, tail);
      MembersRead(stamp, fs, j + 1, bs, tail);
      var cds := ExpectedCentrals(stamp, fs)[j..];
      assert cds[1..] == ExpectedCentrals(stamp, fs)[j + 1..];
      ReadMembersCons(bs, cds, local, Expected(fs)[j], Expected(fs)[j + 1..]);
      assert Expected(fs)[j..] == [Expected(fs)[j]] + Expected(fs)[j + 1..];
    } else {
      assert ExpectedCentrals(stamp, fs)[j..] == [];
      assert Expected(fs)[j..] == [];
    }
  }

  /** The local record an expected central record points at parses, under
      the central record's name, to the entry's stored bytes, and together
      they describe the expected member. */
  lemma LocalStep(stamp: DosDateTime, fs: seq<Realized>, j: nat, bs: seq<Byte>, tail: seq<Byte>) returns (local: LocalInfo)
    requires Fits(stamp, fs) && j < |fs|
    requires bs == Flatten(LocalRecords(stamp, fs)) + tail
    ensures ParseLocal(bs, ExpectedCentral(stamp, fs, j).offset) == Some(local)
    ensures Agrees(local, ExpectedCentral(stamp, fs, j))
    ensures MemberOf(ExpectedCentral(stamp, fs, j), local) == Expected(fs)[j]
  {
    var locals := LocalRecords(stamp, fs);
    var offset := LocalOffset(stamp, fs, j);
    EntryFits(stamp, fs, j);
    Unwrapped(offset, TWO32);
    LocalAt(stamp, fs, j, bs, tail);
    var f := fs[j];
    ParseLocalRecord(stamp, f, bs, offset, Flatten(locals[j + 1..]) + tail);
    local := ParseLocal(bs, offset).value;
    LocalMatchesCentral(stamp, f, local, offset);
  }

  /** The local header the writer lays out for an entry agrees with its
      central record, and the two together describe the entry. */
  lemma LocalMatchesCentral(stamp: DosDateTime, f: Realized, local: LocalInfo, offset: nat)
    requires |f.stored| < TWO32 && f.size < TWO32
    requires local == LocalInfo(VersionNeeded(f), 0, Method(f), stamp.time % TWO16, stamp.date % TWO16,
                                f.crc % TWO32, |f.stored|, f.size % TWO32, f.name, f.stored)
    ensures var c := CentralInfo(VERSION_MADE_BY, VersionNeeded(f), 0, Method(f), stamp.time % TWO16, stamp.date % TWO16,
                                 f.crc % TWO32, |f.stored|, f.size, f.name, ExternalAttributes(f), offset);
      && Agrees(local, c)
      && MemberOf(c, local) == Member(f.name, Method(f), f.crc % TWO32, f.stored, f.size, f.directory)
  {
  }

  /** Local record j sits at its offset. */
  lemma LocalAt(stamp: DosDateTime, fs: seq<Realized>, j: nat, bs: seq<Byte>, tail: seq<Byte>)
    requires j < |fs|
    requires bs == Flatten(LocalRecords(stamp, fs)) + tail
    ensures LocalOffset(stamp, fs, j) <= |bs|
    ensures bs[LocalOffset(stamp, fs, j)..] == LocalRecord(stamp, fs[j]) + (Flatten(LocalRecords(stamp, fs)[j + 1..]) + tail)
  {
    PartAt(LocalRecords(stamp, fs), j, bs, tail);
  }

  lemma PartAt<T>(parts: seq<seq<T>>, j: nat, bs: seq<T>, tail: seq<T>)
    requires j < |parts| && bs == Flatten(parts) + tail
    ensures SumLengths(parts[..j]) <= |bs|
    ensures bs[SumLengths(parts[..j])..] == parts[j] + (Flatten(parts[j + 1..]) + tail)
  {
    FlattenAt(parts, j);
    DropFront(Flatten(parts), tail, SumLengths(parts[..j]), parts[j], Flatten(parts[j + 1..]), bs);
  }

  lemma DropFront<T>(a: seq<T>, tail: seq<T>, n: nat, x: seq<T>, y: seq<T>, bs: seq<T>)
    requires bs == a + tail && n <= |a| && a[n..] == x + y
    ensures n <= |bs| && bs[n..] == x + (y + tail)
  {
    assert bs[n..] == a[n..] + tail;
  }

  lemma ReadMembersCons(bs: seq<Byte>, cds: seq<CentralInfo>, local: LocalInfo, m: Member, rest: seq<Member>)
    requires |cds| > 0
    requires ParseLocal(bs, cds[0].offset) == Some(local) && Agrees(local, cds[0])
    requires ReadMembers(bs, cds[1..]) == Some(rest) && m == MemberOf(cds[0], local)
    ensures ReadMembers(bs, cds) == Some([m] + rest)
  {
  }
}
