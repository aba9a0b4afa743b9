/** `generate()`: every registered entry's contents are resolved to bytes,
    checksummed, compressed when the entry asks for "deflate", and laid out
    as a ZIP archive. The checksum routine, the deflate compressor, the UTF-8
    text encoder and the reading of deferred contents (a `Blob` or a
    promise) are collaborators this model does not define; they are passed
    in as `Codecs`. */
module OcfGenerate {
  import opened Common
  import opened JsBits
  import opened LittleEndian
  import opened DosTime
  import opened OcfRegistry
  import opened ZipLayout

  /** Why building the archive failed: reading the deferred contents with
      this handle was rejected (a `FileReader` error or abort, or a rejected
      promise). */
  datatype GenerateError = ReadFailed(handle: nat)

  datatype Codecs = Codecs(
    crc32: seq<Byte> -> int,
    deflateRaw: seq<Byte> -> seq<Byte>,
    encodeText: string -> seq<Byte>,
    read: nat -> Result<seq<int>, GenerateError>)

  // ---------------------------------------------------------------- makeSafeUint8Array

  /** Storing a number into a `Uint8Array` keeps it modulo 256. */
  function SafeCopy(xs: seq<int>): (bs: seq<Byte>)
    ensures |bs| == |xs|
    ensures forall i :: 0 <= i < |xs| ==> bs[i] == xs[i] % 0x100
  {
    seq(|xs|, i requires 0 <= i < |xs| => xs[i] % 0x100)
  }

  predicate AllBytes(xs: seq<int>)
  {
    forall i :: 0 <= i < |xs| ==> 0 <= xs[i] < 0x100
  }

  /** `makeSafeUint8Array`: a fresh array of the same length, filled element
      by element. */
  method MakeSafeUint8Array(dumb: seq<int>) returns (out: seq<Byte>)
    ensures |out| == |dumb|
    ensures forall i :: 0 <= i < |dumb| ==> out[i] % 0x100 == dumb[i] % 0x100 && 0 <= out[i] < 0x100
    ensures AllBytes(dumb) ==> out == dumb
    ensures out == SafeCopy(dumb)
  {
    out := [];
    var i := 0;
    while i < |dumb|
      invariant i <= |dumb| && |out| == i
      invariant forall j :: 0 <= j < i ==> out[j] == dumb[j] % 0x100
    {
      out := out + [dumb[i] % 0x100];
      i := i + 1;
    }
  }

  /** Copying already-safe bytes changes nothing, so copying twice is
      copying once. */
  lemma SafeCopyIdempotent(xs: seq<int>)
    ensures AllBytes(SafeCopy(xs))
    ensures SafeCopy(SafeCopy(xs)) == SafeCopy(xs)
    ensures AllBytes(xs) <==> SafeCopy(xs) == xs
  {
    if SafeCopy(xs) == xs {
      forall i | 0 <= i < |xs| ensures 0 <= xs[i] < 0x100 {
        assert SafeCopy(xs)[i] == xs[i];
      }
    }
  }

  // ---------------------------------------------------------------- contents

  /** The bytes an entry's contents resolve to: nothing for `undefined` or
      `null`, the UTF-8 encoding of a string, a safe copy of an array of
      numbers, and a safe copy of what a deferred source delivers. */
  function Resolve(c: Codecs, s: Source): (res: Result<seq<Byte>, GenerateError>)
    ensures s.Absent? ==> res == Success([])
    ensures s.Text? ==> res == Success(c.encodeText(s.text))
    ensures s.Numbers? ==> res == Success(SafeCopy(s.items))
    ensures s.Deferred? && c.read(s.handle).Success? ==> res == Success(SafeCopy(c.read(s.handle).value))
    ensures res.Failure? <==> s.Deferred? && c.read(s.handle).Failure?
    ensures res.Failure? ==> res.error == c.read(s.handle).error
  {
    match s
    case Absent => Success([])
    case Text(text) =>
      SafeCopyIdempotent(c.encodeText(text));
      Success(SafeCopy(c.encodeText(text)))
    case Numbers(items) => Success(SafeCopy(items))
    case Deferred(handle) =>
      var items :- c.read(handle);
      Success(SafeCopy(items))
  }

  /** One entry after resolution: the checksum and the uncompressed size
      are taken before compression, the name is UTF-8 encoded, and only the
      exact compression "deflate" compresses. */
  function Realize(c: Codecs, e: Entry, bytes: seq<Byte>): (f: Realized)
    ensures f.size == |bytes| && f.crc == c.crc32(bytes) && f.name == c.encodeText(e.name)
    ensures f.deflated <==> e.compression == DEFLATE
    ensures f.directory <==> e.kind == Directory
    ensures f.stored == (if e.compression == DEFLATE then c.deflateRaw(bytes) else bytes)
  {
    var deflated := e.compression == DEFLATE;
    Realized(c.encodeText(e.name), deflated, e.kind == Directory, c.crc32(bytes),
             if deflated then c.deflateRaw(bytes) else bytes, |bytes|)
  }

  predicate ResolvesAt(c: Codecs, entries: seq<Entry>, i: int)
    requires 0 <= i < |entries|
  {
    Resolve(c, entries[i].contents).Success?
  }

  /** All entries, realized in registration order; the first entry whose
      contents cannot be read fails the whole archive. */
  function RealizeAll(c: Codecs, entries: seq<Entry>): (res: Result<seq<Realized>, GenerateError>)
    ensures res.Success? <==> forall i :: 0 <= i < |entries| ==> ResolvesAt(c, entries, i)
    ensures res.Success? ==>
      && |res.value| == |entries|
      && forall i :: 0 <= i < |entries| ==>
           ResolvesAt(c, entries, i) && res.value[i] == Realize(c, entries[i], Resolve(c, entries[i].contents).value)
  {
    if |entries| == 0 then Success([])
    else
      var first := Resolve(c, entries[0].contents);
      var rest := RealizeAll(c, entries[1..]);
      assert forall i :: 1 <= i < |entries| ==> entries[i] == entries[1..][i - 1];
      assert forall i :: 1 <= i < |entries| ==> ResolvesAt(c, entries, i) == ResolvesAt(c, entries[1..], i - 1);
      assert forall j :: 0 <= j < |entries| - 1 ==> ResolvesAt(c, entries[1..], j) == ResolvesAt(c, entries, j + 1);
      assert ResolvesAt(c, entries, 0) == first.Success?;
      if first.Failure? then Failure(first.error)
      else if rest.Failure? then Failure(rest.error)
      else Success([Realize(c, entries[0], first.value)] + rest.value)
  }

  /** When some contents cannot be read, the archive fails with the error of
      the first such entry in registration order. */
  lemma {:induction false} RealizeAllFailsAtFirst(c: Codecs, entries: seq<Entry>, k: nat)
    requires k < |entries| && !ResolvesAt(c, entries, k)
    requires forall j :: 0 <= j < k ==> ResolvesAt(c, entries, j)
    ensures RealizeAll(c, entries) == Failure(Resolve(c, entries[k].contents).error)
  {
    if k > 0 {
      assert ResolvesAt(c, entries, 0);
      forall j | 0 <= j < k - 1 ensures ResolvesAt(c, entries[1..], j) {
        assert entries[1..][j] == entries[j + 1];
        assert ResolvesAt(c, entries, j + 1);
      }
      assert entries[1..][k - 1] == entries[k];
      RealizeAllFailsAtFirst(c, entries[1..], k - 1);
    }
  }

  /** The archive `generate` resolves to, or the first read failure. */
  function Generate(c: Codecs, r: Registry): (res: Result<seq<Byte>, GenerateError>)
    ensures res.Success? <==> RealizeAll(c, r.entries).Success?
    ensures res.Success? ==> res.value == Archive(r.stamp, RealizeAll(c, r.entries).value)
  {
    var fs :- RealizeAll(c, r.entries);
    Success(Archive(r.stamp, fs))
  }

  /** `generate` rejects with the error of the first entry, in registration
      order, whose contents cannot be read; nothing is assembled. */
  lemma GenerateFailsAtFirst(c: Codecs, r: Registry, k: nat)
    requires k < |r.entries| && r.entries[k].contents.Deferred? && c.read(r.entries[k].contents.handle).Failure?
    requires forall j :: 0 <= j < k ==> ResolvesAt(c, r.entries, j)
    ensures Generate(c, r) == Failure(c.read(r.entries[k].contents.handle).error)
  {
    RealizeAllFailsAtFirst(c, r.entries, k);
  }

  // ---------------------------------------------------------------- assembling the archive

  /** The final step of `generate` as the loop writes it: the local records
      first, then one central record per entry with `byteIndex` carried
      along as the entry's offset, then the end record with the totals. */
  method AssembleArchive(stamp: DosDateTime, fs: seq<Realized>) returns (data: seq<Byte>)
    ensures data == Archive(stamp, fs)
  {
    var locals := LocalRecords(stamp, fs);
    var centrals := CentralRecords(stamp, fs);
    data := Flatten(locals);
    var byteIndex := 0;
    var cdLength := 0;
    var fileIndex := 0;
    while fileIndex < |fs|
      invariant fileIndex <= |fs|
      invariant byteIndex == LocalOffset(stamp, fs, fileIndex)
      invariant cdLength == SumLengths(centrals[..fileIndex])
      invariant data == Flatten(locals) + Flatten(centrals[..fileIndex])
    {
      var f := fs[fileIndex];
      data := data + CentralRecord(stamp, f, byteIndex);
      cdLength := cdLength + 46 + |f.name|;
      CentralStep(stamp, fs, fileIndex, Flatten(locals));
      var recordLength := PartsLength(LocalParts(stamp, f));
      byteIndex := byteIndex + recordLength;
      LocalOffsetAdvance(stamp, fs, fileIndex);
      fileIndex := fileIndex + 1;
    }
    assert centrals[..fileIndex] == centrals;
    assert locals[..fileIndex] == locals;
    data := data + EndRecord(|fs|, cdLength, byteIndex);
  }

  /** Appending central record i extends the directory by one record. */
  lemma CentralStep(stamp: DosDateTime, fs: seq<Realized>, i: nat, prefix: seq<Byte>)
    requires i < |fs|
    ensures var centrals := CentralRecords(stamp, fs);
      && prefix + Flatten(centrals[..i]) + CentralRecord(stamp, fs[i], LocalOffset(stamp, fs, i)) == prefix + Flatten(centrals[..i + 1])
      && SumLengths(centrals[..i]) + 46 + |fs[i].name| == SumLengths(centrals[..i + 1])
  {
    var centrals := CentralRecords(stamp, fs);
    FlattenAppend(centrals[..i], centrals[i]);
    assert centrals[..i] + [centrals[i]] == centrals[..i + 1];
    CentralSizeAdvance(stamp, fs, i);
  }

  /** The inner loop of `generate`: the byte length of a record, summed
      over its pieces. */
  method PartsLength(parts: seq<seq<Byte>>) returns (n: nat)
    ensures n == |Flatten(parts)|
  {
    n := 0;
    var i := 0;
    while i < |parts|
      invariant i <= |parts|
      invariant n == SumLengths(parts[..i])
    {
      FlattenAt(parts, i);
      n := n + |parts[i]|;
      i := i + 1;
    }
    assert parts[..i] == parts;
    FlattenLength(parts);
  }
}
