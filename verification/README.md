# ffn2epub OCF writer and string helpers, modelled in Dafny

This project models the EPUB container writer of ffn2epub (`src/ocf-writer.js`)
and the pure helpers it and the book builder use (`src/utils.js`).

The writer keeps an ordered registry of entries. `create` seeds it with the
uncompressed `mimetype` file and the `META-INF/` directory. `addDirectory`
ignores a directory that is already registered and refuses a name held by a
file; `addFile` refuses any registered name. Both append otherwise. `generate`
resolves every entry's contents to bytes, checksums them, and deflates them
when asked. It then lays out a ZIP archive:

- one local record per entry (PKWARE APPNOTE.TXT section 4.3.7);
- one central directory record per entry, carrying the local record's offset
  (section 4.3.12);
- the end of central directory record (section 4.3.16).

All three use the packed MS-DOS date and time (section 4.4.6) and
little-endian integers.

The helpers modelled are:

- `escapeForXML`: five ordered global replacements;
- `processTemplate`: `{{ key }}` placeholders, with column-aware joining of
  array values;
- `makeSlug`: a chain of regex rewrites;
- `detectImageType`: magic-byte sniffing;
- `makeSafeUint8Array`: an element-wise copy.

Modules, one per concern:

| file | module | what it holds |
|---|---|---|
| common.dfy | Common | bytes, `Option`/`Result`, concatenation of byte arrays |
| js_bits.dfy | JsBits | JavaScript `|`, `<<`, `>>`, `& 0xFFFF` over unbounded integers |
| little_endian.dfy | LittleEndian | `littleEndian16/32` and a reader's decoding of them |
| dos_time.dfy | DosTime | `getDOSDateTime` |
| registry.dfy | OcfRegistry | `create`, `addDirectory`, `addFile` |
| zip_layout.dfy | ZipLayout | the three record layouts and the archive |
| generate.dfy | OcfGenerate | content resolution, `makeSafeUint8Array`, the assembly loop |
| zip_reader.dfy | ZipReader | a ZIP reader written from the APPNOTE layouts, the writer's partner |
| archive_round_trip.dfy | ArchiveRoundTrip | every archive the writer lays out reads back |
| container.dfy | OcfContainer | what `generate` promises: members in order, `mimetype` first |
| xml_escape.dfy | XmlEscape | `escapeForXML` and its inverse |
| template.dfy | Template | `processTemplate` |
| slug.dfy | Slug | `makeSlug` |
| image_type.dfy | ImageType | `detectImageType` |

Outside collaborators become parameters:

- CRC-32, raw deflate, the UTF-8 `TextEncoder`, and the reading of a `Blob`
  or promise are the four functions of `OcfGenerate.Codecs`;
- the current date is a `DosTime.UtcTime`;
- `toLowerCase().normalize('NFD')` is the `fold` argument of `Slug.MakeSlug`;
- the SVG text test is a boolean argument of `ImageType.DetectImageType`.

`addFile` registers only the immediate parent directory of a name,
`name.slice(0, name.lastIndexOf('/') + 1)`: `a/b/c.txt` adds `a/b/` but not
`a/`. Accordingly `OcfRegistry.ParentsPrecede` asks only for the immediate
parent.

JavaScript measures strings in UTF-16 code units, while a Dafny `char` is a
Unicode scalar value. Where `processTemplate` uses `.length` and
`lastIndexOf` to measure the current line, the model counts a character at or
above U+10000 as two units (`Template.CodeUnits`).

## Model

| member | source | states |
|---|---|---|
| DosTime.PackDate | src/ocf-writer.js:8-12 | the packed date is 16 bits, with the day in bits 0-4, month+1 in bits 5-8, and (year-1980) mod 128 in bits 9-15 |
| DosTime.PackTime | src/ocf-writer.js:13-17 | the packed time is 16 bits, with seconds/2 in bits 0-4, minutes in bits 5-10, and hours in bits 11-15 |
| DosTime.GetDosDateTime | src/ocf-writer.js:6-19 | both halves of the stamp fit 16 bits; the day and hour sit in their fields |
| DosTime.DateRoundTrip | src/ocf-writer.js:8-12 | for years 1980-2107, day, month and year decode back exactly |
| DosTime.TimeRoundTrip | src/ocf-writer.js:13-17 | hours and minutes decode back exactly; seconds come back rounded down to even |
| DosTime.PackDateFields | src/ocf-writer.js:9-12 | the or-and-mask expression equals the sum of its disjoint shifted fields |
| DosTime.PackTimeFields | src/ocf-writer.js:14-17 | the or-and-mask expression equals the sum of its disjoint shifted fields |
| LittleEndian.LE16RoundTrip | src/ocf-writer.js:30-35 | `littleEndian16` read back little-endian gives the number mod 2^16 |
| LittleEndian.LE32RoundTrip | src/ocf-writer.js:21-28 | `littleEndian32` read back little-endian gives the number mod 2^32, so a negative number comes back as its two's-complement pattern |
| LittleEndian.ReadLE16Inverse | src/ocf-writer.js:30-35 | every two-byte array is the encoding of the value it reads as |
| LittleEndian.ReadLE32Inverse | src/ocf-writer.js:21-28 | every four-byte array is the encoding of the value it reads as |
| OcfRegistry.EffectiveCompression | src/ocf-writer.js:63 | the compression is the option when one is given and non-empty, otherwise "deflate"; never empty |
| OcfRegistry.ParentDirectory | src/ocf-writer.js:69 | the parent is a prefix of the name, ends in '/' or is empty, and no '/' follows it |
| OcfRegistry.AddDirectory | src/ocf-writer.js:44-60 | an existing directory name is a no-op; a name held only by a file fails; otherwise exactly one stored directory entry is appended |
| OcfRegistry.AddFileAsWritten | src/ocf-writer.js:44-82 | `addFile` as written: fails exactly on a registered name (duplicate-name error) or on an immediate parent held only by a file (the directory-name error of `addDirectory`); on success the entries are the old ones, then a stored entry for the immediate parent only when it is new, then the file entry; the new names join the name sets and the stamp is kept |
| OcfRegistry.AddFile | src/ocf-writer.js:44-82 | the corrected `addFile` of the Findings row: fails exactly on a registered name or a name ending in '/' (duplicate-name error) or on an immediate parent held only by a file (directory-name error); on success the entries are the old ones, then a stored entry for the immediate parent only when it is new, then the file entry; the new names join the name sets and the stamp is kept |
| OcfRegistry.Create | src/ocf-writer.js:189-190 | a fresh writer holds exactly `mimetype` (stored, media type contents) and then `META-INF/`, and is well formed |
| OcfRegistry.BootstrapSucceeds | src/ocf-writer.js:189-190 | the two bootstrap calls cannot throw on an empty registry |
| OcfRegistry.AddDirectoryPreservesValid | src/ocf-writer.js:44-60 | after a successful `addDirectory`, the name sets match the entries, names are distinct, and parents precede files |
| OcfRegistry.AddFilePreservesValid | src/ocf-writer.js:62-82 | after a successful `addFile`, the same invariant holds, so the file's parent directory is registered before it |
| OcfRegistry.AddsKeepBootstrapFront | src/ocf-writer.js:50-81 | registration only appends: `mimetype` stays first and `META-INF/` second |
| OcfRegistry.AddFileRejectsRegistered | src/ocf-writer.js:57-67 | a name registered as a file or as a directory cannot be added as a file, in either version |
| OcfRegistry.AddFileAgreesWithSource | src/ocf-writer.js:62-82 | the corrected `addFile` equals the code as written on every name not ending in '/' |
| OcfRegistry.AddFileAsWrittenDuplicatesName | src/ocf-writer.js:69-81 | as written, `addFile("a/")` registers "a/" twice, as a directory and as a file |
| OcfGenerate.SafeCopy | src/utils.js:59-68 | the copy has the same length and holds each element mod 256, as a `Uint8Array` store keeps it |
| OcfGenerate.MakeSafeUint8Array | src/utils.js:59-68 | the loop fills a fresh array of the same length with each element mod 256, which is the copy `SafeCopy` describes; byte arrays are copied exactly |
| OcfGenerate.SafeCopyIdempotent | src/utils.js:59-68 | the copy is all bytes; copying twice is copying once; copying leaves exactly the byte arrays unchanged |
| OcfGenerate.Resolve | src/ocf-writer.js:86-120 | `undefined`/`null` becomes empty bytes and a string its encoding; array contents and the bytes of a successful deferred read become their safe copy; only a failed deferred read fails, with that read's error |
| OcfGenerate.RealizeAll | src/ocf-writer.js:86-146 | succeeds exactly when every entry resolves, and then yields one realized entry per registered entry, in order |
| OcfGenerate.RealizeAllFailsAtFirst | src/ocf-writer.js:86-146 | when some contents fail, the whole build fails with the first failing entry's error |
| OcfGenerate.GenerateFailsAtFirst | src/ocf-writer.js:86-122 | when an entry's deferred read fails and every earlier entry resolves, `generate` rejects with that read's error |
| OcfGenerate.AssembleArchive | src/ocf-writer.js:147-185 | the loop that carries `byteIndex` and `cdLength` builds exactly the archive layout |
| OcfGenerate.PartsLength | src/ocf-writer.js:172-174 | the inner loop sums the piece lengths to the record's byte length |
| ZipLayout.LocalRecord | src/ocf-writer.js:130-144 | a local record is 30 + name + stored bytes long |
| ZipLayout.CentralRecord | src/ocf-writer.js:153-170 | a central record is 46 + name bytes long |
| ZipLayout.EndRecord | src/ocf-writer.js:176-184 | the end record is 22 bytes long |
| ZipLayout.LocalOffsetAdvance | src/ocf-writer.js:172-174 | each local record moves the next offset on by 30 + name + stored bytes |
| ZipLayout.CentralSizeAdvance | src/ocf-writer.js:171 | each central record adds 46 + name bytes to the directory size |
| ZipLayout.ArchiveLength | src/ocf-writer.js:148-184 | the archive is the local records, then the directory, then 22 bytes |
| ZipReader.ReadEncodedFields | src/ocf-writer.js:21-35 | little-endian fields read back with their own widths give every value mod its width, whatever follows |
| ZipReader.ParseLocalRecord | src/ocf-writer.js:130-144 | the reader parses the writer's local record to its version, method, stamp, CRC, sizes, name and stored bytes |
| ZipReader.ParseCentralRecord | src/ocf-writer.js:153-170 | the reader parses the writer's central record to all its fields, including attributes and offset, and resumes right after the name |
| ZipReader.ParseEndRecord | src/ocf-writer.js:176-184 | the reader finds the entry count twice, the directory size and the directory offset in the last 22 bytes |
| ArchiveRoundTrip.ArchiveReadsBack | src/ocf-writer.js:147-185 | read back by a reader that insists each local header agree with its central record, the archive yields every entry in registration order with its name, method, CRC, stored bytes, size and directory flag |
| ArchiveRoundTrip.EndParses | src/ocf-writer.js:176-184 | the end record reports the entry count twice, the directory size and the total length of the local records |
| ArchiveRoundTrip.DirectoryParses | src/ocf-writer.js:149-175 | at the offset the end record gives, the directory parses to one central record per entry, in order |
| ArchiveRoundTrip.CentralsParse | src/ocf-writer.js:150-171 | central records from entry j on parse in order; each offset is the total length of the local records before it |
| ArchiveRoundTrip.LocalMatchesCentral | src/ocf-writer.js:130-168 | an entry's local header and central record carry the same name, version needed, flags, method, time, date, CRC and both sizes; the directory flag is external attributes 0x10 |
| ArchiveRoundTrip.MembersParse | src/ocf-writer.js:130-144 | each central record's offset leads to its own local record, under the same name, holding the stored bytes |
| OcfContainer.GeneratedArchiveReadsBack | src/ocf-writer.js:85-186 | every registered entry of a generated archive reads back in order, with its encoded name, kind, method, CRC of the resolved bytes, size, and stored or deflated bytes |
| OcfContainer.MimetypeLeadsArchive | src/ocf-writer.js:189 | an archive from a created writer starts with the stored `mimetype` member: the name at byte 30 and `application/epub+zip` at bytes 38-57 |
| XmlEscape.EscapeForXML | src/utils.js:76-92 | the five sequential replacements, ampersand first, equal replacing each character by its own reference (`EscapeEach`) |
| XmlEscape.EscapedHasNoMarkup | src/utils.js:85-92 | escaped text contains no `<`, `>`, `"` or `'` |
| XmlEscape.EscapedAmpersandsStartReferences | src/utils.js:76-92 | every `&` of escaped text begins one of the five references |
| XmlEscape.EscapeLeavesPlainText | src/utils.js:85-92 | text without any of the five characters comes back unchanged |
| XmlEscape.UnescapeEscape | src/utils.js:76-92 | decoding the five predefined XML entities recovers the original text |
| Template.IndexOf | src/utils.js:112 | the result is the first occurrence at or after the search position, or -1 when there is none |
| Template.Occurrences | src/utils.js:110-120 | soundness of one key's search loop: every start found is an occurrence at or after the search position, and each begins after the previous placeholder ends |
| Template.OccurrencesComplete | src/utils.js:110-120 | completeness of that loop: no occurrence starts before the first start found, in a gap between one found placeholder's end and the next start, or after the last placeholder; with none found, none starts from the search position on |
| Template.CollectedPoints | src/utils.js:103-122 | a point is collected exactly when the search loop of some key pushes it |
| Template.OccurrencesIncrease | src/utils.js:110-120 | the starts found by one key's loop strictly increase |
| Template.Insert | src/utils.js:124 | inserting keeps the multiset, adds one point, and keeps sortedness |
| Template.SortByStart | src/utils.js:124 | the sorted points are a permutation of the collected ones, ordered by start |
| Template.SortKeepsSorted | src/utils.js:124 | sorting points already in order changes nothing |
| Template.LineLength | src/utils.js:135-144 | the backward scan over the output pieces computes the column of the joined output, in UTF-16 code units |
| Template.ColumnIsTailLength | src/utils.js:135-144 | the column of a text is the UTF-16 length of what follows its last newline, or of the whole text when it has none |
| Template.TemplateWithoutPlaceholders | src/utils.js:94-151 | a template with no placeholder occurrence comes back unchanged |
| Template.SingleStringKey | src/utils.js:103-150 | with one key bound to a string, the result is the global left-to-right replacement of `{{ key }}`, and inserted text is not searched again |
| Template.SpliceIsReplaceAll | src/utils.js:126-150 | the output loop over one string key's points, from any search position, appends the global replacement of the rest of the template |
| Slug.SpacesToHyphens | src/utils.js:157 | each whitespace character becomes a hyphen and every other character is kept in place |
| Slug.DropUnprintable | src/utils.js:158 | only printable ASCII remains, and text that is all printable ASCII is unchanged |
| Slug.DropUnprintableSplits | src/utils.js:158 | the removal acts character by character: a printable character is kept, any other is dropped, and the result for joined text is the join of the results |
| Slug.NonWordToHyphens | src/utils.js:159 | position by position, a word character is kept and any other character becomes a hyphen |
| Slug.CollapseDropsRepeatedHyphens | src/utils.js:160 | collapsing drops exactly the hyphens that another hyphen follows and keeps every other character in order |
| Slug.TrimLeadingHyphens | src/utils.js:161 | the result is the suffix left after removing only hyphens, and it does not start with a hyphen |
| Slug.TrimTrailingHyphens | src/utils.js:162 | the result is the prefix left after removing only hyphens, and it does not end with a hyphen |
| Slug.SlugOf | src/utils.js:157-162 | the chain of rewrites yields word characters separated by single hyphens, with no hyphen at either end |
| Slug.MakeSlug | src/utils.js:153-163 | the slug of the folded text has that shape, and folded text that already has it comes back unchanged |
| Slug.SlugFixedPoints | src/utils.js:153-163 | a string is its own slug exactly when it already has that shape |
| Slug.SlugIdempotent | src/utils.js:153-163 | making a slug of a slug changes nothing |
| Slug.SlugKeepsWords | src/utils.js:153-163 | after folding, the slug keeps every ASCII word character of the text, in order, and adds none |
| Slug.SlugNeedsNoEscaping | src/utils.js:153-163 | XML escaping leaves a slug unchanged |
| ImageType.CheckHeader | src/utils.js:172-180 | the comparison loop succeeds exactly when the header is a prefix of the buffer |
| ImageType.DetectImageType | src/utils.js:165-209 | nothing for buffers of at most one byte; otherwise jpg, png or gif exactly when the buffer starts with that magic, and svg exactly when no magic matches and the text test passes |
| ImageType.MagicsDisagree | src/utils.js:182-201 | no buffer starts with two of the magic sequences, so the order of the checks never matters |
| ImageType.DetectsMagic | src/utils.js:182-201 | any data that starts with a raster magic is detected as that kind |
| ImageType.TwoBytesAreNeverRaster | src/utils.js:168-209 | a two-byte buffer is too short for every magic; only the text test can classify it |

## Left out

- Asynchrony is not modelled: `Promise.all`, `FileReader`, `Blob`, and the order in which promises settle. Contents are resolved in registration order. A failed read fails the build with the first failing entry's error, which is the rejection `Promise.all` reports when failures settle in registration order.
- CRC-32 (`calculateCRC32`), `Pako.deflateRaw` and `TextEncoder` are passed-in functions. `src/crc32.js` is not part of this model.
- `new Date()` is an argument: `create` takes the UTC calendar fields.
- `makeSafeUint8Array`'s `wrappedJSObject` unwrapping is a browser detail. Non-integer and non-number elements are not modelled: contents are sequences of integers.
- The `TextDecoder` + `/<\s*svg\W/i` branch of `detectImageType` is a boolean argument.
- `toLowerCase().normalize('NFD')` in `makeSlug` is the `fold` argument. Only the ASCII-level rewriting steps are modelled.
- Iteration order of the replacements object in `processTemplate` is the order of the `Replacements` sequence. JavaScript visits integer-like keys first.
- `Template.SingleStringKey` covers only a single string-valued key. Array values and several keys are described by `Template.Splice` and `Template.LineLength`. No separate equation relates them to a reference.
- Archives beyond the 16- and 32-bit field limits, or ZIP64, are not modelled. `ArchiveRoundTrip.Fits` requires names under 2^16 bytes, sizes and offsets under 2^32, and fewer than 2^16 entries. Past those limits the code silently wraps the fields, as `LE16`/`LE32` model.
- The rest of `src/utils.js` (`get`, `showCustomError`, `escapeForHTML`, `createImageElement`, `getImage`, `areStringsEquivalent`, `renderDateString`) is not modelled. Neither are the other source files: they are browser I/O, DOM work or regex cascades outside this core.

## Findings

| source | as written | input that shows it | evidently intended | confidence | as-written member | corrected member |
|---|---|---|---|---|---|---|
| src/ocf-writer.js:69-81 | `addFile` derives the parent directory as the name up to and including its last '/'. A name ending in '/' is therefore its own parent: `addDirectory` registers it, and then the file entry is appended under the same name. | `addFile("a/", undefined)` on a fresh writer | no two entries share a name (the duplicate-name error promises this); a name ending in '/' is refused as a file | not executed | OcfRegistry.AddFileAsWrittenDuplicatesName | OcfRegistry.AddFilePreservesValid |
