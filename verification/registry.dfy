/** The entry registry of the OCF writer (`create`, `addDirectory`,
    `addFile`): an append-only, ordered list of archive members whose names
    are unique, seeded with the two entries the EPUB Open Container Format
    requires at the front of the container. */
module OcfRegistry {
  import opened Common
  import opened DosTime

  datatype Kind = File | Directory

  /** What a caller hands `addFile` as contents: nothing (`undefined` or
      `null`), a string, an array-like of numbers (`ArrayBuffer`,
      `Uint8Array`, plain array), or something resolved later (a `Blob` or a
      promise), identified by a handle the content collaborator understands. */
  datatype Source = Absent | Text(text: string) | Numbers(items: seq<int>) | Deferred(handle: nat)

  /** One registered member. `compression` is the caller's string; only the
      exact value "deflate" selects compression when the archive is built. */
  datatype Entry = Entry(name: string, compression: string, kind: Kind, contents: Source)

  datatype Error =
    | DirectoryNameTaken(name: string)   // addDirectory: a file already has that name
    | DuplicateName(name: string)        // addFile: the name is already registered

  /** The writer's state: entries in registration order, the set of names
      registered as directories and the set of every registered name, and
      the date stamp taken when the writer was created. */
  datatype Registry = Registry(entries: seq<Entry>, directoryNames: set<string>, fileNames: set<string>, stamp: DosDateTime)

  const MIMETYPE: string := "mimetype"
  const EPUB_MEDIA_TYPE: string := "application/epub+zip"
  const META_INF: string := "META-INF/"
  const DEFLATE: string := "deflate"
  const NONE: string := "none"

  function Names(entries: seq<Entry>): set<string>
  {
    set i | 0 <= i < |entries| :: entries[i].name
  }

  function DirectoryNames(entries: seq<Entry>): set<string>
  {
    set i | 0 <= i < |entries| && entries[i].kind == Directory :: entries[i].name
  }

  predicate DistinctNames(entries: seq<Entry>)
  {
    forall i, j :: 0 <= i < j < |entries| ==> entries[i].name != entries[j].name
  }

  /** Every file inside a directory comes after that directory's entry. */
  predicate ParentsPrecede(entries: seq<Entry>)
  {
    forall i :: 0 <= i < |entries| && entries[i].kind == File && ParentDirectory(entries[i].name) != "" ==>
      exists j :: 0 <= j < i && entries[j].name == ParentDirectory(entries[i].name) && entries[j].kind == Directory
  }

  /** The bookkeeping sets describe the entry list, no name is used twice,
      and parents are registered before their files. */
  predicate Valid(r: Registry)
  {
    && r.fileNames == Names(r.entries)
    && r.directoryNames == DirectoryNames(r.entries)
    && DistinctNames(r.entries)
    && ParentsPrecede(r.entries)
  }

  /** `options.compression`, defaulting to "deflate" when the options or the
      field are missing or the empty string. */
  function EffectiveCompression(option: Option<string>): (c: string)
    ensures c != ""
    ensures option.Some? && option.value != "" ==> c == option.value
    ensures !(option.Some? && option.value != "") ==> c == DEFLATE
  {
    if option.Some? && option.value != "" then option.value else DEFLATE
  }

  /** `name.slice(0, name.lastIndexOf('/') + 1)`: the immediate parent
      directory with its trailing slash, or "" for a top-level name. */
  function ParentDirectory(name: string): (d: string)
    ensures d <= name
    ensures d == "" || d[|d| - 1] == '/'
    ensures forall j :: |d| <= j < |name| ==> name[j] != '/'
  {
    name[..LastIndexOf(name, '/') + 1]
  }

  /** `addDirectory(name)`: nothing happens when the directory exists; a
      name taken by a file throws; otherwise a stored directory entry is
      appended. */
  function AddDirectory(r: Registry, name: string): (res: Result<Registry, Error>)
    ensures name in r.directoryNames ==> res == Success(r)
    ensures res.Failure? <==> name !in r.directoryNames && name in r.fileNames
    ensures res.Failure? ==> res.error == DirectoryNameTaken(name)
    ensures res.Success? && name !in r.directoryNames ==>
      res.value.entries == r.entries + [Entry(name, NONE, Directory, Absent)]
    ensures res.Success? ==> res.value.stamp == r.stamp && name in res.value.directoryNames
  {
    if name in r.directoryNames then Success(r)
    else if name in r.fileNames then Failure(DirectoryNameTaken(name))
    else Success(r.(entries := r.entries + [Entry(name, NONE, Directory, Absent)],
                    directoryNames := r.directoryNames + {name},
                    fileNames := r.fileNames + {name}))
  }

  /** `addFile` registers the immediate parent directory of `name` only
      when it has one and it is not registered as a directory yet. */
  predicate AddsParent(r: Registry, name: string)
  {
    ParentDirectory(name) != "" && ParentDirectory(name) !in r.directoryNames
  }

  /** The directory entry `addFile` appends before the file, if any. */
  function ParentEntries(r: Registry, name: string): seq<Entry>
  {
    if AddsParent(r, name) then [Entry(ParentDirectory(name), NONE, Directory, Absent)] else []
  }

  /** The name that directory entry adds to both name sets, if any. */
  function ParentNames(r: Registry, name: string): set<string>
  {
    if AddsParent(r, name) then {ParentDirectory(name)} else {}
  }

  /** The registry after a successful `addFile`: the new parent directory
      entry, if any, then the file entry, with both name sets updated and
      the stamp kept. */
  function FileAdded(r: Registry, name: string, contents: Source, option: Option<string>): Registry
  {
    Registry(r.entries + ParentEntries(r, name) + [Entry(name, EffectiveCompression(option), File, contents)],
             r.directoryNames + ParentNames(r, name),
             r.fileNames + ParentNames(r, name) + {name},
             r.stamp)
  }

  /** The file-entry step shared by both versions of `addFile`: register the
      parent directory when there is one, then append the file. */
  function AppendFile(r: Registry, name: string, contents: Source, compression: string): Result<Registry, Error>
  {
    var parent := ParentDirectory(name);
    var withParent :- if parent != "" then AddDirectory(r, parent) else Success(r);
    Success(withParent.(entries := withParent.entries + [Entry(name, compression, File, contents)],
                        fileNames := withParent.fileNames + {name}))
  }

  /** `addFile(name, contents, options)` as ffn2epub writes it. A name
      ending in '/' is its own parent directory, so it is registered twice:
      once as a directory, once as a file. */
  function AddFileAsWritten(r: Registry, name: string, contents: Source, option: Option<string>): (res: Result<Registry, Error>)
    ensures res.Failure? <==>
      || name in r.fileNames
      || (ParentDirectory(name) != "" && ParentDirectory(name) !in r.directoryNames && ParentDirectory(name) in r.fileNames)
    ensures name in r.fileNames ==> res == Failure(DuplicateName(name))
    ensures res.Failure? && name !in r.fileNames ==> res.error == DirectoryNameTaken(ParentDirectory(name))
    ensures res.Success? ==>
      var e := res.value.entries;
      && |e| >= |r.entries| + 1
      && e[..|r.entries|] == r.entries
      && e[|e| - 1] == Entry(name, EffectiveCompression(option), File, contents)
      && (ParentDirectory(name) != "" ==> ParentDirectory(name) in res.value.directoryNames)
    ensures res.Success? ==> res.value == FileAdded(r, name, contents, option)
  {
    if name in r.fileNames then Failure(DuplicateName(name))
    else AppendFile(r, name, contents, EffectiveCompression(option))
  }

  predicate EndsWithSlash(name: string)
  {
    |name| > 0 && name[|name| - 1] == '/'
  }

  /** `addFile` with the uniqueness the error message promises: a name that
      is already registered, or that would be registered as its own parent
      directory, is refused. */
  function AddFile(r: Registry, name: string, contents: Source, option: Option<string>): (res: Result<Registry, Error>)
    ensures res.Failure? <==>
      || name in r.fileNames
      || EndsWithSlash(name)
      || (ParentDirectory(name) != "" && ParentDirectory(name) !in r.directoryNames && ParentDirectory(name) in r.fileNames)
    ensures name in r.fileNames || EndsWithSlash(name) ==> res == Failure(DuplicateName(name))
    ensures res.Failure? && name !in r.fileNames && !EndsWithSlash(name) ==>
      res.error == DirectoryNameTaken(ParentDirectory(name))
    ensures res.Success? ==> res.value.stamp == r.stamp
    ensures res.Success? ==>
      var e := res.value.entries;
      && |e| >= |r.entries| + 1
      && e[..|r.entries|] == r.entries
      && e[|e| - 1] == Entry(name, EffectiveCompression(option), File, contents)
    ensures res.Success? ==> res.value == FileAdded(r, name, contents, option)
  {
    if name in r.fileNames || EndsWithSlash(name) then Failure(DuplicateName(name))
    else AppendFile(r, name, contents, EffectiveCompression(option))
  }

  /** `create()`: the `mimetype` file, stored uncompressed, then `META-INF/`. */
  function Create(now: UtcTime): (r: Registry)
    requires now.Valid()
    ensures Valid(r)
    ensures r.entries == [Entry(MIMETYPE, NONE, File, Text(EPUB_MEDIA_TYPE)), Entry(META_INF, NONE, Directory, Absent)]
    ensures r.stamp == GetDosDateTime(now)
  {
    var empty := Registry([], {}, {}, GetDosDateTime(now));
    BootstrapSucceeds(empty);
    AddDirectory(AddFile(empty, MIMETYPE, Text(EPUB_MEDIA_TYPE), Some(NONE)).value, META_INF).value
  }

  lemma MimetypeIsTopLevel()
    ensures ParentDirectory(MIMETYPE) == ""
  {
    assert LastIndexOf(MIMETYPE, '/') == -1;
  }

  /** The two bootstrap calls of `create` cannot throw on an empty registry. */
  lemma BootstrapSucceeds(empty: Registry)
    requires empty.entries == [] && empty.directoryNames == {} && empty.fileNames == {}
    ensures AddFile(empty, MIMETYPE, Text(EPUB_MEDIA_TYPE), Some(NONE)).Success?
    ensures var r := AddDirectory(AddFile(empty, MIMETYPE, Text(EPUB_MEDIA_TYPE), Some(NONE)).value, META_INF);
      && r.Success?
      && r.value.stamp == empty.stamp
      && r.value.entries == [Entry(MIMETYPE, NONE, File, Text(EPUB_MEDIA_TYPE)), Entry(META_INF, NONE, Directory, Absent)]
      && Valid(r.value)
  {
    MimetypeIsTopLevel();
    var mimetype := Entry(MIMETYPE, NONE, File, Text(EPUB_MEDIA_TYPE));
    var metaInf := Entry(META_INF, NONE, Directory, Absent);
    var one := Registry([mimetype], {}, {MIMETYPE}, empty.stamp);
    assert !EndsWithSlash(MIMETYPE) by { assert MIMETYPE[7] == 'e'; }
    assert EffectiveCompression(Some(NONE)) == NONE by { assert NONE[0] == 'n'; }
    assert AppendFile(empty, MIMETYPE, Text(EPUB_MEDIA_TYPE), NONE) == Success(one) by {
      assert [] + [mimetype] == [mimetype];
      assert {} + {MIMETYPE} == {MIMETYPE};
    }
    assert META_INF != MIMETYPE by { assert META_INF[0] != MIMETYPE[0]; }
    var two := Registry([mimetype, metaInf], {META_INF}, {MIMETYPE, META_INF}, empty.stamp);
    assert AddDirectory(one, META_INF) == Success(two) by {
      assert META_INF !in one.directoryNames && META_INF !in one.fileNames;
      assert [mimetype] + [metaInf] == [mimetype, metaInf];
      assert {} + {META_INF} == {META_INF};
      assert {MIMETYPE} + {META_INF} == {MIMETYPE, META_INF};
    }
    assert Names(two.entries) == {MIMETYPE, META_INF} by {
      assert two.entries[0].name == MIMETYPE && two.entries[1].name == META_INF;
    }
    assert DirectoryNames(two.entries) == {META_INF} by {
      assert two.entries[0].kind == File && two.entries[1].kind == Directory;
    }
  }

  /** A successful `addDirectory` keeps the registry well formed. */
  lemma AddDirectoryPreservesValid(r: Registry, name: string)
    requires Valid(r) && AddDirectory(r, name).Success?
    ensures Valid(AddDirectory(r, name).value)
  {
    if name !in r.directoryNames {
      var e := r.entries + [Entry(name, NONE, Directory, Absent)];
      AppendNames(r.entries, Entry(name, NONE, Directory, Absent));
      forall i | 0 <= i < |e| && e[i].kind == File && ParentDirectory(e[i].name) != ""
        ensures exists j :: 0 <= j < i && e[j].name == ParentDirectory(e[i].name) && e[j].kind == Directory
      {
        assert i < |r.entries|;
        var j :| 0 <= j < i && r.entries[j].name == ParentDirectory(r.entries[i].name) && r.entries[j].kind == Directory;
        assert e[j] == r.entries[j];
      }
    }
  }

  lemma AppendNames(entries: seq<Entry>, e: Entry)
    ensures Names(entries + [e]) == Names(entries) + {e.name}
    ensures DirectoryNames(entries + [e]) == DirectoryNames(entries) + (if e.kind == Directory then {e.name} else {})
    ensures DistinctNames(entries) && e.name !in Names(entries) ==> DistinctNames(entries + [e])
  {
    var all := entries + [e];
    assert all[|entries|] == e;
    forall x | x in Names(entries) ensures x in Names(all) {
      var i :| 0 <= i < |entries| && entries[i].name == x;
      assert all[i] == entries[i];
    }
    forall x | x in DirectoryNames(entries) ensures x in DirectoryNames(all) {
      var i :| 0 <= i < |entries| && entries[i].kind == Directory && entries[i].name == x;
      assert all[i] == entries[i];
    }
    if DistinctNames(entries) && e.name !in Names(entries) {
      forall i, j | 0 <= i < j < |all| ensures all[i].name != all[j].name {
        if j < |entries| {
          assert all[i] == entries[i] && all[j] == entries[j];
        } else {
          assert all[i] == entries[i];
        }
      }
    }
  }

  /** A successful `addFile` keeps the registry well formed: in particular
      the new file's parent directory is registered before it. */
  lemma AddFilePreservesValid(r: Registry, name: string, contents: Source, option: Option<string>)
    requires Valid(r) && AddFile(r, name, contents, option).Success?
    ensures Valid(AddFile(r, name, contents, option).value)
  {
    var parent := ParentDirectory(name);
    var withParent := if parent != "" then AddDirectory(r, parent).value else r;
    if parent != "" {
      AddDirectoryPreservesValid(r, parent);
    }
    assert parent != "" ==> name != parent;
    assert name !in withParent.fileNames by {
      if parent != "" && parent !in r.directoryNames {
        assert withParent.fileNames == r.fileNames + {parent};
      }
    }
    var file := Entry(name, EffectiveCompression(option), File, contents);
    AppendFilePreservesValid(withParent, file);
    assert AddFile(r, name, contents, option).value
      == withParent.(entries := withParent.entries + [file], fileNames := withParent.fileNames + {name});
  }

  /** Appending a file whose name is new and whose parent directory is
      registered keeps the registry well formed. */
  lemma AppendFilePreservesValid(w: Registry, file: Entry)
    requires Valid(w) && file.kind == File && file.name !in w.fileNames
    requires ParentDirectory(file.name) != "" ==> ParentDirectory(file.name) in w.directoryNames
    ensures Valid(w.(entries := w.entries + [file], fileNames := w.fileNames + {file.name}))
  {
    var e := w.entries + [file];
    AppendNames(w.entries, file);
    forall i | 0 <= i < |e| && e[i].kind == File && ParentDirectory(e[i].name) != ""
      ensures exists j :: 0 <= j < i && e[j].name == ParentDirectory(e[i].name) && e[j].kind == Directory
    {
      if i < |w.entries| {
        var j :| 0 <= j < i && w.entries[j].name == ParentDirectory(w.entries[i].name) && w.entries[j].kind == Directory;
        assert e[j] == w.entries[j];
      } else {
        assert e[i] == file;
        var parent := ParentDirectory(file.name);
        assert parent in DirectoryNames(w.entries);
        var j :| 0 <= j < |w.entries| && w.entries[j].kind == Directory && w.entries[j].name == parent;
        assert e[j] == w.entries[j];
      }
    }
  }

  /** The two entries `create` registers lead the list. */
  predicate BootstrapFront(r: Registry)
  {
    && |r.entries| >= 2
    && r.entries[0] == Entry(MIMETYPE, NONE, File, Text(EPUB_MEDIA_TYPE))
    && r.entries[1] == Entry(META_INF, NONE, Directory, Absent)
  }

  /** Registration only ever appends, so `mimetype` stays the first entry
      and `META-INF/` the second whatever is added after `create`. */
  lemma AddsKeepBootstrapFront(r: Registry, name: string, contents: Source, option: Option<string>)
    requires BootstrapFront(r)
    ensures AddFile(r, name, contents, option).Success? ==> BootstrapFront(AddFile(r, name, contents, option).value)
    ensures AddDirectory(r, name).Success? ==> BootstrapFront(AddDirectory(r, name).value)
  {
    var res := AddFile(r, name, contents, option);
    if res.Success? {
      assert res.value.entries[0] == res.value.entries[..|r.entries|][0];
      assert res.value.entries[1] == res.value.entries[..|r.entries|][1];
    }
  }

  /** A registered name, whether a file's or a directory's, cannot be added
      again as a file. */
  lemma AddFileRejectsRegistered(r: Registry, name: string, contents: Source, option: Option<string>)
    requires Valid(r) && exists i :: 0 <= i < |r.entries| && r.entries[i].name == name
    ensures AddFile(r, name, contents, option) == Failure(DuplicateName(name))
    ensures AddFileAsWritten(r, name, contents, option) == Failure(DuplicateName(name))
  {
    var i :| 0 <= i < |r.entries| && r.entries[i].name == name;
    assert name in Names(r.entries);
  }

  /** The two versions of `addFile` differ only on names ending in '/'. */
  lemma AddFileAgreesWithSource(r: Registry, name: string, contents: Source, option: Option<string>)
    requires !EndsWithSlash(name)
    ensures AddFile(r, name, contents, option) == AddFileAsWritten(r, name, contents, option)
  {
  }

  /** As written, `addFile("a/", ...)` on a fresh writer succeeds and leaves
      two entries named "a/": the implicit directory and the file. */
  lemma AddFileAsWrittenDuplicatesName(now: UtcTime)
    requires now.Valid()
    ensures var res := AddFileAsWritten(Create(now), "a/", Absent, None);
      && res.Success?
      && |res.value.entries| == 4
      && res.value.entries[2].name == "a/" && res.value.entries[2].kind == Directory
      && res.value.entries[3].name == "a/" && res.value.entries[3].kind == File
      && !DistinctNames(res.value.entries)
  {
    var r := Create(now);
    assert "a/" !in r.fileNames && "a/" !in r.directoryNames by {
      assert "a/" != MIMETYPE && "a/" != META_INF;
    }
    SlashNameTwice(r);
  }

  /** Wherever "a/" is new, `addFile("a/")` as written appends it twice. */
  lemma SlashNameTwice(r: Registry)
    requires "a/" !in r.fileNames && "a/" !in r.directoryNames
    ensures var res := AddFileAsWritten(r, "a/", Absent, None);
      && res.Success?
      && res.value.entries == r.entries + [Entry("a/", NONE, Directory, Absent), Entry("a/", DEFLATE, File, Absent)]
  {
    assert LastIndexOf("a/", '/') == 1;
    assert ParentDirectory("a/") == "a/";
  }
}
