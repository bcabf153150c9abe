/**
 * The two loaders of book.js, `makeZipLoader` and `makeDirectoryLoader`: each
 * builds a name-to-entry map once and then answers `loadText`, `loadBlob` and
 * `getSize` by lookups in it. The archive reader, the directory reader and the
 * text decoder are external; their results are inputs here.
 */
module Loaders {
  import opened Prelude
  import opened Strings
  import opened Maps

  /** An entry of a ZIP archive, as zip.js's `getEntries` lists it. */
  datatype ZipEntry = ZipEntry(filename: string, uncompressedSize: nat, data: seq<Byte>)

  /** A `File` obtained from a directory entry. */
  datatype FileData = FileData(data: seq<Byte>, mediaType: string)

  /** What a loader hands to a codec: decoded text or a typed binary blob, represented by their bytes. */
  datatype Content = Text(bytes: seq<Byte>) | Blob(bytes: seq<Byte>, mediaType: Option<string>)

  /** A loader: either over a ZIP archive's entries or over a directory's files. */
  datatype Loader =
    | ZipLoader(entries: seq<ZipEntry>, byName: map<string, ZipEntry>)
    | DirectoryLoader(byPath: map<string, FileData>)
  {
    /** `loadText(name)`: the named resource as text, or null when there is none. */
    function LoadText(name: string): Option<Content> {
      match this
      case ZipLoader(_, byName) =>
        if name in byName then Some(Text(byName[name].data)) else None
      case DirectoryLoader(byPath) =>
        if name in byPath then Some(Text(byPath[name].data)) else None
    }

    /**
     * `loadBlob(name, type)`: the named resource as a blob. The ZIP loader types
     * it with the requested media type; the directory loader returns the file
     * itself, with the file's own type.
     */
    function LoadBlob(name: string, mediaType: Option<string>): Option<Content> {
      match this
      case ZipLoader(_, byName) =>
        if name in byName then Some(Blob(byName[name].data, mediaType)) else None
      case DirectoryLoader(byPath) =>
        if name in byPath then Some(Blob(byPath[name].data, Some(byPath[name].mediaType))) else None
    }

    /** `getSize(name)`: the stored size, or 0 when there is no such resource. */
    function GetSize(name: string): nat {
      match this
      case ZipLoader(_, byName) =>
        if name in byName then byName[name].uncompressedSize else 0
      case DirectoryLoader(byPath) =>
        if name in byPath then |byPath[name].data| else 0
    }
  }

  /** `makeZipLoader`: index the archive's entries by file name. */
  function MakeZipLoader(entries: seq<ZipEntry>): (r: Loader)
    ensures r.ZipLoader? && r.entries == entries
    ensures forall i :: 0 <= i < |entries| ==> entries[i].filename in r.byName
  {
    var pairs := seq(|entries|, i requires 0 <= i < |entries| => (entries[i].filename, entries[i]));
    assert forall i :: 0 <= i < |entries| ==> pairs[i].0 == entries[i].filename;
    ZipLoader(entries, MapFromPairs(pairs))
  }

  /** A name that no entry carries loads as null and has size 0. */
  lemma ZipAbsentName(entries: seq<ZipEntry>, name: string, mediaType: Option<string>)
    requires forall i :: 0 <= i < |entries| ==> entries[i].filename != name
    ensures MakeZipLoader(entries).LoadText(name) == None
    ensures MakeZipLoader(entries).LoadBlob(name, mediaType) == None
    ensures MakeZipLoader(entries).GetSize(name) == 0
  {
    var pairs := seq(|entries|, i requires 0 <= i < |entries| => (entries[i].filename, entries[i]));
    assert forall i :: 0 <= i < |pairs| ==> pairs[i].0 != name;
  }

  /** With duplicated file names the last entry wins: every lookup answers from it. */
  lemma ZipLastEntryWins(entries: seq<ZipEntry>, i: nat, mediaType: Option<string>)
    requires i < |entries|
    requires forall j :: i < j < |entries| ==> entries[j].filename != entries[i].filename
    ensures MakeZipLoader(entries).LoadText(entries[i].filename) == Some(Text(entries[i].data))
    ensures MakeZipLoader(entries).LoadBlob(entries[i].filename, mediaType) == Some(Blob(entries[i].data, mediaType))
    ensures MakeZipLoader(entries).GetSize(entries[i].filename) == entries[i].uncompressedSize
  {
    var pairs := seq(|entries|, k requires 0 <= k < |entries| => (entries[k].filename, entries[k]));
    assert IsLastOfKey(pairs, i);
  }

  /** A directory entry as `FileSystemEntry` presents it: a file, or a directory with its children. */
  datatype DirEntry =
    | FileEntry(fullPath: string, file: FileData)
    | DirectoryEntry(fullPath: string, children: seq<DirEntry>)

  /** `getFileEntries`: the files under `e`, depth first, in listing order. */
  function FileEntries(e: DirEntry): (r: seq<DirEntry>)
    ensures forall k :: 0 <= k < |r| ==> r[k].FileEntry?
    ensures e.FileEntry? ==> r == [e]
    decreases e, 1
  {
    match e
    case FileEntry(_, _) => [e]
    case DirectoryEntry(_, children) => FileEntriesOfAll(children)
  }

  /** The files under each of `es`, concatenated (`Promise.all(...)` followed by `flat()`). */
  function FileEntriesOfAll(es: seq<DirEntry>): (r: seq<DirEntry>)
    ensures forall k :: 0 <= k < |r| ==> r[k].FileEntry?
    decreases es, 0
  {
    if |es| == 0 then []
    else FileEntries(es[0]) + FileEntriesOfAll(es[1..])
  }

  /** `x` is `e` itself or lies, at any depth, under one of `e`'s children. */
  ghost predicate InTree(e: DirEntry, x: DirEntry)
    decreases e
  {
    e == x || (e.DirectoryEntry? && exists c :: c in e.children && InTree(c, x))
  }

  /** `getFileEntries` lists exactly the files of the tree, at every depth. */
  lemma {:induction false} FileEntriesComplete(e: DirEntry, x: DirEntry)
    ensures x in FileEntries(e) <==> x.FileEntry? && InTree(e, x)
    decreases e, 1
  {
    match e
    case FileEntry(_, _) =>
    case DirectoryEntry(_, children) =>
      FileEntriesOfAllComplete(children, x);
  }

  /** The flattened listing of several entries lists exactly the files under any of them. */
  lemma {:induction false} FileEntriesOfAllComplete(es: seq<DirEntry>, x: DirEntry)
    ensures x in FileEntriesOfAll(es) <==> x.FileEntry? && exists c :: c in es && InTree(c, x)
    decreases es, 0
  {
    if |es| > 0 {
      FileEntriesComplete(es[0], x);
      FileEntriesOfAllComplete(es[1..], x);
      if x.FileEntry? && exists c :: c in es && InTree(c, x) {
        var c :| c in es && InTree(c, x);
        if c != es[0] {
          assert c in es[1..];
        }
      }
      if x in FileEntriesOfAll(es[1..]) {
        var c :| c in es[1..] && InTree(c, x);
        assert c in es;
      }
    }
  }

  /** The key of a file: its full path with the first occurrence of the root's path and a slash removed. */
  function DirectoryKey(rootPath: string, fullPath: string): string {
    RemoveFirst(fullPath, rootPath + "/")
  }

  /** A file at `root/rest` is keyed by `rest`. */
  lemma DirectoryKeyIsRelativePath(rootPath: string, rest: string)
    ensures DirectoryKey(rootPath, rootPath + "/" + rest) == rest
  {
    assert rootPath + "/" + rest == (rootPath + "/") + rest;
    RemoveLeading(rootPath + "/", rest);
  }

  /** The (key, file) pairs `makeDirectoryLoader` builds its map from. */
  function DirectoryPairs(rootPath: string, files: seq<DirEntry>): (pairs: seq<(string, FileData)>)
    requires forall k :: 0 <= k < |files| ==> files[k].FileEntry?
    ensures |pairs| == |files|
  {
    seq(|files|, i requires 0 <= i < |files| => (DirectoryKey(rootPath, files[i].fullPath), files[i].file))
  }

  /** `makeDirectoryLoader`, which is only ever given a directory. */
  function MakeDirectoryLoader(root: DirEntry): (r: Loader)
    requires root.DirectoryEntry?
    ensures r.DirectoryLoader?
  {
    DirectoryLoader(MapFromPairs(DirectoryPairs(root.fullPath, FileEntries(root))))
  }

  /**
   * A file anywhere in the tree at `root/rest` is what the loader returns for
   * `rest`, provided every file of the tree with that key has the same contents.
   */
  lemma DirectoryLookup(root: DirEntry, x: DirEntry, rest: string, mediaType: Option<string>)
    requires root.DirectoryEntry? && x.FileEntry? && InTree(root, x)
    requires x.fullPath == root.fullPath + "/" + rest
    requires forall y: DirEntry :: y.FileEntry? && InTree(root, y) && DirectoryKey(root.fullPath, y.fullPath) == rest ==> y.file == x.file
    ensures MakeDirectoryLoader(root).LoadText(rest) == Some(Text(x.file.data))
    ensures MakeDirectoryLoader(root).LoadBlob(rest, mediaType) == Some(Blob(x.file.data, Some(x.file.mediaType)))
    ensures MakeDirectoryLoader(root).GetSize(rest) == |x.file.data|
  {
    var files := FileEntries(root);
    var pairs := DirectoryPairs(root.fullPath, files);
    var m := MapFromPairs(pairs);
    FileEntriesComplete(root, x);
    var i :| 0 <= i < |files| && files[i] == x;
    DirectoryKeyIsRelativePath(root.fullPath, rest);
    assert pairs[i] == (rest, x.file);
    assert rest in m;
    var j :| 0 <= j < |pairs| && pairs[j] == (rest, m[rest]);
    FileEntriesComplete(root, files[j]);
  }

  /** A name that is no file's key loads as null and has size 0. */
  lemma DirectoryAbsentName(root: DirEntry, name: string, mediaType: Option<string>)
    requires root.DirectoryEntry?
    requires forall j :: 0 <= j < |FileEntries(root)| ==> DirectoryKey(root.fullPath, FileEntries(root)[j].fullPath) != name
    ensures MakeDirectoryLoader(root).LoadText(name) == None
    ensures MakeDirectoryLoader(root).LoadBlob(name, mediaType) == None
    ensures MakeDirectoryLoader(root).GetSize(name) == 0
  {
    var pairs := DirectoryPairs(root.fullPath, FileEntries(root));
    assert forall j :: 0 <= j < |pairs| ==> pairs[j].0 != name;
  }

  /** The archive's stored sizes agree with its contents. */
  predicate SizesAgree(entries: seq<ZipEntry>) {
    forall i :: 0 <= i < |entries| ==> entries[i].uncompressedSize == |entries[i].data|
  }

  /**
   * Whatever the loader and the name, `getSize` is the byte length of the
   * entry `loadText` decodes (for a ZIP loader, provided the archive's stored
   * sizes are right), and 0 when `loadText` returns nothing.
   */
  lemma SizeMatchesContent(loader: Loader, name: string)
    requires loader.ZipLoader? ==> loader == MakeZipLoader(loader.entries) && SizesAgree(loader.entries)
    ensures loader.LoadText(name).Some? ==> loader.GetSize(name) == |loader.LoadText(name).value.bytes|
    ensures loader.LoadText(name).None? ==> loader.GetSize(name) == 0
  {
    if loader.ZipLoader? && name in loader.byName {
      var entries := loader.entries;
      var pairs := seq(|entries|, i requires 0 <= i < |entries| => (entries[i].filename, entries[i]));
      var i :| 0 <= i < |pairs| && pairs[i] == (name, loader.byName[name]);
      assert loader.byName[name] == entries[i];
    }
  }
}
