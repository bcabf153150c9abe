/**
 * `getView` of book.js: picks a codec by the sniffing order, builds the loader
 * the codec needs and hands over the input, or throws one of its two errors.
 * The codecs themselves are external; a `Book` records which one receives what.
 */
module Dispatch {
  import opened Prelude
  import opened Strings
  import opened Loaders
  import Sniffing

  /** What `getView` hands to a codec. */
  datatype Book =
    | EpubBook(loader: Loader)                  // `new EPUB(loader).init()`
    | ComicBook(loader: Loader, file: Sniffing.FileInfo)  // `makeComicBook(loader, file)`
    | Fb2FromArchive(blob: Content)             // `makeFB2(blob)` for a zipped FictionBook
    | Fb2FromFile(file: Sniffing.FileInfo)      // `makeFB2(file)`
    | PdfBook(file: Sniffing.FileInfo)          // `makePDF(file)`
    | MobiBook(file: Sniffing.FileInfo)         // `new MOBI({ unzlib }).open(file)`

  /** Why `getView` rejects. */
  datatype OpenError =
    | NotFound          // 'File not found'
    | NotSupported      // 'File type not supported'
    | NoEntryToRead     // a zipped FictionBook with no entries: `(undefined).filename` throws a TypeError

  /** `entries.find(entry => entry.filename.endsWith('.fb2'))`, as the index of the entry found. */
  function FindFb2(entries: seq<ZipEntry>): (r: Option<nat>)
    ensures r.Some? ==> r.value < |entries| && EndsWith(entries[r.value].filename, ".fb2")
    ensures r.Some? ==> forall j :: 0 <= j < r.value ==> !EndsWith(entries[j].filename, ".fb2")
    ensures r.None? ==> forall j :: 0 <= j < |entries| ==> !EndsWith(entries[j].filename, ".fb2")
  {
    if |entries| == 0 then None
    else if EndsWith(entries[0].filename, ".fb2") then Some(0)
    else
      match FindFb2(entries[1..])
      case None => None
      case Some(k) => Some(k + 1)
  }

  /**
   * `(entry ?? entries[0]).filename`: the name of the first `.fb2` entry, or
   * else of the first entry; `None` when the archive is empty (the TypeError).
   */
  function FbzPayloadIndex(entries: seq<ZipEntry>): (r: Option<nat>)
    ensures r.None? <==> |entries| == 0
    ensures r.Some? ==> r.value < |entries|
  {
    match FindFb2(entries)
    case Some(i) => Some(i)
    case None => if |entries| > 0 then Some(0) else None
  }

  /** The payload is the first `.fb2` entry in listing order, and the first entry when there is none. */
  lemma FbzPayloadChoice(entries: seq<ZipEntry>)
    requires |entries| > 0
    ensures var i := FbzPayloadIndex(entries).value;
      (EndsWith(entries[i].filename, ".fb2") && forall j :: 0 <= j < i ==> !EndsWith(entries[j].filename, ".fb2"))
      || (i == 0 && forall j :: 0 <= j < |entries| ==> !EndsWith(entries[j].filename, ".fb2"))
  {
  }

  /** The branches of `getView`. `root` is what the directory reader lists and `archive` what the ZIP reader lists. */
  function GetView(f: Sniffing.FileInfo, root: DirEntry, archive: seq<ZipEntry>): Result<Book, OpenError>
    requires f.isDirectory ==> root.DirectoryEntry?
  {
    if f.isDirectory then Ok(EpubBook(MakeDirectoryLoader(root)))
    else if f.size == 0 then Err(NotFound)
    else if Sniffing.IsZip(f.head) then
      var loader := MakeZipLoader(archive);
      if Sniffing.IsCbz(f) then Ok(ComicBook(loader, f))
      else if Sniffing.IsFbz(f) then
        match FbzPayloadIndex(archive)
        case None => Err(NoEntryToRead)
        case Some(i) => Ok(Fb2FromArchive(loader.LoadBlob(archive[i].filename, None).value))
      else Ok(EpubBook(loader))
    else if Sniffing.IsPdf(f.head) then Ok(PdfBook(f))
    else if f.isMobi then Ok(MobiBook(f))
    else if Sniffing.IsFb2(f) then Ok(Fb2FromFile(f))
    else Err(NotSupported)
  }

  /** The classification an outcome of `getView` belongs to. */
  function ChoiceOf(r: Result<Book, OpenError>): Sniffing.Choice {
    match r
    case Err(NotFound) => Sniffing.FileNotFound
    case Err(NotSupported) => Sniffing.Unsupported
    case Err(NoEntryToRead) => Sniffing.Fbz
    case Ok(EpubBook(loader)) => if loader.DirectoryLoader? then Sniffing.DirectoryEpub else Sniffing.Epub
    case Ok(ComicBook(_, _)) => Sniffing.Cbz
    case Ok(Fb2FromArchive(_)) => Sniffing.Fbz
    case Ok(Fb2FromFile(_)) => Sniffing.Fb2
    case Ok(PdfBook(_)) => Sniffing.Pdf
    case Ok(MobiBook(_)) => Sniffing.Mobi
  }

  /**
   * `getView` follows the sniffing order: its outcome belongs to the
   * classification of the file, and it fails only with the two documented
   * errors, apart from a zipped FictionBook archive with no entries at all.
   */
  lemma GetViewFollowsClassify(f: Sniffing.FileInfo, root: DirEntry, archive: seq<ZipEntry>)
    requires f.isDirectory ==> root.DirectoryEntry?
    ensures ChoiceOf(GetView(f, root, archive)) == Sniffing.Classify(f)
    ensures GetView(f, root, archive) == Err(NotFound) <==> Sniffing.Classify(f) == Sniffing.FileNotFound
    ensures GetView(f, root, archive) == Err(NotSupported) <==> Sniffing.Classify(f) == Sniffing.Unsupported
    ensures GetView(f, root, archive) == Err(NoEntryToRead) <==> Sniffing.Classify(f) == Sniffing.Fbz && |archive| == 0
  {
    if !f.isDirectory && f.size > 0 && Sniffing.IsZip(f.head) && !Sniffing.IsCbz(f) && Sniffing.IsFbz(f) {
      assert Sniffing.Classify(f) == Sniffing.Fbz;
      if |archive| > 0 {
        var i := FbzPayloadIndex(archive).value;
        assert GetView(f, root, archive) == Ok(Fb2FromArchive(MakeZipLoader(archive).LoadBlob(archive[i].filename, None).value));
      }
    }
  }

  /**
   * A zipped FictionBook is read from the entry chosen by `FbzPayloadIndex`,
   * as long as no other entry carries the same name (the loader's map keeps
   * the last entry of a name).
   */
  lemma FbzReadsChosenEntry(f: Sniffing.FileInfo, root: DirEntry, archive: seq<ZipEntry>)
    requires !f.isDirectory && Sniffing.Classify(f) == Sniffing.Fbz && |archive| > 0
    requires var i := FbzPayloadIndex(archive).value;
      forall j :: i < j < |archive| ==> archive[j].filename != archive[i].filename
    ensures GetView(f, root, archive) == Ok(Fb2FromArchive(Blob(archive[FbzPayloadIndex(archive).value].data, None)))
  {
    ZipLastEntryWins(archive, FbzPayloadIndex(archive).value, None);
  }
}
