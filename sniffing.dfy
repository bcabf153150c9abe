/**
 * Format sniffing of book.js: the magic-byte tests `isZip` and `isPDF`, the
 * name and media-type tests `isCBZ`, `isFB2` and `isFBZ`, and the priority
 * order in which `getView` consults them to pick a codec.
 */
module Sniffing {
  import opened Prelude
  import opened Strings

  /**
   * What `getView` can observe of its input: whether it is a directory entry,
   * the file's size, its bytes (`head`; the signature tests read at most the
   * first five, through `file.slice(0, n)`), its name and media type, and the
   * verdict of the MOBI codec's own probe, which is external to this model.
   * A well-formed value has `size == |head|`: see `WellFormed`.
   */
  datatype FileInfo = FileInfo(
    isDirectory: bool,
    size: nat,
    head: seq<Byte>,
    name: string,
    mediaType: string,
    isMobi: bool)

  /** The recorded size is the number of bytes the file has. */
  predicate WellFormed(f: FileInfo) {
    !f.isDirectory ==> f.size == |f.head|
  }

  /** For a well-formed file, "File not found" is exactly the empty file, and a file that can carry a signature is never reported missing. */
  lemma NotFoundIsEmpty(f: FileInfo)
    requires WellFormed(f) && !f.isDirectory
    ensures Classify(f) == FileNotFound <==> |f.head| == 0
    ensures IsZip(f.head) || IsPdf(f.head) ==> Classify(f) != FileNotFound
  {
  }

  /** The local-file-header signature of a ZIP archive, `PK\x03\x04` (section 4.3.7 of the PKWARE APPNOTE). */
  const ZipSignature: seq<Byte> := [0x50, 0x4B, 0x03, 0x04]

  /** The header of a PDF file, `%PDF-` (section 7.5.2 of ISO 32000-1). */
  const PdfSignature: seq<Byte> := [0x25, 0x50, 0x44, 0x46, 0x2D]

  /** `new Uint8Array(await file.slice(0, n).arrayBuffer())`: at most the first n bytes. */
  function Slice(head: seq<Byte>, n: nat): (arr: seq<Byte>)
    ensures |arr| <= n && arr <= head
    ensures |head| >= n ==> |arr| == n
  {
    if |head| <= n then head else head[..n]
  }

  /** `arr[i] === v`; reading past the end gives `undefined`, which equals no byte. */
  predicate ByteIs(arr: seq<Byte>, i: nat, v: Byte) {
    i < |arr| && arr[i] == v
  }

  /** `isZip`: the first four bytes are the ZIP signature. */
  function IsZip(head: seq<Byte>): (r: bool)
    ensures r <==> |head| >= 4 && head[..4] == ZipSignature
  {
    var arr := Slice(head, 4);
    ByteIs(arr, 0, 0x50) && ByteIs(arr, 1, 0x4B) && ByteIs(arr, 2, 0x03) && ByteIs(arr, 3, 0x04)
  }

  /** `isPDF`: the first five bytes are the PDF header. */
  function IsPdf(head: seq<Byte>): (r: bool)
    ensures r <==> |head| >= 5 && head[..5] == PdfSignature
  {
    var arr := Slice(head, 5);
    ByteIs(arr, 0, 0x25) && ByteIs(arr, 1, 0x50) && ByteIs(arr, 2, 0x44)
      && ByteIs(arr, 3, 0x46) && ByteIs(arr, 4, 0x2D)
  }

  /** No file is both: the signatures differ in their first byte. */
  lemma ZipAndPdfExclusive(head: seq<Byte>)
    ensures !(IsZip(head) && IsPdf(head))
  {
    if |head| >= 5 {
      assert head[..4][0] == head[..5][0];
    }
  }

  /** Bytes after the signature never change either verdict. */
  lemma SignaturesReadOnlyTheirPrefix(head: seq<Byte>, more: seq<Byte>)
    requires |head| >= 5
    ensures IsZip(head + more) == IsZip(head)
    ensures IsPdf(head + more) == IsPdf(head)
  {
    assert (head + more)[..4] == head[..4];
    assert (head + more)[..5] == head[..5];
  }

  /** `isCBZ`. */
  predicate IsCbz(f: FileInfo) {
    f.mediaType == "application/vnd.comicbook+zip" || EndsWith(f.name, ".cbz")
  }

  /** `isFB2`. */
  predicate IsFb2(f: FileInfo) {
    f.mediaType == "application/x-fictionbook+xml" || EndsWith(f.name, ".fb2")
  }

  /** `isFBZ`. */
  predicate IsFbz(f: FileInfo) {
    f.mediaType == "application/x-zip-compressed-fb2"
      || EndsWith(f.name, ".fb2.zip") || EndsWith(f.name, ".fbz")
  }

  /** The codec `getView` hands the file to, or the error it throws. */
  datatype Choice =
    | DirectoryEpub  // an unpacked EPUB directory, read through the directory loader
    | Cbz            // a comic-book archive
    | Fbz            // a zipped FictionBook
    | Epub           // any other ZIP archive
    | Pdf
    | Mobi
    | Fb2            // a plain FictionBook file
    | FileNotFound   // `throw new Error('File not found')`
    | Unsupported    // `throw new Error('File type not supported')`

  /** The branch order of `getView`. */
  function Classify(f: FileInfo): Choice {
    if f.isDirectory then DirectoryEpub
    else if f.size == 0 then FileNotFound
    else if IsZip(f.head) then
      if IsCbz(f) then Cbz else if IsFbz(f) then Fbz else Epub
    else if IsPdf(f.head) then Pdf
    else if f.isMobi then Mobi
    else if IsFb2(f) then Fb2
    else Unsupported
  }

  /** Every choice, highest priority first. */
  const Priority: seq<Choice> :=
    [DirectoryEpub, FileNotFound, Cbz, Fbz, Epub, Pdf, Mobi, Fb2, Unsupported]

  /**
   * The condition under which `getView` would take the branch for `c` if no
   * branch before it applied.
   */
  predicate Guard(c: Choice, f: FileInfo) {
    match c
    case DirectoryEpub => f.isDirectory
    case FileNotFound => f.size == 0
    case Cbz => IsZip(f.head) && IsCbz(f)
    case Fbz => IsZip(f.head) && IsFbz(f)
    case Epub => IsZip(f.head)
    case Pdf => IsPdf(f.head)
    case Mobi => f.isMobi
    case Fb2 => IsFb2(f)
    case Unsupported => true
  }

  /** The position of `c` in `Priority`. */
  function Rank(c: Choice): (k: nat)
    ensures k < |Priority| && Priority[k] == c
  {
    match c
    case DirectoryEpub => 0
    case FileNotFound => 1
    case Cbz => 2
    case Fbz => 3
    case Epub => 4
    case Pdf => 5
    case Mobi => 6
    case Fb2 => 7
    case Unsupported => 8
  }

  /**
   * The declarative reading of the priority order: the chosen codec's guard
   * holds and the guard of every codec ranked above it fails.
   */
  lemma ClassifyIsFirstApplicable(f: FileInfo)
    ensures Guard(Classify(f), f)
    ensures forall j :: 0 <= j < Rank(Classify(f)) ==> !Guard(Priority[j], f)
  {
  }

  /** The first applicable choice is unique, so the declarative reading determines `Classify`. */
  lemma FirstApplicableIsClassify(f: FileInfo, c: Choice)
    requires Guard(c, f)
    requires forall j :: 0 <= j < Rank(c) ==> !Guard(Priority[j], f)
    ensures c == Classify(f)
  {
    var k := Rank(c);
    if k > 0 { assert !Guard(Priority[0], f); }
    if k > 1 { assert !Guard(Priority[1], f); }
    if k > 2 { assert !Guard(Priority[2], f); }
    if k > 3 { assert !Guard(Priority[3], f); }
    if k > 4 { assert !Guard(Priority[4], f); }
    if k > 5 { assert !Guard(Priority[5], f); }
    if k > 6 { assert !Guard(Priority[6], f); }
    if k > 7 { assert !Guard(Priority[7], f); }
  }

  /** A directory goes to the EPUB codec whatever its size, bytes, name or type. */
  lemma DirectoryIgnoresContents(size: nat, head: seq<Byte>, name: string, mediaType: string, isMobi: bool)
    ensures Classify(FileInfo(true, size, head, name, mediaType, isMobi)) == DirectoryEpub
  {
  }

  /** An empty file is reported missing before any byte, name or probe is consulted. */
  lemma EmptyFileNotFound(f: FileInfo)
    requires !f.isDirectory && f.size == 0
    ensures Classify(f) == FileNotFound
  {
  }

  /** The ZIP test comes before the PDF test, which comes before the MOBI probe and the FB2 test. */
  lemma ZipThenPdfThenOthers(f: FileInfo)
    requires !f.isDirectory && f.size > 0
    ensures IsZip(f.head) ==> Classify(f) in {Cbz, Fbz, Epub}
    ensures !IsZip(f.head) && IsPdf(f.head) ==> Classify(f) == Pdf
    ensures Classify(f) in {Mobi, Fb2, Unsupported} ==> !IsZip(f.head) && !IsPdf(f.head)
  {
  }

  /** Within a ZIP archive a comic book beats a zipped FictionBook, which beats the EPUB default. */
  lemma ZipSubtypeOrder(f: FileInfo)
    requires !f.isDirectory && f.size > 0 && IsZip(f.head)
    ensures IsCbz(f) ==> Classify(f) == Cbz
    ensures !IsCbz(f) && IsFbz(f) ==> Classify(f) == Fbz
    ensures !IsCbz(f) && !IsFbz(f) ==> Classify(f) == Epub
  {
  }

  /** The MOBI probe is a fallback: its verdict matters only for a file that is neither ZIP nor PDF. */
  lemma MobiProbeOnlyAfterSignatures(f: FileInfo, isMobi: bool)
    requires f.isDirectory || f.size == 0 || IsZip(f.head) || IsPdf(f.head)
    ensures Classify(f.(isMobi := isMobi)) == Classify(f)
  {
  }

  /** Only a file no test claims is unsupported. */
  lemma UnsupportedWhenNothingClaims(f: FileInfo)
    ensures Classify(f) == Unsupported <==>
      !f.isDirectory && f.size > 0 && !IsZip(f.head) && !IsPdf(f.head) && !f.isMobi && !IsFb2(f)
  {
  }

  /** A name with one of the FictionBook archive suffixes is recognised whatever its media type. */
  lemma FbzSuffixes(f: FileInfo, stem: string)
    ensures IsFbz(f.(name := stem + ".fbz"))
    ensures IsFbz(f.(name := stem + ".fb2.zip"))
    ensures IsFb2(f.(name := stem + ".fb2"))
    ensures IsCbz(f.(name := stem + ".cbz"))
  {
    EndsWithAppend(stem, ".fbz");
    EndsWithAppend(stem, ".fb2.zip");
    EndsWithAppend(stem, ".fb2");
    EndsWithAppend(stem, ".cbz");
  }
}
