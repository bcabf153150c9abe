# book.js reader core, modelled in Dafny

`book.js` is the entry point of a foliate-js based e-book reader. Given a file
or a dropped directory it sniffs the format, builds a loader over the archive
or the directory, and hands the book to a codec (`getView`). Once the book is
open, a `Reader` registers the caller's bookmarks in an annotation index (a
chapter-bucket map and a by-CFI map) that the view's overlay, drawing and
lookup handlers consult. A selection handler turns a DOM selection into an
anchor point in window coordinates and debounces selection changes.

This project models those parts:

- `prelude.dfy` (`Prelude`): `Option` (JavaScript's `null`/`undefined`), `Result`, and bytes.
- `strings.dfy` (`Strings`): the JavaScript string operations the code relies on, with their JavaScript meaning: `endsWith`, `split` on one character, `replace` with a string pattern (first occurrence only), and the coercion `-` applies to a string.
- `sniffing.dfy` (`Sniffing`): `isZip`, `isPDF`, `isCBZ`, `isFB2`, `isFBZ`, and `getView`'s branch order as a pure classifier.
- `maps.dfy` (`Maps`): `new Map(pairs)`, where a later pair overwrites an earlier one.
- `loaders.dfy` (`Loaders`): `makeZipLoader`, `getFileEntries` and `makeDirectoryLoader` as name-to-entry maps with their `loadText`, `loadBlob` and `getSize` lookups.
- `dispatch.dfy` (`Dispatch`): `getView` itself, including the FictionBook-in-ZIP payload choice.
- `geometry.dfy` (`Geometry`): `frameRect`, `pointIsInView`, `getPosition` and `getSelectionRange`, over `real` coordinates.
- `debounce.dfy` (`Debounce`): `debounce` as a class over an abstract clock.
- `annotations.dfy` (`Annotations`): the chapter key of a CFI, the registration loop of `Reader.open` as a class with the two maps, the `create-overlay`, `draw-annotation` and `show-annotation` handlers, and the bookmarks `open` registers.

Some behaviours of the code are easy to overlook; the model keeps them:

- The chapter key `(cfi.split('/')[2].split('!')[0] - 2) / 2` is computed on JavaScript numbers, not on integers, and a malformed CFI is not rejected on its own. An odd step gives a fractional key that no chapter index equals (for steps below 2^53, where doubles are exact), and a step that is not a numeral gives `NaN`. All such annotations share one `NaN` bucket, because `Map` keys compare by SameValueZero. A CFI with fewer than two slashes throws a TypeError. That error ends the whole registration loop and leaves `open` before the `create-overlay`, `draw-annotation` and `show-annotation` handlers are attached, so the bookmarks registered before it stay in the maps but are never drawn or looked up. `Register` returns `ok == false` in that case and `Open` then attaches nothing.
- `getPosition` throws when the range has no client rectangles, because `rects[0]` is `undefined`. `GetPosition` returns `None` there.
- With two bookmarks on the same CFI, the by-CFI map keeps the later one while the bucket keeps both, so a bucket may hold annotations the by-CFI map no longer returns. `Consistent` states the direction that does hold.
- Opening a file fails with "File not found" or "File type not supported", and in one more case: a FictionBook ZIP archive with no entries at all makes `(entry ?? entries[0]).filename` throw a TypeError. This is `OpenError.NoEntryToRead`.

## Model

| member | source | states |
|---|---|---|
| Strings.EndsWith | book.js:165-173 | `name.endsWith(suffix)`: the suffix fits and the last characters of the name are exactly the suffix; the tests in `isCBZ`, `isFB2` and `isFBZ` (and the `.fb2` entry search, line 191) use it |
| Strings.EndsWithAppend | book.js:165-173 | a name built as stem + suffix ends with that suffix |
| Strings.Split | book.js:306 | `split` on one character yields at least one piece and no piece contains the separator |
| Strings.JoinSplit | book.js:306 | joining the pieces of `split` with the separator gives back the original string |
| Strings.SplitWithoutSeparator | book.js:306 | a string without the separator splits into itself alone |
| Strings.SplitFirstPiece | book.js:306 | a separator-free leading piece is split off as the first piece and the rest is split on its own |
| Strings.IndexOfFrom | book.js:155 | the result is an occurrence of the pattern with none before it, and `None` means no occurrence at or after the start |
| Strings.RemoveFirst | book.js:155 | `replace(pat, '')` leaves the string alone when the pattern is absent and otherwise removes the first occurrence and nothing else |
| Strings.RemoveLeading | book.js:155 | a string starting with the pattern loses exactly that prefix |
| Strings.DigitsValue | book.js:306 | a numeral with a non-zero leading digit has a positive value |
| Strings.ToNumber | book.js:306 | a numeral coerces to its non-negative value and the empty string to 0 |
| Sniffing.Slice | book.js:118 | `file.slice(0, n)` yields a prefix of the file of at most n bytes, and exactly n when the file has them |
| Sniffing.IsZip | book.js:117-120 | true exactly when the file has at least 4 bytes and they are 0x50 0x4B 0x03 0x04 |
| Sniffing.IsPdf | book.js:122-127 | true exactly when the file has at least 5 bytes and they are 0x25 0x50 0x44 0x46 0x2D |
| Sniffing.ZipAndPdfExclusive | book.js:117-127 | no file passes both signature tests |
| Sniffing.SignaturesReadOnlyTheirPrefix | book.js:117-127 | bytes after the first five never change either verdict |
| Sniffing.ClassifyIsFirstApplicable | book.js:175-212 | the chosen codec's condition holds and the condition of every codec ranked above it fails |
| Sniffing.FirstApplicableIsClassify | book.js:175-212 | any choice whose condition holds while all higher-ranked conditions fail is the choice `getView` makes |
| Sniffing.DirectoryIgnoresContents | book.js:177-181 | a directory goes to the EPUB codec whatever its size, bytes, name, type or MOBI verdict |
| Sniffing.NotFoundIsEmpty | book.js:182 | for a file whose recorded size is its byte count, "File not found" is reported exactly for the empty file, and never for one carrying a ZIP or PDF signature |
| Sniffing.EmptyFileNotFound | book.js:182 | an empty non-directory is "File not found" |
| Sniffing.ZipThenPdfThenOthers | book.js:183-211 | a ZIP file goes to an archive codec, a non-ZIP PDF goes to the PDF codec, and MOBI, FB2 and unsupported are only reached by files that are neither |
| Sniffing.ZipSubtypeOrder | book.js:185-196 | inside a ZIP archive CBZ beats FBZ, which beats the EPUB default |
| Sniffing.MobiProbeOnlyAfterSignatures | book.js:198-206 | the MOBI probe's verdict cannot change the choice for a directory, an empty file, a ZIP or a PDF |
| Sniffing.UnsupportedWhenNothingClaims | book.js:202-212 | "File type not supported" happens exactly when no test claims a non-empty file |
| Sniffing.FbzSuffixes | book.js:165-173 | names ending in `.fbz`, `.fb2.zip`, `.fb2` and `.cbz` are recognised whatever the media type |
| Sniffing.IsCbz | book.js:165-166 | a comic book archive by media type `application/vnd.comicbook+zip` or by a name ending in `.cbz` |
| Sniffing.IsFb2 | book.js:168-169 | a FictionBook file by media type `application/x-fictionbook+xml` or by a name ending in `.fb2` |
| Sniffing.IsFbz | book.js:171-173 | a zipped FictionBook by media type `application/x-zip-compressed-fb2` or by a name ending in `.fb2.zip` or `.fbz` |
| Sniffing.Classify | book.js:175-212 | the branch `getView` takes; its meaning is stated by `ClassifyIsFirstApplicable` and `FirstApplicableIsClassify` |
| Maps.MapFromPairs | book.js:133 | every key of the pairs is in the map, every entry comes from some pair, and the last pair of a key gives its value |
| Loaders.MakeZipLoader | book.js:129-139 | the loader keeps the entry list and has every entry's file name as a key |
| Loaders.Loader.LoadText | book.js:134-136 | the named entry's contents, or null when the map has no such name (ZIP: line 135; directory: lines 157-159); stated by `ZipLastEntryWins`, `ZipAbsentName`, `DirectoryLookup` and `DirectoryAbsentName` |
| Loaders.Loader.LoadBlob | book.js:137 | the named entry as a blob typed with the requested type (ZIP), or the file itself with its own type (directory, line 160); stated by the same lemmas |
| Loaders.Loader.GetSize | book.js:138 | the stored uncompressed size (ZIP) or the file's size (directory, line 161), and 0 for a missing name; stated by the same lemmas and `SizeMatchesContent` |
| Loaders.ZipAbsentName | book.js:134-138 | a name no entry carries gives null from `loadText` and `loadBlob` and 0 from `getSize` |
| Loaders.ZipLastEntryWins | book.js:133-138 | the last entry with a file name answers all three lookups, including `getSize` with its `uncompressedSize` |
| Loaders.FileEntries | book.js:142-146 | `getFileEntries` yields only files, and a file yields itself; that every file of the tree is listed is `FileEntriesComplete` |
| Loaders.FileEntriesOfAll | book.js:143-146 | the flattened listing of several entries contains only files; that it is complete is `FileEntriesOfAllComplete` |
| Loaders.InTree | book.js:142-146 | a file or directory lies at some depth under an entry, the set `getFileEntries` walks |
| Loaders.FileEntriesComplete | book.js:142-146 | `getFileEntries` lists exactly the files of the tree, at every depth |
| Loaders.FileEntriesOfAllComplete | book.js:143-146 | the flattened listing of several entries lists exactly the files under any of them |
| Loaders.DirectoryKey | book.js:154-155 | a file's key is its full path with the first occurrence of the root path and `/` removed; stated by `DirectoryKeyIsRelativePath` |
| Loaders.DirectoryPairs | book.js:154-155 | one (key, file) pair per file entry, in listing order, the key being the path with the root's path and `/` removed; the resulting lookups are stated by `DirectoryLookup` and `DirectoryAbsentName` |
| Loaders.MakeDirectoryLoader | book.js:148-163 | the map from each file's key to the file; its lookups are stated by `DirectoryLookup` and `DirectoryAbsentName` |
| Loaders.DirectoryKeyIsRelativePath | book.js:154-155 | a file at `root/rest` is keyed by `rest` |
| Loaders.DirectoryLookup | book.js:148-161 | a file anywhere in the tree at `root/rest` answers `loadText`, `loadBlob` and `getSize` for `rest`, provided every file of the tree with that key has the same contents |
| Loaders.DirectoryAbsentName | book.js:157-161 | a name that is no file's key gives null from `loadText` and `loadBlob` and 0 from `getSize` |
| Loaders.SizeMatchesContent | book.js:138 | `getSize` is the byte length of the entry `loadText` decodes (for a ZIP loader, when the stored sizes are right), and 0 when `loadText` returns nothing |
| Dispatch.FindFb2 | book.js:191 | the index found is the first entry whose name ends with `.fb2`, and `None` means no entry does |
| Dispatch.FbzPayloadIndex | book.js:191-192 | a payload index exists exactly when the archive has entries, and it is in range |
| Dispatch.FbzPayloadChoice | book.js:191-192 | the payload is the first `.fb2` entry in listing order, or else the first entry |
| Dispatch.GetView | book.js:175-212 | the branches of `getView`; stated by `GetViewFollowsClassify` and `FbzReadsChosenEntry` |
| Dispatch.GetViewFollowsClassify | book.js:175-212 | the outcome of `getView` belongs to the file's classification, and each error happens exactly in its case |
| Dispatch.FbzReadsChosenEntry | book.js:188-193 | a zipped FictionBook is read from the chosen entry's data as an untyped blob, provided no later entry has the same name (the loader's map keeps the last one) |
| Geometry.FrameRect | book.js:28-34 | the framed rectangle's width and height are the originals scaled by sx and sy |
| Geometry.FrameRectIdentity | book.js:28-34 | with no scale or a scale of 1, and the frame at the origin, the rectangle is unchanged |
| Geometry.FrameRectDoubles | book.js:28-34 | a scale of 2 doubles every coordinate's distance from the frame's corner |
| Geometry.FrameKeepsInside | book.js:28-34 | with positive scales, a point inside a rectangle stays inside it after both are framed |
| Geometry.PointIsInView | book.js:25-26 | strictly inside the window on both axes: 0 < x < innerWidth and 0 < y < innerHeight |
| Geometry.StartOf | book.js:54-57 | the middle of the first rectangle's top edge, heading up; its position is stated by `EdgeMidpoints` |
| Geometry.EndOf | book.js:58-61 | the middle of the last rectangle's bottom edge, heading down; its position is stated by `EdgeMidpoints` |
| Geometry.FallbackNotInView | book.js:64 | the origin fallback is never in view |
| Geometry.EdgeMidpoints | book.js:54-61 | the start and end points lie on their rectangle's edge, and framing moves them with the rectangle |
| Geometry.GetPosition | book.js:42-68 | it fails exactly with no rectangles; the result is the start, the end or the fallback; it is in view exactly when a candidate is; with both in view, start wins exactly when it is farther from its edge |
| Geometry.GetPositionCases | book.js:62-67 | neither candidate in view gives the fallback `{ point: { x: 0, y: 0 } }` itself, exactly one in view gives that one, and both in view gives start exactly when `start.y > innerHeight - end.y` |
| Geometry.Collapsed | book.js:73 | `range.collapsed`: the range's start and end boundary points coincide (a definition); `GetSelectionRange` and `SelectionAnchor` state its use |
| Geometry.GetSelectionRange | book.js:70-75 | the first range is returned exactly when there is one and it is not collapsed |
| Geometry.SelectionAnchor | book.js:80-85 | an empty or collapsed selection yields no anchor, and any other selection yields `getPosition` of its first range |
| Debounce.Debouncer.constructor | book.js:11-12 | no timer is pending and nothing has run |
| Debounce.Debouncer.Call | book.js:13-21 | the pending timer is replaced by one a full window away with the new arguments, and with `immediate` the function runs only if no timer was pending |
| Debounce.Debouncer.AdvanceTo | book.js:14-17 | a timer that is due fires once, clears `timeout` and, unless `immediate`, runs with its captured arguments; otherwise nothing changes |
| Debounce.BurstRunsOnce | book.js:101-113 | five selection changes 50 units apart with the 1000-unit window run the handler once, a full window after the last change, with its arguments |
| Annotations.AnnotationOf | book.js:298-305 | the object literal of book.js:299-305 (a definition); what the index does with it is stated by `Register`, `OnCreateOverlay`, `ByLocation` and `OpenSample` |
| Annotations.SpineCode | book.js:306 | the key computation throws exactly when the CFI has fewer than three `/`-pieces |
| Annotations.SplitHead | book.js:306 | the first piece of a split stops at the first separator |
| Annotations.DigitsHaveNoSeparators | book.js:306 | a numeral contains neither `/` nor `!` |
| Annotations.SpineCodeOfStep | book.js:306 | a CFI whose second path step is a numeral n followed by `!` has key (n - 2) / 2 |
| Annotations.EvenStepIsChapter | book.js:306 | an even step 2i + 2 gives chapter i |
| Annotations.OddStepIsNoChapter | book.js:306 | an odd step gives a key that equals no integer chapter index (in exact arithmetic; see `Strings.ToNumber` under Left out) |
| Annotations.Bucket | book.js:308 | `this.annotations.get(key)` with a missing list read as empty (a definition); lines 320-321 use it the same way, and `OnCreateOverlay` states what the handler adds |
| Annotations.ChapterAnnotations | book.js:308-310 | the annotations gathered for a key all have that key |
| Annotations.ChapterAnnotationsMembers | book.js:308-310 | each bookmark's annotation is gathered for its chapter key |
| Annotations.Registrable | book.js:297-306 | the count of bookmarks registered before the first CFI that throws: all before it have a key, and the one at it has none |
| Annotations.DrawFor | book.js:325-333 | highlight and underline are drawn in the annotation's colour with their own primitive, and other kinds are not drawn |
| Annotations.AddToBucket | book.js:308-310 | the key's bucket gains the annotation at its end and every other bucket is unchanged |
| Annotations.AddKeepsConsistent | book.js:306-312 | registering an annotation with a key keeps the two maps consistent |
| Annotations.ChapterAnnotationsStep | book.js:297-310 | one more bookmark adds its annotation to its own chapter's list only |
| Annotations.BucketStepAt | book.js:308-310 | registering one more bookmark grows the key's bucket by that bookmark's share |
| Annotations.BucketsStep | book.js:308-310 | registering one more bookmark grows every bucket by that bookmark's share |
| Annotations.RegistrableStep | book.js:297-306 | the loop either passes bookmark i or stops there for good |
| Annotations.CfiMapStep | book.js:312 | one more bookmark overwrites its CFI's entry in the by-CFI map |
| Annotations.AnnotationIndex.constructor | book.js:270-271 | both maps start empty and consistent, and no handler is attached |
| Annotations.AnnotationIndex.RegisterOne | book.js:298-312 | a bookmark with a key is appended to its bucket and set under its CFI, consistency is kept, and a bookmark whose key throws changes nothing |
| Annotations.AnnotationIndex.Register | book.js:296-313 | the loop stops at the first CFI that throws; each bucket gains, in order, the registered bookmarks of its chapter; the by-CFI map gains their CFIs, later ones overwriting earlier ones |
| Annotations.AnnotationIndex.Open | book.js:296-339 | on a fresh reader (book.js:357-359 creates one per `open`), the maps end as `Register` leaves them, and the handlers are attached exactly when the loop completed: after a throw the registered bookmarks stay but nothing serves them |
| Annotations.AnnotationIndex.OnCreateOverlay | book.js:317-323 | once the handler is attached, the annotations added for chapter i are exactly bucket i, in order, all with key i; before that, none |
| Annotations.AnnotationIndex.ByLocation | book.js:335-339 | the lookup succeeds exactly for a registered CFI once the handler is attached, and returns an annotation with that CFI found in its chapter's bucket |
| Annotations.FourthItemIsChapter3 | book.js:290-292 | a CFI starting `epubcfi(/6/8!` has chapter key 3 |
| Annotations.SampleBookmarks | book.js:289-295 | the three bookmarks `open` registers |
| Annotations.OpenSample | book.js:289-323 | with the three bookmarks, all register, chapter 3's overlay gets their annotations in order, any other chapter gets none, and the third CFI finds the underline |

## Left out

- DOM event wiring and UI: `addEventListener`, the `pointerdown` and `pointerup` flags, console logging, the `foliate-view` element, `document.body.append` and `$`. The handlers' logic is modelled as functions and methods that are called directly.
- The `selectionchange` handler's page turn needs `compareBoundaryPoints` against the view's last location and `view.next()`. These are rendering-engine calls, so only its `getSelectionRange` step and the debouncing are modelled.
- Real I/O and foreign libraries: `fetch`, the zip.js reader and writers, `FileSystemEntry.readEntries` and `file()`, `TextDecoder`, and the EPUB, PDF, MOBI, FB2 and CBZ codecs with `fflate`. Archive entries, directory trees, file bytes and the MOBI probe's verdict are inputs. Decoded text is represented by its bytes.
- Failures of those libraries (a listing or a decompression that rejects) are not modelled. Neither is `readEntries` returning only its first batch of a large directory: a directory's children are whatever one call lists.
- Loaders.MakeDirectoryLoader: the directory loader's `loadBlob` returns `undefined` for a missing name, while the ZIP loader returns `null`. Both are `None` here.
- Strings.ToNumber: only the empty string and decimal numerals are coerced; every other string is taken to be `NaN`. JavaScript also accepts surrounding whitespace, signs, fractions, exponents and hexadecimal. A numeral is its exact value here, while JavaScript rounds it to the nearest double: above 2^53 an odd step can round to an even number and give an integer key, and a numeral of 309 or more digits becomes `Infinity`. Neither rounding nor `Infinity` is modelled, so `OddStepIsNoChapter` holds of the source only for steps below 2^53.
- Geometry.GetPosition: the transform is not parsed. The scales are optional reals, so `parseFloat` producing `NaN` is not modelled. Floating-point rounding is not modelled either, since coordinates are exact reals.
- `getLang`, `getCSS`, `setStyle`, `getCurrentInfo`, `getToc`, the navigation wrappers and `setScroll` are not modelled. They walk the DOM, build CSS text, or forward to the view.
- The reassignment of the `const text` in the `pointerup` handler is not modelled.
- Debounce.Debouncer.AdvanceTo: real timers and concurrency are replaced by an explicit clock. Timers fire only when time is advanced.
- `this.view.addAnnotation` and `draw` are external calls. `OnCreateOverlay` returns the annotations it would add, and `DrawFor` returns the primitive it would draw with.
