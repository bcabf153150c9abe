/**
 * The annotation index of book.js's `Reader`: `open` registers annotations
 * into a map from chapter index to the chapter's annotations and a map from
 * CFI string to annotation; the `create-overlay` handler adds a chapter's
 * annotations to the view, the `draw-annotation` handler picks a drawing
 * primitive by kind, and the `show-annotation` handler looks an annotation up
 * by its CFI.
 */
module Annotations {
  import opened Prelude
  import opened Strings
  import opened Maps

  /** A bookmark as the caller supplies it. */
  datatype Bookmark = Bookmark(id: int, cfi: string, kind: string, color: string, note: string)

  /** The annotation registered for a bookmark: `{ id, value: cfi, type, color, note }`. */
  datatype Annotation = Annotation(id: int, value: string, kind: string, color: string, note: string)

  function AnnotationOf(b: Bookmark): Annotation {
    Annotation(b.id, b.cfi, b.kind, b.color, b.note)
  }

  /**
   * The chapter key of a CFI, `(cfi.split('/')[2].split('!')[0] - 2) / 2`,
   * computed as JavaScript does: on numbers, so an odd step gives a fraction
   * and a step that is not a numeral gives `NaN`. `None` is the TypeError
   * thrown when the CFI has fewer than two slashes.
   */
  function SpineCode(cfi: string): (r: Option<Number>)
    ensures r.None? <==> |Split(cfi, '/')| < 3
  {
    var parts := Split(cfi, '/');
    if |parts| < 3 then None
    else
      match ToNumber(Split(parts[2], '!')[0])
      case NaN => Some(NaN)
      case Finite(n) => Some(Finite((n - 2.0) / 2.0))
  }

  /** The first piece of a split stops at the first separator. */
  lemma {:induction false} SplitHead(a: string, b: string, sep: char)
    requires sep !in a
    ensures Split(a + b, sep)[0] == a + Split(b, sep)[0]
  {
    if |a| > 0 {
      assert (a + b)[1..] == a[1..] + b;
      assert sep !in a[1..] by {
        forall k | 0 <= k < |a[1..]| ensures a[1..][k] != sep {
          assert a[1..][k] == a[k + 1];
        }
      }
      SplitHead(a[1..], b, sep);
      assert [a[0]] + a[1..] == a;
    } else {
      assert a + b == b;
    }
  }

  lemma DigitsHaveNoSeparators(s: string)
    requires IsDigits(s)
    ensures '/' !in s && '!' !in s
  {
    assert forall k :: 0 <= k < |s| ==> IsDigit(s[k]);
  }

  /**
   * The chapter key of a CFI whose second path step is the numeral `step`,
   * followed by `!`: `(step - 2) / 2`.
   */
  lemma SpineCodeOfStep(outer: string, first: string, step: string, rest: string)
    requires '/' !in outer && '/' !in first && IsDigits(step)
    ensures SpineCode(outer + "/" + first + "/" + step + "!" + rest)
         == Some(Finite((DigitsValue(step) as real - 2.0) / 2.0))
  {
    var cfi := outer + "/" + first + "/" + step + "!" + rest;
    var tail := step + "!" + rest;
    DigitsHaveNoSeparators(step);
    assert cfi == outer + ['/'] + (first + ['/'] + tail);
    SplitFirstPiece(outer, '/', first + ['/'] + tail);
    SplitFirstPiece(first, '/', tail);
    var parts := Split(cfi, '/');
    assert parts == [outer] + ([first] + Split(tail, '/'));
    assert parts[2] == Split(tail, '/')[0];
    assert '/' !in step + "!" by {
      assert forall k :: 0 <= k < |step + "!"| ==> (step + "!")[k] != '/' by {
        forall k | 0 <= k < |step + "!"| ensures (step + "!")[k] != '/' {
          if k < |step| { assert (step + "!")[k] == step[k]; }
        }
      }
    }
    assert tail == (step + "!") + rest;
    SplitHead(step + "!", rest, '/');
    var piece := step + "!" + Split(rest, '/')[0];
    assert parts[2] == piece;
    assert piece == step + ['!'] + Split(rest, '/')[0];
    SplitFirstPiece(step, '!', Split(rest, '/')[0]);
    assert Split(piece, '!')[0] == step;
  }

  /** An even step `2i + 2` is chapter `i`: the n-th chapter of the spine. */
  lemma EvenStepIsChapter(outer: string, first: string, step: string, rest: string, i: nat)
    requires '/' !in outer && '/' !in first && IsDigits(step)
    requires DigitsValue(step) == 2 * i + 2
    ensures SpineCode(outer + "/" + first + "/" + step + "!" + rest) == Some(Finite(i as real))
  {
    SpineCodeOfStep(outer, first, step, rest);
  }

  /** An odd step gives a key no integer chapter index equals, so its annotations are never drawn. */
  lemma OddStepIsNoChapter(outer: string, first: string, step: string, rest: string, i: int)
    requires '/' !in outer && '/' !in first && IsDigits(step)
    requires DigitsValue(step) % 2 == 1
    ensures SpineCode(outer + "/" + first + "/" + step + "!" + rest) != Some(Finite(i as real))
  {
    SpineCodeOfStep(outer, first, step, rest);
    var n := DigitsValue(step);
    assert n != 2 * i + 2;
    assert n as real != 2.0 * (i as real) + 2.0;
  }

  /** The bucket of a chapter key: its annotations, or none when the map has no entry for it. */
  function Bucket(buckets: map<Number, seq<Annotation>>, key: Number): seq<Annotation> {
    if key in buckets then buckets[key] else []
  }

  /** The annotations of `bookmarks` whose chapter key is `key`, in order. */
  function ChapterAnnotations(bookmarks: seq<Bookmark>, key: Number): (r: seq<Annotation>)
    ensures |r| <= |bookmarks|
    ensures forall a :: a in r ==> SpineCode(a.value) == Some(key)
  {
    if |bookmarks| == 0 then []
    else
      var last := bookmarks[|bookmarks| - 1];
      ChapterAnnotations(bookmarks[..|bookmarks| - 1], key)
        + (if SpineCode(last.cfi) == Some(key) then [AnnotationOf(last)] else [])
  }

  /** Each bookmark's annotation is in the bucket of its chapter, and in no other. */
  lemma {:induction false} ChapterAnnotationsMembers(bookmarks: seq<Bookmark>, key: Number, j: nat)
    requires j < |bookmarks|
    ensures SpineCode(bookmarks[j].cfi) == Some(key) ==> AnnotationOf(bookmarks[j]) in ChapterAnnotations(bookmarks, key)
  {
    if j < |bookmarks| - 1 {
      ChapterAnnotationsMembers(bookmarks[..|bookmarks| - 1], key, j);
    }
  }

  /** The (CFI, annotation) pairs the by-CFI map receives, in order. */
  function CfiPairs(bookmarks: seq<Bookmark>): (pairs: seq<(string, Annotation)>)
    ensures |pairs| == |bookmarks|
  {
    seq(|bookmarks|, k requires 0 <= k < |bookmarks| => (bookmarks[k].cfi, AnnotationOf(bookmarks[k])))
  }

  /** The number of bookmarks registered before the first one whose chapter key throws. */
  function Registrable(bookmarks: seq<Bookmark>): (n: nat)
    ensures n <= |bookmarks|
    ensures forall j :: 0 <= j < n ==> SpineCode(bookmarks[j].cfi).Some?
    ensures n < |bookmarks| ==> SpineCode(bookmarks[n].cfi).None?
  {
    if |bookmarks| == 0 || SpineCode(bookmarks[0].cfi).None? then 0
    else 1 + Registrable(bookmarks[1..])
  }

  /** A drawing call the `draw-annotation` handler makes. */
  datatype Draw = Highlight(color: string) | Underline(color: string)

  /** The `draw-annotation` handler: highlight and underline are drawn in the annotation's colour, other kinds not at all. */
  function DrawFor(a: Annotation): (r: Option<Draw>)
    ensures r.Some? <==> a.kind == "highlight" || a.kind == "underline"
    ensures r.Some? ==> r.value.color == a.color && (r.value.Highlight? <==> a.kind == "highlight")
  {
    if a.kind == "highlight" then Some(Highlight(a.color))
    else if a.kind == "underline" then Some(Underline(a.color))
    else None
  }

  /**
   * The consistency of the two maps: every bucket is non-empty and holds only
   * annotations of its chapter; every annotation in a bucket has its CFI in
   * the by-CFI map; every by-CFI entry is an annotation with that CFI, found
   * in the bucket of its chapter.
   */
  ghost predicate Consistent(buckets: map<Number, seq<Annotation>>, byCfi: map<string, Annotation>) {
    && (forall key :: key in buckets ==> |buckets[key]| > 0)
    && (forall key, a :: key in buckets && a in buckets[key] ==> SpineCode(a.value) == Some(key))
    && (forall key, a :: key in buckets && a in buckets[key] ==> a.value in byCfi)
    && (forall cfi :: cfi in byCfi ==>
          && byCfi[cfi].value == cfi
          && SpineCode(cfi).Some?
          && byCfi[cfi] in Bucket(buckets, SpineCode(cfi).value))
  }

  /** `list.push(annotation)` on the chapter's bucket, or a new bucket `[annotation]`. */
  function AddToBucket(buckets: map<Number, seq<Annotation>>, key: Number, a: Annotation): (r: map<Number, seq<Annotation>>)
    ensures forall k :: Bucket(r, k) == Bucket(buckets, k) + (if k == key then [a] else [])
  {
    buckets[key := Bucket(buckets, key) + [a]]
  }

  /** Registering one bookmark with a chapter key keeps the maps consistent. */
  lemma AddKeepsConsistent(buckets: map<Number, seq<Annotation>>, byCfi: map<string, Annotation>, b: Bookmark)
    requires Consistent(buckets, byCfi)
    requires SpineCode(b.cfi).Some?
    ensures Consistent(AddToBucket(buckets, SpineCode(b.cfi).value, AnnotationOf(b)), byCfi[b.cfi := AnnotationOf(b)])
  {
    var key, a := SpineCode(b.cfi).value, AnnotationOf(b);
    var buckets', byCfi' := AddToBucket(buckets, key, a), byCfi[b.cfi := a];
    forall k: Number, x: Annotation | k in buckets' && x in buckets'[k]
      ensures SpineCode(x.value) == Some(k) && x.value in byCfi'
    {
      assert Bucket(buckets', k) == Bucket(buckets, k) + (if k == key then [a] else []);
      if x !in Bucket(buckets, k) {
        assert x == a && k == key;
      }
    }
    forall cfi | cfi in byCfi'
      ensures byCfi'[cfi] in Bucket(buckets', SpineCode(cfi).value)
    {
      assert Bucket(buckets', SpineCode(cfi).value)
          == Bucket(buckets, SpineCode(cfi).value) + (if SpineCode(cfi).value == key then [a] else []);
    }
  }

  /** How the bucket contents grow by one registered bookmark. */
  lemma ChapterAnnotationsStep(bookmarks: seq<Bookmark>, i: nat, key: Number)
    requires i < |bookmarks|
    ensures ChapterAnnotations(bookmarks[..i + 1], key)
         == ChapterAnnotations(bookmarks[..i], key)
            + (if SpineCode(bookmarks[i].cfi) == Some(key) then [AnnotationOf(bookmarks[i])] else [])
  {
    assert bookmarks[..i + 1][..i] == bookmarks[..i];
  }

  /** Registering one more bookmark grows the bucket of `key` by that bookmark's share of the chapter annotations. */
  lemma BucketStepAt(start: map<Number, seq<Annotation>>, mid: map<Number, seq<Annotation>>, bookmarks: seq<Bookmark>, i: nat, key: Number)
    requires i < |bookmarks| && SpineCode(bookmarks[i].cfi).Some?
    requires Bucket(mid, key) == Bucket(start, key) + ChapterAnnotations(bookmarks[..i], key)
    ensures Bucket(AddToBucket(mid, SpineCode(bookmarks[i].cfi).value, AnnotationOf(bookmarks[i])), key)
      == Bucket(start, key) + ChapterAnnotations(bookmarks[..i + 1], key)
  {
    ChapterAnnotationsStep(bookmarks, i, key);
    var added := if SpineCode(bookmarks[i].cfi) == Some(key) then [AnnotationOf(bookmarks[i])] else [];
    var s, c := Bucket(start, key), ChapterAnnotations(bookmarks[..i], key);
    assert (s + c) + added == s + (c + added);
  }

  /** Registering one more bookmark grows every bucket by that bookmark's share of the chapter annotations. */
  lemma BucketsStep(start: map<Number, seq<Annotation>>, mid: map<Number, seq<Annotation>>, bookmarks: seq<Bookmark>, i: nat)
    requires i < |bookmarks| && SpineCode(bookmarks[i].cfi).Some?
    requires forall key :: Bucket(mid, key) == Bucket(start, key) + ChapterAnnotations(bookmarks[..i], key)
    ensures forall key :: (Bucket(AddToBucket(mid, SpineCode(bookmarks[i].cfi).value, AnnotationOf(bookmarks[i])), key)
      == Bucket(start, key) + ChapterAnnotations(bookmarks[..i + 1], key))
  {
    forall key
      ensures Bucket(AddToBucket(mid, SpineCode(bookmarks[i].cfi).value, AnnotationOf(bookmarks[i])), key)
        == Bucket(start, key) + ChapterAnnotations(bookmarks[..i + 1], key)
    {
      BucketStepAt(start, mid, bookmarks, i, key);
    }
  }

  /** The registration loop either passes bookmark `i` or stops there for good. */
  lemma RegistrableStep(bookmarks: seq<Bookmark>, i: nat)
    requires i < |bookmarks| && i <= Registrable(bookmarks)
    ensures SpineCode(bookmarks[i].cfi).None? ==> Registrable(bookmarks) == i
    ensures SpineCode(bookmarks[i].cfi).Some? ==> i < Registrable(bookmarks)
  {
  }

  /** How the by-CFI map grows by one registered bookmark: a later CFI overwrites an earlier one. */
  lemma CfiMapStep(byCfi: map<string, Annotation>, bookmarks: seq<Bookmark>, i: nat)
    requires i < |bookmarks|
    ensures byCfi + MapFromPairs(CfiPairs(bookmarks[..i + 1]))
         == (byCfi + MapFromPairs(CfiPairs(bookmarks[..i])))[bookmarks[i].cfi := AnnotationOf(bookmarks[i])]
  {
    var pairs := CfiPairs(bookmarks[..i + 1]);
    var k, v := bookmarks[i].cfi, AnnotationOf(bookmarks[i]);
    assert pairs[..i] == CfiPairs(bookmarks[..i]);
    assert pairs[i] == (k, v);
    var m := MapFromPairs(CfiPairs(bookmarks[..i]));
    assert MapFromPairs(pairs) == m[k := v];
    UnionUpdate(byCfi, m, k, v);
  }

  /** Overriding a map by an updated map is updating the override. */
  lemma UnionUpdate<K, V>(a: map<K, V>, b: map<K, V>, k: K, v: V)
    ensures a + b[k := v] == (a + b)[k := v]
  {
  }

  /** The two maps of a `Reader`. */
  class AnnotationIndex {
    /** `annotations`: chapter key to the chapter's annotations, in registration order. */
    var annotations: map<Number, seq<Annotation>>
    /** `annotationsByCFI`: CFI string to annotation. */
    var annotationsByCfi: map<string, Annotation>
    /**
     * Whether `open` has attached the `create-overlay`, `draw-annotation` and
     * `show-annotation` handlers, which it does only after the registration
     * loop completes.
     */
    var listening: bool

    ghost predicate Valid()
      reads this
    {
      Consistent(annotations, annotationsByCfi)
    }

    /** A new `Reader`: both maps empty and no handler attached. */
    constructor ()
      ensures Valid()
      ensures annotations == map[] && annotationsByCfi == map[] && !listening
    {
      annotations := map[];
      annotationsByCfi := map[];
      listening := false;
    }

    /**
     * One pass of the registration loop of `open`: the bookmark's annotation is
     * appended to its chapter's bucket (which is created when missing) and set
     * under its CFI. When the chapter key cannot be computed the loop throws
     * before changing anything: `ok` is false.
     */
    method RegisterOne(bookmark: Bookmark) returns (ok: bool)
      requires Valid()
      modifies this
      ensures Valid()
      ensures ok <==> SpineCode(bookmark.cfi).Some?
      ensures !ok ==> annotations == old(annotations) && annotationsByCfi == old(annotationsByCfi)
      ensures ok ==> annotations == AddToBucket(old(annotations), SpineCode(bookmark.cfi).value, AnnotationOf(bookmark))
      ensures ok ==> annotationsByCfi == old(annotationsByCfi)[bookmark.cfi := AnnotationOf(bookmark)]
      ensures listening == old(listening)
    {
      var annotation := AnnotationOf(bookmark);
      var code := SpineCode(bookmark.cfi);
      if code.None? {
        return false;
      }
      var key := code.value;
      AddKeepsConsistent(annotations, annotationsByCfi, bookmark);
      ghost var grown := AddToBucket(annotations, key, annotation);
      if key in annotations {
        annotations := annotations[key := annotations[key] + [annotation]];
      } else {
        assert Bucket(annotations, key) + [annotation] == [annotation];
        annotations := annotations[key := [annotation]];
      }
      assert annotations == grown;
      annotationsByCfi := annotationsByCfi[bookmark.cfi := annotation];
      return true;
    }

    /**
     * The registration loop of `open` over `bookmarks`. It stops at the first
     * bookmark whose chapter key throws, with `ok` false and the bookmarks
     * before it registered: each chapter's bucket has gained, in order, the
     * annotations of the registered bookmarks of that chapter, and the by-CFI
     * map has gained their CFIs, a later one overwriting an earlier one.
     */
    method Register(bookmarks: seq<Bookmark>) returns (ok: bool)
      requires Valid()
      modifies this
      ensures Valid()
      ensures ok <==> Registrable(bookmarks) == |bookmarks|
      ensures forall key :: (Bucket(annotations, key)
        == Bucket(old(annotations), key) + ChapterAnnotations(bookmarks[..Registrable(bookmarks)], key))
      ensures annotationsByCfi == old(annotationsByCfi) + MapFromPairs(CfiPairs(bookmarks[..Registrable(bookmarks)]))
      ensures listening == old(listening)
    {
      var i := 0;
      while i < |bookmarks|
        invariant 0 <= i <= Registrable(bookmarks)
        invariant Valid()
        invariant forall key :: (Bucket(annotations, key)
          == Bucket(old(annotations), key) + ChapterAnnotations(bookmarks[..i], key))
        invariant annotationsByCfi == old(annotationsByCfi) + MapFromPairs(CfiPairs(bookmarks[..i]))
        invariant listening == old(listening)
      {
        ghost var before := annotations;
        RegistrableStep(bookmarks, i);
        var registered := RegisterOne(bookmarks[i]);
        if !registered {
          assert annotations == before && i == Registrable(bookmarks);
          return false;
        }
        CfiMapStep(old(annotationsByCfi), bookmarks, i);
        BucketsStep(old(annotations), before, bookmarks, i);
        i := i + 1;
      }
      assert i == Registrable(bookmarks);
      return true;
    }

    /**
     * The annotation part of `open`: the registration loop, then the
     * attachment of the three handlers. When a chapter key throws, the
     * exception leaves `open` before any handler is attached, although the
     * bookmarks before it stay registered.
     */
    method Open(bookmarks: seq<Bookmark>) returns (ok: bool)
      requires Valid() && !listening
      modifies this
      ensures Valid()
      ensures ok <==> Registrable(bookmarks) == |bookmarks|
      ensures listening <==> ok
      ensures forall key :: (Bucket(annotations, key)
        == Bucket(old(annotations), key) + ChapterAnnotations(bookmarks[..Registrable(bookmarks)], key))
      ensures annotationsByCfi == old(annotationsByCfi) + MapFromPairs(CfiPairs(bookmarks[..Registrable(bookmarks)]))
    {
      ok := Register(bookmarks);
      if ok {
        listening := true;
      }
    }

    /**
     * A `create-overlay` event for chapter `index`: the annotations added to
     * the view, which are exactly that chapter's bucket, in order, once the
     * handler is attached, and none before.
     */
    method OnCreateOverlay(index: int) returns (added: seq<Annotation>)
      requires Valid()
      ensures added == if listening then Bucket(annotations, Finite(index as real)) else []
      ensures forall a :: a in added ==> SpineCode(a.value) == Some(Finite(index as real))
    {
      added := [];
      var key := Finite(index as real);
      if listening && key in annotations {
        var list := annotations[key];
        var i := 0;
        while i < |list|
          invariant 0 <= i <= |list|
          invariant added == list[..i]
        {
          added := added + [list[i]];
          i := i + 1;
        }
      }
    }

    /**
     * The lookup of the `show-annotation` handler: exact match on the CFI
     * string, and nothing before the handler is attached.
     */
    function ByLocation(cfi: string): (r: Option<Annotation>)
      reads this
      requires Valid()
      ensures r.Some? <==> listening && cfi in annotationsByCfi
      ensures r.Some? ==> r.value.value == cfi && r.value in Bucket(annotations, SpineCode(cfi).value)
    {
      if listening && cfi in annotationsByCfi then Some(annotationsByCfi[cfi]) else None
    }
  }

  /** A CFI inside the fourth spine item, `/6/8`, as all the bookmarks `open` registers are. */
  function FourthItemCfi(rest: string): string {
    "epubcfi(/6/8!" + rest
  }

  /** The step `8` after `/6/` is chapter key 3. */
  lemma FourthItemIsChapter3(rest: string)
    ensures SpineCode(FourthItemCfi(rest)) == Some(Finite(3.0))
  {
    assert IsDigits("8") && DigitsValue("8") == 8;
    assert FourthItemCfi(rest) == "epubcfi(" + "/" + "6" + "/" + "8" + "!" + rest;
    EvenStepIsChapter("epubcfi(", "6", "8", rest, 3);
  }

  /** The three bookmarks `open` registers, with the part of each CFI after the `!` as a parameter. */
  function SampleBookmarks(r1: string, r2: string, r3: string): (bs: seq<Bookmark>)
    ensures |bs| == 3
  {
    [ Bookmark(1, FourthItemCfi(r1), "highlight", "blue", "this is"),
      Bookmark(2, FourthItemCfi(r2), "highlight", "yellow", "this is"),
      Bookmark(3, FourthItemCfi(r3), "underline", "red", "this is") ]
  }

  /**
   * `open` on a fresh `Reader` with the sample bookmarks: all three register,
   * the overlay of chapter 3 receives their annotations in order, the overlay
   * of any other chapter receives none, and the third CFI looks up the
   * underline.
   */
  method OpenSample(r1: string, r2: string, r3: string, other: int)
    returns (ok: bool, chapter3: seq<Annotation>, elsewhere: seq<Annotation>, shown: Option<Annotation>)
    requires other != 3
    ensures ok
    ensures var bs := SampleBookmarks(r1, r2, r3);
      chapter3 == [AnnotationOf(bs[0]), AnnotationOf(bs[1]), AnnotationOf(bs[2])]
    ensures elsewhere == []
    ensures shown == Some(Annotation(3, FourthItemCfi(r3), "underline", "red", "this is"))
  {
    var bs := SampleBookmarks(r1, r2, r3);
    FourthItemIsChapter3(r1);
    FourthItemIsChapter3(r2);
    FourthItemIsChapter3(r3);
    assert Registrable(bs) == 3 by {
      assert bs[1..][1..][1..] == [];
    }
    assert bs[..3] == bs;
    assert ChapterAnnotations(bs[..0], Finite(3.0)) == [] && ChapterAnnotations(bs[..0], Finite(other as real)) == [];
    ChapterAnnotationsStep(bs, 0, Finite(3.0));
    ChapterAnnotationsStep(bs, 1, Finite(3.0));
    ChapterAnnotationsStep(bs, 2, Finite(3.0));
    ChapterAnnotationsStep(bs, 0, Finite(other as real));
    ChapterAnnotationsStep(bs, 1, Finite(other as real));
    ChapterAnnotationsStep(bs, 2, Finite(other as real));
    assert ChapterAnnotations(bs, Finite(3.0)) == [AnnotationOf(bs[0]), AnnotationOf(bs[1]), AnnotationOf(bs[2])];
    assert ChapterAnnotations(bs, Finite(other as real)) == [];
    var reader := new AnnotationIndex();
    ok := reader.Open(bs);
    chapter3 := reader.OnCreateOverlay(3);
    elsewhere := reader.OnCreateOverlay(other);
    shown := reader.ByLocation(bs[2].cfi);
    assert IsLastOfKey(CfiPairs(bs), 2);
    assert AnnotationOf(bs[2]) == Annotation(3, FourthItemCfi(r3), "underline", "red", "this is");
  }
}
