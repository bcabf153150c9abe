/**
 * The selection geometry of book.js's selection handler: `frameRect` maps a
 * rectangle from the coordinates of the frame the text is rendered in to the
 * window's, `pointIsInView` tests a point against the window, `getPosition`
 * turns a selection's client rectangles into one anchor point and
 * `getSelectionRange` keeps only a non-empty, non-collapsed selection.
 * Coordinates are reals; the DOM calls that produce them are inputs.
 */
module Geometry {
  import opened Prelude

  datatype Point = Point(x: real, y: real)

  /** A client rectangle (`DOMRect`). */
  datatype Rect = Rect(left: real, right: real, top: real, bottom: real)

  /** Where the frame sits in the window: the left and top of its bounding rectangle. */
  datatype Offset = Offset(left: real, top: real)

  /** `window.innerWidth` and `window.innerHeight`. */
  datatype Viewport = Viewport(width: real, height: real)

  datatype Direction = Up | Down

  /** What `getPosition` returns: a point, and the direction of the selection edge it marks (none for the fallback). */
  datatype Anchor = Anchor(point: Point, dir: Option<Direction>)

  /** A scale factor read from the frame's transform; a missing one is 1 (the default parameter of `frameRect`). */
  function ScaleOrOne(s: Option<real>): real {
    match s
    case Some(k) => k
    case None => 1.0
  }

  /** `frameRect`: scale the rectangle, then translate it by the frame's offset. */
  function FrameRect(frame: Offset, rect: Rect, sx: Option<real>, sy: Option<real>): (r: Rect)
    ensures r.right - r.left == ScaleOrOne(sx) * (rect.right - rect.left)
    ensures r.bottom - r.top == ScaleOrOne(sy) * (rect.bottom - rect.top)
  {
    var kx, ky := ScaleOrOne(sx), ScaleOrOne(sy);
    Rect(kx * rect.left + frame.left, kx * rect.right + frame.left,
         ky * rect.top + frame.top, ky * rect.bottom + frame.top)
  }

  /** The image of a point under the same map. */
  function FramePoint(frame: Offset, p: Point, sx: Option<real>, sy: Option<real>): Point {
    Point(ScaleOrOne(sx) * p.x + frame.left, ScaleOrOne(sy) * p.y + frame.top)
  }

  /** Without a transform and with the frame at the origin, the rectangle is unchanged. */
  lemma FrameRectIdentity(rect: Rect)
    ensures FrameRect(Offset(0.0, 0.0), rect, None, None) == rect
    ensures FrameRect(Offset(0.0, 0.0), rect, Some(1.0), Some(1.0)) == rect
  {
  }

  /** A scale of 2 doubles every coordinate's distance from the frame's corner. */
  lemma FrameRectDoubles(frame: Offset, rect: Rect)
    ensures var r := FrameRect(frame, rect, Some(2.0), Some(2.0));
      r.left - frame.left == 2.0 * rect.left && r.right - frame.left == 2.0 * rect.right
      && r.top - frame.top == 2.0 * rect.top && r.bottom - frame.top == 2.0 * rect.bottom
  {
  }

  /** A point inside a rectangle stays inside it once both are mapped to the window (for positive scales). */
  lemma FrameKeepsInside(frame: Offset, rect: Rect, p: Point, sx: Option<real>, sy: Option<real>)
    requires ScaleOrOne(sx) > 0.0 && ScaleOrOne(sy) > 0.0
    requires rect.left <= p.x <= rect.right && rect.top <= p.y <= rect.bottom
    ensures var r, q := FrameRect(frame, rect, sx, sy), FramePoint(frame, p, sx, sy);
      r.left <= q.x <= r.right && r.top <= q.y <= r.bottom
  {
    var kx, ky := ScaleOrOne(sx), ScaleOrOne(sy);
    var r, q := FrameRect(frame, rect, sx, sy), FramePoint(frame, p, sx, sy);
    assert r.left <= q.x by { ScaleMonotone(kx, rect.left, p.x); }
    assert q.x <= r.right by { ScaleMonotone(kx, p.x, rect.right); }
    assert r.top <= q.y by { ScaleMonotone(ky, rect.top, p.y); }
    assert q.y <= r.bottom by { ScaleMonotone(ky, p.y, rect.bottom); }
  }

  lemma ScaleMonotone(k: real, a: real, b: real)
    requires k > 0.0 && a <= b
    ensures k * a <= k * b
  {
    assert k * b - k * a == k * (b - a);
  }

  /** `pointIsInView`: strictly inside the window on both axes. */
  predicate PointIsInView(p: Point, view: Viewport) {
    p.x > 0.0 && p.y > 0.0 && p.x < view.width && p.y < view.height
  }

  /** The fallback anchor, `{ point: { x: 0, y: 0 } }`, is never in view, so it cannot be mistaken for a visible point. */
  lemma FallbackNotInView(view: Viewport)
    ensures !PointIsInView(Fallback.point, view)
  {
  }

  const Fallback: Anchor := Anchor(Point(0.0, 0.0), None)

  /** The start of a selection: the middle of the top edge of its first rectangle, heading up. */
  function StartOf(first: Rect): Anchor {
    Anchor(Point((first.left + first.right) / 2.0, first.top), Some(Up))
  }

  /** The end of a selection: the middle of the bottom edge of its last rectangle, heading down. */
  function EndOf(last: Rect): Anchor {
    Anchor(Point((last.left + last.right) / 2.0, last.bottom), Some(Down))
  }

  /** The midpoint of an edge lies on the edge; framing moves it with the rectangle. */
  lemma EdgeMidpoints(frame: Offset, rect: Rect, sx: Option<real>, sy: Option<real>)
    requires rect.left <= rect.right
    ensures rect.left <= StartOf(rect).point.x <= rect.right
    ensures rect.left <= EndOf(rect).point.x <= rect.right
    ensures StartOf(FrameRect(frame, rect, sx, sy)).point == FramePoint(frame, StartOf(rect).point, sx, sy)
    ensures EndOf(FrameRect(frame, rect, sx, sy)).point == FramePoint(frame, EndOf(rect).point, sx, sy)
  {
    var k := ScaleOrOne(sx);
    var framed := FrameRect(frame, rect, sx, sy);
    assert (framed.left + framed.right) / 2.0 == k * ((rect.left + rect.right) / 2.0) + frame.left;
  }

  /**
   * How far an edge point is from the window edge it heads toward: the top
   * for the start, the bottom for the end.
   */
  function DistanceToEdge(a: Anchor, view: Viewport): real {
    if a.dir == Some(Up) then a.point.y else view.height - a.point.y
  }

  /** The start candidate of `getPosition`: from the first client rectangle, mapped to the window. */
  function StartCandidate(rects: seq<Rect>, frame: Offset, sx: Option<real>, sy: Option<real>): Anchor
    requires |rects| > 0
  {
    StartOf(FrameRect(frame, rects[0], sx, sy))
  }

  /** The end candidate of `getPosition`: from the last client rectangle, mapped to the window. */
  function EndCandidate(rects: seq<Rect>, frame: Offset, sx: Option<real>, sy: Option<real>): Anchor
    requires |rects| > 0
  {
    EndOf(FrameRect(frame, rects[|rects| - 1], sx, sy))
  }

  /**
   * `getPosition`. With no client rectangle at all, `rects[0]` is undefined
   * and `frameRect` throws; that is `None` here.
   */
  function GetPosition(rects: seq<Rect>, frame: Offset, sx: Option<real>, sy: Option<real>, view: Viewport): (r: Option<Anchor>)
    ensures r.None? <==> |rects| == 0
    ensures r.Some? ==> r.value in {StartCandidate(rects, frame, sx, sy), EndCandidate(rects, frame, sx, sy), Fallback}
    ensures r.Some? ==>
      (PointIsInView(r.value.point, view) <==>
        PointIsInView(StartCandidate(rects, frame, sx, sy).point, view)
        || PointIsInView(EndCandidate(rects, frame, sx, sy).point, view))
    ensures r.Some? && PointIsInView(StartCandidate(rects, frame, sx, sy).point, view)
                    && PointIsInView(EndCandidate(rects, frame, sx, sy).point, view) ==>
      (r.value == StartCandidate(rects, frame, sx, sy) <==>
        DistanceToEdge(StartCandidate(rects, frame, sx, sy), view) > DistanceToEdge(EndCandidate(rects, frame, sx, sy), view))
  {
    if |rects| == 0 then None
    else
      var first := FrameRect(frame, rects[0], sx, sy);
      var last := FrameRect(frame, rects[|rects| - 1], sx, sy);
      var start := StartOf(first);
      var end := EndOf(last);
      var startInView := PointIsInView(start.point, view);
      var endInView := PointIsInView(end.point, view);
      if !startInView && !endInView then Some(Fallback)
      else if !startInView then Some(end)
      else if !endInView then Some(start)
      else Some(if start.point.y > view.height - end.point.y then start else end)
  }

  /**
   * The resolution policy case by case: neither candidate in view gives the
   * origin, exactly one in view gives that one, and with both in view the
   * start wins exactly when its `y` exceeds the window height minus the end's `y`.
   */
  lemma GetPositionCases(rects: seq<Rect>, frame: Offset, sx: Option<real>, sy: Option<real>, view: Viewport)
    requires |rects| > 0
    ensures var start, end := StartCandidate(rects, frame, sx, sy), EndCandidate(rects, frame, sx, sy);
      var r := GetPosition(rects, frame, sx, sy, view).value;
      && (!PointIsInView(start.point, view) && !PointIsInView(end.point, view) ==> r == Fallback)
      && (PointIsInView(start.point, view) && !PointIsInView(end.point, view) ==> r == start)
      && (!PointIsInView(start.point, view) && PointIsInView(end.point, view) ==> r == end)
      && (PointIsInView(start.point, view) && PointIsInView(end.point, view) ==>
            r == (if start.point.y > view.height - end.point.y then start else end))
  {
  }

  /** A selection edge point: a DOM node and an offset in it. */
  datatype Boundary = Boundary(node: nat, offset: nat)

  /** A DOM `Range`, with the client rectangles `getClientRects()` reports for it. */
  datatype Range = Range(start: Boundary, end: Boundary, rects: seq<Rect>)

  /** `range.collapsed`: the range starts where it ends. */
  predicate Collapsed(range: Range) {
    range.start == range.end
  }

  /** A DOM `Selection`: its ranges, in order (`rangeCount` is their number). */
  datatype Selection = Selection(ranges: seq<Range>)

  /** `getSelectionRange`: the first range, unless there is none or it is collapsed. */
  function GetSelectionRange(sel: Selection): (r: Option<Range>)
    ensures r.Some? ==> |sel.ranges| > 0 && r.value == sel.ranges[0] && !Collapsed(r.value)
    ensures r.None? ==> |sel.ranges| == 0 || Collapsed(sel.ranges[0])
  {
    if |sel.ranges| == 0 then None
    else
      var range := sel.ranges[0];
      if Collapsed(range) then None else Some(range)
  }

  /**
   * What the `pointerup` handler computes before producing a location: the
   * anchor of the selected range, or nothing when there is no usable range.
   */
  function SelectionAnchor(sel: Selection, frame: Offset, sx: Option<real>, sy: Option<real>, view: Viewport): (r: Option<Anchor>)
    ensures |sel.ranges| == 0 || Collapsed(sel.ranges[0]) ==> r.None?
    ensures |sel.ranges| > 0 && !Collapsed(sel.ranges[0]) ==> r == GetPosition(sel.ranges[0].rects, frame, sx, sy, view)
  {
    match GetSelectionRange(sel)
    case None => None
    case Some(range) => GetPosition(range.rects, frame, sx, sy, view)
  }
}
