/** The "safe triangle" that suppresses hovers while the mouse is on its way to a side panel. Coordinates are
    exact reals instead of 32-bit floats. */
module SafeTriangleHover {
  import opened Options

  const VERTICAL_PADDING: real := 80.0
  const MIN_MOVEMENT_SQUARED: real := 4.0

  datatype Point = Point(x: real, y: real)

  datatype Rect = Rect(minX: real, minY: real, maxX: real, maxY: real) {
    /** The closed box. */
    predicate Contains(p: Point) {
      minX <= p.x <= maxX && minY <= p.y <= maxY
    }

    function CenterX(): real {
      (minX + maxX) / 2.0
    }

    /** The vertical side of the box that faces a point. */
    function NearX(p: Point): real {
      if p.x < CenterX() then minX else maxX
    }
  }

  // ----- the geometry

  /** The z-component of the cross product of `v2 - v1` and `p - v1`. */
  function CrossSign(p: Point, v1: Point, v2: Point): real {
    (v2.x - v1.x) * (p.y - v1.y) - (v2.y - v1.y) * (p.x - v1.x)
  }

  predicate PointInTriangle(p: Point, a: Point, b: Point, c: Point) {
    var d1 := CrossSign(p, a, b);
    var d2 := CrossSign(p, b, c);
    var d3 := CrossSign(p, c, a);
    var hasNeg := d1 < 0.0 || d2 < 0.0 || d3 < 0.0;
    var hasPos := d1 > 0.0 || d2 > 0.0 || d3 > 0.0;
    !(hasNeg && hasPos)
  }

  /** `p` is the mean of the corners with the given weights. */
  ghost predicate IsMean(p: Point, a: Point, b: Point, c: Point, wa: real, wb: real, wc: real) {
    && wa >= 0.0 && wb >= 0.0 && wc >= 0.0 && wa + wb + wc == 1.0
    && p == Point(wa * a.x + wb * b.x + wc * c.x, wa * a.y + wb * b.y + wc * c.y)
  }

  ghost predicate ConvexCombination(p: Point, a: Point, b: Point, c: Point) {
    exists wa, wb, wc :: IsMean(p, a, b, c, wa, wb, wc)
  }

  /** The three cross products are the barycentric coordinates of `p`, scaled by twice the area. */
  lemma CrossSignsSumToArea(p: Point, a: Point, b: Point, c: Point)
    ensures CrossSign(p, a, b) + CrossSign(p, b, c) + CrossSign(p, c, a) == CrossSign(c, a, b)
  {
  }

  lemma CrossSignOfMean(a: Point, b: Point, c: Point, wa: real, wb: real, wc: real)
    requires wa + wb + wc == 1.0
    ensures var p := Point(wa * a.x + wb * b.x + wc * c.x, wa * a.y + wb * b.y + wc * c.y);
            CrossSign(p, a, b) == wc * CrossSign(c, a, b)
  {
    var p := Point(wa * a.x + wb * b.x + wc * c.x, wa * a.y + wb * b.y + wc * c.y);
    assert wa == 1.0 - wb - wc;
    assert p.x - a.x == wb * (b.x - a.x) + wc * (c.x - a.x);
    assert p.y - a.y == wb * (b.y - a.y) + wc * (c.y - a.y);
    CrossIsLinear(b.x - a.x, b.y - a.y, c.x - a.x, c.y - a.y, wb, wc);
  }

  lemma CrossIsLinear(ux: real, uy: real, vx: real, vy: real, s: real, t: real)
    ensures ux * (s * uy + t * vy) - uy * (s * ux + t * vx) == t * (ux * vy - uy * vx)
  {
  }

  lemma AreaIsCyclic(a: Point, b: Point, c: Point)
    ensures CrossSign(c, a, b) == CrossSign(a, b, c) == CrossSign(b, c, a)
  {
  }

  /** Weighting the corners by the opposite cross products gives the point itself. */
  lemma CrossSignsAreWeights(p: Point, a: Point, b: Point, c: Point)
    ensures CrossSign(p, b, c) * a.x + CrossSign(p, c, a) * b.x + CrossSign(p, a, b) * c.x == CrossSign(c, a, b) * p.x
    ensures CrossSign(p, b, c) * a.y + CrossSign(p, c, a) * b.y + CrossSign(p, a, b) * c.y == CrossSign(c, a, b) * p.y
  {
  }

  /** The sign test is membership: for a triangle with an area it accepts exactly the convex combinations of
      the corners. */
  lemma PointInTriangleIffConvexCombination(p: Point, a: Point, b: Point, c: Point)
    requires CrossSign(c, a, b) != 0.0
    ensures PointInTriangle(p, a, b, c) <==> ConvexCombination(p, a, b, c)
  {
    if PointInTriangle(p, a, b, c) {
      AcceptedPointIsMean(p, a, b, c);
    }
    if ConvexCombination(p, a, b, c) {
      var wa, wb, wc :| IsMean(p, a, b, c, wa, wb, wc);
      MeanIsAccepted(p, a, b, c, wa, wb, wc);
    }
  }

  lemma AcceptedPointIsMean(p: Point, a: Point, b: Point, c: Point)
    requires CrossSign(c, a, b) != 0.0 && PointInTriangle(p, a, b, c)
    ensures ConvexCombination(p, a, b, c)
  {
    var area := CrossSign(c, a, b);
    var da, db, dc := CrossSign(p, b, c), CrossSign(p, c, a), CrossSign(p, a, b);
    CrossSignsSumToArea(p, a, b, c);
    CrossSignsAreWeights(p, a, b, c);
    MeanFromScaledWeights(p.x, a.x, b.x, c.x, da, db, dc, area);
    MeanFromScaledWeights(p.y, a.y, b.y, c.y, da, db, dc, area);
    assert IsMean(p, a, b, c, da / area, db / area, dc / area);
  }

  lemma MeanIsAccepted(p: Point, a: Point, b: Point, c: Point, wa: real, wb: real, wc: real)
    requires IsMean(p, a, b, c, wa, wb, wc)
    ensures PointInTriangle(p, a, b, c)
  {
    var area := CrossSign(c, a, b);
    AreaIsCyclic(a, b, c);
    CrossSignOfMean(a, b, c, wa, wb, wc);
    CrossSignOfMean(b, c, a, wb, wc, wa);
    CrossSignOfMean(c, a, b, wc, wa, wb);
    SignOfProduct(wa, area);
    SignOfProduct(wb, area);
    SignOfProduct(wc, area);
  }

  lemma MeanFromScaledWeights(v: real, a: real, b: real, c: real, da: real, db: real, dc: real, area: real)
    requires area != 0.0 && da + db + dc == area && da * a + db * b + dc * c == area * v
    requires (da >= 0.0 && db >= 0.0 && dc >= 0.0) || (da <= 0.0 && db <= 0.0 && dc <= 0.0)
    ensures da / area >= 0.0 && db / area >= 0.0 && dc / area >= 0.0
    ensures da / area + db / area + dc / area == 1.0
    ensures v == da / area * a + db / area * b + dc / area * c
  {
    var wa, wb, wc := da / area, db / area, dc / area;
    assert da == wa * area && db == wb * area && dc == wc * area;
    Distribute(wa, wb, wc, 1.0, 1.0, 1.0, area);
    Cancel(wa + wb + wc, 1.0, area);
    Distribute(wa, wb, wc, a, b, c, area);
    Cancel(wa * a + wb * b + wc * c, v, area);
    if area > 0.0 {
      assert da + db + dc > 0.0;
    }
  }

  lemma Distribute(wa: real, wb: real, wc: real, a: real, b: real, c: real, k: real)
    ensures (wa * a + wb * b + wc * c) * k == wa * k * a + wb * k * b + wc * k * c
  {
  }

  lemma Cancel(x: real, y: real, k: real)
    requires k != 0.0 && x * k == y * k
    ensures x == y
  {
    assert (x - y) * k == 0.0;
  }

  lemma SignOfProduct(w: real, area: real)
    requires w >= 0.0
    ensures area > 0.0 ==> w * area >= 0.0
    ensures area < 0.0 ==> w * area <= 0.0
  {
  }

  // ----- the triangle in front of the mouse

  /** The test of `should_suppress_hover` past its early exits. */
  predicate InSafeTriangle(target: Rect, anchor: Point, p: Point) {
    var nearX := target.NearX(anchor);
    PointInTriangle(p, anchor, Point(nearX, anchor.y - VERTICAL_PADDING), Point(nearX, anchor.y + VERTICAL_PADDING))
  }

  /** The same set without cross products: walk the fraction `t` of the way to the near side; the triangle is
      then `VERTICAL_PADDING * t` high above and below the anchor. This covers panels on either side. When the
      anchor is level with the near side the triangle has no area, and the test accepts the whole vertical line
      through the anchor, however far away. */
  predicate InTransit(target: Rect, anchor: Point, p: Point) {
    var reach := target.NearX(anchor) - anchor.x;
    var dx, dy := p.x - anchor.x, p.y - anchor.y;
    if reach == 0.0 then dx == 0.0
    else
      var t := dx / reach;
      t <= 1.0 && -VERTICAL_PADDING * t <= dy <= VERTICAL_PADDING * t
  }

  lemma SafeTriangleIsTransit(target: Rect, anchor: Point, p: Point)
    ensures InSafeTriangle(target, anchor, p) <==> InTransit(target, anchor, p)
  {
    var reach := target.NearX(anchor) - anchor.x;
    var dx, dy := p.x - anchor.x, p.y - anchor.y;
    var b := Point(target.NearX(anchor), anchor.y - VERTICAL_PADDING);
    var c := Point(target.NearX(anchor), anchor.y + VERTICAL_PADDING);
    assert CrossSign(p, anchor, b) == reach * dy + VERTICAL_PADDING * dx;
    assert CrossSign(p, b, c) == 2.0 * VERTICAL_PADDING * (reach - dx);
    assert CrossSign(p, c, anchor) == VERTICAL_PADDING * dx - reach * dy;
    if reach != 0.0 {
      TransitSigns(reach, dx, dy);
    }
  }

  /** The signs of the three cross products in terms of `t`; their sum has the sign of `reach`. */
  lemma TransitSigns(reach: real, dx: real, dy: real)
    requires reach != 0.0
    ensures var t := dx / reach;
            var d1, d2 := reach * dy + VERTICAL_PADDING * dx, 2.0 * VERTICAL_PADDING * (reach - dx);
            var d3 := VERTICAL_PADDING * dx - reach * dy;
            (t <= 1.0 && -VERTICAL_PADDING * t <= dy <= VERTICAL_PADDING * t) <==>
            ((d1 >= 0.0 && d2 >= 0.0 && d3 >= 0.0) || (d1 <= 0.0 && d2 <= 0.0 && d3 <= 0.0))
  {
    var t := dx / reach;
    assert dx == t * reach;
    assert reach * dy + VERTICAL_PADDING * dx == (dy + VERTICAL_PADDING * t) * reach;
    assert VERTICAL_PADDING * dx - reach * dy == (VERTICAL_PADDING * t - dy) * reach;
    assert 2.0 * VERTICAL_PADDING * (reach - dx) == 2.0 * VERTICAL_PADDING * (1.0 - t) * reach;
    SameSign(dy + VERTICAL_PADDING * t, reach);
    SameSign(VERTICAL_PADDING * t - dy, reach);
    SameSign(2.0 * VERTICAL_PADDING * (1.0 - t), reach);
  }

  lemma SameSign(w: real, k: real)
    requires k != 0.0
    ensures k > 0.0 ==> (w * k >= 0.0 <==> w >= 0.0) && (w * k <= 0.0 <==> w <= 0.0)
    ensures k < 0.0 ==> (w * k >= 0.0 <==> w <= 0.0) && (w * k <= 0.0 <==> w >= 0.0)
  {
  }

  /** The anchor is level with the near side of the target, so that the safe triangle has no area. */
  predicate LevelWithTarget(target: Rect, anchor: Point) {
    target.NearX(anchor) == anchor.x
  }

  /** Membership in the safe triangle proper. */
  ghost predicate InHull(target: Rect, anchor: Point, p: Point) {
    var nearX := target.NearX(anchor);
    ConvexCombination(p, anchor, Point(nearX, anchor.y - VERTICAL_PADDING), Point(nearX, anchor.y + VERTICAL_PADDING))
  }

  /** What the test accepts: the triangle, or the vertical line through an anchor that is level with the target. */
  lemma {:induction false} SafeTriangleIsHullOrLine(target: Rect, anchor: Point, p: Point)
    ensures InSafeTriangle(target, anchor, p) <==>
            if LevelWithTarget(target, anchor) then p.x == anchor.x else InHull(target, anchor, p)
  {
    var nearX := target.NearX(anchor);
    if LevelWithTarget(target, anchor) {
      SafeTriangleIsTransit(target, anchor, p);
    } else {
      var b, c := Point(nearX, anchor.y - VERTICAL_PADDING), Point(nearX, anchor.y + VERTICAL_PADDING);
      assert CrossSign(c, anchor, b) == 2.0 * VERTICAL_PADDING * (nearX - anchor.x);
      PointInTriangleIffConvexCombination(p, anchor, b, c);
    }
  }

  /** No point of the safe triangle is higher or lower than its corners. */
  lemma {:induction false} HullIsWithinPadding(target: Rect, anchor: Point, p: Point)
    requires InHull(target, anchor, p)
    ensures anchor.y - VERTICAL_PADDING <= p.y <= anchor.y + VERTICAL_PADDING
  {
    var nearX := target.NearX(anchor);
    var b, c := Point(nearX, anchor.y - VERTICAL_PADDING), Point(nearX, anchor.y + VERTICAL_PADDING);
    var wa, wb, wc :| IsMean(p, anchor, b, c, wa, wb, wc);
    assert wa == 1.0 - wb - wc;
    assert p.y == anchor.y + VERTICAL_PADDING * (wc - wb);
  }

  /** The sign test is membership in the safe triangle, for all points, iff the anchor is not level with the near side
      of the target. */
  lemma {:induction false} SafeTriangleIsHullIff(target: Rect, anchor: Point)
    ensures (forall p :: InSafeTriangle(target, anchor, p) <==> InHull(target, anchor, p)) <==>
            !LevelWithTarget(target, anchor)
  {
    forall p
      ensures !LevelWithTarget(target, anchor) ==> (InSafeTriangle(target, anchor, p) <==> InHull(target, anchor, p))
    {
      SafeTriangleIsHullOrLine(target, anchor, p);
    }
    if LevelWithTarget(target, anchor) {
      var p := Point(anchor.x, anchor.y + VERTICAL_PADDING + 1.0);
      SafeTriangleIsHullOrLine(target, anchor, p);
      if InHull(target, anchor, p) {
        HullIsWithinPadding(target, anchor, p);
      }
      assert InSafeTriangle(target, anchor, p) && !InHull(target, anchor, p);
    }
  }

  // ----- the state machine

  datatype TriangleState = TriangleState(target: Option<Rect>, anchor: Option<Point>, suppressing: bool)

  function SquaredDistance(p: Point, q: Point): real {
    (q.x - p.x) * (q.x - p.x) + (q.y - p.y) * (q.y - p.y)
  }

  /** Whether a hover at `p` is suppressed. A movement too small to count repeats the previous answer. */
  predicate Suppresses(s: TriangleState, p: Point) {
    && s.target.Some? && s.anchor.Some? && !s.target.value.Contains(s.anchor.value)
    && if SquaredDistance(s.anchor.value, p) < MIN_MOVEMENT_SQUARED then s.suppressing
       else InTransit(s.target.value, s.anchor.value, p)
  }

  /** The points that a real movement from the anchor has to reach to be suppressed. */
  ghost predicate Accepts(target: Rect, anchor: Point, p: Point) {
    if LevelWithTarget(target, anchor) then p.x == anchor.x else InHull(target, anchor, p)
  }

  /** Without a target or an anchor, or with the anchor inside the target, nothing is suppressed; a movement too small
      to count repeats the previous answer; any other is suppressed iff it leads into the triangle. */
  lemma {:induction false} SuppressesIff(s: TriangleState, p: Point)
    ensures s.target.None? || s.anchor.None? ==> !Suppresses(s, p)
    ensures s.target.Some? && s.anchor.Some? ==>
              if s.target.value.Contains(s.anchor.value) then !Suppresses(s, p)
              else if SquaredDistance(s.anchor.value, p) < MIN_MOVEMENT_SQUARED then
                Suppresses(s, p) == s.suppressing
              else Suppresses(s, p) <==> Accepts(s.target.value, s.anchor.value, p)
  {
    if s.target.Some? && s.anchor.Some? {
      SafeTriangleIsTransit(s.target.value, s.anchor.value, p);
      SafeTriangleIsHullOrLine(s.target.value, s.anchor.value, p);
    }
  }

  /** The side that faces a point is the nearer of the two. */
  lemma {:induction false} NearXIsNearer(target: Rect, p: Point)
    requires target.minX <= target.maxX
    ensures var near := target.NearX(p);
            && near in {target.minX, target.maxX}
            && (p.x <= target.minX ==> near == target.minX || target.minX == target.maxX)
            && (near - p.x) * (near - p.x) <= (target.minX - p.x) * (target.minX - p.x)
            && (near - p.x) * (near - p.x) <= (target.maxX - p.x) * (target.maxX - p.x)
  {
    var l, r := target.minX - p.x, target.maxX - p.x;
    assert r * r - l * l == (r - l) * (r + l);
    assert r + l == 2.0 * (target.CenterX() - p.x);
    SignOfSum(r - l, r + l);
  }

  lemma {:induction false} SignOfSum(a: real, b: real)
    requires a >= 0.0
    ensures b >= 0.0 ==> a * b >= 0.0
    ensures b <= 0.0 ==> a * b <= 0.0
  {
  }

  /** Suppression is only ever on towards a target and from an anchor. */
  predicate Coherent(s: TriangleState) {
    s.suppressing ==> s.target.Some? && s.anchor.Some?
  }

  class SafeTriangle {
    var targetRect: Option<Rect>
    var lastPosition: Option<Point>
    var isSuppressing: bool

    ghost function State(): TriangleState
      reads this
    {
      TriangleState(targetRect, lastPosition, isSuppressing)
    }

    constructor ()
      ensures State() == TriangleState(None, None, false)
    {
      targetRect, lastPosition, isSuppressing := None, None, false;
    }

    method SetTargetRect(rect: Option<Rect>)
      modifies this
      ensures State() == if rect.Some? then old(State()).(target := rect) else TriangleState(None, None, false)
      ensures old(Coherent(State())) ==> Coherent(State())
    {
      targetRect := rect;
      if rect.None? {
        lastPosition := None;
        isSuppressing := false;
      }
    }

    /** The answer is also what `is_suppressing` holds afterwards, on every path. */
    method ShouldSuppressHover(newPosition: Point) returns (suppress: bool)
      modifies this`isSuppressing
      ensures suppress == Suppresses(old(State()), newPosition)
      ensures State() == old(State()).(suppressing := suppress) && Coherent(State())
      ensures old(targetRect).None? || old(lastPosition).None? ==> !suppress
      ensures old(targetRect).Some? && old(lastPosition).Some? ==>
                var target, anchor := old(targetRect).value, old(lastPosition).value;
                if target.Contains(anchor) then !suppress
                else if SquaredDistance(anchor, newPosition) < MIN_MOVEMENT_SQUARED then suppress == old(isSuppressing)
                else suppress <==> Accepts(target, anchor, newPosition)
    {
      SuppressesIff(State(), newPosition);
      if targetRect.None? || lastPosition.None? {
        isSuppressing := false;
        return false;
      }
      var target, lastPos := targetRect.value, lastPosition.value;
      if target.Contains(lastPos) {
        isSuppressing := false;
        return false;
      }
      var dx, dy := newPosition.x - lastPos.x, newPosition.y - lastPos.y;
      assert SquaredDistance(lastPos, newPosition) == dx * dx + dy * dy;
      if dx * dx + dy * dy < MIN_MOVEMENT_SQUARED {
        return isSuppressing;
      }
      var targetCenterX := (target.minX + target.maxX) / 2.0;
      var nearX := if lastPos.x < targetCenterX then target.minX else target.maxX;
      var cornerA := Point(nearX, lastPos.y - VERTICAL_PADDING);
      var cornerB := Point(nearX, lastPos.y + VERTICAL_PADDING);
      suppress := PointInTriangle(newPosition, lastPos, cornerA, cornerB);
      assert nearX == target.NearX(lastPos);
      assert suppress == InSafeTriangle(target, lastPos, newPosition);
      isSuppressing := suppress;
      SafeTriangleIsTransit(target, lastPos, newPosition);
      assert suppress == InTransit(target, lastPos, newPosition);
    }

    method UpdatePosition(position: Point)
      modifies this`lastPosition
      ensures State() == old(State()).(anchor := Some(position))
      ensures old(Coherent(State())) ==> Coherent(State())
    {
      lastPosition := Some(position);
    }
  }

  // ----- runs of leaf hovers

  /** A hover over a leaf item, as `Menu::handle_action` sees it. */
  datatype Hover = Hover(depth: nat, rowIndex: nat, position: Point)

  datatype HoverState = HoverState(triangle: TriangleState, hoveredRow: Option<nat>)

  /** One leaf hover in a menu of the given depth with a safe triangle. */
  function HoverStep(depth: nat, s: HoverState, h: Hover): HoverState {
    if Suppresses(s.triangle, h.position) then
      HoverState(s.triangle.(suppressing := true), s.hoveredRow)
    else
      HoverState(TriangleState(s.triangle.target, Some(h.position), false),
                 if h.depth == depth then Some(h.rowIndex) else s.hoveredRow)
  }

  function HoverRun(depth: nat, s: HoverState, hovers: seq<Hover>): HoverState {
    if hovers == [] then s
    else HoverStep(depth, HoverRun(depth, s, hovers[..|hovers| - 1]), hovers[|hovers| - 1])
  }

  /** The state before hover `k`. */
  function Before(depth: nat, s: HoverState, hovers: seq<Hover>, k: nat): HoverState
    requires k <= |hovers|
  {
    HoverRun(depth, s, hovers[..k])
  }

  predicate SuppressedAt(depth: nat, s: HoverState, hovers: seq<Hover>, k: nat)
    requires k < |hovers|
  {
    Suppresses(Before(depth, s, hovers, k).triangle, hovers[k].position)
  }

  lemma BeforeNext(depth: nat, s: HoverState, hovers: seq<Hover>, k: nat)
    requires k < |hovers|
    ensures Before(depth, s, hovers, k + 1) == HoverStep(depth, Before(depth, s, hovers, k), hovers[k])
  {
    assert hovers[..k + 1][..k] == hovers[..k];
  }

  /** In every run, suppression is only on with both a target and an anchor. */
  lemma RunsAreCoherent(depth: nat, s: HoverState, hovers: seq<Hover>)
    requires Coherent(s.triangle)
    ensures Coherent(HoverRun(depth, s, hovers).triangle)
  {
  }

  /** Where a hover is suppressed: in the safe triangle of the anchor or, if the anchor is level with the target, on the
      vertical line through it; or within the minimal movement of the anchor. */
  ghost predicate InTriangleOrClose(target: Rect, anchor: Point, p: Point) {
    || Accepts(target, anchor, p)
    || SquaredDistance(anchor, p) < MIN_MOVEMENT_SQUARED
  }

  /** While hovers `i` to `j - 1` are all suppressed, the anchor and the hovered row stand still, and every one of
      the suppressed positions is in the one triangle of that anchor, or on its line, or within the minimal movement of
      it. */
  lemma {:induction false} SuppressedStretch(depth: nat, s: HoverState, hovers: seq<Hover>, i: nat, j: nat)
    requires i <= j <= |hovers|
    requires forall k :: i <= k < j ==> SuppressedAt(depth, s, hovers, k)
    ensures Before(depth, s, hovers, j).triangle.anchor == Before(depth, s, hovers, i).triangle.anchor
    ensures Before(depth, s, hovers, j).triangle.target == Before(depth, s, hovers, i).triangle.target
    ensures Before(depth, s, hovers, j).hoveredRow == Before(depth, s, hovers, i).hoveredRow
    ensures i < j ==>
              var t := Before(depth, s, hovers, i).triangle;
              t.target.Some? && t.anchor.Some? &&
              forall k :: i <= k < j ==> InTriangleOrClose(t.target.value, t.anchor.value, hovers[k].position)
  {
    if i < j {
      SuppressedStretch(depth, s, hovers, i, j - 1);
      BeforeNext(depth, s, hovers, j - 1);
      assert SuppressedAt(depth, s, hovers, j - 1);
      var t := Before(depth, s, hovers, i).triangle;
      SafeTriangleIsTransit(t.target.value, t.anchor.value, hovers[j - 1].position);
      SafeTriangleIsHullOrLine(t.target.value, t.anchor.value, hovers[j - 1].position);
    }
  }

  /** A stretch of suppressed hovers starts with a real movement into the triangle: a hover that is suppressed
      right after one that was not is in the triangle, or on the line of a level anchor, and at least the minimal
      movement away. */
  lemma StretchStartsInTheTriangle(depth: nat, s: HoverState, hovers: seq<Hover>, k: nat)
    requires 0 < k < |hovers| && SuppressedAt(depth, s, hovers, k) && !SuppressedAt(depth, s, hovers, k - 1)
    ensures var anchor := hovers[k - 1].position;
            Before(depth, s, hovers, k).triangle.anchor == Some(anchor) && s.triangle.target.Some? &&
            InTriangleOrClose(s.triangle.target.value, anchor, hovers[k].position) &&
            SquaredDistance(anchor, hovers[k].position) >= MIN_MOVEMENT_SQUARED
  {
    BeforeNext(depth, s, hovers, k - 1);
    TargetIsFixed(depth, s, hovers[..k]);
    SafeTriangleIsTransit(s.triangle.target.value, hovers[k - 1].position, hovers[k].position);
    SafeTriangleIsHullOrLine(s.triangle.target.value, hovers[k - 1].position, hovers[k].position);
  }

  /** An anchor straight above a corner of the target suppresses a hover 900 points away from it, which is far outside
      of the triangle. */
  lemma {:induction false} LevelAnchorSuppressesFarAway()
    ensures var target, anchor, p := Rect(0.0, 0.0, 10.0, 10.0), Point(0.0, -100.0), Point(0.0, -1000.0);
            && Suppresses(TriangleState(Some(target), Some(anchor), false), p)
            && SquaredDistance(anchor, p) == 810000.0 && !InHull(target, anchor, p)
  {
    var target, anchor, p := Rect(0.0, 0.0, 10.0, 10.0), Point(0.0, -100.0), Point(0.0, -1000.0);
    assert target.NearX(anchor) == 0.0;
    if InHull(target, anchor, p) {
      HullIsWithinPadding(target, anchor, p);
    }
  }

  lemma {:induction false} TargetIsFixed(depth: nat, s: HoverState, hovers: seq<Hover>)
    ensures HoverRun(depth, s, hovers).triangle.target == s.triangle.target
  {
    if hovers != [] {
      TargetIsFixed(depth, s, hovers[..|hovers| - 1]);
    }
  }
}
