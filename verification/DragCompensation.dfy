/** The coordinate compensation of a synthetic drag: for each display rotation a rigid motion of
    the plane, applied to the primary item of a pointer event. Coordinates are integers. */
module DragCompensation {
  import opened Prelude
  import opened DragTracker

  datatype Point = Point(x: int, y: int)

  function Plus(p: Point, q: Point): Point { Point(p.x + q.x, p.y + q.y) }
  function Minus(p: Point, q: Point): Point { Point(p.x - q.x, p.y - q.y) }

  function QuarterTurn(p: Point): Point { Point(-p.y, p.x) }

  function Quarters(r: Rotation): nat {
    match r case Rotation0 => 0 case Rotation90 => 1 case Rotation180 => 2 case Rotation270 => 3
  }

  function Turn(quarters: nat, p: Point): Point {
    if quarters == 0 then p else QuarterTurn(Turn(quarters - 1, p))
  }

  /** Where the origin of the display goes. */
  function Anchor(c: Compensation): Point {
    match c.rotation
    case Rotation0 => Point(0, 0)
    case Rotation90 => Point(c.windowWidth - c.hotspotY, -c.hotspotX)
    case Rotation180 => Point(c.windowWidth - c.shadowWidth + 2 * c.hotspotX,
                              c.windowHeight - c.shadowHeight + 2 * c.hotspotY)
    case Rotation270 => Point(c.hotspotY, c.windowHeight - c.hotspotX)
  }

  /** The display turned by the rotation's quarter turns and moved to its anchor. */
  function Motion(c: Compensation, p: Point): Point {
    Plus(Turn(Quarters(c.rotation), p), Anchor(c))
  }

  predicate HasHotspot(c: Compensation) {
    c.shadowWidth > 0 && c.shadowHeight > 0 && c.hotspotX >= 0 && c.hotspotY >= 0
  }

  function Compensated(c: Compensation, p: Point, pointerId: int): Point {
    if c.valid && c.pointerId == pointerId && HasHotspot(c) then Motion(c, p) else p
  }

  function SquaredLength(p: Point): int { p.x * p.x + p.y * p.y }

  function SquaredDistance(p: Point, q: Point): int {
    SquaredLength(Minus(p, q))
  }

  /** Displacements are turned, distances are kept, and so no two points coincide. */
  lemma MotionIsRigid(c: Compensation, p: Point, q: Point)
    ensures Minus(Motion(c, p), Motion(c, q)) == Turn(Quarters(c.rotation), Minus(p, q))
    ensures SquaredDistance(Motion(c, p), Motion(c, q)) == SquaredDistance(p, q)
    ensures Motion(c, p) == Motion(c, q) ==> p == q
  {
    TurnMinus(Quarters(c.rotation), p, q);
    MotionMinus(c, p, q);
    TurnLength(Quarters(c.rotation), Minus(p, q));
    MotionInjective(c, p, q);
  }

  lemma MotionMinus(c: Compensation, p: Point, q: Point)
    ensures Minus(Motion(c, p), Motion(c, q)) == Minus(Turn(Quarters(c.rotation), p), Turn(Quarters(c.rotation), q))
  {
  }

  lemma MotionInjective(c: Compensation, p: Point, q: Point)
    ensures Motion(c, p) == Motion(c, q) ==> p == q
  {
    TurnInjective(Quarters(c.rotation), p, q);
  }

  lemma {:induction false} TurnInjective(k: nat, p: Point, q: Point)
    ensures Turn(k, p) == Turn(k, q) ==> p == q
  {
    if k > 0 {
      TurnInjective(k - 1, p, q);
    }
  }

  lemma {:induction false} TurnMinus(k: nat, p: Point, q: Point)
    ensures Minus(Turn(k, p), Turn(k, q)) == Turn(k, Minus(p, q))
  {
    if k > 0 {
      TurnMinus(k - 1, p, q);
    }
  }

  lemma {:induction false} TurnLength(k: nat, p: Point)
    ensures SquaredLength(Turn(k, p)) == SquaredLength(p)
  {
    if k > 0 {
      TurnLength(k - 1, p);
      QuarterTurnLength(Turn(k - 1, p));
    }
  }

  lemma QuarterTurnLength(p: Point)
    ensures SquaredLength(QuarterTurn(p)) == SquaredLength(p)
  {
    assert (-p.y) * (-p.y) == p.y * p.y;
  }

  lemma TurnsSpelledOut(p: Point)
    ensures Turn(0, p) == p && Turn(1, p) == Point(-p.y, p.x)
    ensures Turn(2, p) == Point(-p.x, -p.y) && Turn(3, p) == Point(p.y, -p.x)
  {
    assert Turn(1, p) == QuarterTurn(Turn(0, p));
    assert Turn(2, p) == QuarterTurn(Turn(1, p));
    assert Turn(3, p) == QuarterTurn(Turn(2, p));
  }

  /** The half-turn case undoes itself. */
  lemma HalfTurnIsInvolution(c: Compensation, p: Point)
    requires c.rotation == Rotation180
    ensures Motion(c, Motion(c, p)) == p
  {
    TurnsSpelledOut(p);
    TurnsSpelledOut(Motion(c, p));
  }

  /** Displacements, coordinate by coordinate. */
  lemma DisplacementIsTurned(c: Compensation, p: Point, q: Point)
    requires HasHotspot(c) && c.valid
    ensures var d := Minus(p, q);
      var moved := Minus(Compensated(c, p, c.pointerId), Compensated(c, q, c.pointerId));
      match c.rotation
      case Rotation0 => moved == d
      case Rotation90 => moved.x == -d.y && moved.y == d.x
      case Rotation180 => moved.x == -d.x && moved.y == -d.y
      case Rotation270 => moved.x == d.y && moved.y == -d.x
  {
    TurnsSpelledOut(p);
    TurnsSpelledOut(q);
  }

  /** Where the motion lands: at a quarter turn the point that puts the hotspot's mirror image at the origin goes to
      the window's right or lower edge; at a half turn the shadow, whose corner is the point minus the hotspot, goes
      to its mirror image in the window; without a turn everything stays. */
  lemma LandsOnWindow(c: Compensation, p: Point)
    requires c.valid && c.shadowWidth > 0 && c.shadowHeight > 0 && c.hotspotX >= 0 && c.hotspotY >= 0
    ensures c.rotation == Rotation0 ==> Compensated(c, p, c.pointerId) == p
    ensures c.rotation == Rotation90 ==>
      Compensated(c, Point(c.hotspotX, -c.hotspotY), c.pointerId) == Point(c.windowWidth, 0)
    ensures c.rotation == Rotation270 ==>
      Compensated(c, Point(-c.hotspotX, -c.hotspotY), c.pointerId) == Point(0, c.windowHeight)
    ensures c.rotation == Rotation180 ==>
      var left, top := p.x - c.hotspotX, p.y - c.hotspotY;
      var moved := Compensated(c, p, c.pointerId);
      moved.x - c.hotspotX == c.windowWidth - (left + c.shadowWidth)
      && moved.y - c.hotspotY == c.windowHeight - (top + c.shadowHeight)
  {
    TurnsSpelledOut(p);
    TurnsSpelledOut(Point(c.hotspotX, -c.hotspotY));
    TurnsSpelledOut(Point(-c.hotspotX, -c.hotspotY));
  }

  /** A point stays if the compensation is not valid, is another pointer's, or has no shadow or no hotspot. */
  lemma StaysWithoutHotspot(c: Compensation, p: Point, pointerId: int)
    requires !c.valid || c.pointerId != pointerId
             || c.shadowWidth <= 0 || c.shadowHeight <= 0 || c.hotspotX < 0 || c.hotspotY < 0
    ensures Compensated(c, p, pointerId) == p
  {
  }

  // ----- Compensation state -----

  /** The first shadow's pixel map size and offset, when there is one. */
  datatype Shadow = Shadow(width: int, height: int, x: int, y: int)
  datatype DragData = DragData(pointerId: int, display: Point, shadow: Option<Shadow>)
  datatype Size = Size(width: int, height: int)

  method MakeCompensation(drag: DragData, window: Option<Size>, width: int, height: int, sessionId: nat,
                          rotation: Rotation) returns (c: Compensation)
    ensures c.valid && c.sessionId == sessionId && c.pointerId == drag.pointerId && c.rotation == rotation
    ensures c.windowWidth == if window.Some? && window.value.width > 0 then window.value.width else width
    ensures c.windowHeight == if window.Some? && window.value.height > 0 then window.value.height else height
    ensures drag.shadow.Some? ==>
      && Shadow(c.shadowWidth, c.shadowHeight, -c.hotspotX, -c.hotspotY) == drag.shadow.value
    ensures drag.shadow.None? ==> !HasHotspot(c)
  {
    c := NO_COMPENSATION;
    c := c.(valid := true, sessionId := sessionId, pointerId := drag.pointerId,
            windowWidth := width, windowHeight := height);
    if window.Some? {
      if window.value.width > 0 {
        c := c.(windowWidth := window.value.width);
      }
      if window.value.height > 0 {
        c := c.(windowHeight := window.value.height);
      }
    }
    c := c.(shadowWidth := 0, shadowHeight := 0, hotspotX := -1, hotspotY := -1);
    if drag.shadow.Some? {
      var shadow := drag.shadow.value;
      c := c.(shadowWidth := shadow.width, shadowHeight := shadow.height, hotspotX := -shadow.x, hotspotY := -shadow.y);
    }
    c := c.(rotation := rotation);
  }

  method CompensatePointWithHotspot(c: Compensation, displayX: int, displayY: int) returns (p: Point)
    ensures p == Motion(c, Point(displayX, displayY))
  {
    var compensatedX, compensatedY := displayX, displayY;
    match c.rotation {
      case Rotation0 =>
      case Rotation90 =>
        compensatedX := c.windowWidth - displayY - c.hotspotY;
        compensatedY := displayX - c.hotspotX;
      case Rotation180 =>
        compensatedX := c.windowWidth - displayX - (c.shadowWidth - 2 * c.hotspotX);
        compensatedY := c.windowHeight - displayY - (c.shadowHeight - 2 * c.hotspotY);
      case Rotation270 =>
        compensatedX := displayY + c.hotspotY;
        compensatedY := c.windowHeight - displayX - c.hotspotX;
    }
    p := Point(compensatedX, compensatedY);
    TurnsSpelledOut(Point(displayX, displayY));
  }

  method CompensatePoint(c: Compensation, displayX: int, displayY: int, pointerId: int) returns (p: Point)
    ensures p == Compensated(c, Point(displayX, displayY), pointerId)
  {
    if !c.valid || c.pointerId != pointerId {
      return Point(displayX, displayY);
    }
    var hasHotspot := c.shadowWidth > 0 && c.shadowHeight > 0 && c.hotspotX >= 0 && c.hotspotY >= 0;
    if !hasHotspot {
      return Point(displayX, displayY);
    }
    p := CompensatePointWithHotspot(c, displayX, displayY);
  }

  // ----- Pointer events -----

  datatype PointerItem = PointerItem(pointerId: int, display: Point, window: Point, other: string)

  datatype Header = Header(
    pointerId: int, deviceId: int, targetDisplayId: int, actionTime: int, fingerCount: int,
    pointerAction: int, sourceType: int, pullId: int)

  /** Item ids in order, and the items that can be fetched. */
  datatype PointerEvent = PointerEvent(header: Header, ids: seq<int>, items: map<int, PointerItem>) {
    ghost predicate WellFormed() {
      && (forall i, j :: 0 <= i < j < |ids| ==> ids[i] != ids[j])
      && (forall id :: id in items ==> items[id].pointerId == id)
    }
    /** Replaces the item with the same id, or appends. */
    function AddPointerItem(item: PointerItem): PointerEvent {
      this.(ids := if item.pointerId in ids then ids else ids + [item.pointerId],
            items := items[item.pointerId := item])
    }
  }

  /** An item whose display and window positions moved by the same displacement. */
  function MovedTo(item: PointerItem, display: Point): PointerItem {
    item.(display := display, window := Plus(item.window, Minus(display, item.display)))
  }

  function CompensatedItem(c: Compensation, primary: int, item: PointerItem, id: int): PointerItem {
    if id == primary then MovedTo(item, Compensated(c, item.display, id)) else item
  }

  predicate Applies(c: Compensation, e: PointerEvent, sessionId: nat) {
    c.valid && c.sessionId == sessionId && c.pointerId == e.header.pointerId
  }

  /** The items of `ids` and no others; only the primary item differs, and it only moved. */
  ghost predicate CompensatedItems(c: Compensation, primary: int, ids: seq<int>, items: map<int, PointerItem>,
                                   copied: map<int, PointerItem>)
  {
    && (forall id :: id in copied <==> id in ids)
    && (forall id :: id in ids ==> id in items && copied[id] == CompensatedItem(c, primary, items[id], id))
  }

  /** Same header and ids in the same order, with compensated items. */
  ghost predicate IsCompensatedCopy(c: Compensation, e: PointerEvent, copy: PointerEvent) {
    && copy.header == e.header && copy.ids == e.ids
    && CompensatedItems(c, e.header.pointerId, e.ids, e.items, copy.items)
  }

  method CreateCompensatedEvent(c: Compensation, e: PointerEvent, sessionId: nat, canCreate: bool)
      returns (out: PointerEvent)
    requires e.WellFormed()
    ensures c.valid && c.sessionId == sessionId && c.pointerId == e.header.pointerId && canCreate
            && (forall id :: id in e.ids ==> id in e.items) ==>
      IsCompensatedCopy(c, e, out)
    ensures !c.valid || c.sessionId != sessionId || c.pointerId != e.header.pointerId || !canCreate
            || (exists id :: id in e.ids && id !in e.items) ==>
      out == e
  {
    if !c.valid || c.sessionId != sessionId || c.pointerId != e.header.pointerId {
      return e;
    }
    if !canCreate {
      return e;
    }
    var adjusted := PointerEvent(e.header, [], map[]);
    var i := 0;
    while i < |e.ids|
      invariant i <= |e.ids|
      invariant adjusted.header == e.header && adjusted.ids == e.ids[..i]
      invariant CompensatedItems(c, e.header.pointerId, e.ids[..i], e.items, adjusted.items)
    {
      var id := e.ids[i];
      if id !in e.items {
        return e;
      }
      var item := e.items[id];
      if id == e.header.pointerId {
        var original := item.display;
        var point := CompensatePoint(c, original.x, original.y, id);
        item := item.(display := point,
                      window := Point(item.window.x + (point.x - original.x), item.window.y + (point.y - original.y)));
      }
      CopyOneMore(c, e, adjusted.items, i);
      adjusted := adjusted.AddPointerItem(item);
      i := i + 1;
    }
    assert e.ids[..i] == e.ids;
    out := adjusted;
  }

  lemma CopyOneMore(c: Compensation, e: PointerEvent, copied: map<int, PointerItem>, i: nat)
    requires e.WellFormed() && i < |e.ids| && e.ids[i] in e.items
    requires CompensatedItems(c, e.header.pointerId, e.ids[..i], e.items, copied)
    ensures e.ids[i] !in e.ids[..i] && e.ids[..i + 1] == e.ids[..i] + [e.ids[i]]
    ensures var item := CompensatedItem(c, e.header.pointerId, e.items[e.ids[i]], e.ids[i]);
      && item.pointerId == e.ids[i]
      && CompensatedItems(c, e.header.pointerId, e.ids[..i + 1], e.items, copied[e.ids[i] := item])
  {
    PrefixStep(e.ids, i);
    assert forall id :: id in e.ids[..i + 1] <==> id in e.ids[..i] || id == e.ids[i];
  }

  /** In a compensated copy the event's own pointer is moved to the compensated point; no other item changes. */
  lemma CopyMovesOnlyPrimary(c: Compensation, e: PointerEvent, copy: PointerEvent, id: int)
    requires IsCompensatedCopy(c, e, copy)
    ensures copy.header == e.header && copy.ids == e.ids && (id in copy.items <==> id in e.ids)
    ensures id in e.ids ==>
      && id in e.items
      && (id != e.header.pointerId ==> copy.items[id] == e.items[id])
      && (id == e.header.pointerId ==> copy.items[id].display == Compensated(c, e.items[id].display, id))
  {
  }

  /** In a compensated copy every item keeps its window-minus-display offset. */
  lemma CopyKeepsOffsets(c: Compensation, e: PointerEvent, copy: PointerEvent, id: int)
    requires IsCompensatedCopy(c, e, copy) && id in e.ids
    ensures Minus(copy.items[id].window, copy.items[id].display) == Minus(e.items[id].window, e.items[id].display)
    ensures copy.items[id].other == e.items[id].other && copy.items[id].pointerId == e.items[id].pointerId
  {
  }
}
