/**
 * The `Canvas` component's session state and its event handlers. The React
 * state (`drawProps`, `mouseDown`, `lastClicked`) is one explicit record;
 * each handler returns the record the component's setters would produce.
 */
module Canvas {
  import opened Basics
  import opened HexCodec
  import opened Scene
  import opened Raster

  /** `numberOfElements`, `width` and `height`: the initial scene and the fallback canvas size. */
  const NumberOfElements: nat := 2500
  const DefaultWidth: nat := 500
  const DefaultHeight: nat := 500

  /** `lastClicked`: the device pixel clicked and the item found there, as it was before the click. */
  datatype Clicked = Clicked(at: Point, found: Item)

  /**
   * `drawProps` (zoom exponent for `scaleCanvas`, `translatePos`,
   * `startDragOffset` with `{}` as None, `items`, `currentCoords`) together
   * with the `mouseDown` and `lastClicked` state.
   */
  datatype Session = Session(
    zoom: int,
    translatePos: Point,
    startDragOffset: Option<Point>,
    items: seq<Item>,
    currentCoords: Option<Point>,
    mouseDown: bool,
    lastClicked: Option<Clicked>)

  function ViewOf(s: Session): View {
    View(s.translatePos, s.zoom)
  }

  /** `canvasRef?.current?.width || width`: the canvas size, or the default when it reads as 0. */
  function EffectiveSize(measured: nat, default: nat): (n: nat)
    ensures measured > 0 ==> n == measured
    ensures measured == 0 ==> n == default
  {
    if measured == 0 then default else measured
  }

  /** The state on mount: `initialItems` and the initial `drawProps`. */
  function Initial(rand: seq<Draws>): (s: Session)
    requires NumberOfElements <= |rand| && ValidDraws(rand)
    ensures |s.items| == NumberOfElements && DenseIds(s.items)
    ensures forall k :: 0 <= k < |s.items| ==> WellFormed(s.items[k], DefaultWidth, DefaultHeight)
    ensures s.items == GenerateScene(NumberOfElements, DefaultWidth, DefaultHeight, rand)
    ensures ScaleCanvas(s.zoom) == 1.0 && s.translatePos == Point(0, 0)
    ensures s.startDragOffset.None? && s.currentCoords.None?
    ensures !s.mouseDown && s.lastClicked.None?
  {
    Session(0, Point(0, 0), None, GenerateScene(NumberOfElements, DefaultWidth, DefaultHeight, rand), None, false, None)
  }

  /** The `setDrawProps` of `drawRandom`: new items, scale 1, translate (0, 0), no drag anchor; the rest is kept. */
  function Redraw(s: Session, items: seq<Item>): (r: Session)
    ensures r.items == items && ScaleCanvas(r.zoom) == 1.0 && r.translatePos == Point(0, 0) && r.startDragOffset.None?
    ensures r.currentCoords == s.currentCoords && r.mouseDown == s.mouseDown && r.lastClicked == s.lastClicked
  {
    s.(zoom := 0, translatePos := Point(0, 0), startDragOffset := None, items := items)
  }

  /**
   * `drawRandom`: push `generateItem(widthCanvas, heightCanvas, i)` for
   * i = 0 .. elementsToDraw - 1, then reset the view.
   */
  method DrawRandom(s: Session, elementsToDraw: int, canvasWidth: nat, canvasHeight: nat, rand: seq<Draws>)
    returns (r: Session)
    requires Max0(elementsToDraw) <= |rand| && ValidDraws(rand)
    ensures r == Redraw(s, r.items)
    ensures r.items == GenerateScene(elementsToDraw, EffectiveSize(canvasWidth, DefaultWidth), EffectiveSize(canvasHeight, DefaultHeight), rand)
    ensures |r.items| == Max0(elementsToDraw) && DenseIds(r.items)
    ensures forall k :: 0 <= k < |r.items| ==>
      WellFormed(r.items[k], EffectiveSize(canvasWidth, DefaultWidth), EffectiveSize(canvasHeight, DefaultHeight))
    ensures ScaleCanvas(r.zoom) == 1.0 && r.translatePos == Point(0, 0) && r.startDragOffset.None?
  {
    var w := EffectiveSize(canvasWidth, DefaultWidth);
    var h := EffectiveSize(canvasHeight, DefaultHeight);
    var toDraw: seq<Item> := [];
    var i := 0;
    while i < elementsToDraw
      invariant 0 <= i <= Max0(elementsToDraw)
      invariant toDraw == GenerateScene(i, w, h, rand)
    {
      toDraw := toDraw + [GenerateItem(w, h, i, rand[i])];
      i := i + 1;
    }
    r := Redraw(s, toDraw);
  }

  /**
   * `onMouseDown`: anchor the drag at the pointer's offset from the current
   * translate, so that a move to the press point keeps the translate.
   */
  function OnMouseDown(s: Session, client: Point): (r: Session)
    ensures r.mouseDown && r.startDragOffset.Some?
    ensures DragTranslate(client, r.startDragOffset) == s.translatePos
    ensures r == s.(startDragOffset := r.startDragOffset, mouseDown := true)
  {
    s.(startDragOffset := Some(client.Minus(s.translatePos)), mouseDown := true)
  }

  /** `onMouseUp`. */
  function OnMouseUp(s: Session): (r: Session)
    ensures !r.mouseDown && r.(mouseDown := s.mouseDown) == s
  {
    s.(mouseDown := false)
  }

  /** The translate a drag move sets, with a missing anchor read as offset 0. */
  function DragTranslate(client: Point, offset: Option<Point>): (t: Point)
    ensures offset.Some? ==> Point(t.x + offset.value.x, t.y + offset.value.y) == client
    ensures offset.None? ==> t == client
  {
    client.Minus(offset.GetOr(Point(0, 0)))
  }

  /**
   * `onMouseMoveCanvas`: record the device pixel; while the mouse is down,
   * reposition the translate at pointer minus anchor.
   */
  function OnMouseMove(s: Session, client: Point, device: Point): (r: Session)
    ensures r.currentCoords == Some(device)
    ensures r.translatePos == if s.mouseDown then DragTranslate(client, s.startDragOffset) else s.translatePos
    ensures r == s.(currentCoords := r.currentCoords, translatePos := r.translatePos)
  {
    s.(currentCoords := Some(device),
       translatePos := if s.mouseDown then DragTranslate(client, s.startDragOffset) else s.translatePos)
  }

  /** `onPlus`: `scaleCanvas / scaleMultiplier`. */
  function OnPlus(s: Session): (r: Session)
    ensures ScaleCanvas(r.zoom) == ScaleCanvas(s.zoom) / 0.8
    ensures r == s.(zoom := r.zoom)
  {
    ScaleModel(s.zoom);
    s.(zoom := s.zoom + 1)
  }

  /** `onMinus`: `scaleCanvas * scaleMultiplier`. */
  function OnMinus(s: Session): (r: Session)
    ensures ScaleCanvas(r.zoom) == ScaleCanvas(s.zoom) * 0.8
    ensures r == s.(zoom := r.zoom)
  {
    ScaleModel(s.zoom);
    s.(zoom := s.zoom - 1)
  }

  /** `onWheel`: a positive `deltaY` zooms out, anything else zooms in. */
  function OnWheel(s: Session, deltaY: real): (r: Session)
    ensures deltaY > 0.0 ==> ScaleCanvas(r.zoom) == ScaleCanvas(s.zoom) * 0.8
    ensures deltaY <= 0.0 ==> ScaleCanvas(r.zoom) == ScaleCanvas(s.zoom) / 0.8
    ensures r == s.(zoom := r.zoom)
  {
    if deltaY > 0.0 then OnMinus(s) else OnPlus(s)
  }

  /**
   * The `items.map` of `onClickCanvas`: an item whose colour id equals the
   * last found item's is replaced by that stored item (this test comes
   * first), the item at `index` becomes a red copy, every other item stays.
   */
  function Highlight(items: seq<Item>, index: nat, last: Option<Clicked>): (r: seq<Item>)
    ensures |r| == |items|
    ensures forall i :: 0 <= i < |items| ==> r[i].colorId == items[i].colorId
  {
    seq(|items|, i requires 0 <= i < |items| =>
      if last.Some? && items[i].colorId == last.value.found.colorId then last.value.found
      else if i == index then items[i].(color := "red")
      else items[i])
  }

  /**
   * The `if (found)` part of `onClickCanvas` for a decoded index. When
   * `items[index]` is undefined (or there is no index) the session stays as it
   * was; otherwise only `items` and `lastClicked` change, the list keeps its
   * length and its colour ids, and the clicked item as it was before the
   * update becomes `lastClicked.found`.
   */
  function Select(s: Session, at: Point, index: Option<nat>): (r: Session)
    ensures !(index.Some? && index.value < |s.items|) ==> r == s
    ensures index.Some? && index.value < |s.items| ==>
      && |r.items| == |s.items|
      && (forall i :: 0 <= i < |s.items| ==> r.items[i].colorId == s.items[i].colorId)
      && r.lastClicked == Some(Clicked(at, s.items[index.value]))
      && r == s.(items := r.items, lastClicked := r.lastClicked)
  {
    if index.Some? && index.value < |s.items| then
      s.(items := Highlight(s.items, index.value, s.lastClicked),
         lastClicked := Some(Clicked(at, s.items[index.value])))
    else s
  }

  /** `onClickCanvas` as written: the decode cannot tell the cleared background from item 0. */
  function OnClickAsWritten(s: Session, at: Point, px: Rgba): Session {
    Select(s, at, DecodeAsWritten(px))
  }

  /** `onClickCanvas` with the background told apart by its zero alpha. */
  function OnClick(s: Session, at: Point, px: Rgba): (r: Session)
    ensures px.a == 0 ==> r == s
    ensures px.a != 0 ==> r == Select(s, at, Some(RgbIndex(px.r, px.g, px.b)))
  {
    Select(s, at, Pick(px))
  }

  // ---------------------------------------------------------------------
  // Click highlight

  /**
   * A click when no item carries the stored id (the first click of a session,
   * or one whose stored item came from a larger scene) paints exactly one item
   * red: the new list is the old one with only position k replaced by a red copy.
   */
  lemma FirstClickHighlightsOne(s: Session, at: Point, k: nat)
    requires k < |s.items|
    requires s.lastClicked.None? ||
      forall i :: 0 <= i < |s.items| ==> s.items[i].colorId != s.lastClicked.value.found.colorId
    ensures Select(s, at, Some(k)).items == s.items[k := s.items[k].(color := "red")]
  {
  }

  /**
   * In a scene with dense ids, a stored item whose id `padHex(j, 6)` lies past
   * the end of the list matches nothing: after a redraw to fewer items the
   * first click paints exactly one item red.
   */
  lemma ClickAfterShrinkHighlightsOne(s: Session, at: Point, k: nat, j: nat)
    requires DenseIds(s.items) && k < |s.items| <= j
    requires s.lastClicked.Some? && s.lastClicked.value.found.colorId == Padded(j, IdWidth)
    ensures Select(s, at, Some(k)).items == s.items[k := s.items[k].(color := "red")]
  {
    forall i | 0 <= i < |s.items|
      ensures s.items[i].colorId != s.lastClicked.value.found.colorId
    {
      if s.items[i].colorId == s.lastClicked.value.found.colorId {
        PaddedInjective(i, j, IdWidth);
      }
    }
    FirstClickHighlightsOne(s, at, k);
  }

  /**
   * In a scene with dense ids, when the previous click found item j, the new
   * list is the old one with item j restored to the stored copy and item k
   * made red; the restore wins when k == j. Nothing else changes.
   */
  lemma {:induction false} LaterClickRestoresPrevious(s: Session, at: Point, k: nat, j: nat)
    requires DenseIds(s.items) && k < |s.items| && j < |s.items|
    requires s.lastClicked.Some? && s.lastClicked.value.found.colorId == Padded(j, IdWidth)
    ensures var found := s.lastClicked.value.found;
      Select(s, at, Some(k)).items ==
        if k == j then s.items[j := found]
        else s.items[k := s.items[k].(color := "red")][j := found]
  {
    var found := s.lastClicked.value.found;
    var r := Select(s, at, Some(k)).items;
    var e := if k == j then s.items[j := found] else s.items[k := s.items[k].(color := "red")][j := found];
    forall i | 0 <= i < |s.items|
      ensures r[i] == e[i]
    {
      if s.items[i].colorId == found.colorId {
        PaddedInjective(i, j, IdWidth);
      }
    }
  }

  /**
   * As written, clicking item k twice and then item j leaves both k and j
   * red: the second click restores k but stores its red copy as
   * `lastClicked.found`, and the third click puts that red copy back.
   */
  lemma RepeatClickLeavesTwoRed(s: Session, at: Point, k: nat, j: nat)
    requires DenseIds(s.items) && s.lastClicked.None?
    requires k < |s.items| && j < |s.items| && k != j
    ensures var s3 := Select(Select(Select(s, at, Some(k)), at, Some(k)), at, Some(j));
      s3.items[k].color == "red" && s3.items[j].color == "red"
  {
  }

  /**
   * `lastClicked` survives `drawRandom`: after a redraw the first click puts
   * the item found in the previous scene back at its index, replacing the new
   * scene's item there.
   */
  lemma ClickAfterRedrawRestoresStaleItem(s: Session, items: seq<Item>, at: Point, k: nat, j: nat)
    requires DenseIds(items) && k < |items| && j < |items| && k != j
    requires s.lastClicked.Some? && s.lastClicked.value.found.colorId == Padded(j, IdWidth)
    ensures Select(Redraw(s, items), at, Some(k)).items[j] == s.lastClicked.value.found
  {
  }

  /** Every handler keeps item k's colour id `padHex(k, 6)`, so hit colours stay unique for the session. */
  lemma HandlersKeepDenseIds(s: Session, at: Point, px: Rgba, client: Point, device: Point, deltaY: real)
    requires DenseIds(s.items)
    ensures DenseIds(OnClick(s, at, px).items) && DenseIds(OnClickAsWritten(s, at, px).items)
    ensures DenseIds(OnMouseDown(s, client).items) && DenseIds(OnMouseMove(s, client, device).items)
    ensures DenseIds(OnMouseUp(s).items) && DenseIds(OnWheel(s, deltaY).items)
  {
  }

  // ---------------------------------------------------------------------
  // Hit test to highlight

  /**
   * After the render of a dense scene, clicking pixel (x, y) highlights the
   * topmost item under it, and clicking where no item is drawn (or outside
   * the canvas) changes nothing.
   */
  lemma ClickTargetsTopmost(s: Session, hit: array2<Rgba>, at: Point)
    requires Rendered(hit, s.items, ViewOf(s))
    requires DenseIds(s.items) && |s.items| <= Pow(16, IdWidth)
    ensures OnClick(s, at, PixelAt(hit, at.x, at.y)) ==
      var inside := 0 <= at.y < hit.Length0 && 0 <= at.x < hit.Length1;
      Select(s, at, if inside then Topmost(s.items, ViewOf(s), at.x, at.y) else None)
  {
    RenderedPixelDecodes(s.items, ViewOf(s), at.x, at.y);
    ClearedDecodesToZero();
  }

  /**
   * As written, a click on the cleared background of a non-empty scene
   * decodes to index 0: item 0 turns red and is recorded as the last click.
   */
  lemma BackgroundClickSelectsItemZero(s: Session, at: Point)
    requires |s.items| > 0 && s.lastClicked.None?
    ensures OnClickAsWritten(s, at, TransparentBlack).items[0] == s.items[0].(color := "red")
    ensures OnClickAsWritten(s, at, TransparentBlack).lastClicked == Some(Clicked(at, s.items[0]))
  {
    ClearedDecodesToZero();
  }

  // ---------------------------------------------------------------------
  // Pan

  /** A drag is absolute: after pressing at p, every move to q sets translate = old translate + (q - p), so returning to p restores it. */
  lemma DragIsAbsolute(s: Session, p: Point, q: Point, q': Point, d: Point, d': Point)
    ensures OnMouseMove(OnMouseDown(s, p), q, d).translatePos ==
      Point(s.translatePos.x + q.x - p.x, s.translatePos.y + q.y - p.y)
    ensures OnMouseMove(OnMouseMove(OnMouseDown(s, p), q', d'), q, d).translatePos ==
      Point(s.translatePos.x + q.x - p.x, s.translatePos.y + q.y - p.y)
    ensures OnMouseMove(OnMouseMove(OnMouseDown(s, p), q', d'), p, d).translatePos == s.translatePos
  {
  }

  /** With the button up a move only records the pointer; after `onMouseUp` moves no longer pan. */
  lemma MoveWithoutButton(s: Session, q: Point, d: Point)
    ensures !s.mouseDown ==> OnMouseMove(s, q, d) == s.(currentCoords := Some(d))
    ensures OnMouseMove(OnMouseUp(s), q, d) == s.(mouseDown := false, currentCoords := Some(d))
  {
  }

  // ---------------------------------------------------------------------
  // Zoom

  /**
   * `onMinus` multiplies the scale by 0.8 and `onPlus` divides by it; one
   * undoes the other, the wheel picks between them by the sign of `deltaY`,
   * and neither touches the items, the translate or the drag state.
   */
  lemma ZoomSteps(s: Session, deltaY: real)
    ensures ScaleCanvas(OnMinus(s).zoom) == ScaleCanvas(s.zoom) * 0.8
    ensures ScaleCanvas(OnPlus(s).zoom) == ScaleCanvas(s.zoom) / 0.8
    ensures OnPlus(OnMinus(s)) == s && OnMinus(OnPlus(s)) == s
    ensures OnWheel(s, deltaY) == (if deltaY > 0.0 then OnMinus(s) else OnPlus(s))
    ensures OnWheel(s, deltaY) == s.(zoom := OnWheel(s, deltaY).zoom)
  {
    ScaleModel(s.zoom);
  }

  // ---------------------------------------------------------------------
  // The drag move as written

  /** A translate coordinate pair that is finite or NaN. */
  datatype Coord = Finite(p: Point) | NaN

  /**
   * `e.clientX - startDragOffset?.x ?? 0` parses as
   * `(e.clientX - startDragOffset?.x) ?? 0`: with no anchor the subtraction
   * gives NaN, which `??` keeps.
   */
  function DragTranslateAsWritten(client: Point, offset: Option<Point>): Coord {
    match offset
    case Some(o) => Finite(client.Minus(o))
    case None => NaN
  }

  /**
   * The translate `onMouseMoveCanvas` sets as written: it agrees with
   * `OnMouseMove` except when the button is down with no anchor, where it is NaN.
   */
  function OnMouseMoveAsWritten(s: Session, client: Point, device: Point): (t: Coord)
    ensures t == NaN <==> s.mouseDown && s.startDragOffset.None?
    ensures t.Finite? ==> t.p == OnMouseMove(s, client, device).translatePos
  {
    if s.mouseDown then DragTranslateAsWritten(client, s.startDragOffset) else Finite(s.translatePos)
  }

  /**
   * As written: the two readings agree whenever there is an anchor, but
   * pressing on the canvas, releasing elsewhere and redrawing leaves the
   * button state down with no anchor, and the next move yields NaN.
   */
  lemma StaleDragYieldsNaN(s: Session, p: Point, items: seq<Item>, q: Point, d: Point)
    ensures forall o: Point :: DragTranslateAsWritten(q, Some(o)) == Finite(DragTranslate(q, Some(o)))
    ensures var s' := Redraw(OnMouseDown(s, p), items);
      && s'.mouseDown && s'.startDragOffset.None?
      && OnMouseMoveAsWritten(s', q, d) == NaN
  {
  }

  /**
   * With the anchor defaulting to 0, the same sequence moves the translate to
   * the pointer position, a finite value from which later drags work again.
   */
  lemma StaleDragFollowsPointer(s: Session, p: Point, items: seq<Item>, q: Point, d: Point, q': Point, d': Point)
    ensures var s' := OnMouseMove(Redraw(OnMouseDown(s, p), items), q, d);
      && s'.translatePos == q
      && OnMouseMove(OnMouseDown(s', q'), q', d').translatePos == q
  {
  }
}
