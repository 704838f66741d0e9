/**
 * The render effect and the hit lookup. Both rasters are 2D arrays indexed
 * [row, column] = [y, x]; painting one item is an in-place write of every
 * pixel the item covers (painter's algorithm: later items overwrite).
 */
module Raster {
  import opened Basics
  import opened HexCodec
  import opened Scene

  /** The camera: `translatePos` and the zoom exponent; `scaleCanvas` is 0.8^(-zoom). */
  datatype View = View(translate: Point, zoom: int)

  /** A pixel of the visible canvas: cleared, or filled with a display colour name. */
  datatype Shade = Transparent | Solid(colour: string)

  function RealPow(b: real, e: nat): real {
    if e == 0 then 1.0 else b * RealPow(b, e - 1)
  }

  /** `scaleCanvas` after `zoom` net zoom-in steps from 1.0: each `onPlus` divides by 0.8, each `onMinus` multiplies by it. */
  function ScaleCanvas(zoom: int): real {
    if zoom >= 0 then RealPow(1.25, zoom) else RealPow(0.8, -zoom)
  }

  /** `ScaleCanvas(zoom)` as the exact fraction ScaleNum / ScaleDen. */
  function ScaleNum(zoom: int): nat {
    if zoom >= 0 then Pow(5, zoom) else Pow(4, -zoom)
  }

  function ScaleDen(zoom: int): nat {
    if zoom >= 0 then Pow(4, zoom) else Pow(5, -zoom)
  }

  lemma {:induction false} PowRatio(e: nat)
    ensures Pow(4, e) > 0 && Pow(5, e) > 0
    ensures RealPow(1.25, e) * Pow(4, e) as real == Pow(5, e) as real
    ensures RealPow(0.8, e) * Pow(5, e) as real == Pow(4, e) as real
  {
    if e > 0 {
      PowRatio(e - 1);
      var f, v := Pow(4, e - 1) as real, Pow(5, e - 1) as real;
      assert Pow(4, e) as real == 4.0 * f && Pow(5, e) as real == 5.0 * v;
      Regroup(1.25, RealPow(1.25, e - 1), 4.0, f);
      Regroup(0.8, RealPow(0.8, e - 1), 5.0, v);
    }
  }

  lemma Regroup(a: real, x: real, b: real, y: real)
    ensures (a * x) * (b * y) == (a * b) * (x * y)
  {
  }

  /**
   * The integer coverage test is the disc under the real scale: the fraction
   * it uses is `ScaleCanvas`, and one zoom step changes that scale by exactly
   * the multiplier 0.8.
   */
  lemma ScaleModel(zoom: int)
    ensures ScaleDen(zoom) > 0
    ensures ScaleCanvas(zoom) * ScaleDen(zoom) as real == ScaleNum(zoom) as real
    ensures ScaleCanvas(zoom - 1) == ScaleCanvas(zoom) * 0.8
    ensures ScaleCanvas(zoom + 1) == ScaleCanvas(zoom) / 0.8
  {
    ScaleFraction(zoom);
    StepDown(zoom);
    StepDown(zoom + 1);
  }

  lemma ScaleFraction(zoom: int)
    ensures ScaleDen(zoom) > 0 && ScaleCanvas(zoom) * ScaleDen(zoom) as real == ScaleNum(zoom) as real
  {
    if zoom >= 0 {
      PowRatio(zoom);
    } else {
      PowRatio(-zoom);
    }
  }

  lemma StepDown(zoom: int)
    ensures ScaleCanvas(zoom - 1) == ScaleCanvas(zoom) * 0.8
  {
    if zoom >= 1 {
      assert ScaleCanvas(zoom) == 1.25 * RealPow(1.25, zoom - 1);
    } else {
      assert ScaleCanvas(zoom - 1) == 0.8 * RealPow(0.8, -zoom);
    }
  }

  /**
   * Whether the item's full-turn arc, drawn under `translate(t)` then
   * `scale(s)`, covers device pixel (x, y): the pixel centre (x + 1/2, y + 1/2)
   * lies strictly inside the disc of radius s * r around t + s * c. Both sides
   * are multiplied by 2 * ScaleDen to stay in integers.
   */
  predicate Covers(item: Item, view: View, x: int, y: int) {
    var num, den := ScaleNum(view.zoom), ScaleDen(view.zoom);
    IntDisc(IntOffset(num, den, x, view.translate.x, item.x), IntOffset(num, den, y, view.translate.y, item.y),
      2 * num * item.radius)
  }

  /** Twice den times the offset of pixel centre p + 1/2 from t + (num / den) * c along one axis. */
  function IntOffset(num: int, den: int, p: int, t: int, c: int): int {
    den * (2 * p + 1 - 2 * t) - 2 * num * c
  }

  predicate IntDisc(dx: int, dy: int, r: int) {
    dx * dx + dy * dy < r * r
  }

  /**
   * The coverage test in the real plane the canvas works in: under
   * `translate(t)` then `scale(s, s)` the pixel centre lies strictly inside
   * the disc of radius s * r around t + s * c.
   */
  ghost predicate InScaledDisc(item: Item, t: Point, s: real, x: int, y: int) {
    RealDisc(RealOffset(s, x, t.x, item.x), RealOffset(s, y, t.y, item.y), s * item.radius as real)
  }

  /** The offset of pixel centre p + 1/2 from t + s * c along one axis. */
  ghost function RealOffset(s: real, p: int, t: int, c: int): real {
    (p as real + 0.5) - t as real - s * c as real
  }

  ghost predicate RealDisc(a: real, b: real, r: real) {
    a * a + b * b < r * r
  }

  /** The integer test `Covers` decides exactly the real disc test at scale `scaleCanvas`. */
  lemma CoversIsScaledDisc(item: Item, view: View, x: int, y: int)
    ensures Covers(item, view, x, y) <==> InScaledDisc(item, view.translate, ScaleCanvas(view.zoom), x, y)
  {
    ScaleFraction(view.zoom);
    DiscAtScale(ScaleNum(view.zoom), ScaleDen(view.zoom), ScaleCanvas(view.zoom), view.translate, item, x, y);
  }

  /** The integer disc test with scale num / den decides the real test at scale s = num / den. */
  lemma DiscAtScale(num: int, den: int, s: real, t: Point, item: Item, x: int, y: int)
    requires den > 0 && s * den as real == num as real
    ensures IntDisc(IntOffset(num, den, x, t.x, item.x), IntOffset(num, den, y, t.y, item.y), 2 * num * item.radius)
      <==> InScaledDisc(item, t, s, x, y)
  {
    ScaledOffset(den, num, s, x, t.x, item.x);
    ScaledOffset(den, num, s, y, t.y, item.y);
    ScaledRadius(den, num, s, item.radius);
    CompareScaled(IntOffset(num, den, x, t.x, item.x), IntOffset(num, den, y, t.y, item.y),
      2 * num * item.radius, 2.0 * den as real,
      RealOffset(s, x, t.x, item.x), RealOffset(s, y, t.y, item.y), s * item.radius as real);
  }

  lemma CastMul(a: int, b: int)
    ensures (a * b) as real == (a as real) * (b as real)
  {
  }

  /** One axis of the integer test is the real offset times 2 * den. */
  lemma ScaledOffset(den: int, num: int, s: real, p: int, t: int, c: int)
    requires s * den as real == num as real
    ensures IntOffset(num, den, p, t, c) as real == 2.0 * den as real * RealOffset(s, p, t, c)
  {
    CastMul(den, 2 * p + 1 - 2 * t);
    CastMul(2 * num, c);
    assert (s * den as real) * c as real == num as real * c as real;
  }

  lemma ScaledRadius(den: int, num: int, s: real, r: int)
    requires s * den as real == num as real
    ensures (2 * num * r) as real == 2.0 * den as real * (s * r as real)
  {
    CastMul(2 * num, r);
    assert (s * den as real) * r as real == num as real * r as real;
  }

  lemma IntSquares(a: int, b: int, c: int)
    ensures IntDisc(a, b, c) <==> RealDisc(a as real, b as real, c as real)
  {
    CastMul(a, a);
    CastMul(b, b);
    CastMul(c, c);
  }

  lemma SquareScale(k: real, a: real, b: real, c: real)
    requires k > 0.0
    ensures RealDisc(k * a, k * b, k * c) <==> RealDisc(a, b, c)
  {
    assert (k * a) * (k * a) + (k * b) * (k * b) == (k * k) * (a * a + b * b);
    assert (k * c) * (k * c) == (k * k) * (c * c);
  }

  /** A disc test in integers scaled by k > 0 decides the unscaled test. */
  lemma CompareScaled(dx: int, dy: int, ri: int, k: real, a: real, b: real, c: real)
    requires k > 0.0 && dx as real == k * a && dy as real == k * b && ri as real == k * c
    ensures IntDisc(dx, dy, ri) <==> RealDisc(a, b, c)
  {
    IntSquares(dx, dy, ri);
    SquareScale(k, a, b, c);
  }

  /**
   * The hit context's fill colour after the `fillStyle = '#' + colorId`
   * assignments of `items`, in order. Each render starts from the default
   * '#000000' (the effect brackets its drawing with save/restore); an id that
   * is not a `#rrggbb` colour leaves the previous fill in place.
   */
  function FillAfter(items: seq<Item>): Rgb {
    if items == [] then Rgb(0, 0, 0)
    else
      match ParseHexColour("#" + items[|items| - 1].colorId)
      case Some(c) => c
      case None => FillAfter(items[..|items| - 1])
  }

  /** Hit-buffer pixel (x, y) after clearing and painting `items` in order. */
  function HitAt(items: seq<Item>, view: View, x: int, y: int): (px: Rgba)
    ensures px == TransparentBlack <==> forall k :: 0 <= k < |items| ==> !Covers(items[k], view, x, y)
  {
    if items == [] then TransparentBlack
    else if Covers(items[|items| - 1], view, x, y) then Opaque(FillAfter(items))
    else HitAt(items[..|items| - 1], view, x, y)
  }

  /** Visible-canvas pixel (x, y) after clearing and painting `items` in order. */
  function VisibleAt(items: seq<Item>, view: View, x: int, y: int): (px: Shade)
    ensures px == Transparent <==> forall k :: 0 <= k < |items| ==> !Covers(items[k], view, x, y)
  {
    if items == [] then Transparent
    else if Covers(items[|items| - 1], view, x, y) then Solid(items[|items| - 1].color)
    else VisibleAt(items[..|items| - 1], view, x, y)
  }

  /** The index of the last item covering pixel (x, y). */
  function Topmost(items: seq<Item>, view: View, x: int, y: int): (r: Option<nat>)
    ensures r.Some? ==> r.value < |items|
  {
    if items == [] then None
    else if Covers(items[|items| - 1], view, x, y) then Some(|items| - 1)
    else Topmost(items[..|items| - 1], view, x, y)
  }

  /** Topmost names the highest-index item covering the pixel, and is None exactly when none covers it. */
  lemma {:induction false} TopmostIsHighest(items: seq<Item>, view: View, x: int, y: int)
    ensures Topmost(items, view, x, y).None? <==> forall k :: 0 <= k < |items| ==> !Covers(items[k], view, x, y)
    ensures forall k: nat :: Topmost(items, view, x, y) == Some(k) <==>
      (k < |items| && Covers(items[k], view, x, y) && forall j :: k < j < |items| ==> !Covers(items[j], view, x, y))
  {
    if items != [] {
      var p := items[..|items| - 1];
      TopmostIsHighest(p, view, x, y);
      assert forall k :: 0 <= k < |p| ==> p[k] == items[k];
    }
  }

  /**
   * Both rasters are decided by the same topmost item: the visible pixel shows
   * its display colour and the hit pixel the fill in force when it was painted;
   * a pixel no item covers stays cleared in both.
   */
  lemma {:induction false} PixelsFollowTopmost(items: seq<Item>, view: View, x: int, y: int)
    ensures HitAt(items, view, x, y) ==
      match Topmost(items, view, x, y)
      case None => TransparentBlack
      case Some(k) => Opaque(FillAfter(items[..k + 1]))
    ensures VisibleAt(items, view, x, y) ==
      match Topmost(items, view, x, y)
      case None => Transparent
      case Some(k) => Solid(items[k].color)
  {
    if items != [] {
      var n := |items|;
      var p := items[..n - 1];
      if Covers(items[n - 1], view, x, y) {
        assert items[..n] == items;
      } else {
        PixelsFollowTopmost(p, view, x, y);
        match Topmost(p, view, x, y)
        case None =>
        case Some(k) =>
          assert p[..k + 1] == items[..k + 1];
      }
    }
  }

  /**
   * In a scene whose ids are dense and six digits wide, the hit pixel holds
   * exactly the colour of the topmost covering item: the background-aware
   * decode returns that item's index or None, and the decode as written
   * returns that index or 0 for an uncovered pixel.
   */
  lemma RenderedPixelDecodes(items: seq<Item>, view: View, x: int, y: int)
    requires DenseIds(items) && |items| <= Pow(16, IdWidth)
    ensures Pick(HitAt(items, view, x, y)) == Topmost(items, view, x, y)
    ensures DecodeAsWritten(HitAt(items, view, x, y)) == Some(Topmost(items, view, x, y).GetOr(0))
  {
    PixelsFollowTopmost(items, view, x, y);
    match Topmost(items, view, x, y)
    case None =>
      ClearedDecodesToZero();
    case Some(k) =>
      FillIsOwnId(items, k);
      DecodeNeverNaN(Opaque(FillAfter(items[..k + 1])));
  }

  /**
   * In a scene with dense ids and at most 16^6 items, the fill in force when
   * item k is painted is the colour whose three bytes spell k: its own id.
   */
  lemma FillIsOwnId(items: seq<Item>, k: nat)
    requires DenseIds(items) && |items| <= Pow(16, IdWidth) && k < |items|
    ensures var c := FillAfter(items[..k + 1]); RgbIndex(c.r, c.g, c.b) == k
  {
    EncodePaintDecode(k);
    var s := items[..k + 1];
    assert s[|s| - 1] == items[k];
  }

  /**
   * The visible canvas agrees with the hit test: where the pick finds item k
   * the visible pixel shows item k's display colour, and where it finds
   * nothing the visible pixel is cleared.
   */
  lemma PickMatchesVisible(items: seq<Item>, view: View, x: int, y: int)
    requires DenseIds(items) && |items| <= Pow(16, IdWidth)
    ensures match Pick(HitAt(items, view, x, y))
      case None => VisibleAt(items, view, x, y) == Transparent
      case Some(k) => k < |items| && VisibleAt(items, view, x, y) == Solid(items[k].color)
  {
    RenderedPixelDecodes(items, view, x, y);
    PixelsFollowTopmost(items, view, x, y);
  }

  /** `clearRect` over the whole canvas. */
  method ClearAll<T>(a: array2<T>, v: T)
    modifies a
    ensures forall r, c :: 0 <= r < a.Length0 && 0 <= c < a.Length1 ==> a[r, c] == v
  {
    for r := 0 to a.Length0
      invariant forall r', c :: 0 <= r' < a.Length0 && 0 <= c < a.Length1 ==>
        a[r', c] == (if r' < r then v else old(a[r', c]))
    {
      for c := 0 to a.Length1
        invariant forall r', c' :: 0 <= r' < a.Length0 && 0 <= c' < a.Length1 ==>
          a[r', c'] == (if r' < r || (r' == r && c' < c) then v else old(a[r', c']))
      {
        a[r, c] := v;
      }
    }
  }

  /** `beginPath(); arc(...fnArgs); fill()` with fill value `v`: every covered pixel becomes `v`, the others keep their value. */
  method PaintDisc<T>(a: array2<T>, item: Item, view: View, v: T)
    modifies a
    ensures forall r, c :: 0 <= r < a.Length0 && 0 <= c < a.Length1 ==>
      a[r, c] == (if Covers(item, view, c, r) then v else old(a[r, c]))
  {
    for r := 0 to a.Length0
      invariant forall r', c :: 0 <= r' < a.Length0 && 0 <= c < a.Length1 ==>
        a[r', c] == (if r' < r && Covers(item, view, c, r') then v else old(a[r', c]))
    {
      for c := 0 to a.Length1
        invariant forall r', c' :: 0 <= r' < a.Length0 && 0 <= c' < a.Length1 ==>
          a[r', c'] == (if (r' < r || (r' == r && c' < c)) && Covers(item, view, c', r') then v else old(a[r', c']))
      {
        if Covers(item, view, c, r) {
          a[r, c] := v;
        }
      }
    }
  }

  /**
   * The render effect: clear both canvases, apply the same translate and scale
   * to both, then for each item in order fill its arc with its display colour
   * on the visible canvas and with '#' + colorId on the hit canvas.
   */
  method Render(vis: array2<Shade>, hit: array2<Rgba>, items: seq<Item>, view: View)
    modifies vis, hit
    ensures forall r, c :: 0 <= r < vis.Length0 && 0 <= c < vis.Length1 ==> vis[r, c] == VisibleAt(items, view, c, r)
    ensures forall r, c :: 0 <= r < hit.Length0 && 0 <= c < hit.Length1 ==> hit[r, c] == HitAt(items, view, c, r)
  {
    ClearAll(vis, Transparent);
    ClearAll(hit, TransparentBlack);
    var fill := Rgb(0, 0, 0);
    for i := 0 to |items|
      invariant fill == FillAfter(items[..i])
      invariant forall r, c :: 0 <= r < vis.Length0 && 0 <= c < vis.Length1 ==> vis[r, c] == VisibleAt(items[..i], view, c, r)
      invariant forall r, c :: 0 <= r < hit.Length0 && 0 <= c < hit.Length1 ==> hit[r, c] == HitAt(items[..i], view, c, r)
    {
      var item := items[i];
      assert items[..i + 1][..i] == items[..i];
      PaintDisc(vis, item, view, Solid(item.color));
      match ParseHexColour("#" + item.colorId) {
        case Some(c) => fill := c;
        case None =>
      }
      PaintDisc(hit, item, view, Opaque(fill));
    }
    assert items[..|items|] == items;
  }

  /** `getImageData(x, y, 1, 1)`: the pixel, or transparent black outside the canvas. */
  function PixelAt(hit: array2<Rgba>, x: int, y: int): Rgba
    reads hit
  {
    if 0 <= y < hit.Length0 && 0 <= x < hit.Length1 then hit[y, x] else TransparentBlack
  }

  ghost predicate Rendered(hit: array2<Rgba>, items: seq<Item>, view: View)
    reads hit
  {
    forall r, c :: 0 <= r < hit.Length0 && 0 <= c < hit.Length1 ==> hit[r, c] == HitAt(items, view, c, r)
  }

  /**
   * The O(1) hit test: one pixel read and a decode. On a rendered hit buffer
   * of a dense scene it returns the topmost item under the pixel, and None for
   * the background or a point outside the canvas.
   */
  method HitTest(hit: array2<Rgba>, ghost items: seq<Item>, ghost view: View, x: int, y: int) returns (index: Option<nat>)
    requires Rendered(hit, items, view)
    requires DenseIds(items) && |items| <= Pow(16, IdWidth)
    ensures 0 <= y < hit.Length0 && 0 <= x < hit.Length1 ==> index == Topmost(items, view, x, y)
    ensures !(0 <= y < hit.Length0 && 0 <= x < hit.Length1) ==> index == None
  {
    index := Pick(PixelAt(hit, x, y));
    RenderedPixelDecodes(items, view, x, y);
  }
}
