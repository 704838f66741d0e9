/**
 * Scene generation: `generateItem` and the list of items it builds. Each
 * `Math.random()` result is an oracle input, a real in [0, 1).
 */
module Scene {
  import opened Basics
  import opened HexCodec

  /** The display palette `colors`. */
  const Palette: seq<string> := ["blue", "green", "black", "gray", "cyan"]
  /** `getRandomUpTo(20)` bounds every radius. */
  const MaxRadius: nat := 20
  /** Width of a colour id in hex digits: `padHex(index, 6)`. */
  const IdWidth: nat := 6

  /**
   * One shape record: display `color`, the path call `fn` and its arguments
   * `fnArgs` = [x, y, radius, startAngle, endAngle], and the hit colour id.
   * Angles are stored in multiples of pi, so a full turn 2*Math.PI is 2.0.
   */
  datatype Item = Item(
    color: string,
    fn: string,
    x: int,
    y: int,
    radius: int,
    startAngle: real,
    endAngle: real,
    colorId: string)

  /** The four `Math.random()` results one `generateItem` call consumes, in evaluation order. */
  datatype Draws = Draws(colour: real, x: real, y: real, radius: real)

  predicate IsUnit(u: real) {
    0.0 <= u < 1.0
  }

  predicate ValidDraw(d: Draws) {
    IsUnit(d.colour) && IsUnit(d.x) && IsUnit(d.y) && IsUnit(d.radius)
  }

  predicate ValidDraws(rand: seq<Draws>) {
    forall k :: 0 <= k < |rand| ==> ValidDraw(rand[k])
  }

  /** `getRandomUpTo(to)` = `Math.floor(Math.random() * to)`: an integer in [0, to), or 0 when `to` is 0. */
  function RandomUpTo(u: real, to: nat): (r: int)
    requires IsUnit(u)
    ensures 0 <= r
    ensures to > 0 ==> r < to
    ensures to == 0 ==> r == 0
  {
    var v := u * to as real;
    assert 0.0 <= v <= to as real;
    assert to > 0 ==> v < to as real;
    v.Floor
  }

  /** `getRandomColor()`: a palette entry picked by one random draw. */
  function RandomColour(u: real): (c: string)
    requires IsUnit(u)
    ensures c in Palette
  {
    Palette[RandomUpTo(u, |Palette|)]
  }

  /** What every generated item satisfies within a `width` x `height` canvas. */
  predicate WellFormed(item: Item, width: nat, height: nat) {
    && item.color in Palette
    && item.fn == "arc"
    && 0 <= item.x && (width > 0 ==> item.x < width)
    && 0 <= item.y && (height > 0 ==> item.y < height)
    && 0 <= item.radius < MaxRadius
    && item.startAngle == 0.0 && item.endAngle == 2.0
  }

  /** `generateItem(width, height, index)`: random colour, centre and radius; colour id `padHex(index, 6)`. */
  function GenerateItem(width: nat, height: nat, index: nat, d: Draws): (item: Item)
    requires ValidDraw(d)
    ensures WellFormed(item, width, height)
    ensures item.colorId == Padded(index, IdWidth)
  {
    Item(
      RandomColour(d.colour),
      "arc",
      RandomUpTo(d.x, width),
      RandomUpTo(d.y, height),
      RandomUpTo(d.radius, MaxRadius),
      0.0,
      2.0,
      Padded(index, IdWidth))
  }

  /** Item `k` carries the colour id `padHex(k, 6)`. */
  predicate DenseIds(items: seq<Item>) {
    forall k :: 0 <= k < |items| ==> items[k].colorId == Padded(k, IdWidth)
  }

  /**
   * The scene of `count` items generated for indices 0, 1, ..., as
   * `initialItems` builds it with `map`; item `k` uses the draws `rand[k]`.
   */
  function GenerateScene(count: int, width: nat, height: nat, rand: seq<Draws>): (items: seq<Item>)
    requires Max0(count) <= |rand| && ValidDraws(rand)
    ensures |items| == Max0(count)
    ensures DenseIds(items)
    ensures forall k :: 0 <= k < |items| ==> WellFormed(items[k], width, height)
  {
    seq(Max0(count), k requires 0 <= k < Max0(count) => GenerateItem(width, height, k, rand[k]))
  }

  /**
   * Hit colours are unique in a scene whose ids are dense: no two items share
   * a colour id, and with at most 16^6 items every id is exactly six digits.
   */
  lemma DenseIdsUnique(items: seq<Item>)
    requires DenseIds(items)
    ensures forall i, j :: 0 <= i < |items| && 0 <= j < |items| && items[i].colorId == items[j].colorId ==> i == j
    ensures |items| <= Pow(16, IdWidth) ==> forall k :: 0 <= k < |items| ==> |items[k].colorId| == IdWidth
  {
    forall i, j | 0 <= i < |items| && 0 <= j < |items| && items[i].colorId == items[j].colorId
      ensures i == j
    {
      PaddedInjective(i, j, IdWidth);
    }
    if |items| <= Pow(16, IdWidth) {
      forall k | 0 <= k < |items|
        ensures |items[k].colorId| == IdWidth
      {
        PaddedWidth(k, IdWidth);
      }
    }
  }
}
