/**
 * A sprite ("icon"): an RGBA image with a binary transparency mask derived
 * once from three per-channel colour ranges, a top-left position that moves
 * one pixel per tick, and a facing that mirrors the sprite when it is
 * painted.
 */
module Icons {
  import opened Raster

  // ---------------------------------------------------------------------
  // Transparency mask
  // ---------------------------------------------------------------------

  /** An inclusive channel range, the pair `(low, high)`. */
  datatype Range = Range(lo: int, hi: int) {
    predicate Contains(v: int) {
      lo <= v && v <= hi
    }
  }

  /** The red, green and blue ranges whose common colours become transparent. */
  datatype TransparencyRule = TransparencyRule(red: Range, green: Range, blue: Range)

  /** Colour `p` is transparent under `rule`: all three of R, G and B lie in their ranges. */
  predicate InRule(p: Pixel, rule: TransparencyRule) {
    rule.red.Contains(p.r) && rule.green.Contains(p.g) && rule.blue.Contains(p.b)
  }

  /** The mask value of one pixel. */
  function Classify(p: Pixel, rule: TransparencyRule): MaskValue {
    if InRule(p, rule) then Transparent else Opaque
  }

  /** The mask as a grid: one value per pixel, in place. */
  function MaskOf(image: Grid<Pixel>, rule: TransparencyRule): (mask: Grid<MaskValue>)
    ensures SameShape(mask, image)
  {
    seq(|image|, i requires 0 <= i < |image| => seq(|image[i]|, j requires 0 <= j < |image[i]| => Classify(image[i][j], rule)))
  }

  /** The pixels of a grid in row-major order (the imaging library's `getdata`):
      every pixel of the grid appears in it. */
  function Flatten<T>(g: Grid<T>): (r: seq<T>)
    ensures forall i, j :: InGrid(g, i, j) ==> g[i][j] in r
  {
    if |g| == 0 then [] else g[0] + Flatten(g[1..])
  }

  /** One more row of `width` adds `width` entries. */
  lemma MulStep(width: nat, height: nat)
    requires height > 0
    ensures width * height == width + width * (height - 1)
  {
  }

  /** A `width` by `height` grid has `width * height` pixels. */
  lemma {:induction false} FlattenLength<T>(g: Grid<T>, width: nat, height: nat)
    requires IsRect(g, width, height)
    ensures |Flatten(g)| == width * height
  {
    if height > 0 {
      FlattenLength(g[1..], width, height - 1);
      MulStep(width, height);
    }
  }

  /** A row-major sequence cut into `height` rows of `width` (the imaging
      library's `putdata` into an image of that size). */
  function PutData<T>(data: seq<T>, width: nat, height: nat): (g: Grid<T>)
    requires |data| == width * height
    ensures IsRect(g, width, height)
    decreases height
  {
    if height == 0 then []
    else
      MulStep(width, height);
      [data[..width]] + PutData(data[width..], width, height - 1)
  }

  /** Writing back the pixels read out of a grid rebuilds the grid. */
  lemma {:induction false} PutDataFlatten<T>(g: Grid<T>, width: nat, height: nat)
    requires IsRect(g, width, height)
    ensures |Flatten(g)| == width * height
    ensures PutData(Flatten(g), width, height) == g
  {
    FlattenLength(g, width, height);
    if height > 0 {
      var data := Flatten(g);
      assert data == g[0] + Flatten(g[1..]);
      assert data[..width] == g[0];
      assert data[width..] == Flatten(g[1..]);
      PutDataFlatten(g[1..], width, height - 1);
      assert g == [g[0]] + g[1..];
    }
  }

  /** Each pixel of a sequence classified in place. */
  function ClassifyAll(data: seq<Pixel>, rule: TransparencyRule): (m: seq<MaskValue>)
    ensures |m| == |data|
  {
    seq(|data|, k requires 0 <= k < |data| => Classify(data[k], rule))
  }

  /** Reading out a grid's mask gives the classified pixels, in the same order. */
  lemma {:induction false} FlattenMaskOf(g: Grid<Pixel>, rule: TransparencyRule)
    ensures Flatten(MaskOf(g, rule)) == ClassifyAll(Flatten(g), rule)
  {
    if |g| > 0 {
      var m := MaskOf(g, rule);
      assert m[1..] == MaskOf(g[1..], rule);
      FlattenMaskOf(g[1..], rule);
      assert ClassifyAll(Flatten(g), rule) == ClassifyAll(g[0], rule) + ClassifyAll(Flatten(g[1..]), rule);
    }
  }

  /** The construction loop: one mask value appended per pixel, in order. */
  method MaskData(data: seq<Pixel>, rule: TransparencyRule) returns (maskData: seq<MaskValue>)
    ensures |maskData| == |data|
    ensures forall k :: 0 <= k < |data| ==> (maskData[k] == Transparent <==> InRule(data[k], rule))
  {
    maskData := [];
    for k := 0 to |data|
      invariant |maskData| == k
      invariant forall m :: 0 <= m < k ==> maskData[m] == Classify(data[m], rule)
    {
      if InRule(data[k], rule) {
        maskData := maskData + [Transparent];
      } else {
        maskData := maskData + [Opaque];
      }
    }
  }

  /**
   * The mask of an `xSize` by `ySize` image, built as the constructor builds
   * it: read the pixels in row-major order, classify each, and write the
   * values back into a grid of the same size.
   */
  method DeriveMask(image: Grid<Pixel>, rule: TransparencyRule, xSize: nat, ySize: nat)
    returns (mask: Grid<MaskValue>)
    requires IsRect(image, xSize, ySize)
    ensures IsRect(mask, xSize, ySize)
    ensures forall i, j :: 0 <= i < ySize && 0 <= j < xSize ==>
      (mask[i][j] == Transparent <==> InRule(image[i][j], rule))
    ensures mask == MaskOf(image, rule)
  {
    var data := Flatten(image);
    var maskData := MaskData(data, rule);
    assert maskData == ClassifyAll(data, rule);
    FlattenMaskOf(image, rule);
    PutDataFlatten(MaskOf(image, rule), xSize, ySize);
    mask := PutData(maskData, xSize, ySize);
  }

  /** A mask value depends on its own pixel's red, green and blue only: not
      on alpha, not on any neighbour. */
  lemma MaskIsPerPixel(image: Grid<Pixel>, other: Grid<Pixel>, rule: TransparencyRule, i: int, j: int)
    requires InGrid(image, i, j) && InGrid(other, i, j)
    requires image[i][j].r == other[i][j].r && image[i][j].g == other[i][j].g && image[i][j].b == other[i][j].b
    ensures MaskOf(image, rule)[i][j] == MaskOf(other, rule)[i][j]
  {
  }

  /** Deriving the mask of a mirrored image gives the mirrored mask. */
  lemma MaskOfFlip(image: Grid<Pixel>, rule: TransparencyRule)
    ensures Flip(MaskOf(image, rule)) == MaskOf(Flip(image), rule)
  {
    var a := Flip(MaskOf(image, rule));
    var b := MaskOf(Flip(image), rule);
    forall i | 0 <= i < |image|
      ensures a[i] == b[i]
    {
    }
  }

  /** Black is transparent under the all-zero ranges; a dark grey is not. */
  lemma ClassifyBlackAndGrey(alpha: Channel)
    ensures Classify(Pixel(0, 0, 0, alpha), TransparencyRule(Range(0, 0), Range(0, 0), Range(0, 0))) == Transparent
    ensures Classify(Pixel(10, 10, 10, alpha), TransparencyRule(Range(0, 0), Range(0, 0), Range(0, 0))) == Opaque
  {
  }

  // ---------------------------------------------------------------------
  // The icon
  // ---------------------------------------------------------------------

  /**
   * An icon's live state. `direction` is 1 when the icon faces forward; any
   * other value paints it mirrored.
   */
  datatype Icon = Icon(
    image: Grid<Pixel>,
    mask: Grid<MaskValue>,
    xSize: nat,
    ySize: nat,
    x: int,
    y: int,
    direction: int)
  {
    /** Image and mask are both `xSize` wide and `ySize` tall. */
    predicate Valid() {
      IsRect(image, xSize, ySize) && IsRect(mask, xSize, ySize)
    }
  }

  const StartX := 50
  const StartY := 50
  const Forward := 1

  /**
   * A new icon from an image already converted to RGBA and resized to
   * `xSize` by `ySize`: mask derived from `rule`, placed at (50, 50),
   * facing forward.
   */
  method NewIcon(image: Grid<Pixel>, rule: TransparencyRule, xSize: nat, ySize: nat) returns (icon: Icon)
    requires IsRect(image, xSize, ySize)
    ensures icon.Valid()
    ensures icon.image == image && icon.xSize == xSize && icon.ySize == ySize
    ensures forall i, j :: 0 <= i < ySize && 0 <= j < xSize ==>
      (icon.mask[i][j] == Transparent <==> InRule(image[i][j], rule))
    ensures icon.x == StartX && icon.y == StartY && icon.direction == Forward
  {
    var mask := DeriveMask(image, rule, xSize, ySize);
    icon := Icon(image, mask, xSize, ySize, StartX, StartY, Forward);
  }

  /** Sets the facing; nothing else changes. */
  function SetDirection(icon: Icon, direction: int): (r: Icon)
    ensures r.direction == direction
    ensures r.(direction := icon.direction) == icon
    ensures icon.Valid() ==> r.Valid()
  {
    icon.(direction := direction)
  }

  // ---------------------------------------------------------------------
  // Movement
  // ---------------------------------------------------------------------

  /** The tokens that move an icon. */
  const Directions: set<string> := {"up", "down", "left", "right"}

  /**
   * One tick of movement under the shared steering token `dir`: one pixel
   * up, down, left or right; any other token (such as "stop") is a no-op.
   * No bounds are checked.
   */
  function Move(icon: Icon, dir: string): (r: Icon)
    ensures dir == "up" ==> r == icon.(y := icon.y - 1)
    ensures dir == "down" ==> r == icon.(y := icon.y + 1)
    ensures dir == "left" ==> r == icon.(x := icon.x - 1)
    ensures dir == "right" ==> r == icon.(x := icon.x + 1)
    ensures dir !in Directions ==> r == icon
  {
    var afterUp := if dir == "up" then icon.(y := icon.y - 1) else icon;
    var afterLeft := if dir == "left" then afterUp.(x := afterUp.x - 1) else afterUp;
    var afterRight := if dir == "right" then afterLeft.(x := afterLeft.x + 1) else afterLeft;
    if dir == "down" then afterRight.(y := afterRight.y + 1) else afterRight
  }

  /** The column step of a token, as a table. */
  function StepX(dir: string): int {
    if dir == "left" then -1 else if dir == "right" then 1 else 0
  }

  /** The row step of a token, as a table. */
  function StepY(dir: string): int {
    if dir == "up" then -1 else if dir == "down" then 1 else 0
  }

  /** `n` ticks under the same token. */
  function MoveTimes(icon: Icon, dir: string, n: nat): Icon {
    if n == 0 then icon else Move(MoveTimes(icon, dir, n - 1), dir)
  }

  /** `n` ticks under one token shift the icon by `n` steps; positions are
      unbounded, so they may leave the screen in either direction. */
  lemma {:induction false} MoveTimesShifts(icon: Icon, dir: string, n: nat)
    ensures MoveTimes(icon, dir, n) == icon.(x := icon.x + n * StepX(dir), y := icon.y + n * StepY(dir))
  {
    if n > 0 {
      MoveTimesShifts(icon, dir, n - 1);
      assert (n - 1) * StepX(dir) + StepX(dir) == n * StepX(dir);
      assert (n - 1) * StepY(dir) + StepY(dir) == n * StepY(dir);
    }
  }

  /** Three ticks to the left move three columns left and keep the row;
      "stop" moves nothing. */
  lemma LeftThreeTimesThenStop(icon: Icon)
    ensures MoveTimes(icon, "left", 3).x == icon.x - 3
    ensures MoveTimes(icon, "left", 3).y == icon.y
    ensures Move(icon, "stop") == icon
  {
    MoveTimesShifts(icon, "left", 3);
  }

  /** Left undoes right and up undoes down. */
  lemma MoveOppositesCancel(icon: Icon)
    ensures Move(Move(icon, "right"), "left") == icon
    ensures Move(Move(icon, "left"), "right") == icon
    ensures Move(Move(icon, "down"), "up") == icon
    ensures Move(Move(icon, "up"), "down") == icon
  {
  }

  // ---------------------------------------------------------------------
  // Painting
  // ---------------------------------------------------------------------

  /** Destination pixel (row `i`, column `j`) lies under the icon's box. */
  predicate InFootprint(icon: Icon, i: int, j: int) {
    0 <= i - icon.y < icon.ySize && 0 <= j - icon.x < icon.xSize
  }

  /** The image column painted at destination column `j`: mirrored unless
      the icon faces forward. */
  function SourceColumn(icon: Icon, j: int): int {
    if icon.direction == Forward then j - icon.x else icon.xSize - 1 - (j - icon.x)
  }

  /** The icon paints destination pixel (i, j): it lies under the box and
      the mask entry shown there is opaque. */
  predicate Covers(icon: Icon, i: int, j: int)
    requires icon.Valid()
  {
    InFootprint(icon, i, j) && icon.mask[i - icon.y][SourceColumn(icon, j)] == Opaque
  }

  /** The image pixel shown at destination pixel (i, j). */
  function PixelAt(icon: Icon, i: int, j: int): Pixel
    requires icon.Valid() && InFootprint(icon, i, j)
  {
    icon.image[i - icon.y][SourceColumn(icon, j)]
  }

  /**
   * The icon painted onto `frame` at its position, image and mask flipped
   * together when it does not face forward. Pixels it covers take the image
   * pixel shown there; all others, including those under transparent mask
   * entries and those outside the frame, are left alone.
   */
  function Show(icon: Icon, frame: Grid<Pixel>): (r: Grid<Pixel>)
    requires icon.Valid()
    ensures SameShape(r, frame)
    ensures forall i, j :: InGrid(frame, i, j) && Covers(icon, i, j) ==> r[i][j] == PixelAt(icon, i, j)
    ensures forall i, j :: InGrid(frame, i, j) && !Covers(icon, i, j) ==> r[i][j] == frame[i][j]
  {
    if icon.direction == Forward then
      Paste(frame, icon.image, icon.mask, icon.x, icon.y)
    else
      Paste(frame, Flip(icon.image), Flip(icon.mask), icon.x, icon.y)
  }

  /** Painting a mirrored icon equals painting, facing forward, an icon
      whose image and mask were flipped in advance. */
  lemma MirroredShowIsForwardShowOfFlipped(icon: Icon, frame: Grid<Pixel>)
    requires icon.Valid() && icon.direction != Forward
    ensures icon.(direction := Forward, image := Flip(icon.image), mask := Flip(icon.mask)).Valid()
    ensures Show(icon, frame) == Show(icon.(direction := Forward, image := Flip(icon.image), mask := Flip(icon.mask)), frame)
  {
  }

  /** Turning twice is the same picture as never turning. */
  lemma ShowAfterTurningBack(icon: Icon, frame: Grid<Pixel>)
    requires icon.Valid() && icon.direction == Forward
    ensures Show(icon.(direction := -1, image := Flip(icon.image), mask := Flip(icon.mask)), frame) == Show(icon, frame)
  {
    FlipInvolution(icon.image);
    FlipInvolution(icon.mask);
  }
}
