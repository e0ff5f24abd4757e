/**
 * The tank: a background and an ordered list of icons over a screen whose
 * extent comes from the panel geometry. Rendering restores the background
 * and then moves and paints each icon in list order, so the list is the
 * back-to-front paint order.
 */
module Tanks {
  import opened Wrappers
  import opened Raster
  import opened Icons

  /** Rendering before a background has been set fails: the paste at the
      origin has no image to take its size from. */
  datatype TankError = NoBackground

  datatype Tank = Tank(
    totalRows: nat,
    totalColumns: nat,
    background: Option<Grid<Pixel>>,
    icons: seq<Icon>,
    screen: Grid<Pixel>)
  {
    /** Screen and background span the whole extent; every icon is well formed. */
    predicate Valid() {
      && IsRect(screen, totalColumns, totalRows)
      && (background.Some? ==> IsRect(background.value, totalColumns, totalRows))
      && AllValid(icons)
    }
  }

  predicate AllValid(icons: seq<Icon>) {
    forall k :: 0 <= k < |icons| ==> icons[k].Valid()
  }

  /** The pixel a freshly created RGBA image is filled with. */
  const Clear := Pixel(0, 0, 0, 0)

  /** A new image of the given size. */
  function Blank(width: nat, height: nat): (g: Grid<Pixel>)
    ensures IsRect(g, width, height)
    ensures forall i, j :: InGrid(g, i, j) ==> g[i][j] == Clear
  {
    seq(height, i => seq(width, j => Clear))
  }

  /**
   * A tank of `numVertPanels` by `numHorizPanels` panels, each
   * `panelRows` by `panelColumns` pixels: no background yet, no icons, and a
   * blank screen of the whole extent.
   */
  function NewTank(panelRows: nat, panelColumns: nat, numHorizPanels: nat, numVertPanels: nat): (t: Tank)
    ensures t.Valid()
    ensures t.totalRows == panelRows * numVertPanels
    ensures t.totalColumns == panelColumns * numHorizPanels
    ensures |t.screen| == panelRows * numVertPanels
    ensures forall i :: 0 <= i < |t.screen| ==> |t.screen[i]| == panelColumns * numHorizPanels
    ensures t.background == None && t.icons == []
  {
    var rows := panelRows * numVertPanels;
    var columns := panelColumns * numHorizPanels;
    Tank(rows, columns, None, [], Blank(columns, rows))
  }

  /** Installs a background already resized to the tank's extent. */
  function SetBackground(t: Tank, background: Grid<Pixel>): (r: Tank)
    requires t.Valid() && IsRect(background, t.totalColumns, t.totalRows)
    ensures r.Valid()
    ensures r.background == Some(background)
    ensures r.(background := t.background) == t
  {
    t.(background := Some(background))
  }

  /** Appends an icon: it goes in front of every icon already present, whose
      order is left as it was. */
  function AddIcon(t: Tank, icon: Icon): (r: Tank)
    ensures |r.icons| == |t.icons| + 1
    ensures r.icons[..|t.icons|] == t.icons
    ensures r.icons[|t.icons|] == icon
    ensures r.(icons := t.icons) == t
    ensures t.Valid() && icon.Valid() ==> r.Valid()
  {
    t.(icons := t.icons + [icon])
  }

  /** Every icon moved one tick under the same token. */
  function MoveAll(icons: seq<Icon>, dir: string): (r: seq<Icon>)
    ensures |r| == |icons|
    ensures forall k :: 0 <= k < |icons| ==> r[k] == Move(icons[k], dir)
    ensures AllValid(icons) ==> AllValid(r)
  {
    seq(|icons|, k requires 0 <= k < |icons| => Move(icons[k], dir))
  }

  /** The icons painted onto `frame` one after another, first to last. */
  function PaintAll(icons: seq<Icon>, frame: Grid<Pixel>): (r: Grid<Pixel>)
    requires AllValid(icons)
    ensures SameShape(r, frame)
    decreases |icons|
  {
    if |icons| == 0 then frame else PaintAll(icons[1..], Show(icons[0], frame))
  }

  /** Painting one more icon is painting the others and then that one on top. */
  lemma {:induction false} PaintAllSnoc(icons: seq<Icon>, icon: Icon, frame: Grid<Pixel>)
    requires AllValid(icons) && icon.Valid()
    ensures AllValid(icons + [icon])
    ensures PaintAll(icons + [icon], frame) == Show(icon, PaintAll(icons, frame))
    decreases |icons|
  {
    assert AllValid(icons + [icon]);
    if |icons| > 0 {
      assert (icons + [icon])[1..] == icons[1..] + [icon];
      PaintAllSnoc(icons[1..], icon, Show(icons[0], frame));
    }
  }

  /** A pixel no icon covers keeps the value it had before painting. */
  lemma {:induction false} PaintAllUncovered(icons: seq<Icon>, frame: Grid<Pixel>, i: int, j: int)
    requires AllValid(icons) && InGrid(frame, i, j)
    requires forall k :: 0 <= k < |icons| ==> !Covers(icons[k], i, j)
    ensures PaintAll(icons, frame)[i][j] == frame[i][j]
    decreases |icons|
  {
    if |icons| > 0 {
      var next := Show(icons[0], frame);
      assert !Covers(icons[0], i, j);
      assert forall k :: 0 <= k < |icons[1..]| ==> icons[1..][k] == icons[k + 1];
      PaintAllUncovered(icons[1..], next, i, j);
    }
  }

  /**
   * Later icons win: where icon `k` is opaque and no later icon is, the
   * painted pixel is icon `k`'s, whatever the earlier icons and the
   * background held.
   */
  lemma {:induction false} PaintAllTopmostWins(icons: seq<Icon>, frame: Grid<Pixel>, k: int, i: int, j: int)
    requires AllValid(icons) && InGrid(frame, i, j)
    requires 0 <= k < |icons| && Covers(icons[k], i, j)
    requires forall m :: k < m < |icons| ==> !Covers(icons[m], i, j)
    ensures PaintAll(icons, frame)[i][j] == PixelAt(icons[k], i, j)
    decreases |icons|
  {
    var n := |icons| - 1;
    var front := icons[..n];
    assert icons == front + [icons[n]];
    PaintAllSnoc(front, icons[n], frame);
    var below := PaintAll(front, frame);
    assert InGrid(below, i, j);
    if k < n {
      PaintAllTopmostWins(front, frame, k, i, j);
    }
  }

  /** Two icons painted in the order A then B: wherever B is opaque the
      frame shows B, not A. */
  lemma SecondIconInFront(a: Icon, b: Icon, frame: Grid<Pixel>, i: int, j: int)
    requires a.Valid() && b.Valid() && InGrid(frame, i, j) && Covers(b, i, j)
    ensures AllValid([a, b])
    ensures PaintAll([a, b], frame)[i][j] == PixelAt(b, i, j)
  {
    PaintAllTopmostWins([a, b], frame, 1, i, j);
  }

  /** Adding an icon and rendering paints the old scene and then the new
      icon, moved, in front of it. */
  lemma AddedIconPaintsLast(icons: seq<Icon>, icon: Icon, dir: string, frame: Grid<Pixel>)
    requires AllValid(icons) && icon.Valid()
    ensures AllValid(icons + [icon])
    ensures PaintAll(MoveAll(icons + [icon], dir), frame) == Show(Move(icon, dir), PaintAll(MoveAll(icons, dir), frame))
  {
    assert AllValid(icons + [icon]);
    assert MoveAll(icons + [icon], dir) == MoveAll(icons, dir) + [Move(icon, dir)];
    PaintAllSnoc(MoveAll(icons, dir), Move(icon, dir), frame);
  }

  /**
   * One frame: restore the background over the whole screen, then for each
   * icon in list order move it one tick under `dir` and paint it. The
   * result holds the moved icons and the finished screen.
   */
  method Render(t: Tank, dir: string) returns (r: Result<Tank, TankError>)
    requires t.Valid()
    ensures r.Failure? <==> t.background.None?
    ensures r.Failure? ==> r.error == NoBackground
    ensures r.Success? ==>
      && r.value.Valid()
      && r.value.icons == MoveAll(t.icons, dir)
      && r.value.screen == PaintAll(r.value.icons, t.background.value)
      && r.value == t.(icons := r.value.icons, screen := r.value.screen)
  {
    if t.background.None? {
      return Failure(NoBackground);
    }
    var background := t.background.value;
    var screen := PasteOpaque(t.screen, background, 0, 0);
    PasteOpaqueAtOriginReplaces(t.screen, background, t.totalColumns, t.totalRows);
    var icons := t.icons;
    for k := 0 to |icons|
      invariant |icons| == |t.icons|
      invariant forall m :: 0 <= m < k ==> icons[m] == Move(t.icons[m], dir)
      invariant forall m :: k <= m < |icons| ==> icons[m] == t.icons[m]
      invariant AllValid(icons)
      invariant screen == PaintAll(icons[..k], background)
    {
      var moved := Move(icons[k], dir);
      icons := icons[k := moved];
      assert icons[..k + 1] == icons[..k] + [moved];
      PaintAllSnoc(icons[..k], moved, background);
      screen := Show(moved, screen);
    }
    assert icons[..|icons|] == icons;
    r := Success(t.(icons := icons, screen := screen));
  }
}
