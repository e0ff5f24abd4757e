# IconMove sprite compositing, modelled in Dafny

IconMove animates small sprites ("icons") over a background on an LED pixel
matrix. This project models its compositing engine. It covers:

- how an icon derives its transparency mask from three inclusive colour ranges;
- how an icon moves one pixel per tick under a shared steering token;
- how an icon paints itself onto a frame, mirrored unless it faces forward,
  through a clipped and masked paste;
- how the tank restores its background and then moves and paints each icon in
  list order.

Images are immutable grids (`seq<seq<Pixel>>`, indexed `[row][column]`) with
integer channels. Every operation is a pure function or a method with an
explicit result. The global steering token `current_dir` becomes a parameter
of `Move` and `Render`.

Files:

- `wrappers.dfy`: `Option` and `Result`.
- `raster.dfy` (module `Raster`): pixels, grids, the left-to-right flip, and the
  masked paste. The paste is given twice: as a pointwise definition, and as the
  clip-then-copy loop, which is proved to compute the same grid.
- `icons.dfy` (module `Icons`): the transparency rule, the construction loop
  that derives the mask, the icon, `Move`, `SetDirection` and `Show`.
- `tanks.dfy` (module `Tanks`): the tank, its extent, `AddIcon`, and `Render`.

Behaviour of the code worth noting:

- An icon's `direction` is an integer. Only the value 1 paints forward; every
  other value paints the icon mirrored.
- Only the tokens "up", "down", "left" and "right" move an icon. "stop", and
  any other string, leaves the position unchanged.
- The icon constructor does not check its target size; it hands the size to
  `resize` and `Image.new` unchecked.
- Restoring the background is an unmasked paste at the origin, not a buffer
  copy. The background is resized to the screen's size, and the model proves
  that such a paste yields the background exactly
  (`Raster.PasteOpaqueAtOriginReplaces`).
- Rendering before `set_background` has been called raises a `ValueError`,
  because the paste then has no image to take its size from. The model
  returns `Failure(NoBackground)`.

## Model

| member | source | states |
|---|---|---|
| `Raster.FlipRow` | iconMove.py:101-102 | a flipped row has the same length, and entry `j` is entry `len-1-j` of the original |
| `Raster.Flip` | iconMove.py:101-102 | `FLIP_LEFT_RIGHT` keeps the grid's shape and mirrors each row about the vertical axis |
| `Raster.FlipInvolution` | iconMove.py:101-102 | flipping a grid twice reproduces it exactly |
| `Raster.FlipKeepsCorrespondence` | iconMove.py:99-103 | flipping an image and its mask together keeps them the same shape, and both are mirrored at the same index, so every mask entry stays over its pixel |
| `Raster.Paste` | iconMove.py:97 | a paste at (x, y) keeps the destination's shape; an in-bounds pixel under an opaque source entry takes that source pixel; a pixel outside the source box or under a transparent entry is unchanged; anything off the destination is clipped |
| `Raster.PasteClipped` | iconMove.py:103 | clipping the source box to the destination and overwriting only the opaque pixels of the clipped box yields exactly the pointwise paste |
| `Raster.PasteTransparentIsNoop` | iconMove.py:97 | an all-transparent mask leaves the destination unchanged |
| `Raster.PasteOpaque` | iconMove.py:223 | an unmasked paste copies every pixel the source overlaps and leaves the rest unchanged |
| `Raster.PasteOpaqueAtOriginReplaces` | iconMove.py:223 | pasting a background of the screen's size at (0, 0) yields exactly the background |
| `Icons.PutData` | iconMove.py:64 | writing `width*height` values into a `width` by `height` mask gives a grid of exactly that size |
| `Icons.Flatten` | iconMove.py:65 | `getdata` reads the image out as the row-major concatenation of its rows, and every pixel of the image appears in it; its length is fixed by `FlattenLength` and its order by the round trip `PutDataFlatten` |
| `Icons.FlattenLength` | iconMove.py:65 | reading out a `width` by `height` image gives `width*height` pixels |
| `Icons.PutDataFlatten` | iconMove.py:64-78 | writing back a grid's row-major pixel list rebuilds the same grid, so the mask list and the image share one row-major order |
| `Icons.FlattenMaskOf` | iconMove.py:65-77 | reading out the mask grid gives each image pixel's classification, in the same order |
| `Icons.MaskData` | iconMove.py:66-77 | the loop yields one value per pixel, and value `k` is 0 exactly when pixel `k` has R, G and B all inside their inclusive ranges (otherwise 255) |
| `Icons.DeriveMask` | iconMove.py:64-78 | the derived mask has the icon's `x_size` by `y_size` dimensions; each entry is 0 exactly when its own pixel's R, G and B lie in their ranges and 255 otherwise; it equals the per-pixel classification of the grid |
| `Icons.MaskIsPerPixel` | iconMove.py:72-74 | a mask entry depends only on the red, green and blue of its own pixel: not on alpha and not on neighbouring pixels |
| `Icons.MaskOfFlip` | iconMove.py:99-102 | the mask of the mirrored image is the mirrored mask |
| `Icons.ClassifyBlackAndGrey` | iconMove.py:72-77 | under the ranges ([0,0],[0,0],[0,0]), the pixel (0,0,0) is transparent and (10,10,10) is opaque |
| `Icons.NewIcon` | iconMove.py:37-78 | a new icon keeps the resized image and its size, has a mask of the same size with the range-rule entries, starts at (50, 50) and faces forward (direction 1) |
| `Icons.SetDirection` | iconMove.py:89-90 | sets the facing and leaves the image, mask, size and position unchanged |
| `Icons.Move` | iconMove.py:128-138 | "up" decrements y, "down" increments y, "left" decrements x, "right" increments x, each leaving everything else alone; any other token leaves the icon unchanged |
| `Icons.MoveTimesShifts` | iconMove.py:131-138 | `n` ticks under one token shift the position by `n` steps of that token; nothing bounds it, so it can go negative or past the screen |
| `Icons.LeftThreeTimesThenStop` | iconMove.py:131-138 | three ticks of "left" change x by exactly -3 and keep y; "stop" changes nothing |
| `Icons.MoveOppositesCancel` | iconMove.py:131-138 | a tick left undoes a tick right, and a tick up undoes a tick down |
| `Icons.Show` | iconMove.py:95-103 | painting keeps the frame's shape; a frame pixel the icon covers takes the image pixel shown there, mirrored by column when direction is not 1; every other frame pixel is unchanged; the icon itself is not modified |
| `Icons.MirroredShowIsForwardShowOfFlipped` | iconMove.py:98-103 | painting a mirrored icon equals painting, facing forward, an icon whose image and mask were flipped together beforehand |
| `Icons.ShowAfterTurningBack` | iconMove.py:96-103 | turning a forward icon round with pre-flipped image and mask paints the same frame as the original |
| `Tanks.Blank` | iconMove.py:201 | a new screen has the requested size and every pixel is (0,0,0,0) |
| `Tanks.NewTank` | iconMove.py:185-201 | `total_rows = panel_rows * num_vert_panels` and `total_columns = panel_columns * num_horiz_panels`; the screen has exactly that extent; there are no icons and no background yet |
| `Tanks.SetBackground` | iconMove.py:206-209 | installs a background of the tank's extent and changes nothing else |
| `Tanks.AddIcon` | iconMove.py:214-215 | appends the icon at the end; the existing icons keep their order; nothing else changes |
| `Tanks.MoveAll` | iconMove.py:226-227 | every icon is moved one tick under the same shared token |
| `Tanks.PaintAll` | iconMove.py:226-228 | painting the icons in list order keeps the frame's shape |
| `Tanks.PaintAllSnoc` | iconMove.py:226-228 | painting a list with one more icon at the end is painting the list and then that icon on top |
| `Tanks.PaintAllUncovered` | iconMove.py:223-228 | a pixel that no icon covers keeps its background value |
| `Tanks.PaintAllTopmostWins` | iconMove.py:223-228 | where icon `k` is opaque and no later icon is, the frame shows icon `k`'s pixel, over earlier icons and the background |
| `Tanks.SecondIconInFront` | iconMove.py:226-228 | with icons A then B, wherever B is opaque the frame shows B's pixel and not A's |
| `Tanks.AddedIconPaintsLast` | iconMove.py:214-228 | after `add_icon`, a render paints the old scene and then the new icon, moved, in front of it |
| `Tanks.Render` | iconMove.py:221-228 | fails exactly when no background is set; otherwise every icon is moved once under the token, the screen is the background with the moved icons painted in list order, and nothing else changes |

## Left out

- Loading, RGBA conversion and resizing of images (`Image.open`, `convert`, `resize`, iconMove.py:49-51 and 206-209) are library calls. `NewIcon` and `SetBackground` take a grid that already has the target size, so their size precondition stands for what `resize` returns. Decoding errors come from those calls and are not modelled.
- `background.convert("RGBA")` at iconMove.py:208 discards its result, so the background keeps its file's pixel mode. The model treats every grid as RGBA.
- Raster.Paste: masks here hold only 0 or 255, because the mask type is binary. The library's blending for intermediate mask values is not modelled, since no such mask can arise.
- The per-iteration `putdata` call at iconMove.py:78 writes a growing prefix of the mask on every pass. Only the last call, with the full list, survives, and that is the one modelled.
- The LED matrix (`RGBMatrixOptions`, `RGBMatrix`, `SetImage`, iconMove.py:190-198 and 235) is device output and is not modelled.
- The conversion of the screen to RGB and the unused `ImageDraw` (iconMove.py:230-231) are not modelled; `Render` returns the RGBA frame.
- Gamepad input and the mapping of key names to tokens (iconMove.py:273-293) are device input. The token is a parameter of `Move` and `Render`.
- The main loop's timing (`datetime`, `speed_delay`, `time.sleep`, iconMove.py:263-304) depends on the clock and is not modelled.
- `startTimeout` and `checkTimeout` (iconMove.py:108-118) depend on `time.time()` and `print`, and no live code calls them.
- The wrap, reseed and slowdown algorithm at iconMove.py:140-171 sits inside a string literal and never runs. It also draws random numbers. `setSlowdown` and the fields `slowdown`, `movecount`, `timeout`, `onScreen`, `filename`, `total_rows` and `total_columns` only feed that dead code, so the icon datatype omits them.
- Tanks.Render: requires a well-formed tank (screen and background of the tank's extent, each icon's mask the size of its image). Every operation of the model keeps that invariant, which the source relies on without checking it.
- Tanks.Render: icons are values, not shared objects. The source's tank holds references, so two cases differ from the model. An icon added twice is one object, which the source moves once per occurrence each frame and paints at both intermediate positions; the model moves each entry once. An icon changed through another reference after `add_icon`, for example by `setDirection`, changes what the source's tank paints; in the model the tank keeps the value it was given.
- Icons.SetDirection: returns a new icon value. It does not reach copies already held by a tank, whereas the source mutates the one shared object (see the line on `Tanks.Render`).
