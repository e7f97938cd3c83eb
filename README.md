# A verified model of the rust-maze3d raycaster core

rust-maze3d is a first-person grid raycaster. The player stands in a maze
of character cells. For every screen column the program walks a ray in 2-pixel
steps until it enters a wall cell. It then draws a textured vertical wall
stake whose height shrinks with the fish-eye corrected distance, and records
that distance in a per-column depth buffer. A billboard sprite is
composited against the depth buffer, and a minimap can replace the
perspective view.

This project models the integer and grid core of that pipeline in Dafny:

- `Colors` (colors.dfy): the `(r, g, b)` byte triple, and its packing to
  and from a `0xRRGGBB` word.
- `Framebuffers` (framebuffer.dfy): the framebuffer as a class with a
  fixed-size pixel array and two colour registers. Its specification works
  on the pixel sequence, using `Plotted` (one `point`), `FillRect` (a filled
  rectangle) and `PlotAll` (a run of points).
- `Numbers` (numbers.dfy): `Abs`, `Min` and `Max`, which the other
  modules share.
- `Grid` (grid.dfy): the maze grid, which may have ragged rows, and its
  bounds-checked lookup.
- `Cast` (cast.dfy): `cast_ray` over a finite sequence of integer sample
  points. Sample k lies at distance 2k. The method is proved equal to a
  reference first-hit search, with the optional ray plotting.
- `Textures` (texture.dfy): the column-major texture table built from
  decoded pixels, and its bounds-checked lookup with the red sentinel.
- `Players` (player.dfy): the player, the collision query and one frame of
  `process_events`.
- `Render` (render.dfy): `walls_minimap`, `texture_walls`, `game_map`
  (sky and floor bands, ray casting, wall stakes, depth buffer) and the
  background rectangle of `minimap_function`.
- `Sprites` (sprite.dfy): `render_object`. This covers bearing
  normalisation, culling, the clipped sprite box, and column-by-column
  compositing behind the depth test.
- `Game` (game.dfy): the goal scan at start-up, the goal-reached test and
  the M-key view toggle of `main`.

Integers are unbounded. `f32` values that involve no trigonometry are
modelled as exact reals. This covers stake heights, texture rows, the
sprite box and player movement. An `f32 as usize` cast is truncation, with
negative values saturating to 0 (`Render.ToUsize`). Results of `cos`, `sin`,
`atan2` and `sqrt` are inputs:

- the ray samples of each column;
- the fish-eye factor of each column;
- the sprite's raw bearing and distance;
- the `cos`/`sin` functions given to `ProcessEvents`.

Facts about the code that the contracts depend on:

- Textures keep the dimensions of their image (src/texture.rs:14-18).
  `Render.WallTexelInTile` and `Sprites.SpriteTexelInTile` therefore assume
  128×128 textures where they claim that no sentinel is read.
- `texture_walls` returns 0 for an unmapped symbol (src/main.rs:243), and
  that 0 is drawn like any other colour.
- The sprite's transparent texel is `0xffffff` (src/main.rs:220).
- `point` takes `u32` coordinates (src/framebuffer.rs:38). The band loops
  of `game_map` and the minimap background pass `u32`. `cast_ray`,
  `walls_minimap`, the stake loop's row and `render_object` pass `usize`.
  The model uses `nat` throughout.

## Model

| member | source | states |
|---|---|---|
| Colors.Pack | src/framebuffer.rs:49-53 | the packed word is below 2^24 and its three bytes, recovered by shift and mask, are r, g and b |
| Colors.FromHex | src/framebuffer.rs:26-32 | the colour decoded from a word packs back to the word's low 24 bits |
| Colors.FromHexPack | src/texture.rs:26 | decoding a packed colour gives the colour back (round trip) |
| Colors.PackInjective | src/texture.rs:26 | distinct colours pack to distinct words |
| Framebuffers.IndexInBounds | src/framebuffer.rs:39-41 | an in-range (x, y) gives a row-major index `y*width+x` inside the buffer |
| Framebuffers.Plotted | src/framebuffer.rs:38-43 | in range, exactly the pixel at `y*width+x` becomes the colour; out of range, the buffer is unchanged |
| Framebuffers.PlottedAt | src/framebuffer.rs:38-43 | pixel k after a point is the colour exactly when k's coordinates are (x, y), otherwise the old pixel |
| Framebuffers.PlotAllAt | src/cast_function.rs:44-46 | after plotting a run of points, pixel k is the colour exactly when some point of the run has k's coordinates |
| Framebuffers.PlotExtendsColumn | src/main.rs:47-51 | plotting the next row of a column extends a filled column rectangle by one row |
| Framebuffers.Framebuffer.constructor | src/framebuffer.rs:13-24 | the buffer has `width*height` pixels, all the background colour, and both registers are black, given that the 32-bit pixel count does not overflow |
| Framebuffers.Framebuffer.SetBackgroundColor | src/framebuffer.rs:26-28 | only the background register changes, to the decoded word; the current register and the pixels are unchanged |
| Framebuffers.Framebuffer.SetCurrentColor | src/framebuffer.rs:30-32 | only the current register changes, to the decoded word; the background register and the pixels are unchanged |
| Framebuffers.Framebuffer.Clear | src/framebuffer.rs:34-36 | every pixel becomes the background colour; only the pixel array is modified, so the registers are unchanged |
| Framebuffers.Framebuffer.Point | src/framebuffer.rs:38-43 | the new pixel sequence is `Plotted` of the old one with the current colour |
| Framebuffers.Framebuffer.U32Buffer | src/framebuffer.rs:49-53 | one word per pixel, in order; each word is below 2^24 and decodes to its pixel |
| Grid.Lookup | src/cast_function.rs:48 | a cell is found exactly when its row exists and that row is long enough, and it is then `maze[j][i]` |
| Cast.MaxHit | src/cast_function.rs:35-42 | the texture basis is the x offset when `1 < x%bs < bs-1`, otherwise the y offset, and is below bs |
| Cast.TexColumn | src/cast_function.rs:38-53 | `maxhit*128/bs` is below 128 for every sample and every positive block size |
| Cast.FirstHitFromSpec | src/cast_function.rs:18-58 | no result exactly when no sample hits; otherwise the result is the hit at sample m with distance 2m, no earlier sample hits, the impact is `maze[j][i]` of sample m and not a space, and tx is its valid texture column |
| Cast.FirstHitFromIsFirst | src/cast_function.rs:25-58 | conversely, a hitting sample with no hit before it is the one reported |
| Cast.CastRay | src/cast_function.rs:10-60 | the result is the first hit; the current colour becomes white; without `drawLine` the pixels are untouched, and with it exactly the samples up to and including the hit (or all) are plotted |
| Textures.Zeros | src/texture.rs:22 | `width` columns of `height` zeros |
| Textures.LoadedAt | src/texture.rs:21-31 | entry [x][y] of the loaded table is the packed colour of the last pixel at (x, y), or 0 when none covers it |
| Textures.LoadedStoresPixel | src/texture.rs:24-28 | with one pixel per coordinate, every pixel is stored at [x][y] as its packed colour |
| Textures.LoadedUncovered | src/texture.rs:22-28 | entries covered by no pixel stay 0 |
| Textures.LoadArray | src/texture.rs:21-31 | the loop's table equals the reference table `Loaded` |
| Textures.FromPixels | src/texture.rs:14-18 | the texture has the image's dimensions, the loaded table and a valid shape |
| Textures.GetPixelColor | src/texture.rs:33-39 | in range, the stored entry; otherwise the sentinel `0xFF0000`, with no out-of-range read |
| Textures.GetPixelColorLoaded | src/texture.rs:24-35 | reading a loaded texture at a pixel's coordinates gives that pixel's packed colour |
| Players.CanMoveTo | src/player.rs:24-31 | true exactly when the cell (floor(y/bs), floor(x/bs)) exists, in a possibly short row, and is a space |
| Players.CellIndexOfFloor | src/player.rs:25-26 | for non-negative coordinates, the cell index is the floored coordinate divided by bs |
| Players.OpenPositionIsNoHit | src/player.rs:24-31 | a position the player may occupy is never a ray hit for the sample at that position |
| Players.Committed | src/player.rs:72-79 | the position changes only when a move key was held and the target is free; otherwise it stays; a player on free floor stays on free floor |
| Players.Player.constructor | src/player.rs:14-22 | the given pose is stored; velocity and last mouse position are zero |
| Players.Player.ProcessEvents | src/player.rs:34-80 | heading from mouse and turn keys; candidate from the move keys along the new heading; commit rule; play, no call or pause for the step sound; the player never leaves free floor |
| Render.ToUsize | src/main.rs:89-90 | the `f32 as usize` cast: truncation for non-negative values and 0 below 1 |
| Render.WallsMinimap | src/main.rs:38-53 | for a non-space cell, exactly the in-range pixels of the block `[xo, xo+bs) × [yo, yo+bs)` become `0x14544b`; for a space, nothing changes |
| Render.TextureWalls | src/main.rs:238-245 | `+` and `\|` read the alternative wall, `-` the wall, `g` the station, and any other symbol gives 0 |
| Render.WallTexelInTile | src/main.rs:95-98 | for 128×128 textures, the texel read for a hit is the stored entry at the hit's column |
| Render.MinimapRect | src/main.rs:144-149 | the minimap background is the 220×150 rectangle ending 10 pixels before the right and bottom edges |
| Render.MinimapBackground | src/main.rs:144-153 | the pixels become the old pixels with that rectangle filled with `0x56615d`; the current colour is `0x56615d` |
| Render.StakeHeight | src/main.rs:85-88 | the projected height lies in `[0, height]` |
| Render.StakeOf | src/main.rs:89-90 | the stake satisfies `top <= bottom <= height` |
| Render.TexRow | src/main.rs:95-96 | the texture row of every stake row is below 128 |
| Render.GameMapImageAt | src/main.rs:65-101 | after `game_map` each pixel shows its column's wall texel on the stake, and otherwise sky above the middle row and floor below, whatever the buffer held before |
| Render.PaintBands | src/main.rs:65-75 | the sky fills rows `< height/2` and the floor fills the other rows in every column |
| Render.DrawStakeRow | src/main.rs:94-100 | row y of a stake: the current colour becomes the row's stake texel and the pixel is plotted, extending the drawn part of the column by one row |
| Render.DrawStake | src/main.rs:94-101 | column x's whole stake is drawn, and the current colour is its last texel (or unchanged for an empty stake) |
| Render.DrawColumn | src/main.rs:79-101 | column x: the depth entry becomes the corrected distance, the column's stake is drawn, and earlier columns stay drawn |
| Render.DrawWalls | src/main.rs:78-102 | every column's stake drawn, every depth entry the corrected distance of its ray |
| Render.GameMap | src/main.rs:55-104 | the pixels are `GameMapImage` of the old ones; every depth entry holds its column's corrected distance; the current colour is the last stake texel |
| Sprites.RaiseAbove | src/main.rs:180-182 | the result is at least -π, differs from the input by whole turns, and equals the input when it is at least -π |
| Sprites.LowerBelow | src/main.rs:183-185 | the result is at most π, differs from the input by whole turns, and keeps a value in `[-π, ∞)` at least -π |
| Sprites.NormalizedRange | src/main.rs:178-185 | the normalised bearing lies in `[-π, π]` and differs from the raw one by whole turns |
| Sprites.NormalizedIdempotent | src/main.rs:178-185 | a bearing already in `[-π, π]` is unchanged, so normalising twice is normalising once |
| Sprites.NormalizeBearing | src/main.rs:180-185 | the two loops compute `Normalized` |
| Sprites.SpriteBoxOf | src/main.rs:197-212 | the box is clipped to the framebuffer, has a positive side whenever the framebuffer has rows, and is the clipping of the unclipped square |
| Sprites.TexCoordInTile | src/main.rs:209-218 | every on-screen coordinate of a clipped side maps to a texel coordinate below 128 |
| Sprites.SpriteTexelInTile | src/main.rs:209-219 | for a 128×128 sprite, no pixel of the box reads the sentinel |
| Sprites.DrawsInside | src/main.rs:209-223 | every drawn pixel lies inside the framebuffer, and its column's depth entry was farther than the sprite and becomes the sprite's distance |
| Sprites.DepthAfterNearer | src/main.rs:214-225 | afterwards each depth entry is the old value or the sprite's distance, never larger than before, and unchanged outside the box's columns |
| Sprites.CompositedAt | src/main.rs:214-225 | each pixel gets the sprite texel exactly when it is in the box, its column passed the depth test on entry and the texel is not `0xffffff`; otherwise it keeps its old colour |
| Sprites.CompositeColumn | src/main.rs:215-226 | one column: drawn behind the depth test, with the depth entry updated when a texel was drawn |
| Sprites.RenderObject | src/main.rs:177-228 | culled (outside half the field of view, or nearer than 10): nothing changes; otherwise the pixels and depth buffer are the composited ones and the current colour is the old one or a drawn texel |
| Game.FirstGoalFrom | src/main.rs:334-341 | the first goal column of a row, and none exactly when the row has no goal |
| Game.GoalInSpec | src/main.rs:332-343 | nothing found exactly when the maze has no goal; otherwise a goal cell with no goal earlier in its row and none in a later row |
| Game.SingleGoal | src/main.rs:332-343 | with a single goal cell, its corner is the goal position |
| Game.GoalScan | src/main.rs:332-343 | the nested loops (the inner `break` leaves only the row) compute `GoalPosition` |
| Game.ReachedGoalNear | src/main.rs:355 | reaching the goal implies being within 50 units on each axis |
| Game.Toggled | src/main.rs:351-353 | pressing M always changes the view; not pressing keeps it |
| Game.ToggledTwice | src/main.rs:351-353 | two presses restore the view |

## Left out

- Window, event loop, key and mouse polling, `update_with_buffer`, frame
  pacing, the FPS counter and timers: these are I/O and wall-clock time. Key
  states and the mouse position are the `Keys` and `mouseX` parameters of
  `ProcessEvents`.
- The per-frame order in the main loop (clear, the 3D or 2D view, then the
  minimap), the title and goal screens and `position_sprites`. These are
  event-loop glue around the modelled routines. `position_sprites` only
  calls `RenderObject` for two fixed positions, whose bearings and distances
  come from `atan2` and `sqrt`.
- `src/audio.rs`: foreign playback calls behind a lock. `ProcessEvents`
  returns the call it would make (`Play`, `Pause` or none).
- `src/maze.rs` `load_maze`: file I/O. The maze is a parameter. The reloads
  inside `game_map` and `maze_to_minimap` are dropped.
- `Texture::new` image decoding and the lazily loaded texture statics. The
  decoded pixels and the textures are parameters.
- `Framebuffer::render`: the BMP writer is not part of this model.
- `Color::from_hex`: the colour module is not part of this model.
  `Colors.FromHex` assumes it extracts the three low bytes.
- `text_width` and `drawtext`: these are called from main.rs, but
  framebuffer.rs does not define them.
- `maze_to_minimap` and the cell and player drawing of `minimap_function`.
  They need the ray angles and the `f32` minimap scale. The per-cell block
  is `WallsMinimap`.
- All trigonometry, the square root and `f32` rounding. Reals are exact, so
  results that depend on `f32` rounding are not captured. Where an `f32`
  division by zero would give infinity, the model uses the value the
  source's clamp then produces. For `StakeHeight` at distance 0 this is the
  full height.
- Cast.CastRay: the unbounded `loop` is a walk over a finite sample
  sequence, and "no sample hits" is the `None` result. Rust never returns
  in that case.
- Framebuffers.Framebuffer.constructor: requires `width * height` to fit
  in a `u32`. It does not model the overflow of that product
  (src/framebuffer.rs:16), which panics in debug builds and wraps in
  release builds.
- Render.GameMap: requires every column's ray to hit a wall, as the source
  loops for ever otherwise (mazes are enclosed). It also requires every
  fish-eye factor to be positive.
- Render.ToUsize: does not model saturation at the top of the `usize` or
  `u32` range.
- Render.MinimapBackground: requires a framebuffer of at least 230×160,
  below which the source's unsigned subtraction panics.
- Sprites.RenderObject: the current colour afterwards is stated as the old
  colour or some drawn texel, not as the last drawn texel. It also requires
  a positive field of view, which the source always has (π/3).
- The depth buffer's `+infinity` initialisation: `GameMap` writes every
  entry before it is read, so the initial contents do not matter.

## Findings

None: every contract above was proved for the code as written.
