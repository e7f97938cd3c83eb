/** The drawing routines of the main program: minimap wall blocks, the
    wall-texture mapping, the perspective view's background bands, wall
    stakes and depth buffer, and the minimap background. Every routine draws through `Framebuffer.Point`, so the
    specifications are stated on the buffer's pixel sequence. */
module Render {
  import opened Options
  import opened Colors
  import opened Framebuffers
  import opened Grid
  import opened Textures
  import opened Cast
  import opened Numbers

  /** Block size of the maze, in world units. */
  const BlockSize: nat := 100

  const MinimapWallColor: bv32 := 0x14544b
  const SkyColor: bv32 := 0x2c9473
  const FloorColor: bv32 := 0x56615d
  const MinimapBackgroundColor: bv32 := 0x56615d

  /** `r as usize` for an f32 value: truncation, and 0 for negative
      values. */
  function ToUsize(r: real): (n: nat)
    ensures r >= 0.0 ==> n == r.Floor
    ensures r < 1.0 ==> n == 0
  {
    if r < 0.0 then 0 else r.Floor
  }

  // ---------------------------------------------------------------------
  // walls_minimap
  // ---------------------------------------------------------------------

  /** Draws one maze cell as a `blockSize × blockSize` block at (xo, yo):
      a non-open cell fills the in-bounds part of the block with the
      minimap wall colour, an open cell draws nothing. */
  method WallsMinimap(fb: Framebuffer, xo: nat, yo: nat, blockSize: nat, cell: char)
    requires fb.Valid()
    modifies fb, fb.buffer
    ensures fb.backgroundColor == old(fb.backgroundColor)
    ensures cell != Open ==>
      && fb.currentColor == FromHex(MinimapWallColor)
      && fb.buffer[..] == FillRect(old(fb.buffer[..]), fb.width,
           Rect(xo, xo + blockSize, yo, yo + blockSize), FromHex(MinimapWallColor))
    ensures cell == Open ==> fb.currentColor == old(fb.currentColor) && fb.buffer[..] == old(fb.buffer[..])
  {
    if cell != Open {
      fb.SetCurrentColor(MinimapWallColor);
      var c := FromHex(MinimapWallColor);
      ghost var s0 := fb.buffer[..];
      FillEmpty(s0, fb.width, Rect(xo, xo, yo, yo + blockSize), c);
      for x := xo to xo + blockSize
        invariant fb.currentColor == c && fb.backgroundColor == old(fb.backgroundColor)
        invariant fb.buffer[..] == FillRect(s0, fb.width, Rect(xo, x, yo, yo + blockSize), c)
      {
        ghost var done := fb.buffer[..];
        FillEmpty(done, fb.width, Rect(x, x + 1, yo, yo), c);
        for y := yo to yo + blockSize
          invariant fb.currentColor == c && fb.backgroundColor == old(fb.backgroundColor)
          invariant fb.buffer[..] == FillRect(done, fb.width, Rect(x, x + 1, yo, y), c)
        {
          fb.Point(x, y);
          PlotExtendsColumn(done, fb.width, fb.height, x, yo, y, c);
        }
        ColumnExtendsRect(s0, fb.width, xo, x, yo, yo + blockSize, c);
      }
    }
  }

  // ---------------------------------------------------------------------
  // texture_walls
  // ---------------------------------------------------------------------

  /** The wall textures, loaded once and only read afterwards. */
  datatype WallTextures = WallTextures(wall: Texture, wallAlt: Texture, station: Texture) {
    ghost predicate Valid()
    {
      wall.Valid() && wallAlt.Valid() && station.Valid()
    }
  }

  /** The texel colour of a wall cell: `'+'` and `'|'` use the alternative
      wall texture, `'-'` the wall texture, `'g'` the station texture, and
      any other symbol is colour 0. */
  function TextureWalls(cell: char, tx: nat, ty: nat, tex: WallTextures): (color: bv32)
    requires tex.Valid()
    ensures cell == '+' || cell == '|' ==> color == GetPixelColor(tex.wallAlt, tx, ty)
    ensures cell == '-' ==> color == GetPixelColor(tex.wall, tx, ty)
    ensures cell == 'g' ==> color == GetPixelColor(tex.station, tx, ty)
    ensures cell !in {'+', '|', '-', 'g'} ==> color == 0
  {
    match cell
    case '+' => GetPixelColor(tex.wallAlt, tx, ty)
    case '|' => GetPixelColor(tex.wallAlt, tx, ty)
    case '-' => GetPixelColor(tex.wall, tx, ty)
    case 'g' => GetPixelColor(tex.station, tx, ty)
    case _ => 0
  }

  /** Textures of the canonical 128 × 128 tile size. */
  ghost predicate TileSized(tex: WallTextures)
  {
    && tex.Valid()
    && tex.wall.width == TextureWidth && tex.wall.height == TextureWidth
    && tex.wallAlt.width == TextureWidth && tex.wallAlt.height == TextureWidth
    && tex.station.width == TextureWidth && tex.station.height == TextureWidth
  }

  /** With tile-sized textures, the texel a wall hit selects is always read
      from inside the texture: the column comes from the cast and the row
      is below 128, so the sentinel is never produced by the bounds check. */
  lemma WallTexelInTile(maze: Maze, samples: seq<Sample>, ty: nat, tex: WallTextures)
    requires TileSized(tex) && ty < TextureWidth
    requires FirstHit(maze, samples, BlockSize).Some?
    ensures var hit := FirstHit(maze, samples, BlockSize).value;
      var color := TextureWalls(hit.impact, hit.tx, ty, tex);
      && hit.tx < TextureWidth
      && (hit.impact == '+' || hit.impact == '|' ==> color == tex.wallAlt.colorArray[hit.tx][ty])
      && (hit.impact == '-' ==> color == tex.wall.colorArray[hit.tx][ty])
      && (hit.impact == 'g' ==> color == tex.station.colorArray[hit.tx][ty])
  {
    FirstHitFromSpec(maze, samples, BlockSize, 0);
  }

  // ---------------------------------------------------------------------
  // minimap_function: the background rectangle
  // ---------------------------------------------------------------------

  /** The minimap background: the fixed rectangle
      `[width - 230, width - 10) × [height - 160, height - 10)`, which
      depends only on the framebuffer size. */
  function MinimapRect(width: nat, height: nat): (r: Rect)
    requires width >= 230 && height >= 160
    ensures r.x1 - r.x0 == 220 && r.y1 - r.y0 == 150
    ensures r.x1 + 10 == width && r.y1 + 10 == height
  {
    var minimapSize := 150;
    var minimapX := width - minimapSize - 80;
    var minimapY := height - minimapSize - 10;
    Rect(minimapX, minimapX + minimapSize + 70, minimapY, minimapY + minimapSize)
  }

  /** Paints the minimap background rectangle. The corner offsets are
      unsigned subtractions in the source, so the framebuffer must be at
      least 230 × 160. */
  method MinimapBackground(fb: Framebuffer)
    requires fb.Valid() && fb.width >= 230 && fb.height >= 160
    modifies fb, fb.buffer
    ensures fb.buffer[..] == FillRect(old(fb.buffer[..]), fb.width,
      MinimapRect(fb.width, fb.height), FromHex(MinimapBackgroundColor))
    ensures fb.currentColor == FromHex(MinimapBackgroundColor)
    ensures fb.backgroundColor == old(fb.backgroundColor)
  {
    var minimapSize := 150;
    var minimapX := fb.width - minimapSize - 80;
    var minimapY := fb.height - minimapSize - 10;
    var c := FromHex(MinimapBackgroundColor);
    ghost var s0 := fb.buffer[..];
    FillEmpty(s0, fb.width, Rect(minimapX, minimapX, minimapY, minimapY + minimapSize), c);
    for x := minimapX to minimapX + minimapSize + 70
      invariant fb.backgroundColor == old(fb.backgroundColor)
      invariant x > minimapX ==> fb.currentColor == c
      invariant fb.buffer[..] == FillRect(s0, fb.width, Rect(minimapX, x, minimapY, minimapY + minimapSize), c)
    {
      ghost var done := fb.buffer[..];
      FillEmpty(done, fb.width, Rect(x, x + 1, minimapY, minimapY), c);
      for y := minimapY to minimapY + minimapSize
        invariant fb.backgroundColor == old(fb.backgroundColor)
        invariant y > minimapY ==> fb.currentColor == c
        invariant fb.buffer[..] == FillRect(done, fb.width, Rect(x, x + 1, minimapY, y), c)
      {
        fb.SetCurrentColor(MinimapBackgroundColor);
        fb.Point(x, y);
        PlotExtendsColumn(done, fb.width, fb.height, x, minimapY, y, c);
      }
      ColumnExtendsRect(s0, fb.width, minimapX, x, minimapY, minimapY + minimapSize, c);
    }
  }

  // ---------------------------------------------------------------------
  // game_map: background bands, wall stakes and the depth buffer
  // ---------------------------------------------------------------------

  /** Scale of the wall projection. */
  const ProjectionScale: real := 70.0

  /** The vertical extent `[top, bottom)` of one column's wall stake. */
  datatype Stake = Stake(top: nat, bottom: nat)

  /** The projected wall height for a corrected distance: `height /
      distance * 70`, clamped to the framebuffer height. A distance of 0
      gives an infinite height in floating point, which the clamp turns into
      the full height. */
  function StakeHeight(height: nat, distance: real): (sh: real)
    requires distance >= 0.0
    ensures 0.0 <= sh <= height as real
  {
    var raw := if distance == 0.0 then height as real else (height as real / distance) * ProjectionScale;
    if raw > height as real then height as real else raw
  }

  /** The stake is centred on the middle row and never leaves the
      framebuffer. */
  function StakeOf(height: nat, distance: real): (s: Stake)
    requires distance >= 0.0
    ensures s.top <= s.bottom <= height
  {
    var hh := height as real / 2.0;
    var sh := StakeHeight(height, distance);
    Stake(ToUsize(hh - sh / 2.0), ToUsize(hh + sh / 2.0))
  }

  /** The texture row for screen row y of a stake: the position of y in
      `[top, bottom)` rescaled to `[0, 128)`; always a valid row. */
  function TexRow(y: nat, s: Stake): (ty: nat)
    requires s.top <= y < s.bottom
    ensures ty < TextureWidth
  {
    var f := (y - s.top) as real / (s.bottom - s.top) as real;
    assert f * (s.bottom - s.top) as real == (y - s.top) as real;
    assert 0.0 <= f < 1.0;
    ToUsize(f * 128.0)
  }

  /** What the perspective view reads besides the framebuffer: the maze,
      the ray samples of each screen column (they come from the column's
      angle), the fish-eye factor `cos(a - player.a)` of each column, and the
      wall textures. */
  datatype Scene = Scene(maze: Maze, rays: seq<seq<Sample>>, fishEye: seq<real>, textures: WallTextures)

  /** One ray and one positive fish-eye factor per column, and every ray
      strikes a wall (the source loops for ever otherwise; mazes are
      enclosed). */
  ghost predicate SceneFits(scene: Scene, width: nat)
  {
    && |scene.rays| == width && |scene.fishEye| == width && scene.textures.Valid()
    && (forall i :: 0 <= i < width ==> scene.fishEye[i] > 0.0)
    && (forall i :: 0 <= i < width ==> FirstHit(scene.maze, scene.rays[i], BlockSize).Some?)
  }

  ghost function ColumnHit(scene: Scene, width: nat, i: nat): Intersect
    requires SceneFits(scene, width) && i < width
  {
    FirstHit(scene.maze, scene.rays[i], BlockSize).value
  }

  /** The fish-eye corrected distance of column i. */
  ghost function ColumnDistance(scene: Scene, width: nat, i: nat): (d: real)
    requires SceneFits(scene, width) && i < width
    ensures d >= 0.0
  {
    ColumnHit(scene, width, i).distance as real * scene.fishEye[i]
  }

  ghost function ColumnStake(scene: Scene, width: nat, height: nat, i: nat): Stake
    requires SceneFits(scene, width) && i < width
  {
    StakeOf(height, ColumnDistance(scene, width, i))
  }

  /** Pixel (x, y) lies on the wall stake of its column. */
  ghost predicate InStake(scene: Scene, width: nat, height: nat, x: nat, y: nat)
    requires SceneFits(scene, width)
  {
    x < width && ColumnStake(scene, width, height, x).top <= y < ColumnStake(scene, width, height, x).bottom
  }

  /** The colour drawn at (x, y) of a stake: the texel of the hit's wall
      texture at the hit's column and the row's texture row. */
  ghost function StakeTexel(scene: Scene, width: nat, height: nat, x: nat, y: nat): Color
    requires SceneFits(scene, width) && InStake(scene, width, height, x, y)
  {
    var hit := ColumnHit(scene, width, x);
    FromHex(TextureWalls(hit.impact, hit.tx, TexRow(y, ColumnStake(scene, width, height, x)), scene.textures))
  }

  /** The current colour after column x: the last texel of its stake, or the
      ray colour when the stake is empty. */
  ghost function ColumnEndColor(scene: Scene, width: nat, height: nat, x: nat): Color
    requires SceneFits(scene, width) && x < width
  {
    var s := ColumnStake(scene, width, height, x);
    if s.top < s.bottom then StakeTexel(scene, width, height, x, s.bottom - 1) else FromHex(RayColor)
  }

  /** The sky band (rows above `height / 2`) and the floor band (the rows
      below) painted in columns `[0, cols)`. */
  ghost function Bands(s: seq<Color>, width: nat, height: nat, cols: nat): seq<Color>
  {
    FillRect(FillRect(s, width, Rect(0, cols, 0, height / 2), FromHex(SkyColor)),
             width, Rect(0, cols, height / 2, height), FromHex(FloorColor))
  }

  /** `s` with the stakes of columns `[0, cols)` drawn, and the stake of
      column `cols` drawn on rows below `yEnd`. */
  ghost function WallsDrawn(s: seq<Color>, width: nat, height: nat, scene: Scene, cols: nat, yEnd: nat): (r: seq<Color>)
    requires SceneFits(scene, width)
    ensures |r| == |s|
  {
    if width == 0 then s
    else
      seq(|s|, k requires 0 <= k < |s| =>
        var x, y := k % width, k / width;
        if InStake(scene, width, height, x, y) && (x < cols || (x == cols && y < yEnd))
        then StakeTexel(scene, width, height, x, y) else s[k])
  }

  /** The picture the perspective view leaves: every pixel on a wall stake
      shows its texel, every other pixel its band colour. */
  ghost function GameMapImage(s: seq<Color>, width: nat, height: nat, scene: Scene): seq<Color>
    requires SceneFits(scene, width)
  {
    WallsDrawn(Bands(s, width, height, width), width, height, scene, width, 0)
  }

  /** What pixel (x, y) of the perspective view shows: its stake texel on
      the wall stake, otherwise the sky above the middle row and the floor
      from the middle row down. */
  ghost function ViewPixel(scene: Scene, width: nat, height: nat, x: nat, y: nat): Color
    requires SceneFits(scene, width)
  {
    if InStake(scene, width, height, x, y) then StakeTexel(scene, width, height, x, y)
    else if y < height / 2 then FromHex(SkyColor) else FromHex(FloorColor)
  }

  /** The picture does not depend on what the buffer held before: each
      pixel is its stake texel or its band colour. */
  lemma GameMapImageAt(s: seq<Color>, width: nat, height: nat, scene: Scene, k: nat)
    requires SceneFits(scene, width) && |s| == width * height && k < |s|
    ensures width > 0
    ensures GameMapImage(s, width, height, scene)[k] == ViewPixel(scene, width, height, k % width, k / width)
  {
    DivBelow(k, width, height);
    var x, y := k % width, k / width;
    var sky := FillRect(s, width, Rect(0, width, 0, height / 2), FromHex(SkyColor));
    var bands := Bands(s, width, height, width);
    assert bands[k] == if y < height / 2 then FromHex(SkyColor) else FromHex(FloorColor) by {
      assert sky[k] == if y < height / 2 then FromHex(SkyColor) else s[k];
    }
  }

  lemma BandsStart(s: seq<Color>, width: nat, height: nat)
    ensures Bands(s, width, height, 0) == s
  {
    FillEmpty(s, width, Rect(0, 0, 0, height / 2), FromHex(SkyColor));
    FillEmpty(s, width, Rect(0, 0, height / 2, height), FromHex(FloorColor));
  }

  /** Painting column i's sky and floor extends the bands by one column. */
  lemma BandsStep(s: seq<Color>, width: nat, height: nat, i: nat)
    ensures FillRect(FillRect(Bands(s, width, height, i), width, Rect(i, i + 1, 0, height / 2), FromHex(SkyColor)),
                     width, Rect(i, i + 1, height / 2, height), FromHex(FloorColor))
         == Bands(s, width, height, i + 1)
  {
  }

  /** Plotting the texel at row y of stake column x extends the drawn part
      of that column by one row. */
  lemma WallsStep(s: seq<Color>, width: nat, height: nat, scene: Scene, x: nat, y: nat)
    requires SceneFits(scene, width) && |s| == width * height && InStake(scene, width, height, x, y)
    ensures Plotted(WallsDrawn(s, width, height, scene, x, y), width, height, x, y, StakeTexel(scene, width, height, x, y))
         == WallsDrawn(s, width, height, scene, x, y + 1)
  {
    var before := WallsDrawn(s, width, height, scene, x, y);
    var lhs := Plotted(before, width, height, x, y, StakeTexel(scene, width, height, x, y));
    var rhs := WallsDrawn(s, width, height, scene, x, y + 1);
    forall k | 0 <= k < |s| ensures lhs[k] == rhs[k] {
      PlottedAt(before, width, height, x, y, StakeTexel(scene, width, height, x, y), k);
    }
  }

  /** Rows of column x above its stake's top are never part of the stake. */
  lemma WallsColumnStart(s: seq<Color>, width: nat, height: nat, scene: Scene, x: nat)
    requires SceneFits(scene, width) && x < width
    ensures WallsDrawn(s, width, height, scene, x, ColumnStake(scene, width, height, x).top)
         == WallsDrawn(s, width, height, scene, x, 0)
  {
  }

  /** A column drawn down to its stake's bottom is a finished column. */
  lemma WallsColumnDone(s: seq<Color>, width: nat, height: nat, scene: Scene, x: nat)
    requires SceneFits(scene, width) && x < width
    ensures WallsDrawn(s, width, height, scene, x, ColumnStake(scene, width, height, x).bottom)
         == WallsDrawn(s, width, height, scene, x + 1, 0)
  {
  }

  /** The background of the perspective view: every column gets the sky
      colour on its upper half and the floor colour on its lower half, the
      colour being selected before each pixel. */
  method PaintBands(fb: Framebuffer)
    requires fb.Valid()
    modifies fb, fb.buffer
    ensures fb.buffer[..] == Bands(old(fb.buffer[..]), fb.width, fb.height, fb.width)
    ensures fb.width == 0 || fb.height == 0 ==> fb.currentColor == old(fb.currentColor)
    ensures fb.width > 0 && fb.height > 0 ==> fb.currentColor == FromHex(FloorColor)
    ensures fb.backgroundColor == old(fb.backgroundColor)
  {
    ghost var s0 := fb.buffer[..];
    var sky, floor := FromHex(SkyColor), FromHex(FloorColor);
    BandsStart(s0, fb.width, fb.height);
    var i := 0;
    while i < fb.width
      invariant 0 <= i <= fb.width
      invariant fb.buffer[..] == Bands(s0, fb.width, fb.height, i)
      invariant i == 0 || fb.height == 0 ==> fb.currentColor == old(fb.currentColor)
      invariant i > 0 && fb.height > 0 ==> fb.currentColor == floor
      invariant fb.backgroundColor == old(fb.backgroundColor)
    {
      ghost var t := fb.buffer[..];
      ghost var c0 := fb.currentColor;
      FillEmpty(t, fb.width, Rect(i, i + 1, 0, 0), sky);
      var j := 0;
      while j < fb.height / 2
        modifies fb, fb.buffer
        invariant 0 <= j <= fb.height / 2
        invariant fb.buffer[..] == FillRect(t, fb.width, Rect(i, i + 1, 0, j), sky)
        invariant j == 0 ==> fb.currentColor == c0
        invariant fb.backgroundColor == old(fb.backgroundColor)
      {
        fb.SetCurrentColor(SkyColor);
        fb.Point(i, j);
        PlotExtendsColumn(t, fb.width, fb.height, i, 0, j, sky);
        j := j + 1;
      }
      ghost var t2 := fb.buffer[..];
      FillEmpty(t2, fb.width, Rect(i, i + 1, fb.height / 2, fb.height / 2), floor);
      j := fb.height / 2;
      while j < fb.height
        modifies fb, fb.buffer
        invariant fb.height / 2 <= j <= fb.height
        invariant fb.buffer[..] == FillRect(t2, fb.width, Rect(i, i + 1, fb.height / 2, j), floor)
        invariant j == fb.height / 2 && fb.height == 0 ==> fb.currentColor == c0
        invariant j > fb.height / 2 ==> fb.currentColor == floor
        invariant fb.backgroundColor == old(fb.backgroundColor)
      {
        fb.SetCurrentColor(FloorColor);
        fb.Point(i, j);
        PlotExtendsColumn(t2, fb.width, fb.height, i, fb.height / 2, j, floor);
        j := j + 1;
      }
      BandsStep(s0, fb.width, fb.height, i);
      i := i + 1;
    }
  }

  /** The colour the stake loop selects for row y is the stake texel. */
  lemma StakeRowTexel(scene: Scene, width: nat, height: nat, x: nat, y: nat)
    requires SceneFits(scene, width) && InStake(scene, width, height, x, y)
    ensures var hit, stake := ColumnHit(scene, width, x), ColumnStake(scene, width, height, x);
      FromHex(TextureWalls(hit.impact, hit.tx, TexRow(y, stake), scene.textures)) == StakeTexel(scene, width, height, x, y)
  {
  }

  /** Row y of the stake of column x: select the row's texel colour and
      plot it. */
  method DrawStakeRow(fb: Framebuffer, scene: Scene, x: nat, y: nat, intersect: Intersect, stake: Stake, ghost s0: seq<Color>)
    requires fb.Valid() && SceneFits(scene, fb.width) && x < fb.width && |s0| == fb.width * fb.height
    requires intersect == ColumnHit(scene, fb.width, x) && stake == ColumnStake(scene, fb.width, fb.height, x)
    requires InStake(scene, fb.width, fb.height, x, y)
    requires fb.buffer[..] == WallsDrawn(s0, fb.width, fb.height, scene, x, y)
    modifies fb, fb.buffer
    ensures fb.buffer[..] == WallsDrawn(s0, fb.width, fb.height, scene, x, y + 1)
    ensures fb.currentColor == StakeTexel(scene, fb.width, fb.height, x, y)
    ensures fb.backgroundColor == old(fb.backgroundColor)
  {
    var ty := TexRow(y, stake);
    var color := TextureWalls(intersect.impact, intersect.tx, ty, scene.textures);
    StakeRowTexel(scene, fb.width, fb.height, x, y);
    fb.SetCurrentColor(color);
    fb.Point(x, y);
    WallsStep(s0, fb.width, fb.height, scene, x, y);
  }

  /** The textured stake of column x, drawn row by row from its top to its
      bottom, each row selecting its texel colour before the point. */
  method DrawStake(fb: Framebuffer, scene: Scene, x: nat, intersect: Intersect, stake: Stake, ghost s0: seq<Color>)
    requires fb.Valid() && SceneFits(scene, fb.width) && x < fb.width
    requires intersect == ColumnHit(scene, fb.width, x) && stake == ColumnStake(scene, fb.width, fb.height, x)
    requires fb.buffer[..] == WallsDrawn(s0, fb.width, fb.height, scene, x, 0)
    modifies fb, fb.buffer
    ensures fb.buffer[..] == WallsDrawn(s0, fb.width, fb.height, scene, x + 1, 0)
    ensures stake.top == stake.bottom ==> fb.currentColor == old(fb.currentColor)
    ensures stake.top < stake.bottom ==> fb.currentColor == StakeTexel(scene, fb.width, fb.height, x, stake.bottom - 1)
    ensures fb.backgroundColor == old(fb.backgroundColor)
  {
    WallsColumnStart(s0, fb.width, fb.height, scene, x);
    var y := stake.top;
    while y < stake.bottom
      invariant stake.top <= y <= stake.bottom
      invariant fb.buffer[..] == WallsDrawn(s0, fb.width, fb.height, scene, x, y)
      invariant y == stake.top ==> fb.currentColor == old(fb.currentColor)
      invariant y > stake.top ==> fb.currentColor == StakeTexel(scene, fb.width, fb.height, x, y - 1)
      invariant fb.backgroundColor == old(fb.backgroundColor)
    {
      DrawStakeRow(fb, scene, x, y, intersect, stake, s0);
      y := y + 1;
    }
    WallsColumnDone(s0, fb.width, fb.height, scene, x);
  }

  /** Column x of the perspective view: cast its ray without drawing it,
      correct the distance by the fish-eye factor, record it in the depth
      buffer and draw the textured stake of the projected height, centred on
      the middle row. Columns left of x are drawn already. */
  method DrawColumn(fb: Framebuffer, scene: Scene, zBuffer: array<real>, x: nat, ghost s0: seq<Color>)
    requires fb.Valid() && SceneFits(scene, fb.width) && zBuffer.Length == fb.width && x < fb.width
    requires fb.buffer[..] == WallsDrawn(s0, fb.width, fb.height, scene, x, 0)
    modifies fb, fb.buffer, zBuffer
    ensures fb.buffer[..] == WallsDrawn(s0, fb.width, fb.height, scene, x + 1, 0)
    ensures zBuffer[..] == old(zBuffer[..])[x := ColumnDistance(scene, fb.width, x)]
    ensures fb.currentColor == ColumnEndColor(scene, fb.width, fb.height, x)
    ensures fb.backgroundColor == old(fb.backgroundColor)
  {
    var hit := CastRay(fb, scene.maze, scene.rays[x], BlockSize, false);
    assert hit == Some(ColumnHit(scene, fb.width, x));
    var intersect := hit.value;
    var distance := intersect.distance as real * scene.fishEye[x];
    assert distance == ColumnDistance(scene, fb.width, x);
    var stake := StakeOf(fb.height, distance);
    assert stake == ColumnStake(scene, fb.width, fb.height, x);
    zBuffer[x] := distance;
    DrawStake(fb, scene, x, intersect, stake, s0);
  }

  /** The walls of the perspective view, one column after another. */
  method DrawWalls(fb: Framebuffer, scene: Scene, zBuffer: array<real>)
    requires fb.Valid() && SceneFits(scene, fb.width) && zBuffer.Length == fb.width
    modifies fb, fb.buffer, zBuffer
    ensures fb.buffer[..] == WallsDrawn(old(fb.buffer[..]), fb.width, fb.height, scene, fb.width, 0)
    ensures forall i :: 0 <= i < fb.width ==> zBuffer[i] == ColumnDistance(scene, fb.width, i)
    ensures fb.width == 0 ==> fb.currentColor == old(fb.currentColor)
    ensures fb.width > 0 ==> fb.currentColor == ColumnEndColor(scene, fb.width, fb.height, fb.width - 1)
    ensures fb.backgroundColor == old(fb.backgroundColor)
  {
    ghost var s0 := fb.buffer[..];
    var numRays := fb.width;
    var i := 0;
    while i < numRays
      invariant 0 <= i <= numRays
      invariant fb.buffer[..] == WallsDrawn(s0, fb.width, fb.height, scene, i, 0)
      invariant forall c :: 0 <= c < i ==> zBuffer[c] == ColumnDistance(scene, fb.width, c)
      invariant i == 0 ==> fb.currentColor == old(fb.currentColor)
      invariant i > 0 ==> fb.currentColor == ColumnEndColor(scene, fb.width, fb.height, i - 1)
      invariant fb.backgroundColor == old(fb.backgroundColor)
    {
      DrawColumn(fb, scene, zBuffer, i, s0);
      i := i + 1;
    }
  }

  /** One perspective frame: the bands, then the walls. Every pixel ends up
      showing its wall texel or its band colour (see `GameMapImageAt`), and
      the depth buffer holds every column's corrected distance. */
  method GameMap(fb: Framebuffer, scene: Scene, zBuffer: array<real>)
    requires fb.Valid() && SceneFits(scene, fb.width) && zBuffer.Length == fb.width
    modifies fb, fb.buffer, zBuffer
    ensures fb.buffer[..] == GameMapImage(old(fb.buffer[..]), fb.width, fb.height, scene)
    ensures forall i :: 0 <= i < fb.width ==> zBuffer[i] == ColumnDistance(scene, fb.width, i)
    ensures fb.width == 0 ==> fb.currentColor == old(fb.currentColor)
    ensures fb.width > 0 ==> fb.currentColor == ColumnEndColor(scene, fb.width, fb.height, fb.width - 1)
    ensures fb.backgroundColor == old(fb.backgroundColor)
  {
    PaintBands(fb);
    DrawWalls(fb, scene, zBuffer);
  }
}
