/** The billboard sprite compositor: the sprite's bearing is brought into
    `[-π, π]`, the sprite is culled outside the field of view and when too
    close, and otherwise drawn as a square box of opaque texels into the
    columns whose depth-buffer entry is farther than the sprite. The bearing
    (an `atan2`) and the distance (a square root) are supplied by the
    caller. */
module Sprites {
  import opened Colors
  import opened Framebuffers
  import opened Textures
  import opened Render
  import opened Cast
  import opened Numbers

  /** π as the nearest f32 value, written as a decimal. */
  const Pi: real := 3.1415927410125732
  const TwoPi: real := 6.2831854820251464

  /** Sprites nearer than this are not drawn. */
  const NearLimit: real := 10.0

  /** The sprite texel colour that is never drawn. */
  const Transparent: bv32 := 0xffffff

  // ---------------------------------------------------------------------
  // Bearing normalisation
  // ---------------------------------------------------------------------

  /** d is a whole number of turns. */
  ghost predicate WholeTurns(d: real)
  {
    (d / TwoPi).Floor as real * TwoPi == d
  }

  lemma WholeTurnsOf(k: int)
    ensures WholeTurns(k as real * TwoPi)
  {
    assert k as real * TwoPi / TwoPi == k as real;
  }

  lemma WholeTurnsAdd(d: real, e: real)
    requires WholeTurns(d) && WholeTurns(e)
    ensures WholeTurns(d + e)
  {
    var m, n := (d / TwoPi).Floor, (e / TwoPi).Floor;
    WholeTurnsOf(m + n);
    assert (m + n) as real * TwoPi == m as real * TwoPi + n as real * TwoPi;
  }

  /** The bearing after the loop that adds full turns while it is below -π. */
  function RaiseAbove(a: real): (r: real)
    ensures -Pi <= r
    ensures a >= -Pi ==> r == a
    ensures r < -Pi + TwoPi || r == a
    ensures WholeTurns(r - a)
    decreases if a < -Pi then (-Pi - a).Floor + 1 else 0
  {
    if a < -Pi then
      var r := RaiseAbove(a + TwoPi);
      WholeTurnsOf(1);
      WholeTurnsAdd(r - (a + TwoPi), TwoPi);
      r
    else
      WholeTurnsOf(0);
      a
  }

  /** The bearing after the loop that subtracts full turns while it is above
      π. */
  function LowerBelow(a: real): (r: real)
    ensures r <= Pi
    ensures a <= Pi ==> r == a
    ensures a >= -Pi ==> r >= -Pi
    ensures WholeTurns(r - a)
    decreases if a > Pi then (a - Pi).Floor + 1 else 0
  {
    if a > Pi then
      var r := LowerBelow(a - TwoPi);
      WholeTurnsOf(-1);
      WholeTurnsAdd(r - (a - TwoPi), -1 as real * TwoPi);
      r
    else
      WholeTurnsOf(0);
      a
  }

  /** The normalised bearing: both loops in turn. */
  function Normalized(a: real): real
  {
    LowerBelow(RaiseAbove(a))
  }

  /** The normalised bearing lies in `[-π, π]` and differs from the raw one
      by whole turns. */
  lemma NormalizedRange(a: real)
    ensures -Pi <= Normalized(a) <= Pi
    ensures WholeTurns(Normalized(a) - a)
  {
    var r := RaiseAbove(a);
    WholeTurnsAdd(Normalized(a) - r, r - a);
  }

  /** A bearing already in `[-π, π]` is left alone, so normalising twice is
      normalising once. */
  lemma NormalizedIdempotent(a: real)
    ensures -Pi <= a <= Pi ==> Normalized(a) == a
    ensures Normalized(Normalized(a)) == Normalized(a)
  {
    NormalizedRange(a);
  }

  /** The two normalisation loops. */
  method NormalizeBearing(raw: real) returns (a: real)
    ensures a == Normalized(raw)
  {
    a := raw;
    while a < -Pi
      invariant RaiseAbove(a) == RaiseAbove(raw)
      decreases if a < -Pi then (-Pi - a).Floor + 1 else 0
    {
      a := a + TwoPi;
    }
    ghost var raised := a;
    while a > Pi
      invariant LowerBelow(a) == LowerBelow(raised)
      decreases if a > Pi then (a - Pi).Floor + 1 else 0
    {
      a := a - TwoPi;
    }
  }

  // ---------------------------------------------------------------------
  // The sprite box and its texels
  // ---------------------------------------------------------------------

  /** The on-screen square of a sprite, clipped to the framebuffer:
      columns `[startX, endX)`, rows `[startY, endY)`, its unclipped top-left
      corner `(originX, originY)` and its side length `size`. */
  datatype SpriteBox = SpriteBox(startX: nat, endX: nat, startY: nat, endY: nat,
                                 originX: real, originY: real, size: real)

  /** The first on-screen coordinate of a side starting at `origin`. */
  function ClipStart(origin: real): nat
  {
    ToUsize(Max(origin, 0.0))
  }

  /** The end of a side of length `size` starting at `origin`, clipped to
      `limit`. */
  function ClipEnd(origin: real, size: real, limit: nat): (e: nat)
    ensures e <= limit
  {
    Min(ToUsize(origin + size), limit)
  }

  /** The box's screen ranges are its unclipped square clipped to a
      `width × height` framebuffer. */
  ghost predicate Clipped(b: SpriteBox, width: nat, height: nat)
  {
    && b.startX == ClipStart(b.originX) && b.endX == ClipEnd(b.originX, b.size, width)
    && b.startY == ClipStart(b.originY) && b.endY == ClipEnd(b.originY, b.size, height)
  }

  /** The sprite is inside the field of view and not too close. */
  predicate Visible(bearing: real, distance: real, fov: real)
  {
    !(Abs(bearing) > fov / 2.0) && !(distance < NearLimit)
  }

  /** The box of a sprite at the given bearing and distance: side `height /
      distance * 50`, centred horizontally on the bearing's screen position
      and lowered by a quarter of its side. */
  function SpriteBoxOf(width: nat, height: nat, bearing: real, distance: real, fov: real): (b: SpriteBox)
    requires distance >= NearLimit && fov > 0.0
    ensures b.endX <= width && b.endY <= height && Clipped(b, width, height)
    ensures b.size >= 0.0 && (height > 0 ==> b.size > 0.0)
  {
    var sh, sw := height as real, width as real;
    var size := (sh / distance) * 100.0 * 0.5;
    assert height > 0 ==> sh / distance > 0.0;
    var startX := (sw / 2.0) + (bearing * sw / fov) - (size / 2.0);
    var startY := (sh / 2.0) - (size / 2.0) + size * 0.25;
    SpriteBox(ClipStart(startX), ClipEnd(startX, size, width),
              ClipStart(startY), ClipEnd(startY, size, height), startX, startY, size)
  }

  /** What a sprite draw depends on: its box, its distance and its
      texture. */
  datatype Billboard = Billboard(box: SpriteBox, distance: real, texture: Texture)

  /** The texture coordinate of screen coordinate p in a box side starting
      at `start`: the offset rescaled from `[0, size)` to `[0, 128)`. */
  function TexCoord(p: nat, start: nat, size: real): nat
    requires size > 0.0 && start <= p
  {
    ToUsize((p as real - start as real) / size * 128.0)
  }

  /** The texel shown at screen pixel (x, y) of the box. */
  function SpriteTexel(bb: Billboard, x: nat, y: nat): bv32
    requires bb.texture.Valid() && bb.box.size > 0.0 && bb.box.startX <= x && bb.box.startY <= y
  {
    GetPixelColor(bb.texture, TexCoord(x, bb.box.startX, bb.box.size), TexCoord(y, bb.box.startY, bb.box.size))
  }

  /** Along a box side of length `size` starting at `origin`, every
      on-screen coordinate maps inside a 128-texel tile: the clipped end never
      reaches past `origin + size`. */
  lemma TexCoordInTile(origin: real, size: real, limit: nat, p: nat)
    requires size > 0.0
    requires ClipStart(origin) <= p < ClipEnd(origin, size, limit)
    ensures TexCoord(p, ClipStart(origin), size) < TextureWidth
  {
    var start := ClipStart(origin);
    assert (p + 1) as real <= origin + size;
    if origin >= 0.0 {
      assert start as real > origin - 1.0;
    }
    RatioScaledBelow(p as real - start as real, size);
  }

  /** An offset below the side length scales to a texel below 128. */
  lemma RatioScaledBelow(off: real, size: real)
    requires 0.0 <= off < size
    ensures ToUsize(off / size * 128.0) < TextureWidth
  {
    var f := off / size;
    assert f * size == off;
    if f >= 1.0 {
      ScaleMonotone(1.0, f, size);
      assert false;
    }
  }

  lemma ScaleMonotone(a: real, b: real, c: real)
    requires a <= b && c >= 0.0
    ensures a * c <= b * c
  {
  }

  /** For a 128 × 128 sprite texture, every pixel of a clipped box reads a
      stored texel: the out-of-range sentinel is never drawn. */
  lemma SpriteTexelInTile(bb: Billboard, width: nat, height: nat, x: nat, y: nat)
    requires Clipped(bb.box, width, height) && bb.box.size > 0.0 && bb.texture.Valid()
    requires bb.texture.width == TextureWidth && bb.texture.height == TextureWidth
    requires bb.box.startX <= x < bb.box.endX && bb.box.startY <= y < bb.box.endY
    ensures TexCoord(x, bb.box.startX, bb.box.size) < TextureWidth
    ensures TexCoord(y, bb.box.startY, bb.box.size) < TextureWidth
    ensures SpriteTexel(bb, x, y)
         == bb.texture.colorArray[TexCoord(x, bb.box.startX, bb.box.size)][TexCoord(y, bb.box.startY, bb.box.size)]
  {
    TexCoordInTile(bb.box.originX, bb.box.size, width, x);
    TexCoordInTile(bb.box.originY, bb.box.size, height, y);
  }

  /** Pixel (x, y) receives a sprite texel: it is inside the box, its column
      was farther than the sprite in the depth buffer `z0` on entry, and its
      texel is not the transparent colour. */
  ghost predicate Draws(bb: Billboard, z0: seq<real>, x: nat, y: nat)
  {
    && bb.texture.Valid() && bb.box.size > 0.0
    && bb.box.startX <= x < bb.box.endX && bb.box.startY <= y < bb.box.endY
    && x < |z0| && bb.distance < z0[x]
    && SpriteTexel(bb, x, y) != Transparent
  }

  /** Some pixel in rows `[0, y)` of column x receives a sprite texel. */
  ghost predicate DrawnAbove(bb: Billboard, z0: seq<real>, x: nat, y: nat)
  {
    exists j :: 0 <= j < y && Draws(bb, z0, x, j)
  }

  /** `s` with the sprite composited over columns `[0, cols)` and over rows
      `[0, yEnd)` of column `cols`. */
  ghost function Composited(s: seq<Color>, width: nat, bb: Billboard, z0: seq<real>, cols: nat, yEnd: nat): (r: seq<Color>)
    ensures |r| == |s|
  {
    if width == 0 then s
    else
      seq(|s|, k requires 0 <= k < |s| =>
        var x, y := k % width, k / width;
        if Draws(bb, z0, x, y) && (x < cols || (x == cols && y < yEnd))
        then FromHex(SpriteTexel(bb, x, y)) else s[k])
  }

  /** The depth buffer after compositing columns `[0, cols)`: the sprite's
      distance where a column received a texel, the entry value elsewhere. */
  ghost function DepthAfter(bb: Billboard, z0: seq<real>, cols: nat): (z: seq<real>)
    ensures |z| == |z0|
  {
    seq(|z0|, x requires 0 <= x < |z0| => if x < cols && DrawnAbove(bb, z0, x, bb.box.endY) then bb.distance else z0[x])
  }

  /** A received texel is opaque and lands inside the framebuffer, and the
      depth buffer only ever moves nearer. */
  lemma DrawsInside(bb: Billboard, z0: seq<real>, width: nat, height: nat, x: nat, y: nat)
    requires bb.box.endX <= width && bb.box.endY <= height
    requires Draws(bb, z0, x, y)
    ensures x < width && y < height
    ensures bb.distance < z0[x] && DepthAfter(bb, z0, x + 1)[x] == bb.distance
  {
  }

  /** The depth buffer after compositing is everywhere at most the entry
      value, never changes outside the box's columns, and changes only to the
      sprite's distance. */
  lemma DepthAfterNearer(bb: Billboard, z0: seq<real>, x: nat)
    requires x < |z0|
    ensures DepthAfter(bb, z0, |z0|)[x] <= z0[x]
    ensures DepthAfter(bb, z0, |z0|)[x] == z0[x] || DepthAfter(bb, z0, |z0|)[x] == bb.distance
    ensures !(bb.box.startX <= x < bb.box.endX) ==> DepthAfter(bb, z0, |z0|)[x] == z0[x]
  {
    if DrawnAbove(bb, z0, x, bb.box.endY) {
      var j :| 0 <= j < bb.box.endY && Draws(bb, z0, x, j);
    }
  }

  /** Pixel k after compositing the whole box: the sprite texel when the
      pixel receives one, its old colour otherwise. Hence columns outside the
      box, columns whose depth entry was not farther than the sprite, and
      transparent texels all keep the old pixel. */
  lemma CompositedAt(s: seq<Color>, width: nat, height: nat, bb: Billboard, z0: seq<real>, k: nat)
    requires |s| == width * height && k < |s|
    ensures width > 0
    ensures var x, y := k % width, k / width;
      Composited(s, width, bb, z0, width, 0)[k] == if Draws(bb, z0, x, y) then FromHex(SpriteTexel(bb, x, y)) else s[k]
    ensures var x := k % width;
      !(bb.box.startX <= x < bb.box.endX) || !(x < |z0| && bb.distance < z0[x]) ==>
        Composited(s, width, bb, z0, width, 0)[k] == s[k]
  {
    DivBelow(k, width, height);
  }

  /** Two composition limits that agree on every drawn pixel give the same
      picture. */
  lemma CompositedSame(s: seq<Color>, width: nat, bb: Billboard, z0: seq<real>, c1: nat, y1: nat, c2: nat, y2: nat)
    requires forall x: nat, y: nat :: Draws(bb, z0, x, y) ==> ((x < c1 || (x == c1 && y < y1)) <==> (x < c2 || (x == c2 && y < y2)))
    ensures Composited(s, width, bb, z0, c1, y1) == Composited(s, width, bb, z0, c2, y2)
  {
  }

  /** Plotting the texel at a drawn pixel extends the composited part of
      its column by one row. */
  lemma CompositedStep(s: seq<Color>, width: nat, height: nat, bb: Billboard, z0: seq<real>, x: nat, y: nat)
    requires |s| == width * height && bb.box.endX <= width && bb.box.endY <= height
    requires Draws(bb, z0, x, y)
    ensures Plotted(Composited(s, width, bb, z0, x, y), width, height, x, y, FromHex(SpriteTexel(bb, x, y)))
         == Composited(s, width, bb, z0, x, y + 1)
  {
    var before := Composited(s, width, bb, z0, x, y);
    var lhs := Plotted(before, width, height, x, y, FromHex(SpriteTexel(bb, x, y)));
    var rhs := Composited(s, width, bb, z0, x, y + 1);
    forall k | 0 <= k < |s| ensures lhs[k] == rhs[k] {
      PlottedAt(before, width, height, x, y, FromHex(SpriteTexel(bb, x, y)), k);
    }
  }

  /** c is the colour of some received texel. */
  ghost predicate ShowsTexel(bb: Billboard, z0: seq<real>, c: Color)
  {
    exists x: nat, y: nat :: Draws(bb, z0, x, y) && c == FromHex(SpriteTexel(bb, x, y))
  }

  /** The box is clipped to the framebuffer and has a positive side
      whenever it has a row. */
  ghost predicate BoxFits(bb: Billboard, width: nat, height: nat)
  {
    && bb.texture.Valid()
    && bb.box.endX <= width && bb.box.endY <= height
    && (height > 0 ==> bb.box.size > 0.0)
  }

  // ---------------------------------------------------------------------
  // render_object
  // ---------------------------------------------------------------------

  /** Column x of the sprite box: when the depth buffer holds a farther
      wall, draw each opaque texel of the column and record the sprite's
      distance for the column. */
  method CompositeColumn(fb: Framebuffer, zBuffer: array<real>, bb: Billboard, x: nat,
                         ghost s0: seq<Color>, ghost z0: seq<real>)
    requires fb.Valid() && zBuffer.Length == fb.width && |z0| == fb.width
    requires BoxFits(bb, fb.width, fb.height) && bb.box.startX <= x < bb.box.endX
    requires fb.buffer[..] == Composited(s0, fb.width, bb, z0, x, 0)
    requires zBuffer[..] == DepthAfter(bb, z0, x)
    modifies fb, fb.buffer, zBuffer
    ensures fb.buffer[..] == Composited(s0, fb.width, bb, z0, x + 1, 0)
    ensures zBuffer[..] == DepthAfter(bb, z0, x + 1)
    ensures fb.currentColor == old(fb.currentColor) || ShowsTexel(bb, z0, fb.currentColor)
    ensures fb.backgroundColor == old(fb.backgroundColor)
  {
    assert zBuffer[x] == z0[x];
    if bb.distance < zBuffer[x] {
      CompositedSame(s0, fb.width, bb, z0, x, 0, x, bb.box.startY);
      var y := bb.box.startY;
      while y < bb.box.endY
        modifies fb, fb.buffer, zBuffer
        invariant bb.box.startY <= y && (y > bb.box.startY ==> y <= bb.box.endY)
        invariant fb.buffer[..] == Composited(s0, fb.width, bb, z0, x, y)
        invariant zBuffer[..] == DepthAfter(bb, z0, x)[x := if DrawnAbove(bb, z0, x, y) then bb.distance else z0[x]]
        invariant fb.currentColor == old(fb.currentColor) || ShowsTexel(bb, z0, fb.currentColor)
        invariant fb.backgroundColor == old(fb.backgroundColor)
      {
        var tx := ToUsize((x as real - bb.box.startX as real) / bb.box.size * 128.0);
        var ty := ToUsize((y as real - bb.box.startY as real) / bb.box.size * 128.0);
        assert tx == TexCoord(x, bb.box.startX, bb.box.size) && ty == TexCoord(y, bb.box.startY, bb.box.size);
        var color := GetPixelColor(bb.texture, tx, ty);
        assert color == SpriteTexel(bb, x, y);
        if color != Transparent {
          assert Draws(bb, z0, x, y);
          fb.SetCurrentColor(color);
          fb.Point(x, y);
          zBuffer[x] := bb.distance;
          CompositedStep(s0, fb.width, fb.height, bb, z0, x, y);
        } else {
          assert !Draws(bb, z0, x, y);
          CompositedSame(s0, fb.width, bb, z0, x, y, x, y + 1);
        }
        y := y + 1;
      }
      CompositedSame(s0, fb.width, bb, z0, x, y, x + 1, 0);
      assert DrawnAbove(bb, z0, x, y) == DrawnAbove(bb, z0, x, bb.box.endY);
    } else {
      CompositedSame(s0, fb.width, bb, z0, x, 0, x + 1, 0);
      assert !DrawnAbove(bb, z0, x, bb.box.endY);
    }
  }

  /** Draws one sprite: normalise its bearing, skip it when it is outside
      the field of view or nearer than `NearLimit`, and otherwise composite
      its box column by column behind the depth test. */
  method RenderObject(fb: Framebuffer, rawBearing: real, distance: real, fov: real,
                      zBuffer: array<real>, sprite: Texture)
    requires fb.Valid() && zBuffer.Length == fb.width && sprite.Valid() && fov > 0.0
    modifies fb, fb.buffer, zBuffer
    ensures var bearing := Normalized(rawBearing);
      if !Visible(bearing, distance, fov) then
        && fb.buffer[..] == old(fb.buffer[..])
        && zBuffer[..] == old(zBuffer[..])
        && fb.currentColor == old(fb.currentColor)
      else
        var bb := Billboard(SpriteBoxOf(fb.width, fb.height, bearing, distance, fov), distance, sprite);
        && fb.buffer[..] == Composited(old(fb.buffer[..]), fb.width, bb, old(zBuffer[..]), fb.width, 0)
        && zBuffer[..] == DepthAfter(bb, old(zBuffer[..]), fb.width)
        && (fb.currentColor == old(fb.currentColor) || ShowsTexel(bb, old(zBuffer[..]), fb.currentColor))
    ensures fb.backgroundColor == old(fb.backgroundColor)
  {
    var bearing := NormalizeBearing(rawBearing);
    if Abs(bearing) > fov / 2.0 {
      return;
    }
    if distance < NearLimit {
      return;
    }

    var box := SpriteBoxOf(fb.width, fb.height, bearing, distance, fov);
    var bb := Billboard(box, distance, sprite);

    ghost var s0, z0 := fb.buffer[..], zBuffer[..];
    CompositedSame(s0, fb.width, bb, z0, 0, 0, box.startX, 0);
    assert Composited(s0, fb.width, bb, z0, 0, 0) == s0;
    assert DepthAfter(bb, z0, box.startX) == z0;
    var x := box.startX;
    while x < box.endX
      invariant box.startX <= x && (x > box.startX ==> x <= box.endX)
      invariant fb.buffer[..] == Composited(s0, fb.width, bb, z0, x, 0)
      invariant zBuffer[..] == DepthAfter(bb, z0, x)
      invariant fb.currentColor == old(fb.currentColor) || ShowsTexel(bb, z0, fb.currentColor)
      invariant fb.backgroundColor == old(fb.backgroundColor)
    {
      CompositeColumn(fb, zBuffer, bb, x, s0, z0);
      x := x + 1;
    }
    CompositedSame(s0, fb.width, bb, z0, x, 0, fb.width, 0);
    assert DepthAfter(bb, z0, x) == DepthAfter(bb, z0, fb.width);
  }
}
