/** Texture lookup tables: a column-major `width × height` table of packed
    `0xRRGGBB` words, filled once from decoded image pixels and read-only
    afterwards. Image decoding itself is not part of this model: the pixels
    are given. */
module Textures {
  import opened Colors
  import opened Options

  /** The colour returned for a texel outside the table. */
  const Sentinel: bv32 := 0xFF0000

  /** One decoded image pixel at column x, row y. */
  datatype Pixel = Pixel(x: nat, y: nat, rgb: Color)

  datatype Texture = Texture(width: nat, height: nat, colorArray: seq<seq<bv32>>) {
    /** `width` columns of `height` entries each. */
    ghost predicate Valid()
    {
      Shaped(colorArray, width, height)
    }
  }

  ghost predicate Shaped(table: seq<seq<bv32>>, width: nat, height: nat)
  {
    |table| == width && forall x :: 0 <= x < width ==> |table[x]| == height
  }

  /** The freshly allocated table: every entry 0. */
  function Zeros(width: nat, height: nat): (table: seq<seq<bv32>>)
    ensures Shaped(table, width, height)
    ensures forall x, y :: 0 <= x < width && 0 <= y < height ==> table[x][y] == 0
  {
    seq(width, _ => seq(height, _ => 0))
  }

  /** Every pixel lies inside the image it came from. */
  ghost predicate InImage(pixels: seq<Pixel>, width: nat, height: nat)
  {
    forall k :: 0 <= k < |pixels| ==> pixels[k].x < width && pixels[k].y < height
  }

  /** Reference table: the pixels stored one after another, later pixels
      overwriting earlier ones at the same coordinates. */
  ghost function Loaded(pixels: seq<Pixel>, width: nat, height: nat): (table: seq<seq<bv32>>)
    requires InImage(pixels, width, height)
    ensures Shaped(table, width, height)
  {
    if pixels == [] then Zeros(width, height)
    else
      var rest := Loaded(pixels[..|pixels| - 1], width, height);
      var p := pixels[|pixels| - 1];
      rest[p.x := rest[p.x][p.y := Pack(p.rgb)]]
  }

  /** The colour of the last pixel at (x, y), if any. */
  ghost function LastAt(pixels: seq<Pixel>, x: nat, y: nat): Option<Color>
  {
    if pixels == [] then None
    else
      var p := pixels[|pixels| - 1];
      if p.x == x && p.y == y then Some(p.rgb) else LastAt(pixels[..|pixels| - 1], x, y)
  }

  /** Entry (x, y) of the loaded table holds the packed colour of the last
      pixel at (x, y), and 0 when no pixel covers it. */
  lemma {:induction false} LoadedAt(pixels: seq<Pixel>, width: nat, height: nat, x: nat, y: nat)
    requires InImage(pixels, width, height) && x < width && y < height
    ensures Loaded(pixels, width, height)[x][y]
         == match LastAt(pixels, x, y) case None => 0 case Some(c) => Pack(c)
  {
    if pixels != [] {
      LoadedAt(pixels[..|pixels| - 1], width, height, x, y);
    }
  }

  /** The last pixel in the list at some coordinates is the one found by
      `LastAt`. */
  lemma {:induction false} LastAtFinds(pixels: seq<Pixel>, k: nat)
    requires k < |pixels|
    requires forall j :: k < j < |pixels| ==> (pixels[j].x, pixels[j].y) != (pixels[k].x, pixels[k].y)
    ensures LastAt(pixels, pixels[k].x, pixels[k].y) == Some(pixels[k].rgb)
  {
    if k < |pixels| - 1 {
      LastAtFinds(pixels[..|pixels| - 1], k);
    }
  }

  /** No pixel at (x, y) means `LastAt` finds nothing. */
  lemma {:induction false} LastAtMissing(pixels: seq<Pixel>, x: nat, y: nat)
    requires forall j :: 0 <= j < |pixels| ==> (pixels[j].x, pixels[j].y) != (x, y)
    ensures LastAt(pixels, x, y) == None
  {
    if pixels != [] {
      LastAtMissing(pixels[..|pixels| - 1], x, y);
    }
  }

  /** An image yields each coordinate once; then every pixel ends up stored,
      packed, at its own column and row. */
  lemma LoadedStoresPixel(pixels: seq<Pixel>, width: nat, height: nat, k: nat)
    requires InImage(pixels, width, height) && k < |pixels|
    requires forall i, j :: 0 <= i < j < |pixels| ==> (pixels[i].x, pixels[i].y) != (pixels[j].x, pixels[j].y)
    ensures Loaded(pixels, width, height)[pixels[k].x][pixels[k].y] == Pack(pixels[k].rgb)
  {
    LastAtFinds(pixels, k);
    LoadedAt(pixels, width, height, pixels[k].x, pixels[k].y);
  }

  /** Entries no pixel covers keep their initial 0. */
  lemma LoadedUncovered(pixels: seq<Pixel>, width: nat, height: nat, x: nat, y: nat)
    requires InImage(pixels, width, height) && x < width && y < height
    requires forall j :: 0 <= j < |pixels| ==> (pixels[j].x, pixels[j].y) != (x, y)
    ensures Loaded(pixels, width, height)[x][y] == 0
  {
    LastAtMissing(pixels, x, y);
    LoadedAt(pixels, width, height, x, y);
  }

  /** Builds the column-major table: allocate `width` columns of `height`
      zeros, then store each pixel's packed colour at `[x][y]`. */
  method LoadArray(pixels: seq<Pixel>, width: nat, height: nat) returns (colorArray: seq<seq<bv32>>)
    requires InImage(pixels, width, height)
    ensures colorArray == Loaded(pixels, width, height)
  {
    colorArray := Zeros(width, height);
    var k := 0;
    while k < |pixels|
      invariant 0 <= k <= |pixels|
      invariant InImage(pixels[..k], width, height)
      invariant colorArray == Loaded(pixels[..k], width, height)
    {
      var p := pixels[k];
      var color := Pack(p.rgb);
      assert pixels[..k + 1][..k] == pixels[..k];
      colorArray := colorArray[p.x := colorArray[p.x][p.y := color]];
      k := k + 1;
    }
    assert pixels[..k] == pixels;
  }

  /** A texture built from decoded pixels of a `width × height` image. */
  method FromPixels(pixels: seq<Pixel>, width: nat, height: nat) returns (t: Texture)
    requires InImage(pixels, width, height)
    ensures t.Valid()
    ensures t == Texture(width, height, Loaded(pixels, width, height))
  {
    var colorArray := LoadArray(pixels, width, height);
    t := Texture(width, height, colorArray);
  }

  /** Bounds-checked texel lookup: the stored word inside the table, the
      sentinel red outside it, and never an out-of-range index. */
  function GetPixelColor(t: Texture, x: nat, y: nat): (c: bv32)
    requires t.Valid()
    ensures x < t.width && y < t.height ==> c == t.colorArray[x][y]
    ensures !(x < t.width && y < t.height) ==> c == Sentinel
  {
    if x < t.width && y < t.height then t.colorArray[x][y] else Sentinel
  }

  /** A texel read back from a loaded texture at a pixel's coordinates is
      that pixel's packed colour. */
  lemma GetPixelColorLoaded(pixels: seq<Pixel>, width: nat, height: nat, k: nat)
    requires InImage(pixels, width, height) && k < |pixels|
    requires forall i, j :: 0 <= i < j < |pixels| ==> (pixels[i].x, pixels[i].y) != (pixels[j].x, pixels[j].y)
    ensures GetPixelColor(Texture(width, height, Loaded(pixels, width, height)), pixels[k].x, pixels[k].y)
         == Pack(pixels[k].rgb)
  {
    LoadedStoresPixel(pixels, width, height, k);
  }
}
