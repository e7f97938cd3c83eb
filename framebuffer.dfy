/** The pixel framebuffer every renderer draws into: a `width × height`
    row-major grid of colours plus two colour registers, the background
    colour used by `Clear` and the current colour used by `Point`. */
module Framebuffers {
  import opened Colors

  const U32Max: nat := 0xFFFF_FFFF

  // ---------------------------------------------------------------------
  // Pixel geometry
  // ---------------------------------------------------------------------

  /** Row-major index of pixel (x, y) in a buffer `w` pixels wide. */
  function Index(w: nat, x: nat, y: nat): nat
  {
    y * w + x
  }

  /** An in-bounds pixel has an index inside the buffer. */
  lemma IndexInBounds(w: nat, h: nat, x: nat, y: nat)
    requires x < w && y < h
    ensures Index(w, x, y) < w * h
  {
    assert y * w <= (h - 1) * w by { MulMonotone(y, h - 1, w); }
    assert (h - 1) * w + w == h * w;
  }

  lemma MulMonotone(a: nat, b: nat, c: nat)
    requires a <= b
    ensures a * c <= b * c
  {
  }

  /** The pixel stored at index `Index(w, x, y)` lies in column x and row y. */
  lemma CoordinatesOfIndex(w: nat, x: nat, y: nat)
    requires x < w
    ensures Index(w, x, y) % w == x && Index(w, x, y) / w == y
  {
    var k := Index(w, x, y);
    var q, r := k / w, k % w;
    assert k == q * w + r;
    if q < y {
      assert q * w + r < (q + 1) * w;
      MulMonotone(q + 1, y, w);
    } else if q > y {
      MulMonotone(y + 1, q, w);
    }
  }

  /** A half-open pixel rectangle `[x0, x1) × [y0, y1)`. */
  datatype Rect = Rect(x0: nat, x1: nat, y0: nat, y1: nat) {
    predicate Contains(x: nat, y: nat) {
      x0 <= x < x1 && y0 <= y < y1
    }
  }

  // ---------------------------------------------------------------------
  // The effect of drawing operations on the pixel sequence
  // ---------------------------------------------------------------------

  /** The buffer after one `point(x, y)` in colour `c`: the pixel in
      column x and row y becomes `c`, every other pixel is unchanged; when
      (x, y) is out of bounds no pixel has those coordinates and the buffer
      is unchanged. */
  ghost function Plotted(s: seq<Color>, w: nat, h: nat, x: nat, y: nat, c: Color): (r: seq<Color>)
    requires |s| == w * h
    ensures |r| == |s|
    ensures x < w && y < h ==> Index(w, x, y) < |s| && r == s[Index(w, x, y) := c]
    ensures !(x < w && y < h) ==> r == s
  {
    if w == 0 then s
    else
      var r := Paint(s, w, x, y, c);
      if x < w && y < h then
        PaintInBounds(s, w, h, x, y, c);
        r
      else
        PaintOutOfBounds(s, w, h, x, y, c);
        r
  }

  /** Pixel-wise form of `Plotted`. */
  ghost function Paint(s: seq<Color>, w: nat, x: nat, y: nat, c: Color): (r: seq<Color>)
    requires w > 0
  {
    seq(|s|, k requires 0 <= k < |s| => if k % w == x && k / w == y then c else s[k])
  }

  lemma PaintInBounds(s: seq<Color>, w: nat, h: nat, x: nat, y: nat, c: Color)
    requires |s| == w * h && x < w && y < h
    ensures Index(w, x, y) < |s| && Paint(s, w, x, y, c) == s[Index(w, x, y) := c]
  {
    IndexInBounds(w, h, x, y);
    CoordinatesOfIndex(w, x, y);
    var i := Index(w, x, y);
    var r, t := Paint(s, w, x, y, c), s[i := c];
    forall k | 0 <= k < |s| ensures r[k] == t[k] {
      if k != i {
        IndexOfCoordinates(w, k);
      }
    }
  }

  lemma PaintOutOfBounds(s: seq<Color>, w: nat, h: nat, x: nat, y: nat, c: Color)
    requires |s| == w * h && w > 0 && !(x < w && y < h)
    ensures Paint(s, w, x, y, c) == s
  {
    var r := Paint(s, w, x, y, c);
    forall k | 0 <= k < |s| ensures r[k] == s[k] {
      DivBelow(k, w, h);
    }
  }

  /** Pixel-wise reading of `Plotted`: pixel k changes exactly when it lies in
      column x and row y. */
  lemma PlottedAt(s: seq<Color>, w: nat, h: nat, x: nat, y: nat, c: Color, k: nat)
    requires |s| == w * h && k < |s|
    ensures w > 0
    ensures Plotted(s, w, h, x, y, c)[k] == if k % w == x && k / w == y then c else s[k]
  {
    DivBelow(k, w, h);
    if x < w && y < h {
      CoordinatesOfIndex(w, x, y);
      IndexOfCoordinates(w, k);
    }
  }

  /** Every index is the index of its own column and row. */
  lemma IndexOfCoordinates(w: nat, k: nat)
    requires w > 0
    ensures k == Index(w, k % w, k / w)
  {
  }

  lemma DivBelow(k: nat, w: nat, h: nat)
    requires k < w * h
    ensures w > 0 && k / w < h
  {
    if k / w >= h {
      MulMonotone(h, k / w, w);
    }
  }

  /** The buffer with every pixel inside rectangle `rect` set to `c` and
      every other pixel unchanged; pixels of the rectangle that fall outside
      the buffer are simply absent. */
  ghost function FillRect(s: seq<Color>, w: nat, rect: Rect, c: Color): (r: seq<Color>)
    ensures |r| == |s|
  {
    if w == 0 then s
    else seq(|s|, k requires 0 <= k < |s| => if rect.Contains(k % w, k / w) then c else s[k])
  }

  /** The buffer after plotting the points `pts` one after another in
      colour `c`. */
  ghost function PlotAll(s: seq<Color>, w: nat, h: nat, pts: seq<(nat, nat)>, c: Color): (r: seq<Color>)
    requires |s| == w * h
    ensures |r| == |s|
  {
    if pts == [] then s
    else
      var last := pts[|pts| - 1];
      Plotted(PlotAll(s, w, h, pts[..|pts| - 1], c), w, h, last.0, last.1, c)
  }

  /** Plotting row y of column x extends a filled column segment by one
      pixel. */
  lemma PlotExtendsColumn(t: seq<Color>, w: nat, h: nat, x: nat, y0: nat, y: nat, c: Color)
    requires |t| == w * h && y0 <= y
    ensures Plotted(FillRect(t, w, Rect(x, x + 1, y0, y), c), w, h, x, y, c)
         == FillRect(t, w, Rect(x, x + 1, y0, y + 1), c)
  {
    var before := FillRect(t, w, Rect(x, x + 1, y0, y), c);
    var lhs, rhs := Plotted(before, w, h, x, y, c), FillRect(t, w, Rect(x, x + 1, y0, y + 1), c);
    forall k | 0 <= k < |t| ensures lhs[k] == rhs[k] {
      PlottedAt(before, w, h, x, y, c, k);
    }
  }

  /** A finished column joins the columns filled before it. */
  lemma ColumnExtendsRect(t: seq<Color>, w: nat, x0: nat, x: nat, y0: nat, y1: nat, c: Color)
    requires x0 <= x
    ensures FillRect(FillRect(t, w, Rect(x0, x, y0, y1), c), w, Rect(x, x + 1, y0, y1), c)
         == FillRect(t, w, Rect(x0, x + 1, y0, y1), c)
  {
  }

  /** Filling an empty rectangle changes nothing. */
  lemma FillEmpty(t: seq<Color>, w: nat, rect: Rect, c: Color)
    requires rect.x1 <= rect.x0 || rect.y1 <= rect.y0
    ensures FillRect(t, w, rect, c) == t
  {
  }

  /** After `PlotAll`, a pixel holds `c` exactly when one of the points lies
      on it, and is unchanged otherwise. */
  lemma {:induction false} PlotAllAt(s: seq<Color>, w: nat, h: nat, pts: seq<(nat, nat)>, c: Color, k: nat)
    requires |s| == w * h && k < |s|
    ensures w > 0
    ensures PlotAll(s, w, h, pts, c)[k]
         == if exists j :: 0 <= j < |pts| && pts[j] == (k % w, k / w) then c else s[k]
  {
    DivBelow(k, w, h);
    if pts != [] {
      var init, last := pts[..|pts| - 1], pts[|pts| - 1];
      PlotAllAt(s, w, h, init, c, k);
      PlottedAt(PlotAll(s, w, h, init, c), w, h, last.0, last.1, c, k);
      if exists j :: 0 <= j < |init| && init[j] == (k % w, k / w) {
        var j :| 0 <= j < |init| && init[j] == (k % w, k / w);
        assert pts[j] == init[j];
      }
      if exists j :: 0 <= j < |pts| && pts[j] == (k % w, k / w) {
        var j :| 0 <= j < |pts| && pts[j] == (k % w, k / w);
        if j < |init| {
          assert init[j] == pts[j];
        }
      }
    }
  }

  // ---------------------------------------------------------------------
  // The framebuffer object
  // ---------------------------------------------------------------------

  class Framebuffer {
    const width: nat
    const height: nat
    const buffer: array<Color>
    var backgroundColor: Color
    var currentColor: Color

    /** The buffer holds one colour per pixel. */
    ghost predicate Valid()
    {
      buffer.Length == width * height
    }

    /** A `width × height` buffer, every pixel black, both registers black.
        The pixel count is computed in 32 bits by the source, so it must not
        overflow. */
    constructor (width: nat, height: nat)
      requires width * height <= U32Max
      ensures Valid() && fresh(buffer)
      ensures this.width == width && this.height == height
      ensures backgroundColor == Black && currentColor == Black
      ensures forall k :: 0 <= k < buffer.Length ==> buffer[k] == backgroundColor
    {
      this.width := width;
      this.height := height;
      buffer := new Color[width * height](_ => Black);
      backgroundColor := Black;
      currentColor := Black;
    }

    /** Changes the background register only. */
    method SetBackgroundColor(hex: bv32)
      modifies this
      ensures backgroundColor == FromHex(hex)
      ensures currentColor == old(currentColor)
      ensures buffer[..] == old(buffer[..])
    {
      backgroundColor := FromHex(hex);
    }

    /** Changes the current drawing register only. */
    method SetCurrentColor(hex: bv32)
      modifies this
      ensures currentColor == FromHex(hex)
      ensures backgroundColor == old(backgroundColor)
      ensures buffer[..] == old(buffer[..])
    {
      currentColor := FromHex(hex);
    }

    /** Every pixel becomes the background colour; the registers are not
        touched. */
    method Clear()
      requires Valid()
      modifies buffer
      ensures forall k :: 0 <= k < buffer.Length ==> buffer[k] == backgroundColor
    {
      var k := 0;
      while k < buffer.Length
        invariant 0 <= k <= buffer.Length
        invariant forall j :: 0 <= j < k ==> buffer[j] == backgroundColor
      {
        buffer[k] := backgroundColor;
        k := k + 1;
      }
    }

    /** Writes the current colour at (x, y) if it is inside the buffer and
        silently does nothing otherwise. */
    method Point(x: nat, y: nat)
      requires Valid()
      modifies buffer
      ensures buffer[..] == Plotted(old(buffer[..]), width, height, x, y, currentColor)
    {
      if x < width && y < height {
        IndexInBounds(width, height, x, y);
        buffer[Index(width, x, y)] := currentColor;
      }
    }

    /** The presentation buffer: one packed `0xRRGGBB` word per pixel, in the
        same order, each below 2^24 and decoding back to its pixel. */
    function U32Buffer(): (words: seq<bv32>)
      reads buffer
      ensures |words| == buffer.Length
      ensures forall k :: 0 <= k < |words| ==> words[k] < 0x100_0000 && FromHex(words[k]) == buffer[k]
    {
      seq(buffer.Length, k reads buffer requires 0 <= k < buffer.Length => Pack(buffer[k]))
    }
  }
}
