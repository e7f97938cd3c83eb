/** Ray-versus-grid stepping. A ray is walked in steps of 2 units; the
    integer pixel reached at step k is the k-th sample, so the distance of
    sample k is 2k. The trigonometry that produces the samples is not part of
    this model: the samples are given. */
module Cast {
  import opened Colors
  import opened Framebuffers
  import opened Grid
  import opened Options

  /** Width of every wall texture, in texels. */
  const TextureWidth: nat := 128

  /** Distance between consecutive samples. */
  const Step: nat := 2

  /** The colour a cast selects before stepping. */
  const RayColor: bv32 := 0xFFFFFF

  /** An integer sample point (x, y) of a ray. */
  type Sample = (nat, nat)

  /** What a cast reports: the distance of the hitting sample, the symbol of
      the cell it hit and the texture column for that hit. */
  datatype Intersect = Intersect(distance: nat, impact: char, tx: nat)

  /** The sub-cell offset used as texture-column basis: the x offset when
      it is away from both cell edges, otherwise the y offset. Either way it
      is an offset inside the cell. */
  function MaxHit(s: Sample, blockSize: nat): (m: nat)
    requires blockSize > 0
    ensures m < blockSize
    ensures 1 < s.0 % blockSize < blockSize - 1 ==> m == s.0 % blockSize
    ensures !(1 < s.0 % blockSize < blockSize - 1) ==> m == s.1 % blockSize
  {
    var hitx, hity := s.0 % blockSize, s.1 % blockSize;
    if hitx > 1 && hitx < blockSize - 1 then hitx else hity
  }

  /** The texture column for a sample: the chosen offset rescaled from
      `[0, blockSize)` to `[0, 128)`. It is always a valid column. */
  function TexColumn(s: Sample, blockSize: nat): (tx: nat)
    requires blockSize > 0
    ensures tx < TextureWidth
  {
    ScaleBelow(MaxHit(s, blockSize), blockSize, TextureWidth);
    MaxHit(s, blockSize) * TextureWidth / blockSize
  }

  /** `m * n / d` stays below `n` while `m` stays below `d`. */
  lemma ScaleBelow(m: nat, d: nat, n: nat)
    requires m < d && 0 < n
    ensures m * n / d < n
  {
    var p := m * n;
    var q := p / d;
    assert p == q * d + p % d;
    MulMonotone(m, d - 1, n);
    assert (d - 1) * n + n == d * n;
    if q >= n {
      MulMonotone(n, q, d);
      assert false;
    }
  }

  /** The sample lies in a cell that exists and is not open floor. */
  predicate IsHit(maze: Maze, s: Sample, blockSize: nat)
    requires blockSize > 0
  {
    IsWall(maze, s.0 / blockSize, s.1 / blockSize)
  }

  /** The report for a hit at sample number k. */
  function HitAt(maze: Maze, samples: seq<Sample>, blockSize: nat, k: nat): Intersect
    requires blockSize > 0 && k < |samples| && IsHit(maze, samples[k], blockSize)
  {
    var s := samples[k];
    Intersect(Step * k, Lookup(maze, s.0 / blockSize, s.1 / blockSize).value, TexColumn(s, blockSize))
  }

  /** Reference search: the first hitting sample at or after index k. */
  function FirstHitFrom(maze: Maze, samples: seq<Sample>, blockSize: nat, k: nat): Option<Intersect>
    requires blockSize > 0 && k <= |samples|
    decreases |samples| - k
  {
    if k == |samples| then None
    else if IsHit(maze, samples[k], blockSize) then Some(HitAt(maze, samples, blockSize, k))
    else FirstHitFrom(maze, samples, blockSize, k + 1)
  }

  function FirstHit(maze: Maze, samples: seq<Sample>, blockSize: nat): Option<Intersect>
    requires blockSize > 0
  {
    FirstHitFrom(maze, samples, blockSize, 0)
  }

  /** No sample in `[k, m)` hits. */
  predicate NoHitBetween(maze: Maze, samples: seq<Sample>, blockSize: nat, k: nat, m: nat)
    requires blockSize > 0 && m <= |samples|
  {
    forall j :: k <= j < m ==> !IsHit(maze, samples[j], blockSize)
  }

  /** The search from k finds nothing exactly when no sample from k on hits;
      when it finds something, it reports sample m = distance / 2, for which
      the cell exists, is not open floor and is the reported impact, the
      texture column is valid, and no sample between k and m hits. */
  lemma {:induction false} FirstHitFromSpec(maze: Maze, samples: seq<Sample>, blockSize: nat, k: nat)
    requires blockSize > 0 && k <= |samples|
    ensures FirstHitFrom(maze, samples, blockSize, k).None? <==> NoHitBetween(maze, samples, blockSize, k, |samples|)
    ensures FirstHitFrom(maze, samples, blockSize, k).Some? ==>
      var r := FirstHitFrom(maze, samples, blockSize, k).value;
      var m := r.distance / Step;
      && r.distance == Step * m
      && k <= m < |samples|
      && NoHitBetween(maze, samples, blockSize, k, m)
      && Lookup(maze, samples[m].0 / blockSize, samples[m].1 / blockSize) == Some(r.impact)
      && r.impact != Open
      && r.tx == TexColumn(samples[m], blockSize) && r.tx < TextureWidth
    decreases |samples| - k
  {
    if k < |samples| && !IsHit(maze, samples[k], blockSize) {
      FirstHitFromSpec(maze, samples, blockSize, k + 1);
    }
  }

  /** Conversely, a hitting sample m with no hit before it is what the search
      reports. */
  lemma {:induction false} FirstHitFromIsFirst(maze: Maze, samples: seq<Sample>, blockSize: nat, k: nat, m: nat)
    requires blockSize > 0 && k <= m < |samples|
    requires IsHit(maze, samples[m], blockSize) && NoHitBetween(maze, samples, blockSize, k, m)
    ensures FirstHitFrom(maze, samples, blockSize, k) == Some(HitAt(maze, samples, blockSize, m))
    decreases m - k
  {
    if k < m {
      FirstHitFromIsFirst(maze, samples, blockSize, k + 1, m);
    }
  }

  /** How many samples a cast visits: through the hitting one, or all. */
  function Visited(hit: Option<Intersect>, n: nat): nat
  {
    if hit.Some? then hit.value.distance / Step + 1 else n
  }

  /** Walks the samples in order, plotting each one when `drawLine` holds,
      and stops at the first sample whose cell exists and is not open; a
      sample outside the grid, in a missing row or past the end of a short
      row, is no hit. */
  method CastRay(fb: Framebuffer, maze: Maze, samples: seq<Sample>, blockSize: nat, drawLine: bool)
    returns (hit: Option<Intersect>)
    requires fb.Valid() && blockSize > 0
    modifies fb, fb.buffer
    ensures hit == FirstHit(maze, samples, blockSize)
    ensures Visited(hit, |samples|) <= |samples|
    ensures fb.currentColor == FromHex(RayColor) && fb.backgroundColor == old(fb.backgroundColor)
    ensures fb.buffer[..] == if drawLine
      then PlotAll(old(fb.buffer[..]), fb.width, fb.height, samples[..Visited(hit, |samples|)], FromHex(RayColor))
      else old(fb.buffer[..])
  {
    fb.SetCurrentColor(RayColor);
    ghost var before := old(fb.buffer[..]);
    var k := 0;
    while k < |samples|
      invariant 0 <= k <= |samples|
      invariant FirstHitFrom(maze, samples, blockSize, k) == FirstHit(maze, samples, blockSize)
      invariant fb.currentColor == FromHex(RayColor) && fb.backgroundColor == old(fb.backgroundColor)
      invariant fb.buffer[..] == if drawLine
        then PlotAll(before, fb.width, fb.height, samples[..k], FromHex(RayColor))
        else before
    {
      var s := samples[k];
      var i: nat, j: nat := s.0 / blockSize, s.1 / blockSize;
      var hitx, hity := s.0 % blockSize, s.1 % blockSize;
      var maxhit := if hitx > 1 && hitx < blockSize - 1 then hitx else hity;
      assert maxhit == MaxHit(s, blockSize);
      if drawLine {
        fb.Point(s.0, s.1);
        assert samples[..k + 1][..k] == samples[..k];
      }
      var cell := Lookup(maze, i, j);
      if cell.Some? && cell.value != Open {
        hit := Some(Intersect(Step * k, cell.value, maxhit * TextureWidth / blockSize));
        assert IsHit(maze, s, blockSize);
        assert hit == Some(HitAt(maze, samples, blockSize, k));
        assert Visited(hit, |samples|) == k + 1;
        return;
      }
      k := k + 1;
    }
    assert samples[..k] == samples;
    hit := None;
  }
}
