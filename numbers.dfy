/** Small numeric helpers shared by the player, the renderer and the sprite
    code. */
module Numbers {
  /** Absolute value, as `f32::abs`. */
  function Abs(r: real): real { if r < 0.0 then -r else r }

  /** The smaller of two indices, as `usize::min`. */
  function Min(a: nat, b: nat): nat { if a < b then a else b }

  /** The larger of two reals, as `f32::max` on non-NaN values. */
  function Max(a: real, b: real): real { if a < b then b else a }
}
