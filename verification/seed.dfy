/** The initial UV buffer built when `FDM` starts: one [u, v] pair per cell,
    in flat (row-major) order, u being the initial height of the cell and v
    starting at zero. The Gaussian superposition that produces u is floating
    point and random, so it is the parameter `height`, a function of the
    decoded (row, column) of the flat position. */
module Seed {
  import opened Grid

  /** The u component of the cell at flat position p of an interleaved UV buffer. */
  function U<F>(uv: seq<F>, p: nat): F
    requires 2 * p + 1 < |uv|
  {
    uv[2 * p]
  }

  /** The v component of the cell at flat position p of an interleaved UV buffer. */
  function V<F>(uv: seq<F>, p: nat): F
    requires 2 * p + 1 < |uv|
  {
    uv[2 * p + 1]
  }

  /** What the `flatMap` over `Array(N * N)` has produced after its first k
      callbacks: every position p < k contributes [height(p / N, p % N), 0]. */
  function SeedPrefix<F>(n: nat, height: (nat, nat) -> F, zero: F, k: nat): (uv: seq<F>)
    requires k <= n * n
    ensures |uv| == 2 * k
    ensures forall p :: 0 <= p < k ==> n > 0 && U(uv, p) == height(Row(n, p), Col(n, p))
    ensures forall p :: 0 <= p < k ==> V(uv, p) == zero
    decreases k
  {
    if k == 0 then []
    else
      DecodeInGrid(n, k - 1);
      var prev := SeedPrefix(n, height, zero, k - 1);
      var uv := prev + [height(Row(n, k - 1), Col(n, k - 1)), zero];
      AppendPair(prev, height(Row(n, k - 1), Col(n, k - 1)), zero);
      uv
  }

  /** Appending one [u, v] pair keeps every earlier cell and adds one cell. */
  lemma AppendPair<F>(uv: seq<F>, u: F, v: F)
    requires |uv| % 2 == 0
    ensures forall p :: 0 <= p < |uv| / 2 ==> U(uv + [u, v], p) == U(uv, p) && V(uv + [u, v], p) == V(uv, p)
    ensures U(uv + [u, v], |uv| / 2) == u && V(uv + [u, v], |uv| / 2) == v
  {
  }

  /** The whole initial UV buffer of an n x n grid. */
  function InitialUV<F>(n: nat, height: (nat, nat) -> F, zero: F): (uv: seq<F>)
    ensures |uv| == 2 * (n * n)
    ensures forall p :: 0 <= p < n * n ==> n > 0 && U(uv, p) == height(Row(n, p), Col(n, p))
    ensures forall p :: 0 <= p < n * n ==> V(uv, p) == zero
  {
    SeedPrefix(n, height, zero, n * n)
  }

  /** The buffer holds two entries per cell, and the height seeded for cell
      (i, j) sits at the u slot of flat position index(i, j), the same slot
      the mesh builder later reads; its v slot starts at zero. */
  lemma SeedAtCell<F>(n: nat, height: (nat, nat) -> F, zero: F, i: nat, j: nat)
    requires i < n && j < n
    ensures |InitialUV(n, height, zero)| == 2 * (n * n)
    ensures U(InitialUV(n, height, zero), Index(n, i, j)) == height(i, j)
    ensures V(InitialUV(n, height, zero), Index(n, i, j)) == zero
  {
    DecodeIndex(n, i, j);
  }
}
