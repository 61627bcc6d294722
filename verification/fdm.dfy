/** The object `FDM(N, h, dt)` builds: two textures seeded with the initial
    UV buffer, one pass already run, and the operations `step` and `toMesh`.
    Field values are the abstract type F; one kernel pass of the shader is
    the opaque function `kernel` on whole N x N RG textures. */
module Fdm {
  import opened Grid
  import opened Seed
  import opened Mesh
  import opened PingPong

  /** The shader pass turns an N x N RG texture into another one. */
  ghost predicate KeepsSize<F(!new)>(kernel: seq<F> -> seq<F>, n: nat)
  {
    forall c: seq<F> :: |c| == 2 * (n * n) ==> |kernel(c)| == 2 * (n * n)
  }

  /** A running simulation of an n x n grid, taken to own the GL context:
      its framebuffer is the one bound and its viewport and uniforms are set. */
  datatype Simulation<Tex(==), !F> = Simulation(n: nat, kernel: seq<F> -> seq<F>, gpu: Gpu<Tex, seq<F>>)

  /** What holds between calls: two distinct textures of the right size, and
      the framebuffer holding the read slot, so `readPixels` sees it. */
  ghost predicate Inv<Tex, F(!new)>(s: Simulation<Tex, F>)
  {
    && Valid(s.gpu)
    && s.gpu.attached == Some(s.gpu.texture0)
    && |s.gpu.store[s.gpu.texture0]| == 2 * (s.n * s.n)
    && |s.gpu.store[s.gpu.texture1]| == 2 * (s.n * s.n)
    && KeepsSize(s.kernel, s.n)
  }

  /** The field `readPixels` copies back into the UV buffer. */
  function Current<Tex(==), F(!new)>(s: Simulation<Tex, F>): (uv: seq<F>)
    requires Inv(s)
    ensures Readback(s.gpu) == Some(uv)
    ensures |uv| == 2 * (s.n * s.n)
  {
    s.gpu.store[s.gpu.texture0]
  }

  /** A size-preserving kernel keeps the size over any number of passes. */
  lemma {:induction false} IterateKeepsSize<F(!new)>(kernel: seq<F> -> seq<F>, n: nat, m: nat, c: seq<F>)
    requires KeepsSize(kernel, n) && |c| == 2 * (n * n)
    ensures |Iterate(kernel, m, c)| == 2 * (n * n)
    decreases m
  {
    if m > 0 {
      IterateKeepsSize(kernel, n, m - 1, kernel(c));
    }
  }

  /** Construction: both textures get copies of the seeded UV buffer, then
      `step(1)` runs one pass. Afterwards the read slot is the second texture
      holding one kernel pass of the seed, the first texture still holds the
      seed, and the framebuffer is attached, so `toMesh` can read back. */
  function Create<Tex(==), F(!new)>(n: nat, height: (nat, nat) -> F, zero: F, kernel: seq<F> -> seq<F>,
                              tex0: Tex, tex1: Tex): (s: Simulation<Tex, F>)
    requires tex0 != tex1
    requires KeepsSize(kernel, n)
    ensures Inv(s)
    ensures s.n == n && s.kernel == kernel
    ensures s.gpu.texture0 == tex1 && s.gpu.texture1 == tex0
    ensures Current(s) == kernel(InitialUV(n, height, zero))
    ensures s.gpu.store[tex0] == InitialUV(n, height, zero)
  {
    var uv := InitialUV(n, height, zero);
    var g := Gpu(tex0, tex1, map[tex0 := uv, tex1 := uv], None);
    Simulation(n, kernel, Step(g, kernel, 1))
  }

  /** `step(m)` on a running simulation: the invariant is kept and the field
      read back afterwards is m kernel passes further on. */
  function StepSim<Tex(==), F(!new)>(s: Simulation<Tex, F>, m: nat): (r: Simulation<Tex, F>)
    requires Inv(s)
    ensures Inv(r)
    ensures r.n == s.n && r.kernel == s.kernel
    ensures Current(r) == Iterate(s.kernel, m, Current(s))
  {
    IterateKeepsSize(s.kernel, s.n, m, Current(s));
    IterateKeepsSize(s.kernel, s.n, if m > 0 then m - 1 else 0, Current(s));
    Simulation(s.n, s.kernel, Step(s.gpu, s.kernel, m))
  }

  /** `toMesh`: read the field back, then build the vertex and index lists.
      There are n*n vertices, the vertex at index(i, j) is cell (i, j) with
      the u component of that cell in the field just read, and the index
      list is the grid triangulation, every entry naming an existing vertex. */
  method ToMesh<Tex(==), F(!new)>(s: Simulation<Tex, F>) returns (vertices: seq<Vertex<F>>, indices: seq<nat>)
    requires Inv(s)
    ensures |vertices| == s.n * s.n
    ensures forall i, j :: 0 <= i < s.n && 0 <= j < s.n ==>
              vertices[Index(s.n, i, j)] == Vertex(j, i, U(Current(s), Index(s.n, i, j)))
    ensures indices == Triangles(s.n)
    ensures |indices| == 6 * QuadCount(s.n)
    ensures forall p :: 0 <= p < |indices| ==> indices[p] < |vertices|
  {
    var uv := Current(s);
    vertices := BuildVertices(s.n, uv);
    indices := BuildTriangles(s.n);
  }

  /** After construction and any further `step(m)`, the field read back is
      the seed after m + 1 kernel passes (the construction pass included). */
  lemma CreateThenStep<Tex, F(!new)>(n: nat, height: (nat, nat) -> F, zero: F, kernel: seq<F> -> seq<F>,
                                   tex0: Tex, tex1: Tex, m: nat)
    requires tex0 != tex1
    requires KeepsSize(kernel, n)
    ensures Current(StepSim(Create(n, height, zero, kernel, tex0, tex1), m))
         == Iterate(kernel, m + 1, InitialUV(n, height, zero))
  {
  }

  lemma {:induction false} IterateIdentity<C(!new)>(f: C -> C, m: nat, x: C)
    requires forall c :: f(c) == c
    ensures Iterate(f, m, x) == x
    decreases m
  {
    if m > 0 {
      IterateIdentity(f, m - 1, f(x));
    }
  }

  /** With a pass that leaves the field unchanged (a time step of zero), the
      mesh shows, at every cell (i, j), exactly the height seeded for that
      cell, however many steps were taken: the seeding decode, the `index`
      used for reading and the ping-pong all agree on which slot is which. */
  lemma StillFieldShowsSeed<Tex, F(!new)>(n: nat, height: (nat, nat) -> F, zero: F, kernel: seq<F> -> seq<F>,
                                        tex0: Tex, tex1: Tex, m: nat, i: nat, j: nat)
    requires tex0 != tex1
    requires forall c :: kernel(c) == c
    requires i < n && j < n
    ensures KeepsSize(kernel, n)
    ensures U(Current(StepSim(Create(n, height, zero, kernel, tex0, tex1), m)), Index(n, i, j)) == height(i, j)
    ensures V(Current(StepSim(Create(n, height, zero, kernel, tex0, tex1), m)), Index(n, i, j)) == zero
  {
    IterateIdentity(kernel, m + 1, InitialUV(n, height, zero));
    SeedAtCell(n, height, zero, i, j);
  }
}
