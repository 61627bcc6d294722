/** The texture ping-pong of `step(n)`. Two texture slots, `texture0` (read)
    and `texture1` (write), name textures held in GPU memory. Every pass
    samples `texture0`, attaches `texture1` to the framebuffer, renders one
    kernel pass into it and swaps the two names. Textures are opaque tokens
    and the fragment kernel, which lives in a shader outside this model, is
    the opaque function `kernel` from one texture content to the next. */
module PingPong {

  datatype Option<T> = None | Some(value: T)

  /** The texture names and GPU memory `step` works on; `attached` is the
      framebuffer's colour attachment (none before the first pass). */
  datatype Gpu<Tex(==), C> = Gpu(texture0: Tex, texture1: Tex, store: map<Tex, C>, attached: Option<Tex>)

  /** One draw call: `source` is sampled, `target` is rendered into. */
  datatype Pass<Tex> = Pass(source: Tex, target: Tex)

  /** The two slots name two distinct textures that both exist. */
  predicate Valid<Tex(==), C>(g: Gpu<Tex, C>)
  {
    g.texture0 != g.texture1 && g.texture0 in g.store && g.texture1 in g.store
  }

  /** x after n applications of f. */
  function Iterate<C>(f: C -> C, n: nat, x: C): C
    decreases n
  {
    if n == 0 then x else Iterate(f, n - 1, f(x))
  }

  /** One iteration of the loop body of `step`. The texture just written
      becomes the read slot, and the texture just read, left untouched
      because it is not the one rendered into, becomes the write slot. */
  function Draw<Tex(==), C>(g: Gpu<Tex, C>, kernel: C -> C): (r: Gpu<Tex, C>)
    requires Valid(g)
    ensures Valid(r)
    ensures r.store.Keys == g.store.Keys
    ensures r.texture0 == g.texture1 && r.texture1 == g.texture0
    ensures r.store[r.texture0] == kernel(g.store[g.texture0])
    ensures r.store[r.texture1] == g.store[g.texture0]
    ensures r.attached == Some(r.texture0)
  {
    Gpu(g.texture1, g.texture0, g.store[g.texture1 := kernel(g.store[g.texture0])], Some(g.texture1))
  }

  /** `step(n)` for n >= 0: n passes. The slots end up exchanged exactly
      when n is odd, the read slot holds the content after n kernel passes,
      the write slot the content one pass older, and after at least one pass
      the framebuffer holds the read slot. `step(0)` changes nothing. */
  function Step<Tex(==), C>(g: Gpu<Tex, C>, kernel: C -> C, n: nat): (r: Gpu<Tex, C>)
    requires Valid(g)
    ensures Valid(r)
    ensures n % 2 == 0 ==> r.texture0 == g.texture0 && r.texture1 == g.texture1
    ensures n % 2 == 1 ==> r.texture0 == g.texture1 && r.texture1 == g.texture0
    ensures r.store[r.texture0] == Iterate(kernel, n, g.store[g.texture0])
    ensures n > 0 ==> r.store[r.texture1] == Iterate(kernel, n - 1, g.store[g.texture0])
    ensures n > 0 ==> r.attached == Some(r.texture0)
    ensures n == 0 ==> r == g
    decreases n
  {
    if n == 0 then g else Step(Draw(g, kernel), kernel, n - 1)
  }

  /** The draw calls `step(n)` issues, in order, starting from slots
      (t0, t1): pass k reads t0 and writes t1 when k is even, and the other
      way round when k is odd; with distinct textures no pass reads the
      texture it writes. */
  function Passes<Tex(==)>(t0: Tex, t1: Tex, n: nat): (ps: seq<Pass<Tex>>)
    ensures |ps| == n
    ensures forall k :: 0 <= k < n ==> ps[k] == (if k % 2 == 0 then Pass(t0, t1) else Pass(t1, t0))
    ensures t0 != t1 ==> forall k :: 0 <= k < n ==> ps[k].source != ps[k].target
    decreases n
  {
    if n == 0 then [] else [Pass(t0, t1)] + Passes(t1, t0, n - 1)
  }

  /** `step(n)` as written: `while (n--)` with the loop body of `Draw`. It
      returns the final slots and the passes drawn. A negative n never
      reaches 0, so the loop only terminates for n >= 0. */
  method RunStep<Tex(==), C>(g: Gpu<Tex, C>, kernel: C -> C, n: int) returns (r: Gpu<Tex, C>, trace: seq<Pass<Tex>>)
    requires Valid(g)
    requires n >= 0
    ensures r == Step(g, kernel, n)
    ensures trace == Passes(g.texture0, g.texture1, n)
  {
    r := g;
    trace := [];
    var left := n;
    while left != 0
      invariant 0 <= left <= n
      invariant Valid(r)
      invariant Step(r, kernel, left) == Step(g, kernel, n)
      invariant trace + Passes(r.texture0, r.texture1, left) == Passes(g.texture0, g.texture1, n)
      decreases left
    {
      left := left - 1;
      trace := trace + [Pass(r.texture0, r.texture1)];
      r := Draw(r, kernel);
    }
  }

  /** `step(a)` followed by `step(b)` is `step(a + b)`: calling `step` with
      small counts per animation frame is the same as one larger call. */
  lemma {:induction false} StepAdditive<Tex, C>(g: Gpu<Tex, C>, kernel: C -> C, a: nat, b: nat)
    requires Valid(g)
    ensures Step(Step(g, kernel, a), kernel, b) == Step(g, kernel, a + b)
    decreases a
  {
    if a > 0 {
      StepAdditive(Draw(g, kernel), kernel, a - 1, b);
    }
  }

  /** `step(n)` creates and deletes no texture: only the two slot textures
      are ever written, and every other texture keeps its content. */
  lemma {:induction false} StepKeepsOtherTextures<Tex, C>(g: Gpu<Tex, C>, kernel: C -> C, n: nat)
    requires Valid(g)
    ensures Step(g, kernel, n).store.Keys == g.store.Keys
    ensures forall t :: t in g.store && t != g.texture0 && t != g.texture1 ==>
              Step(g, kernel, n).store[t] == g.store[t]
    decreases n
  {
    if n > 0 {
      StepKeepsOtherTextures(Draw(g, kernel), kernel, n - 1);
    }
  }

  /** What `readPixels` returns: the content of the framebuffer's texture. */
  function Readback<Tex(==), C>(g: Gpu<Tex, C>): (r: Option<C>)
    ensures g.attached.None? ==> r.None?
    ensures Valid(g) && g.attached == Some(g.texture0) ==> r == Some(g.store[g.texture0])
    ensures Valid(g) && g.attached == Some(g.texture1) ==> r == Some(g.store[g.texture1])
  {
    if g.attached.Some? && g.attached.value in g.store then Some(g.store[g.attached.value]) else None
  }

  /** After at least one pass the framebuffer still holds the texture written
      last, which is the current read slot: a readback sees the newest field,
      n kernel passes after the content the read slot started with. */
  lemma ReadbackAfterStep<Tex, C>(g: Gpu<Tex, C>, kernel: C -> C, n: nat)
    requires Valid(g) && n > 0
    ensures Readback(Step(g, kernel, n)) == Some(Iterate(kernel, n, g.store[g.texture0]))
  {
  }
}
