# FDM-PDE-visualizer: grid addressing, mesh triangulation and texture ping-pong

This project models the integer bookkeeping of `src/FDM.ts`, the GPU
finite-difference solver of the visualizer. That bookkeeping covers five things:

- the row-major `index(i, j) = i*N + j` of the N x N grid, and the decode
  `k -> (floor(k/N), k mod N)` used when the initial field is seeded;
- the interleaved UV buffer: one `[u, 0]` pair per cell, in flat order;
- the `step(n)` loop, which renders n passes of the solver shader, ping-ponging
  between two textures, and the `step(1)` run at construction;
- the read-back of the last rendered texture;
- `toMesh`, which builds one vertex per cell and two triangles per quad of
  neighbouring cells.

Modules follow those parts:

- `Grid` (grid.dfy): `Index`, `Row`, `Col` and the bijection between grid
  cells and the flat positions `[0, N*N)`.
- `Seed` (seed.dfy): the layout of the initial UV buffer. The Gaussian height
  of a cell is the parameter `height`, a function of the cell's row and column.
- `Mesh` (mesh.dfy): the vertex loop and the triangle-index loop of `toMesh`.
  Each loop is a method with loop invariants. Each is also given a reference
  definition, and the lemmas about the list's length, bounds, corners and
  winding are stated against that definition.
- `PingPong` (pingpong.dfy): the two texture slots, GPU memory as a map from
  opaque texture tokens to contents, and the framebuffer attachment. The loop
  body of `step` is `Draw`, and `RunStep` is the `while (n--)` loop itself.
- `Fdm` (fdm.dfy): the object `FDM` returns. It holds construction (seed both
  textures, then `step(1)`), `step`, the read-back, and `toMesh`.

Field values are an abstract type `F`. The shader pass is an opaque function
`kernel` from one texture content to the next, because the finite-difference
stencil lives in the shader `FDM.glsl`, which is not part of this model.

## Model

| member | source | states |
|---|---|---|
| `Grid.Index` | src/FDM.ts:110 | `index(i, j)` of an in-grid cell lies in `[0, N*N)` |
| `Grid.Row` | src/FDM.ts:74 | the row `Math.floor(k / N)` of flat position k is the r with r*N <= k < (r+1)*N |
| `Grid.Col` | src/FDM.ts:74 | the column `k % N` of flat position k lies below N, and row*N + column gives back k |
| `Grid.DecodeIndex` | src/FDM.ts:66-74 | the decode `(floor(k/N), k % N)` of `index(i, j)` gives back `(i, j)` for every column `j < N` |
| `Grid.EncodeDecode` | src/FDM.ts:66-74 | encoding the decoded row and column of any flat position k gives back k |
| `Grid.DecodeInGrid` | src/FDM.ts:66-74 | every flat position below N*N decodes to a row and a column below N (and N > 0) |
| `Grid.IndexInjective` | src/FDM.ts:110 | two in-range cells with the same `index` are the same cell |
| `Grid.IndexOnto` | src/FDM.ts:110 | every position in `[0, N*N)` is the `index` of some grid cell, so `index` is a bijection onto the buffer |
| `Seed.SeedPrefix` | src/FDM.ts:65-80 | after k callbacks of the `flatMap` the buffer has length 2k; position p holds `[height(floor(p/N), p % N), 0]` |
| `Seed.InitialUV` | src/FDM.ts:65-80 | the initial `UV` buffer has 2*N*N entries; flat position p holds `[height(floor(p/N), p % N), 0]` |
| `Seed.SeedAtCell` | src/FDM.ts:65-80 | the initial buffer has length 2*N*N; cell (i, j)'s height sits at the u slot of `index(i, j)` and its v slot is 0 |
| `Mesh.BuildVertices` | src/FDM.ts:115-120 | the vertex loop yields exactly N*N vertices; the one at `index(i, j)` is cell (i, j) with height `UV[index(i, j)*2]` |
| `Mesh.VerticesAtCells` | src/FDM.ts:115-120 | the reference vertex list has N*N vertices, in row-major order, each carrying its own cell's u component |
| `Mesh.BuildTriangles` | src/FDM.ts:121-127 | the index loop yields the reference triangulation; it has 6*(N-1)^2 entries (none for N = 0), each below N*N |
| `Mesh.QuadTriangles` | src/FDM.ts:124-125 | the two pushes for quad (i, j) add six entries; both triangles share the diagonal (i-1, j-1)-(i, j); for an in-grid quad every entry is below N*N |
| `Mesh.QuadCorners` | src/FDM.ts:124-125 | the four corners of a quad are distinct, in increasing order, and inside the vertex list |
| `Mesh.QuadTrianglesProper` | src/FDM.ts:124-125 | each triangle of a quad has three distinct vertices; the two share the diagonal (i-1, j-1)-(i, j), differ in the third vertex, and together cover exactly the four corners |
| `Mesh.QuadWinding` | src/FDM.ts:124-125 | with x = column and y = row, both triangles of a quad have cross product +1 (same counter-clockwise winding) |
| `Mesh.WindingOfCells` | src/FDM.ts:124-125 | the winding of a triangle of grid cells equals the cross product of its row and column offsets |
| `Mesh.QuadProgress` | src/FDM.ts:122-123 | before visiting quad (i, j) the loop has visited `(i-1)*(N-1) + (j-1)` quads, never more than (N-1)^2; finishing row i leads into row i + 1 |
| `Mesh.QuadAppend` | src/FDM.ts:124-125 | visiting quad (i, j) appends exactly that quad's six entries to the list |
| `Mesh.TrianglesUpToLength` | src/FDM.ts:122-126 | each visited quad adds exactly six entries |
| `Mesh.TrianglesUpToBounds` | src/FDM.ts:122-126 | after any number of quads every entry is a vertex position below N*N |
| `Mesh.TrianglesUpToWinding` | src/FDM.ts:122-126 | after any number of quads every triangle in the list has positive winding |
| `Mesh.TrianglesShape` | src/FDM.ts:121-127 | the full index list has 6*(N-1)^2 entries for N >= 1, all below N*N, and every triangle is counter-clockwise |
| `Mesh.QuadPlacement` | src/FDM.ts:122-126 | the six entries of the r-th visited quad sit at list positions 6r..6r+5 |
| `Mesh.QuadInList` | src/FDM.ts:122-126 | quad (i, j)'s triangles sit at position `6*((i-1)*(N-1) + (j-1))`, so quads appear in row-major order |
| `PingPong.Draw` | src/FDM.ts:94-104 | one pass swaps the slots; the new read slot holds the kernel applied to the old read slot; the old read slot is not overwritten; the framebuffer holds the new read slot |
| `PingPong.Step` | src/FDM.ts:93-105 | `step(n)` exchanges the slots iff n is odd; the read slot holds n kernel passes of the start, the write slot n-1; `step(0)` changes nothing |
| `PingPong.Passes` | src/FDM.ts:93-105 | `step(n)` issues exactly n draws alternating between (texture0 -> texture1) and (texture1 -> texture0); no draw reads the texture it writes |
| `PingPong.RunStep` | src/FDM.ts:93-105 | the `while (n--)` loop with n >= 0 ends in the state and draw trace of n passes |
| `PingPong.StepAdditive` | src/FDM.ts:93-105 | `step(a)` then `step(b)` equals `step(a + b)` |
| `PingPong.StepKeepsOtherTextures` | src/FDM.ts:93-105 | `step(n)` creates no texture, deletes none, and leaves every texture other than the two slots unchanged |
| `PingPong.Readback` | src/FDM.ts:113 | `readPixels` with no framebuffer attachment yields nothing; with either slot attached it yields that slot's content |
| `PingPong.ReadbackAfterStep` | src/FDM.ts:93-113 | after at least one pass, reading the framebuffer yields the read slot, n kernel passes after its start |
| `Fdm.Current` | src/FDM.ts:113 | the field read back is the framebuffer's texture and has 2*N*N entries |
| `Fdm.Create` | src/FDM.ts:82-108 | after seeding two distinct textures and `step(1)`, the invariant holds, the read slot holds one pass of the seed, the other still holds the seed |
| `Fdm.StepSim` | src/FDM.ts:93-105 | `step(m)` keeps the invariant and advances the read-back field by m kernel passes |
| `Fdm.ToMesh` | src/FDM.ts:112-127 | `toMesh` gives N*N vertices with heights from the read-back field at `index(i, j)`, and a triangulation whose every entry names an existing vertex |
| `Fdm.CreateThenStep` | src/FDM.ts:82-108 | after construction and `step(m)` the field read back is the seed after m + 1 passes |
| `Fdm.StillFieldShowsSeed` | src/FDM.ts:65-118 | with a pass that leaves the field unchanged, the mesh height at cell (i, j) is the height seeded for (i, j), whatever number of steps |

## Left out

- WebGL setup: the canvas, program, quad buffers, textures and framebuffer (src/FDM.ts:1-44, 82-91). This is foreign GPU API. Textures are opaque tokens whose `createTexture` results are distinct.
- The shader `FDM.glsl` and its uniforms `N`, `h`, `dt` (src/FDM.ts:85-88). The finite-difference stencil and the time integration live there. FDM.glsl is not part of this model, and one pass is the opaque `kernel`.
- The Gaussian initial values: `rand`, `Math.exp`, `Math.sqrt` and the 100 random peaks (src/FDM.ts:53-63, 69-77). These are floating point and random, so they are the parameter `height`.
- `Seed.SeedPrefix`: any n is accepted. In FDM.ts, `Array(N * N)` (src/FDM.ts:66) throws a RangeError once N*N >= 2^32 (N >= 65536), and the GPU's maximum texture size rejects much smaller N; neither error path is modelled.
- `Seed.InitialUV`: likewise returns a 2*N*N buffer for every n, where `Array(N * N)` would throw a RangeError for N >= 65536.
- Float32 storage and rounding of the UV buffer and textures. Values are an abstract type.
- `Mesh.BuildVertices`: x and y are the integer column j and row i. The source's `j/(N-1)` and `i/(N-1)` are floating point (and divide by zero when N = 1).
- `Mesh.BuildVertices`: the flattening into three floats per vertex in a `Float32Array`, the THREE geometry, normals and material (src/FDM.ts:129-143). These are a library wrapper.
- `PingPong.RunStep`: requires n >= 0. With a negative n, `while (n--)` never reaches 0 and does not terminate. The caller in src/index.ts only passes `Math.round` of a non-negative time difference.
- `Fdm.Create`: requires the kernel to map a texture of 2*N*N values to one of the same size. A WebGL pass always renders the whole N x N target, so this holds of the real shader while the viewport is this instance's own (see the next line).
- `Fdm.Create`: each simulation is taken to own the GL context. In FDM.ts the context `gl` (src/FDM.ts:4-5) is shared by every `FDM(...)` call, and so are the framebuffer binding (91), the viewport (49) and the uniforms `N`, `h`, `dt` (86-88). So only the most recently created instance steps and reads back as modelled, and `Fdm.CreateThenStep`, `Fdm.StillFieldShowsSeed` and the size-keeping requirement above hold only for that instance. src/index.ts (32-35) cancels the old animation loop before creating a new instance.
- `Fdm.Current`: `readPixels` is taken to return the texture in the flat layout it was uploaded with.
- All of src/index.ts: the scene, camera, lights, animation-frame loop and the timing-derived step counts. This is rendering plumbing.
