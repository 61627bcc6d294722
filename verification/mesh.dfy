/** The integer part of `toMesh`: one vertex per grid cell in row-major
    order, then two triangles per quad of neighbouring cells. A vertex keeps
    its integer grid coordinates x = column, y = row; `toMesh` in FDM.ts divides
    both by N - 1 in floating point, which is left abstract. */
module Mesh {
  import opened Grid
  import opened Seed

  /** A surface vertex: column j, row i and the height read from the field. */
  datatype Vertex<F> = Vertex(x: nat, y: nat, z: F)

  /** A triangle as three positions in the vertex list. */
  datatype Triangle = Triangle(a: nat, b: nat, c: nat)

  /** The vertex for flat position p: its cell and the u component of that cell. */
  function VertexAt<F>(n: nat, uv: seq<F>, p: nat): Vertex<F>
    requires n > 0 && 2 * p + 1 < |uv|
  {
    Vertex(Col(n, p), Row(n, p), U(uv, p))
  }

  /** Reference definition of the vertex list: position p holds the vertex of
      the cell that p decodes to. */
  function Vertices<F>(n: nat, uv: seq<F>): seq<Vertex<F>>
    requires |uv| == 2 * (n * n)
  {
    seq(n * n, p requires 0 <= p < n * n => DecodeInGrid(n, p); VertexAt(n, uv, p))
  }

  /** The vertex loop of `toMesh` (rows outer, columns inner). It produces the
      reference list: exactly n*n vertices, and the vertex at index(i, j) is
      cell (i, j) carrying the u component stored for that cell. */
  method BuildVertices<F>(n: nat, uv: seq<F>) returns (vs: seq<Vertex<F>>)
    requires |uv| == 2 * (n * n)
    ensures vs == Vertices(n, uv)
    ensures |vs| == n * n
    ensures forall i, j :: 0 <= i < n && 0 <= j < n ==>
              vs[Index(n, i, j)] == Vertex(j, i, U(uv, Index(n, i, j)))
  {
    vs := [];
    var i := 0;
    while i < n
      invariant 0 <= i <= n
      invariant |vs| == Index(n, i, 0) <= n * n
      invariant forall p :: 0 <= p < |vs| ==> vs[p] == VertexAt(n, uv, p)
    {
      var j := 0;
      while j < n
        invariant 0 <= j <= n
        invariant |vs| == Index(n, i, j) <= n * n
        invariant forall p :: 0 <= p < |vs| ==> vs[p] == VertexAt(n, uv, p)
      {
        DecodeIndex(n, i, j);
        ghost var k := Index(n, i, j);
        var v := Vertex(j, i, U(uv, Index(n, i, j)));
        assert v == VertexAt(n, uv, k);
        vs := vs + [v];
        j := j + 1;
        IndexBelowSize(n, i, j - 1);
      }
      i := i + 1;
    }
    assert |vs| == n * n;
    VerticesAtCells(n, uv);
  }

  /** The reference list has n*n vertices, and the one at index(i, j) is
      cell (i, j) with that cell's u component. */
  lemma VerticesAtCells<F>(n: nat, uv: seq<F>)
    requires |uv| == 2 * (n * n)
    ensures |Vertices(n, uv)| == n * n
    ensures forall i, j :: 0 <= i < n && 0 <= j < n ==>
              Vertices(n, uv)[Index(n, i, j)] == Vertex(j, i, U(uv, Index(n, i, j)))
  {
    forall i, j | 0 <= i < n && 0 <= j < n
      ensures Vertices(n, uv)[Index(n, i, j)] == Vertex(j, i, U(uv, Index(n, i, j)))
    {
      DecodeIndex(n, i, j);
    }
  }

  /** The six entries pushed for the quad whose corners are rows i-1..i and
      columns j-1..j: triangle (i-1, j-1), (i, j), (i, j-1), then triangle
      (i, j), (i-1, j-1), (i-1, j). */
  function QuadTriangles(n: nat, i: nat, j: nat): (t: seq<nat>)
    requires 1 <= i && 1 <= j
    ensures |t| == 6
    ensures t[0] == t[4] && t[1] == t[3]
    ensures i < n && j < n ==> forall e :: e in t ==> e < n * n
  {
    [Index(n, i - 1, j - 1), Index(n, i, j), Index(n, i, j - 1),
     Index(n, i, j), Index(n, i - 1, j - 1), Index(n, i - 1, j)]
  }

  /** Number of quads the index loop visits: (N-1)^2, none when N == 0. */
  function QuadCount(n: nat): nat
  {
    if n == 0 then 0 else (n - 1) * (n - 1)
  }

  /** The quad visited q-th (from 0): quads are visited row-major over
      (i, j) in [1, N) x [1, N), so q decodes with width N - 1. */
  function QuadEntries(n: nat, q: nat): seq<nat>
    requires q < QuadCount(n)
  {
    DecodeInGrid(n - 1, q);
    QuadTriangles(n, Row(n - 1, q) + 1, Col(n - 1, q) + 1)
  }

  /** The entries of the index list after the first q quads. */
  function TrianglesUpTo(n: nat, q: nat): seq<nat>
    requires q <= QuadCount(n)
  {
    if q == 0 then [] else TrianglesUpTo(n, q - 1) + QuadEntries(n, q - 1)
  }

  /** Reference definition of the full index list. */
  function Triangles(n: nat): seq<nat>
  {
    TrianglesUpTo(n, QuadCount(n))
  }

  /** Triangle t of an index list: entries 3t, 3t+1, 3t+2. */
  function TriangleAt(s: seq<nat>, t: nat): Triangle
    requires 3 * t + 3 <= |s|
  {
    Triangle(s[3 * t], s[3 * t + 1], s[3 * t + 2])
  }

  /** Twice the signed area of a triangle, with vertex k placed at
      x = column, y = row: positive means counter-clockwise. */
  function Winding(n: nat, tr: Triangle): int
    requires n > 0
  {
    var xa, ya := Col(n, tr.a) as int, Row(n, tr.a) as int;
    var xb, yb := Col(n, tr.b) as int, Row(n, tr.b) as int;
    var xc, yc := Col(n, tr.c) as int, Row(n, tr.c) as int;
    (xb - xa) * (yc - ya) - (yb - ya) * (xc - xa)
  }

  /** The index loop of `toMesh` (i outer, j inner, both from 1). */
  method BuildTriangles(n: nat) returns (idx: seq<nat>)
    ensures idx == Triangles(n)
    ensures |idx| == 6 * QuadCount(n)
    ensures forall p :: 0 <= p < |idx| ==> idx[p] < n * n
  {
    idx := [];
    var i := 1;
    while i < n
      invariant 1 <= i && (n >= 1 ==> i <= n)
      invariant n >= 1 ==> Index(n - 1, i - 1, 0) <= QuadCount(n)
      invariant idx == (if n >= 1 then TrianglesUpTo(n, Index(n - 1, i - 1, 0)) else [])
    {
      var j := 1;
      while j < n
        invariant 1 <= j <= n
        invariant Index(n - 1, i - 1, j - 1) <= QuadCount(n)
        invariant idx == TrianglesUpTo(n, Index(n - 1, i - 1, j - 1))
      {
        QuadProgress(n, i, j);
        QuadAppend(n, i, j);
        idx := idx + [Index(n, i - 1, j - 1), Index(n, i, j), Index(n, i, j - 1)];
        idx := idx + [Index(n, i, j), Index(n, i - 1, j - 1), Index(n, i - 1, j)];
        j := j + 1;
      }
      QuadProgress(n, i, n);
      i := i + 1;
    }
    if n >= 1 {
      assert Index(n - 1, i - 1, 0) == QuadCount(n);
    }
    TrianglesShape(n);
  }

  /** Counting in the index loop: before visiting quad (i, j) it has
      visited index_{N-1}(i-1, j-1) quads, and finishing row i leads into
      row i + 1. */
  lemma QuadProgress(n: nat, i: nat, j: nat)
    requires 1 <= i < n && 1 <= j <= n
    ensures Index(n - 1, i - 1, j - 1) <= QuadCount(n)
    ensures j < n ==> Index(n - 1, i - 1, j - 1) < QuadCount(n)
    ensures j == n ==> Index(n - 1, i - 1, j - 1) == Index(n - 1, i, 0)
    ensures i + 1 == n ==> Index(n - 1, i, 0) == QuadCount(n)
  {
    var w := n - 1;
    assert i * w == (i - 1) * w + w;
    MulMonotone(i, w, w);
  }

  lemma MulMonotone(a: nat, b: nat, c: nat)
    requires a <= b
    ensures a * c <= b * c
  {
  }

  /** Visiting quad (i, j) appends that quad's six entries. */
  lemma QuadAppend(n: nat, i: nat, j: nat)
    requires 1 <= i < n && 1 <= j < n
    requires Index(n - 1, i - 1, j - 1) < QuadCount(n)
    ensures TrianglesUpTo(n, Index(n - 1, i - 1, j - 1) + 1)
         == TrianglesUpTo(n, Index(n - 1, i - 1, j - 1)) + QuadTriangles(n, i, j)
  {
    DecodeIndex(n - 1, i - 1, j - 1);
  }

  /** The four corners of quad (i, j) are distinct positions inside the
      vertex list. */
  lemma QuadCorners(n: nat, i: nat, j: nat)
    requires 1 <= i < n && 1 <= j < n
    ensures Index(n, i - 1, j - 1) < n * n && Index(n, i - 1, j) < n * n
    ensures Index(n, i, j - 1) < n * n && Index(n, i, j) < n * n
    ensures Index(n, i - 1, j - 1) < Index(n, i - 1, j) < Index(n, i, j - 1) < Index(n, i, j)
  {
  }

  /** The two triangles of quad (i, j) each have three distinct corners,
      share the diagonal (i-1, j-1)-(i, j), differ in their third corner and
      together cover exactly the four corners of the quad. */
  lemma QuadTrianglesProper(n: nat, i: nat, j: nat)
    requires 1 <= i < n && 1 <= j < n
    ensures var t := QuadTriangles(n, i, j);
      && (forall p :: 0 <= p < 6 ==> t[p] < n * n)
      && t[0] != t[1] && t[1] != t[2] && t[0] != t[2]
      && t[3] != t[4] && t[4] != t[5] && t[3] != t[5]
      && {t[0], t[1]} == {t[3], t[4]} == {Index(n, i - 1, j - 1), Index(n, i, j)}
      && t[2] != t[5]
      && (set p | p in t) == {Index(n, i - 1, j - 1), Index(n, i - 1, j), Index(n, i, j - 1), Index(n, i, j)}
  {
    QuadCorners(n, i, j);
    var t := QuadTriangles(n, i, j);
    assert (set p | p in t) == {t[0], t[1], t[2], t[5]};
  }

  /** Both triangles of quad (i, j) are counter-clockwise with x = column and
      y = row: their cross product is +1 (twice the area of half a cell). */
  lemma QuadWinding(n: nat, i: nat, j: nat)
    requires 1 <= i < n && 1 <= j < n
    ensures var t := QuadTriangles(n, i, j);
      && Winding(n, Triangle(t[0], t[1], t[2])) == 1
      && Winding(n, Triangle(t[3], t[4], t[5])) == 1
  {
    var t := QuadTriangles(n, i, j);
    assert Triangle(t[0], t[1], t[2]) == Triangle(Index(n, i - 1, j - 1), Index(n, i, j), Index(n, i, j - 1));
    assert Triangle(t[3], t[4], t[5]) == Triangle(Index(n, i, j), Index(n, i - 1, j - 1), Index(n, i - 1, j));
    WindingOfCells(n, i - 1, j - 1, 1, 1, 1, 0);
    WindingOfCells(n, i, j, -1, -1, -1, 0);
  }

  /** The winding of a triangle of grid cells, given by its first cell
      (ia, ja) and the row and column offsets of the other two. */
  lemma WindingOfCells(n: nat, ia: nat, ja: nat, di: int, dj: int, ei: int, ej: int)
    requires ja < n && 0 <= ja + dj < n && 0 <= ja + ej < n
    requires 0 <= ia + di && 0 <= ia + ei
    ensures Winding(n, Triangle(Index(n, ia, ja), Index(n, ia + di, ja + dj), Index(n, ia + ei, ja + ej)))
         == dj * ei - di * ej
  {
    DecodeIndex(n, ia, ja);
    DecodeIndex(n, ia + di, ja + dj);
    DecodeIndex(n, ia + ei, ja + ej);
  }

  /** Every quad contributes six entries. */
  lemma {:induction false} TrianglesUpToLength(n: nat, q: nat)
    requires q <= QuadCount(n)
    ensures |TrianglesUpTo(n, q)| == 6 * q
  {
    if q > 0 {
      TrianglesUpToLength(n, q - 1);
    }
  }

  /** Every entry after q quads is a vertex position in [0, n*n). */
  lemma {:induction false} TrianglesUpToBounds(n: nat, q: nat)
    requires q <= QuadCount(n)
    ensures forall p :: 0 <= p < |TrianglesUpTo(n, q)| ==> TrianglesUpTo(n, q)[p] < n * n
  {
    if q > 0 {
      TrianglesUpToBounds(n, q - 1);
      var prev := TrianglesUpTo(n, q - 1);
      var e := QuadEntries(n, q - 1);
      DecodeInGrid(n - 1, q - 1);
      QuadTrianglesProper(n, Row(n - 1, q - 1) + 1, Col(n - 1, q - 1) + 1);
      assert forall p :: 0 <= p < |e| ==> e[p] < n * n;
      assert TrianglesUpTo(n, q) == prev + e;
    }
  }

  /** Every triangle after q quads is counter-clockwise. */
  lemma {:induction false} TrianglesUpToWinding(n: nat, q: nat)
    requires q <= QuadCount(n)
    ensures |TrianglesUpTo(n, q)| == 6 * q
    ensures q > 0 ==> n > 0
    ensures forall t :: 0 <= t < 2 * q ==> Winding(n, TriangleAt(TrianglesUpTo(n, q), t)) == 1
  {
    TrianglesUpToLength(n, q);
    if q > 0 {
      TrianglesUpToWinding(n, q - 1);
      var prev := TrianglesUpTo(n, q - 1);
      DecodeInGrid(n - 1, q - 1);
      var i, j := Row(n - 1, q - 1) + 1, Col(n - 1, q - 1) + 1;
      QuadWinding(n, i, j);
      var e := QuadTriangles(n, i, j);
      var s := TrianglesUpTo(n, q);
      assert s == prev + e;
      var b := 6 * (q - 1);
      assert |prev| == b;
      forall t | 0 <= t < 2 * q
        ensures Winding(n, TriangleAt(s, t)) == 1
      {
        if t < 2 * (q - 1) {
          assert TriangleAt(s, t) == TriangleAt(prev, t);
        } else if t == 2 * (q - 1) {
          assert 3 * t == b;
          assert TriangleAt(s, t) == Triangle(e[0], e[1], e[2]);
        } else {
          assert 3 * t == b + 3;
          assert TriangleAt(s, t) == Triangle(e[3], e[4], e[5]);
        }
      }
    }
  }

  /** The full index list has exactly 6 (N-1)^2 entries, every one of them a
      valid vertex position, and all its triangles are wound the same way. */
  lemma TrianglesShape(n: nat)
    ensures |Triangles(n)| == 6 * QuadCount(n)
    ensures n >= 1 ==> |Triangles(n)| == 6 * ((n - 1) * (n - 1))
    ensures forall p :: 0 <= p < |Triangles(n)| ==> Triangles(n)[p] < n * n
    ensures forall t :: 0 <= t < |Triangles(n)| / 3 ==> n > 0 && Winding(n, TriangleAt(Triangles(n), t)) > 0
  {
    TrianglesUpToLength(n, QuadCount(n));
    TrianglesUpToBounds(n, QuadCount(n));
    TrianglesUpToWinding(n, QuadCount(n));
    var c := QuadCount(n);
    assert |Triangles(n)| == 3 * (2 * c);
    assert |Triangles(n)| / 3 == 2 * c;
  }

  /** The entries pushed for quad (i, j) sit, in order, at the quad's own
      row-major position index_{N-1}(i-1, j-1) in the list. */
  lemma {:induction false} QuadPlacement(n: nat, q: nat, r: nat)
    requires q <= QuadCount(n) && r < q
    ensures |TrianglesUpTo(n, q)| == 6 * q
    ensures TrianglesUpTo(n, q)[6 * r .. 6 * r + 6] == QuadEntries(n, r)
  {
    TrianglesUpToLength(n, q);
    if r < q - 1 {
      QuadPlacement(n, q - 1, r);
    }
  }

  /** Quad (i, j) of the grid gets its two triangles at list position
      index_{N-1}(i-1, j-1), so the triangles follow the row-major order of
      the quads. */
  lemma QuadInList(n: nat, i: nat, j: nat)
    requires 1 <= i < n && 1 <= j < n
    ensures 6 * Index(n - 1, i - 1, j - 1) + 6 <= |Triangles(n)|
    ensures Triangles(n)[6 * Index(n - 1, i - 1, j - 1) .. 6 * Index(n - 1, i - 1, j - 1) + 6]
         == QuadTriangles(n, i, j)
  {
    DecodeIndex(n - 1, i - 1, j - 1);
    QuadPlacement(n, QuadCount(n), Index(n - 1, i - 1, j - 1));
  }
}
