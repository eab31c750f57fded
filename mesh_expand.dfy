/**
 * The in-place loops of the static-mesh loaders that fill frame-major
 * vertex arrays: the expansion of MDC base and compressed frames, and the
 * per-vertex tangent-direction accumulators. Vertex `v` of frame `f` lives
 * at `numVerts * f + v`. The floating-point work (scaling, normal packing,
 * the compressed-offset decode and the texture-direction computation) is
 * abstracted as function parameters; only the indexing and the order of
 * the updates are modelled.
 */
module MeshExpand {
  import opened Defs

  // ---------------------------------------------------------------------
  // MDC frame expansion
  // ---------------------------------------------------------------------

  /**
   * The well-formedness the MDC loader relies on without checking it: every
   * frame names a base frame, and every compressed frame it names, that lies
   * inside the surface's vertex blocks.
   */
  predicate FrameRefsInRange(numVerts: nat, numFrames: nat, numBaseVerts: nat, numCompVerts: nat,
                             baseFrame: seq<int>, compFrame: seq<int>)
  {
    |baseFrame| == numFrames && |compFrame| == numFrames &&
    (forall j :: 0 <= j < numFrames ==> 0 <= baseFrame[j] && baseFrame[j] * numVerts + numVerts <= numBaseVerts) &&
    (forall j :: 0 <= j < numFrames && compFrame[j] >= 0 ==> compFrame[j] * numVerts + numVerts <= numCompVerts)
  }

  /** Vertex `k` of frame `j` after the base-frame pass: the decoded vertex of base frame `mdcBaseFrame[j]`. */
  function BaseVertex<B, V>(baseVerts: seq<B>, baseFrame: seq<int>, numVerts: nat, decode: B -> V, j: nat, k: nat): V
    requires j < |baseFrame| && 0 <= baseFrame[j] && k < numVerts
    requires baseFrame[j] * numVerts + numVerts <= |baseVerts|
  {
    decode(baseVerts[baseFrame[j] * numVerts + k])
  }

  /**
   * Vertex `k` of frame `j` once both passes ran: the compressed delta of
   * frame `mdcCompFrame[j]` is applied only when the surface has compressed
   * frames and that entry is not negative.
   */
  function ExpandedVertex<B, C, V>(baseVerts: seq<B>, compVerts: seq<C>, baseFrame: seq<int>, compFrame: seq<int>,
                                   numVerts: nat, numCompFrames: int, decode: B -> V, apply: (V, C) -> V,
                                   j: nat, k: nat): (v: V)
    requires FrameRefsInRange(numVerts, |baseFrame|, |baseVerts|, |compVerts|, baseFrame, compFrame)
    requires j < |baseFrame| && k < numVerts
    ensures numCompFrames <= 0 || compFrame[j] < 0 ==> v == BaseVertex(baseVerts, baseFrame, numVerts, decode, j, k)
    ensures numCompFrames > 0 && compFrame[j] >= 0 ==>
      v == apply(BaseVertex(baseVerts, baseFrame, numVerts, decode, j, k), compVerts[compFrame[j] * numVerts + k])
  {
    var b := BaseVertex(baseVerts, baseFrame, numVerts, decode, j, k);
    if numCompFrames > 0 && compFrame[j] >= 0 then apply(b, compVerts[compFrame[j] * numVerts + k]) else b
  }

  /** The frame-major grid of base-pass vertices; cells outside the surface read `fill`. */
  function BaseCells<B, V>(baseVerts: seq<B>, baseFrame: seq<int>, numVerts: nat, decode: B -> V, fill: V): (nat, nat) -> V
    requires forall j :: 0 <= j < |baseFrame| ==> 0 <= baseFrame[j] && baseFrame[j] * numVerts + numVerts <= |baseVerts|
  {
    (j: nat, k: nat) => if j < |baseFrame| && k < numVerts then BaseVertex(baseVerts, baseFrame, numVerts, decode, j, k) else fill
  }

  /** The frame-major grid of fully expanded vertices; without compressed frames it is the base grid itself. */
  function ExpandedCells<B, C, V>(baseVerts: seq<B>, compVerts: seq<C>, baseFrame: seq<int>, compFrame: seq<int>,
                                  numVerts: nat, numCompFrames: int, decode: B -> V, apply: (V, C) -> V, fill: V): (nat, nat) -> V
    requires FrameRefsInRange(numVerts, |baseFrame|, |baseVerts|, |compVerts|, baseFrame, compFrame)
  {
    if numCompFrames <= 0 then BaseCells(baseVerts, baseFrame, numVerts, decode, fill)
    else
      (j: nat, k: nat) =>
        if j < |baseFrame| && k < numVerts
        then ExpandedVertex(baseVerts, compVerts, baseFrame, compFrame, numVerts, numCompFrames, decode, apply, j, k)
        else fill
  }

  /**
   * The vertex array R_LoadMDC builds for a surface with `numFrames`
   * frames: every frame's vertices in frame-major order.
   */
  function MdcFrames<B, C, V>(baseVerts: seq<B>, compVerts: seq<C>, baseFrame: seq<int>, compFrame: seq<int>,
                              numVerts: nat, numFrames: nat, numCompFrames: int, decode: B -> V, apply: (V, C) -> V): seq<V>
    requires FrameRefsInRange(numVerts, numFrames, |baseVerts|, |compVerts|, baseFrame, compFrame)
  {
    if numFrames == 0 || numVerts == 0 then []
    else
      var fill := BaseVertex(baseVerts, baseFrame, numVerts, decode, 0, 0);
      Grid(numFrames, numVerts, ExpandedCells(baseVerts, compVerts, baseFrame, compFrame, numVerts, numCompFrames, decode, apply, fill))
  }

  /**
   * Vertex `k` of frame `j` sits at `j * numVerts + k` of the expanded
   * array, and is the decoded base vertex with the compressed delta applied
   * exactly when the surface has compressed frames and the frame names one.
   */
  lemma MdcFrameVertex<B, C, V>(baseVerts: seq<B>, compVerts: seq<C>, baseFrame: seq<int>, compFrame: seq<int>,
                                numVerts: nat, numFrames: nat, numCompFrames: int, decode: B -> V, apply: (V, C) -> V,
                                j: nat, k: nat)
    requires FrameRefsInRange(numVerts, numFrames, |baseVerts|, |compVerts|, baseFrame, compFrame)
    requires j < numFrames && k < numVerts
    ensures j * numVerts + k < |MdcFrames(baseVerts, compVerts, baseFrame, compFrame, numVerts, numFrames, numCompFrames, decode, apply)|
    ensures MdcFrames(baseVerts, compVerts, baseFrame, compFrame, numVerts, numFrames, numCompFrames, decode, apply)[j * numVerts + k]
      == ExpandedVertex(baseVerts, compVerts, baseFrame, compFrame, numVerts, numCompFrames, decode, apply, j, k)
  {
    var fill := BaseVertex(baseVerts, baseFrame, numVerts, decode, 0, 0);
    GridCell(numFrames, numVerts, ExpandedCells(baseVerts, compVerts, baseFrame, compFrame, numVerts, numCompFrames, decode, apply, fill), j, k);
  }

  /**
   * The two expansion loops of R_LoadMDC over the surface's vertex array:
   * every frame is first filled from its base frame, then, when the surface
   * has compressed frames, each frame with a compressed frame gets its
   * deltas added vertex by vertex.
   */
  method ExpandMdcFrames<B, C, V>(verts: array<V>, baseVerts: seq<B>, compVerts: seq<C>,
                                  baseFrame: seq<int>, compFrame: seq<int>,
                                  numVerts: nat, numFrames: nat, numCompFrames: int,
                                  decode: B -> V, apply: (V, C) -> V)
    requires verts.Length == numVerts * numFrames
    requires FrameRefsInRange(numVerts, numFrames, |baseVerts|, |compVerts|, baseFrame, compFrame)
    modifies verts
    ensures verts[..] == MdcFrames(baseVerts, compVerts, baseFrame, compFrame, numVerts, numFrames, numCompFrames, decode, apply)
  {
    if numVerts == 0 || numFrames == 0 {
      return;
    }
    RowStartIsProduct(numFrames, numVerts);
    ghost var fill := BaseVertex(baseVerts, baseFrame, numVerts, decode, 0, 0);
    ghost var based := BaseCells(baseVerts, baseFrame, numVerts, decode, fill);
    ghost var expanded := ExpandedCells(baseVerts, compVerts, baseFrame, compFrame, numVerts, numCompFrames, decode, apply, fill);
    ExpandBaseFrames(verts, baseVerts, baseFrame, numVerts, numFrames, decode, based);
    if numCompFrames > 0 {
      ApplyCompFrames(verts, compVerts, compFrame, numVerts, numFrames, apply, based, expanded);
    }
  }

  /** The base-frame loop: frame `j` becomes the decoded copy of base frame `mdcBaseFrame[j]`. */
  method ExpandBaseFrames<B, V>(verts: array<V>, baseVerts: seq<B>, baseFrame: seq<int>,
                                numVerts: nat, numFrames: nat, decode: B -> V, ghost based: (nat, nat) -> V)
    requires verts.Length == RowStart(numFrames, numVerts)
    requires |baseFrame| == numFrames
    requires forall j :: 0 <= j < numFrames ==> 0 <= baseFrame[j] && baseFrame[j] * numVerts + numVerts <= |baseVerts|
    requires forall j: nat, k: nat :: j < numFrames && k < numVerts ==>
      based(j, k) == BaseVertex(baseVerts, baseFrame, numVerts, decode, j, k)
    modifies verts
    ensures verts[..] == Grid(numFrames, numVerts, based)
  {
    var j := 0;
    var start := 0;
    while j < numFrames
      invariant 0 <= j <= numFrames && start == RowStart(j, numVerts) <= verts.Length
      invariant verts[..start] == Grid(j, numVerts, based)
    {
      RowStartGrows(j, numFrames, numVerts);
      DecodeBaseFrame(verts, start, baseVerts, baseFrame, numVerts, decode, based, j);
      assert verts[..start + numVerts] == verts[..start] + verts[start..start + numVerts];
      start := start + numVerts;
      j := j + 1;
    }
    assert verts[..] == verts[..start];
  }

  /** The body of the base-frame loop for frame `j`, whose block starts at `start`. */
  method DecodeBaseFrame<B, V>(verts: array<V>, start: nat, baseVerts: seq<B>, baseFrame: seq<int>,
                               numVerts: nat, decode: B -> V, ghost based: (nat, nat) -> V, j: nat)
    requires j < |baseFrame| && start + numVerts <= verts.Length
    requires 0 <= baseFrame[j] && baseFrame[j] * numVerts + numVerts <= |baseVerts|
    requires forall k: nat :: k < numVerts ==> based(j, k) == BaseVertex(baseVerts, baseFrame, numVerts, decode, j, k)
    modifies verts
    ensures verts[start..start + numVerts] == Row(based, j, numVerts)
    ensures verts[..start] == old(verts[..start])
  {
    var src := baseFrame[j] * numVerts;
    DecodeFrame(verts, start, baseVerts, src, numVerts, decode);
    forall k | 0 <= k < numVerts
      ensures verts[start..start + numVerts][k] == based(j, k)
    {
      assert baseVerts[src..src + numVerts][k] == baseVerts[src + k];
    }
  }

  /** Each element decoded. */
  function Decoded<B, V>(bs: seq<B>, decode: B -> V): (r: seq<V>)
    ensures |r| == |bs|
    ensures forall k :: 0 <= k < |bs| ==> r[k] == decode(bs[k])
  {
    seq(|bs|, k requires 0 <= k < |bs| => decode(bs[k]))
  }

  /** The inner loop for one frame: vertex `k` of the block at `start` becomes the decoded vertex at `src + k`. */
  method DecodeFrame<B, V>(verts: array<V>, start: nat, baseVerts: seq<B>, src: nat, numVerts: nat, decode: B -> V)
    requires start + numVerts <= verts.Length && src + numVerts <= |baseVerts|
    modifies verts
    ensures verts[start..start + numVerts] == Decoded(baseVerts[src..src + numVerts], decode)
    ensures verts[..start] == old(verts[..start])
  {
    ghost var from := baseVerts[src..src + numVerts];
    var k := 0;
    while k < numVerts
      invariant 0 <= k <= numVerts
      invariant forall k' :: 0 <= k' < k ==> verts[start + k'] == decode(from[k'])
      invariant verts[..start] == old(verts[..start])
    {
      verts[start + k] := decode(baseVerts[src + k]);
      k := k + 1;
    }
  }

  /** The compressed-frame loop: frames whose `mdcCompFrame` entry is negative are skipped. */
  method ApplyCompFrames<C, V>(verts: array<V>, compVerts: seq<C>, compFrame: seq<int>,
                               numVerts: nat, numFrames: nat, apply: (V, C) -> V,
                               ghost based: (nat, nat) -> V, ghost expanded: (nat, nat) -> V)
    requires verts.Length == RowStart(numFrames, numVerts) && |compFrame| == numFrames
    requires forall j :: 0 <= j < numFrames && compFrame[j] >= 0 ==> compFrame[j] * numVerts + numVerts <= |compVerts|
    requires forall j: nat, k: nat :: j < numFrames && k < numVerts ==>
      expanded(j, k) == if compFrame[j] >= 0 then apply(based(j, k), compVerts[compFrame[j] * numVerts + k]) else based(j, k)
    requires verts[..] == Grid(numFrames, numVerts, based)
    modifies verts
    ensures verts[..] == Grid(numFrames, numVerts, expanded)
  {
    ghost var decoded := verts[..];
    var j := 0;
    var start := 0;
    while j < numFrames
      invariant 0 <= j <= numFrames && start == RowStart(j, numVerts) <= verts.Length
      invariant verts[..start] == Grid(j, numVerts, expanded)
      invariant verts[start..] == decoded[start..]
    {
      RowStartGrows(j, numFrames, numVerts);
      GridRow(numFrames, numVerts, based, j);
      ExpandCompFrame(verts, start, compVerts, compFrame, numVerts, numFrames, apply, based, expanded, j, decoded);
      assert verts[..start + numVerts] == verts[..start] + verts[start..start + numVerts];
      start := start + numVerts;
      j := j + 1;
    }
    assert verts[..] == verts[..start];
  }

  /** The body of the compressed-frame loop for frame `j`, whose block starts at `start`. */
  method ExpandCompFrame<C, V>(verts: array<V>, start: nat, compVerts: seq<C>, compFrame: seq<int>,
                               numVerts: nat, numFrames: nat, apply: (V, C) -> V,
                               ghost based: (nat, nat) -> V, ghost expanded: (nat, nat) -> V, j: nat,
                               ghost decoded: seq<V>)
    requires j < numFrames && |compFrame| == numFrames && start + numVerts <= verts.Length == |decoded|
    requires compFrame[j] >= 0 ==> compFrame[j] * numVerts + numVerts <= |compVerts|
    requires forall k: nat :: k < numVerts ==>
      expanded(j, k) == if compFrame[j] >= 0 then apply(based(j, k), compVerts[compFrame[j] * numVerts + k]) else based(j, k)
    requires verts[start..] == decoded[start..] && decoded[start..start + numVerts] == Row(based, j, numVerts)
    modifies verts
    ensures verts[start..start + numVerts] == Row(expanded, j, numVerts)
    ensures verts[..start] == old(verts[..start])
    ensures verts[start + numVerts..] == decoded[start + numVerts..]
  {
    assert verts[start..start + numVerts] == decoded[start..start + numVerts];
    assert verts[start + numVerts..] == decoded[start + numVerts..];
    if compFrame[j] >= 0 {
      ApplyCompFrame(verts, start, compFrame[j] * numVerts, compVerts, numVerts, apply);
    }
  }

  /** Each vertex with its own delta applied. */
  function ApplyDeltas<C, V>(vs: seq<V>, cs: seq<C>, apply: (V, C) -> V): (r: seq<V>)
    requires |vs| == |cs|
    ensures |r| == |vs|
    ensures forall k :: 0 <= k < |vs| ==> r[k] == apply(vs[k], cs[k])
  {
    if vs == [] then [] else [apply(vs[0], cs[0])] + ApplyDeltas(vs[1..], cs[1..], apply)
  }

  /** The inner loop for one frame: vertex `k` gets the delta at `src + k` added. */
  method ApplyCompFrame<C, V>(verts: array<V>, start: nat, src: nat, compVerts: seq<C>, numVerts: nat, apply: (V, C) -> V)
    requires start + numVerts <= verts.Length && src + numVerts <= |compVerts|
    modifies verts
    ensures verts[start..start + numVerts]
      == ApplyDeltas(old(verts[start..start + numVerts]), compVerts[src..src + numVerts], apply)
    ensures verts[..start] == old(verts[..start])
    ensures verts[start + numVerts..] == old(verts[start + numVerts..])
  {
    ghost var before := verts[start..start + numVerts];
    ghost var deltas := compVerts[src..src + numVerts];
    var k := 0;
    while k < numVerts
      invariant 0 <= k <= numVerts
      invariant forall k' :: 0 <= k' < k ==> verts[start..start + numVerts][k'] == apply(before[k'], deltas[k'])
      invariant forall k' :: k <= k' < numVerts ==> verts[start..start + numVerts][k'] == before[k']
      invariant verts[..start] == old(verts[..start])
      invariant verts[start + numVerts..] == old(verts[start + numVerts..])
    {
      verts[start + k] := apply(verts[start + k], compVerts[src + k]);
      k := k + 1;
    }
  }

  // ---------------------------------------------------------------------
  // Tangent-space accumulators
  // ---------------------------------------------------------------------

  /**
   * The accumulator of vertex `v` of frame `f` after the first `n` triangle
   * corners: every corner that names `v` adds the direction of its
   * triangle (corner `i` belongs to triangle `i / 3`), the new direction on
   * the left as VectorAdd(dir, acc, acc) adds it.
   */
  function Accumulated<T>(tri: seq<nat>, zero: T, plus: (T, T) -> T, dir: (nat, nat) -> T,
                          f: nat, v: nat, n: nat): T
    requires n <= |tri|
  {
    if n == 0 then zero
    else
      var a := Accumulated(tri, zero, plus, dir, f, v, n - 1);
      if tri[n - 1] == v then plus(dir(f, (n - 1) / 3), a) else a
  }

  /** A vertex no corner names keeps the cleared value. */
  lemma {:induction false} UntouchedVertexStaysClear<T>(tri: seq<nat>, zero: T, plus: (T, T) -> T, dir: (nat, nat) -> T,
                                                       f: nat, v: nat, n: nat)
    requires n <= |tri|
    requires forall i :: 0 <= i < n ==> tri[i] != v
    ensures Accumulated(tri, zero, plus, dir, f, v, n) == zero
  {
    if n > 0 {
      UntouchedVertexStaysClear(tri, zero, plus, dir, f, v, n - 1);
    }
  }

  /**
   * A vertex named by exactly one corner, over a zero that `plus` leaves
   * alone, ends with that corner's triangle direction.
   */
  lemma {:induction false} SingleCornerVertex<T>(tri: seq<nat>, zero: T, plus: (T, T) -> T, dir: (nat, nat) -> T,
                                                f: nat, v: nat, n: nat, i: nat)
    requires n <= |tri| && i < n && tri[i] == v
    requires forall i' :: 0 <= i' < n && i' != i ==> tri[i'] != v
    requires forall x :: plus(x, zero) == x
    ensures Accumulated(tri, zero, plus, dir, f, v, n) == dir(f, i / 3)
  {
    if n - 1 == i {
      UntouchedVertexStaysClear(tri, zero, plus, dir, f, v, n - 1);
      var d := dir(f, i / 3);
      assert Accumulated(tri, zero, plus, dir, f, v, n) == plus(d, zero);
      RightIdentity(plus, zero, d);
    } else {
      SingleCornerVertex(tri, zero, plus, dir, f, v, n - 1, i);
    }
  }

  lemma RightIdentity<T>(plus: (T, T) -> T, zero: T, d: T)
    requires forall x :: plus(x, zero) == x
    ensures plus(d, zero) == d
  {
  }

  /** The frame-major grid of final accumulators. */
  function TexDirCells<T>(tri: seq<nat>, zero: T, plus: (T, T) -> T, dir: (nat, nat) -> T): (nat, nat) -> T
  {
    (f: nat, v: nat) => Accumulated(tri, zero, plus, dir, f, v, |tri|)
  }

  /** The accumulator array the tangent-direction pass leaves behind. */
  function TexDirs<T>(tri: seq<nat>, numVerts: nat, numFrames: nat, zero: T, plus: (T, T) -> T, dir: (nat, nat) -> T): seq<T>
  {
    Grid(numFrames, numVerts, TexDirCells(tri, zero, plus, dir))
  }

  /**
   * The accumulator of vertex `v` of frame `f` sits at `f * numVerts + v`
   * and has collected the direction of every triangle corner naming `v`.
   */
  lemma TexDirsVertex<T>(tri: seq<nat>, numVerts: nat, numFrames: nat, zero: T, plus: (T, T) -> T, dir: (nat, nat) -> T,
                         f: nat, v: nat)
    requires f < numFrames && v < numVerts
    ensures f * numVerts + v < |TexDirs(tri, numVerts, numFrames, zero, plus, dir)|
    ensures TexDirs(tri, numVerts, numFrames, zero, plus, dir)[f * numVerts + v] == Accumulated(tri, zero, plus, dir, f, v, |tri|)
  {
    GridCell(numFrames, numVerts, TexDirCells(tri, zero, plus, dir), f, v);
  }

  /**
   * The tangent-direction pass of the static-mesh loaders over one surface:
   * clear all `numVerts * numFrames` accumulators, then for every frame and
   * every triangle add the triangle's direction to the accumulator of each
   * of its three corners, at `numVerts * f + tri[k]`.
   */
  method AccumulateTexDirs<T>(acc: array<T>, tri: seq<nat>, numVerts: nat, numFrames: nat,
                              zero: T, plus: (T, T) -> T, dir: (nat, nat) -> T)
    requires |tri| % 3 == 0
    requires forall i :: 0 <= i < |tri| ==> tri[i] < numVerts
    requires acc.Length == numVerts * numFrames
    modifies acc
    ensures acc[..] == TexDirs(tri, numVerts, numFrames, zero, plus, dir)
  {
    ghost var cell := TexDirCells(tri, zero, plus, dir);
    RowStartIsProduct(numFrames, numVerts);
    var i := 0;
    while i < acc.Length
      invariant 0 <= i <= acc.Length
      invariant forall t :: 0 <= t < i ==> acc[t] == zero
    {
      acc[i] := zero;
      i := i + 1;
    }
    var f := 0;
    var start := 0;
    while f < numFrames
      invariant 0 <= f <= numFrames && start == RowStart(f, numVerts) <= acc.Length
      invariant acc[..start] == Grid(f, numVerts, cell)
      invariant forall t :: start <= t < acc.Length ==> acc[t] == zero
    {
      RowStartGrows(f, numFrames, numVerts);
      AccumulateFrame(acc, start, tri, numVerts, zero, plus, dir, f);
      assert acc[..start + numVerts] == acc[..start] + acc[start..start + numVerts];
      start := start + numVerts;
      f := f + 1;
    }
    assert acc[..] == acc[..start];
  }

  /** The triangle loop for frame `f`, over the block of accumulators that starts at `start`. */
  method AccumulateFrame<T>(acc: array<T>, start: nat, tri: seq<nat>, numVerts: nat,
                            zero: T, plus: (T, T) -> T, dir: (nat, nat) -> T, f: nat)
    requires |tri| % 3 == 0
    requires forall i :: 0 <= i < |tri| ==> tri[i] < numVerts
    requires start + numVerts <= acc.Length
    requires forall t :: start <= t < start + numVerts ==> acc[t] == zero
    modifies acc
    ensures forall v :: 0 <= v < numVerts ==> acc[start + v] == Accumulated(tri, zero, plus, dir, f, v, |tri|)
    ensures acc[start..start + numVerts] == Row(TexDirCells(tri, zero, plus, dir), f, numVerts)
    ensures acc[..start] == old(acc[..start])
    ensures acc[start + numVerts..] == old(acc[start + numVerts..])
  {
    var j := 0;
    while j < |tri|
      invariant 0 <= j <= |tri| && j % 3 == 0
      invariant forall v :: 0 <= v < numVerts ==> acc[start + v] == Accumulated(tri, zero, plus, dir, f, v, j)
      invariant acc[..start] == old(acc[..start])
      invariant acc[start + numVerts..] == old(acc[start + numVerts..])
    {
      var d := dir(f, j / 3);
      AddCorner(acc, start, tri, numVerts, zero, plus, dir, f, j, j + 1, d);
      AddCorner(acc, start, tri, numVerts, zero, plus, dir, f, j + 1, j + 2, d);
      AddCorner(acc, start, tri, numVerts, zero, plus, dir, f, j + 2, j + 3, d);
      j := j + 3;
    }
    assert acc[start..start + numVerts] == Row(TexDirCells(tri, zero, plus, dir), f, numVerts);
  }

  /**
   * One VectorAdd of the loop: the direction of corner `n`'s triangle added
   * to the accumulator at `start + tri[n]`.
   */
  method AddCorner<T>(acc: array<T>, start: nat, tri: seq<nat>, numVerts: nat,
                      zero: T, plus: (T, T) -> T, dir: (nat, nat) -> T, f: nat, n: nat, ghost next: nat, d: T)
    requires n < |tri| && next == n + 1 && tri[n] < numVerts && start + numVerts <= acc.Length
    requires d == dir(f, n / 3)
    requires forall v :: 0 <= v < numVerts ==> acc[start + v] == Accumulated(tri, zero, plus, dir, f, v, n)
    modifies acc
    ensures forall v :: 0 <= v < numVerts ==> acc[start + v] == Accumulated(tri, zero, plus, dir, f, v, next)
    ensures acc[..start] == old(acc[..start])
    ensures acc[start + numVerts..] == old(acc[start + numVerts..])
  {
    var index := start + tri[n];
    acc[index] := plus(d, acc[index]);
  }
}
