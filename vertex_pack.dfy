/**
 * The vertex-buffer layout and packer of the static-mesh loaders: how the
 * texture coordinates, positions, normals and tangents of a surface are laid
 * out in one byte buffer (split by frame for animated meshes, interleaved
 * for single-frame ones), the vertex-array attributes that describe that
 * layout, and the copy loops that fill the buffer. Attribute values are
 * modelled by their byte images; their float and short encodings are not.
 */
module VertexPack {
  import opened Defs

  /** sizeof(vec2_t), sizeof(vec3_t) and sizeof(int16_t) * 4. */
  const VEC2_BYTES: nat := 8
  const VEC3_BYTES: nat := 12
  const SHORT4_BYTES: nat := 8

  /** Conversion to `uint32_t`. */
  function U32(x: int): (r: nat)
    ensures r < TWO_32
    ensures 0 <= x < TWO_32 ==> r == x
  {
    x % TWO_32
  }

  datatype GlType = GlFloat | GlShort

  /** One vertex-array attribute as the loader configures it. */
  datatype Attrib = Attrib(count: nat, glType: GlType, normalized: bool, offset: nat, stride: nat)

  /**
   * The attributes of a surface's vertex array. The second position, normal
   * and tangent (the next frame for vertex animation) and the frame size are
   * set only for animated meshes.
   */
  datatype VaoLayout = VaoLayout(
    position: Attrib, texcoord: Attrib, normal: Attrib, tangent: Attrib,
    position2: Option<Attrib>, normal2: Option<Attrib>, tangent2: Option<Attrib>,
    frameSize: Option<nat>, dataSize: nat)

  /** The number of bytes an attribute occupies in each record. */
  function AttribBytes(a: Attrib): nat
  {
    a.count * (if a.glType == GlFloat then 4 else 2)
  }

  /**
   * The layout for a surface of `numVerts` vertices in a model of
   * `numFrames` frames, with the loader's `uint32_t` arithmetic.
   */
  function Layout(numVerts: int, numFrames: int): (l: VaoLayout)
    ensures AttribBytes(l.position) == VEC3_BYTES && AttribBytes(l.texcoord) == VEC2_BYTES
    ensures AttribBytes(l.normal) == SHORT4_BYTES && AttribBytes(l.tangent) == SHORT4_BYTES
    ensures numFrames > 1 <==> l.position2.Some?
    ensures numFrames > 1 ==>
      l.position2 == Some(l.position) && l.normal2 == Some(l.normal) && l.tangent2 == Some(l.tangent)
    ensures numFrames > 1 ==> l.frameSize == Some(U32(l.position.stride * numVerts))
  {
    if numFrames > 1 then
      // vertex animation: texture coordinates first, then position/normal/tangent per frame
      var offsetSt := 0;
      var offsetXyz := U32(numVerts * VEC2_BYTES);
      var offsetNormal := U32(offsetXyz + VEC3_BYTES);
      var offsetTangent := U32(offsetNormal + SHORT4_BYTES);
      var strideXyz := VEC3_BYTES + SHORT4_BYTES + SHORT4_BYTES;
      var dataSize := U32(offsetXyz + U32(WrapInt32(numVerts * numFrames) * strideXyz));
      var position := Attrib(3, GlFloat, false, offsetXyz, strideXyz);
      var normal := Attrib(4, GlShort, true, offsetNormal, strideXyz);
      var tangent := Attrib(4, GlShort, true, offsetTangent, strideXyz);
      VaoLayout(position, Attrib(2, GlFloat, false, offsetSt, VEC2_BYTES), normal, tangent,
                Some(position), Some(normal), Some(tangent), Some(U32(strideXyz * numVerts)), dataSize)
    else
      // no animation: everything interleaved
      var offsetXyz := 0;
      var offsetSt := offsetXyz + VEC3_BYTES;
      var offsetNormal := offsetSt + VEC2_BYTES;
      var offsetTangent := offsetNormal + SHORT4_BYTES;
      var stride := offsetTangent + SHORT4_BYTES;
      VaoLayout(Attrib(3, GlFloat, false, offsetXyz, stride), Attrib(2, GlFloat, false, offsetSt, stride),
                Attrib(4, GlShort, true, offsetNormal, stride), Attrib(4, GlShort, true, offsetTangent, stride),
                None, None, None, None, U32(numVerts * stride))
  }

  /** The buffer size the layouts describe, without wrap-around. */
  function PackedBytes(numVerts: nat, numFrames: nat): nat
  {
    if numFrames > 1 then numVerts * VEC2_BYTES + numVerts * numFrames * 28 else numVerts * 36
  }

  /**
   * When the buffer size fits in 32 bits, the split layout puts texture
   * coordinates at 0 and the 28-byte position/normal/tangent records after
   * them, and the interleaved layout uses 36-byte records at 0/12/20/28.
   */
  lemma LayoutWithoutWrap(numVerts: nat, numFrames: nat)
    requires numFrames >= 1 && PackedBytes(numVerts, numFrames) < TWO_32
    ensures var l := Layout(numVerts, numFrames);
      l.dataSize == PackedBytes(numVerts, numFrames) &&
      (numFrames > 1 ==>
        l.texcoord.offset == 0 && l.texcoord.stride == 8 &&
        l.position.offset == 8 * numVerts && l.normal.offset == 8 * numVerts + 12 &&
        l.tangent.offset == 8 * numVerts + 20 &&
        l.position.stride == l.normal.stride == l.tangent.stride == 28 &&
        l.frameSize == Some(28 * numVerts)) &&
      (numFrames == 1 ==>
        l.position.offset == 0 && l.texcoord.offset == 12 && l.normal.offset == 20 && l.tangent.offset == 28 &&
        l.position.stride == l.texcoord.stride == l.normal.stride == l.tangent.stride == 36)
  {
    if numFrames > 1 {
      MulGrows(1, numFrames, numVerts);
      SplitSizesExact(numVerts, numVerts * numFrames);
    }
  }

  /**
   * The `uint32_t` sums of the split layout are exact when the total fits,
   * with `records` standing for `numVerts * numFrames`.
   */
  lemma SplitSizesExact(numVerts: nat, records: nat)
    requires numVerts <= records && numVerts * VEC2_BYTES + records * 28 < TWO_32
    ensures U32(numVerts * VEC2_BYTES) == 8 * numVerts
    ensures WrapInt32(records) == records
    ensures U32(U32(numVerts * VEC2_BYTES) + U32(WrapInt32(records) * 28)) == numVerts * VEC2_BYTES + records * 28
    ensures U32(28 * numVerts) == 28 * numVerts
  {
    assert records < 0x8000_0000;
    assert WrapInt32(records) == records;
  }

  // ---------------------------------------------------------------------
  // Packed images
  // ---------------------------------------------------------------------

  /** The byte images of one mdvVertex_t's position, packed normal and packed tangent. */
  datatype VertexBytes = VertexBytes(xyz: seq<Byte>, normal: seq<Byte>, tangent: seq<Byte>)

  predicate WellSized(v: VertexBytes)
  {
    |v.xyz| == VEC3_BYTES && |v.normal| == SHORT4_BYTES && |v.tangent| == SHORT4_BYTES
  }

  /** The concatenation of a sequence of byte records. */
  function Flatten(records: seq<seq<Byte>>): seq<Byte>
  {
    if records == [] then [] else Flatten(records[..|records| - 1]) + records[|records| - 1]
  }

  /** Record `i` of `width`-byte records starts at `i * width`. */
  lemma {:induction false} FlattenUniform(records: seq<seq<Byte>>, width: nat, i: nat)
    requires forall k :: 0 <= k < |records| ==> |records[k]| == width
    requires i < |records|
    ensures |Flatten(records)| == |records| * width
    ensures i * width + width <= |records| * width
    ensures Flatten(records)[i * width..i * width + width] == records[i]
  {
    var n := |records|;
    FlattenLength(records, width);
    FlattenLength(records[..n - 1], width);
    MulGrows(i + 1, n, width);
    if i < n - 1 {
      FlattenUniform(records[..n - 1], width, i);
      MulGrows(i + 1, n - 1, width);
      assert Flatten(records)[..(n - 1) * width] == Flatten(records[..n - 1]);
    }
  }

  lemma {:induction false} FlattenLength(records: seq<seq<Byte>>, width: nat)
    requires forall k :: 0 <= k < |records| ==> |records[k]| == width
    ensures |Flatten(records)| == |records| * width
  {
    if records != [] {
      FlattenLength(records[..|records| - 1], width);
    }
  }

  lemma FlattenSnoc(records: seq<seq<Byte>>, j: nat)
    requires j < |records|
    ensures Flatten(records[..j + 1]) == Flatten(records[..j]) + records[j]
  {
    assert records[..j + 1][..j] == records[..j];
  }

  /** A 28-byte animated-mesh record: position, normal, tangent. */
  function FrameRecord(v: VertexBytes): seq<Byte>
  {
    v.xyz + v.normal + v.tangent
  }

  /** A 36-byte interleaved record: position, texture coordinates, normal, tangent. */
  function InterleavedRecord(v: VertexBytes, st: seq<Byte>): seq<Byte>
  {
    v.xyz + st + v.normal + v.tangent
  }

  /** The animated-mesh record of every frame vertex. */
  function FrameRecords(verts: seq<VertexBytes>): (r: seq<seq<Byte>>)
    ensures |r| == |verts| && forall i :: 0 <= i < |verts| ==> r[i] == FrameRecord(verts[i])
  {
    seq(|verts|, i requires 0 <= i < |verts| => FrameRecord(verts[i]))
  }

  /** The interleaved record of every vertex of frame 0. */
  function InterleavedRecords(st: seq<seq<Byte>>, verts: seq<VertexBytes>): (r: seq<seq<Byte>>)
    requires |st| <= |verts|
    ensures |r| == |st| && forall i :: 0 <= i < |st| ==> r[i] == InterleavedRecord(verts[i], st[i])
  {
    seq(|st|, i requires 0 <= i < |st| => InterleavedRecord(verts[i], st[i]))
  }

  /**
   * The buffer the loader fills: for an animated mesh, every vertex's
   * texture coordinates followed by the records of all `numVerts * numFrames`
   * frame vertices; otherwise one interleaved record per vertex of frame 0.
   */
  function PackedImage(st: seq<seq<Byte>>, verts: seq<VertexBytes>, numVerts: nat, numFrames: nat): seq<Byte>
    requires |st| == numVerts && |verts| == numVerts * numFrames && numFrames >= 1
  {
    MulGrows(1, numFrames, numVerts);
    if numFrames > 1 then Flatten(st) + Flatten(FrameRecords(verts))
    else Flatten(InterleavedRecords(st, verts))
  }

  /** Bytes `lo..hi` of record `r` of `width`-byte records, placed after `front`. */
  lemma FlattenField(front: seq<Byte>, records: seq<seq<Byte>>, width: nat, r: nat, lo: nat, hi: nat)
    requires forall k :: 0 <= k < |records| ==> |records[k]| == width
    requires r < |records| && lo <= hi <= width
    ensures |front + Flatten(records)| == |front| + |records| * width
    ensures |front| + r * width + hi <= |front + Flatten(records)|
    ensures (front + Flatten(records))[|front| + r * width + lo..|front| + r * width + hi] == records[r][lo..hi]
  {
    var back := Flatten(records);
    MulGrows(0, r, width);
    var at := r * width;
    FlattenUniform(records, width, r);
    assert at + |records[r]| <= |back| && back[at..at + |records[r]|] == records[r];
    SubRecord(front + back, front, back, at, records[r], lo, hi);
  }

  /** The `size` bytes an attribute describes for record `r` of a buffer. */
  function AttribSlice(data: seq<Byte>, a: Attrib, r: nat): seq<Byte>
    requires a.offset + r * a.stride + AttribBytes(a) <= |data|
  {
    data[a.offset + r * a.stride..a.offset + r * a.stride + AttribBytes(a)]
  }

  // ---------------------------------------------------------------------
  // The packing loops
  // ---------------------------------------------------------------------

  /** memcpy(data + ofs, src, |src|): the buffer now holds `src` after its first `ofs` bytes. */
  method CopyBytes(data: array<Byte>, ofs: nat, src: seq<Byte>)
    requires ofs + |src| <= data.Length
    modifies data
    ensures data[..ofs + |src|] == old(data[..ofs]) + src
    ensures data[ofs + |src|..] == old(data[ofs + |src|..])
  {
    var i := 0;
    while i < |src|
      invariant 0 <= i <= |src|
      invariant data[..ofs + i] == old(data[..ofs]) + src[..i]
      invariant data[ofs + |src|..] == old(data[ofs + |src|..])
    {
      data[ofs + i] := src[i];
      assert src[..i + 1] == src[..i] + [src[i]];
      i := i + 1;
    }
  }

  /**
   * The loops that fill the vertex buffer of one surface, advancing
   * `dataOfs` by each attribute's size. The buffer ends exactly full, with
   * the image the layout describes.
   */
  method PackSurface(data: array<Byte>, st: seq<seq<Byte>>, verts: seq<VertexBytes>, numVerts: nat, numFrames: nat)
    returns (dataOfs: nat)
    requires numFrames >= 1 && PackedBytes(numVerts, numFrames) < TWO_32
    requires data.Length == Layout(numVerts, numFrames).dataSize
    requires |st| == numVerts && forall j :: 0 <= j < numVerts ==> |st[j]| == VEC2_BYTES
    requires |verts| == numVerts * numFrames && forall j :: 0 <= j < |verts| ==> WellSized(verts[j])
    modifies data
    ensures dataOfs == data.Length
    ensures data[..] == PackedImage(st, verts, numVerts, numFrames)
  {
    LayoutWithoutWrap(numVerts, numFrames);
    MulGrows(1, numFrames, numVerts);
    if numFrames > 1 {
      FlattenLength(st, VEC2_BYTES);
      dataOfs := PackTexCoords(data, st);
      FlattenLength(FrameRecords(verts), 28);
      dataOfs := PackFrameVertices(data, dataOfs, verts);
    } else {
      FlattenLength(InterleavedRecords(st, verts), 36);
      dataOfs := PackInterleaved(data, st, verts);
    }
    assert data[..] == data[..dataOfs];
  }

  /** The texture-coordinate loop of an animated mesh. */
  method PackTexCoords(data: array<Byte>, st: seq<seq<Byte>>) returns (dataOfs: nat)
    requires forall j :: 0 <= j < |st| ==> |st[j]| == VEC2_BYTES
    requires |Flatten(st)| <= data.Length
    modifies data
    ensures dataOfs == |Flatten(st)| && data[..dataOfs] == Flatten(st)
  {
    FlattenLength(st, VEC2_BYTES);
    dataOfs := 0;
    var j := 0;
    while j < |st|
      invariant 0 <= j <= |st| && dataOfs == VEC2_BYTES * j
      invariant data[..dataOfs] == Flatten(st[..j])
    {
      CopyBytes(data, dataOfs, st[j]);
      FlattenSnoc(st, j);
      dataOfs := dataOfs + VEC2_BYTES;
      j := j + 1;
    }
    assert st[..|st|] == st;
  }

  /** The position/normal/tangent loop over all frame vertices of an animated mesh. */
  method PackFrameVertices(data: array<Byte>, head: nat, verts: seq<VertexBytes>) returns (dataOfs: nat)
    requires forall j :: 0 <= j < |verts| ==> WellSized(verts[j])
    requires head + 28 * |verts| <= data.Length
    modifies data
    ensures dataOfs == head + 28 * |verts|
    ensures data[..dataOfs] == old(data[..head]) + Flatten(FrameRecords(verts))
  {
    ghost var prefix := data[..head];
    ghost var records := FrameRecords(verts);
    dataOfs := head;
    var j := 0;
    while j < |verts|
      invariant 0 <= j <= |verts| && dataOfs == head + 28 * j
      invariant data[..dataOfs] == prefix + Flatten(records[..j])
    {
      PackFrameRecord(data, dataOfs, verts[j]);
      dataOfs := dataOfs + 28;
      FlattenSnoc(records, j);
      j := j + 1;
    }
    assert records[..|verts|] == records;
  }

  /** One iteration of the animated-mesh loop: position, normal and tangent of one frame vertex. */
  method PackFrameRecord(data: array<Byte>, dataOfs: nat, v: VertexBytes)
    requires WellSized(v) && dataOfs + 28 <= data.Length
    modifies data
    ensures data[..dataOfs + 28] == old(data[..dataOfs]) + FrameRecord(v)
  {
    var ofs := dataOfs;
    // xyz
    CopyBytes(data, ofs, v.xyz);
    ofs := ofs + VEC3_BYTES;
    // normal
    CopyBytes(data, ofs, v.normal);
    ofs := ofs + SHORT4_BYTES;
    // tangent
    CopyBytes(data, ofs, v.tangent);
  }

  /** The interleaved loop of a single-frame mesh. */
  method PackInterleaved(data: array<Byte>, st: seq<seq<Byte>>, verts: seq<VertexBytes>) returns (dataOfs: nat)
    requires |st| == |verts| && forall j :: 0 <= j < |st| ==> |st[j]| == VEC2_BYTES
    requires forall j :: 0 <= j < |verts| ==> WellSized(verts[j])
    requires 36 * |verts| <= data.Length
    modifies data
    ensures dataOfs == 36 * |verts| && data[..dataOfs] == Flatten(InterleavedRecords(st, verts))
  {
    ghost var records := InterleavedRecords(st, verts);
    dataOfs := 0;
    var j := 0;
    while j < |verts|
      invariant 0 <= j <= |verts| && dataOfs == 36 * j
      invariant data[..dataOfs] == Flatten(records[..j])
    {
      PackInterleavedRecord(data, dataOfs, verts[j], st[j]);
      dataOfs := dataOfs + 36;
      FlattenSnoc(records, j);
      j := j + 1;
    }
    assert records[..|verts|] == records;
  }

  /** One iteration of the interleaved loop: position, texture coordinates, normal and tangent of one vertex. */
  method PackInterleavedRecord(data: array<Byte>, dataOfs: nat, v: VertexBytes, st: seq<Byte>)
    requires WellSized(v) && |st| == VEC2_BYTES && dataOfs + 36 <= data.Length
    modifies data
    ensures data[..dataOfs + 36] == old(data[..dataOfs]) + InterleavedRecord(v, st)
  {
    var ofs := dataOfs;
    // xyz
    CopyBytes(data, ofs, v.xyz);
    ofs := ofs + VEC3_BYTES;
    // st
    CopyBytes(data, ofs, st);
    ofs := ofs + VEC2_BYTES;
    // normal
    CopyBytes(data, ofs, v.normal);
    ofs := ofs + SHORT4_BYTES;
    // tangent
    CopyBytes(data, ofs, v.tangent);
  }

  // ---------------------------------------------------------------------
  // The layout describes the packed image
  // ---------------------------------------------------------------------

  /**
   * For an animated mesh, reading each attribute of record `r` through the
   * layout yields that vertex's bytes, and the texture coordinates of vertex
   * `v` are found through the texcoord attribute.
   */
  lemma AnimatedLayoutReadsImage(st: seq<seq<Byte>>, verts: seq<VertexBytes>, numVerts: nat, numFrames: nat, r: nat)
    requires numFrames > 1 && PackedBytes(numVerts, numFrames) < TWO_32
    requires |st| == numVerts && forall j :: 0 <= j < numVerts ==> |st[j]| == VEC2_BYTES
    requires |verts| == numVerts * numFrames && forall j :: 0 <= j < |verts| ==> WellSized(verts[j])
    requires r < numVerts * numFrames
    ensures var image := PackedImage(st, verts, numVerts, numFrames);
      var l := Layout(numVerts, numFrames);
      |image| == l.dataSize &&
      l.position.offset + r * l.position.stride + AttribBytes(l.position) <= |image| &&
      l.normal.offset + r * l.normal.stride + AttribBytes(l.normal) <= |image| &&
      l.tangent.offset + r * l.tangent.stride + AttribBytes(l.tangent) <= |image| &&
      AttribSlice(image, l.position, r) == verts[r].xyz &&
      AttribSlice(image, l.normal, r) == verts[r].normal &&
      AttribSlice(image, l.tangent, r) == verts[r].tangent &&
      (r < numVerts ==>
        l.texcoord.offset + r * l.texcoord.stride + AttribBytes(l.texcoord) <= |image| &&
        AttribSlice(image, l.texcoord, r) == st[r])
  {
    LayoutWithoutWrap(numVerts, numFrames);
    var l := Layout(numVerts, numFrames);
    var image := PackedImage(st, verts, numVerts, numFrames);
    assert l.position.offset == 8 * numVerts && l.position.stride == 28;
    assert l.normal.offset == 8 * numVerts + 12 && l.normal.stride == 28;
    assert l.tangent.offset == 8 * numVerts + 20 && l.tangent.stride == 28;
    AnimatedFrameRead(st, verts, numVerts, numFrames, r);
    assert AttribSlice(image, l.position, r) == verts[r].xyz;
    assert AttribSlice(image, l.normal, r) == verts[r].normal;
    assert AttribSlice(image, l.tangent, r) == verts[r].tangent;
    if r < numVerts {
      AnimatedTexCoordRead(st, verts, numVerts, numFrames, r);
      assert l.texcoord.offset == 0 && l.texcoord.stride == 8;
    }
  }

  lemma AnimatedFrameRead(st: seq<seq<Byte>>, verts: seq<VertexBytes>, numVerts: nat, numFrames: nat, r: nat)
    requires numFrames > 1
    requires |st| == numVerts && forall j :: 0 <= j < numVerts ==> |st[j]| == VEC2_BYTES
    requires |verts| == numVerts * numFrames && forall j :: 0 <= j < |verts| ==> WellSized(verts[j])
    requires r < numVerts * numFrames
    ensures var image := PackedImage(st, verts, numVerts, numFrames);
      |image| == 8 * numVerts + 28 * (numVerts * numFrames) &&
      8 * numVerts + r * 28 + 28 <= |image| &&
      image[8 * numVerts + r * 28..8 * numVerts + r * 28 + 12] == verts[r].xyz &&
      image[8 * numVerts + r * 28 + 12..8 * numVerts + r * 28 + 20] == verts[r].normal &&
      image[8 * numVerts + r * 28 + 20..8 * numVerts + r * 28 + 28] == verts[r].tangent
  {
    var records := FrameRecords(verts);
    var front := Flatten(st);
    FlattenLength(st, VEC2_BYTES);
    assert PackedImage(st, verts, numVerts, numFrames) == front + Flatten(records);
    FlattenField(front, records, 28, r, 0, 12);
    FlattenField(front, records, 28, r, 12, 20);
    FlattenField(front, records, 28, r, 20, 28);
    assert records[r][..12] == verts[r].xyz;
    assert records[r][12..20] == verts[r].normal;
    assert records[r][20..28] == verts[r].tangent;
  }

  lemma AnimatedTexCoordRead(st: seq<seq<Byte>>, verts: seq<VertexBytes>, numVerts: nat, numFrames: nat, v: nat)
    requires numFrames > 1
    requires |st| == numVerts && forall j :: 0 <= j < numVerts ==> |st[j]| == VEC2_BYTES
    requires |verts| == numVerts * numFrames && forall j :: 0 <= j < |verts| ==> WellSized(verts[j])
    requires v < numVerts
    ensures var image := PackedImage(st, verts, numVerts, numFrames);
      v * 8 + 8 <= 8 * numVerts <= |image| && image[v * 8..v * 8 + 8] == st[v]
  {
    var image := PackedImage(st, verts, numVerts, numFrames);
    FlattenLength(st, VEC2_BYTES);
    FlattenUniform(st, VEC2_BYTES, v);
    assert image[..8 * numVerts] == Flatten(st);
  }

  /** A field of a record that sits `at` bytes into the second part of a buffer. */
  lemma SubRecord(image: seq<Byte>, front: seq<Byte>, back: seq<Byte>, at: nat, rec: seq<Byte>, lo: nat, hi: nat)
    requires image == front + back
    requires at + |rec| <= |back| && back[at..at + |rec|] == rec
    requires lo <= hi <= |rec|
    ensures |front| + at + hi <= |image|
    ensures image[|front| + at + lo..|front| + at + hi] == rec[lo..hi]
  {
    assert forall k :: lo <= k < hi ==> rec[k] == back[at + k];
    assert forall k :: |front| + at + lo <= k < |front| + at + hi ==> image[k] == back[k - |front|];
  }

  /** For a single-frame mesh, reading each attribute of vertex `r` through the layout yields its bytes. */
  lemma InterleavedLayoutReadsImage(st: seq<seq<Byte>>, verts: seq<VertexBytes>, numVerts: nat, r: nat)
    requires PackedBytes(numVerts, 1) < TWO_32
    requires |st| == numVerts && forall j :: 0 <= j < numVerts ==> |st[j]| == VEC2_BYTES
    requires |verts| == numVerts && forall j :: 0 <= j < |verts| ==> WellSized(verts[j])
    requires r < numVerts
    ensures var image := PackedImage(st, verts, numVerts, 1);
      var l := Layout(numVerts, 1);
      |image| == l.dataSize &&
      l.position.offset + r * l.position.stride + AttribBytes(l.position) <= |image| &&
      l.texcoord.offset + r * l.texcoord.stride + AttribBytes(l.texcoord) <= |image| &&
      l.normal.offset + r * l.normal.stride + AttribBytes(l.normal) <= |image| &&
      l.tangent.offset + r * l.tangent.stride + AttribBytes(l.tangent) <= |image| &&
      AttribSlice(image, l.position, r) == verts[r].xyz &&
      AttribSlice(image, l.texcoord, r) == st[r] &&
      AttribSlice(image, l.normal, r) == verts[r].normal &&
      AttribSlice(image, l.tangent, r) == verts[r].tangent
  {
    LayoutWithoutWrap(numVerts, 1);
    var records := InterleavedRecords(st, verts);
    assert PackedImage(st, verts, numVerts, 1) == [] + Flatten(records);
    FlattenField([], records, 36, r, 0, 12);
    FlattenField([], records, 36, r, 12, 20);
    FlattenField([], records, 36, r, 20, 28);
    FlattenField([], records, 36, r, 28, 36);
    assert records[r][..12] == verts[r].xyz;
    assert records[r][12..20] == st[r];
    assert records[r][20..28] == verts[r].normal;
    assert records[r][28..36] == verts[r].tangent;
  }

  /**
   * In the animated layout, vertex `v` of frame `f` is record
   * `f * numVerts + v`, found `f` frame sizes past vertex `v` of frame 0.
   */
  lemma FrameRecordPosition(numVerts: nat, numFrames: nat, f: nat, v: nat)
    requires numFrames > 1 && PackedBytes(numVerts, numFrames) < TWO_32
    requires f < numFrames && v < numVerts
    ensures var l := Layout(numVerts, numFrames);
      f * numVerts + v < numVerts * numFrames &&
      l.position.offset + (f * numVerts + v) * l.position.stride
        == l.position.offset + f * l.frameSize.value + v * l.position.stride
  {
    LayoutWithoutWrap(numVerts, numFrames);
    RecordIndexArith(numVerts, numFrames, f, v);
  }

  lemma RecordIndexArith(numVerts: nat, numFrames: nat, f: nat, v: nat)
    requires f < numFrames && v < numVerts
    ensures f * numVerts + v < numVerts * numFrames
    ensures (f * numVerts + v) * 28 == f * (28 * numVerts) + v * 28
  {
    MulGrows(f + 1, numFrames, numVerts);
    assert (f + 1) * numVerts == f * numVerts + numVerts;
    assert numFrames * numVerts == numVerts * numFrames;
    assert (f * numVerts + v) * 28 == (f * numVerts) * 28 + v * 28;
    assert (f * numVerts) * 28 == f * (28 * numVerts);
  }
}
