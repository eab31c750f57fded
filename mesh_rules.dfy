/**
 * Load-time validation rules of the static-mesh formats (MD3, MDC, TAN) and
 * of the MDR header, worked out over the decoded header fields: which files
 * the loaders reject, how a surface name is normalised, how a packed normal
 * selects entries of the sine table, and the TAN tag-count clamp.
 */
module MeshRules {
  import opened Defs

  // ---------------------------------------------------------------------
  // Static-mesh headers
  // ---------------------------------------------------------------------

  datatype MeshFormat = FormatMD3 | FormatMDC | FormatTAN

  /** The version each loader insists on. */
  function ExpectedVersion(f: MeshFormat): int
  {
    match f
    case FormatMD3 => MD3_VERSION
    case FormatMDC => MDC_VERSION
    case FormatTAN => TIKI_ANIM_VERSION
  }

  /** The fields of one file surface the load rules read; `name` is the text before the first NUL. */
  datatype SurfaceHeader = SurfaceHeader(name: string, numVerts: int, numTriangles: int)

  /** The fields of a static-mesh file header the load rules read. */
  datatype MeshHeader = MeshHeader(version: int, numFrames: int, numTags: int, surfaces: seq<SurfaceHeader>)

  datatype MeshError = WrongVersion | NoFrames | TooManyVerts(surface: nat) | TooManyTriangles(surface: nat)

  /** A surface of the loaded model (mdvSurface_t) as far as these rules fix it. */
  datatype LoadedSurface = LoadedSurface(name: string, numVerts: int, numIndexes: int)

  /** The loaded model (mdvModel_t) as far as these rules fix it. */
  datatype LoadedMesh = LoadedMesh(numFrames: int, numTags: int, surfaces: seq<LoadedSurface>)

  datatype MeshResult = MeshOk(mesh: LoadedMesh) | MeshErr(error: MeshError)

  /** `numTriangles * 3` evaluated in a C `int`. */
  function IndexCount(numTriangles: int): (r: int)
    ensures IsInt32(r)
    ensures IsInt32(numTriangles * 3) ==> r == numTriangles * 3
  {
    WrapInt32(numTriangles * 3)
  }

  /** The two per-surface rejection tests, with the triangle test as the code evaluates it. */
  predicate SurfaceFits(s: SurfaceHeader)
  {
    s.numVerts < SHADER_MAX_VERTEXES && IndexCount(s.numTriangles) < SHADER_MAX_INDEXES
  }

  /**
   * The first surface from index `from` on that fails a test, reported as
   * the loader reports it: the vertex test is made before the triangle test.
   */
  function FirstSurfaceError(surfaces: seq<SurfaceHeader>, from: nat): (r: Option<MeshError>)
    requires from <= |surfaces|
    decreases |surfaces| - from
    ensures r.None? <==> forall i :: from <= i < |surfaces| ==> SurfaceFits(surfaces[i])
    ensures r.Some? && r.value.TooManyVerts? ==>
      var k := r.value.surface;
      from <= k < |surfaces| && surfaces[k].numVerts >= SHADER_MAX_VERTEXES &&
      forall i :: from <= i < k ==> SurfaceFits(surfaces[i])
    ensures r.Some? && r.value.TooManyTriangles? ==>
      var k := r.value.surface;
      from <= k < |surfaces| && surfaces[k].numVerts < SHADER_MAX_VERTEXES &&
      IndexCount(surfaces[k].numTriangles) >= SHADER_MAX_INDEXES &&
      forall i :: from <= i < k ==> SurfaceFits(surfaces[i])
    ensures r.Some? ==> r.value.TooManyVerts? || r.value.TooManyTriangles?
  {
    if from == |surfaces| then None
    else if surfaces[from].numVerts >= SHADER_MAX_VERTEXES then Some(TooManyVerts(from))
    else if IndexCount(surfaces[from].numTriangles) >= SHADER_MAX_INDEXES then Some(TooManyTriangles(from))
    else FirstSurfaceError(surfaces, from + 1)
  }

  /** R_LoadTAN's clamp of the declared tag count to the header's tag slots. */
  function ClampTagCount(numTags: int): (r: int)
    ensures r <= TIKI_MAX_TAGS
    ensures numTags <= TIKI_MAX_TAGS ==> r == numTags
    ensures numTags > TIKI_MAX_TAGS ==> r == TIKI_MAX_TAGS
  {
    if numTags > TIKI_MAX_TAGS then TIKI_MAX_TAGS else numTags
  }

  /** The tag count the loaded model records. */
  function LoadedTagCount(f: MeshFormat, numTags: int): int
  {
    if f == FormatTAN then ClampTagCount(numTags) else numTags
  }

  /** What a surface becomes once it passes the tests: name copied, lowercased and stripped. */
  function LoadSurface(s: SurfaceHeader): LoadedSurface
  {
    LoadedSurface(NormaliseName(Truncate(s.name, MAX_QPATH)), s.numVerts, IndexCount(s.numTriangles))
  }

  /**
   * R_LoadMD3 / R_LoadMDC / R_LoadTAN on a decoded header: the version test,
   * the frame-count test, then the per-surface tests in surface order.
   */
  function LoadMesh(f: MeshFormat, h: MeshHeader): (r: MeshResult)
    ensures r.MeshOk? ==>
      h.version == ExpectedVersion(f) && r.mesh.numFrames == h.numFrames >= 1 &&
      |r.mesh.surfaces| == |h.surfaces| &&
      forall i :: 0 <= i < |h.surfaces| ==>
        r.mesh.surfaces[i].numVerts == h.surfaces[i].numVerts < SHADER_MAX_VERTEXES &&
        r.mesh.surfaces[i].numIndexes == IndexCount(h.surfaces[i].numTriangles) < SHADER_MAX_INDEXES
    ensures r.MeshOk? && f == FormatTAN ==> r.mesh.numTags <= TIKI_MAX_TAGS
    ensures r.MeshErr? && r.error == WrongVersion <==> h.version != ExpectedVersion(f)
    ensures r.MeshErr? && r.error == NoFrames <==> h.version == ExpectedVersion(f) && h.numFrames < 1
  {
    if h.version != ExpectedVersion(f) then MeshErr(WrongVersion)
    else if h.numFrames < 1 then MeshErr(NoFrames)
    else match FirstSurfaceError(h.surfaces, 0)
      case Some(e) => MeshErr(e)
      case None =>
        MeshOk(LoadedMesh(h.numFrames, LoadedTagCount(f, h.numTags),
                          seq(|h.surfaces|, i requires 0 <= i < |h.surfaces| => LoadSurface(h.surfaces[i]))))
  }

  /** A header is accepted exactly when it passes every test. */
  lemma LoadMeshAcceptsExactly(f: MeshFormat, h: MeshHeader)
    ensures LoadMesh(f, h).MeshOk? <==>
      h.version == ExpectedVersion(f) && h.numFrames >= 1 &&
      forall i :: 0 <= i < |h.surfaces| ==> SurfaceFits(h.surfaces[i])
  {
    if h.version == ExpectedVersion(f) && h.numFrames >= 1 {
      var e := FirstSurfaceError(h.surfaces, 0);
    }
  }

  /** A rejected surface is reported at its own index, after every earlier surface passed. */
  lemma LoadMeshReportsFirstBadSurface(f: MeshFormat, h: MeshHeader)
    requires LoadMesh(f, h).MeshErr?
    requires LoadMesh(f, h).error.TooManyVerts? || LoadMesh(f, h).error.TooManyTriangles?
    ensures var k := LoadMesh(f, h).error.surface;
      k < |h.surfaces| && !SurfaceFits(h.surfaces[k]) &&
      forall i :: 0 <= i < k ==> SurfaceFits(h.surfaces[i])
  {
  }

  /**
   * Where the triangle count times three stays within an `int`, an accepted
   * surface has exactly three indexes per triangle, fewer than the limit.
   */
  lemma AcceptedIndexCount(f: MeshFormat, h: MeshHeader, i: nat)
    requires LoadMesh(f, h).MeshOk? && i < |h.surfaces|
    requires 0 <= h.surfaces[i].numTriangles * 3 < 0x8000_0000
    ensures LoadMesh(f, h).mesh.surfaces[i].numIndexes == 3 * h.surfaces[i].numTriangles < SHADER_MAX_INDEXES
  {
  }

  /** The triangle test as evidently intended: on the exact product, which cannot wrap. */
  predicate SurfaceFitsIntended(s: SurfaceHeader)
  {
    s.numVerts < SHADER_MAX_VERTEXES && s.numTriangles * 3 < SHADER_MAX_INDEXES
  }

  /** Under the intended test, a surface's index count is exactly three per triangle and below the limit. */
  lemma IntendedTestBoundsIndexes(s: SurfaceHeader)
    requires SurfaceFitsIntended(s) && IsInt32(s.numTriangles) && s.numTriangles >= 0
    ensures IndexCount(s.numTriangles) == 3 * s.numTriangles < SHADER_MAX_INDEXES
  {
  }

  /**
   * The test as written accepts 715827883 triangles: three times that is
   * 2^31 + 1, which wraps to a negative `int` and so passes `< SHADER_MAX_INDEXES`;
   * the intended test rejects it.
   */
  lemma WrappedTriangleCountAccepted()
    ensures var s := SurfaceHeader("s", 0, 715827883);
      SurfaceFits(s) && !SurfaceFitsIntended(s) && IndexCount(s.numTriangles) < 0
  {
    var s := SurfaceHeader("s", 0, 715827883);
    assert s.numTriangles * 3 == 0x8000_0001;
    assert IndexCount(s.numTriangles) == 0x8000_0001 - TWO_32;
  }

  /**
   * How each rejection leaves the model: a version mismatch is detected
   * before the type is set, the other rejections after it.
   */
  function MeshOutcome(r: MeshResult): (o: ParseOutcome)
    ensures o == Parsed <==> r.MeshOk?
    ensures o == RejectedHeader <==> r.MeshErr? && r.error == WrongVersion
  {
    match r
    case MeshOk(_) => Parsed
    case MeshErr(WrongVersion) => RejectedHeader
    case MeshErr(_) => RejectedBody
  }

  // ---------------------------------------------------------------------
  // Surface names
  // ---------------------------------------------------------------------

  /** The surface-name rule: lowercase, then cut a two-character "_x" suffix. */
  function NormaliseName(s: string): (r: string)
    ensures |r| == |s| || |r| == |s| - 2
    ensures |r| == |s| - 2 <==> |s| > 2 && Lowercase(s)[|s| - 2] == '_'
    ensures r == Lowercase(s)[..|r|]
  {
    var l := Lowercase(s);
    if |l| > 2 && l[|l| - 2] == '_' then l[..|l| - 2] else l
  }

  /** The rule is not idempotent: a second application cuts again. */
  lemma NormaliseNameNotIdempotent()
    ensures NormaliseName("a_b_c") == "a_b"
    ensures NormaliseName(NormaliseName("a_b_c")) == "a"
  {
    assert Lowercase("a_b_c") == "a_b_c";
    assert Lowercase("a_b") == "a_b";
  }

  /** The C string held in a character buffer: the characters before the first NUL. */
  function CString(buf: seq<char>): (r: string)
    ensures |r| <= |buf|
    ensures '\0' in buf ==> |r| < |buf|
    ensures forall i :: 0 <= i < |r| ==> r[i] != '\0'
    ensures r == buf[..|r|]
    ensures |r| < |buf| ==> buf[|r|] == '\0'
  {
    match FirstIndexOf(buf, '\0')
    case None => buf
    case Some(i) => buf[..i]
  }

  /** A buffer whose first NUL is at `n` holds the C string of its first `n` characters. */
  lemma CStringAt(buf: seq<char>, n: nat)
    requires n < |buf| && buf[n] == '\0'
    requires forall i :: 0 <= i < n ==> buf[i] != '\0'
    ensures CString(buf) == buf[..n]
  {
  }

  /**
   * The in-place normalisation of a surface's name buffer: Q_strlwr, strlen,
   * and a NUL written over the '_' of a trailing "_x".
   */
  method NormaliseSurfaceName(name: array<char>)
    requires '\0' in name[..]
    modifies name
    ensures CString(name[..]) == NormaliseName(CString(old(name[..])))
  {
    ghost var s := CString(name[..]);
    LowercaseCString(name);
    ghost var lower := CString(name[..]);
    ghost var n := |lower|;
    var j := Strlen(name);
    if j > 2 && name[j - 2] == '_' {
      name[j - 2] := '\0';
      assert name[..n - 2] == lower[..n - 2];
      CStringAt(name[..], n - 2);
      assert NormaliseName(s) == lower[..n - 2];
    } else {
      assert NormaliseName(s) == lower;
    }
  }

  /** strlen: the position of the first NUL. */
  method Strlen(name: array<char>) returns (j: nat)
    requires '\0' in name[..]
    ensures j == |CString(name[..])|
  {
    ghost var n := |CString(name[..])|;
    j := 0;
    while name[j] != '\0'
      invariant 0 <= j <= n
      decreases n - j
    {
      j := j + 1;
    }
  }

  /** Q_strlwr: every character before the first NUL lowered, in place. */
  method LowercaseCString(name: array<char>)
    requires '\0' in name[..]
    modifies name
    ensures '\0' in name[..]
    ensures CString(name[..]) == Lowercase(CString(old(name[..])))
  {
    ghost var s := CString(name[..]);
    ghost var n := |s|;
    var i := 0;
    while name[i] != '\0'
      invariant 0 <= i <= n
      invariant forall k :: 0 <= k < i ==> name[k] == ToLower(s[k])
      invariant forall k :: i <= k < name.Length ==> name[k] == old(name[k])
      decreases n - i
    {
      name[i] := ToLower(name[i]);
      i := i + 1;
    }
    assert name[..n] == Lowercase(s);
    assert forall k :: 0 <= k < n ==> name[k] != '\0';
    CStringAt(name[..], n);
  }

  // ---------------------------------------------------------------------
  // Packed normals and the sine table
  // ---------------------------------------------------------------------

  /** Bitwise AND of two naturals. */
  function BitAnd(x: nat, y: nat): nat
  {
    if x == 0 || y == 0 then 0
    else 2 * BitAnd(x / 2, y / 2) + (if x % 2 == 1 && y % 2 == 1 then 1 else 0)
  }

  lemma DivModStep(x: nat, p: nat)
    requires p >= 1
    ensures x % (2 * p) == 2 * ((x / 2) % p) + x % 2
  {
    var q := x / 2;
    var b := x % 2;
    var t := q / p;
    var r := q % p;
    assert x == 2 * q + b;
    assert q == p * t + r;
    assert x == (2 * p) * t + (2 * r + b);
    ModUnique(x, 2 * p, t, 2 * r + b);
  }

  /** Masking with 2^k - 1 keeps the residue modulo 2^k. */
  lemma {:induction false} BitAndLowMask(x: nat, k: nat)
    ensures BitAnd(x, Pow2(k) - 1) == x % Pow2(k)
  {
    if k > 0 && x > 0 {
      BitAndLowMask(x / 2, k - 1);
      BitAndLowMaskStep(x, k);
    } else if k == 0 {
      assert Pow2(k) - 1 == 0;
    } else {
      ModUnique(0, Pow2(k), 0, 0);
    }
  }

  /** One bit of BitAndLowMask: the low bit of `x` followed by the masked rest. */
  lemma BitAndLowMaskStep(x: nat, k: nat)
    requires k > 0 && x > 0
    requires BitAnd(x / 2, Pow2(k - 1) - 1) == (x / 2) % Pow2(k - 1)
    ensures BitAnd(x, Pow2(k) - 1) == x % Pow2(k)
  {
    var p := Pow2(k - 1);
    var mask := Pow2(k) - 1;
    assert Pow2(k) == 2 * p;
    assert mask == 2 * (p - 1) + 1;
    assert mask / 2 == p - 1 && mask % 2 == 1;
    assert BitAnd(x, mask) == 2 * BitAnd(x / 2, p - 1) + x % 2;
    DivModStep(x, p);
  }

  /** The four sine-table indexes one packed normal selects. */
  datatype NormalIndexes = NormalIndexes(lat: nat, lng: nat, cosLat: nat, cosLng: nat)

  /** `(a + FUNCTABLE_SIZE/4) & FUNCTABLE_MASK`: the cosine as a quarter-period-shifted sine. */
  function CosineIndex(a: nat): (r: nat)
    ensures r < FuncTableSize()
    ensures r == (a + FuncTableSize() / 4) % FuncTableSize()
  {
    BitAndLowMask(a + FuncTableSize() / 4, FUNCTABLE_LOG2);
    BitAnd(a + FuncTableSize() / 4, FuncTableMask())
  }

  /**
   * The lat/long decode of a 16-bit packed normal: the high byte is the
   * latitude and the low byte the longitude, each in steps of
   * FUNCTABLE_SIZE/256 table entries.
   */
  function NormalTableIndexes(normal: nat): (r: NormalIndexes)
    requires normal < 0x1_0000
    ensures r.lat == (normal / 256) * (FuncTableSize() / 256)
    ensures r.lng == (normal % 256) * (FuncTableSize() / 256)
    ensures r.lat < FuncTableSize() && r.lng < FuncTableSize()
    ensures r.cosLat == CosineIndex(r.lat) && r.cosLng == CosineIndex(r.lng)
  {
    HighByteMask(normal);
    ByteMask(normal);
    var lat := TableStep(BitAnd(normal / 256, 0xff));
    var lng := TableStep(BitAnd(normal, 0xff));
    NormalIndexes(lat, lng, CosineIndex(lat), CosineIndex(lng))
  }

  /** A byte value in steps of FUNCTABLE_SIZE/256 table entries, which stays inside the table. */
  function TableStep(b: nat): (r: nat)
    requires b < 256
    ensures r == b * (FuncTableSize() / 256) && r < FuncTableSize()
  {
    ScaledByteBelowTable(b);
    b * (FuncTableSize() / 256)
  }

  /** The high byte of a 16-bit value passes `& 0xff` unchanged. */
  lemma HighByteMask(x: nat)
    requires x < 0x1_0000
    ensures BitAnd(x / 256, 0xff) == x / 256 && x / 256 < 256
  {
    ByteMask(x / 256);
  }

  /** `& 0xff` keeps the low byte. */
  lemma ByteMask(x: nat)
    ensures BitAnd(x, 0xff) == x % 256
  {
    assert Pow2(8) == 256 by {
      assert Pow2(1) == 2;
      assert Pow2(2) == 4;
      assert Pow2(3) == 8;
      assert Pow2(4) == 16;
      assert Pow2(5) == 32;
      assert Pow2(6) == 64;
      assert Pow2(7) == 128;
    }
    BitAndLowMask(x, 8);
  }

  /** A byte value in steps of FUNCTABLE_SIZE/256 stays inside the table. */
  lemma ScaledByteBelowTable(b: nat)
    requires b < 256
    ensures b * (FuncTableSize() / 256) < FuncTableSize()
  {
    var step := FuncTableSize() / 256;
    assert FuncTableSize() == 256 * step;
    MulAtLeast(step, 256 - b);
    assert step * (256 - b) == 256 * step - b * step;
  }

  // ---------------------------------------------------------------------
  // MDR header size checks
  // ---------------------------------------------------------------------

  /** sizeof(mdrHeader_t). */
  const MDR_HEADER_BYTES: CLimit
  /** sizeof(mdrFrame_t::name). */
  const MDR_FRAME_NAME_BYTES: CLimit
  /** sizeof(mdrFrame_t) without its bone array. */
  const MDR_FRAME_HEAD_BYTES: CLimit
  /** sizeof(mdrBone_t): a 3x4 float matrix. */
  const MDR_BONE_BYTES: nat := 48
  /** sizeof(mdrCompBone_t): the 24-byte compressed bone. */
  const MDR_COMP_BONE_BYTES: nat := 24
  /** sizeof(mdrFrame_t), which declares one bone. */
  function MdrFrameBytes(): nat { MDR_FRAME_HEAD_BYTES + MDR_BONE_BYTES }

  /** The MDR header fields the checks read. */
  datatype MdrHeader = MdrHeader(version: int, ofsEnd: int, numFrames: int, numBones: int, ofsFrames: int)

  datatype MdrError = MdrWrongVersion | MdrBadFileSize | MdrBrokenStructure | MdrNoFrames

  /** On success, the size of the in-memory model the loader allocates. */
  datatype MdrResult = MdrOk(size: int) | MdrErr(error: MdrError)

  /**
   * The declared size, grown for a compressed-bone file (negative `ofsFrames`)
   * by the frame names and the extra bytes of each uncompressed bone; the
   * `int` accumulator wraps.
   */
  function MdrTargetSize(h: MdrHeader): (size: int)
    ensures IsInt32(h.ofsEnd) && h.ofsFrames >= 0 ==> size == h.ofsEnd
    ensures IsInt32(size)
  {
    if h.ofsFrames < 0 then
      var s1 := WrapInt32(h.ofsEnd + h.numFrames * MDR_FRAME_NAME_BYTES);
      WrapInt32(s1 + WrapInt32(h.numFrames * h.numBones) * (MDR_BONE_BYTES - MDR_COMP_BONE_BYTES))
    else WrapInt32(h.ofsEnd)
  }

  /** `sizeof(*mdr) + numFrames * (sizeof(*frame) + (numBones - 1) * sizeof(*frame->bones))` in `size_t`. */
  function MdrMinimumBytes(h: MdrHeader): nat
  {
    var perFrame := ToSize(MdrFrameBytes() + ToSize(ToSize(h.numBones - 1) * MDR_BONE_BYTES));
    ToSize(MDR_HEADER_BYTES + ToSize(ToSize(h.numFrames) * perFrame))
  }

  /** R_LoadMDR's header checks, in the code's order, against the real file size. */
  function CheckMdrHeader(h: MdrHeader, filesize: int): (r: MdrResult)
    ensures r.MdrOk? ==> h.version == MDR_VERSION && h.ofsEnd <= filesize && h.numBones >= 0 && h.numFrames >= 1
    ensures r.MdrOk? ==> r.size == MdrTargetSize(h) && MdrMinimumBytes(h) <= ToSize(r.size)
    ensures r.MdrErr? && r.error == MdrWrongVersion <==> h.version != MDR_VERSION
    ensures r.MdrErr? && r.error == MdrBadFileSize <==> h.version == MDR_VERSION && h.ofsEnd > filesize
  {
    if h.version != MDR_VERSION then MdrErr(MdrWrongVersion)
    else if h.ofsEnd > filesize then MdrErr(MdrBadFileSize)
    else
      var size := MdrTargetSize(h);
      if h.numBones < 0 || MdrMinimumBytes(h) > ToSize(size) then MdrErr(MdrBrokenStructure)
      else if h.numFrames < 1 then MdrErr(MdrNoFrames)
      else MdrOk(size)
  }

  /**
   * When nothing wraps, an accepted MDR file's target size holds the header
   * and every frame with all its bones.
   */
  lemma MdrAcceptedFramesFit(h: MdrHeader, filesize: int)
    requires CheckMdrHeader(h, filesize).MdrOk?
    requires 0 <= CheckMdrHeader(h, filesize).size
    requires MDR_HEADER_BYTES + h.numFrames * (MDR_FRAME_HEAD_BYTES + h.numBones * MDR_BONE_BYTES) < TWO_64
    ensures MDR_HEADER_BYTES + h.numFrames * (MDR_FRAME_HEAD_BYTES + h.numBones * MDR_BONE_BYTES)
            <= CheckMdrHeader(h, filesize).size
  {
    var perFrame := MDR_FRAME_HEAD_BYTES + h.numBones * MDR_BONE_BYTES;
    var nf := h.numFrames;
    MulAtLeast(perFrame, nf);
    MulAtLeast(nf, perFrame);
    MdrFrameBytesNoWrap(h.numBones);
    SizeProductExact(MDR_HEADER_BYTES, nf, perFrame);
  }

  /** `size_t` arithmetic `header + n * per` is exact when the true value fits. */
  lemma SizeProductExact(header: nat, n: nat, per: nat)
    requires n <= n * per && header + n * per < TWO_64
    ensures ToSize(header + ToSize(ToSize(n) * per)) == header + n * per
  {
    assert ToSize(n) == n;
    assert ToSize(n * per) == n * per;
  }

  /** The `size_t` evaluation of `sizeof(*frame) + (numBones - 1) * sizeof(bone)` is exact when the result fits. */
  lemma MdrFrameBytesNoWrap(numBones: int)
    requires numBones >= 0
    requires MDR_FRAME_HEAD_BYTES + numBones * MDR_BONE_BYTES < TWO_64
    ensures ToSize(MdrFrameBytes() + ToSize(ToSize(numBones - 1) * MDR_BONE_BYTES))
            == MDR_FRAME_HEAD_BYTES + numBones * MDR_BONE_BYTES
  {
    if numBones == 0 {
      assert ToSize(ToSize(numBones - 1) * MDR_BONE_BYTES) == TWO_64 - MDR_BONE_BYTES;
      ModUnique(MdrFrameBytes() + TWO_64 - MDR_BONE_BYTES, TWO_64, 1, MDR_FRAME_HEAD_BYTES);
    } else {
      assert ToSize(numBones - 1) == numBones - 1;
    }
  }

  /** How each MDR rejection leaves the model: the type is set only once the size test passed. */
  function MdrOutcome(r: MdrResult): (o: ParseOutcome)
    ensures o == Parsed <==> r.MdrOk?
    ensures o == RejectedHeader <==> r.MdrErr? && (r.error == MdrWrongVersion || r.error == MdrBadFileSize)
  {
    match r
    case MdrOk(_) => Parsed
    case MdrErr(MdrWrongVersion) => RejectedHeader
    case MdrErr(MdrBadFileSize) => RejectedHeader
    case MdrErr(_) => RejectedBody
  }
}
