/**
 * Shared vocabulary of the model-loading core: the renderer's compile-time
 * limits (kept abstract, since the headers that define them are not part of
 * this model), the model-type discriminator, file identifiers, and the
 * handful of C library helpers whose behaviour the core depends on.
 */
module Defs {

  datatype Option<T> = None | Some(value: T)

  /** Strictly positive natural numbers, for limits that are sizes or counts. */
  type Positive = n: nat | n > 0 witness 1

  /** A positive limit that fits in a C `int`. */
  type CLimit = n: int | 0 < n < 0x8000_0000 witness 1

  /** An unsigned 8-bit value. */
  type Byte = b: int | 0 <= b < 256

  /** Base-2 logarithm of the sine-table size; the table has at least 256 entries. */
  type TableLog2 = k: nat | k >= 8 witness 8

  // ---------------------------------------------------------------------
  // Limits and format constants (defined in headers outside this model)
  // ---------------------------------------------------------------------

  /** Capacity of the model table (MAX_MOD_KNOWN). */
  const MAX_MOD_KNOWN: CLimit
  /** Number of level-of-detail slots per model (MD3_MAX_LODS). */
  const MD3_MAX_LODS: CLimit
  /** Length of a path buffer including its terminator (MAX_QPATH). */
  const MAX_QPATH: CLimit
  /** Exclusive bound on vertices per static-mesh surface (SHADER_MAX_VERTEXES). */
  const SHADER_MAX_VERTEXES: CLimit
  /** Exclusive bound on indexes per static-mesh surface (SHADER_MAX_INDEXES). */
  const SHADER_MAX_INDEXES: CLimit
  /** Number of tag slots in a TAN header (TIKI_MAX_TAGS). */
  const TIKI_MAX_TAGS: CLimit
  /** log2 of FUNCTABLE_SIZE. */
  const FUNCTABLE_LOG2: TableLog2

  const MD3_VERSION: int
  const MDC_VERSION: int
  const MDR_VERSION: int
  const TIKI_ANIM_VERSION: int

  function Pow2(k: nat): (p: nat)
    ensures p >= 1
  {
    if k == 0 then 1 else 2 * Pow2(k - 1)
  }

  lemma {:induction false} Pow2Monotone(a: nat, b: nat)
    requires a <= b
    ensures Pow2(a) <= Pow2(b)
  {
    if a < b {
      Pow2Monotone(a, b - 1);
    }
  }

  lemma {:induction false} Pow2Add(a: nat, b: nat)
    ensures Pow2(a + b) == Pow2(a) * Pow2(b)
  {
    if b > 0 {
      Pow2Add(a, b - 1);
    }
  }

  /** FUNCTABLE_SIZE: a power of two of at least 256 entries. */
  function FuncTableSize(): (s: nat)
    ensures s >= 256 && s % 256 == 0
  {
    var q := Pow2(FUNCTABLE_LOG2 - 8);
    Pow2Add(8, FUNCTABLE_LOG2 - 8);
    assert Pow2(8) == 256;
    assert Pow2(FUNCTABLE_LOG2) == 256 * q;
    Pow2(FUNCTABLE_LOG2)
  }

  /** FUNCTABLE_MASK = FUNCTABLE_SIZE - 1. */
  function FuncTableMask(): nat
  {
    FuncTableSize() - 1
  }

  // ---------------------------------------------------------------------
  // Model types and file identifiers
  // ---------------------------------------------------------------------

  /** The model_t type discriminator (modtype_t). */
  datatype ModType = ModBad | ModBrush | ModMesh | ModMdr | ModIqm | ModMds | ModMdm | ModMdx

  /** The four-byte magic at the start of a model file, as far as the loaders distinguish it. */
  datatype Ident = IdMD3 | IdMDC | IdMDR | IdMDS | IdMDM | IdMDX | IdOther

  /**
   * How a format parser (R_LoadMD3 and friends) ends: success, a rejection
   * before it touched the model (bad version, declared size beyond the file),
   * or a rejection after it had already set the model's type and, for the
   * static-mesh formats, allocated the LOD slot it was filling.
   */
  datatype ParseOutcome = Parsed | RejectedHeader | RejectedBody

  // ---------------------------------------------------------------------
  // C string helpers (q_shared.c is not part of this model; these follow
  // the behaviour the core relies on). A C string is modelled by its
  // characters before the terminating NUL.
  // ---------------------------------------------------------------------

  /** tolower in the C locale. */
  function ToLower(c: char): (r: char)
    ensures 'A' <= c <= 'Z' ==> r as int == c as int + 32
    ensures !('A' <= c <= 'Z') ==> r == c
  {
    if 'A' <= c <= 'Z' then (c as int + 32) as char else c
  }

  /** Q_strlwr applied to a whole string. */
  function Lowercase(s: string): (r: string)
    ensures |r| == |s|
    ensures forall i :: 0 <= i < |s| ==> r[i] == ToLower(s[i])
  {
    if s == [] then [] else [ToLower(s[0])] + Lowercase(s[1..])
  }

  /** Q_stricmp(a, b) == 0: equality after lowercasing both sides. */
  predicate EqualIgnoringCase(a: string, b: string)
  {
    Lowercase(a) == Lowercase(b)
  }

  /** What Q_strncpyz / Com_sprintf keep of `s` in a buffer of `size` bytes. */
  function Truncate(s: string, size: Positive): (r: string)
    ensures |r| < size
    ensures |s| < size ==> r == s
    ensures r == s[..|r|]
  {
    if |s| < size then s else s[..size - 1]
  }

  /** Index of the last occurrence of `c` in `s`, if any (strrchr). */
  function LastIndexOf(s: string, c: char): (r: Option<nat>)
    ensures r.Some? ==> r.value < |s| && s[r.value] == c
    ensures r.Some? ==> forall i :: r.value < i < |s| ==> s[i] != c
    ensures r.None? ==> forall i :: 0 <= i < |s| ==> s[i] != c
  {
    if s == [] then None
    else if s[|s| - 1] == c then Some(|s| - 1)
    else LastIndexOf(s[..|s| - 1], c)
  }

  /** Index of the first occurrence of `c` in `s`, if any (strchr). */
  function FirstIndexOf(s: string, c: char): (r: Option<nat>)
    ensures r.Some? ==> r.value < |s| && s[r.value] == c
    ensures r.Some? ==> forall i :: 0 <= i < r.value ==> s[i] != c
    ensures r.None? ==> forall i :: 0 <= i < |s| ==> s[i] != c
  {
    if s == [] then None
    else if s[0] == c then Some(0)
    else match FirstIndexOf(s[1..], c)
      case None => None
      case Some(i) => Some(i + 1)
  }

  /** Position of the extension dot: the last '.' when no '/' follows it. */
  function ExtensionDot(name: string): (r: Option<nat>)
    ensures r.Some? ==> r.value < |name| && name[r.value] == '.'
    ensures r.Some? ==> forall i :: r.value < i < |name| ==> name[i] != '/' && name[i] != '.'
  {
    match LastIndexOf(name, '.')
    case None => None
    case Some(d) =>
      match LastIndexOf(name, '/')
      case Some(sl) => if d < sl then None else Some(d)
      case None => Some(d)
  }

  /** COM_GetExtension: the text after the extension dot, or "" when there is none. */
  function GetExtension(name: string): (r: string)
    ensures ExtensionDot(name).Some? ==> name == name[..ExtensionDot(name).value] + "." + r
    ensures ExtensionDot(name).None? ==> r == ""
  {
    match ExtensionDot(name)
    case None => ""
    case Some(d) => name[d + 1..]
  }

  /** COM_StripExtension(name, out, size): the name without its extension, truncated to the buffer. */
  function StripExtension(name: string, size: Positive): (r: string)
    ensures ExtensionDot(name).Some? ==> r == Truncate(name[..ExtensionDot(name).value], size)
    ensures ExtensionDot(name).None? ==> r == Truncate(name, size)
  {
    match ExtensionDot(name)
    case None => Truncate(name, size)
    case Some(d) => Truncate(name[..d], size)
  }

  /** Decimal digits of a natural number, as printed by "%d". */
  function DecimalDigits(n: nat): (r: string)
    ensures |r| >= 1
  {
    if n < 10 then [('0' as int + n) as char]
    else DecimalDigits(n / 10) + [('0' as int + n % 10) as char]
  }

  // ---------------------------------------------------------------------
  // Model handles
  // ---------------------------------------------------------------------

  /** The table slot R_GetModelByHandle reads for `handle`: out-of-range handles read slot 0. */
  function HandleSlot(handle: int, numModels: nat): (slot: nat)
    requires numModels >= 1
    ensures slot < numModels
    ensures slot == handle || slot == 0
  {
    if handle < 1 || handle >= numModels then 0 else handle
  }

  // ---------------------------------------------------------------------
  // Fixed-width integer arithmetic
  // ---------------------------------------------------------------------

  const TWO_32: nat := 0x1_0000_0000

  /** The value of a 32-bit two's-complement `int` holding `x` modulo 2^32. */
  function WrapInt32(x: int): (r: int)
    ensures -0x8000_0000 <= r < 0x8000_0000
    ensures (r - x) % TWO_32 == 0
  {
    var m := x % TWO_32;
    if m < 0x8000_0000 then m else m - TWO_32
  }

  predicate IsInt32(x: int)
  {
    -0x8000_0000 <= x < 0x8000_0000
  }

  /** C's `a % b` for a positive `b`: the remainder takes the sign of `a` (division truncates toward zero). */
  function CRem(a: int, b: int): (r: int)
    requires b > 0
    ensures a >= 0 ==> r == a % b
    ensures a < 0 ==> -b < r <= 0 && r == -((-a) % b)
  {
    if a >= 0 then a % b else -((-a) % b)
  }

  const TWO_64: nat := 0x1_0000_0000_0000_0000

  /** Conversion of an integer to the 64-bit unsigned `size_t`. */
  function ToSize(x: int): (r: nat)
    ensures r < TWO_64
    ensures 0 <= x < TWO_64 ==> r == x
  {
    x % TWO_64
  }

  // ---------------------------------------------------------------------
  // Row-major grids: frame-major vertex arrays and packed buffers
  // ---------------------------------------------------------------------

  /**
   * Where row `r` of a row-major layout with `cols` cells per row starts:
   * `r * cols`, stated by repeated addition so that loops stepping from row
   * to row need no multiplication.
   */
  function RowStart(r: nat, cols: nat): nat
  {
    if r == 0 then 0 else RowStart(r - 1, cols) + cols
  }

  lemma {:induction false} RowStartIsProduct(r: nat, cols: nat)
    ensures RowStart(r, cols) == r * cols
  {
    if r > 0 {
      RowStartIsProduct(r - 1, cols);
      assert r * cols == (r - 1) * cols + cols;
    }
  }

  /** A row before row `rows` ends no later than row `rows` starts. */
  lemma {:induction false} RowStartGrows(r: nat, rows: nat, cols: nat)
    requires r < rows
    ensures RowStart(r, cols) + cols <= RowStart(rows, cols)
  {
    if r < rows - 1 {
      RowStartGrows(r, rows - 1, cols);
    }
  }

  /** Row `r` of a grid: its `cols` cells in order. */
  function Row<T>(cell: (nat, nat) -> T, r: nat, cols: nat): (row: seq<T>)
    ensures |row| == cols
    ensures forall c :: 0 <= c < cols ==> row[c] == cell(r, c)
  {
    seq(cols, c requires 0 <= c => cell(r, c))
  }

  /** The row-major sequence of `rows` rows of `cols` cells each. */
  function Grid<T>(rows: nat, cols: nat, cell: (nat, nat) -> T): (g: seq<T>)
    ensures |g| == RowStart(rows, cols)
  {
    if rows == 0 then [] else Grid(rows - 1, cols, cell) + Row(cell, rows - 1, cols)
  }

  /** Cell (r, c) of a grid sits at the start of row `r` plus `c`. */
  lemma {:induction false} GridIndex<T>(rows: nat, cols: nat, cell: (nat, nat) -> T, r: nat, c: nat)
    requires r < rows && c < cols
    ensures RowStart(r, cols) + c < RowStart(rows, cols)
    ensures Grid(rows, cols, cell)[RowStart(r, cols) + c] == cell(r, c)
  {
    if r < rows - 1 {
      GridIndex(rows - 1, cols, cell, r, c);
    }
  }

  /** Row `r` of a grid is the slice of `cols` cells from the start of row `r`. */
  lemma {:induction false} GridRow<T>(rows: nat, cols: nat, cell: (nat, nat) -> T, r: nat)
    requires r < rows
    ensures RowStart(r, cols) + cols <= RowStart(rows, cols)
    ensures Grid(rows, cols, cell)[RowStart(r, cols)..RowStart(r, cols) + cols] == Row(cell, r, cols)
  {
    if r < rows - 1 {
      GridRow(rows - 1, cols, cell, r);
      RowStartGrows(r, rows - 1, cols);
      var g := Grid(rows - 1, cols, cell);
      assert Grid(rows, cols, cell)[..RowStart(rows - 1, cols)] == g;
    } else {
      assert Grid(rows, cols, cell)[RowStart(r, cols)..] == Row(cell, r, cols);
    }
  }

  /** Cell (r, c) of a grid sits at the row-major position `r * cols + c`. */
  lemma GridCell<T>(rows: nat, cols: nat, cell: (nat, nat) -> T, r: nat, c: nat)
    requires r < rows && c < cols
    ensures r * cols + c < |Grid(rows, cols, cell)|
    ensures Grid(rows, cols, cell)[r * cols + c] == cell(r, c)
  {
    GridIndex(rows, cols, cell, r, c);
    RowStartIsProduct(r, cols);
  }

  lemma MulGrows(a: nat, b: nat, c: nat)
    requires a <= b
    ensures a * c <= b * c
  {
  }

  lemma MulAtLeast(d: int, k: int)
    requires d > 0 && k >= 1
    ensures d * k >= d
  {
  }

  lemma MulAtMost(d: int, k: int)
    requires d > 0 && k <= -1
    ensures d * k <= -d
  {
  }

  /** The remainder is determined by any quotient/remainder decomposition. */
  lemma ModUnique(x: int, d: int, t: int, c: int)
    requires d > 0 && x == d * t + c && 0 <= c < d
    ensures x % d == c
  {
    var q := x / d;
    var m := x % d;
    assert d * (q - t) == c - m;
    if q - t >= 1 { MulAtLeast(d, q - t); }
    if q - t <= -1 { MulAtMost(d, q - t); }
  }
}
