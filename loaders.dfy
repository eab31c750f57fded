/**
 * The per-format register functions that `RE_RegisterModel` dispatches to.
 * Each reads a file and hands it to a format parser; reading and parsing
 * are outside this model, so a disk maps paths to file images that say
 * what the file's ident is and how its parser would conclude. What is
 * modelled is how each register function turns that into a handle and
 * into the fields of the model entry, and in particular the level-of-detail
 * search of `R_RegisterMD3`.
 */
module Loaders {
  import opened Defs

  /** One loaded MD3/MDC level of detail: the file it came from and whether its parser finished. */
  datatype Mdv = Mdv(source: string, complete: bool)

  /**
   * What a file holds, as far as the register functions can tell.
   * `lodCount` is an MDR header's LOD count, present when R_LoadMDR gets as
   * far as storing it in the model, which it does before its frame-count
   * test and before every later rejection.
   */
  datatype FileContents = FileContents(ident: Ident, outcome: ParseOutcome, lodCount: Option<int>)

  /**
   * The images a file can produce: the version and file-size rejections of
   * R_LoadMDR come before it stores the LOD count, and an MDR file it accepts
   * has always stored it.
   */
  predicate WellFormedImage(f: FileContents)
  {
    (f.outcome == RejectedHeader ==> f.lodCount.None?) &&
    (f.ident == IdMDR && f.outcome == Parsed ==> f.lodCount.Some?)
  }

  type FileImage = f: FileContents | WellFormedImage(f) witness FileContents(IdOther, RejectedHeader, None)

  type Disk = map<string, FileImage>

  /** The fields of a model_t that registration touches. */
  datatype ModelEntry = ModelEntry(name: string, index: nat, modType: ModType, numLods: int, mdv: seq<Option<Mdv>>)

  /** A zero-filled model_t, as the hunk allocator returns it, for slot `index`. */
  function BlankEntry(index: nat): (e: ModelEntry)
    ensures e.index == index && e.modType == ModBad && e.name == [] && e.numLods == 0
    ensures |e.mdv| == MD3_MAX_LODS && forall s :: 0 <= s < |e.mdv| ==> e.mdv[s].None?
  {
    ModelEntry([], index, ModBad, 0, seq(MD3_MAX_LODS, _ => None))
  }

  // ---------------------------------------------------------------------
  // R_RegisterMD3: level-of-detail file names
  // ---------------------------------------------------------------------

  /**
   * The base name and extension R_RegisterMD3 builds LOD names from: the
   * name is cut at its FIRST '.', and "md3" is used when there is none.
   */
  function SplitModelName(name: string): (r: (string, string))
    ensures FirstIndexOf(name, '.').None? ==> r == (name, "md3")
    ensures FirstIndexOf(name, '.').Some? ==> name == r.0 + "." + r.1 && '.' !in r.0
  {
    match FirstIndexOf(name, '.')
    case None => (name, "md3")
    case Some(i) =>
      assert name == name[..i] + "." + name[i + 1..];
      (name[..i], name[i + 1..])
  }

  /** "%s_%d.%s" for a level of detail above 0, "%s.%s" for level 0, in a MAX_QPATH+20 buffer. */
  function LodFileName(name: string, lod: nat): string
  {
    var (base, ext) := SplitModelName(name);
    Truncate(if lod > 0 then base + "_" + DecimalDigits(lod) + "." + ext else base + "." + ext, MAX_QPATH + 20)
  }

  /** The result of reading one LOD file. */
  datatype LodFile = Missing | Found(path: string, image: FileImage)

  /** The files R_RegisterMD3 reads, indexed by level of detail. */
  function LodFiles(name: string, disk: Disk): (files: seq<LodFile>)
    ensures |files| == MD3_MAX_LODS
  {
    seq(MD3_MAX_LODS, lod requires 0 <= lod =>
      if LodFileName(name, lod) in disk then Found(LodFileName(name, lod), disk[LodFileName(name, lod)]) else Missing)
  }

  /** Level `lod` of the search is the file `LodFileName(name, lod)` as the disk has it. */
  lemma LodFileAt(name: string, disk: Disk, lod: nat)
    requires lod < MD3_MAX_LODS
    ensures var f := LodFiles(name, disk)[lod]; var p := LodFileName(name, lod);
      f == (if p in disk then Found(p, disk[p]) else Missing)
  {
  }

  // ---------------------------------------------------------------------
  // The LOD search: what both versions agree on
  // ---------------------------------------------------------------------

  /** The highest level of detail at or below `lod` whose file exists. */
  function FirstPresent(files: seq<LodFile>, lod: int): (r: Option<nat>)
    requires lod < |files|
    decreases lod + 1
    ensures r.Some? ==> r.value <= lod && files[r.value].Found?
    ensures r.Some? ==> forall s :: r.value < s <= lod ==> files[s].Missing?
    ensures r.None? ==> forall s :: 0 <= s <= lod ==> files[s].Missing?
  {
    if lod < 0 then None
    else if files[lod].Found? then Some(lod)
    else FirstPresent(files, lod - 1)
  }

  /** An MD3 or MDC file whose parser accepts it. */
  predicate LoadsAsMesh(f: FileImage)
  {
    (f.ident == IdMD3 || f.ident == IdMDC) && f.outcome == Parsed
  }

  /** The search succeeds exactly when the highest LOD file present is a mesh its parser accepts. */
  predicate FirstPresentLoads(files: seq<LodFile>)
  {
    var p := FirstPresent(files, |files| - 1);
    p.Some? && LoadsAsMesh(files[p.value].image)
  }

  /** R_LoadMD3 / R_LoadMDC as seen by the search: past the header the type and the slot are set. */
  function LoadLod(e: ModelEntry, lod: nat, path: string, f: FileImage): (r: (bool, ModelEntry))
    requires lod < |e.mdv|
    ensures r.0 <==> f.outcome == Parsed
    ensures r.1.name == e.name && r.1.index == e.index && r.1.numLods == e.numLods && |r.1.mdv| == |e.mdv|
    ensures forall s :: 0 <= s < |e.mdv| && s != lod ==> r.1.mdv[s] == e.mdv[s]
    ensures f.outcome == RejectedHeader ==> r.1 == e
    ensures f.outcome != RejectedHeader ==>
      r.1.modType == ModMesh && r.1.mdv[lod] == Some(Mdv(path, f.outcome == Parsed))
  {
    match f.outcome
    case RejectedHeader => (false, e)
    case RejectedBody => (false, e.(modType := ModMesh, mdv := e.mdv[lod := Some(Mdv(path, false))]))
    case Parsed => (true, e.(modType := ModMesh, mdv := e.mdv[lod := Some(Mdv(path, true))]))
  }

  /** One back-fill step: slot `lod` takes slot `lod + 1`'s model and counts as a level of detail. */
  function Fill(e: ModelEntry, lod: nat): ModelEntry
    requires lod + 1 < |e.mdv|
  {
    e.(numLods := e.numLods + 1, mdv := e.mdv[lod := e.mdv[lod + 1]])
  }

  /** The back-fill loop: slots `from` down to 0 each take the model of the slot above. */
  function BackFill(e: ModelEntry, from: int): (r: ModelEntry)
    requires from + 1 < |e.mdv|
    decreases from + 1
    ensures r.name == e.name && r.index == e.index && r.modType == e.modType && |r.mdv| == |e.mdv|
    ensures r.numLods == e.numLods + (if from < 0 then 0 else from + 1)
    ensures forall s :: 0 <= s <= from ==> r.mdv[s] == e.mdv[from + 1]
    ensures forall s :: from < s < |e.mdv| && 0 <= s ==> r.mdv[s] == e.mdv[s]
  {
    if from < 0 then e else BackFill(Fill(e, from), from - 1)
  }

  // ---------------------------------------------------------------------
  // The LOD search as the code has it
  // ---------------------------------------------------------------------

  datatype ScanState = ScanState(loaded: bool, numLoaded: nat, e: ModelEntry)

  /**
   * The search loop of R_RegisterMD3 as written, from `lod` down: a missing
   * file is skipped; an unknown ident leaves `loaded` as it was; the first
   * load that is not counted stops the loop. Returns the level it stopped
   * at (-1 when it ran to the end) and the state then.
   */
  function ScanAsWritten(files: seq<LodFile>, lod: int, st: ScanState): (r: (int, ScanState))
    requires -1 <= lod < |files| == |st.e.mdv|
    decreases lod + 1
    ensures -1 <= r.0 <= lod && |r.1.e.mdv| == |files|
    ensures r.1.e.name == st.e.name && r.1.e.index == st.e.index
  {
    if lod < 0 then (lod, st)
    else match files[lod]
      case Missing => ScanAsWritten(files, lod - 1, st)
      case Found(path, f) =>
        var (loaded, e) :=
          if f.ident == IdMD3 || f.ident == IdMDC then LoadLod(st.e, lod, path, f) else (st.loaded, st.e);
        if loaded then ScanAsWritten(files, lod - 1, ScanState(true, st.numLoaded + 1, e.(numLods := e.numLods + 1)))
        else (lod, ScanState(false, st.numLoaded, e))
  }

  /** R_RegisterMD3 as written: after a stop at level L, only slots L-1..0 are back-filled, from slot L. */
  function LodSearchAsWritten(files: seq<LodFile>, mod: ModelEntry): (r: (int, ModelEntry))
    requires |files| == |mod.mdv|
  {
    var (stop, st) := ScanAsWritten(files, |files| - 1, ScanState(false, 0, mod));
    if st.numLoaded > 0 then (mod.index, BackFill(st.e, stop - 1))
    else (0, st.e.(modType := ModBad))
  }

  /** With nothing loaded yet, the as-written scan loads something exactly when the first present file loads. */
  lemma {:induction false} ScanAsWrittenFirstLoad(files: seq<LodFile>, lod: int, st: ScanState)
    requires -1 <= lod < |files| == |st.e.mdv|
    requires st.numLoaded == 0 && !st.loaded
    decreases lod + 1
    ensures var p := FirstPresent(files, lod); var r := ScanAsWritten(files, lod, st);
      (r.1.numLoaded > 0 <==> p.Some? && LoadsAsMesh(files[p.value].image)) &&
      (r.1.numLoaded > 0 ==> r.1.e.modType == ModMesh)
  {
    if lod >= 0 && files[lod].Missing? {
      ScanAsWrittenFirstLoad(files, lod - 1, st);
    } else if lod >= 0 {
      var f := files[lod].image;
      if LoadsAsMesh(f) {
        var e := LoadLod(st.e, lod, files[lod].path, f).1;
        ScanAsWrittenKeepsLoads(files, lod - 1, ScanState(true, 1, e.(numLods := e.numLods + 1)));
      }
    }
  }

  lemma {:induction false} ScanAsWrittenKeepsLoads(files: seq<LodFile>, lod: int, st: ScanState)
    requires -1 <= lod < |files| == |st.e.mdv|
    decreases lod + 1
    ensures var r := ScanAsWritten(files, lod, st);
      r.1.numLoaded >= st.numLoaded && (st.e.modType == ModMesh ==> r.1.e.modType == ModMesh)
  {
    if lod >= 0 {
      match files[lod]
      case Missing => ScanAsWrittenKeepsLoads(files, lod - 1, st);
      case Found(path, f) =>
        var (loaded, e) :=
          if f.ident == IdMD3 || f.ident == IdMDC then LoadLod(st.e, lod, path, f) else (st.loaded, st.e);
        if loaded {
          ScanAsWrittenKeepsLoads(files, lod - 1, ScanState(true, st.numLoaded + 1, e.(numLods := e.numLods + 1)));
        }
    }
  }

  /** As written, the search succeeds exactly when the highest LOD file present is a mesh its parser accepts. */
  lemma LodSearchAsWrittenSucceeds(files: seq<LodFile>, mod: ModelEntry)
    requires |files| == |mod.mdv|
    ensures var r := LodSearchAsWritten(files, mod);
      (r.0 != 0 || mod.index == 0 <==> FirstPresentLoads(files) || mod.index == 0) &&
      (r.0 == mod.index || r.0 == 0) &&
      r.1.name == mod.name && r.1.index == mod.index && |r.1.mdv| == |mod.mdv| &&
      (FirstPresentLoads(files) ==> r.0 == mod.index && r.1.modType == ModMesh) &&
      (!FirstPresentLoads(files) ==> r.0 == 0 && r.1.modType == ModBad)
  {
    ScanAsWrittenFirstLoad(files, |files| - 1, ScanState(false, 0, mod));
  }

  /**
   * As written, a missing level between two that load is skipped by
   * `continue`: its slot stays as it was and is not counted, although the
   * levels on both sides of it are.
   */
  lemma MiddleLodMissingLeavesHole(files: seq<LodFile>, mod: ModelEntry, p0: string, p2: string, f0: FileImage, f2: FileImage)
    requires |files| == |mod.mdv| >= 3
    requires forall s :: 3 <= s < |files| ==> files[s].Missing?
    requires files[2] == Found(p2, f2) && LoadsAsMesh(f2) && files[1].Missing?
    requires files[0] == Found(p0, f0) && LoadsAsMesh(f0)
    ensures var r := LodSearchAsWritten(files, mod);
      r.0 == mod.index && r.1.numLods == mod.numLods + 2 && r.1.mdv[1] == mod.mdv[1] &&
      r.1.mdv[0] == Some(Mdv(p0, true)) && r.1.mdv[2] == Some(Mdv(p2, true))
  {
    ScanAsWrittenSkipsMissing(files, |files| - 1, 2, ScanState(false, 0, mod));
  }

  /**
   * As written, when LOD 1 loads and LOD 0 is then rejected after its
   * header, registration succeeds with slot 0 holding the half-loaded
   * model: the back-fill starts below the failed slot, not at it.
   */
  lemma BackFillKeepsFailedSlot(files: seq<LodFile>, mod: ModelEntry, p0: string, p1: string, f0: FileImage, f1: FileImage)
    requires |files| == |mod.mdv| >= 2
    requires forall s :: 2 <= s < |files| ==> files[s].Missing?
    requires files[1] == Found(p1, f1) && LoadsAsMesh(f1)
    requires files[0] == Found(p0, f0) && f0.ident == IdMD3 && f0.outcome == RejectedBody
    ensures var r := LodSearchAsWritten(files, mod);
      r.0 == mod.index && r.1.mdv[0] == Some(Mdv(p0, false))
  {
    ScanAsWrittenSkipsMissing(files, |files| - 1, 1, ScanState(false, 0, mod));
  }

  /**
   * As written, an unknown ident after a successful load keeps `loaded`
   * set: the level is counted although nothing was loaded into its slot.
   */
  lemma UnknownIdentCounted(files: seq<LodFile>, mod: ModelEntry, p0: string, p1: string, f0: FileImage, f1: FileImage)
    requires |files| == |mod.mdv| >= 2
    requires forall s :: 2 <= s < |files| ==> files[s].Missing?
    requires files[1] == Found(p1, f1) && LoadsAsMesh(f1)
    requires files[0] == Found(p0, f0) && f0.ident == IdOther
    ensures var r := LodSearchAsWritten(files, mod);
      r.0 == mod.index && r.1.numLods == mod.numLods + 2 && r.1.mdv[0] == mod.mdv[0]
  {
    ScanAsWrittenSkipsMissing(files, |files| - 1, 1, ScanState(false, 0, mod));
  }

  /**
   * As written, when only LOD 1 is on disk the search runs to the end, so
   * nothing is back-filled and slot 0 keeps whatever it held.
   */
  lemma CoarserLodOnlyLeavesSlotZero(files: seq<LodFile>, mod: ModelEntry, p1: string, f1: FileImage)
    requires |files| == |mod.mdv| >= 2
    requires forall s :: 2 <= s < |files| ==> files[s].Missing?
    requires files[1] == Found(p1, f1) && LoadsAsMesh(f1) && files[0].Missing?
    ensures var r := LodSearchAsWritten(files, mod);
      r.0 == mod.index && r.1.numLods == mod.numLods + 1 && r.1.mdv[0] == mod.mdv[0]
  {
    ScanAsWrittenSkipsMissing(files, |files| - 1, 1, ScanState(false, 0, mod));
  }

  lemma {:induction false} ScanAsWrittenSkipsMissing(files: seq<LodFile>, lod: int, low: int, st: ScanState)
    requires -1 <= low <= lod < |files| == |st.e.mdv|
    requires forall s :: low < s <= lod ==> files[s].Missing?
    decreases lod - low
    ensures ScanAsWritten(files, lod, st) == ScanAsWritten(files, low, st)
  {
    if lod > low {
      ScanAsWrittenSkipsMissing(files, lod - 1, low, st);
    }
  }

  // ---------------------------------------------------------------------
  // The LOD search with the evidently intended back-fill
  // ---------------------------------------------------------------------

  /**
   * The search loop with the back-fill the comments describe: once a level
   * has loaded, a missing file's slot takes the model of the slot above;
   * an unknown ident stops the search like a failed load. Returns the level
   * it stopped at, the number of levels loaded and the entry.
   */
  function Scan(files: seq<LodFile>, lod: int, numLoaded: nat, e: ModelEntry): (r: (int, nat, ModelEntry))
    requires -1 <= lod < |files| == |e.mdv|
    requires numLoaded > 0 ==> lod + 1 < |files|
    decreases lod + 1
    ensures -1 <= r.0 <= lod && |r.2.mdv| == |files| && (r.1 > 0 ==> r.0 + 1 < |files|)
    ensures r.2.name == e.name && r.2.index == e.index
  {
    if lod < 0 then (lod, numLoaded, e)
    else match files[lod]
      case Missing =>
        if numLoaded > 0 then Scan(files, lod - 1, numLoaded, Fill(e, lod)) else Scan(files, lod - 1, 0, e)
      case Found(path, f) =>
        if f.ident == IdMD3 || f.ident == IdMDC then
          var (loaded, e') := LoadLod(e, lod, path, f);
          if loaded then Scan(files, lod - 1, numLoaded + 1, e'.(numLods := e'.numLods + 1))
          else (lod, numLoaded, e')
        else (lod, numLoaded, e)
  }

  /** R_RegisterMD3 with the back-fill starting at the level where the search stopped. */
  function LodSearch(files: seq<LodFile>, mod: ModelEntry): (r: (int, ModelEntry))
    requires |files| == |mod.mdv|
  {
    var (stop, numLoaded, e) := Scan(files, |files| - 1, 0, mod);
    if numLoaded > 0 then (mod.index, BackFill(e, stop))
    else (0, e.(modType := ModBad))
  }

  /** Slots `lo..hi` hold completely loaded models. */
  ghost predicate Complete(e: ModelEntry, lo: int, hi: int)
  {
    forall s :: 0 <= s && lo <= s <= hi && s < |e.mdv| ==> e.mdv[s].Some? && e.mdv[s].value.complete
  }

  lemma {:induction false} ScanSkipsMissing(files: seq<LodFile>, lod: int, low: int, e: ModelEntry)
    requires -1 <= low <= lod < |files| == |e.mdv|
    requires forall s :: low < s <= lod ==> files[s].Missing?
    decreases lod - low
    ensures Scan(files, lod, 0, e) == Scan(files, low, 0, e)
  {
    if lod > low {
      ScanSkipsMissing(files, lod - 1, low, e);
    }
  }

  /**
   * Once a level `top` has loaded, every slot the search passes is either
   * filled from above or loaded completely, until it stops.
   */
  lemma {:induction false} ScanKeepsComplete(files: seq<LodFile>, lod: int, numLoaded: nat, e: ModelEntry, top: nat)
    requires -1 <= lod < top < |files| == |e.mdv|
    requires numLoaded > 0 && Complete(e, lod + 1, top) && e.modType == ModMesh
    decreases lod + 1
    ensures var r := Scan(files, lod, numLoaded, e);
      r.1 > 0 && Complete(r.2, r.0 + 1, top) && r.2.modType == ModMesh
  {
    if lod >= 0 {
      match files[lod]
      case Missing =>
        var next := Fill(e, lod);
        assert Complete(next, lod, top);
        assert Scan(files, lod, numLoaded, e) == Scan(files, lod - 1, numLoaded, next);
        ScanKeepsComplete(files, lod - 1, numLoaded, next, top);
      case Found(path, f) =>
        if f.ident == IdMD3 || f.ident == IdMDC {
          var (loaded, e') := LoadLod(e, lod, path, f);
          if loaded {
            var next := e'.(numLods := e'.numLods + 1);
            assert Complete(next, lod, top);
            assert Scan(files, lod, numLoaded, e) == Scan(files, lod - 1, numLoaded + 1, next);
            ScanKeepsComplete(files, lod - 1, numLoaded + 1, next, top);
          }
        }
    }
  }

  /**
   * Once something has loaded, every level the search passes adds one to
   * `numLods`, and nothing above the level it starts at changes.
   */
  lemma {:induction false} ScanCountsLevels(files: seq<LodFile>, lod: int, numLoaded: nat, e: ModelEntry)
    requires -1 <= lod && lod + 1 < |files| == |e.mdv| && numLoaded > 0
    decreases lod + 1
    ensures var r := Scan(files, lod, numLoaded, e);
      r.2.numLods == e.numLods + (lod - r.0) &&
      forall s :: lod < s < |files| ==> r.2.mdv[s] == e.mdv[s]
  {
    if lod >= 0 {
      match files[lod]
      case Missing =>
        var next := Fill(e, lod);
        assert Scan(files, lod, numLoaded, e) == Scan(files, lod - 1, numLoaded, next);
        ScanCountsLevels(files, lod - 1, numLoaded, next);
      case Found(path, f) =>
        if f.ident == IdMD3 || f.ident == IdMDC {
          var (loaded, e') := LoadLod(e, lod, path, f);
          if loaded {
            var next := e'.(numLods := e'.numLods + 1);
            assert Scan(files, lod, numLoaded, e) == Scan(files, lod - 1, numLoaded + 1, next);
            ScanCountsLevels(files, lod - 1, numLoaded + 1, next);
          }
        }
    }
  }

  /**
   * The corrected search succeeds exactly when the highest LOD file present
   * loads, and then every slot from 0 up to that level holds a completely
   * loaded model, `numLods` counts exactly those slots, and the slots above
   * are untouched. A failed search leaves the model MOD_BAD.
   */
  lemma LodSearchFillsEverySlot(files: seq<LodFile>, mod: ModelEntry)
    requires |files| == |mod.mdv|
    ensures var r := LodSearch(files, mod);
      (r.0 != 0 || mod.index == 0 <==> FirstPresentLoads(files) || mod.index == 0) &&
      r.1.name == mod.name && r.1.index == mod.index && |r.1.mdv| == |mod.mdv| &&
      (FirstPresentLoads(files) ==>
        var top := FirstPresent(files, |files| - 1).value;
        r.0 == mod.index && r.1.modType == ModMesh && Complete(r.1, 0, top) &&
        r.1.numLods == mod.numLods + top + 1 &&
        forall s :: top < s < |files| ==> r.1.mdv[s] == mod.mdv[s]) &&
      (!FirstPresentLoads(files) ==> r.0 == 0 && r.1.modType == ModBad)
  {
    var p := FirstPresent(files, |files| - 1);
    if p.None? {
      ScanSkipsMissing(files, |files| - 1, -1, mod);
    } else {
      var top := p.value;
      ScanSkipsMissing(files, |files| - 1, top, mod);
      var f := files[top].image;
      if LoadsAsMesh(f) {
        var e1 := LoadLod(mod, top, files[top].path, f).1;
        var e2 := e1.(numLods := e1.numLods + 1);
        assert Complete(e2, top, top);
        assert Scan(files, top, 0, mod) == Scan(files, top as int - 1, 1, e2);
        ScanKeepsComplete(files, top as int - 1, 1, e2, top);
        ScanCountsLevels(files, top as int - 1, 1, e2);
        var (stop, n, e3) := Scan(files, top as int - 1, 1, e2);
        BackFillCompletes(e3, stop, top);
        assert LodSearch(files, mod) == (mod.index, BackFill(e3, stop));
      }
    }
  }

  /** Back-filling below a complete run of slots makes every slot from 0 up complete. */
  lemma BackFillCompletes(e: ModelEntry, from: int, top: nat)
    requires -1 <= from < top < |e.mdv| && Complete(e, from + 1, top)
    ensures Complete(BackFill(e, from), 0, top)
  {
    var r := BackFill(e, from);
    forall s | 0 <= s <= top
      ensures r.mdv[s].Some? && r.mdv[s].value.complete
    {
      if s <= from {
        assert r.mdv[s] == e.mdv[from + 1];
      }
    }
  }

  /** The corrected search fixes the three as-written cases: slot 0 holds LOD 1's model in each. */
  lemma LodSearchFillsSlotZero(files: seq<LodFile>, mod: ModelEntry, p1: string, f1: FileImage)
    requires |files| == |mod.mdv| >= 2
    requires forall s :: 2 <= s < |files| ==> files[s].Missing?
    requires files[1] == Found(p1, f1) && LoadsAsMesh(f1)
    requires files[0].Missing? || !LoadsAsMesh(files[0].image)
    ensures var r := LodSearch(files, mod);
      r.0 == mod.index && r.1.mdv[0] == Some(Mdv(p1, true)) && r.1.numLods == mod.numLods + 2
  {
    ScanSkipsMissing(files, |files| - 1, 1, mod);
    var e1 := LoadLod(mod, 1, p1, f1).1;
    var e2 := e1.(numLods := e1.numLods + 1);
    assert Scan(files, 1, 0, mod) == Scan(files, 0, 1, e2);
  }

  /**
   * R_RegisterMD3: reads the LOD files from the coarsest level down, then
   * back-fills the finer slots below the level where the search stopped.
   */
  method RegisterMD3(name: string, mod: ModelEntry, disk: Disk) returns (handle: int, r: ModelEntry)
    requires |mod.mdv| == MD3_MAX_LODS
    ensures (handle, r) == LodSearchAsWritten(LodFiles(name, disk), mod)
  {
    var lod, loaded, numLoaded, e := ScanLods(name, mod, disk);
    if numLoaded > 0 {
      // duplicate into the finer slots that were not loaded
      r := BackFillSlots(e, lod - 1);
      return mod.index, r;
    }
    r := e.(modType := ModBad);
    return 0, r;
  }

  /** The search loop of R_RegisterMD3, from the coarsest level down. */
  method ScanLods(name: string, mod: ModelEntry, disk: Disk) returns (lod: int, loaded: bool, numLoaded: nat, e: ModelEntry)
    requires |mod.mdv| == MD3_MAX_LODS
    ensures (lod, ScanState(loaded, numLoaded, e)) == ScanAsWritten(LodFiles(name, disk), MD3_MAX_LODS - 1, ScanState(false, 0, mod))
  {
    ghost var files := LodFiles(name, disk);
    ghost var goal := ScanAsWritten(files, MD3_MAX_LODS - 1, ScanState(false, 0, mod));
    e := mod;
    loaded, numLoaded := false, 0;
    lod := MD3_MAX_LODS - 1;
    var stopped := false;
    while lod >= 0 && !stopped
      invariant -1 <= lod < MD3_MAX_LODS && |e.mdv| == MD3_MAX_LODS
      invariant !stopped ==> ScanAsWritten(files, lod, ScanState(loaded, numLoaded, e)) == goal
      invariant stopped ==> lod >= 0 && (lod, ScanState(loaded, numLoaded, e)) == goal
      decreases lod + 1, !stopped
    {
      LodFileAt(name, disk, lod);
      lod, loaded, numLoaded, e, stopped := ScanLod(name, disk, files, lod, loaded, numLoaded, e);
    }
  }

  /** One pass of the search loop: read the file for `lod`, then skip it, count it or stop. */
  method ScanLod(name: string, disk: Disk, ghost files: seq<LodFile>, lod: nat, loaded: bool, numLoaded: nat, e: ModelEntry)
    returns (lod': int, loaded': bool, numLoaded': nat, e': ModelEntry, stopped: bool)
    requires lod < MD3_MAX_LODS == |e.mdv| == |files|
    requires var p := LodFileName(name, lod); files[lod] == if p in disk then Found(p, disk[p]) else Missing
    ensures |e'.mdv| == MD3_MAX_LODS
    ensures !stopped ==> lod' == lod - 1
    ensures !stopped ==>
      ScanAsWritten(files, lod', ScanState(loaded', numLoaded', e')) == ScanAsWritten(files, lod, ScanState(loaded, numLoaded, e))
    ensures stopped ==> lod' == lod
    ensures stopped ==> (lod', ScanState(loaded', numLoaded', e')) == ScanAsWritten(files, lod, ScanState(loaded, numLoaded, e))
  {
    var path := LodFileName(name, lod);
    lod', loaded', numLoaded', e', stopped := lod, loaded, numLoaded, e, false;
    if path !in disk {
      assert files[lod].Missing?;
      lod' := lod - 1;
      return;
    }
    var f := disk[path];
    assert files[lod] == Found(path, f);
    if f.ident == IdMD3 || f.ident == IdMDC {
      var attempt := LoadLod(e, lod, path, f);
      loaded', e' := attempt.0, attempt.1;
    }
    if loaded' {
      e' := e'.(numLods := e'.numLods + 1);
      numLoaded' := numLoaded + 1;
      lod' := lod - 1;
    } else {
      stopped := true;
    }
  }

  /** The back-fill loop: slots `from` down to 0 each take the model of the slot above. */
  method BackFillSlots(e: ModelEntry, from: int) returns (r: ModelEntry)
    requires from + 1 < |e.mdv|
    ensures r == BackFill(e, from)
  {
    r := e;
    var lod := from;
    while lod >= 0
      invariant lod <= from && lod + 1 < |r.mdv| == |e.mdv|
      invariant BackFill(r, lod) == BackFill(e, from)
      decreases lod + 1
    {
      r := Fill(r, lod);
      lod := lod - 1;
    }
  }

  // ---------------------------------------------------------------------
  // The other register functions and the loader table
  // ---------------------------------------------------------------------

  /** The register functions of the loader table. */
  datatype Loader = LoadIqm | LoadMdr | LoadMd3 | LoadMds | LoadTan

  /** The loader table in order of preference: extension and register function. */
  const LOADER_COUNT: nat := 8

  /** The extension of table entry `i`. */
  function LoaderExt(i: nat): string
    requires i < LOADER_COUNT
  {
    ["iqm", "mdr", "md3", "mdc", "mds", "mdm", "mdx", "tan"][i]
  }

  /** The register function of table entry `i`. */
  function LoaderFunc(i: nat): Loader
    requires i < LOADER_COUNT
  {
    [LoadIqm, LoadMdr, LoadMd3, LoadMd3, LoadMds, LoadMds, LoadMds, LoadTan][i]
  }

  /** A loader failure: the type becomes MOD_BAD and the handle 0. */
  function Fail(e: ModelEntry): (int, ModelEntry)
  {
    (0, e.(modType := ModBad))
  }

  /** The model type each MDS-family ident loads as. */
  function SkeletalType(ident: Ident): ModType
  {
    if ident == IdMDS then ModMds else if ident == IdMDM then ModMdm else ModMdx
  }

  /** Run one register function on `path` for the entry `e`. */
  function RunLoader(k: Loader, path: string, e: ModelEntry, disk: Disk): (r: (int, ModelEntry))
    requires |e.mdv| == MD3_MAX_LODS
    ensures r.0 == 0 || r.0 == e.index
    ensures r.1.name == e.name && r.1.index == e.index && |r.1.mdv| == MD3_MAX_LODS
  {
    match k
    case LoadMd3 => LodSearchAsWritten(LodFiles(path, disk), e)
    case LoadIqm =>
      if path in disk && disk[path].outcome == Parsed then (e.index, e.(modType := ModIqm)) else Fail(e)
    case LoadMdr =>
      if path in disk && disk[path].ident == IdMDR then
        var f := disk[path];
        var stored := if f.lodCount.Some? then e.(numLods := f.lodCount.value) else e;
        if f.outcome == Parsed then (e.index, stored.(modType := ModMdr)) else Fail(stored)
      else Fail(e)
    case LoadMds =>
      if path in disk && disk[path].ident in {IdMDS, IdMDM, IdMDX} && disk[path].outcome == Parsed
      then (e.index, e.(modType := SkeletalType(disk[path].ident)))
      else Fail(e)
    case LoadTan =>
      if path !in disk then Fail(e)
      else match disk[path].outcome
        case Parsed => (e.index, e.(modType := ModMesh, mdv := e.mdv[0 := Some(Mdv(path, true))]))
        case RejectedBody => Fail(e.(mdv := e.mdv[0 := Some(Mdv(path, false))]))
        case RejectedHeader => Fail(e)
  }

  /** Whether a register function accepts `path`, stated on the files alone. */
  predicate Loads(k: Loader, path: string, disk: Disk)
  {
    match k
    case LoadMd3 => FirstPresentLoads(LodFiles(path, disk))
    case LoadIqm => path in disk && disk[path].outcome == Parsed
    case LoadMdr => path in disk && disk[path].ident == IdMDR && disk[path].outcome == Parsed
    case LoadMds => path in disk && disk[path].ident in {IdMDS, IdMDM, IdMDX} && disk[path].outcome == Parsed
    case LoadTan => path in disk && disk[path].outcome == Parsed
  }

  /** The model type a register function gives a model it accepts. */
  function LoadedType(k: Loader, path: string, disk: Disk): ModType
  {
    match k
    case LoadIqm => ModIqm
    case LoadMdr => ModMdr
    case LoadMds => if path in disk then SkeletalType(disk[path].ident) else ModMdx
    case _ => ModMesh
  }

  /**
   * Every register function returns the entry's index when the files say it
   * loads and 0 otherwise; on success the type is the format's, on failure
   * MOD_BAD. The name, index and slot count are kept.
   */
  lemma RunLoaderMatchesLoads(k: Loader, path: string, e: ModelEntry, disk: Disk)
    requires |e.mdv| == MD3_MAX_LODS && e.index >= 1
    ensures var r := RunLoader(k, path, e, disk);
      (r.0 != 0 <==> Loads(k, path, disk)) &&
      (r.0 != 0 ==> r.0 == e.index && r.1.modType == LoadedType(k, path, disk) && r.1.modType != ModBad) &&
      (r.0 == 0 ==> r.1.modType == ModBad) &&
      r.1.name == e.name && r.1.index == e.index && |r.1.mdv| == MD3_MAX_LODS
  {
    if k == LoadMd3 {
      LodSearchAsWrittenSucceeds(LodFiles(path, disk), e);
    }
  }

  /**
   * A failed MDR load that got past its header keeps the LOD count it
   * stored; the next register function runs on the same entry, so an MD3
   * with only level 0 ends with that count plus one.
   */
  lemma StaleMdrLodCount(p: string, q: string, e: ModelEntry, disk: Disk, c: int)
    requires |e.mdv| == MD3_MAX_LODS
    requires p in disk && disk[p].ident == IdMDR && disk[p].outcome != Parsed && disk[p].lodCount == Some(c)
    requires var files := LodFiles(q, disk);
      FirstPresent(files, |files| - 1) == Some(0) && LoadsAsMesh(files[0].image)
    ensures var failed := RunLoader(LoadMdr, p, e, disk); var r := RunLoader(LoadMd3, q, failed.1, disk);
      failed.0 == 0 && failed.1.modType == ModBad && r.0 == e.index && r.1.numLods == c + 1
  {
    var failed := RunLoader(LoadMdr, p, e, disk);
    var files := LodFiles(q, disk);
    var st := ScanState(false, 0, failed.1);
    ScanAsWrittenSkipsMissing(files, |files| - 1, 0, st);
    var e1 := LoadLod(failed.1, 0, files[0].path, files[0].image).1;
    assert ScanAsWritten(files, 0, st) == (-1, ScanState(true, 1, e1.(numLods := e1.numLods + 1)));
  }

  /** modelLoaders[k].ModelLoader(path, mod): the MD3 search runs its loops, the others are single reads. */
  method CallLoader(k: Loader, path: string, e: ModelEntry, disk: Disk) returns (handle: int, r: ModelEntry)
    requires |e.mdv| == MD3_MAX_LODS
    ensures (handle, r) == RunLoader(k, path, e, disk)
  {
    if k == LoadMd3 {
      handle, r := RegisterMD3(path, e, disk);
    } else {
      var result := RunLoader(k, path, e, disk);
      handle, r := result.0, result.1;
    }
  }
}
