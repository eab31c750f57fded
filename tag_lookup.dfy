// Tag lookup, model bounds and the per-surface shader choice of the renderer
// (R_GetMDVTagIndex, R_GetMDVTag, R_LerpTag, R_ModelBounds,
// R_CustomSurfaceShader). Floating-point results are left abstract: a tag is
// a value of type `T`, and bounds are named by the frames they come from.

module TagLookup {
  import opened Defs

  /**
   * What the lookups read of a registered model: its type and frame count,
   * and, for MD3/MDC (`mdv[0]`) and MDR models, the tag names and the tags
   * stored frame by frame (tag `k` of frame `f` at `f * numTags + k`).
   * `hasBounds` says whether an IQM model carries bounds.
   */
  datatype LoadedModel<T> = LoadedModel(modType: ModType, numFrames: int, tagNames: seq<string>, tags: seq<T>, hasBounds: bool)

  /** MD3/MDC and MDR models answer tag queries from their own frames. */
  predicate HasTagFrames<T>(m: LoadedModel<T>)
  {
    m.modType == ModMesh || m.modType == ModMdr
  }

  /**
   * The shape the lookups rely on: at least one frame, and a tag per name per
   * frame. A complete load leaves it; an MD3 registration whose slot 0 stayed
   * empty or half-loaded does not.
   */
  predicate Loaded<T>(m: LoadedModel<T>)
  {
    (HasTagFrames(m) ==> m.numFrames >= 1 && |m.tags| == m.numFrames * |m.tagNames|) &&
    (m.modType == ModMds || m.modType == ModMdx ==> m.numFrames >= 1) &&
    (m.modType == ModIqm ==> m.numFrames >= 0)
  }

  /** tr.models as the lookups see it: slot 0 is the MOD_BAD model. */
  predicate Table<T>(models: seq<LoadedModel<T>>)
  {
    |models| >= 1 && models[0].modType == ModBad && forall i :: 0 <= i < |models| ==> Loaded(models[i])
  }

  // ---------------------------------------------------------------------
  // R_GetMDVTagIndex
  // ---------------------------------------------------------------------

  /** The first tag at or after `start` whose name is `name`, or -1. */
  function TagIndexFrom(names: seq<string>, name: string, start: nat): (r: int)
    decreases |names| - start
    ensures r == -1 || (start <= r < |names| && names[r] == name)
    ensures r >= 0 ==> forall k :: start <= k < r ==> names[k] != name
    ensures r == -1 ==> forall k :: start <= k < |names| ==> names[k] != name
  {
    if start >= |names| then -1
    else if names[start] == name then start
    else TagIndexFrom(names, name, start + 1)
  }

  /** R_GetMDVTagIndex: scan the tag names from `start` on. */
  method GetMDVTagIndex(names: seq<string>, name: string, start: nat) returns (r: int)
    ensures r == TagIndexFrom(names, name, start)
  {
    var i := start;
    while i < |names|
      invariant start <= i
      invariant TagIndexFrom(names, name, i) == TagIndexFrom(names, name, start)
      decreases |names| - i
    {
      if names[i] == name {
        return i;
      }
      i := i + 1;
    }
    return -1;
  }

  /**
   * Resuming the scan just past a found tag finds the next tag of the same
   * name: nothing in between is called `name`.
   */
  lemma ResumeFindsNextTag(names: seq<string>, name: string, start: nat)
    requires TagIndexFrom(names, name, start) >= 0
    ensures var t := TagIndexFrom(names, name, start);
      var next := TagIndexFrom(names, name, t + 1);
      (next == -1 || next > t) &&
      forall k :: start <= k < (if next == -1 then |names| else next) && k != t ==> names[k] != name
  {
  }

  // ---------------------------------------------------------------------
  // R_GetMDVTag
  // ---------------------------------------------------------------------

  /** The tag slot R_GetMDVTag reads: a frame past the last reads the last; a negative one is kept. */
  function MdvTagSlot(numFrames: int, numTags: nat, frame: int, tagIndex: nat): int
  {
    var f := if frame >= numFrames then numFrames - 1 else frame;
    f * numTags + tagIndex
  }

  /**
   * The slot lies inside the tag array exactly when the frame is not
   * negative, and any frame past the end reads what the last frame does.
   */
  lemma MdvTagSlotInRange(numFrames: int, numTags: nat, frame: int, tagIndex: nat)
    requires numFrames >= 1 && tagIndex < numTags
    ensures var slot := MdvTagSlot(numFrames, numTags, frame, tagIndex);
      (0 <= slot < numFrames * numTags <==> frame >= 0) &&
      (frame >= numFrames ==> slot == MdvTagSlot(numFrames, numTags, numFrames - 1, tagIndex))
  {
    var f := if frame >= numFrames then numFrames - 1 else frame;
    if f >= 0 {
      MulGrows(f + 1, numFrames, numTags);
      assert (f + 1) * numTags == f * numTags + numTags;
      MulGrows(0, f, numTags);
    } else {
      MulGrows(1, -f, numTags);
      assert (-f) * numTags == -(f * numTags);
    }
  }

  /** The tag R_GetMDVTag (R_GetMDRTag for an MDR model) copies out for a non-negative frame. */
  function FrameTag<T>(m: LoadedModel<T>, frame: nat, tagIndex: nat): (tag: T)
    requires HasTagFrames(m) && Loaded(m) && tagIndex < |m.tagNames|
    ensures tag in m.tags
  {
    MdvTagSlotInRange(m.numFrames, |m.tagNames|, frame, tagIndex);
    m.tags[MdvTagSlot(m.numFrames, |m.tagNames|, frame, tagIndex)]
  }

  /** A frame number past the end reads the last frame's tag ("a bad frame while changing models"). */
  lemma LateFrameReadsLastFrame<T>(m: LoadedModel<T>, frame: nat, tagIndex: nat)
    requires HasTagFrames(m) && Loaded(m) && tagIndex < |m.tagNames| && frame >= m.numFrames
    ensures FrameTag(m, frame, tagIndex) == FrameTag(m, m.numFrames - 1, tagIndex)
    ensures FrameTag(m, frame, tagIndex) == m.tags[(m.numFrames - 1) * |m.tagNames| + tagIndex]
  {
    MdvTagSlotInRange(m.numFrames, |m.tagNames|, frame, tagIndex);
  }

  // ---------------------------------------------------------------------
  // R_LerpTag
  // ---------------------------------------------------------------------

  /** What R_LerpTag leaves in `*tag`. */
  datatype TagOut<T> =
    | Untouched                  // no output requested, nothing written
    | Cleared                    // not found: identity axis, zero origin
    | Lerped(start: T, end: T)   // MD3/MDC/MDR: interpolated between these two tags
    | WrittenByBones             // MDS/MDM/IQM: written by the skeletal tag function

  /** The return value, the value stored through `pTagIndex` (when given), and the tag output. */
  datatype LerpResult<T> = LerpResult(found: bool, tagIndex: int, out: TagOut<T>)

  /**
   * R_LerpTag. `pTagIndex` is the start index passed in, if any; `wantTag`
   * says whether `tag` is non-NULL; `boneTag` is what the skeletal tag
   * function of an MDS, MDM or IQM model returns for this call.
   */
  function LerpTag<T>(models: seq<LoadedModel<T>>, handle: int, pTagIndex: Option<int>, wantTag: bool,
                      tagName: string, startFrame: nat, endFrame: nat, boneTag: int): (r: LerpResult<T>)
    requires Table(models)
    ensures r.found <==> r.tagIndex >= 0
    ensures !r.found ==> r.out == (if wantTag then Cleared else Untouched)
    ensures !wantTag ==> r.out == Untouched
    ensures pTagIndex.Some? && pTagIndex.value < 0 ==> !r.found && r.tagIndex == -1
    ensures !(1 <= handle < |models|) ==> !r.found && r.tagIndex == -1
  {
    var start := if pTagIndex.Some? then pTagIndex.value else 0;
    var h := if start < 0 then 0 else handle;
    var m := models[HandleSlot(h, |models|)];
    var tagIndex :=
      if HasTagFrames(m) then TagIndexFrom(m.tagNames, tagName, start)
      else if m.modType == ModMds || m.modType == ModMdm || m.modType == ModIqm then boneTag
      else -1;
    if tagIndex < 0 then LerpResult(false, tagIndex, if wantTag then Cleared else Untouched)
    else if !wantTag then LerpResult(true, tagIndex, Untouched)
    else if HasTagFrames(m) then
      LerpResult(true, tagIndex, Lerped(FrameTag(m, startFrame, tagIndex), FrameTag(m, endFrame, tagIndex)))
    else LerpResult(true, tagIndex, WrittenByBones)
  }

  /**
   * On an MD3/MDC or MDR model the reported index is the first tag at or
   * after the start index with the requested name, and a found tag is
   * interpolated between that tag in the (clamped) start and end frames.
   */
  lemma LerpTagOnMesh<T>(models: seq<LoadedModel<T>>, handle: int, start: nat, wantTag: bool,
                         tagName: string, startFrame: nat, endFrame: nat, boneTag: int)
    requires Table(models) && 1 <= handle < |models| && HasTagFrames(models[handle])
    ensures var m := models[handle];
      var t := TagIndexFrom(m.tagNames, tagName, start);
      var r := LerpTag(models, handle, Some(start), wantTag, tagName, startFrame, endFrame, boneTag);
      r.tagIndex == t &&
      (r.found <==> exists k :: start <= k < |m.tagNames| && m.tagNames[k] == tagName) &&
      (r.found && wantTag ==> r.out == Lerped(FrameTag(m, startFrame, t), FrameTag(m, endFrame, t)))
  {
    var m := models[handle];
    var t := TagIndexFrom(m.tagNames, tagName, start);
    if t >= 0 {
      assert start <= t < |m.tagNames| && m.tagNames[t] == tagName;
    }
  }

  /** Without a start index the scan starts at tag 0. */
  lemma LerpTagDefaultStart<T>(models: seq<LoadedModel<T>>, handle: int, wantTag: bool,
                               tagName: string, startFrame: nat, endFrame: nat, boneTag: int)
    requires Table(models)
    ensures LerpTag(models, handle, None, wantTag, tagName, startFrame, endFrame, boneTag)
         == LerpTag(models, handle, Some(0), wantTag, tagName, startFrame, endFrame, boneTag)
  {
  }

  // ---------------------------------------------------------------------
  // R_ModelBounds
  // ---------------------------------------------------------------------

  /** Where R_ModelBounds takes `mins`/`maxs` from. */
  datatype BoundsFrom =
    | Zeroed                         // cleared, returns qfalse
    | BrushBounds                    // the brush model's bounds
    | WholeBounds                    // an IQM model without frames: its one pair of bounds
    | FrameBounds(frame: int)        // copied from one frame
    | Blended(start: int, end: int)  // interpolated between two frames

  /** The frames a selection reads all lie in `0 .. numFrames`. */
  predicate InFrames(b: BoundsFrom, numFrames: int)
  {
    match b
    case FrameBounds(f) => 0 <= f < numFrames
    case Blended(s, e) => 0 <= s < numFrames && 0 <= e < numFrames
    case _ => true
  }

  /** The frame selection as written: `frame % numFrames` with C's remainder. */
  function FramesAsWritten(numFrames: int, startFrame: int, endFrame: int): (b: BoundsFrom)
    requires numFrames >= 1
    ensures b.FrameBounds? <==> startFrame == endFrame
    ensures b.FrameBounds? || b.Blended?
    ensures startFrame >= 0 && endFrame >= 0 ==> InFrames(b, numFrames)
  {
    var s := CRem(startFrame, numFrames);
    var e := CRem(endFrame, numFrames);
    if startFrame == endFrame then FrameBounds(s) else Blended(s, e)
  }

  /**
   * As written, a negative frame number that is not a multiple of the frame
   * count selects a frame before the start of the frame array.
   */
  lemma NegativeFrameReadsBeforeFrames(numFrames: int, frame: int)
    requires numFrames >= 1 && frame < 0 && (-frame) % numFrames != 0
    ensures FramesAsWritten(numFrames, frame, frame) == FrameBounds(CRem(frame, numFrames))
    ensures !InFrames(FramesAsWritten(numFrames, frame, frame), numFrames)
  {
  }

  /** For instance frame -1 of a two-frame model reads frame -1. */
  lemma FrameMinusOneOfTwo()
    ensures FramesAsWritten(2, -1, -1) == FrameBounds(-1)
  {
  }

  /** The frame selection with the wrap-around evidently intended: every frame number selects a frame. */
  function Frames(numFrames: int, startFrame: int, endFrame: int): (b: BoundsFrom)
    requires numFrames >= 1
    ensures b.FrameBounds? <==> startFrame == endFrame
    ensures b.FrameBounds? || b.Blended?
    ensures InFrames(b, numFrames)
    ensures startFrame >= 0 && endFrame >= 0 ==> b == FramesAsWritten(numFrames, startFrame, endFrame)
  {
    var s := startFrame % numFrames;
    var e := endFrame % numFrames;
    if startFrame == endFrame then FrameBounds(s) else Blended(s, e)
  }

  /** Frame numbers wrap: adding the frame count to both selects the same frames. */
  lemma FramesWrap(numFrames: int, startFrame: int, endFrame: int)
    requires numFrames >= 1
    ensures Frames(numFrames, startFrame + numFrames, endFrame + numFrames) == Frames(numFrames, startFrame, endFrame)
  {
    ModUnique(startFrame + numFrames, numFrames, startFrame / numFrames + 1, startFrame % numFrames);
    ModUnique(endFrame + numFrames, numFrames, endFrame / numFrames + 1, endFrame % numFrames);
  }

  /**
   * R_ModelBounds with the corrected frame selection: a brush model gives
   * its bounds; MD3/MDC, MDR, MDS and MDX models the selected frames; an IQM
   * model with bounds its only bounds or the selected frames; everything
   * else, MDM included, zeroed with qfalse.
   */
  function ModelBounds<T>(models: seq<LoadedModel<T>>, handle: int, startFrame: int, endFrame: int): (r: (bool, BoundsFrom))
    requires Table(models)
    ensures r.0 <==> r.1 != Zeroed
    ensures InFrames(r.1, models[HandleSlot(handle, |models|)].numFrames)
    ensures !(1 <= handle < |models|) ==> r == (false, Zeroed)
    ensures r.1.FrameBounds? ==> startFrame == endFrame
    ensures r.1.Blended? ==> startFrame != endFrame
  {
    var m := models[HandleSlot(handle, |models|)];
    match m.modType
    case ModBrush => (true, BrushBounds)
    case ModMesh => (true, Frames(m.numFrames, startFrame, endFrame))
    case ModMdr => (true, Frames(m.numFrames, startFrame, endFrame))
    case ModMds => (true, Frames(m.numFrames, startFrame, endFrame))
    case ModMdx => (true, Frames(m.numFrames, startFrame, endFrame))
    case ModIqm =>
      if !m.hasBounds then (false, Zeroed)
      else if m.numFrames == 0 then (true, WholeBounds)
      else (true, Frames(m.numFrames, startFrame, endFrame))
    case _ => (false, Zeroed)
  }

  /** The formats with frames always answer, and equal frame numbers copy one frame's bounds. */
  lemma FramedModelsHaveBounds<T>(models: seq<LoadedModel<T>>, handle: int, frame: int)
    requires Table(models) && 1 <= handle < |models|
    requires models[handle].modType in {ModMesh, ModMdr, ModMds, ModMdx}
    ensures var n := models[handle].numFrames;
      ModelBounds(models, handle, frame, frame) == (true, FrameBounds(frame % n))
  {
  }

  // ---------------------------------------------------------------------
  // R_CustomSurfaceShader
  // ---------------------------------------------------------------------

  /** One entry of tr.skinSurfaces: a (lower-case) surface name and its shader. */
  datatype SkinSurface = SkinSurface(name: string, shader: int)

  /** Every skin's surfaces refer to entries of the surface table. */
  predicate SkinsValid(skins: seq<seq<nat>>, table: seq<SkinSurface>)
  {
    forall s, k :: 0 <= s < |skins| && 0 <= k < |skins[s]| ==> skins[s][k] < |table|
  }

  /** The first of a skin's surfaces, from position `j` on, named `name`. */
  function FirstSkinMatch(surfaces: seq<nat>, table: seq<SkinSurface>, name: string, j: nat): (r: Option<nat>)
    requires forall k :: 0 <= k < |surfaces| ==> surfaces[k] < |table|
    decreases |surfaces| - j
    ensures r.Some? ==> j <= r.value < |surfaces| && table[surfaces[r.value]].name == name
    ensures r.Some? ==> forall k :: j <= k < r.value ==> table[surfaces[k]].name != name
    ensures r.None? ==> forall k :: j <= k < |surfaces| ==> table[surfaces[k]].name != name
  {
    if j >= |surfaces| then None
    else if table[surfaces[j]].name == name then Some(j)
    else FirstSkinMatch(surfaces, table, name, j + 1)
  }

  /** The shader a skin gives the surface: the first matching surface's, else the default shader. */
  function SkinShader(surfaces: seq<nat>, table: seq<SkinSurface>, name: string, defaultShader: int): (s: int)
    requires forall k :: 0 <= k < |surfaces| ==> surfaces[k] < |table|
    ensures (exists k :: 0 <= k < |surfaces| && table[surfaces[k]].name == name) ==>
      exists k :: 0 <= k < |surfaces| && table[surfaces[k]].name == name && s == table[surfaces[k]].shader
    ensures (forall k :: 0 <= k < |surfaces| ==> table[surfaces[k]].name != name) ==> s == defaultShader
  {
    match FirstSkinMatch(surfaces, table, name, 0)
    case Some(j) => table[surfaces[j]].shader
    case None => defaultShader
  }

  /**
   * The shader R_CustomSurfaceShader returns: a valid skin whose matching
   * surface has the nodraw shader hides the surface; otherwise a non-zero
   * custom shader wins over the skin's (or the default) shader.
   */
  function SurfaceShader(name: string, customShader: int, customSkin: int, skins: seq<seq<nat>>, table: seq<SkinSurface>,
                         defaultShader: int, nodrawShader: int, shaderByHandle: int -> int): (s: int)
    requires SkinsValid(skins, table)
  {
    var fromSkin :=
      if 0 < customSkin <= |skins| then SkinShader(skins[customSkin - 1], table, name, defaultShader) else defaultShader;
    if 0 < customSkin <= |skins| && fromSkin == nodrawShader then nodrawShader
    else if customShader != 0 then shaderByHandle(customShader)
    else fromSkin
  }

  /** A skin that hides the surface wins over any custom shader. */
  lemma NodrawSkinHides(name: string, customShader: int, customSkin: int, skins: seq<seq<nat>>, table: seq<SkinSurface>,
                        defaultShader: int, nodrawShader: int, shaderByHandle: int -> int, k: nat)
    requires SkinsValid(skins, table) && 0 < customSkin <= |skins|
    requires var surfaces := skins[customSkin - 1];
      k < |surfaces| && table[surfaces[k]].name == name && table[surfaces[k]].shader == nodrawShader &&
      forall i :: 0 <= i < k ==> table[surfaces[i]].name != name
    ensures SurfaceShader(name, customShader, customSkin, skins, table, defaultShader, nodrawShader, shaderByHandle) == nodrawShader
  {
  }

  /** Unless a skin hides the surface, a non-zero custom shader is the one used. */
  lemma CustomShaderOverrides(name: string, customShader: int, customSkin: int, skins: seq<seq<nat>>, table: seq<SkinSurface>,
                              defaultShader: int, nodrawShader: int, shaderByHandle: int -> int)
    requires SkinsValid(skins, table) && customShader != 0
    requires 0 < customSkin <= |skins| ==> SkinShader(skins[customSkin - 1], table, name, defaultShader) != nodrawShader
    ensures SurfaceShader(name, customShader, customSkin, skins, table, defaultShader, nodrawShader, shaderByHandle)
         == shaderByHandle(customShader)
  {
  }

  /** Without a valid skin or custom shader the default shader is used. */
  lemma NoSkinNoShaderIsDefault(name: string, customSkin: int, skins: seq<seq<nat>>, table: seq<SkinSurface>,
                                defaultShader: int, nodrawShader: int, shaderByHandle: int -> int)
    requires SkinsValid(skins, table) && !(0 < customSkin <= |skins|)
    ensures SurfaceShader(name, 0, customSkin, skins, table, defaultShader, nodrawShader, shaderByHandle) == defaultShader
  {
  }

  /** R_CustomSurfaceShader: the skin's surfaces are searched by a loop that stops at the first match. */
  method CustomSurfaceShader(name: string, customShader: int, customSkin: int, skins: seq<seq<nat>>, table: seq<SkinSurface>,
                             defaultShader: int, nodrawShader: int, shaderByHandle: int -> int) returns (shader: int)
    requires SkinsValid(skins, table)
    ensures shader == SurfaceShader(name, customShader, customSkin, skins, table, defaultShader, nodrawShader, shaderByHandle)
  {
    shader := defaultShader;
    if 0 < customSkin <= |skins| {
      var surfaces := skins[customSkin - 1];
      var j := 0;
      while j < |surfaces|
        invariant 0 <= j <= |surfaces|
        invariant FirstSkinMatch(surfaces, table, name, j) == FirstSkinMatch(surfaces, table, name, 0)
        invariant shader == defaultShader
      {
        if table[surfaces[j]].name == name {
          shader := table[surfaces[j]].shader;
          break;
        }
        j := j + 1;
      }
      if shader == nodrawShader {
        return shader;
      }
    }
    if customShader != 0 {
      shader := shaderByHandle(customShader);
    }
  }
}
