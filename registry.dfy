/**
 * The renderer's model table: slot 0 holds the "bad" model that every
 * out-of-range handle resolves to, new models are appended up to
 * MAX_MOD_KNOWN, and `RE_RegisterModel` looks a name up, or allocates an
 * entry and tries the format loaders in their order of preference. A
 * failed load keeps its entry, typed MOD_BAD, so the files are not
 * searched again.
 */
module Registry {
  import opened Defs
  import opened Loaders

  // ---------------------------------------------------------------------
  // Which loaders RE_RegisterModel tries, and in what order
  // ---------------------------------------------------------------------

  /** The first loader-table entry at or after `i` whose extension equals `ext`, ignoring case. */
  function MatchFrom(ext: string, i: nat): (r: Option<nat>)
    requires i <= LOADER_COUNT
    decreases LOADER_COUNT - i
    ensures r.Some? ==> i <= r.value < LOADER_COUNT && EqualIgnoringCase(ext, LoaderExt(r.value))
    ensures r.Some? ==> forall j :: i <= j < r.value ==> !EqualIgnoringCase(ext, LoaderExt(j))
    ensures r.None? ==> forall j :: i <= j < LOADER_COUNT ==> !EqualIgnoringCase(ext, LoaderExt(j))
  {
    if i == LOADER_COUNT then None
    else if EqualIgnoringCase(ext, LoaderExt(i)) then Some(i)
    else MatchFrom(ext, i + 1)
  }

  /** The loader chosen by a name's own extension, if it has one the table knows. */
  function ExplicitLoader(name: string): Option<nat>
  {
    var ext := GetExtension(name);
    if ext == [] then None else MatchFrom(ext, 0)
  }

  /** One call of a register function. */
  datatype Attempt = Attempt(loader: Loader, path: string)

  /** "%s.%s" of a base name and table entry `i`'s extension, in a MAX_QPATH buffer. */
  function AltName(localName: string, i: nat): string
    requires i < LOADER_COUNT
  {
    Truncate(localName + "." + LoaderExt(i), MAX_QPATH)
  }

  /** The table entries the fallback loop tries from entry `i` on: every one but `skip`. */
  function FallbackIndexes(skip: int, i: nat): (r: seq<nat>)
    requires i <= LOADER_COUNT
    decreases LOADER_COUNT - i
    ensures forall k :: 0 <= k < |r| ==> i <= r[k] < LOADER_COUNT && r[k] != skip
  {
    if i == LOADER_COUNT then []
    else if i == skip then FallbackIndexes(skip, i + 1)
    else [i] + FallbackIndexes(skip, i + 1)
  }

  /** The calls made for a list of table entries: each entry's loader on the base name plus that entry's extension. */
  function AttemptsFor(localName: string, entries: seq<nat>): (a: seq<Attempt>)
    requires forall k :: 0 <= k < |entries| ==> entries[k] < LOADER_COUNT
    ensures |a| == |entries|
  {
    if entries == [] then []
    else [Attempt(LoaderFunc(entries[0]), AltName(localName, entries[0]))] + AttemptsFor(localName, entries[1..])
  }

  /**
   * Every attempt RE_RegisterModel may make for `name`, in order: the
   * loader its extension selects, on the name as given; then every other
   * loader in table order, on the name with that extension stripped (or on
   * the name as given when no loader was selected) plus the loader's own
   * extension.
   */
  function Attempts(name: string): seq<Attempt>
  {
    match ExplicitLoader(name)
    case Some(i) => [Attempt(LoaderFunc(i), name)] + AttemptsFor(StripExtension(name, MAX_QPATH), FallbackIndexes(i, 0))
    case None => AttemptsFor(name, FallbackIndexes(-1, 0))
  }

  /**
   * The fallback loop keeps the table order and leaves out exactly the
   * skipped entry: its `k`-th try is table entry `i + k`, or `i + k + 1`
   * once the skipped entry has been passed.
   */
  lemma {:induction false} FallbackIndexesOrder(skip: int, i: nat)
    requires i <= LOADER_COUNT
    decreases LOADER_COUNT - i
    ensures var r := FallbackIndexes(skip, i);
      |r| == LOADER_COUNT - i - (if i <= skip < LOADER_COUNT then 1 else 0) &&
      forall k :: 0 <= k < |r| ==> r[k] == if i <= skip <= i + k then i + k + 1 else i + k
  {
    if i < LOADER_COUNT {
      FallbackIndexesOrder(skip, i + 1);
    }
  }

  /** The attempts made by the code's two loops, as one list: the first one that loads wins. */
  function RunAttempts(attempts: seq<Attempt>, e: ModelEntry, disk: Disk): (r: (int, ModelEntry))
    requires |e.mdv| == MD3_MAX_LODS
    ensures r.1.name == e.name && r.1.index == e.index && |r.1.mdv| == MD3_MAX_LODS
  {
    if attempts == [] then (0, e)
    else
      var (h, e') := RunLoader(attempts[0].loader, attempts[0].path, e, disk);
      if h != 0 then (h, e') else RunAttempts(attempts[1..], e', disk)
  }

  /** Running a list that starts with `a` runs `a` first and stops there if it loaded. */
  lemma RunAttemptsCons(a: Attempt, rest: seq<Attempt>, e: ModelEntry, disk: Disk)
    requires |e.mdv| == MD3_MAX_LODS
    ensures var first := RunLoader(a.loader, a.path, e, disk);
      RunAttempts([a] + rest, e, disk) == if first.0 != 0 then first else RunAttempts(rest, first.1, disk)
  {
    assert ([a] + rest)[1..] == rest;
  }

  /** The index of the first attempt whose files load. */
  function FirstLoading(attempts: seq<Attempt>, disk: Disk): (r: Option<nat>)
    ensures r.Some? ==> r.value < |attempts| && Loads(attempts[r.value].loader, attempts[r.value].path, disk)
    ensures r.Some? ==> forall j :: 0 <= j < r.value ==> !Loads(attempts[j].loader, attempts[j].path, disk)
    ensures r.None? ==> forall j :: 0 <= j < |attempts| ==> !Loads(attempts[j].loader, attempts[j].path, disk)
  {
    if attempts == [] then None
    else if Loads(attempts[0].loader, attempts[0].path, disk) then Some(0)
    else match FirstLoading(attempts[1..], disk)
      case None => None
      case Some(j) => Some(j + 1)
  }

  /**
   * Running the attempts in order returns the entry's index exactly when
   * some attempt's files load, and the model then has the type of the
   * first such attempt's format; otherwise it returns 0 and, once anything
   * has been tried, the model is MOD_BAD.
   */
  lemma {:induction false} RunAttemptsFirstSuccess(attempts: seq<Attempt>, e: ModelEntry, disk: Disk)
    requires |e.mdv| == MD3_MAX_LODS && e.index >= 1
    ensures var r := RunAttempts(attempts, e, disk);
      var first := FirstLoading(attempts, disk);
      (r.0 != 0 <==> first.Some?) &&
      (first.Some? ==>
        r.0 == e.index && r.1.modType == LoadedType(attempts[first.value].loader, attempts[first.value].path, disk) &&
        r.1.modType != ModBad) &&
      (first.None? && attempts != [] ==> r.0 == 0 && r.1.modType == ModBad)
  {
    if attempts != [] {
      var r0 := RunLoader(attempts[0].loader, attempts[0].path, e, disk);
      RunLoaderMatchesLoads(attempts[0].loader, attempts[0].path, e, disk);
      if r0.0 == 0 {
        RunAttemptsFirstSuccess(attempts[1..], r0.1, disk);
      }
    }
  }

  /** A name always has at least seven attempts, so a failed registration always ends MOD_BAD. */
  lemma AttemptsNotEmpty(name: string)
    ensures |Attempts(name)| >= LOADER_COUNT - 1
  {
    match ExplicitLoader(name)
    case Some(i) => FallbackIndexesOrder(i, 0);
    case None => FallbackIndexesOrder(-1, 0);
  }

  /** Entry `i` heads the fallback attempts from `i` on unless it is the skipped one. */
  lemma FallbackAttemptsStep(localName: string, skip: int, i: nat, e: ModelEntry, disk: Disk)
    requires i < LOADER_COUNT && i != skip && |e.mdv| == MD3_MAX_LODS
    ensures var first := RunLoader(LoaderFunc(i), AltName(localName, i), e, disk);
      RunAttempts(AttemptsFor(localName, FallbackIndexes(skip, i)), e, disk) ==
      if first.0 != 0 then first else RunAttempts(AttemptsFor(localName, FallbackIndexes(skip, i + 1)), first.1, disk)
  {
    var rest := FallbackIndexes(skip, i + 1);
    assert FallbackIndexes(skip, i) == [i] + rest;
    var a := Attempt(LoaderFunc(i), AltName(localName, i));
    assert AttemptsFor(localName, [i] + rest) == [a] + AttemptsFor(localName, rest) by {
      assert ([i] + rest)[1..] == rest;
    }
    RunAttemptsCons(a, AttemptsFor(localName, rest), e, disk);
  }

  // ---------------------------------------------------------------------
  // The model table
  // ---------------------------------------------------------------------

  /** The first slot from 1 on whose entry has this name. */
  function FindByName(models: seq<ModelEntry>, name: string): (r: Option<nat>)
    ensures r.Some? ==> 1 <= r.value < |models| && models[r.value].name == name
    ensures r.Some? ==> forall j :: 1 <= j < r.value ==> models[j].name != name
    ensures r.None? ==> forall j :: 1 <= j < |models| ==> models[j].name != name
  {
    if |models| <= 1 then None
    else match FindByName(models[..|models| - 1], name)
      case Some(j) => Some(j)
      case None => if models[|models| - 1].name == name then Some(|models| - 1) else None
  }

  class ModelStore {
    /** tr.models[0 .. tr.numModels) */
    var models: seq<ModelEntry>

    /** The shape every table has: each entry knows its slot and has its LOD slots. */
    ghost predicate Table()
      reads this
    {
      |models| <= MAX_MOD_KNOWN &&
      forall i :: 0 <= i < |models| ==> models[i].index == i && |models[i].mdv| == MD3_MAX_LODS
    }

    /** An initialised table: slot 0 is the MOD_BAD model. */
    ghost predicate Valid()
      reads this
    {
      Table() && 1 <= |models| && models[0].modType == ModBad
    }

    /** R_ModelInit: leave slot 0 for the "bad" model. */
    constructor ()
      ensures Valid() && models == [BlankEntry(0)]
    {
      models := [];
      new;
      var slot := AllocModel();
      models := models[0 := models[0].(modType := ModBad)];
    }

    /**
     * R_AllocModel: when the table is full there is no new model;
     * otherwise a zeroed entry is appended whose index is the old count.
     */
    method AllocModel() returns (slot: Option<nat>)
      requires Table()
      modifies this
      ensures Table()
      ensures |old(models)| == MAX_MOD_KNOWN ==> slot.None? && models == old(models)
      ensures |old(models)| < MAX_MOD_KNOWN ==>
        slot == Some(|old(models)|) && models == old(models) + [BlankEntry(|old(models)|)]
    {
      if |models| == MAX_MOD_KNOWN {
        return None;
      }
      slot := Some(|models|);
      models := models + [BlankEntry(|models|)];
    }

    /** R_GetModelByHandle: an out-of-range handle gets the "bad" model of slot 0. */
    function ModelByHandle(handle: int): (m: ModelEntry)
      reads this
      requires Valid()
      ensures 1 <= handle < |models| ==> m == models[handle] && m.index == handle
      ensures !(1 <= handle < |models|) ==> m == models[0] && m.index == 0 && m.modType == ModBad
    {
      models[HandleSlot(handle, |models|)]
    }

    /**
     * RE_RegisterModel. An empty or over-long name gives 0. A name already
     * in the table gives its handle, or 0 when its load failed. Otherwise a
     * new entry named `name` is appended (0 when the table is full) and the
     * loaders are tried in order; the entry keeps whatever they leave.
     */
    method RegisterModel(name: string, disk: Disk) returns (h: int)
      requires Valid()
      modifies this
      ensures Valid()
      ensures name == [] || |name| >= MAX_QPATH ==> h == 0 && models == old(models)
      ensures 0 < |name| < MAX_QPATH && FindByName(old(models), name).Some? ==>
        var k := FindByName(old(models), name).value;
        models == old(models) && h == (if old(models)[k].modType == ModBad then 0 else k)
      ensures 0 < |name| < MAX_QPATH && FindByName(old(models), name).None? && |old(models)| == MAX_MOD_KNOWN ==>
        h == 0 && models == old(models)
      ensures 0 < |name| < MAX_QPATH && FindByName(old(models), name).None? && |old(models)| < MAX_MOD_KNOWN ==>
        var r := RunAttempts(Attempts(name), BlankEntry(|old(models)|).(name := name), disk);
        models == old(models) + [r.1] && h == r.0
    {
      if name == [] {
        return 0;
      }
      if |name| >= MAX_QPATH {
        return 0;
      }
      // search the currently loaded models
      var found := Lookup(name);
      if found.Some? {
        if models[found.value].modType == ModBad {
          return 0;
        }
        return found.value;
      }
      h := AddModel(name, disk);
    }

    /**
     * The rest of RE_RegisterModel for a name the table does not hold:
     * allocate an entry (0 when the table is full), name it, and keep what
     * the loaders leave in it.
     */
    method AddModel(name: string, disk: Disk) returns (h: int)
      requires Valid() && 0 < |name| < MAX_QPATH
      modifies this
      ensures Valid()
      ensures |old(models)| == MAX_MOD_KNOWN ==> h == 0 && models == old(models)
      ensures |old(models)| < MAX_MOD_KNOWN ==>
        var r := RunAttempts(Attempts(name), BlankEntry(|old(models)|).(name := name), disk);
        models == old(models) + [r.1] && h == r.0
    {
      var slot := AllocModel();
      if slot.None? {
        return 0;
      }
      var n := slot.value;
      assert models[n] == BlankEntry(n);
      var e := models[n].(name := Truncate(name, MAX_QPATH), modType := ModBad, numLods := 0);
      assert e == BlankEntry(n).(name := name);
      h, e := LoadModel(name, e, disk);
      assert e.index == n && |e.mdv| == MD3_MAX_LODS;
      models := models[n := e];
      assert models == old(models) + [e];
    }

    /** The search loop of RE_RegisterModel: the first slot from 1 on that holds `name`. */
    method Lookup(name: string) returns (k: Option<nat>)
      requires Valid()
      ensures k == FindByName(models, name)
    {
      var hModel := 1;
      while hModel < |models|
        invariant 1 <= hModel <= |models|
        invariant forall j :: 1 <= j < hModel ==> models[j].name != name
      {
        if models[hModel].name == name {
          return Some(hModel);
        }
        hModel := hModel + 1;
      }
      return None;
    }

    /**
     * The loading part of RE_RegisterModel: the loader the extension
     * selects, then the fallback loop over the table.
     */
    static method LoadModel(name: string, e: ModelEntry, disk: Disk) returns (h: int, r: ModelEntry)
      requires |e.mdv| == MD3_MAX_LODS && 0 < |name| < MAX_QPATH
      ensures (h, r) == RunAttempts(Attempts(name), e, disk)
    {
      var localName := Truncate(name, MAX_QPATH);
      assert localName == name;
      var ext := GetExtension(localName);
      var orgLoader := -1;
      r := e;
      h := 0;
      if ext != [] {
        // look for the loader of the name's own extension
        var i := 0;
        while i < LOADER_COUNT && !EqualIgnoringCase(ext, LoaderExt(i))
          invariant 0 <= i <= LOADER_COUNT
          invariant MatchFrom(ext, i) == MatchFrom(ext, 0)
        {
          i := i + 1;
        }
        if i < LOADER_COUNT {
          assert ExplicitLoader(name) == Some(i);
          RunAttemptsCons(Attempt(LoaderFunc(i), name), AttemptsFor(StripExtension(name, MAX_QPATH), FallbackIndexes(i, 0)), e, disk);
          h, r := CallLoader(LoaderFunc(i), localName, r, disk);
          if h != 0 {
            return h, r;
          }
          // the loader failed, most likely because the file is not there: try without the extension
          orgLoader := i;
          localName := StripExtension(name, MAX_QPATH);
        }
      }
      // try every other format in order of preference
      h, r := TryFallbacks(localName, orgLoader, r, disk);
    }

    /** The fallback loop of RE_RegisterModel: every loader but `orgLoader`, in table order, until one loads. */
    static method TryFallbacks(localName: string, orgLoader: int, e: ModelEntry, disk: Disk) returns (h: int, r: ModelEntry)
      requires |e.mdv| == MD3_MAX_LODS
      ensures (h, r) == RunAttempts(AttemptsFor(localName, FallbackIndexes(orgLoader, 0)), e, disk)
    {
      h, r := 0, e;
      var i := 0;
      while i < LOADER_COUNT
        invariant 0 <= i <= LOADER_COUNT && |r.mdv| == MD3_MAX_LODS && h == 0
        invariant Remaining(localName, orgLoader, i, r, disk) == Remaining(localName, orgLoader, 0, e, disk)
      {
        h, r := TryFallback(localName, orgLoader, i, r, disk);
        if h != 0 {
          return h, r;
        }
        i := i + 1;
      }
    }

    /** One pass of the fallback loop: entry `i`'s loader, unless `i` is `orgLoader`. */
    static method TryFallback(localName: string, orgLoader: int, i: nat, e: ModelEntry, disk: Disk) returns (h: int, r: ModelEntry)
      requires i < LOADER_COUNT && |e.mdv| == MD3_MAX_LODS
      ensures |r.mdv| == MD3_MAX_LODS
      ensures h != 0 ==> (h, r) == Remaining(localName, orgLoader, i, e, disk)
      ensures h == 0 ==> Remaining(localName, orgLoader, i + 1, r, disk) == Remaining(localName, orgLoader, i, e, disk)
    {
      if i != orgLoader {
        FallbackAttemptsStep(localName, orgLoader, i, e, disk);
        h, r := CallLoader(LoaderFunc(i), AltName(localName, i), e, disk);
      } else {
        h, r := 0, e;
      }
    }
  }

  /** What the fallback loop still does from table entry `i` on, with the entry as it stands. */
  ghost function Remaining(localName: string, skip: int, i: nat, e: ModelEntry, disk: Disk): (int, ModelEntry)
    requires i <= LOADER_COUNT && |e.mdv| == MD3_MAX_LODS
  {
    RunAttempts(AttemptsFor(localName, FallbackIndexes(skip, i)), e, disk)
  }

  /** An entry appended under a name the table did not hold is the one a lookup finds. */
  lemma FindByNameAppended(before: seq<ModelEntry>, x: ModelEntry, name: string)
    requires FindByName(before, name).None? && |before| >= 1 && x.name == name
    ensures FindByName(before + [x], name) == Some(|before|)
  {
    assert (before + [x])[..|before|] == before;
  }

  /**
   * Loading a model gives the entry's index exactly when the entry's type
   * is not MOD_BAD, and 0 otherwise: the handle and the cached type agree.
   */
  lemma LoadOutcomeAgrees(name: string, e: ModelEntry, disk: Disk)
    requires |e.mdv| == MD3_MAX_LODS && e.index >= 1
    ensures var r := RunAttempts(Attempts(name), e, disk);
      (r.0 == 0 <==> r.1.modType == ModBad) && (r.0 == 0 || r.0 == e.index)
  {
    AttemptsNotEmpty(name);
    RunAttemptsFirstSuccess(Attempts(name), e, disk);
  }

  /**
   * Registering a name twice gives the same handle both times, and the
   * second call adds nothing to the table: a failed load stays cached as a
   * MOD_BAD entry with that name.
   */
  method RegisterIsCached(store: ModelStore, name: string, disk: Disk) returns (h1: int, h2: int)
    requires store.Valid()
    modifies store
    ensures store.Valid()
    ensures h2 == h1
    ensures |store.models| <= |old(store.models)| + 1
  {
    ghost var before := store.models;
    h1 := store.RegisterModel(name, disk);
    if 0 < |name| < MAX_QPATH && FindByName(before, name).None? && |before| < MAX_MOD_KNOWN {
      var blank := BlankEntry(|before|).(name := name);
      LoadOutcomeAgrees(name, blank, disk);
      FindByNameAppended(before, RunAttempts(Attempts(name), blank, disk).1, name);
    }
    h2 := store.RegisterModel(name, disk);
  }
}
