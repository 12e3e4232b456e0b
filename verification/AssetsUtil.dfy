/**
 AssetsUtil: copying an asset of the installed package to a file, and the CRC cache that lets later
 calls skip the copy.  Every file operation may fail; the process may die and the package may be
 replaced between calls.
 */
module AssetCopying {
  import opened Results
  import opened Crc

  type Path = string

  datatype CopyMode =
    | CopyIfDestNotExists
    | OverrideIfDestSizeNotMatched
    | OverrideForced
    | OverrideIfModified
    | OverrideIfContentChanged

  /** Version code, version name and last update time: what identifies an installed package. */
  datatype ApkInfo = ApkInfo(versionCode: int, versionName: Option<string>, lastUpdate: int)

  /** The asset cache preferences: package keys, and one CRC per asset path. */
  datatype Prefs = Prefs(info: Option<ApkInfo>, crcs: map<Path, bv32>)

  const INVALID := -1
  const MAX_CRC_VERIFY_SIZE := 5 * 1024 * 1024
  const BUFFER_SIZE := 128 * 1024

  // ---------- the cache, as values ----------

  /** The code compares key by key; an absent or -1 version code also counts as an update. */
  predicate Updated(p: Prefs, info: ApkInfo) {
    p.info != Some(info) || info.versionCode == INVALID
  }

  function Synced(p: Prefs, info: ApkInfo): Prefs {
    if Updated(p, info) then Prefs(Some(info), map[]) else p
  }

  /** Cached CRCs belong to the assets of the package the preferences name. */
  ghost predicate CacheSound(p: Prefs, catalog: ApkInfo -> map<Path, Bytes>) {
    if p.info.None? then p.crcs == map[]
    else forall k :: k in p.crcs ==> k in catalog(p.info.value) && p.crcs[k] == Crc.Of(catalog(p.info.value)[k])
  }

  /** Whatever package the preferences came from: after the sync they speak of the installed one. */
  lemma SyncMakesCurrent(p: Prefs, info: ApkInfo, catalog: ApkInfo -> map<Path, Bytes>)
    requires CacheSound(p, catalog)
    ensures CacheSound(Synced(p, info), catalog) && Synced(p, info).info == Some(info)
    ensures forall k :: k in Synced(p, info).crcs ==>
      k in catalog(info) && Synced(p, info).crcs[k] == Crc.Of(catalog(info)[k])
    ensures p.info == Some(info) && info.versionCode != INVALID ==> Synced(p, info) == p
  {
    assert Synced(p, info).info == Some(info);
  }

  /**
   The cache of one process: the installed package, the preferences it sees, the versions of them that
   may be on disk, and whether it has synchronised yet (sApkUpdateDetected).
   */
  datatype Cache = Cache(apk: ApkInfo, prefs: Prefs, durable: seq<Prefs>, synced: bool)

  /**
   Restart(k): the process dies and the next one finds the k-th version.  Install: the same, with
   another package.  Sync: ensureApkInfoSynced.  Remember: the CRC of an asset is computed and cached.
   */
  datatype CacheEvent = Restart(k: nat) | Install(next: ApkInfo, k: nat) | Sync | Remember(path: Path)

  function Restarted(c: Cache, apk: ApkInfo, k: nat): Cache {
    if k < |c.durable| then Cache(apk, c.durable[k], [c.durable[k]], false) else c
  }

  function Applied(c: Cache, p: Prefs): Cache {
    c.(prefs := p, durable := c.durable + [p])
  }

  function CacheStep(c: Cache, e: CacheEvent, catalog: ApkInfo -> map<Path, Bytes>): Cache {
    match e
    case Restart(k) => Restarted(c, c.apk, k)
    case Install(next, k) => Restarted(c, next, k)
    case Sync =>
      if c.synced then c
      else (if Updated(c.prefs, c.apk) then Applied(c, Synced(c.prefs, c.apk)) else c).(synced := true)
    case Remember(path) =>
      if c.synced && path in catalog(c.apk)
      then Applied(c, c.prefs.(crcs := c.prefs.crcs[path := Crc.Of(catalog(c.apk)[path])]))
      else c
  }

  function CacheRun(c: Cache, events: seq<CacheEvent>, catalog: ApkInfo -> map<Path, Bytes>): Cache
    decreases |events|
  {
    if events == [] then c else CacheRun(CacheStep(c, events[0], catalog), events[1..], catalog)
  }

  ghost predicate CacheOk(c: Cache, catalog: ApkInfo -> map<Path, Bytes>) {
    && CacheSound(c.prefs, catalog) && c.durable != []
    && (forall p :: p in c.durable ==> CacheSound(p, catalog))
    && (c.synced ==> c.prefs.info == Some(c.apk))
  }

  lemma CacheStepKeeps(c: Cache, e: CacheEvent, catalog: ApkInfo -> map<Path, Bytes>)
    requires CacheOk(c, catalog)
    ensures CacheOk(CacheStep(c, e, catalog), catalog)
  {
    SyncMakesCurrent(c.prefs, c.apk, catalog);
    if e.Restart? || e.Install? {
      if e.k < |c.durable| { assert c.durable[e.k] in c.durable; }
    }
  }

  lemma {:induction false} CacheRunKeeps(c: Cache, events: seq<CacheEvent>, catalog: ApkInfo -> map<Path, Bytes>)
    requires CacheOk(c, catalog)
    ensures CacheOk(CacheRun(c, events, catalog), catalog)
    decreases |events|
  {
    if events != [] {
      CacheStepKeeps(c, events[0], catalog);
      CacheRunKeeps(CacheStep(c, events[0], catalog), events[1..], catalog);
    }
  }

  /**
   In every run over processes and packages, from the first start: once the process has synchronised,
   each cached CRC is that of an asset of the package now installed.
   */
  lemma CachedCrcsAreCurrent(apk: ApkInfo, events: seq<CacheEvent>, catalog: ApkInfo -> map<Path, Bytes>, path: Path)
    ensures var c := CacheRun(Cache(apk, Prefs(None, map[]), [Prefs(None, map[])], false), events, catalog);
      c.synced && path in c.prefs.crcs ==>
        path in catalog(c.apk) && c.prefs.crcs[path] == Crc.Of(catalog(c.apk)[path])
  {
    CacheRunKeeps(Cache(apk, Prefs(None, map[]), [Prefs(None, map[])], false), events, catalog);
  }

  // ---------- files ----------

  function Look(files: map<Path, Bytes>, p: Path): Option<Bytes> {
    if p in files then Some(files[p]) else None
  }

  function TempOf(dest: Path): Path {
    dest + ".tmp"
  }

  /**
   Seen from the files at the start of a copy: the destination is the whole old file, the whole
   asset, or absent, and nothing but destination and temp file has changed.
   */
  ghost predicate Whole(now: map<Path, Bytes>, start: map<Path, Bytes>, dest: Path, asset: Option<Bytes>) {
    && (Look(now, dest) == Look(start, dest) || Look(now, dest) == None || (asset.Some? && Look(now, dest) == asset))
    && forall p :: p != dest && p != TempOf(dest) ==> Look(now, p) == Look(start, p)
  }

  /** Nothing but the temp file has been written. */
  ghost predicate OnlyTemp(now: map<Path, Bytes>, before: map<Path, Bytes>, dest: Path) {
    TempOf(dest) in now && now == before[TempOf(dest) := now[TempOf(dest)]]
  }

  lemma TempWritten(now: map<Path, Bytes>, before: map<Path, Bytes>, dest: Path)
    requires TempOf(dest) in now && now == before[TempOf(dest) := now[TempOf(dest)]]
    ensures OnlyTemp(now, before, dest)
  {
  }

  lemma OnlyTempLook(now: map<Path, Bytes>, before: map<Path, Bytes>, dest: Path, content: Bytes)
    requires OnlyTemp(now, before, dest)
    ensures Look(now, dest) == Look(before, dest)
    ensures now[TempOf(dest) := content] == before[TempOf(dest) := content]
  {
  }

  /** The difference of two timestamps that marks a file stamped by an older release. */
  predicate IsLegacyManagedTimestamp(assetModTime: int, fileModTime: int) {
    800 <= fileModTime - assetModTime <= 1200
  }

  predicate ShouldVerifyContent(size: int) {
    0 < size < MAX_CRC_VERIFY_SIZE
  }

  /** What a copy that reports success promises, by mode. */
  ghost predicate Promise(
      mode: CopyMode, before: Option<Bytes>, after: Option<Bytes>, asset: Option<Bytes>, stamp: int, apkTime: int)
  {
    || (asset.Some? && after == asset && (mode.CopyIfDestNotExists? ==> before.None?))
    || (before.Some? && after == before &&
        match mode
        case CopyIfDestNotExists => true
        case OverrideIfDestSizeNotMatched => asset.Some? && |before.value| == |asset.value|
        case OverrideForced => false
        case OverrideIfModified =>
          asset.Some? && |before.value| == |asset.value| && stamp >= apkTime
          && (Crc.Of(before.value) == Crc.Of(asset.value)
              || (if stamp == apkTime then !ShouldVerifyContent(|asset.value|)
                  else !IsLegacyManagedTimestamp(apkTime, stamp)))
        case OverrideIfContentChanged => asset.Some? && Crc.Of(before.value) == Crc.Of(asset.value))
  }

  /**
   When an existing destination stays as it is, provided that everything needed could be read: the rule
   of each mode.  noSize: the size query of the asset has failed; updated: the package is a new one.
   */
  ghost predicate Keeps(mode: CopyMode, before: Bytes, asset: Option<Bytes>, noSize: bool, updated: bool,
                        stamp: int, apkTime: int)
  {
    var sameSize := !noSize && asset.Some? && |before| == |asset.value|;
    var sameCrc := asset.Some? && Crc.Of(before) == Crc.Of(asset.value);
    match mode
    case CopyIfDestNotExists => true
    case OverrideIfDestSizeNotMatched => sameSize
    case OverrideForced => false
    case OverrideIfModified =>
      && sameSize && stamp >= apkTime
      && (if IsLegacyManagedTimestamp(apkTime, stamp) then ShouldVerifyContent(|before|) && sameCrc
          else stamp > apkTime || !ShouldVerifyContent(|before|) || sameCrc)
    case OverrideIfContentChanged => !updated && sameCrc
  }

  /** Older releases stamped a copy one second after the package; file systems round by up to 200 ms. */
  lemma LegacyStamps(apkTime: int, rounding: int)
    ensures IsLegacyManagedTimestamp(apkTime, apkTime + 1000 + rounding) <==> -200 <= rounding <= 200
  {
  }

  /** What is kept is what the mode promises. */
  lemma KeepsPromise(mode: CopyMode, before: Bytes, asset: Option<Bytes>, noSize: bool, updated: bool,
                     stamp: int, apkTime: int)
    requires Keeps(mode, before, asset, noSize, updated, stamp, apkTime)
    ensures Promise(mode, Some(before), Some(before), asset, stamp, apkTime)
  {
  }

  /** In content mode a destination that differs from the asset in one byte is never kept. */
  lemma OneByteIsReplaced(head: Bytes, x: bv8, y: bv8, tail: Bytes, noSize: bool, updated: bool,
                          stamp: int, apkTime: int, after: Option<Bytes>)
    requires x != y
    ensures var before, asset := head + [y] + tail, Some(head + [x] + tail);
      && !Keeps(OverrideIfContentChanged, before, asset, noSize, updated, stamp, apkTime)
      && (Promise(OverrideIfContentChanged, Some(before), after, asset, stamp, apkTime) ==> after == asset)
  {
    OneByteShows(head, x, y, tail);
  }

  class AssetsUtil {
    const catalog: ApkInfo -> map<Path, Bytes>  // the assets each package ships
    const healthy: bool                         // a device on which no file operation fails
    var apk: ApkInfo                            // the installed package
    var files: map<Path, Bytes>
    var modTime: map<Path, int>
    ghost var history: seq<map<Path, Bytes>>    // files after every change
    var prefs: Prefs
    var durable: seq<Prefs>                     // what a restarted process may find on disk
    var sApkUpdateDetected: int
    var sApkLastUpdateTime: Option<int>

    /** File.lastModified: 0 when it cannot be read. */
    function StampOf(p: Path): int
      reads this`modTime
    {
      if p in modTime then modTime[p] else 0
    }

    ghost function State(): Cache
      reads this`apk, this`prefs, this`durable, this`sApkUpdateDetected
    {
      Cache(apk, prefs, durable, sApkUpdateDetected != -1)
    }

    ghost predicate Valid()
      reads this
    {
      && CacheOk(State(), catalog)
      && -1 <= sApkUpdateDetected <= 1
      && (sApkLastUpdateTime.Some? ==> sApkLastUpdateTime.value == apk.lastUpdate)
    }

    ghost function Asset(path: Path): Option<Bytes>
      reads this`apk
    {
      Look(catalog(apk), path)
    }

    constructor (catalog: ApkInfo -> map<Path, Bytes>, apk: ApkInfo, healthy: bool)
      ensures Valid() && files == map[] && this.catalog == catalog && this.apk == apk && this.healthy == healthy
    {
      this.catalog, this.apk, this.healthy := catalog, apk, healthy;
      files, modTime, history := map[], map[], [];
      prefs, durable := Prefs(None, map[]), [Prefs(None, map[])];
      sApkUpdateDetected, sApkLastUpdateTime := -1, None;
    }

    // ---------- process and package life cycle ----------

    /** The process dies at any point: the statics are lost, and preferences not yet written. */
    method Die() returns (k: nat)
      requires Valid()
      modifies this`prefs, this`durable, this`sApkUpdateDetected, this`sApkLastUpdateTime
      ensures Valid() && k < |old(durable)| && State() == CacheStep(old(State()), Restart(k), catalog)
      ensures sApkLastUpdateTime.None?
    {
      k :| k < |durable|;
      CacheStepKeeps(State(), Restart(k), catalog);
      prefs := durable[k];
      durable := [prefs];
      sApkUpdateDetected, sApkLastUpdateTime := -1, None;
    }

    /** Installing a package kills the process. */
    method InstallApk(next: ApkInfo) returns (k: nat)
      requires Valid()
      modifies this`apk, this`prefs, this`durable, this`sApkUpdateDetected, this`sApkLastUpdateTime
      ensures Valid() && k < |old(durable)| && State() == CacheStep(old(State()), Install(next, k), catalog)
    {
      k := Die();
      apk := next;
    }

    // ---------- the CRC cache ----------

    /** SharedPreferences.apply: visible at once, on disk some time later. */
    method Apply(p: Prefs)
      modifies this`prefs, this`durable
      ensures State() == Applied(old(State()), p)
    {
      prefs := p;
      durable := durable + [p];
    }

    method GetApkLastUpdateTime() returns (t: int)
      requires Valid()
      modifies this`sApkLastUpdateTime
      ensures Valid() && t == apk.lastUpdate
    {
      t := if sApkLastUpdateTime.Some? then sApkLastUpdateTime.value else INVALID;
      if t < 0 {
        t := apk.lastUpdate;
        sApkLastUpdateTime := Some(t);
      }
    }

    method EnsureApkInfoSynced() returns (detected: bool)
      requires Valid()
      modifies this`prefs, this`durable, this`sApkUpdateDetected, this`sApkLastUpdateTime
      ensures Valid() && sApkUpdateDetected == if detected then 1 else 0
      ensures forall k :: k in prefs.crcs ==> Asset(k).Some? && prefs.crcs[k] == Crc.Of(Asset(k).value)
      ensures State() == CacheStep(old(State()), Sync, catalog)
      ensures old(sApkUpdateDetected) == -1 ==> detected == Updated(old(prefs), apk)
      ensures old(sApkUpdateDetected) != -1 ==> sApkUpdateDetected == old(sApkUpdateDetected)
    {
      if sApkUpdateDetected != -1 { return sApkUpdateDetected == 1; }
      var lastUpdate := GetApkLastUpdateTime();
      var storedCode := if prefs.info.Some? then prefs.info.value.versionCode else INVALID;
      var storedName := if prefs.info.Some? then prefs.info.value.versionName else None;
      var storedUpdate := if prefs.info.Some? then prefs.info.value.lastUpdate else INVALID;
      var updated := storedCode != apk.versionCode || storedName != apk.versionName || storedUpdate != lastUpdate;
      detected := updated || storedCode == INVALID;
      CacheStepKeeps(State(), Sync, catalog);
      if detected {
        Apply(Prefs(Some(apk), map[]));
      }
      sApkUpdateDetected := if detected then 1 else 0;
    }

    method CacheAssetCrc(path: Path, crc: bv32)
      requires Valid() && sApkUpdateDetected != -1
      requires Asset(path).Some? && crc == Crc.Of(Asset(path).value)
      modifies this`prefs, this`durable
      ensures Valid() && State() == CacheStep(old(State()), Remember(path), catalog)
    {
      CacheStepKeeps(State(), Remember(path), catalog);
      Apply(prefs.(crcs := prefs.crcs[path := crc]));
    }

    /** One read of at most a buffer from a stream, fed to the CRC; None when it fails. */
    static method ReadChunk(content: Bytes, i: nat, register: bv32, healthy: bool) returns (r: Option<(nat, bv32)>)
      requires i < |content| && register == Update(INITIAL, content[..i])
      ensures healthy ==> r.Some?
      ensures r.Some? ==> i < r.value.0 <= |content| && r.value.1 == Update(INITIAL, content[..r.value.0])
    {
      var fails: bool := *;
      if fails && !healthy { return None; }
      var bytesRead: nat :| 0 < bytesRead <= BUFFER_SIZE && bytesRead <= |content| - i;
      var next := i + bytesRead;
      assert content[..next] == content[..i] + content[i..next];
      UpdateConcat(INITIAL, content[..i], content[i..next]);
      return Some((next, Update(register, content[i..next])));
    }

    /** Reads a stream to its end; None when a read fails. */
    static method CalculateCrc(content: Bytes, healthy: bool) returns (r: Option<bv32>)
      ensures r.Some? ==> r.value == Crc.Of(content)
      ensures healthy ==> r.Some?
    {
      var register, i := INITIAL, 0;
      while i < |content|
        invariant 0 <= i <= |content| && register == Update(INITIAL, content[..i])
      {
        var chunk := ReadChunk(content, i, register, healthy);
        if chunk.None? { return None; }
        i, register := chunk.value.0, chunk.value.1;
      }
      assert content[..i] == content;
      return Some(Value(register));
    }

    /** From the cache if it is there, else computed and cached. */
    method GetOrComputeAssetCrc(path: Path) returns (r: Option<bv32>)
      requires Valid() && sApkUpdateDetected != -1
      modifies this`prefs, this`durable
      ensures Valid()
      ensures r.Some? ==> Asset(path).Some? && r.value == Crc.Of(Asset(path).value)
      ensures healthy && Asset(path).Some? ==> r.Some?
    {
      if path in prefs.crcs { return Some(prefs.crcs[path]); }
      if path !in catalog(apk) { return None; }
      r := CalculateCrc(catalog(apk)[path], healthy);
      if r.Some? { CacheAssetCrc(path, r.value); }
    }

    // ---------- file operations, each of which may fail ----------

    /** Every file state since history position n, and the present one, is Whole. */
    ghost predicate Trail(n: nat, start: map<Path, Bytes>, dest: Path, asset: Option<Bytes>)
      reads this`files, this`history
    {
      n <= |history| && Whole(files, start, dest, asset)
      && forall i :: n <= i < |history| ==> Whole(history[i], start, dest, asset)
    }

    /** Does this operation fail? */
    method Fails() returns (fails: bool)
      ensures healthy ==> !fails
    {
      fails := *;
      fails := fails && !healthy;
    }

    method Delete(p: Path) returns (ok: bool)
      modifies this`files, this`history
      ensures ok ==> p in old(files) && files == old(files) - {p} && history == old(history) + [files]
      ensures !ok ==> files == old(files) && history == old(history)
      ensures healthy ==> (ok <==> p in old(files))
    {
      var fails := Fails();
      ok := !fails && p in files;
      if ok {
        files := files - {p};
        history := history + [files];
      }
    }

    /** File.renameTo replaces the target in one step, or changes nothing. */
    method RenameTo(from: Path, to: Path) returns (ok: bool)
      requires from != to
      modifies this`files, this`history
      ensures ok ==> from in old(files) && files == old(files)[to := old(files)[from]] - {from}
      ensures ok ==> history == old(history) + [files]
      ensures !ok ==> files == old(files) && history == old(history)
      ensures healthy ==> (ok <==> from in old(files))
    {
      var fails := Fails();
      ok := !fails && from in files;
      if ok {
        files := files[to := files[from]] - {from};
        history := history + [files];
      }
    }

    method WriteTemp(
        dest: Path, content: Bytes, ghost n: nat, ghost start: map<Path, Bytes>, ghost asset: Option<Bytes>)
      requires Trail(n, start, dest, asset)
      modifies this`files, this`history
      ensures Trail(n, start, dest, asset) && files == old(files)[TempOf(dest) := content]
      ensures Look(files, TempOf(dest)) == Some(content) && Look(files, dest) == Look(old(files), dest)
    {
      files := files[TempOf(dest) := content];
      history := history + [files];
    }

    method NormalizeFileTimestamp(p: Path, stamp: int)
      modifies this`modTime
    {
      var ok: bool := *;
      if ok { modTime := modTime[p := stamp]; }
    }

    // ---------- the copy ----------

    /** One round of the copying loop: read, then write an arbitrary part of what is in the buffer. */
    method CopyChunk(content: Bytes, i: nat, register: bv32, dest: Path, ghost n: nat, ghost start: map<Path, Bytes>,
                     ghost asset: Option<Bytes>, ghost before: map<Path, Bytes>) returns (r: Option<(nat, bv32)>)
      requires i < |content| && register == Update(INITIAL, content[..i])
      requires Trail(n, start, dest, asset) && OnlyTemp(files, before, dest)
      modifies this`files, this`history
      ensures Trail(n, start, dest, asset) && OnlyTemp(files, before, dest)
      ensures r.Some? ==> i < r.value.0 <= |content| && r.value.1 == Update(INITIAL, content[..r.value.0])
      ensures healthy ==> r.Some?
    {
      r := ReadChunk(content, i, register, healthy);
      if r.None? { return; }
      var partial: Bytes := *;
      WriteTemp(dest, partial, n, start, asset);
      var fails := Fails();
      if fails { return None; }
    }

    /**
     Opens asset and temp file, copies chunk by chunk, flushes, forces, closes.  Until the flush has
     worked the temp file holds an arbitrary part of what was written.
     */
    method CopyToTemp(path: Path, dest: Path, ghost n: nat, ghost start: map<Path, Bytes>) returns (crc: Option<bv32>)
      requires Trail(n, start, dest, Asset(path))
      modifies this`files, this`history
      ensures Trail(n, start, dest, Asset(path)) && Look(files, dest) == Look(old(files), dest)
      ensures crc.Some? ==> Asset(path).Some? && Look(files, TempOf(dest)) == Asset(path)
      ensures crc.Some? ==> crc.value == Crc.Of(Asset(path).value)
      ensures healthy ==> (crc.Some? <==> Asset(path).Some?)
      ensures crc.Some? ==> files == old(files)[TempOf(dest) := Asset(path).value]
    {
      hide Whole, Trail, Update, OnlyTemp;
      ghost var asset := Asset(path);
      var fails := Fails();
      if fails || path !in catalog(apk) { return None; }         // open the asset, open the temp file
      var content := catalog(apk)[path];
      WriteTemp(dest, [], n, start, asset);
      TempWritten(files, old(files), dest);
      UpdateNothing(INITIAL);
      assert content[..0] == [];
      var register, i := INITIAL, 0;
      while i < |content|
        invariant 0 <= i <= |content| && register == Update(INITIAL, content[..i])
        invariant Trail(n, start, dest, asset) && OnlyTemp(files, old(files), dest)
      {
        var chunk := CopyChunk(content, i, register, dest, n, start, asset, old(files));
        if chunk.None? {
          OnlyTempLook(files, old(files), dest, content);
          return None;
        }
        i, register := chunk.value.0, chunk.value.1;
      }
      OnlyTempLook(files, old(files), dest, content);
      fails := Fails();
      if fails { return None; }                                  // flush
      WriteTemp(dest, content, n, start, asset);
      assert content[..i] == content;
      fails := Fails();
      if fails { return None; }                                  // force, close
      return Some(Value(register));
    }

    /** renameTo, or else delete the destination and rename, or else drop the temp file. */
    method MoveIntoPlace(dest: Path, ghost n: nat, ghost start: map<Path, Bytes>, ghost asset: Option<Bytes>)
      returns (moved: bool)
      requires Trail(n, start, dest, asset) && asset.Some? && Look(files, TempOf(dest)) == asset
      requires Look(files, dest) == Look(start, dest)
      modifies this`files, this`history
      ensures Trail(n, start, dest, asset)
      ensures moved ==> Look(files, dest) == asset
      ensures healthy ==> moved && files == old(files)[dest := asset.value] - {TempOf(dest)}
      ensures !moved ==> Look(files, dest) == Look(start, dest) || Look(files, dest) == None
    {
      var temp := TempOf(dest);
      moved := RenameTo(temp, dest);
      if moved { return; }
      var gone := Delete(dest);
      if gone { moved := RenameTo(temp, dest); }
      if !moved {
        var _ := Delete(temp);
      }
    }

    /** None is an exception: then the destination is the old file or absent. */
    method CopyAssetStream(path: Path, dest: Path, stamp: int) returns (crc: Option<bv32>)
      modifies this`files, this`history, this`modTime
      ensures Trail(old(|history|), old(files), dest, Asset(path))
      ensures crc.Some? ==> Asset(path).Some? && Look(files, dest) == Asset(path)
      ensures crc.Some? ==> crc.value == Crc.Of(Asset(path).value)
      ensures crc.None? ==> Look(files, dest) == Look(old(files), dest) || Look(files, dest) == None
      ensures healthy && Asset(path).Some? ==>
        crc.Some? && files == old(files)[dest := Asset(path).value] - {TempOf(dest)}
    {
      ghost var n, start, asset := |history|, files, Asset(path);
      var temp := TempOf(dest);
      if temp in files {
        var ok := Delete(temp);
        if !ok { return None; }
      }
      crc := CopyToTemp(path, dest, n, start);
      if crc.None? {
        var _ := Delete(temp);
        return;
      }
      var moved := MoveIntoPlace(dest, n, start, asset);
      if !moved { return None; }
      var now: int := *;
      modTime := modTime[dest := now];
      NormalizeFileTimestamp(dest, stamp);
    }

    // ---------- deciding whether to copy ----------

    /** The native size query; -1 when it fails. */
    method GetAssetSize(path: Path, fails: bool) returns (size: int)
      ensures size == if fails || Asset(path).None? then -1 else |Asset(path).value|
    {
      size := if fails || path !in catalog(apk) then -1 else |catalog(apk)[path]|;
    }

    /** None when reading either side fails. */
    method VerifyContentMatch(path: Path, dest: Path) returns (r: Option<bool>)
      requires dest in files
      ensures r.Some? ==> Asset(path).Some? && (r.value <==> Crc.Of(Asset(path).value) == Crc.Of(files[dest]))
      ensures healthy && Asset(path).Some? ==> r.Some?
    {
      if path !in catalog(apk) { return None; }
      var assetCrc := CalculateCrc(catalog(apk)[path], healthy);
      if assetCrc.None? { return None; }
      var fileCrc := CalculateCrc(files[dest], healthy);
      if fileCrc.None? { return None; }
      return Some(assetCrc == fileCrc);
    }

    /** OVERRIDE_IF_MODIFIED, once the sizes agree. */
    method SkipIfNotModified(path: Path, dest: Path, assetSize: int) returns (skip: Option<bool>)
      requires Valid() && dest in files
      requires Asset(path).Some? && assetSize == |Asset(path).value| == |files[dest]|
      modifies this`modTime, this`sApkLastUpdateTime
      ensures Valid()
      ensures skip == Some(true) ==>
        Promise(OverrideIfModified, Look(files, dest), Look(files, dest), Asset(path), old(StampOf(dest)),
                apk.lastUpdate)
      ensures skip.Some? ==> (skip.value <==>
        Keeps(OverrideIfModified, files[dest], Asset(path), false, false, old(StampOf(dest)), apk.lastUpdate))
      ensures healthy ==> skip.Some?
    {
      var assetModTime := GetApkLastUpdateTime();
      var fileModTime := StampOf(dest);
      if assetModTime > fileModTime { return Some(false); }
      if fileModTime > assetModTime {
        if !IsLegacyManagedTimestamp(assetModTime, fileModTime) { return Some(true); }
        if !ShouldVerifyContent(assetSize) { return Some(false); }
        skip := VerifyContentMatch(path, dest);
        if skip == Some(true) { NormalizeFileTimestamp(dest, assetModTime); }
        return;
      }
      if !ShouldVerifyContent(assetSize) { return Some(true); }
      skip := VerifyContentMatch(path, dest);
    }

    /** Will this process find, or has it found, that the package is not the one of the preferences? */
    ghost predicate IsNewPackage()
      reads this`apk, this`prefs, this`sApkUpdateDetected
    {
      if sApkUpdateDetected == -1 then Updated(prefs, apk) else sApkUpdateDetected == 1
    }

    method SkipIfContentUnchanged(path: Path, dest: Path) returns (skip: Option<bool>)
      requires Valid() && dest in files
      modifies this`prefs, this`durable, this`sApkUpdateDetected, this`sApkLastUpdateTime
      ensures Valid()
      ensures skip == Some(true) ==> Asset(path).Some? && Crc.Of(files[dest]) == Crc.Of(Asset(path).value)
      ensures skip.Some? ==> (skip.value <==>
        !old(IsNewPackage()) && Asset(path).Some? && Crc.Of(files[dest]) == Crc.Of(Asset(path).value))
      ensures healthy && Asset(path).Some? ==> skip.Some?
    {
      var apkUpdated := EnsureApkInfoSynced();
      if apkUpdated { return Some(false); }
      var assetCrc := GetOrComputeAssetCrc(path);
      if assetCrc.None? { return None; }
      var destCrc := CalculateCrc(files[dest], healthy);
      if destCrc.None? { return None; }
      return Some(assetCrc == destCrc);
    }

    /** None is an exception; noSize says whether the size query fails. */
    method ShouldSkipCopy(path: Path, dest: Path, mode: CopyMode, noSize: bool) returns (skip: Option<bool>)
      requires Valid()
      modifies this`modTime, this`prefs, this`durable, this`sApkUpdateDetected, this`sApkLastUpdateTime
      ensures Valid()
      ensures skip == Some(true) ==> dest in files
      ensures skip == Some(true) ==>
        Promise(mode, Look(files, dest), Look(files, dest), Asset(path), old(StampOf(dest)), apk.lastUpdate)
      ensures dest !in files ==> skip == Some(false)
      ensures dest in files && skip.Some? ==> (skip.value <==>
        Keeps(mode, files[dest], Asset(path), noSize, old(IsNewPackage()), old(StampOf(dest)), apk.lastUpdate))
      ensures healthy && Asset(path).Some? ==> skip.Some?
    {
      if dest !in files { return Some(false); }
      var assetSize := GetAssetSize(path, noSize);
      var fails := Fails();
      if fails { return None; }
      var fileSize := |files[dest]|;
      match mode
      case CopyIfDestNotExists => skip := Some(true);
      case OverrideIfDestSizeNotMatched => skip := Some(assetSize == fileSize);
      case OverrideForced => skip := Some(false);
      case OverrideIfModified =>
        if assetSize != fileSize { skip := Some(false); } else { skip := SkipIfNotModified(path, dest, assetSize); }
      case OverrideIfContentChanged => skip := SkipIfContentUnchanged(path, dest);
    }

    // ---------- copyAssetFile ----------

    /** The copy proper, after the parent directory exists; the CRC is cached in content mode only. */
    method PerformCopy(mode: CopyMode, path: Path, dest: Path) returns (ok: bool)
      requires Valid()
      modifies this`files, this`history, this`modTime
      modifies this`prefs, this`durable, this`sApkUpdateDetected, this`sApkLastUpdateTime
      ensures Valid()
      ensures Trail(old(|history|), old(files), dest, Asset(path))
      ensures ok ==> Asset(path).Some? && Look(files, dest) == Asset(path)
      ensures !ok ==> Look(files, dest) == Look(old(files), dest) || Look(files, dest) == None
      ensures healthy && Asset(path).Some? ==>
        ok && files == old(files)[dest := Asset(path).value] - {TempOf(dest)}
    {
      var computeCrc := mode.OverrideIfContentChanged?;
      if computeCrc { var _ := EnsureApkInfoSynced(); }
      var stamp := GetApkLastUpdateTime();
      var crc := CopyAssetStream(path, dest, stamp);
      if crc.Some? && computeCrc { CacheAssetCrc(path, crc.value); }
      ok := crc.Some?;
    }

    /** Removing the destination keeps the trail. */
    method CleanUp(dest: Path, ghost n: nat, ghost start: map<Path, Bytes>, ghost asset: Option<Bytes>)
      requires Trail(n, start, dest, asset)
      requires Look(files, dest) == Look(start, dest) || Look(files, dest) == None
      modifies this`files, this`history
      ensures Trail(n, start, dest, asset)
      ensures Look(files, dest) == Look(start, dest) || Look(files, dest) == None
    {
      var _ := Delete(dest);
    }

    /**
     Whatever fails, and at every moment in between, the destination is the whole old file, the whole
     asset or absent; and success means what the mode promises.  If nothing fails, an existing asset is
     copied, and nothing else changes, unless the mode keeps the destination.
     */
    method CopyAssetFile(mode: CopyMode, path: Path, dest: Path) returns (ok: bool)
      requires Valid()
      modifies this`files, this`history, this`modTime
      modifies this`prefs, this`durable, this`sApkUpdateDetected, this`sApkLastUpdateTime
      ensures Valid()
      ensures Trail(old(|history|), old(files), dest, Asset(path))
      ensures ok ==> Promise(mode, Look(old(files), dest), Look(files, dest), Asset(path),
                             old(StampOf(dest)), apk.lastUpdate)
      ensures ok && mode.OverrideIfContentChanged? ==>
        dest in files && Asset(path).Some? && Crc.Of(files[dest]) == Crc.Of(Asset(path).value)
      ensures !ok ==> Look(files, dest) == Look(old(files), dest) || Look(files, dest) == None
      ensures healthy && path != "" && dest != "" && Asset(path).Some? ==>
        && ok
        && files ==
           if dest in old(files) && Keeps(mode, old(files)[dest], Asset(path), false, old(IsNewPackage()),
                                          old(StampOf(dest)), apk.lastUpdate)
           then old(files)
           else old(files)[dest := Asset(path).value] - {TempOf(dest)}
    {
      if path == "" || dest == "" { return false; }
      var noSize := Fails();
      var skip := ShouldSkipCopy(path, dest, mode, noSize);
      if skip.Some? && skip.value { return true; }
      ok := false;
      if skip.Some? {
        var noParent := Fails();
        if noParent { return false; }
        ok := PerformCopy(mode, path, dest);
      }
      if !ok { CleanUp(dest, old(|history|), old(files), Asset(path)); }
    }
  }
}
