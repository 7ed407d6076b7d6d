/** The image transformer's configuration and its per-directory cache:
    construction defaults, the cached directory read with lazily checked
    TTL expiry, the sequential fetch of several directories, and
    invalidation. */
module TransformerCache {
  import opened Wrappers
  import opened Paths
  import opened FileMaps

  /** Default cache lifetime in milliseconds. */
  const DefaultCacheTTL: int := 60000

  /** Constructor options; None is an option left undefined. */
  datatype Options = Options(cache: Option<bool>, cacheTTL: Option<int>)

  datatype CacheEntry = CacheEntry(timestamp: int, fileMap: FileMap)

  /** The transformer object: whether caching is on, the TTL (0 means
      entries never expire) and the cache keyed by resolved directory. */
  datatype Transformer = Transformer(cacheEnabled: bool, cacheTTL: int, entries: map<string, CacheEntry>)

  /** What the process observes during one call: the filesystem, its
      working directory and the value of `Date.now()`. */
  datatype Host = Host(fs: Listings, cwd: string, now: int)

  /** One directory argument, or a list of them. */
  datatype DirsArg = OneDir(dir: string) | DirList(dirs: seq<string>)

  function DirsOf(arg: DirsArg): seq<string>
  {
    match arg
    case OneDir(d) => [d]
    case DirList(ds) => ds
  }

  predicate SameConfig(a: Transformer, b: Transformer) {
    a.cacheEnabled == b.cacheEnabled && a.cacheTTL == b.cacheTTL
  }

  /** The constructor: caching is on unless explicitly switched off, the TTL
      defaults to one minute, and the cache starts empty. */
  function New(options: Options): (t: Transformer)
    ensures t.cacheEnabled <==> options.cache != Some(false)
    ensures options.cacheTTL.None? ==> t.cacheTTL == DefaultCacheTTL
    ensures options.cacheTTL.Some? ==> t.cacheTTL == options.cacheTTL.value
    ensures t.entries == map[]
  {
    Transformer(options.cache != Some(false), options.cacheTTL.GetOr(DefaultCacheTTL), map[])
  }

  /** An entry is still valid at `now`: TTL 0, or younger than the TTL. */
  predicate IsFresh(t: Transformer, e: CacheEntry, now: int) {
    t.cacheTTL == 0 || now - e.timestamp < t.cacheTTL
  }

  /** The cached map for `resolved` is returned without reading the disk. */
  predicate ServesFromCache(t: Transformer, resolved: string, now: int) {
    t.cacheEnabled && resolved in t.entries && IsFresh(t, t.entries[resolved], now)
  }

  /** The result of one per-directory fetch: the transformer afterwards, the
      file map handed back, and whether the directory was read. */
  datatype Fetch = Fetch(state: Transformer, fileMap: FileMap, readDisk: bool)

  /** The cached per-directory read. */
  function GetFileMap(t: Transformer, host: Host, dir: string): (r: Fetch)
    ensures SameConfig(r.state, t)
    ensures r.readDisk <==> !ServesFromCache(t, Resolve(host.cwd, dir), host.now)
    ensures !r.readDisk ==> r.state == t && r.fileMap == t.entries[Resolve(host.cwd, dir)].fileMap
    ensures r.readDisk && ReadFileMap(host.fs, Resolve(host.cwd, dir)).None? ==>
              r.fileMap == map[] && r.state == t
    ensures r.readDisk && ReadFileMap(host.fs, Resolve(host.cwd, dir)).Some? ==>
              var resolved := Resolve(host.cwd, dir);
              && (forall name :: name in r.fileMap <==> ListsPlainFile(host.fs[resolved], name))
              && (forall name :: name in r.fileMap ==> r.fileMap[name] == Join(resolved, name))
              && r.state.entries == (if t.cacheEnabled then t.entries[resolved := CacheEntry(host.now, r.fileMap)] else t.entries)
  {
    var resolved := Resolve(host.cwd, dir);
    if ServesFromCache(t, resolved, host.now) then
      Fetch(t, t.entries[resolved].fileMap, false)
    else
      match ReadFileMap(host.fs, resolved)
      case None => Fetch(t, map[], true)
      case Some(m) =>
        var stored := if t.cacheEnabled then t.(entries := t.entries[resolved := CacheEntry(host.now, m)]) else t;
        Fetch(stored, m, true)
  }

  /** The current contents of a directory as a fresh read reports them. */
  function CurrentMap(host: Host, resolved: string): FileMap
  {
    ReadFileMap(host.fs, resolved).GetOr(map[])
  }

  /** Every entry of `t` is either one `t0` already had or a fresh read of
      its directory stored at `host.now`. */
  ghost predicate CacheDerived(t0: Transformer, t: Transformer, host: Host) {
    forall key :: key in t.entries ==>
      (key in t0.entries && t.entries[key] == t0.entries[key]) ||
      t.entries[key] == CacheEntry(host.now, CurrentMap(host, key))
  }

  /** The maps fetched for a directory list in order, the transformer after
      the last fetch, and the resolved directories actually read. */
  datatype Batch = Batch(state: Transformer, maps: seq<FileMap>, dirsRead: seq<string>)

  /** The per-directory fetches of the merge loop, one after another. */
  function FetchAll(t: Transformer, host: Host, dirs: seq<string>): (b: Batch)
    ensures |b.maps| == |dirs|
    ensures SameConfig(b.state, t)
    ensures |b.dirsRead| <= |dirs|
    ensures !t.cacheEnabled ==> b.state == t && |b.dirsRead| == |dirs|
    ensures !t.cacheEnabled ==> forall i :: 0 <= i < |dirs| ==> b.maps[i] == CurrentMap(host, Resolve(host.cwd, dirs[i]))
    decreases |dirs|
  {
    if |dirs| == 0 then Batch(t, [], [])
    else
      var f := GetFileMap(t, host, dirs[0]);
      var rest := FetchAll(f.state, host, dirs[1..]);
      var read := if f.readDisk then [Resolve(host.cwd, dirs[0])] else [];
      Batch(rest.state, [f.fileMap] + rest.maps, read + rest.dirsRead)
  }

  /** The merged map together with the transformer afterwards and the directories read. */
  datatype MergedFetch = MergedFetch(state: Transformer, merged: MergedMap, maps: seq<FileMap>, dirsRead: seq<string>)

  /** The source's `_getMergedFileMap`: fetch every directory in order and merge, first directory winning. */
  function GetMergedFileMap(t: Transformer, host: Host, dirs: seq<string>): (r: MergedFetch)
    ensures |r.maps| == |dirs|
    ensures var b := FetchAll(t, host, dirs);
            r.maps == b.maps && r.state == b.state && r.dirsRead == b.dirsRead
    ensures forall name :: name in r.merged <==> AnyHolds(r.maps, name)
    ensures forall name, i :: FirstHolder(r.maps, name, i) ==>
              name in r.merged && r.merged[name] == Resolution(r.maps[i][name], dirs[i])
  {
    var b := FetchAll(t, host, dirs);
    var merged := Merge(dirs, b.maps);
    forall name
      ensures (name in merged <==> AnyHolds(b.maps, name))
      ensures forall i :: FirstHolder(b.maps, name, i) ==> name in merged && merged[name] == Resolution(b.maps[i][name], dirs[i])
    {
      MergeFirstWins(dirs, b.maps, name);
    }
    MergedFetch(b.state, merged, b.maps, b.dirsRead)
  }

  /** The cache with the resolved form of every listed directory removed. */
  function DeleteAll(entries: map<string, CacheEntry>, cwd: string, dirs: seq<string>): (r: map<string, CacheEntry>)
    ensures r.Keys == entries.Keys - ResolvedSet(cwd, dirs)
    ensures forall key :: key in r ==> r[key] == entries[key]
    decreases |dirs|
  {
    if |dirs| == 0 then entries
    else
      var rest := DeleteAll(entries - {Resolve(cwd, dirs[0])}, cwd, dirs[1..]);
      assert ResolvedSet(cwd, dirs) == {Resolve(cwd, dirs[0])} + ResolvedSet(cwd, dirs[1..]) by {
        assert dirs == [dirs[0]] + dirs[1..];
      }
      rest
  }

  function ResolvedSet(cwd: string, dirs: seq<string>): set<string>
  {
    set d | d in dirs :: Resolve(cwd, d)
  }

  /** An argument JavaScript treats as false: undefined, or the empty string. */
  predicate IsFalsy(arg: Option<DirsArg>) {
    arg.None? || arg == Some(OneDir(""))
  }

  /** The source's `clearCache`: a falsy argument empties the cache;
      otherwise exactly the resolved listed directories are dropped. */
  function ClearCache(t: Transformer, cwd: string, arg: Option<DirsArg>): (r: Transformer)
    ensures SameConfig(r, t)
    ensures IsFalsy(arg) ==> r.entries == map[]
    ensures !IsFalsy(arg) ==> r.entries.Keys == t.entries.Keys - ResolvedSet(cwd, DirsOf(arg.value))
    ensures forall key :: key in r.entries ==> key in t.entries && r.entries[key] == t.entries[key]
  {
    if IsFalsy(arg) then t.(entries := map[])
    else t.(entries := DeleteAll(t.entries, cwd, DirsOf(arg.value)))
  }

  // ----- lemmas relating several calls -----

  /** Within the TTL a successful read is served again from the cache, even
      if the directory has changed on disk in the meantime. */
  lemma CachedMapSurvivesChanges(t: Transformer, host: Host, later: Host, dir: string)
    requires t.cacheEnabled
    requires ReadFileMap(host.fs, Resolve(host.cwd, dir)).Some?
    requires !ServesFromCache(t, Resolve(host.cwd, dir), host.now)
    requires later.cwd == host.cwd
    requires t.cacheTTL == 0 || later.now - host.now < t.cacheTTL
    ensures var first := GetFileMap(t, host, dir);
            var second := GetFileMap(first.state, later, dir);
            !second.readDisk && second.fileMap == first.fileMap && second.state == first.state
  {
  }

  /** Once the TTL has elapsed the next fetch reads the directory again and
      restamps the entry with the new time. */
  lemma ExpiredEntryIsReread(t: Transformer, host: Host, later: Host, dir: string)
    requires t.cacheEnabled && t.cacheTTL != 0
    requires ReadFileMap(host.fs, Resolve(host.cwd, dir)).Some?
    requires ReadFileMap(later.fs, Resolve(host.cwd, dir)).Some?
    requires !ServesFromCache(t, Resolve(host.cwd, dir), host.now)
    requires later.cwd == host.cwd
    requires later.now - host.now >= t.cacheTTL
    ensures var first := GetFileMap(t, host, dir);
            var second := GetFileMap(first.state, later, dir);
            && second.readDisk
            && second.fileMap == CurrentMap(later, Resolve(host.cwd, dir))
            && second.state.entries[Resolve(host.cwd, dir)] == CacheEntry(later.now, second.fileMap)
  {
  }

  /** After `clearCache` names a directory, by the name used to fetch it or
      by its resolved path, the next fetch reads the directory again. */
  lemma ClearedEntryIsReread(t: Transformer, host: Host, dir: string, byResolvedPath: bool)
    ensures var named := if byResolvedPath then Resolve(host.cwd, dir) else dir;
            var cleared := ClearCache(t, host.cwd, Some(OneDir(named)));
            GetFileMap(cleared, host, dir).readDisk
  {
    var named := if byResolvedPath then Resolve(host.cwd, dir) else dir;
    ResolveIdempotent(host.cwd, dir);
    assert Resolve(host.cwd, named) == Resolve(host.cwd, dir);
    assert Resolve(host.cwd, named) in ResolvedSet(host.cwd, DirsOf(OneDir(named)));
  }

  /** One fetch keeps the cache derived from `t0`, and hands back either
      what `t0` had cached for the directory or its current contents. */
  lemma GetFileMapDerived(t0: Transformer, t: Transformer, host: Host, dir: string)
    requires CacheDerived(t0, t, host)
    ensures var f := GetFileMap(t, host, dir);
            var resolved := Resolve(host.cwd, dir);
            && CacheDerived(t0, f.state, host)
            && (f.fileMap == CurrentMap(host, resolved) ||
                (resolved in t0.entries && f.fileMap == t0.entries[resolved].fileMap))
  {
  }

  /** With caching on, each directory's map in a batch is either the entry
      the cache held before the call or the directory's current contents. */
  lemma {:induction false} FetchAllCachedOrCurrent(t0: Transformer, t: Transformer, host: Host, dirs: seq<string>)
    requires CacheDerived(t0, t, host)
    ensures var b := FetchAll(t, host, dirs);
            forall i :: 0 <= i < |dirs| ==>
              var resolved := Resolve(host.cwd, dirs[i]);
              b.maps[i] == CurrentMap(host, resolved) ||
              (resolved in t0.entries && b.maps[i] == t0.entries[resolved].fileMap)
    decreases |dirs|
  {
    if |dirs| > 0 {
      var f := GetFileMap(t, host, dirs[0]);
      GetFileMapDerived(t0, t, host, dirs[0]);
      FetchAllCachedOrCurrent(t0, f.state, host, dirs[1..]);
      var b := FetchAll(t, host, dirs);
      forall i | 0 <= i < |dirs|
        ensures var resolved := Resolve(host.cwd, dirs[i]);
                b.maps[i] == CurrentMap(host, resolved) ||
                (resolved in t0.entries && b.maps[i] == t0.entries[resolved].fileMap)
      {
        if i > 0 {
          assert b.maps[i] == FetchAll(f.state, host, dirs[1..]).maps[i - 1];
          assert dirs[i] == dirs[1..][i - 1];
        }
      }
    }
  }
}
