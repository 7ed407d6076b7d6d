/** The filesystem as the image transformer sees it, the per-directory
    filename-to-path map built from one `readdir`, and the first-wins merge
    of several such maps. */
module FileMaps {
  import opened Wrappers
  import opened Paths

  /** What `fs.stat` reports for a directory entry; `Vanished` is an entry
      whose `stat` throws (removed between `readdir` and `stat`). */
  datatype EntryKind = RegularFile | Directory | OtherKind | Vanished

  datatype DirEntry = DirEntry(name: string, kind: EntryKind)

  /** The listing of every readable directory, keyed by resolved path, in
      `readdir` order. A path that is not a key cannot be read. */
  type Listings = map<string, seq<DirEntry>>

  /** Filename to absolute path, for one directory's immediate plain files. */
  type FileMap = map<string, string>

  /** One entry of the merged map: where the file is and which of the
      caller's directories (as the caller wrote it) supplied it. */
  datatype Resolution = Resolution(fullPath: string, sourceDir: string)

  type MergedMap = map<string, Resolution>

  /** The `readdir` + `stat` body of the per-directory read: the map of plain
      files, or None when `readdir` fails or any entry's `stat` fails (one
      rejected promise rejects the whole `Promise.all`). */
  function ReadFileMap(fs: Listings, resolved: string): (r: Option<FileMap>)
    ensures r.None? <==> resolved !in fs || AnyVanished(fs[resolved])
    ensures r.Some? ==> forall name :: name in r.value <==> ListsPlainFile(fs[resolved], name)
    ensures r.Some? ==> forall name :: name in r.value ==> r.value[name] == Join(resolved, name)
  {
    if resolved !in fs then None else FileMapOf(resolved, fs[resolved])
  }

  predicate AnyVanished(entries: seq<DirEntry>) {
    exists k :: 0 <= k < |entries| && entries[k].kind == Vanished
  }

  predicate ListsPlainFile(entries: seq<DirEntry>, name: string) {
    exists k :: 0 <= k < |entries| && entries[k] == DirEntry(name, RegularFile)
  }

  /** The `stat` callbacks applied to the entries in order. */
  function FileMapOf(dir: string, entries: seq<DirEntry>): (r: Option<FileMap>)
    ensures r.None? <==> AnyVanished(entries)
    ensures r.Some? ==> forall name :: name in r.value <==> ListsPlainFile(entries, name)
    ensures r.Some? ==> forall name :: name in r.value ==> r.value[name] == Join(dir, name)
    decreases |entries|
  {
    if |entries| == 0 then Some(map[])
    else
      var init := entries[..|entries| - 1];
      var last := entries[|entries| - 1];
      assert forall k :: 0 <= k < |init| ==> init[k] == entries[k];
      match FileMapOf(dir, init)
      case None => None
      case Some(m) =>
        if last.kind == Vanished then None
        else if last.kind == RegularFile then Some(m[last.name := Join(dir, last.name)])
        else Some(m)
  }

  /** The source's merge loop: each directory's map is folded into `acc` in
      order, and a name already present keeps its entry. */
  function MergeInto(acc: MergedMap, dirs: seq<string>, maps: seq<FileMap>): (r: MergedMap)
    requires |dirs| == |maps|
    ensures forall name :: name in acc ==> name in r && r[name] == acc[name]
    decreases |maps|
  {
    if |maps| == 0 then acc
    else
      var added := map name | name in maps[0] && name !in acc :: Resolution(maps[0][name], dirs[0]);
      MergeInto(acc + added, dirs[1..], maps[1..])
  }

  /** The merged map of `maps`, read from `dirs` in priority order. */
  function Merge(dirs: seq<string>, maps: seq<FileMap>): (r: MergedMap)
    requires |dirs| == |maps|
    ensures forall name :: name in r <==> AnyHolds(maps, name)
  {
    MergeIntoFirstWins(map[], dirs, maps);
    MergeInto(map[], dirs, maps)
  }

  /** Directory `i` is the first in the list whose map has `name`. */
  ghost predicate FirstHolder(maps: seq<FileMap>, name: string, i: int) {
    0 <= i < |maps| && name in maps[i] && forall j :: 0 <= j < i ==> name !in maps[j]
  }

  /** Some directory in the list has `name`. */
  ghost predicate AnyHolds(maps: seq<FileMap>, name: string) {
    exists i :: 0 <= i < |maps| && name in maps[i]
  }

  /** The fold keeps what `acc` has and otherwise takes the first directory that has the name. */
  lemma {:induction false} MergeIntoFirstWins(acc: MergedMap, dirs: seq<string>, maps: seq<FileMap>)
    requires |dirs| == |maps|
    ensures forall name :: name in MergeInto(acc, dirs, maps) <==> name in acc || AnyHolds(maps, name)
    ensures forall name :: name in acc ==> MergeInto(acc, dirs, maps)[name] == acc[name]
    ensures forall name, i :: name !in acc && FirstHolder(maps, name, i) ==>
              name in MergeInto(acc, dirs, maps) &&
              MergeInto(acc, dirs, maps)[name] == Resolution(maps[i][name], dirs[i])
    decreases |maps|
  {
    if |maps| > 0 {
      var added := map name | name in maps[0] && name !in acc :: Resolution(maps[0][name], dirs[0]);
      var acc' := acc + added;
      MergeIntoFirstWins(acc', dirs[1..], maps[1..]);
      var r := MergeInto(acc, dirs, maps);
      assert r == MergeInto(acc', dirs[1..], maps[1..]);
      forall name
        ensures name in r <==> name in acc || AnyHolds(maps, name)
      {
        if AnyHolds(maps[1..], name) {
          var i :| 0 <= i < |maps[1..]| && name in maps[1..][i];
          assert name in maps[i + 1];
        }
        if AnyHolds(maps, name) && name !in maps[0] {
          var i :| 0 <= i < |maps| && name in maps[i];
          assert i > 0 && name in maps[1..][i - 1];
        }
      }
      forall name, i | name !in acc && FirstHolder(maps, name, i)
        ensures name in r && r[name] == Resolution(maps[i][name], dirs[i])
      {
        if i > 0 {
          assert name !in maps[0];
          assert FirstHolder(maps[1..], name, i - 1);
        }
      }
    }
  }

  /** First directory wins: a name is in the merged map exactly when some
      directory has it, and then it maps to the earliest such directory's
      path with that directory as its source. */
  lemma MergeFirstWins(dirs: seq<string>, maps: seq<FileMap>, name: string)
    requires |dirs| == |maps|
    ensures name in Merge(dirs, maps) <==> AnyHolds(maps, name)
    ensures forall i :: FirstHolder(maps, name, i) ==>
              name in Merge(dirs, maps) && Merge(dirs, maps)[name] == Resolution(maps[i][name], dirs[i])
  {
    MergeIntoFirstWins(map[], dirs, maps);
  }
}
