/** The open-directory handler: the recursive collection of markdown files
    under the chosen folder, and the shape of the handler's reply. */
module OpenDirectory {
  import opened Wrappers
  import opened Strings
  import opened Paths

  /** A directory entry as `readdir(..., { withFileTypes: true })` reports
      it: a directory with what reading it yields, or any other entry. */
  datatype Entry = Leaf(name: string) | Folder(name: string, contents: Listing)

  /** The outcome of reading one directory: its entries in `readdir` order,
      or a failure. */
  datatype Listing = Unreadable | Entries(entries: seq<Entry>)

  /** One collected file, `{ name, path }`. */
  datatype MarkdownFile = MarkdownFile(name: string, path: string)

  /** A hidden name: it starts with '.'. */
  predicate IsHidden(name: string) {
    |name| > 0 && name[0] == '.'
  }

  /** The lower-cased extension is ".md". */
  predicate IsMarkdownName(name: string) {
    Lower(ExtName(name)) == ".md"
  }

  /** The source's `readMarkdownFiles(dir)`: the flat, in-order list of
      markdown files below `dir`. */
  function ReadMarkdownFiles(dir: string, listing: Listing): (files: seq<MarkdownFile>)
    ensures forall i :: 0 <= i < |files| ==> IsMarkdownName(files[i].name)
    decreases listing
  {
    match listing
    case Unreadable => []
    case Entries(entries) => CollectEntries(dir, entries)
  }

  /** The per-entry results concatenated in listing order (`files.flat()`). */
  function CollectEntries(dir: string, entries: seq<Entry>): (files: seq<MarkdownFile>)
    ensures forall i :: 0 <= i < |files| ==> IsMarkdownName(files[i].name)
    decreases entries
  {
    if |entries| == 0 then []
    else EntryFiles(dir, entries[0]) + CollectEntries(dir, entries[1..])
  }

  /** One entry's contribution: a hidden directory gives nothing, any other
      directory its own collection, a markdown file itself. */
  function EntryFiles(dir: string, e: Entry): (files: seq<MarkdownFile>)
    ensures forall i :: 0 <= i < |files| ==> IsMarkdownName(files[i].name)
    decreases e
  {
    match e
    case Folder(name, contents) =>
      if IsHidden(name) then [] else ReadMarkdownFiles(Join(dir, name), contents)
    case Leaf(name) =>
      if IsMarkdownName(name) then [MarkdownFile(name, Join(dir, name))] else []
  }

  /** The folder dialog's answer. */
  datatype DialogResult = DialogResult(canceled: bool, filePaths: seq<string>)

  /** The reply sent to the renderer. */
  datatype Workspace = Workspace(name: string, path: string, files: seq<MarkdownFile>)

  /** What reading each folder path yields; a path not in the map cannot be read. */
  type Volume = map<string, Listing>

  function ListingAt(volume: Volume, path: string): Listing
  {
    if path in volume then volume[path] else Unreadable
  }

  /** The `dialog:openDirectory` handler after the dialog has answered. */
  function OpenDirectory(dialog: DialogResult, volume: Volume): (r: Option<Workspace>)
    ensures r.None? <==> dialog.canceled || |dialog.filePaths| == 0
    ensures r.Some? ==> r.value.path == dialog.filePaths[0]
    ensures r.Some? ==> r.value.name == Basename(dialog.filePaths[0])
    ensures r.Some? ==> r.value.files == ReadMarkdownFiles(dialog.filePaths[0], ListingAt(volume, dialog.filePaths[0]))
  {
    if dialog.canceled || |dialog.filePaths| == 0 then None
    else
      var root := dialog.filePaths[0];
      Some(Workspace(Basename(root), root, ReadMarkdownFiles(root, ListingAt(volume, root))))
  }

  // ----- an independent description: walk everything, then filter -----

  /** A non-directory entry met by the walk: the directory names on the way
      down from the root, its name, and its path. */
  datatype WalkItem = WalkItem(route: seq<string>, name: string, path: string)

  /** Every non-directory entry of every readable directory, hidden
      directories included, in listing order. */
  function Walk(dir: string, listing: Listing): seq<WalkItem>
    decreases listing
  {
    match listing
    case Unreadable => []
    case Entries(entries) => WalkEntries(dir, entries)
  }

  function WalkEntries(dir: string, entries: seq<Entry>): seq<WalkItem>
    decreases entries
  {
    if |entries| == 0 then []
    else WalkEntry(dir, entries[0]) + WalkEntries(dir, entries[1..])
  }

  function WalkEntry(dir: string, e: Entry): seq<WalkItem>
    decreases e
  {
    match e
    case Folder(name, contents) => Under(name, Walk(Join(dir, name), contents))
    case Leaf(name) => [WalkItem([], name, Join(dir, name))]
  }

  /** The items with `name` added at the top of their routes. */
  function Under(name: string, items: seq<WalkItem>): (r: seq<WalkItem>)
    ensures |r| == |items|
    ensures forall i :: 0 <= i < |items| ==> r[i] == items[i].(route := [name] + items[i].route)
  {
    seq(|items|, i requires 0 <= i < |items| => items[i].(route := [name] + items[i].route))
  }

  /** The path reached from `dir` through the directories of `route`. */
  function JoinAll(dir: string, route: seq<string>): string
    decreases |route|
  {
    if |route| == 0 then dir else JoinAll(Join(dir, route[0]), route[1..])
  }

  /** No directory on the route is hidden. */
  predicate VisibleRoute(route: seq<string>) {
    forall k :: 0 <= k < |route| ==> !IsHidden(route[k])
  }

  /** The walk item is one the collector keeps. */
  predicate Kept(it: WalkItem) {
    VisibleRoute(it.route) && IsMarkdownName(it.name)
  }

  /** What one walk item contributes to the collection. */
  function KeepOne(it: WalkItem): seq<MarkdownFile>
  {
    if Kept(it) then [MarkdownFile(it.name, it.path)] else []
  }

  /** The walk items that the collector keeps. */
  function Keep(items: seq<WalkItem>): seq<MarkdownFile>
    decreases |items|
  {
    if |items| == 0 then [] else KeepOne(items[0]) + Keep(items[1..])
  }

  // ----- lemmas -----

  /** Keeping distributes over concatenation, so order is preserved. */
  lemma {:induction false} KeepAppend(a: seq<WalkItem>, b: seq<WalkItem>)
    ensures Keep(a + b) == Keep(a) + Keep(b)
    decreases |a|
  {
    if |a| > 0 {
      assert (a + b)[0] == a[0] && (a + b)[1..] == a[1..] + b;
      assert Keep(a + b) == KeepOne(a[0]) + Keep(a[1..] + b);
      KeepAppend(a[1..], b);
      assert Keep(a) == KeepOne(a[0]) + Keep(a[1..]);
    } else {
      assert a + b == b;
    }
  }

  /** Helper: one more directory on top of a route is kept exactly when it is
      not hidden and the item was kept before. */
  lemma KeptUnder(name: string, it: WalkItem)
    ensures Kept(it.(route := [name] + it.route)) <==> !IsHidden(name) && Kept(it)
  {
    var r := [name] + it.route;
    if VisibleRoute(r) {
      assert !IsHidden(r[0]);
      forall k | 0 <= k < |it.route|
        ensures !IsHidden(it.route[k])
      {
        assert it.route[k] == r[k + 1];
      }
    }
    if !IsHidden(name) && VisibleRoute(it.route) {
      forall k | 0 <= k < |r|
        ensures !IsHidden(r[k])
      {
        if k > 0 {
          assert r[k] == it.route[k - 1];
        }
      }
    }
  }

  /** Below a hidden directory nothing is kept; below a visible one, the same
      as without it. */
  lemma {:induction false} KeepUnder(name: string, items: seq<WalkItem>)
    ensures Keep(Under(name, items)) == if IsHidden(name) then [] else Keep(items)
    decreases |items|
  {
    if |items| > 0 {
      var u := Under(name, items);
      assert u[1..] == Under(name, items[1..]);
      KeepUnder(name, items[1..]);
      KeptUnder(name, items[0]);
      assert Keep(u) == KeepOne(u[0]) + Keep(u[1..]);
      assert KeepOne(u[0]) == if IsHidden(name) then [] else KeepOne(items[0]);
    }
  }

  /** The collector is the walk filtered to visible routes and markdown names:
      hidden directories are pruned, hidden files are not, readdir order is
      kept and nothing is sorted. */
  lemma {:induction false} CollectorIsFilteredWalk(dir: string, listing: Listing)
    ensures ReadMarkdownFiles(dir, listing) == Keep(Walk(dir, listing))
    decreases listing
  {
    match listing
    case Unreadable =>
    case Entries(entries) => CollectEntriesIsFilteredWalk(dir, entries);
  }

  lemma {:induction false} CollectEntriesIsFilteredWalk(dir: string, entries: seq<Entry>)
    ensures CollectEntries(dir, entries) == Keep(WalkEntries(dir, entries))
    decreases entries
  {
    if |entries| > 0 {
      EntryIsFilteredWalk(dir, entries[0]);
      CollectEntriesIsFilteredWalk(dir, entries[1..]);
      KeepAppend(WalkEntry(dir, entries[0]), WalkEntries(dir, entries[1..]));
    }
  }

  lemma {:induction false} EntryIsFilteredWalk(dir: string, e: Entry)
    ensures EntryFiles(dir, e) == Keep(WalkEntry(dir, e))
    decreases e
  {
    match e
    case Folder(name, contents) =>
      CollectorIsFilteredWalk(Join(dir, name), contents);
      KeepUnder(name, Walk(Join(dir, name), contents));
    case Leaf(name) =>
      assert VisibleRoute([]);
  }

  /** Every walk item's path is the root joined with its route and its name. */
  lemma {:induction false} WalkPaths(dir: string, listing: Listing)
    ensures forall it :: it in Walk(dir, listing) ==> it.path == JoinAll(dir, it.route + [it.name])
    decreases listing
  {
    match listing
    case Unreadable =>
    case Entries(entries) => WalkEntriesPaths(dir, entries);
  }

  lemma {:induction false} WalkEntriesPaths(dir: string, entries: seq<Entry>)
    ensures forall it :: it in WalkEntries(dir, entries) ==> it.path == JoinAll(dir, it.route + [it.name])
    decreases entries
  {
    if |entries| > 0 {
      WalkEntryPaths(dir, entries[0]);
      WalkEntriesPaths(dir, entries[1..]);
    }
  }

  lemma {:induction false} WalkEntryPaths(dir: string, e: Entry)
    ensures forall it :: it in WalkEntry(dir, e) ==> it.path == JoinAll(dir, it.route + [it.name])
    decreases e
  {
    match e
    case Folder(name, contents) =>
      var sub := Walk(Join(dir, name), contents);
      WalkPaths(Join(dir, name), contents);
      assert WalkEntry(dir, e) == Under(name, sub);
      UnderPaths(dir, name, sub);
    case Leaf(name) =>
      assert JoinAll(dir, [name]) == JoinAll(Join(dir, name), []);
  }

  /** Helper: items whose paths hang below `dir/name` keep their paths once
      `name` is added to their routes. */
  lemma UnderPaths(dir: string, name: string, sub: seq<WalkItem>)
    requires forall it :: it in sub ==> it.path == JoinAll(Join(dir, name), it.route + [it.name])
    ensures forall it :: it in Under(name, sub) ==> it.path == JoinAll(dir, it.route + [it.name])
  {
    var u := Under(name, sub);
    forall j | 0 <= j < |u|
      ensures u[j].path == JoinAll(dir, u[j].route + [u[j].name])
    {
      assert sub[j] in sub;
      UnderPath(dir, name, sub[j]);
    }
  }

  /** Helper: one item of `UnderPaths`. */
  lemma UnderPath(dir: string, name: string, it: WalkItem)
    requires it.path == JoinAll(Join(dir, name), it.route + [it.name])
    ensures it.path == JoinAll(dir, ([name] + it.route) + [it.name])
  {
    var full := ([name] + it.route) + [it.name];
    assert full[0] == name && full[1..] == it.route + [it.name];
  }

  /** Every collected file lies at its name joined onto a chain of visible
      directory names below the root. */
  lemma CollectedFilesAreVisible(dir: string, listing: Listing, f: MarkdownFile)
    requires f in ReadMarkdownFiles(dir, listing)
    ensures exists route :: VisibleRoute(route) && f.path == JoinAll(dir, route + [f.name])
  {
    CollectorIsFilteredWalk(dir, listing);
    WalkPaths(dir, listing);
    KeptComeFromWalk(Walk(dir, listing), f);
  }

  /** Helper: a kept file comes from a walk item with a visible route. */
  lemma {:induction false} KeptComeFromWalk(items: seq<WalkItem>, f: MarkdownFile)
    requires f in Keep(items)
    ensures exists it :: it in items && VisibleRoute(it.route) && f == MarkdownFile(it.name, it.path)
    decreases |items|
  {
    var it := items[0];
    if VisibleRoute(it.route) && IsMarkdownName(it.name) && f == MarkdownFile(it.name, it.path) {
    } else {
      KeptComeFromWalk(items[1..], f);
      var w :| w in items[1..] && VisibleRoute(w.route) && f == MarkdownFile(w.name, w.path);
      assert w in items;
    }
  }

  /** The collection of concatenated listings is the concatenation of the
      collections: results keep readdir order. */
  lemma {:induction false} CollectEntriesAppend(dir: string, a: seq<Entry>, b: seq<Entry>)
    ensures CollectEntries(dir, a + b) == CollectEntries(dir, a) + CollectEntries(dir, b)
    decreases |a|
  {
    if |a| > 0 {
      assert (a + b)[0] == a[0] && (a + b)[1..] == a[1..] + b;
      CollectEntriesAppend(dir, a[1..], b);
    } else {
      assert a + b == b;
    }
  }

  /** An unreadable subfolder contributes nothing, and the walk goes on with
      its siblings. */
  lemma UnreadableSubtreeSkipped(dir: string, name: string, before: seq<Entry>, after: seq<Entry>)
    ensures CollectEntries(dir, before + [Folder(name, Unreadable)] + after) ==
            CollectEntries(dir, before) + CollectEntries(dir, after)
  {
    var gone := Folder(name, Unreadable);
    CollectEntriesAppend(dir, before + [gone], after);
    CollectEntriesAppend(dir, before, [gone]);
    UnreadableFolderEmpty(dir, name);
    assert CollectEntries(dir, before) + [] == CollectEntries(dir, before);
  }

  /** Helper: a listing made of one unreadable folder collects nothing. */
  lemma UnreadableFolderEmpty(dir: string, name: string)
    ensures CollectEntries(dir, [Folder(name, Unreadable)]) == []
  {
    var gone := Folder(name, Unreadable);
    assert EntryFiles(dir, gone) == [];
    assert [gone][1..] == [];
  }

  /** Helper: the extension of ".notes.md". */
  lemma NotesExtension()
    ensures ExtName(".notes.md") == ".md"
  {
    var n := ".notes.md";
    assert NoneWhere(n, IsSlash);
    ExtNameOfName(n, 6);
  }

  /** A hidden markdown file is still collected: only directories are
      filtered by name. */
  lemma HiddenFileCollected(dir: string, name: string)
    requires IsHidden(name) && IsMarkdownName(name)
    ensures EntryFiles(dir, Leaf(name)) == [MarkdownFile(name, Join(dir, name))]
  {
  }

  /** For instance ".notes.md" is hidden, is a markdown name, and is collected. */
  lemma NotesFileCollected(dir: string)
    ensures IsHidden(".notes.md") && IsMarkdownName(".notes.md")
    ensures EntryFiles(dir, Leaf(".notes.md")) == [MarkdownFile(".notes.md", Join(dir, ".notes.md"))]
  {
    NotesExtension();
    assert Lower(".md") == ".md";
    HiddenFileCollected(dir, ".notes.md");
  }

  /** A file named exactly ".md" has no extension and is not collected. */
  lemma BareExtensionNotCollected(dir: string)
    ensures EntryFiles(dir, Leaf(".md")) == []
  {
    var n := ".md";
    assert NoneWhere(n, IsSlash);
    BasenameOfName(n);
    assert LastWhere(n, IsDot) == Some(0);
    assert ExtName(n) == "";
  }
}
