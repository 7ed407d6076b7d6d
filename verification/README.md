# Vessel core, modelled in Dafny

Vessel is an Electron markdown workspace. This project models four parts of it as pure
functions over immutable values and proves properties of them:

- **Image transformer** (`ImageTransformer`, `TransformerCache`, `FileMaps`, `ImageRefs`).
  It rewrites every `![image](ref)` in a markdown text whose file name is found in one of an
  ordered list of image directories. A name found in several directories resolves to the
  first one. Each directory's listing is cached per resolved path with a time-to-live. A
  `(reference, full path)` pair is rewritten only at its first occurrence.
- **Open-directory handler** (`OpenDirectory`). After the folder dialog answers, it walks the
  chosen folder recursively and collects every `.md` file, in listing order. Hidden
  directories and unreadable directories are skipped.
- **Breadcrumb** (`Breadcrumb`). It strips the trailing separators from the workspace root,
  cuts the active file's path into segments, and builds the path each segment links to.
- **Sidebar** (`LayoutAside`). It keeps the list of unfolded folders, computes the active
  file's type from its last dot, and picks a first root file when a workspace arrives.

Shared pieces:

- `Paths` is Node's POSIX `basename`, `extname`, `join` and `resolve`.
- `Strings` holds the JavaScript string and array operations the code relies on: `split`,
  `join`, `filter(Boolean)`, `indexOf`, `split(c)[0]` and ASCII `toLowerCase`.
- `ImageRefs` holds the reference regular expression, the lookup name of a reference, and
  `String.prototype.replace` with a string pattern, including its `$` patterns.
- `Wrappers` holds the `Option` type.

I/O is turned into parameters:

- The filesystem is a map from directory path to listing: `FileMaps.Listings` and
  `OpenDirectory.Volume`.
- The clock and the working directory arrive with it in `TransformerCache.Host`.
- The folder dialog's answer is a `DialogResult` value.
- The transformer's cache is a `Transformer` value. Each operation takes it and returns the
  updated value.

Repeated references are rewritten once. The replacer records the key
`${imgPath}->${fullPath}` of every match it rewrites, and a later match with the same key is
returned unchanged (`ImageTransformer.ts` lines 92-94). So of several identical references
only the first is rewritten. `ImageTransformer.LaterDuplicateKeptVerbatim` proves this.

Two cross-component consequences are proved:

- The objects the open-directory handler returns carry no `type` field. So the sidebar's
  "select the first root file" effect never fires for such a workspace
  (`LayoutAside.OpenedWorkspaceSelectsNothing`).
- For every file that handler collects, the sidebar's file type is the file name's own
  extension, whatever dots the directory names contain (`LayoutAside.FileTypeOfJoin`).

## Model

| member | source | states |
|---|---|---|
| Paths.Basename | src/main/features/OpenDirectoryFeature.ts:17 | the base name of a path never contains '/' |
| Paths.BasenameIsLastComponent | src/main/features/OpenDirectoryFeature.ts:17 | the base name is the whole path without its trailing slashes, or the part after one of its '/' (the last, as the result has none) |
| Paths.BasenameJoin | src/main/plugins/ImageTransformer.ts:88 | the base name of a joined entry path is the entry's own name |
| Paths.ExtName | src/main/features/OpenDirectoryFeature.ts:39 | the extension is empty, or a '.' followed by text with no further '.' |
| Paths.ExtNameIsLastDotTail | src/main/features/OpenDirectoryFeature.ts:39 | a non-empty extension is the base name's tail from its last '.', never the whole name and never of ".."; an empty one means no dot, a single leading dot, or ".." |
| Paths.ExtNameOfName | src/main/features/OpenDirectoryFeature.ts:39 | for an entry name other than ".." whose last '.' is not its first character, the extension runs from that dot to the end |
| Paths.Join | src/main/plugins/ImageTransformer.ts:153 | the joined path is the directory, one '/' unless the directory is empty or already ends in '/', then the entry name: it starts with the directory, ends with the name, and is exactly that long |
| Paths.Resolve | src/main/plugins/ImageTransformer.ts:132 | the cache key of a directory is an absolute path |
| Paths.ResolveIdempotent | src/main/plugins/ImageTransformer.ts:186 | resolving an already resolved directory gives the same cache key, so clearing by either spelling hits the same entry |
| Strings.TrimEndWhere | src/renderer/src/layout/layout-main/breadcrumb.tsx:21 | the result is a prefix, does not end in a trimmed character, and everything removed is a trimmed character |
| Strings.JoinWithEnds | src/renderer/src/layout/layout-main/breadcrumb.tsx:46 | `join` starts with the first part, ends with the last, and is the part itself for one part |
| Strings.JoinWithAppend | src/renderer/src/layout/layout-main/breadcrumb.tsx:46 | joining two non-empty lists back to back puts exactly one separator between their joins |
| Strings.Lower | src/main/features/OpenDirectoryFeature.ts:39 | lower-casing keeps the length, leaves no ASCII capital, and changes nothing but ASCII capitals |
| Strings.SplitWhere | src/renderer/src/layout/layout-main/breadcrumb.tsx:32 | split yields at least one piece and no piece contains a separator |
| Strings.SplitJoin | src/renderer/src/layout/layout-main/breadcrumb.tsx:32 | splitting separator-free parts joined by a separator gives the parts back |
| Strings.SplitInterleave | src/renderer/src/layout/layout-main/breadcrumb.tsx:32 | a split on a set of separator characters gives one more piece than the text has separators, and putting those separators back between the pieces, in order, gives the text |
| Strings.InterleaveSplit | src/renderer/src/layout/layout-main/breadcrumb.tsx:32 | separator-free parts interleaved with separator characters split back into exactly those parts, with exactly those separators |
| Strings.JoinSplit | src/renderer/src/layout/layout-aside/index.tsx:66 | with a single separator character, as in `split(".")`, joining the pieces with that character gives back the text |
| Strings.RemoveEmpty | src/renderer/src/layout/layout-main/breadcrumb.tsx:32 | `filter(Boolean)` keeps exactly the non-empty pieces |
| Strings.RemoveEmptyAppend | src/renderer/src/layout/layout-main/breadcrumb.tsx:32 | `filter(Boolean)` distributes over list concatenation, so the kept pieces stay in their order |
| Strings.ConcatRemoveEmpty | src/renderer/src/layout/layout-main/breadcrumb.tsx:32 | dropping the empty pieces leaves their concatenation unchanged, so no text is lost |
| Strings.ConcatSplit | src/renderer/src/layout/layout-main/breadcrumb.tsx:32 | the pieces of a split, concatenated, are the text with its separators removed |
| Strings.TakeUntil | src/main/plugins/ImageTransformer.ts:88 | `split(c)[0]` is the longest prefix without `c`, followed by `c` when shorter than the text |
| Strings.IndexOfFrom | src/main/plugins/ImageTransformer.ts:101 | the reported index is an occurrence and no earlier occurrence exists; none only when there is no occurrence |
| FileMaps.ReadFileMap | src/main/plugins/ImageTransformer.ts:146-172 | a read fails exactly when the directory cannot be listed or some entry's stat fails; otherwise the map holds exactly the regular files, each mapped to directory/name |
| FileMaps.FileMapOf | src/main/plugins/ImageTransformer.ts:150-159 | the stat pass fails iff an entry vanished; otherwise it keeps exactly the regular files with their joined paths |
| FileMaps.MergeInto | src/main/plugins/ImageTransformer.ts:116-122 | folding more directories in never drops or changes an entry already merged |
| FileMaps.Merge | src/main/plugins/ImageTransformer.ts:114-125 | the merged map has a name exactly when some directory has it |
| FileMaps.MergeIntoFirstWins | src/main/plugins/ImageTransformer.ts:116-122 | the merge loop keeps earlier entries, adds each name some later directory has, and takes it from the first such directory |
| FileMaps.MergeFirstWins | src/main/plugins/ImageTransformer.ts:114-125 | a name is merged iff some directory has it, and it resolves to the first directory in list order that has it |
| TransformerCache.New | src/main/plugins/ImageTransformer.ts:43-47 | caching is on unless explicitly false, the TTL defaults to 60000 ms, and the cache starts empty |
| TransformerCache.GetFileMap | src/main/plugins/ImageTransformer.ts:131-173 | disk is read iff there is no fresh cached entry; a hit returns the cached map unchanged; a failed read returns an empty map and stores nothing; a successful read returns the directory's regular files and stores them with the current time when caching is on |
| TransformerCache.FetchAll | src/main/plugins/ImageTransformer.ts:116-117 | one map per directory in order; with caching off every map is the directory's current contents and the cache stays untouched |
| TransformerCache.GetMergedFileMap | src/main/plugins/ImageTransformer.ts:111-126 | the maps, the cache afterwards and the directories read are exactly those of the in-order per-directory fetches; the merged map has a name iff a fetched map has it, resolved to the first such directory's full path with that directory as source |
| TransformerCache.DeleteAll | src/main/plugins/ImageTransformer.ts:185-187 | exactly the resolved listed directories are removed and every other entry is kept as it was |
| TransformerCache.ClearCache | src/main/plugins/ImageTransformer.ts:179-188 | a missing or empty-string argument empties the cache, otherwise exactly the resolved listed directories are dropped; the configuration never changes |
| TransformerCache.CachedMapSurvivesChanges | src/main/plugins/ImageTransformer.ts:135-143 | within the TTL a second read is served from the cache, returning the first map even if the disk has changed since |
| TransformerCache.ExpiredEntryIsReread | src/main/plugins/ImageTransformer.ts:138-166 | once the TTL has elapsed the directory is read again and the new map is stored with the new time |
| TransformerCache.ClearedEntryIsReread | src/main/plugins/ImageTransformer.ts:179-188 | after clearing a directory, by its given or its resolved spelling, the next read goes to disk; this includes `clearCache("")`, which empties the whole cache |
| TransformerCache.GetFileMapDerived | src/main/plugins/ImageTransformer.ts:131-173 | every map handed out is either the directory's current contents or what the cache held at the start |
| TransformerCache.FetchAllCachedOrCurrent | src/main/plugins/ImageTransformer.ts:116-123 | across the merge loop each directory's map is either current or the one cached at the start |
| ImageRefs.MatchAt | src/main/plugins/ImageTransformer.ts:72 | a match at a position starts with `![image](`, closes at a ')' and captures no ')' and no line terminator |
| ImageRefs.MatchAtExact | src/main/plugins/ImageTransformer.ts:72 | the regular expression matches at a position with a given closing ')' if and only if the prefix, a capture and that ')' are there |
| ImageRefs.ScanFrom | src/main/plugins/ImageTransformer.ts:72-77 | every reference the global scan reports is a legal capture |
| ImageRefs.ScanRoundTrip | src/main/plugins/ImageTransformer.ts:72-77 | concatenating the scanned plain runs and match texts gives back the markdown exactly |
| ImageRefs.ScanIsTiling | src/main/plugins/ImageTransformer.ts:72-78 | a list of pieces cuts the text as the global expression does (each match where the expression matches, each plain run non-empty, match-free and followed by a match or the end) exactly when it is the scan; so every match is reported, leftmost first |
| ImageRefs.ScanFindsMatches | src/main/plugins/ImageTransformer.ts:75-78 | the scan reports a reference iff the regular expression matches somewhere in the text |
| ImageRefs.LookupName | src/main/plugins/ImageTransformer.ts:88 | the lookup name is the longest prefix of the base name with no '?' or '#': it is cut only at one of those characters |
| ImageRefs.LookupNameStripsQuery | src/main/plugins/ImageTransformer.ts:87-88 | a reference dir/name?query or dir/name#fragment looks up `name`, when the query or fragment holds no '/' |
| ImageRefs.LookupNameAfterLastSlash | src/main/plugins/ImageTransformer.ts:88 | the base name is taken before the query is cut, so everything up to the last '/' is ignored, even a '/' inside a query or fragment |
| ImageRefs.SlashInQueryExample | src/main/plugins/ImageTransformer.ts:88 | an instance: "d/a.png?v=x/y" looks up "y", not "a.png" |
| ImageRefs.ReplaceFirst | src/main/plugins/ImageTransformer.ts:101 | with no occurrence the text is unchanged; with a replacement free of '$', exactly the first occurrence is replaced |
| ImageRefs.ExpandPatterns | src/main/plugins/ImageTransformer.ts:101 | in the replacement, "$$" gives "$", "$&" the match, "$`" the text before, "$'" the text after, while "$1" and a final "$" stay as written |
| ImageRefs.ExpandLiteral | src/main/plugins/ImageTransformer.ts:101 | a replacement with no '$' is inserted literally |
| ImageRefs.FirstOccurrenceInMatch | src/main/plugins/ImageTransformer.ts:101 | inside a match the reference occurs no later than right after `![image](` |
| ImageRefs.RewriteOfPlainMatch | src/main/plugins/ImageTransformer.ts:101 | when the reference does not occur inside the prefix and the new path has no '$', only the bracketed reference is replaced |
| ImageRefs.PrefixOccurrenceIsReplaced | src/main/plugins/ImageTransformer.ts:101 | for the reference "image" the string replace hits the word in `![image]`, not the bracketed reference |
| ImageTransformer.ReplaceMatch | src/main/plugins/ImageTransformer.ts:86-101 | an unresolved reference is returned unchanged; a resolved reference whose key is new is always rewritten, by replacing the first occurrence of the reference in the match with its new path, and exactly that key is recorded; otherwise the match and the key set are returned unchanged |
| ImageTransformer.RewritePieces | src/main/plugins/ImageTransformer.ts:86-102 | the replacer yields exactly one text per scanned piece |
| ImageTransformer.RewriteKeepsPlain | src/main/plugins/ImageTransformer.ts:86-102 | the replacer leaves every plain run between references untouched, whatever keys were processed before |
| ImageTransformer.RewriteFrom | src/main/plugins/ImageTransformer.ts:85-102 | from any position, threading the processed-key set gives the reference rewrite, which looks only at the keys of earlier occurrences |
| ImageTransformer.RewriteStep | src/main/plugins/ImageTransformer.ts:89-101 | one replacer call yields the reference text for that occurrence and adds exactly its key, if any |
| ImageTransformer.RewriteMatchesReference | src/main/plugins/ImageTransformer.ts:85-102 | the stateful replace equals the position-wise reference definition |
| ImageTransformer.Transform | src/main/plugins/ImageTransformer.ts:58-105 | with no match the text is returned and no directory is read; otherwise the merged map is fetched once and the text is the reference rewrite of the scan |
| ImageTransformer.UnresolvedKeptVerbatim | src/main/plugins/ImageTransformer.ts:89 | when no reference resolves, the rewrite is the original texts |
| ImageTransformer.LaterDuplicateKeptVerbatim | src/main/plugins/ImageTransformer.ts:92-93 | a later occurrence of an already-seen reference is left exactly as written |
| ImageTransformer.DefaultRewriteIsFullPath | src/main/plugins/ImageTransformer.ts:96-101 | without a transform function, a first resolved occurrence becomes `![image](<full path>)`, when the full path contains no '$' and the reference does not occur inside `![image](` |
| ImageTransformer.UnresolvedReferencesLeaveText | src/main/plugins/ImageTransformer.ts:81-104 | when no reference resolves in the merged map, the markdown comes back unchanged |
| OpenDirectory.ReadMarkdownFiles | src/main/features/OpenDirectoryFeature.ts:31-48 | every collected file has a lower-cased extension of ".md" |
| OpenDirectory.CollectEntries | src/main/features/OpenDirectoryFeature.ts:34-44 | every file collected from a listing is a markdown file |
| OpenDirectory.EntryFiles | src/main/features/OpenDirectoryFeature.ts:35-42 | one entry contributes only markdown files |
| OpenDirectory.OpenDirectory | src/main/features/OpenDirectoryFeature.ts:14-27 | no reply iff the dialog was cancelled or returned no path; otherwise name is the base name of the first path, path is that path, files are its collected markdown files |
| OpenDirectory.CollectorIsFilteredWalk | src/main/features/OpenDirectoryFeature.ts:31-48 | the collection equals the full walk of non-directory entries, kept in order when the name is markdown and no directory on the way is hidden |
| OpenDirectory.CollectEntriesIsFilteredWalk | src/main/features/OpenDirectoryFeature.ts:34-44 | collecting a listing equals filtering the walk of its entries |
| OpenDirectory.EntryIsFilteredWalk | src/main/features/OpenDirectoryFeature.ts:35-42 | one entry contributes exactly the kept items of its walk |
| OpenDirectory.KeepAppend | src/main/features/OpenDirectoryFeature.ts:44 | flattening preserves order: filtering distributes over concatenation |
| OpenDirectory.WalkPaths | src/main/features/OpenDirectoryFeature.ts:35 | every walked path is the root joined with its route of directory names and the entry name |
| OpenDirectory.CollectedFilesAreVisible | src/main/features/OpenDirectoryFeature.ts:35-38 | every collected file's path lies under the root through non-hidden directories only |
| OpenDirectory.CollectEntriesAppend | src/main/features/OpenDirectoryFeature.ts:34-44 | collecting a listing is collecting its parts in order |
| OpenDirectory.UnreadableSubtreeSkipped | src/main/features/OpenDirectoryFeature.ts:36-47 | an unreadable subdirectory contributes nothing and does not disturb its siblings |
| OpenDirectory.HiddenFileCollected | src/main/features/OpenDirectoryFeature.ts:36-40 | every hidden file with a markdown extension is collected under its joined path (only hidden directories are skipped) |
| OpenDirectory.NotesFileCollected | src/main/features/OpenDirectoryFeature.ts:36-40 | an instance: ".notes.md" is hidden, has the markdown extension, and is collected |
| OpenDirectory.BareExtensionNotCollected | src/main/features/OpenDirectoryFeature.ts:39 | a file named ".md" has no extension and is not collected |
| Breadcrumb.NormalizedWorkspacePath | src/renderer/src/layout/layout-main/breadcrumb.tsx:19-22 | the root is a prefix of the workspace path without trailing separators, and only separators were removed; no workspace gives "" |
| Breadcrumb.PathSegments | src/renderer/src/layout/layout-main/breadcrumb.tsx:24-40 | segments are non-empty and separator-free, none without a workspace or active file, and together they hold every non-separator character of the path after the root |
| Breadcrumb.PathForSegment | src/renderer/src/layout/layout-main/breadcrumb.tsx:42-49 | out-of-range indexes and a missing root give ""; otherwise the link starts with root + "/" and ends with the segment itself |
| Breadcrumb.PathForSegmentExtends | src/renderer/src/layout/layout-main/breadcrumb.tsx:45-46 | each crumb's link extends the previous crumb's link by '/' and the segments between them |
| Breadcrumb.BreadcrumbRoundTrip | src/renderer/src/layout/layout-main/breadcrumb.tsx:24-49 | a path built as root/seg1/.../segN yields exactly those segments and the last crumb links back to the path |
| Breadcrumb.StringPrefixRoot | src/renderer/src/layout/layout-main/breadcrumb.tsx:30-32 | the root test is a string prefix test: when the path continues the root's last component with text `t` (root "/a/b", path "/a/bc/x.md"), `t` becomes the first segment |
| LayoutAside.Without | src/renderer/src/layout/layout-aside/index.tsx:17 | the filtered list lacks the path and keeps every other element with its multiplicity |
| LayoutAside.WithoutAppend | src/renderer/src/layout/layout-aside/index.tsx:17 | filtering preserves order |
| LayoutAside.OnOpenChange | src/renderer/src/layout/layout-aside/index.tsx:13-20 | opening keeps the list as a prefix and adds the path once; closing is the order-keeping filter that removes every copy of the path; other folders never change state |
| LayoutAside.OpenThenCloseRestores | src/renderer/src/layout/layout-aside/index.tsx:13-20 | unfolding a folder and folding it again restores the previous list |
| LayoutAside.OnOpenChangeIdempotent | src/renderer/src/layout/layout-aside/index.tsx:13-20 | repeating the same open or close changes nothing |
| LayoutAside.OnOpenChangeKeepsNoDup | src/renderer/src/layout/layout-aside/index.tsx:13-20 | a list with no duplicate folder keeps none |
| LayoutAside.ChangeCollapsible | src/renderer/src/layout/layout-aside/index.tsx:70-77 | the old list stays a prefix, the path is appended exactly once when it was folded, nothing else is added, and an unfolded path leaves the list as it was |
| LayoutAside.ChangeCollapsibleIsOpen | src/renderer/src/layout/layout-aside/index.tsx:70-77 | unfolding from the breadcrumb is the same update as unfolding in the tree |
| LayoutAside.FileType | src/renderer/src/layout/layout-aside/index.tsx:64-68 | the type is the dot-free suffix after the path's last '.', and "" when the path has no dot |
| LayoutAside.FileTypeOfJoin | src/renderer/src/layout/layout-aside/index.tsx:64-68 | for directory/name with an extension, the type is the name's extension without its dot |
| LayoutAside.FirstFileNode | src/renderer/src/layout/layout-aside/index.tsx:90 | `find` returns the first node of type "file", or none when no node has that type |
| LayoutAside.AutoSelect | src/renderer/src/layout/layout-aside/index.tsx:89-95 | a file is selected iff nothing is active and some root node is a file, and then it is the first such node's path |
| LayoutAside.UntypedNodesSelectNothing | src/renderer/src/layout/layout-aside/index.tsx:89-95 | nodes that carry no `type` never trigger the automatic selection, whatever is active |
| LayoutAside.OpenedWorkspaceSelectsNothing | src/renderer/src/layout/layout-aside/index.tsx:89-95 | a workspace produced by the open-directory handler never triggers the automatic selection |

## Left out

- The filesystem, the clock and the working directory are parameters. Reads are values of a map, not operations that can change between the calls of one transform.
- Time: one `Host.now` serves a whole `transform` call, while the source reads `Date.now()` once per directory. A directory list with the same directory twice is therefore modelled with one consistent clock.
- Concurrency: the `Promise.all` fan-out is modelled by its result. That is the first rejection for the stat pass, and the in-order flattening for the collector. Two overlapping `transform` calls sharing one cache are not modelled.
- Logging: `console.error` calls are not modelled, because they have no effect on the results.
- Regular expressions: only `/!\[image\]\((.*?)\)/g` is modelled, by a hand-written scanner, and not general regular expressions.
- Case folding: `toLowerCase` is modelled for ASCII letters only, because Unicode case mapping is not available.
- Node's `path`: only POSIX semantics. `join` is modelled for an already normalised directory and a single entry name, which is how both call sites use it. Windows drive letters and backslashes in `path` are out of scope.
- Electron and the renderer: the dialog, IPC, React rendering and hooks, and the `setTimeout` deferral and cleanup of the auto-select effect are not modelled. Only the values they compute are.
- TypeScript `any`: values of other types than those declared (a non-string `workspace.path`, a non-boolean `cache` option, a `null` or `0` passed to `clearCache`) are not modelled.
- The `transformPath` callback is a total pure function. Exceptions it could throw are not modelled.
- Catch branch: the breadcrumb's `try`/`catch` (`breadcrumb.tsx` lines 36-39) is not modelled, because nothing in the modelled string operations can throw.
- Object identity: the map returned from the cache is compared by value, not by identity.
- Clock arithmetic: timestamps and the TTL are unbounded integers. Floating-point effects of `Date.now()` arithmetic are not modelled.
- OpenDirectory.ReadMarkdownFiles: its own contract states only that every file is markdown. The full characterisation (contents, order, skipped subtrees) is in `OpenDirectory.CollectorIsFilteredWalk`.
- ImageTransformer.RewritePieces: its own contract states only the length. The untouched plain runs are stated by `ImageTransformer.RewriteKeepsPlain`, and the rewritten references by `ImageTransformer.RewriteMatchesReference`.
- OpenDirectory.CollectEntries and OpenDirectory.EntryFiles: their own contracts state only that every file is markdown. The full characterisation is in `OpenDirectory.CollectEntriesIsFilteredWalk` and `OpenDirectory.EntryIsFilteredWalk`.
- Paths.Basename and Paths.ExtName: their own contracts state only the shape of the result. The full characterisations are `Paths.BasenameIsLastComponent` and `Paths.ExtNameIsLastDotTail`.
- Paths.Resolve: its contract states only that the result is absolute. That the result is normalised shows in `Paths.ResolveIdempotent`.
- Strings.SplitWhere: its contract states only that the pieces are separator-free. That they are exactly the runs between separators, for any set of separator characters, is `Strings.SplitInterleave`.
- Strings.RemoveEmpty: its contract states membership, not order. Order is kept, as `Strings.RemoveEmptyAppend` shows.
- Breadcrumb.PathSegments: its contract fixes the segments' characters but not where the cuts fall. `Breadcrumb.BreadcrumbRoundTrip` pins the cuts down for every path built from a root and segments.
- Breadcrumb.PathForSegment: its contract states the link's two ends. The middle is characterised by `Breadcrumb.PathForSegmentExtends` and `Breadcrumb.BreadcrumbRoundTrip`.
- TransformerCache.FetchAll: with caching on, its own contract states only the shape of the result. `TransformerCache.FetchAllCachedOrCurrent` adds only that each directory's map is either its current contents or the entry cached at the start of the call; which of the two it is, is not stated for the whole batch (`TransformerCache.GetFileMap` decides it per fetch).
- ImageRefs.MatchAt and ImageRefs.ScanFrom: their contracts state one direction. The converse is in `ImageRefs.MatchAtExact` and `ImageRefs.ScanIsTiling`.
- Strings.JoinWith has no contract of its own. Its two ends are `Strings.JoinWithEnds`, its separators `Strings.JoinWithAppend`, and its inverse `Strings.SplitJoin`.
- ImageRefs.Expand has no contract of its own. Its behaviour on each `$` pattern is `ImageRefs.ExpandPatterns` and `ImageRefs.ExpandLiteral`.
- FileMaps.MergeInto and FileMaps.Merge: their contracts state which names are kept. Which directory each name resolves to is `FileMaps.MergeIntoFirstWins` and `FileMaps.MergeFirstWins`.
