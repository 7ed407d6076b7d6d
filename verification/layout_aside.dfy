/** The sidebar's state updates: which folders are unfolded, the active
    file's type, and the file selected when a workspace arrives. */
module LayoutAside {
  import opened Wrappers
  import opened Strings
  import opened Paths
  import OpenDirectory

  /** No folder path occurs twice. */
  predicate NoDup(s: seq<string>) {
    forall i, j :: 0 <= i < j < |s| ==> s[i] != s[j]
  }

  /** `filter((i) => i !== x)`: `s` without any occurrence of `x`. */
  function Without(s: seq<string>, x: string): (r: seq<string>)
    ensures x !in r
    ensures multiset(r) == multiset(s)[x := 0]
    ensures forall q :: q != x ==> (q in r <==> q in s)
  {
    if |s| == 0 then []
    else
      assert s == [s[0]] + s[1..];
      (if s[0] == x then [] else [s[0]]) + Without(s[1..], x)
  }

  /** The `onOpenChange(open, path)` update of the unfolded-folder list:
      opening appends a folder that is not yet listed, closing removes it. */
  function OnOpenChange(folds: seq<string>, open: bool, path: string): (r: seq<string>)
    ensures open ==> folds <= r && path in r && |r| == |folds| + (if path in folds then 0 else 1)
    ensures !open ==> path !in r && multiset(r) == multiset(folds)[path := 0]
    ensures !open ==> r == Without(folds, path)
    ensures forall q :: q != path ==> (q in r <==> q in folds)
  {
    if open && path !in folds then folds + [path]
    else if !open && path in folds then Without(folds, path)
    else if !open then (WithoutAbsent(folds, path); folds)
    else folds
  }

  /** `changeCollapsible(path)`: unfold `path`, leaving the list as it is
      when it is already unfolded. */
  function ChangeCollapsible(folds: seq<string>, path: string): (r: seq<string>)
    ensures folds <= r && path in r
    ensures forall q :: q in r ==> q in folds || q == path
    ensures path in folds ==> r == folds
    ensures |r| == |folds| + (if path in folds then 0 else 1)
  {
    if path !in folds then folds + [path] else folds
  }

  /** `fileType`: the text after the last '.' of the active path, or "" when
      there is no active path or no dot in it. */
  function FileType(active: string): (r: string)
    ensures NoneWhere(r, IsDot)
    ensures |r| <= |active| && active[|active| - |r|..] == r
    ensures NoneWhere(active, IsDot) ==> r == ""
    ensures !NoneWhere(active, IsDot) ==> |r| < |active| && active[|active| - |r| - 1] == '.'
  {
    if active == "" then ""
    else
      var parts := SplitWhere(active, IsDot);
      LastPiece(active, IsDot);
      if |parts| > 1 then parts[|parts| - 1] else ""
  }

  /** A node of the sidebar tree as the renderer sees it: its `type` (absent
      for the objects sent by the open-directory handler) and its path. */
  datatype SideNode = SideNode(kind: Option<string>, path: string)

  /** A root-level file node. */
  predicate IsFileNode(n: SideNode) { n.kind == Some("file") }

  /** `files.find((node) => node.type === "file")`, as an index. */
  function FirstFileNode(nodes: seq<SideNode>): (r: Option<nat>)
    ensures r.Some? ==> r.value < |nodes| && IsFileNode(nodes[r.value])
    ensures r.Some? ==> forall k :: 0 <= k < r.value ==> !IsFileNode(nodes[k])
    ensures r.None? ==> forall k :: 0 <= k < |nodes| ==> !IsFileNode(nodes[k])
  {
    if |nodes| == 0 then None
    else if IsFileNode(nodes[0]) then Some(0)
    else match FirstFileNode(nodes[1..])
      case None => None
      case Some(i) => Some(i + 1)
  }

  /** The effect that picks a file when a workspace with files arrives and
      nothing is active: the path it activates, if any. `files` is None when
      the workspace or its `files` is missing. */
  function AutoSelect(files: Option<seq<SideNode>>, active: string): (r: Option<string>)
    ensures r.Some? <==> active == "" && files.Some? && exists k :: 0 <= k < |files.value| && IsFileNode(files.value[k])
    ensures r.Some? ==> exists k :: 0 <= k < |files.value| && IsFileNode(files.value[k]) && r.value == files.value[k].path
                          && forall j :: 0 <= j < k ==> !IsFileNode(files.value[j])
  {
    if files.Some? && |files.value| > 0 && active == "" then
      match FirstFileNode(files.value)
      case None => None
      case Some(i) => Some(files.value[i].path)
    else None
  }

  /** The objects the open-directory handler sends, as sidebar nodes: they
      carry a name and a path but no `type`. */
  function AsSideNodes(files: seq<OpenDirectory.MarkdownFile>): (r: seq<SideNode>)
    ensures |r| == |files|
    ensures forall i :: 0 <= i < |files| ==> r[i].path == files[i].path && r[i].kind.None?
  {
    seq(|files|, i requires 0 <= i < |files| => SideNode(None, files[i].path))
  }

  // ----- lemmas -----

  /** Helper: the last piece of a split is a suffix of the text, and it
      follows a separator exactly when there is more than one piece. */
  lemma {:induction false} LastPiece(s: string, isSep: char -> bool)
    ensures var parts := SplitWhere(s, isSep);
            var last := parts[|parts| - 1];
            && |last| <= |s| && s[|s| - |last|..] == last
            && (|parts| > 1 <==> !NoneWhere(s, isSep))
            && (|parts| > 1 ==> |last| < |s| && isSep(s[|s| - |last| - 1]))
    decreases |s|
  {
    var i := FirstWhere(s, isSep);
    if i < |s| {
      var t := s[i + 1..];
      LastPiece(t, isSep);
      var parts := SplitWhere(s, isSep);
      assert parts == [s[..i]] + SplitWhere(t, isSep);
      var tp := SplitWhere(t, isSep);
      var last := tp[|tp| - 1];
      assert parts[|parts| - 1] == last;
      assert s[|s| - |last|..] == t[|t| - |last|..];
      if |tp| > 1 {
        assert s[|s| - |last| - 1] == t[|t| - |last| - 1];
      } else {
        assert last == t;
      }
    }
  }

  /** Filtering distributes over concatenation, so order is kept. */
  lemma {:induction false} WithoutAppend(a: seq<string>, b: seq<string>, x: string)
    ensures Without(a + b, x) == Without(a, x) + Without(b, x)
    decreases |a|
  {
    if |a| == 0 {
      assert a + b == b;
    } else {
      assert (a + b)[0] == a[0] && (a + b)[1..] == a[1..] + b;
      WithoutAppend(a[1..], b, x);
    }
  }

  /** Filtering out an absent value changes nothing. */
  lemma {:induction false} WithoutAbsent(s: seq<string>, x: string)
    requires x !in s
    ensures Without(s, x) == s
    decreases |s|
  {
    if |s| > 0 {
      WithoutAbsent(s[1..], x);
      assert s == [s[0]] + s[1..];
    }
  }

  /** Filtering keeps a list free of duplicates. */
  lemma {:induction false} WithoutNoDup(s: seq<string>, x: string)
    requires NoDup(s)
    ensures NoDup(Without(s, x))
    decreases |s|
  {
    if |s| > 0 {
      assert NoDup(s[1..]) by {
        forall i, j | 0 <= i < j < |s[1..]|
          ensures s[1..][i] != s[1..][j]
        {
          assert s[1..][i] == s[i + 1] && s[1..][j] == s[j + 1];
        }
      }
      WithoutNoDup(s[1..], x);
      var rest := Without(s[1..], x);
      if s[0] != x {
        assert s[0] !in s[1..];
        assert multiset(rest)[s[0]] == 0;
        assert s[0] !in rest;
        var r := [s[0]] + rest;
        forall i, j | 0 <= i < j < |r|
          ensures r[i] != r[j]
        {
          if i == 0 {
            assert r[j] == rest[j - 1];
          } else {
            assert r[i] == rest[i - 1] && r[j] == rest[j - 1];
          }
        }
      }
    }
  }

  /** Unfolding a folder and folding it again restores the list. */
  lemma OpenThenCloseRestores(folds: seq<string>, path: string)
    requires path !in folds
    ensures OnOpenChange(OnOpenChange(folds, true, path), false, path) == folds
  {
    WithoutAppend(folds, [path], path);
    WithoutAbsent(folds, path);
  }

  /** Repeating the same change is a no-op. */
  lemma OnOpenChangeIdempotent(folds: seq<string>, open: bool, path: string)
    ensures OnOpenChange(OnOpenChange(folds, open, path), open, path) == OnOpenChange(folds, open, path)
  {
  }

  /** The unfolded-folder list never lists a folder twice. */
  lemma OnOpenChangeKeepsNoDup(folds: seq<string>, open: bool, path: string)
    requires NoDup(folds)
    ensures NoDup(OnOpenChange(folds, open, path))
  {
    if !open && path in folds {
      WithoutNoDup(folds, path);
    }
  }

  /** `changeCollapsible` is the same update as unfolding through the tree. */
  lemma ChangeCollapsibleIsOpen(folds: seq<string>, path: string)
    ensures ChangeCollapsible(folds, path) == OnOpenChange(folds, true, path)
  {
  }

  /** Helper: when the last separator is at `p`, the split's last piece is
      the text after `p`, and there are at least two pieces. */
  lemma {:induction false} LastPieceAfter(s: string, p: nat, isSep: char -> bool)
    requires p < |s| && isSep(s[p])
    requires forall k :: p < k < |s| ==> !isSep(s[k])
    ensures var parts := SplitWhere(s, isSep);
            |parts| > 1 && parts[|parts| - 1] == s[p + 1..]
    decreases |s|
  {
    var i := FirstWhere(s, isSep);
    var t := s[i + 1..];
    assert SplitWhere(s, isSep) == [s[..i]] + SplitWhere(t, isSep);
    if i == p {
      assert FirstWhere(t, isSep) == |t|;
    } else {
      assert t[p - i - 1] == s[p];
      LastPieceAfter(t, p - i - 1, isSep);
      assert t[p - i..] == s[p + 1..];
    }
  }

  /** Helper: a slash-free name with an extension has its last dot at `d`,
      and the extension starts there. */
  lemma ExtensionDot(name: string) returns (d: nat)
    requires NoneWhere(name, IsSlash) && ExtName(name) != ""
    ensures d < |name| && name[d] == '.'
    ensures forall k :: d < k < |name| ==> !IsDot(name[k])
    ensures ExtName(name) == name[d..]
  {
    assert TrimEndWhere(name, IsSlash) == name;
    assert Basename(name) == name;
    d := LastWhere(name, IsDot).value;
  }

  /** Helper: the file type of a path ending in `name`, whose last dot is at `d`. */
  lemma FileTypeOfSuffix(prefix: string, name: string, d: nat)
    requires d < |name| && name[d] == '.'
    requires forall k :: d < k < |name| ==> !IsDot(name[k])
    ensures FileType(prefix + name) == name[d + 1..]
  {
    var s := prefix + name;
    assert s[|prefix| + d] == '.';
    assert forall k :: |prefix| + d < k < |s| ==> s[k] == name[k - |prefix|];
    LastPieceAfter(s, |prefix| + d, IsDot);
    assert s[|prefix| + d + 1..] == name[d + 1..];
  }

  /** The file type of a path the open-directory handler builds is the
      entry's extension without its dot: "md" for every collected file,
      whatever the directory names contain. */
  lemma FileTypeOfJoin(dir: string, name: string)
    requires NoneWhere(name, IsSlash) && ExtName(name) != ""
    ensures FileType(Join(dir, name)) == ExtName(name)[1..]
  {
    var d := ExtensionDot(name);
    var prefix := if dir == "" then "" else if dir[|dir| - 1] == '/' then dir else dir + "/";
    assert Join(dir, name) == prefix + name;
    FileTypeOfSuffix(prefix, name, d);
  }

  /** Nodes without a `type` never trigger the automatic selection. */
  lemma UntypedNodesSelectNothing(files: seq<OpenDirectory.MarkdownFile>, active: string)
    ensures AutoSelect(Some(AsSideNodes(files)), active).None?
  {
    var nodes := AsSideNodes(files);
    assert forall k :: 0 <= k < |nodes| ==> !IsFileNode(nodes[k]);
  }

  /** A workspace delivered by the open-directory handler never selects a
      file on arrival: its file objects have no `type`. */
  lemma OpenedWorkspaceSelectsNothing(dialog: OpenDirectory.DialogResult, volume: OpenDirectory.Volume, active: string)
    ensures var ws := OpenDirectory.OpenDirectory(dialog, volume);
            ws.Some? ==> AutoSelect(Some(AsSideNodes(ws.value.files)), active).None?
  {
    var ws := OpenDirectory.OpenDirectory(dialog, volume);
    if ws.Some? {
      UntypedNodesSelectNothing(ws.value.files, active);
    }
  }
}
