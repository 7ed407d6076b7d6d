/** The breadcrumb's path arithmetic: the workspace root without trailing
    separators, the active file's path cut into segments, and the path that
    each segment links to. */
module Breadcrumb {
  import opened Strings

  /** The `workspace` value the breadcrumb reads: absent, an object with no
      keys, or an object whose `path` is given ("" when it is missing). */
  datatype WorkspaceValue = NoWorkspace | EmptyObject | WorkspaceObject(path: string)

  /** A path separator of either platform. */
  predicate IsSeparator(c: char) { c == '/' || c == '\\' }

  /** A usable segment: non-empty and free of separators. */
  predicate IsSegment(s: string) { s != "" && NoneWhere(s, IsSeparator) }

  /** `normalizedWorkspacePath`: the root with its trailing separators removed. */
  function NormalizedWorkspacePath(ws: WorkspaceValue): (r: string)
    ensures !ws.WorkspaceObject? ==> r == ""
    ensures ws.WorkspaceObject? ==> r <= ws.path && forall k :: |r| <= k < |ws.path| ==> IsSeparator(ws.path[k])
    ensures r == "" || !IsSeparator(r[|r| - 1])
  {
    if ws.WorkspaceObject? && ws.path != "" then TrimEndWhere(ws.path, IsSeparator) else ""
  }

  /** The text the segments are taken from: the part after the root when the
      root is a (string) prefix of the active path, else the whole path. */
  function SegmentSource(root: string, active: string): (r: string)
  {
    if root != "" && root <= active then active[|root|..] else active
  }

  /** `segments`: the non-empty pieces between separators. */
  function PathSegments(ws: WorkspaceValue, active: string): (segs: seq<string>)
    ensures forall i :: 0 <= i < |segs| ==> IsSegment(segs[i])
    ensures !ws.WorkspaceObject? || active == "" ==> segs == []
    ensures ws.WorkspaceObject? && active != "" ==>
              Concat(segs) == RemoveWhere(SegmentSource(NormalizedWorkspacePath(ws), active), IsSeparator)
  {
    if !ws.WorkspaceObject? || active == "" then []
    else
      var source := SegmentSource(NormalizedWorkspacePath(ws), active);
      var parts := SplitWhere(source, IsSeparator);
      var segs := RemoveEmpty(parts);
      forall i | 0 <= i < |segs|
        ensures IsSegment(segs[i])
      {
        assert segs[i] in segs;
        var j :| 0 <= j < |parts| && parts[j] == segs[i];
      }
      ConcatRemoveEmpty(parts);
      ConcatSplit(source, IsSeparator);
      segs
  }

  /** `getPathForSegment(index)`: the root, '/', and the segments up to and
      including `index` joined with '/'; "" without a root or out of range. */
  function PathForSegment(root: string, segs: seq<string>, index: int): (r: string)
    ensures root == "" || index < 0 || index >= |segs| ==> r == ""
    ensures root != "" && 0 <= index < |segs| ==> root + "/" <= r
    ensures root != "" && 0 <= index < |segs| ==> |segs[index]| < |r| && r[|r| - |segs[index]|..] == segs[index]
  {
    if root == "" || index < 0 || index >= |segs| then ""
    else
      var upTo := segs[..index + 1];
      var joined := JoinWith(upTo, "/");
      assert joined[|joined| - |segs[index]|..] == segs[index] by {
        if index > 0 {
          assert upTo == segs[..index] + [segs[index]];
          JoinWithAppend(segs[..index], [segs[index]], "/");
        }
      }
      root + "/" + joined
  }

  // ----- lemmas -----

  /** A later segment's path extends an earlier one's by '/' and the
      segments in between, so each crumb links to an ancestor of the next. */
  lemma PathForSegmentExtends(root: string, segs: seq<string>, i: int, j: int)
    requires root != "" && 0 <= i < j < |segs|
    ensures PathForSegment(root, segs, j) == PathForSegment(root, segs, i) + "/" + JoinWith(segs[i + 1..j + 1], "/")
    ensures PathForSegment(root, segs, i) <= PathForSegment(root, segs, j)
  {
    assert segs[..j + 1] == segs[..i + 1] + segs[i + 1..j + 1];
    JoinWithAppend(segs[..i + 1], segs[i + 1..j + 1], "/");
  }

  /** Helper: dropping empty parts leaves a list without empty parts as it is. */
  lemma {:induction false} RemoveEmptyKeeps(parts: seq<string>)
    requires forall i :: 0 <= i < |parts| ==> parts[i] != ""
    ensures RemoveEmpty(parts) == parts
    decreases |parts|
  {
    if |parts| > 0 {
      RemoveEmptyKeeps(parts[1..]);
      assert parts == [parts[0]] + parts[1..];
    }
  }

  /** Helper: the segments are the non-empty pieces of the segment source. */
  lemma SegmentsUnfold(ws: WorkspaceValue, active: string)
    requires ws.WorkspaceObject? && active != ""
    ensures PathSegments(ws, active) == RemoveEmpty(SplitWhere(SegmentSource(NormalizedWorkspacePath(ws), active), IsSeparator))
  {
  }

  /** Helper: behind a root and '/', the segments are the non-empty pieces of the rest. */
  lemma SegmentsAfterRoot(wsPath: string, body: string)
    requires NormalizedWorkspacePath(WorkspaceObject(wsPath)) != ""
    ensures var root := NormalizedWorkspacePath(WorkspaceObject(wsPath));
            PathSegments(WorkspaceObject(wsPath), root + "/" + body) == RemoveEmpty(SplitWhere(body, IsSeparator))
  {
    var root := NormalizedWorkspacePath(WorkspaceObject(wsPath));
    var active := root + "/" + body;
    assert root <= active;
    assert SegmentSource(root, active) == [] + ['/'] + body;
    SplitAfterPart([], '/', body, IsSeparator);
    var parts := SplitWhere(SegmentSource(root, active), IsSeparator);
    assert parts == [""] + SplitWhere(body, IsSeparator);
    assert parts[0] == "" && parts[1..] == SplitWhere(body, IsSeparator);
  }

  /** Helper: segments joined with '/' split back into the same segments. */
  lemma SplitJoinedSegments(segs: seq<string>)
    requires |segs| > 0 && forall i :: 0 <= i < |segs| ==> IsSegment(segs[i])
    ensures RemoveEmpty(SplitWhere(JoinWith(segs, "/"), IsSeparator)) == segs
  {
    SplitJoin(segs, '/', IsSeparator);
    RemoveEmptyKeeps(segs);
  }

  /** A path written as the root, '/', and segments joined with '/' is cut
      back into exactly those segments, and the last crumb links to it. */
  lemma BreadcrumbRoundTrip(wsPath: string, segs: seq<string>)
    requires NormalizedWorkspacePath(WorkspaceObject(wsPath)) != ""
    requires |segs| > 0 && forall i :: 0 <= i < |segs| ==> IsSegment(segs[i])
    ensures var root := NormalizedWorkspacePath(WorkspaceObject(wsPath));
            var active := root + "/" + JoinWith(segs, "/");
            && PathSegments(WorkspaceObject(wsPath), active) == segs
            && PathForSegment(root, segs, |segs| - 1) == active
  {
    SegmentsAfterRoot(wsPath, JoinWith(segs, "/"));
    SplitJoinedSegments(segs);
    assert segs[..|segs| - 1 + 1] == segs;
  }

  /** Helper: behind a root continued by `t` and '/', the segments are the
      non-empty pieces of `t`, then of the rest. */
  lemma SegmentsAfterPartialRoot(wsPath: string, t: string, body: string)
    requires NormalizedWorkspacePath(WorkspaceObject(wsPath)) != ""
    requires IsSegment(t)
    ensures var root := NormalizedWorkspacePath(WorkspaceObject(wsPath));
            PathSegments(WorkspaceObject(wsPath), root + t + "/" + body) == RemoveEmpty([t] + SplitWhere(body, IsSeparator))
  {
    var ws := WorkspaceObject(wsPath);
    var root := NormalizedWorkspacePath(ws);
    var active := root + t + "/" + body;
    assert root <= active;
    assert SegmentSource(root, active) == t + ['/'] + body;
    SegmentsUnfold(ws, active);
    SplitAfterPart(t, '/', body, IsSeparator);
  }

  /** The root test is a string prefix test, not a component test: when the
      active path continues the root's last component with more text `t`
      (root "/a/b", active "/a/bc/x.md"), `t` becomes the first segment. */
  lemma StringPrefixRoot(wsPath: string, t: string, segs: seq<string>)
    requires NormalizedWorkspacePath(WorkspaceObject(wsPath)) != ""
    requires IsSegment(t)
    requires |segs| > 0 && forall i :: 0 <= i < |segs| ==> IsSegment(segs[i])
    ensures var root := NormalizedWorkspacePath(WorkspaceObject(wsPath));
            PathSegments(WorkspaceObject(wsPath), root + t + "/" + JoinWith(segs, "/")) == [t] + segs
  {
    var x := SplitWhere(JoinWith(segs, "/"), IsSeparator);
    SegmentsAfterPartialRoot(wsPath, t, JoinWith(segs, "/"));
    SplitJoinedSegments(segs);
    RemoveEmptyAppend([t], x);
    assert RemoveEmpty([t]) == [t] by {
      assert [t][1..] == [];
    }
  }
}
