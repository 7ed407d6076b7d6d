/** The part of Node's POSIX `path` module the program relies on:
    `basename`, `extname`, `join` of a directory and one entry name, and `resolve`. */
module Paths {
  import opened Wrappers
  import opened Strings

  predicate IsSlash(c: char) { c == '/' }

  predicate IsDot(c: char) { c == '.' }

  /** `path.basename`: the last component, ignoring trailing slashes. */
  function Basename(p: string): (r: string)
    ensures NoneWhere(r, IsSlash)
  {
    var t := TrimEndWhere(p, IsSlash);
    match LastWhere(t, IsSlash)
    case None => t
    case Some(i) => t[i + 1..]
  }

  /** `path.join(dir, name)` for an already normalised directory and a
      single directory-entry name (no '/', not "." or ".."). */
  function Join(dir: string, name: string): (r: string)
    ensures dir <= r
    ensures |name| <= |r| && r[|r| - |name|..] == name
    ensures dir != "" ==> |name| < |r| && r[|r| - |name| - 1] == '/'
    ensures |r| == |dir| + |name| + (if dir == "" || dir[|dir| - 1] == '/' then 0 else 1)
  {
    if dir == "" then name
    else if dir[|dir| - 1] == '/' then dir + name
    else dir + "/" + name
  }

  /** `path.extname`: the last component's text from its last '.', or ""
      when that dot is the component's first character, when there is no
      dot, and for "..". */
  function ExtName(p: string): (r: string)
    ensures r == "" || (r[0] == '.' && NoneWhere(r[1..], IsDot))
  {
    var base := Basename(p);
    match LastWhere(base, IsDot)
    case None => ""
    case Some(d) =>
      if d == 0 || base == ".." then ""
      else
        AfterLastDot(base, d);
        base[d..]
  }

  /** Helper: the text from the last '.' is a '.' followed by dot-free text. */
  lemma AfterLastDot(s: string, d: nat)
    requires LastWhere(s, IsDot) == Some(d)
    ensures d < |s| && s[d..][0] == '.' && NoneWhere(s[d..][1..], IsDot)
  {
    assert forall k :: 0 <= k < |s[d..][1..]| ==> s[d..][1..][k] == s[d + 1 + k];
  }

  /** A component that survives normalisation. */
  predicate IsCleanSegment(seg: string) {
    seg != "" && seg != "." && seg != ".." && NoneWhere(seg, IsSlash)
  }

  /** Node's `normalizeString` for an absolute path: drops empty and "."
      segments; ".." removes the previous segment, or nothing at the root. */
  function NormalizeSegments(acc: seq<string>, segs: seq<string>): (r: seq<string>)
    requires forall i :: 0 <= i < |acc| ==> IsCleanSegment(acc[i])
    requires forall i :: 0 <= i < |segs| ==> NoneWhere(segs[i], IsSlash)
    ensures forall i :: 0 <= i < |r| ==> IsCleanSegment(r[i])
    decreases |segs|
  {
    if |segs| == 0 then acc
    else if segs[0] == "" || segs[0] == "." then NormalizeSegments(acc, segs[1..])
    else if segs[0] == ".." then
      NormalizeSegments(if |acc| > 0 then acc[..|acc| - 1] else acc, segs[1..])
    else NormalizeSegments(acc + [segs[0]], segs[1..])
  }

  /** The absolute path normalised: "/" followed by the clean segments. */
  function NormalizeAbsolute(abs: string): (r: string)
    ensures |r| > 0 && r[0] == '/'
  {
    "/" + JoinWith(NormalizeSegments([], SplitWhere(abs, IsSlash)), "/")
  }

  /** `path.resolve(p)` with the process working directory `cwd` (always absolute). */
  function Resolve(cwd: string, p: string): (r: string)
    ensures |r| > 0 && r[0] == '/'
  {
    NormalizeAbsolute(if |p| > 0 && p[0] == '/' then p else cwd + "/" + p)
  }

  // ----- lemmas -----

  /** `basename` undoes `join`: the entry name is recovered from the joined path. */
  lemma BasenameJoin(dir: string, name: string)
    requires name != "" && NoneWhere(name, IsSlash)
    ensures Basename(Join(dir, name)) == name
  {
    var j := Join(dir, name);
    assert j[|j| - 1] == name[|name| - 1];
    assert TrimEndWhere(j, IsSlash) == j;
    if dir == "" {
      assert LastWhere(j, IsSlash).None?;
    } else {
      var pre := if dir[|dir| - 1] == '/' then dir else dir + "/";
      assert j == pre + name;
      assert j[|pre| - 1] == '/';
      assert forall k :: |pre| <= k < |j| ==> j[k] == name[k - |pre|];
      var li := LastWhere(j, IsSlash);
      assert li == Some(|pre| - 1);
      assert j[|pre|..] == name;
    }
  }

  /** Normalising segments that are already clean only appends them. */
  lemma {:induction false} NormalizeClean(acc: seq<string>, segs: seq<string>)
    requires forall i :: 0 <= i < |acc| ==> IsCleanSegment(acc[i])
    requires forall i :: 0 <= i < |segs| ==> IsCleanSegment(segs[i])
    requires forall i :: 0 <= i < |segs| ==> NoneWhere(segs[i], IsSlash)
    ensures NormalizeSegments(acc, segs) == acc + segs
    decreases |segs|
  {
    if |segs| > 0 {
      NormalizeClean(acc + [segs[0]], segs[1..]);
      assert acc + [segs[0]] + segs[1..] == acc + segs;
    }
  }

  /** Splitting "/" + body on '/' yields an empty first piece, then the split of body. */
  lemma SplitRooted(body: string)
    ensures SplitWhere("/" + body, IsSlash) == [""] + SplitWhere(body, IsSlash)
  {
    assert "/" + body == [] + ['/'] + body;
    SplitAfterPart([], '/', body, IsSlash);
  }

  /** A leading empty segment is dropped by normalisation. */
  lemma NormalizeSkipsEmpty(rest: seq<string>)
    requires forall i :: 0 <= i < |rest| ==> NoneWhere(rest[i], IsSlash)
    ensures NormalizeSegments([], [""] + rest) == NormalizeSegments([], rest)
  {
    assert ([""] + rest)[0] == "";
    assert ([""] + rest)[1..] == rest;
  }

  /** A normalised absolute path is its own normalisation. */
  lemma NormalizeNormalized(segs: seq<string>)
    requires forall i :: 0 <= i < |segs| ==> IsCleanSegment(segs[i])
    ensures NormalizeAbsolute("/" + JoinWith(segs, "/")) == "/" + JoinWith(segs, "/")
  {
    var body := JoinWith(segs, "/");
    SplitRooted(body);
    if |segs| == 0 {
      assert SplitWhere(body, IsSlash) == [""];
      NormalizeSkipsEmpty([""]);
    } else {
      SplitJoin(segs, '/', IsSlash);
      NormalizeSkipsEmpty(segs);
      NormalizeClean([], segs);
      assert [] + segs == segs;
    }
  }

  /** `resolve` is idempotent: resolving an already resolved path changes
      nothing, so a resolved path and its source name the same cache key. */
  lemma ResolveIdempotent(cwd: string, p: string)
    ensures Resolve(cwd, Resolve(cwd, p)) == Resolve(cwd, p)
  {
    var abs := if |p| > 0 && p[0] == '/' then p else cwd + "/" + p;
    NormalizeNormalized(NormalizeSegments([], SplitWhere(abs, IsSlash)));
  }

  /** `basename` is the '/'-free tail of the path once trailing slashes are
      dropped: either all of it, or what follows one of its '/' (the last
      one, since the result has none). */
  lemma BasenameIsLastComponent(p: string)
    ensures var t := TrimEndWhere(p, IsSlash);
            Basename(p) == t || exists i :: 0 <= i < |t| && IsSlash(t[i]) && Basename(p) == t[i + 1..]
  {
    var t := TrimEndWhere(p, IsSlash);
    match LastWhere(t, IsSlash)
    case None =>
    case Some(i) =>
      assert Basename(p) == t[i + 1..];
  }

  /** A name without '/' is its own base name. */
  lemma BasenameOfName(n: string)
    requires NoneWhere(n, IsSlash)
    ensures Basename(n) == n
  {
    assert TrimEndWhere(n, IsSlash) == n;
  }

  /** `extname` is the base name's tail from its last '.' (never all of it,
      never for ".."), and empty exactly when there is no dot, the only dot
      leads the name, or the name is "..". */
  lemma ExtNameIsLastDotTail(p: string)
    ensures var b := Basename(p);
            var r := ExtName(p);
            r != "" ==> |r| < |b| && b[|b| - |r|..] == r && b != ".."
    ensures var b := Basename(p);
            var r := ExtName(p);
            r == "" ==> (NoneWhere(b, IsDot) || b == ".." || (|b| > 0 && b[0] == '.' && NoneWhere(b[1..], IsDot)))
  {
    var b := Basename(p);
    match LastWhere(b, IsDot)
    case None =>
    case Some(d) =>
      if d == 0 {
        assert forall k :: 0 <= k < |b[1..]| ==> b[1..][k] == b[k + 1];
      }
  }

  /** The extension of a slash-free name whose last dot is at `d > 0`. */
  lemma ExtNameOfName(n: string, d: nat)
    requires NoneWhere(n, IsSlash) && n != ".."
    requires 0 < d < |n| && n[d] == '.'
    requires forall k :: d < k < |n| ==> n[k] != '.'
    ensures ExtName(n) == n[d..]
  {
    BasenameOfName(n);
    assert LastWhere(n, IsDot) == Some(d);
  }
}
