/** The image transformer's `transform`: find the references, build the
    merged map (only when there is a reference), and rewrite each resolved
    reference once per (reference, full path) key. */
module ImageTransformer {
  import opened Wrappers
  import opened Strings
  import opened FileMaps
  import opened TransformerCache
  import opened ImageRefs

  /** The caller's `transformPath(fileName, originalPath, fullPath, sourceDir)`. */
  type PathTransform = (string, string, string, string) -> string

  /** The string under which the source remembers a replacement it has made. */
  function DedupKey(ref: string, fullPath: string): string
  {
    ref + "->" + fullPath
  }

  /** The new reference text: the full path, or what `transformPath` returns. */
  function NewPath(name: string, ref: string, res: Resolution, tp: Option<PathTransform>): string
  {
    match tp
    case Some(f) => f(name, ref, res.fullPath, res.sourceDir)
    case None => res.fullPath
  }

  /** The replacer callback for one match: its replacement text and the
      processed-key set afterwards. */
  function ReplaceMatch(merged: MergedMap, processed: set<string>, ref: string, tp: Option<PathTransform>): (r: (string, set<string>))
    ensures LookupName(ref) !in merged ==> r == (MatchText(ref), processed)
    ensures r.1 == processed ==> r.0 == MatchText(ref)
    ensures r.1 != processed ==>
              && LookupName(ref) in merged
              && DedupKey(ref, merged[LookupName(ref)].fullPath) !in processed
              && r.1 == processed + {DedupKey(ref, merged[LookupName(ref)].fullPath)}
    ensures LookupName(ref) in merged && DedupKey(ref, merged[LookupName(ref)].fullPath) !in processed ==>
              && r.1 != processed
              && r.0 == ReplaceFirst(MatchText(ref), ref, NewPath(LookupName(ref), ref, merged[LookupName(ref)], tp))
  {
    var name := LookupName(ref);
    if name !in merged then (MatchText(ref), processed)
    else
      var key := DedupKey(ref, merged[name].fullPath);
      if key in processed then (MatchText(ref), processed)
      else (ReplaceFirst(MatchText(ref), ref, NewPath(name, ref, merged[name], tp)), processed + {key})
  }

  /** `markdown.replace(regex, replacer)` over the scanned pieces, left to
      right, threading the processed-key set. */
  function RewritePieces(pieces: seq<Piece>, merged: MergedMap, processed: set<string>, tp: Option<PathTransform>): (out: seq<string>)
    ensures |out| == |pieces|
    decreases |pieces|
  {
    if |pieces| == 0 then []
    else
      var step := match pieces[0]
        case Plain(text) => (text, processed)
        case Image(ref) => ReplaceMatch(merged, processed, ref, tp);
      var rest := RewritePieces(pieces[1..], merged, step.1, tp);
      assert forall i :: 1 <= i < |pieces| ==> pieces[i] == pieces[1..][i - 1];
      [step.0] + rest
  }

  /** The replacer never touches the text between references. */
  lemma {:induction false} RewriteKeepsPlain(pieces: seq<Piece>, merged: MergedMap, processed: set<string>, tp: Option<PathTransform>)
    ensures forall i :: 0 <= i < |pieces| && pieces[i].Plain? ==>
              RewritePieces(pieces, merged, processed, tp)[i] == pieces[i].text
    decreases |pieces|
  {
    if |pieces| > 0 {
      var step := match pieces[0]
        case Plain(text) => (text, processed)
        case Image(ref) => ReplaceMatch(merged, processed, ref, tp);
      RewriteKeepsPlain(pieces[1..], merged, step.1, tp);
      assert forall i :: 1 <= i < |pieces| ==> pieces[i] == pieces[1..][i - 1];
    }
  }

  /** The result of `transform`: the transformer afterwards, the text, and
      the resolved directories that were read from disk. */
  datatype Outcome = Outcome(state: Transformer, text: string, dirsRead: seq<string>)

  /** The source's `transform(markdown, imageDirs, transformPath)`. */
  function Transform(t: Transformer, host: Host, markdown: string, imageDirs: DirsArg, tp: Option<PathTransform>): (r: Outcome)
    ensures !MatchesFrom(markdown, 0) ==> r == Outcome(t, markdown, [])
    ensures MatchesFrom(markdown, 0) ==>
              var m := GetMergedFileMap(t, host, DirsOf(imageDirs));
              && r.state == m.state
              && r.dirsRead == m.dirsRead
              && r.text == Concat(Expected(Scan(markdown), m.merged, tp))
  {
    var pieces := Scan(markdown);
    ScanFindsMatches(markdown, 0, 0);
    ScanRoundTrip(markdown, 0, 0);
    if !HasImage(pieces) then Outcome(t, markdown, [])
    else
      var m := GetMergedFileMap(t, host, DirsOf(imageDirs));
      RewriteMatchesReference(pieces, m.merged, tp);
      if |m.merged| == 0 then
        UnresolvedKeptVerbatim(pieces, m.merged, tp);
        Outcome(m.state, markdown, m.dirsRead)
      else
        Outcome(m.state, Concat(RewritePieces(pieces, m.merged, {}, tp)), m.dirsRead)
  }

  // ----- the reference definition of the rewrite -----

  /** The dedupe key of piece `i`, when it is a reference that resolves. */
  ghost function KeyAt(pieces: seq<Piece>, merged: MergedMap, i: int): Option<string>
    requires 0 <= i < |pieces|
  {
    match pieces[i]
    case Plain(_) => None
    case Image(ref) =>
      var name := LookupName(ref);
      if name in merged then Some(DedupKey(ref, merged[name].fullPath)) else None
  }

  /** An earlier piece has the same dedupe key as piece `i`. */
  ghost predicate SeenBefore(pieces: seq<Piece>, merged: MergedMap, i: int)
    requires 0 <= i < |pieces|
  {
    exists j :: 0 <= j < i && KeyAt(pieces, merged, j) == KeyAt(pieces, merged, i)
  }

  /** What piece `i` becomes: plain text and unresolved references are kept;
      a resolved reference is rewritten at its first key occurrence and kept
      verbatim at every later one. */
  ghost function ExpectedPiece(pieces: seq<Piece>, merged: MergedMap, tp: Option<PathTransform>, i: int): string
    requires 0 <= i < |pieces|
  {
    match pieces[i]
    case Plain(text) => text
    case Image(ref) =>
      if KeyAt(pieces, merged, i).None? || SeenBefore(pieces, merged, i) then MatchText(ref)
      else
        var name := LookupName(ref);
        ReplaceFirst(MatchText(ref), ref, NewPath(name, ref, merged[name], tp))
  }

  ghost function Expected(pieces: seq<Piece>, merged: MergedMap, tp: Option<PathTransform>): (out: seq<string>)
    ensures |out| == |pieces|
  {
    seq(|pieces|, i requires 0 <= i < |pieces| => ExpectedPiece(pieces, merged, tp, i))
  }

  /** The keys of the resolved references before piece `k`. */
  ghost function KeysBefore(pieces: seq<Piece>, merged: MergedMap, k: int): set<string>
    requires 0 <= k <= |pieces|
  {
    set j | 0 <= j < k && KeyAt(pieces, merged, j).Some? :: KeyAt(pieces, merged, j).value
  }

  /** Helper: the keys before `k + 1` are those before `k` plus piece `k`'s key. */
  lemma KeysBeforeNext(pieces: seq<Piece>, merged: MergedMap, k: int)
    requires 0 <= k < |pieces|
    ensures KeyAt(pieces, merged, k).None? ==> KeysBefore(pieces, merged, k + 1) == KeysBefore(pieces, merged, k)
    ensures KeyAt(pieces, merged, k).Some? ==>
              KeysBefore(pieces, merged, k + 1) == KeysBefore(pieces, merged, k) + {KeyAt(pieces, merged, k).value}
  {
  }

  /** Helper: piece `k`'s key is among the earlier keys exactly when an earlier piece had it. */
  lemma SeenIffKnown(pieces: seq<Piece>, merged: MergedMap, k: int)
    requires 0 <= k < |pieces| && KeyAt(pieces, merged, k).Some?
    ensures KeyAt(pieces, merged, k).value in KeysBefore(pieces, merged, k) <==> SeenBefore(pieces, merged, k)
  {
    var key := KeyAt(pieces, merged, k).value;
    if key in KeysBefore(pieces, merged, k) {
      var j :| 0 <= j < k && KeyAt(pieces, merged, j).Some? && KeyAt(pieces, merged, j).value == key;
      assert KeyAt(pieces, merged, j) == KeyAt(pieces, merged, k);
    }
  }

  /** One step of the replacer agrees with the reference definition at piece `k`. */
  lemma RewriteStep(pieces: seq<Piece>, merged: MergedMap, tp: Option<PathTransform>, k: int)
    requires 0 <= k < |pieces| && pieces[k].Image?
    ensures var step := ReplaceMatch(merged, KeysBefore(pieces, merged, k), pieces[k].ref, tp);
            step.0 == ExpectedPiece(pieces, merged, tp, k) && step.1 == KeysBefore(pieces, merged, k + 1)
  {
    KeysBeforeNext(pieces, merged, k);
    if KeyAt(pieces, merged, k).Some? {
      SeenIffKnown(pieces, merged, k);
    }
  }

  /** Helper: the reference pieces from `k` on are piece `k`'s, then the rest. */
  lemma ExpectedTail(pieces: seq<Piece>, merged: MergedMap, tp: Option<PathTransform>, k: int)
    requires 0 <= k < |pieces|
    ensures Expected(pieces, merged, tp)[k..] == [ExpectedPiece(pieces, merged, tp, k)] + Expected(pieces, merged, tp)[k + 1..]
  {
  }

  /** The replacer run from piece `k` on, with the keys of the earlier
      pieces, produces the reference definition's pieces from `k` on. */
  lemma {:induction false} RewriteFrom(pieces: seq<Piece>, merged: MergedMap, tp: Option<PathTransform>, k: int)
    requires 0 <= k <= |pieces|
    ensures RewritePieces(pieces[k..], merged, KeysBefore(pieces, merged, k), tp) == Expected(pieces, merged, tp)[k..]
    decreases |pieces| - k
  {
    if k < |pieces| {
      var p := KeysBefore(pieces, merged, k);
      var tail := pieces[k..];
      assert tail[0] == pieces[k] && tail[1..] == pieces[k + 1..];
      if pieces[k].Plain? {
        KeysBeforeNext(pieces, merged, k);
        assert RewritePieces(tail, merged, p, tp) == [pieces[k].text] + RewritePieces(pieces[k + 1..], merged, p, tp);
      } else {
        RewriteStep(pieces, merged, tp, k);
        var step := ReplaceMatch(merged, p, pieces[k].ref, tp);
        assert RewritePieces(tail, merged, p, tp) == [step.0] + RewritePieces(pieces[k + 1..], merged, step.1, tp);
      }
      RewriteFrom(pieces, merged, tp, k + 1);
      ExpectedTail(pieces, merged, tp, k);
    }
  }

  /** The source's replacer loop computes exactly the reference definition. */
  lemma RewriteMatchesReference(pieces: seq<Piece>, merged: MergedMap, tp: Option<PathTransform>)
    ensures RewritePieces(pieces, merged, {}, tp) == Expected(pieces, merged, tp)
  {
    assert KeysBefore(pieces, merged, 0) == {};
    RewriteFrom(pieces, merged, tp, 0);
    assert pieces[0..] == pieces;
  }

  /** When no reference resolves, every piece is kept as it was. */
  lemma UnresolvedKeptVerbatim(pieces: seq<Piece>, merged: MergedMap, tp: Option<PathTransform>)
    requires forall i :: 0 <= i < |pieces| && pieces[i].Image? ==> LookupName(pieces[i].ref) !in merged
    ensures Expected(pieces, merged, tp) == Texts(pieces)
  {
    forall i | 0 <= i < |pieces|
      ensures Expected(pieces, merged, tp)[i] == Texts(pieces)[i]
    {
      if pieces[i].Image? {
        assert KeyAt(pieces, merged, i).None?;
      }
    }
  }

  // ----- properties of transform -----

  /** A later match identical to an earlier one is returned unchanged, even
      when the earlier one was rewritten. */
  lemma LaterDuplicateKeptVerbatim(pieces: seq<Piece>, merged: MergedMap, tp: Option<PathTransform>, i: int, j: int)
    requires 0 <= i < j < |pieces| && pieces[i].Image? && pieces[j] == pieces[i]
    ensures Expected(pieces, merged, tp)[j] == PieceText(pieces[j])
  {
    assert Expected(pieces, merged, tp)[j] == ExpectedPiece(pieces, merged, tp, j);
    if KeyAt(pieces, merged, j).Some? {
      assert KeyAt(pieces, merged, i) == KeyAt(pieces, merged, j);
      assert SeenBefore(pieces, merged, j);
    }
  }

  /** Without `transformPath`, the first resolved occurrence of a reference
      that does not also occur inside the prefix becomes a match of the full
      path (for a path without '$'). */
  lemma DefaultRewriteIsFullPath(pieces: seq<Piece>, merged: MergedMap, i: int)
    requires 0 <= i < |pieces| && pieces[i].Image?
    requires LookupName(pieces[i].ref) in merged
    requires !SeenBefore(pieces, merged, i)
    requires '$' !in merged[LookupName(pieces[i].ref)].fullPath
    requires forall k :: 0 <= k < |ImagePrefix| ==> !OccursAt(MatchText(pieces[i].ref), pieces[i].ref, k)
    ensures Expected(pieces, merged, None)[i] == MatchText(merged[LookupName(pieces[i].ref)].fullPath)
  {
    RewriteOfPlainMatch(pieces[i].ref, merged[LookupName(pieces[i].ref)].fullPath);
  }

  /** A text whose references all fail to resolve comes back unchanged. */
  lemma UnresolvedReferencesLeaveText(t: Transformer, host: Host, markdown: string, imageDirs: DirsArg, tp: Option<PathTransform>)
    requires var pieces := Scan(markdown);
             var m := GetMergedFileMap(t, host, DirsOf(imageDirs));
             forall k :: 0 <= k < |pieces| && pieces[k].Image? ==> LookupName(pieces[k].ref) !in m.merged
    ensures Transform(t, host, markdown, imageDirs, tp).text == markdown
  {
    var m := GetMergedFileMap(t, host, DirsOf(imageDirs));
    UnresolvedKeptVerbatim(Scan(markdown), m.merged, tp);
    ScanRoundTrip(markdown, 0, 0);
  }
}
