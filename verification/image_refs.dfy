/** Finding `![image](<ref>)` references in text, the lookup name of a
    reference, and the string replacement applied to one match. */
module ImageRefs {
  import opened Wrappers
  import opened Strings
  import opened Paths

  /** The literal text that opens a reference. */
  const ImagePrefix: string := "![image]("

  /** Characters that JavaScript's `.` does not match. */
  predicate IsLineTerminator(c: char) {
    c == '\n' || c == '\r' || c == '\U{2028}' || c == '\U{2029}'
  }

  /** Characters at which the lazy capture `(.*?)` stops. */
  predicate StopsCapture(c: char) { c == ')' || IsLineTerminator(c) }

  /** Text the capture group can hold: no ')' and no line terminator. */
  predicate IsCapture(ref: string) {
    forall k :: 0 <= k < |ref| ==> !StopsCapture(ref[k])
  }

  /** Where the lazy capture started at `j` stops: the first ')' or line
      terminator at or after `j`, or the end of the text. */
  function CaptureEnd(s: string, j: nat): (e: nat)
    requires j <= |s|
    ensures j <= e <= |s|
    ensures forall k :: j <= k < e ==> !StopsCapture(s[k])
    ensures e < |s| ==> StopsCapture(s[e])
    decreases |s| - j
  {
    if j == |s| || StopsCapture(s[j]) then j else CaptureEnd(s, j + 1)
  }

  /** The whole text of a match whose capture is `ref`. */
  function MatchText(ref: string): string { ImagePrefix + ref + ")" }

  /** The regular expression /!\[image\]\((.*?)\)/ tried at position `i`:
      the index of the closing ')' when it matches there. */
  function MatchAt(s: string, i: nat): (r: Option<nat>)
    ensures r.Some? ==> i + |ImagePrefix| <= r.value < |s| && s[r.value] == ')'
    ensures r.Some? ==> OccursAt(s, ImagePrefix, i) && IsCapture(s[i + |ImagePrefix|..r.value])
  {
    if OccursAt(s, ImagePrefix, i) then
      var e := CaptureEnd(s, i + |ImagePrefix|);
      if e < |s| && s[e] == ')' then
        Some(e)
      else None
    else None
  }

  /** A piece of scanned text: plain text, or one reference match. */
  datatype Piece = Plain(text: string) | Image(ref: string)

  function PieceText(p: Piece): string
  {
    match p
    case Plain(t) => t
    case Image(ref) => MatchText(ref)
  }

  function Texts(ps: seq<Piece>): (ts: seq<string>)
    ensures |ts| == |ps|
    ensures forall k :: 0 <= k < |ps| ==> ts[k] == PieceText(ps[k])
  {
    seq(|ps|, k requires 0 <= k < |ps| => PieceText(ps[k]))
  }

  predicate HasImage(ps: seq<Piece>) {
    exists k :: 0 <= k < |ps| && ps[k].Image?
  }

  /** The regular expression matches somewhere at or after `from`. */
  ghost predicate MatchesFrom(s: string, from: nat) {
    exists i :: from <= i < |s| && MatchAt(s, i).Some?
  }

  /** Plain text `s[start..from]` still waiting to be emitted. */
  function Pending(s: string, start: nat, from: nat): seq<Piece>
    requires start <= from <= |s|
  {
    if start < from then [Plain(s[start..from])] else []
  }

  /** The global regular-expression scan: at each position try a match; on
      success emit it and continue after its ')', otherwise move on by one. */
  function ScanFrom(s: string, from: nat, start: nat): (ps: seq<Piece>)
    requires start <= from <= |s|
    ensures forall k :: 0 <= k < |ps| && ps[k].Image? ==> IsCapture(ps[k].ref)
    decreases |s| - from
  {
    if from == |s| then Pending(s, start, from)
    else
      match MatchAt(s, from)
      case Some(close) =>
        Pending(s, start, from) + [Image(s[from + |ImagePrefix|..close])] + ScanFrom(s, close + 1, close + 1)
      case None => ScanFrom(s, from + 1, start)
  }

  /** The text cut into plain runs and reference matches. */
  function Scan(s: string): seq<Piece>
  {
    ScanFrom(s, 0, 0)
  }

  /** The effective lookup name of a reference: its basename up to the
      first '?', then up to the first '#'. */
  function LookupName(ref: string): (name: string)
    ensures NoneWhere(name, IsSlash) && '?' !in name && '#' !in name
    ensures name <= Basename(ref)
    ensures |name| < |Basename(ref)| ==> Basename(ref)[|name|] == '?' || Basename(ref)[|name|] == '#'
  {
    var base := Basename(ref);
    var noQuery := TakeUntil(base, '?');
    var r := TakeUntil(noQuery, '#');
    assert forall k :: 0 <= k < |r| ==> r[k] == base[k];
    r
  }

  /** The replacement-pattern expansion of `String.prototype.replace` for a
      string pattern (no capture groups): "$$" gives "$", "$&" the matched
      text, "$`" the text before it, "$'" the text after it; any other '$'
      is literal. */
  function Expand(rep: string, matched: string, before: string, after: string): string
    decreases |rep|
  {
    if |rep| == 0 then ""
    else if rep[0] == '$' && |rep| >= 2 && rep[1] == '$' then "$" + Expand(rep[2..], matched, before, after)
    else if rep[0] == '$' && |rep| >= 2 && rep[1] == '&' then matched + Expand(rep[2..], matched, before, after)
    else if rep[0] == '$' && |rep| >= 2 && rep[1] == '`' then before + Expand(rep[2..], matched, before, after)
    else if rep[0] == '$' && |rep| >= 2 && rep[1] == '\'' then after + Expand(rep[2..], matched, before, after)
    else [rep[0]] + Expand(rep[1..], matched, before, after)
  }

  /** `s.replace(pat, rep)` with a string pattern: only the first occurrence is replaced. */
  function ReplaceFirst(s: string, pat: string, rep: string): (r: string)
    ensures (forall k: nat :: !OccursAt(s, pat, k)) ==> r == s
    ensures '$' !in rep ==> forall i: nat :: OccursAt(s, pat, i) && (forall k: nat :: k < i ==> !OccursAt(s, pat, k)) ==>
              r == s[..i] + rep + s[i + |pat|..]
  {
    IndexOfIsFirst(s, pat);
    match IndexOf(s, pat)
    case None => s
    case Some(i) =>
      var before, after := s[..i], s[i + |pat|..];
      if '$' !in rep then (ExpandLiteral(rep, pat, before, after); before + Expand(rep, pat, before, after) + after)
      else before + Expand(rep, pat, before, after) + after
  }

  /** Helper: `IndexOf` finds the first occurrence, and none when there is none. */
  lemma IndexOfIsFirst(s: string, pat: string)
    ensures (forall k: nat :: !OccursAt(s, pat, k)) ==> IndexOf(s, pat).None?
    ensures forall i: nat :: OccursAt(s, pat, i) && (forall k: nat :: k < i ==> !OccursAt(s, pat, k)) ==>
              IndexOf(s, pat) == Some(i)
  {
    match IndexOf(s, pat)
    case None =>
    case Some(j) =>
      forall i: nat | OccursAt(s, pat, i) && (forall k: nat :: k < i ==> !OccursAt(s, pat, k))
        ensures j == i
      {
        assert j <= i;
        assert !(j < i);
      }
  }

  /** Text the expression can match at no position from `a` up to `b`. */
  ghost predicate NoMatchIn(s: string, a: nat, b: nat)
    decreases b - a
  {
    a >= b || (MatchAt(s, a).None? && NoMatchIn(s, a + 1, b))
  }

  /** The length of text a piece covers. */
  function Width(p: Piece): nat
  {
    match p
    case Plain(t) => |t|
    case Image(ref) => |ImagePrefix| + |ref| + 1
  }

  /** Piece `p` sits at `pos`: a plain run is non-empty text of `s` where
      the expression matches nowhere; a match piece is a match of the
      expression at `pos` capturing `ref`. */
  ghost predicate PieceFits(s: string, p: Piece, pos: nat)
  {
    match p
    case Plain(t) => t != "" && pos + |t| <= |s| && s[pos..pos + |t|] == t && NoMatchIn(s, pos, pos + |t|)
    case Image(ref) =>
      && MatchAt(s, pos) == Some(pos + |ImagePrefix| + |ref|)
      && s[pos + |ImagePrefix|..pos + |ImagePrefix| + |ref|] == ref
  }

  /** `ps` cuts `s[pos..]` into consecutive pieces the way a global match
      does: each piece fits where the previous one ends, and a plain run is
      followed by a match or by the end of the text. */
  ghost predicate Tiles(s: string, ps: seq<Piece>, pos: nat)
    decreases |ps|
  {
    if |ps| == 0 then pos == |s|
    else
      && PieceFits(s, ps[0], pos)
      && (ps[0].Plain? && |ps| > 1 ==> ps[1].Image?)
      && Tiles(s, ps[1..], pos + Width(ps[0]))
  }

  // ----- lemmas -----

  /** The scan is exactly the regular expression at one position: a match
      at `i` ending at `j` is the prefix, a capture and the first ')' after it. */
  lemma MatchAtExact(s: string, i: nat, j: nat)
    ensures MatchAt(s, i) == Some(j) <==>
              OccursAt(s, ImagePrefix, i) && i + |ImagePrefix| <= j < |s| && s[j] == ')' &&
              IsCapture(s[i + |ImagePrefix|..j])
  {
    if OccursAt(s, ImagePrefix, i) && i + |ImagePrefix| <= j < |s| && s[j] == ')' && IsCapture(s[i + |ImagePrefix|..j]) {
      var e := CaptureEnd(s, i + |ImagePrefix|);
      assert e == j;
    }
  }

  /** Text with no '$' is inserted literally. */
  lemma {:induction false} ExpandLiteral(rep: string, matched: string, before: string, after: string)
    requires '$' !in rep
    ensures Expand(rep, matched, before, after) == rep
    decreases |rep|
  {
    if |rep| > 0 {
      assert rep[0] != '$';
      ExpandLiteral(rep[1..], matched, before, after);
      assert rep == [rep[0]] + rep[1..];
    }
  }

  /** Helper: the pending plain piece re-joins to the text it covers. */
  lemma PendingText(s: string, start: nat, from: nat)
    requires start <= from <= |s|
    ensures Concat(Texts(Pending(s, start, from))) == s[start..from]
  {
    if start < from {
      assert Texts(Pending(s, start, from)) == [s[start..from]];
    } else {
      assert Texts(Pending(s, start, from)) == [];
    }
  }

  /** Helper: a match at `from` closing at `close` is the text `s[from..close + 1]`. */
  lemma MatchTextAt(s: string, from: nat, close: nat)
    requires MatchAt(s, from) == Some(close)
    ensures MatchText(s[from + |ImagePrefix|..close]) == s[from..close + 1]
  {
    assert s[from..from + |ImagePrefix|] == ImagePrefix;
    assert s[from..close + 1] == s[from..from + |ImagePrefix|] + s[from + |ImagePrefix|..close] + [s[close]];
  }

  /** Helper: re-joining pending text, a match and the rest. */
  lemma ConcatPieces(pend: seq<Piece>, img: Piece, rest: seq<Piece>)
    ensures Concat(Texts(pend + [img] + rest)) == Concat(Texts(pend)) + PieceText(img) + Concat(Texts(rest))
  {
    assert Texts(pend + [img] + rest) == Texts(pend) + [PieceText(img)] + Texts(rest);
    ConcatAppend(Texts(pend) + [PieceText(img)], Texts(rest));
    ConcatAppend(Texts(pend), [PieceText(img)]);
  }

  /** Helper: the step of the round trip at a match, given the rest's round trip. */
  lemma ScanRoundTripAtMatch(s: string, from: nat, start: nat, close: nat)
    requires start <= from < |s| && MatchAt(s, from) == Some(close)
    requires Concat(Texts(ScanFrom(s, close + 1, close + 1))) == s[close + 1..]
    ensures Concat(Texts(ScanFrom(s, from, start))) == s[start..]
  {
    ScanAtMatch(s, from, start, close);
    PendingText(s, start, from);
    MatchTextAt(s, from, close);
    JoinAround(s, start, from, close, Pending(s, start, from), s[from + |ImagePrefix|..close], ScanFrom(s, close + 1, close + 1));
  }

  /** Helper: pieces covering `s[start..from]`, a match up to `close` and the
      rest of `s` re-join to `s[start..]`. */
  lemma JoinAround(s: string, start: nat, from: nat, close: nat, pend: seq<Piece>, ref: string, rest: seq<Piece>)
    requires start <= from <= close < |s|
    requires Concat(Texts(pend)) == s[start..from]
    requires MatchText(ref) == s[from..close + 1]
    requires Concat(Texts(rest)) == s[close + 1..]
    ensures Concat(Texts(pend + [Image(ref)] + rest)) == s[start..]
  {
    ConcatPieces(pend, Image(ref), rest);
    SliceThree(s, start, from, close + 1);
  }

  /** Scanning and re-joining the pieces gives back the text: nothing is
      lost, duplicated or reordered. */
  lemma {:induction false} ScanRoundTrip(s: string, from: nat, start: nat)
    requires start <= from <= |s|
    ensures Concat(Texts(ScanFrom(s, from, start))) == s[start..]
    decreases |s| - from
  {
    if from == |s| {
      PendingText(s, start, from);
    } else {
      match MatchAt(s, from)
      case Some(close) =>
        ScanRoundTrip(s, close + 1, close + 1);
        ScanRoundTripAtMatch(s, from, start, close);
      case None =>
        assert ScanFrom(s, from, start) == ScanFrom(s, from + 1, start);
        ScanRoundTrip(s, from + 1, start);
    }
  }

  /** Helper: a suffix is the concatenation of three consecutive slices. */
  lemma SliceThree(s: string, a: nat, b: nat, c: nat)
    requires a <= b <= c <= |s|
    ensures s[a..] == s[a..b] + s[b..c] + s[c..]
  {
  }

  /** The scan reports a reference exactly when the regular expression
      matches somewhere in the text. */
  lemma {:induction false} ScanFindsMatches(s: string, from: nat, start: nat)
    requires start <= from <= |s|
    ensures HasImage(ScanFrom(s, from, start)) <==> MatchesFrom(s, from)
    decreases |s| - from
  {
    var ps := ScanFrom(s, from, start);
    if from == |s| {
      assert !HasImage(ps);
    } else {
      match MatchAt(s, from)
      case Some(close) =>
        var pend := Pending(s, start, from);
        assert ps[|pend|].Image?;
      case None =>
        ScanFindsMatches(s, from + 1, start);
        if MatchesFrom(s, from) {
          var i :| from <= i < |s| && MatchAt(s, i).Some?;
          assert i != from;
        }
    }
  }

  /** Helper: the match-free run `s[start..from]` in front of a tiling. */
  lemma TilesPlain(s: string, start: nat, from: nat, rest: seq<Piece>)
    requires start < from <= |s| && NoMatchIn(s, start, from)
    requires |rest| > 0 ==> rest[0].Image?
    requires Tiles(s, rest, from)
    ensures Tiles(s, [Plain(s[start..from])] + rest, start)
  {
    var t := s[start..from];
    assert start + |t| == from;
    assert PieceFits(s, Plain(t), start);
    assert ([Plain(t)] + rest)[1..] == rest;
  }

  /** Helper: a match in front of a tiling. */
  lemma TilesImage(s: string, ref: string, rest: seq<Piece>, pos: nat)
    requires PieceFits(s, Image(ref), pos)
    requires Tiles(s, rest, pos + Width(Image(ref)))
    ensures Tiles(s, [Image(ref)] + rest, pos)
  {
    assert ([Image(ref)] + rest)[1..] == rest;
  }

  /** Helper: the scan at a position where the expression matches. */
  lemma ScanAtMatch(s: string, from: nat, start: nat, close: nat)
    requires start <= from < |s| && MatchAt(s, from) == Some(close)
    ensures ScanFrom(s, from, start) ==
              Pending(s, start, from) + [Image(s[from + |ImagePrefix|..close])] + ScanFrom(s, close + 1, close + 1)
  {
  }

  /** Helper: a match piece fits where the expression matches. */
  lemma MatchPieceFits(s: string, from: nat, close: nat)
    requires MatchAt(s, from) == Some(close)
    ensures PieceFits(s, Image(s[from + |ImagePrefix|..close]), from)
    ensures Width(Image(s[from + |ImagePrefix|..close])) == close + 1 - from
  {
  }

  /** Helper: the scan started at a match tiles, given that the rest after
      the match tiles. */
  lemma ScanTilesFromMatch(s: string, from: nat, close: nat)
    requires from < |s| && MatchAt(s, from) == Some(close)
    requires Tiles(s, ScanFrom(s, close + 1, close + 1), close + 1)
    ensures |ScanFrom(s, from, from)| > 0 && ScanFrom(s, from, from)[0].Image?
    ensures Tiles(s, ScanFrom(s, from, from), from)
  {
    var ref := s[from + |ImagePrefix|..close];
    var rest := ScanFrom(s, close + 1, close + 1);
    MatchPieceFits(s, from, close);
    TilesImage(s, ref, rest, from);
    ScanAtMatch(s, from, from, close);
    assert Pending(s, from, from) == [];
    assert [] + [Image(ref)] + rest == [Image(ref)] + rest;
  }

  /** Helper: the scan at a match, given that the rest tiles. */
  lemma ScanTilesAtMatch(s: string, from: nat, start: nat, close: nat)
    requires start <= from < |s| && NoMatchIn(s, start, from) && MatchAt(s, from) == Some(close)
    requires Tiles(s, ScanFrom(s, close + 1, close + 1), close + 1)
    ensures Tiles(s, ScanFrom(s, from, start), start)
  {
    ScanTilesFromMatch(s, from, close);
    if start < from {
      TilesPlain(s, start, from, ScanFrom(s, from, from));
      ScanAfterPlain(s, start, from);
    }
  }

  /** Helper: the plain run left at the end of the text tiles it. */
  lemma ScanTilesAtEnd(s: string, start: nat)
    requires start <= |s| && NoMatchIn(s, start, |s|)
    ensures Tiles(s, ScanFrom(s, |s|, start), start)
  {
    if start < |s| {
      TilesPlain(s, start, |s|, []);
      assert [Plain(s[start..|s|])] + [] == ScanFrom(s, |s|, start);
    }
  }

  /** Helper: a position where nothing matches extends the match-free run. */
  lemma {:induction false} NoMatchExtend(s: string, start: nat, from: nat)
    requires start <= from && NoMatchIn(s, start, from) && MatchAt(s, from).None?
    ensures NoMatchIn(s, start, from + 1)
    decreases from - start
  {
    if start < from {
      NoMatchExtend(s, start + 1, from);
    }
  }

  /** Helper: the scan skips a position where nothing matches. */
  lemma ScanSkipOne(s: string, from: nat, start: nat)
    requires start <= from < |s| && MatchAt(s, from).None?
    ensures ScanFrom(s, from, start) == ScanFrom(s, from + 1, start)
  {
  }

  /** Helper: the scan from `from`, with `s[start..from]` already free of
      matches, cuts `s[start..]` as a global match does. */
  lemma {:induction false} ScanTiles(s: string, from: nat, start: nat)
    requires start <= from <= |s| && NoMatchIn(s, start, from)
    ensures Tiles(s, ScanFrom(s, from, start), start)
    decreases |s| - from
  {
    if from == |s| {
      ScanTilesAtEnd(s, start);
    } else {
      var m := MatchAt(s, from);
      if m.Some? {
        ScanTiles(s, m.value + 1, m.value + 1);
        ScanTilesAtMatch(s, from, start, m.value);
      } else {
        NoMatchExtend(s, start, from);
        ScanTiles(s, from + 1, start);
        ScanSkipOne(s, from, start);
      }
    }
  }

  /** Helper: positions where nothing matches are skipped by the scan. */
  lemma {:induction false} SkipNoMatch(s: string, start: nat, from: nat, until: nat)
    requires start <= from <= until <= |s| && NoMatchIn(s, from, until)
    ensures ScanFrom(s, from, start) == ScanFrom(s, until, start)
    decreases until - from
  {
    if from < until {
      assert MatchAt(s, from).None?;
      SkipNoMatch(s, start, from + 1, until);
    }
  }

  /** Helper: any tiling of `s[pos..]` is the scan from `pos`. */
  lemma {:induction false} TilesUnique(s: string, ps: seq<Piece>, pos: nat)
    requires Tiles(s, ps, pos)
    ensures pos <= |s| && ps == ScanFrom(s, pos, pos)
    decreases |ps|
  {
    if |ps| > 0 {
      TilesUnique(s, ps[1..], pos + Width(ps[0]));
      if ps[0].Plain? {
        TilesUniquePlain(s, ps, pos);
      } else {
        TilesUniqueImage(s, ps, pos);
      }
    }
  }

  /** Helper: the step of `TilesUnique` at a match piece. */
  lemma TilesUniqueImage(s: string, ps: seq<Piece>, pos: nat)
    requires Tiles(s, ps, pos) && |ps| > 0 && ps[0].Image?
    requires ps[1..] == ScanFrom(s, pos + Width(ps[0]), pos + Width(ps[0]))
    ensures pos <= |s| && ps == ScanFrom(s, pos, pos)
  {
    var ref := ps[0].ref;
    var close := pos + |ImagePrefix| + |ref|;
    assert PieceFits(s, Image(ref), pos);
    ScanAtMatch(s, pos, pos, close);
    assert Pending(s, pos, pos) == [];
    assert ps == [Image(ref)] + ps[1..];
  }

  /** Helper: nothing tiles the empty rest of the text. */
  lemma TilesAtEnd(s: string, ps: seq<Piece>)
    requires Tiles(s, ps, |s|)
    ensures ps == []
  {
  }

  /** Helper: the scan after a plain run that a match follows. */
  lemma ScanAfterPlain(s: string, pos: nat, q: nat)
    requires pos < q < |s| && MatchAt(s, q).Some?
    ensures ScanFrom(s, q, pos) == [Plain(s[pos..q])] + ScanFrom(s, q, q)
  {
    var close := MatchAt(s, q).value;
    ScanAtMatch(s, q, pos, close);
    ScanAtMatch(s, q, q, close);
    var img, rest := Image(s[q + |ImagePrefix|..close]), ScanFrom(s, close + 1, close + 1);
    assert Pending(s, pos, q) == [Plain(s[pos..q])];
    assert Pending(s, q, q) == [];
    assert [] + [img] + rest == [img] + rest;
    assert [Plain(s[pos..q])] + [img] + rest == [Plain(s[pos..q])] + ([img] + rest);
  }

  /** Helper: what a tiling says about its first piece when it is a plain run. */
  lemma PlainHead(s: string, ps: seq<Piece>, pos: nat)
    requires Tiles(s, ps, pos) && |ps| > 0 && ps[0].Plain?
    ensures var q := pos + |ps[0].text|;
            && pos < q <= |s| && ps[0] == Plain(s[pos..q]) && NoMatchIn(s, pos, q)
            && ps == [ps[0]] + ps[1..] && Tiles(s, ps[1..], q)
  {
    assert PieceFits(s, ps[0], pos);
  }

  /** Helper: the step of `TilesUnique` at a plain run. */
  lemma TilesUniquePlain(s: string, ps: seq<Piece>, pos: nat)
    requires Tiles(s, ps, pos) && |ps| > 0 && ps[0].Plain?
    requires ps[1..] == ScanFrom(s, pos + Width(ps[0]), pos + Width(ps[0]))
    ensures pos <= |s| && ps == ScanFrom(s, pos, pos)
  {
    var q := pos + |ps[0].text|;
    PlainHead(s, ps, pos);
    SkipNoMatch(s, pos, pos, q);
    if q == |s| {
      TilesAtEnd(s, ps[1..]);
      PlainRunAtEnd(s, pos);
    } else {
      TilesPlainFollowed(s, ps, pos);
      ScanAfterPlain(s, pos, q);
    }
  }

  /** Helper: the scan at the end of the text emits the pending run. */
  lemma PlainRunAtEnd(s: string, pos: nat)
    requires pos < |s|
    ensures ScanFrom(s, |s|, pos) == [Plain(s[pos..|s|])]
  {
  }

  /** Helper: a plain run that does not reach the end of the text is
      followed by a match. */
  lemma TilesPlainFollowed(s: string, ps: seq<Piece>, pos: nat)
    requires Tiles(s, ps, pos) && |ps| > 0 && ps[0].Plain? && pos + |ps[0].text| < |s|
    ensures MatchAt(s, pos + |ps[0].text|).Some?
  {
    var q := pos + |ps[0].text|;
    assert Tiles(s, ps[1..], q);
    assert |ps[1..]| > 0;
    assert ps[1..][0] == ps[1];
    assert PieceFits(s, ps[1], q);
  }

  /** The scan is the one way to cut the text as the global expression
      does: a list of pieces tiles the text (matches where the expression
      matches, plain runs only where it matches nowhere) exactly when it is
      the scan. Every match the expression finds is reported. */
  lemma ScanIsTiling(s: string, ps: seq<Piece>)
    ensures Tiles(s, ps, 0) <==> ps == Scan(s)
  {
    ScanTiles(s, 0, 0);
    if Tiles(s, ps, 0) {
      TilesUnique(s, ps, 0);
    }
  }

  /** Each pattern `String.prototype.replace` expands in a replacement for a
      string pattern: "$$" is a dollar, "$&" the match, "$`" the text before
      it, "$'" the text after it; "$1" (there are no groups) and a final "$"
      stay as written. */
  lemma ExpandPatterns(m: string, before: string, after: string, t: string)
    requires '$' !in t
    ensures Expand("$$" + t, m, before, after) == "$" + t
    ensures Expand("$&" + t, m, before, after) == m + t
    ensures Expand("$`" + t, m, before, after) == before + t
    ensures Expand("$'" + t, m, before, after) == after + t
    ensures Expand("$1" + t, m, before, after) == "$1" + t
    ensures Expand(t + "$", m, before, after) == t + "$"
  {
    ExpandLiteral(t, m, before, after);
    assert ("$$" + t)[2..] == t;
    assert ("$&" + t)[2..] == t;
    assert ("$`" + t)[2..] == t;
    assert ("$'" + t)[2..] == t;
    assert ("$1" + t)[1..] == "1" + t && ("1" + t)[1..] == t;
    ExpandLiteral("1" + t, m, before, after);
    ExpandTrailingDollar(t, m, before, after);
  }

  /** Helper: a lone '$' at the end of literal text stays. */
  lemma {:induction false} ExpandTrailingDollar(t: string, m: string, before: string, after: string)
    requires '$' !in t
    ensures Expand(t + "$", m, before, after) == t + "$"
    decreases |t|
  {
    if |t| == 0 {
      assert t + "$" == "$";
    } else {
      assert (t + "$")[0] == t[0] && (t + "$")[1..] == t[1..] + "$";
      ExpandTrailingDollar(t[1..], m, before, after);
    }
  }

  /** Helper: a prefix without `c` passes through `TakeUntil` untouched. */
  lemma TakeUntilAfter(a: string, b: string, c: char)
    requires c !in a
    ensures TakeUntil(a + b, c) == a + TakeUntil(b, c)
  {
    var s := a + b;
    var i := FirstWhere(s, x => x == c);
    var j := FirstWhere(b, x => x == c);
    assert forall k :: 0 <= k < |a| ==> s[k] == a[k];
    assert forall k :: 0 <= k < |b| ==> s[|a| + k] == b[k];
    assert i == |a| + j;
  }

  /** The base name is taken before the query is cut: whatever precedes the
      last '/' is ignored, even a '/' inside a query or fragment. */
  lemma LookupNameAfterLastSlash(before: string, tail: string)
    requires tail != "" && NoneWhere(tail, IsSlash) && '?' !in tail && '#' !in tail
    ensures LookupName(before + "/" + tail) == tail
  {
    LookupNameStripsQuery(before + "/", tail, "");
    assert tail + "" == tail;
  }

  /** For instance "d/a.png?v=x/y" looks up "y", not "a.png". */
  lemma SlashInQueryExample()
    ensures LookupName("d/a.png?v=x/y") == "y"
  {
    LookupNameAfterLastSlash("d/a.png?v=x", "y");
    assert "d/a.png?v=x" + "/" + "y" == "d/a.png?v=x/y";
  }

  /** The lookup name of `dir/name`, `dir/name?query` or `dir/name#fragment`
      is `name`, when the query or fragment holds no '/'. */
  lemma LookupNameStripsQuery(dir: string, name: string, suffix: string)
    requires name != "" && NoneWhere(name, IsSlash) && '?' !in name && '#' !in name
    requires NoneWhere(suffix, IsSlash)
    requires suffix == "" || suffix[0] == '?' || suffix[0] == '#'
    ensures LookupName(Join(dir, name + suffix)) == name
  {
    var x := name + suffix;
    assert NoneWhere(x, IsSlash);
    BasenameJoin(dir, x);
    TakeUntilAfter(name, suffix, '?');
    var t := TakeUntil(suffix, '?');
    TakeUntilAfter(name, t, '#');
    if suffix == "" {
      assert t == "";
    } else if suffix[0] == '?' {
      assert t == "";
    } else {
      assert t[0] == '#';
    }
    assert TakeUntil(t, '#') == "";
  }

  /** The reference always occurs in its own match, at the latest just
      after the prefix; the replacement hits that first occurrence. */
  lemma FirstOccurrenceInMatch(ref: string)
    ensures var i := IndexOf(MatchText(ref), ref);
            i.Some? && i.value <= |ImagePrefix|
  {
    var full := MatchText(ref);
    assert full[|ImagePrefix|..|ImagePrefix| + |ref|] == ref;
    assert OccursAt(full, ref, |ImagePrefix|);
  }

  /** When the reference does not occur inside the prefix and the new path
      has no '$', the rewrite is exactly the match with the new path as its
      reference. */
  lemma RewriteOfPlainMatch(ref: string, newPath: string)
    requires '$' !in newPath
    requires forall k :: 0 <= k < |ImagePrefix| ==> !OccursAt(MatchText(ref), ref, k)
    ensures ReplaceFirst(MatchText(ref), ref, newPath) == MatchText(newPath)
  {
    var full := MatchText(ref);
    FirstOccurrenceInMatch(ref);
    var i := IndexOf(full, ref).value;
    assert i == |ImagePrefix|;
    ExpandLiteral(newPath, ref, full[..i], full[i + |ref|..]);
    assert full[..i] == ImagePrefix;
    assert full[i + |ref|..] == ")";
  }

  /** A reference that also occurs inside the prefix is replaced there:
      for the reference `image` it is the word in `![image](` that changes. */
  lemma PrefixOccurrenceIsReplaced(newPath: string)
    requires '$' !in newPath
    ensures ReplaceFirst(MatchText("image"), "image", newPath) == "![" + newPath + "](image)"
  {
    var full := MatchText("image");
    assert full == "![image](image)";
    assert full[0..5][0] == '!';
    assert full[1..6][0] == '[';
    assert !OccursAt(full, "image", 0);
    assert !OccursAt(full, "image", 1);
    assert OccursAt(full, "image", 2);
    assert IndexOf(full, "image") == Some(2);
    ExpandLiteral(newPath, "image", full[..2], full[7..]);
    assert full[..2] == "![";
    assert full[7..] == "](image)";
  }
}
