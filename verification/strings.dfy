/** String helpers shared by the path, breadcrumb and image-reference models.
    Strings are sequences of characters; JavaScript's String methods used by
    the program are written out here once. */
module Strings {
  import opened Wrappers

  /** Index of the first character of `s` satisfying `p`, or |s| when none does. */
  function FirstWhere(s: string, p: char -> bool): (i: nat)
    ensures i <= |s|
    ensures forall k :: 0 <= k < i ==> !p(s[k])
    ensures i < |s| ==> p(s[i])
  {
    if |s| == 0 then 0
    else if p(s[0]) then 0
    else 1 + FirstWhere(s[1..], p)
  }

  /** Index of the last character of `s` satisfying `p`, if any. */
  function LastWhere(s: string, p: char -> bool): (r: Option<nat>)
    ensures r.Some? ==> r.value < |s| && p(s[r.value])
    ensures r.Some? ==> forall k :: r.value < k < |s| ==> !p(s[k])
    ensures r.None? ==> forall k :: 0 <= k < |s| ==> !p(s[k])
  {
    if |s| == 0 then None
    else if p(s[|s| - 1]) then Some(|s| - 1)
    else LastWhere(s[..|s| - 1], p)
  }

  /** True when no character of `s` satisfies `p`. */
  predicate NoneWhere(s: string, p: char -> bool) {
    forall k :: 0 <= k < |s| ==> !p(s[k])
  }

  /** `s` without its trailing run of characters satisfying `p`
      (the effect of `s.replace(/[...]+$/, "")`). */
  function TrimEndWhere(s: string, p: char -> bool): (r: string)
    ensures r <= s
    ensures r == [] || !p(r[|r| - 1])
    ensures forall k :: |r| <= k < |s| ==> p(s[k])
  {
    if |s| > 0 && p(s[|s| - 1]) then TrimEndWhere(s[..|s| - 1], p) else s
  }

  /** `String.prototype.split` with a separator matching exactly one
      character: the pieces between separators, empty ones included. */
  function SplitWhere(s: string, isSep: char -> bool): (parts: seq<string>)
    ensures |parts| >= 1
    ensures forall i :: 0 <= i < |parts| ==> NoneWhere(parts[i], isSep)
    decreases |s|
  {
    var i := FirstWhere(s, isSep);
    if i == |s| then [s] else [s[..i]] + SplitWhere(s[i + 1..], isSep)
  }

  /** `Array.prototype.join`: the parts with `sep` between neighbours. */
  function JoinWith(parts: seq<string>, sep: string): string
  {
    if |parts| == 0 then ""
    else if |parts| == 1 then parts[0]
    else parts[0] + sep + JoinWith(parts[1..], sep)
  }

  /** The parts in order, with the empty ones dropped (`filter(Boolean)`). */
  function RemoveEmpty(parts: seq<string>): (r: seq<string>)
    ensures forall i :: 0 <= i < |r| ==> r[i] != ""
    ensures forall x :: x in r <==> x in parts && x != ""
  {
    if |parts| == 0 then []
    else if parts[0] == "" then RemoveEmpty(parts[1..])
    else [parts[0]] + RemoveEmpty(parts[1..])
  }

  /** All parts concatenated. */
  function Concat(parts: seq<string>): string
  {
    if |parts| == 0 then "" else parts[0] + Concat(parts[1..])
  }

  /** The characters of `s` that do not satisfy `p`, in order. */
  function RemoveWhere(s: string, p: char -> bool): string
  {
    if |s| == 0 then ""
    else if p(s[0]) then RemoveWhere(s[1..], p)
    else [s[0]] + RemoveWhere(s[1..], p)
  }

  /** The characters of `s` that satisfy `p`, in order: the separators a
      split on `p` consumes. */
  function Separators(s: string, p: char -> bool): string
  {
    RemoveWhere(s, c => !p(c))
  }

  /** The parts with the characters of `seps` between neighbours, one each,
      in order. */
  function Interleave(parts: seq<string>, seps: string): string
    requires |parts| == |seps| + 1
    decreases |seps|
  {
    if |seps| == 0 then parts[0] else parts[0] + [seps[0]] + Interleave(parts[1..], seps[1..])
  }

  /** ASCII lower-casing of one character. */
  function LowerChar(c: char): char
  {
    if 'A' <= c <= 'Z' then (c as int + 32) as char else c
  }

  /** `toLowerCase` restricted to ASCII letters. */
  function Lower(s: string): (r: string)
    ensures |r| == |s|
    ensures forall i :: 0 <= i < |s| ==> r[i] == LowerChar(s[i])
    ensures forall i :: 0 <= i < |r| ==> !('A' <= r[i] <= 'Z')
    ensures forall i :: 0 <= i < |s| && !('A' <= s[i] <= 'Z') ==> r[i] == s[i]
  {
    seq(|s|, i requires 0 <= i < |s| => LowerChar(s[i]))
  }

  /** `pat` occurs in `s` starting at index `k`. */
  predicate OccursAt(s: string, pat: string, k: nat) {
    k + |pat| <= |s| && s[k..k + |pat|] == pat
  }

  /** `String.prototype.indexOf` from position `from`: the first occurrence at or after it. */
  function IndexOfFrom(s: string, pat: string, from: nat): (r: Option<nat>)
    ensures r.Some? ==> from <= r.value && OccursAt(s, pat, r.value)
    ensures r.Some? ==> forall k :: from <= k < r.value ==> !OccursAt(s, pat, k)
    ensures r.None? ==> forall k :: from <= k ==> !OccursAt(s, pat, k)
    decreases |s| - from
  {
    if from + |pat| > |s| then None
    else if s[from..from + |pat|] == pat then Some(from)
    else IndexOfFrom(s, pat, from + 1)
  }

  /** `String.prototype.indexOf`: the first occurrence of `pat` in `s`. */
  function IndexOf(s: string, pat: string): Option<nat>
  {
    IndexOfFrom(s, pat, 0)
  }

  /** The text before the first `c`: `s.split(c)[0]`. */
  function TakeUntil(s: string, c: char): (r: string)
    ensures r <= s
    ensures c !in r
    ensures |r| < |s| ==> s[|r|] == c
  {
    var i := FirstWhere(s, x => x == c);
    s[..i]
  }

  // ----- lemmas -----

  /** Joining a concatenation of two non-empty lists puts one separator between the two joined halves. */
  lemma {:induction false} JoinWithAppend(a: seq<string>, b: seq<string>, sep: string)
    requires |a| > 0 && |b| > 0
    ensures JoinWith(a + b, sep) == JoinWith(a, sep) + sep + JoinWith(b, sep)
    decreases |a|
  {
    if |a| == 1 {
      assert (a + b)[0] == a[0] && (a + b)[1..] == b;
    } else {
      assert (a + b)[0] == a[0] && (a + b)[1..] == a[1..] + b;
      JoinWithAppend(a[1..], b, sep);
    }
  }

  /** A join starts with the first part and ends with the last; for one
      part it is that part. */
  lemma {:induction false} JoinWithEnds(parts: seq<string>, sep: string)
    requires |parts| > 0
    ensures parts[0] <= JoinWith(parts, sep)
    ensures var r, last := JoinWith(parts, sep), parts[|parts| - 1];
            |last| <= |r| && r[|r| - |last|..] == last
    ensures |parts| == 1 ==> JoinWith(parts, sep) == parts[0]
    decreases |parts|
  {
    if |parts| > 1 {
      JoinWithEnds(parts[1..], sep);
      var r, rest := JoinWith(parts, sep), JoinWith(parts[1..], sep);
      assert r == parts[0] + sep + rest;
      var last := parts[|parts| - 1];
      assert parts[1..][|parts[1..]| - 1] == last;
      assert r[|r| - |last|..] == rest[|rest| - |last|..];
    }
  }

  /** Splitting on the one separator character and joining back with it gives the original string. */
  lemma {:induction false} JoinSplit(s: string, c: char, isSep: char -> bool)
    requires forall x :: isSep(x) <==> x == c
    ensures JoinWith(SplitWhere(s, isSep), [c]) == s
    decreases |s|
  {
    var i := FirstWhere(s, isSep);
    if i < |s| {
      var t := s[i + 1..];
      var rest := SplitWhere(t, isSep);
      JoinSplit(t, c, isSep);
      var parts := [s[..i]] + rest;
      assert SplitWhere(s, isSep) == parts;
      assert parts[0] == s[..i] && parts[1..] == rest;
      assert JoinWith(parts, [c]) == s[..i] + [c] + t;
      assert s == s[..i] + [s[i]] + t;
    }
  }

  /** Splitting a separator-free part followed by a separator yields that part, then the split of the rest. */
  lemma SplitAfterPart(a: string, c: char, t: string, isSep: char -> bool)
    requires isSep(c) && NoneWhere(a, isSep)
    ensures SplitWhere(a + [c] + t, isSep) == [a] + SplitWhere(t, isSep)
  {
    var s := a + [c] + t;
    var i := FirstWhere(s, isSep);
    assert s[|a|] == c;
    assert forall k :: 0 <= k < |a| ==> s[k] == a[k];
    assert i == |a|;
    assert s[..i] == a;
    assert s[i + 1..] == t;
  }

  /** Joining separator-free parts with a separator character and splitting again recovers the parts. */
  lemma {:induction false} SplitJoin(parts: seq<string>, c: char, isSep: char -> bool)
    requires |parts| > 0
    requires isSep(c)
    requires forall i :: 0 <= i < |parts| ==> NoneWhere(parts[i], isSep)
    ensures SplitWhere(JoinWith(parts, [c]), isSep) == parts
    decreases |parts|
  {
    if |parts| == 1 {
      assert FirstWhere(parts[0], isSep) == |parts[0]|;
    } else {
      SplitAfterPart(parts[0], c, JoinWith(parts[1..], [c]), isSep);
      SplitJoin(parts[1..], c, isSep);
      assert parts == [parts[0]] + parts[1..];
    }
  }

  /** Concatenation distributes over sequence append. */
  lemma {:induction false} ConcatAppend(a: seq<string>, b: seq<string>)
    ensures Concat(a + b) == Concat(a) + Concat(b)
    decreases |a|
  {
    if |a| > 0 {
      assert (a + b)[0] == a[0] && (a + b)[1..] == a[1..] + b;
      ConcatAppend(a[1..], b);
    } else {
      assert a + b == b;
    }
  }

  /** Dropping empty parts does not change the concatenation. */
  lemma {:induction false} ConcatRemoveEmpty(parts: seq<string>)
    ensures Concat(RemoveEmpty(parts)) == Concat(parts)
    decreases |parts|
  {
    if |parts| > 0 {
      ConcatRemoveEmpty(parts[1..]);
    }
  }

  /** The pieces of a split, concatenated, are the string with its separators removed. */
  lemma {:induction false} ConcatSplit(s: string, isSep: char -> bool)
    ensures Concat(SplitWhere(s, isSep)) == RemoveWhere(s, isSep)
    decreases |s|
  {
    var i := FirstWhere(s, isSep);
    RemoveWherePrefix(s, i, isSep);
    if i < |s| {
      ConcatSplit(s[i + 1..], isSep);
      assert s[i..] == [s[i]] + s[i + 1..];
      assert RemoveWhere(s[i..], isSep) == RemoveWhere(s[i + 1..], isSep);
    } else {
      assert s[i..] == [];
    }
  }

  /** Helper: a prefix made only of removed characters leaves nothing behind. */
  lemma {:induction false} RemoveWhereDrop(s: string, i: nat, p: char -> bool)
    requires i <= |s|
    requires forall k :: 0 <= k < i ==> p(s[k])
    ensures RemoveWhere(s, p) == RemoveWhere(s[i..], p)
    decreases i
  {
    if i > 0 {
      RemoveWhereDrop(s[1..], i - 1, p);
      assert s[1..][i - 1..] == s[i..];
    }
  }

  /** Helper: the separators of a separator-free part, a separator and a rest. */
  lemma SeparatorsAfterPart(a: string, c: char, t: string, isSep: char -> bool)
    requires isSep(c) && NoneWhere(a, isSep)
    ensures Separators(a + [c] + t, isSep) == [c] + Separators(t, isSep)
  {
    var s := a + [c] + t;
    assert forall k :: 0 <= k < |a| ==> s[k] == a[k];
    RemoveWhereDrop(s, |a|, x => !isSep(x));
    assert s[|a|..] == [c] + t;
    assert s[|a|..][1..] == t;
  }

  /** The pieces of a split are exactly the runs between separators: there
      is one more piece than separator characters, and putting the text's
      separators back between the pieces, in order, gives the text. */
  lemma {:induction false} SplitInterleave(s: string, isSep: char -> bool)
    ensures |SplitWhere(s, isSep)| == |Separators(s, isSep)| + 1
    ensures Interleave(SplitWhere(s, isSep), Separators(s, isSep)) == s
    decreases |s|
  {
    var i := FirstWhere(s, isSep);
    if i == |s| {
      RemoveWhereDrop(s, i, x => !isSep(x));
      assert s[i..] == [];
    } else {
      var t := s[i + 1..];
      assert s == s[..i] + [s[i]] + t;
      SplitAfterPart(s[..i], s[i], t, isSep);
      SeparatorsAfterPart(s[..i], s[i], t, isSep);
      SplitInterleave(t, isSep);
    }
  }

  /** Conversely, interleaving separator-free parts with separator characters
      and splitting again gives back the parts and the separators. */
  lemma {:induction false} InterleaveSplit(parts: seq<string>, seps: string, isSep: char -> bool)
    requires |parts| == |seps| + 1
    requires forall i :: 0 <= i < |parts| ==> NoneWhere(parts[i], isSep)
    requires forall i :: 0 <= i < |seps| ==> isSep(seps[i])
    ensures SplitWhere(Interleave(parts, seps), isSep) == parts
    ensures Separators(Interleave(parts, seps), isSep) == seps
    decreases |seps|
  {
    if |seps| == 0 {
      assert FirstWhere(parts[0], isSep) == |parts[0]|;
      RemoveWhereDrop(parts[0], |parts[0]|, x => !isSep(x));
      assert parts[0][|parts[0]|..] == [];
    } else {
      var rest := Interleave(parts[1..], seps[1..]);
      SplitAfterPart(parts[0], seps[0], rest, isSep);
      SeparatorsAfterPart(parts[0], seps[0], rest, isSep);
      InterleaveSplit(parts[1..], seps[1..], isSep);
      assert parts == [parts[0]] + parts[1..];
      assert seps == [seps[0]] + seps[1..];
    }
  }

  /** Dropping empty parts distributes over concatenation of lists, so the
      kept parts stay in their order. */
  lemma {:induction false} RemoveEmptyAppend(a: seq<string>, b: seq<string>)
    ensures RemoveEmpty(a + b) == RemoveEmpty(a) + RemoveEmpty(b)
    decreases |a|
  {
    if |a| == 0 {
      assert a + b == b;
    } else {
      assert (a + b)[0] == a[0] && (a + b)[1..] == a[1..] + b;
      RemoveEmptyAppend(a[1..], b);
    }
  }

  /** Helper: a separator-free prefix survives RemoveWhere unchanged. */
  lemma {:induction false} RemoveWherePrefix(s: string, i: nat, p: char -> bool)
    requires i <= |s|
    requires forall k :: 0 <= k < i ==> !p(s[k])
    ensures RemoveWhere(s, p) == s[..i] + RemoveWhere(s[i..], p)
    decreases i
  {
    if i > 0 {
      RemoveWherePrefix(s[1..], i - 1, p);
      assert s[1..][..i - 1] == s[1..i];
      assert s[1..][i - 1..] == s[i..];
      assert s[..i] == [s[0]] + s[1..i];
    }
  }
}
