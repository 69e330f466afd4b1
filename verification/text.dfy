/** The JavaScript string operations the core relies on, over `seq<char>`:
    `indexOf`, `replace` with a string pattern, `split` with a string
    separator, and `join`. */
module Text {
  import opened Base

  /** `pat` occurs in `s` starting at index `q`. */
  predicate OccursAt(s: string, pat: string, q: nat) {
    q + |pat| <= |s| && s[q..q + |pat|] == pat
  }

  /** `pat` occurs somewhere in `s`. */
  predicate Contains(s: string, pat: string) {
    exists q: nat | q <= |s| :: OccursAt(s, pat, q)
  }

  /** `q` is the first index where `pat` occurs in `s`. */
  predicate FirstOccurrence(s: string, pat: string, q: nat) {
    OccursAt(s, pat, q) && forall q': nat :: q' < q ==> !OccursAt(s, pat, q')
  }

  /** `s.indexOf(pat, from)`: the first occurrence of `pat` at or after `from`. */
  function IndexOfFrom(s: string, pat: string, from: nat): (r: Option<nat>)
    decreases |s| - from
    ensures r.Some? ==> from <= r.value && OccursAt(s, pat, r.value)
    ensures r.Some? ==> forall q: nat :: from <= q < r.value ==> !OccursAt(s, pat, q)
    ensures r.None? ==> forall q: nat :: from <= q ==> !OccursAt(s, pat, q)
  {
    if from + |pat| > |s| then None
    else if s[from..from + |pat|] == pat then Some(from)
    else IndexOfFrom(s, pat, from + 1)
  }

  /** `s.indexOf(pat)`. */
  function IndexOf(s: string, pat: string): (r: Option<nat>)
    ensures r.Some? ==> FirstOccurrence(s, pat, r.value)
    ensures r.None? <==> !Contains(s, pat)
  {
    IndexOfFrom(s, pat, 0)
  }

  /** `s.replace(pat, v)` with a string pattern: only the first occurrence of
      `pat` is replaced, and `v` is inserted literally. */
  function ReplaceFirst(s: string, pat: string, v: string): (r: string)
    ensures !Contains(s, pat) ==> r == s
    ensures forall q: nat {:trigger FirstOccurrence(s, pat, q)} :: FirstOccurrence(s, pat, q) ==> r == s[..q] + v + s[q + |pat|..]
  {
    match IndexOf(s, pat)
    case None => s
    case Some(q) =>
      FirstOccurrenceUnique(s, pat, q);
      s[..q] + v + s[q + |pat|..]
  }

  /** `replace` splices over the first occurrence. */
  lemma ReplaceAtFirst(s: string, pat: string, v: string, q: nat)
    requires FirstOccurrence(s, pat, q)
    ensures q + |pat| <= |s|
    ensures ReplaceFirst(s, pat, v) == s[..q] + v + s[q + |pat|..]
  {
  }

  /** A string has at most one first occurrence of a pattern. */
  lemma FirstOccurrenceUnique(s: string, pat: string, q: nat)
    requires FirstOccurrence(s, pat, q)
    ensures forall q': nat :: FirstOccurrence(s, pat, q') ==> q' == q
  {
  }

  /** `s.split(sep)` for a non-empty string separator: the pieces between
      successive non-overlapping occurrences, scanning left to right. */
  function Split(s: string, sep: string): (parts: seq<string>)
    requires |sep| > 0
    ensures |parts| >= 1
    ensures |parts| == 1 <==> !Contains(s, sep)
    ensures !Contains(s, sep) ==> parts == [s]
    decreases |s|
  {
    match IndexOf(s, sep)
    case None => [s]
    case Some(p) => [s[..p]] + Split(s[p + |sep|..], sep)
  }

  /** One step of `split`: no separator leaves one piece; otherwise the text
      before the first separator is the first piece. */
  lemma SplitUnfold(s: string, sep: string)
    requires |sep| > 0
    ensures IndexOf(s, sep).None? ==> Split(s, sep) == [s]
    ensures IndexOf(s, sep).Some? ==>
              var p := IndexOf(s, sep).value;
              p + |sep| <= |s| && Split(s, sep) == [s[..p]] + Split(s[p + |sep|..], sep)
  {
  }

  /** `SplitUnfold` at a known first separator. */
  lemma SplitAt(s: string, sep: string, p: nat)
    requires |sep| > 0 && IndexOf(s, sep) == Some(p)
    ensures p + |sep| <= |s| && Split(s, sep) == [s[..p]] + Split(s[p + |sep|..], sep)
  {
    hide *;
    SplitUnfold(s, sep);
  }

  /** `xs.join(sep)`. */
  function Join(xs: seq<string>, sep: string): string
    decreases |xs|
  {
    if |xs| == 0 then ""
    else if |xs| == 1 then xs[0]
    else xs[0] + sep + Join(xs[1..], sep)
  }

  /** Joining a piece in front of at least one more. */
  lemma JoinCons(x: string, xs: seq<string>, sep: string)
    requires |xs| >= 1
    ensures Join([x] + xs, sep) == x + sep + Join(xs, sep)
  {
    assert ([x] + xs)[1..] == xs;
  }

  /** The text before an occurrence of `sep`, joined with pieces that make up
      the text after it, gives the whole string. */
  lemma JoinAround(s: string, sep: string, p: nat, parts: seq<string>)
    requires OccursAt(s, sep, p) && |parts| >= 1
    requires Join(parts, sep) == s[p + |sep|..]
    ensures Join([s[..p]] + parts, sep) == s
  {
    hide Join;
    JoinCons(s[..p], parts, sep);
    Reassemble(s, p, p + |sep|);
  }

  /** Cutting a sequence twice and gluing the three parts gives it back. */
  lemma Reassemble<T>(s: seq<T>, i: nat, j: nat)
    requires i <= j <= |s|
    ensures s == s[..i] + s[i..j] + s[j..]
  {
  }

  /** Joining the pieces of a split with the same separator gives back the string. */
  lemma {:induction false} JoinSplit(s: string, sep: string)
    requires |sep| > 0
    ensures Join(Split(s, sep), sep) == s
    decreases |s|
  {
    match IndexOf(s, sep)
    case None =>
      SplitUnfold(s, sep);
    case Some(p) =>
      SplitAt(s, sep, p);
      hide *;
      JoinSplit(s[p + |sep|..], sep);
      JoinAround(s, sep, p, Split(s[p + |sep|..], sep));
  }

  /** No string of `xs` contains `pat`. */
  predicate NoneContains(xs: seq<string>, pat: string) {
    forall i :: 0 <= i < |xs| ==> !Contains(xs[i], pat)
  }

  /** Adding a string free of `pat` in front keeps a list free of it. */
  lemma NoneContainsCons(x: string, xs: seq<string>, pat: string)
    requires !Contains(x, pat) && NoneContains(xs, pat)
    ensures NoneContains([x] + xs, pat)
  {
    hide Contains;
    forall i | 0 <= i < |[x] + xs|
      ensures !Contains(([x] + xs)[i], pat)
    {
      if i > 0 {
        assert ([x] + xs)[i] == xs[i - 1];
      }
    }
  }

  /** No piece of a split contains the separator. */
  lemma {:induction false} SplitPiecesAvoidSeparator(s: string, sep: string)
    requires |sep| > 0
    ensures NoneContains(Split(s, sep), sep)
    decreases |s|
  {
    match IndexOf(s, sep)
    case None =>
      SplitUnfold(s, sep);
      NoneContainsCons(s, [], sep);
      assert [s] + [] == [s];
    case Some(p) =>
      SplitAt(s, sep, p);
      var rest := s[p + |sep|..];
      SplitPiecesAvoidSeparator(rest, sep);
      PrefixAvoidsSeparator(s, sep, p);
      hide *;
      NoneContainsCons(s[..p], Split(rest, sep), sep);
  }

  /** The text before the first occurrence of a pattern does not contain it. */
  lemma PrefixAvoidsSeparator(s: string, sep: string, p: nat)
    requires |sep| > 0 && FirstOccurrence(s, sep, p)
    ensures !Contains(s[..p], sep)
  {
    var head := s[..p];
    forall q: nat | q <= |head|
      ensures !OccursAt(head, sep, q)
    {
      if q + |sep| <= |head| {
        assert head[q..q + |sep|] == s[q..q + |sep|];
        assert !OccursAt(s, sep, q);
      }
    }
  }

  /** A single character occurs as a one-character pattern exactly where it sits. */
  lemma CharOccurs(s: string, d: char)
    ensures Contains(s, [d]) <==> d in s
  {
    if d in s {
      var q :| 0 <= q < |s| && s[q] == d;
      assert s[q..q + 1] == [d];
      assert q <= |s| && OccursAt(s, [d], q);
    }
    if Contains(s, [d]) {
      var q: nat :| q <= |s| && OccursAt(s, [d], q);
      assert s[q] == s[q..q + 1][0] == d;
    }
  }

  /** A piece free of a one-character separator, followed by the separator,
      splits off as the first piece. */
  lemma SplitPrefix(x: string, d: char, rest: string)
    requires d !in x
    ensures Split(x + [d] + rest, [d]) == [x] + Split(rest, [d])
  {
    var s := x + [d] + rest;
    assert s[|x|..|x| + 1] == [d];
    assert OccursAt(s, [d], |x|);
    forall q: nat | q < |x|
      ensures !OccursAt(s, [d], q)
    {
      assert s[q..q + 1][0] == s[q] == x[q];
    }
    assert IndexOf(s, [d]) == Some(|x|);
    assert s[|x| + 1..] == rest;
    assert s[..|x|] == x;
  }

  /** Splitting a join on a one-character separator that no piece contains
      gives back the pieces: split and join are inverse. */
  lemma {:induction false} SplitJoin(xs: seq<string>, d: char)
    requires |xs| >= 1
    requires forall i :: 0 <= i < |xs| ==> d !in xs[i]
    ensures Split(Join(xs, [d]), [d]) == xs
    decreases |xs|
  {
    if |xs| == 1 {
      CharOccurs(xs[0], d);
    } else {
      var rest := Join(xs[1..], [d]);
      assert Join(xs, [d]) == xs[0] + [d] + rest;
      SplitPrefix(xs[0], d, rest);
      SplitJoin(xs[1..], d);
    }
  }
}
