/** The call pattern of the prompt compiler,
      /(\w+)\(((?:[^()]+|\((?:[^()]+|\([^()]*\))*\))*)\)/
    (src/prompt-compiler/prompt-compiler.service.ts:6): a run of word
    characters, an opening parenthesis, an argument text whose parentheses
    balance and nest at most two levels deep, and the closing parenthesis.

    `MatchesAt` describes the language of the pattern declaratively; `FindCall`
    is a scanner that returns what `RegExp.prototype.exec` returns on a fresh
    regex (the leftmost match), and the two are proved to agree. */
module CallPattern {
  import opened Base
  import opened Text

  /** `\w` without the `u` flag: ASCII letters, digits and the underscore. */
  predicate IsWordChar(c: char) {
    'a' <= c <= 'z' || 'A' <= c <= 'Z' || '0' <= c <= '9' || c == '_'
  }

  /** How a character moves the parenthesis depth. */
  function Step(c: char): int {
    if c == '(' then 1 else if c == ')' then -1 else 0
  }

  /** Net parenthesis depth of `s[lo..hi]`. */
  function DepthAt(s: string, lo: nat, hi: nat): int
    requires lo <= hi <= |s|
    decreases hi - lo
  {
    if hi == lo then 0 else DepthAt(s, lo, hi - 1) + Step(s[hi - 1])
  }

  /** The prefix `s[lo..q]` ends between depth 0 and depth 2. */
  predicate DepthOk(s: string, lo: nat, q: nat)
    requires lo <= q <= |s|
  {
    0 <= DepthAt(s, lo, q) <= 2
  }

  /** Every prefix of `s[lo..hi]` stays between depth 0 and depth 2. */
  predicate WithinTwo(s: string, lo: nat, hi: nat)
    requires lo <= hi <= |s|
  {
    forall q :: lo <= q <= hi ==> DepthOk(s, lo, q)
  }

  /** `s[lo..hi]` belongs to the language of the argument group
      `(?:[^()]+|\((?:[^()]+|\([^()]*\))*\))*`: its parentheses balance and
      never nest more than two levels deep. */
  predicate BalancedSpan(s: string, lo: nat, hi: nat)
    requires lo <= hi <= |s|
  {
    WithinTwo(s, lo, hi) && DepthAt(s, lo, hi) == 0
  }

  /** The pattern matches `s[start..close + 1]`, with name `s[start..open]`
      and argument text `s[open + 1..close]`. */
  predicate MatchesAt(s: string, start: nat, open: nat, close: nat) {
    && start < open < close < |s|
    && (forall i :: start <= i < open ==> IsWordChar(s[i]))
    && s[open] == '('
    && s[close] == ')'
    && BalancedSpan(s, open + 1, close)
  }

  /** No substring of `s` matches the call pattern. */
  ghost predicate NoCall(s: string) {
    forall start: nat, open: nat, close: nat :: !MatchesAt(s, start, open, close)
  }

  /** The positions of one match: name from `start`, `(` at `open`, `)` at `close`. */
  datatype Call = Call(start: nat, open: nat, close: nat)

  predicate IsCall(s: string, c: Call) {
    MatchesAt(s, c.start, c.open, c.close)
  }

  /** `c` is a match and no match starts further left. */
  ghost predicate IsLeftmost(s: string, c: Call) {
    && IsCall(s, c)
    && forall q: nat, o: nat, k: nat :: q < c.start ==> !MatchesAt(s, q, o, k)
  }

  /** `match[1]`: the function name. */
  function Name(s: string, c: Call): string
    requires IsCall(s, c)
  {
    s[c.start..c.open]
  }

  /** `match[2]`: the argument text. */
  function Args(s: string, c: Call): string
    requires IsCall(s, c)
  {
    s[c.open + 1..c.close]
  }

  /** `match[0]`: the whole matched text. */
  function Matched(s: string, c: Call): string
    requires IsCall(s, c)
  {
    s[c.start..c.close + 1]
  }

  /** End of the run of word characters that starts at `i`. */
  function WordEnd(s: string, i: nat): (j: nat)
    requires i <= |s|
    ensures i <= j <= |s|
    ensures forall k :: i <= k < j ==> IsWordChar(s[k])
    ensures j < |s| ==> !IsWordChar(s[j])
    decreases |s| - i
  {
    if i < |s| && IsWordChar(s[i]) then WordEnd(s, i + 1) else i
  }

  /** Scans an argument group from `p`, at depth `d`, for the `)` that closes
      it; `None` when the group nests a third level or runs off the end. */
  function CloseFrom(s: string, p: nat, d: nat): Option<nat>
    requires p <= |s| && d <= 2
    decreases |s| - p
  {
    if p == |s| then None
    else if s[p] == '(' then (if d == 2 then None else CloseFrom(s, p + 1, d + 1))
    else if s[p] == ')' then (if d == 0 then Some(p) else CloseFrom(s, p + 1, d - 1))
    else CloseFrom(s, p + 1, d)
  }

  /** A result of the scan closes a balanced argument group. */
  lemma {:induction false} CloseFromSound(s: string, lo: nat, p: nat, d: nat)
    requires lo <= p <= |s| && d <= 2
    requires d == DepthAt(s, lo, p) && WithinTwo(s, lo, p)
    ensures CloseFrom(s, p, d).Some? ==>
              var k := CloseFrom(s, p, d).value;
              p <= k < |s| && s[k] == ')' && BalancedSpan(s, lo, k)
    decreases |s| - p
  {
    if p < |s| {
      assert DepthAt(s, lo, p + 1) == d + Step(s[p]);
      if s[p] == '(' {
        if d < 2 {
          CloseFromSound(s, lo, p + 1, d + 1);
        }
      } else if s[p] == ')' {
        if d > 0 {
          CloseFromSound(s, lo, p + 1, d - 1);
        }
      } else {
        CloseFromSound(s, lo, p + 1, d);
      }
    }
  }

  /** The scan finds every balanced argument group's closing `)`. */
  lemma {:induction false} CloseFromComplete(s: string, lo: nat, p: nat, d: nat, k: nat)
    requires lo <= p <= k < |s| && d <= 2
    requires d == DepthAt(s, lo, p)
    requires s[k] == ')' && BalancedSpan(s, lo, k)
    ensures CloseFrom(s, p, d) == Some(k)
    decreases k - p
  {
    if p < k {
      assert DepthAt(s, lo, p + 1) == d + Step(s[p]);
      assert DepthOk(s, lo, p + 1);
      CloseFromComplete(s, lo, p + 1, DepthAt(s, lo, p + 1), k);
    }
  }

  /** The match of the pattern starting at `i`, if any. */
  function CallAt(s: string, i: nat): (r: Option<Call>)
    requires i <= |s|
    ensures forall o: nat, k: nat {:trigger MatchesAt(s, i, o, k)} :: MatchesAt(s, i, o, k) <==> r == Some(Call(i, o, k))
  {
    var j := WordEnd(s, i);
    if i < j < |s| && s[j] == '(' then
      CloseFromSound(s, j + 1, j + 1, 0);
      match CloseFrom(s, j + 1, 0)
      case Some(k) =>
        CallAtUnique(s, i, j, k);
        Some(Call(i, j, k))
      case None =>
        CallAtUnique(s, i, j, |s|);
        None
    else
      CallAtUnique(s, i, j, |s|);
      None
  }

  /** A match starting at `i` opens at the end of the word run and closes at
      the `)` the scan finds: at a given start the match is unique. */
  lemma CallAtUnique(s: string, i: nat, j: nat, k: nat)
    requires i <= |s| && j == WordEnd(s, i)
    ensures forall o: nat, k': nat :: MatchesAt(s, i, o, k') ==>
              o == j && j + 1 <= |s| && CloseFrom(s, j + 1, 0) == Some(k')
  {
    forall o: nat, k': nat | MatchesAt(s, i, o, k')
      ensures o == j && j + 1 <= |s| && CloseFrom(s, j + 1, 0) == Some(k')
    {
      CloseFromComplete(s, j + 1, j + 1, 0, k');
    }
  }

  /** The leftmost match starting at or after `i`. */
  function FindFrom(s: string, i: nat): (r: Option<Call>)
    requires i <= |s|
    ensures r.Some? ==> IsCall(s, r.value) && i <= r.value.start
    ensures r.Some? ==> forall q: nat, o: nat, k: nat :: i <= q < r.value.start ==> !MatchesAt(s, q, o, k)
    ensures r.None? ==> forall q: nat, o: nat, k: nat :: i <= q ==> !MatchesAt(s, q, o, k)
    decreases |s| - i
  {
    if i == |s| then None
    else
      match CallAt(s, i)
      case Some(c) => Some(c)
      case None => FindFrom(s, i + 1)
  }

  /** `getRegex().exec(s)`: the leftmost match, or `None` when nothing matches. */
  function FindCall(s: string): (r: Option<Call>)
    ensures r.Some? ==> IsLeftmost(s, r.value)
    ensures r.None? <==> NoCall(s)
  {
    FindFrom(s, 0)
  }

  /** The leftmost match is unique: the scanner's answer is the only one. */
  lemma LeftmostUnique(s: string, c: Call)
    requires IsLeftmost(s, c)
    ensures FindCall(s) == Some(c)
  {
    var r := FindCall(s);
    assert r.Some?;
    var d := r.value;
    if d.start < c.start {
    } else if c.start < d.start {
    } else {
      assert CallAt(s, c.start) == Some(c);
      assert CallAt(s, c.start) == Some(d);
    }
  }

  /** Depth only depends on the characters scanned. */
  lemma {:induction false} DepthShift(s: string, a: nat, b: nat, n: nat)
    requires a + n <= |s| && b + n <= |s|
    requires s[a..a + n] == s[b..b + n]
    ensures DepthAt(s, a, a + n) == DepthAt(s, b, b + n)
    decreases n
  {
    if n > 0 {
      assert s[a..a + n - 1] == s[a..a + n][..n - 1];
      assert s[b..b + n - 1] == s[b..b + n][..n - 1];
      assert s[a + n - 1] == s[a..a + n][n - 1];
      assert s[b + n - 1] == s[b..b + n][n - 1];
      DepthShift(s, a, b, n - 1);
    }
  }

  /** A copy of a balanced argument group is balanced. */
  lemma BalancedShift(s: string, a: nat, b: nat, n: nat)
    requires a + n <= |s| && b + n <= |s|
    requires s[a..a + n] == s[b..b + n]
    requires BalancedSpan(s, b, b + n)
    ensures BalancedSpan(s, a, a + n)
  {
    forall q | a <= q <= a + n
      ensures DepthAt(s, a, q) == DepthAt(s, b, b + (q - a))
      ensures DepthOk(s, a, q)
    {
      var x := q - a;
      assert s[a..a + x] == s[a..a + n][..x];
      assert s[b..b + x] == s[b..b + n][..x];
      DepthShift(s, a, b, x);
      assert DepthOk(s, b, b + x);
    }
  }

  /** A slice of a slice is a slice. */
  lemma SliceOfSlice(s: string, a: nat, b: nat, x: nat, y: nat)
    requires a <= b <= |s| && x <= y <= b - a
    ensures s[a..b][x..y] == s[a + x..a + y]
  {
    assert forall i :: 0 <= i < y - x ==> s[a..b][x..y][i] == s[a + x + i];
  }

  /** Equal slices agree character by character. */
  lemma CopyChar(s: string, a: nat, b: nat, len: nat, i: nat)
    requires a + len <= |s| && b + len <= |s| && s[a..a + len] == s[b..b + len]
    requires i < len
    ensures s[a + i] == s[b + i]
  {
    assert s[a + i] == s[a..a + len][i];
    assert s[b + i] == s[b..b + len][i];
  }

  /** A copied run of word characters is a run of word characters. */
  lemma WordCharsCopy(s: string, a: nat, b: nat, len: nat, o: nat)
    requires a + len <= |s| && b + len <= |s| && s[a..a + len] == s[b..b + len]
    requires o <= len
    requires forall i :: b <= i < b + o ==> IsWordChar(s[i])
    ensures forall i :: a <= i < a + o ==> IsWordChar(s[i])
  {
    forall i | a <= i < a + o
      ensures IsWordChar(s[i])
    {
      CopyChar(s, a, b, len, i - a);
    }
  }

  /** A copy of a match's text, `a - b` positions away, is a match. */
  lemma CopyMatch(s: string, a: nat, b: nat, o: nat, k: nat)
    requires a + k < |s| && b + k < |s|
    requires s[a..a + k + 1] == s[b..b + k + 1]
    requires MatchesAt(s, b, b + o, b + k)
    ensures MatchesAt(s, a, a + o, a + k)
  {
    hide BalancedSpan, DepthAt;
    var len := k + 1;
    WordCharsCopy(s, a, b, len, o);
    CopyChar(s, a, b, len, o);
    CopyChar(s, a, b, len, k);
    var n := k - (o + 1);
    SliceOfSlice(s, a, a + len, o + 1, o + 1 + n);
    SliceOfSlice(s, b, b + len, o + 1, o + 1 + n);
    BalancedShift(s, a + o + 1, b + o + 1, n);
  }

  /** Wherever the matched text of a match occurs, the pattern matches there too. */
  lemma MatchedTextMatches(s: string, c: Call, q: nat)
    requires IsCall(s, c)
    requires OccursAt(s, Matched(s, c), q)
    ensures MatchesAt(s, q, q + (c.open - c.start), q + (c.close - c.start))
  {
    var st := c.start;
    var k := c.close - st;
    assert s[q..q + k + 1] == s[st..st + k + 1];
    CopyMatch(s, q, st, c.open - st, k);
  }

  /** The leftmost match's text first occurs where it was matched, so
      `str.replace(match[0], v)` replaces exactly that match. */
  lemma LeftmostIsFirstOccurrence(s: string, c: Call)
    requires IsLeftmost(s, c)
    ensures FirstOccurrence(s, Matched(s, c), c.start)
  {
    var m := Matched(s, c);
    forall q: nat | q < c.start
      ensures !OccursAt(s, m, q)
    {
      if OccursAt(s, m, q) {
        MatchedTextMatches(s, c, q);
      }
    }
  }
}
