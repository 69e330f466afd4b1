/** The `!`-command registry and dispatcher
    (src/discord/command/command.service.ts): a name-to-handler map that
    rejects duplicate names, and a tokenizer that drops the first character
    of a message, trims it and splits it on runs of whitespace. Handlers are
    values of an arbitrary type `H`; running one is reported, not performed. */
module CommandService {
  import opened Base

  // ---------------------------------------------------------------------
  // Whitespace, trim and split(/\s+/)
  // ---------------------------------------------------------------------

  /** The characters JavaScript's `\s` matches, which are also the ones
      `trim` removes: the WhiteSpace and LineTerminator code points. */
  predicate IsSpace(c: char) {
    var n := c as int;
    n == 0x09 || n == 0x0A || n == 0x0B || n == 0x0C || n == 0x0D || n == 0x20
    || n == 0xA0 || n == 0x1680 || (0x2000 <= n <= 0x200A) || n == 0x2028 || n == 0x2029
    || n == 0x202F || n == 0x205F || n == 0x3000 || n == 0xFEFF
  }

  /** `s` holds no whitespace character. */
  predicate NoSpace(s: string) {
    forall i :: 0 <= i < |s| ==> !IsSpace(s[i])
  }

  /** `s.slice(1)`: everything after the first character (empty stays empty). */
  function DropFirst(s: string): (r: string)
    ensures |s| > 0 ==> [s[0]] + r == s
    ensures |s| == 0 ==> r == ""
  {
    if |s| == 0 then "" else s[1..]
  }

  /** Index of the first character at or after `i` that is not whitespace. */
  function SkipSpaces(s: string, i: nat): (j: nat)
    requires i <= |s|
    ensures i <= j <= |s|
    ensures forall k :: i <= k < j ==> IsSpace(s[k])
    ensures j < |s| ==> !IsSpace(s[j])
    decreases |s| - i
  {
    if i < |s| && IsSpace(s[i]) then SkipSpaces(s, i + 1) else i
  }

  /** One past the last character of `s[..j]` that is not whitespace. */
  function TrimEndFrom(s: string, j: nat): (k: nat)
    requires j <= |s|
    ensures k <= j
    ensures forall m :: k <= m < j ==> IsSpace(s[m])
    ensures k > 0 ==> !IsSpace(s[k - 1])
  {
    if j > 0 && IsSpace(s[j - 1]) then TrimEndFrom(s, j - 1) else j
  }

  /** Every character of `s` is whitespace. */
  predicate AllSpace(s: string) {
    forall i :: 0 <= i < |s| ==> IsSpace(s[i])
  }

  /** `s.trim()`: the middle of `s` once the whitespace runs at both ends
      are cut off. */
  function Trim(s: string): (t: string)
    ensures exists i, j :: 0 <= i <= j <= |s| && t == s[i..j] && AllSpace(s[..i]) && AllSpace(s[j..])
    ensures |t| > 0 ==> !IsSpace(t[0]) && !IsSpace(t[|t| - 1])
    ensures AllSpace(s) <==> t == ""
  {
    var i := SkipSpaces(s, 0);
    var j := TrimEndFrom(s, |s|);
    if j <= i then
      assert AllSpace(s[..|s|]) && AllSpace(s[|s|..]) && s[|s|..|s|] == "";
      ""
    else
      assert AllSpace(s[..i]) && AllSpace(s[j..]);
      s[i..j]
  }

  /** Index of the first whitespace character at or after `i`, if any. */
  function NextSpace(s: string, i: nat): (r: Option<nat>)
    requires i <= |s|
    ensures r.Some? ==> i <= r.value < |s| && IsSpace(s[r.value])
    ensures r.Some? ==> forall k :: i <= k < r.value ==> !IsSpace(s[k])
    ensures r.None? ==> forall k :: i <= k < |s| ==> !IsSpace(s[k])
    decreases |s| - i
  {
    if i == |s| then None
    else if IsSpace(s[i]) then Some(i)
    else NextSpace(s, i + 1)
  }

  /** `s.split(/\s+/)`: the pieces between maximal runs of whitespace,
      left to right (a leading or trailing run yields an empty piece). */
  function SplitSpaces(s: string): (parts: seq<string>)
    ensures |parts| >= 1
    decreases |s|
  {
    match NextSpace(s, 0)
    case None => [s]
    case Some(i) =>
      var j := SkipSpaces(s, i);
      [s[..i]] + SplitSpaces(s[j..])
  }

  /** `const [command, ...args] = content.slice(1).trim().split(/\s+/)`:
      the command word holds no whitespace, and every argument is a
      non-empty run of non-whitespace characters. */
  function Tokenize(content: string): (r: (string, seq<string>))
    ensures NoSpace(r.0)
    ensures forall k :: 0 <= k < |r.1| ==> |r.1[k]| > 0 && NoSpace(r.1[k])
  {
    var t := Trim(DropFirst(content));
    var parts := SplitSpaces(t);
    SplitSpacesNoSpace(t);
    if |t| > 0 then
      SplitSpacesNonEmpty(t);
      (parts[0], parts[1..])
    else
      assert parts == [t];
      (parts[0], parts[1..])
  }

  // ---------------------------------------------------------------------
  // The registry
  // ---------------------------------------------------------------------

  /** `commands`: the registered handlers by name. */
  type Registry<H> = map<string, H>

  datatype RegisterResult<H> = Registered(registry: Registry<H>) | AlreadyRegistered(message: string)

  /** `registerCommand(command, handler)`: throws on a name already present. */
  function Register<H>(reg: Registry<H>, command: string, handler: H): (r: RegisterResult<H>)
    ensures r.AlreadyRegistered? <==> command in reg
    ensures r.AlreadyRegistered? ==> r.message == "Command \"" + command + "\" is already registered."
    ensures r.Registered? ==> command in r.registry && r.registry[command] == handler
    ensures r.Registered? ==> forall n :: n != command ==> (n in r.registry <==> n in reg)
    ensures r.Registered? ==> forall n :: n != command && n in reg ==> r.registry[n] == reg[n]
  {
    if command in reg then AlreadyRegistered("Command \"" + command + "\" is already registered.")
    else Registered(reg[command := handler])
  }

  /** What handling a message does: run one handler once with the args, or reply. */
  datatype Outcome<H> = Invoked(handler: H, args: seq<string>) | Replied(text: string)

  /** `handleCommand(message)`. */
  function HandleCommand<H>(reg: Registry<H>, content: string): (r: Outcome<H>)
    ensures var (command, args) := Tokenize(content);
            && (command in reg <==> r.Invoked?)
            && (r.Invoked? ==> r.handler == reg[command] && r.args == args)
            && (r.Replied? ==> r.text == "Unknown command: " + command)
  {
    var (command, args) := Tokenize(content);
    if command in reg then Invoked(reg[command], args)
    else Replied("Unknown command: " + command)
  }

  // ---------------------------------------------------------------------
  // Properties of the tokenizer
  // ---------------------------------------------------------------------

  /** No piece of `split(/\s+/)` holds whitespace. */
  lemma {:induction false} SplitSpacesNoSpace(s: string)
    ensures forall k :: 0 <= k < |SplitSpaces(s)| ==> NoSpace(SplitSpaces(s)[k])
    decreases |s|
  {
    match NextSpace(s, 0)
    case None =>
    case Some(i) =>
      var j := SkipSpaces(s, i);
      SplitSpacesNoSpace(s[j..]);
      assert SplitSpaces(s) == [s[..i]] + SplitSpaces(s[j..]);
  }

  /** On text without leading or trailing whitespace every piece is non-empty. */
  lemma {:induction false} SplitSpacesNonEmpty(s: string)
    requires |s| > 0 && !IsSpace(s[0]) && !IsSpace(s[|s| - 1])
    ensures forall k :: 0 <= k < |SplitSpaces(s)| ==> |SplitSpaces(s)[k]| > 0
    decreases |s|
  {
    match NextSpace(s, 0)
    case None =>
    case Some(i) =>
      var j := SkipSpaces(s, i);
      assert j < |s|;
      SplitSpacesNonEmpty(s[j..]);
      assert SplitSpaces(s) == [s[..i]] + SplitSpaces(s[j..]);
  }

  /** A blank remainder gives the empty command and no arguments. */
  lemma BlankContent(content: string)
    requires AllSpace(DropFirst(content))
    ensures Tokenize(content) == ("", [])
  {
    assert Trim(DropFirst(content)) == "";
    assert NextSpace("", 0) == None;
    assert SplitSpaces("") == [""];
    assert [""][1..] == [];
  }

  /** `xs.join(' ')`. */
  function JoinSpace(xs: seq<string>): string
    decreases |xs|
  {
    if |xs| == 0 then "" else if |xs| == 1 then xs[0] else xs[0] + " " + JoinSpace(xs[1..])
  }

  /** A word followed by one space splits off as the first piece. */
  lemma SplitSpacesCons(x: string, rest: string)
    requires |x| > 0 && NoSpace(x)
    requires |rest| > 0 && !IsSpace(rest[0])
    ensures SplitSpaces(x + " " + rest) == [x] + SplitSpaces(rest)
  {
    var s := x + " " + rest;
    assert forall k :: 0 <= k < |x| ==> s[k] == x[k];
    assert NextSpace(s, |x|) == Some(|x|);
    NextSpaceSkipsWord(s, 0, |x|);
    assert s[|x| + 1] == rest[0];
    assert SkipSpaces(s, |x|) == |x| + 1 by {
      assert SkipSpaces(s, |x| + 1) == |x| + 1;
    }
    assert s[..|x|] == x;
    assert s[|x| + 1..] == rest;
  }

  /** The scan for whitespace passes over a run of non-space characters. */
  lemma {:induction false} NextSpaceSkipsWord(s: string, i: nat, j: nat)
    requires i <= j <= |s|
    requires forall k :: i <= k < j ==> !IsSpace(s[k])
    ensures NextSpace(s, i) == NextSpace(s, j)
    decreases j - i
  {
    if i < j {
      NextSpaceSkipsWord(s, i + 1, j);
    }
  }

  /** The pieces of single-space-joined words come back. */
  lemma {:induction false} SplitJoinSpace(xs: seq<string>)
    requires |xs| >= 1
    requires forall k :: 0 <= k < |xs| ==> |xs[k]| > 0 && NoSpace(xs[k])
    ensures SplitSpaces(JoinSpace(xs)) == xs
    decreases |xs|
  {
    if |xs| == 1 {
      assert NextSpace(xs[0], 0) == None by {
        NextSpaceSkipsWord(xs[0], 0, |xs[0]|);
      }
    } else {
      var rest := JoinSpace(xs[1..]);
      JoinSpaceShape(xs[1..]);
      SplitSpacesCons(xs[0], rest);
      SplitJoinSpace(xs[1..]);
    }
  }

  /** A join of non-empty words starts and ends with a non-space character. */
  lemma {:induction false} JoinSpaceShape(xs: seq<string>)
    requires |xs| >= 1
    requires forall k :: 0 <= k < |xs| ==> |xs[k]| > 0 && NoSpace(xs[k])
    ensures |JoinSpace(xs)| > 0
    ensures !IsSpace(JoinSpace(xs)[0]) && !IsSpace(JoinSpace(xs)[|JoinSpace(xs)| - 1])
    decreases |xs|
  {
    if |xs| > 1 {
      JoinSpaceShape(xs[1..]);
      var r := JoinSpace(xs[1..]);
      assert JoinSpace(xs) == xs[0] + " " + r;
      assert JoinSpace(xs)[0] == xs[0][0];
      assert JoinSpace(xs)[|JoinSpace(xs)| - 1] == r[|r| - 1];
    }
  }

  /** Trimming text that neither starts nor ends with whitespace changes nothing. */
  lemma TrimTrimmed(s: string)
    requires |s| > 0 && !IsSpace(s[0]) && !IsSpace(s[|s| - 1])
    ensures Trim(s) == s
  {
    assert SkipSpaces(s, 0) == 0;
    assert TrimEndFrom(s, |s|) == |s|;
  }

  /** Tokenizing gives back a command line written as `!command arg1 arg2 ...`:
      the tokenizer and `join(' ')` are inverse on whitespace-free words. */
  lemma TokenizeJoin(c: char, command: string, args: seq<string>)
    requires |command| > 0 && NoSpace(command)
    requires forall k :: 0 <= k < |args| ==> |args[k]| > 0 && NoSpace(args[k])
    ensures Tokenize([c] + JoinSpace([command] + args)) == (command, args)
  {
    var xs := [command] + args;
    assert forall k :: 0 <= k < |xs| ==> |xs[k]| > 0 && NoSpace(xs[k]);
    var line := JoinSpace(xs);
    assert DropFirst([c] + line) == line;
    JoinSpaceShape(xs);
    TrimTrimmed(line);
    SplitJoinSpace(xs);
    assert xs[1..] == args;
  }

  /** Non-empty words without whitespace. */
  predicate Words(ws: seq<string>) {
    forall k :: 0 <= k < |ws| ==> |ws[k]| > 0 && NoSpace(ws[k])
  }

  /** Non-empty runs of whitespace of any kind: spaces, tabs, newlines. */
  predicate Gaps(gaps: seq<string>) {
    forall k :: 0 <= k < |gaps| ==> |gaps[k]| > 0 && AllSpace(gaps[k])
  }

  /** Words with a whitespace run between each two:
      `ws[0] + gaps[0] + ws[1] + ... + ws[n - 1]`. */
  function Interleave(ws: seq<string>, gaps: seq<string>): string
    requires |ws| >= 1 && |gaps| == |ws| - 1
    decreases |ws|
  {
    if |ws| == 1 then ws[0] else ws[0] + gaps[0] + Interleave(ws[1..], gaps[1..])
  }

  /** The scan past whitespace stops at the first non-space character. */
  lemma {:induction false} SkipSpacesOver(s: string, i: nat, j: nat)
    requires i <= j <= |s|
    requires forall k :: i <= k < j ==> IsSpace(s[k])
    requires j < |s| ==> !IsSpace(s[j])
    ensures SkipSpaces(s, i) == j
    decreases j - i
  {
    if i < j {
      SkipSpacesOver(s, i + 1, j);
    }
  }

  /** The backward scan past trailing whitespace stops after the last
      non-space character. */
  lemma {:induction false} TrimEndOver(s: string, k: nat, j: nat)
    requires k <= j <= |s|
    requires forall m :: k <= m < j ==> IsSpace(s[m])
    requires k > 0 ==> !IsSpace(s[k - 1])
    ensures TrimEndFrom(s, j) == k
    decreases j - k
  {
    if k < j {
      TrimEndOver(s, k, j - 1);
    }
  }

  /** `trim` removes exactly the whitespace runs around a line that starts
      and ends with a non-space character. */
  lemma TrimAround(lead: string, line: string, trail: string)
    requires AllSpace(lead) && AllSpace(trail)
    requires |line| > 0 && !IsSpace(line[0]) && !IsSpace(line[|line| - 1])
    ensures Trim(lead + line + trail) == line
  {
    var s := lead + line + trail;
    var i, j := |lead|, |lead| + |line|;
    assert forall k :: 0 <= k < i ==> s[k] == lead[k];
    assert s[i] == line[0];
    SkipSpacesOver(s, 0, i);
    assert forall m :: j <= m < |s| ==> s[m] == trail[m - j];
    assert s[j - 1] == line[|line| - 1];
    TrimEndOver(s, j, |s|);
    assert s[i..j] == line;
  }

  /** A word followed by a whitespace run of any length and kind splits off
      as the first piece. */
  lemma SplitSpacesGap(x: string, g: string, rest: string)
    requires |x| > 0 && NoSpace(x)
    requires |g| > 0 && AllSpace(g)
    requires |rest| > 0 && !IsSpace(rest[0])
    ensures SplitSpaces(x + g + rest) == [x] + SplitSpaces(rest)
  {
    var s := x + g + rest;
    var n, m := |x|, |x| + |g|;
    assert forall k :: 0 <= k < n ==> s[k] == x[k];
    NextSpaceSkipsWord(s, 0, n);
    assert s[n] == g[0];
    assert NextSpace(s, n) == Some(n);
    assert forall k :: n <= k < m ==> s[k] == g[k - n];
    assert s[m] == rest[0];
    SkipSpacesOver(s, n, m);
    assert s[..n] == x;
    assert s[m..] == rest;
  }

  /** Interleaved words start and end with a non-space character. */
  lemma {:induction false} InterleaveShape(ws: seq<string>, gaps: seq<string>)
    requires |ws| >= 1 && |gaps| == |ws| - 1 && Words(ws)
    ensures var t := Interleave(ws, gaps);
            |t| > 0 && !IsSpace(t[0]) && !IsSpace(t[|t| - 1])
    decreases |ws|
  {
    if |ws| > 1 {
      InterleaveShape(ws[1..], gaps[1..]);
      var r := Interleave(ws[1..], gaps[1..]);
      var t := ws[0] + gaps[0] + r;
      assert Interleave(ws, gaps) == t;
      assert t[0] == ws[0][0];
      assert t[|t| - 1] == r[|r| - 1];
    }
  }

  /** `split(/\s+/)` gives back words separated by arbitrary whitespace runs. */
  lemma {:induction false} SplitInterleave(ws: seq<string>, gaps: seq<string>)
    requires |ws| >= 1 && |gaps| == |ws| - 1 && Words(ws) && Gaps(gaps)
    ensures SplitSpaces(Interleave(ws, gaps)) == ws
    decreases |ws|
  {
    if |ws| == 1 {
      NextSpaceSkipsWord(ws[0], 0, |ws[0]|);
    } else {
      var rest := Interleave(ws[1..], gaps[1..]);
      InterleaveShape(ws[1..], gaps[1..]);
      SplitSpacesGap(ws[0], gaps[0], rest);
      SplitInterleave(ws[1..], gaps[1..]);
    }
  }

  /** Tokenizing a command line with any whitespace layout: after the
      prefix character, optional whitespace, the words separated by runs of
      whitespace of any length and kind, and optional trailing whitespace,
      the command is the first word and the arguments are the others. */
  lemma TokenizeWords(c: char, lead: string, ws: seq<string>, gaps: seq<string>, trail: string)
    requires |ws| >= 1 && |gaps| == |ws| - 1 && Words(ws) && Gaps(gaps)
    requires AllSpace(lead) && AllSpace(trail)
    ensures Tokenize([c] + lead + Interleave(ws, gaps) + trail) == (ws[0], ws[1..])
  {
    var line := Interleave(ws, gaps);
    var rest := lead + line + trail;
    ConsAssoc(c, lead, line, trail);
    DropFirstCons(c, rest);
    InterleaveShape(ws, gaps);
    TrimAround(lead, line, trail);
    SplitInterleave(ws, gaps);
    TokenizeUnfold([c] + rest);
    hide *;
  }

  /** Regrouping a line behind its prefix character. */
  lemma ConsAssoc(c: char, a: string, b: string, d: string)
    ensures [c] + a + b + d == [c] + (a + b + d)
  {
  }

  /** `slice(1)` drops exactly the prefix character. */
  lemma DropFirstCons(c: char, rest: string)
    ensures DropFirst([c] + rest) == rest
  {
    assert ([c] + rest)[1..] == rest;
  }

  /** The definition of `Tokenize`, for proofs that hide function bodies. */
  lemma TokenizeUnfold(content: string)
    ensures var parts := SplitSpaces(Trim(DropFirst(content)));
            Tokenize(content) == (parts[0], parts[1..])
  {
  }

  // ---------------------------------------------------------------------
  // Properties of the registry
  // ---------------------------------------------------------------------

  /** A name registered into the map dispatches to its handler with the
      message's arguments; every other name dispatches as before. */
  lemma RegisterThenHandle<H>(reg: Registry<H>, command: string, handler: H, content: string)
    requires command !in reg
    ensures Register(reg, command, handler).Registered?
    ensures var reg' := Register(reg, command, handler).registry;
            Tokenize(content).0 == command ==>
              HandleCommand(reg', content) == Invoked(handler, Tokenize(content).1)
    ensures var reg' := Register(reg, command, handler).registry;
            Tokenize(content).0 != command ==>
              HandleCommand(reg', content) == HandleCommand(reg, content)
  {
  }

  /** Registration then dispatch: a name can be registered at most once, so
      after any sequence of registrations the first handler given for a
      name is the one that runs. */
  lemma FirstRegistrationWins<H>(reg: Registry<H>, command: string, h1: H, h2: H, content: string)
    requires command !in reg
    requires Tokenize(content).0 == command
    ensures var r1 := Register(reg, command, h1);
            && r1.Registered?
            && Register(r1.registry, command, h2).AlreadyRegistered?
            && HandleCommand(r1.registry, content) == Invoked(h1, Tokenize(content).1)
  {
  }
}
