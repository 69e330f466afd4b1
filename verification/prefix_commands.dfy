/** The message-prefix game commands `!savegame`, `!newgame`, `!showgames`
    and `!loadgame` (src/discord/message/command/commands/). Each takes its
    argument as `content.split(delim).slice(1)[0] || ''`; `savegame` also
    turns the argument into a file name. The game factory the commands call
    is represented by oracle parameters, and what a command does is
    returned as the list of its effects, in order. */
module PrefixCommands {
  import opened Base
  import opened Text

  // ---------------------------------------------------------------------
  // Argument extraction
  // ---------------------------------------------------------------------

  /** `content.split(delim).slice(1)[0] || ''`: the second piece of the
      split, or "" when there is none. */
  function Arg(content: string, delim: string): (a: string)
    requires |delim| > 0
    ensures !Contains(a, delim)
  {
    var pieces := Split(content, delim);
    SplitPiecesAvoidSeparator(content, delim);
    if |pieces| > 1 then pieces[1] else ""
  }

  /** The delimiters the four commands split on. `showgames` and `loadgame`
      build theirs from the command name, so they carry no `!`. */
  const SaveGameDelim: string := "!savegame "
  const NewGameDelim: string := "!newgame "
  const ShowGamesDelim: string := "showgames "
  const LoadGameDelim: string := "loadgame "

  /** Occurrences in a suffix are occurrences in the whole, shifted. */
  lemma OccursInSuffix(s: string, pat: string, from: nat, q: nat)
    requires from <= |s|
    ensures OccursAt(s[from..], pat, q) <==> OccursAt(s, pat, from + q)
  {
    if q + |pat| <= |s| - from {
      assert s[from..][q..q + |pat|] == s[from + q..from + q + |pat|];
    }
  }

  /** The first occurrence in a suffix is the next occurrence in the whole. */
  lemma IndexOfSuffix(s: string, pat: string, from: nat)
    requires from <= |s|
    ensures IndexOf(s[from..], pat).None? <==> IndexOfFrom(s, pat, from).None?
    ensures IndexOf(s[from..], pat).Some? ==> IndexOfFrom(s, pat, from) == Some(from + IndexOf(s[from..], pat).value)
  {
    hide IndexOf, IndexOfFrom;
    match IndexOf(s[from..], pat)
    case None =>
      forall p: nat | from <= p
        ensures !OccursAt(s, pat, p)
      {
        OccursInSuffix(s, pat, from, p - from);
      }
    case Some(q) =>
      OccursInSuffix(s, pat, from, q);
      forall p: nat | from <= p < from + q
        ensures !OccursAt(s, pat, p)
      {
        OccursInSuffix(s, pat, from, p - from);
      }
  }

  /** The definition of `Arg`, for proofs that hide function bodies. */
  lemma ArgUnfold(content: string, delim: string)
    requires |delim| > 0
    ensures Arg(content, delim) == (if |Split(content, delim)| > 1 then Split(content, delim)[1] else "")
  {
  }

  /** With no delimiter in the content the argument is "". */
  lemma ArgWithoutDelimiter(content: string, delim: string)
    requires |delim| > 0 && !Contains(content, delim)
    ensures Arg(content, delim) == ""
  {
    SplitUnfold(content, delim);
  }

  /** The argument runs from just after the first delimiter to the second
      one. Together with the next lemma this defines it by `indexOf`,
      independently of `split`. */
  lemma ArgUpToNextDelimiter(content: string, delim: string, p: nat, q: nat)
    requires |delim| > 0
    requires IndexOf(content, delim) == Some(p)
    requires IndexOfFrom(content, delim, p + |delim|) == Some(q)
    ensures Arg(content, delim) == content[p + |delim|..q]
  {
    hide IndexOf, IndexOfFrom, Split, Arg;
    var from := p + |delim|;
    IndexOfSuffix(content, delim, from);
    ArgIsFirstPieceAfter(content, delim, p);
    FirstPiece(content[from..], delim, q - from);
    assert content[from..][..q - from] == content[from..q];
  }

  /** The argument is the first piece of what follows the first delimiter. */
  lemma ArgIsFirstPieceAfter(content: string, delim: string, p: nat)
    requires |delim| > 0
    requires IndexOf(content, delim) == Some(p)
    ensures p + |delim| <= |content|
    ensures Arg(content, delim) == Split(content[p + |delim|..], delim)[0]
  {
    SplitAt(content, delim, p);
    ArgUnfold(content, delim);
    hide Split, Arg, IndexOf, IndexOfFrom;
    var parts := Split(content[p + |delim|..], delim);
    assert Split(content, delim) == [content[..p]] + parts;
    assert ([content[..p]] + parts)[1] == parts[0];
  }

  /** The first piece of a split ends at the first separator. */
  lemma FirstPiece(s: string, sep: string, q: nat)
    requires |sep| > 0
    requires IndexOf(s, sep) == Some(q)
    ensures q <= |s| && Split(s, sep)[0] == s[..q]
  {
    SplitUnfold(s, sep);
  }

  /** With a single delimiter the argument is everything after it. */
  lemma ArgToEnd(content: string, delim: string, p: nat)
    requires |delim| > 0
    requires IndexOf(content, delim) == Some(p)
    requires IndexOfFrom(content, delim, p + |delim|).None?
    ensures Arg(content, delim) == content[p + |delim|..]
  {
    hide Split, Arg, IndexOf, IndexOfFrom;
    var from := p + |delim|;
    IndexOfSuffix(content, delim, from);
    ArgIsFirstPieceAfter(content, delim, p);
    SplitUnfold(content[from..], delim);
  }

  /** The argument as `indexOf` locates it, independently of `split`: the
      text from just after the first delimiter up to the next one, or to
      the end when there is no next one; "" when there is no delimiter. */
  predicate DelimitedArg(content: string, delim: string, a: string)
    requires |delim| > 0
  {
    match IndexOf(content, delim)
    case None => a == ""
    case Some(p) =>
      match IndexOfFrom(content, delim, p + |delim|)
      case None => a == content[p + |delim|..]
      case Some(q) => a == content[p + |delim|..q]
  }

  /** `split` and `indexOf` agree on the argument. */
  lemma ArgIsDelimited(content: string, delim: string)
    requires |delim| > 0
    ensures DelimitedArg(content, delim, Arg(content, delim))
  {
    hide Split, Arg, IndexOfFrom, Contains;
    match IndexOf(content, delim)
    case None =>
      ArgWithoutDelimiter(content, delim);
    case Some(p) =>
      match IndexOfFrom(content, delim, p + |delim|)
      case None =>
        ArgToEnd(content, delim, p);
      case Some(q) =>
        ArgUpToNextDelimiter(content, delim, p, q);
  }

  /** The `indexOf` description names exactly one text: the argument. */
  lemma DelimitedArgIsArg(content: string, delim: string)
    requires |delim| > 0
    ensures forall a :: DelimitedArg(content, delim, a) <==> a == Arg(content, delim)
  {
    ArgIsDelimited(content, delim);
  }

  /** Whatever precedes the first delimiter is discarded, and an argument
      written after the delimiter comes back intact. */
  lemma ArgAfterFirstDelimiter(pre: string, delim: string, x: string)
    requires |delim| > 0
    requires FirstOccurrence(pre + delim + x, delim, |pre|)
    requires !Contains(x, delim)
    ensures Arg(pre + delim + x, delim) == x
  {
    var s := pre + delim + x;
    assert IndexOf(s, delim) == Some(|pre|);
    var from := |pre| + |delim|;
    assert s[from..] == x;
    IndexOfSuffix(s, delim, from);
    assert IndexOf(x, delim).None?;
    ArgToEnd(s, delim, |pre|);
  }

  /** `!showgames x` and `!loadgame x` yield `x`: their delimiter has no `!`,
      so it is found one character in. */
  lemma NamedCommandArg(delim: string, x: string)
    requires |delim| > 0 && delim[0] != '!'
    requires !Contains(x, delim)
    ensures Arg("!" + delim + x, delim) == x
  {
    var s := "!" + delim + x;
    assert s[0] == '!';
    assert OccursAt(s, delim, 1) by { assert s[1..1 + |delim|] == delim; }
    assert !OccursAt(s, delim, 0);
    assert FirstOccurrence(s, delim, 1);
    ArgAfterFirstDelimiter("!", delim, x);
  }

  /** `!savegame x` and `!newgame x` yield `x`. */
  lemma PrefixedCommandArg(delim: string, x: string)
    requires |delim| > 0
    requires !Contains(x, delim)
    ensures Arg(delim + x, delim) == x
  {
    assert "" + delim + x == delim + x;
    assert OccursAt(delim + x, delim, 0) by { assert (delim + x)[0..|delim|] == delim; }
    ArgAfterFirstDelimiter("", delim, x);
  }

  // ---------------------------------------------------------------------
  // The file-name sanitiser of `savegame`
  // ---------------------------------------------------------------------

  /** `[a-zA-Z0-9-_]`: the characters a saved game's file name keeps. */
  predicate Allowed(c: char) {
    ('a' <= c <= 'z') || ('A' <= c <= 'Z') || ('0' <= c <= '9') || c == '-' || c == '_'
  }

  predicate AllAllowed(s: string) {
    forall i :: 0 <= i < |s| ==> Allowed(s[i])
  }

  /** Outside the Basic Multilingual Plane a character is a surrogate pair:
      two UTF-16 code units. */
  predicate Supplementary(c: char) {
    c as int > 0xFFFF
  }

  /** JavaScript's `length`: the number of UTF-16 code units. */
  function Utf16Length(s: string): nat {
    if |s| == 0 then 0 else (if Supplementary(s[0]) then 2 else 1) + Utf16Length(s[1..])
  }

  /** What `replace(/[^a-zA-Z0-9-_]/g, '_')` makes of one character: the
      regex has no `u` flag, so it matches each code unit of a surrogate
      pair on its own. */
  function SanitiseChar(c: char): (r: string)
    ensures AllAllowed(r)
    ensures Allowed(c) ==> r == [c]
    ensures !Allowed(c) ==> r == (if Supplementary(c) then "__" else "_")
  {
    if Allowed(c) then [c] else if Supplementary(c) then "__" else "_"
  }

  /** `newName.replace(/[^a-zA-Z0-9-_]/g, '_')`. */
  function Sanitise(s: string): (r: string)
    ensures AllAllowed(r)
    ensures Utf16Length(r) == Utf16Length(s)
  {
    if |s| == 0 then ""
    else
      var head := SanitiseChar(s[0]);
      var tail := Sanitise(s[1..]);
      Utf16LengthAppend(head, tail);
      assert Utf16Length(head) == (if Supplementary(s[0]) then 2 else 1);
      head + tail
  }

  /** Code units add up over concatenation. */
  lemma {:induction false} Utf16LengthAppend(a: string, b: string)
    ensures Utf16Length(a + b) == Utf16Length(a) + Utf16Length(b)
    decreases |a|
  {
    if |a| > 0 {
      assert (a + b)[0] == a[0];
      assert (a + b)[1..] == a[1..] + b;
      Utf16LengthAppend(a[1..], b);
      assert Utf16Length(a + b) == (if Supplementary(a[0]) then 2 else 1) + Utf16Length(a[1..] + b);
      assert Utf16Length(a) == (if Supplementary(a[0]) then 2 else 1) + Utf16Length(a[1..]);
    } else {
      assert a + b == b;
    }
  }

  /** A name made only of allowed characters is left as it is. */
  lemma {:induction false} SanitiseKeepsAllowed(s: string)
    requires AllAllowed(s)
    ensures Sanitise(s) == s
    decreases |s|
  {
    if |s| > 0 {
      SanitiseKeepsAllowed(s[1..]);
      assert [s[0]] + s[1..] == s;
    }
  }

  /** Sanitising twice is sanitising once. */
  lemma SanitiseIdempotent(s: string)
    ensures Sanitise(Sanitise(s)) == Sanitise(s)
  {
    SanitiseKeepsAllowed(Sanitise(s));
  }

  /** On text inside the Basic Multilingual Plane the sanitiser works
      position by position: allowed characters stay where they are, every
      other one becomes `_`. */
  lemma {:induction false} SanitisePositionwise(s: string)
    requires forall i :: 0 <= i < |s| ==> !Supplementary(s[i])
    ensures |Sanitise(s)| == |s|
    ensures forall i :: 0 <= i < |s| ==> Sanitise(s)[i] == (if Allowed(s[i]) then s[i] else '_')
    decreases |s|
  {
    if |s| > 0 {
      SanitisePositionwise(s[1..]);
      var r := Sanitise(s);
      assert r == [r[0]] + Sanitise(s[1..]);
      forall i | 0 < i < |s|
        ensures r[i] == (if Allowed(s[i]) then s[i] else '_')
      {
        assert r[i] == Sanitise(s[1..])[i - 1];
        assert s[1..][i - 1] == s[i];
      }
    }
  }

  /** No argument gives no file name. */
  lemma SanitiseEmpty()
    ensures Sanitise("") == ""
  {
  }

  /** The sanitiser works piece by piece. */
  lemma {:induction false} SanitiseAppend(a: string, b: string)
    ensures Sanitise(a + b) == Sanitise(a) + Sanitise(b)
    decreases |a|
  {
    if |a| == 0 {
      assert a + b == b;
    } else {
      assert (a + b)[0] == a[0];
      assert (a + b)[1..] == a[1..] + b;
      SanitiseAppend(a[1..], b);
    }
  }

  /** Text of allowed characters has one code unit per character. */
  lemma {:induction false} AllowedLength(s: string)
    requires AllAllowed(s)
    ensures Utf16Length(s) == |s|
    decreases |s|
  {
    if |s| > 0 {
      AllowedLength(s[1..]);
    }
  }

  /** The file name has one character per UTF-16 code unit of the input. */
  lemma SanitiseLength(s: string)
    ensures |Sanitise(s)| == Utf16Length(s)
  {
    AllowedLength(Sanitise(s));
  }

  /** Where the `i`-th character of `s` lands in a string measured in
      UTF-16 code units: after the code units of the characters before it. */
  function Utf16Offset(s: string, i: nat): nat
    requires i <= |s|
  {
    Utf16Length(s[..i])
  }

  /** What `savegame` makes of the `i`-th character of `a` at its code-unit
      offset in `f`: the character itself when allowed, otherwise `_`, and
      a second `_` for the low half of a surrogate pair. */
  predicate SanitisedAt(a: string, f: string, i: nat)
    requires i < |a|
  {
    var o := Utf16Offset(a, i);
    && o < |f|
    && f[o] == (if Allowed(a[i]) then a[i] else '_')
    && (Supplementary(a[i]) ==> o + 1 < |f| && f[o + 1] == '_')
  }

  /** Every character of the input is sanitised at its UTF-16 offset,
      whether or not the text holds surrogate pairs. */
  lemma SanitiseAtOffset(s: string, i: nat)
    requires i < |s|
    ensures SanitisedAt(s, Sanitise(s), i)
  {
    var pre, c, post := s[..i], s[i], s[i + 1..];
    assert s == pre + ([c] + post);
    SanitiseAppend(pre, [c] + post);
    SanitiseLength(pre);
    SanitiseCons(c, post);
    var head, mid, tail := Sanitise(pre), SanitiseChar(c), Sanitise(post);
    hide Sanitise, Utf16Length;
    assert Sanitise(s) == head + (mid + tail);
    assert Sanitise(s)[|head|] == mid[0];
    if Supplementary(c) && !Allowed(c) {
      assert Sanitise(s)[|head| + 1] == mid[1];
    }
  }

  /** One character, then the rest. */
  lemma SanitiseCons(c: char, s: string)
    ensures Sanitise([c] + s) == SanitiseChar(c) + Sanitise(s)
  {
    assert ([c] + s)[1..] == s;
  }

  // ---------------------------------------------------------------------
  // The commands
  // ---------------------------------------------------------------------

  /** One observable step of a command: a reply to the message, a message
      sent to the channel, or a call into the game factory. `G` is the
      factory's game record. */
  datatype Effect<G> =
    | Reply(text: string)
    | Send(text: string)
    | RenameGame(channel: Option<string>, fileName: string)
    | NewGame(channel: Option<string>, prompt: string)
    | GetGames(channel: Option<string>, search: string)
    | GetGameFile(name: string)
    | LoadGame(game: G)

  /** Every character lies inside the Basic Multilingual Plane. */
  predicate Bmp(s: string) {
    forall i :: 0 <= i < |s| ==> !Supplementary(s[i])
  }

  /** `f` is a file name made from `a` as `savegame` makes it: it has one
      character per UTF-16 code unit of `a`, a valid `a` is kept as it is,
      and every character of `a` is found at its code-unit offset in `f` if
      allowed and as `_` otherwise (`__` for a surrogate pair). On text
      inside the Basic Multilingual Plane offsets are indices, so every
      allowed character keeps its place. */
  predicate FileNameOf(a: string, f: string) {
    && AllAllowed(f)
    && |f| == Utf16Length(a)
    && (AllAllowed(a) ==> f == a)
    && (forall i :: 0 <= i < |a| ==> SanitisedAt(a, f, i))
    && (Bmp(a) ==> |f| == |a| && forall i :: 0 <= i < |a| ==> f[i] == (if Allowed(a[i]) then a[i] else '_'))
  }

  /** The sanitiser makes a file name of its input. */
  lemma {:induction false} SanitiseMakesFileName(s: string)
    ensures FileNameOf(s, Sanitise(s))
  {
    SanitiseLength(s);
    if AllAllowed(s) {
      SanitiseKeepsAllowed(s);
    }
    forall i | 0 <= i < |s|
      ensures SanitisedAt(s, Sanitise(s), i)
    {
      SanitiseAtOffset(s, i);
    }
    if Bmp(s) {
      SanitisePositionwise(s);
    }
  }

  /** A name that mixes a surrogate pair with allowed text: the pair becomes
      two `_`, and the allowed character after it is kept, one code unit
      further on. */
  lemma SurrogatePairName()
    ensures forall f :: FileNameOf("\U{1F600}x", f) ==> f == "__x"
  {
    forall f | FileNameOf("\U{1F600}x", f)
      ensures f == "__x"
    {
      var a := "\U{1F600}x";
      assert Utf16Length(a) == 3;
      assert SanitisedAt(a, f, 0);
      assert SanitisedAt(a, f, 1);
      assert a[..1] == [a[0]];
    }
  }

  /** `SaveGame.execute`: rename the channel's game to a file name made
      from the argument, and reply with the name the game now reports. */
  function SaveGame<G>(channel: Option<string>, content: string,
                       nameAfterRename: (Option<string>, string) -> string): (r: seq<Effect<G>>)
    ensures |r| == 2 && r[0].RenameGame? && r[0].channel == channel
    ensures forall a :: DelimitedArg(content, SaveGameDelim, a) ==> FileNameOf(a, r[0].fileName)
    ensures r[1] == Reply("Game renamed and saved as: " + nameAfterRename(channel, r[0].fileName) + " !")
  {
    var arg := Arg(content, SaveGameDelim);
    DelimitedArgIsArg(content, SaveGameDelim);
    SanitiseMakesFileName(arg);
    var fileName := Sanitise(arg);
    hide Sanitise, Arg, FileNameOf, DelimitedArg;
    [RenameGame(channel, fileName), Reply("Game renamed and saved as: " + nameAfterRename(channel, fileName) + " !")]
  }

  /** The announcement `newgame` sends for a started game: it names the
      game first and ends with the game's first message, whole. */
  function NewGameAnnouncement(gameName: string, firstMessage: string): (r: string)
    ensures "Nouvelle partie: " + gameName <= r
    ensures |firstMessage| <= |r| && r[|r| - |firstMessage|..] == firstMessage
  {
    "Nouvelle partie: " + gameName + " ! Votre aventure commence ici !\n\n" + firstMessage
  }

  /** `NewGame.execute`: start a game on the channel with the argument as
      the user's prompt, then announce it if the channel can take it.
      `started` is the factory's `(gameName, message)` for the new game. */
  function StartGame<G>(channel: Option<string>, content: string, sendable: bool,
                        started: (Option<string>, string) -> (string, string)): (r: seq<Effect<G>>)
    ensures |r| == (if sendable then 2 else 1)
    ensures r[0].NewGame? && r[0].channel == channel && DelimitedArg(content, NewGameDelim, r[0].prompt)
    ensures !Contains(r[0].prompt, NewGameDelim)
    ensures sendable ==> r[1] == Send(NewGameAnnouncement(started(channel, r[0].prompt).0,
                                                          started(channel, r[0].prompt).1))
  {
    var prompt := Arg(content, NewGameDelim);
    ArgIsDelimited(content, NewGameDelim);
    var (gameName, firstMessage) := started(channel, prompt);
    [NewGame(channel, prompt)] + (if sendable then [Send(NewGameAnnouncement(gameName, firstMessage))] else [])
  }

  /** `!newgame x` starts a game with `x` itself as the user's prompt and,
      on a channel that can take it, announces the game the factory started
      with the game's first message at the end. */
  lemma StartGameWithPrompt<G>(channel: Option<string>, x: string, sendable: bool,
                               started: (Option<string>, string) -> (string, string))
    requires !Contains(x, NewGameDelim)
    ensures StartGame<G>(channel, NewGameDelim + x, sendable, started)[0] == NewGame(channel, x)
    ensures sendable ==>
              var text := StartGame<G>(channel, NewGameDelim + x, sendable, started)[1].text;
              && "Nouvelle partie: " + started(channel, x).0 <= text
              && text[|text| - |started(channel, x).1|..] == started(channel, x).1
  {
    PrefixedCommandArg(NewGameDelim, x);
  }

  const ListingHeader: string := "Liste des parties sauvegardées :"
  const ListingFooter: string := "Pour charger une partie `!loadgame <gameName>`"

  /** `games.map((g) => `- ${g}`)`. */
  function Bullets(games: seq<string>): (lines: seq<string>)
    ensures |lines| == |games|
    ensures forall i :: 0 <= i < |games| ==> lines[i] == "- " + games[i]
  {
    seq(|games|, i requires 0 <= i < |games| => "- " + games[i])
  }

  /** Every game name is a single line. */
  predicate OneLineEach(games: seq<string>) {
    forall i :: 0 <= i < |games| ==> '\n' !in games[i]
  }

  /** The reply of `showgames`. Read line by line it is the header, one
      `- name` line per game in the order given, a blank line and the
      footer; an empty list leaves one extra blank line where the games
      would be. */
  function Listing(games: seq<string>): (r: string)
    ensures OneLineEach(games) && |games| > 0 ==>
              Split(r, "\n") == [ListingHeader] + Bullets(games) + ["", ListingFooter]
    ensures |games| == 0 ==> Split(r, "\n") == [ListingHeader, "", "", ListingFooter]
  {
    ListingLines(games);
    ListingHeader + "\n" + Join(Bullets(games), "\n") + "\n\n" + ListingFooter
  }

  /** Joining two non-empty lists is joining their joins. */
  lemma {:induction false} JoinAppend(xs: seq<string>, ys: seq<string>, sep: string)
    requires |xs| >= 1 && |ys| >= 1
    ensures Join(xs + ys, sep) == Join(xs, sep) + sep + Join(ys, sep)
    decreases |xs|
  {
    if |xs| == 1 {
      assert (xs + ys)[1..] == ys;
    } else {
      assert (xs + ys)[1..] == xs[1..] + ys;
      JoinAppend(xs[1..], ys, sep);
    }
  }

  /** The footer is a single line. */
  lemma NoNewlineInFooter()
    ensures '\n' !in ListingFooter
  {
    var a, b := "Pour charger une partie ", "`!loadgame <gameName>`";
    FooterPieces();
    assert '\n' !in a;
    assert '\n' !in b;
    NotInConcat('\n', a, b);
  }

  /** The footer as two literals. */
  lemma FooterPieces()
    ensures ListingFooter == "Pour charger une partie " + "`!loadgame <gameName>`"
  {
  }

  /** An element in neither part is not in their concatenation. */
  lemma NotInConcat<T>(x: T, a: seq<T>, b: seq<T>)
    requires x !in a && x !in b
    ensures x !in a + b
  {
  }

  /** A bullet line is one line when the game name is. */
  lemma BulletHasNoNewline(g: string)
    requires '\n' !in g
    ensures '\n' !in "- " + g
  {
    forall k | 0 <= k < |"- " + g|
      ensures ("- " + g)[k] != '\n'
    {
      if k >= 2 {
        assert ("- " + g)[k] == g[k - 2];
      }
    }
  }

  /** A header, lines, an empty line and a footer, joined. */
  lemma FramedAsJoin(h: string, lines: seq<string>, f: string, sep: string)
    requires |lines| > 0
    ensures Join([h] + lines + ["", f], sep) == h + sep + Join(lines, sep) + sep + sep + f
  {
    JoinAppend([h], lines, sep);
    JoinAppend([h] + lines, ["", f], sep);
    assert Join([h], sep) == h;
    assert Join(["", f], sep) == sep + f;
    hide Join;
    var x := h + sep + Join(lines, sep);
    assert x + sep + (sep + f) == x + sep + sep + f;
  }

  /** Every line of a framed text is free of the separator. */
  lemma FramedLinesOneLine(h: string, lines: seq<string>, f: string, d: char)
    requires d !in h && d !in f
    requires forall i :: 0 <= i < |lines| ==> d !in lines[i]
    ensures forall i :: 0 <= i < |[h] + lines + ["", f]| ==> d !in ([h] + lines + ["", f])[i]
  {
    var all := [h] + lines + ["", f];
    forall i | 0 <= i < |all| ensures d !in all[i] {
      if 1 <= i <= |lines| {
        assert all[i] == lines[i - 1];
      }
    }
  }

  /** A header line, lines, a blank line and a footer line, each ended by
      the separator `d` but the last, split back into those lines. */
  lemma SplitFramedLines(h: string, lines: seq<string>, f: string, d: char)
    requires d !in h && d !in f
    requires forall i :: 0 <= i < |lines| ==> d !in lines[i]
    ensures |lines| > 0 ==> Split(h + [d] + Join(lines, [d]) + [d] + [d] + f, [d]) == [h] + lines + ["", f]
    ensures |lines| == 0 ==> Split(h + [d] + Join(lines, [d]) + [d] + [d] + f, [d]) == [h, "", "", f]
  {
    if |lines| > 0 {
      FramedAsJoin(h, lines, f, [d]);
      FramedLinesOneLine(h, lines, f, d);
      SplitJoin([h] + lines + ["", f], d);
    } else {
      SplitEmptyFrame(h, f, d);
    }
  }

  /** The framing around no lines at all. */
  lemma SplitEmptyFrame(h: string, f: string, d: char)
    requires d !in h && d !in f
    ensures Split(h + [d] + Join([], [d]) + [d] + [d] + f, [d]) == [h, "", "", f]
  {
    var all := [h, "", "", f];
    JoinCons("", [f], [d]);
    JoinCons("", ["", f], [d]);
    JoinCons(h, ["", "", f], [d]);
    assert [""] + [f] == ["", f] && [""] + ["", f] == ["", "", f] && [h] + ["", "", f] == all;
    hide Join;
    assert h + [d] + Join([], [d]) + [d] + [d] + f == h + [d] + ("" + [d] + ("" + [d] + f));
    SplitJoin(all, d);
  }

  /** Two separators in one literal are two separators. */
  lemma DoubleSeparator<T>(x: seq<T>, f: seq<T>, d: T)
    ensures x + [d, d] + f == x + [d] + [d] + f
  {
    assert [d, d] == [d] + [d];
  }

  /** The line structure of the listing text, for `Listing`. */
  lemma ListingLines(games: seq<string>)
    ensures var text := ListingHeader + "\n" + Join(Bullets(games), "\n") + "\n\n" + ListingFooter;
            && (OneLineEach(games) && |games| > 0 ==>
                  Split(text, "\n") == [ListingHeader] + Bullets(games) + ["", ListingFooter])
            && (|games| == 0 ==> Split(text, "\n") == [ListingHeader, "", "", ListingFooter])
  {
    if !OneLineEach(games) && |games| > 0 {
      return;
    }
    var lines := Bullets(games);
    forall i | 0 <= i < |lines| ensures '\n' !in lines[i] {
      BulletHasNoNewline(games[i]);
    }
    assert '\n' !in ListingHeader;
    NoNewlineInFooter();
    SplitFramedLines(ListingHeader, lines, ListingFooter, '\n');
    DoubleSeparator(ListingHeader + "\n" + Join(lines, "\n"), ListingFooter, '\n');
  }

  /** `ShowGames.execute`: list the channel's saved games matching the
      argument. `games` is the factory's answer to `getGames`. The search
      is the text after `showgames `, and the reply lists, one per line,
      exactly the games the factory found for it. */
  function ShowGames<G>(channel: Option<string>, content: string,
                        games: (Option<string>, string) -> seq<string>): (r: seq<Effect<G>>)
    ensures |r| == 2 && r[0].GetGames? && r[1].Reply?
    ensures r[0].channel == channel && DelimitedArg(content, ShowGamesDelim, r[0].search)
    ensures var found := games(channel, r[0].search);
            OneLineEach(found) && |found| > 0 ==>
              Split(r[1].text, "\n") == [ListingHeader] + Bullets(found) + ["", ListingFooter]
    ensures games(channel, r[0].search) == [] ==>
              Split(r[1].text, "\n") == [ListingHeader, "", "", ListingFooter]
  {
    var search := Arg(content, ShowGamesDelim);
    ArgIsDelimited(content, ShowGamesDelim);
    [GetGames(channel, search), Reply(Listing(games(channel, search)))]
  }

  const ServerOnly: string := "This command can only be used in a server."

  /** `LoadGame.execute`: outside a server only the error reply; inside,
      look the game up by the argument, load what the lookup returned
      without checking it, and reply with the name. */
  function LoadGameCommand<G>(inGuild: bool, content: string, gameFile: string -> G): (r: seq<Effect<G>>)
    ensures !inGuild ==> r == [Reply(ServerOnly)] && forall e :: e in r ==> !TouchesFactory(e)
    ensures inGuild ==> |r| == 3 && r[0].GetGameFile? && DelimitedArg(content, LoadGameDelim, r[0].name)
    ensures inGuild ==> r[1] == LoadGame(gameFile(r[0].name))
    ensures inGuild ==> r[2] == Reply("game loaded: " + r[0].name + " !")
  {
    if !inGuild then [Reply(ServerOnly)]
    else
      var name := Arg(content, LoadGameDelim);
      ArgIsDelimited(content, LoadGameDelim);
      [GetGameFile(name), LoadGame(gameFile(name)), Reply("game loaded: " + name + " !")]
  }

  /** Effects that reach the game factory. */
  predicate TouchesFactory<G>(e: Effect<G>) {
    e.RenameGame? || e.NewGame? || e.GetGames? || e.GetGameFile? || e.LoadGame?
  }

  /** Outside a server `loadgame` neither looks up nor loads anything. */
  lemma LoadGameNeedsGuild<G>(content: string, gameFile: string -> G)
    ensures forall e :: e in LoadGameCommand(false, content, gameFile) ==> !TouchesFactory(e)
  {
  }

  /** `!loadgame x` in a server loads exactly the game stored as `x` and
      echoes `x`. */
  lemma LoadGameByName<G>(x: string, gameFile: string -> G)
    requires !Contains(x, LoadGameDelim)
    ensures LoadGameCommand(true, "!" + LoadGameDelim + x, gameFile)
            == [GetGameFile(x), LoadGame(gameFile(x)), Reply("game loaded: " + x + " !")]
  {
    NamedCommandArg(LoadGameDelim, x);
  }

  /** `!savegame x` renames the game to `x` itself when `x` is already a
      valid file name. */
  lemma SaveGameValidName<G>(channel: Option<string>, x: string, nameAfterRename: (Option<string>, string) -> string)
    requires AllAllowed(x)
    ensures SaveGame<G>(channel, SaveGameDelim + x, nameAfterRename)[0] == RenameGame(channel, x)
  {
    forall q: nat | q <= |x|
      ensures !OccursAt(x, SaveGameDelim, q)
    {
      if q + |SaveGameDelim| <= |x| {
        assert x[q..q + |SaveGameDelim|][0] == x[q];
      }
    }
    PrefixedCommandArg(SaveGameDelim, x);
    SanitiseKeepsAllowed(x);
  }
}
