/** Properties of the prompt compiler: evaluation order, the function table,
    the life of bindings, and the fuel bound. */
module CompilerLaws {
  import opened Base
  import opened Text
  import opened CallPattern
  import opened PromptCompiler

  // ---------------------------------------------------------------------
  // Call syntax in concrete texts
  // ---------------------------------------------------------------------

  /** Text without parentheses keeps depth zero throughout. */
  lemma {:induction false} ParenFreeDepth(s: string, lo: nat, hi: nat)
    requires lo <= hi <= |s|
    requires forall i :: lo <= i < hi ==> s[i] != '(' && s[i] != ')'
    ensures forall q :: lo <= q <= hi ==> DepthAt(s, lo, q) == 0
    decreases hi - lo
  {
    if lo < hi {
      ParenFreeDepth(s, lo, hi - 1);
      assert DepthAt(s, lo, hi) == DepthAt(s, lo, hi - 1) + Step(s[hi - 1]);
    }
  }

  /** Text without an opening parenthesis contains no call. */
  lemma NoOpenParenNoCall(s: string)
    requires '(' !in s
    ensures NoCall(s)
  {
    forall start: nat, open: nat, close: nat
      ensures !MatchesAt(s, start, open, close)
    {
    }
  }

  /** In `pre + f(a) + post`, with no `(` in `pre`, `pre` not ending in a word
      character, `f` a non-empty run of word characters and `a` free of
      parentheses, the leftmost call is `f(a)`. */
  lemma CallAfterPlainText(pre: string, f: string, a: string, post: string)
    requires '(' !in pre && (pre == [] || !IsWordChar(pre[|pre| - 1]))
    requires |f| > 0 && forall i :: 0 <= i < |f| ==> IsWordChar(f[i])
    requires '(' !in a && ')' !in a
    ensures var s := pre + f + "(" + a + ")" + post;
            var c := Call(|pre|, |pre| + |f|, |pre| + |f| + 1 + |a|);
            && IsLeftmost(s, c)
            && Name(s, c) == f && Args(s, c) == a && Matched(s, c) == f + "(" + a + ")"
            && s[..c.start] == pre && s[c.close + 1..] == post
  {
    var s := pre + f + "(" + a + ")" + post;
    var c := Call(|pre|, |pre| + |f|, |pre| + |f| + 1 + |a|);
    PlainCallIsCall(pre, f, a, post);
    PlainCallNothingBefore(pre, f, a, post);
    PlainCallPieces(pre, f, a, post);
  }

  /** The positions of `f(a)` in `pre + f(a) + post` form a match. */
  lemma PlainCallIsCall(pre: string, f: string, a: string, post: string)
    requires |f| > 0 && forall i :: 0 <= i < |f| ==> IsWordChar(f[i])
    requires '(' !in a && ')' !in a
    ensures IsCall(pre + f + "(" + a + ")" + post, Call(|pre|, |pre| + |f|, |pre| + |f| + 1 + |a|))
  {
    var s := pre + f + "(" + a + ")" + post;
    var c := Call(|pre|, |pre| + |f|, |pre| + |f| + 1 + |a|);
    forall i | c.start <= i < c.open
      ensures IsWordChar(s[i])
    {
      assert s[i] == f[i - |pre|];
    }
    assert s[c.open] == '(';
    assert s[c.close] == ')';
    forall i | c.open + 1 <= i < c.close
      ensures s[i] != '(' && s[i] != ')'
    {
      assert s[i] == a[i - (c.open + 1)];
    }
    ParenFreeDepth(s, c.open + 1, c.close);
  }

  /** No match starts inside `pre`: it has no `(`, and a name cannot run
      from `pre` into `f` because `pre` does not end in a word character. */
  lemma PlainCallNothingBefore(pre: string, f: string, a: string, post: string)
    requires '(' !in pre && (pre == [] || !IsWordChar(pre[|pre| - 1]))
    ensures forall q: nat, o: nat, k: nat :: q < |pre| ==> !MatchesAt(pre + f + "(" + a + ")" + post, q, o, k)
  {
    var s := pre + f + "(" + a + ")" + post;
    forall q: nat, o: nat, k: nat | q < |pre|
      ensures !MatchesAt(s, q, o, k)
    {
      if o < |pre| {
        assert s[o] == pre[o] && pre[o] in pre;
      } else {
        assert s[|pre| - 1] == pre[|pre| - 1];
      }
    }
  }

  /** The name, argument, matched text and surroundings of `f(a)`. */
  lemma PlainCallPieces(pre: string, f: string, a: string, post: string)
    ensures var s := pre + f + "(" + a + ")" + post;
            var o := |pre| + |f|;
            var k := o + 1 + |a|;
            && s[|pre|..o] == f && s[o + 1..k] == a && s[|pre|..k + 1] == f + "(" + a + ")"
            && s[..|pre|] == pre && s[k + 1..] == post
  {
    var s := pre + f + "(" + a + ")" + post;
    var o := |pre| + |f|;
    var k := o + 1 + |a|;
    assert s[|pre|..o] == f;
    assert s[o + 1..k] == a;
    assert s[|pre|..k + 1] == f + "(" + a + ")";
    assert s[..|pre|] == pre;
    assert s[k + 1..] == post;
  }

  /** `split('|')` of `|`-joined fields gives back the fields. */
  lemma FieldsOfJoin(xs: seq<string>)
    requires |xs| >= 1 && forall i :: 0 <= i < |xs| ==> '|' !in xs[i]
    ensures Fields(Join(xs, "|")) == xs
  {
    SplitJoin(xs, '|');
  }

  // ---------------------------------------------------------------------
  // The rewrite loop
  // ---------------------------------------------------------------------

  /** The cases of one pass of the loop, as equations. */
  lemma CompileUnfold(inst: Instance, w: World, s: string, fuel: nat)
    ensures fuel == 0 ==> Compile(inst, w, s, fuel) == Run(Err(OutOfFuel), inst)
    ensures fuel > 0 && "getRegex" in inst.bindings ==>
              Compile(inst, w, s, fuel) == Run(Err(Shadowed("getRegex")), inst)
    ensures fuel > 0 && "getRegex" !in inst.bindings && NoCall(s) ==>
              Compile(inst, w, s, fuel) == Run(Ok(s), inst)
    ensures fuel > 0 && "getRegex" !in inst.bindings && FindCall(s).Some? ==>
              && IsCall(s, FindCall(s).value)
              && Compile(inst, w, s, fuel) == Rewrite(inst, w, s, FindCall(s).value, fuel)
  {
  }

  /** The three outcomes of one rewrite, as equations. */
  lemma RewriteUnfold(inst: Instance, w: World, s: string, c: Call, fuel: nat)
    requires 0 < fuel && IsCall(s, c)
    ensures var r := Rewrite(inst, w, s, c, fuel);
            var a := Compile(inst, w, Args(s, c), fuel - 1);
            && (a.out.Err? ==> r == a)
            && (a.out.Ok? ==>
                  var v := Invoke(a.inst, w, Name(s, c), a.out.text);
                  && (v.out.Err? ==> r == v)
                  && (v.out.Ok? ==> r == Compile(v.inst, w, ReplaceFirst(s, Matched(s, c), v.out.text), fuel - 1)))
  {
  }

  /** `exec` hands the prompt to the loop unless a binding shadows it. */
  lemma ExecUnfold(inst: Instance, w: World, s: string, fuel: nat)
    requires "exec" !in inst.bindings
    ensures Exec(inst, w, s, fuel) == Compile(inst, w, s, fuel)
  {
  }

  /** Text that contains no call is returned unchanged, instance untouched. */
  lemma NoCallUnchanged(inst: Instance, w: World, s: string, fuel: nat)
    requires fuel > 0 && "getRegex" !in inst.bindings && "exec" !in inst.bindings
    requires NoCall(s)
    ensures Exec(inst, w, s, fuel) == Run(Ok(s), inst)
  {
    CompileUnfold(inst, w, s, fuel);
  }

  /** One round of the loop, innermost-first: the leftmost call's argument
      text is compiled completely (it comes back free of calls), only then is
      the function run on it, with the bindings the argument left behind; its
      result is spliced over exactly the matched text, and the whole string is
      scanned again. Any throw on the way ends the evaluation. */
  lemma InnermostFirst(inst: Instance, w: World, s: string, fuel: nat, c: Call)
    requires fuel > 0 && "getRegex" !in inst.bindings
    requires IsLeftmost(s, c)
    ensures var r := Compile(inst, w, s, fuel);
            var a := Compile(inst, w, Args(s, c), fuel - 1);
            && (a.out.Err? ==> r == a)
            && (a.out.Ok? ==>
                  && NoCall(a.out.text)
                  && var v := Invoke(a.inst, w, Name(s, c), a.out.text);
                     && (v.out.Err? ==> r == v)
                     && (v.out.Ok? ==> r == Compile(v.inst, w, s[..c.start] + v.out.text + s[c.close + 1..], fuel - 1)))
  {
    LeftmostUnique(s, c);
    RewriteLeftmost(inst, w, s, fuel, c);
    var a := Compile(inst, w, Args(s, c), fuel - 1);
    if a.out.Ok? {
      var v := Invoke(a.inst, w, Name(s, c), a.out.text);
      if v.out.Ok? {
        LeftmostSplice(s, c, v.out.text);
      }
    }
  }

  /** `replace` of a leftmost call's matched text splices exactly over it. */
  lemma LeftmostSplice(s: string, c: Call, t: string)
    requires IsLeftmost(s, c)
    ensures IsCall(s, c)
    ensures ReplaceFirst(s, Matched(s, c), t) == s[..c.start] + t + s[c.close + 1..]
  {
    LeftmostIsFirstOccurrence(s, c);
    ReplaceAtFirst(s, Matched(s, c), t, c.start);
  }

  /** The round of the loop for the call the scanner found. */
  lemma RewriteLeftmost(inst: Instance, w: World, s: string, fuel: nat, c: Call)
    requires fuel > 0 && "getRegex" !in inst.bindings
    requires FindCall(s) == Some(c) && IsCall(s, c)
    ensures var r := Compile(inst, w, s, fuel);
            var a := Compile(inst, w, Args(s, c), fuel - 1);
            && (a.out.Err? ==> r == a)
            && (a.out.Ok? ==>
                  && NoCall(a.out.text)
                  && var v := Invoke(a.inst, w, Name(s, c), a.out.text);
                     && (v.out.Err? ==> r == v)
                     && (v.out.Ok? ==> r == Compile(v.inst, w, ReplaceFirst(s, Matched(s, c), v.out.text), fuel - 1)))
  {
    CompileUnfold(inst, w, s, fuel);
    RewriteUnfold(inst, w, s, c, fuel);
  }

  /** One round of the loop on `pre + f(a) + post` when `f(a)` is the
      leftmost call and `a` holds no parentheses. */
  lemma PlainCallStep(inst: Instance, w: World, pre: string, f: string, a: string, post: string, fuel: nat)
    requires '(' !in pre && (pre == [] || !IsWordChar(pre[|pre| - 1]))
    requires |f| > 0 && forall i :: 0 <= i < |f| ==> IsWordChar(f[i])
    requires '(' !in a && ')' !in a
    requires fuel >= 2 && "getRegex" !in inst.bindings
    ensures var v := Invoke(inst, w, f, a);
            Compile(inst, w, pre + f + "(" + a + ")" + post, fuel)
              == if v.out.Err? then v else Compile(v.inst, w, pre + v.out.text + post, fuel - 1)
  {
    var s := pre + f + "(" + a + ")" + post;
    var c := Call(|pre|, |pre| + |f|, |pre| + |f| + 1 + |a|);
    CallAfterPlainText(pre, f, a, post);
    NoOpenParenNoCall(a);
    hide *;
    CompileUnfold(inst, w, a, fuel - 1);
    InnermostFirst(inst, w, s, fuel, c);
  }

  /** A call whose name is neither in the function table nor another member of
      the instance is never left as literal text: once its argument has been
      compiled, evaluation throws, keeping the bindings the argument made. */
  lemma UnknownNameFails(inst: Instance, w: World, s: string, fuel: nat, c: Call)
    requires fuel > 0 && "getRegex" !in inst.bindings
    requires IsLeftmost(s, c)
    requires Name(s, c) !in DslFunctions && Name(s, c) !in OtherMembers
    requires Compile(inst, w, Args(s, c), fuel - 1).out.Ok?
    ensures Compile(inst, w, s, fuel).out == Err(NotAFunction(Name(s, c)))
    ensures Compile(inst, w, s, fuel).inst == Compile(inst, w, Args(s, c), fuel - 1).inst
  {
    InnermostFirst(inst, w, s, fuel, c);
  }

  /** More fuel never changes a result that was reached without running out. */
  lemma {:induction false} FuelMonotone(inst: Instance, w: World, s: string, fuel: nat, more: nat)
    requires fuel <= more
    ensures Compile(inst, w, s, fuel).out != Err(OutOfFuel) ==>
              Compile(inst, w, s, more) == Compile(inst, w, s, fuel)
    decreases fuel, 1
  {
    hide *;
    CompileUnfold(inst, w, s, fuel);
    CompileUnfold(inst, w, s, more);
    if fuel > 0 && "getRegex" !in inst.bindings && FindCall(s).Some? {
      RewriteFuelMonotone(inst, w, s, FindCall(s).value, fuel, more);
    }
  }

  /** More fuel never changes the outcome of a rewrite that did not run out. */
  lemma {:induction false} RewriteFuelMonotone(inst: Instance, w: World, s: string, c: Call, fuel: nat, more: nat)
    requires 0 < fuel <= more && IsCall(s, c)
    ensures Rewrite(inst, w, s, c, fuel).out != Err(OutOfFuel) ==>
              Rewrite(inst, w, s, c, more) == Rewrite(inst, w, s, c, fuel)
    decreases fuel, 0
  {
    hide *;
    RewriteUnfold(inst, w, s, c, fuel);
    RewriteUnfold(inst, w, s, c, more);
    var a := Compile(inst, w, Args(s, c), fuel - 1);
    FuelMonotone(inst, w, Args(s, c), fuel - 1, more - 1);
    if a.out.Ok? {
      var v := Invoke(a.inst, w, Name(s, c), a.out.text);
      if v.out.Ok? {
        FuelMonotone(v.inst, w, ReplaceFirst(s, Matched(s, c), v.out.text), fuel - 1, more - 1);
      }
    }
  }

  // ---------------------------------------------------------------------
  // The function table
  // ---------------------------------------------------------------------

  /** `set(k|v)` binds `k` to `v` and yields the empty text. */
  lemma InvokeSetPair(inst: Instance, w: World, k: string, v: string)
    requires '|' !in k && '|' !in v && k != "__proto__" && "set" !in inst.bindings
    ensures Invoke(inst, w, "set", k + "|" + v) == Run(Ok(""), inst.(bindings := inst.bindings[k := Str(v)]))
  {
    assert k + "|" + v == Join([k, v], "|");
    FieldsOfJoin([k, v]);
  }

  /** `get(k)` on a bound key yields the rendered value and changes nothing. */
  lemma InvokeGetKey(inst: Instance, w: World, k: string)
    requires '|' !in k && k in inst.bindings && "get" !in inst.bindings
    ensures Invoke(inst, w, "get", k) == Run(Ok(Render(inst.bindings[k])), inst)
  {
    assert k == Join([k], "|");
    FieldsOfJoin([k]);
  }

  /** `get(k)` after `set(k|v)` yields `v`, as long as the binding shadows
      neither `get` itself nor is swallowed by `__proto__`. */
  lemma SetThenGet(inst: Instance, w: World, k: string, v: string)
    requires '|' !in k && '|' !in v
    requires "set" !in inst.bindings && "get" !in inst.bindings
    requires k != "__proto__" && k != "get"
    ensures var after := Invoke(inst, w, "set", k + "|" + v).inst;
            Invoke(after, w, "get", k) == Run(Ok(v), after)
  {
    FieldsOfJoin([k, v]);
    FieldsOfJoin([k]);
  }

  /** `setget(k|v)` yields `v` and leaves the same table as `set(k|v)`. */
  lemma SetGetYieldsValue(inst: Instance, w: World, k: string, v: string)
    requires '|' !in k && '|' !in v
    requires "setget" !in inst.bindings && "set" !in inst.bindings
    ensures Invoke(inst, w, "setget", k + "|" + v).out == Ok(v)
    ensures Invoke(inst, w, "setget", k + "|" + v).inst == Invoke(inst, w, "set", k + "|" + v).inst
  {
    FieldsOfJoin([k, v]);
  }

  /** Fields after the second are ignored by `set`. */
  lemma SetIgnoresExtraFields(inst: Instance, k: string, v: string, rest: string)
    requires '|' !in k && '|' !in v
    ensures Set(inst, k + "|" + v + "|" + rest) == Set(inst, k + "|" + v)
  {
    SplitPrefix(k, '|', v + "|" + rest);
    assert k + "|" + v + "|" + rest == k + "|" + (v + "|" + rest);
    SplitPrefix(v, '|', rest);
    FieldsOfJoin([k, v]);
  }

  /** `set(k)` without a value binds `k` to `undefined`, which `get` renders
      as the text "undefined". */
  lemma SetWithoutValue(inst: Instance, w: World, k: string)
    requires '|' !in k && k != "__proto__" && k != "get"
    requires "set" !in inst.bindings && "get" !in inst.bindings
    ensures var after := Invoke(inst, w, "set", k).inst;
            after.bindings == inst.bindings[k := Undefined]
            && Invoke(after, w, "get", k).out == Ok("undefined")
  {
    FieldsOfJoin([k]);
  }

  /** A binding named like a function shadows it: calling it then throws. */
  lemma BindingShadowsFunction(inst: Instance, w: World, f: string, v: string, args: string)
    requires '|' !in f && '|' !in v && f != "__proto__"
    requires "set" !in inst.bindings
    ensures Invoke(Invoke(inst, w, "set", f + "|" + v).inst, w, f, args).out == Err(NotAFunction(f))
  {
    FieldsOfJoin([f, v]);
  }

  /** A binding named `getRegex` replaces the matcher: the next scan throws. */
  lemma BindingGetRegexBreaksScan(inst: Instance, w: World, v: string, s: string, fuel: nat)
    requires '|' !in v && "set" !in inst.bindings && fuel > 0
    ensures var after := Invoke(inst, w, "set", "getRegex|" + v).inst;
            Compile(after, w, s, fuel).out == Err(Shadowed("getRegex"))
  {
    assert "getRegex|" + v == Join(["getRegex", v], "|");
    FieldsOfJoin(["getRegex", v]);
  }

  /** Every field of `random(...)` is chosen by some draw. */
  lemma RandomReachesEveryField(inst: Instance, arg: string, i: nat)
    requires i < |Fields(arg)|
    ensures exists w: World :: Random(inst, w, arg).out == Ok(Fields(arg)[i])
  {
    var n := |Fields(arg)|;
    PickIndexOnto(n, i);
    var u: Fraction :| PickIndex(u, n) == i;
    var w := World((k: nat) => u, (k: nat, m: seq<Message>) => Failed);
    assert Random(inst, w, arg).out == Ok(Fields(arg)[i]);
  }

  /** `prompt` sends only its first field, and yields a successful completion verbatim. */
  lemma PromptSendsFirstField(inst: Instance, w: World, t: string, rest: string)
    requires '|' !in t && "openAiService" !in inst.bindings
    ensures PromptRequest(t + "|" + rest) == [Message(System, t)]
    ensures w.complete(inst.oracleCalls, [Message(System, t)]).Answered? ==>
              Prompt(inst, w, t + "|" + rest).out == Ok(w.complete(inst.oracleCalls, [Message(System, t)]).text)
  {
    SplitPrefix(t, '|', rest);
  }

  // ---------------------------------------------------------------------
  // Bindings across exec calls
  // ---------------------------------------------------------------------

  /** Bindings live on the instance: a value bound by one `exec` is read back
      by `get` in a later `exec`. */
  lemma SetPersistsAcrossExec(inst: Instance, w: World, k: string, v: string, fuel: nat)
    requires fuel >= 2
    requires '(' !in k && ')' !in k && '|' !in k
    requires '(' !in v && ')' !in v && '|' !in v
    requires k !in {"__proto__", "getRegex", "exec", "get"}
    requires "exec" !in inst.bindings && "getRegex" !in inst.bindings
    requires "set" !in inst.bindings && "get" !in inst.bindings
    ensures var first := Exec(inst, w, "set(" + k + "|" + v + ")", fuel);
            && first.out == Ok("")
            && first.inst.bindings == inst.bindings[k := Str(v)]
            && Exec(first.inst, w, "get(" + k + ")", fuel) == Run(Ok(v), first.inst)
  {
    var after := ExecSet(inst, w, k, v, fuel);
    ExecGet(after, w, k, v, fuel);
  }

  lemma ExecSet(inst: Instance, w: World, k: string, v: string, fuel: nat) returns (after: Instance)
    requires fuel >= 2
    requires '(' !in k && ')' !in k && '|' !in k
    requires '(' !in v && ')' !in v && '|' !in v
    requires k != "__proto__" && k != "getRegex"
    requires "exec" !in inst.bindings && "getRegex" !in inst.bindings && "set" !in inst.bindings
    ensures after.bindings == inst.bindings[k := Str(v)]
    ensures Exec(inst, w, "set(" + k + "|" + v + ")", fuel) == Run(Ok(""), after)
  {
    hide Compile, Rewrite, Invoke, Exec, FindCall;
    after := inst.(bindings := inst.bindings[k := Str(v)]);
    SetRound(inst, w, "", "", k, v, fuel);
    assert "" + "set(" + k + "|" + v + ")" + "" == "set(" + k + "|" + v + ")";
    assert "" + "" == "";
    NoOpenParenNoCall("");
    CompileUnfold(after, w, "", fuel - 1);
    ExecUnfold(inst, w, "set(" + k + "|" + v + ")", fuel);
  }

  lemma ExecGet(inst: Instance, w: World, k: string, v: string, fuel: nat)
    requires fuel >= 2
    requires '(' !in k && ')' !in k && '|' !in k
    requires '(' !in v && ')' !in v
    requires k in inst.bindings && inst.bindings[k] == Str(v)
    requires "exec" !in inst.bindings && "getRegex" !in inst.bindings && "get" !in inst.bindings
    ensures Exec(inst, w, "get(" + k + ")", fuel) == Run(Ok(v), inst)
  {
    hide Compile, Rewrite, Invoke, Exec, FindCall;
    GetRound(inst, w, "", k, v, fuel);
    assert "" + "get(" + k + ")" == "get(" + k + ")";
    assert "" + v == v;
    ExecUnfold(inst, w, "get(" + k + ")", fuel);
  }

  /** Plain text: no parentheses, and not ending in a word character (so a
      call name that follows it starts a fresh word). */
  predicate PlainText(t: string) {
    '(' !in t && ')' !in t && (t == [] || !IsWordChar(t[|t| - 1]))
  }

  /** A binding made by one call is read by a later call in the same text:
      `pre set(k|v) mid get(k)` compiles to `pre mid v`, leaving `k` bound. */
  lemma SetThenGetInText(inst: Instance, w: World, pre: string, mid: string, k: string, v: string, fuel: nat)
    requires fuel >= 3
    requires PlainText(pre) && PlainText(pre + mid)
    requires '(' !in k && ')' !in k && '|' !in k
    requires '(' !in v && ')' !in v && '|' !in v
    requires k != "__proto__" && k != "getRegex" && k != "get"
    requires "exec" !in inst.bindings && "getRegex" !in inst.bindings
    requires "set" !in inst.bindings && "get" !in inst.bindings
    ensures Exec(inst, w, pre + "set(" + k + "|" + v + ")" + mid + "get(" + k + ")", fuel)
              == Run(Ok(pre + mid + v), inst.(bindings := inst.bindings[k := Str(v)]))
  {
    hide Compile, Rewrite, Invoke, Exec, FindCall;
    var after := inst.(bindings := inst.bindings[k := Str(v)]);
    SetRound(inst, w, pre, mid + "get(" + k + ")", k, v, fuel);
    assert pre + "set(" + k + "|" + v + ")" + mid + "get(" + k + ")"
        == pre + "set(" + k + "|" + v + ")" + (mid + "get(" + k + ")");
    assert pre + (mid + "get(" + k + ")") == (pre + mid) + "get(" + k + ")";
    GetRound(after, w, pre + mid, k, v, fuel - 1);
    ExecUnfold(inst, w, pre + "set(" + k + "|" + v + ")" + mid + "get(" + k + ")", fuel);
  }

  /** `set(k|v)` after plain text: one round of the loop. */
  lemma SetRound(inst: Instance, w: World, pre: string, post: string, k: string, v: string, fuel: nat)
    requires fuel >= 2 && PlainText(pre)
    requires '(' !in k && ')' !in k && '|' !in k
    requires '(' !in v && ')' !in v && '|' !in v
    requires k != "__proto__" && "getRegex" !in inst.bindings && "set" !in inst.bindings
    ensures Compile(inst, w, pre + "set(" + k + "|" + v + ")" + post, fuel)
              == Compile(inst.(bindings := inst.bindings[k := Str(v)]), w, pre + post, fuel - 1)
  {
    hide Compile, Rewrite, Invoke, Exec, FindCall;
    var arg := k + "|" + v;
    InvokeSetPair(inst, w, k, v);
    PlainCallStep(inst, w, pre, "set", arg, post, fuel);
    assert pre + "set" + "(" + arg + ")" + post == pre + "set(" + k + "|" + v + ")" + post;
    assert pre + "" + post == pre + post;
  }

  /** `get(k)` at the end of plain text, with `k` bound to `v`: the loop
      finishes with `v` spliced in. */
  lemma GetRound(inst: Instance, w: World, pre: string, k: string, v: string, fuel: nat)
    requires fuel >= 2 && PlainText(pre)
    requires '(' !in k && ')' !in k && '|' !in k
    requires '(' !in v && ')' !in v
    requires k in inst.bindings && inst.bindings[k] == Str(v)
    requires "getRegex" !in inst.bindings && "get" !in inst.bindings
    ensures Compile(inst, w, pre + "get(" + k + ")", fuel) == Run(Ok(pre + v), inst)
  {
    hide Compile, Rewrite, Invoke, Exec, FindCall;
    InvokeGetKey(inst, w, k);
    PlainCallStep(inst, w, pre, "get", k, "", fuel);
    assert pre + "get" + "(" + k + ")" + "" == pre + "get(" + k + ")";
    assert pre + v + "" == pre + v;
    NoOpenParenNoCall(pre + v);
    CompileUnfold(inst, w, pre + v, fuel - 1);
  }
}
