/** The prompt micro-language compiler
    (src/prompt-compiler/prompt-compiler.service.ts): free text with embedded
    calls `name(args)` is rewritten innermost-first until no call remains.

    The service instance is the binding table: `set`/`setget` write the key as
    a property of the instance itself, so bindings persist from one `exec` to
    the next and a key named like a member shadows that member. Randomness and
    the completion service are oracles in a `World`, indexed by the number of
    oracle calls made so far. The rewrite loop is driven by `fuel`, because a
    returned value may itself contain call syntax. */
module PromptCompiler {
  import opened Base
  import opened Text
  import opened CallPattern

  /** A value `set`/`setget` store on the instance: the second `|`-field of
      the argument, or `undefined` when the argument has none. */
  datatype Value = Str(text: string) | Undefined

  /** The text `replace` splices in for a value. */
  function Render(v: Value): string {
    match v
    case Str(t) => t
    case Undefined => "undefined"
  }

  /** The properties that `set`/`setget` created on the instance. */
  type Bindings = map<string, Value>

  /** The compiler service: its binding table and how many oracle draws
      (random numbers and completions) it has consumed. */
  datatype Instance = Instance(bindings: Bindings, oracleCalls: nat)

  /** A fresh service instance. */
  const Fresh: Instance := Instance(map[], 0)

  /** The oracles: the n-th draw of `Math.random()`, and the completion
      service's reply to the n-th request. */
  datatype World = World(random: nat -> Fraction, complete: (nat, seq<Message>) -> Reply)

  /** Why an evaluation throws. */
  datatype Failure =
    | NotAFunction(name: string)   // `this[name]` is not a function: the call at line 26 throws
    | Shadowed(member: string)     // a binding replaced `getRegex`, `openAiService` or `exec`
    | Unmodelled(name: string)     // another member of the instance is reached (see README)
    | ProviderFailed               // the completion service rejected the request
    | OutOfFuel                    // the rewrite loop ran longer than the fuel bound

  datatype Result = Ok(text: string) | Err(failure: Failure)

  /** Outcome of an evaluation together with the instance it leaves behind
      (a throw keeps every binding made before it). */
  datatype Run = Run(out: Result, inst: Instance)

  /** The function table. */
  const DslFunctions: set<string> := {"set", "setget", "get", "random", "prompt"}

  /** Other members `this[name]` can reach: the service's own fields and
      methods, and those it inherits from `Object.prototype`. */
  const OtherMembers: set<string> := {
    "getRegex", "openAiService", "exec", "constructor", "__proto__",
    "toString", "toLocaleString", "valueOf", "hasOwnProperty", "isPrototypeOf",
    "propertyIsEnumerable", "__defineGetter__", "__defineSetter__",
    "__lookupGetter__", "__lookupSetter__"
  }

  /** `arg.split('|')`. */
  function Fields(arg: string): (fs: seq<string>)
    ensures |fs| >= 1
  {
    Split(arg, "|")
  }

  /** Destructuring `const [a, b] = fields`: the i-th field, or `undefined`. */
  function FieldAt(fs: seq<string>, i: nat): Value {
    if i < |fs| then Str(fs[i]) else Undefined
  }

  /** `this[key] = value`. Assigning a string to `__proto__` is ignored by
      JavaScript, so that key never becomes a binding. */
  function Bind(b: Bindings, key: string, v: Value): (r: Bindings)
    ensures key != "__proto__" ==> key in r && r[key] == v
    ensures key == "__proto__" ==> r == b
    ensures forall k :: k != key ==> (k in r <==> k in b) && (k in b ==> r[k] == b[k])
  {
    if key == "__proto__" then b else b[key := v]
  }

  /** `set(key|value)`: binds the key to the second field and yields "". */
  function Set(inst: Instance, arg: string): (r: Run)
    ensures r.out == Ok("")
    ensures r.inst.oracleCalls == inst.oracleCalls
    ensures var fs := Fields(arg);
            fs[0] != "__proto__" ==> r.inst.bindings == inst.bindings[fs[0] := FieldAt(fs, 1)]
    ensures Fields(arg)[0] == "__proto__" ==> r.inst == inst
  {
    var fs := Fields(arg);
    Run(Ok(""), inst.(bindings := Bind(inst.bindings, fs[0], FieldAt(fs, 1))))
  }

  /** `setget(key|value)`: binds like `set` and yields the bound value. */
  function SetGet(inst: Instance, arg: string): (r: Run)
    ensures r.inst == Set(inst, arg).inst
    ensures r.out == Ok(Render(FieldAt(Fields(arg), 1)))
  {
    var fs := Fields(arg);
    var v := FieldAt(fs, 1);
    Run(Ok(Render(v)), inst.(bindings := Bind(inst.bindings, fs[0], v)))
  }

  /** `get(key)`: the property of the instance named by the first field.
      A key naming one of the instance's own members is reported as
      `Unmodelled`: JavaScript would hand that member to `replace`, which
      splices an object's string form and calls a method as a replacer. */
  function Get(inst: Instance, arg: string): (r: Run)
    ensures r.inst == inst
    ensures var key := Fields(arg)[0];
            key in inst.bindings ==> r.out == Ok(Render(inst.bindings[key]))
    ensures var key := Fields(arg)[0];
            key !in inst.bindings && key !in DslFunctions && key !in OtherMembers ==> r.out == Ok("undefined")
    ensures var key := Fields(arg)[0];
            key !in inst.bindings && (key in DslFunctions || key in OtherMembers) ==> r.out == Err(Unmodelled(key))
  {
    var key := Fields(arg)[0];
    if key in inst.bindings then Run(Ok(Render(inst.bindings[key])), inst)
    else if key in DslFunctions || key in OtherMembers then Run(Err(Unmodelled(key)), inst)
    else Run(Ok("undefined"), inst)
  }

  /** `random(a|b|...)`: the field at index floor(u * n) for the next draw u. */
  function Random(inst: Instance, w: World, arg: string): (r: Run)
    ensures r.out.Ok? && r.out.text in Fields(arg)
    ensures r.inst.bindings == inst.bindings
    ensures r.inst.oracleCalls == inst.oracleCalls + 1
  {
    var fs := Fields(arg);
    var i := PickIndex(w.random(inst.oracleCalls), |fs|);
    Run(Ok(fs[i]), inst.(oracleCalls := inst.oracleCalls + 1))
  }

  /** The one-message request `prompt` sends: the first field as a system message. */
  function PromptRequest(arg: string): seq<Message> {
    [Message(System, Fields(arg)[0])]
  }

  /** `prompt(text|...)`: sends the first field as a single system message to
      the completion service and yields the reply verbatim. */
  function Prompt(inst: Instance, w: World, arg: string): (r: Run)
    ensures r.inst.bindings == inst.bindings
    ensures "openAiService" in inst.bindings ==> r == Run(Err(Shadowed("openAiService")), inst)
    ensures "openAiService" !in inst.bindings ==>
              && r.inst.oracleCalls == inst.oracleCalls + 1
              && (w.complete(inst.oracleCalls, PromptRequest(arg)).Answered? <==> r.out.Ok?)
              && (r.out.Ok? ==> r.out.text == w.complete(inst.oracleCalls, PromptRequest(arg)).text)
  {
    if "openAiService" in inst.bindings then Run(Err(Shadowed("openAiService")), inst)
    else
      var next := inst.(oracleCalls := inst.oracleCalls + 1);
      match w.complete(inst.oracleCalls, PromptRequest(arg))
      case Answered(t) => Run(Ok(t), next)
      case Failed => Run(Err(ProviderFailed), next)
  }

  /** `await this[f](args)`: dispatch by property lookup on the instance. */
  function Invoke(inst: Instance, w: World, f: string, args: string): (r: Run)
    ensures (f in inst.bindings || (f !in DslFunctions && f !in OtherMembers)) ==> r == Run(Err(NotAFunction(f)), inst)
    ensures f !in inst.bindings && f in OtherMembers ==> r.out.Err?
    ensures f != "set" && f != "setget" ==> r.inst.bindings == inst.bindings
  {
    if f in inst.bindings then Run(Err(NotAFunction(f)), inst)
    else if f == "set" then Set(inst, args)
    else if f == "setget" then SetGet(inst, args)
    else if f == "get" then Get(inst, args)
    else if f == "random" then Random(inst, w, args)
    else if f == "prompt" then Prompt(inst, w, args)
    else if f in OtherMembers then Run(Err(Unmodelled(f)), inst)
    else Run(Err(NotAFunction(f)), inst)
  }

  /** `recursiveReplace(s)`: find the leftmost call and rewrite it, or
      return the text when it holds no call. */
  function Compile(inst: Instance, w: World, s: string, fuel: nat): (r: Run)
    ensures r.out.Ok? ==> NoCall(r.out.text)
    decreases fuel, 1
  {
    if fuel == 0 then Run(Err(OutOfFuel), inst)
    else if "getRegex" in inst.bindings then Run(Err(Shadowed("getRegex")), inst)
    else
      match FindCall(s)
      case None => Run(Ok(s), inst)
      case Some(c) => Rewrite(inst, w, s, c, fuel)
  }

  /** One rewrite of the call `c` in `s`: compile its argument text, run the
      function on the result, replace the first occurrence of the matched
      text with the function's result, and compile the whole string again. */
  function Rewrite(inst: Instance, w: World, s: string, c: Call, fuel: nat): (r: Run)
    requires fuel > 0 && IsCall(s, c)
    ensures r.out.Ok? ==> NoCall(r.out.text)
    decreases fuel, 0
  {
    var a := Compile(inst, w, Args(s, c), fuel - 1);
    if a.out.Err? then a
    else
      var v := Invoke(a.inst, w, Name(s, c), a.out.text);
      if v.out.Err? then v
      else Compile(v.inst, w, ReplaceFirst(s, Matched(s, c), v.out.text), fuel - 1)
  }

  /** `exec(prompt)` on an instance. */
  function Exec(inst: Instance, w: World, prompt: string, fuel: nat): (r: Run)
    ensures r.out.Ok? ==> NoCall(r.out.text)
    ensures "exec" in inst.bindings ==> r == Run(Err(Shadowed("exec")), inst)
  {
    if "exec" in inst.bindings then Run(Err(Shadowed("exec")), inst)
    else Compile(inst, w, prompt, fuel)
  }
}
