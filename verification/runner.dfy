/** The runner: the class-level `commands` declaration, building the command
    tree from it, and `call`, which parses the command line and either invokes
    the handler found, prints the usage of a node without one, or reports an
    unknown command. Reflection is replaced by data: a handler says what it
    is, a class lists the arity of each instance method, and the constants
    of the program are a registry. Output is returned as the text `puts`
    would write. */
module Runner {
  import opened Wrappers
  import opened Strings
  import opened Errors
  import opened Context
  import opened Router
  import opened Parser
  import opened Constants
  import opened Inflection

  /** What `commands` records on the class: the declaration block, if one
      was ever given, and the namespace handler names are resolved in. */
  datatype Config = Config(block: Block, namespace: string)

  /** A runner class that never called `commands` */
  const Unconfigured := Config(NoBlock, TopLevel)

  /** `commands(namespace:, &block)`: a block is required, then the namespace
      must be a module. */
  function Commands(block: Block, ns: NsValue): (r: Result<Config, Error>)
    ensures block.NoBlock? ==> r == Failure(NoBlockProvided)
    ensures block.Block? && ns.NotModule? ==> r == Failure(InvalidNamespace(ns.repr))
    ensures r.Success? <==> block.Block? && ns.Module?
    ensures r.Success? ==> r.value.block == block && r.value.namespace == ns.name
  {
    if block.NoBlock? then Failure(NoBlockProvided)
    else match ns
      case NotModule(repr) => Failure(InvalidNamespace(repr))
      case Module(name) => Success(Config(block, name))
  }

  /** A runner instance: the tree its router built, the namespace of its
      class, and its parser's accumulated state. */
  datatype Instance = Instance(tree: Node, namespace: string, parser: Parser)

  /** `Runner.new`: a fresh router evaluates the class's block, if any, and a
      fresh parser is attached. A raise during evaluation escapes `new`. */
  function New(cfg: Config): (r: Result<Instance, Error>)
    ensures r.Success? ==> r.value.tree.name == "" && r.value.namespace == cfg.namespace && r.value.parser == NewParser
    ensures cfg.block.NoBlock? ==> r == Success(Instance(NewContext(""), cfg.namespace, NewParser))
    ensures cfg.block.Block? ==> (r.Failure? <==> Eval(NewRouter(), cfg.block.decls).Raised?)
    ensures cfg.block.Block? && r.Success? ==> r.value.tree == Eval(NewRouter(), cfg.block.decls).state.tree
    ensures cfg.block.Block? && r.Failure? ==> r.error == Eval(NewRouter(), cfg.block.decls).error
  {
    match cfg.block
    case NoBlock => Success(Instance(NewRouter().tree, cfg.namespace, NewParser))
    case Block(ds) =>
      match Eval(NewRouter(), ds)
      case Raised(e, _) => Failure(e)
      case Done(st) => Success(Instance(st.tree, cfg.namespace, NewParser))
  }

  /** What a handler turns into once instantiated: the callable itself, or an
      instance of a class. */
  datatype Target = Proc(arity: int) | Obj(cls: ClassDef)

  /** What a call does: sends the action to the target with the arguments,
      or writes text to the output stream. `Silent` is the branch that does
      neither. */
  datatype Effect =
    | Invoked(target: Target, action: string, args: seq<seq<string>>)
    | Printed(text: string)
    | Silent

  /** `split_runnable`: a String handler is split at `#` into the command
      name and the action; any other handler, or a String without an action
      part, takes the node's action. A String with no fields gives no command. */
  function SplitRunnable(h: Handler, nodeAction: string): (r: (Option<Handler>, string))
    ensures !h.Str? ==> r == (Some(h), nodeAction)
  {
    match h
    case Str(s) =>
      var f := Split(s, '#');
      (if |f| == 0 then None else Some(Str(f[0])), if |f| >= 2 then f[1] else nodeAction)
    case _ => (Some(h), nodeAction)
  }

  /** `"id#action"` splits back into its two parts. */
  lemma SplitRunnableRoundTrip(id: string, action: string, nodeAction: string)
    requires '#' !in id && '#' !in action && action != ""
    ensures SplitRunnable(Str(id + "#" + action), nodeAction) == (Some(Str(id)), action)
  {
    assert Join([id, action], "#") == id + "#" + action by {
      assert [id, action][1..] == [action];
    }
    FieldsOfJoin([id, action], '#');
  }

  /** A String without `#` is the command name itself and takes the node's
      action; the empty String gives no command at all. */
  lemma SplitRunnablePlain(s: string, nodeAction: string)
    requires '#' !in s
    ensures SplitRunnable(Str(s), nodeAction) == (if s == "" then None else Some(Str(s)), nodeAction)
  {
    FieldsOfJoin([s], '#');
  }

  /** The names of the ancestors strictly between the root and the node at
      `path`, outermost first. The root has none. */
  function AncestorNames(path: seq<string>): (r: seq<string>)
    ensures |path| > 0 ==> |r| == |path| - 1
  {
    if |path| == 0 then [] else path[..|path| - 1]
  }

  /** The loop `until context.parent.root?` of `to_runnable_class`, as
      written: climb while the parent is not the root, collecting names. At
      the root the parent is the `EMPTY` sentinel, whose `root?` fails. */
  function AncestorsAsWritten(path: seq<string>): (r: Result<seq<string>, Error>)
    ensures r.Failure? <==> path == []
    ensures r.Success? ==> |r.value| == |path| - 1
    decreases |path|
  {
    var up := Parent(path);
    match IsRoot(up)
    case Failure(e) => Failure(e)
    case Success(atTop) =>
      if atTop then Success([])
      else
        match AncestorsAsWritten(up.path)
        case Failure(e) => Failure(e)
        case Success(rest) => Success(rest + [up.path[|up.path| - 1]])
  }

  /** Below the root the loop collects exactly the ancestor names. */
  lemma {:induction false} AncestorsAgree(path: seq<string>)
    requires |path| > 0
    ensures AncestorsAsWritten(path) == Success(AncestorNames(path))
    decreases |path|
  {
    var up := path[..|path| - 1];
    if |up| > 0 {
      AncestorsAgree(up);
      assert up[..|up| - 1] + [up[|up| - 1]] == up;
    }
  }

  /** At the root itself the loop asks `nil` whether it is empty. */
  lemma AncestorsAtRootFail()
    ensures AncestorsAsWritten([]) == Failure(NoMethodForNil("empty?"))
    ensures AncestorNames([]) == []
  {
  }

  /** The constant segments for a handler named `id` at `path`: the
      ancestors' names and the id, each camelcased. */
  function ClassPath(ancestors: seq<string>, id: string): seq<string>
  {
    CamelcaseAll(ancestors + [id])
  }

  /** `const_get(...).new`: a class is instantiated; a module, or any other
      value, has no `new` and raises `NoMethodError`. */
  function NewObject(c: Const, name: string): (r: Result<Target, Error>)
    ensures c.ClassConst? <==> r.Success?
    ensures r.Success? ==> r.value == Obj(c.cls)
    ensures c.ModuleConst? ==> r == Failure(NoMethodForModule("new", name))
    ensures c.Value? ==> r == Failure(NoMethodForValue("new", c.repr))
  {
    match c
    case ClassConst(cls) => Success(Obj(cls))
    case ModuleConst => Failure(NoMethodForModule("new", name))
    case Value(repr) => Failure(NoMethodForValue("new", repr))
  }

  /** `to_runnable_class(context, id).new` for a name handler, given the
      ancestor names. */
  function ResolveClass(ancestors: seq<string>, id: string, ns: string, reg: Registry): (r: Result<Target, Error>)
    ensures r.Success? ==> ConstGet(reg, ns, ClassPath(ancestors, id)).Success?
  {
    var c :- ConstGet(reg, ns, ClassPath(ancestors, id));
    NewObject(c, ConstName(ancestors + [id]))
  }

  /** `inspect` of the values no handler kind covers */
  function Inspect(cmd: Option<Handler>): string
  {
    match cmd
    case None => "nil"
    case Some(FalseValue) => "false"
    case Some(Other(repr)) => repr
    case Some(_) => ""
  }

  /** `instantiate_command`: a callable is used as it is, a class is
      instantiated, a String or a Symbol names a class resolved from the
      node's ancestors, anything else is unsupported. A Symbol resolves like
      the String with its text. */
  function Instantiate(cmd: Option<Handler>, path: seq<string>, ns: string, reg: Registry): (r: Result<Target, Error>)
    ensures cmd == None ==> r == Failure(UnsupportedRunnable("nil"))
    ensures cmd == Some(FalseValue) ==> r == Failure(UnsupportedRunnable("false"))
    ensures cmd.Some? && cmd.value.Other? ==> r == Failure(UnsupportedRunnable(cmd.value.repr))
    ensures cmd.Some? && cmd.value.Callable? ==> r == Success(Proc(cmd.value.arity))
    ensures cmd.Some? && cmd.value.ClassRef? ==> r == Success(Obj(cmd.value.cls))
    ensures cmd.Some? && (cmd.value.Str? || cmd.value.Sym?) ==> r == ResolveClass(AncestorNames(path), cmd.value.text, ns, reg)
  {
    match cmd
    case None => Failure(UnsupportedRunnable(Inspect(cmd)))
    case Some(h) =>
      match h
      case Callable(arity) => Success(Proc(arity))
      case ClassRef(cls) => Success(Obj(cls))
      case Str(id) => ResolveClass(AncestorNames(path), id, ns, reg)
      case Sym(id) => ResolveClass(AncestorNames(path), id, ns, reg)
      case FalseValue => Failure(UnsupportedRunnable(Inspect(cmd)))
      case Other(_) => Failure(UnsupportedRunnable(Inspect(cmd)))
  }

  /** `instantiate_command` as written: `to_runnable_class` hands a Symbol
      back unchanged, and `Symbol#new` does not exist; a String climbs the
      ancestors with the loop above. */
  function InstantiateAsWritten(cmd: Option<Handler>, path: seq<string>, ns: string, reg: Registry): (r: Result<Target, Error>)
    ensures cmd.Some? && cmd.value.Sym? ==> r.Failure?
    ensures cmd.Some? && cmd.value.Str? && path == [] ==> r.Failure?
    ensures !(cmd.Some? && (cmd.value.Sym? || cmd.value.Str?)) ==> r == Instantiate(cmd, path, ns, reg)
  {
    match cmd
    case Some(Sym(id)) => Failure(NoMethodForSymbol("new", id))
    case Some(Str(id)) =>
      var ancestors :- AncestorsAsWritten(path);
      ResolveClass(ancestors, id, ns, reg)
    case _ => Instantiate(cmd, path, ns, reg)
  }

  /** Away from the root and from Symbols the two agree. */
  lemma InstantiateAgrees(cmd: Option<Handler>, path: seq<string>, ns: string, reg: Registry)
    requires |path| > 0
    requires !(cmd.Some? && cmd.value.Sym?)
    ensures InstantiateAsWritten(cmd, path, ns, reg) == Instantiate(cmd, path, ns, reg)
  {
    AncestorsAgree(path);
  }

  /** A Symbol handler always fails as written, even when the class its
      String spelling names exists. */
  lemma SymbolHandlerFails(id: string, path: seq<string>, ns: string, reg: Registry)
    ensures InstantiateAsWritten(Some(Sym(id)), path, ns, reg) == Failure(NoMethodForSymbol("new", id))
    ensures Instantiate(Some(Sym(id)), path, ns, reg) == Instantiate(Some(Str(id)), path, ns, reg)
  {
  }

  /** A String handler on the root always fails as written; corrected, it
      names a top-level constant of the namespace. */
  lemma RootStringHandlerFails(id: string, ns: string, reg: Registry)
    ensures InstantiateAsWritten(Some(Str(id)), [], ns, reg) == Failure(NoMethodForNil("empty?"))
    ensures Instantiate(Some(Str(id)), [], ns, reg) == ResolveClass([], id, ns, reg)
  {
  }

  /** `runnable_args` on a known arity: none below one, the leftovers for
      exactly one, and for more `nil`, which passes nothing. */
  function ArgsFor(arity: int, remaining: seq<string>): (r: seq<seq<string>>)
    ensures |r| <= 1
  {
    if arity < 1 then [] else if arity == 1 then [remaining] else []
  }

  /** Arguments are passed exactly when the arity is one, and then they are
      the leftover tokens. */
  lemma ArgsOnlyForArityOne(arity: int, remaining: seq<string>)
    ensures |ArgsFor(arity, remaining)| == 1 <==> arity == 1
    ensures arity == 1 ==> ArgsFor(arity, remaining)[0] == remaining
  {
  }

  /** `runnable_args(runnable, action)`: a callable reports its own arity; an
      object is asked for the arity of the method named by the action, which
      fails when there is no such method. */
  function RunnableArgs(t: Target, action: string, remaining: seq<string>): (r: Result<seq<seq<string>>, Error>)
    ensures t.Proc? ==> r == Success(ArgsFor(t.arity, remaining))
    ensures t.Obj? ==> (r.Success? <==> action in t.cls.methods)
    ensures t.Obj? && action in t.cls.methods ==> r == Success(ArgsFor(t.cls.methods[action], remaining))
    ensures t.Obj? && action !in t.cls.methods ==> r == Failure(UndefinedMethod(action))
  {
    match t
    case Proc(arity) => Success(ArgsFor(arity, remaining))
    case Obj(cls) =>
      if action in cls.methods then Success(ArgsFor(cls.methods[action], remaining))
      else Failure(UndefinedMethod(action))
  }

  /** `invoke_command`: split the handler, instantiate it, and send it the
      action with the arguments its arity asks for. `asWritten` selects the
      instantiation of the source as it stands. */
  function Invoke(node: Node, path: seq<string>, ns: string, remaining: seq<string>, reg: Registry, asWritten: bool): (r: Result<Effect, Error>)
    requires Runnable(node)
    ensures r.Success? ==> r.value.Invoked? && r.value.action == SplitRunnable(node.handler.value, node.action).1
    ensures r.Success? && r.value.target.Proc? && r.value.target.arity == 1 ==> r.value.args == [remaining]
    ensures var (cmd, action) := SplitRunnable(node.handler.value, node.action);
      var t := if asWritten then InstantiateAsWritten(cmd, path, ns, reg) else Instantiate(cmd, path, ns, reg);
      && (t.Failure? ==> r == Failure(t.error))
      && (t.Success? ==> (r.Success? <==> RunnableArgs(t.value, action, remaining).Success?))
      && (r.Success? ==> r.value == Invoked(t.value, action, RunnableArgs(t.value, action, remaining).value))
  {
    var (cmd, action) := SplitRunnable(node.handler.value, node.action);
    var target :- if asWritten then InstantiateAsWritten(cmd, path, ns, reg) else Instantiate(cmd, path, ns, reg);
    var args :- RunnableArgs(target, action, remaining);
    Success(Invoked(target, action, args))
  }

  /** The longest of the names, 0 for none (where Ruby's `max` is `nil`, no
      line is formatted). */
  function LongestName(names: seq<string>): (r: nat)
    ensures forall i :: 0 <= i < |names| ==> |names[i]| <= r
    ensures |names| > 0 ==> exists i :: 0 <= i < |names| && |names[i]| == r
    ensures |names| == 0 ==> r == 0
    decreases |names|
  {
    if |names| == 0 then 0
    else
      var t := LongestName(names[1..]);
      assert forall i :: 1 <= i < |names| ==> names[i] == names[1..][i - 1];
      if |names[0]| >= t then |names[0]| else t
  }

  /** One usage line: two spaces, the prefix and a space when there is one,
      then the name left-justified to `width`. */
  function Line(prefix: string, name: string, width: nat): string
  {
    "  " + prefix + (if prefix == "" then "" else " ") + PadRight(name, width)
  }

  /** The lines for the non-empty names, in the order of the names */
  function RawLines(names: seq<string>, prefix: string, width: nat): seq<string>
    decreases |names|
  {
    if |names| == 0 then []
    else (if names[0] == "" then [] else [Line(prefix, names[0], width)]) + RawLines(names[1..], prefix, width)
  }

  /** Each non-empty name has its line among the raw lines. */
  lemma {:induction false} RawLinesCover(names: seq<string>, prefix: string, width: nat)
    ensures forall i :: 0 <= i < |names| && names[i] != "" ==> Line(prefix, names[i], width) in RawLines(names, prefix, width)
    decreases |names|
  {
    if |names| > 0 {
      RawLinesCover(names[1..], prefix, width);
      assert forall i :: 1 <= i < |names| ==> names[i] == names[1..][i - 1];
    }
  }

  /** Each raw line is the line of some non-empty name. */
  lemma {:induction false} RawLinesFrom(names: seq<string>, prefix: string, width: nat)
    ensures forall x :: x in RawLines(names, prefix, width) ==>
      exists i :: 0 <= i < |names| && names[i] != "" && x == Line(prefix, names[i], width)
    decreases |names|
  {
    if |names| > 0 {
      RawLinesFrom(names[1..], prefix, width);
      forall x | x in RawLines(names, prefix, width)
        ensures exists i :: 0 <= i < |names| && names[i] != "" && x == Line(prefix, names[i], width)
      {
        if x in RawLines(names[1..], prefix, width) {
          var i :| 0 <= i < |names[1..]| && names[1..][i] != "" && x == Line(prefix, names[1..][i], width);
          assert names[i + 1] == names[1..][i];
        } else {
          assert names[0] != "" && x == Line(prefix, names[0], width);
        }
      }
    }
  }

  /** Every line is as long as the widest name makes it. */
  lemma LineLength(prefix: string, name: string, width: nat)
    requires |name| <= width
    ensures |Line(prefix, name, width)| == 2 + |prefix| + (if prefix == "" then 0 else 1) + width
  {
  }

  /** The width of the usage column: the longest child name */
  function UsageWidth(n: Node): nat
  {
    LongestName(Names(n.children))
  }

  /** Elements are kept by a permutation. */
  lemma SameElements(a: seq<string>, b: seq<string>)
    requires multiset(a) == multiset(b)
    ensures forall x :: x in a <==> x in b
  {
    forall x ensures x in a <==> x in b {
      assert x in a <==> x in multiset(a);
      assert x in b <==> x in multiset(b);
    }
  }

  /** The sorted lines of `usage`: one line per child with a non-empty name,
      every line of that child's name, all of one length, in ascending
      `String#<=>` order. */
  function UsageLines(n: Node, prefix: string): (r: seq<string>)
    ensures Sorted(r)
    ensures multiset(r) == multiset(RawLines(Names(n.children), prefix, UsageWidth(n)))
    ensures forall i :: 0 <= i < |n.children| && n.children[i].name != "" ==> Line(prefix, n.children[i].name, UsageWidth(n)) in r
    ensures forall j :: 0 <= j < |r| ==> exists i :: 0 <= i < |n.children| && n.children[i].name != "" && r[j] == Line(prefix, n.children[i].name, UsageWidth(n))
    ensures forall j :: 0 <= j < |r| ==> |r[j]| == 2 + |prefix| + (if prefix == "" then 0 else 1) + UsageWidth(n)
  {
    var names := Names(n.children);
    var w := UsageWidth(n);
    var raw := RawLines(names, prefix, w);
    var r := Sort(raw);
    UsageLinesCover(n, prefix, raw, r);
    UsageLinesFrom(n, prefix, raw, r);
    UsageLinesWidth(n, prefix, raw, r);
    r
  }

  /** Every child with a non-empty name has its line. */
  lemma UsageLinesCover(n: Node, prefix: string, raw: seq<string>, r: seq<string>)
    requires raw == RawLines(Names(n.children), prefix, UsageWidth(n))
    requires multiset(r) == multiset(raw)
    ensures forall i :: 0 <= i < |n.children| && n.children[i].name != "" ==> Line(prefix, n.children[i].name, UsageWidth(n)) in r
  {
    SameElements(r, raw);
    RawLinesCover(Names(n.children), prefix, UsageWidth(n));
    forall i | 0 <= i < |n.children| && n.children[i].name != ""
      ensures Line(prefix, n.children[i].name, UsageWidth(n)) in r
    {
      assert Names(n.children)[i] == n.children[i].name;
    }
  }

  /** Every line is the line of a child with a non-empty name. */
  lemma UsageLinesFrom(n: Node, prefix: string, raw: seq<string>, r: seq<string>)
    requires raw == RawLines(Names(n.children), prefix, UsageWidth(n))
    requires multiset(r) == multiset(raw)
    ensures forall j :: 0 <= j < |r| ==> exists i :: 0 <= i < |n.children| && n.children[i].name != "" && r[j] == Line(prefix, n.children[i].name, UsageWidth(n))
  {
    SameElements(r, raw);
    forall j | 0 <= j < |r|
      ensures exists i :: 0 <= i < |n.children| && n.children[i].name != "" && r[j] == Line(prefix, n.children[i].name, UsageWidth(n))
    {
      UsageLineAt(n, prefix, raw, r[j]);
    }
  }

  /** All lines have the same length. */
  lemma UsageLinesWidth(n: Node, prefix: string, raw: seq<string>, r: seq<string>)
    requires raw == RawLines(Names(n.children), prefix, UsageWidth(n))
    requires multiset(r) == multiset(raw)
    ensures forall j :: 0 <= j < |r| ==> |r[j]| == 2 + |prefix| + (if prefix == "" then 0 else 1) + UsageWidth(n)
  {
    SameElements(r, raw);
    forall j | 0 <= j < |r|
      ensures |r[j]| == 2 + |prefix| + (if prefix == "" then 0 else 1) + UsageWidth(n)
    {
      UsageLineAt(n, prefix, raw, r[j]);
    }
  }

  lemma UsageLineAt(n: Node, prefix: string, raw: seq<string>, x: string)
    requires raw == RawLines(Names(n.children), prefix, UsageWidth(n))
    requires x in raw
    ensures exists i :: 0 <= i < |n.children| && n.children[i].name != "" && x == Line(prefix, n.children[i].name, UsageWidth(n))
    ensures |x| == 2 + |prefix| + (if prefix == "" then 0 else 1) + UsageWidth(n)
  {
    var names := Names(n.children);
    var w := UsageWidth(n);
    RawLinesFrom(names, prefix, w);
    var i :| 0 <= i < |names| && names[i] != "" && x == Line(prefix, names[i], w);
    assert names[i] == n.children[i].name;
    LineLength(prefix, names[i], w);
  }

  /** `usage(context, prefix:)` */
  function Usage(n: Node, prefix: string): (r: string)
    ensures |r| >= 10 && r[..10] == "Commands:\n"
  {
    "Commands:\n" + Join(UsageLines(n, prefix), "\n")
  }

  /** `puts`: the text and a newline, unless it already ends in one */
  function Puts(s: string): (r: string)
    ensures |r| > 0 && r[|r| - 1] == '\n'
    ensures s <= r && |r| <= |s| + 1
  {
    if |s| > 0 && s[|s| - 1] == '\n' then s else s + "\n"
  }

  /** The report for a command line nothing matched */
  function NotFound(p: Parser): string
  {
    "Command '" + UnknownCommand(p) + "' not found"
  }

  /** The three branches of `call` after `parse`, with the parser the parse
      left behind. */
  function Dispatch(ns: string, parsed: Parsed, reg: Registry, asWritten: bool): (r: Result<Effect, Error>)
    ensures r.Success? && r.value.Invoked? ==> parsed.found.Some? && Runnable(parsed.found.value.node)
    ensures parsed.found.Some? && !Runnable(parsed.found.value.node) ==>
      r.Success? && r.value.Printed? && "Commands:\n" <= r.value.text
    ensures parsed.found.None? && !parsed.anyMatch ==>
      r.Success? && r.value.Printed? && "Command '" <= r.value.text
    ensures r == Success(Silent) <==> parsed.found.None? && parsed.anyMatch
  {
    match parsed.found
    case Some(f) =>
      if Runnable(f.node) then Invoke(f.node, f.path, ns, parsed.parser.remaining, reg, asWritten)
      else Success(Printed(Puts(Usage(f.node, parsed.prefix))))
    case None =>
      if !parsed.anyMatch then Success(Printed(Puts(NotFound(parsed.parser))))
      else Success(Silent)
  }

  /** A call leaves the instance with its parser's new state, whether or not
      the call raised. */
  datatype Called = Called(inst: Instance, outcome: Result<Effect, Error>)

  /** `call(argv)` with a parser whose state starts empty on every call. */
  function Call(inst: Instance, argv: seq<string>, reg: Registry): (r: Called)
    ensures r.inst.tree == inst.tree && r.inst.namespace == inst.namespace
  {
    var parsed := Parse(NewParser, inst.tree, argv);
    Called(inst.(parser := parsed.parser), Dispatch(inst.namespace, parsed, reg, false))
  }

  /** `call(argv)` as written: the instance's one parser keeps the tokens of
      every earlier call, and the instantiation is the source's own. */
  function CallAsWritten(inst: Instance, argv: seq<string>, reg: Registry): (r: Called)
    ensures r.inst.tree == inst.tree && r.inst.namespace == inst.namespace
  {
    var parsed := Parse(inst.parser, inst.tree, argv);
    Called(inst.(parser := parsed.parser), Dispatch(inst.namespace, parsed, reg, true))
  }

  /** After `parse` from a parser in state `p`, the three branches of `call`:
      the handler of the node found is invoked with the leftovers the parser
      now holds, a node found without a handler prints its usage under the
      typed prefix, and otherwise the unknown command is reported from the
      parser's tokens. The silent branch is never taken. */
  lemma DispatchOutcomes(p: Parser, tree: Node, ns: string, argv: seq<string>, reg: Registry, asWritten: bool)
    ensures var m := FindCommand(tree, [], true, argv, "");
      var o := Dispatch(ns, Parse(p, tree, argv), reg, asWritten);
      && (m.found.Some? && Runnable(m.found.value.node) ==>
            o == Invoke(m.found.value.node, m.found.value.path, ns, p.remaining + m.rest, reg, asWritten))
      && (m.found.Some? && !Runnable(m.found.value.node) ==>
            o == Success(Printed(Puts(Usage(m.found.value.node, Join(DropLeadingEmpty(Texts(m.consumed)), " "))))))
      && (m.found.None? ==> o == Success(Printed(Puts(NotFound(Parser(p.matched + m.consumed, p.remaining + m.rest))))))
      && o != Success(Silent)
  {
    var m := FindCommand(tree, [], true, argv, "");
    var r := Parse(p, tree, argv);
    assert r.parser.matched[|p.matched|..] == m.consumed;
  }

  /** The outcomes of `call` with a parser that starts empty on every call:
      only this call's tokens are invoked with and reported. */
  lemma CallOutcomes(inst: Instance, argv: seq<string>, reg: Registry)
    ensures var m := FindCommand(inst.tree, [], true, argv, "");
      var o := Call(inst, argv, reg).outcome;
      && (m.found.Some? && Runnable(m.found.value.node) ==>
            o == Invoke(m.found.value.node, m.found.value.path, inst.namespace, m.rest, reg, false))
      && (m.found.Some? && !Runnable(m.found.value.node) ==>
            o == Success(Printed(Puts(Usage(m.found.value.node, Join(DropLeadingEmpty(Texts(m.consumed)), " "))))))
      && (m.found.None? ==> o == Success(Printed(Puts(NotFound(Parser(m.consumed, m.rest))))))
      && o != Success(Silent)
  {
    var m := FindCommand(inst.tree, [], true, argv, "");
    DispatchOutcomes(NewParser, inst.tree, inst.namespace, argv, reg, false);
    assert [] + m.consumed == m.consumed && [] + m.rest == m.rest;
  }

  /** The outcomes of `call` as written: the handler receives every leftover
      the instance's parser ever collected, and the unknown command is
      reported from every token it ever matched. */
  lemma CallOutcomesAsWritten(inst: Instance, argv: seq<string>, reg: Registry)
    ensures var m := FindCommand(inst.tree, [], true, argv, "");
      var o := CallAsWritten(inst, argv, reg).outcome;
      && (m.found.Some? && Runnable(m.found.value.node) ==>
            o == Invoke(m.found.value.node, m.found.value.path, inst.namespace, inst.parser.remaining + m.rest, reg, true))
      && (m.found.Some? && !Runnable(m.found.value.node) ==>
            o == Success(Printed(Puts(Usage(m.found.value.node, Join(DropLeadingEmpty(Texts(m.consumed)), " "))))))
      && (m.found.None? ==>
            o == Success(Printed(Puts(NotFound(Parser(inst.parser.matched + m.consumed, inst.parser.remaining + m.rest))))))
      && o != Success(Silent)
  {
    DispatchOutcomes(inst.parser, inst.tree, inst.namespace, argv, reg, true);
  }

  /** The outcome of a call does not depend on earlier calls. */
  lemma CallForgetsHistory(inst: Instance, p: Parser, argv: seq<string>, reg: Registry)
    ensures Call(inst.(parser := p), argv, reg).outcome == Call(inst, argv, reg).outcome
  {
  }

  /** `run(argv)`: a new instance of the configured class, called once, with
      the source's own instantiation. */
  function Run(cfg: Config, argv: seq<string>, reg: Registry): (r: Result<Effect, Error>)
    ensures New(cfg).Failure? ==> r == Failure(New(cfg).error)
  {
    var inst :- New(cfg);
    CallAsWritten(inst, argv, reg).outcome
  }

  /** `run(argv)` with the corrected instantiation */
  function RunCorrected(cfg: Config, argv: seq<string>, reg: Registry): (r: Result<Effect, Error>)
    ensures New(cfg).Failure? ==> r == Failure(New(cfg).error)
  {
    var inst :- New(cfg);
    Call(inst, argv, reg).outcome
  }

  /** A run starts from a fresh parser, so its outcomes are those of one call
      on this command line alone: the handler found is invoked with this
      line's leftovers, a node without one prints its usage, and anything
      else is reported from this line's tokens. The corrected run differs
      only in how the handler is instantiated. */
  lemma RunOutcomes(cfg: Config, argv: seq<string>, reg: Registry)
    requires New(cfg).Success?
    ensures var inst := New(cfg).value;
      var m := FindCommand(inst.tree, [], true, argv, "");
      var o := Run(cfg, argv, reg);
      && (m.found.Some? && Runnable(m.found.value.node) ==>
            && o == Invoke(m.found.value.node, m.found.value.path, cfg.namespace, m.rest, reg, true)
            && RunCorrected(cfg, argv, reg) == Invoke(m.found.value.node, m.found.value.path, cfg.namespace, m.rest, reg, false))
      && (m.found.Some? && !Runnable(m.found.value.node) ==>
            o == Success(Printed(Puts(Usage(m.found.value.node, Join(DropLeadingEmpty(Texts(m.consumed)), " ")))))
            && RunCorrected(cfg, argv, reg) == o)
      && (m.found.None? ==>
            o == Success(Printed(Puts(NotFound(Parser(m.consumed, m.rest))))) && RunCorrected(cfg, argv, reg) == o)
      && o != Success(Silent)
  {
    var inst := New(cfg).value;
    var m := FindCommand(inst.tree, [], true, argv, "");
    CallOutcomesAsWritten(inst, argv, reg);
    CallOutcomes(inst, argv, reg);
    assert [] + m.consumed == m.consumed && [] + m.rest == m.rest;
  }

  // Worked examples from the runner tests, on trees written out by hand.

  /** The usage text is fixed by any ascending arrangement of the raw lines. */
  lemma UsageIs(n: Node, prefix: string, raw: seq<string>, sorted: seq<string>)
    requires raw == RawLines(Names(n.children), prefix, UsageWidth(n))
    requires Sorted(sorted) && multiset(raw) == multiset(sorted)
    ensures Usage(n, prefix) == "Commands:\n" + Join(sorted, "\n")
  {
    SortedUnique(UsageLines(n, prefix), sorted);
  }

  lemma RawLinesCons(name: string, names: seq<string>, prefix: string, width: nat)
    ensures RawLines([name] + names, prefix, width) ==
      (if name == "" then [] else [Line(prefix, name, width)]) + RawLines(names, prefix, width)
  {
    assert ([name] + names)[0] == name && ([name] + names)[1..] == names;
  }

  /** A name as wide as the column is not padded. */
  lemma LineOfWidest(prefix: string, name: string)
    ensures Line(prefix, name, |name|) == "  " + prefix + (if prefix == "" then "" else " ") + name
  {
  }

  lemma ThreeNames(n: Node)
    requires n.children == [NewContext("foo"), NewContext("bar"), NewContext("qux")]
    ensures Names(n.children) == ["foo", "bar", "qux"]
    ensures UsageWidth(n) == 3
  {
    assert Names(n.children) == ["foo", "bar", "qux"];
    var names := ["foo", "bar", "qux"];
    assert names[1..] == ["bar", "qux"] && names[1..][1..] == ["qux"] && names[1..][1..][1..] == [];
  }

  lemma LineCons(name: string, rest: seq<string>, prefix: string, width: nat, line: string)
    requires name != "" && Line(prefix, name, width) == line
    ensures RawLines([name] + rest, prefix, width) == [line] + RawLines(rest, prefix, width)
  {
    RawLinesCons(name, rest, prefix, width);
  }

  lemma ThreeLines()
    ensures RawLines(["foo", "bar", "qux"], "", 3) == ["  foo", "  bar", "  qux"]
  {
    LineOfWidest("", "foo");
    LineOfWidest("", "bar");
    LineOfWidest("", "qux");
    assert Line("", "qux", 3) == "  qux";
    assert Line("", "bar", 3) == "  bar";
    assert Line("", "foo", 3) == "  foo";
    LineCons("qux", [], "", 3, "  qux");
    LineCons("bar", ["qux"], "", 3, "  bar");
    LineCons("foo", ["bar", "qux"], "", 3, "  foo");
    assert RawLines([], "", 3) == [];
    assert ["qux"] + [] == ["qux"] && ["bar"] + ["qux"] == ["bar", "qux"] && ["foo"] + ["bar", "qux"] == ["foo", "bar", "qux"];
  }

  lemma ThreeSorted()
    ensures Sorted(["  bar", "  foo", "  qux"])
  {
    assert Compare("  bar", "  foo") == -1;
    assert Compare("  foo", "  qux") == -1;
    assert Compare("  bar", "  qux") == -1;
  }

  lemma ThreeJoined()
    ensures Join(["  bar", "  foo", "  qux"], "\n") == "  bar\n  foo\n  qux"
  {
    var ls := ["  bar", "  foo", "  qux"];
    assert ls[1..] == ["  foo", "  qux"] && ls[1..][1..] == ["  qux"];
  }

  lemma ThreeSame()
    ensures multiset(["  foo", "  bar", "  qux"]) == multiset(["  bar", "  foo", "  qux"])
  {
  }

  lemma ThreeUsage(n: Node)
    requires n.children == [NewContext("foo"), NewContext("bar"), NewContext("qux")]
    ensures Usage(n, "") == "Commands:\n" + Join(["  bar", "  foo", "  qux"], "\n")
  {
    ThreeNames(n);
    ThreeLines();
    ThreeSorted();
    ThreeSame();
    UsageIs(n, "", ["  foo", "  bar", "  qux"], ["  bar", "  foo", "  qux"]);
  }

  lemma ThreeText()
    ensures "Commands:\n" + Join(["  bar", "  foo", "  qux"], "\n") == "Commands:\n  bar\n  foo\n  qux"
  {
    ThreeJoined();
  }

  /** The root listing of a runner whose top-level commands are `foo`, `bar`
      and `qux`, declared in that order: sorted, one per line. */
  lemma UsageExample(n: Node)
    requires n.children == [NewContext("foo"), NewContext("bar"), NewContext("qux")]
    ensures Usage(n, "") == "Commands:\n  bar\n  foo\n  qux"
  {
    ThreeUsage(n);
    ThreeText();
  }

  lemma TwoNames(n: Node)
    requires n.children == [NewContext("qux"), NewContext("quux")]
    ensures Names(n.children) == ["qux", "quux"]
    ensures UsageWidth(n) == 4
  {
    assert Names(n.children) == ["qux", "quux"];
    var names := ["qux", "quux"];
    assert names[1..] == ["quux"] && names[1..][1..] == [];
  }

  lemma TwoLines()
    ensures RawLines(["qux", "quux"], "foo bar baz", 4) == ["  foo bar baz qux ", "  foo bar baz quux"]
  {
    LineOfWidest("foo bar baz", "quux");
    assert Line("foo bar baz", "quux", 4) == "  foo bar baz quux";
    assert PadRight("qux", 4) == "qux ";
    assert Line("foo bar baz", "qux", 4) == "  foo bar baz qux ";
    LineCons("quux", [], "foo bar baz", 4, "  foo bar baz quux");
    LineCons("qux", ["quux"], "foo bar baz", 4, "  foo bar baz qux ");
    assert RawLines([], "foo bar baz", 4) == [];
    assert ["quux"] + [] == ["quux"] && ["qux"] + ["quux"] == ["qux", "quux"];
  }

  lemma PairSorted(a: string, b: string)
    requires AtMost(a, b)
    ensures Sorted([a, b])
  {
  }

  lemma QuuxFirst()
    ensures Compare("quux", "qux ") == -1
  {
    assert "quux"[1..] == "uux" && "qux "[1..] == "ux ";
    assert "uux"[1..] == "ux" && "ux "[1..] == "x ";
    assert Compare("ux", "x ") == -1;
  }

  lemma TwoSorted()
    ensures Sorted(["  foo bar baz quux", "  foo bar baz qux "])
  {
    assert "  foo bar baz quux" == "  foo bar baz " + "quux";
    assert "  foo bar baz qux " == "  foo bar baz " + "qux ";
    CompareCommonPrefix("  foo bar baz ", "quux", "qux ");
    QuuxFirst();
    PairSorted("  foo bar baz quux", "  foo bar baz qux ");
  }

  lemma TwoSame()
    ensures multiset(["  foo bar baz qux ", "  foo bar baz quux"]) == multiset(["  foo bar baz quux", "  foo bar baz qux "])
  {
  }

  lemma TwoUsage(n: Node)
    requires n.children == [NewContext("qux"), NewContext("quux")]
    ensures Usage(n, "foo bar baz") == "Commands:\n" + Join(["  foo bar baz quux", "  foo bar baz qux "], "\n")
  {
    TwoNames(n);
    TwoLines();
    TwoSorted();
    TwoSame();
    UsageIs(n, "foo bar baz", ["  foo bar baz qux ", "  foo bar baz quux"], ["  foo bar baz quux", "  foo bar baz qux "]);
  }

  lemma TwoText()
    ensures "Commands:\n" + Join(["  foo bar baz quux", "  foo bar baz qux "], "\n") == "Commands:\n  foo bar baz quux\n  foo bar baz qux "
  {
    var ls := ["  foo bar baz quux", "  foo bar baz qux "];
    assert ls[1..] == ["  foo bar baz qux "];
  }

  /** A shorter name is padded to the longest: the line keeps trailing spaces. */
  lemma UsagePadsShortNames(n: Node)
    requires n.children == [NewContext("qux"), NewContext("quux")]
    ensures Usage(n, "foo bar baz") == "Commands:\n  foo bar baz quux\n  foo bar baz qux "
  {
    TwoUsage(n);
    TwoText();
  }

  lemma ScanFoo() ensures Scan("foo", true) == "Foo" { }
  lemma ScanBar() ensures Scan("bar", true) == "Bar" { }
  lemma ScanBaz() ensures Scan("baz", true) == "Baz" { }
  lemma ScanCommand() ensures Scan("command", true) == "Command" { }

  lemma BazCommandSplit()
    ensures "baz_command" == "baz" + "_" + "command"
    ensures "Baz" + "Command" == "BazCommand"
  {
  }

  lemma ScanBazCommand()
    ensures Scan("baz_command", true) == "BazCommand"
  {
    BazCommandSplit();
    ScanBaz();
    ScanCommand();
    ScanAtUnderscore("baz", "command", true);
  }

  lemma ExampleNames()
    ensures Camelcase("foo") == "Foo" && Camelcase("bar") == "Bar"
    ensures Camelcase("baz_command") == "BazCommand"
  {
    ScanFoo();
    ScanBar();
    ScanBazCommand();
  }

  lemma ExampleSegments()
    ensures CamelcaseAll(["foo", "bar", "baz_command"]) == ["Foo", "Bar", "BazCommand"]
  {
    CamelcaseAllThree("foo", "bar", "baz_command");
    ExampleNames();
  }

  lemma ExampleJoins()
    ensures Join(["Foo"], "::") == "Foo"
    ensures Join(["Foo", "Bar"], "::") == "Foo::Bar"
    ensures Join(["Foo", "Bar", "BazCommand"], "::") == "Foo::Bar::BazCommand"
  {
    var segs := ["Foo", "Bar", "BazCommand"];
    assert segs[1..] == ["Bar", "BazCommand"];
    assert segs[1..][1..] == ["BazCommand"];
    assert ["Foo", "Bar"][1..] == ["Bar"];
  }

  lemma ExampleConstSegments()
    ensures ConstSegment("Foo") && ConstSegment("Bar") && ConstSegment("BazCommand")
  {
  }

  lemma ExampleKeys()
    ensures Qualify("MyCLI::Commands", "Foo") == "MyCLI::Commands::Foo"
    ensures Qualify("MyCLI::Commands", "Foo::Bar") == "MyCLI::Commands::Foo::Bar"
    ensures Qualify("MyCLI::Commands", "Foo::Bar::BazCommand") == "MyCLI::Commands::Foo::Bar::BazCommand"
  {
  }

  lemma ExampleResolve(c: ClassDef, reg: Registry)
    requires reg == map["MyCLI::Commands::Foo" := ModuleConst,
                        "MyCLI::Commands::Foo::Bar" := ModuleConst,
                        "MyCLI::Commands::Foo::Bar::BazCommand" := ClassConst(c)]
    ensures ConstGet(reg, "MyCLI::Commands", ["Foo", "Bar", "BazCommand"]) == Success(ClassConst(c))
  {
    var segs := ["Foo", "Bar", "BazCommand"];
    assert forall i :: 0 <= i < |segs| ==> ConstSegment(segs[i]) by {
      ExampleConstSegments();
    }
    assert Constants.Resolve(reg, "MyCLI::Commands", Join(segs, "::"), segs, true) == Success(ClassConst(c)) by {
      ExampleJoins();
      ExampleConstSegments();
      ExampleKeys();
      assert segs[..1] == ["Foo"] && segs[..2] == ["Foo", "Bar"] && segs[..3] == segs;
      forall k | 1 <= k <= |segs| ensures Qualify("MyCLI::Commands", Join(segs[..k], "::")) in reg {
        if k == 1 {} else if k == 2 {} else {}
      }
      ResolveQualified(reg, "MyCLI::Commands", Join(segs, "::"), segs, true);
    }
    ConstSegmentsPlain(segs);
    assert ScopeOf("MyCLI::Commands") == "MyCLI::Commands";
  }

  /** A handler `"baz_command"` declared at `foo bar baz` under the namespace
      `MyCLI::Commands` names `MyCLI::Commands::Foo::Bar::BazCommand`. */
  lemma NamespaceExample(c: ClassDef, reg: Registry)
    requires reg == map["MyCLI::Commands::Foo" := ModuleConst,
                        "MyCLI::Commands::Foo::Bar" := ModuleConst,
                        "MyCLI::Commands::Foo::Bar::BazCommand" := ClassConst(c)]
    ensures Instantiate(Some(Str("baz_command")), ["foo", "bar", "baz"], "MyCLI::Commands", reg) == Success(Obj(c))
  {
    assert AncestorNames(["foo", "bar", "baz"]) == ["foo", "bar"];
    assert ["foo", "bar"] + ["baz_command"] == ["foo", "bar", "baz_command"];
    ExampleSegments();
    assert ClassPath(["foo", "bar"], "baz_command") == ["Foo", "Bar", "BazCommand"];
    ExampleResolve(c, reg);
  }

  /** After an unmatched call, a later unmatched call on the same instance
      reports the token of the earlier one. */
  lemma StaleUnknownCommand(inst: Instance, argv: seq<string>, reg: Registry)
    requires inst.parser.matched == [] && |inst.parser.remaining| > 0
    requires |argv| > 0 && Lookup(inst.tree, true, argv[0]).None?
    ensures CallAsWritten(inst, argv, reg).outcome
      == Success(Printed(Puts("Command '" + inst.parser.remaining[0] + "' not found")))
    ensures Call(inst, argv, reg).outcome
      == Success(Printed(Puts("Command '" + argv[0] + "' not found")))
  {
    var m := FindCommand(inst.tree, [], true, argv, "");
    assert m == Match(None, "", false, [], argv);
    var stale := Parse(inst.parser, inst.tree, argv);
    assert stale.parser == Parser([], inst.parser.remaining + argv);
    assert stale.found.None? && !stale.anyMatch;
    UnknownCommandUnmatched(stale.parser);
    assert (inst.parser.remaining + argv)[0] == inst.parser.remaining[0];
    var clean := Parse(NewParser, inst.tree, argv);
    assert clean.parser == Parser([], argv);
    assert clean.found.None? && !clean.anyMatch;
    UnknownCommandUnmatched(clean.parser);
  }

  /** The report ends without a newline, so `puts` adds one. */
  lemma NotFoundLine(token: string)
    ensures Puts("Command '" + token + "' not found") == "Command '" + token + "' not found\n"
  {
    var s := "Command '" + token + "' not found";
    assert s[|s| - 1] == 'd';
  }

  /** On a fresh instance an unmatched call reports its own first token and
      leaves it behind in the parser. */
  lemma FirstUnmatchedCall(inst: Instance, argv: seq<string>, reg: Registry)
    requires inst.parser == NewParser
    requires |argv| > 0 && Lookup(inst.tree, true, argv[0]).None?
    ensures CallAsWritten(inst, argv, reg).outcome
      == Success(Printed(Puts("Command '" + argv[0] + "' not found")))
    ensures CallAsWritten(inst, argv, reg).inst.parser == Parser([], argv)
  {
    var m := FindCommand(inst.tree, [], true, argv, "");
    assert m == Match(None, "", false, [], argv);
    var parsed := Parse(inst.parser, inst.tree, argv);
    assert parsed.parser == Parser([], argv);
    UnknownCommandUnmatched(parsed.parser);
  }

  lemma NopeLine()
    ensures Puts("Command '" + "nope" + "' not found") == "Command 'nope' not found\n"
  {
    NotFoundLine("nope");
  }

  lemma ZzzLine()
    ensures Puts("Command '" + "zzz" + "' not found") == "Command 'zzz' not found\n"
  {
    NotFoundLine("zzz");
  }

  /** Two unknown commands in a row on one instance: as written the second
      reports the first one's token; with a parser per call it reports its own. */
  lemma StaleExample(tree: Node, reg: Registry)
    requires tree == Node("", None, DefaultAction, [NewContext("foo")], map[])
    ensures var first := CallAsWritten(Instance(tree, "Object", NewParser), ["nope"], reg);
      && first.outcome == Success(Printed("Command 'nope' not found\n"))
      && CallAsWritten(first.inst, ["zzz"], reg).outcome == Success(Printed("Command 'nope' not found\n"))
      && Call(first.inst, ["zzz"], reg).outcome == Success(Printed("Command 'zzz' not found\n"))
  {
    var inst := Instance(tree, "Object", NewParser);
    assert Lookup(tree, true, "nope").None?;
    assert Lookup(tree, true, "zzz").None?;
    FirstUnmatchedCall(inst, ["nope"], reg);
    var first := CallAsWritten(inst, ["nope"], reg);
    StaleUnknownCommand(first.inst, ["zzz"], reg);
    NopeLine();
    ZzzLine();
  }

  /** The tree of the runner tests: `foo`, under it `bar`, under that `baz`,
      each with a handler. */
  function SampleBaz(): Node { NewContext("baz", Some(Callable(1))) }
  function SampleBar(): Node { Node("bar", Some(Callable(1)), DefaultAction, [SampleBaz()], map[]) }
  function SampleFoo(): Node { Node("foo", Some(Callable(1)), DefaultAction, [SampleBar()], map[]) }
  function SampleRoot(): Node { Node("", None, DefaultAction, [SampleFoo()], map[]) }

  /** Neither later token of `foo bar extra` is flag-like. */
  lemma ExtraNotFlags()
    ensures !FlagLike("bar") && !FlagLike("extra")
  {
    assert "bar"[1..] == "ar" && "ar"[1..] == "r";
    assert "extra"[1..] == "xtra" && "xtra"[1..] == "tra" && "tra"[1..] == "ra" && "ra"[1..] == "a";
  }

  /** `bar` has no child `extra`, so the walk ends there with nothing found. */
  lemma ExtraMissing()
    ensures FindCommand(SampleBar(), ["foo", "bar"], false, ["extra"], "foo bar")
      == Match(None, "foo bar", false, [], ["extra"])
  {
    assert Lookup(SampleBar(), false, "extra") == None;
  }

  lemma ExtraMatch()
    ensures FindCommand(SampleRoot(), [], true, ["foo", "bar", "extra"], "")
      == Match(None, "foo bar", false, [Some("foo"), Some("bar")], ["extra"])
  {
    var argv := ["foo", "bar", "extra"];
    ExtraNotFlags();
    assert Lookup(SampleRoot(), true, "foo") == Some(SampleFoo());
    Descend(SampleRoot(), [], true, argv, "", SampleFoo());
    assert argv[1..] == ["bar", "extra"] && [] + ["foo"] == ["foo"] && Extend("", "foo") == "foo";
    assert Lookup(SampleFoo(), false, "bar") == Some(SampleBar());
    Descend(SampleFoo(), ["foo"], false, ["bar", "extra"], "foo", SampleBar());
    assert ["bar", "extra"][1..] == ["extra"] && ["foo"] + ["bar"] == ["foo", "bar"] && Extend("foo", "bar") == "foo bar";
    ExtraMissing();
  }


  lemma ExtraReport()
    ensures Puts(NotFound(Parser([Some("foo"), Some("bar")], ["extra"]))) == "Command 'foo bar extra' not found\n"
  {
    UnknownCommandExample();
    NotFoundLine("foo bar extra");
    assert "Command '" + "foo bar extra" + "' not found\n" == "Command 'foo bar extra' not found\n";
  }

  /** Tokens past a node that has children but no child of that name are not
      left over: the command is unknown, reported with every token matched
      and the first that did not. */
  lemma UnknownBelowMatch(inst: Instance, reg: Registry)
    requires inst.tree == SampleRoot()
    ensures Call(inst, ["foo", "bar", "extra"], reg).outcome == Success(Printed("Command 'foo bar extra' not found\n"))
  {
    CallOutcomes(inst, ["foo", "bar", "extra"], reg);
    ExtraMatch();
    ExtraReport();
  }
}
