/** The router DSL: a script of `on`, `run` and `mount` declarations evaluated
    against a tree with a cursor. The cursor is the path of names from the
    root to the node `@context` points at. */
module Router {
  import opened Wrappers
  import opened Errors
  import opened Context

  /** What `on` can be given as a name. `ProcName` carries the text of the
      proc's result. */
  datatype NameSpec =
    | StringName(text: string)
    | SymbolName(text: string)
    | ProcName(result: string)
    | OtherName(repr: string)

  /** A Ruby block of declarations, when one is given */
  datatype Block = NoBlock | Block(decls: seq<Decl>)

  /** One declaration of a `commands` block. `Run`'s `blockArity` is the arity of
      the block given to `run`, when there is one. A script is a finite tree:
      a runner that mounts itself cannot be written down. */
  datatype Decl =
    | On(name: NameSpec, run: Option<Handler>, aliases: seq<string>, block: Block)
    | Run(command: Option<Handler>, blockArity: Option<int>)
    | Mount(target: MountTarget)

  /** What `mount` can be given: a subclass of the runner with the `commands`
      block it declared, if any, or any other object. */
  datatype MountTarget =
    | RunnerClass(commands: Block)
    | NotRunner(repr: string)

  datatype State = State(tree: Node, cursor: seq<string>)

  /** Evaluation either completes or raises; either way it leaves a state. */
  datatype Outcome =
    | Done(state: State)
    | Raised(error: Error, state: State)

  /** The cursor points at a node of the tree. */
  predicate Valid(st: State)
  {
    NodeAt(st.tree, st.cursor).Some?
  }

  /** `Router.new`: a lone root context named `""`, the cursor on it. */
  function NewRouter(): (st: State)
    ensures Valid(st) && st.cursor == []
    ensures st.tree.name == "" && !HasChildren(st.tree) && !Runnable(st.tree)
  {
    State(NewContext(""), [])
  }

  /** `convert`: strings and symbols give their text, a proc the text of its
      result; anything else is an unsupported matcher. */
  function Convert(m: NameSpec): (r: Result<string, Error>)
    ensures m.StringName? || m.SymbolName? ==> r == Success(m.text)
    ensures m.ProcName? ==> r == Success(m.result)
    ensures m.OtherName? ==> r == Failure(UnsupportedMatcher(m.repr))
  {
    match m
    case StringName(s) => Success(s)
    case SymbolName(s) => Success(s)
    case ProcName(s) => Success(s)
    case OtherName(repr) => Failure(UnsupportedMatcher(repr))
  }

  /** Ruby truthiness of a `run:` value: everything but `nil` and `false`. */
  predicate Truthy(h: Option<Handler>)
  {
    h.Some? && h.value != FalseValue
  }

  /** `@context.add(name, run, aliases:)` at the cursor */
  function AddAtCursor(st: State, name: string, handler: Option<Handler>, aliases: seq<string>): State
  {
    st.(tree := ModifyAt(st.tree, st.cursor, x => Add(x, name, handler, aliases)))
  }

  /** `@context.runnable = h` at the cursor */
  function SetHandlerAtCursor(st: State, h: Option<Handler>): State
  {
    st.(tree := ModifyAt(st.tree, st.cursor, (x: Node) => x.(handler := h)))
  }

  /** Adding at the cursor keeps the cursor valid, puts the new child right
      under it, and leaves the root's name alone. */
  lemma AddAtCursorFacts(st: State, name: string, handler: Option<Handler>, aliases: seq<string>)
    requires Valid(st)
    ensures var st' := AddAtCursor(st, name, handler, aliases);
      && st'.cursor == st.cursor
      && st'.tree.name == st.tree.name
      && NodeAt(st'.tree, st.cursor) == Some(Add(NodeAt(st.tree, st.cursor).value, name, handler, aliases))
      && NodeAt(st'.tree, st.cursor + [name]) == Some(NewContext(name, handler))
  {
    var f := x => Add(x, name, handler, aliases);
    NodeAtModify(st.tree, st.cursor, f);
    NodeAtExtend(AddAtCursor(st, name, handler, aliases).tree, st.cursor, name);
  }

  lemma SetHandlerAtCursorFacts(st: State, h: Option<Handler>)
    requires Valid(st)
    ensures var st' := SetHandlerAtCursor(st, h);
      && st'.cursor == st.cursor
      && st'.tree.name == st.tree.name
      && NodeAt(st'.tree, st.cursor) == Some(NodeAt(st.tree, st.cursor).value.(handler := h))
      && (forall q :: !(q <= st.cursor) ==> NodeAt(st'.tree, q) == NodeAt(st.tree, q))
      && (forall q :: q < st.cursor ==>
            NodeAt(st.tree, q).Some? && NodeAt(st'.tree, q).Some?
            && SameButBelow(NodeAt(st'.tree, q).value, NodeAt(st.tree, q).value))
  {
    var f := (x: Node) => x.(handler := h);
    var t' := SetHandlerAtCursor(st, h).tree;
    NodeAtModify(st.tree, st.cursor, f);
    forall q | !(q <= st.cursor)
      ensures NodeAt(t', q) == NodeAt(st.tree, q)
    {
      if st.cursor <= q {
        ModifyAtBelow(st.tree, st.cursor, f, q);
        var n := NodeAt(st.tree, st.cursor).value;
        var rest := q[|st.cursor|..];
        assert rest != [];
        assert NodeAt(f(n), rest) == NodeAt(n, rest);
        NodeAtThrough(st.tree, st.cursor, q);
      } else {
        ModifyAtElsewhere(st.tree, st.cursor, f, q);
      }
    }
    forall q | q < st.cursor
      ensures NodeAt(st.tree, q).Some? && NodeAt(t', q).Some?
      ensures SameButBelow(NodeAt(t', q).value, NodeAt(st.tree, q).value)
    {
      ModifyAtAbove(st.tree, st.cursor, f, q);
      var n := NodeAt(st.tree, q).value;
      NodeAtThrough(st.tree, q, st.cursor);
      ModifyAtKeepsFields(n, st.cursor[|q|..], f);
    }
  }

  /** `evaluate`: the declarations in order, stopping at the first raise. The
      cursor comes back to where it started whatever happens, it always
      points into the tree, and the root keeps its name. */
  function Eval(st: State, ds: seq<Decl>): (o: Outcome)
    requires Valid(st)
    ensures o.state.cursor == st.cursor && Valid(o.state)
    ensures o.state.tree.name == st.tree.name
    decreases ds
  {
    if |ds| == 0 then Done(st)
    else
      match EvalDecl(st, ds[0])
      case Raised(e, st') => Raised(e, st')
      case Done(st') => Eval(st', ds[1..])
  }

  /** `on`, `run` and `mount` */
  function EvalDecl(st: State, d: Decl): (o: Outcome)
    requires Valid(st)
    ensures o.state.cursor == st.cursor && Valid(o.state)
    ensures o.state.tree.name == st.tree.name
    decreases d
  {
    match d
    case On(spec, run, aliases, block) =>
      (match Convert(spec)
       case Failure(e) => Raised(e, st)
       case Success(name) =>
         match EvalScope(st, name, aliases, block)
         case Raised(e, st') => Raised(e, st')
         case Done(st') =>
           if Truthy(run) then
             AddAtCursorFacts(st', name, run, aliases);
             Done(AddAtCursor(st', name, run, aliases))
           else Done(st'))
    case Run(command, arity) =>
      if arity.Some? && command.Some? then Raised(CommandAndBlock, st)
      else
        var h := if arity.Some? then Some(Callable(arity.value)) else command;
        SetHandlerAtCursorFacts(st, h);
        Done(SetHandlerAtCursor(st, h))
    case Mount(target) =>
      match target
      case NotRunner(_) => Raised(NotARunnerType, st)
      case RunnerClass(NoBlock) => Raised(NoBlockGiven, st)
      case RunnerClass(Block(ds)) => Eval(st, ds)
  }

  /** `with_context`: when a block is given, add a fresh child, evaluate the
      block with the cursor on it, and put the cursor back (`ensure`). */
  function EvalScope(st: State, name: string, aliases: seq<string>, block: Block): (o: Outcome)
    requires Valid(st)
    ensures o.state.cursor == st.cursor && Valid(o.state)
    ensures o.state.tree.name == st.tree.name
    decreases block
  {
    match block
    case NoBlock => Done(st)
    case Block(ds) =>
      AddAtCursorFacts(st, name, None, aliases);
      var inner := AddAtCursor(st, name, None, aliases).(cursor := st.cursor + [name]);
      var o := Eval(inner, ds);
      ParentValid(o.state.tree, st.cursor, name);
      match o
      case Done(st') => Done(st'.(cursor := st.cursor))
      case Raised(e, st') => Raised(e, st'.(cursor := st.cursor))
  }

  /** Evaluating two scripts in a row is evaluating their concatenation. */
  lemma {:induction false} EvalAppend(st: State, a: seq<Decl>, b: seq<Decl>)
    requires Valid(st)
    ensures Eval(st, a + b) ==
      (match Eval(st, a)
       case Raised(e, st') => Raised(e, st')
       case Done(st') => Eval(st', b))
    decreases |a|
  {
    if |a| == 0 {
      assert a + b == b;
    } else {
      assert (a + b)[0] == a[0] && (a + b)[1..] == a[1..] + b;
      match EvalDecl(st, a[0])
      case Raised(_, _) =>
      case Done(st') =>
        EvalAppend(st', a[1..], b);
    }
  }

  /** `mount` of a runner subclass evaluates its declarations in place, as if
      they had been written where the `mount` stands. */
  lemma MountInlines(st: State, pre: seq<Decl>, ds: seq<Decl>, post: seq<Decl>)
    requires Valid(st)
    ensures Eval(st, pre + [Mount(RunnerClass(Block(ds)))] + post) == Eval(st, pre + ds + post)
  {
    var m := [Mount(RunnerClass(Block(ds)))];
    EvalAppend(st, pre + m, post);
    EvalAppend(st, pre, m);
    EvalAppend(st, pre + ds, post);
    EvalAppend(st, pre, ds);
    match Eval(st, pre)
    case Raised(_, _) =>
    case Done(st') =>
      assert Eval(st', m) == Eval(st', ds) by {
        assert m[1..] == [];
        match Eval(st', ds)
        case Raised(_, _) =>
        case Done(st'') =>
          assert Eval(st'', []) == Done(st'');
      }
  }

  /** The first raising declaration ends the evaluation: what follows it is
      never evaluated and its error is the outcome. */
  lemma RaiseStops(st: State, pre: seq<Decl>, d: Decl, post: seq<Decl>)
    requires Valid(st)
    requires Eval(st, pre).Done?
    requires EvalDecl(Eval(st, pre).state, d).Raised?
    ensures Eval(st, pre + [d] + post) == EvalDecl(Eval(st, pre).state, d)
  {
    EvalAppend(st, pre + [d], post);
    EvalAppend(st, pre, [d]);
  }

  /** `mount` of anything but a runner subclass raises before evaluating
      anything, and so does mounting a subclass that declared no commands. */
  lemma MountRejects(st: State, t: MountTarget)
    requires Valid(st)
    requires t.NotRunner? || t == RunnerClass(NoBlock)
    ensures EvalDecl(st, Mount(t)) == Raised(if t.NotRunner? then NotARunnerType else NoBlockGiven, st)
    ensures Message(EvalDecl(st, Mount(t)).error) ==
      if t.NotRunner? then "A TTY::Runner type must be given" else "no block given (yield)"
  {
  }

  /** `on name, run: h` without a block adds a child carrying `h` under the
      cursor and leaves the cursor where it is. */
  lemma OnWithRun(st: State, spec: NameSpec, name: string, h: Handler, aliases: seq<string>)
    requires Valid(st)
    requires Convert(spec) == Success(name) && h != FalseValue
    ensures EvalDecl(st, On(spec, Some(h), aliases, NoBlock)).Done?
    ensures EvalDecl(st, On(spec, Some(h), aliases, NoBlock)).state.cursor == st.cursor
    ensures NodeAt(EvalDecl(st, On(spec, Some(h), aliases, NoBlock)).state.tree, st.cursor)
         == Some(Add(NodeAt(st.tree, st.cursor).value, name, Some(h), aliases))
    ensures NodeAt(EvalDecl(st, On(spec, Some(h), aliases, NoBlock)).state.tree, st.cursor + [name])
         == Some(NewContext(name, Some(h)))
  {
    OnStoresHandler(st, spec, name, h, aliases, NoBlock);
    AddAtCursorFacts(st, name, Some(h), aliases);
  }

  lemma OnStoresHandler(st: State, spec: NameSpec, name: string, h: Handler, aliases: seq<string>, block: Block)
    requires Valid(st)
    requires Convert(spec) == Success(name) && h != FalseValue
    requires EvalScope(st, name, aliases, block).Done?
    ensures EvalDecl(st, On(spec, Some(h), aliases, block))
         == Done(AddAtCursor(EvalScope(st, name, aliases, block).state, name, Some(h), aliases))
  {
  }

  /** `on` with neither a block nor a truthy `run:` changes nothing; its
      aliases are not even recorded. */
  lemma OnWithoutEffect(st: State, spec: NameSpec, run: Option<Handler>, aliases: seq<string>)
    requires Valid(st)
    requires Convert(spec).Success? && !Truthy(run)
    ensures EvalDecl(st, On(spec, run, aliases, NoBlock)) == Done(st)
  {
  }

  /** `on` with both a block and `run:` evaluates the block into a fresh
      child and then replaces that child with another fresh one carrying the
      handler: whatever the block declared is gone. */
  lemma OnBlockAndRunDropsNested(st: State, spec: NameSpec, h: Handler, aliases: seq<string>, ds: seq<Decl>)
    requires Valid(st)
    requires Convert(spec).Success? && h != FalseValue
    requires EvalScope(st, Convert(spec).value, aliases, Block(ds)).Done?
    ensures var o := EvalDecl(st, On(spec, Some(h), aliases, Block(ds)));
      var name := Convert(spec).value;
      && o.Done?
      && NodeAt(o.state.tree, st.cursor + [name]) == Some(NewContext(name, Some(h)))
      && !HasChildren(NodeAt(o.state.tree, st.cursor + [name]).value)
  {
    var name := Convert(spec).value;
    OnStoresHandler(st, spec, name, h, aliases, Block(ds));
    AddAtCursorFacts(EvalScope(st, name, aliases, Block(ds)).state, name, Some(h), aliases);
  }

  /** The block of an `on` runs with the cursor on the new child: a `run`
      inside it sets that child's handler, not the current node's. */
  lemma OnBlockRunsInChild(st: State, spec: NameSpec, aliases: seq<string>, h: Handler)
    requires Valid(st)
    requires Convert(spec).Success?
    ensures var o := EvalDecl(st, On(spec, None, aliases, Block([Run(Some(h), None)])));
      var name := Convert(spec).value;
      && o.Done?
      && NodeAt(o.state.tree, st.cursor + [name]) == Some(NewContext(name, Some(h)))
      && NodeAt(o.state.tree, st.cursor).value.handler == NodeAt(st.tree, st.cursor).value.handler
  {
    var name := Convert(spec).value;
    AddAtCursorFacts(st, name, None, aliases);
    var inner := AddAtCursor(st, name, None, aliases).(cursor := st.cursor + [name]);
    SetHandlerAtCursorFacts(inner, Some(h));
    var after := SetHandlerAtCursor(inner, Some(h));
    assert Eval(inner, [Run(Some(h), None)]) == Done(after) by {
      assert Eval(after, []) == Done(after);
    }
    NodeAtExtend(after.tree, st.cursor, name);
    NodeAtExtend(AddAtCursor(st, name, None, aliases).tree, st.cursor, name);
    assert ModifyAt(inner.tree, inner.cursor, (x: Node) => x.(handler := Some(h))) == after.tree;
    ModifyAtDeeper(inner.tree, st.cursor, name, (x: Node) => x.(handler := Some(h)));
  }

  /** Modifying a child leaves its parent's own fields alone. */
  lemma {:induction false} ModifyAtDeeper(t: Node, p: seq<string>, x: string, f: Node -> Node)
    requires forall y :: f(y).name == y.name
    requires NodeAt(t, p + [x]).Some?
    ensures NodeAt(t, p).Some? && NodeAt(ModifyAt(t, p + [x], f), p).Some?
    ensures NodeAt(ModifyAt(t, p + [x], f), p).value.handler == NodeAt(t, p).value.handler
    decreases |p|
  {
    ParentValid(t, p, x);
    if p == [] {
      assert p + [x] == [x];
      ModifyAtOneHandler(t, x, f);
    } else {
      assert (p + [x])[0] == p[0] && (p + [x])[1..] == p[1..] + [x];
      var c := FindChild(t.children, p[0]).value;
      assert NodeAt(t, p + [x]) == NodeAt(c, p[1..] + [x]);
      assert NodeAt(t, p) == NodeAt(c, p[1..]);
      var c' := ModifyAt(c, p[1..] + [x], f);
      var t' := t.(children := Upsert(t.children, c'));
      assert ModifyAt(t, p + [x], f) == t';
      UpsertFind(t.children, c', p[0]);
      assert NodeAt(t', p) == NodeAt(c', p[1..]);
      ModifyAtDeeper(c, p[1..], x, f);
    }
  }

  lemma ModifyAtOneHandler(t: Node, x: string, f: Node -> Node)
    requires forall y :: f(y).name == y.name
    ensures ModifyAt(t, [x], f).handler == t.handler
  {
    match FindChild(t.children, x)
    case None =>
    case Some(c) =>
      assert ModifyAt(t, [x], f) == t.(children := Upsert(t.children, ModifyAt(c, [], f)));
  }

  /** `run` with both a command and a block raises; otherwise it sets the
      cursor node's handler to the block, or else the command (`nil`
      included), touching nothing else. */
  lemma RunSetsHandler(st: State, command: Option<Handler>, arity: Option<int>)
    requires Valid(st)
    ensures var o := EvalDecl(st, Run(command, arity));
      && (command.Some? && arity.Some? <==> o == Raised(CommandAndBlock, st))
      && (o.Done? ==>
            NodeAt(o.state.tree, st.cursor) ==
            Some(NodeAt(st.tree, st.cursor).value.(handler := if arity.Some? then Some(Callable(arity.value)) else command)))
  {
    if !(command.Some? && arity.Some?) {
      var h := if arity.Some? then Some(Callable(arity.value)) else command;
      SetHandlerAtCursorFacts(st, h);
    }
  }
}
