/** The command context tree: every node has a name, an optional handler, an
    action, its children in insertion order and an alias table for them.
    Parent pointers are replaced by paths of canonical names from the root;
    `Ref` stands for a parent reference, `Empty` for the `EMPTY` sentinel. */
module Context {
  import opened Wrappers
  import opened Strings
  import opened Errors

  /** A Ruby class a handler can name: its name and the arity of each of its
      instance methods. */
  datatype ClassDef = ClassDef(name: string, methods: map<string, int>)

  /** What `run` can be given. `Callable` stands for a proc, a lambda or any
      object answering `call`, with the `arity` it reports. */
  datatype Handler =
    | Callable(arity: int)
    | ClassRef(cls: ClassDef)
    | Str(text: string)
    | Sym(text: string)
    | FalseValue
    | Other(repr: string)

  /** The action sent to a handler unless it names its own: `:call`. */
  const DefaultAction := "call"

  datatype Node = Node(
    name: string,
    handler: Option<Handler>,
    action: string,
    children: seq<Node>,
    aliases: map<string, string>)

  /** `Context.new(name, runnable:, action:)`: no children and no aliases. */
  function NewContext(name: string, handler: Option<Handler> := None, action: string := DefaultAction): (r: Node)
    ensures r.name == name && r.action == action
    ensures !HasChildren(r) && r.aliases == map[]
    ensures Runnable(r) <==> handler.Some?
  {
    Node(name, handler, action, [], map[])
  }

  /** `runnable?`: a handler is set. `false` is a handler too. */
  predicate Runnable(n: Node)
  {
    n.handler.Some?
  }

  /** `children?` */
  predicate HasChildren(n: Node)
  {
    |n.children| > 0
  }

  /** The child names in iteration order */
  function Names(cs: seq<Node>): (r: seq<string>)
    ensures |r| == |cs|
    ensures forall i :: 0 <= i < |cs| ==> r[i] == cs[i].name
  {
    seq(|cs|, i requires 0 <= i < |cs| => cs[i].name)
  }

  /** No two children share a name, as in a Hash keyed by name. */
  predicate UniqueNames(cs: seq<Node>)
  {
    forall i, j :: 0 <= i < j < |cs| ==> cs[i].name != cs[j].name
  }

  /** `@children[name]`: the child stored under `name`, if any. */
  function FindChild(cs: seq<Node>, name: string): (r: Option<Node>)
    ensures r.Some? ==> r.value in cs && r.value.name == name
    ensures r.None? <==> name !in Names(cs)
    decreases |cs|
  {
    if |cs| == 0 then None
    else if cs[0].name == name then Some(cs[0])
    else
      assert Names(cs) == [cs[0].name] + Names(cs[1..]);
      FindChild(cs[1..], name)
  }

  /** Under unique names the child found is the one at that name's position. */
  lemma FindChildAt(cs: seq<Node>, i: int)
    requires UniqueNames(cs)
    requires 0 <= i < |cs|
    ensures FindChild(cs, cs[i].name) == Some(cs[i])
    decreases |cs|
  {
    if i > 0 {
      assert cs[0].name != cs[i].name;
      assert cs[1..][i - 1] == cs[i];
      FindChildAt(cs[1..], i - 1);
    }
  }

  /** `@children[c.name] = c`: a Hash store. An existing key keeps its
      position and gets the new value; a new key goes last. */
  function Upsert(cs: seq<Node>, c: Node): (r: seq<Node>)
    ensures c.name in Names(cs) ==> Names(r) == Names(cs)
    ensures c.name !in Names(cs) ==> Names(r) == Names(cs) + [c.name]
    decreases |cs|
  {
    if |cs| == 0 then [c]
    else
      NamesCons(cs[0], cs[1..]);
      assert cs == [cs[0]] + cs[1..];
      if cs[0].name == c.name then
        NamesCons(c, cs[1..]);
        [c] + cs[1..]
      else
        var t := Upsert(cs[1..], c);
        NamesCons(cs[0], t);
        [cs[0]] + t
  }

  lemma NamesCons(x: Node, t: seq<Node>)
    ensures Names([x] + t) == [x.name] + Names(t)
  {
  }

  /** After the store the key finds the new child and every other key finds
      what it found before. */
  lemma {:induction false} UpsertFind(cs: seq<Node>, c: Node, m: string)
    ensures FindChild(Upsert(cs, c), m) == if m == c.name then Some(c) else FindChild(cs, m)
    decreases |cs|
  {
    if |cs| > 0 && cs[0].name != c.name {
      var r := Upsert(cs, c);
      assert r[0] == cs[0] && r[1..] == Upsert(cs[1..], c);
      UpsertFind(cs[1..], c, m);
    } else if |cs| > 0 {
      var r := Upsert(cs, c);
      assert r[0] == c && r[1..] == cs[1..];
    }
  }

  lemma {:induction false} UpsertKeepsUnique(cs: seq<Node>, c: Node)
    requires UniqueNames(cs)
    ensures UniqueNames(Upsert(cs, c))
  {
    var r := Upsert(cs, c);
    var nr := Names(r);
    var nc := Names(cs);
    if c.name in nc {
      assert nr == nc;
      forall i, j | 0 <= i < j < |r| ensures r[i].name != r[j].name {
        assert nr[i] == nc[i] && nr[j] == nc[j];
      }
    } else {
      assert nr == nc + [c.name];
      forall i, j | 0 <= i < j < |r| ensures r[i].name != r[j].name {
        assert nr[i] == r[i].name && nr[j] == r[j].name;
        if j < |cs| {
          assert nr[i] == nc[i] && nr[j] == nc[j];
        } else {
          assert nr[i] == nc[i];
        }
      }
    }
  }

  /** `add(name, runnable, aliases:, action:)` on node `n`: stores a fresh
      child under `name` and maps every alias to `name` in `n`'s alias table.
      The new child (what `add` returns) is `NewContext(name, handler, action)`. */
  function Add(n: Node, name: string, handler: Option<Handler>, aliases: seq<string>, action: string := DefaultAction): (r: Node)
    ensures r.name == n.name && r.handler == n.handler && r.action == n.action
    ensures FindChild(r.children, name) == Some(NewContext(name, handler, action))
    ensures forall m :: m != name ==> FindChild(r.children, m) == FindChild(n.children, m)
    ensures name in Names(n.children) ==> Names(r.children) == Names(n.children)
    ensures name !in Names(n.children) ==> Names(r.children) == Names(n.children) + [name]
    ensures forall a :: a in aliases ==> a in r.aliases && r.aliases[a] == name
    ensures forall a :: a !in aliases ==> (a in r.aliases <==> a in n.aliases)
    ensures forall a :: a !in aliases && a in n.aliases ==> r.aliases[a] == n.aliases[a]
  {
    var child := NewContext(name, handler, action);
    UpsertFind(n.children, child, name);
    forall m | m != name
      ensures FindChild(Upsert(n.children, child), m) == FindChild(n.children, m)
    {
      UpsertFind(n.children, child, m);
    }
    n.(children := Upsert(n.children, child),
       aliases := n.aliases + map a | a in aliases :: name)
  }

  /** The tree invariant of a Hash of children: unique names at every level. */
  predicate WellFormed(n: Node)
    decreases n
  {
    UniqueNames(n.children) && forall i :: 0 <= i < |n.children| ==> WellFormed(n.children[i])
  }

  /** `@aliases.fetch(token, token)` */
  function Resolve(n: Node, token: string): string
  {
    if token in n.aliases then n.aliases[token] else token
  }

  /** `context[token]`: the node itself when it is the root and `token` is its
      own name; otherwise the child stored under the alias-resolved token. */
  function Lookup(n: Node, atRoot: bool, token: string): (r: Option<Node>)
    ensures atRoot && token == n.name ==> r == Some(n)
    ensures !(atRoot && token == n.name) ==> (r.None? <==> Resolve(n, token) !in Names(n.children))
    ensures r.Some? && r.value != n ==> r.value in n.children && r.value.name == Resolve(n, token)
  {
    if atRoot && token == n.name then Some(n)
    else FindChild(n.children, Resolve(n, token))
  }

  /** A node is never one of its own children. */
  lemma NotOwnChild(n: Node, c: Node)
    requires c in n.children
    ensures c != n
  {
    assert c < n;
  }

  /** Lookup yields the node itself exactly when it is the root and the token
      is its name; every other hit is a child. */
  lemma LookupSelf(n: Node, atRoot: bool, token: string)
    ensures Lookup(n, atRoot, token) == Some(n) <==> atRoot && token == n.name
  {
    if !(atRoot && token == n.name) {
      var r := FindChild(n.children, Resolve(n, token));
      if r.Some? {
        NotOwnChild(n, r.value);
      }
    }
  }

  /** Aliases are read before children: a token that is an alias finds the
      alias's target, even when a child carries the token as its own name. */
  lemma AliasShadowsSibling(n: Node, atRoot: bool, a: string)
    requires a in n.aliases && n.aliases[a] != a
    requires !(atRoot && a == n.name)
    ensures Lookup(n, atRoot, a) == FindChild(n.children, n.aliases[a])
    ensures Lookup(n, atRoot, a).Some? ==> Lookup(n, atRoot, a).value.name != a
  {
  }

  /** `<=>`: contexts order by name alone. */
  function CompareContexts(a: Node, b: Node): (r: int)
    ensures -1 <= r <= 1
    ensures r == 0 <==> a.name == b.name
    ensures r == -Compare(b.name, a.name)
  {
    CompareFlip(a.name, b.name);
    Compare(a.name, b.name)
  }

  /** The dumps of a sequence of nodes */
  function DumpAll(cs: seq<Node>): (r: seq<string>)
    ensures |r| == |cs|
    decreases cs
  {
    seq(|cs|, i requires 0 <= i < |cs| => Dump(cs[i]))
  }

  /** `dump`: the name alone for a leaf, otherwise the name, `" => ["`, the
      children's dumps joined by `", "`, and `"]"`. A dump starts with the
      name, and is the name alone exactly for a leaf; otherwise it closes
      with a bracket. */
  function Dump(n: Node): (r: string)
    ensures n.name <= r
    ensures r == n.name <==> !HasChildren(n)
    ensures HasChildren(n) ==> r[|r| - 1] == ']'
    decreases n
  {
    if |n.children| == 0 then n.name
    else
      var d := n.name + " => [" + Join(DumpAll(n.children), ", ") + "]";
      assert d == n.name + (" => [" + Join(DumpAll(n.children), ", ") + "]");
      d
  }

  lemma {:induction false} CountJoin(parts: seq<string>, sep: string, c: char)
    requires Count(sep, c) == 0
    ensures Count(Join(parts, sep), c) == Total(parts, c)
    decreases |parts|
  {
    if |parts| == 1 {
      assert Total(parts, c) == Count(parts[0], c) + Total(parts[1..], c);
    } else if |parts| > 1 {
      CountJoin(parts[1..], sep, c);
      CountAppend(parts[0] + sep, Join(parts[1..], sep), c);
      CountAppend(parts[0], sep, c);
    }
  }

  /** Occurrences of `c` summed over all parts */
  function Total(parts: seq<string>, c: char): nat
    decreases |parts|
  {
    if |parts| == 0 then 0 else Count(parts[0], c) + Total(parts[1..], c)
  }

  /** No name anywhere in the tree holds a bracket. */
  predicate BracketFree(n: Node)
    decreases n
  {
    '[' !in n.name && ']' !in n.name
    && forall i :: 0 <= i < |n.children| ==> BracketFree(n.children[i])
  }

  lemma {:induction false} TotalBalanced(cs: seq<Node>)
    requires forall i :: 0 <= i < |cs| ==> BracketFree(cs[i])
    ensures Total(DumpAll(cs), '[') == Total(DumpAll(cs), ']')
    decreases cs
  {
    if |cs| > 0 {
      DumpBalanced(cs[0]);
      assert DumpAll(cs)[1..] == DumpAll(cs[1..]);
      TotalBalanced(cs[1..]);
    }
  }

  /** With bracket-free names a dump's brackets balance. */
  lemma {:induction false} DumpBalanced(n: Node)
    requires BracketFree(n)
    ensures Count(Dump(n), '[') == Count(Dump(n), ']')
    decreases n
  {
    CountAbsent(n.name, '[');
    CountAbsent(n.name, ']');
    if HasChildren(n) {
      var inner := Join(DumpAll(n.children), ", ");
      TotalBalanced(n.children);
      CountJoin(DumpAll(n.children), ", ", '[');
      CountJoin(DumpAll(n.children), ", ", ']');
      assert Count(", ", '[') == 0 && Count(", ", ']') == 0;
      assert Count(" => [", '[') == 1 && Count(" => [", ']') == 0;
      assert Count("]", '[') == 0 && Count("]", ']') == 1;
      CountAppend(n.name, " => [", '[');
      CountAppend(n.name, " => [", ']');
      CountAppend(n.name + " => [", inner, '[');
      CountAppend(n.name + " => [", inner, ']');
      CountAppend(n.name + " => [" + inner, "]", '[');
      CountAppend(n.name + " => [" + inner, "]", ']');
    }
  }

  /** The nested dump from the context tests: `foo` holding `bar` and
      `baz`, and `baz` holding `qux`. */
  lemma DumpExample()
    ensures Dump(Node("foo", None, DefaultAction,
                      [NewContext("bar"), NewContext("baz").(children := [NewContext("qux")])], map[]))
            == "foo => [bar, baz => [qux]]"
  {
    var qux, bar := Node("qux", None, DefaultAction, [], map[]), Node("bar", None, DefaultAction, [], map[]);
    var baz := Node("baz", None, DefaultAction, [qux], map[]);
    var foo := Node("foo", None, DefaultAction, [bar, baz], map[]);
    assert NewContext("bar") == bar && NewContext("baz").(children := [NewContext("qux")]) == baz;
    DumpOneChild(baz, qux);
    assert Dump(baz) == "baz => [qux]";
    DumpTwoChildren(foo, bar, baz);
  }

  /** The dump of a node whose only child is a leaf. */
  lemma DumpOneChild(n: Node, c: Node)
    requires n.children == [c] && !HasChildren(c)
    ensures Dump(n) == n.name + " => [" + c.name + "]"
  {
    assert DumpAll(n.children) == [c.name];
  }

  /** The dump of a node with two children. */
  lemma DumpTwoChildren(n: Node, a: Node, b: Node)
    requires n.children == [a, b]
    ensures Dump(n) == n.name + " => [" + (Dump(a) + ", " + Dump(b)) + "]"
  {
    var d := DumpAll(n.children);
    assert Dump(n) == n.name + " => [" + Join(d, ", ") + "]" by { DumpBranch(n); }
    assert Join(d, ", ") == Dump(a) + ", " + Dump(b) by {
      DumpAllPair(n.children, a, b);
      JoinPair(d, ", ");
    }
  }

  /** Dumping two children dumps each in place. */
  lemma DumpAllPair(cs: seq<Node>, a: Node, b: Node)
    requires cs == [a, b]
    ensures |DumpAll(cs)| == 2 && DumpAll(cs)[0] == Dump(a) && DumpAll(cs)[1] == Dump(b)
  {
    var d := DumpAll(cs);
    assert cs[0] == a && cs[1] == b;
    assert d[0] == Dump(cs[0]);
  }

  /** A node with children dumps as its name, its children's dumps in brackets. */
  lemma DumpBranch(n: Node)
    requires HasChildren(n)
    ensures Dump(n) == n.name + " => [" + Join(DumpAll(n.children), ", ") + "]"
  {
  }

  /** A position in the tree, standing for a parent reference: `Empty` is the
      `EMPTY` sentinel (no name, no parent), `At(p)` the node at path `p`. */
  datatype Ref = Empty | At(path: seq<string>)

  /** `parent` of a real node: the root's parent is `EMPTY`. */
  function Parent(path: seq<string>): (r: Ref)
    ensures r == Empty <==> path == []
    ensures r.At? ==> r.path + [path[|path| - 1]] == path
  {
    if path == [] then Empty else At(path[..|path| - 1])
  }

  /** `empty?`: only the sentinel has neither name nor parent. */
  predicate IsEmpty(r: Ref)
  {
    r.Empty?
  }

  /** `root?`, i.e. `parent.empty?`. The sentinel's parent is `nil`, so asking
      the sentinel fails with `NoMethodError` for `empty?` on `nil`. */
  function IsRoot(r: Ref): (res: Result<bool, Error>)
    ensures r.Empty? <==> res.Failure?
    ensures r.At? ==> res == Success(r.path == [])
  {
    match r
    case Empty => Failure(NoMethodForNil("empty?"))
    case At(p) => Success(IsEmpty(Parent(p)))
  }

  /** The node at a path of canonical names, following `@children` only. */
  function NodeAt(t: Node, path: seq<string>): (r: Option<Node>)
    ensures path == [] ==> r == Some(t)
    decreases |path|
  {
    if path == [] then Some(t)
    else match FindChild(t.children, path[0])
      case None => None
      case Some(c) => NodeAt(c, path[1..])
  }

  /** Replace the node at `path` by `f` applied to it; nothing else changes
      and a missing path leaves the tree alone. */
  function ModifyAt(t: Node, path: seq<string>, f: Node -> Node): (r: Node)
    requires forall x :: f(x).name == x.name
    ensures r.name == t.name
    ensures path == [] ==> r == f(t)
    decreases |path|
  {
    if path == [] then f(t)
    else match FindChild(t.children, path[0])
      case None => t
      case Some(c) => t.(children := Upsert(t.children, ModifyAt(c, path[1..], f)))
  }

  /** After `ModifyAt` the node at the path is `f` of the old one. */
  lemma {:induction false} NodeAtModify(t: Node, path: seq<string>, f: Node -> Node)
    requires forall x :: f(x).name == x.name
    requires NodeAt(t, path).Some?
    ensures NodeAt(ModifyAt(t, path, f), path) == Some(f(NodeAt(t, path).value))
    decreases |path|
  {
    if path != [] {
      var c := FindChild(t.children, path[0]).value;
      var c' := ModifyAt(c, path[1..], f);
      var t' := t.(children := Upsert(t.children, c'));
      assert ModifyAt(t, path, f) == t';
      UpsertFind(t.children, c', path[0]);
      assert NodeAt(t', path) == NodeAt(c', path[1..]);
      NodeAtModify(c, path[1..], f);
    }
  }

  /** A path that is neither above nor below the rewritten one addresses
      the same node after `ModifyAt` as before. */
  lemma {:induction false} ModifyAtElsewhere(t: Node, path: seq<string>, f: Node -> Node, q: seq<string>)
    requires forall x :: f(x).name == x.name
    requires !(q <= path) && !(path <= q)
    ensures NodeAt(ModifyAt(t, path, f), q) == NodeAt(t, q)
    decreases |path|
  {
    match FindChild(t.children, path[0])
    case None =>
    case Some(c) =>
      var c' := ModifyAt(c, path[1..], f);
      var t' := t.(children := Upsert(t.children, c'));
      assert ModifyAt(t, path, f) == t';
      UpsertFind(t.children, c', q[0]);
      NodeAtStep(t, q);
      NodeAtStep(t', q);
      if q[0] == path[0] {
        TailsIncomparable(q, path);
        ModifyAtElsewhere(c, path[1..], f, q[1..]);
      }
  }

  /** One step of `NodeAt` on a non-empty path. */
  lemma NodeAtStep(t: Node, q: seq<string>)
    requires q != []
    ensures NodeAt(t, q) == match FindChild(t.children, q[0])
                            case None => None
                            case Some(c) => NodeAt(c, q[1..])
  {
  }

  /** Two paths neither of which extends the other stay so without their common head. */
  lemma TailsIncomparable(q: seq<string>, path: seq<string>)
    requires !(q <= path) && !(path <= q)
    requires q[0] == path[0]
    ensures !(q[1..] <= path[1..]) && !(path[1..] <= q[1..])
  {
    assert q == [q[0]] + q[1..] && path == [path[0]] + path[1..];
  }

  /** A path at or below the rewritten one addresses, after `ModifyAt`, what
      the same remainder addresses in the rewritten node. */
  lemma {:induction false} ModifyAtBelow(t: Node, path: seq<string>, f: Node -> Node, q: seq<string>)
    requires forall x :: f(x).name == x.name
    requires NodeAt(t, path).Some?
    requires path <= q
    ensures NodeAt(ModifyAt(t, path, f), q) == NodeAt(f(NodeAt(t, path).value), q[|path|..])
    decreases |path|
  {
    if path != [] {
      var c := FindChild(t.children, path[0]).value;
      var c' := ModifyAt(c, path[1..], f);
      var t' := t.(children := Upsert(t.children, c'));
      assert ModifyAt(t, path, f) == t';
      UpsertFind(t.children, c', path[0]);
      assert q[0] == path[0] && path[1..] <= q[1..];
      ModifyAtBelow(c, path[1..], f, q[1..]);
      assert q[1..][|path[1..]|..] == q[|path|..];
    }
  }

  /** A path above the rewritten one still addresses a node, which is the old
      one with the rewrite applied further down. */
  lemma {:induction false} ModifyAtAbove(t: Node, path: seq<string>, f: Node -> Node, q: seq<string>)
    requires forall x :: f(x).name == x.name
    requires NodeAt(t, path).Some?
    requires q <= path
    ensures NodeAt(t, q).Some?
    ensures NodeAt(ModifyAt(t, path, f), q) == Some(ModifyAt(NodeAt(t, q).value, path[|q|..], f))
    decreases |q|
  {
    if q != [] {
      var c := FindChild(t.children, path[0]).value;
      var c' := ModifyAt(c, path[1..], f);
      var t' := t.(children := Upsert(t.children, c'));
      assert ModifyAt(t, path, f) == t';
      UpsertFind(t.children, c', path[0]);
      assert q[0] == path[0] && q[1..] <= path[1..];
      ModifyAtAbove(c, path[1..], f, q[1..]);
      assert path[1..][|q[1..]|..] == path[|q|..];
    } else {
      assert path[0..] == path;
    }
  }

  /** Following a path in two stages: to a node on the way, then on from it. */
  lemma {:induction false} NodeAtThrough(t: Node, p: seq<string>, q: seq<string>)
    requires NodeAt(t, p).Some? && p <= q
    ensures NodeAt(t, q) == NodeAt(NodeAt(t, p).value, q[|p|..])
    decreases |p|
  {
    if p != [] {
      var c := FindChild(t.children, p[0]).value;
      assert q[0] == p[0] && p[1..] <= q[1..];
      NodeAtThrough(c, p[1..], q[1..]);
      assert q[1..][|p[1..]|..] == q[|p|..];
    } else {
      assert q[0..] == q;
    }
  }

  /** Two nodes that agree in everything but what lies below their children */
  predicate SameButBelow(a: Node, b: Node)
  {
    && a.name == b.name && a.handler == b.handler && a.action == b.action
    && a.aliases == b.aliases && Names(a.children) == Names(b.children)
  }

  /** Rewriting below a node keeps the node's own fields and its child names. */
  lemma ModifyAtKeepsFields(t: Node, path: seq<string>, f: Node -> Node)
    requires forall x :: f(x).name == x.name
    requires path != [] && NodeAt(t, path).Some?
    ensures SameButBelow(ModifyAt(t, path, f), t)
  {
    var c := FindChild(t.children, path[0]).value;
    var c' := ModifyAt(c, path[1..], f);
    assert c'.name == path[0];
    assert path[0] in Names(t.children);
  }

  /** A path is valid exactly when its parent path is and the parent has a
      child under the last name. */
  lemma {:induction false} NodeAtExtend(t: Node, p: seq<string>, x: string)
    ensures NodeAt(t, p + [x]) ==
      (match NodeAt(t, p)
       case None => None
       case Some(n) => FindChild(n.children, x))
    decreases |p|
  {
    if p == [] {
      assert [] + [x] == [x];
      assert NodeAt(t, [x]) == (match FindChild(t.children, x)
                                case None => None
                                case Some(c) => NodeAt(c, []));
    } else {
      assert (p + [x])[0] == p[0] && (p + [x])[1..] == p[1..] + [x];
      match FindChild(t.children, p[0])
      case None =>
      case Some(c) =>
        NodeAtExtend(c, p[1..], x);
    }
  }

  /** The parent path of a valid path is valid too. */
  lemma ParentValid(t: Node, p: seq<string>, x: string)
    requires NodeAt(t, p + [x]).Some?
    ensures NodeAt(t, p).Some?
  {
    NodeAtExtend(t, p, x);
  }
}
