/** Ruby's constant lookup as the router uses it: `Module#const_get` of a
    `::`-separated name, with the constants defined in the program given as a
    registry keyed by fully qualified name (`"MyCLI::Commands::FooCommand"`). */
module Constants {
  import opened Wrappers
  import opened Strings
  import opened Errors
  import opened Context
  import opened Inflection

  /** A value offered as a namespace: a module (or class) by its qualified
      name, `Object` being the top level, or anything else by its `inspect`. */
  datatype NsValue = Module(name: string) | NotModule(repr: string)

  /** The top-level namespace */
  const TopLevel := "Object"

  /** What a constant holds: a plain module, a class that can be instantiated,
      or any other value (`Foo::LIMIT = 1`), by its `inspect`. */
  datatype Const = ModuleConst | ClassConst(cls: ClassDef) | Value(repr: string)

  /** The constants defined in the program, by qualified name without a
      leading `Object::`. */
  type Registry = map<string, Const>

  /** The registry prefix a namespace stands for: none for `Object`. */
  function ScopeOf(ns: string): string
  {
    if ns == TopLevel then "" else ns
  }

  /** `scope::name`, or `name` alone at the top level */
  function Qualify(scope: string, name: string): (r: string)
    ensures scope == "" ==> r == name
  {
    if scope == "" then name else scope + "::" + name
  }

  predicate IsUpper(c: char)
  {
    'A' <= c <= 'Z'
  }

  predicate IsWordChar(c: char)
  {
    'a' <= c <= 'z' || 'A' <= c <= 'Z' || '0' <= c <= '9' || c == '_' || c >= '\U{80}'
  }

  /** A segment `const_get` accepts: an upper-case letter, then word characters. */
  predicate ConstSegment(s: string)
  {
    |s| > 0 && IsUpper(s[0]) && forall i :: 0 <= i < |s| ==> IsWordChar(s[i])
  }

  /** `const_get` of the segments from `scope`, one segment at a time, each in
      the scope the previous one reached. Only the first segment (`first`) also
      falls back to the top level, as `Object` is searched last; a later segment
      is looked for under its own scope alone. A value that is neither a class
      nor a module cannot be looked into: reaching one before the last segment
      raises a `TypeError` naming the whole path `whole`. */
  function Resolve(reg: Registry, scope: string, whole: string, segs: seq<string>, first: bool): (r: Result<Const, Error>)
    requires |segs| > 0
    ensures r.Success? ==> forall i :: 0 <= i < |segs| ==> ConstSegment(segs[i])
    decreases |segs|
  {
    var name := segs[0];
    if !ConstSegment(name) then Failure(WrongConstantName(name))
    else
      var q := Qualify(scope, name);
      var key := if q in reg || !first then q else name;
      if key !in reg then Failure(UninitializedConstant(q))
      else if |segs| == 1 then Success(reg[key])
      else if reg[key].Value? then Failure(NotClassOrModule(whole))
      else
        var r := Resolve(reg, key, whole, segs[1..], false);
        assert r.Success? ==> forall i :: 1 <= i < |segs| ==> ConstSegment(segs[i]) by {
          if r.Success? {
            forall i | 1 <= i < |segs| ensures ConstSegment(segs[i]) {
              assert segs[i] == segs[1..][i - 1];
            }
          }
        }
        r
  }

  /** The text before the first `:` */
  function Head(rest: string): (r: string)
    ensures r <= rest && ':' !in r
    ensures |r| < |rest| ==> rest[|r|] == ':'
    decreases |rest|
  {
    if rest == [] || rest[0] == ':' then []
    else
      var h := Head(rest[1..]);
      assert rest == [rest[0]] + rest[1..];
      [rest[0]] + h
  }

  /** `const_get`'s walk over the remaining text `rest` of the path `whole`,
      segment by segment from `scope`, whose value is `mod`: an empty segment
      or a `:` that does not open a `::` followed by more text makes `whole` a
      wrong constant name; then a `mod` that is neither a class nor a module
      cannot be looked into, a `TypeError`; a segment that is not a constant
      name is itself the wrong name; each segment is then looked up as
      `Resolve` does, the walk going on under the scope reached. */
  function Walk(reg: Registry, scope: string, mod: Const, whole: string, rest: string, first: bool): (r: Result<Const, Error>)
    decreases |rest|
  {
    var seg := Head(rest);
    var after := rest[|seg|..];
    if seg == "" then Failure(WrongConstantName(whole))
    else if after != "" && !(|after| > 2 && after[1] == ':') then Failure(WrongConstantName(whole))
    else if mod.Value? then Failure(NotClassOrModule(whole))
    else if !ConstSegment(seg) then Failure(WrongConstantName(seg))
    else
      var q := Qualify(scope, seg);
      var key := if q in reg || !first then q else seg;
      if key !in reg then Failure(UninitializedConstant(q))
      else if after == "" then Success(reg[key])
      else Walk(reg, key, reg[key], whole, after[2..], false)
  }

  /** `namespace.const_get(path)` for a String path: an empty path, or one
      opening with a NUL, is a wrong constant name; a leading `::` followed by
      more text starts from the top level, which no later fallback adds to;
      otherwise the walk starts in the namespace, a module. A success means
      the path is well formed. */
  function ConstGetPath(reg: Registry, ns: string, path: string): (r: Result<Const, Error>)
    ensures path == "" ==> r == Failure(WrongConstantName(""))
    ensures path != "" && path[0] == '\0' ==> r == Failure(WrongConstantName(path))
    ensures r.Success? ==> WellFormedPath(path)
  {
    if path == [] || path[0] == '\0' then Failure(WrongConstantName(path))
    else if |path| > 2 && path[..2] == "::" then
      var r := Walk(reg, "", ModuleConst, path, path[2..], false);
      WalkWellFormed(reg, "", ModuleConst, path, path[2..], false);
      r
    else
      var r := Walk(reg, ScopeOf(ns), ModuleConst, path, path, true);
      WalkWellFormed(reg, ScopeOf(ns), ModuleConst, path, path, true);
      r
  }

  /** Fields of a path around `:` that alternate between constant names and
      the empty text between the two colons of a `::`. */
  predicate WellFormedFields(f: seq<string>)
  {
    |f| % 2 == 1 && forall i :: 0 <= i < |f| ==> if i % 2 == 0 then ConstSegment(f[i]) else f[i] == ""
  }

  /** A path `const_get` can resolve: constant names separated by `::`,
      optionally after a leading `::`. */
  predicate WellFormedPath(path: string)
  {
    if |path| > 2 && path[..2] == "::" then WellFormedFields(Fields(path[2..], ':'))
    else WellFormedFields(Fields(path, ':'))
  }

  /** A walk that succeeds went over well-formed text. */
  lemma {:induction false} WalkWellFormed(reg: Registry, scope: string, mod: Const, whole: string, rest: string, first: bool)
    ensures Walk(reg, scope, mod, whole, rest, first).Success? ==> WellFormedFields(Fields(rest, ':'))
    decreases |rest|
  {
    if Walk(reg, scope, mod, whole, rest, first).Success? {
      var key := WalkStep(reg, scope, mod, whole, rest, first);
      var seg := Head(rest);
      var after := rest[|seg|..];
      if after == "" {
        FieldsOfFreeHead(seg, "", ':');
        assert seg + "" == seg;
      } else {
        var t := after[2..];
        WalkWellFormed(reg, key, reg[key], whole, t, false);
        FieldsColonColon(seg, t);
        ShiftWellFormed(seg, Fields(t, ':'));
      }
    }
  }

  /** One step of a successful walk: a constant name, then the end of the
      text or a `::` after which the walk goes on successfully from `key`. */
  lemma WalkStep(reg: Registry, scope: string, mod: Const, whole: string, rest: string, first: bool) returns (key: string)
    requires Walk(reg, scope, mod, whole, rest, first).Success?
    ensures var seg := Head(rest); var after := rest[|seg|..];
      && ConstSegment(seg) && rest == seg + after
      && (after == "" || (after == "::" + after[2..] && key in reg && Walk(reg, key, reg[key], whole, after[2..], false).Success?))
  {
    var seg := Head(rest);
    var after := rest[|seg|..];
    var q := Qualify(scope, seg);
    key := if q in reg || !first then q else seg;
    assert rest == seg + after;
    if after != "" {
      assert after == "::" + after[2..];
    }
  }

  /** Fields of `seg::t` for a colon-free `seg` */
  lemma FieldsColonColon(seg: string, t: string)
    requires ':' !in seg
    ensures Fields(seg + ("::" + t), ':') == [seg, ""] + Fields(t, ':')
  {
    FieldsOfFreeHead(seg, "::" + t, ':');
    var g := Fields("::" + t, ':');
    assert ("::" + t)[1..] == ":" + t;
    assert (":" + t)[1..] == t;
    assert Fields(":" + t, ':') == [""] + Fields(t, ':');
    assert g == [""] + ([""] + Fields(t, ':'));
    assert seg + g[0] == seg;
  }

  /** A constant name and an empty field in front of well-formed fields keep
      them well formed. */
  lemma ShiftWellFormed(seg: string, g: seq<string>)
    requires ConstSegment(seg) && WellFormedFields(g)
    ensures WellFormedFields([seg, ""] + g)
  {
    var f := [seg, ""] + g;
    forall i | 0 <= i < |f| ensures if i % 2 == 0 then ConstSegment(f[i]) else f[i] == "" {
      if i >= 2 {
        assert f[i] == g[i - 2];
        assert (i - 2) % 2 == i % 2;
      }
    }
  }

  /** Segments that `::` joins without changing how they are read back:
      none empty, none holding a colon. */
  predicate Plain(segs: seq<string>)
  {
    forall i :: 0 <= i < |segs| ==> segs[i] != "" && ':' !in segs[i]
  }

  /** Walking the `::`-join of plain segments from a class or module is
      resolving those segments; from any other value it is a `TypeError`. */
  lemma {:induction false} WalkJoin(reg: Registry, scope: string, mod: Const, whole: string, segs: seq<string>, first: bool)
    requires |segs| > 0 && Plain(segs)
    ensures Walk(reg, scope, mod, whole, Join(segs, "::"), first)
         == if mod.Value? then Failure(NotClassOrModule(whole)) else Resolve(reg, scope, whole, segs, first)
    decreases |segs|
  {
    var rest := Join(segs, "::");
    var seg := segs[0];
    if |segs| == 1 {
      FreeHead(seg, "");
      assert seg + "" == seg;
    } else {
      var t := Join(segs[1..], "::");
      assert rest == seg + ("::" + t);
      FreeHead(seg, "::" + t);
      JoinNonEmpty(segs[1..]);
      var after := rest[|seg|..];
      assert after == "::" + t;
      assert after[2..] == t;
      var q := Qualify(scope, seg);
      var key := if q in reg || !first then q else seg;
      assert Plain(segs[1..]) by {
        forall i | 0 <= i < |segs| - 1 ensures segs[1..][i] != "" && ':' !in segs[1..][i] {
          assert segs[1..][i] == segs[i + 1];
        }
      }
      if key in reg {
        WalkJoin(reg, key, reg[key], whole, segs[1..], false);
      }
    }
  }

  /** The head of a colon-free text followed by nothing or by a colon is that text. */
  lemma {:induction false} FreeHead(a: string, t: string)
    requires ':' !in a
    requires t == "" || t[0] == ':'
    ensures Head(a + t) == a
    decreases |a|
  {
    if a != "" {
      assert (a + t)[0] == a[0] && (a + t)[1..] == a[1..] + t;
      FreeHead(a[1..], t);
      assert a == [a[0]] + a[1..];
    } else {
      assert a + t == t;
    }
  }

  /** Joining segments whose first is non-empty gives non-empty text. */
  lemma JoinNonEmpty(segs: seq<string>)
    requires |segs| > 0 && segs[0] != ""
    ensures |Join(segs, "::")| > 0 && Join(segs, "::")[0] == segs[0][0]
  {
  }

  /** `namespace.const_get(segments.join("::"))`: the camelcased names are
      joined and `const_get` reads the joined text back at its own `::`s, so
      a name holding `::` stands for several segments. Plain constant names
      are resolved one by one, as `Resolve` does. */
  function ConstGet(reg: Registry, ns: string, segs: seq<string>): (r: Result<Const, Error>)
    ensures |segs| == 0 ==> r == Failure(WrongConstantName(""))
    ensures |segs| > 0 && Plain(segs) && segs[0][0] != '\0' ==> r == Resolve(reg, ScopeOf(ns), Join(segs, "::"), segs, true)
    ensures r.Success? ==> WellFormedPath(Join(segs, "::"))
  {
    var path := Join(segs, "::");
    if |segs| > 0 && Plain(segs) && segs[0][0] != '\0' then
      JoinNonEmpty(segs);
      WalkJoin(reg, ScopeOf(ns), ModuleConst, path, segs, true);
      ConstGetPath(reg, ns, path)
    else
      ConstGetPath(reg, ns, path)
  }

  /** A command named `a::_b` camelcases to `A::B`, which `const_get` reads
      as the two segments `A` and `B`: it resolves `A::B` just as the two
      names `a` and `b` would. */
  lemma ColonInCommandName(c: ClassDef)
    ensures Camelcase("a::_b") == "A::B"
    ensures var reg: Registry := map["A" := ModuleConst, "A::B" := ClassConst(c)];
      && ConstGet(reg, TopLevel, ["A::B"]) == Success(ClassConst(c))
      && ConstGet(reg, TopLevel, ["A", "B"]) == Success(ClassConst(c))
  {
    CamelcaseColons();
    var reg: Registry := map["A" := ModuleConst, "A::B" := ClassConst(c)];
    TwoSegments(reg, c);
    assert Join(["A", "B"], "::") == Join(["A::B"], "::") by {
      assert ["A", "B"][1..] == ["B"];
    }
    SameText(reg, TopLevel, ["A", "B"], ["A::B"]);
  }

  /** `A` then `B` from the top level finds `A::B`. */
  lemma TwoSegments(reg: Registry, c: ClassDef)
    requires reg == map["A" := ModuleConst, "A::B" := ClassConst(c)]
    ensures ConstGet(reg, TopLevel, ["A", "B"]) == Success(ClassConst(c))
  {
    assert Join(["A", "B"], "::") == "A::B" by {
      assert ["A", "B"][1..] == ["B"];
    }
    assert Resolve(reg, "", "A::B", ["A", "B"], true) == Success(ClassConst(c)) by {
      assert ConstSegment("A") && Qualify("", "A") == "A" && Qualify("A", "B") == "A::B";
      assert ["A", "B"][1..] == ["B"];
      ResolveOne(reg, "A", "A::B", "B", false);
    }
    ConstSegmentsPlain(["A", "B"]);
  }

  /** `a::_b` camelcases to `A::B`: colons are kept, and the underscore after
      them starts a capital. */
  lemma CamelcaseColons()
    ensures Camelcase("a::_b") == "A::B"
  {
    assert Scan("a::_b", true) == "A::B";
  }

  /** `const_get` sees only the joined text. */
  lemma SameText(reg: Registry, ns: string, a: seq<string>, b: seq<string>)
    requires Join(a, "::") == Join(b, "::")
    ensures ConstGet(reg, ns, a) == ConstGet(reg, ns, b)
  {
  }

  /** A trailing `::` (an empty last name) makes the whole path a wrong
      constant name. */
  lemma TrailingColons(reg: Registry, ns: string)
    ensures ConstGet(reg, ns, ["A", ""]) == Failure(WrongConstantName("A::"))
  {
    assert Join(["A", ""], "::") == "A::" by {
      assert ["A", ""][1..] == [""];
    }
    FreeHead("A", "::");
    assert "A::"[..2] != "::" && "A::"[1..] == "::";
  }

  /** A single `:` makes the whole path a wrong constant name. */
  lemma LoneColon(reg: Registry, ns: string)
    ensures ConstGet(reg, ns, ["A:B"]) == Failure(WrongConstantName("A:B"))
  {
    assert Join(["A:B"], "::") == "A:B";
    FreeHead("A", ":B");
    assert "A" + ":B" == "A:B";
    assert "A:B"[..2] != "::" && "A:B"[1..] == ":B";
  }

  /** An empty name inside the path leaves an empty segment after the first
      is looked up: the whole path is a wrong constant name. */
  lemma InnerEmptySegment(c: ClassDef)
    ensures ConstGet(map["A" := ClassConst(c)], TopLevel, ["A", "", "B"]) == Failure(WrongConstantName("A::::B"))
  {
    var reg: Registry := map["A" := ClassConst(c)];
    assert Join(["A", "", "B"], "::") == "A::::B" by {
      assert ["A", "", "B"][1..] == ["", "B"];
      assert ["", "B"][1..] == ["B"];
    }
    assert Walk(reg, "A", ClassConst(c), "A::::B", "::B", false) == Failure(WrongConstantName("A::::B")) by {
      assert Head("::B") == "";
    }
    assert Walk(reg, "", ModuleConst, "A::::B", "A::::B", true) == Failure(WrongConstantName("A::::B")) by {
      FreeHead("A", "::::B");
      assert "A" + "::::B" == "A::::B";
      assert "A::::B"[1..] == "::::B" && "::::B"[2..] == "::B";
      assert ConstSegment("A") && Qualify("", "A") == "A";
    }
    assert "A::::B"[..2] != "::" && ScopeOf(TopLevel) == "";
  }

  /** An empty first name turns the path into `::A`, which is looked up from
      the top level whatever the namespace. */
  lemma LeadingColons(c: ClassDef)
    ensures ConstGet(map["A" := ClassConst(c)], "Foo", ["", "A"]) == Success(ClassConst(c))
  {
    var reg: Registry := map["A" := ClassConst(c)];
    assert Join(["", "A"], "::") == "::A" by {
      assert ["", "A"][1..] == ["A"];
    }
    assert "::A"[..2] == "::" && "::A"[2..] == "A";
    WalkJoin(reg, "", ModuleConst, "::A", ["A"], false);
    assert Join(["A"], "::") == "A";
    ResolveOne(reg, "", "::A", "A", false);
    assert ConstSegment("A");
  }

  /** Constant names are plain segments. */
  lemma ConstSegmentsPlain(segs: seq<string>)
    requires forall i :: 0 <= i < |segs| ==> ConstSegment(segs[i])
    ensures Plain(segs)
    ensures |segs| > 0 ==> segs[0][0] != '\0'
  {
  }

  /** `cmds.map(&Inflection.method(:camelcase))` */
  function CamelcaseAll(cmds: seq<string>): (r: seq<string>)
    ensures |r| == |cmds|
    ensures forall i :: 0 <= i < |cmds| ==> r[i] == Camelcase(cmds[i])
  {
    seq(|cmds|, i requires 0 <= i < |cmds| => Camelcase(cmds[i]))
  }

  /** Camelcasing a three-element path, element by element. */
  lemma CamelcaseAllThree(a: string, b: string, c: string)
    ensures CamelcaseAll([a, b, c]) == [Camelcase(a), Camelcase(b), Camelcase(c)]
  {
    var cmds := [a, b, c];
    var r := CamelcaseAll(cmds);
    assert r[0] == Camelcase(cmds[0]);
    assert r[1] == Camelcase(cmds[1]);
    assert r[2] == Camelcase(cmds[2]);
    ThreeElements(r, Camelcase(a), Camelcase(b), Camelcase(c));
  }

  lemma ThreeElements(r: seq<string>, x: string, y: string, z: string)
    requires |r| == 3 && r[0] == x && r[1] == y && r[2] == z
    ensures r == [x, y, z]
  {
  }

  /** The constant name built from command names: each camelcased, joined by `::`. */
  function ConstName(cmds: seq<string>): string
  {
    Join(CamelcaseAll(cmds), "::")
  }

  /** A path whose every prefix is registered under the scope, each proper
      prefix as a class or module, resolves to the constant registered under
      the whole qualified name. */
  lemma {:induction false} ResolveQualified(reg: Registry, scope: string, whole: string, segs: seq<string>, first: bool)
    requires |segs| > 0
    requires forall i :: 0 <= i < |segs| ==> ConstSegment(segs[i])
    requires forall k :: 1 <= k <= |segs| ==> Qualify(scope, Join(segs[..k], "::")) in reg
    requires forall k :: 1 <= k < |segs| ==> !reg[Qualify(scope, Join(segs[..k], "::"))].Value?
    ensures Qualify(scope, Join(segs, "::")) in reg
    ensures Resolve(reg, scope, whole, segs, first) == Success(reg[Qualify(scope, Join(segs, "::"))])
    decreases |segs|
  {
    assert segs[..|segs|] == segs;
    assert segs[..1] == [segs[0]];
    var key := Qualify(scope, segs[0]);
    assert key in reg;
    if |segs| > 1 {
      var tail := segs[1..];
      forall k | 1 <= k <= |tail|
        ensures Qualify(key, Join(tail[..k], "::")) == Qualify(scope, Join(segs[..k + 1], "::"))
      {
        QualifyJoin(scope, segs[..k + 1]);
        assert segs[..k + 1][1..] == tail[..k];
      }
      assert !reg[key].Value?;
      ResolveQualified(reg, key, whole, tail, false);
      QualifyJoin(scope, segs);
    } else {
      assert segs == [segs[0]];
    }
  }

  /** Qualifying by the first segment, then by the joined rest, qualifies by
      the whole joined path. */
  lemma QualifyJoin(scope: string, segs: seq<string>)
    requires |segs| > 1 && segs[0] != ""
    ensures Qualify(Qualify(scope, segs[0]), Join(segs[1..], "::")) == Qualify(scope, Join(segs, "::"))
  {
    var j := Join(segs[1..], "::");
    var x := segs[0];
    assert Join(segs, "::") == x + "::" + j;
    if scope != "" {
      Assoc3(scope, x, j);
    }
  }

  lemma Assoc3(a: string, x: string, j: string)
    ensures (a + "::" + x) + "::" + j == a + "::" + (x + "::" + j)
  {
  }

  /** A single first segment missing from the scope is taken from the top
      level; missing from both it is an uninitialized constant named in the
      scope. A single later segment has no top-level fallback. */
  lemma ResolveOne(reg: Registry, scope: string, whole: string, name: string, first: bool)
    requires ConstSegment(name)
    ensures Resolve(reg, scope, whole, [name], first) ==
      if Qualify(scope, name) in reg then Success(reg[Qualify(scope, name)])
      else if first && name in reg then Success(reg[name])
      else Failure(UninitializedConstant(Qualify(scope, name)))
  {
  }

  /** A successful lookup returns the constant registered under the whole
      qualified path; only from the first segment may that path be taken at
      the top level instead of under the scope. */
  lemma {:induction false} ResolveFinds(reg: Registry, scope: string, whole: string, segs: seq<string>, first: bool)
    requires |segs| > 0
    ensures var r := Resolve(reg, scope, whole, segs, first);
      r.Success? ==>
        || (Qualify(scope, Join(segs, "::")) in reg && r.value == reg[Qualify(scope, Join(segs, "::"))])
        || (first && Join(segs, "::") in reg && r.value == reg[Join(segs, "::")])
    decreases |segs|
  {
    var name := segs[0];
    if ConstSegment(name) {
      var q := Qualify(scope, name);
      var used := if q in reg || !first then scope else "";
      var key := Qualify(used, name);
      if key in reg {
        if |segs| == 1 {
          assert segs == [name];
        } else {
          ResolveFinds(reg, key, whole, segs[1..], false);
          QualifyJoin(used, segs);
        }
      }
    }
  }

  /** A prefix of the path that resolves to a value other than a class or
      module stops the lookup there: the whole path raises a `TypeError`,
      whatever the segments after it are. */
  lemma {:induction false} ValueStopsPath(reg: Registry, scope: string, whole: string, segs: seq<string>, first: bool, k: nat)
    requires 1 <= k < |segs|
    requires Resolve(reg, scope, whole, segs[..k], first).Success?
    requires Resolve(reg, scope, whole, segs[..k], first).value.Value?
    ensures Resolve(reg, scope, whole, segs, first) == Failure(NotClassOrModule(whole))
    decreases k
  {
    assert segs[..k][0] == segs[0];
    if k > 1 {
      assert segs[..k][1..] == segs[1..][..k - 1];
      var q := Qualify(scope, segs[0]);
      var key := if q in reg || !first then q else segs[0];
      ValueStopsPath(reg, key, whole, segs[1..], false, k - 1);
    }
  }

  /** A segment after the first that is missing under the class or module the
      path has reached is uninitialized there, even when the top level defines
      it; under any other value the path raises a `TypeError` first. */
  lemma LaterSegmentNoFallback(reg: Registry, scope: string, whole: string, outer: string, inner: string, first: bool)
    requires ConstSegment(outer) && ConstSegment(inner)
    requires Qualify(scope, outer) in reg
    requires Qualify(Qualify(scope, outer), inner) !in reg
    ensures Resolve(reg, scope, whole, [outer, inner], first)
         == if reg[Qualify(scope, outer)].Value? then Failure(NotClassOrModule(whole))
            else Failure(UninitializedConstant(Qualify(Qualify(scope, outer), inner)))
  {
    assert [outer, inner][1..] == [inner];
    ResolveOne(reg, Qualify(scope, outer), whole, inner, false);
  }

  /** `Object.const_get("Foo::Bar")` with a top-level `Bar` but no `Foo::Bar`
      raises, although `Bar` alone resolves. */
  lemma NoTopLevelBelowFoo(c: ClassDef)
    ensures var reg: Registry := map["Foo" := ModuleConst, "Bar" := ClassConst(c)];
      && ConstGet(reg, TopLevel, ["Foo", "Bar"]) == Failure(UninitializedConstant("Foo::Bar"))
      && ConstGet(reg, TopLevel, ["Bar"]) == Success(ClassConst(c))
  {
    var reg: Registry := map["Foo" := ModuleConst, "Bar" := ClassConst(c)];
    assert ConstSegment("Foo") && ConstSegment("Bar");
    assert ScopeOf(TopLevel) == "";
    assert Qualify("", "Foo") == "Foo";
    assert Qualify("Foo", "Bar") == "Foo::Bar";
    assert "Foo::Bar" !in reg;
    LaterSegmentNoFallback(reg, "", Join(["Foo", "Bar"], "::"), "Foo", "Bar", true);
    ResolveOne(reg, "", Join(["Bar"], "::"), "Bar", true);
  }

  /** `Object.const_get("Foo::Bar::Baz")` where `Foo::Bar` holds `1` raises a
      `TypeError` for the whole path, before `Baz` is even checked as a name;
      `Foo::Bar` alone is the value. */
  lemma ValueMidPath(reg: Registry)
    requires reg == map["Foo" := ModuleConst, "Foo::Bar" := Value("1")]
    ensures ConstGet(reg, TopLevel, ["Foo", "Bar", "Baz"]) == Failure(NotClassOrModule("Foo::Bar::Baz"))
    ensures ConstGet(reg, TopLevel, ["Foo", "Bar", "baz"]) == Failure(NotClassOrModule("Foo::Bar::baz"))
    ensures ConstGet(reg, TopLevel, ["Foo", "Bar"]) == Success(Value("1"))
  {
    ValuePath(reg, "Baz");
    assert "Foo::Bar::" + "Baz" == "Foo::Bar::Baz";
    ValuePath(reg, "baz");
    assert "Foo::Bar::" + "baz" == "Foo::Bar::baz";
    ValueAtEnd(reg);
  }

  /** `Foo::Bar` alone is the value registered there. */
  lemma ValueAtEnd(reg: Registry)
    requires reg == map["Foo" := ModuleConst, "Foo::Bar" := Value("1")]
    ensures ConstGet(reg, TopLevel, ["Foo", "Bar"]) == Success(Value("1"))
  {
    assert Join(["Foo", "Bar"], "::") == "Foo::Bar" by {
      assert ["Foo", "Bar"][1..] == ["Bar"];
    }
    assert ConstSegment("Foo") && ConstSegment("Bar");
    ConstSegmentsPlain(["Foo", "Bar"]);
    assert Resolve(reg, "Foo", "Foo::Bar", ["Bar"], false) == Success(Value("1")) by {
      assert Qualify("Foo", "Bar") == "Foo::Bar";
    }
    assert Resolve(reg, "", "Foo::Bar", ["Foo", "Bar"], true) == Success(Value("1")) by {
      assert Qualify("", "Foo") == "Foo";
      assert ["Foo", "Bar"][1..] == ["Bar"];
    }
    assert ScopeOf(TopLevel) == "";
  }


  /** `Foo::Bar::<last>` with a value at `Foo::Bar` fails for any non-empty,
      colon-free last name. */
  lemma ValuePath(reg: Registry, last: string)
    requires reg == map["Foo" := ModuleConst, "Foo::Bar" := Value("1")]
    requires last != "" && ':' !in last
    ensures ConstGet(reg, TopLevel, ["Foo", "Bar", last]) == Failure(NotClassOrModule("Foo::Bar::" + last))
  {
    var segs := ["Foo", "Bar", last];
    var whole := "Foo::Bar::" + last;
    assert Join(segs, "::") == whole by {
      assert segs[1..] == ["Bar", last] && ["Bar", last][1..] == [last];
      assert Join([last], "::") == last;
      assert Join(["Bar", last], "::") == "Bar::" + last;
    }
    assert Plain(segs) by {
      assert ConstSegment("Foo") && ConstSegment("Bar");
      ConstSegmentsPlain(["Foo", "Bar"]);
      forall i | 0 <= i < 3 ensures segs[i] != "" && ':' !in segs[i] {
        if i < 2 {
          assert segs[i] == ["Foo", "Bar"][i];
        }
      }
    }
    assert Resolve(reg, "Foo", whole, ["Bar", last], false) == Failure(NotClassOrModule(whole)) by {
      assert ConstSegment("Bar") && Qualify("Foo", "Bar") == "Foo::Bar";
    }
    assert Resolve(reg, "", whole, segs, true) == Failure(NotClassOrModule(whole)) by {
      assert ConstSegment("Foo") && Qualify("", "Foo") == "Foo";
      assert segs[1..] == ["Bar", last];
    }
    assert ScopeOf(TopLevel) == "";
  }

}
