/** The command loader: an ordered table from absolute directory to the
    namespace its command files define their classes in, and the lookup of a
    command's class through the first directory holding its file. The file
    system is given as the set of existing directories and files, and
    `File.expand_path` as a function. */
module Loader {
  import opened Wrappers
  import opened Strings
  import opened Errors
  import opened Constants

  /** One entry of `dir_mappings`: an absolute directory and a namespace name. */
  datatype Mapping = Mapping(dir: string, namespace: string)

  /** `dir_mappings`, in insertion order */
  datatype Loader = Loader(mappings: seq<Mapping>)

  /** `Loader.new`: no mappings */
  const NewLoader := Loader([])

  function Dirs(ms: seq<Mapping>): (r: seq<string>)
    ensures |r| == |ms|
    ensures forall i :: 0 <= i < |ms| ==> r[i] == ms[i].dir
  {
    seq(|ms|, i requires 0 <= i < |ms| => ms[i].dir)
  }

  /** `command_dirs`: the directories, in the order they were first added */
  function CommandDirs(l: Loader): (r: seq<string>)
    ensures |r| == |l.mappings|
    ensures forall d :: d in r <==> NamespaceOf(l.mappings, d).Some?
  {
    Dirs(l.mappings)
  }

  /** The namespace mapped to `dir`, if any */
  function NamespaceOf(ms: seq<Mapping>, dir: string): (r: Option<string>)
    ensures r.None? <==> dir !in Dirs(ms)
    decreases |ms|
  {
    if |ms| == 0 then None
    else if ms[0].dir == dir then Some(ms[0].namespace)
    else
      assert Dirs(ms) == [ms[0].dir] + Dirs(ms[1..]);
      NamespaceOf(ms[1..], dir)
  }

  /** `@dir_mappings[dir] = ns`: an existing key keeps its place and takes the
      new namespace, a new key goes last. */
  function Put(ms: seq<Mapping>, dir: string, ns: string): seq<Mapping>
    decreases |ms|
  {
    if |ms| == 0 then [Mapping(dir, ns)]
    else if ms[0].dir == dir then [Mapping(dir, ns)] + ms[1..]
    else [ms[0]] + Put(ms[1..], dir, ns)
  }

  lemma DirsCons(m: Mapping, t: seq<Mapping>)
    ensures Dirs([m] + t) == [m.dir] + Dirs(t)
  {
  }

  /** `Put` keeps the directory order and appends a directory not yet present. */
  lemma {:induction false} PutDirs(ms: seq<Mapping>, dir: string, ns: string)
    ensures Dirs(Put(ms, dir, ns)) == if dir in Dirs(ms) then Dirs(ms) else Dirs(ms) + [dir]
    decreases |ms|
  {
    if |ms| > 0 {
      DirsCons(ms[0], ms[1..]);
      assert ms == [ms[0]] + ms[1..];
      if ms[0].dir == dir {
        DirsCons(Mapping(dir, ns), ms[1..]);
      } else {
        PutDirs(ms[1..], dir, ns);
        DirsCons(ms[0], Put(ms[1..], dir, ns));
        assert dir in Dirs(ms) <==> dir in Dirs(ms[1..]);
      }
    }
  }

  /** After `Put` the directory maps to the new namespace and every other
      directory to what it mapped to before. */
  lemma {:induction false} PutLookup(ms: seq<Mapping>, dir: string, ns: string, other: string)
    ensures NamespaceOf(Put(ms, dir, ns), other) == if other == dir then Some(ns) else NamespaceOf(ms, other)
    decreases |ms|
  {
    if |ms| > 0 && ms[0].dir != dir {
      var t := Put(ms[1..], dir, ns);
      assert ([ms[0]] + t)[1..] == t;
      PutLookup(ms[1..], dir, ns, other);
    } else if |ms| > 0 {
      assert ([Mapping(dir, ns)] + ms[1..])[1..] == ms[1..];
    }
  }

  /** `add_dir(dir, namespace:)`: the namespace is checked first, then the
      expanded directory must exist; only then is the mapping recorded. */
  function AddDir(l: Loader, dir: string, ns: NsValue, expand: string -> string, dirs: set<string>): (r: Result<Loader, Error>)
    ensures ns.NotModule? ==> r == Failure(InvalidNamespace(ns.repr))
    ensures ns.Module? && expand(dir) !in dirs ==> r == Failure(DirectoryMissing(expand(dir)))
    ensures ns.Module? && expand(dir) in dirs ==>
      && r.Success?
      && NamespaceOf(r.value.mappings, expand(dir)) == Some(ns.name)
      && CommandDirs(r.value) == (if expand(dir) in CommandDirs(l) then CommandDirs(l) else CommandDirs(l) + [expand(dir)])
  {
    match ns
    case NotModule(repr) => Failure(InvalidNamespace(repr))
    case Module(name) =>
      var abs := expand(dir);
      if abs in dirs then
        PutLookup(l.mappings, abs, name, abs);
        PutDirs(l.mappings, abs, name);
        Success(Loader(Put(l.mappings, abs, name)))
      else Failure(DirectoryMissing(abs))
  }

  /** A successful `add_dir` leaves every other directory's namespace alone. */
  lemma AddDirKeepsOthers(l: Loader, dir: string, ns: NsValue, expand: string -> string, dirs: set<string>, other: string)
    requires AddDir(l, dir, ns, expand, dirs).Success? && other != expand(dir)
    ensures NamespaceOf(AddDir(l, dir, ns, expand, dirs).value.mappings, other) == NamespaceOf(l.mappings, other)
  {
    PutLookup(l.mappings, expand(dir), ns.name, other);
  }

  /** Two existing directories added to a new loader are listed in the order
      they were added, each with its own namespace. */
  lemma AddTwoDirs(dir1: string, ns1: string, dir2: string, ns2: string, expand: string -> string, dirs: set<string>)
    requires expand(dir1) in dirs && expand(dir2) in dirs && expand(dir1) != expand(dir2)
    ensures AddDir(NewLoader, dir1, Module(ns1), expand, dirs).Success?
    ensures var l1 := AddDir(NewLoader, dir1, Module(ns1), expand, dirs).value;
      var l2 := AddDir(l1, dir2, Module(ns2), expand, dirs);
      && l2.Success?
      && CommandDirs(l2.value) == [expand(dir1), expand(dir2)]
      && NamespaceOf(l2.value.mappings, expand(dir1)) == Some(ns1)
      && NamespaceOf(l2.value.mappings, expand(dir2)) == Some(ns2)
  {
    var l1 := AddDir(NewLoader, dir1, Module(ns1), expand, dirs).value;
    AddDirKeepsOthers(l1, dir2, Module(ns2), expand, dirs, expand(dir1));
  }

  /** The text with its trailing `/`s removed */
  function ChompSlashes(s: string): (r: string)
    ensures r <= s && (r == "" || r[|r| - 1] != '/')
    ensures forall i :: |r| <= i < |s| ==> s[i] == '/'
    decreases |s|
  {
    if s != "" && s[|s| - 1] == '/' then ChompSlashes(s[..|s| - 1]) else s
  }

  /** Where `File.join` meets the next part: a part opening with `/` first
      drops the trailing `/`s of the text so far; otherwise one `/` goes
      between them unless the text so far already ends with one. */
  function JoinAt(acc: string, next: string): string
  {
    if next != "" && next[0] == '/' then ChompSlashes(acc) + next
    else if acc != "" && acc[|acc| - 1] == '/' then acc + next
    else acc + "/" + next
  }

  /** The last character of a non-empty text */
  function Last(s: string): char
    requires s != ""
  {
    s[|s| - 1]
  }

  /** `File.join(*parts)`: the parts appended left to right, `JoinAt` each
      meeting point. */
  function FileJoin(parts: seq<string>): string
    decreases |parts|
  {
    if |parts| == 0 then ""
    else if |parts| == 1 then parts[0]
    else JoinAt(FileJoin(parts[..|parts| - 1]), parts[|parts| - 1])
  }

  /** Parts that `File.join` puts one `/` between, untouched: none empty
      except possibly the first or the last, none after the first opening
      with `/`, none before the last ending with `/`. */
  predicate PlainPathParts(parts: seq<string>)
  {
    && (forall i :: 0 < i < |parts| ==> parts[i] != "" && parts[i][0] != '/')
    && (forall i :: 0 <= i < |parts| - 1 ==> parts[i] != "" && parts[i][|parts[i]| - 1] != '/')
  }

  /** On plain parts `File.join` is joining with `/`. */
  lemma {:induction false} FileJoinPlain(parts: seq<string>)
    requires PlainPathParts(parts)
    ensures FileJoin(parts) == Join(parts, "/")
    ensures |parts| > 0 && parts[|parts| - 1] != "" ==> FileJoin(parts) != "" && Last(FileJoin(parts)) == Last(parts[|parts| - 1])
    decreases |parts|
  {
    if |parts| > 1 {
      var init := parts[..|parts| - 1];
      var x := parts[|parts| - 1];
      assert PlainPathParts(init) by {
        forall i | 0 < i < |init| ensures init[i] != "" && init[i][0] != '/' {
          assert init[i] == parts[i];
        }
        forall i | 0 <= i < |init| - 1 ensures init[i] != "" && init[i][|init[i]| - 1] != '/' {
          assert init[i] == parts[i];
        }
      }
      FileJoinPlain(init);
      var last := init[|init| - 1];
      assert last == parts[|parts| - 2] && last != "" && last[|last| - 1] != '/';
      var acc := FileJoin(init);
      assert acc != "" && Last(acc) == Last(last);
      assert x != "" ==> x[0] != '/';
      assert FileJoin(parts) == acc + "/" + x;
      JoinSnoc(init, x, "/");
      assert init + [x] == parts;
    }
  }

  /** Ruby's `File.join` does not double the `/` where two parts meet: an
      absolute part after the root, an empty part, or a directory ending in
      `/` still gives one `/`. */
  lemma FileJoinExamples()
    ensures FileJoin(["/", "foo"]) == "/foo"
    ensures FileJoin(["d", "", "x"]) == "d/x"
    ensures FileJoin(["d/", "x"]) == "d/x"
    ensures FileJoin(["d//", "/x"]) == "d/x"
  {
    assert ["/", "foo"][..1] == ["/"];
    assert ChompSlashes("/") == "";
    assert ["d", "", "x"][..2] == ["d", ""] && ["d", ""][..1] == ["d"];
    assert FileJoin(["d", ""]) == "d/";
    assert "d/" + "x" == "d/x";
    assert ["d/", "x"][..1] == ["d/"];
    assert ["d//", "/x"][..1] == ["d//"];
    assert ChompSlashes("d//") == "d" by {
      assert "d//"[..2] == "d/" && "d/"[..1] == "d";
    }
    assert "d" + "/x" == "d/x";
  }

  /** `File.join(dir, *cmds)` */
  function CommandPath(dir: string, cmds: seq<string>): string
  {
    FileJoin([dir] + cmds)
  }

  /** The file `load_command` looks for under `dir` */
  function CommandFile(dir: string, cmds: seq<string>): string
  {
    CommandPath(dir, cmds) + ".rb"
  }

  /** The namespace `load_command` looks the constant up in: the one of the
      first directory holding the command's file, unless that one is
      `Object`, and otherwise the caller's. */
  function NamespaceFor(ms: seq<Mapping>, cmds: seq<string>, files: set<string>, ns: string): (r: string)
    ensures r == ns || exists i :: 0 <= i < |ms| && CommandFile(ms[i].dir, cmds) in files && r == ms[i].namespace
    decreases |ms|
  {
    if |ms| == 0 then ns
    else if CommandFile(ms[0].dir, cmds) in files then
      (if ms[0].namespace == TopLevel then ns else ms[0].namespace)
    else NamespaceFor(ms[1..], cmds, files, ns)
  }

  /** A new loader knows no directory, so every command keeps the caller's
      namespace. */
  lemma NewLoaderEmpty(cmds: seq<string>, files: set<string>, ns: string)
    ensures CommandDirs(NewLoader) == []
    ensures forall d :: NamespaceOf(NewLoader.mappings, d).None?
    ensures NamespaceFor(NewLoader.mappings, cmds, files, ns) == ns
  {
  }

  /** The first directory holding the file decides; later ones are not looked at. */
  lemma {:induction false} FirstHitDecides(ms: seq<Mapping>, cmds: seq<string>, files: set<string>, ns: string, i: int)
    requires 0 <= i < |ms| && CommandFile(ms[i].dir, cmds) in files
    requires forall j :: 0 <= j < i ==> CommandFile(ms[j].dir, cmds) !in files
    ensures NamespaceFor(ms, cmds, files, ns) == if ms[i].namespace == TopLevel then ns else ms[i].namespace
    decreases i
  {
    if i > 0 {
      FirstHitDecides(ms[1..], cmds, files, ns, i - 1);
    }
  }

  /** With the file in no directory the caller's namespace is kept. */
  lemma {:induction false} NoHitKeeps(ms: seq<Mapping>, cmds: seq<string>, files: set<string>, ns: string)
    requires forall j :: 0 <= j < |ms| ==> CommandFile(ms[j].dir, cmds) !in files
    ensures NamespaceFor(ms, cmds, files, ns) == ns
    decreases |ms|
  {
    if |ms| > 0 {
      NoHitKeeps(ms[1..], cmds, files, ns);
    }
  }

  /** `load_command(*cmds, namespace:)`: walk the mappings in order, stop at
      the first directory holding the command's file, then look up the
      camelcased segments joined by `::` in the namespace chosen. */
  method LoadCommand(l: Loader, cmds: seq<string>, ns: string, files: set<string>, reg: Registry)
      returns (r: Result<Const, Error>)
    ensures r == ConstGet(reg, NamespaceFor(l.mappings, cmds, files, ns), CamelcaseAll(cmds))
  {
    var namespace := ns;
    var i := 0;
    while i < |l.mappings|
      invariant 0 <= i <= |l.mappings|
      invariant namespace == ns
      invariant NamespaceFor(l.mappings, cmds, files, ns) == NamespaceFor(l.mappings[i..], cmds, files, ns)
    {
      var m := l.mappings[i];
      assert l.mappings[i..][1..] == l.mappings[i + 1..];
      if CommandFile(m.dir, cmds) in files {
        if m.namespace != TopLevel {
          namespace := m.namespace;
        }
        break;
      }
      i := i + 1;
    }
    r := ConstGet(reg, namespace, CamelcaseAll(cmds));
  }
}
