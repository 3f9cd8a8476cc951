/** The argument parser: a greedy descent from the root that consumes one
    token per matched level, and the text reported for an unknown command.
    The parser keeps the tokens it matched and the ones it left over. */
module Parser {
  import opened Wrappers
  import opened Strings
  import opened Context

  /** Ruby's `\s`: space, tab, line feed, vertical tab, form feed, carriage
      return. */
  predicate IsSpace(c: char)
  {
    c == ' ' || c == '\t' || c == '\n' || c == '\U{B}' || c == '\U{C}' || c == '\r'
  }

  /** The match of `/^-{1,2}\S+/` from the start of `t`; `lineStart` says
      whether `t` begins a line. `^` matches at the start of every line, and
      the pattern needs a `-` there followed by one non-space character
      (a second `-` is one). */
  function FlagFrom(t: string, lineStart: bool): bool
    decreases |t|
  {
    if |t| < 2 then false
    else (lineStart && t[0] == '-' && !IsSpace(t[1])) || FlagFrom(t[1..], t[0] == '\n')
  }

  /** `token.match(/^-{1,2}\S+/)`: a token that starts with `-` and then a
      non-space character is flag-like, and a flag-like token has some `-`
      followed by a non-space character. */
  predicate FlagLike(t: string): (r: bool)
    ensures |t| >= 2 && t[0] == '-' && !IsSpace(t[1]) ==> r
    ensures r ==> exists i :: 0 <= i < |t| - 1 && t[i] == '-' && !IsSpace(t[i + 1])
  {
    FlagFromMeaning(t, true);
    FlagFrom(t, true)
  }

  /** Where the pattern can match: a line start holding `-` and then a
      character that is not a space. */
  predicate FlagAt(t: string, i: int, lineStart: bool)
    requires 0 <= i < |t| - 1
  {
    (if i == 0 then lineStart else t[i - 1] == '\n') && t[i] == '-' && !IsSpace(t[i + 1])
  }

  /** The scan finds a match exactly when there is a place the pattern
      matches. */
  lemma {:induction false} FlagFromMeaning(t: string, lineStart: bool)
    ensures FlagFrom(t, lineStart) <==> exists i :: 0 <= i < |t| - 1 && FlagAt(t, i, lineStart)
    decreases |t|
  {
    if |t| >= 2 {
      FlagFromMeaning(t[1..], t[0] == '\n');
      if FlagFrom(t, lineStart) {
        if !(lineStart && t[0] == '-' && !IsSpace(t[1])) {
          var j :| 0 <= j < |t| - 2 && FlagAt(t[1..], j, t[0] == '\n');
          assert FlagAt(t, j + 1, lineStart);
        } else {
          assert FlagAt(t, 0, lineStart);
        }
      } else {
        forall i | 0 <= i < |t| - 1
          ensures !FlagAt(t, i, lineStart)
        {
          if i > 0 {
            assert !FlagAt(t[1..], i - 1, t[0] == '\n');
          }
        }
      }
    }
  }

  /** A few tokens and how they read */
  lemma FlagExamples()
    ensures FlagLike("-v") && FlagLike("--help") && FlagLike("--")
    ensures !FlagLike("-") && !FlagLike("- v") && !FlagLike("foo") && !FlagLike("")
    ensures FlagLike("foo\n-x")
  {
    assert FlagFrom("-", true) == false;
    assert FlagFrom("foo\n-x", true) by {
      assert "foo\n-x"[1..] == "oo\n-x";
      assert "oo\n-x"[1..] == "o\n-x";
      assert "o\n-x"[1..] == "\n-x";
      assert "\n-x"[1..] == "-x";
    }
    assert !FlagFrom("- v", true) by {
      assert "- v"[1..] == " v";
      assert " v"[1..] == "v";
    }
    assert !FlagFrom("foo", true) by {
      assert "foo"[1..] == "oo";
      assert "oo"[1..] == "o";
    }
  }

  /** The node a parse ended on and the canonical path to it */
  datatype Found = Found(node: Node, path: seq<string>)

  /** What `find_command` returns, with the tokens it consumed (`nil` when
      it consumed past the end) and the ones it left. */
  datatype Match = Match(
    found: Option<Found>,
    prefix: string,
    anyMatch: bool,
    consumed: seq<Option<string>>,
    rest: seq<string>)

  /** `"#{prefix}#{' ' if !prefix.empty? && name}#{name}"` */
  function Extend(prefix: string, name: string): string
  {
    if prefix == "" then name else prefix + " " + name
  }

  /** `find_command(node, prefix:)` on the tokens `argv`, with `path` the
      canonical path to `node` and `atRoot` whether `node` is the root. The
      token is looked up; on a hit it is consumed and the descent goes on
      while tokens remain, the hit has children and the next token is not
      flag-like. */
  function FindCommand(n: Node, path: seq<string>, atRoot: bool, argv: seq<string>, prefix: string): (m: Match)
    ensures m.anyMatch <==> m.found.Some?
    ensures m.found.None? && |m.consumed| == 0 ==> m.rest == argv && m.prefix == prefix
    decreases |argv|
  {
    var name := if |argv| == 0 then "" else argv[0];
    match Lookup(n, atRoot, name)
    case None => Match(None, prefix, false, [], argv)
    case Some(c) =>
      var token := if |argv| == 0 then None else Some(argv[0]);
      var rest := if |argv| == 0 then [] else argv[1..];
      var self := atRoot && name == n.name;
      var path' := if self then path else path + [c.name];
      var prefix' := Extend(prefix, name);
      if |rest| > 0 && HasChildren(c) && !FlagLike(rest[0]) then
        var m := FindCommand(c, path', self, rest, prefix');
        m.(consumed := [token] + m.consumed)
      else
        Match(Some(Found(c, path')), prefix', true, [token], rest)
  }

  /** The tokens and leftovers the parser has collected so far. They are set
      to empty when the parser is made and only ever appended to. */
  datatype Parser = Parser(matched: seq<Option<string>>, remaining: seq<string>)

  /** `Parser.new(context)` */
  const NewParser := Parser([], [])

  /** What `parse` returns, and the parser after it. */
  datatype Parsed = Parsed(found: Option<Found>, prefix: string, anyMatch: bool, parser: Parser)

  /** `parse(argv, env)` from the root: the tokens consumed are added to
      `matched_argv`, the rest to `remaining_argv`. The parser only grows, the
      tokens it gains are the command line again, `any_match` tells whether a
      context was found, and a found context comes with the prefix typed. */
  function Parse(p: Parser, root: Node, argv: seq<string>): (r: Parsed)
    ensures p.matched <= r.parser.matched && p.remaining <= r.parser.remaining
    ensures Present(r.parser.matched[|p.matched|..]) + r.parser.remaining[|p.remaining|..] == argv
    ensures r.anyMatch <==> r.found.Some?
    ensures r.found.Some? ==> r.prefix == Join(DropLeadingEmpty(Texts(r.parser.matched[|p.matched|..])), " ")
  {
    var m := FindCommand(root, [], true, argv, "");
    ConsumedThenRest(root, [], true, argv, "");
    assert Join(DropLeadingEmpty([]), " ") == "";
    PrefixIsJoin(root, [], true, argv, []);
    assert [] + Texts(m.consumed) == Texts(m.consumed);
    var r := Parsed(m.found, m.prefix, m.anyMatch, Parser(p.matched + m.consumed, p.remaining + m.rest));
    assert r.parser.matched[|p.matched|..] == m.consumed;
    assert r.parser.remaining[|p.remaining|..] == m.rest;
    r
  }

  /** The text of a consumed token; `nil` joins as the empty string. */
  function Text(t: Option<string>): string
  {
    t.GetOr("")
  }

  function Texts(ts: seq<Option<string>>): (r: seq<string>)
    ensures |r| == |ts|
    ensures forall i :: 0 <= i < |ts| ==> r[i] == Text(ts[i])
  {
    seq(|ts|, i requires 0 <= i < |ts| => Text(ts[i]))
  }

  /** The consumed tokens that are there (`nil` dropped) */
  function Present(ts: seq<Option<string>>): seq<string>
    decreases |ts|
  {
    if |ts| == 0 then []
    else (if ts[0].Some? then [ts[0].value] else []) + Present(ts[1..])
  }

  /** `unknown_command`: the matched tokens joined by spaces, a space when
      there are any, then the first leftover token if there is one. */
  function UnknownCommand(p: Parser): (r: string)
    ensures Join(Texts(p.matched), " ") <= r
    ensures |p.remaining| > 0 ==> |p.remaining[0]| <= |r| && r[|r| - |p.remaining[0]|..] == p.remaining[0]
    ensures |p.matched| == 0 && |p.remaining| == 0 ==> r == ""
  {
    Join(Texts(p.matched), " ")
      + (if |p.matched| > 0 then " " else "")
      + (if |p.remaining| > 0 then p.remaining[0] else "")
  }

  /** With tokens on both sides the text is every matched token and the
      first leftover, joined by single spaces. */
  lemma UnknownCommandJoins(p: Parser)
    requires |p.matched| > 0 && |p.remaining| > 0
    ensures UnknownCommand(p) == Join(Texts(p.matched) + [p.remaining[0]], " ")
  {
    JoinSnoc(Texts(p.matched), p.remaining[0], " ");
  }

  /** Nothing matched: the text is the first token that failed, or empty. */
  lemma UnknownCommandUnmatched(p: Parser)
    requires |p.matched| == 0
    ensures UnknownCommand(p) == if |p.remaining| > 0 then p.remaining[0] else ""
  {
  }

  /** The unknown-command text from the runner tests */
  lemma UnknownCommandExample()
    ensures UnknownCommand(Parser([Some("foo"), Some("bar")], ["extra"])) == "foo bar extra"
  {
    assert Texts([Some("foo"), Some("bar")]) == ["foo", "bar"];
    assert Join(["foo", "bar"], " ") == "foo bar";
  }

  /** The step of the walk that goes on into the child found. */
  lemma Descend(n: Node, path: seq<string>, atRoot: bool, argv: seq<string>, prefix: string, c: Node)
    requires |argv| > 1 && Lookup(n, atRoot, argv[0]) == Some(c) && HasChildren(c) && !FlagLike(argv[1])
    ensures var self := atRoot && argv[0] == n.name;
      var sub := FindCommand(c, if self then path else path + [c.name], self, argv[1..], Extend(prefix, argv[0]));
      FindCommand(n, path, atRoot, argv, prefix) == sub.(consumed := [Some(argv[0])] + sub.consumed)
  {
  }

  /** The consumed tokens followed by the leftovers are the input, in order. */
  lemma {:induction false} ConsumedThenRest(n: Node, path: seq<string>, atRoot: bool, argv: seq<string>, prefix: string)
    ensures Present(FindCommand(n, path, atRoot, argv, prefix).consumed) + FindCommand(n, path, atRoot, argv, prefix).rest == argv
    decreases |argv|
  {
    var name := if |argv| == 0 then "" else argv[0];
    var lk := Lookup(n, atRoot, name);
    if lk.Some? && |argv| > 1 && HasChildren(lk.value) && !FlagLike(argv[1]) {
      var c := lk.value;
      var self := atRoot && argv[0] == n.name;
      var path' := if self then path else path + [c.name];
      var sub := FindCommand(c, path', self, argv[1..], Extend(prefix, argv[0]));
      Descend(n, path, atRoot, argv, prefix, c);
      ConsumedThenRest(c, path', self, argv[1..], Extend(prefix, argv[0]));
      var m := FindCommand(n, path, atRoot, argv, prefix);
      assert m.consumed == [Some(argv[0])] + sub.consumed && m.rest == sub.rest;
      PresentCons(Some(argv[0]), sub.consumed);
      assert Present(m.consumed) == [argv[0]] + Present(sub.consumed);
      assert Present(sub.consumed) + sub.rest == argv[1..];
      ConsAssoc(argv[0], Present(sub.consumed), sub.rest, argv);
    } else {
      StopFacts(n, path, atRoot, argv, prefix);
    }
  }

  /** Where the walk does not go on, one token at most is consumed. */
  lemma StopFacts(n: Node, path: seq<string>, atRoot: bool, argv: seq<string>, prefix: string)
    requires var lk := Lookup(n, atRoot, if |argv| == 0 then "" else argv[0]);
      !(lk.Some? && |argv| > 1 && HasChildren(lk.value) && !FlagLike(argv[1]))
    ensures var m := FindCommand(n, path, atRoot, argv, prefix);
      Present(m.consumed) + m.rest == argv
      && (|argv| > 0 ==> forall i :: 0 <= i < |m.consumed| ==> m.consumed[i].Some?)
      && (|argv| == 0 ==> m.rest == [] && |m.consumed| <= 1)
  {
    var m := FindCommand(n, path, atRoot, argv, prefix);
    if |argv| > 0 && m.consumed != [] {
      assert m.consumed == [Some(argv[0])] && m.rest == argv[1..];
      PresentCons(Some(argv[0]), []);
      assert Present([]) == [];
      assert argv == [argv[0]] + argv[1..];
    } else if |argv| == 0 && m.consumed != [] {
      assert m.consumed == [None];
      PresentCons(None, []);
      assert Present([]) == [];
    } else {
      assert Present([]) == [];
    }
  }

  lemma ConsAssoc(x: string, a: seq<string>, b: seq<string>, all: seq<string>)
    requires |all| > 0 && all[0] == x && a + b == all[1..]
    ensures [x] + a + b == all
  {
    assert [x] + a + b == [x] + (a + b);
  }

  lemma AllSomeCons(x: string, ts: seq<Option<string>>)
    requires forall i :: 0 <= i < |ts| ==> ts[i].Some?
    ensures forall i :: 0 <= i < |[Some(x)] + ts| ==> ([Some(x)] + ts)[i].Some?
  {
    var all := [Some(x)] + ts;
    forall i | 0 <= i < |all|
      ensures all[i].Some?
    {
      if i > 0 {
        assert all[i] == ts[i - 1];
      }
    }
  }

  lemma PresentCons(t: Option<string>, ts: seq<Option<string>>)
    ensures Present([t] + ts) == (if t.Some? then [t.value] else []) + Present(ts)
  {
    assert ([t] + ts)[1..] == ts;
  }

  /** `nil` is consumed only from an empty input, and then nothing is left. */
  lemma {:induction false} NilOnlyWhenEmpty(n: Node, path: seq<string>, atRoot: bool, argv: seq<string>, prefix: string)
    ensures var m := FindCommand(n, path, atRoot, argv, prefix);
      (|argv| > 0 ==> forall i :: 0 <= i < |m.consumed| ==> m.consumed[i].Some?)
      && (|argv| == 0 ==> m.rest == [] && |m.consumed| <= 1)
    decreases |argv|
  {
    var name := if |argv| == 0 then "" else argv[0];
    var lk := Lookup(n, atRoot, name);
    if lk.Some? && |argv| > 1 && HasChildren(lk.value) && !FlagLike(argv[1]) {
      var c := lk.value;
      var self := atRoot && argv[0] == n.name;
      var path' := if self then path else path + [c.name];
      var sub := FindCommand(c, path', self, argv[1..], Extend(prefix, argv[0]));
      Descend(n, path, atRoot, argv, prefix, c);
      NilOnlyWhenEmpty(c, path', self, argv[1..], Extend(prefix, argv[0]));
      AllSomeCons(argv[0], sub.consumed);
    } else {
      StopFacts(n, path, atRoot, argv, prefix);
    }
  }

  /** The descent stops short of the leftovers only for a reason: the node
      found is a leaf, or the next token is flag-like. */
  lemma {:induction false} StopReason(n: Node, path: seq<string>, atRoot: bool, argv: seq<string>, prefix: string)
    ensures var m := FindCommand(n, path, atRoot, argv, prefix);
      m.found.Some? && |m.rest| > 0 ==> !HasChildren(m.found.value.node) || FlagLike(m.rest[0])
    decreases |argv|
  {
    var name := if |argv| == 0 then "" else argv[0];
    match Lookup(n, atRoot, name)
    case None =>
    case Some(c) =>
      var rest := if |argv| == 0 then [] else argv[1..];
      var self := atRoot && name == n.name;
      if |rest| > 0 && HasChildren(c) && !FlagLike(rest[0]) {
        StopReason(c, if self then path else path + [c.name], self, rest, Extend(prefix, name));
      }
  }

  /** The node found sits at the path reported, counted from the tree the
      walk started in. */
  lemma {:induction false} FoundAtPath(t: Node, n: Node, path: seq<string>, atRoot: bool, argv: seq<string>, prefix: string)
    requires NodeAt(t, path) == Some(n)
    requires atRoot ==> path == []
    ensures var m := FindCommand(n, path, atRoot, argv, prefix);
      m.found.Some? ==> NodeAt(t, m.found.value.path) == Some(m.found.value.node)
    decreases |argv|
  {
    var name := if |argv| == 0 then "" else argv[0];
    match Lookup(n, atRoot, name)
    case None =>
    case Some(c) =>
      var rest := if |argv| == 0 then [] else argv[1..];
      var self := atRoot && name == n.name;
      var path' := if self then path else path + [c.name];
      if !self {
        NodeAtExtend(t, path, c.name);
        assert FindChild(n.children, c.name) == Some(c);
      }
      assert NodeAt(t, path') == Some(c);
      if |rest| > 0 && HasChildren(c) && !FlagLike(rest[0]) {
        FoundAtPath(t, c, path', self, rest, Extend(prefix, name));
      }
  }

  /** Empty strings leading a token list add nothing to the prefix. */
  function DropLeadingEmpty(ts: seq<string>): (r: seq<string>)
    ensures r == [] || r[0] != ""
    decreases |ts|
  {
    if |ts| > 0 && ts[0] == "" then DropLeadingEmpty(ts[1..]) else ts
  }

  lemma {:induction false} DropLeadingEmptySnoc(ts: seq<string>, x: string)
    ensures DropLeadingEmpty(ts + [x]) ==
      if DropLeadingEmpty(ts) == [] then (if x == "" then [] else [x]) else DropLeadingEmpty(ts) + [x]
    decreases |ts|
  {
    if |ts| == 0 {
      assert ts + [x] == [x];
      assert [x][1..] == [];
    } else {
      assert (ts + [x])[0] == ts[0] && (ts + [x])[1..] == ts[1..] + [x];
      if ts[0] == "" {
        DropLeadingEmptySnoc(ts[1..], x);
      }
    }
  }

  /** Extending a prefix built from some tokens by one more token builds the
      prefix of all of them. */
  lemma ExtendJoin(ts: seq<string>, x: string)
    ensures Extend(Join(DropLeadingEmpty(ts), " "), x) == Join(DropLeadingEmpty(ts + [x]), " ")
  {
    var d := DropLeadingEmpty(ts);
    DropLeadingEmptySnoc(ts, x);
    if d != [] {
      assert Join(d, " ") != "" by {
        if |d| > 1 {
          assert Join(d, " ") == d[0] + " " + Join(d[1..], " ");
        }
      }
      JoinSnoc(d, x, " ");
    }
  }

  /** The prefix is the consumed tokens, as typed, joined by single spaces,
      except that empty tokens before the first non-empty one add nothing. */
  lemma {:induction false} PrefixIsJoin(n: Node, path: seq<string>, atRoot: bool, argv: seq<string>, before: seq<string>)
    ensures var m := FindCommand(n, path, atRoot, argv, Join(DropLeadingEmpty(before), " "));
      m.found.Some? ==> m.prefix == Join(DropLeadingEmpty(before + Texts(m.consumed)), " ")
    decreases |argv|
  {
    var prefix := Join(DropLeadingEmpty(before), " ");
    var name := if |argv| == 0 then "" else argv[0];
    var lk := Lookup(n, atRoot, name);
    if lk.Some? && |argv| > 1 && HasChildren(lk.value) && !FlagLike(argv[1]) {
      var c := lk.value;
      var self := atRoot && argv[0] == n.name;
      var path' := if self then path else path + [c.name];
      PrefixIsJoin(c, path', self, argv[1..], before + [argv[0]]);
      PrefixDescend(n, path, atRoot, argv, before, c);
    } else {
      PrefixStop(n, path, atRoot, argv, before);
    }
  }

  lemma PrefixDescend(n: Node, path: seq<string>, atRoot: bool, argv: seq<string>, before: seq<string>, c: Node)
    requires |argv| > 1 && Lookup(n, atRoot, argv[0]) == Some(c) && HasChildren(c) && !FlagLike(argv[1])
    requires var self := atRoot && argv[0] == n.name;
      var sub := FindCommand(c, if self then path else path + [c.name], self, argv[1..], Join(DropLeadingEmpty(before + [argv[0]]), " "));
      sub.found.Some? ==> sub.prefix == Join(DropLeadingEmpty(before + [argv[0]] + Texts(sub.consumed)), " ")
    ensures var m := FindCommand(n, path, atRoot, argv, Join(DropLeadingEmpty(before), " "));
      m.found.Some? ==> m.prefix == Join(DropLeadingEmpty(before + Texts(m.consumed)), " ")
  {
    var prefix := Join(DropLeadingEmpty(before), " ");
    var self := atRoot && argv[0] == n.name;
    ExtendJoin(before, argv[0]);
    var sub := FindCommand(c, if self then path else path + [c.name], self, argv[1..], Extend(prefix, argv[0]));
    Descend(n, path, atRoot, argv, prefix, c);
    TextsCons(before, argv[0], sub.consumed);
  }

  lemma TextsCons(before: seq<string>, x: string, ts: seq<Option<string>>)
    ensures before + Texts([Some(x)] + ts) == before + [x] + Texts(ts)
  {
    assert Texts([Some(x)] + ts) == [x] + Texts(ts);
  }

  lemma PrefixStop(n: Node, path: seq<string>, atRoot: bool, argv: seq<string>, before: seq<string>)
    requires var lk := Lookup(n, atRoot, if |argv| == 0 then "" else argv[0]);
      !(lk.Some? && |argv| > 1 && HasChildren(lk.value) && !FlagLike(argv[1]))
    ensures var m := FindCommand(n, path, atRoot, argv, Join(DropLeadingEmpty(before), " "));
      m.found.Some? ==> m.prefix == Join(DropLeadingEmpty(before + Texts(m.consumed)), " ")
  {
    var prefix := Join(DropLeadingEmpty(before), " ");
    var name := if |argv| == 0 then "" else argv[0];
    var m := FindCommand(n, path, atRoot, argv, prefix);
    if m.found.Some? {
      ExtendJoin(before, name);
      assert m.prefix == Extend(prefix, name);
      assert m.consumed == [if |argv| == 0 then None else Some(argv[0])];
      assert Texts(m.consumed) == [name];
    }
  }

  /** An empty command line finds the root itself, named `""`, with an empty
      prefix, and records one `nil` as matched. */
  lemma EmptyArgvFindsRoot(p: Parser, root: Node)
    requires root.name == ""
    ensures Parse(p, root, []) == Parsed(Some(Found(root, [])), "", true, Parser(p.matched + [None], p.remaining))
  {
  }

  /** The first token's lookup hitting a leaf child ends the descent there:
      that one token is matched and everything after it is left over. */
  lemma LeafStops(root: Node, argv: seq<string>, c: Node)
    requires |argv| > 0 && argv[0] != root.name
    requires Lookup(root, true, argv[0]) == Some(c) && !HasChildren(c)
    ensures Parse(NewParser, root, argv) ==
      Parsed(Some(Found(c, [c.name])), argv[0], true, Parser([Some(argv[0])], argv[1..]))
  {
    assert [] + [c.name] == [c.name];
    assert FindCommand(root, [], true, argv, "") == Match(Some(Found(c, [c.name])), argv[0], true, [Some(argv[0])], argv[1..]);
  }

  /** Only the first four fields of a match depend on the prefix carried in. */
  lemma {:induction false} PrefixOnlyInPrefix(n: Node, path: seq<string>, atRoot: bool, argv: seq<string>, p1: string, p2: string)
    ensures var m1 := FindCommand(n, path, atRoot, argv, p1);
      var m2 := FindCommand(n, path, atRoot, argv, p2);
      m1.found == m2.found && m1.anyMatch == m2.anyMatch && m1.consumed == m2.consumed && m1.rest == m2.rest
    decreases |argv|
  {
    var name := if |argv| == 0 then "" else argv[0];
    match Lookup(n, atRoot, name)
    case None =>
    case Some(c) =>
      var rest := if |argv| == 0 then [] else argv[1..];
      var self := atRoot && name == n.name;
      if |rest| > 0 && HasChildren(c) && !FlagLike(rest[0]) {
        PrefixOnlyInPrefix(c, if self then path else path + [c.name], self, rest, Extend(p1, name), Extend(p2, name));
      }
  }

  /** Typing an alias instead of the name it stands for, at any level of
      the walk, finds the same node and leaves the same tokens; only the
      prefix and the recorded token differ. */
  lemma AliasEquivalent(n: Node, path: seq<string>, atRoot: bool, a: string, rest: seq<string>, prefix: string)
    requires a in n.aliases
    requires n.aliases[a] in Names(n.children) && n.aliases[a] !in n.aliases
    requires atRoot ==> a != n.name && n.aliases[a] != n.name
    ensures var byAlias := FindCommand(n, path, atRoot, [a] + rest, prefix);
      var byName := FindCommand(n, path, atRoot, [n.aliases[a]] + rest, prefix);
      byAlias.found == byName.found && byAlias.anyMatch == byName.anyMatch && byAlias.rest == byName.rest
  {
    var target := n.aliases[a];
    assert ([a] + rest)[1..] == rest && ([target] + rest)[1..] == rest;
    assert Lookup(n, atRoot, a) == Lookup(n, atRoot, target);
    match Lookup(n, atRoot, a)
    case None =>
    case Some(c) =>
      if |rest| > 0 && HasChildren(c) && !FlagLike(rest[0]) {
        PrefixOnlyInPrefix(c, path + [c.name], false, rest, Extend(prefix, a), Extend(prefix, target));
      }
  }
}
