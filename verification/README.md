# tty-runner command router in Dafny

This project models the core of tty-runner, a Ruby library that routes a
command line to a handler through a tree of named subcommands. It covers six
pieces:

- **Context tree** (`Context`). Each node has a name, an optional handler
  (the "runnable"), an action, its children in insertion order, and an alias
  table. Parent pointers are replaced by paths of canonical names from the
  root. A `Ref` stands for a parent reference, with `Empty` for the `EMPTY`
  sentinel.
- **Router DSL** (`Router`). A `commands` block becomes a script of `On`,
  `Run` and `Mount` declarations. It is evaluated against a tree and a
  cursor path. `on` with a block pushes the cursor into the new child and
  pops it again on every exit, normal or raising.
- **Parser** (`Parser`). It descends greedily from the root, one token per
  level. It returns the node found, the prefix typed, whether anything
  matched, the tokens consumed and the tokens left over. It also builds the
  unknown-command text.
- **Runner** (`Runner`). It covers:
  - the `commands` validation and building an instance;
  - the three outcomes of `call`;
  - `id#action` splitting and handler instantiation;
  - the constant name built from the ancestors, and the arity rule;
  - the `Commands:` usage listing.
- **Inflection** (`Inflection`). `camelcase`, proved equal to a
  one-character-at-a-time scan.
- **Loader** (`Loader`). An ordered directory-to-namespace table, and the
  first-hit lookup of a command's constant.

Supporting modules:

- `Strings` gives Ruby's `join`, `split` with a one-character pattern,
  `String#<=>`, `sort` under that order, and `%-Ns` padding.
- `Constants` models `Module#const_get` over a registry of qualified
  constant names. It reads a String path as Ruby does: split at `::`, with
  an optional leading `::`. Ruby's interpreter, where `const_get` is
  defined, is not part of this model; its rules are restated here.
- `Errors` lists every exception raised.
- `Wrappers` holds `Option` (Ruby's `nil`) and `Result` (a raise).

Reflection is replaced by data:

- A `Handler` says what kind of value it is. A callable carries its `arity`.
- A `ClassDef` lists the arity of each instance method.
- The program's constants are a `map` from qualified name to `Const`: a
  module, a class, or any other value (`Foo::LIMIT = 1`), given by its
  `inspect` text.
- The file system is a set of existing directories and a set of existing
  files.
- `File.expand_path` is a function parameter.
- Output is returned as the text `puts` would write.

## Model

| member | source | states |
|---|---|---|
| Context.Names | lib/tty/runner/context.rb:91-93 | children are visited in stored order, giving each child's name at its position |
| Context.NewContext | lib/tty/runner/context.rb:28-35 | a new context has the given name and action, no children and no aliases, and is runnable exactly when given a handler |
| Context.Runnable | lib/tty/runner/context.rb:66-68 | `runnable?` holds whenever a handler is set, `false` included |
| Context.HasChildren | lib/tty/runner/context.rb:70-72 | `children?` holds when at least one child is stored |
| Context.FindChild | lib/tty/runner/context.rb:87 | the child read from the table has the requested name; nothing is found exactly when no child has that name |
| Context.FindChildAt | lib/tty/runner/context.rb:87 | with unique names, the lookup by a child's name returns that very child |
| Context.Upsert | lib/tty/runner/context.rb:50 | storing under an existing name keeps the order of names; a new name is appended last |
| Context.UpsertFind | lib/tty/runner/context.rb:50 | after the store, the stored name finds the new child and every other name finds what it found before |
| Context.UpsertKeepsUnique | lib/tty/runner/context.rb:50 | storing keeps child names unique, as Hash keys are |
| Context.Add | lib/tty/runner/context.rb:48-53 | adds a fresh child with the given handler and action under the name, replacing a same-named child in its old position; maps every alias to the name; other children, other aliases and the receiver's own fields are unchanged |
| Context.Lookup | lib/tty/runner/context.rb:84-88 | at the root, its own name returns the node itself; otherwise a child is returned exactly when one carries the alias-resolved token as its name, and the hit is that child |
| Context.LookupSelf | lib/tty/runner/context.rb:85 | the node itself is returned exactly when it is the root and the token is its name |
| Context.AliasShadowsSibling | lib/tty/runner/context.rb:87 | an alias is resolved before the children are read, so it shadows a sibling whose real name equals the alias |
| Context.CompareContexts | lib/tty/runner/context.rb:75-77 | contexts compare by name only: zero exactly for equal names, antisymmetric |
| Context.Dump | lib/tty/runner/context.rb:105-109 | a dump starts with the node's name, is the name alone exactly for a leaf, and otherwise closes with `]` |
| Context.DumpBalanced | lib/tty/runner/context.rb:105-109 | with bracket-free names, a dump's opening and closing brackets balance |
| Context.DumpExample | spec/unit/context_spec.rb:56-63 | `foo` holding `bar` and `baz`, with `qux` under `baz`, dumps as `foo => [bar, baz => [qux]]` |
| Context.Parent | lib/tty/runner/context.rb:28-30 | the parent reference is the `EMPTY` sentinel exactly for the root, and otherwise the path without its last name |
| Context.IsRoot | lib/tty/runner/context.rb:56-63 | `root?` of a node holds exactly at the root; asking the sentinel fails, because its parent is nil |
| Context.NodeAt | lib/tty/runner/context.rb:87 | the empty path addresses the root |
| Context.ModifyAt | lib/tty/runner/context.rb:50 | rewriting the node at a path keeps the root's name; at the empty path it rewrites the root |
| Context.NodeAtModify | lib/tty/runner/context.rb:50 | after a rewrite at a valid path, that path holds the rewritten node |
| Context.NodeAtThrough | lib/tty/runner/context.rb:87 | following a path is following it to a node on the way and then on from that node |
| Context.ModifyAtElsewhere | lib/tty/runner/context.rb:50 | a rewrite at one path leaves every path that is neither above nor below it addressing the same node |
| Context.ModifyAtBelow | lib/tty/runner/context.rb:50 | after a rewrite, a path at or below the rewritten one addresses what its remainder addresses in the rewritten node |
| Context.ModifyAtAbove | lib/tty/runner/context.rb:50 | after a rewrite, a path above the rewritten one addresses the old node with the rewrite applied further down |
| Context.ModifyAtKeepsFields | lib/tty/runner/context.rb:50 | a rewrite below a node keeps that node's name, handler, action, aliases and child names |
| Context.NodeAtExtend | lib/tty/runner/context.rb:87 | a path extended by a name is valid exactly when its parent path is valid and has a child of that name |
| Context.ParentValid | lib/tty/runner/context.rb:11 | the parent path of a valid path is valid |
| Router.NewRouter | lib/tty/runner/router.rb:11-13 | a new router holds a lone, handler-less root named `""`, with the cursor on it |
| Router.Convert | lib/tty/runner/router.rb:100-116 | a String or Symbol gives its text and a Proc the text of its result; anything else fails with an unsupported-matcher error carrying its inspect text |
| Router.AddAtCursorFacts | lib/tty/runner/router.rb:46 | `@context.add` changes the node under the cursor as `add` does, places the new child one level down, and keeps the cursor |
| Router.SetHandlerAtCursorFacts | lib/tty/runner/router.rb:59 | `@context.runnable =` gives the node under the cursor the new handler; every node off the path from the root to the cursor is unchanged, and the nodes on that path keep their own fields and child names |
| Router.Eval | lib/tty/runner/router.rb:18-20 | evaluating a script always returns the cursor to where it began, keeps it pointing into the tree, and keeps the root's name, even when an error is raised |
| Router.EvalDecl | lib/tty/runner/router.rb:39-76 | each of `on`, `run` and `mount` leaves the cursor where it found it, still valid |
| Router.EvalScope | lib/tty/runner/router.rb:83-88 | `with_context` restores the cursor after the block, whether or not the block raised |
| Router.EvalAppend | lib/tty/runner/router.rb:18-20 | a script runs in order: two scripts in a row are their concatenation, and a raise in the first skips the second |
| Router.MountInlines | lib/tty/runner/router.rb:70-76 | mounting a runner class evaluates its declarations in place, as if written where the `mount` stands |
| Router.RaiseStops | lib/tty/runner/router.rb:56 | the first declaration that raises ends the evaluation with its error; the rest of the script is not evaluated |
| Router.MountRejects | lib/tty/runner/router.rb:70-76 | mounting a non-runner raises `A TTY::Runner type must be given` before anything else happens; mounting a runner with no commands block raises too |
| Router.OnWithRun | lib/tty/runner/router.rb:46 | `on name, run: h` without a block adds a child carrying `h` under the cursor and leaves the cursor in place |
| Router.OnStoresHandler | lib/tty/runner/router.rb:42-46 | with a block and a handler, the block is evaluated first and the handler-bearing child is added afterwards |
| Router.OnWithoutEffect | lib/tty/runner/router.rb:39-47 | `on` with neither a block nor a truthy `run:` changes nothing, not even the aliases |
| Router.OnBlockAndRunDropsNested | lib/tty/runner/router.rb:42-46 | `on` with both a block and `run:` ends with a fresh child that carries only the handler: the nested children are dropped |
| Router.OnBlockRunsInChild | lib/tty/runner/router.rb:83-88 | a `run` inside an `on` block sets the new child's handler, not the current node's |
| Router.RunSetsHandler | lib/tty/runner/router.rb:54-60 | `run` raises exactly when both a command and a block are given; otherwise the cursor node's handler becomes the block, or else the command (nil included) |
| Parser.FlagFromMeaning | lib/tty/runner/parser.rb:69-71 | the scan for `/^-{1,2}\S+/` succeeds exactly when some line of the token starts with `-` followed by a non-space character |
| Parser.FlagExamples | lib/tty/runner/parser.rb:69-71 | `-v`, `--help` and `--` are flag-like; `-`, `- v`, `foo` and `""` are not; a `-x` on a later line of the token is |
| Parser.FlagLike | lib/tty/runner/parser.rb:69-71 | a token starting with `-` and a non-space character is flag-like, and a flag-like token has a `-` followed by a non-space character somewhere |
| Parser.FindCommand | lib/tty/runner/parser.rb:47-63 | `any_match` is true exactly when a context is returned, and a walk that consumed nothing and found nothing leaves the whole input and the prefix as they were |
| Parser.Parse | lib/tty/runner/parser.rb:29-40 | `parse` only appends to the parser's two lists; the consumed tokens it appends (nil dropped) followed by the leftovers it appends are the command line again; `any_match` holds exactly when a context is returned; and a returned context comes with the consumed tokens joined as the prefix, leading empty tokens adding nothing |
| Parser.UnknownCommandJoins | lib/tty/runner/parser.rb:81-86 | with tokens on both sides, the unknown command is every matched token and the first leftover, joined by single spaces |
| Parser.UnknownCommandUnmatched | lib/tty/runner/parser.rb:81-86 | with nothing matched, the unknown command is the first leftover, or empty |
| Parser.UnknownCommandExample | spec/unit/run_spec.rb:77-81 | matched `foo bar` with `extra` left over reads `foo bar extra` |
| Parser.UnknownCommand | lib/tty/runner/parser.rb:81-86 | the report starts with the matched tokens joined by spaces and ends with the first leftover; with neither it is empty |
| Parser.Descend | lib/tty/runner/parser.rb:57-58 | when tokens remain, the hit has children and the next token is not flag-like, the walk consumes the token and goes on into the hit |
| Parser.ConsumedThenRest | lib/tty/runner/parser.rb:35-37 | the tokens consumed, nil dropped, followed by the leftovers are the input in order |
| Parser.NilOnlyWhenEmpty | lib/tty/runner/parser.rb:49-54 | nil is consumed only from an empty input, at most once, and then nothing is left over |
| Parser.StopReason | lib/tty/runner/parser.rb:57 | a walk that found a node and left tokens stopped because the node is a leaf or the next token is flag-like |
| Parser.FoundAtPath | lib/tty/runner/parser.rb:50-58 | the node found sits in the tree at the canonical path reported |
| Parser.ExtendJoin | lib/tty/runner/parser.rb:55 | extending a prefix by one more token builds the prefix of all the tokens |
| Parser.PrefixIsJoin | lib/tty/runner/parser.rb:55 | the prefix is the consumed tokens as typed, joined by single spaces, except that empty tokens before the first non-empty one add nothing |
| Parser.EmptyArgvFindsRoot | lib/tty/runner/parser.rb:49-55 | an empty command line finds the root with prefix `""` and records one nil as matched |
| Parser.LeafStops | lib/tty/runner/parser.rb:57 | a first token that hits a leaf is the only one matched; every later token is left over |
| Parser.PrefixOnlyInPrefix | lib/tty/runner/parser.rb:47-63 | the prefix passed in affects only the prefix returned |
| Parser.AliasEquivalent | lib/tty/runner/parser.rb:50 | at any node of the walk, typing an alias instead of the name it stands for finds the same node, gives the same match flag and leaves the same tokens |
| Strings.Compare | lib/tty/runner.rb:204 | `String#<=>` returns -1, 0 or 1, and 0 exactly for equal strings |
| Strings.CompareFlip | lib/tty/runner.rb:204 | swapping the operands negates the comparison |
| Strings.AtMostTransitive | lib/tty/runner.rb:204 | the order is transitive |
| Strings.AtMostTotal | lib/tty/runner.rb:204 | any two strings are comparable |
| Strings.AtMostAntisymmetric | lib/tty/runner.rb:204 | strings at most each other are equal |
| Strings.Sort | lib/tty/runner.rb:204 | `sort!` yields an ascending permutation of its input |
| Strings.SortedUnique | lib/tty/runner.rb:204 | two ascending arrangements of the same elements are equal, so the sorted order does not depend on the input order |
| Strings.PadRight | lib/tty/runner.rb:200 | `%-Ns` keeps the text as a prefix, pads with spaces to the width, and never truncates |
| Strings.Fields | lib/tty/runner.rb:143 | splitting yields one more field than there are separators, no field holds the separator, and joining the fields back gives the input |
| Strings.FieldsOfJoin | lib/tty/runner.rb:143 | splitting a join of separator-free parts returns the parts |
| Strings.Split | lib/tty/runner.rb:143 | no field of Ruby's `split` holds the separator, and it never ends with an empty field |
| Strings.SplitOfFields | lib/tty/runner.rb:143 | `split` is the fields with only empty fields dropped from the end: a prefix of the fields, every dropped field empty |
| Inflection.Capitalize | lib/tty/runner/inflection.rb:12 | `capitalize` upcases the first character and downcases the rest, for ASCII letters, and keeps the length |
| Inflection.Camelcase | lib/tty/runner/inflection.rb:11-13 | `camelcase` equals the reference character scan (ASCII case mapping); it contains no `_` and is one character shorter per underscore |
| Inflection.CamelcaseOfJoin | lib/tty/runner/inflection.rb:12 | camelcasing underscore-joined segments capitalizes each segment and concatenates them |
| Inflection.ScanAtUnderscore | lib/tty/runner/inflection.rb:12 | an underscore restarts capitalization, whatever came before it |
| Inflection.CamelcaseExamples | spec/unit/inflection_spec.rb:4-9 | `some_class_name`, `html_class`, `some_html_class` and `ipv6_class` convert to the class names the tests expect, and `""` stays empty |
| Constants.Resolve | lib/tty/runner.rb:174 | `const_get` of a path succeeds only when every segment is a constant name |
| Constants.ConstGet | lib/tty/runner.rb:173-174 | the camelcased names are joined by `::` and the joined text is read back at its own `::`s; names that are non-empty and colon-free are resolved one by one as `Resolve` does; an empty list is a wrong constant name; success means the joined path is well formed |
| Constants.ConstGetPath | lib/tty/runner.rb:174 | `const_get` of a String path: an empty path, or one opening with NUL, is a wrong constant name naming the whole path, and success means the path is constant names separated by `::`, optionally after a leading `::` |
| Constants.WalkWellFormed | lib/tty/runner.rb:174 | a walk that succeeds went over text whose `:`-separated fields alternate between constant names and the empty text inside a `::` |
| Constants.WalkJoin | lib/tty/runner.rb:173-174 | walking the `::`-join of non-empty, colon-free names from a class or module is resolving those names one by one; from any other value it is a `TypeError` naming the whole path |
| Constants.ValueStopsPath | lib/tty/runner.rb:174 | once a prefix of the path resolves to a value that is neither a class nor a module, the whole path raises a `TypeError`, whatever the later segments are |
| Constants.ValueMidPath | lib/tty/runner.rb:173-174 | with `Foo::Bar` holding `1`, both `Foo::Bar::Baz` and `Foo::Bar::baz` raise the `TypeError` for the whole path, because the type check comes before the name check, while `Foo::Bar` alone is the value |
| Constants.ColonInCommandName | lib/tty/runner.rb:173-174 | a command `a::_b` camelcases to `A::B`, and the lookup resolves `A::B` exactly as the two names `A` and `B` would |
| Constants.TrailingColons | lib/tty/runner.rb:173-174 | an empty last name leaves a trailing `::`, and the whole path `A::` is a wrong constant name |
| Constants.LoneColon | lib/tty/runner.rb:173-174 | a single `:` in a name makes the whole path a wrong constant name |
| Constants.InnerEmptySegment | lib/tty/runner.rb:173-174 | an empty name inside the path is found after the first segment resolves, and the whole path is a wrong constant name |
| Constants.LeadingColons | lib/tty/runner.rb:173-174 | an empty first name gives a leading `::`, which is looked up from the top level whatever the namespace |
| Constants.CamelcaseAll | lib/tty/runner.rb:173 | each command name is camelcased in place |
| Constants.ResolveQualified | lib/tty/runner.rb:174 | a path whose every prefix is defined under the namespace, each proper prefix as a class or module, resolves to the constant at the whole qualified name |
| Constants.ResolveOne | lib/tty/runner.rb:174 | a single first segment is looked up in the scope, then at the top level; a single later segment in its scope only; otherwise it is uninitialized under its scoped name |
| Constants.ResolveFinds | lib/tty/runner.rb:174 | a successful lookup returns the constant registered under the whole path qualified by the scope, or, only when it starts from the first segment, under the whole path at the top level |
| Constants.LaterSegmentNoFallback | lib/tty/runner.rb:174 | a segment after the first that is missing under the class or module reached is uninitialized there, even when the top level defines it; under any other value the whole path raises a `TypeError` instead |
| Constants.NoTopLevelBelowFoo | lib/tty/runner.rb:174 | with a top-level `Bar` but no `Foo::Bar`, `Foo::Bar` is uninitialized while `Bar` alone resolves |
| Loader.NamespaceOf | lib/tty/runner/loader.rb:14 | a directory has a namespace exactly when it is mapped |
| Loader.CommandDirs | lib/tty/runner/loader.rb:25-27 | `command_dirs` lists one entry per mapping, and a directory is listed exactly when it has a namespace |
| Loader.NamespaceFor | lib/tty/runner/loader.rb:63-70 | the namespace chosen is the caller's or that of some directory holding the command file |
| Loader.NewLoaderEmpty | lib/tty/runner/loader.rb:16-18 | a new loader lists no directory, maps none, and leaves every command in the caller's namespace |
| Loader.PutDirs | lib/tty/runner/loader.rb:50 | re-mapping a directory keeps its position; a new directory goes last |
| Loader.PutLookup | lib/tty/runner/loader.rb:50 | after mapping, the directory has the new namespace and every other directory keeps its own |
| Loader.AddDir | lib/tty/runner/loader.rb:42-54 | a non-module namespace is rejected first; then a missing expanded directory is rejected; otherwise that directory maps to the namespace and is listed once, after the earlier directories |
| Loader.AddDirKeepsOthers | lib/tty/runner/loader.rb:50 | adding a directory leaves every other directory's namespace unchanged |
| Loader.AddTwoDirs | lib/tty/runner/loader.rb:25-27 | two directories added to a new loader are listed in insertion order, each with its own namespace |
| Loader.FirstHitDecides | lib/tty/runner/loader.rb:63-69 | the first directory holding the command file decides the namespace (`Object` keeps the caller's); later directories are not consulted |
| Loader.NoHitKeeps | lib/tty/runner/loader.rb:62-70 | when no directory holds the file, the caller's namespace is kept |
| Loader.ChompSlashes | lib/tty/runner/loader.rb:64 | the text kept is a prefix of the input that does not end with `/`, and everything removed is `/` |
| Loader.FileJoinPlain | lib/tty/runner/loader.rb:64 | on parts that are non-empty where they meet, with no `/` at the edges that meet, `File.join` is joining with one `/` |
| Loader.FileJoinExamples | lib/tty/runner/loader.rb:64 | `File.join` does not double the `/` where parts meet: `/` and `foo` give `/foo`, `d`, the empty text and `x` give `d/x`, `d/` and `x` give `d/x`, `d//` and `/x` give `d/x` |
| Loader.LoadCommand | lib/tty/runner/loader.rb:62-74 | the loop's result is the lookup of the camelcased names, joined by `::`, in the namespace the first hit selects |
| Runner.Commands | lib/tty/runner.rb:60-71 | a missing block is rejected before the namespace is checked, then a non-module namespace is rejected; otherwise both are recorded |
| Runner.New | lib/tty/runner.rb:88-96 | a new instance has a fresh parser, the class's namespace and a root named `""`; with a block, it fails exactly when evaluating the block raises, with that error, and otherwise holds the tree the evaluation built |
| Runner.SplitRunnable | lib/tty/runner.rb:140-146 | a handler that is not a String is kept whole, with the node's action |
| Runner.SplitRunnableRoundTrip | lib/tty/runner.rb:143 | `"id#action"` splits back into `id` and `action` |
| Runner.SplitRunnablePlain | lib/tty/runner.rb:140-146 | a String without `#` is the command itself with the node's action; the empty String gives no command |
| Runner.AncestorNames | lib/tty/runner.rb:166-170 | a node below the root has one ancestor name fewer than its depth: the root and the node itself are excluded |
| Runner.AncestorsAgree | lib/tty/runner.rb:166-170 | below the root, the `until context.parent.root?` loop collects exactly the ancestor names |
| Runner.AncestorsAsWritten | lib/tty/runner.rb:166-170 | the loop fails exactly at the root and otherwise collects one name fewer than the depth |
| Runner.AncestorsAtRootFail | lib/tty/runner.rb:167 | at the root the loop sends `empty?` to nil and fails |
| Runner.NewObject | lib/tty/runner.rb:156 | `new` succeeds exactly on a class, giving an instance of that class; on a module, or on any other value, it raises `NoMethodError` for `new` |
| Runner.InstantiateAsWritten | lib/tty/runner.rb:149-175 | as written, a Symbol handler always fails, a String handler on the root always fails, and other handlers are instantiated as corrected |
| Runner.ResolveClass | lib/tty/runner.rb:163-175 | a name handler is instantiated only when its constant path resolves |
| Runner.Instantiate | lib/tty/runner.rb:149-160 | a callable is used as is and a class is instantiated; a String or Symbol resolves through the ancestors; nil, false and other values are unsupported runnables carrying their inspect text |
| Runner.InstantiateAgrees | lib/tty/runner.rb:149-175 | away from the root and from Symbols, the source's instantiation and the corrected one agree |
| Runner.SymbolHandlerFails | lib/tty/runner.rb:164 | as written, a Symbol handler always fails with `new` undefined for the Symbol; corrected, it resolves like its String |
| Runner.RootStringHandlerFails | lib/tty/runner.rb:167 | as written, a String handler on the root always fails; corrected, it names a top-level constant of the namespace |
| Runner.ArgsFor | lib/tty/runner.rb:185-189 | at most one argument is passed |
| Runner.ArgsOnlyForArityOne | lib/tty/runner.rb:185-189 | an argument is passed exactly for arity one, and it is the leftover tokens |
| Runner.RunnableArgs | lib/tty/runner.rb:178-190 | a callable's own arity decides; an object's arity comes from the method named by the action, and a missing method fails |
| Runner.Invoke | lib/tty/runner.rb:125-131 | the handler is split, instantiated and sent the split action: a failed instantiation is the failure, otherwise it succeeds exactly when the arguments can be found, sending the instance the action with those arguments; an arity-one callable receives the leftover tokens |
| Runner.LongestName | lib/tty/runner.rb:197 | the width is the length of the longest child name, and 0 when there are none |
| Runner.RawLinesCover | lib/tty/runner.rb:198-203 | every non-empty name gets its line |
| Runner.RawLinesFrom | lib/tty/runner.rb:198-203 | every line belongs to a non-empty name |
| Runner.LineLength | lib/tty/runner.rb:200-201 | every line is as long as two spaces, the prefix with its space, and the widest name |
| Runner.UsageLines | lib/tty/runner.rb:195-206 | the listing is sorted, is a permutation of the lines in child order, has one line per non-empty child name and only those, and all lines have one length |
| Runner.Usage | lib/tty/runner.rb:206 | the usage text starts with `Commands:` and a newline |
| Runner.UsageIs | lib/tty/runner.rb:204-206 | the usage text is fixed by any ascending arrangement of the lines |
| Runner.Puts | lib/tty/runner.rb:113 | `puts` writes the text and ends it with exactly one newline, adding one only when it is missing |
| Runner.Dispatch | lib/tty/runner.rb:109-117 | an invocation happens only for a found node with a handler; a found node without one prints its usage; an unmatched line prints the not-found report; nothing happens exactly when nothing was found but something matched |
| Runner.DispatchOutcomes | lib/tty/runner.rb:107-117 | after `parse` from any parser state, the handler found is invoked with every leftover the parser holds, a node without one prints its usage under the typed prefix, the unknown command is reported from every token the parser holds, and the silent branch never happens |
| Runner.Call | lib/tty/runner.rb:106-118 | a call changes neither the tree nor the namespace |
| Runner.CallAsWritten | lib/tty/runner.rb:106-118 | a call as written changes neither the tree nor the namespace, only the parser state |
| Runner.CallOutcomes | lib/tty/runner.rb:107-117 | with a parser per call, the handler found is invoked with this call's leftovers, a node without one prints its usage under the typed prefix, the unknown command is reported from this call's tokens, and the silent branch never happens |
| Runner.CallOutcomesAsWritten | lib/tty/runner.rb:107-117 | as written, the handler receives every leftover the instance's parser ever collected and the unknown command is reported from every token it ever matched; the silent branch never happens |
| Runner.CallForgetsHistory | lib/tty/runner.rb:107 | with a parser per call, the outcome does not depend on earlier calls |
| Runner.Run | lib/tty/runner.rb:46-48 | `run` is a new instance called once, with the source's instantiation; a failed construction is its failure |
| Runner.RunCorrected | lib/tty/runner.rb:46-48 | the corrected run fails as `run` does when construction fails |
| Runner.RunOutcomes | lib/tty/runner.rb:46-48 | a run starts from a fresh parser, so it invokes the handler found with this line's leftovers, prints the usage of a node without one, or reports this line's unknown command; the corrected run differs only in how the handler is instantiated |
| Runner.UsageExample | spec/unit/run_spec.rb:133-141 | top-level `foo`, `bar` and `qux`, declared in that order, list as `bar`, `foo`, `qux` |
| Runner.UsagePadsShortNames | lib/tty/runner.rb:200-201 | under `foo bar baz`, `qux` is padded to the width of `quux`, keeping a trailing space, and sorts after it |
| Runner.NamespaceExample | spec/unit/namespace_spec.rb:47-50 | a `baz_command` handler at `foo bar baz` under `MyCLI::Commands` instantiates `MyCLI::Commands::Foo::Bar::BazCommand` |
| Runner.UnknownBelowMatch | spec/unit/run_spec.rb:77-81 | `foo bar extra`, where `bar` has children but no `extra`, reports `Command 'foo bar extra' not found` |
| Runner.FirstUnmatchedCall | lib/tty/runner.rb:116 | on a fresh instance, an unmatched call reports its own first token and leaves it in the parser |
| Runner.StaleUnknownCommand | lib/tty/runner.rb:95 | after an unmatched call, a later unmatched call on the same instance reports the earlier token as written, and its own token when the parser is fresh |
| Runner.StaleExample | lib/tty/runner/parser.rb:35-37 | calling `nope` and then `zzz` on one instance reports `nope` twice as written, and `zzz` the second time when corrected |

## Left out

- `interceptor.rb` is not part of this model. It is built on an option-parsing DSL that is not modelled here. It rewrites methods, writes to standard error and exits the process.
- The `Monitor` lock around invocation is left out. It concerns concurrency only.
- I/O is left out: the output stream, the `ARGV`/`ENV` defaults, `program`/`program_name` from `$0`, and the unused `env`. Output is the text `puts` would write.
- The `inherited` hook, which copies class-level settings to a subclass, is left out. It is metaprogramming.
- The effect of `Kernel.require` is left out. The registry is assumed to already hold every constant a loaded file defines.
- `File.expand_path` is a function parameter. `File.join` is modelled by `Loader.FileJoin`, which follows Ruby's rule where two parts meet. The `ArgumentError` `File.join` raises for a part holding a NUL character is left out.
- Ruby reflection is given as data: `respond_to?(:call)`, `respond_to?(:arity)` and `method(...).arity`.
- Constants.Resolve: the first segment of a path is looked up in the scope, then at the top level, and each later segment under the scope reached only. Constants inherited from superclasses or included modules are not searched.
- Constants.ConstGetPath: the contract states the wrong-name cases and what a success means. The `TypeError` for a value met before the path ends is stated for `::`-joined names, by `Constants.WalkJoin` and `Constants.ValueStopsPath`, not for arbitrary path text.
- Constants.Resolve: a constant name must start with an ASCII capital letter (`Constants.IsUpper`). Ruby 2.6 and later also accept a non-ASCII capital, so `Ärger` is a wrong constant name here but a constant name in Ruby. Later characters may be any non-ASCII character, as in Ruby.
- Constants.ConstGet: a success does not mean that every camelcased name is a constant name. A name holding `::` stands for several segments, because Ruby reads the joined text back at its `::`s. A success means the joined path is well formed (`Constants.WellFormedPath`).
- The `ArgumentError` that `const_get` raises for a path in an encoding that is not ASCII-compatible is left out. Strings here are sequences of characters with no encoding.
- Declarations that never finish, or that raise from Ruby code the model does not see, are left out. A `Decl` script is a finite tree, so `Router.Eval` always ends. Two cases follow:
  - A runner that mounts itself, directly or through another runner, makes `new` recurse until Ruby raises `SystemStackError`. `mount` runs the mounted block with `instance_exec` (lib/tty/runner/router.rb:75) each time `new` evaluates it (lib/tty/runner.rb:92-93). The model cannot write such a runner down.
  - An `on` name given as a proc that raises when `convert` calls it (lib/tty/runner/router.rb:105) cannot be expressed. `Router.ProcName` carries the text the proc returns.
- Inflection.Capitalize: case mapping covers ASCII letters only. Ruby's `capitalize!` also maps other letters (`"éa"` gives `"Éa"`, and `"ß"` gives `"Ss"`, changing the length). Command names are ASCII in practice.
- Inflection.Camelcase: inherits the ASCII-only case mapping of `Inflection.Capitalize`.
- Runner.RunnableArgs: a callable is taken to answer whatever action it is sent, with its own arity. The `NoMethodError` a proc raises for an action other than `call` is not modelled.
- Runner.ArgsFor: for arity 2 and above the source passes nothing (`*nil`). The `ArgumentError` the handler then raises when invoked is not modelled. The handler's own body is not modelled either.
- Runner.NewObject: the `NoMethodError` for `new` on a module names the module by the relative name joined from the segments, not by Ruby's fully qualified module name.
- `Errors.Message` gives the exception texts the source formats. Ruby's own texts for `NameError` and `NoMethodError` are approximated.
- String handlers are never handed to the loader when the namespace lookup fails. `to_runnable_class` calls only `const_get`, and its `NameError` escapes. `Loader` is modelled on its own, as a public API that `runner.rb` does not call.
- Test expectations the code does not implement are left out:
  - descriptions (`desc`);
  - `commands_dir`;
  - a "missing command action" error;
  - handlers receiving the output stream;
  - usage lines without the trailing padding (the code pads, see `Runner.UsagePadsShortNames`);
  - `on` with both `run:` and a block keeping its nested children (the code drops them, see `Router.OnBlockAndRunDropsNested`).
- `parse` never changes the caller's argv. All sequences here are immutable values, so there is nothing to state.

## Findings

| source | as written | input that shows it | evidently intended | confidence | as-written member | corrected member |
|---|---|---|---|---|---|---|
| lib/tty/runner.rb:164 | `to_runnable_class` returns a Symbol handler unchanged, and `instantiate_command` then calls `new` on the Symbol | `on "foo", run: :foo_command`, then `call(["foo"])` | a Symbol names a class just like its String, as the shared `when ::String, ::Symbol` branch suggests | not executed; high | Runner.InstantiateAsWritten, Runner.SymbolHandlerFails, Runner.Run | Runner.Instantiate, Runner.RunCorrected |
| lib/tty/runner.rb:167 | at the root, `context.parent` is `EMPTY`, and `EMPTY.root?` sends `empty?` to nil | a top-level `run "foo_command"` in `commands`, then `call([])` | a handler named on the root resolves a top-level constant of the namespace | not executed; medium | Runner.AncestorsAsWritten, Runner.RootStringHandlerFails, Runner.Run | Runner.AncestorNames, Runner.Instantiate, Runner.RunCorrected |
| lib/tty/runner/parser.rb:35-37 | one parser per instance keeps appending to `matched_argv` and `remaining_argv`, so a second `call` reports the first call's tokens and passes stale leftovers | `r = A.new; r.call(["nope"]); r.call(["zzz"])` prints `Command 'nope' not found` twice | each call reports and passes only its own tokens, as with the class-level `run` | not executed; medium | Runner.CallAsWritten, Runner.StaleExample | Runner.Call |
