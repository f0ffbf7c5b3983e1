# blargs: a Dafny model of the command-line string parser

blargs turns one raw command-line string into a Result. A Result maps flag
names to Values (`Bool`, `Str` or a nested `Group` Result) and keeps the
positional words, the `$` entry, in input order. Parsing has two pure stages:

- **Scanner** (`scanner.dfy`, module `Scanner`). It splits the string into
  lexical units: bare words, quoted words, `--long` and `-short` markers
  with an optional `=value`, and the brackets `[` and `]`. It also handles:
  - both quote kinds;
  - backslash escapes before whitespace and quotes;
  - unterminated quotes, which close at end of input;
  - a doubled closing quote of the same kind, which is dropped (`"value"'`
    instead leaves an empty quoted word after `value`).
- **Tree builder** (`builder.dfy`, module `TreeBuilder`). A recursive-descent
  consumer of the units. It:
  - assigns Booleans and Strings;
  - strips `no-`;
  - expands short clusters;
  - lets a single-letter short flag take the following word;
  - descends into `[ ... ]` for a flag that is directly followed by one;
  - closes an unterminated group at end of input.

`TreeBuilder.Parse` composes the two stages. The behaviour is the one the
library's test suite fixes (`test/index.js`); the implementation module itself
is not part of this model.

The other modules state and prove what the parser does:

- `Results`: the Result and its update operations.
- `Printer`: writes units back as text and proves the scanner reads them
  back (`Printer.ScanRender`), whatever the spacing next to brackets.
- `Surface`: what the scanner makes of each kind of written unit.
- `Groups`: token sequences viewed as trees of bracket groups. `Eval` is an
  independent, level-by-level reference for the builder, and
  `Groups.BuildFlatten` proves the builder agrees with it.
- `BuilderFacts`: per-construct laws of the builder (booleans, negation,
  clusters, value taking, positionals).
- `Suites`: every test of the suite as a lemma. Each lemma states the
  complete Result that the test's command line parses to.

Design decisions (choices the tests do not fix, or where the prose
description of the library and its tests disagree; the tests win):

- **Brackets.** A `[` is a delimiter only where a unit begins. A `]` is a
  delimiter anywhere outside quotes, but only while a group is open (scanner
  depth above zero). At top level, inside a unit, both are ordinary text.
  This keeps the brackets in `--one=...{}[]123...` (test/index.js:31-32,
  68-69) and still lets `--long=short]` close the group in
  `-t [-n -e --long=short]` (test/index.js:107, 124). The library's
  description says brackets always split off touching text; those two tests
  keep a `[]` that sits inside a word, so the model follows them there.
- **A stray `]`.** A `]` that begins a unit while no group is open closes
  nothing and is dropped by the scanner, as the library's description says
  (`Surface.ScanStrayClose`, `Surface.ParseIgnoresStrayClose`): `a ] b`
  parses to `$ = [a, b]`. The tests do not exercise this case.
- **A `[` no flag asked for.** The library's description makes such a `[`
  a no-op and lets the next `]` end whatever group is open. The model
  instead pairs the stray `[` with its matching `]` and ignores both, so the
  units between them are read into the Result around them and nothing in
  them is lost (`Groups.StrayGroup`): `a [ b ] c` parses to
  `$ = [a, b, c]`. This pairing is the model's own choice, and it differs
  from the description once brackets nest: `-t [ a [ b ] c ]` gives
  `t = {$: [a, b, c]}`, where the description would give `t = {$: [a, b]}`
  and a top-level `$ = [c]`. The same
  holds after a unit that does not take a group, such as a negated flag or
  a multi-letter cluster: `-no-t [ -n ]` sets `t` to `false` and `n` to
  `true` at the same level (`Groups.UntakenGroup`). The tests do not
  exercise this case either.
- **Negated flags.** Always `false` unless written with `=value`. They
  never take a following word or group. With `=value` the two forms differ:
  `-no-x=v` drops the `no-` and assigns `v` to `x`
  (`BuilderFacts.ShortNegatedAssigns`), while `--no-x=v` keeps it and
  assigns `v` to `no-x` (`BuilderFacts.LongAssigns`).
- **`=value` wins.** It takes precedence over a following group, which takes
  precedence over a following word. `--no-x=v` assigns `v` to `no-x`.
- **Cluster with `=`.** A multi-letter cluster with `=value` expands to
  Booleans and the value is dropped (`BuilderFacts.ClusterAssignDropsValue`).
- **Empty marker names.** A marker with an empty name (`-`, `--`, `--=x`) is
  a bare word.
- **Bare words.** They stop at whitespace and quotes, at `]` inside a group,
  and at `=` in a flag name. A bare value after `=` stops at the same
  characters, a quote included: `--msg=don't` gives `msg = "don"`, and the
  unterminated `'t` becomes the positional `t`. The library's description
  ends a bare value only at whitespace. A backslash is dropped only before whitespace
  or a quote.
- **Repeated flags.** Whatever a later unit sets a flag to replaces what
  the flag held, whichever units did the setting, and a flag no later unit
  sets keeps its value. This holds because the builder never reads the
  Result built so far: each step only sets flags and appends words
  (`BuilderFacts.BuildFrame`, `BuilderFacts.LaterWriteWins`).
- **No failure path.** The library's description allows a parse failure for
  input that cannot be tokenized. Under this grammar every string tokenizes,
  so `Parse` is total and has no failure path.

## Model

| member | source | states |
|---|---|---|
| Results.SetFlag | test/index.js:24-29 | assigning a flag makes exactly that key hold the value; every other flag and `$` are unchanged |
| Results.Push | test/index.js:79-85 | a positional word is appended at the end of `$`; earlier positionals and all flags are unchanged |
| Results.SetEach | test/index.js:43-60 | every letter of a cluster becomes its own flag with the given Boolean; the keys are the old keys plus the letters; other flags and `$` are unchanged |
| Scanner.ReadBare | test/index.js:30-33 | an unquoted run ends only at a character that stops it; the rest of the input is a suffix; a run that starts with a non-stopping character is non-empty |
| Scanner.ReadQuoted | test/index.js:181-188 | what follows a quoted unit is a suffix of the input; a quote that is never closed consumes the whole rest of the input |
| Scanner.ReadValue | test/index.js:24-33 | what follows the value after `=` is a suffix of the input; a quoted value always consumes input; a bare value ends only at a character that stops it and is non-empty when it starts with one that does not |
| Scanner.ReadFlag | test/index.js:24-29 | a flag name is non-empty and always consumes input; its first character is the input's own unless escaped |
| Scanner.Scan | test/index.js:88-168 | the units are well nested from the starting depth (no `]` below depth zero), every marker has a non-empty name, and no short cluster begins with `-` |
| TreeBuilder.StripNo | test/index.js:18-23 | a name is negated exactly when it is longer than `no-` and starts with it; the base name is what follows the prefix |
| TreeBuilder.Decide | test/index.js:36-70 | only words become positionals; only a single-letter short flag without `=value` takes a following word; only a flag without `=value` takes a following group; only short markers expand into letters |
| TreeBuilder.Build | test/index.js:176-180 | the builder never hands back more units than it got, and at top level it always runs to the end of input |
| TreeBuilder.BuildLeavesSuffix | test/index.js:88-152 | what the builder hands back after a group is a suffix of its input |
| TreeBuilder.BuildPositionals | test/index.js:74-105 | every positional the builder adds is the text of a word unit of its input; positionals are never invented |
| TreeBuilder.Parse | test/index.js:7-13 | the entry point from a raw string to a Result; every positional of the Result is a word of the input |
| Groups.TakesGroupWhen | test/index.js:88-168 | a marker takes the following group exactly when it is a non-negated long flag or a single-letter short flag, in both cases without `=value` |
| Groups.BuildFlatten | test/index.js:88-168 | on any well-formed tree of items, the builder computes exactly what the independent level-by-level evaluator `Eval` computes |
| Groups.ClosedGroup | test/index.js:89-105 | a group's units up to its `]` build the group's own Result and leave exactly the units after the `]` |
| Groups.GroupScope | test/index.js:96-105 | a flag followed by `[ body ]` gets the Result of the body parsed as a whole input on its own; the parent receives none of the group's flags or positionals and continues after the `]` |
| Groups.UnclosedGroup | test/index.js:176-180 | a group whose `]` never comes still gives its flag the Result of everything after the `[` |
| Groups.StrayGroup | test/index.js:88-105 | a `[ body ]` no flag asked for is transparent: the body is read into the current Result exactly as it would be on its own, and reading continues after the `]` |
| Groups.UntakenGroup | test/index.js:49-60 | a unit that does not take the group after it, such as a negated flag, acts on its own, and the group is then read into the same Result as if unbracketed |
| BuilderFacts.BuildExtends | test/index.js:96-105 | the builder never removes a flag and only appends to `$`, so earlier positionals keep their places |
| BuilderFacts.BuildWords | test/index.js:79-85 | words no flag takes are appended to `$` in input order, and nothing else changes |
| BuilderFacts.BuildSingles | test/index.js:37-54 | `-a -b -c` sets each letter `true` and `-no-a -no-b -no-c` sets each `false` |
| BuilderFacts.ClusterNeverTakes | test/index.js:123-131 | a multi-letter cluster never takes the following unit: each letter is `true` and the unit after it is read on its own |
| BuilderFacts.ClusterAsSingles | test/index.js:43-48 | `-abc` sets the same flags as `-a -b -c` |
| BuilderFacts.NegatedClusterAsSingles | test/index.js:55-60 | `-no-abc` sets the same flags as `-no-a -no-b -no-c` |
| BuilderFacts.NegatedNeverTakes | test/index.js:49-60 | a negated cluster sets every letter `false` and never takes the following unit |
| BuilderFacts.ShortTakesWord | test/index.js:61-70 | a single-letter short flag followed by a word takes it as its String, and the word does not reach `$` |
| BuilderFacts.ShortAloneIsTrue | test/index.js:153-158 | a single-letter short flag followed by a marker, a `]` or the end of input is `true` and consumes nothing else |
| BuilderFacts.LongPresent | test/index.js:12-17 | `--name` with no group after it is `true` at `name` when `name` is not itself `no-` something |
| BuilderFacts.LongNegated | test/index.js:18-23 | `--no-name` is `false` at `name` for every non-empty `name`, whatever follows it |
| BuilderFacts.LastWriteWins | test/index.js:24-29 | two `--name=value` units in a row give the Result the second one alone gives |
| BuilderFacts.BuildFrame | test/index.js:12-29 | the builder never reads the Result built so far: reading units into any Result lays what those units alone build over it, with the same units left over |
| BuilderFacts.LaterWriteWins | test/index.js:24-29 | a flag the rest of the input sets ends with the value the rest sets, whatever it held before; a flag it never sets keeps its earlier value; its positionals follow the earlier ones |
| BuilderFacts.AssignThenRest | test/index.js:24-29 | after `--name=value`, `name` ends as `value` unless a later unit at the same level sets it, and then as that unit says |
| BuilderFacts.ShortNegatedAssigns | test/index.js:49-54 | `-no-c=value` drops the `no-` and is the String `value` at the letter `c` |
| BuilderFacts.ClusterAssignDropsValue | test/index.js:43-48 | a multi-letter cluster with `=value` sets each of its letters `true` and the value is dropped |
| BuilderFacts.LongAssigns | test/index.js:24-29 | `--name=value` is the String `value` at `name` and consumes nothing else |
| BuilderFacts.ShortAssigns | test/index.js:172-175 | `-c=value` is the String `value` at the single letter `c` |
| BuilderFacts.BuildClose | test/index.js:106-112 | inside a group a `]` ends the group's Result and hands back what follows it; a `Close` unit at top level is skipped by the builder (the scanner never produces one there, see `Surface.ScanStrayClose`) |
| BuilderFacts.WordIsPositional | test/index.js:74-78 | a word no flag takes is appended to `$` and nothing else changes |
| Printer.ReadBareLiteral | test/index.js:30-33 | an unquoted run reads back exactly the literal word written, stopping at the character after it |
| Printer.ReadQuotedEscape | test/index.js:24-29 | a double-quoted unit reads back exactly the word escaped into it and resumes after the closing quote |
| Printer.ReadValueRender | test/index.js:24-33 | the value after `=` reads back as written, whether printed bare or quoted |
| Printer.ReadFlagRender | test/index.js:24-33 | a printed flag name with its optional `=value` reads back as the same name and value |
| Printer.ScanToken | test/index.js:88-152 | the scanner reads any printed unit back as that unit and moves the bracket depth as the unit does |
| Printer.ScanRender | test/index.js:88-152 | scanning the printed text of any valid unit sequence gives that sequence back, in any layout that drops spaces only next to brackets |
| Surface.ParseRendered | test/index.js:88-152 | spacing next to brackets never changes the parse: the parse of any printed unit sequence is the builder's Result for those units |
| Surface.ReadQuotedPlain | test/index.js:189-198 | a quoted run ends at its closing quote; one more quote of the same kind right after it is dropped |
| Surface.ReadQuotedOpen | test/index.js:181-188 | a quote that is never closed runs to the end of the input |
| Surface.ScanLongValue | test/index.js:30-33 | `--name=value` with an unquoted value is one marker carrying the value, punctuation included |
| Surface.ScanLongQuoted | test/index.js:24-29 | `--name="value"` is one marker whose value is the text between the quotes, whitespace kept |
| Surface.ScanShortValue | test/index.js:172-175 | `-c=value` is one short marker carrying the value |
| Surface.ScanBare | test/index.js:73-85 | an unquoted word that is not a marker is one word unit |
| Surface.ScanQuoted | test/index.js:189-198 | a quoted word is one word unit, and a doubled closing quote is dropped |
| Surface.ScanQuotedOpen | test/index.js:181-188 | an unterminated quoted word is the last unit of the input |
| Surface.ScanOpen | test/index.js:106-122 | a `[` at the start of a unit opens a group, whether or not it touches text |
| Surface.ScanClose | test/index.js:106-122 | inside a group a `]` closes it, whether or not it touches text |
| Surface.ScanStrayClose | test/index.js:106-112 | with no group open, a `]` that begins a unit is dropped |
| Surface.ParseIgnoresStrayClose | test/index.js:106-112 | a stray `]` at the front of the input does not change the parse |
| Surface.StrayCloseBetweenWords | test/index.js:79-85 | `x ] y` parses to the two positionals `x`, `y` and no flags |
| Surface.StrayGroupBetweenWords | test/index.js:79-85 | `x [ y ] z` parses to the three positionals `x`, `y`, `z`, in order, and no flags |
| Suites.LongFlagsAreTrue | test/index.js:12-17 | `--one --two --three` parses to three `true` flags and an empty `$` |
| Suites.NegatedLongFlagsAreFalse | test/index.js:18-23 | `--no-one --no-two --no-three` parses to `one`, `two`, `three` all `false` |
| Suites.LongAssignments | test/index.js:24-29 | `--one=two --two="three four" --three=val,val,val` parses to the three Strings, quotes stripped, space kept |
| Suites.LongComplexValue | test/index.js:30-33 | `--one=` followed by the punctuation string parses to that exact string at `one` |
| Suites.ShortFlagsAreTrue | test/index.js:37-42 | `-o -n -e` parses to three `true` letters |
| Suites.ShortClusterIsTrue | test/index.js:43-48 | `-one` parses to `o`, `n`, `e` all `true` |
| Suites.NegatedShortFlagsAreFalse | test/index.js:49-54 | `-no-o -no-n -no-e` parses to three `false` letters |
| Suites.NegatedShortClusterIsFalse | test/index.js:55-60 | `-no-one` parses to `o`, `n`, `e` all `false` |
| Suites.ShortAssignments | test/index.js:61-66 | `-o two -n "three four" -e val,val,val` gives each letter the following word as its String |
| Suites.ShortComplexValue | test/index.js:67-70 | `-o` followed by the punctuation string parses to that exact string at `o` |
| Suites.SinglePositional | test/index.js:74-78 | `argument` parses to `$ = ["argument"]` and no flags |
| Suites.MultiplePositionals | test/index.js:79-85 | three words parse to `$` holding them in order |
| Suites.GroupSpaced | test/index.js:89-95 | `-t [ -n -e --long=short ]` gives `t` a child Result with `n`, `e` true and `long` = `short` |
| Suites.GroupGlued | test/index.js:106-112 | the same group written without spaces next to the brackets gives the same child Result |
| Suites.GroupSpacedWithPositionals | test/index.js:96-105 | positionals inside the group go to the child's `$`, in order, not the parent's |
| Suites.GroupGluedWithPositionals | test/index.js:113-122 | the same with the brackets touching the words |
| Suites.GroupGluedEndingInValue | test/index.js:123-132 | `-t [-new pos --long=short]`: the cluster sets `n`, `e`, `w`, and `pos` is the child's positional |
| Suites.GroupFrontSpacedEndingInValue | test/index.js:133-142 | the same with a space after `[` |
| Suites.GroupTailSpacedEndingInValue | test/index.js:143-152 | the same with a space before `]` |
| Suites.GroupsDepthTwo | test/index.js:153-158 | `-z [ -Z [ -z ] ]` nests two child Results with `z` true innermost |
| Suites.GroupsDepthThree | test/index.js:159-168 | three nested child Results, each with its own positional |
| Suites.ShortAssignWithEquals | test/index.js:172-175 | `-Z=two` gives `Z` the String `two` |
| Suites.DanglingGroup | test/index.js:176-180 | `-Z [ -z pos` gives `Z` a child Result with `z` = `pos` although the group never closes |
| Suites.DanglingDoubleQuote | test/index.js:181-184 | `-Z "value` gives `Z` the String `value` |
| Suites.DanglingSingleQuote | test/index.js:185-188 | `-Z 'value` gives `Z` the String `value` |
| Suites.StrayDoubleQuote | test/index.js:189-193 | `"value""` parses to exactly one positional `value` |
| Suites.StraySingleQuote | test/index.js:194-198 | `'value''` parses to exactly one positional `value` |

## Left out

- The test framework setup and module loading (test/index.js:3-9) are foreign
  library calls, not behaviour.
- How the raw string is obtained, for example by joining process arguments,
  is input outside the parser; `Parse` takes the string as a parameter.
- JavaScript object details. A Result is a `map<string, Value>` plus a
  separate `seq<string>` for `$`. A flag named `$` (`--$`) is an ordinary key
  of the flag map and leaves the positionals alone. On the library's object
  both would share the one `$` property; that collision is not modelled.
- Stack depth on deeply nested input is a runtime concern. The model's
  recursion is unbounded.
- Scanner.Scan: the scanner is a function from the whole string to a unit
  sequence, run before the builder. How the implementation interleaves
  scanning and building is not part of this model. No scanning decision in
  the model depends on the builder.
- TreeBuilder.Decide: the choices the tests leave open are fixed as listed
  above. These are a multi-letter cluster with `=value`, a negated single
  letter before a word, a negated single letter before a group (the group
  is then read at the same level, not discarded), `--no-x=v` (assigns to
  `no-x`) and `-no-x=v` (assigns to `x`). They are design decisions, not
  observed behaviour.
- TreeBuilder.Build: a `[` no flag asked for is paired with its matching
  `]`, and both are ignored. The library's description instead lets the
  next `]` end the enclosing group, so with nested brackets
  (`-t [ a [ b ] c ]`) the model gives `t = {$: [a, b, c]}` where the
  description gives `t = {$: [a, b]}` and a top-level `$ = [c]`.
- Scanner.ReadValue: a bare value after `=` stops at a quote as well as at
  whitespace, unlike the description's whitespace-only rule. `--msg=don't`
  gives `msg = "don"` and a positional `t`, not `msg = "don't"`.
