/** The parser's behaviour on the command lines of the library's test suite,
    one lemma per scenario, each stating the whole Result.

    A command line is written as its space-separated parts: `CommandLine(["-t",
    "[-n", "-e", "--long=short]"])` is `-t [-n -e --long=short]`. Each
    scenario is proved in two steps. A `...Units` lemma reads a line of the
    scenario's shape, its names and values left open, into units, one part
    at a time from the last; the scenario lemma then names the test's own
    text and takes the units to a Result with the builder's lemmas. */
module Suites {
  import opened Lexicon
  import opened Scanner
  import opened Printer
  import opened Results
  import opened TreeBuilder
  import opened BuilderFacts
  import opened Groups
  import opened Surface

  const T := Bool(true)
  const F := Bool(false)

  /** The parts joined by single spaces. */
  function CommandLine(parts: seq<string>): string {
    if |parts| == 0 then "" else parts[0] + Gaps(parts[1..])
  }

  /** Each part preceded by one space. */
  function Gaps(parts: seq<string>): string
    decreases |parts|
  {
    if |parts| == 0 then "" else " " + (parts[0] + Gaps(parts[1..]))
  }

  /** A command line is its first part, then the others each after a space. */
  lemma CommandLineCons(p: string, ps: seq<string>)
    ensures CommandLine([p] + ps) == p + Gaps(ps)
  {
    assert ([p] + ps)[1..] == ps;
  }

  /** One more part in front: a space, the part, then the others. */
  lemma GapsCons(p: string, ps: seq<string>)
    ensures Gaps([p] + ps) == " " + (p + Gaps(ps))
  {
    assert ([p] + ps)[1..] == ps;
  }

  /** A flag name, or short cluster, that reads back as written at depth `d`. */
  predicate Name(n: string, d: nat) {
    |n| > 0 && n[0] != '-' && Unquoted(n, d > 0, true)
  }

  /** Visible characters other than quotes and the backslash, and neither a
      `]` inside a group nor a `=` inside a flag name: none of them ends an
      unquoted run. Stated with character ranges, which are cheap to check
      on a written-out word. */
  predicate Printable(w: string, inGroup: bool, inName: bool) {
    forall c | c in w ::
      '!' <= c <= '~' && c != '"' && c != '\'' && c != '\\' && (!inGroup || c != ']') && (!inName || c != '=')
  }

  /** A printable word has no character that ends an unquoted run. */
  lemma PrintableUnquoted(w: string, inGroup: bool, inName: bool)
    requires Printable(w, inGroup, inName)
    ensures Unquoted(w, inGroup, inName)
  {
  }

  // ----- one part at a time; `rest` is what follows the part -----

  lemma Space(x: string, d: nat, ts: seq<Token>)
    requires Scan(x, d) == ts
    ensures Scan(" " + x, d) == ts
  {
    ScanSpace(x, d);
  }

  lemma OpenThen(rest: string, d: nat, inner: nat, ts: seq<Token>)
    requires inner == d + 1 && Scan(rest, inner) == ts
    ensures Scan("[" + rest, d) == [Open] + ts
  {
    ScanOpen(rest, d);
  }

  lemma CloseThen(rest: string, d: nat, outer: nat, ts: seq<Token>)
    requires d == outer + 1 && Scan(rest, outer) == ts
    ensures Scan("]" + rest, d) == [Close] + ts
  {
    ScanClose(rest, d);
  }

  /** A part that starts with `[`, such as `[-n`. */
  lemma OpenGlued(u: string, inner: string, d: nat, di: nat, rest: string, ts: seq<Token>)
    requires u == "[" + inner && di == d + 1 && Scan(inner + rest, di) == ts
    ensures Scan(u + rest, d) == [Open] + ts
  {
    Regroup("[", inner, rest);
    ScanOpen(inner + rest, d);
  }

  /** A part that ends with `]`, such as `--long=short]`. */
  lemma CloseGlued(u: string, inner: string, d: nat, rest: string, ts: seq<Token>)
    requires u == inner + "]" && Scan(inner + ("]" + rest), d) == ts
    ensures Scan(u + rest, d) == ts
  {
    Regroup(inner, "]", rest);
  }

  lemma LongUnit(u: string, n: string, d: nat, rest: string, ts: seq<Token>)
    requires u == "--" + n && Name(n, d) && Boundary(rest, d) && Scan(rest, d) == ts
    ensures Scan(u + rest, d) == [Long(n, None)] + ts
  {
    ScanLongFlag(n, d, rest);
  }

  lemma LongValueUnit(u: string, n: string, v: string, d: nat, rest: string, ts: seq<Token>)
    requires u == "--" + (n + ("=" + v)) && Name(n, d) && Literal(v, d > 0, false)
    requires Boundary(rest, d) && Scan(rest, d) == ts
    ensures Scan(u + rest, d) == [Long(n, Some(v))] + ts
  {
    Regroup("--", n, "=" + v);
    Regroup("--" + n, "=", v);
    ScanLongValue(n, v, d, rest);
  }

  lemma LongQuotedUnit(u: string, n: string, v: string, d: nat, rest: string, ts: seq<Token>)
    requires u == "--" + (n + ("=" + ("\"" + (v + "\"")))) && Name(n, d) && QuoteFree('"', v)
    requires (rest == [] || rest[0] != '"') && Scan(rest, d) == ts
    ensures Scan(u + rest, d) == [Long(n, Some(v))] + ts
  {
    Regroup("--", n, "=" + ("\"" + (v + "\"")));
    Regroup("--" + n, "=", "\"" + (v + "\""));
    Regroup("--" + n + "=", "\"", v + "\"");
    Regroup("--" + n + "=" + "\"", v, "\"");
    ScanLongQuoted(n, '"', v, d, rest);
  }

  lemma ShortUnit(u: string, c: string, d: nat, rest: string, ts: seq<Token>)
    requires u == "-" + c && Name(c, d) && Boundary(rest, d) && Scan(rest, d) == ts
    ensures Scan(u + rest, d) == [Short(c, None)] + ts
  {
    ScanShortFlag(c, d, rest);
  }

  lemma ShortValueUnit(u: string, c: string, v: string, d: nat, rest: string, ts: seq<Token>)
    requires u == "-" + (c + ("=" + v)) && Name(c, d) && Literal(v, d > 0, false)
    requires Boundary(rest, d) && Scan(rest, d) == ts
    ensures Scan(u + rest, d) == [Short(c, Some(v))] + ts
  {
    Regroup("-", c, "=" + v);
    Regroup("-" + c, "=", v);
    ScanShortValue(c, v, d, rest);
  }

  lemma WordUnit(u: string, d: nat, rest: string, ts: seq<Token>)
    requires BareWord(u, d) && Boundary(rest, d) && Scan(rest, d) == ts
    ensures Scan(u + rest, d) == [Word(u)] + ts
  {
    ScanBare(u, d, rest);
  }

  lemma QuotedUnit(u: string, q: char, w: string, d: nat, rest: string, ts: seq<Token>)
    requires u == [q] + (w + [q]) && IsQuote(q) && QuoteFree(q, w)
    requires (rest == [] || rest[0] != q) && Scan(rest, d) == ts
    ensures Scan(u + rest, d) == [Word(w)] + ts
  {
    Regroup([q], w, [q]);
    ScanQuoted(q, w, d, rest);
  }

  /** A quoted part with one quote too many at its end. */
  lemma StrayQuoteUnit(u: string, q: char, w: string, d: nat, rest: string, ts: seq<Token>)
    requires u == [q] + (w + [q, q]) && IsQuote(q) && QuoteFree(q, w)
    requires Scan(rest, d) == ts
    ensures Scan(u + rest, d) == [Word(w)] + ts
  {
    assert [q, q] == [q] + [q];
    Regroup([q], w, [q] + [q]);
    Regroup([q] + w, [q], [q]);
    Regroup([q] + w + [q], [q], rest);
    ScanQuoted(q, w, d, [q] + rest);
    assert ([q] + rest)[1..] == rest;
  }

  /** A quoted last part whose closing quote never comes. */
  lemma OpenQuoteUnit(u: string, q: char, w: string, d: nat)
    requires u == [q] + w && IsQuote(q) && QuoteFree(q, w)
    ensures Scan(u + "", d) == [Word(w)] + []
  {
    assert u + "" == [q] + w;
    ScanQuotedOpen(q, w, d);
  }


  /** A long flag name that is not read as `no-` plus another name. */
  predicate Affirmative(n: string) {
    |n| > 0 && !StripNo(n).0
  }

  /** A single-letter flag followed by a group, in the right-nested form the
      scenarios use: the letter gets the group's Result. */
  lemma LetterGroupStep(x: char, s: seq<Token>, nested: bool, acc: Result)
    ensures Build([Short([x], None)] + ([Open] + s), nested, acc)
         == Build(Build(s, true, Empty).1, nested, SetFlag(acc, [x], Group(Build(s, true, Empty).0)))
  {
    var t := Short([x], None);
    NotNegated([x]);
    assert Decide(t, AGroup) == TakeGroup([x]);
    assert [t] + ([Open] + s) == [t, Open] + s;
    BuildGroupStep(t, s, nested, acc);
  }

  /** The punctuation-heavy value of the test suite, in pieces. Its one
      backslash comes before `/`, which it does not escape, so both
      characters stay. */
  const Punctuation := "~`!@#$%" + ("^&*()-_" + ("+=:;{}[" + ("]123|" + ("\\/" + ("?456<>" + "abcdef,.")))))

  lemma PunctuationHead()
    ensures Literal("~`!@#$%", false, false) && Literal("^&*()-_", false, false)
  {
    PrintableUnquoted("~`!@#$%", false, false);
    LiteralWhen("~`!@#$%", false, false);
    PrintableUnquoted("^&*()-_", false, false);
    LiteralWhen("^&*()-_", false, false);
  }

  lemma PunctuationMiddle()
    ensures Literal("+=:;{}[", false, false) && Literal("]123|", false, false)
  {
    PrintableUnquoted("+=:;{}[", false, false);
    LiteralWhen("+=:;{}[", false, false);
    PrintableUnquoted("]123|", false, false);
    LiteralWhen("]123|", false, false);
  }

  lemma PunctuationTail()
    ensures Literal("\\/", false, false) && Literal("?456<>", false, false) && Literal("abcdef,.", false, false)
  {
    LiteralPair('/', false, false);
    assert "\\/" == ['\\', '/'];
    PrintableUnquoted("?456<>", false, false);
    LiteralWhen("?456<>", false, false);
    PrintableUnquoted("abcdef,.", false, false);
    LiteralWhen("abcdef,.", false, false);
  }

  lemma PunctuationIsLiteral()
    ensures Literal(Punctuation, false, false) && BareWord(Punctuation, 0)
  {
    PunctuationHead();
    PunctuationMiddle();
    PunctuationTail();
    LiteralJoin("?456<>", "abcdef,.", false, false);
    LiteralJoin("\\/", "?456<>" + "abcdef,.", false, false);
    LiteralJoin("]123|", "\\/" + ("?456<>" + "abcdef,."), false, false);
    LiteralJoin("+=:;{}[", "]123|" + ("\\/" + ("?456<>" + "abcdef,.")), false, false);
    LiteralJoin("^&*()-_", "+=:;{}[" + ("]123|" + ("\\/" + ("?456<>" + "abcdef,."))), false, false);
    LiteralJoin("~`!@#$%", "^&*()-_" + ("+=:;{}[" + ("]123|" + ("\\/" + ("?456<>" + "abcdef,.")))), false, false);
  }

  /** Inside a group: a word, then a single letter, then the group's `]`. */
  lemma WordThenLetter(p: string, x: char, rest: seq<Token>)
    ensures Build([Word(p)] + ([Short([x], None)] + ([Close] + rest)), true, Empty)
         == (Result(map[[x] := T], [p]), rest)
  {
    var r1 := Result(map[], [p]);
    assert Empty.(positionals := Empty.positionals + [p]) == r1;
    WordIsPositional(p, [Short([x], None)] + ([Close] + rest), true, Empty);
    ShortAloneIsTrue(x, [Close] + rest, true, r1);
    assert SetFlag(r1, [x], T) == Result(map[[x] := T], [p]);
    BuildClose(rest, true, Result(map[[x] := T], [p]));
  }

  /** Inside a group: a word, then a single letter that takes the group
      after it. */
  lemma WordThenLetterGroup(p: string, x: char, s: seq<Token>, g: Result, after: seq<Token>)
    requires Build(s, true, Empty) == (g, after)
    ensures Build([Word(p)] + ([Short([x], None)] + ([Open] + s)), true, Empty)
         == Build(after, true, Result(map[[x] := Group(g)], [p]))
  {
    var r1 := Result(map[], [p]);
    assert Empty.(positionals := Empty.positionals + [p]) == r1;
    WordIsPositional(p, [Short([x], None)] + ([Open] + s), true, Empty);
    LetterGroupStep(x, s, true, r1);
    assert SetFlag(r1, [x], Group(g)) == Result(map[[x] := Group(g)], [p]);
  }

  /** Two single letters and then `--l=v`: each letter `true`, `l` the value. */
  lemma LettersThenAssign(x: char, y: char, l: string, v: string, rest: seq<Token>, nested: bool, acc: Result)
    ensures Build([Short([x], None)] + ([Short([y], None)] + ([Long(l, Some(v))] + rest)), nested, acc)
         == Build(rest, nested, acc.(flags := acc.flags[[x] := T][[y] := T][l := Str(v)]))
  {
    var r1 := SetFlag(acc, [x], T);
    var r2 := SetFlag(r1, [y], T);
    ShortAloneIsTrue(x, [Short([y], None)] + ([Long(l, Some(v))] + rest), nested, acc);
    ShortAloneIsTrue(y, [Long(l, Some(v))] + rest, nested, r1);
    LongAssigns(l, v, rest, nested, r2);
  }

  /** Expanding a three-letter cluster sets its letters one after another. */
  lemma SetEachThree(r: Result, x: char, y: char, z: char, b: bool)
    ensures SetEach(r, [x, y, z], b) == SetFlag(SetFlag(SetFlag(r, [x], Bool(b)), [y], Bool(b)), [z], Bool(b))
  {
    var r1 := SetFlag(r, [x], Bool(b));
    var r2 := SetFlag(r1, [y], Bool(b));
    assert SetEach(r, [x, y, z], b) == SetEach(r1, [y, z], b) by {
      assert [x, y, z][0] == x && [x, y, z][1..] == [y, z];
    }
    assert SetEach(r1, [y, z], b) == SetEach(r2, [z], b) by {
      assert [y, z][0] == y && [y, z][1..] == [z];
    }
    assert SetEach(r2, [z], b) == SetFlag(r2, [z], Bool(b)) by {
      assert [z][0] == z && [z][1..] == [];
    }
  }
  /** A three-letter cluster sets each of its letters `true`. */
  lemma ClusterOfThree(x: char, y: char, z: char, rest: seq<Token>, nested: bool, acc: Result)
    ensures Build([Short([x, y, z], None)] + rest, nested, acc)
         == Build(rest, nested, acc.(flags := acc.flags[[x] := T][[y] := T][[z] := T]))
  {
    NotNegated([x, y, z]);
    ClusterNeverTakes([x, y, z], rest, nested, acc);
    SetEachThree(acc, x, y, z, true);
  }


  // ===== what the scanner makes of each scenario's shape =====

  /** The parts of `--a --b --c` joined into one text. */
  lemma ThreeLongsLine(a: string, b: string, c: string)
    ensures CommandLine(["--" + a, "--" + b, "--" + c]) == "--" + a + (" " + ("--" + b + (" " + ("--" + c + ""))))
  {
    assert ["--" + a, "--" + b, "--" + c] == ["--" + a] + (["--" + b] + (["--" + c]));
    CommandLineCons("--" + a, ["--" + b] + (["--" + c]));
    GapsCons("--" + b, ["--" + c]);
    GapsCons("--" + c, []);
    assert ["--" + c] + [] == ["--" + c];
  }

  /** `--a --b --c`. */
  lemma ThreeLongsUnits(a: string, b: string, c: string)
    requires Name(a, 0) && Name(b, 0) && Name(c, 0)
    ensures Scan(CommandLine(["--" + a, "--" + b, "--" + c]), 0)
         == [Long(a, None)] + ([Long(b, None)] + ([Long(c, None)] + []))
  {
    var x3 := "--" + c + "";
    var x2 := "--" + b + (" " + x3);
    var x1 := "--" + a + (" " + x2);
    ThreeLongsLine(a, b, c);
    var ts3 := [Long(c, None)] + [];
    assert Scan(x3, 0) == ts3 by {
      LongUnit("--" + c, c, 0, "", []);
    }
    var ts2 := [Long(b, None)] + ts3;
    assert Scan(x2, 0) == ts2 by {
      Space(x3, 0, ts3);
      LongUnit("--" + b, b, 0, " " + x3, ts3);
    }
    var ts1 := [Long(a, None)] + ts2;
    assert Scan(x1, 0) == ts1 by {
      Space(x2, 0, ts2);
      LongUnit("--" + a, a, 0, " " + x2, ts2);
    }
  }

  /** The parts of `--a=v --b="w" --c=x` joined into one text. */
  lemma LongAssignLine(a: string, v: string, b: string, w: string, c: string, x: string)
    ensures CommandLine(["--" + (a + ("=" + v)), "--" + (b + ("=" + ("\"" + (w + "\"")))), "--" + (c + ("=" + x))]) == "--" + (a + ("=" + v)) + (" " + ("--" + (b + ("=" + ("\"" + (w + "\"")))) + (" " + ("--" + (c + ("=" + x)) + ""))))
  {
    assert ["--" + (a + ("=" + v)), "--" + (b + ("=" + ("\"" + (w + "\"")))), "--" + (c + ("=" + x))] == ["--" + (a + ("=" + v))] + (["--" + (b + ("=" + ("\"" + (w + "\""))))] + (["--" + (c + ("=" + x))]));
    CommandLineCons("--" + (a + ("=" + v)), ["--" + (b + ("=" + ("\"" + (w + "\""))))] + (["--" + (c + ("=" + x))]));
    GapsCons("--" + (b + ("=" + ("\"" + (w + "\"")))), ["--" + (c + ("=" + x))]);
    GapsCons("--" + (c + ("=" + x)), []);
    assert ["--" + (c + ("=" + x))] + [] == ["--" + (c + ("=" + x))];
  }

  /** `--a=v --b="w" --c=x`. */
  lemma LongAssignUnits(a: string, v: string, b: string, w: string, c: string, x: string)
    requires Name(a, 0) && Literal(v, false, false) && Name(b, 0) && QuoteFree('"', w)
    requires Name(c, 0) && Literal(x, false, false)
    ensures Scan(CommandLine(["--" + (a + ("=" + v)), "--" + (b + ("=" + ("\"" + (w + "\"")))), "--" + (c + ("=" + x))]), 0)
         == [Long(a, Some(v))] + ([Long(b, Some(w))] + ([Long(c, Some(x))] + []))
  {
    var x3 := "--" + (c + ("=" + x)) + "";
    var x2 := "--" + (b + ("=" + ("\"" + (w + "\"")))) + (" " + x3);
    var x1 := "--" + (a + ("=" + v)) + (" " + x2);
    LongAssignLine(a, v, b, w, c, x);
    var ts3 := [Long(c, Some(x))] + [];
    assert Scan(x3, 0) == ts3 by {
      LongValueUnit("--" + (c + ("=" + x)), c, x, 0, "", []);
    }
    var ts2 := [Long(b, Some(w))] + ts3;
    assert Scan(x2, 0) == ts2 by {
      Space(x3, 0, ts3);
      LongQuotedUnit("--" + (b + ("=" + ("\"" + (w + "\"")))), b, w, 0, " " + x3, ts3);
    }
    var ts1 := [Long(a, Some(v))] + ts2;
    assert Scan(x1, 0) == ts1 by {
      Space(x2, 0, ts2);
      LongValueUnit("--" + (a + ("=" + v)), a, v, 0, " " + x2, ts2);
    }
  }

  /** The parts of `--a=v` joined into one text. */
  lemma LongValueLine(a: string, v: string)
    ensures CommandLine(["--" + (a + ("=" + v))]) == "--" + (a + ("=" + v)) + ""
  {
    CommandLineCons("--" + (a + ("=" + v)), []);
    assert ["--" + (a + ("=" + v))] + [] == ["--" + (a + ("=" + v))];
  }

  /** `--a=v`. */
  lemma LongValueUnits(a: string, v: string)
    requires Name(a, 0) && Literal(v, false, false)
    ensures Scan(CommandLine(["--" + (a + ("=" + v))]), 0)
         == [Long(a, Some(v))] + []
  {
    var x1 := "--" + (a + ("=" + v)) + "";
    LongValueLine(a, v);
    var ts1 := [Long(a, Some(v))] + [];
    assert Scan(x1, 0) == ts1 by {
      LongValueUnit("--" + (a + ("=" + v)), a, v, 0, "", []);
    }
  }

  /** The parts of `-a -b -c` joined into one text. */
  lemma ThreeShortsLine(a: string, b: string, c: string)
    ensures CommandLine(["-" + a, "-" + b, "-" + c]) == "-" + a + (" " + ("-" + b + (" " + ("-" + c + ""))))
  {
    assert ["-" + a, "-" + b, "-" + c] == ["-" + a] + (["-" + b] + (["-" + c]));
    CommandLineCons("-" + a, ["-" + b] + (["-" + c]));
    GapsCons("-" + b, ["-" + c]);
    GapsCons("-" + c, []);
    assert ["-" + c] + [] == ["-" + c];
  }

  /** `-a -b -c`. */
  lemma ThreeShortsUnits(a: string, b: string, c: string)
    requires Name(a, 0) && Name(b, 0) && Name(c, 0)
    ensures Scan(CommandLine(["-" + a, "-" + b, "-" + c]), 0)
         == [Short(a, None)] + ([Short(b, None)] + ([Short(c, None)] + []))
  {
    var x3 := "-" + c + "";
    var x2 := "-" + b + (" " + x3);
    var x1 := "-" + a + (" " + x2);
    ThreeShortsLine(a, b, c);
    var ts3 := [Short(c, None)] + [];
    assert Scan(x3, 0) == ts3 by {
      ShortUnit("-" + c, c, 0, "", []);
    }
    var ts2 := [Short(b, None)] + ts3;
    assert Scan(x2, 0) == ts2 by {
      Space(x3, 0, ts3);
      ShortUnit("-" + b, b, 0, " " + x3, ts3);
    }
    var ts1 := [Short(a, None)] + ts2;
    assert Scan(x1, 0) == ts1 by {
      Space(x2, 0, ts2);
      ShortUnit("-" + a, a, 0, " " + x2, ts2);
    }
  }

  /** The parts of `-a` joined into one text. */
  lemma OneShortLine(a: string)
    ensures CommandLine(["-" + a]) == "-" + a + ""
  {
    CommandLineCons("-" + a, []);
    assert ["-" + a] + [] == ["-" + a];
  }

  /** `-a`. */
  lemma OneShortUnits(a: string)
    requires Name(a, 0)
    ensures Scan(CommandLine(["-" + a]), 0)
         == [Short(a, None)] + []
  {
    var x1 := "-" + a + "";
    OneShortLine(a);
    var ts1 := [Short(a, None)] + [];
    assert Scan(x1, 0) == ts1 by {
      ShortUnit("-" + a, a, 0, "", []);
    }
  }

  /** The parts of `-a v -b "w" -c x` joined into one text. */
  lemma ShortWordsLine(a: string, v: string, b: string, w: string, c: string, x: string)
    ensures CommandLine(["-" + a, v, "-" + b, "\"" + (w + "\""), "-" + c, x]) == "-" + a + (" " + (v + (" " + ("-" + b + (" " + ("\"" + (w + "\"") + (" " + ("-" + c + (" " + (x + ""))))))))))
  {
    assert ["-" + a, v, "-" + b, "\"" + (w + "\""), "-" + c, x] == ["-" + a] + ([v] + (["-" + b] + (["\"" + (w + "\"")] + (["-" + c] + ([x])))));
    CommandLineCons("-" + a, [v] + (["-" + b] + (["\"" + (w + "\"")] + (["-" + c] + ([x])))));
    GapsCons(v, ["-" + b] + (["\"" + (w + "\"")] + (["-" + c] + ([x]))));
    GapsCons("-" + b, ["\"" + (w + "\"")] + (["-" + c] + ([x])));
    GapsCons("\"" + (w + "\""), ["-" + c] + ([x]));
    GapsCons("-" + c, [x]);
    GapsCons(x, []);
    assert [x] + [] == [x];
  }

  /** `-a v -b "w" -c x`. */
  lemma ShortWordsUnits(a: string, v: string, b: string, w: string, c: string, x: string)
    requires Name(a, 0) && BareWord(v, 0) && Name(b, 0) && QuoteFree('"', w)
    requires Name(c, 0) && BareWord(x, 0)
    ensures Scan(CommandLine(["-" + a, v, "-" + b, "\"" + (w + "\""), "-" + c, x]), 0)
         == [Short(a, None)] + ([Word(v)] + ([Short(b, None)] + ([Word(w)] + ([Short(c, None)] + ([Word(x)] + [])))))
  {
    var x6 := x + "";
    var x5 := "-" + c + (" " + x6);
    var x4 := "\"" + (w + "\"") + (" " + x5);
    var x3 := "-" + b + (" " + x4);
    var x2 := v + (" " + x3);
    var x1 := "-" + a + (" " + x2);
    ShortWordsLine(a, v, b, w, c, x);
    var ts6 := [Word(x)] + [];
    assert Scan(x6, 0) == ts6 by {
      WordUnit(x, 0, "", []);
    }
    var ts5 := [Short(c, None)] + ts6;
    assert Scan(x5, 0) == ts5 by {
      Space(x6, 0, ts6);
      ShortUnit("-" + c, c, 0, " " + x6, ts6);
    }
    var ts4 := [Word(w)] + ts5;
    assert Scan(x4, 0) == ts4 by {
      Space(x5, 0, ts5);
      QuotedUnit("\"" + (w + "\""), '"', w, 0, " " + x5, ts5);
    }
    var ts3 := [Short(b, None)] + ts4;
    assert Scan(x3, 0) == ts3 by {
      Space(x4, 0, ts4);
      ShortUnit("-" + b, b, 0, " " + x4, ts4);
    }
    var ts2 := [Word(v)] + ts3;
    assert Scan(x2, 0) == ts2 by {
      Space(x3, 0, ts3);
      WordUnit(v, 0, " " + x3, ts3);
    }
    var ts1 := [Short(a, None)] + ts2;
    assert Scan(x1, 0) == ts1 by {
      Space(x2, 0, ts2);
      ShortUnit("-" + a, a, 0, " " + x2, ts2);
    }
  }

  /** The parts of `-a v` joined into one text. */
  lemma ShortWordLine(a: string, v: string)
    ensures CommandLine(["-" + a, v]) == "-" + a + (" " + (v + ""))
  {
    assert ["-" + a, v] == ["-" + a] + ([v]);
    CommandLineCons("-" + a, [v]);
    GapsCons(v, []);
    assert [v] + [] == [v];
  }

  /** `-a v`. */
  lemma ShortWordUnits(a: string, v: string)
    requires Name(a, 0) && BareWord(v, 0)
    ensures Scan(CommandLine(["-" + a, v]), 0)
         == [Short(a, None)] + ([Word(v)] + [])
  {
    var x2 := v + "";
    var x1 := "-" + a + (" " + x2);
    ShortWordLine(a, v);
    var ts2 := [Word(v)] + [];
    assert Scan(x2, 0) == ts2 by {
      WordUnit(v, 0, "", []);
    }
    var ts1 := [Short(a, None)] + ts2;
    assert Scan(x1, 0) == ts1 by {
      Space(x2, 0, ts2);
      ShortUnit("-" + a, a, 0, " " + x2, ts2);
    }
  }

  /** The parts of `w` joined into one text. */
  lemma WordLine(w: string)
    ensures CommandLine([w]) == w + ""
  {
    CommandLineCons(w, []);
    assert [w] + [] == [w];
  }

  /** `w`. */
  lemma WordUnits(w: string)
    requires BareWord(w, 0)
    ensures Scan(CommandLine([w]), 0)
         == [Word(w)] + []
  {
    var x1 := w + "";
    WordLine(w);
    var ts1 := [Word(w)] + [];
    assert Scan(x1, 0) == ts1 by {
      WordUnit(w, 0, "", []);
    }
  }

  /** The parts of `a b c` joined into one text. */
  lemma ThreeWordsLine(a: string, b: string, c: string)
    ensures CommandLine([a, b, c]) == a + (" " + (b + (" " + (c + ""))))
  {
    assert [a, b, c] == [a] + ([b] + ([c]));
    CommandLineCons(a, [b] + ([c]));
    GapsCons(b, [c]);
    GapsCons(c, []);
    assert [c] + [] == [c];
  }

  /** `a b c`. */
  lemma ThreeWordsUnits(a: string, b: string, c: string)
    requires BareWord(a, 0) && BareWord(b, 0) && BareWord(c, 0)
    ensures Scan(CommandLine([a, b, c]), 0)
         == [Word(a)] + ([Word(b)] + ([Word(c)] + []))
  {
    var x3 := c + "";
    var x2 := b + (" " + x3);
    var x1 := a + (" " + x2);
    ThreeWordsLine(a, b, c);
    var ts3 := [Word(c)] + [];
    assert Scan(x3, 0) == ts3 by {
      WordUnit(c, 0, "", []);
    }
    var ts2 := [Word(b)] + ts3;
    assert Scan(x2, 0) == ts2 by {
      Space(x3, 0, ts3);
      WordUnit(b, 0, " " + x3, ts3);
    }
    var ts1 := [Word(a)] + ts2;
    assert Scan(x1, 0) == ts1 by {
      Space(x2, 0, ts2);
      WordUnit(a, 0, " " + x2, ts2);
    }
  }

  /** The parts of `-t [ -a -b --l=v ]` joined into one text. */
  lemma SpacedGroupLine(t: string, a: string, b: string, l: string, v: string)
    ensures CommandLine(["-" + t, "[", "-" + a, "-" + b, "--" + (l + ("=" + v)), "]"]) == "-" + t + (" " + ("[" + (" " + ("-" + a + (" " + ("-" + b + (" " + ("--" + (l + ("=" + v)) + (" " + ("]" + ""))))))))))
  {
    assert ["-" + t, "[", "-" + a, "-" + b, "--" + (l + ("=" + v)), "]"] == ["-" + t] + (["["] + (["-" + a] + (["-" + b] + (["--" + (l + ("=" + v))] + (["]"])))));
    CommandLineCons("-" + t, ["["] + (["-" + a] + (["-" + b] + (["--" + (l + ("=" + v))] + (["]"])))));
    GapsCons("[", ["-" + a] + (["-" + b] + (["--" + (l + ("=" + v))] + (["]"]))));
    GapsCons("-" + a, ["-" + b] + (["--" + (l + ("=" + v))] + (["]"])));
    GapsCons("-" + b, ["--" + (l + ("=" + v))] + (["]"]));
    GapsCons("--" + (l + ("=" + v)), ["]"]);
    GapsCons("]", []);
    assert ["]"] + [] == ["]"];
  }

  /** `-t [ -a -b --l=v ]`. */
  lemma SpacedGroupUnits(t: string, a: string, b: string, l: string, v: string)
    requires Name(t, 0) && Name(a, 1) && Name(b, 1) && Name(l, 1)
    requires Literal(v, true, false)
    ensures Scan(CommandLine(["-" + t, "[", "-" + a, "-" + b, "--" + (l + ("=" + v)), "]"]), 0)
         == [Short(t, None)] + ([Open] + ([Short(a, None)] + ([Short(b, None)] + ([Long(l, Some(v))] + ([Close] + [])))))
  {
    var x6 := "]" + "";
    var x5 := "--" + (l + ("=" + v)) + (" " + x6);
    var x4 := "-" + b + (" " + x5);
    var x3 := "-" + a + (" " + x4);
    var x2 := "[" + (" " + x3);
    var x1 := "-" + t + (" " + x2);
    SpacedGroupLine(t, a, b, l, v);
    var ts6 := [Close] + [];
    assert Scan(x6, 1) == ts6 by {
      CloseThen("", 1, 0, []);
    }
    var ts5 := [Long(l, Some(v))] + ts6;
    assert Scan(x5, 1) == ts5 by {
      Space(x6, 1, ts6);
      LongValueUnit("--" + (l + ("=" + v)), l, v, 1, " " + x6, ts6);
    }
    var ts4 := [Short(b, None)] + ts5;
    assert Scan(x4, 1) == ts4 by {
      Space(x5, 1, ts5);
      ShortUnit("-" + b, b, 1, " " + x5, ts5);
    }
    var ts3 := [Short(a, None)] + ts4;
    assert Scan(x3, 1) == ts3 by {
      Space(x4, 1, ts4);
      ShortUnit("-" + a, a, 1, " " + x4, ts4);
    }
    var ts2 := [Open] + ts3;
    assert Scan(x2, 0) == ts2 by {
      Space(x3, 1, ts3);
      OpenThen(" " + x3, 0, 1, ts3);
    }
    var ts1 := [Short(t, None)] + ts2;
    assert Scan(x1, 0) == ts1 by {
      Space(x2, 0, ts2);
      ShortUnit("-" + t, t, 0, " " + x2, ts2);
    }
  }

  /** The parts of `-t [ p -a -b --l=v q ]` joined into one text. */
  lemma SpacedGroupWordsLine(t: string, p: string, a: string, b: string, l: string, v: string, q: string)
    ensures CommandLine(["-" + t, "[", p, "-" + a, "-" + b, "--" + (l + ("=" + v)), q, "]"]) == "-" + t + (" " + ("[" + (" " + (p + (" " + ("-" + a + (" " + ("-" + b + (" " + ("--" + (l + ("=" + v)) + (" " + (q + (" " + ("]" + ""))))))))))))))
  {
    assert ["-" + t, "[", p, "-" + a, "-" + b, "--" + (l + ("=" + v)), q, "]"] == ["-" + t] + (["["] + ([p] + (["-" + a] + (["-" + b] + (["--" + (l + ("=" + v))] + ([q] + (["]"])))))));
    CommandLineCons("-" + t, ["["] + ([p] + (["-" + a] + (["-" + b] + (["--" + (l + ("=" + v))] + ([q] + (["]"])))))));
    GapsCons("[", [p] + (["-" + a] + (["-" + b] + (["--" + (l + ("=" + v))] + ([q] + (["]"]))))));
    GapsCons(p, ["-" + a] + (["-" + b] + (["--" + (l + ("=" + v))] + ([q] + (["]"])))));
    GapsCons("-" + a, ["-" + b] + (["--" + (l + ("=" + v))] + ([q] + (["]"]))));
    GapsCons("-" + b, ["--" + (l + ("=" + v))] + ([q] + (["]"])));
    GapsCons("--" + (l + ("=" + v)), [q] + (["]"]));
    GapsCons(q, ["]"]);
    GapsCons("]", []);
    assert ["]"] + [] == ["]"];
  }

  /** `-t [ p -a -b --l=v q ]`. */
  lemma SpacedGroupWordsUnits(t: string, p: string, a: string, b: string, l: string, v: string, q: string)
    requires Name(t, 0) && BareWord(p, 1) && Name(a, 1) && Name(b, 1) && Name(l, 1)
    requires Literal(v, true, false) && BareWord(q, 1)
    ensures Scan(CommandLine(["-" + t, "[", p, "-" + a, "-" + b, "--" + (l + ("=" + v)), q, "]"]), 0)
         == [Short(t, None)] + ([Open] + ([Word(p)] + ([Short(a, None)] + ([Short(b, None)] + ([Long(l, Some(v))] + ([Word(q)] + ([Close] + [])))))))
  {
    var x8 := "]" + "";
    var x7 := q + (" " + x8);
    var x6 := "--" + (l + ("=" + v)) + (" " + x7);
    var x5 := "-" + b + (" " + x6);
    var x4 := "-" + a + (" " + x5);
    var x3 := p + (" " + x4);
    var x2 := "[" + (" " + x3);
    var x1 := "-" + t + (" " + x2);
    SpacedGroupWordsLine(t, p, a, b, l, v, q);
    var ts8 := [Close] + [];
    assert Scan(x8, 1) == ts8 by {
      CloseThen("", 1, 0, []);
    }
    var ts7 := [Word(q)] + ts8;
    assert Scan(x7, 1) == ts7 by {
      Space(x8, 1, ts8);
      WordUnit(q, 1, " " + x8, ts8);
    }
    var ts6 := [Long(l, Some(v))] + ts7;
    assert Scan(x6, 1) == ts6 by {
      Space(x7, 1, ts7);
      LongValueUnit("--" + (l + ("=" + v)), l, v, 1, " " + x7, ts7);
    }
    var ts5 := [Short(b, None)] + ts6;
    assert Scan(x5, 1) == ts5 by {
      Space(x6, 1, ts6);
      ShortUnit("-" + b, b, 1, " " + x6, ts6);
    }
    var ts4 := [Short(a, None)] + ts5;
    assert Scan(x4, 1) == ts4 by {
      Space(x5, 1, ts5);
      ShortUnit("-" + a, a, 1, " " + x5, ts5);
    }
    var ts3 := [Word(p)] + ts4;
    assert Scan(x3, 1) == ts3 by {
      Space(x4, 1, ts4);
      WordUnit(p, 1, " " + x4, ts4);
    }
    var ts2 := [Open] + ts3;
    assert Scan(x2, 0) == ts2 by {
      Space(x3, 1, ts3);
      OpenThen(" " + x3, 0, 1, ts3);
    }
    var ts1 := [Short(t, None)] + ts2;
    assert Scan(x1, 0) == ts1 by {
      Space(x2, 0, ts2);
      ShortUnit("-" + t, t, 0, " " + x2, ts2);
    }
  }

  /** The parts of `-t [-a -b --l=v]` joined into one text. */
  lemma GluedGroupLine(t: string, a: string, b: string, l: string, v: string)
    ensures CommandLine(["-" + t, "[" + ("-" + a), "-" + b, ("--" + (l + ("=" + v))) + "]"]) == "-" + t + (" " + ("[" + ("-" + a) + (" " + ("-" + b + (" " + (("--" + (l + ("=" + v))) + "]" + ""))))))
  {
    assert ["-" + t, "[" + ("-" + a), "-" + b, ("--" + (l + ("=" + v))) + "]"] == ["-" + t] + (["[" + ("-" + a)] + (["-" + b] + ([("--" + (l + ("=" + v))) + "]"])));
    CommandLineCons("-" + t, ["[" + ("-" + a)] + (["-" + b] + ([("--" + (l + ("=" + v))) + "]"])));
    GapsCons("[" + ("-" + a), ["-" + b] + ([("--" + (l + ("=" + v))) + "]"]));
    GapsCons("-" + b, [("--" + (l + ("=" + v))) + "]"]);
    GapsCons(("--" + (l + ("=" + v))) + "]", []);
    assert [("--" + (l + ("=" + v))) + "]"] + [] == [("--" + (l + ("=" + v))) + "]"];
  }

  /** `-t [-a -b --l=v]`. */
  lemma GluedGroupUnits(t: string, a: string, b: string, l: string, v: string)
    requires Name(t, 0) && Name(a, 1) && Name(b, 1) && Name(l, 1)
    requires Literal(v, true, false)
    ensures Scan(CommandLine(["-" + t, "[" + ("-" + a), "-" + b, ("--" + (l + ("=" + v))) + "]"]), 0)
         == [Short(t, None)] + ([Open] + ([Short(a, None)] + ([Short(b, None)] + ([Long(l, Some(v))] + ([Close] + [])))))
  {
    var x4 := ("--" + (l + ("=" + v))) + "]" + "";
    var x3 := "-" + b + (" " + x4);
    var x2 := "[" + ("-" + a) + (" " + x3);
    var x1 := "-" + t + (" " + x2);
    GluedGroupLine(t, a, b, l, v);
    var ts4 := [Long(l, Some(v))] + ([Close] + []);
    assert Scan(x4, 1) == ts4 by {
      CloseThen("", 1, 0, []);
      LongValueUnit("--" + (l + ("=" + v)), l, v, 1, "]" + "", [Close] + []);
      CloseGlued(("--" + (l + ("=" + v))) + "]", "--" + (l + ("=" + v)), 1, "", [Long(l, Some(v))] + ([Close] + []));
    }
    var ts3 := [Short(b, None)] + ts4;
    assert Scan(x3, 1) == ts3 by {
      Space(x4, 1, ts4);
      ShortUnit("-" + b, b, 1, " " + x4, ts4);
    }
    var ts2 := [Open] + ([Short(a, None)] + ts3);
    assert Scan(x2, 0) == ts2 by {
      Space(x3, 1, ts3);
      ShortUnit("-" + a, a, 1, " " + x3, ts3);
      OpenGlued("[" + ("-" + a), "-" + a, 0, 1, " " + x3, [Short(a, None)] + ts3);
    }
    var ts1 := [Short(t, None)] + ts2;
    assert Scan(x1, 0) == ts1 by {
      Space(x2, 0, ts2);
      ShortUnit("-" + t, t, 0, " " + x2, ts2);
    }
  }

  /** The parts of `-t [p -a -b --l=v q]` joined into one text. */
  lemma GluedGroupWordsLine(t: string, p: string, a: string, b: string, l: string, v: string, q: string)
    ensures CommandLine(["-" + t, "[" + (p), "-" + a, "-" + b, "--" + (l + ("=" + v)), (q) + "]"]) == "-" + t + (" " + ("[" + (p) + (" " + ("-" + a + (" " + ("-" + b + (" " + ("--" + (l + ("=" + v)) + (" " + ((q) + "]" + ""))))))))))
  {
    assert ["-" + t, "[" + (p), "-" + a, "-" + b, "--" + (l + ("=" + v)), (q) + "]"] == ["-" + t] + (["[" + (p)] + (["-" + a] + (["-" + b] + (["--" + (l + ("=" + v))] + ([(q) + "]"])))));
    CommandLineCons("-" + t, ["[" + (p)] + (["-" + a] + (["-" + b] + (["--" + (l + ("=" + v))] + ([(q) + "]"])))));
    GapsCons("[" + (p), ["-" + a] + (["-" + b] + (["--" + (l + ("=" + v))] + ([(q) + "]"]))));
    GapsCons("-" + a, ["-" + b] + (["--" + (l + ("=" + v))] + ([(q) + "]"])));
    GapsCons("-" + b, ["--" + (l + ("=" + v))] + ([(q) + "]"]));
    GapsCons("--" + (l + ("=" + v)), [(q) + "]"]);
    GapsCons((q) + "]", []);
    assert [(q) + "]"] + [] == [(q) + "]"];
  }

  /** `-t [p -a -b --l=v q]`. */
  lemma GluedGroupWordsUnits(t: string, p: string, a: string, b: string, l: string, v: string, q: string)
    requires Name(t, 0) && BareWord(p, 1) && Name(a, 1) && Name(b, 1) && Name(l, 1)
    requires Literal(v, true, false) && BareWord(q, 1)
    ensures Scan(CommandLine(["-" + t, "[" + (p), "-" + a, "-" + b, "--" + (l + ("=" + v)), (q) + "]"]), 0)
         == [Short(t, None)] + ([Open] + ([Word(p)] + ([Short(a, None)] + ([Short(b, None)] + ([Long(l, Some(v))] + ([Word(q)] + ([Close] + [])))))))
  {
    var x6 := (q) + "]" + "";
    var x5 := "--" + (l + ("=" + v)) + (" " + x6);
    var x4 := "-" + b + (" " + x5);
    var x3 := "-" + a + (" " + x4);
    var x2 := "[" + (p) + (" " + x3);
    var x1 := "-" + t + (" " + x2);
    GluedGroupWordsLine(t, p, a, b, l, v, q);
    var ts6 := [Word(q)] + ([Close] + []);
    assert Scan(x6, 1) == ts6 by {
      CloseThen("", 1, 0, []);
      WordUnit(q, 1, "]" + "", [Close] + []);
      CloseGlued((q) + "]", q, 1, "", [Word(q)] + ([Close] + []));
    }
    var ts5 := [Long(l, Some(v))] + ts6;
    assert Scan(x5, 1) == ts5 by {
      Space(x6, 1, ts6);
      LongValueUnit("--" + (l + ("=" + v)), l, v, 1, " " + x6, ts6);
    }
    var ts4 := [Short(b, None)] + ts5;
    assert Scan(x4, 1) == ts4 by {
      Space(x5, 1, ts5);
      ShortUnit("-" + b, b, 1, " " + x5, ts5);
    }
    var ts3 := [Short(a, None)] + ts4;
    assert Scan(x3, 1) == ts3 by {
      Space(x4, 1, ts4);
      ShortUnit("-" + a, a, 1, " " + x4, ts4);
    }
    var ts2 := [Open] + ([Word(p)] + ts3);
    assert Scan(x2, 0) == ts2 by {
      Space(x3, 1, ts3);
      WordUnit(p, 1, " " + x3, ts3);
      OpenGlued("[" + (p), p, 0, 1, " " + x3, [Word(p)] + ts3);
    }
    var ts1 := [Short(t, None)] + ts2;
    assert Scan(x1, 0) == ts1 by {
      Space(x2, 0, ts2);
      ShortUnit("-" + t, t, 0, " " + x2, ts2);
    }
  }

  /** The parts of `-t [-c p --l=v]` joined into one text. */
  lemma GluedClusterLine(t: string, c: string, p: string, l: string, v: string)
    ensures CommandLine(["-" + t, "[" + ("-" + c), p, ("--" + (l + ("=" + v))) + "]"]) == "-" + t + (" " + ("[" + ("-" + c) + (" " + (p + (" " + (("--" + (l + ("=" + v))) + "]" + ""))))))
  {
    assert ["-" + t, "[" + ("-" + c), p, ("--" + (l + ("=" + v))) + "]"] == ["-" + t] + (["[" + ("-" + c)] + ([p] + ([("--" + (l + ("=" + v))) + "]"])));
    CommandLineCons("-" + t, ["[" + ("-" + c)] + ([p] + ([("--" + (l + ("=" + v))) + "]"])));
    GapsCons("[" + ("-" + c), [p] + ([("--" + (l + ("=" + v))) + "]"]));
    GapsCons(p, [("--" + (l + ("=" + v))) + "]"]);
    GapsCons(("--" + (l + ("=" + v))) + "]", []);
    assert [("--" + (l + ("=" + v))) + "]"] + [] == [("--" + (l + ("=" + v))) + "]"];
  }

  /** `-t [-c p --l=v]`. */
  lemma GluedClusterUnits(t: string, c: string, p: string, l: string, v: string)
    requires Name(t, 0) && Name(c, 1) && BareWord(p, 1) && Name(l, 1)
    requires Literal(v, true, false)
    ensures Scan(CommandLine(["-" + t, "[" + ("-" + c), p, ("--" + (l + ("=" + v))) + "]"]), 0)
         == [Short(t, None)] + ([Open] + ([Short(c, None)] + ([Word(p)] + ([Long(l, Some(v))] + ([Close] + [])))))
  {
    var x4 := ("--" + (l + ("=" + v))) + "]" + "";
    var x3 := p + (" " + x4);
    var x2 := "[" + ("-" + c) + (" " + x3);
    var x1 := "-" + t + (" " + x2);
    GluedClusterLine(t, c, p, l, v);
    var ts4 := [Long(l, Some(v))] + ([Close] + []);
    assert Scan(x4, 1) == ts4 by {
      CloseThen("", 1, 0, []);
      LongValueUnit("--" + (l + ("=" + v)), l, v, 1, "]" + "", [Close] + []);
      CloseGlued(("--" + (l + ("=" + v))) + "]", "--" + (l + ("=" + v)), 1, "", [Long(l, Some(v))] + ([Close] + []));
    }
    var ts3 := [Word(p)] + ts4;
    assert Scan(x3, 1) == ts3 by {
      Space(x4, 1, ts4);
      WordUnit(p, 1, " " + x4, ts4);
    }
    var ts2 := [Open] + ([Short(c, None)] + ts3);
    assert Scan(x2, 0) == ts2 by {
      Space(x3, 1, ts3);
      ShortUnit("-" + c, c, 1, " " + x3, ts3);
      OpenGlued("[" + ("-" + c), "-" + c, 0, 1, " " + x3, [Short(c, None)] + ts3);
    }
    var ts1 := [Short(t, None)] + ts2;
    assert Scan(x1, 0) == ts1 by {
      Space(x2, 0, ts2);
      ShortUnit("-" + t, t, 0, " " + x2, ts2);
    }
  }

  /** The parts of `-t [ -c p --l=v]` joined into one text. */
  lemma FrontSpacedClusterLine(t: string, c: string, p: string, l: string, v: string)
    ensures CommandLine(["-" + t, "[", "-" + c, p, ("--" + (l + ("=" + v))) + "]"]) == "-" + t + (" " + ("[" + (" " + ("-" + c + (" " + (p + (" " + (("--" + (l + ("=" + v))) + "]" + ""))))))))
  {
    assert ["-" + t, "[", "-" + c, p, ("--" + (l + ("=" + v))) + "]"] == ["-" + t] + (["["] + (["-" + c] + ([p] + ([("--" + (l + ("=" + v))) + "]"]))));
    CommandLineCons("-" + t, ["["] + (["-" + c] + ([p] + ([("--" + (l + ("=" + v))) + "]"]))));
    GapsCons("[", ["-" + c] + ([p] + ([("--" + (l + ("=" + v))) + "]"])));
    GapsCons("-" + c, [p] + ([("--" + (l + ("=" + v))) + "]"]));
    GapsCons(p, [("--" + (l + ("=" + v))) + "]"]);
    GapsCons(("--" + (l + ("=" + v))) + "]", []);
    assert [("--" + (l + ("=" + v))) + "]"] + [] == [("--" + (l + ("=" + v))) + "]"];
  }

  /** `-t [ -c p --l=v]`. */
  lemma FrontSpacedClusterUnits(t: string, c: string, p: string, l: string, v: string)
    requires Name(t, 0) && Name(c, 1) && BareWord(p, 1) && Name(l, 1)
    requires Literal(v, true, false)
    ensures Scan(CommandLine(["-" + t, "[", "-" + c, p, ("--" + (l + ("=" + v))) + "]"]), 0)
         == [Short(t, None)] + ([Open] + ([Short(c, None)] + ([Word(p)] + ([Long(l, Some(v))] + ([Close] + [])))))
  {
    var x5 := ("--" + (l + ("=" + v))) + "]" + "";
    var x4 := p + (" " + x5);
    var x3 := "-" + c + (" " + x4);
    var x2 := "[" + (" " + x3);
    var x1 := "-" + t + (" " + x2);
    FrontSpacedClusterLine(t, c, p, l, v);
    var ts5 := [Long(l, Some(v))] + ([Close] + []);
    assert Scan(x5, 1) == ts5 by {
      CloseThen("", 1, 0, []);
      LongValueUnit("--" + (l + ("=" + v)), l, v, 1, "]" + "", [Close] + []);
      CloseGlued(("--" + (l + ("=" + v))) + "]", "--" + (l + ("=" + v)), 1, "", [Long(l, Some(v))] + ([Close] + []));
    }
    var ts4 := [Word(p)] + ts5;
    assert Scan(x4, 1) == ts4 by {
      Space(x5, 1, ts5);
      WordUnit(p, 1, " " + x5, ts5);
    }
    var ts3 := [Short(c, None)] + ts4;
    assert Scan(x3, 1) == ts3 by {
      Space(x4, 1, ts4);
      ShortUnit("-" + c, c, 1, " " + x4, ts4);
    }
    var ts2 := [Open] + ts3;
    assert Scan(x2, 0) == ts2 by {
      Space(x3, 1, ts3);
      OpenThen(" " + x3, 0, 1, ts3);
    }
    var ts1 := [Short(t, None)] + ts2;
    assert Scan(x1, 0) == ts1 by {
      Space(x2, 0, ts2);
      ShortUnit("-" + t, t, 0, " " + x2, ts2);
    }
  }

  /** The parts of `-t [-c p --l=v ]` joined into one text. */
  lemma TailSpacedClusterLine(t: string, c: string, p: string, l: string, v: string)
    ensures CommandLine(["-" + t, "[" + ("-" + c), p, "--" + (l + ("=" + v)), "]"]) == "-" + t + (" " + ("[" + ("-" + c) + (" " + (p + (" " + ("--" + (l + ("=" + v)) + (" " + ("]" + ""))))))))
  {
    assert ["-" + t, "[" + ("-" + c), p, "--" + (l + ("=" + v)), "]"] == ["-" + t] + (["[" + ("-" + c)] + ([p] + (["--" + (l + ("=" + v))] + (["]"]))));
    CommandLineCons("-" + t, ["[" + ("-" + c)] + ([p] + (["--" + (l + ("=" + v))] + (["]"]))));
    GapsCons("[" + ("-" + c), [p] + (["--" + (l + ("=" + v))] + (["]"])));
    GapsCons(p, ["--" + (l + ("=" + v))] + (["]"]));
    GapsCons("--" + (l + ("=" + v)), ["]"]);
    GapsCons("]", []);
    assert ["]"] + [] == ["]"];
  }

  /** `-t [-c p --l=v ]`. */
  lemma TailSpacedClusterUnits(t: string, c: string, p: string, l: string, v: string)
    requires Name(t, 0) && Name(c, 1) && BareWord(p, 1) && Name(l, 1)
    requires Literal(v, true, false)
    ensures Scan(CommandLine(["-" + t, "[" + ("-" + c), p, "--" + (l + ("=" + v)), "]"]), 0)
         == [Short(t, None)] + ([Open] + ([Short(c, None)] + ([Word(p)] + ([Long(l, Some(v))] + ([Close] + [])))))
  {
    var x5 := "]" + "";
    var x4 := "--" + (l + ("=" + v)) + (" " + x5);
    var x3 := p + (" " + x4);
    var x2 := "[" + ("-" + c) + (" " + x3);
    var x1 := "-" + t + (" " + x2);
    TailSpacedClusterLine(t, c, p, l, v);
    var ts5 := [Close] + [];
    assert Scan(x5, 1) == ts5 by {
      CloseThen("", 1, 0, []);
    }
    var ts4 := [Long(l, Some(v))] + ts5;
    assert Scan(x4, 1) == ts4 by {
      Space(x5, 1, ts5);
      LongValueUnit("--" + (l + ("=" + v)), l, v, 1, " " + x5, ts5);
    }
    var ts3 := [Word(p)] + ts4;
    assert Scan(x3, 1) == ts3 by {
      Space(x4, 1, ts4);
      WordUnit(p, 1, " " + x4, ts4);
    }
    var ts2 := [Open] + ([Short(c, None)] + ts3);
    assert Scan(x2, 0) == ts2 by {
      Space(x3, 1, ts3);
      ShortUnit("-" + c, c, 1, " " + x3, ts3);
      OpenGlued("[" + ("-" + c), "-" + c, 0, 1, " " + x3, [Short(c, None)] + ts3);
    }
    var ts1 := [Short(t, None)] + ts2;
    assert Scan(x1, 0) == ts1 by {
      Space(x2, 0, ts2);
      ShortUnit("-" + t, t, 0, " " + x2, ts2);
    }
  }

  /** The parts of `-a [ -b [ -a ] ]` joined into one text. */
  lemma DepthTwoLine(a: string, b: string)
    ensures CommandLine(["-" + a, "[", "-" + b, "[", "-" + a, "]", "]"]) == "-" + a + (" " + ("[" + (" " + ("-" + b + (" " + ("[" + (" " + ("-" + a + (" " + ("]" + (" " + ("]" + ""))))))))))))
  {
    assert ["-" + a, "[", "-" + b, "[", "-" + a, "]", "]"] == ["-" + a] + (["["] + (["-" + b] + (["["] + (["-" + a] + (["]"] + (["]"]))))));
    CommandLineCons("-" + a, ["["] + (["-" + b] + (["["] + (["-" + a] + (["]"] + (["]"]))))));
    GapsCons("[", ["-" + b] + (["["] + (["-" + a] + (["]"] + (["]"])))));
    GapsCons("-" + b, ["["] + (["-" + a] + (["]"] + (["]"]))));
    GapsCons("[", ["-" + a] + (["]"] + (["]"])));
    GapsCons("-" + a, ["]"] + (["]"]));
    GapsCons("]", ["]"]);
    GapsCons("]", []);
    assert ["]"] + [] == ["]"];
  }

  /** `-a [ -b [ -a ] ]`. */
  lemma DepthTwoUnits(a: string, b: string)
    requires Name(a, 0) && Name(b, 1) && Name(a, 2)
    ensures Scan(CommandLine(["-" + a, "[", "-" + b, "[", "-" + a, "]", "]"]), 0)
         == [Short(a, None)] + ([Open] + ([Short(b, None)] + ([Open] + ([Short(a, None)] + ([Close] + ([Close] + []))))))
  {
    var x7 := "]" + "";
    var x6 := "]" + (" " + x7);
    var x5 := "-" + a + (" " + x6);
    var x4 := "[" + (" " + x5);
    var x3 := "-" + b + (" " + x4);
    var x2 := "[" + (" " + x3);
    var x1 := "-" + a + (" " + x2);
    DepthTwoLine(a, b);
    var ts7 := [Close] + [];
    assert Scan(x7, 1) == ts7 by {
      CloseThen("", 1, 0, []);
    }
    var ts6 := [Close] + ts7;
    assert Scan(x6, 2) == ts6 by {
      Space(x7, 1, ts7);
      CloseThen(" " + x7, 2, 1, ts7);
    }
    var ts5 := [Short(a, None)] + ts6;
    assert Scan(x5, 2) == ts5 by {
      Space(x6, 2, ts6);
      ShortUnit("-" + a, a, 2, " " + x6, ts6);
    }
    var ts4 := [Open] + ts5;
    assert Scan(x4, 1) == ts4 by {
      Space(x5, 2, ts5);
      OpenThen(" " + x5, 1, 2, ts5);
    }
    var ts3 := [Short(b, None)] + ts4;
    assert Scan(x3, 1) == ts3 by {
      Space(x4, 1, ts4);
      ShortUnit("-" + b, b, 1, " " + x4, ts4);
    }
    var ts2 := [Open] + ts3;
    assert Scan(x2, 0) == ts2 by {
      Space(x3, 1, ts3);
      OpenThen(" " + x3, 0, 1, ts3);
    }
    var ts1 := [Short(a, None)] + ts2;
    assert Scan(x1, 0) == ts1 by {
      Space(x2, 0, ts2);
      ShortUnit("-" + a, a, 0, " " + x2, ts2);
    }
  }

  /** The parts of `-a [ p -b [ q -a [ r -b ] ] ]` joined into one text. */
  lemma DepthThreeLine(a: string, p: string, b: string, q: string, r: string)
    ensures CommandLine(["-" + a, "[", p, "-" + b, "[", q, "-" + a, "[", r, "-" + b, "]", "]", "]"]) == "-" + a + (" " + ("[" + (" " + (p + (" " + ("-" + b + (" " + ("[" + (" " + (q + (" " + ("-" + a + (" " + ("[" + (" " + (r + (" " + ("-" + b + (" " + ("]" + (" " + ("]" + (" " + ("]" + ""))))))))))))))))))))))))
  {
    assert ["-" + a, "[", p, "-" + b, "[", q, "-" + a, "[", r, "-" + b, "]", "]", "]"] == ["-" + a] + (["["] + ([p] + (["-" + b] + (["["] + ([q] + (["-" + a] + (["["] + ([r] + (["-" + b] + (["]"] + (["]"] + (["]"]))))))))))));
    CommandLineCons("-" + a, ["["] + ([p] + (["-" + b] + (["["] + ([q] + (["-" + a] + (["["] + ([r] + (["-" + b] + (["]"] + (["]"] + (["]"]))))))))))));
    GapsCons("[", [p] + (["-" + b] + (["["] + ([q] + (["-" + a] + (["["] + ([r] + (["-" + b] + (["]"] + (["]"] + (["]"])))))))))));
    GapsCons(p, ["-" + b] + (["["] + ([q] + (["-" + a] + (["["] + ([r] + (["-" + b] + (["]"] + (["]"] + (["]"]))))))))));
    GapsCons("-" + b, ["["] + ([q] + (["-" + a] + (["["] + ([r] + (["-" + b] + (["]"] + (["]"] + (["]"])))))))));
    GapsCons("[", [q] + (["-" + a] + (["["] + ([r] + (["-" + b] + (["]"] + (["]"] + (["]"]))))))));
    GapsCons(q, ["-" + a] + (["["] + ([r] + (["-" + b] + (["]"] + (["]"] + (["]"])))))));
    GapsCons("-" + a, ["["] + ([r] + (["-" + b] + (["]"] + (["]"] + (["]"]))))));
    GapsCons("[", [r] + (["-" + b] + (["]"] + (["]"] + (["]"])))));
    GapsCons(r, ["-" + b] + (["]"] + (["]"] + (["]"]))));
    GapsCons("-" + b, ["]"] + (["]"] + (["]"])));
    GapsCons("]", ["]"] + (["]"]));
    GapsCons("]", ["]"]);
    GapsCons("]", []);
    assert ["]"] + [] == ["]"];
  }

  /** `-a [ p -b [ q -a [ r -b ] ] ]`. */
  lemma DepthThreeUnits(a: string, p: string, b: string, q: string, r: string)
    requires Name(a, 0) && BareWord(p, 1) && Name(b, 1) && BareWord(q, 2) && Name(a, 2)
    requires BareWord(r, 3) && Name(b, 3)
    ensures Scan(CommandLine(["-" + a, "[", p, "-" + b, "[", q, "-" + a, "[", r, "-" + b, "]", "]", "]"]), 0)
         == [Short(a, None)] + ([Open] + ([Word(p)] + ([Short(b, None)] + ([Open] + ([Word(q)] + ([Short(a, None)] + ([Open] + ([Word(r)] + ([Short(b, None)] + ([Close] + ([Close] + ([Close] + []))))))))))))
  {
    var x13 := "]" + "";
    var x12 := "]" + (" " + x13);
    var x11 := "]" + (" " + x12);
    var x10 := "-" + b + (" " + x11);
    var x9 := r + (" " + x10);
    var x8 := "[" + (" " + x9);
    var x7 := "-" + a + (" " + x8);
    var x6 := q + (" " + x7);
    var x5 := "[" + (" " + x6);
    var x4 := "-" + b + (" " + x5);
    var x3 := p + (" " + x4);
    var x2 := "[" + (" " + x3);
    var x1 := "-" + a + (" " + x2);
    DepthThreeLine(a, p, b, q, r);
    var ts13 := [Close] + [];
    assert Scan(x13, 1) == ts13 by {
      CloseThen("", 1, 0, []);
    }
    var ts12 := [Close] + ts13;
    assert Scan(x12, 2) == ts12 by {
      Space(x13, 1, ts13);
      CloseThen(" " + x13, 2, 1, ts13);
    }
    var ts11 := [Close] + ts12;
    assert Scan(x11, 3) == ts11 by {
      Space(x12, 2, ts12);
      CloseThen(" " + x12, 3, 2, ts12);
    }
    var ts10 := [Short(b, None)] + ts11;
    assert Scan(x10, 3) == ts10 by {
      Space(x11, 3, ts11);
      ShortUnit("-" + b, b, 3, " " + x11, ts11);
    }
    var ts9 := [Word(r)] + ts10;
    assert Scan(x9, 3) == ts9 by {
      Space(x10, 3, ts10);
      WordUnit(r, 3, " " + x10, ts10);
    }
    var ts8 := [Open] + ts9;
    assert Scan(x8, 2) == ts8 by {
      Space(x9, 3, ts9);
      OpenThen(" " + x9, 2, 3, ts9);
    }
    var ts7 := [Short(a, None)] + ts8;
    assert Scan(x7, 2) == ts7 by {
      Space(x8, 2, ts8);
      ShortUnit("-" + a, a, 2, " " + x8, ts8);
    }
    var ts6 := [Word(q)] + ts7;
    assert Scan(x6, 2) == ts6 by {
      Space(x7, 2, ts7);
      WordUnit(q, 2, " " + x7, ts7);
    }
    var ts5 := [Open] + ts6;
    assert Scan(x5, 1) == ts5 by {
      Space(x6, 2, ts6);
      OpenThen(" " + x6, 1, 2, ts6);
    }
    var ts4 := [Short(b, None)] + ts5;
    assert Scan(x4, 1) == ts4 by {
      Space(x5, 1, ts5);
      ShortUnit("-" + b, b, 1, " " + x5, ts5);
    }
    var ts3 := [Word(p)] + ts4;
    assert Scan(x3, 1) == ts3 by {
      Space(x4, 1, ts4);
      WordUnit(p, 1, " " + x4, ts4);
    }
    var ts2 := [Open] + ts3;
    assert Scan(x2, 0) == ts2 by {
      Space(x3, 1, ts3);
      OpenThen(" " + x3, 0, 1, ts3);
    }
    var ts1 := [Short(a, None)] + ts2;
    assert Scan(x1, 0) == ts1 by {
      Space(x2, 0, ts2);
      ShortUnit("-" + a, a, 0, " " + x2, ts2);
    }
  }

  /** The parts of `-a=v` joined into one text. */
  lemma ShortValueLine(a: string, v: string)
    ensures CommandLine(["-" + (a + ("=" + v))]) == "-" + (a + ("=" + v)) + ""
  {
    CommandLineCons("-" + (a + ("=" + v)), []);
    assert ["-" + (a + ("=" + v))] + [] == ["-" + (a + ("=" + v))];
  }

  /** `-a=v`. */
  lemma ShortValueUnits(a: string, v: string)
    requires Name(a, 0) && Literal(v, false, false)
    ensures Scan(CommandLine(["-" + (a + ("=" + v))]), 0)
         == [Short(a, Some(v))] + []
  {
    var x1 := "-" + (a + ("=" + v)) + "";
    ShortValueLine(a, v);
    var ts1 := [Short(a, Some(v))] + [];
    assert Scan(x1, 0) == ts1 by {
      ShortValueUnit("-" + (a + ("=" + v)), a, v, 0, "", []);
    }
  }

  /** The parts of `-a [ -b w` joined into one text. */
  lemma DanglingGroupLine(a: string, b: string, w: string)
    ensures CommandLine(["-" + a, "[", "-" + b, w]) == "-" + a + (" " + ("[" + (" " + ("-" + b + (" " + (w + ""))))))
  {
    assert ["-" + a, "[", "-" + b, w] == ["-" + a] + (["["] + (["-" + b] + ([w])));
    CommandLineCons("-" + a, ["["] + (["-" + b] + ([w])));
    GapsCons("[", ["-" + b] + ([w]));
    GapsCons("-" + b, [w]);
    GapsCons(w, []);
    assert [w] + [] == [w];
  }

  /** `-a [ -b w`. */
  lemma DanglingGroupUnits(a: string, b: string, w: string)
    requires Name(a, 0) && Name(b, 1) && BareWord(w, 1)
    ensures Scan(CommandLine(["-" + a, "[", "-" + b, w]), 0)
         == [Short(a, None)] + ([Open] + ([Short(b, None)] + ([Word(w)] + [])))
  {
    var x4 := w + "";
    var x3 := "-" + b + (" " + x4);
    var x2 := "[" + (" " + x3);
    var x1 := "-" + a + (" " + x2);
    DanglingGroupLine(a, b, w);
    var ts4 := [Word(w)] + [];
    assert Scan(x4, 1) == ts4 by {
      WordUnit(w, 1, "", []);
    }
    var ts3 := [Short(b, None)] + ts4;
    assert Scan(x3, 1) == ts3 by {
      Space(x4, 1, ts4);
      ShortUnit("-" + b, b, 1, " " + x4, ts4);
    }
    var ts2 := [Open] + ts3;
    assert Scan(x2, 0) == ts2 by {
      Space(x3, 1, ts3);
      OpenThen(" " + x3, 0, 1, ts3);
    }
    var ts1 := [Short(a, None)] + ts2;
    assert Scan(x1, 0) == ts1 by {
      Space(x2, 0, ts2);
      ShortUnit("-" + a, a, 0, " " + x2, ts2);
    }
  }

  /** The parts of `-a "w` joined into one text. */
  lemma DanglingDoubleLine(a: string, w: string)
    ensures CommandLine(["-" + a, "\"" + w]) == "-" + a + (" " + ("\"" + w + ""))
  {
    assert ["-" + a, "\"" + w] == ["-" + a] + (["\"" + w]);
    CommandLineCons("-" + a, ["\"" + w]);
    GapsCons("\"" + w, []);
    assert ["\"" + w] + [] == ["\"" + w];
  }

  /** `-a "w`. */
  lemma DanglingDoubleUnits(a: string, w: string)
    requires Name(a, 0) && QuoteFree('"', w)
    ensures Scan(CommandLine(["-" + a, "\"" + w]), 0)
         == [Short(a, None)] + ([Word(w)] + [])
  {
    var x2 := "\"" + w + "";
    var x1 := "-" + a + (" " + x2);
    DanglingDoubleLine(a, w);
    var ts2 := [Word(w)] + [];
    assert Scan(x2, 0) == ts2 by {
      OpenQuoteUnit("\"" + w, '"', w, 0);
    }
    var ts1 := [Short(a, None)] + ts2;
    assert Scan(x1, 0) == ts1 by {
      Space(x2, 0, ts2);
      ShortUnit("-" + a, a, 0, " " + x2, ts2);
    }
  }

  /** The parts of `-a 'w` joined into one text. */
  lemma DanglingSingleLine(a: string, w: string)
    ensures CommandLine(["-" + a, "'" + w]) == "-" + a + (" " + ("'" + w + ""))
  {
    assert ["-" + a, "'" + w] == ["-" + a] + (["'" + w]);
    CommandLineCons("-" + a, ["'" + w]);
    GapsCons("'" + w, []);
    assert ["'" + w] + [] == ["'" + w];
  }

  /** `-a 'w`. */
  lemma DanglingSingleUnits(a: string, w: string)
    requires Name(a, 0) && QuoteFree('\'', w)
    ensures Scan(CommandLine(["-" + a, "'" + w]), 0)
         == [Short(a, None)] + ([Word(w)] + [])
  {
    var x2 := "'" + w + "";
    var x1 := "-" + a + (" " + x2);
    DanglingSingleLine(a, w);
    var ts2 := [Word(w)] + [];
    assert Scan(x2, 0) == ts2 by {
      OpenQuoteUnit("'" + w, '\'', w, 0);
    }
    var ts1 := [Short(a, None)] + ts2;
    assert Scan(x1, 0) == ts1 by {
      Space(x2, 0, ts2);
      ShortUnit("-" + a, a, 0, " " + x2, ts2);
    }
  }

  /** The parts of `"w""` joined into one text. */
  lemma StrayDoubleLine(w: string)
    ensures CommandLine(["\"" + (w + "\"\"")]) == "\"" + (w + "\"\"") + ""
  {
    CommandLineCons("\"" + (w + "\"\""), []);
    assert ["\"" + (w + "\"\"")] + [] == ["\"" + (w + "\"\"")];
  }

  /** `"w""`. */
  lemma StrayDoubleUnits(w: string)
    requires QuoteFree('"', w)
    ensures Scan(CommandLine(["\"" + (w + "\"\"")]), 0)
         == [Word(w)] + []
  {
    var x1 := "\"" + (w + "\"\"") + "";
    StrayDoubleLine(w);
    var ts1 := [Word(w)] + [];
    assert Scan(x1, 0) == ts1 by {
      StrayQuoteUnit("\"" + (w + "\"\""), '"', w, 0, "", []);
    }
  }

  /** The parts of `'w''` joined into one text. */
  lemma StraySingleLine(w: string)
    ensures CommandLine(["'" + (w + "''")]) == "'" + (w + "''") + ""
  {
    CommandLineCons("'" + (w + "''"), []);
    assert ["'" + (w + "''")] + [] == ["'" + (w + "''")];
  }

  /** `'w''`. */
  lemma StraySingleUnits(w: string)
    requires QuoteFree('\'', w)
    ensures Scan(CommandLine(["'" + (w + "''")]), 0)
         == [Word(w)] + []
  {
    var x1 := "'" + (w + "''") + "";
    StraySingleLine(w);
    var ts1 := [Word(w)] + [];
    assert Scan(x1, 0) == ts1 by {
      StrayQuoteUnit("'" + (w + "''"), '\'', w, 0, "", []);
    }
  }


  // ===== what the builder makes of those units =====

  /** Three long flags, none of them negated, each `true`. */
  lemma ThreeLongFlags(a: string, b: string, c: string)
    requires Affirmative(a) && Affirmative(b) && Affirmative(c)
    ensures Build([Long(a, None)] + ([Long(b, None)] + ([Long(c, None)] + [])), false, Empty).0
         == Result(map[a := T, b := T, c := T], [])
  {
    var r1 := SetFlag(Empty, a, T);
    var r2 := SetFlag(r1, b, T);
    LongPresent(a, [Long(b, None)] + ([Long(c, None)] + []), false, Empty);
    LongPresent(b, [Long(c, None)] + [], false, r1);
    LongPresent(c, [], false, r2);
  }

  /** Three `--no-` flags: each named flag `false`. */
  lemma ThreeNegatedLongFlags(a: string, b: string, c: string)
    requires |a| > 0 && |b| > 0 && |c| > 0
    ensures Build([Long("no-" + a, None)] + ([Long("no-" + b, None)] + ([Long("no-" + c, None)] + [])), false, Empty).0
         == Result(map[a := F, b := F, c := F], [])
  {
    var r1 := SetFlag(Empty, a, F);
    var r2 := SetFlag(r1, b, F);
    LongNegated(a, [Long("no-" + b, None)] + ([Long("no-" + c, None)] + []), false, Empty);
    LongNegated(b, [Long("no-" + c, None)] + [], false, r1);
    LongNegated(c, [], false, r2);
  }

  /** Three long flags with values: each value is its flag's String. */
  lemma ThreeLongAssigns(a: string, v: string, b: string, w: string, c: string, x: string)
    ensures Build([Long(a, Some(v))] + ([Long(b, Some(w))] + ([Long(c, Some(x))] + [])), false, Empty).0
         == Result(map[a := Str(v), b := Str(w), c := Str(x)], [])
  {
    var r1 := SetFlag(Empty, a, Str(v));
    var r2 := SetFlag(r1, b, Str(w));
    LongAssigns(a, v, [Long(b, Some(w))] + ([Long(c, Some(x))] + []), false, Empty);
    LongAssigns(b, w, [Long(c, Some(x))] + [], false, r1);
    LongAssigns(c, x, [], false, r2);
  }

  /** A lone long flag with a value. */
  lemma OneLongAssign(a: string, v: string)
    ensures Build([Long(a, Some(v))] + [], false, Empty).0
         == Result(map[a := Str(v)], [])
  {
    LongAssigns(a, v, [], false, Empty);
  }

  /** Three single-letter flags with nothing to take: each `true`. */
  lemma ThreeShortFlags(x: char, y: char, z: char)
    ensures Build([Short([x], None)] + ([Short([y], None)] + ([Short([z], None)] + [])), false, Empty).0
         == Result(map[[x] := T, [y] := T, [z] := T], [])
  {
    var r1 := SetFlag(Empty, [x], T);
    var r2 := SetFlag(r1, [y], T);
    ShortAloneIsTrue(x, [Short([y], None)] + ([Short([z], None)] + []), false, Empty);
    ShortAloneIsTrue(y, [Short([z], None)] + [], false, r1);
    ShortAloneIsTrue(z, [], false, r2);
  }

  /** A three-letter cluster: each of its letters `true`. */
  lemma ThreeLetterCluster(x: char, y: char, z: char)
    ensures Build([Short([x, y, z], None)] + [], false, Empty).0
         == Result(map[[x] := T, [y] := T, [z] := T], [])
  {
    NotNegated([x, y, z]);
    ClusterNeverTakes([x, y, z], [], false, Empty);
    SetEachThree(Empty, x, y, z, true);
  }

  /** Three `-no-` single letters: each `false`. */
  lemma ThreeNegatedShortFlags(x: char, y: char, z: char)
    ensures Build([Short("no-" + [x], None)] + ([Short("no-" + [y], None)] + ([Short("no-" + [z], None)] + [])), false, Empty).0
         == Result(map[[x] := F, [y] := F, [z] := F], [])
  {
    var r1 := SetEach(Empty, [x], false);
    var r2 := SetEach(r1, [y], false);
    NegatedNeverTakes([x], [Short("no-" + [y], None)] + ([Short("no-" + [z], None)] + []), false, Empty);
    NegatedNeverTakes([y], [Short("no-" + [z], None)] + [], false, r1);
    NegatedNeverTakes([z], [], false, r2);
    assert [x][1..] == [] && [y][1..] == [] && [z][1..] == [];
  }

  /** A negated three-letter cluster: each of its letters `false`. */
  lemma NegatedThreeLetterCluster(x: char, y: char, z: char)
    ensures Build([Short("no-" + [x, y, z], None)] + [], false, Empty).0
         == Result(map[[x] := F, [y] := F, [z] := F], [])
  {
    NegatedNeverTakes([x, y, z], [], false, Empty);
    SetEachThree(Empty, x, y, z, false);
  }

  /** Three single-letter flags, each followed by a word: each takes its word. */
  lemma ThreeShortWords(x: char, v: string, y: char, w: string, z: char, u: string)
    ensures Build([Short([x], None)] + ([Word(v)] + ([Short([y], None)] + ([Word(w)] + ([Short([z], None)] + ([Word(u)] + []))))), false, Empty).0
         == Result(map[[x] := Str(v), [y] := Str(w), [z] := Str(u)], [])
  {
    var r1 := SetFlag(Empty, [x], Str(v));
    var r2 := SetFlag(r1, [y], Str(w));
    ShortTakesWord(x, v, [Short([y], None)] + ([Word(w)] + ([Short([z], None)] + ([Word(u)] + []))), false, Empty);
    ShortTakesWord(y, w, [Short([z], None)] + ([Word(u)] + []), false, r1);
    ShortTakesWord(z, u, [], false, r2);
  }

  /** A single-letter flag followed by a word takes it. */
  lemma OneShortWord(x: char, v: string)
    ensures Build([Short([x], None)] + ([Word(v)] + []), false, Empty).0
         == Result(map[[x] := Str(v)], [])
  {
    ShortTakesWord(x, v, [], false, Empty);
  }

  /** A single-letter flag with `=value`. */
  lemma OneShortValue(x: char, v: string)
    ensures Build([Short([x], Some(v))] + [], false, Empty).0
         == Result(map[[x] := Str(v)], [])
  {
    ShortAssigns(x, v, [], false, Empty);
  }

  /** A lone word is the only positional. */
  lemma OneWord(w: string)
    ensures Build([Word(w)] + [], false, Empty).0
         == Result(map[], [w])
  {
    var r := Result(map[], [w]);
    assert Empty.(positionals := Empty.positionals + [w]) == r;
    WordIsPositional(w, [], false, Empty);
    assert Build([], false, r) == (r, []);
  }

  /** Three words are three positionals, in order. */
  lemma ThreeWords(a: string, b: string, c: string)
    ensures Build([Word(a)] + ([Word(b)] + ([Word(c)] + [])), false, Empty).0
         == Result(map[], [a, b, c])
  {
    var r1 := Result(map[], [a]);
    var r2 := Result(map[], [a, b]);
    var r3 := Result(map[], [a, b, c]);
    assert Empty.(positionals := Empty.positionals + [a]) == r1;
    assert r1.(positionals := r1.positionals + [b]) == r2;
    assert r2.(positionals := r2.positionals + [c]) == r3;
    WordIsPositional(a, [Word(b)] + ([Word(c)] + []), false, Empty);
    WordIsPositional(b, [Word(c)] + [], false, r1);
    WordIsPositional(c, [], false, r2);
    assert Build([], false, r3) == (r3, []);
  }

  /** A flag whose group holds two single letters and a long flag with a value. */
  lemma GroupOfFlags(t: char, x: char, y: char, l: string, v: string)
    ensures Build([Short([t], None)] + ([Open] + ([Short([x], None)] + ([Short([y], None)] + ([Long(l, Some(v))] + ([Close] + []))))), false, Empty).0
         == Result(map[[t] := Group(Result(map[[x] := T, [y] := T, l := Str(v)], []))], [])
  {
    var body := [Short([x], None)] + ([Short([y], None)] + ([Long(l, Some(v))] + ([Close] + [])));
    var g := Result(map[[x] := T, [y] := T, l := Str(v)], []);
    LettersThenAssign(x, y, l, v, [Close] + [], true, Empty);
    assert Empty.(flags := Empty.flags[[x] := T][[y] := T][l := Str(v)]) == g;
    BuildClose([], true, g);
    LetterGroupStep(t, body, false, Empty);
  }

  /** The same group with a word before its flags and one after. */
  lemma GroupOfFlagsAndWords(t: char, p: string, x: char, y: char, l: string, v: string, q: string)
    ensures Build([Short([t], None)] + ([Open] + ([Word(p)] + ([Short([x], None)] + ([Short([y], None)] + ([Long(l, Some(v))] + ([Word(q)] + ([Close] + []))))))), false, Empty).0
         == Result(map[[t] := Group(Result(map[[x] := T, [y] := T, l := Str(v)], [p, q]))], [])
  {
    var rest := [Short([x], None)] + ([Short([y], None)] + ([Long(l, Some(v))] + ([Word(q)] + ([Close] + []))));
    var g := Result(map[[x] := T, [y] := T, l := Str(v)], [p, q]);
    var g1 := Result(map[], [p]);
    var g4 := Result(map[[x] := T, [y] := T, l := Str(v)], [p]);
    assert Empty.(positionals := Empty.positionals + [p]) == g1;
    WordIsPositional(p, rest, true, Empty);
    LettersThenAssign(x, y, l, v, [Word(q)] + ([Close] + []), true, g1);
    assert g1.(flags := g1.flags[[x] := T][[y] := T][l := Str(v)]) == g4;
    WordIsPositional(q, [Close] + [], true, g4);
    assert g4.(positionals := g4.positionals + [q]) == g;
    BuildClose([], true, g);
    LetterGroupStep(t, [Word(p)] + rest, false, Empty);
  }

  /** A group holding a three-letter cluster, a word and a long flag with a value. */
  lemma GroupWithCluster(t: char, x: char, y: char, z: char, p: string, l: string, v: string)
    ensures Build([Short([t], None)] + ([Open] + ([Short([x, y, z], None)] + ([Word(p)] + ([Long(l, Some(v))] + ([Close] + []))))), false, Empty).0
         == Result(map[[t] := Group(Result(map[[x] := T, [y] := T, [z] := T, l := Str(v)], [p]))], [])
  {
    var rest := [Word(p)] + ([Long(l, Some(v))] + ([Close] + []));
    var g := Result(map[[x] := T, [y] := T, [z] := T, l := Str(v)], [p]);
    var g1 := Result(map[[x] := T, [y] := T, [z] := T], []);
    var g2 := Result(map[[x] := T, [y] := T, [z] := T], [p]);
    ClusterOfThree(x, y, z, rest, true, Empty);
    assert Empty.(flags := Empty.flags[[x] := T][[y] := T][[z] := T]) == g1;
    WordIsPositional(p, [Long(l, Some(v))] + ([Close] + []), true, g1);
    assert g1.(positionals := g1.positionals + [p]) == g2;
    LongAssigns(l, v, [Close] + [], true, g2);
    assert SetFlag(g2, l, Str(v)) == g;
    BuildClose([], true, g);
    LetterGroupStep(t, [Short([x, y, z], None)] + rest, false, Empty);
  }

  /** A group inside a group. */
  lemma GroupInGroup(a: char, b: char)
    ensures Build([Short([a], None)] + ([Open] + ([Short([b], None)] + ([Open] + ([Short([a], None)] + ([Close] + ([Close] + [])))))), false, Empty).0
         == Result(map[[a] := Group(Result(map[[b] := Group(Result(map[[a] := T], []))], []))], [])
  {
    var s2 := [Short([a], None)] + ([Close] + ([Close] + []));
    var s1 := [Short([b], None)] + ([Open] + s2);
    var g2 := Result(map[[a] := T], []);
    var g1 := Result(map[[b] := Group(g2)], []);
    assert Build(s2, true, Empty) == (g2, [Close] + []) by {
      ShortAloneIsTrue(a, [Close] + ([Close] + []), true, Empty);
      BuildClose([Close] + [], true, g2);
    }
    assert Build(s1, true, Empty) == (g1, []) by {
      LetterGroupStep(b, s2, true, Empty);
      BuildClose([], true, g1);
    }
    LetterGroupStep(a, s1, false, Empty);
  }

  /** Three groups, each inside the one before and each with a word of its own. */
  lemma ThreeLevels(a: char, p: string, b: char, q: string, r: string)
    ensures Build([Short([a], None)] + ([Open] + ([Word(p)] + ([Short([b], None)] + ([Open] + ([Word(q)] + ([Short([a], None)] + ([Open] + ([Word(r)] + ([Short([b], None)] + ([Close] + ([Close] + ([Close] + [])))))))))))), false, Empty).0
         == Result(map[[a] := Group(Result(map[[b] := Group(Result(map[[a] := Group(Result(map[[b] := T], [r]))], [q]))], [p]))], [])
  {
    var s3 := [Word(r)] + ([Short([b], None)] + ([Close] + ([Close] + ([Close] + []))));
    var s2 := [Word(q)] + ([Short([a], None)] + ([Open] + s3));
    var s1 := [Word(p)] + ([Short([b], None)] + ([Open] + s2));
    var g3 := Result(map[[b] := T], [r]);
    var g2 := Result(map[[a] := Group(g3)], [q]);
    var g1 := Result(map[[b] := Group(g2)], [p]);
    WordThenLetter(r, b, [Close] + ([Close] + []));
    WordThenLetterGroup(q, a, s3, g3, [Close] + ([Close] + []));
    BuildClose([Close] + [], true, g2);
    WordThenLetterGroup(p, b, s2, g2, [Close] + []);
    BuildClose([], true, g1);
    LetterGroupStep(a, s1, false, Empty);
  }

  /** A group that is never closed, holding a single-letter flag and its word. */
  lemma UnclosedGroupTakes(a: char, b: char, w: string)
    ensures Build([Short([a], None)] + ([Open] + ([Short([b], None)] + ([Word(w)] + []))), false, Empty).0
         == Result(map[[a] := Group(Result(map[[b] := Str(w)], []))], [])
  {
    LetterGroupStep(a, [Short([b], None)] + ([Word(w)] + []), false, Empty);
    ShortTakesWord(b, w, [], true, Empty);
  }


  // ===== long arguments =====

  /** `--one --two --three`: each long flag is `true`. */
  lemma LongFlagsAreTrue()
    ensures Parse(CommandLine(["--one", "--two", "--three"]))
         == Result(map["one" := T, "two" := T, "three" := T], [])
  {
    LongFlagsAreTrueText();
    PrintableUnquoted("one", false, true);
    assert Name("one", 0);
    PrintableUnquoted("two", false, true);
    assert Name("two", 0);
    PrintableUnquoted("three", false, true);
    assert Name("three", 0);
    ThreeLongsUnits("one", "two", "three");
    NotNegated("one");
    NotNegated("two");
    NotNegated("three");
    ThreeLongFlags("one", "two", "three");
  }

  /** `--no-one --no-two --no-three`: each named flag is `false`. */
  lemma NegatedLongFlagsAreFalse()
    ensures Parse(CommandLine(["--no-one", "--no-two", "--no-three"]))
         == Result(map["one" := F, "two" := F, "three" := F], [])
  {
    assert "no-one" == "no-" + "one";
    assert "no-two" == "no-" + "two";
    assert "no-three" == "no-" + "three";
    NegatedLongFlagsAreFalseText();
    PrintableUnquoted("no-one", false, true);
    assert Name("no-one", 0);
    PrintableUnquoted("no-two", false, true);
    assert Name("no-two", 0);
    PrintableUnquoted("no-three", false, true);
    assert Name("no-three", 0);
    ThreeLongsUnits("no-one", "no-two", "no-three");
    ThreeNegatedLongFlags("one", "two", "three");
  }

  /** `--one=two --two="three four" --three=val,val,val`: an `=value` is the
      flag's String; the quotes are stripped and the space between them kept. */
  lemma LongAssignments()
    ensures Parse(CommandLine(["--one=two", "--two=\"three four\"", "--three=val,val,val"]))
         == Result(map["one" := Str("two"), "two" := Str("three four"), "three" := Str("val,val,val")], [])
  {
    LongAssignmentsText();
    PrintableUnquoted("one", false, true);
    assert Name("one", 0);
    TwoIsLiteral();
    PrintableUnquoted("two", false, true);
    assert Name("two", 0);
    ThreeFourFitsInDoubleQuotes();
    PrintableUnquoted("three", false, true);
    assert Name("three", 0);
    ValValValIsLiteral();
    LongAssignUnits("one", "two", "two", "three four", "three", "val,val,val");
    ThreeLongAssigns("one", "two", "two", "three four", "three", "val,val,val");
  }

  /** `--one=<punctuation>`: brackets, `=`, `$` and a backslash before `/`
      all pass through into the value unchanged. */
  lemma LongComplexValue()
    ensures Parse(CommandLine(["--one=" + Punctuation])) == Result(map["one" := Str(Punctuation)], [])
  {
    assert "--one=" == "--" + ("one" + "=");
    Regroup("--", "one" + "=", Punctuation);
    Regroup("one", "=", Punctuation);
    PrintableUnquoted("one", false, true);
    assert Name("one", 0);
    PunctuationIsLiteral();
    LongValueUnits("one", Punctuation);
    OneLongAssign("one", Punctuation);
  }


  // ===== short arguments =====

  /** `-o -n -e`: each single-letter flag is `true`. */
  lemma ShortFlagsAreTrue()
    ensures Parse(CommandLine(["-o", "-n", "-e"]))
         == Result(map["o" := T, "n" := T, "e" := T], [])
  {
    ShortFlagsAreTrueText();
    PrintableUnquoted("o", false, true);
    assert Name("o", 0);
    PrintableUnquoted("n", false, true);
    assert Name("n", 0);
    PrintableUnquoted("e", false, true);
    assert Name("e", 0);
    ThreeShortsUnits("o", "n", "e");
    ThreeShortFlags('o', 'n', 'e');
  }

  /** `-one`: a cluster sets each of its letters `true`. */
  lemma ShortClusterIsTrue()
    ensures Parse(CommandLine(["-one"]))
         == Result(map["o" := T, "n" := T, "e" := T], [])
  {
    ShortClusterIsTrueText();
    PrintableUnquoted("one", false, true);
    assert Name("one", 0);
    OneShortUnits("one");
    ThreeLetterCluster('o', 'n', 'e');
  }

  /** `-no-o -no-n -no-e`: each negated letter is `false`. */
  lemma NegatedShortFlagsAreFalse()
    ensures Parse(CommandLine(["-no-o", "-no-n", "-no-e"]))
         == Result(map["o" := F, "n" := F, "e" := F], [])
  {
    assert "no-o" == "no-" + "o";
    assert "no-n" == "no-" + "n";
    assert "no-e" == "no-" + "e";
    NegatedShortFlagsAreFalseText();
    PrintableUnquoted("no-o", false, true);
    assert Name("no-o", 0);
    PrintableUnquoted("no-n", false, true);
    assert Name("no-n", 0);
    PrintableUnquoted("no-e", false, true);
    assert Name("no-e", 0);
    ThreeShortsUnits("no-o", "no-n", "no-e");
    ThreeNegatedShortFlags('o', 'n', 'e');
  }

  /** `-no-one`: a negated cluster sets each of its letters `false`. */
  lemma NegatedShortClusterIsFalse()
    ensures Parse(CommandLine(["-no-one"]))
         == Result(map["o" := F, "n" := F, "e" := F], [])
  {
    assert "no-one" == "no-" + "one";
    NegatedShortClusterIsFalseText();
    PrintableUnquoted("no-one", false, true);
    assert Name("no-one", 0);
    OneShortUnits("no-one");
    NegatedThreeLetterCluster('o', 'n', 'e');
  }

  /** `-o two -n "three four" -e val,val,val`: a single-letter flag takes the
      word after it, quoted or not, as its String. */
  lemma ShortAssignments()
    ensures Parse(CommandLine(["-o", "two", "-n", "\"three four\"", "-e", "val,val,val"]))
         == Result(map["o" := Str("two"), "n" := Str("three four"), "e" := Str("val,val,val")], [])
  {
    ShortAssignmentsText();
    PrintableUnquoted("o", false, true);
    assert Name("o", 0);
    TwoIsBare();
    PrintableUnquoted("n", false, true);
    assert Name("n", 0);
    ThreeFourFitsInDoubleQuotes();
    PrintableUnquoted("e", false, true);
    assert Name("e", 0);
    ValValValIsBare();
    ShortWordsUnits("o", "two", "n", "three four", "e", "val,val,val");
    ThreeShortWords('o', "two", 'n', "three four", 'e', "val,val,val");
  }

  /** `-o <punctuation>`: the word after a single-letter flag is its value,
      brackets, `=` and the backslash included. */
  lemma ShortComplexValue()
    ensures Parse(CommandLine(["-o", Punctuation]))
         == Result(map["o" := Str(Punctuation)], [])
  {
    ShortComplexValueText();
    PrintableUnquoted("o", false, true);
    assert Name("o", 0);
    PunctuationIsLiteral();
    ShortWordUnits("o", Punctuation);
    OneShortWord('o', Punctuation);
  }


  // ===== positional arguments =====

  /** `argument`: a lone word is the one positional. */
  lemma SinglePositional()
    ensures Parse(CommandLine(["argument"]))
         == Result(map[], ["argument"])
  {
    ArgumentIsBare();
    WordUnits("argument");
    OneWord("argument");
  }

  /** `argument1 argument2 argument3`: words are positionals, in order. */
  lemma MultiplePositionals()
    ensures Parse(CommandLine(["argument1", "argument2", "argument3"]))
         == Result(map[], ["argument1", "argument2", "argument3"])
  {
    Argument1IsBare();
    Argument2IsBare();
    Argument3IsBare();
    ThreeWordsUnits("argument1", "argument2", "argument3");
    ThreeWords("argument1", "argument2", "argument3");
  }


  // ===== groups =====

  /** `-t [ -n -e --long=short ]`: the flags between the brackets belong to
      the group, which is the value of `t`. */
  lemma GroupSpaced()
    ensures Parse(CommandLine(["-t", "[", "-n", "-e", "--long=short", "]"]))
         == Result(map["t" := Group(Result(map["n" := T, "e" := T, "long" := Str("short")], []))], [])
  {
    GroupSpacedText();
    PrintableUnquoted("t", false, true);
    assert Name("t", 0);
    PrintableUnquoted("n", true, true);
    assert Name("n", 1);
    PrintableUnquoted("e", true, true);
    assert Name("e", 1);
    PrintableUnquoted("long", true, true);
    assert Name("long", 1);
    ShortIsLiteralInGroup();
    SpacedGroupUnits("t", "n", "e", "long", "short");
    GroupOfFlags('t', 'n', 'e', "long", "short");
  }

  /** `-t [-n -e --long=short]`: the same group with its brackets against
      the units inside. */
  lemma GroupGlued()
    ensures Parse(CommandLine(["-t", "[-n", "-e", "--long=short]"]))
         == Result(map["t" := Group(Result(map["n" := T, "e" := T, "long" := Str("short")], []))], [])
  {
    GroupGluedText();
    PrintableUnquoted("t", false, true);
    assert Name("t", 0);
    PrintableUnquoted("n", true, true);
    assert Name("n", 1);
    PrintableUnquoted("e", true, true);
    assert Name("e", 1);
    PrintableUnquoted("long", true, true);
    assert Name("long", 1);
    ShortIsLiteralInGroup();
    GluedGroupUnits("t", "n", "e", "long", "short");
    GroupOfFlags('t', 'n', 'e', "long", "short");
  }

  /** `-t [ one -n -e --long=short two ]`: words inside the group are the
      group's positionals. */
  lemma GroupSpacedWithPositionals()
    ensures Parse(CommandLine(["-t", "[", "one", "-n", "-e", "--long=short", "two", "]"]))
         == Result(map["t" := Group(Result(map["n" := T, "e" := T, "long" := Str("short")], ["one", "two"]))], [])
  {
    GroupSpacedWithPositionalsText();
    PrintableUnquoted("t", false, true);
    assert Name("t", 0);
    OneIsBareInGroup();
    PrintableUnquoted("n", true, true);
    assert Name("n", 1);
    PrintableUnquoted("e", true, true);
    assert Name("e", 1);
    PrintableUnquoted("long", true, true);
    assert Name("long", 1);
    ShortIsLiteralInGroup();
    TwoIsBareInGroup();
    SpacedGroupWordsUnits("t", "one", "n", "e", "long", "short", "two");
    GroupOfFlagsAndWords('t', "one", 'n', 'e', "long", "short", "two");
  }

  /** `-t [one -n -e --long=short two]`: the same with the brackets against
      the words. */
  lemma GroupGluedWithPositionals()
    ensures Parse(CommandLine(["-t", "[one", "-n", "-e", "--long=short", "two]"]))
         == Result(map["t" := Group(Result(map["n" := T, "e" := T, "long" := Str("short")], ["one", "two"]))], [])
  {
    GroupGluedWithPositionalsText();
    PrintableUnquoted("t", false, true);
    assert Name("t", 0);
    OneIsBareInGroup();
    PrintableUnquoted("n", true, true);
    assert Name("n", 1);
    PrintableUnquoted("e", true, true);
    assert Name("e", 1);
    PrintableUnquoted("long", true, true);
    assert Name("long", 1);
    ShortIsLiteralInGroup();
    TwoIsBareInGroup();
    GluedGroupWordsUnits("t", "one", "n", "e", "long", "short", "two");
    GroupOfFlagsAndWords('t', "one", 'n', 'e', "long", "short", "two");
  }

  /** `-t [-new pos --long=short]`: a cluster takes no word, so `pos` is a
      positional of the group; the `]` after a value closes the group. */
  lemma GroupGluedEndingInValue()
    ensures Parse(CommandLine(["-t", "[-new", "pos", "--long=short]"]))
         == Result(map["t" := Group(Result(map["n" := T, "e" := T, "w" := T, "long" := Str("short")], ["pos"]))], [])
  {
    GroupGluedEndingInValueText();
    PrintableUnquoted("t", false, true);
    assert Name("t", 0);
    PrintableUnquoted("new", true, true);
    assert Name("new", 1);
    PosIsBareInGroup();
    PrintableUnquoted("long", true, true);
    assert Name("long", 1);
    ShortIsLiteralInGroup();
    GluedClusterUnits("t", "new", "pos", "long", "short");
    GroupWithCluster('t', 'n', 'e', 'w', "pos", "long", "short");
  }

  /** `-t [ -new pos --long=short]`: the same, spaced after the `[`. */
  lemma GroupFrontSpacedEndingInValue()
    ensures Parse(CommandLine(["-t", "[", "-new", "pos", "--long=short]"]))
         == Result(map["t" := Group(Result(map["n" := T, "e" := T, "w" := T, "long" := Str("short")], ["pos"]))], [])
  {
    GroupFrontSpacedEndingInValueText();
    PrintableUnquoted("t", false, true);
    assert Name("t", 0);
    PrintableUnquoted("new", true, true);
    assert Name("new", 1);
    PosIsBareInGroup();
    PrintableUnquoted("long", true, true);
    assert Name("long", 1);
    ShortIsLiteralInGroup();
    FrontSpacedClusterUnits("t", "new", "pos", "long", "short");
    GroupWithCluster('t', 'n', 'e', 'w', "pos", "long", "short");
  }

  /** `-t [-new pos --long=short ]`: the same, spaced before the `]`. */
  lemma GroupTailSpacedEndingInValue()
    ensures Parse(CommandLine(["-t", "[-new", "pos", "--long=short", "]"]))
         == Result(map["t" := Group(Result(map["n" := T, "e" := T, "w" := T, "long" := Str("short")], ["pos"]))], [])
  {
    GroupTailSpacedEndingInValueText();
    PrintableUnquoted("t", false, true);
    assert Name("t", 0);
    PrintableUnquoted("new", true, true);
    assert Name("new", 1);
    PosIsBareInGroup();
    PrintableUnquoted("long", true, true);
    assert Name("long", 1);
    ShortIsLiteralInGroup();
    TailSpacedClusterUnits("t", "new", "pos", "long", "short");
    GroupWithCluster('t', 'n', 'e', 'w', "pos", "long", "short");
  }

  /** `-z [ -Z [ -z ] ]`: a group inside a group; `z` and `Z` are different
      flags. */
  lemma GroupsDepthTwo()
    ensures Parse(CommandLine(["-z", "[", "-Z", "[", "-z", "]", "]"]))
         == Result(map["z" := Group(Result(map["Z" := Group(Result(map["z" := T], []))], []))], [])
  {
    GroupsDepthTwoText();
    PrintableUnquoted("z", false, true);
    assert Name("z", 0);
    PrintableUnquoted("Z", true, true);
    assert Name("Z", 1);
    PrintableUnquoted("z", true, true);
    assert Name("z", 2);
    DepthTwoUnits("z", "Z");
    GroupInGroup('z', 'Z');
  }

  /** `-z [ sub1 -Z [ sub2 -z [ sub3 -Z ] ] ]`: each level keeps its own
      positionals. */
  lemma GroupsDepthThree()
    ensures Parse(CommandLine(["-z", "[", "sub1", "-Z", "[", "sub2", "-z", "[", "sub3", "-Z", "]", "]", "]"]))
         == Result(map["z" := Group(Result(map["Z" := Group(Result(map["z" := Group(Result(map["Z" := T], ["sub3"]))], ["sub2"]))], ["sub1"]))], [])
  {
    GroupsDepthThreeText();
    PrintableUnquoted("z", false, true);
    assert Name("z", 0);
    Sub1IsBareInGroup();
    PrintableUnquoted("Z", true, true);
    assert Name("Z", 1);
    Sub2IsBareInGroup();
    PrintableUnquoted("z", true, true);
    assert Name("z", 2);
    Sub3IsBareInGroup();
    PrintableUnquoted("Z", true, true);
    assert Name("Z", 3);
    DepthThreeUnits("z", "sub1", "Z", "sub2", "sub3");
    ThreeLevels('z', "sub1", 'Z', "sub2", "sub3");
  }


  // ===== error recovery =====

  /** `-Z=two`: a single-letter flag may be assigned with `=`. */
  lemma ShortAssignWithEquals()
    ensures Parse(CommandLine(["-Z=two"]))
         == Result(map["Z" := Str("two")], [])
  {
    ShortAssignWithEqualsText();
    PrintableUnquoted("Z", false, true);
    assert Name("Z", 0);
    TwoIsLiteral();
    ShortValueUnits("Z", "two");
    OneShortValue('Z', "two");
  }

  /** `-Z [ -z pos`: a group whose `]` never comes ends with the input. */
  lemma DanglingGroup()
    ensures Parse(CommandLine(["-Z", "[", "-z", "pos"]))
         == Result(map["Z" := Group(Result(map["z" := Str("pos")], []))], [])
  {
    DanglingGroupText();
    PrintableUnquoted("Z", false, true);
    assert Name("Z", 0);
    PrintableUnquoted("z", true, true);
    assert Name("z", 1);
    PosIsBareInGroup();
    DanglingGroupUnits("Z", "z", "pos");
    UnclosedGroupTakes('Z', 'z', "pos");
  }

  /** `-Z "value`: a quote that is never closed runs to the end of the input. */
  lemma DanglingDoubleQuote()
    ensures Parse(CommandLine(["-Z", "\"value"]))
         == Result(map["Z" := Str("value")], [])
  {
    DanglingDoubleQuoteText();
    PrintableUnquoted("Z", false, true);
    assert Name("Z", 0);
    ValueFitsInDoubleQuotes();
    DanglingDoubleUnits("Z", "value");
    OneShortWord('Z', "value");
  }

  /** `-Z 'value`: the same with a single quote. */
  lemma DanglingSingleQuote()
    ensures Parse(CommandLine(["-Z", "'value"]))
         == Result(map["Z" := Str("value")], [])
  {
    DanglingSingleQuoteText();
    PrintableUnquoted("Z", false, true);
    assert Name("Z", 0);
    ValueFitsInSingleQuotes();
    DanglingSingleUnits("Z", "value");
    OneShortWord('Z', "value");
  }

  /** `"value""`: a doubled closing quote is dropped. */
  lemma StrayDoubleQuote()
    ensures Parse(CommandLine(["\"value\"\""]))
         == Result(map[], ["value"])
  {
    StrayDoubleQuoteText();
    ValueFitsInDoubleQuotes();
    StrayDoubleUnits("value");
    OneWord("value");
  }

  /** `'value''`: the same with single quotes. */
  lemma StraySingleQuote()
    ensures Parse(CommandLine(["'value''"]))
         == Result(map[], ["value"])
  {
    StraySingleQuoteText();
    ValueFitsInSingleQuotes();
    StraySingleUnits("value");
    OneWord("value");
  }


  // ===== the words of the scenarios, one fact each =====

  lemma TwoIsLiteral()
    ensures Literal("two", false, false)
  {
    PrintableUnquoted("two", false, false);
    LiteralWhen("two", false, false);
  }

  lemma ThreeFourFitsInDoubleQuotes()
    ensures QuoteFree('"', "three four")
  {
  }

  lemma ValValValIsLiteral()
    ensures Literal("val,val,val", false, false)
  {
    PrintableUnquoted("val,val,val", false, false);
    LiteralWhen("val,val,val", false, false);
  }

  lemma TwoIsBare()
    ensures BareWord("two", 0)
  {
    PrintableUnquoted("two", false, false);
    LiteralWhen("two", false, false);
  }

  lemma ValValValIsBare()
    ensures BareWord("val,val,val", 0)
  {
    PrintableUnquoted("val,val,val", false, false);
    LiteralWhen("val,val,val", false, false);
  }

  lemma ArgumentIsBare()
    ensures BareWord("argument", 0)
  {
    PrintableUnquoted("argument", false, false);
    LiteralWhen("argument", false, false);
  }

  lemma Argument1IsBare()
    ensures BareWord("argument1", 0)
  {
    PrintableUnquoted("argument1", false, false);
    LiteralWhen("argument1", false, false);
  }

  lemma Argument2IsBare()
    ensures BareWord("argument2", 0)
  {
    PrintableUnquoted("argument2", false, false);
    LiteralWhen("argument2", false, false);
  }

  lemma Argument3IsBare()
    ensures BareWord("argument3", 0)
  {
    PrintableUnquoted("argument3", false, false);
    LiteralWhen("argument3", false, false);
  }

  lemma ShortIsLiteralInGroup()
    ensures Literal("short", true, false)
  {
    PrintableUnquoted("short", true, false);
    LiteralWhen("short", true, false);
  }

  lemma OneIsBareInGroup()
    ensures BareWord("one", 1)
  {
    PrintableUnquoted("one", true, false);
    LiteralWhen("one", true, false);
  }

  lemma TwoIsBareInGroup()
    ensures BareWord("two", 1)
  {
    PrintableUnquoted("two", true, false);
    LiteralWhen("two", true, false);
  }

  lemma PosIsBareInGroup()
    ensures BareWord("pos", 1)
  {
    PrintableUnquoted("pos", true, false);
    LiteralWhen("pos", true, false);
  }

  lemma Sub1IsBareInGroup()
    ensures BareWord("sub1", 1)
  {
    PrintableUnquoted("sub1", true, false);
    LiteralWhen("sub1", true, false);
  }

  lemma Sub2IsBareInGroup()
    ensures BareWord("sub2", 2)
  {
    PrintableUnquoted("sub2", true, false);
    LiteralWhen("sub2", true, false);
  }

  lemma Sub3IsBareInGroup()
    ensures BareWord("sub3", 3)
  {
    PrintableUnquoted("sub3", true, false);
    LiteralWhen("sub3", true, false);
  }

  lemma ValueFitsInDoubleQuotes()
    ensures QuoteFree('"', "value")
  {
  }

  lemma ValueFitsInSingleQuotes()
    ensures QuoteFree('\'', "value")
  {
  }


  // ===== the command lines of the scenarios, split into parts =====

  /** The words of `LongFlagsAreTrue`, each split into its parts. */
  lemma LongFlagsAreTrueText()
    ensures ["--one", "--two", "--three"]
         == ["--" + "one", "--" + "two", "--" + "three"]
  {
    assert "--one" == "--" + "one";
    assert "--two" == "--" + "two";
    assert "--three" == "--" + "three";
  }

  /** The words of `NegatedLongFlagsAreFalse`, each split into its parts. */
  lemma NegatedLongFlagsAreFalseText()
    ensures ["--no-one", "--no-two", "--no-three"]
         == ["--" + "no-one", "--" + "no-two", "--" + "no-three"]
  {
    assert "--no-one" == "--" + "no-one";
    assert "--no-two" == "--" + "no-two";
    assert "--no-three" == "--" + "no-three";
  }

  lemma LongAssignmentsWord1()
    ensures "--one=two" == "--" + ("one" + ("=" + "two"))
  {
    assert "=two" == "=" + "two";
    assert "one=two" == "one" + "=two";
    assert "--one=two" == "--" + "one=two";
  }

  lemma LongAssignmentsWord2Part3()
    ensures "=\"three four\"" == "=" + ("\"" + ("three four" + "\""))
  {
    assert "three four\"" == "three four" + "\"";
    assert "\"three four\"" == "\"" + "three four\"";
    assert "=\"three four\"" == "=" + "\"three four\"";
  }

  lemma LongAssignmentsWord2Part2()
    ensures "two=\"three four\"" == "two" + ("=" + ("\"" + ("three four" + "\"")))
  {
    LongAssignmentsWord2Part3();
    assert "two=\"three four\"" == "two" + "=\"three four\"";
  }

  lemma LongAssignmentsWord2()
    ensures "--two=\"three four\"" == "--" + ("two" + ("=" + ("\"" + ("three four" + "\""))))
  {
    LongAssignmentsWord2Part2();
    assert "--two=\"three four\"" == "--" + "two=\"three four\"";
  }

  lemma LongAssignmentsWord3()
    ensures "--three=val,val,val" == "--" + ("three" + ("=" + "val,val,val"))
  {
    assert "=val,val,val" == "=" + "val,val,val";
    assert "three=val,val,val" == "three" + "=val,val,val";
    assert "--three=val,val,val" == "--" + "three=val,val,val";
  }

  /** The words of `LongAssignments`, each split into its parts. */
  lemma LongAssignmentsText()
    ensures ["--one=two", "--two=\"three four\"", "--three=val,val,val"]
         == ["--" + ("one" + ("=" + "two")), "--" + ("two" + ("=" + ("\"" + ("three four" + "\"")))), "--" + ("three" + ("=" + "val,val,val"))]
  {
    LongAssignmentsWord1();
    LongAssignmentsWord2();
    LongAssignmentsWord3();
  }

  /** The words of `ShortFlagsAreTrue`, each split into its parts. */
  lemma ShortFlagsAreTrueText()
    ensures ["-o", "-n", "-e"]
         == ["-" + "o", "-" + "n", "-" + "e"]
  {
    assert "-o" == "-" + "o";
    assert "-n" == "-" + "n";
    assert "-e" == "-" + "e";
  }

  /** The words of `ShortClusterIsTrue`, each split into its parts. */
  lemma ShortClusterIsTrueText()
    ensures ["-one"]
         == ["-" + "one"]
  {
    assert "-one" == "-" + "one";
  }

  /** The words of `NegatedShortFlagsAreFalse`, each split into its parts. */
  lemma NegatedShortFlagsAreFalseText()
    ensures ["-no-o", "-no-n", "-no-e"]
         == ["-" + "no-o", "-" + "no-n", "-" + "no-e"]
  {
    assert "-no-o" == "-" + "no-o";
    assert "-no-n" == "-" + "no-n";
    assert "-no-e" == "-" + "no-e";
  }

  /** The words of `NegatedShortClusterIsFalse`, each split into its parts. */
  lemma NegatedShortClusterIsFalseText()
    ensures ["-no-one"]
         == ["-" + "no-one"]
  {
    assert "-no-one" == "-" + "no-one";
  }

  lemma ShortAssignmentsWord1()
    ensures "-o" == "-" + "o"
  {
    assert "-o" == "-" + "o";
  }

  lemma ShortAssignmentsWord3()
    ensures "-n" == "-" + "n"
  {
    assert "-n" == "-" + "n";
  }

  lemma ShortAssignmentsWord4()
    ensures "\"three four\"" == "\"" + ("three four" + "\"")
  {
    assert "three four\"" == "three four" + "\"";
    assert "\"three four\"" == "\"" + "three four\"";
  }

  lemma ShortAssignmentsWord5()
    ensures "-e" == "-" + "e"
  {
    assert "-e" == "-" + "e";
  }

  /** The words of `ShortAssignments`, each split into its parts. */
  lemma ShortAssignmentsText()
    ensures ["-o", "two", "-n", "\"three four\"", "-e", "val,val,val"]
         == ["-" + "o", "two", "-" + "n", "\"" + ("three four" + "\""), "-" + "e", "val,val,val"]
  {
    ShortAssignmentsWord1();
    ShortAssignmentsWord3();
    ShortAssignmentsWord4();
    ShortAssignmentsWord5();
  }

  /** The words of `ShortComplexValue`, each split into its parts. */
  lemma ShortComplexValueText()
    ensures ["-o", Punctuation]
         == ["-" + "o", Punctuation]
  {
    assert "-o" == "-" + "o";
  }

  lemma GroupSpacedWord1()
    ensures "-t" == "-" + "t"
  {
    assert "-t" == "-" + "t";
  }

  lemma GroupSpacedWord3()
    ensures "-n" == "-" + "n"
  {
    assert "-n" == "-" + "n";
  }

  lemma GroupSpacedWord4()
    ensures "-e" == "-" + "e"
  {
    assert "-e" == "-" + "e";
  }

  lemma GroupSpacedWord5()
    ensures "--long=short" == "--" + ("long" + ("=" + "short"))
  {
    assert "=short" == "=" + "short";
    assert "long=short" == "long" + "=short";
    assert "--long=short" == "--" + "long=short";
  }

  /** The words of `GroupSpaced`, each split into its parts. */
  lemma GroupSpacedText()
    ensures ["-t", "[", "-n", "-e", "--long=short", "]"]
         == ["-" + "t", "[", "-" + "n", "-" + "e", "--" + ("long" + ("=" + "short")), "]"]
  {
    GroupSpacedWord1();
    GroupSpacedWord3();
    GroupSpacedWord4();
    GroupSpacedWord5();
  }

  lemma GroupGluedWord1()
    ensures "-t" == "-" + "t"
  {
    assert "-t" == "-" + "t";
  }

  lemma GroupGluedWord2()
    ensures "[-n" == "[" + ("-" + "n")
  {
    assert "-n" == "-" + "n";
    assert "[-n" == "[" + "-n";
  }

  lemma GroupGluedWord3()
    ensures "-e" == "-" + "e"
  {
    assert "-e" == "-" + "e";
  }

  lemma GroupGluedWord4Part2()
    ensures "]" == "]"
  {
  }

  lemma GroupGluedWord4()
    ensures "--long=short]" == ("--" + ("long" + ("=" + "short"))) + "]"
  {
    GroupGluedWord4Part2();
    assert "=short" == "=" + "short";
    assert "long=short" == "long" + "=short";
    assert "--long=short" == "--" + "long=short";
    assert "--long=short]" == "--long=short" + "]";
  }

  /** The words of `GroupGlued`, each split into its parts. */
  lemma GroupGluedText()
    ensures ["-t", "[-n", "-e", "--long=short]"]
         == ["-" + "t", "[" + ("-" + "n"), "-" + "e", ("--" + ("long" + ("=" + "short"))) + "]"]
  {
    GroupGluedWord1();
    GroupGluedWord2();
    GroupGluedWord3();
    GroupGluedWord4();
  }

  lemma GroupSpacedWithPositionalsWord1()
    ensures "-t" == "-" + "t"
  {
    assert "-t" == "-" + "t";
  }

  lemma GroupSpacedWithPositionalsWord4()
    ensures "-n" == "-" + "n"
  {
    assert "-n" == "-" + "n";
  }

  lemma GroupSpacedWithPositionalsWord5()
    ensures "-e" == "-" + "e"
  {
    assert "-e" == "-" + "e";
  }

  lemma GroupSpacedWithPositionalsWord6()
    ensures "--long=short" == "--" + ("long" + ("=" + "short"))
  {
    assert "=short" == "=" + "short";
    assert "long=short" == "long" + "=short";
    assert "--long=short" == "--" + "long=short";
  }

  /** The words of `GroupSpacedWithPositionals`, each split into its parts. */
  lemma GroupSpacedWithPositionalsText()
    ensures ["-t", "[", "one", "-n", "-e", "--long=short", "two", "]"]
         == ["-" + "t", "[", "one", "-" + "n", "-" + "e", "--" + ("long" + ("=" + "short")), "two", "]"]
  {
    GroupSpacedWithPositionalsWord1();
    GroupSpacedWithPositionalsWord4();
    GroupSpacedWithPositionalsWord5();
    GroupSpacedWithPositionalsWord6();
  }

  lemma GroupGluedWithPositionalsWord1()
    ensures "-t" == "-" + "t"
  {
    assert "-t" == "-" + "t";
  }

  lemma GroupGluedWithPositionalsWord2()
    ensures "[one" == "[" + "one"
  {
    assert "[one" == "[" + "one";
  }

  lemma GroupGluedWithPositionalsWord3()
    ensures "-n" == "-" + "n"
  {
    assert "-n" == "-" + "n";
  }

  lemma GroupGluedWithPositionalsWord4()
    ensures "-e" == "-" + "e"
  {
    assert "-e" == "-" + "e";
  }

  lemma GroupGluedWithPositionalsWord5()
    ensures "--long=short" == "--" + ("long" + ("=" + "short"))
  {
    assert "=short" == "=" + "short";
    assert "long=short" == "long" + "=short";
    assert "--long=short" == "--" + "long=short";
  }

  lemma GroupGluedWithPositionalsWord6()
    ensures "two]" == "two" + "]"
  {
    assert "two]" == "two" + "]";
  }

  /** The words of `GroupGluedWithPositionals`, each split into its parts. */
  lemma GroupGluedWithPositionalsText()
    ensures ["-t", "[one", "-n", "-e", "--long=short", "two]"]
         == ["-" + "t", "[" + "one", "-" + "n", "-" + "e", "--" + ("long" + ("=" + "short")), "two" + "]"]
  {
    GroupGluedWithPositionalsWord1();
    GroupGluedWithPositionalsWord2();
    GroupGluedWithPositionalsWord3();
    GroupGluedWithPositionalsWord4();
    GroupGluedWithPositionalsWord5();
    GroupGluedWithPositionalsWord6();
  }

  lemma GroupGluedEndingInValueWord1()
    ensures "-t" == "-" + "t"
  {
    assert "-t" == "-" + "t";
  }

  lemma GroupGluedEndingInValueWord2()
    ensures "[-new" == "[" + ("-" + "new")
  {
    assert "-new" == "-" + "new";
    assert "[-new" == "[" + "-new";
  }

  lemma GroupGluedEndingInValueWord4Part2()
    ensures "]" == "]"
  {
  }

  lemma GroupGluedEndingInValueWord4()
    ensures "--long=short]" == ("--" + ("long" + ("=" + "short"))) + "]"
  {
    GroupGluedEndingInValueWord4Part2();
    assert "=short" == "=" + "short";
    assert "long=short" == "long" + "=short";
    assert "--long=short" == "--" + "long=short";
    assert "--long=short]" == "--long=short" + "]";
  }

  /** The words of `GroupGluedEndingInValue`, each split into its parts. */
  lemma GroupGluedEndingInValueText()
    ensures ["-t", "[-new", "pos", "--long=short]"]
         == ["-" + "t", "[" + ("-" + "new"), "pos", ("--" + ("long" + ("=" + "short"))) + "]"]
  {
    GroupGluedEndingInValueWord1();
    GroupGluedEndingInValueWord2();
    GroupGluedEndingInValueWord4();
  }

  lemma GroupFrontSpacedEndingInValueWord1()
    ensures "-t" == "-" + "t"
  {
    assert "-t" == "-" + "t";
  }

  lemma GroupFrontSpacedEndingInValueWord3()
    ensures "-new" == "-" + "new"
  {
    assert "-new" == "-" + "new";
  }

  lemma GroupFrontSpacedEndingInValueWord5Part2()
    ensures "]" == "]"
  {
  }

  lemma GroupFrontSpacedEndingInValueWord5()
    ensures "--long=short]" == ("--" + ("long" + ("=" + "short"))) + "]"
  {
    GroupFrontSpacedEndingInValueWord5Part2();
    assert "=short" == "=" + "short";
    assert "long=short" == "long" + "=short";
    assert "--long=short" == "--" + "long=short";
    assert "--long=short]" == "--long=short" + "]";
  }

  /** The words of `GroupFrontSpacedEndingInValue`, each split into its parts. */
  lemma GroupFrontSpacedEndingInValueText()
    ensures ["-t", "[", "-new", "pos", "--long=short]"]
         == ["-" + "t", "[", "-" + "new", "pos", ("--" + ("long" + ("=" + "short"))) + "]"]
  {
    GroupFrontSpacedEndingInValueWord1();
    GroupFrontSpacedEndingInValueWord3();
    GroupFrontSpacedEndingInValueWord5();
  }

  lemma GroupTailSpacedEndingInValueWord1()
    ensures "-t" == "-" + "t"
  {
    assert "-t" == "-" + "t";
  }

  lemma GroupTailSpacedEndingInValueWord2()
    ensures "[-new" == "[" + ("-" + "new")
  {
    assert "-new" == "-" + "new";
    assert "[-new" == "[" + "-new";
  }

  lemma GroupTailSpacedEndingInValueWord4()
    ensures "--long=short" == "--" + ("long" + ("=" + "short"))
  {
    assert "=short" == "=" + "short";
    assert "long=short" == "long" + "=short";
    assert "--long=short" == "--" + "long=short";
  }

  /** The words of `GroupTailSpacedEndingInValue`, each split into its parts. */
  lemma GroupTailSpacedEndingInValueText()
    ensures ["-t", "[-new", "pos", "--long=short", "]"]
         == ["-" + "t", "[" + ("-" + "new"), "pos", "--" + ("long" + ("=" + "short")), "]"]
  {
    GroupTailSpacedEndingInValueWord1();
    GroupTailSpacedEndingInValueWord2();
    GroupTailSpacedEndingInValueWord4();
  }

  /** The words of `GroupsDepthTwo`, each split into its parts. */
  lemma GroupsDepthTwoText()
    ensures ["-z", "[", "-Z", "[", "-z", "]", "]"]
         == ["-" + "z", "[", "-" + "Z", "[", "-" + "z", "]", "]"]
  {
    assert "-z" == "-" + "z";
    assert "-Z" == "-" + "Z";
    assert "-z" == "-" + "z";
  }

  lemma GroupsDepthThreeWord1()
    ensures "-z" == "-" + "z"
  {
    assert "-z" == "-" + "z";
  }

  lemma GroupsDepthThreeWord4()
    ensures "-Z" == "-" + "Z"
  {
    assert "-Z" == "-" + "Z";
  }

  lemma GroupsDepthThreeWord7()
    ensures "-z" == "-" + "z"
  {
    assert "-z" == "-" + "z";
  }

  lemma GroupsDepthThreeWord10()
    ensures "-Z" == "-" + "Z"
  {
    assert "-Z" == "-" + "Z";
  }

  /** The words of `GroupsDepthThree`, each split into its parts. */
  lemma GroupsDepthThreeText()
    ensures ["-z", "[", "sub1", "-Z", "[", "sub2", "-z", "[", "sub3", "-Z", "]", "]", "]"]
         == ["-" + "z", "[", "sub1", "-" + "Z", "[", "sub2", "-" + "z", "[", "sub3", "-" + "Z", "]", "]", "]"]
  {
    GroupsDepthThreeWord1();
    GroupsDepthThreeWord4();
    GroupsDepthThreeWord7();
    GroupsDepthThreeWord10();
  }

  /** The words of `ShortAssignWithEquals`, each split into its parts. */
  lemma ShortAssignWithEqualsText()
    ensures ["-Z=two"]
         == ["-" + ("Z" + ("=" + "two"))]
  {
    assert "=two" == "=" + "two";
    assert "Z=two" == "Z" + "=two";
    assert "-Z=two" == "-" + "Z=two";
  }

  /** The words of `DanglingGroup`, each split into its parts. */
  lemma DanglingGroupText()
    ensures ["-Z", "[", "-z", "pos"]
         == ["-" + "Z", "[", "-" + "z", "pos"]
  {
    assert "-Z" == "-" + "Z";
    assert "-z" == "-" + "z";
  }

  /** The words of `DanglingDoubleQuote`, each split into its parts. */
  lemma DanglingDoubleQuoteText()
    ensures ["-Z", "\"value"]
         == ["-" + "Z", "\"" + "value"]
  {
    assert "-Z" == "-" + "Z";
    assert "\"value" == "\"" + "value";
  }

  /** The words of `DanglingSingleQuote`, each split into its parts. */
  lemma DanglingSingleQuoteText()
    ensures ["-Z", "'value"]
         == ["-" + "Z", "'" + "value"]
  {
    assert "-Z" == "-" + "Z";
    assert "'value" == "'" + "value";
  }

  /** The words of `StrayDoubleQuote`, each split into its parts. */
  lemma StrayDoubleQuoteText()
    ensures ["\"value\"\""]
         == ["\"" + ("value" + "\"\"")]
  {
    assert "value\"\"" == "value" + "\"\"";
    assert "\"value\"\"" == "\"" + "value\"\"";
  }

  /** The words of `StraySingleQuote`, each split into its parts. */
  lemma StraySingleQuoteText()
    ensures ["'value''"]
         == ["'" + ("value" + "''")]
  {
    assert "value''" == "value" + "''";
    assert "'value''" == "'" + "value''";
  }

}
