/** The parser seen from its input text: what the scanner makes of each kind
    of written unit, stated over strings built from their parts. These are
    the steps that take a concrete command line to its units. */
module Surface {
  import opened Lexicon
  import opened Scanner
  import opened Printer
  import opened Results
  import opened TreeBuilder
  import opened BuilderFacts
  import opened Groups

  /** Text with no backslash and no character that would end an unquoted run. */
  predicate Unquoted(w: string, inGroup: bool, inName: bool) {
    forall c | c in w :: c != '\\' && !Stops(c, inGroup, inName)
  }

  /** Text that can sit between two `q` quotes with no escapes. */
  predicate QuoteFree(q: char, w: string) {
    forall c | c in w :: c != q && c != '\\'
  }

  /** Text with nothing special in it reads back as itself. */
  lemma {:induction false} LiteralWhen(w: string, inGroup: bool, inName: bool)
    requires Unquoted(w, inGroup, inName)
    ensures Literal(w, inGroup, inName)
    decreases |w|
  {
    if |w| > 0 {
      assert w[0] in w;
      assert forall c | c in w[1..] :: c in w;
      LiteralWhen(w[1..], inGroup, inName);
    }
  }

  /** Two literal runs side by side are one literal run. */
  lemma {:induction false} LiteralJoin(a: string, b: string, inGroup: bool, inName: bool)
    requires Literal(a, inGroup, inName) && Literal(b, inGroup, inName)
    ensures Literal(a + b, inGroup, inName)
    decreases |a|
  {
    if |a| == 0 {
      assert a + b == b;
    } else if a[0] == '\\' {
      assert (a + b)[1] == a[1] && (a + b)[2..] == a[2..] + b;
      LiteralJoin(a[2..], b, inGroup, inName);
    } else {
      assert (a + b)[1..] == a[1..] + b;
      LiteralJoin(a[1..], b, inGroup, inName);
    }
  }

  /** A backslash before a character it does not escape stays in the text. */
  lemma LiteralPair(c: char, inGroup: bool, inName: bool)
    requires !Escapable(c)
    ensures Literal(['\\', c], inGroup, inName)
  {
    assert ['\\', c][2..] == [];
  }

  /** A quoted run ends at its closing quote; one more quote of the same
      kind right after it is dropped. */
  lemma {:induction false} ReadQuotedPlain(q: char, w: string, rest: string)
    requires QuoteFree(q, w)
    ensures ReadQuoted(q, w + [q] + rest) == (w, if |rest| > 0 && rest[0] == q then rest[1..] else rest)
    decreases |w|, 1
  {
    if |w| == 0 {
      var s := w + [q] + rest;
      assert s == [q] + rest && s[1..] == rest;
    } else {
      ReadQuotedPlainStep(q, w, rest);
    }
  }

  /** One character of the quoted text, then the rest of it. */
  lemma {:induction false} ReadQuotedPlainStep(q: char, w: string, rest: string)
    requires QuoteFree(q, w) && |w| > 0
    ensures ReadQuoted(q, w + [q] + rest) == (w, if |rest| > 0 && rest[0] == q then rest[1..] else rest)
    decreases |w|, 0
  {
    var w' := w[1..];
    var s := w + [q] + rest;
    var x := w' + [q] + rest;
    assert w == [w[0]] + w';
    Regroup([w[0]], w', [q]);
    Regroup([w[0]], w' + [q], rest);
    assert s == [w[0]] + x && s[1..] == x;
    assert w[0] in w;
    assert QuoteFree(q, w') by {
      forall c | c in w' ensures c != q && c != '\\' {
        assert c in w;
      }
    }
    ReadQuotedPlain(q, w', rest);
    assert ReadQuoted(q, s) == ([w[0]] + ReadQuoted(q, x).0, ReadQuoted(q, x).1);
  }

  /** A quote that is never closed runs to the end of the input. */
  lemma {:induction false} ReadQuotedOpen(q: char, w: string)
    requires QuoteFree(q, w)
    ensures ReadQuoted(q, w) == (w, [])
    decreases |w|, 1
  {
    if |w| > 0 {
      ReadQuotedOpenStep(q, w);
    }
  }

  /** One character of the unterminated quoted text, then the rest of it. */
  lemma {:induction false} ReadQuotedOpenStep(q: char, w: string)
    requires QuoteFree(q, w) && |w| > 0
    ensures ReadQuoted(q, w) == (w, [])
    decreases |w|, 0
  {
    var w' := w[1..];
    assert w == [w[0]] + w';
    assert w[0] in w;
    assert QuoteFree(q, w') by {
      forall c | c in w' ensures c != q && c != '\\' {
        assert c in w;
      }
    }
    ReadQuotedOpen(q, w');
    assert ReadQuoted(q, w) == ([w[0]] + ReadQuoted(q, w').0, ReadQuoted(q, w').1);
  }

  /** `--name` followed by a unit boundary is one `Long` marker with no value. */
  lemma ScanLongFlag(n: string, d: nat, rest: string)
    requires |n| > 0 && Unquoted(n, d > 0, true) && Boundary(rest, d)
    ensures Scan("--" + n + rest, d) == [Long(n, None)] + Scan(rest, d)
  {
    LiteralWhen(n, d > 0, true);
    assert RenderToken(Long(n, None), d) + rest == "--" + n + rest;
    ScanLongToken(n, None, d, rest);
  }

  /** `--name=value` with an unquoted value is one `Long` marker carrying it;
      the value may hold `=`, `,`, brackets and other punctuation. */
  lemma ScanLongValue(n: string, v: string, d: nat, rest: string)
    requires |n| > 0 && Unquoted(n, d > 0, true) && Literal(v, d > 0, false) && Boundary(rest, d)
    ensures Scan("--" + n + "=" + v + rest, d) == [Long(n, Some(v))] + Scan(rest, d)
  {
    LiteralWhen(n, d > 0, true);
    assert RenderValue(v, d) == v;
    assert RenderToken(Long(n, Some(v)), d) == "--" + (n + ("=" + v));
    Regroup("--", n, "=" + v);
    Regroup("--" + n, "=", v);
    ScanLongToken(n, Some(v), d, rest);
  }

  /** A value written between quotes, after `=`. */
  lemma ReadValueQuoted(q: char, v: string, inGroup: bool, rest: string)
    requires IsQuote(q) && QuoteFree(q, v)
    requires rest == [] || rest[0] != q
    ensures ReadValue([q] + v + [q] + rest, inGroup) == (v, rest)
  {
    var quoted := [q] + v + [q] + rest;
    assert quoted[0] == q && quoted[1..] == v + [q] + rest;
    ReadQuotedPlain(q, v, rest);
  }

  /** A flag name followed by `="value"`. */
  lemma ReadFlagQuoted(n: string, q: char, v: string, d: nat, rest: string)
    requires |n| > 0 && Unquoted(n, d > 0, true) && IsQuote(q) && QuoteFree(q, v)
    requires rest == [] || rest[0] != q
    ensures NameAhead(n + ("=" + ([q] + v + [q] + rest)), d > 0)
    ensures ReadFlag(n + ("=" + ([q] + v + [q] + rest)), d > 0) == (n, Some(v), rest)
  {
    LiteralWhen(n, d > 0, true);
    var quoted := [q] + v + [q] + rest;
    var tail := "=" + quoted;
    ReadNameRender(n, tail, d);
    ReadFlagAssignStep(n + tail, d > 0, n, tail);
    assert tail[1..] == quoted;
    ReadValueQuoted(q, v, d > 0, rest);
  }

  /** `--name="value"`: the quotes are stripped and what is between them,
      whitespace included, is the value. */
  lemma ScanLongQuoted(n: string, q: char, v: string, d: nat, rest: string)
    requires |n| > 0 && Unquoted(n, d > 0, true) && IsQuote(q) && QuoteFree(q, v)
    requires rest == [] || rest[0] != q
    ensures Scan("--" + n + "=" + [q] + v + [q] + rest, d) == [Long(n, Some(v))] + Scan(rest, d)
  {
    var s := "--" + (n + ("=" + ([q] + v + [q] + rest)));
    assert "--" + n + "=" + [q] + v + [q] + rest == s;
    assert s[2..] == n + ("=" + ([q] + v + [q] + rest));
    ReadFlagQuoted(n, q, v, d, rest);
    ScanLongStep(s, d);
  }

  /** `-cluster` followed by a unit boundary is one `Short` marker with no value. */
  lemma ScanShortFlag(c: string, d: nat, rest: string)
    requires |c| > 0 && c[0] != '-' && Unquoted(c, d > 0, true) && Boundary(rest, d)
    ensures Scan("-" + c + rest, d) == [Short(c, None)] + Scan(rest, d)
  {
    LiteralWhen(c, d > 0, true);
    assert RenderToken(Short(c, None), d) + rest == "-" + c + rest;
    ScanShortToken(c, None, d, rest);
  }

  /** `-c=value` is one `Short` marker carrying the value. */
  lemma ScanShortValue(c: string, v: string, d: nat, rest: string)
    requires |c| > 0 && c[0] != '-' && Unquoted(c, d > 0, true) && Literal(v, d > 0, false) && Boundary(rest, d)
    ensures Scan("-" + c + "=" + v + rest, d) == [Short(c, Some(v))] + Scan(rest, d)
  {
    LiteralWhen(c, d > 0, true);
    assert RenderValue(v, d) == v;
    assert RenderToken(Short(c, Some(v)), d) == "-" + (c + ("=" + v));
    Regroup("-", c, "=" + v);
    Regroup("-" + c, "=", v);
    ScanShortToken(c, Some(v), d, rest);
  }

  /** An unquoted word that does not look like a marker or a bracket. */
  lemma ScanBare(w: string, d: nat, rest: string)
    requires |w| > 0 && w[0] != '-' && w[0] != '[' && w[0] != ']' && Literal(w, d > 0, false) && Boundary(rest, d)
    ensures Scan(w + rest, d) == [Word(w)] + Scan(rest, d)
  {
    assert RenderToken(Word(w), d) == w;
    ScanWordToken(w, d, rest);
  }

  /** A quoted word needs no space after it; a doubled closing quote is
      dropped. */
  lemma ScanQuoted(q: char, w: string, d: nat, rest: string)
    requires IsQuote(q) && QuoteFree(q, w)
    ensures Scan([q] + w + [q] + rest, d)
         == [Word(w)] + Scan(if |rest| > 0 && rest[0] == q then rest[1..] else rest, d)
  {
    var s := [q] + w + [q] + rest;
    assert s[0] == q && s[1..] == w + [q] + rest;
    ReadQuotedPlain(q, w, rest);
    ScanQuotedStep(s, d);
  }

  /** A quoted word whose closing quote never comes ends the input. */
  lemma ScanQuotedOpen(q: char, w: string, d: nat)
    requires IsQuote(q) && QuoteFree(q, w)
    ensures Scan([q] + w, d) == [Word(w)]
  {
    var s := [q] + w;
    assert s[0] == q && s[1..] == w;
    ReadQuotedOpen(q, w);
    ScanQuotedStep(s, d);
  }

  /** A `[` at the start of a unit opens a group, touching text or not. */
  lemma ScanOpen(rest: string, d: nat)
    ensures Scan("[" + rest, d) == [Open] + Scan(rest, d + 1)
  {
    ScanToken(Open, d, rest);
  }

  /** Inside a group a `]` closes it, touching text or not. */
  lemma ScanClose(rest: string, d: nat)
    requires d > 0
    ensures Scan("]" + rest, d) == [Close] + Scan(rest, d - 1)
  {
    ScanToken(Close, d, rest);
  }

  /** Whatever units the printer writes, in whatever spacing next to the
      brackets, the parser's answer is the builder's answer on those units. */
  lemma ParseRendered(ts: seq<Token>, spaced: seq<bool>)
    requires AllValid(ts, 0) && Layout(ts, spaced)
    ensures Parse(Render(ts, 0, spaced)) == Build(ts, false, Empty).0
  {
    ScanRender(ts, 0, spaced);
  }

  /** With no group open, a `]` that begins a unit closes nothing and is
      dropped. */
  lemma ScanStrayClose(rest: string)
    ensures Scan("]" + rest, 0) == Scan(rest, 0)
  {
    assert ("]" + rest)[1..] == rest;
  }

  /** A stray `]` at the front of the input is ignored. */
  lemma ParseIgnoresStrayClose(rest: string)
    ensures Parse("]" + rest) == Parse(rest)
  {
    ScanStrayClose(rest);
  }

  /** A character that is a whole unquoted word on its own at depth `d`. */
  predicate PlainLetter(c: char, d: nat) {
    c != '-' && c != '[' && c != ']' && c != '\\' && !Stops(c, d > 0, false)
  }

  /** A one-letter word standing alone at the end of the input. */
  lemma LetterAtEnd(c: char, d: nat)
    requires PlainLetter(c, d)
    ensures Scan([c], d) == [Word([c])]
  {
    assert Literal([c], d > 0, false) by {
      LiteralWhen([c], d > 0, false);
    }
    assert [c] + "" == [c];
    ScanBare([c], d, "");
  }

  /** A one-letter word followed by a space and more input. */
  lemma LetterThen(c: char, d: nat, rest: string)
    requires PlainLetter(c, d)
    ensures Scan([c] + (" " + rest), d) == [Word([c])] + Scan(rest, d)
  {
    assert Literal([c], d > 0, false) by {
      LiteralWhen([c], d > 0, false);
    }
    ScanBare([c], d, " " + rest);
    ScanSpace(rest, d);
  }

  /** The units of `x ] y` for one-letter words `x` and `y`. */
  lemma StrayCloseScan(x: char, y: char)
    requires PlainLetter(x, 0) && PlainLetter(y, 0)
    ensures Scan([x] + (" " + ("]" + (" " + [y]))), 0) == [Word([x]), Word([y])]
  {
    LetterAtEnd(y, 0);
    ScanSpace([y], 0);
    ScanStrayClose(" " + [y]);
    LetterThen(x, 0, "]" + (" " + [y]));
  }

  /** `x ] y`: the stray `]` is dropped and both words are positionals. */
  lemma StrayCloseBetweenWords(x: char, y: char)
    requires PlainLetter(x, 0) && PlainLetter(y, 0)
    ensures Parse([x] + (" " + ("]" + (" " + [y])))) == Result(map[], [[x], [y]])
  {
    StrayCloseScan(x, y);
    var ts := [Word([x]), Word([y])];
    assert ts == [Word([x])] + ([Word([y])] + []);
    WordIsPositional([x], [Word([y])] + [], false, Empty);
    WordIsPositional([y], [], false, Push(Empty, [x]));
  }

  /** The units of `y ] z` inside a group: the word, then the group's end. */
  lemma LetterCloseScan(y: char, z: char)
    requires PlainLetter(y, 1) && PlainLetter(z, 0)
    ensures Scan([y] + (" " + ("]" + (" " + [z]))), 1) == [Word([y]), Close, Word([z])]
  {
    LetterAtEnd(z, 0);
    ScanSpace([z], 0);
    ScanClose(" " + [z], 1);
    LetterThen(y, 1, "]" + (" " + [z]));
  }

  /** The units of `x [ y ] z` for one-letter words. */
  lemma StrayGroupScan(x: char, y: char, z: char)
    requires PlainLetter(x, 0) && PlainLetter(y, 1) && PlainLetter(z, 0)
    ensures Scan([x] + (" " + ("[" + (" " + ([y] + (" " + ("]" + (" " + [z]))))))), 0)
         == [Word([x]), Open, Word([y]), Close, Word([z])]
  {
    var inner := [y] + (" " + ("]" + (" " + [z])));
    LetterCloseScan(y, z);
    ScanSpace(inner, 1);
    ScanOpen(" " + inner, 0);
    LetterThen(x, 0, "[" + (" " + inner));
  }

  /** The builder on `x [ y ] z`: the bracketed word joins the others. */
  lemma StrayGroupBuild(x: string, y: string, z: string)
    ensures Build([Word(x), Open, Word(y), Close, Word(z)], false, Empty).0 == Result(map[], [x, y, z])
  {
    var body := [Unit(Word(y))];
    assert Flatten(body) == [Word(y)] + Flatten([]);
    var after := [Open] + Flatten(body) + [Close] + [Word(z)];
    assert [Word(x), Open, Word(y), Close, Word(z)] == [Word(x)] + after;
    WordIsPositional(x, after, false, Empty);
    StrayGroup(body, [Word(z)], false, Push(Empty, x));
    WordIsPositional(y, [], false, Push(Empty, x));
    WordIsPositional(z, [], false, Push(Push(Empty, x), y));
  }

  /** `x [ y ] z`: a group no flag asked for loses nothing; its word is read
      at the level around it, in order. */
  lemma StrayGroupBetweenWords(x: char, y: char, z: char)
    requires PlainLetter(x, 0) && PlainLetter(y, 1) && PlainLetter(z, 0)
    ensures Parse([x] + (" " + ("[" + (" " + ([y] + (" " + ("]" + (" " + [z])))))))) == Result(map[], [[x], [y], [z]])
  {
    StrayGroupScan(x, y, z);
    StrayGroupBuild([x], [y], [z]);
  }
}
