/** The scanner's inverse: writes lexical units back as a command-line
    string. Its lemmas state what each scanning routine recovers, ending in
    the round trip `Scan(Render(ts)) == ts`, which holds with or without
    spaces next to the brackets. */
module Printer {
  import opened Lexicon
  import opened Scanner

  /** Whether `w` reads back unchanged as an unquoted run: no character that
      ends the run, and every backslash paired with a character it keeps. */
  predicate Literal(w: string, inGroup: bool, inName: bool)
    decreases |w|
  {
    |w| == 0 ||
    if w[0] == '\\' then |w| >= 2 && !Escapable(w[1]) && Literal(w[2..], inGroup, inName)
    else !Stops(w[0], inGroup, inName) && Literal(w[1..], inGroup, inName)
  }

  /** Whether `w` can be written between double quotes: a backslash is always
      read together with the next character, so it must be followed by a
      character it does not swallow. */
  predicate Expressible(w: string)
    decreases |w|
  {
    |w| == 0 ||
    if w[0] == '\\' then |w| >= 2 && !Escapable(w[1]) && Expressible(w[2..])
    else Expressible(w[1..])
  }

  /** The body of a double-quoted unit for `w`: only `"` needs escaping. */
  function Escape(w: string): string
    requires Expressible(w)
    decreases |w|
  {
    if |w| == 0 then []
    else if w[0] == '\\' then w[..2] + Escape(w[2..])
    else if w[0] == '"' then ['\\', '"'] + Escape(w[1..])
    else [w[0]] + Escape(w[1..])
  }

  /** The word between double quotes, escaped. */
  function Quote(w: string): string
    requires Expressible(w)
  {
    "\"" + Escape(w) + "\""
  }

  /** A flag name that reads back as written at bracket depth `d`. */
  predicate IsName(n: string, d: nat) {
    |n| > 0 && Literal(n, d > 0, true)
  }

  /** A word that can stand unquoted at depth `d`: it must not look like a
      flag marker or a bracket. */
  predicate BareWord(w: string, d: nat) {
    |w| > 0 && Literal(w, d > 0, false) && w[0] != '-' && w[0] != '[' && w[0] != ']'
  }

  /** A value the printer can write after `=` at depth `d`. */
  predicate ValidValue(v: string, d: nat) {
    Literal(v, d > 0, false) || Expressible(v)
  }

  /** Units the printer can write at depth `d`. */
  predicate ValidToken(t: Token, d: nat) {
    match t
    case Word(w) => BareWord(w, d) || Expressible(w)
    case Long(n, v) => IsName(n, d) && (v.Some? ==> ValidValue(v.value, d))
    case Short(c, v) => IsName(c, d) && c[0] != '-' && (v.Some? ==> ValidValue(v.value, d))
    case Open => true
    case Close => d > 0
  }

  /** The depth after one unit. */
  function Next(t: Token, d: nat): nat {
    match t
    case Open => d + 1
    case Close => if d > 0 then d - 1 else 0
    case _ => d
  }

  /** Every unit valid at the depth where it stands. */
  predicate AllValid(ts: seq<Token>, d: nat)
    decreases |ts|
  {
    |ts| == 0 || (ValidToken(ts[0], d) && AllValid(ts[1..], Next(ts[0], d)))
  }

  /** Spaces may be left out only just after `[` or just before `]`. */
  predicate Layout(ts: seq<Token>, spaced: seq<bool>) {
    |spaced| == |ts| &&
    forall i :: 0 < i < |ts| && !spaced[i] ==> ts[i - 1].Open? || ts[i].Close?
  }

  /** A value as written: bare when it reads back as itself, quoted otherwise. */
  function RenderValue(v: string, d: nat): string
    requires ValidValue(v, d)
  {
    if Literal(v, d > 0, false) then v else Quote(v)
  }

  /** The optional `=value` after a flag name. */
  function Assignment(v: Option<string>, d: nat): string
    requires v.Some? ==> ValidValue(v.value, d)
  {
    if v.Some? then "=" + RenderValue(v.value, d) else ""
  }

  /** The text of one unit at depth `d`. */
  function RenderToken(t: Token, d: nat): string
    requires ValidToken(t, d)
  {
    match t
    case Word(w) => if BareWord(w, d) then w else Quote(w)
    case Long(n, v) => "--" + (n + Assignment(v, d))
    case Short(c, v) => "-" + (c + Assignment(v, d))
    case Open => "["
    case Close => "]"
  }

  /** Writes `ts` starting at depth `d`; `spaced[i]` puts a space before unit `i`. */
  function Render(ts: seq<Token>, d: nat, spaced: seq<bool>): string
    requires AllValid(ts, d) && |spaced| == |ts|
    decreases |ts|
  {
    if |ts| == 0 then []
    else (if spaced[0] then " " else "") + (RenderToken(ts[0], d) + Render(ts[1..], Next(ts[0], d), spaced[1..]))
  }

  /** The usual layout: one space between units. */
  function Spaced(n: nat): (s: seq<bool>)
    ensures |s| == n && forall i :: 0 <= i < n ==> s[i] == (i > 0)
  {
    seq(n, i => i > 0)
  }

  /** One step of reading an unquoted run that starts with an escape. */
  lemma ReadBareEscapeStep(s: string, inGroup: bool, inName: bool)
    requires |s| > 1 && s[0] == '\\'
    ensures ReadBare(s, inGroup, inName)
         == (Unescape(s) + ReadBare(s[2..], inGroup, inName).0, ReadBare(s[2..], inGroup, inName).1)
  {
    assert !Stops(s[0], inGroup, inName);
  }

  /** One step of reading an unquoted run that starts with a plain character. */
  lemma ReadBareCharStep(s: string, inGroup: bool, inName: bool)
    requires |s| > 0 && s[0] != '\\' && !Stops(s[0], inGroup, inName)
    ensures ReadBare(s, inGroup, inName)
         == ([s[0]] + ReadBare(s[1..], inGroup, inName).0, ReadBare(s[1..], inGroup, inName).1)
  {
  }

  /** Reading an unquoted run recovers a literal word up to the character
      that ends it. */
  lemma {:induction false} ReadBareLiteral(w: string, rest: string, inGroup: bool, inName: bool)
    requires Literal(w, inGroup, inName)
    requires rest == [] || Stops(rest[0], inGroup, inName)
    ensures ReadBare(w + rest, inGroup, inName) == (w, rest)
    decreases |w|, 1
  {
    if |w| == 0 {
      assert w + rest == rest;
    } else if w[0] == '\\' {
      ReadBareLiteralEscape(w, rest, inGroup, inName);
    } else {
      ReadBareLiteralChar(w, rest, inGroup, inName);
    }
  }

  /** `ReadBareLiteral` when the word starts with a kept backslash. */
  lemma {:induction false} ReadBareLiteralEscape(w: string, rest: string, inGroup: bool, inName: bool)
    requires Literal(w, inGroup, inName) && |w| > 0 && w[0] == '\\'
    requires rest == [] || Stops(rest[0], inGroup, inName)
    ensures ReadBare(w + rest, inGroup, inName) == (w, rest)
    decreases |w|, 0
  {
    var w' := w[2..];
    var s := w + rest;
    var x := w' + rest;
    assert w == w[..2] + w';
    Regroup(w[..2], w', rest);
    assert s == w[..2] + x && s[..2] == w[..2] && s[2..] == x;
    assert s[1] == w[1] && !Escapable(w[1]) && Literal(w', inGroup, inName);
    ReadBareLiteral(w', rest, inGroup, inName);
    ReadBareEscapeStep(s, inGroup, inName);
    assert Unescape(s) == w[..2];
  }

  /** `ReadBareLiteral` when the word starts with a plain character. */
  lemma {:induction false} ReadBareLiteralChar(w: string, rest: string, inGroup: bool, inName: bool)
    requires Literal(w, inGroup, inName) && |w| > 0 && w[0] != '\\'
    requires rest == [] || Stops(rest[0], inGroup, inName)
    ensures ReadBare(w + rest, inGroup, inName) == (w, rest)
    decreases |w|, 0
  {
    var w' := w[1..];
    var s := w + rest;
    var x := w' + rest;
    assert w == [w[0]] + w';
    Regroup([w[0]], w', rest);
    assert s == [w[0]] + x && s[0] == w[0] && s[1..] == x;
    assert !Stops(w[0], inGroup, inName) && Literal(w', inGroup, inName);
    ReadBareLiteral(w', rest, inGroup, inName);
    ReadBareCharStep(s, inGroup, inName);
  }

  /** Reading a double-quoted unit recovers exactly the word that was escaped
      into it, and resumes right after the closing quote. */
  lemma {:induction false} ReadQuotedEscape(w: string, rest: string)
    requires Expressible(w)
    requires rest == [] || rest[0] != '"'
    ensures ReadQuoted('"', Escape(w) + "\"" + rest) == (w, rest)
    decreases |w|, 1
  {
    if |w| == 0 {
      var s := Escape(w) + "\"" + rest;
      assert s == "\"" + rest;
      assert s[1..] == rest;
    } else if w[0] == '\\' {
      ReadQuotedEscapeBackslash(w, rest);
    } else if w[0] == '"' {
      ReadQuotedEscapeQuote(w, rest);
    } else {
      ReadQuotedEscapeChar(w, rest);
    }
  }

  /** `ReadQuotedEscape` when the word starts with a backslash. */
  lemma {:induction false} ReadQuotedEscapeBackslash(w: string, rest: string)
    requires Expressible(w) && |w| > 0 && w[0] == '\\'
    requires rest == [] || rest[0] != '"'
    ensures ReadQuoted('"', Escape(w) + "\"" + rest) == (w, rest)
    decreases |w|, 0
  {
    var s := Escape(w) + "\"" + rest;
    assert s == w[..2] + (Escape(w[2..]) + "\"" + rest);
    assert s[2..] == Escape(w[2..]) + "\"" + rest;
    ReadQuotedEscape(w[2..], rest);
    assert Unescape(s) == w[..2];
    assert w == w[..2] + w[2..];
  }

  /** `ReadQuotedEscape` when the word starts with a double quote. */
  lemma {:induction false} ReadQuotedEscapeQuote(w: string, rest: string)
    requires Expressible(w) && |w| > 0 && w[0] == '"'
    requires rest == [] || rest[0] != '"'
    ensures ReadQuoted('"', Escape(w) + "\"" + rest) == (w, rest)
    decreases |w|, 0
  {
    var s := Escape(w) + "\"" + rest;
    assert s == ['\\', '"'] + (Escape(w[1..]) + "\"" + rest);
    assert s[2..] == Escape(w[1..]) + "\"" + rest;
    ReadQuotedEscape(w[1..], rest);
    assert Unescape(s) == [w[0]];
    assert w == [w[0]] + w[1..];
  }

  /** `ReadQuotedEscape` when the word starts with any other character. */
  lemma {:induction false} ReadQuotedEscapeChar(w: string, rest: string)
    requires Expressible(w) && |w| > 0 && w[0] != '\\' && w[0] != '"'
    requires rest == [] || rest[0] != '"'
    ensures ReadQuoted('"', Escape(w) + "\"" + rest) == (w, rest)
    decreases |w|, 0
  {
    var s := Escape(w) + "\"" + rest;
    assert s == [w[0]] + (Escape(w[1..]) + "\"" + rest);
    assert s[1..] == Escape(w[1..]) + "\"" + rest;
    ReadQuotedEscape(w[1..], rest);
    assert w == [w[0]] + w[1..];
  }

  /** Whether the text after a unit lets the unit end there. */
  predicate Boundary(rest: string, d: nat) {
    rest == [] || IsSpace(rest[0]) || (d > 0 && rest[0] == ']')
  }

  /** Reading the value after `=` recovers the value the printer wrote. */
  lemma ReadValueRender(v: string, d: nat, rest: string)
    requires ValidValue(v, d) && Boundary(rest, d)
    ensures ReadValue(RenderValue(v, d) + rest, d > 0) == (v, rest)
  {
    if Literal(v, d > 0, false) {
      ReadValueRenderLiteral(v, d, rest);
    } else {
      ReadValueRenderQuoted(v, d, rest);
    }
  }

  /** An unquoted value is read back up to the unit boundary. */
  lemma ReadValueRenderLiteral(v: string, d: nat, rest: string)
    requires Literal(v, d > 0, false) && Boundary(rest, d)
    ensures ReadValue(v + rest, d > 0) == (v, rest)
  {
    assert rest == [] || Stops(rest[0], d > 0, false);
    ReadBareLiteral(v, rest, d > 0, false);
    if |v| == 0 {
      assert v + rest == rest;
    } else {
      assert (v + rest)[0] == v[0];
      assert v[0] == '\\' || !Stops(v[0], d > 0, false);
      assert !IsQuote(v[0]);
    }
  }

  /** A quoted value is unescaped back to what was written. */
  lemma ReadValueRenderQuoted(v: string, d: nat, rest: string)
    requires Expressible(v) && Boundary(rest, d)
    ensures ReadValue(Quote(v) + rest, d > 0) == (v, rest)
  {
    var e := Escape(v) + "\"" + rest;
    var s := Quote(v) + rest;
    Regroup("\"", Escape(v), "\"");
    Regroup("\"", Escape(v) + "\"", rest);
    Regroup(Escape(v), "\"", rest);
    assert s == "\"" + e;
    assert s[0] == '"' && s[1..] == e;
    assert rest == [] || rest[0] != '"';
    ReadQuotedEscape(v, rest);
  }

  /** Reading a flag name stops at the `=` or at the unit's end. */
  lemma ReadNameRender(n: string, tail: string, d: nat)
    requires IsName(n, d)
    requires tail == [] || Stops(tail[0], d > 0, true)
    ensures NameAhead(n + tail, d > 0)
    ensures ReadBare(n + tail, d > 0, true) == (n, tail)
  {
    assert (n + tail)[0] == n[0];
    assert n[0] == '\\' || !Stops(n[0], d > 0, true);
    ReadBareLiteral(n, tail, d > 0, true);
  }

  /** Reading a flag's name and optional value recovers what the printer wrote. */
  lemma ReadFlagRender(n: string, v: Option<string>, d: nat, rest: string)
    requires IsName(n, d) && (v.Some? ==> ValidValue(v.value, d)) && Boundary(rest, d)
    ensures NameAhead(n + Assignment(v, d) + rest, d > 0)
    ensures ReadFlag(n + Assignment(v, d) + rest, d > 0) == (n, v, rest)
  {
    if v.Some? {
      ReadFlagValueRender(n, v.value, d, rest);
    } else {
      assert n + Assignment(v, d) + rest == n + rest;
      ReadNameRender(n, rest, d);
    }
  }

  /** `ReadFlagRender` for a flag with a value. */
  lemma ReadFlagValueRender(n: string, v: string, d: nat, rest: string)
    requires IsName(n, d) && ValidValue(v, d) && Boundary(rest, d)
    ensures NameAhead(n + Assignment(Some(v), d) + rest, d > 0)
    ensures ReadFlag(n + Assignment(Some(v), d) + rest, d > 0) == (n, Some(v), rest)
  {
    var tail := "=" + (RenderValue(v, d) + rest);
    assert n + Assignment(Some(v), d) + rest == n + tail;
    ReadNameRender(n, tail, d);
    assert tail[1..] == RenderValue(v, d) + rest;
    ReadValueRender(v, d, rest);
    ReadFlagAssignStep(n + tail, d > 0, n, tail);
  }

  /** One step of reading a flag: the name, then `=` and a value. */
  lemma ReadFlagAssignStep(s: string, inGroup: bool, n: string, tail: string)
    requires NameAhead(s, inGroup)
    requires ReadBare(s, inGroup, true) == (n, tail) && |tail| > 0 && tail[0] == '='
    ensures ReadFlag(s, inGroup) == (n, Some(ReadValue(tail[1..], inGroup).0), ReadValue(tail[1..], inGroup).1)
  {
  }

  /** Leading whitespace is skipped. */
  lemma ScanSpace(s: string, d: nat)
    ensures Scan(" " + s, d) == Scan(s, d)
  {
    assert (" " + s)[1..] == s;
  }

  /** One step of `Scan` on a quoted word. */
  lemma ScanQuotedStep(s: string, d: nat)
    requires |s| > 0 && IsQuote(s[0])
    ensures Scan(s, d) == [Word(ReadQuoted(s[0], s[1..]).0)] + Scan(ReadQuoted(s[0], s[1..]).1, d)
  {
  }

  /** One step of `Scan` on a long marker. */
  lemma ScanLongStep(s: string, d: nat)
    requires |s| > 1 && s[0] == '-' && s[1] == '-' && NameAhead(s[2..], d > 0)
    ensures Scan(s, d) == [Long(ReadFlag(s[2..], d > 0).0, ReadFlag(s[2..], d > 0).1)] + Scan(ReadFlag(s[2..], d > 0).2, d)
  {
    assert !IsSpace(s[0]) && !IsQuote(s[0]) && s[0] != '[' && s[0] != ']';
  }

  /** One step of `Scan` on a short marker. */
  lemma ScanShortStep(s: string, d: nat)
    requires |s| > 1 && s[0] == '-' && s[1] != '-' && NameAhead(s[1..], d > 0)
    ensures Scan(s, d) == [Short(ReadFlag(s[1..], d > 0).0, ReadFlag(s[1..], d > 0).1)] + Scan(ReadFlag(s[1..], d > 0).2, d)
  {
    assert !IsSpace(s[0]) && !IsQuote(s[0]) && s[0] != '[' && s[0] != ']';
  }

  /** One step of `Scan` on an unquoted word. */
  lemma ScanBareStep(s: string, d: nat)
    requires |s| > 0 && !Stops(s[0], d > 0, false) && s[0] != '[' && s[0] != ']' && s[0] != '-'
    ensures Scan(s, d) == [Word(ReadBare(s, d > 0, false).0)] + Scan(ReadBare(s, d > 0, false).1, d)
  {
  }

  /** Scanning a written word gives the word back and continues after it. */
  lemma ScanWordToken(w: string, d: nat, rest: string)
    requires ValidToken(Word(w), d) && Boundary(rest, d)
    ensures Scan(RenderToken(Word(w), d) + rest, d) == [Word(w)] + Scan(rest, d)
  {
    if BareWord(w, d) {
      assert RenderToken(Word(w), d) + rest == w + rest;
      assert (w + rest)[0] == w[0];
      assert w[0] == '\\' || !Stops(w[0], d > 0, false);
      ReadBareLiteral(w, rest, d > 0, false);
      ScanBareStep(w + rest, d);
    } else {
      var s := Quote(w) + rest;
      assert RenderToken(Word(w), d) + rest == s;
      assert s[1..] == Escape(w) + "\"" + rest;
      ReadQuotedEscape(w, rest);
      ScanQuotedStep(s, d);
    }
  }

  /** Scanning a written long flag gives it back. */
  lemma ScanLongToken(n: string, v: Option<string>, d: nat, rest: string)
    requires ValidToken(Long(n, v), d) && Boundary(rest, d)
    ensures Scan(RenderToken(Long(n, v), d) + rest, d) == [Long(n, v)] + Scan(rest, d)
  {
    var tail := n + Assignment(v, d) + rest;
    var s := "--" + tail;
    assert RenderToken(Long(n, v), d) + rest == s;
    assert s[2..] == tail;
    ReadFlagRender(n, v, d, rest);
    ScanLongStep(s, d);
  }

  /** Scanning a written short flag gives it back. */
  lemma ScanShortToken(c: string, v: Option<string>, d: nat, rest: string)
    requires ValidToken(Short(c, v), d) && Boundary(rest, d)
    ensures Scan(RenderToken(Short(c, v), d) + rest, d) == [Short(c, v)] + Scan(rest, d)
  {
    var tail := c + Assignment(v, d) + rest;
    var s := "-" + tail;
    assert RenderToken(Short(c, v), d) + rest == s;
    assert s[1..] == tail && s[1] == tail[0] == c[0];
    ReadFlagRender(c, v, d, rest);
    ScanShortStep(s, d);
  }

  /** Scanning a written unit gives the unit back and continues after it. */
  lemma ScanToken(t: Token, d: nat, rest: string)
    requires ValidToken(t, d)
    requires t.Open? || t.Close? || Boundary(rest, d)
    ensures Scan(RenderToken(t, d) + rest, d) == [t] + Scan(rest, Next(t, d))
  {
    match t
    case Open =>
      assert ("[" + rest)[1..] == rest;
    case Close =>
      assert ("]" + rest)[1..] == rest;
    case Word(w) => ScanWordToken(w, d, rest);
    case Long(n, v) => ScanLongToken(n, v, d, rest);
    case Short(c, v) => ScanShortToken(c, v, d, rest);
  }

  /** What follows a written unit lets it end there: a space, the end of
      input, or a `]` glued to it. */
  lemma RenderBoundary(ts: seq<Token>, d: nat, spaced: seq<bool>)
    requires AllValid(ts, d) && Layout(ts, spaced) && |ts| > 0
    requires ts[0].Close? ==> d > 0
    requires |ts| > 0 && !spaced[0] ==> ts[0].Close?
    ensures Boundary(Render(ts, d, spaced), d)
  {
    if spaced[0] {
      assert Render(ts, d, spaced)[0] == ' ';
    } else {
      assert Render(ts, d, spaced) == "]" + Render(ts[1..], Next(ts[0], d), spaced[1..]);
    }
  }

  /** The layout of the units after the first. */
  lemma LayoutTail(ts: seq<Token>, spaced: seq<bool>)
    requires Layout(ts, spaced) && |ts| > 0
    ensures Layout(ts[1..], spaced[1..])
  {
    forall i | 0 < i < |ts[1..]| && !spaced[1..][i]
      ensures ts[1..][i - 1].Open? || ts[1..][i].Close?
    {
      assert !spaced[i + 1];
    }
  }

  /** One unit in front of a written tail scans to that unit in front of
      the tail's units. */
  lemma ScanRenderCons(ts: seq<Token>, d: nat, spaced: seq<bool>)
    requires AllValid(ts, d) && Layout(ts, spaced) && |ts| > 0
    requires Scan(Render(ts[1..], Next(ts[0], d), spaced[1..]), Next(ts[0], d)) == ts[1..]
    ensures Scan(RenderToken(ts[0], d) + Render(ts[1..], Next(ts[0], d), spaced[1..]), d) == ts
  {
    var t, d' := ts[0], Next(ts[0], d);
    var rest := Render(ts[1..], d', spaced[1..]);
    if !(t.Open? || t.Close?) && |ts| > 1 {
      assert !spaced[1] ==> ts[1].Close?;
      LayoutTail(ts, spaced);
      RenderBoundary(ts[1..], d', spaced[1..]);
    }
    ScanToken(t, d, rest);
    assert ts == [t] + ts[1..];
  }

  /** The round trip: the scanner reads back exactly the units the printer
      wrote, whatever the spacing next to the brackets. */
  lemma {:induction false} ScanRender(ts: seq<Token>, d: nat, spaced: seq<bool>)
    requires AllValid(ts, d) && Layout(ts, spaced)
    ensures Scan(Render(ts, d, spaced), d) == ts
    decreases |ts|
  {
    if |ts| > 0 {
      LayoutTail(ts, spaced);
      ScanRender(ts[1..], Next(ts[0], d), spaced[1..]);
      ScanRenderCons(ts, d, spaced);
      RenderLead(ts, d, spaced);
    }
  }

  /** A leading space does not change what the scanner reads. */
  lemma RenderLead(ts: seq<Token>, d: nat, spaced: seq<bool>)
    requires AllValid(ts, d) && |spaced| == |ts| && |ts| > 0
    ensures Scan(Render(ts, d, spaced), d)
         == Scan(RenderToken(ts[0], d) + Render(ts[1..], Next(ts[0], d), spaced[1..]), d)
  {
    var unit := RenderToken(ts[0], d) + Render(ts[1..], Next(ts[0], d), spaced[1..]);
    if spaced[0] {
      assert Render(ts, d, spaced) == " " + unit;
      ScanSpace(unit, d);
    } else {
      assert Render(ts, d, spaced) == unit;
    }
  }
}
