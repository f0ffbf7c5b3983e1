/** The scanner: splits one raw command-line string into lexical units.

    Bracket rule. A `[` is a delimiter when it begins a unit; a `]` is a
    delimiter anywhere outside quotes, but only while a group is open (the
    scanner's depth is positive). At depth zero both are ordinary text inside
    a unit, which is how `--one=...{}[]123...` keeps its brackets while
    `--long=short]` inside `-t [ ... ]` closes the group; a `]` that begins a
    unit at depth zero closes nothing and is dropped. */
module Scanner {
  import opened Lexicon

  /** Whether `c` ends an unquoted run: whitespace and quotes always, `]` only
      inside a group, `=` only while reading a flag name. */
  predicate Stops(c: char, inGroup: bool, inName: bool) {
    IsSpace(c) || IsQuote(c) || (inGroup && c == ']') || (inName && c == '=')
  }

  /** Resolves the escape `\c` (the two characters `s[0]`, `s[1]`). */
  function Unescape(s: string): (r: string)
    requires |s| >= 2 && s[0] == '\\'
    ensures Escapable(s[1]) <==> r == [s[1]]
    ensures !Escapable(s[1]) <==> r == s[..2]
  {
    if Escapable(s[1]) then [s[1]] else s[..2]
  }

  /** Reads an unquoted run from the front of `s`: its text with escapes
      resolved, and the rest of the input. */
  function ReadBare(s: string, inGroup: bool, inName: bool): (r: (string, string))
    ensures |r.1| <= |s| && r.1 == s[|s| - |r.1|..]
    ensures r.1 == [] || Stops(r.1[0], inGroup, inName)
    ensures |s| > 0 && !Stops(s[0], inGroup, inName) ==> |r.1| < |s| && |r.0| > 0
    ensures |r.0| > 0 ==> |s| > 0 && (r.0[0] == s[0] || Escapable(r.0[0]))
    decreases |s|
  {
    if |s| == 0 || Stops(s[0], inGroup, inName) then ([], s)
    else if s[0] == '\\' && |s| > 1 then
      var tail := ReadBare(s[2..], inGroup, inName);
      (Unescape(s) + tail.0, tail.1)
    else
      var tail := ReadBare(s[1..], inGroup, inName);
      ([s[0]] + tail.0, tail.1)
  }

  /** Reads the body of a unit quoted with `q` (the opening quote already
      consumed). An unterminated quote closes at end of input; a second `q`
      right after the closing one is a stray quote and is dropped. */
  function ReadQuoted(q: char, s: string): (r: (string, string))
    ensures |r.1| <= |s| && r.1 == s[|s| - |r.1|..]
    ensures q !in s ==> r.1 == []
    decreases |s|
  {
    if |s| == 0 then ([], [])
    else if s[0] == q then ([], if |s| > 1 && s[1] == q then s[2..] else s[1..])
    else if s[0] == '\\' && |s| > 1 then
      var tail := ReadQuoted(q, s[2..]);
      (Unescape(s) + tail.0, tail.1)
    else
      var tail := ReadQuoted(q, s[1..]);
      ([s[0]] + tail.0, tail.1)
  }

  /** Reads the value after `=`: quoted when it begins with a quote, bare otherwise. */
  function ReadValue(s: string, inGroup: bool): (r: (string, string))
    ensures |r.1| <= |s| && r.1 == s[|s| - |r.1|..]
    ensures |s| > 0 && IsQuote(s[0]) ==> |r.1| < |s|
    ensures !(|s| > 0 && IsQuote(s[0])) ==> r.1 == [] || Stops(r.1[0], inGroup, false)
    ensures !(|s| > 0 && IsQuote(s[0])) && |s| > 0 && !Stops(s[0], inGroup, false) ==> |r.0| > 0
  {
    if |s| > 0 && IsQuote(s[0]) then ReadQuoted(s[0], s[1..])
    else ReadBare(s, inGroup, false)
  }

  /** Whether a flag name can start at the front of `s`. */
  predicate NameAhead(s: string, inGroup: bool) {
    |s| > 0 && !Stops(s[0], inGroup, true)
  }

  /** Reads a flag name and its optional `=value`. */
  function ReadFlag(s: string, inGroup: bool): (r: (string, Option<string>, string))
    requires NameAhead(s, inGroup)
    ensures |r.0| > 0 && |r.2| < |s|
    ensures r.0[0] == s[0] || Escapable(r.0[0])
  {
    var name := ReadBare(s, inGroup, true);
    if |name.1| > 0 && name.1[0] == '=' then
      var value := ReadValue(name.1[1..], inGroup);
      (name.0, Some(value.0), value.1)
    else (name.0, None, name.1)
  }

  /** No short cluster in `ts` begins with `-`. */
  predicate PlainClusters(ts: seq<Token>) {
    forall i :: 0 <= i < |ts| && ts[i].Short? ==> |ts[i].cluster| > 0 && ts[i].cluster[0] != '-'
  }

  /** Splits `s` into units, starting at bracket depth `depth`. */
  function Scan(s: string, depth: nat): (ts: seq<Token>)
    ensures WellNested(ts, depth)
    ensures NamedMarkers(ts)
    ensures PlainClusters(ts)
    decreases |s|
  {
    if |s| == 0 then []
    else if IsSpace(s[0]) then Scan(s[1..], depth)
    else if s[0] == '[' then
      var rest := Scan(s[1..], depth + 1);
      Prepend(Open, rest, depth, depth + 1);
      [Open] + rest
    else if s[0] == ']' && depth > 0 then
      var rest := Scan(s[1..], depth - 1);
      Prepend(Close, rest, depth, depth - 1);
      [Close] + rest
    else if s[0] == ']' then
      // a `]` that begins a unit with no group open closes nothing: dropped
      Scan(s[1..], depth)
    else if IsQuote(s[0]) then
      var word := ReadQuoted(s[0], s[1..]);
      var rest := Scan(word.1, depth);
      Prepend(Word(word.0), rest, depth, depth);
      [Word(word.0)] + rest
    else if |s| > 1 && s[0] == '-' && s[1] == '-' && NameAhead(s[2..], depth > 0) then
      var flag := ReadFlag(s[2..], depth > 0);
      var rest := Scan(flag.2, depth);
      Prepend(Long(flag.0, flag.1), rest, depth, depth);
      [Long(flag.0, flag.1)] + rest
    else if s[0] == '-' && NameAhead(s[1..], depth > 0) && s[1] != '-' then
      var flag := ReadFlag(s[1..], depth > 0);
      var rest := Scan(flag.2, depth);
      assert flag.0[0] == s[1..][0] || Escapable(flag.0[0]);
      Prepend(Short(flag.0, flag.1), rest, depth, depth);
      [Short(flag.0, flag.1)] + rest
    else
      var word := ReadBare(s, depth > 0, false);
      var rest := Scan(word.1, depth);
      Prepend(Word(word.0), rest, depth, depth);
      [Word(word.0)] + rest
  }

  /** Putting one more unit in front keeps the three facts `Scan` promises,
      with the depth moved by the unit. */
  lemma Prepend(t: Token, ts: seq<Token>, d: nat, d': nat)
    requires WellNested(ts, d') && NamedMarkers(ts) && PlainClusters(ts)
    requires t.Open? ==> d' == d + 1
    requires t.Close? ==> d > 0 && d' == d - 1
    requires !t.Open? && !t.Close? ==> d' == d
    requires t.Long? ==> |t.name| > 0
    requires t.Short? ==> |t.cluster| > 0 && t.cluster[0] != '-'
    ensures WellNested([t] + ts, d) && NamedMarkers([t] + ts) && PlainClusters([t] + ts)
  {
    var us := [t] + ts;
    assert us[0] == t && us[1..] == ts;
    assert forall i :: 1 <= i < |us| ==> us[i] == ts[i - 1];
  }
}
