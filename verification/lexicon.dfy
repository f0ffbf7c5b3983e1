/** Lexical vocabulary shared by the scanner and the tree builder: the
    character classes the command-line grammar cares about and the lexical
    units (tokens) the scanner hands to the tree builder. */
module Lexicon {

  datatype Option<+T> = None | Some(value: T)

  /** Characters that separate units outside quotes; runs of them collapse. */
  predicate IsSpace(c: char) {
    c == ' ' || c == '\t' || c == '\n' || c == '\r'
  }

  /** The two quote characters; both quote a unit the same way. */
  predicate IsQuote(c: char) {
    c == '"' || c == '\''
  }

  /** Characters a backslash makes literal (the backslash is then dropped);
      before any other character the backslash is kept. */
  predicate Escapable(c: char) {
    IsSpace(c) || IsQuote(c)
  }

  /** A lexical unit.
      - `Word`  : a bare or quoted word, quotes stripped and escapes resolved;
      - `Long`  : `--name` or `--name=value`;
      - `Short` : `-cluster` or `-cluster=value`, the cluster still carrying
                  an optional `no-` prefix;
      - `Open`, `Close` : the group delimiters `[` and `]`. */
  datatype Token =
    | Word(text: string)
    | Long(name: string, value: Option<string>)
    | Short(cluster: string, value: Option<string>)
    | Open
    | Close

  /** The bracket depth after reading `ts` from depth `d`, never dropping below
      zero: a `Close` is only ever produced inside an open group. */
  predicate WellNested(ts: seq<Token>, d: nat)
    decreases |ts|
  {
    |ts| == 0 ||
    match ts[0]
    case Open => WellNested(ts[1..], d + 1)
    case Close => d > 0 && WellNested(ts[1..], d - 1)
    case _ => WellNested(ts[1..], d)
  }

  /** Flag markers always carry a non-empty name. */
  predicate NamedMarkers(ts: seq<Token>) {
    forall i :: 0 <= i < |ts| ==>
      (ts[i].Long? ==> |ts[i].name| > 0) && (ts[i].Short? ==> |ts[i].cluster| > 0)
  }

  /** Three sequences joined, however the joins are grouped. */
  lemma Regroup<T>(a: seq<T>, b: seq<T>, c: seq<T>)
    ensures a + b + c == a + (b + c)
  {
  }

  /** The first element and the rest of a sequence built by prepending. */
  lemma ConsParts<T>(x: T, s: seq<T>)
    ensures ([x] + s)[0] == x && ([x] + s)[1..] == s
  {
  }

  /** Appending a non-empty sequence appends its first element, then the rest. */
  lemma AppendHead<T>(a: seq<T>, s: seq<T>)
    requires |s| > 0
    ensures a + s == a + [s[0]] + s[1..]
  {
    assert s == [s[0]] + s[1..];
  }

  /** `r` is what is left of `s` after dropping some prefix. */
  ghost predicate IsSuffix<T>(r: seq<T>, s: seq<T>) {
    |r| <= |s| && r == s[|s| - |r|..]
  }

  /** A suffix of a suffix of `s` is a suffix of `s`. */
  lemma SuffixOfSuffix<T>(s: seq<T>, m: seq<T>, r: seq<T>)
    requires IsSuffix(m, s) && IsSuffix(r, m)
    ensures IsSuffix(r, s)
  {
  }

  /** Dropping the first `k` elements leaves a suffix. */
  lemma DropIsSuffix<T>(s: seq<T>, k: nat)
    requires k <= |s|
    ensures IsSuffix(s[k..], s)
  {
  }

  /** Whatever is in a suffix of `s` is in `s`. */
  lemma SuffixMembers<T>(r: seq<T>, s: seq<T>)
    requires IsSuffix(r, s)
    ensures forall x :: x in r ==> x in s
  {
    forall x | x in r ensures x in s {
      var i :| 0 <= i < |r| && r[i] == x;
      assert s[|s| - |r| + i] == x;
    }
  }
}
