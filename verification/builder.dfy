/** The tree builder: a recursive-descent consumer of the scanner's units
    that assembles a Result, descending into `[ ... ]` groups. */
module TreeBuilder {
  import opened Lexicon
  import opened Results
  import Scanner

  /** Splits an optional `no-` prefix off a flag name or short cluster. The
      prefix only negates when something follows it. */
  function StripNo(name: string): (r: (bool, string))
    ensures r.0 <==> |name| > 3 && name[..3] == "no-"
    ensures r.0 ==> name == "no-" + r.1 && |r.1| > 0
    ensures !r.0 ==> r.1 == name
  {
    if |name| > 3 && name[..3] == "no-" then (true, name[3..]) else (false, name)
  }

  /** What a flag sees right after itself. */
  datatype Ahead = Other | AWord | AGroup

  /** Classifies the unit after a flag. */
  function Peek(rest: seq<Token>): (a: Ahead)
    ensures a == AGroup <==> |rest| > 0 && rest[0].Open?
    ensures a == AWord <==> |rest| > 0 && rest[0].Word?
  {
    if |rest| == 0 then Other
    else if rest[0].Open? then AGroup
    else if rest[0].Word? then AWord
    else Other
  }

  /** What one word or flag marker does to the Result being built. */
  datatype Action =
    | Append(word: string)                 // a positional word
    | Assign(key: string, value: Value)    // one flag, nothing else consumed
    | AssignEach(letters: string, b: bool) // a short cluster, one Boolean per letter
    | TakeWord(key: string)                // the next word is this flag's value
    | TakeGroup(key: string)               // the next group is this flag's value

  /** Units other than brackets. */
  predicate IsMarkerOrWord(t: Token) {
    t.Word? || t.Long? || t.Short?
  }

  /** The grammar's decision for a word or flag marker, given what follows.
      An `=value` wins over a following group, which wins over a following
      word; negated flags are always `false`; a following word is taken only
      by a single-letter, non-negated short flag; other clusters expand. */
  function Decide(t: Token, ahead: Ahead): (a: Action)
    requires IsMarkerOrWord(t)
    ensures t.Word? <==> a.Append?
    ensures a.TakeWord? ==> t.Short? && ahead == AWord && t.value.None? && |a.key| == 1
    ensures a.TakeGroup? ==> !t.Word? && ahead == AGroup && t.value.None?
    ensures a.AssignEach? ==> t.Short?
  {
    match t
    case Word(w) => Append(w)
    case Long(name, value) =>
      var (negated, base) := StripNo(name);
      if value.Some? then Assign(name, Str(value.value))
      else if negated then Assign(base, Bool(false))
      else if ahead == AGroup then TakeGroup(name)
      else Assign(name, Bool(true))
    case Short(cluster, value) =>
      var (negated, letters) := StripNo(cluster);
      if value.Some? && |letters| == 1 then Assign(letters, Str(value.value))
      else if value.Some? || negated || |letters| != 1 then AssignEach(letters, !negated)
      else if ahead == AGroup then TakeGroup(letters)
      else if ahead == AWord then TakeWord(letters)
      else Assign(letters, Bool(true))
  }

  /** Carries out an action that consumes nothing after its own unit. */
  function Apply(acc: Result, a: Action): Result
    requires !a.TakeWord? && !a.TakeGroup?
  {
    match a
    case Append(w) => Push(acc, w)
    case Assign(k, v) => SetFlag(acc, k, v)
    case AssignEach(letters, b) => SetEach(acc, letters, b)
  }

  /** Consumes units into `acc` until the input ends or, when `nested`, until
      the `Close` ending this group. Returns the completed Result and the
      units after it, a suffix of `ts` (`BuilderFacts.BuildLeavesSuffix`).
      At the top level a `Close` is ignored; a group that is never closed
      ends with the input; a group no flag asked for adds its units to `acc`
      as if its brackets were not there. */
  function Build(ts: seq<Token>, nested: bool, acc: Result): (r: (Result, seq<Token>))
    ensures |r.1| <= |ts|
    ensures !nested ==> r.1 == []
    decreases |ts|
  {
    if |ts| == 0 then (acc, [])
    else if ts[0].Close? then
      if nested then (acc, ts[1..]) else Build(ts[1..], nested, acc)
    else if ts[0].Open? then
      // a group no flag asked for: its brackets are ignored and its units
      // are read into this level's Result
      var group := Build(ts[1..], true, acc);
      Build(group.1, nested, group.0)
    else
      var a := Decide(ts[0], Peek(ts[1..]));
      if a.TakeGroup? then
        var group := Build(ts[2..], true, Empty);
        Build(group.1, nested, SetFlag(acc, a.key, Group(group.0)))
      else if a.TakeWord? then Build(ts[2..], nested, SetFlag(acc, a.key, Str(ts[1].text)))
      else Build(ts[1..], nested, Apply(acc, a))
  }

  /** One step of the builder on a word or flag marker that consumes nothing else. */
  lemma BuildApplyStep(ts: seq<Token>, nested: bool, acc: Result)
    requires |ts| > 0 && IsMarkerOrWord(ts[0])
    requires var a := Decide(ts[0], Peek(ts[1..])); !a.TakeWord? && !a.TakeGroup?
    ensures Build(ts, nested, acc) == Build(ts[1..], nested, Apply(acc, Decide(ts[0], Peek(ts[1..]))))
  {
    var a := Decide(ts[0], Peek(ts[1..]));
    assert |ts| != 0 && !ts[0].Close? && !ts[0].Open?;
    assert !a.TakeGroup? && !a.TakeWord?;
  }


  /** What the builder hands back after a group is exactly the units that
      follow it: a suffix of its input. */
  lemma {:induction false} BuildLeavesSuffix(ts: seq<Token>, nested: bool, acc: Result)
    ensures IsSuffix(Build(ts, nested, acc).1, ts)
    decreases |ts|, 1
  {
    if |ts| == 0 || !nested {
      assert Build(ts, nested, acc).1 == [];
    } else if ts[0].Close? {
      assert Build(ts, nested, acc).1 == ts[1..];
      DropIsSuffix(ts, 1);
    } else if ts[0].Open? {
      var group := Build(ts[1..], true, acc);
      DropIsSuffix(ts, 1);
      BuildLeavesSuffix(ts[1..], true, acc);
      SuffixOfSuffix(ts, ts[1..], group.1);
      BuildLeavesSuffix(group.1, nested, group.0);
      assert Build(ts, nested, acc) == Build(group.1, nested, group.0);
      SuffixOfSuffix(ts, group.1, Build(ts, nested, acc).1);
    } else {
      BuildLeavesSuffixMarker(ts, nested, acc);
    }
  }

  /** `BuildLeavesSuffix` for input that starts with a word or a flag marker. */
  lemma {:induction false} BuildLeavesSuffixMarker(ts: seq<Token>, nested: bool, acc: Result)
    requires |ts| > 0 && IsMarkerOrWord(ts[0])
    ensures IsSuffix(Build(ts, nested, acc).1, ts)
    decreases |ts|, 0
  {
    assert !ts[0].Close? && !ts[0].Open?;
    var r := Build(ts, nested, acc).1;
    var a := Decide(ts[0], Peek(ts[1..]));
    if a.TakeGroup? {
      var group := Build(ts[2..], true, Empty);
      var next := SetFlag(acc, a.key, Group(group.0));
      DropIsSuffix(ts, 2);
      BuildLeavesSuffix(ts[2..], true, Empty);
      SuffixOfSuffix(ts, ts[2..], group.1);
      assert Build(ts, nested, acc) == Build(group.1, nested, next);
      BuildLeavesSuffix(group.1, nested, next);
      SuffixOfSuffix(ts, group.1, r);
    } else if a.TakeWord? {
      var next := SetFlag(acc, a.key, Str(ts[1].text));
      assert Build(ts, nested, acc) == Build(ts[2..], nested, next);
      DropIsSuffix(ts, 2);
      BuildLeavesSuffix(ts[2..], nested, next);
      SuffixOfSuffix(ts, ts[2..], r);
    } else {
      BuildApplyStep(ts, nested, acc);
      DropIsSuffix(ts, 1);
      BuildLeavesSuffix(ts[1..], nested, Apply(acc, a));
      SuffixOfSuffix(ts, ts[1..], r);
    }
  }


  /** Every positional word the builder adds is the text of a `Word` unit of
      its input: positionals are never invented, only carried over. */
  lemma {:induction false} BuildPositionals(ts: seq<Token>, nested: bool, acc: Result)
    ensures forall w :: w in Build(ts, nested, acc).0.positionals ==> w in acc.positionals || Word(w) in ts
    decreases |ts|, 1
  {
    if |ts| == 0 {
    } else if ts[0].Close? {
      if !nested {
        BuildPositionals(ts[1..], nested, acc);
      }
    } else if ts[0].Open? {
      var group := Build(ts[1..], true, acc);
      BuildPositionals(ts[1..], true, acc);
      BuildPositionals(group.1, nested, group.0);
      BuildLeavesSuffix(ts[1..], true, acc);
      SuffixMembers(group.1, ts[1..]);
    } else {
      BuildPositionalsMarker(ts, nested, acc);
    }
  }

  /** `BuildPositionals` for input that starts with a word or a flag marker. */
  lemma {:induction false} BuildPositionalsMarker(ts: seq<Token>, nested: bool, acc: Result)
    requires |ts| > 0 && IsMarkerOrWord(ts[0])
    ensures forall w :: w in Build(ts, nested, acc).0.positionals ==> w in acc.positionals || Word(w) in ts
    decreases |ts|, 0
  {
    assert !ts[0].Close? && !ts[0].Open?;
    var a := Decide(ts[0], Peek(ts[1..]));
    if a.TakeGroup? {
      var group := Build(ts[2..], true, Empty);
      var next := SetFlag(acc, a.key, Group(group.0));
      assert Build(ts, nested, acc) == Build(group.1, nested, next);
      BuildPositionals(group.1, nested, next);
      BuildLeavesSuffix(ts[2..], true, Empty);
      SuffixMembers(group.1, ts[2..]);
    } else if a.TakeWord? {
      var next := SetFlag(acc, a.key, Str(ts[1].text));
      assert Build(ts, nested, acc) == Build(ts[2..], nested, next);
      BuildPositionals(ts[2..], nested, next);
    } else {
      var next := Apply(acc, a);
      assert forall w :: w in next.positionals ==> w in acc.positionals || Word(w) == ts[0];
      BuildApplyStep(ts, nested, acc);
      BuildPositionals(ts[1..], nested, next);
    }
  }

  /** The entry point: parses one raw command-line string. Every positional
      of the Result is a word of the input. */
  function Parse(input: string): (r: Result)
    ensures forall w :: w in r.positionals ==> Word(w) in Scanner.Scan(input, 0)
  {
    var ts := Scanner.Scan(input, 0);
    BuildPositionals(ts, false, Empty);
    Build(ts, false, Empty).0
  }
}
