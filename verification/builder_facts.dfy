/** Properties of the tree builder over arbitrary unit sequences. */
module BuilderFacts {
  import opened Lexicon
  import opened Results
  import opened TreeBuilder

  /** The builder only ever adds to what it has: flags are never removed and
      positional words are only appended, so earlier positionals keep their
      places. */
  lemma {:induction false} BuildExtends(ts: seq<Token>, nested: bool, acc: Result)
    ensures acc.flags.Keys <= Build(ts, nested, acc).0.flags.Keys
    ensures acc.positionals <= Build(ts, nested, acc).0.positionals
    decreases |ts|, 1
  {
    if |ts| == 0 {
    } else if ts[0].Close? {
      if !nested {
        BuildExtends(ts[1..], nested, acc);
      }
    } else if ts[0].Open? {
      var group := Build(ts[1..], true, acc);
      BuildExtends(ts[1..], true, acc);
      BuildExtends(group.1, nested, group.0);
    } else {
      BuildExtendsMarker(ts, nested, acc);
    }
  }

  /** `BuildExtends` for input that starts with a word or a flag marker. */
  lemma {:induction false} BuildExtendsMarker(ts: seq<Token>, nested: bool, acc: Result)
    requires |ts| > 0 && IsMarkerOrWord(ts[0])
    ensures acc.flags.Keys <= Build(ts, nested, acc).0.flags.Keys
    ensures acc.positionals <= Build(ts, nested, acc).0.positionals
    decreases |ts|, 0
  {
    assert !ts[0].Close? && !ts[0].Open?;
    var a := Decide(ts[0], Peek(ts[1..]));
    if a.TakeGroup? {
      var group := Build(ts[2..], true, Empty);
      var next := SetFlag(acc, a.key, Group(group.0));
      assert Build(ts, nested, acc) == Build(group.1, nested, next);
      BuildExtends(group.1, nested, next);
    } else if a.TakeWord? {
      var next := SetFlag(acc, a.key, Str(ts[1].text));
      assert Build(ts, nested, acc) == Build(ts[2..], nested, next);
      BuildExtends(ts[2..], nested, next);
    } else {
      var next := Apply(acc, a);
      assert acc.flags.Keys <= next.flags.Keys && acc.positionals <= next.positionals;
      BuildApplyStep(ts, nested, acc);
      BuildExtends(ts[1..], nested, next);
    }
  }

  /** A name not starting with `n`, or too short to carry `no-` and a
      name, is not negated. */
  lemma NotNegated(name: string)
    requires |name| <= 3 || name[0] != 'n'
    ensures StripNo(name) == (false, name)
  {
    if |name| > 3 {
      assert name[..3][0] == name[0];
    }
  }

  /** The units of a list of positional words. */
  function Words(ws: seq<string>): (ts: seq<Token>)
    ensures |ts| == |ws| && forall i :: 0 <= i < |ws| ==> ts[i] == Word(ws[i])
  {
    seq(|ws|, i requires 0 <= i < |ws| => Word(ws[i]))
  }

  /** Words that no flag takes are appended to `$` in input order, and
      nothing else changes. */
  lemma {:induction false} BuildWords(ws: seq<string>, rest: seq<Token>, nested: bool, acc: Result)
    ensures Build(Words(ws) + rest, nested, acc)
         == Build(rest, nested, acc.(positionals := acc.positionals + ws))
    decreases |ws|, 1
  {
    if |ws| == 0 {
      assert Words(ws) + rest == rest;
      assert acc.positionals + ws == acc.positionals;
    } else {
      BuildWordsStep(ws, rest, nested, acc);
    }
  }

  /** `BuildWords` for a non-empty list: the first word, then the others. */
  lemma {:induction false} BuildWordsStep(ws: seq<string>, rest: seq<Token>, nested: bool, acc: Result)
    requires |ws| > 0
    ensures Build(Words(ws) + rest, nested, acc)
         == Build(rest, nested, acc.(positionals := acc.positionals + ws))
    decreases |ws|, 0
  {
    var tail := Words(ws[1..]) + rest;
    var ts := Words(ws) + rest;
    WordsCons(ws);
    Regroup([Word(ws[0])], Words(ws[1..]), rest);
    ConsParts(Word(ws[0]), tail);
    assert ts[0] == Word(ws[0]) && ts[1..] == tail;
    assert Decide(ts[0], Peek(ts[1..])) == Append(ws[0]);
    BuildApplyStep(ts, nested, acc);
    var next := Push(acc, ws[0]);
    BuildWords(ws[1..], rest, nested, next);
    AppendHead(acc.positionals, ws);
    assert next.(positionals := next.positionals + ws[1..]) == acc.(positionals := acc.positionals + ws);
  }

  /** The units of a non-empty word list: the first word, then the others. */
  lemma WordsCons(ws: seq<string>)
    requires |ws| > 0
    ensures Words(ws) == [Word(ws[0])] + Words(ws[1..])
  {
    assert forall i :: 1 <= i < |ws| ==> Words(ws)[i] == Words(ws[1..])[i - 1];
  }

  /** `-a -b -c` (or `-no-a -no-b -no-c`): one single-letter marker per letter. */
  function Singles(letters: string, negated: bool): (ts: seq<Token>)
    ensures |ts| == |letters|
    ensures forall i :: 0 <= i < |letters| ==>
      ts[i] == Short((if negated then "no-" else "") + [letters[i]], None)
  {
    seq(|letters|, i requires 0 <= i < |letters| =>
      Short((if negated then "no-" else "") + [letters[i]], None))
  }

  /** Single-letter markers in a row, with no word or group after the last
      one, set one Boolean per letter: `true`, or `false` when negated. */
  lemma {:induction false} BuildSingles(letters: string, negated: bool, rest: seq<Token>, nested: bool, acc: Result)
    requires negated || Peek(rest) == Other
    ensures Build(Singles(letters, negated) + rest, nested, acc)
         == Build(rest, nested, SetEach(acc, letters, !negated))
    decreases |letters|, 1
  {
    if |letters| == 0 {
      assert Singles(letters, negated) + rest == rest;
    } else {
      BuildSinglesStep(letters, negated, rest, nested, acc);
    }
  }

  /** `BuildSingles` for a non-empty run: the first letter, then the others. */
  lemma {:induction false} BuildSinglesStep(letters: string, negated: bool, rest: seq<Token>, nested: bool, acc: Result)
    requires |letters| > 0 && (negated || Peek(rest) == Other)
    ensures Build(Singles(letters, negated) + rest, nested, acc)
         == Build(rest, nested, SetEach(acc, letters, !negated))
    decreases |letters|, 0
  {
    var next := SetFlag(acc, Letter(letters[0]), Bool(!negated));
    SinglesHead(letters, negated, rest, nested, acc);
    BuildSingles(letters[1..], negated, rest, nested, next);
  }

  /** The first marker of a run of single letters sets its own flag only. */
  lemma SinglesHead(letters: string, negated: bool, rest: seq<Token>, nested: bool, acc: Result)
    requires |letters| > 0 && (negated || Peek(rest) == Other)
    ensures Build(Singles(letters, negated) + rest, nested, acc)
         == Build(Singles(letters[1..], negated) + rest, nested, SetFlag(acc, Letter(letters[0]), Bool(!negated)))
  {
    var c := letters[0];
    var t := Short((if negated then "no-" else "") + [c], None);
    var tail := Singles(letters[1..], negated) + rest;
    var ts := Singles(letters, negated) + rest;
    SinglesCons(letters, negated);
    Regroup([t], Singles(letters[1..], negated), rest);
    ConsParts(t, tail);
    assert ts[0] == t && ts[1..] == tail;
    if negated {
      assert StripNo("no-" + [c]) == (true, [c]) by {
        assert ("no-" + [c])[..3] == "no-" && ("no-" + [c])[3..] == [c];
      }
      assert Decide(t, Peek(ts[1..])) == AssignEach([c], false);
      assert SetEach(acc, [c], false) == SetFlag(acc, Letter(c), Bool(false)) by {
        assert [c][1..] == [];
      }
    } else {
      assert StripNo([c]) == (false, [c]);
      if |letters| > 1 {
        assert ts[1] == Short([letters[1]], None);
      } else {
        assert ts[1..] == rest;
      }
      assert Peek(ts[1..]) == Other;
      assert Decide(t, Peek(ts[1..])) == Assign([c], Bool(true));
    }
    BuildApplyStep(ts, nested, acc);
  }

  /** The markers for a non-empty run of letters: the first letter's, then the others'. */
  lemma SinglesCons(letters: string, negated: bool)
    requires |letters| > 0
    ensures Singles(letters, negated)
         == [Short((if negated then "no-" else "") + [letters[0]], None)] + Singles(letters[1..], negated)
  {
    assert forall i :: 1 <= i < |letters| ==> Singles(letters, negated)[i] == Singles(letters[1..], negated)[i - 1];
  }

  /** A cluster of two or more letters never takes the following unit as its
      value, whatever it is: each letter becomes `true`. */
  lemma ClusterNeverTakes(letters: string, rest: seq<Token>, nested: bool, acc: Result)
    requires |letters| > 1 && !StripNo(letters).0
    ensures Build([Short(letters, None)] + rest, nested, acc)
         == Build(rest, nested, SetEach(acc, letters, true))
  {
    var ts := [Short(letters, None)] + rest;
    assert ts[1..] == rest;
    BuildApplyStep(ts, nested, acc);
  }

  /** `-abc` sets the same Booleans as `-a -b -c` when no word or group follows. */
  lemma ClusterAsSingles(letters: string, rest: seq<Token>, nested: bool, acc: Result)
    requires |letters| > 0 && !StripNo(letters).0 && Peek(rest) == Other
    ensures Build([Short(letters, None)] + rest, nested, acc)
         == Build(Singles(letters, false) + rest, nested, acc)
  {
    if |letters| > 1 {
      BuildSingles(letters, false, rest, nested, acc);
      ClusterNeverTakes(letters, rest, nested, acc);
    } else {
      var c := letters[0];
      assert letters == [c];
      assert (if false then "no-" else "") + [c] == [c];
      assert Singles(letters, false)[0] == Short([c], None);
      assert [Short(letters, None)] == Singles(letters, false);
    }
  }

  /** `-no-abc` sets the same Booleans as `-no-a -no-b -no-c`, whatever follows. */
  lemma NegatedClusterAsSingles(letters: string, rest: seq<Token>, nested: bool, acc: Result)
    requires |letters| > 0
    ensures Build([Short("no-" + letters, None)] + rest, nested, acc)
         == Build(Singles(letters, true) + rest, nested, acc)
  {
    var ts := [Short("no-" + letters, None)] + rest;
    assert ts[1..] == rest;
    assert StripNo("no-" + letters) == (true, letters) by {
      assert ("no-" + letters)[..3] == "no-" && ("no-" + letters)[3..] == letters;
    }
    BuildApplyStep(ts, nested, acc);
    BuildSingles(letters, true, rest, nested, acc);
  }

  /** `-no-abc` sets every letter `false` and never takes the following
      unit as a value, whatever it is. */
  lemma NegatedNeverTakes(letters: string, rest: seq<Token>, nested: bool, acc: Result)
    requires |letters| > 0
    ensures Build([Short("no-" + letters, None)] + rest, nested, acc)
         == Build(rest, nested, SetEach(acc, letters, false))
  {
    var ts := [Short("no-" + letters, None)] + rest;
    assert ts[1..] == rest;
    assert StripNo("no-" + letters) == (true, letters) by {
      assert ("no-" + letters)[..3] == "no-" && ("no-" + letters)[3..] == letters;
    }
    BuildApplyStep(ts, nested, acc);
  }

  /** A single-letter short flag followed by a word takes the word as its
      String value; the word does not reach `$`. */
  lemma ShortTakesWord(c: char, w: string, rest: seq<Token>, nested: bool, acc: Result)
    ensures Build([Short([c], None)] + ([Word(w)] + rest), nested, acc)
         == Build(rest, nested, SetFlag(acc, [c], Str(w)))
  {
    var ts := [Short([c], None)] + ([Word(w)] + rest);
    assert ts[1..][0] == Word(w) && ts[2..] == rest;
    assert Decide(ts[0], Peek(ts[1..])) == TakeWord([c]);
  }

  /** A single-letter short flag followed by another marker, a `]` or the end
      of input is Boolean `true` and consumes nothing else. */
  lemma ShortAloneIsTrue(c: char, rest: seq<Token>, nested: bool, acc: Result)
    requires Peek(rest) == Other
    ensures Build([Short([c], None)] + rest, nested, acc)
         == Build(rest, nested, SetFlag(acc, [c], Bool(true)))
  {
    var ts := [Short([c], None)] + rest;
    assert ts[1..] == rest;
    assert StripNo([c]) == (false, [c]);
    assert Decide(ts[0], Peek(ts[1..])) == Assign([c], Bool(true));
    BuildApplyStep(ts, nested, acc);
  }

  /** `--name` with no `=value` and no group after it is `true` at `name`. */
  lemma LongPresent(name: string, rest: seq<Token>, nested: bool, acc: Result)
    requires !StripNo(name).0 && Peek(rest) != AGroup
    ensures Build([Long(name, None)] + rest, nested, acc)
         == Build(rest, nested, SetFlag(acc, name, Bool(true)))
  {
    var ts := [Long(name, None)] + rest;
    assert ts[0] == Long(name, None) && ts[1..] == rest;
    assert Decide(ts[0], Peek(ts[1..])) == Assign(name, Bool(true));
    BuildApplyStep(ts, nested, acc);
  }

  /** `--no-name` is `false` at `name`, whatever follows it. */
  lemma LongNegated(name: string, rest: seq<Token>, nested: bool, acc: Result)
    requires |name| > 0
    ensures Build([Long("no-" + name, None)] + rest, nested, acc)
         == Build(rest, nested, SetFlag(acc, name, Bool(false)))
  {
    var ns := [Long("no-" + name, None)] + rest;
    assert ns[0] == Long("no-" + name, None) && ns[1..] == rest;
    assert StripNo("no-" + name) == (true, name) by {
      assert ("no-" + name)[..3] == "no-" && ("no-" + name)[3..] == name;
    }
    assert Decide(ns[0], Peek(ns[1..])) == Assign(name, Bool(false));
    BuildApplyStep(ns, nested, acc);
  }

  /** `-no-c=value` is the String `value` at the letter `c`: the `no-` is
      dropped, while `--no-name=value` keeps it (`LongAssigns`). */
  lemma ShortNegatedAssigns(c: char, v: string, rest: seq<Token>, nested: bool, acc: Result)
    ensures Build([Short("no-" + [c], Some(v))] + rest, nested, acc)
         == Build(rest, nested, SetFlag(acc, [c], Str(v)))
  {
    var ns := [Short("no-" + [c], Some(v))] + rest;
    assert ns[0] == Short("no-" + [c], Some(v)) && ns[1..] == rest;
    assert StripNo("no-" + [c]) == (true, [c]) by {
      assert ("no-" + [c])[..3] == "no-" && ("no-" + [c])[3..] == [c];
    }
    assert Decide(ns[0], Peek(ns[1..])) == Assign([c], Str(v));
    BuildApplyStep(ns, nested, acc);
  }

  /** A later assignment to the same flag overwrites the earlier one. */
  lemma LastWriteWins(name: string, v1: string, v2: string, rest: seq<Token>, nested: bool, acc: Result)
    ensures Build([Long(name, Some(v1)), Long(name, Some(v2))] + rest, nested, acc)
         == Build([Long(name, Some(v2))] + rest, nested, acc)
  {
    var us := [Long(name, Some(v2))] + rest;
    assert [Long(name, Some(v1)), Long(name, Some(v2))] + rest == [Long(name, Some(v1))] + us;
    LongAssigns(name, v1, us, nested, acc);
    LongAssigns(name, v2, rest, nested, SetFlag(acc, name, Str(v1)));
    LongAssigns(name, v2, rest, nested, acc);
    SetFlagOverwrites(acc, name, Str(v1), Str(v2));
  }

  /** The builder never reads the Result it was handed: reading `ts` into
      `acc` lays what `ts` alone builds over `acc`, and hands back the same
      remaining units. Every step only sets flags and appends words. */
  lemma {:induction false} BuildFrame(ts: seq<Token>, nested: bool, acc: Result)
    ensures Build(ts, nested, acc).0 == Merge(acc, Build(ts, nested, Empty).0)
    ensures Build(ts, nested, acc).1 == Build(ts, nested, Empty).1
    decreases |ts|, 1
  {
    if |ts| == 0 {
      MergeEmpty(acc);
    } else if ts[0].Close? {
      if nested {
        MergeEmpty(acc);
      } else {
        BuildFrame(ts[1..], nested, acc);
      }
    } else if ts[0].Open? {
      var group := Build(ts[1..], true, Empty);
      BuildFrame(ts[1..], true, acc);
      BuildFrameThen(group.1, nested, acc, group.0);
    } else {
      BuildFrameMarker(ts, nested, acc);
    }
  }

  /** `BuildFrame` for input that starts with a word or a flag marker. */
  lemma {:induction false} BuildFrameMarker(ts: seq<Token>, nested: bool, acc: Result)
    requires |ts| > 0 && IsMarkerOrWord(ts[0])
    ensures Build(ts, nested, acc).0 == Merge(acc, Build(ts, nested, Empty).0)
    ensures Build(ts, nested, acc).1 == Build(ts, nested, Empty).1
    decreases |ts|, 0
  {
    assert !ts[0].Close? && !ts[0].Open?;
    var a := Decide(ts[0], Peek(ts[1..]));
    if a.TakeGroup? {
      var group := Build(ts[2..], true, Empty);
      var one := SetFlag(Empty, a.key, Group(group.0));
      assert Build(ts, nested, acc) == Build(group.1, nested, SetFlag(acc, a.key, Group(group.0)));
      assert Build(ts, nested, Empty) == Build(group.1, nested, one);
      SetFlagMerge(acc, a.key, Group(group.0));
      BuildFrameThen(group.1, nested, acc, one);
    } else if a.TakeWord? {
      var one := SetFlag(Empty, a.key, Str(ts[1].text));
      assert Build(ts, nested, acc) == Build(ts[2..], nested, SetFlag(acc, a.key, Str(ts[1].text)));
      assert Build(ts, nested, Empty) == Build(ts[2..], nested, one);
      SetFlagMerge(acc, a.key, Str(ts[1].text));
      BuildFrameThen(ts[2..], nested, acc, one);
    } else {
      BuildApplyStep(ts, nested, acc);
      BuildApplyStep(ts, nested, Empty);
      ApplyMerge(acc, a);
      BuildFrameThen(ts[1..], nested, acc, Apply(Empty, a));
    }
  }

  /** `BuildFrame` for the rest of the input once a step has laid `e` over
      `acc`: the rest may be read into `e` first and then laid over `acc`. */
  lemma {:induction false} BuildFrameThen(rest: seq<Token>, nested: bool, acc: Result, e: Result)
    ensures Build(rest, nested, Merge(acc, e)).0 == Merge(acc, Build(rest, nested, e).0)
    ensures Build(rest, nested, Merge(acc, e)).1 == Build(rest, nested, e).1
    decreases |rest|, 2
  {
    BuildFrame(rest, nested, Merge(acc, e));
    BuildFrame(rest, nested, e);
    MergeAssoc(acc, e, Build(rest, nested, Empty).0);
  }

  /** A step that consumes nothing else lays its own effect over the Result. */
  lemma ApplyMerge(acc: Result, a: Action)
    requires !a.TakeWord? && !a.TakeGroup?
    ensures Apply(acc, a) == Merge(acc, Apply(Empty, a))
  {
    match a
    case Append(w) => PushMerge(acc, w);
    case Assign(k, v) => SetFlagMerge(acc, k, v);
    case AssignEach(letters, b) => SetEachMerge(acc, letters, b);
  }

  /** Last write wins, for any units: whatever the rest of the input `ts`
      sets a flag to replaces what the Result already held there, and a
      flag `ts` never sets keeps its earlier value. Positionals read from
      `ts` come after the earlier ones. */
  lemma LaterWriteWins(ts: seq<Token>, nested: bool, acc: Result, n: string)
    ensures var later := Build(ts, nested, Empty).0;
      n in later.flags ==>
        n in Build(ts, nested, acc).0.flags && Build(ts, nested, acc).0.flags[n] == later.flags[n]
    ensures var later := Build(ts, nested, Empty).0;
      n !in later.flags && n in acc.flags ==>
        n in Build(ts, nested, acc).0.flags && Build(ts, nested, acc).0.flags[n] == acc.flags[n]
    ensures Build(ts, nested, acc).0.positionals
         == acc.positionals + Build(ts, nested, Empty).0.positionals
  {
    BuildFrame(ts, nested, acc);
  }

  /** `--name=value` followed by any units: `name` ends as `value` unless a
      later unit at this level sets it, and then as that unit says; the
      value `name` held before is never seen. */
  lemma AssignThenRest(name: string, v: string, rest: seq<Token>, nested: bool, acc: Result)
    ensures var later := Build(rest, nested, Empty).0;
      var r := Build([Long(name, Some(v))] + rest, nested, acc).0;
      name in r.flags && r.flags[name] == (if name in later.flags then later.flags[name] else Str(v))
  {
    LongAssigns(name, v, rest, nested, acc);
    LaterWriteWins(rest, nested, SetFlag(acc, name, Str(v)), name);
  }

  /** `--name=value` is the String `value` at `name`, even when the name
      starts with `no-`, and consumes nothing after itself. */
  lemma LongAssigns(name: string, v: string, rest: seq<Token>, nested: bool, acc: Result)
    ensures Build([Long(name, Some(v))] + rest, nested, acc)
         == Build(rest, nested, SetFlag(acc, name, Str(v)))
  {
    var ts := [Long(name, Some(v))] + rest;
    assert ts[1..] == rest;
    BuildApplyStep(ts, nested, acc);
  }

  /** `-c=value` is the String `value` at the single letter `c`, and
      consumes nothing after itself. */
  lemma ShortAssigns(c: char, v: string, rest: seq<Token>, nested: bool, acc: Result)
    ensures Build([Short([c], Some(v))] + rest, nested, acc)
         == Build(rest, nested, SetFlag(acc, [c], Str(v)))
  {
    var ts := [Short([c], Some(v))] + rest;
    assert ts[1..] == rest;
    assert StripNo([c]) == (false, [c]);
    BuildApplyStep(ts, nested, acc);
  }

  /** `-abc=value`: a cluster cannot hold one value, so each letter is
      `true` and the value is dropped. */
  lemma ClusterAssignDropsValue(letters: string, v: string, rest: seq<Token>, nested: bool, acc: Result)
    requires |letters| > 1 && !StripNo(letters).0
    ensures Build([Short(letters, Some(v))] + rest, nested, acc)
         == Build(rest, nested, SetEach(acc, letters, true))
  {
    var ts := [Short(letters, Some(v))] + rest;
    ConsParts(Short(letters, Some(v)), rest);
    assert Decide(ts[0], Peek(ts[1..])) == AssignEach(letters, true);
    BuildApplyStep(ts, nested, acc);
  }

  /** Inside a group, its `]` ends the group's Result; at the top level a
      stray `]` is skipped. */
  lemma BuildClose(rest: seq<Token>, nested: bool, acc: Result)
    ensures nested ==> Build([Close] + rest, nested, acc) == (acc, rest)
    ensures !nested ==> Build([Close] + rest, nested, acc) == Build(rest, nested, acc)
  {
    assert ([Close] + rest)[1..] == rest;
  }

  /** A word that no flag takes is appended to `$` and nothing else changes. */
  lemma WordIsPositional(w: string, rest: seq<Token>, nested: bool, acc: Result)
    ensures Build([Word(w)] + rest, nested, acc)
         == Build(rest, nested, acc.(positionals := acc.positionals + [w]))
  {
    var ts := [Word(w)] + rest;
    assert ts[1..] == rest;
    BuildApplyStep(ts, nested, acc);
  }
}
