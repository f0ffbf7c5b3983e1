/** Bracket groups, seen as a tree. A balanced unit sequence is the
    flattening of a list of items, each a single word or marker or a
    bracketed list of items. `Eval` reads such a tree directly, level by
    level; `BuildFlatten` shows the token-stream builder computes the same
    Result, which is what scopes a group to the units between its brackets. */
module Groups {
  import opened Lexicon
  import opened Results
  import opened TreeBuilder

  datatype Item = Unit(t: Token) | Bracket(body: seq<Item>)

  /** Brackets appear only as `Bracket` items, never as loose units. */
  predicate Plain(items: seq<Item>)
    decreases items
  {
    forall i :: 0 <= i < |items| ==>
      match items[i]
      case Unit(t) => IsMarkerOrWord(t)
      case Bracket(b) => Plain(b)
  }

  /** The units of a tree of items, each bracket written as `[`, its body, `]`. */
  function Flatten(items: seq<Item>): seq<Token>
    decreases items
  {
    if |items| == 0 then []
    else match items[0]
      case Unit(t) => [t] + Flatten(items[1..])
      case Bracket(b) => [Open] + Flatten(b) + [Close] + Flatten(items[1..])
  }

  /** What a flag sees after itself, read off the tree. */
  function PeekItem(items: seq<Item>): Ahead {
    if |items| == 0 then Other
    else match items[0]
      case Bracket(_) => AGroup
      case Unit(t) => if t.Word? then AWord else Other
  }

  /** The Result of reading `items` into `acc`, one level at a time: a flag
      that asks for a group gets the Result of that group's own items, and a
      group no flag asked for is read into `acc` as if unbracketed. */
  function Eval(items: seq<Item>, acc: Result): Result
    requires Plain(items)
    decreases items
  {
    if |items| == 0 then acc
    else match items[0]
      case Bracket(b) => Eval(items[1..], Eval(b, acc))
      case Unit(t) =>
        var a := Decide(t, PeekItem(items[1..]));
        if a.TakeGroup? then Eval(items[2..], SetFlag(acc, a.key, Group(Eval(items[1].body, Empty))))
        else if a.TakeWord? then Eval(items[2..], SetFlag(acc, a.key, Str(items[1].t.text)))
        else Eval(items[1..], Apply(acc, a))
  }

  /** Looking past the end of the input, or, inside a group, at its `]`. */
  predicate Stop(tail: seq<Token>, nested: bool) {
    tail == [] || (nested && tail[0].Close?)
  }

  /** Looking ahead in the units agrees with looking ahead in the tree. */
  lemma PeekFlatten(items: seq<Item>, tail: seq<Token>, nested: bool)
    requires Plain(items) && Stop(tail, nested)
    ensures Peek(Flatten(items) + tail) == PeekItem(items)
  {
    if |items| > 0 {
      match items[0]
      case Unit(t) =>
        assert (Flatten(items) + tail)[0] == t;
      case Bracket(b) =>
        assert (Flatten(items) + tail)[0] == Open;
    } else {
      assert Flatten(items) + tail == tail;
    }
  }

  /** The builder stops at the end of input, or at the `]` of its group. */
  lemma BuildStop(tail: seq<Token>, nested: bool, acc: Result)
    requires Stop(tail, nested)
    ensures Build(tail, nested, acc) == (acc, if tail == [] then [] else tail[1..])
  {
  }

  /** The builder over a flattened tree, up to the end of its group or of
      the input, computes exactly what `Eval` computes over the tree. */
  lemma {:induction false} BuildFlatten(items: seq<Item>, tail: seq<Token>, nested: bool, acc: Result)
    requires Plain(items) && Stop(tail, nested)
    ensures Build(Flatten(items) + tail, nested, acc) == Build(tail, nested, Eval(items, acc))
    decreases items, 2
  {
    if |items| == 0 {
      assert Flatten(items) + tail == tail;
    } else {
      match items[0]
      case Bracket(b) => BuildFlattenBracket(items, b, tail, nested, acc);
      case Unit(t) =>
        var a := Decide(t, PeekItem(items[1..]));
        if a.TakeGroup? {
          BuildFlattenGroup(items, t, tail, nested, acc);
        } else if a.TakeWord? {
          BuildFlattenWord(items, t, tail, nested, acc);
        } else {
          BuildFlattenApply(items, t, tail, nested, acc);
        }
    }
  }

  /** A group's units, up to and including its `]`, read into `acc`, give
      what `Eval` gives for the group and leave exactly what follows the `]`. */
  lemma {:induction false} ClosedGroup(b: seq<Item>, after: seq<Token>, acc: Result)
    requires Plain(b)
    ensures Build(Flatten(b) + ([Close] + after), true, acc) == (Eval(b, acc), after)
    decreases b, 3
  {
    BuildFlatten(b, [Close] + after, true, acc);
    BuildStop([Close] + after, true, Eval(b, acc));
    assert ([Close] + after)[1..] == after;
  }

  /** One step of the builder on a `[` no flag asked for. */
  lemma BuildOpenStep(ts: seq<Token>, nested: bool, acc: Result)
    requires |ts| > 0 && ts[0].Open?
    ensures Build(ts, nested, acc) == Build(Build(ts[1..], true, acc).1, nested, Build(ts[1..], true, acc).0)
  {
  }

  /** One step of the builder on a flag that takes the following group. */
  lemma BuildGroupStep(t: Token, s: seq<Token>, nested: bool, acc: Result)
    requires IsMarkerOrWord(t) && Decide(t, AGroup).TakeGroup?
    ensures Build([t, Open] + s, nested, acc)
         == Build(Build(s, true, Empty).1, nested, SetFlag(acc, Decide(t, AGroup).key, Group(Build(s, true, Empty).0)))
  {
    var ts := [t, Open] + s;
    assert ts[0] == t && ts[1..][0] == Open && ts[2..] == s;
    assert Peek(ts[1..]) == AGroup;
  }

  /** A single-letter flag followed by a word consumes both. */
  lemma BuildTakeWordStep(ts: seq<Token>, nested: bool, acc: Result)
    requires |ts| > 1 && IsMarkerOrWord(ts[0]) && Decide(ts[0], Peek(ts[1..])).TakeWord?
    ensures ts[1].Word?
    ensures Build(ts, nested, acc) == Build(ts[2..], nested, SetFlag(acc, Decide(ts[0], Peek(ts[1..])).key, Str(ts[1].text)))
  {
    var a := Decide(ts[0], Peek(ts[1..]));
    assert |ts| != 0 && !ts[0].Close? && !ts[0].Open?;
    assert !a.TakeGroup? && a.TakeWord?;
  }

  /** The units of a marker item followed by a bracket item. */
  lemma FlattenMarkerGroup(items: seq<Item>, tail: seq<Token>)
    requires |items| > 1 && items[0].Unit? && items[1].Bracket?
    ensures Flatten(items) + tail
         == [items[0].t, Open] + (Flatten(items[1].body) + ([Close] + (Flatten(items[2..]) + tail)))
  {
    var fb := Flatten(items[1].body);
    var f2 := Flatten(items[2..]);
    assert items[1..][0] == items[1] && items[1..][1..] == items[2..];
    assert Flatten(items[1..]) == [Open] + fb + [Close] + f2;
    Regroup([items[0].t], Flatten(items[1..]), tail);
    Regroup([Open] + fb + [Close], f2, tail);
    Regroup([Open] + fb, [Close], f2 + tail);
    Regroup([Open], fb, [Close] + (f2 + tail));
    Regroup([items[0].t], [Open], fb + ([Close] + (f2 + tail)));
    assert [items[0].t] + [Open] == [items[0].t, Open];
  }

  /** A bracket no flag asked for is read into the current level. */
  lemma {:induction false} BuildFlattenBracket(items: seq<Item>, b: seq<Item>, tail: seq<Token>, nested: bool, acc: Result)
    requires Plain(items) && Stop(tail, nested) && |items| > 0 && items[0] == Bracket(b)
    ensures Build(Flatten(items) + tail, nested, acc) == Build(tail, nested, Eval(items, acc))
    decreases items, 1
  {
    var after := Flatten(items[1..]) + tail;
    var ts := Flatten(items) + tail;
    var fb := Flatten(b);
    Regroup([Open] + fb + [Close], Flatten(items[1..]), tail);
    Regroup([Open] + fb, [Close], after);
    Regroup([Open], fb, [Close] + after);
    assert ts == [Open] + (fb + ([Close] + after));
    assert Plain(b) && Plain(items[1..]);
    BuildOpenStep(ts, nested, acc);
    assert ts[1..] == Flatten(b) + ([Close] + after);
    ClosedGroup(b, after, acc);
    BuildFlatten(items[1..], tail, nested, Eval(b, acc));
  }

  /** A flag that asks for the following group gets that group's own Result. */
  lemma {:induction false} BuildFlattenGroup(items: seq<Item>, t: Token, tail: seq<Token>, nested: bool, acc: Result)
    requires Plain(items) && Stop(tail, nested) && |items| > 0 && items[0] == Unit(t)
    requires Decide(t, PeekItem(items[1..])).TakeGroup?
    ensures Build(Flatten(items) + tail, nested, acc) == Build(tail, nested, Eval(items, acc))
    decreases items, 1
  {
    var b := items[1].body;
    assert items[1].Bracket? by {
      PeekFlatten(items[1..], tail, nested);
    }
    assert PeekItem(items[1..]) == AGroup;
    assert Plain(b) && Plain(items[2..]);
    var after := Flatten(items[2..]) + tail;
    FlattenMarkerGroup(items, tail);
    BuildGroupStep(t, Flatten(b) + ([Close] + after), nested, acc);
    ClosedGroup(b, after, Empty);
    BuildFlatten(items[2..], tail, nested, SetFlag(acc, Decide(t, AGroup).key, Group(Eval(b, Empty))));
  }

  /** A single-letter flag followed by a word takes it. */
  lemma {:induction false} BuildFlattenWord(items: seq<Item>, t: Token, tail: seq<Token>, nested: bool, acc: Result)
    requires Plain(items) && Stop(tail, nested) && |items| > 0 && items[0] == Unit(t)
    requires Decide(t, PeekItem(items[1..])).TakeWord?
    ensures Build(Flatten(items) + tail, nested, acc) == Build(tail, nested, Eval(items, acc))
    decreases items, 1
  {
    var key := Decide(t, PeekItem(items[1..])).key;
    assert PeekItem(items[1..]) == AWord;
    assert items[1..][0] == items[1];
    var w := items[1].t;
    FlattenUnitWord(items, tail);
    var ts := Flatten(items) + tail;
    assert Peek(ts[1..]) == AWord;
    BuildTakeWordStep(ts, nested, acc);
    var next := SetFlag(acc, key, Str(w.text));
    assert Eval(items, acc) == Eval(items[2..], next);
    BuildFlatten(items[2..], tail, nested, next);
  }

  /** The units of a unit item followed by a word item. */
  lemma FlattenUnitWord(items: seq<Item>, tail: seq<Token>)
    requires Plain(items) && |items| > 1 && items[0].Unit? && items[1].Unit? && items[1].t.Word?
    ensures Plain(items[2..])
    ensures var ts := Flatten(items) + tail;
      |ts| > 1 && ts[0] == items[0].t && ts[1] == items[1].t && ts[2..] == Flatten(items[2..]) + tail
  {
    var w := items[1].t;
    assert items[1..][0] == items[1] && items[1..][1..] == items[2..];
    assert Flatten(items[1..]) == [w] + Flatten(items[2..]);
    var ts := Flatten(items) + tail;
    assert ts == [items[0].t] + ([w] + (Flatten(items[2..]) + tail));
    assert forall i :: 0 <= i < |items[2..]| ==> items[2..][i] == items[i + 2];
  }

  /** A word or marker that consumes nothing after itself. */
  lemma {:induction false} BuildFlattenApply(items: seq<Item>, t: Token, tail: seq<Token>, nested: bool, acc: Result)
    requires Plain(items) && Stop(tail, nested) && |items| > 0 && items[0] == Unit(t)
    requires var a := Decide(t, PeekItem(items[1..])); !a.TakeWord? && !a.TakeGroup?
    ensures Build(Flatten(items) + tail, nested, acc) == Build(tail, nested, Eval(items, acc))
    decreases items, 1
  {
    var a := Decide(t, PeekItem(items[1..]));
    var ts := Flatten(items) + tail;
    assert ts == [t] + (Flatten(items[1..]) + tail);
    assert ts[1..] == Flatten(items[1..]) + tail;
    assert Plain(items[1..]);
    PeekFlatten(items[1..], tail, nested);
    BuildFlatten(items[1..], tail, nested, Apply(acc, a));
  }

  /** Which units ask for a following group: a long flag that is not negated
      and has no `=value`, or a single-letter short flag without `=value`. */
  lemma TakesGroupWhen(t: Token)
    requires IsMarkerOrWord(t)
    ensures Decide(t, AGroup).TakeGroup? <==>
      (t.Long? && t.value.None? && !StripNo(t.name).0) ||
      (t.Short? && t.value.None? && |t.cluster| == 1)
  {
    if t.Short? && |t.cluster| == 1 {
      assert !StripNo(t.cluster).0;
    }
  }

  /** A flag immediately followed by `[ ... ]` gets, as its value, the Result
      of the units between the brackets read on their own, as if they were a
      whole input; the parent continues after the `]` and receives none of
      the group's flags or positionals. */
  lemma GroupScope(t: Token, body: seq<Item>, rest: seq<Token>, nested: bool, acc: Result)
    requires IsMarkerOrWord(t) && Decide(t, AGroup).TakeGroup? && Plain(body)
    ensures Build([t, Open] + Flatten(body) + [Close] + rest, nested, acc)
         == Build(rest, nested, SetFlag(acc, Decide(t, AGroup).key, Group(Build(Flatten(body), false, Empty).0)))
  {
    assert [t, Open] + Flatten(body) + [Close] + rest == [t, Open] + (Flatten(body) + ([Close] + rest));
    BuildGroupStep(t, Flatten(body) + ([Close] + rest), nested, acc);
    ClosedGroup(body, rest, Empty);
    BuildFlatten(body, [], false, Empty);
    assert Flatten(body) + [] == Flatten(body);
  }

  /** A group whose `]` never comes runs to the end of the input: the flag
      still gets the Result of everything after the `[`. */
  lemma UnclosedGroup(t: Token, body: seq<Item>, nested: bool, acc: Result)
    requires IsMarkerOrWord(t) && Decide(t, AGroup).TakeGroup? && Plain(body)
    ensures Build([t, Open] + Flatten(body), nested, acc)
         == (SetFlag(acc, Decide(t, AGroup).key, Group(Build(Flatten(body), false, Empty).0)), [])
  {
    BuildGroupStep(t, Flatten(body), nested, acc);
    assert Flatten(body) + [] == Flatten(body);
    BuildFlatten(body, [], true, Empty);
    BuildFlatten(body, [], false, Empty);
  }

  /** A group no flag asked for is transparent: its units are read into the
      current Result exactly as they would be on their own, nothing in them
      is lost, and reading continues after its `]`. */
  lemma StrayGroup(body: seq<Item>, rest: seq<Token>, nested: bool, acc: Result)
    requires Plain(body)
    ensures Build([Open] + Flatten(body) + [Close] + rest, nested, acc)
         == Build(rest, nested, Build(Flatten(body), false, acc).0)
  {
    var ts := [Open] + Flatten(body) + [Close] + rest;
    assert ts == [Open] + (Flatten(body) + ([Close] + rest));
    BuildOpenStep(ts, nested, acc);
    assert ts[1..] == Flatten(body) + ([Close] + rest);
    ClosedGroup(body, rest, acc);
    BuildFlatten(body, [], false, acc);
    assert Flatten(body) + [] == Flatten(body);
  }

  /** A unit that does not take the group after it, such as a negated flag
      (`-no-t [ -n ]`) or a word, acts on its own; the group is then read
      into the same Result as if unbracketed, so nothing in it is lost. */
  lemma UntakenGroup(t: Token, body: seq<Item>, rest: seq<Token>, nested: bool, acc: Result)
    requires IsMarkerOrWord(t) && !Decide(t, AGroup).TakeGroup? && Plain(body)
    ensures Build([t, Open] + Flatten(body) + [Close] + rest, nested, acc)
         == Build(rest, nested, Build(Flatten(body), false, Apply(acc, Decide(t, AGroup))).0)
  {
    var ts := [t, Open] + Flatten(body) + [Close] + rest;
    var after := [Open] + Flatten(body) + [Close] + rest;
    assert ts == [t] + after && ts[1..] == after;
    assert Peek(after) == AGroup;
    BuildApplyStep(ts, nested, acc);
    StrayGroup(body, rest, nested, Apply(acc, Decide(t, AGroup)));
  }
}
