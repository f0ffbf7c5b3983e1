/** The parser's output: a Result maps flag names to Values and keeps the
    positional words (the `$` entry of the original object) in order. */
module Results {

  /** A flag's value: presence or negation, an assigned or adjacent string,
      or a nested sub-argument group. */
  datatype Value = Bool(flag: bool) | Str(text: string) | Group(child: Result)

  datatype Result = Result(flags: map<string, Value>, positionals: seq<string>)

  const Empty: Result := Result(map[], [])

  /** Assigns `v` to flag `name`; a later assignment overwrites an earlier one. */
  function SetFlag(r: Result, name: string, v: Value): (r': Result)
    ensures r'.flags.Keys == r.flags.Keys + {name}
    ensures r'.flags[name] == v
    ensures forall k :: k in r.flags && k != name ==> r'.flags[k] == r.flags[k]
    ensures r'.positionals == r.positionals
  {
    r.(flags := r.flags[name := v])
  }

  /** Setting the same flag twice leaves only the second value. */
  lemma SetFlagOverwrites(r: Result, name: string, v1: Value, v2: Value)
    ensures SetFlag(SetFlag(r, name, v1), name, v2) == SetFlag(r, name, v2)
  {
    assert r.flags[name := v1][name := v2] == r.flags[name := v2];
  }

  /** Appends a positional word. */
  function Push(r: Result, w: string): (r': Result)
    ensures r'.flags == r.flags
    ensures |r'.positionals| == |r.positionals| + 1
    ensures r'.positionals[..|r.positionals|] == r.positionals
    ensures r'.positionals[|r.positionals|] == w
  {
    r.(positionals := r.positionals + [w])
  }

  /** The one-letter flag name of character `c`. */
  function Letter(c: char): string {
    [c]
  }

  /** Expands a short cluster: every character of `letters` becomes its own
      flag, set to `b`; nothing else changes. */
  function SetEach(r: Result, letters: string, b: bool): (r': Result)
    ensures forall i :: 0 <= i < |letters| ==>
      Letter(letters[i]) in r'.flags && r'.flags[Letter(letters[i])] == Bool(b)
    ensures forall k :: k in r'.flags <==> k in r.flags || exists i :: 0 <= i < |letters| && k == Letter(letters[i])
    ensures forall k :: k in r.flags && (forall i :: 0 <= i < |letters| ==> k != Letter(letters[i])) ==>
      r'.flags[k] == r.flags[k]
    ensures r'.positionals == r.positionals
    decreases |letters|
  {
    if |letters| == 0 then r
    else
      var first := SetFlag(r, Letter(letters[0]), Bool(b));
      var r' := SetEach(first, letters[1..], b);
      SetEachStep(r, letters, b, r');
      r'
  }

  /** The contract of `SetEach` for `letters`, from the contract for its
      tail applied after the first letter is set. */
  lemma SetEachStep(r: Result, letters: string, b: bool, r': Result)
    requires |letters| > 0
    requires var first := SetFlag(r, Letter(letters[0]), Bool(b));
      && (forall i :: 1 <= i < |letters| ==> Letter(letters[i]) in r'.flags && r'.flags[Letter(letters[i])] == Bool(b))
      && (forall k :: k in r'.flags <==> k in first.flags || exists i :: 1 <= i < |letters| && k == Letter(letters[i]))
      && (forall k :: k in first.flags && (forall i :: 1 <= i < |letters| ==> k != Letter(letters[i])) ==>
            r'.flags[k] == first.flags[k])
      && r'.positionals == r.positionals
    ensures forall i :: 0 <= i < |letters| ==>
      Letter(letters[i]) in r'.flags && r'.flags[Letter(letters[i])] == Bool(b)
    ensures forall k :: k in r'.flags <==> k in r.flags || exists i :: 0 <= i < |letters| && k == Letter(letters[i])
    ensures forall k :: k in r.flags && (forall i :: 0 <= i < |letters| ==> k != Letter(letters[i])) ==>
      r'.flags[k] == r.flags[k]
  {
  }

  /** `b` laid over `a`: the flags of both, `b`'s winning where both have
      one, and `b`'s positionals after `a`'s. */
  function Merge(a: Result, b: Result): (r: Result)
    ensures r.flags.Keys == a.flags.Keys + b.flags.Keys
    ensures forall k :: k in b.flags ==> r.flags[k] == b.flags[k]
    ensures forall k :: k in a.flags && k !in b.flags ==> r.flags[k] == a.flags[k]
    ensures r.positionals == a.positionals + b.positionals
  {
    Result(a.flags + b.flags, a.positionals + b.positionals)
  }

  /** Laying nothing over a Result leaves it as it is. */
  lemma MergeEmpty(a: Result)
    ensures Merge(a, Empty) == a
  {
    assert a.flags + map[] == a.flags;
    assert a.positionals + [] == a.positionals;
  }

  /** Laying `b` then `c` over `a` is laying `c`-over-`b` over `a`. */
  lemma MergeAssoc(a: Result, b: Result, c: Result)
    ensures Merge(Merge(a, b), c) == Merge(a, Merge(b, c))
  {
    assert (a.flags + b.flags) + c.flags == a.flags + (b.flags + c.flags);
    assert (a.positionals + b.positionals) + c.positionals == a.positionals + (b.positionals + c.positionals);
  }

  /** Setting one flag is laying that single flag over the Result. */
  lemma SetFlagMerge(r: Result, name: string, v: Value)
    ensures SetFlag(r, name, v) == Merge(r, SetFlag(Empty, name, v))
  {
    assert r.flags[name := v] == r.flags + map[name := v];
    assert r.positionals + [] == r.positionals;
  }

  /** Appending a positional is laying a one-word Result over the Result. */
  lemma PushMerge(r: Result, w: string)
    ensures Push(r, w) == Merge(r, Push(Empty, w))
  {
    assert r.flags + map[] == r.flags;
    assert [] + [w] == [w];
  }

  /** Expanding a cluster is laying the cluster's own letters over the Result. */
  lemma {:induction false} SetEachMerge(r: Result, letters: string, b: bool)
    ensures SetEach(r, letters, b) == Merge(r, SetEach(Empty, letters, b))
    decreases |letters|
  {
    if |letters| == 0 {
      MergeEmpty(r);
    } else {
      var one := SetFlag(Empty, Letter(letters[0]), Bool(b));
      var tail := SetEach(Empty, letters[1..], b);
      assert SetEach(r, letters, b) == SetEach(SetFlag(r, Letter(letters[0]), Bool(b)), letters[1..], b);
      assert SetEach(Empty, letters, b) == SetEach(one, letters[1..], b);
      SetEachMerge(SetFlag(r, Letter(letters[0]), Bool(b)), letters[1..], b);
      SetEachMerge(one, letters[1..], b);
      SetFlagMerge(r, Letter(letters[0]), Bool(b));
      MergeAssoc(r, one, tail);
    }
  }
}
