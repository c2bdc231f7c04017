/** Random choice without bias: drawing below a bound, and shuffling, from given words. */
module Random {
  import opened Arith

  /** What the entropy source will yield before it fails. */
  type Source = seq<u32>

  datatype Selection = Exhausted | Invalid | Selected(index: nat, rest: Source)

  /** The largest value accepted for count: the values up to it are a whole number of counts. */
  function Limit(count: u32): u32
    requires count >= 2
  {
    U32_MAX - U32_MAX % count - 1
  }

  /** The first accepted value decides; rejected ones are dropped. */
  function Select(count: nat, source: Source): Selection
  {
    if count == 0 || count > U32_MAX then Invalid
    else if count == 1 then Selected(0, source)
    else if source == [] then Exhausted
    else if source[0] > Limit(count) then Select(count, source[1..])
    else Selected(source[0] % count, source[1..])
  }

  method RandomBelow(count: nat, source: Source) returns (selection: Selection)
    ensures selection == Select(count, source)
  {
    if count == 0 || count > U32_MAX {
      return Invalid;
    }
    if count == 1 {
      return Selected(0, source);
    }
    var limit: u32 := U32_MAX - U32_MAX % count - 1;
    var rest := source;
    while true
      invariant Select(count, rest) == Select(count, source)
      decreases |rest|
    {
      if rest == [] {
        return Exhausted;
      }
      var value := rest[0];
      rest := rest[1..];
      if value <= limit {
        return Selected(value % count, rest);
      }
    }
  }

  // ----- uniformity

  /** The accepted values that select index, below a bound. */
  ghost function Preimages(count: u32, index: nat, bound: nat): set<int>
    requires count >= 2
  {
    set v | 0 <= v < bound && v % count == index
  }

  lemma {:induction false} PreimageCount(count: u32, index: nat, rounds: nat)
    requires count >= 2 && index < count
    ensures |Preimages(count, index, rounds * count)| == rounds
  {
    if rounds == 0 {
      assert Preimages(count, index, 0) == {};
    } else {
      var below, chosen := (rounds - 1) * count, (rounds - 1) * count + index;
      PreimageCount(count, index, rounds - 1);
      QuotientIs(chosen, count, rounds - 1);
      DivisionParts(chosen, count);
      assert below + count == rounds * count;
      forall v | below <= v < below + count
        ensures v % count == v - below
      {
        QuotientIs(v, count, rounds - 1);
        DivisionParts(v, count);
      }
      assert Preimages(count, index, below + count) == Preimages(count, index, below) + {chosen};
    }
  }

  /** Rejection leaves every index the same number of accepted values, for every count. */
  lemma SelectionIsUniform(count: u32, index: nat)
    requires count >= 2 && index < count
    ensures |Preimages(count, index, Limit(count) + 1)| == U32_MAX / count
  {
    DivisionParts(U32_MAX, count);
    PreimageCount(count, index, U32_MAX / count);
  }

  // ----- shuffling

  /** What is left below the last position once the chosen item moved there. */
  function Remaining<T>(s: seq<T>, chosen: nat): (r: seq<T>)
    requires chosen < |s|
    ensures |r| == |s| - 1
  {
    var last := |s| - 1;
    if chosen == last then s[..last] else s[..last][chosen := s[last]]
  }

  predicate ValidChoices(count: nat, choices: seq<nat>)
  {
    if count <= 1 then choices == []
    else choices != [] && choices[0] < count && ValidChoices(count - 1, choices[1..])
  }

  /** The order the choices lead to: the last position is filled first, then those below it. */
  function ShuffledBy<T>(items: seq<T>, choices: seq<nat>): (r: seq<T>)
    requires ValidChoices(|items|, choices)
    ensures |r| == |items|
    decreases |items|
  {
    if |items| <= 1 then items
    else ShuffledBy(Remaining(items, choices[0]), choices[1..]) + [items[choices[0]]]
  }

  /** The choices a source yields, in order; none when it runs dry first. */
  function Choices(count: nat, source: Source): (r: (bool, seq<nat>))
    ensures r.0 ==> ValidChoices(count, r.1)
  {
    if count <= 1 then (true, [])
    else
      var selection := Select(count, source);
      if !selection.Selected? then (false, [])
      else
        SelectedBelow(count, source);
        var (ok, rest) := Choices(count - 1, selection.rest);
        (ok, [selection.index] + rest)
  }

  lemma {:induction false} SelectedBelow(count: nat, source: Source)
    requires Select(count, source).Selected?
    ensures Select(count, source).index < count
  {
    if count <= 1 || source[0] <= Limit(count) {
    } else {
      SelectedBelow(count, source[1..]);
    }
  }

  function Swapped<T>(items: seq<T>, i: nat, j: nat): (r: seq<T>)
    requires i < |items| && j < |items|
    ensures |r| == |items|
  {
    items[i := items[j]][j := items[i]]
  }

  method Exchange<T>(items: array<T>, i: nat, j: nat)
    requires i < items.Length && j < items.Length
    modifies items
    ensures items[..] == Swapped(old(items[..]), i, j)
  {
    var temporary := items[i];
    items[i] := items[j];
    items[j] := temporary;
  }

  /** The rounds below a position: whether the source lasts, and how they leave the items. */
  ghost function Rounds<T>(items: seq<T>, position: nat, source: Source): (r: (bool, seq<T>))
    requires position <= |items|
    decreases position
  {
    if position <= 1 then (true, items)
    else
      var selection := Select(position, source);
      if !selection.Selected? then (false, items)
      else
        SelectedBelow(position, source);
        Rounds(Swapped(items, position - 1, selection.index), position - 1, selection.rest)
  }

  method Shuffle<T>(items: array<T>, source: Source) returns (ok: bool)
    modifies items
    ensures ok == Choices(items.Length, source).0
    ensures ok ==> items[..] == ShuffledBy(old(items[..]), Choices(items.Length, source).1)
    ensures Permutation(items[..], old(items[..]))
  {
    ghost var was := items[..];
    ok := RunRounds(items, source);
    RoundsLead(was, items.Length, source);
    RoundsPermute(was, items.Length, source);
    assert was[..items.Length] == was && was[items.Length..] == [];
  }

  method RunRounds<T>(items: array<T>, source: Source) returns (ok: bool)
    modifies items
    ensures (ok, items[..]) == Rounds(old(items[..]), items.Length, source)
  {
    var position, rest := items.Length, source;
    while position > 1
      invariant 0 <= position <= items.Length
      invariant Rounds(items[..], position, rest) == Rounds(old(items[..]), items.Length, source)
    {
      var current := position - 1;
      var selection := RandomBelow(position, rest);
      if !selection.Selected? {
        return false;
      }
      SelectedBelow(position, rest);
      Exchange(items, current, selection.index);
      rest := selection.rest;
      position := current;
    }
    ok := true;
  }

  /** The items with those below a position in the order the choices lead to. */
  ghost function Ordered<T>(items: seq<T>, position: nat, choices: seq<nat>): seq<T>
    requires position <= |items| && ValidChoices(position, choices)
  {
    ShuffledBy(items[..position], choices) + items[position..]
  }

  lemma AlreadyOrdered<T>(items: seq<T>, position: nat)
    requires position <= |items| && position <= 1
    ensures Ordered(items, position, []) == items
  {}

  /** One round does the first choice: what the others then lead to is what all of them do. */
  lemma RoundOrders<T>(items: seq<T>, position: nat, chosen: nat, choices: seq<nat>)
    requires 1 < position <= |items| && chosen < position && ValidChoices(position - 1, choices)
    ensures ValidChoices(position, [chosen] + choices)
    ensures Ordered(Swapped(items, position - 1, chosen), position - 1, choices)
         == Ordered(items, position, [chosen] + choices)
  {
    assert ([chosen] + choices)[1..] == choices;
    SwapFinishesPosition(items, Swapped(items, position - 1, chosen), position, chosen);
    StepOrder(items[..position], [chosen] + choices, items[position..]);
  }

  /** The rounds order the items below the position as the choices lead to, and leave the others. */
  lemma {:induction false} RoundsLead<T>(items: seq<T>, position: nat, source: Source)
    requires position <= |items|
    ensures Rounds(items, position, source).0 == Choices(position, source).0
    ensures Choices(position, source).0 ==>
      Rounds(items, position, source).1 == Ordered(items, position, Choices(position, source).1)
    decreases position
  {
    if position <= 1 {
      AlreadyOrdered(items, position);
    } else if Select(position, source).Selected? {
      var selection := Select(position, source);
      SelectedBelow(position, source);
      RoundsLead(Swapped(items, position - 1, selection.index), position - 1, selection.rest);
      if Choices(position, source).0 {
        RoundOrders(items, position, selection.index, Choices(position - 1, selection.rest).1);
      }
    }
  }

  lemma {:induction false} RoundsPermute<T>(items: seq<T>, position: nat, source: Source)
    requires position <= |items|
    ensures Permutation(Rounds(items, position, source).1, items)
    decreases position
  {
    if position <= 1 || !Select(position, source).Selected? {
    } else {
      var selection := Select(position, source);
      SelectedBelow(position, source);
      var swapped := Swapped(items, position - 1, selection.index);
      RoundsPermute(swapped, position - 1, selection.rest);
      SwapPermutes(items, swapped, selection.index, position - 1);
    }
  }

  lemma SwapPermutes<T>(before: seq<T>, after: seq<T>, i: nat, j: nat)
    requires i < |before| && j < |before| && after == before[j := before[i]][i := before[j]]
    ensures Permutation(after, before)
  {}

  /** The in-place swap leaves the remaining items below and the chosen one in place. */
  lemma SwapFinishesPosition<T>(before: seq<T>, after: seq<T>, position: nat, chosen: nat)
    requires chosen < position <= |before| == |after|
    requires after == before[position - 1 := before[chosen]][chosen := before[position - 1]]
    ensures after[..position - 1] == Remaining(before[..position], chosen)
    ensures after[position - 1..] == [before[chosen]] + before[position..]
  {}

  lemma StepOrder<T>(items: seq<T>, choices: seq<nat>, done: seq<T>)
    requires |items| > 1 && ValidChoices(|items|, choices)
    ensures ShuffledBy(items, choices) + done
         == ShuffledBy(Remaining(items, choices[0]), choices[1..]) + ([items[choices[0]]] + done)
  {}

  // ----- choice sequences and permutations are in one-to-one correspondence

  ghost predicate Distinct<T>(s: seq<T>) { forall x :: x in s ==> multiset(s)[x] == 1 }

  ghost predicate Permutation<T>(s: seq<T>, t: seq<T>) { multiset(s) == multiset(t) }

  /** Distinct as a multiset is distinct by position. */
  lemma DistinctPositions<T>(s: seq<T>, i: nat, j: nat)
    requires Distinct(s) && i < j < |s|
    ensures s[i] != s[j]
  {
    assert s == s[..j] + s[j..];
    assert multiset(s) == multiset(s[..j]) + multiset(s[j..]);
    assert s[..j][i] in multiset(s[..j]) && s[j..][0] in multiset(s[j..]);
    assert s[i] in s;
  }

  lemma RemainingKeeps<T>(s: seq<T>, chosen: nat)
    requires chosen < |s|
    ensures multiset(s) == multiset(Remaining(s, chosen)) + multiset{s[chosen]}
  {
    var last := |s| - 1;
    assert s == s[..last] + [s[last]];
    assert multiset(s) == multiset(s[..last]) + multiset{s[last]};
  }

  lemma RemainingDistinct<T>(s: seq<T>, chosen: nat)
    requires Distinct(s) && chosen < |s|
    ensures Distinct(Remaining(s, chosen))
  {
    var rest := Remaining(s, chosen);
    RemainingKeeps(s, chosen);
    forall x | x in rest
      ensures multiset(rest)[x] == 1
    {
      assert x in multiset(rest);
      assert x in multiset(s);
      assert x in s;
    }
  }

  /** Removing the item that the wanted order ends with leaves a permutation of the rest. */
  lemma RemainingReaches<T>(items: seq<T>, wanted: seq<T>, chosen: nat)
    requires Permutation(items, wanted) && wanted != [] && chosen < |items|
    requires items[chosen] == wanted[|wanted| - 1]
    ensures Permutation(Remaining(items, chosen), wanted[..|wanted| - 1])
  {
    RemainingKeeps(items, chosen);
    RemainingKeeps(wanted, |wanted| - 1);
    WithoutOne(multiset(Remaining(items, chosen)), multiset(wanted[..|wanted| - 1]), items[chosen]);
  }

  lemma WithoutOne<T>(a: multiset<T>, b: multiset<T>, x: T)
    requires a + multiset{x} == b + multiset{x}
    ensures a == b
  {
    assert a == (a + multiset{x}) - multiset{x};
    assert b == (b + multiset{x}) - multiset{x};
  }

  /** Every choice sequence yields a permutation. */
  lemma {:induction false} ShufflePermutes<T>(items: seq<T>, choices: seq<nat>)
    requires ValidChoices(|items|, choices)
    ensures Permutation(ShuffledBy(items, choices), items)
    decreases |items|
  {
    if |items| <= 1 {
    } else {
      RemainingKeeps(items, choices[0]);
      ShufflePermutes(Remaining(items, choices[0]), choices[1..]);
    }
  }

  lemma SameLength<T>(s: seq<T>, t: seq<T>)
    requires Permutation(s, t)
    ensures |s| == |t|
  {
    assert |s| == |multiset(s)| && |t| == |multiset(t)|;
  }

  lemma Position<T>(s: seq<T>, t: seq<T>, x: T) returns (index: nat)
    requires Permutation(s, t) && x in t
    ensures index < |s| && s[index] == x
  {
    assert x in multiset(t);
    assert x in s;
    index :| index < |s| && s[index] == x;
  }

  /** Every permutation is reached ... */
  lemma {:induction false} EveryPermutationReached<T>(items: seq<T>, wanted: seq<T>) returns (choices: seq<nat>)
    requires Permutation(items, wanted)
    ensures ValidChoices(|items|, choices) && ShuffledBy(items, choices) == wanted
    decreases |items|
  {
    var n := |items|;
    SameLength(items, wanted);
    if n == 0 {
      choices := [];
    } else {
      var last := wanted[n - 1];
      var index := Position(items, wanted, last);
      RemainingReaches(items, wanted, index);
      var rest := EveryPermutationReached(Remaining(items, index), wanted[..n - 1]);
      assert wanted == wanted[..n - 1] + [last];
      choices := if n == 1 then [] else [index] + rest;
      ChoiceLeads(items, index, rest);
    }
  }

  lemma ChoiceLeads<T>(items: seq<T>, index: nat, rest: seq<nat>)
    requires index < |items| && ValidChoices(|items| - 1, rest)
    ensures var choices := if |items| == 1 then [] else [index] + rest;
      ValidChoices(|items|, choices)
      && ShuffledBy(items, choices) == ShuffledBy(Remaining(items, index), rest) + [items[index]]
  {
    if |items| == 1 {
      assert Remaining(items, index) == [];
    } else {
      assert ([index] + rest)[1..] == rest;
    }
  }

  /** ... by exactly one choice sequence: different choices give different orders. */
  lemma {:induction false} ChoicesAreUnique<T>(items: seq<T>, first: seq<nat>, second: seq<nat>)
    requires Distinct(items)
    requires ValidChoices(|items|, first) && ValidChoices(|items|, second)
    requires ShuffledBy(items, first) == ShuffledBy(items, second)
    ensures first == second
    decreases |items|
  {
    if |items| > 1 {
      var f, s := first[0], second[0];
      SameEnds(ShuffledBy(Remaining(items, f), first[1..]), items[f],
               ShuffledBy(Remaining(items, s), second[1..]), items[s]);
      if f < s { DistinctPositions(items, f, s); } else if s < f { DistinctPositions(items, s, f); }
      RemainingDistinct(items, f);
      ChoicesAreUnique(Remaining(items, f), first[1..], second[1..]);
      assert first == [f] + first[1..] && second == [s] + second[1..];
    }
  }

  lemma SameEnds<T>(a: seq<T>, x: T, b: seq<T>, y: T)
    requires a + [x] == b + [y]
    ensures a == b && x == y
  {
    assert |a + [x]| == |a| + 1 && |b + [y]| == |b| + 1;
    assert (a + [x])[|a|] == x && (b + [y])[|b|] == y;
    assert a == (a + [x])[..|a|] && b == (b + [y])[..|b|];
  }
}
