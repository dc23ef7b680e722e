/** The seven-bag piece source: pieces come in shuffled bags of all seven kinds. */
module PieceBag {
  import opened Wrappers
  import opened TetrisBoard

  const KINDS: seq<Kind> := [I, J, L, O, S, T, Z]

  // ---------------------------------------------------------------- the shuffle

  function Swapped(bag: seq<Kind>, i: nat, j: nat): seq<Kind>
    requires i < |bag| && j < |bag|
  {
    bag[i := bag[j]][j := bag[i]]
  }

  predicate AreChoices(choices: seq<nat>) {
    forall i :: 0 <= i < |choices| ==> choices[i] <= i
  }

  /** Exchanges each position from the given one down with the position chosen for it. */
  function Shuffled(bag: seq<Kind>, choices: seq<nat>, index: nat): seq<Kind>
    requires |choices| == |bag| && AreChoices(choices) && index < |bag|
    decreases index
  {
    if index == 0 then bag else Shuffled(Swapped(bag, index, choices[index]), choices, index - 1)
  }

  lemma SwappingPermutes(bag: seq<Kind>, i: nat, j: nat)
    requires i < |bag| && j < |bag|
    ensures multiset(Swapped(bag, i, j)) == multiset(bag)
  {
  }

  lemma {:induction false} ShufflingPermutes(bag: seq<Kind>, choices: seq<nat>, index: nat)
    requires |choices| == |bag| && AreChoices(choices) && index < |bag|
    ensures multiset(Shuffled(bag, choices, index)) == multiset(bag)
    decreases index
  {
    if index > 0 {
      SwappingPermutes(bag, index, choices[index]);
      ShufflingPermutes(Swapped(bag, index, choices[index]), choices, index - 1);
    }
  }

  lemma {:induction false} LaterChoicesDoNotMatter(bag: seq<Kind>, choices: seq<nat>, index: nat, at: nat, choice: nat)
    requires |choices| == |bag| && AreChoices(choices) && index < at < |bag| && choice <= at
    ensures Shuffled(bag, choices[at := choice], index) == Shuffled(bag, choices, index)
    decreases index
  {
    if index > 0 {
      LaterChoicesDoNotMatter(Swapped(bag, index, choices[index]), choices, index - 1, at, choice);
    }
  }

  /** Every order of the bag can come out of the shuffle. */
  lemma {:induction false} EveryOrderIsPossible(bag: seq<Kind>, target: seq<Kind>, index: nat)
    returns (choices: seq<nat>)
    requires |target| == |bag| && index < |bag|
    requires bag[index + 1..] == target[index + 1..]
    requires multiset(bag[..index + 1]) == multiset(target[..index + 1])
    ensures |choices| == |bag| && AreChoices(choices) && Shuffled(bag, choices, index) == target
    decreases index
  {
    if index == 0 {
      choices := seq(|bag|, _ => 0);
      OnlyOneLeft(bag[..1], target[..1]);
      assert bag == bag[..1] + bag[1..] && target == target[..1] + target[1..];
    } else {
      assert target[..index + 1][index] in multiset(target[..index + 1]);
      assert target[index] in multiset(bag[..index + 1]);
      var from: nat :| from <= index && bag[..index + 1][from] == target[index];
      var swapped := Swapped(bag, index, from);
      SwappedPrefix(bag, target, index, from);
      var rest := EveryOrderIsPossible(swapped, target, index - 1);
      choices := rest[index := from];
      LaterChoicesDoNotMatter(swapped, rest, index - 1, index, from);
    }
  }

  lemma OnlyOneLeft(left: seq<Kind>, right: seq<Kind>)
    requires |left| == |right| == 1 && multiset(left) == multiset(right)
    ensures left == right
  {
    assert left[0] in multiset(right);
  }

  lemma SwappedPrefix(bag: seq<Kind>, target: seq<Kind>, index: nat, from: nat)
    requires |target| == |bag| && from <= index < |bag| && bag[from] == target[index]
    requires bag[index + 1..] == target[index + 1..]
    requires multiset(bag[..index + 1]) == multiset(target[..index + 1])
    ensures var swapped := Swapped(bag, index, from);
            && swapped[index..] == target[index..]
            && multiset(swapped[..index]) == multiset(target[..index])
  {
    var swapped := Swapped(bag, index, from);
    SwappingPermutes(bag[..index + 1], index, from);
    PrefixOfSwapped(bag, index, from);
    assert target[..index + 1] == target[..index] + [target[index]];
    SameWithoutLast(swapped[..index], target[..index], target[index]);
    assert swapped[index..] == [target[index]] + target[index + 1..] == target[index..] by {
      assert swapped[index + 1..] == bag[index + 1..];
    }
  }

  lemma PrefixOfSwapped(bag: seq<Kind>, index: nat, from: nat)
    requires from <= index < |bag|
    ensures Swapped(bag[..index + 1], index, from) == Swapped(bag, index, from)[..index] + [bag[from]]
    ensures Swapped(bag, index, from)[index] == bag[from]
  {
  }

  lemma SameWithoutLast(left: seq<Kind>, right: seq<Kind>, last: Kind)
    requires multiset(left + [last]) == multiset(right + [last])
    ensures multiset(left) == multiset(right)
  {
    assert multiset(left + [last]) - multiset{last} == multiset(left);
    assert multiset(right + [last]) - multiset{last} == multiset(right);
  }

  // ---------------------------------------------------------------- the random source

  /** What the random source returns for each position; None is not a finite number. */
  type Randoms = seq<Option<real>>

  predicate InRange(value: Option<real>) {
    value.Some? && 0.0 <= value.value < 1.0
  }

  lemma ProductIsBelow(value: real, count: real)
    requires 0.0 <= value < 1.0 && count > 0.0
    ensures 0.0 <= value * count < count
  {
  }

  /** Which of the first positions up to the index a random value stands for. */
  function ChoiceOf(value: real, index: nat): (choice: nat)
    requires 0.0 <= value < 1.0
    ensures choice <= index
  {
    ProductIsBelow(value, (index + 1) as real);
    (value * (index + 1) as real).Floor
  }

  function SwapIndex(random: Option<real>, index: nat): (choice: nat)
    requires InRange(random)
    ensures choice <= index
  {
    ChoiceOf(random.value, index)
  }

  /** Every choice is drawn by some random value, so every order of the bag can be dealt. */
  lemma EveryChoiceCanBeDrawn(choice: nat, index: nat)
    requires choice <= index
    ensures var random := Some(choice as real / (index + 1) as real);
            InRange(random) && SwapIndex(random, index) == choice
  {
    var part := choice as real / (index + 1) as real;
    PartOfWhole(choice as real, (index + 1) as real);
    assert (part * (index + 1) as real).Floor == choice;
  }

  lemma PartOfWhole(part: real, whole: real)
    requires 0.0 <= part < whole
    ensures 0.0 <= part / whole < 1.0 && part / whole * whole == part
  {
    if part / whole >= 1.0 { ProductGrows(part / whole, whole); }
  }

  lemma ProductGrows(factor: real, whole: real)
    requires factor >= 1.0 && whole > 0.0
    ensures factor * whole >= whole
  {
  }

  predicate AllInRange(randoms: Randoms) {
    forall i :: 0 < i < |randoms| ==> InRange(randoms[i])
  }

  function Choices(randoms: Randoms): (choices: seq<nat>)
    requires AllInRange(randoms)
    ensures |choices| == |randoms| && AreChoices(choices)
    ensures forall i :: 0 < i < |randoms| ==> choices[i] == SwapIndex(randoms[i], i)
  {
    if randoms == [] then []
    else
      var last := |randoms| - 1;
      Choices(randoms[..last]) + [if last == 0 then 0 else SwapIndex(randoms[last], last)]
  }

  // ---------------------------------------------------------------- the source

  ghost predicate IsBag(pieces: seq<Kind>) {
    multiset(pieces) == multiset(KINDS)
  }

  function Reversed(pieces: seq<Kind>): (reversed: seq<Kind>)
    ensures |reversed| == |pieces|
  {
    if pieces == [] then [] else [pieces[|pieces| - 1]] + Reversed(pieces[..|pieces| - 1])
  }

  lemma {:induction false} ReversingPermutes(pieces: seq<Kind>)
    ensures multiset(Reversed(pieces)) == multiset(pieces)
  {
    if pieces != [] {
      var last := |pieces| - 1;
      ReversingPermutes(pieces[..last]);
      assert pieces == pieces[..last] + [pieces[last]];
    }
  }

  /** The pieces come in whole bags, one after the other. */
  ghost predicate AreBags(pieces: seq<Kind>) {
    pieces == [] || (|pieces| >= 7 && IsBag(pieces[..7]) && AreBags(pieces[7..]))
  }

  lemma {:induction false} OneMoreBag(pieces: seq<Kind>, bag: seq<Kind>)
    requires AreBags(pieces) && IsBag(bag) && |bag| == 7
    ensures AreBags(pieces + Reversed(bag))
  {
    hide IsBag;
    var all := pieces + Reversed(bag);
    if pieces == [] {
      assert all[..7] == Reversed(bag) && all[7..] == [];
      ReversedBag(bag);
    } else {
      OneMoreBag(pieces[7..], bag);
      assert all[..7] == pieces[..7] && all[7..] == pieces[7..] + Reversed(bag);
    }
  }

  lemma ReversedBag(bag: seq<Kind>)
    requires IsBag(bag)
    ensures IsBag(Reversed(bag))
  {
    ReversingPermutes(bag);
  }

  lemma {:induction false} EveryBlockIsABag(pieces: seq<Kind>, n: nat)
    requires AreBags(pieces) && 7 * n + 7 <= |pieces|
    ensures IsBag(pieces[7 * n..7 * n + 7])
    decreases n
  {
    hide IsBag;
    if n == 0 {
      assert pieces[0..7] == pieces[..7];
    } else {
      EveryBlockIsABag(pieces[7..], n - 1);
      BlockOfRest(pieces, 7 * (n - 1));
    }
  }

  lemma BlockOfRest(pieces: seq<Kind>, at: nat)
    requires at + 14 <= |pieces|
    ensures pieces[7..][at..at + 7] == pieces[at + 7..at + 14]
  {
  }

  class SevenBagPieceSource {
    var bag: seq<Kind>
    /** Everything dealt so far. */
    ghost var dealt: seq<Kind>

    /** What has been dealt and what the bag still holds, which is dealt from its end, are whole bags. */
    ghost predicate Valid()
      reads this
    {
      |bag| <= 7 && AreBags(dealt + Reversed(bag))
    }

    constructor ()
      ensures Valid() && dealt == []
    {
      bag, dealt := [], [];
    }

    /** Deals the next piece. A random value out of range stops the shuffle; the bag keeps its seven pieces, and
        nothing is dealt. */
    method Next(randoms: Randoms) returns (kind: Option<Kind>)
      requires Valid() && |randoms| == 7
      modifies this
      ensures Valid()
      ensures kind.None? <==> old(bag) == [] && !AllInRange(randoms)
      ensures dealt == if kind.Some? then old(dealt) + [kind.value] else old(dealt)
      ensures kind.None? ==> |bag| == 7
      ensures kind.Some? ==>
                var full := if old(bag) == [] then Shuffled(KINDS, Choices(randoms), 6) else old(bag);
                full != [] && full == bag + [kind.value]
    {
      hide IsBag, AreBags, InRange;
      if bag == [] {
        var refilled := Refill(randoms);
        if !refilled {
          return None;
        }
      }
      var last := bag[|bag| - 1];
      assert bag == bag[..|bag| - 1] + [last];
      assert dealt + Reversed(bag) == (dealt + [last]) + Reversed(bag[..|bag| - 1]);
      bag := bag[..|bag| - 1];
      dealt := dealt + [last];
      kind := Some(last);
    }

    method Refill(randoms: Randoms) returns (refilled: bool)
      requires Valid() && bag == [] && |randoms| == 7
      modifies this`bag
      ensures Valid() && |bag| == 7
      ensures refilled <==> AllInRange(randoms)
      ensures refilled ==> bag == Shuffled(KINDS, Choices(randoms), 6)
    {
      hide IsBag, AreBags, InRange, Swapped, Shuffled, Choices;
      assert dealt + Reversed(bag) == dealt;
      bag := KINDS;
      assert IsBag(bag) by { KindsAreABag(); }
      var index := 6;
      while index > 0
        invariant 0 <= index <= 6 && |bag| == 7 && IsBag(bag)
        invariant forall i :: index < i < 7 ==> InRange(randoms[i])
        invariant AllInRange(randoms) ==>
                    Shuffled(bag, Choices(randoms), index) == Shuffled(KINDS, Choices(randoms), 6)
      {
        var randomValue := randoms[index];
        if !InRange(randomValue) {
          OneMoreBag(dealt, bag);
          return false;
        }
        var swapIndex := SwapIndex(randomValue, index);
        SwappingKeepsBag(bag, index, swapIndex);
        NextExchange(bag, randoms, index);
        bag := Swapped(bag, index, swapIndex);
        index := index - 1;
      }
      OneMoreBag(dealt, bag);
      NextExchange(bag, randoms, 0);
      refilled := true;
    }
  }

  lemma NextExchange(bag: seq<Kind>, randoms: Randoms, index: nat)
    requires |randoms| == |bag| && index < |bag|
    ensures AllInRange(randoms) ==>
              Shuffled(bag, Choices(randoms), index)
                == if index == 0 then bag
                   else Shuffled(Swapped(bag, index, SwapIndex(randoms[index], index)), Choices(randoms), index - 1)
  {
    hide Choices, Swapped, InRange;
  }

  lemma KindsAreABag()
    ensures IsBag(KINDS)
  {
  }

  lemma SwappingKeepsBag(bag: seq<Kind>, i: nat, j: nat)
    requires i < |bag| && j < |bag| && IsBag(bag)
    ensures |Swapped(bag, i, j)| == |bag| && IsBag(Swapped(bag, i, j))
  {
    SwappingPermutes(bag, i, j);
  }

  /** In every block of seven pieces dealt, each kind comes exactly once. */
  lemma EveryDealtBlockIsABag(source: SevenBagPieceSource, n: nat)
    requires source.Valid() && 7 * n + 7 <= |source.dealt|
    ensures multiset(source.dealt[7 * n..7 * n + 7]) == multiset{I, J, L, O, S, T, Z}
  {
    hide IsBag, AreBags;
    var all := source.dealt + Reversed(source.bag);
    EveryBlockIsABag(all, n);
    assert all[7 * n..7 * n + 7] == source.dealt[7 * n..7 * n + 7];
    BagHoldsEveryKind(source.dealt[7 * n..7 * n + 7]);
  }

  lemma BagHoldsEveryKind(pieces: seq<Kind>)
    requires IsBag(pieces)
    ensures multiset(pieces) == multiset{I, J, L, O, S, T, Z}
  {
  }
}
