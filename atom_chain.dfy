/** The atom chain of Phonon.py's `crystal`: the Fibonacci generation
    sequence built token by token, run together into one symbol chain, and
    each symbol replaced by the mass of its atom. */
module AtomChain {
  import opened FibWords

  /** The mass a symbol stands for: 'A' gives massA, anything else massB. */
  function MassOf(symbol: char, massA: real, massB: real): real
  {
    if symbol == 'A' then massA else massB
  }

  /** The symbols mapped to masses one by one, in order. */
  function Materialize(s: seq<char>, massA: real, massB: real): seq<real>
  {
    if s == [] then [] else [MassOf(s[0], massA, massB)] + Materialize(s[1..], massA, massB)
  }

  /** The mass chain of `gen` generations. */
  function Chain(gen: int, massA: real, massB: real): seq<real>
  {
    Materialize(Symbols(gen), massA, massB)
  }

  /** Builds the mass chain the way `crystal` does: the token list grown in a
      loop while the last two tokens are rolled along, the tokens appended to
      the symbol chain one after another, and each symbol overwritten by its
      mass. */
  method Crystal(gen: int, massA: real, massB: real) returns (chain: seq<real>)
    ensures chain == Chain(gen, massA, massB)
  {
    var sequence: seq<seq<char>> := ["A", "B"];
    var tempA: seq<char>, tempB: seq<char> := "A", "B";
    var i := 0;
    while i < gen - 2
      invariant 0 <= i <= Generations(gen) - 2
      invariant sequence == Tokens(i + 2)
      invariant tempA == Word(i + 1) && tempB == Word(i + 2)
    {
      var nth := tempB + tempA;
      sequence := sequence + [nth];
      tempA := tempB;
      tempB := nth;
      i := i + 1;
    }

    var symbols: seq<char> := [];
    var j := 0;
    while j < |sequence|
      invariant 0 <= j <= |sequence|
      invariant symbols == Flatten(sequence[..j])
    {
      assert sequence[..j + 1][..j] == sequence[..j];
      symbols := symbols + sequence[j];
      j := j + 1;
    }
    assert sequence[..|sequence|] == sequence;

    var masses := new real[|symbols|];
    var k := 0;
    while k < |symbols|
      invariant 0 <= k <= |symbols|
      invariant forall p :: 0 <= p < k ==> masses[p] == MassOf(symbols[p], massA, massB)
    {
      masses[k] := if symbols[k] == 'A' then massA else massB;
      k := k + 1;
    }
    chain := masses[..];
    MaterializeAt(symbols, massA, massB);
  }

  /** Mapping keeps length and order: element i is the mass of symbol i. */
  lemma {:induction false} MaterializeAt(s: seq<char>, massA: real, massB: real)
    ensures |Materialize(s, massA, massB)| == |s|
    ensures forall i :: 0 <= i < |s| ==> Materialize(s, massA, massB)[i] == MassOf(s[i], massA, massB)
  {
    if s != [] {
      MaterializeAt(s[1..], massA, massB);
    }
  }

  lemma {:induction false} MaterializeAppend(s: seq<char>, t: seq<char>, massA: real, massB: real)
    ensures Materialize(s + t, massA, massB) == Materialize(s, massA, massB) + Materialize(t, massA, massB)
  {
    if s == [] {
      assert s + t == t;
    } else {
      assert (s + t)[1..] == s[1..] + t;
      MaterializeAppend(s[1..], t, massA, massB);
    }
  }

  /** With two distinct masses, massA occurs as often as 'A' does and massB
      fills every other place. */
  lemma {:induction false} MaterializeCount(s: seq<char>, massA: real, massB: real)
    requires massA != massB
    ensures Count(Materialize(s, massA, massB), massA) == Count(s, 'A')
    ensures Count(Materialize(s, massA, massB), massB) == |s| - Count(s, 'A')
  {
    if s != [] {
      MaterializeCount(s[1..], massA, massB);
    }
  }

  /** For at most two generations, zero and negative counts included, the
      chain is exactly [massA, massB]. */
  lemma ChainOfSeeds(gen: int, massA: real, massB: real)
    requires gen <= 2
    ensures Chain(gen, massA, massB) == [massA, massB]
  {
    SymbolsOfSeeds(gen);
    MaterializeAt("AB", massA, massB);
  }

  /** Three generations give the tokens "A", "B", "BA" and so the chain
      massA, massB, massB, massA. */
  lemma ThreeGenerations(massA: real, massB: real)
    ensures Chain(3, massA, massB) == [massA, massB, massB, massA]
  {
    SymbolsOfSeeds(2);
    SymbolsStep(2);
    assert Symbols(3) == "ABBA";
    MaterializeAt("ABBA", massA, massB);
  }

  /** The chain has Fib(G + 2) - 1 atoms for G = max(gen, 2), and every atom
      carries one of the two masses: massA exactly where the symbol is 'A'
      when the masses differ. */
  lemma ChainShape(gen: int, massA: real, massB: real)
    ensures |Chain(gen, massA, massB)| == |Symbols(gen)| == Fib(Generations(gen) + 2) - 1
    ensures forall i :: 0 <= i < |Symbols(gen)| ==>
      Chain(gen, massA, massB)[i] == massA || Chain(gen, massA, massB)[i] == massB
    ensures massA != massB ==> forall i :: 0 <= i < |Symbols(gen)| ==>
      (Chain(gen, massA, massB)[i] == massA <==> Symbols(gen)[i] == 'A')
  {
    SymbolsLength(gen);
    MaterializeAt(Symbols(gen), massA, massB);
  }

  /** Changing the masses never moves them: for any two pairs of distinct
      masses, the first mass of each pair sits at the same places. */
  lemma PatternIndependentOfMasses(gen: int, massA: real, massB: real, otherA: real, otherB: real)
    requires massA != massB && otherA != otherB
    ensures |Chain(gen, massA, massB)| == |Chain(gen, otherA, otherB)|
    ensures forall i :: 0 <= i < |Chain(gen, massA, massB)| ==>
      (Chain(gen, massA, massB)[i] == massA <==> Chain(gen, otherA, otherB)[i] == otherA)
  {
    MaterializeAt(Symbols(gen), massA, massB);
    MaterializeAt(Symbols(gen), otherA, otherB);
  }

  /** The chain grows by appending only: from two generations on it is a
      strict prefix of the next generation's chain. */
  lemma ChainGrowth(gen: int, massA: real, massB: real)
    requires gen >= 2
    ensures Chain(gen, massA, massB) < Chain(gen + 1, massA, massB)
  {
    var tail := Materialize(Word(gen + 1), massA, massB);
    SymbolsStep(gen);
    MaterializeAppend(Symbols(gen), Word(gen + 1), massA, massB);
    assert Chain(gen + 1, massA, massB) == Chain(gen, massA, massB) + tail;
    WordStartsWithB(gen + 1);
    MaterializeAt(Word(gen + 1), massA, massB);
    assert |tail| >= 1;
  }

  /** Every chain starts with massA, massB. */
  lemma ChainStartsWithSeeds(gen: int, massA: real, massB: real)
    ensures |Chain(gen, massA, massB)| >= 2 && Chain(gen, massA, massB)[..2] == [massA, massB]
  {
    var s := Symbols(gen);
    SymbolsGrowth(gen);
    assert s[0] == 'A' && s[1] == 'B' by {
      assert s[..2][0] == s[0] && s[..2][1] == s[1];
    }
    MaterializeAt(s, massA, massB);
  }

  /** With distinct masses the chain holds Fib(G) atoms of massA and
      Fib(G + 1) - 1 atoms of massB, G = max(gen, 2). */
  lemma ChainCounts(gen: int, massA: real, massB: real)
    requires massA != massB
    ensures Count(Chain(gen, massA, massB), massA) == Fib(Generations(gen))
    ensures Count(Chain(gen, massA, massB), massB) == Fib(Generations(gen) + 1) - 1
  {
    SymbolsCounts(gen);
    MaterializeCount(Symbols(gen), massA, massB);
  }
}
