/** The Fibonacci numbers and the Fibonacci words that `crystal` in Phonon.py
    generates, as specification functions, and the facts about them that the
    atom chain inherits: token lengths, symbol counts and prefix growth. */
module FibWords {

  /** Fib(0) = 0, Fib(1) = Fib(2) = 1, Fib(n) = Fib(n - 1) + Fib(n - 2). */
  function Fib(n: nat): nat
  {
    if n < 2 then n else Fib(n - 1) + Fib(n - 2)
  }

  /** The n-th token of the generation sequence: t1 = "A", t2 = "B" and
      t(n) = t(n - 1) ++ t(n - 2), the previous token followed by the one
      before it. */
  function Word(n: nat): seq<char>
    requires n >= 1
  {
    if n == 1 then "A" else if n == 2 then "B" else Word(n - 1) + Word(n - 2)
  }

  /** The number of occurrences of x in s. */
  function Count<T(==)>(s: seq<T>, x: T): nat
  {
    if s == [] then 0 else (if s[0] == x then 1 else 0) + Count(s[1..], x)
  }

  /** How many tokens `crystal` keeps for `gen` generations: the two seeds,
      plus one per pass of a loop that runs gen - 2 times when that is
      positive and not at all otherwise. */
  function Generations(gen: int): nat
  {
    if gen <= 2 then 2 else gen
  }

  /** The token list of `gen` generations, seeds first. */
  function Tokens(gen: int): seq<seq<char>>
    decreases gen
  {
    if gen <= 2 then ["A", "B"] else Tokens(gen - 1) + [Word(gen)]
  }

  /** The tokens run together symbol by symbol, in list order. */
  function Flatten(ts: seq<seq<char>>): seq<char>
  {
    if ts == [] then [] else Flatten(ts[..|ts| - 1]) + ts[|ts| - 1]
  }

  /** The symbol chain of `gen` generations: every token, the seeds included. */
  function Symbols(gen: int): seq<char>
  {
    Flatten(Tokens(gen))
  }

  /** Every token has Fibonacci length. */
  lemma {:induction false} WordLength(n: nat)
    requires n >= 1
    ensures |Word(n)| == Fib(n)
  {
    if n > 2 {
      WordLength(n - 1);
      WordLength(n - 2);
    }
  }

  /** Every token from t2 on starts with 'B'. */
  lemma {:induction false} WordStartsWithB(n: nat)
    requires n >= 2
    ensures |Word(n)| >= 1 && Word(n)[0] == 'B'
  {
    if n > 2 {
      WordStartsWithB(n - 1);
    }
  }

  lemma {:induction false} CountAppend<T>(a: seq<T>, b: seq<T>, x: T)
    ensures Count(a + b, x) == Count(a, x) + Count(b, x)
  {
    if a != [] {
      assert (a + b)[1..] == a[1..] + b;
      CountAppend(a[1..], b, x);
    } else {
      assert a + b == b;
    }
  }

  /** A value occurs in s exactly when its count is positive. */
  lemma {:induction false} CountPositive<T>(s: seq<T>, x: T)
    ensures x in s <==> Count(s, x) > 0
  {
    if s != [] {
      CountPositive(s[1..], x);
      assert x in s <==> s[0] == x || x in s[1..];
    }
  }

  /** From Fib(1) on the numbers are positive, and each is at least the one
      before it and at most twice it. */
  lemma {:induction false} FibBounds(n: nat)
    requires n >= 1
    ensures Fib(n) >= 1
    ensures Fib(n) <= Fib(n + 1) <= 2 * Fib(n)
  {
    if n > 1 {
      FibBounds(n - 1);
    }
  }

  /** From Fib(2) on, Fib(g) <= Fib(g + 1) - 1 < 2 * Fib(g), with the first
      inequality strict from Fib(4) on. */
  lemma FibNeighbours(g: nat)
    requires g >= 2
    ensures 1 <= Fib(g) <= Fib(g + 1) - 1 < 2 * Fib(g)
    ensures g >= 4 ==> Fib(g) < Fib(g + 1) - 1
  {
    FibBounds(g);
    FibBounds(g - 1);
    if g >= 4 {
      FibBounds(g - 2);
      FibBounds(g - 3);
    }
  }

  /** From t2 on, token t(n) holds Fib(n - 2) 'A's and Fib(n - 1) 'B's, so
      the two counts are consecutive Fibonacci numbers. */
  lemma {:induction false} WordCounts(n: nat)
    requires n >= 2
    ensures Count(Word(n), 'A') == Fib(n - 2)
    ensures Count(Word(n), 'B') == Fib(n - 1)
  {
    if n == 3 {
      assert Word(3) == "BA";
      assert Count("BA", 'A') == 1 && Count("BA", 'B') == 1 by {
        assert "BA"[1..] == "A";
        assert "A"[1..] == "";
      }
    } else if n > 3 {
      WordCounts(n - 1);
      WordCounts(n - 2);
      CountAppend(Word(n - 1), Word(n - 2), 'A');
      CountAppend(Word(n - 1), Word(n - 2), 'B');
    }
  }

  /** The token list holds exactly t1, ..., t(G) for G = Generations(gen). */
  lemma {:induction false} TokensAreWords(gen: int)
    ensures |Tokens(gen)| == Generations(gen)
    ensures forall k :: 0 <= k < |Tokens(gen)| ==> Tokens(gen)[k] == Word(k + 1)
    decreases gen
  {
    if gen > 2 {
      TokensAreWords(gen - 1);
    }
  }

  /** With one more generation the symbol chain gains exactly the newest
      token at its end. */
  lemma SymbolsStep(gen: int)
    requires gen >= 2
    ensures Symbols(gen + 1) == Symbols(gen) + Word(gen + 1)
  {
  }

  /** For at most two generations the chain is just the seed pair. */
  lemma SymbolsOfSeeds(gen: int)
    requires gen <= 2
    ensures Symbols(gen) == "AB"
  {
    var ts := Tokens(gen);
    assert ts[..1] == ["A"];
    assert Flatten(["A"]) == "A" by {
      assert ["A"][..0] == [];
    }
  }

  /** The chain has Fib(1) + ... + Fib(G) = Fib(G + 2) - 1 symbols; for at
      most two generations that is 2. */
  lemma {:induction false} SymbolsLength(gen: int)
    ensures |Symbols(gen)| == Fib(Generations(gen) + 2) - 1
    decreases gen
  {
    if gen <= 2 {
      SymbolsOfSeeds(gen);
    } else {
      SymbolsLength(gen - 1);
      SymbolsStep(gen - 1);
      WordLength(gen);
    }
  }

  /** Growth is append-only: from two generations on, each chain is a strict
      prefix of the next, and below that adding a generation changes nothing.
      Every chain starts with the seeds "AB". */
  lemma {:induction false} SymbolsGrowth(gen: int)
    ensures gen >= 2 ==> Symbols(gen) < Symbols(gen + 1)
    ensures gen < 2 ==> Symbols(gen) == Symbols(gen + 1)
    ensures |Symbols(gen)| >= 2 && Symbols(gen)[..2] == "AB"
    decreases gen
  {
    if gen <= 2 {
      SymbolsOfSeeds(gen);
      if gen < 2 {
        SymbolsOfSeeds(gen + 1);
      }
    } else {
      SymbolsGrowth(gen - 1);
      SymbolsStep(gen - 1);
      assert Symbols(gen)[..2] == Symbols(gen - 1)[..2];
    }
    if gen >= 2 {
      SymbolsStep(gen);
      WordLength(gen + 1);
    }
  }

  /** The chain of G = Generations(gen) tokens holds Fib(G) 'A's and
      Fib(G + 1) - 1 'B's, and nothing else. */
  lemma {:induction false} SymbolsCounts(gen: int)
    ensures Count(Symbols(gen), 'A') == Fib(Generations(gen))
    ensures Count(Symbols(gen), 'B') == Fib(Generations(gen) + 1) - 1
    ensures Count(Symbols(gen), 'A') + Count(Symbols(gen), 'B') == |Symbols(gen)|
    decreases gen
  {
    SymbolsLength(gen);
    if gen <= 2 {
      SymbolsOfSeeds(gen);
      assert "AB"[1..] == "B";
      assert "B"[1..] == "";
    } else {
      SymbolsCounts(gen - 1);
      SymbolsStep(gen - 1);
      WordCounts(gen);
      CountAppend(Symbols(gen - 1), Word(gen), 'A');
      CountAppend(Symbols(gen - 1), Word(gen), 'B');
    }
  }
}
