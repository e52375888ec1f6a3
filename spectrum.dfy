/** The structural part of Phonon.py's `Frequency`: the coupling matrix
    filled row by row from zeros, the mode index vector, and the guard and
    orientation of the mass-occurrence ratio. The square root in the matrix
    entries is a parameter `root`; the eigen-decomposition is not modelled. */
module Spectrum {
  import opened FibWords
  import opened AtomChain

  datatype Option<T> = None | Some(value: T)

  /** What the diagnostic branch prints: the generation count (a global in
      the source, a parameter here), the chain and the occurrence ratio. */
  datatype RatioReport = RatioReport(generations: int, chain: seq<real>, ratio: real)

  predicate AllPositive(chain: seq<real>)
  {
    forall i :: 0 <= i < |chain| ==> chain[i] > 0.0
  }

  /** What the model assumes of the square root: positive on positive reals. */
  ghost predicate PositiveOnPositives(root: real -> real)
  {
    forall x :: x > 0.0 ==> root(x) > 0.0
  }

  /** The diagonal entry of row i: -2 sqrt(m_i) (-K) / m_i, positive for
      positive K (the two minus signs cancel). */
  function Diagonal(chain: seq<real>, K: real, root: real -> real, i: nat): real
    requires i < |chain| && chain[i] != 0.0
  {
    -2.0 * root(chain[i]) * (-K) / chain[i]
  }

  /** The entry of row i in the column of its neighbour j:
      sqrt(m_j) (-K) / m_i. */
  function Neighbour(chain: seq<real>, K: real, root: real -> real, i: nat, j: nat): real
    requires i < |chain| && j < |chain| && chain[i] != 0.0
  {
    root(chain[j]) * (-K) / chain[i]
  }

  /** Cell (i, j) of the coupling matrix once row i has been written: the
      diagonal, the neighbours' columns on either side, zero elsewhere. */
  function Coupling(chain: seq<real>, K: real, root: real -> real, i: nat, j: nat): real
    requires i < |chain| && j < |chain| && chain[i] != 0.0
  {
    if j == i then Diagonal(chain, K, root, i)
    else if j == i + 1 || i == j + 1 then Neighbour(chain, K, root, i, j)
    else 0.0
  }

  /** Assembles the coupling matrix handed to the eigen-solver, builds the
      mode vector [0, 1, ..., m - 1] and, when asked to and when the chain
      holds more than one distinct mass, the occurrence-ratio report. The
      matrix stands in for the eigenvalues the source returns. */
  method Frequency(chain: seq<real>, K: real, root: real -> real, printAtomRatio: bool, gen: int)
    returns (A: array2<real>, mode: seq<int>, report: Option<RatioReport>)
    requires AllPositive(chain)
    ensures fresh(A) && A.Length0 == |chain| && A.Length1 == |chain|
    ensures forall i, j :: 0 <= i < |chain| && 0 <= j < |chain| ==> A[i, j] == Coupling(chain, K, root, i, j)
    ensures forall i, j :: 0 <= i < |chain| && 0 <= j < |chain| && (i + 1 < j || j + 1 < i) ==> A[i, j] == 0.0
    ensures |mode| == |chain| && forall n :: 0 <= n < |mode| ==> mode[n] == n
    ensures report == OccurrenceReport(chain, printAtomRatio, gen)
  {
    var m := |chain|;
    A := new real[m, m]((_, _) => 0.0);
    for i := 0 to m
      invariant forall r, c :: 0 <= r < i && 0 <= c < m ==> A[r, c] == Coupling(chain, K, root, r, c)
      invariant forall r, c :: i <= r < m && 0 <= c < m ==> A[r, c] == 0.0
    {
      A[i, i] := Diagonal(chain, K, root, i);
      if i < m - 1 {
        A[i, i + 1] := Neighbour(chain, K, root, i, i + 1);
      }
      if i > 0 {
        A[i, i - 1] := Neighbour(chain, K, root, i, i - 1);
      }
      assert forall c :: 0 <= c < m ==> A[i, c] == Coupling(chain, K, root, i, c);
    }
    mode := seq(m, n => n);
    report := OccurrenceReport(chain, printAtomRatio, gen);
  }

  /** With K > 0 and a positive root, a cell is nonzero exactly on the three
      central diagonals: positive on the diagonal, negative beside it. */
  lemma CouplingPattern(chain: seq<real>, K: real, root: real -> real, i: nat, j: nat)
    requires AllPositive(chain) && K > 0.0 && PositiveOnPositives(root)
    requires i < |chain| && j < |chain|
    ensures Coupling(chain, K, root, i, j) != 0.0 <==> (j == i || j == i + 1 || i == j + 1)
    ensures j == i ==> Coupling(chain, K, root, i, j) > 0.0
    ensures j != i ==> Coupling(chain, K, root, i, j) <= 0.0
  {
  }

  /** The smallest value of a non-empty chain. */
  function Least(s: seq<real>): (r: real)
    requires s != []
    ensures r in s
    ensures forall i :: 0 <= i < |s| ==> r <= s[i]
  {
    if |s| == 1 then s[0]
    else
      var rest := Least(s[1..]);
      if s[0] <= rest then s[0] else rest
  }

  /** The chain with every occurrence of x removed. */
  function Without(s: seq<real>, x: real): (r: seq<real>)
    ensures forall y :: y in r <==> y in s && y != x
  {
    if s == [] then [] else (if s[0] == x then [] else [s[0]]) + Without(s[1..], x)
  }

  predicate TwoDistinct(chain: seq<real>)
  {
    exists i, j :: 0 <= i < |chain| && 0 <= j < |chain| && chain[i] != chain[j]
  }

  /** The distinct values, sorted, have a second entry exactly when the
      chain holds two different masses. */
  lemma SecondValueExists(chain: seq<real>)
    requires chain != []
    ensures Without(chain, Least(chain)) != [] <==> TwoDistinct(chain)
  {
  }

  /** counts[0] and counts[1] of the sorted unique values: how often the
      smallest and the second-smallest distinct mass occur. */
  function LeadingCounts(chain: seq<real>): (c: (nat, nat))
    requires TwoDistinct(chain)
    ensures Without(chain, Least(chain)) != []
    ensures c == (Count(chain, Least(chain)), Count(chain, Least(Without(chain, Least(chain)))))
    ensures c.0 >= 1 && c.1 >= 1
  {
    SecondValueExists(chain);
    var first := Least(chain);
    var second := Least(Without(chain, first));
    CountPositive(chain, first);
    CountPositive(chain, second);
    (Count(chain, first), Count(chain, second))
  }

  /** The larger of two positive counts over the smaller: at least 1, and
      the smaller times it gives back the larger. */
  function LargerOverSmaller(c0: nat, c1: nat): (q: real)
    requires c0 >= 1 && c1 >= 1
    ensures q >= 1.0
    ensures q * (if c0 <= c1 then c0 else c1) as real == (if c0 <= c1 then c1 else c0) as real
  {
    if c1 <= c0 then c0 as real / c1 as real else c1 as real / c0 as real
  }

  /** The diagnostic branch: nothing unless asked for and unless the chain
      holds more than one distinct mass; otherwise the ratio of the two
      leading counts, larger over smaller. */
  function OccurrenceReport(chain: seq<real>, printAtomRatio: bool, gen: int): (r: Option<RatioReport>)
    ensures r.Some? <==> printAtomRatio && TwoDistinct(chain)
    ensures r.Some? ==> r.value.generations == gen && r.value.chain == chain && r.value.ratio >= 1.0
  {
    if printAtomRatio && TwoDistinct(chain) then
      var counts := LeadingCounts(chain);
      Some(RatioReport(gen, chain, LargerOverSmaller(counts.0, counts.1)))
    else
      None
  }

  /** Equal masses give a single distinct value: the report is skipped. */
  lemma UniformChainSkipsReport(gen: int, mass: real, printAtomRatio: bool)
    ensures OccurrenceReport(Chain(gen, mass, mass), printAtomRatio, gen) == None
  {
    ChainShape(gen, mass, mass);
  }

  /** In a chain of two distinct values that both occur, the sorted unique
      values are the smaller and then the larger of the two. */
  lemma LeastOfTwoValues(chain: seq<real>, a: real, b: real)
    requires a != b && a in chain && b in chain
    requires forall i :: 0 <= i < |chain| ==> chain[i] == a || chain[i] == b
    ensures TwoDistinct(chain)
    ensures Least(chain) == if a < b then a else b
    ensures Without(chain, Least(chain)) != []
    ensures Least(Without(chain, Least(chain))) == if a < b then b else a
  {
  }

  /** The ratio the crystal chain yields for G = max(gen, 2) generations:
      (Fib(G + 1) - 1) / Fib(G), the count of the later-seeded mass over that
      of the first. It lies in [1, 2), above 1 from four generations on,
      between the golden ratio's first convergents 1/1 and 2/1. */
  function CrystalRatioValue(gen: int): (q: real)
    ensures 1.0 <= q < 2.0
    ensures gen >= 4 ==> q > 1.0
  {
    var g := Generations(gen);
    FibNeighbours(g);
    QuotientBounds(Fib(g + 1) - 1, Fib(g));
    (Fib(g + 1) - 1) as real / Fib(g) as real
  }

  lemma QuotientBounds(a: nat, b: nat)
    requires 1 <= b <= a < 2 * b
    ensures 1.0 <= a as real / b as real < 2.0
    ensures b < a ==> a as real / b as real > 1.0
  {
    var q := a as real / b as real;
    assert q * b as real == a as real;
    if q >= 2.0 {
      assert false;
    }
  }

  /** For two distinct masses, whichever is the smaller, the report on the
      crystal chain carries CrystalRatioValue(gen). */
  lemma CrystalRatio(gen: int, massA: real, massB: real)
    requires massA != massB
    ensures OccurrenceReport(Chain(gen, massA, massB), true, gen)
      == Some(RatioReport(gen, Chain(gen, massA, massB), CrystalRatioValue(gen)))
  {
    var chain := Chain(gen, massA, massB);
    var g := Generations(gen);
    ChainMassesOccur(gen, massA, massB);
    TwoValueReport(chain, massA, massB, gen);
    ChainCounts(gen, massA, massB);
    FibNeighbours(g);
  }

  /** On a chain of exactly two distinct masses, the report divides the
      larger of their counts by the smaller, whichever mass is lighter. */
  lemma TwoValueReport(chain: seq<real>, a: real, b: real, gen: int)
    requires a != b && a in chain && b in chain
    requires forall i :: 0 <= i < |chain| ==> chain[i] == a || chain[i] == b
    ensures Count(chain, a) >= 1 && Count(chain, b) >= 1
    ensures OccurrenceReport(chain, true, gen)
      == Some(RatioReport(gen, chain, LargerOverSmaller(Count(chain, a), Count(chain, b))))
  {
    LeastOfTwoValues(chain, a, b);
    CountPositive(chain, a);
    CountPositive(chain, b);
    var counts := LeadingCounts(chain);
    if a < b {
      assert counts == (Count(chain, a), Count(chain, b));
    } else {
      assert counts == (Count(chain, b), Count(chain, a));
    }
  }

  /** Both masses occur in the crystal chain, and nothing else does. */
  lemma ChainMassesOccur(gen: int, massA: real, massB: real)
    requires massA != massB
    ensures massA in Chain(gen, massA, massB) && massB in Chain(gen, massA, massB)
    ensures forall i :: 0 <= i < |Chain(gen, massA, massB)| ==>
      Chain(gen, massA, massB)[i] == massA || Chain(gen, massA, massB)[i] == massB
  {
    var chain := Chain(gen, massA, massB);
    ChainShape(gen, massA, massB);
    ChainCounts(gen, massA, massB);
    FibNeighbours(Generations(gen));
    CountPositive(chain, massA);
    CountPositive(chain, massB);
  }
}
