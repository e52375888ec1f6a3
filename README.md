# Phonon frequency in a Fibonacci quasicrystal: a Dafny model

Phonon.py builds a one-dimensional quasicrystal, a chain of atoms of two
masses laid out by the Fibonacci substitution rule. It assembles the
mass-weighted coupling matrix of that chain and hands the matrix to an
eigen-solver to obtain the phonon frequencies. This project models the
discrete part of that program and proves its properties:

- `crystal` (module `AtomChain`, spec functions in `FibWords`). The
  generation sequence starts with the seeds "A" and "B". Each pass of its loop
  appends the last token followed by the one before it, so the tokens are the
  Fibonacci words t1 = "A", t2 = "B", t(n) = t(n-1) ++ t(n-2). All tokens,
  the seeds included, are run together into one symbol chain, and each symbol
  is then replaced by its mass. The method `AtomChain.Crystal` keeps the
  source's three loops (token generation with the rolling pair, flattening,
  mass mapping) and is proved equal to the specification function
  `AtomChain.Chain`. The lemmas state what that chain is: its length, its
  prefix growth, its two-valued mass pattern and its mass counts.
- The structural part of `Frequency` (module `Spectrum`). The method
  `Spectrum.Frequency` fills the zeroed m×m matrix row by row, guarding the
  first and last rows. It also builds the mode vector and evaluates the
  diagnostic occurrence-ratio branch. The square root in the matrix entries
  is a function parameter `root`. The cells' values are tied to the
  specification `Spectrum.Coupling`, and only cells on the three central
  diagonals can be nonzero. The occurrence ratio follows `np.unique`: counts
  of the smallest and second-smallest distinct mass, larger over smaller. It
  is computed only when printing is asked for and the chain holds at least
  two distinct masses; with three or more masses it still compares the two
  lightest.

Three readings of the code that a quick look can get wrong:

- The chain holds every token, not only the last one. So 3 generations give
  A, B, B, A (`AtomChain.ThreeGenerations`) and not B, A, B. The length for
  G = max(gen, 2) generations is Fib(1) + … + Fib(G) = Fib(G + 2) - 1, not
  Fib(gen).
- For gen ≤ 2, zero and negative counts included, `range(gen - 2)` is empty
  and the chain is exactly [M_A, M_B].
- For distinct masses the chain holds Fib(G) atoms of M_A and Fib(G+1) - 1
  atoms of M_B. The reported ratio is therefore (Fib(G+1) - 1) / Fib(G),
  whichever mass is lighter: 12/8 for six generations.

Files: `fibwords.dfy` (module `FibWords`), `atom_chain.dfy` (module
`AtomChain`), `spectrum.dfy` (module `Spectrum`).

## Model

| member | source | states |
|---|---|---|
| `FibWords.Word` | Phonon.py:65-70 | definition: token t(n), with t1 = "A", t2 = "B" and t(n) = t(n-1) ++ t(n-2), the `tempB + tempA` of each pass |
| `FibWords.Tokens` | Phonon.py:65-70 | definition: the token list after the generation loop, the seeds "A", "B" followed by one new token per pass of `range(gen - 2)` |
| `FibWords.Flatten` | Phonon.py:75-76 | definition: the tokens appended to the symbol chain one after another, in list order |
| `FibWords.Symbols` | Phonon.py:65-76 | definition: the flattened symbol chain of `gen` generations, every token included |
| `FibWords.Count` | Phonon.py:114 | definition: how often a value occurs in a sequence, the per-value counts `np.unique` returns |
| `FibWords.WordLength` | Phonon.py:65-70 | every generated token t(n) has Fib(n) symbols |
| `FibWords.WordStartsWithB` | Phonon.py:65-70 | every token from t2 on is non-empty and starts with 'B' |
| `FibWords.WordCounts` | Phonon.py:65-70 | from t2 on, t(n) holds Fib(n-2) 'A's and Fib(n-1) 'B's, the counts behind the golden-ratio claim |
| `FibWords.TokensAreWords` | Phonon.py:58-70 | the token list has max(gen, 2) entries and entry k is t(k+1): seeds "A", "B", then t(n) = t(n-1) ++ t(n-2) |
| `FibWords.SymbolsStep` | Phonon.py:65-76 | adding a generation (from 2 on) appends exactly the newest token to the symbol chain |
| `FibWords.SymbolsOfSeeds` | Phonon.py:65-66 | for gen ≤ 2, including gen ≤ 0, the symbol chain is "AB" |
| `FibWords.SymbolsLength` | Phonon.py:65-76 | the symbol chain has Fib(G+2) - 1 symbols for G = max(gen, 2) |
| `FibWords.SymbolsGrowth` | Phonon.py:65-76 | from gen = 2 on each chain is a strict prefix of the next; below 2 adding a generation changes nothing; every chain starts "AB" |
| `FibWords.SymbolsCounts` | Phonon.py:65-76 | the chain holds Fib(G) 'A's and Fib(G+1) - 1 'B's and no other symbol |
| `AtomChain.MassOf` | Phonon.py:80-81 | definition: 'A' maps to M_A and every other symbol to M_B |
| `AtomChain.Materialize` | Phonon.py:80-81 | definition: every symbol of the chain replaced by its mass, in order |
| `AtomChain.Chain` | Phonon.py:55-84 | definition: the mass chain `crystal` returns, the symbol chain of `gen` generations mapped to masses |
| `AtomChain.Crystal` | Phonon.py:55-84 | the three loops of `crystal` return exactly the specified chain `Chain(gen, M_A, M_B)` |
| `AtomChain.MaterializeAt` | Phonon.py:80-82 | the mass mapping keeps length and order: element i is M_A if symbol i is 'A', else M_B |
| `AtomChain.MaterializeCount` | Phonon.py:80-81 | with distinct masses, M_A occurs as often as 'A' and M_B fills every other place |
| `AtomChain.ChainOfSeeds` | Phonon.py:65-82 | for gen ≤ 2, including gen ≤ 0, the chain is exactly [M_A, M_B] |
| `AtomChain.ThreeGenerations` | Phonon.py:65-82 | three generations give [M_A, M_B, M_B, M_A] |
| `AtomChain.ChainShape` | Phonon.py:75-82 | the chain has Fib(G+2) - 1 atoms, each one of the two masses, and (masses distinct) M_A exactly where the symbol is 'A' |
| `AtomChain.PatternIndependentOfMasses` | Phonon.py:80-81 | changing the two masses never changes which positions hold the first mass |
| `AtomChain.ChainGrowth` | Phonon.py:65-82 | from gen = 2 on the chain for gen is a strict prefix of the chain for gen + 1 |
| `AtomChain.ChainStartsWithSeeds` | Phonon.py:65-82 | every chain starts with M_A, M_B |
| `AtomChain.ChainCounts` | Phonon.py:65-82 | with distinct masses the chain holds Fib(G) atoms of M_A and Fib(G+1) - 1 of M_B |
| `Spectrum.Diagonal` | Phonon.py:96 | definition: the diagonal entry of row i, -2 sqrt(m_i) (-K) / m_i |
| `Spectrum.Neighbour` | Phonon.py:97-100 | definition: the entry of row i in neighbour column j, sqrt(m_j) (-K) / m_i |
| `Spectrum.Coupling` | Phonon.py:94-100 | definition: cell (i, j) of the matrix after the fill, the diagonal entry, a neighbour entry when abs(i - j) = 1, and the initial zero elsewhere |
| `Spectrum.Frequency` | Phonon.py:89-123 | the zeroed m×m matrix filled row by row equals `Coupling` cell by cell and is zero wherever abs(i - j) > 1; mode is [0, …, m-1]; the report is `OccurrenceReport` |
| `Spectrum.CouplingPattern` | Phonon.py:94-100 | with K > 0 and a positive root, a cell is nonzero exactly when abs(i - j) ≤ 1: positive on the diagonal, negative beside it |
| `Spectrum.Least` | Phonon.py:114 | the first sorted unique value: a value of the chain no larger than any other |
| `Spectrum.Without` | Phonon.py:114 | removing one value keeps exactly the chain's other values |
| `Spectrum.TwoDistinct` | Phonon.py:115 | definition: the chain holds two different masses, which is when the sorted unique values have a second entry (`len(values) > 1`) |
| `Spectrum.SecondValueExists` | Phonon.py:114-115 | the unique values have a second entry exactly when the chain holds two different masses |
| `Spectrum.LeadingCounts` | Phonon.py:114-116 | counts[0] and counts[1] are the counts of the smallest and the second-smallest distinct mass, both at least 1, so neither division can be by zero |
| `Spectrum.LargerOverSmaller` | Phonon.py:116-121 | the ratio is the larger count over the smaller: at least 1, and smaller × ratio = larger |
| `Spectrum.OccurrenceReport` | Phonon.py:113-121 | a report exists iff printing was asked for and the chain has more than one distinct mass; it carries gen, the chain and a ratio ≥ 1 |
| `Spectrum.UniformChainSkipsReport` | Phonon.py:113-115 | with equal masses the diagnostic is skipped |
| `Spectrum.LeastOfTwoValues` | Phonon.py:114 | for a chain of two distinct masses the sorted unique values are the lighter then the heavier mass |
| `Spectrum.TwoValueReport` | Phonon.py:114-121 | on a two-mass chain the ratio is the larger of the two mass counts over the smaller, whichever mass is lighter |
| `Spectrum.ChainMassesOccur` | Phonon.py:80-81 | with distinct masses both masses occur in the crystal chain and nothing else does |
| `Spectrum.CrystalRatioValue` | Phonon.py:17-18 | the crystal's ratio (Fib(G+1) - 1) / Fib(G) lies in [1, 2), and above 1 from four generations on |
| `Spectrum.CrystalRatio` | Phonon.py:113-121 | for distinct masses, whichever is lighter, the report on the crystal chain carries (Fib(G+1) - 1) / Fib(G) |

## Left out

- `sp.linalg.eig` (Phonon.py:104): a foreign floating-point eigen-decomposition. `Spectrum.Frequency` returns the assembled matrix in place of the eigenvalues.
- The numeric values of the matrix entries: `**0.5` is the parameter `root`, about which only positivity on positive reals is assumed (in `CouplingPattern`). Floating-point rounding is not modelled; masses are exact reals.
- `Spectrum.Frequency`: requires every mass to be positive. This is the guarantee the console input gives. Zero or negative masses, which NumPy would turn into inf or nan entries, are not modelled.
- The unused identity matrix `I` (Phonon.py:93) has no effect and is not modelled.
- `analytical_sol` (Phonon.py:45-51): closed-form frequencies built from `np.sqrt`, `np.sin` and `math.pi`; floating-point numerics.
- The console input loops `get_pos_int`, `get_pos_float` and `get_bool` (Phonon.py:127-164): I/O with unbounded retry. `crystal` is modelled for every integer `gen`, non-positive ones included.
- Plotting (`Plot`, `analytical_Plot`, `ratio_Plot`, Phonon.py:168-204) and the `print` calls: presentation. The printed diagnostic is returned as a `RatioReport` value. The generation count it prints is a global in the source and a parameter here.
- The main script (Phonon.py:211-239): driver glue. Note that it reads the masses into `mass2` and then `mass1`, and calls `crystal(gen, mass1, mass2)`, so the first mass entered becomes M_B.
- `np.array(..., dtype=float)` (Phonon.py:82): the chain is a `seq<real>`. The source overwrites the symbol list in place with floats. `AtomChain.Crystal` instead writes the masses into a fresh real array of the same length and returns its contents.
- `Spectrum.CrystalRatioValue`: proves the ratio lies in [1, 2), and above 1 from four generations on. It does not prove the limit (convergence to the golden ratio), which the doc comment at Phonon.py:17-18 claims.
