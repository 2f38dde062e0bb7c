# Canonical computations in Dafny

This project models the computational core of *Canonical-Computations*. It has four parts:

- **An elementary cellular automaton (ECA) engine.**
  - A Wolfram code becomes an 8-entry rule mapping.
  - The mapping becomes the table of neighbourhood patterns that produce a 1.
  - The simulator writes a space-time diagram on a ring, column by column.
  - Each new cell is the match-and-sum of its neighbourhood triple against the stored patterns.
- **Canonical-computation (CC) labelling.**
  - The input is a stack of D space-time diagrams, each L x T.
  - Each cell's length-D vector is its local Boolean function.
  - Discovery labelling scans time in the outer loop and space in the inner loop. It gives every new vector the next unused label and records the label-to-vector table.
  - Consistent labelling looks every vector up in a universal table. That table enumerates all vectors over the cell states in `itertools.product` order.
- **Cycle detection.** The search finds the lexicographically first pair of time steps whose columns are equal, either directly or after a cyclic rotation. A sentinel marks the case where no pair matches.
- **The k-to-n spatial encoder.** It first checks the input width against the number of locations. It then scatters each input row into a zero row of the encoded width.

Modules, one per file:

- `Wrappers` holds `Result`.
- `Arith` holds `Pow` and division/modulus facts.
- `Diagrams` holds the columns of an `array2` and binary configurations.
- `ECA`, `CCDiagrams`, `CCAnalysis` and `SpatialEncoders` hold the four parts.

The pure specification of each loop is a function:

- `ECA.State` and `ECA.NextColumn`;
- `CCDiagrams.Distinct` of `CCDiagrams.Scan`, and `CCDiagrams.Product`;
- the `CCAnalysis.IsFirstRepeat` and `CCAnalysis.IsFirstShiftRepeat` predicates;
- `SpatialEncoders.Scatter`.

Each method is proved against its specification, and the properties the code promises are proved about those functions.

Three behaviours of the code, and how the model treats them:

- **Codes outside [0, 255].** `ECA_rule_mapping` does not validate the code. `& 2**j` for j < 8 reads only the low 8 bits, so an out-of-range code is masked; the model excludes such codes by its precondition `0 <= code <= 255`.
- **Encoder locations.** `k_to_n_encoder` does not check that the locations are distinct. With a repeat, the last write wins (`ScatterLastWrite`).
- **Neighbourhood orientation.** `run_ECA` builds each site's triple as (x[i+1], x[i], x[i-1]). It compares that triple against patterns listed in Wolfram order (left, centre, right). For asymmetric codes the result is therefore the mirror image of the textbook rule. The model keeps this orientation (`SiteTriple`, `NextCellRule`).

## Model

| member | source | states |
|---|---|---|
| ECA.RuleMapping | canonical_computations_package/CA/ECA.py:10 | entry i is set exactly when bit 7 - i of the code is set; read back as a big-endian numeral the mapping is the code itself, and the number of set entries is the code's popcount |
| ECA.RuleMappingBijective | canonical_computations_package/CA/ECA.py:10 | every 8-flag mapping is the mapping of exactly one code in [0, 255] |
| ECA.NeighbourhoodStatesValues | canonical_computations_package/CA/ECA.py:25-34 | the table lists the 8 binary triples, entry i being the one whose value 4a + 2b + c is 7 - i |
| ECA.BinaryTripleListed | canonical_computations_package/CA/ECA.py:25-34 | every binary triple occurs in the table, at position 7 - value |
| ECA.Select | canonical_computations_package/CA/ECA.py:43 | boolean-mask indexing: the entries of the table whose flag is set, in table order; there are as many as set flags |
| ECA.SelectMembers | canonical_computations_package/CA/ECA.py:43 | boolean-mask selection keeps exactly the entries whose flag is set |
| ECA.SelectedMembership | canonical_computations_package/CA/ECA.py:22-43 | a triple is a stored pattern iff it is binary and the code's bit at its value is set |
| ECA.SelectedShape | canonical_computations_package/CA/ECA.py:39-43 | there are popcount(code) stored patterns, in strictly decreasing value order (Wolfram order), hence pairwise distinct |
| ECA.CreateRuleArray | canonical_computations_package/CA/ECA.py:14-45 | size copies of the pattern list; each copy has popcount(code) entries, holds exactly the selected triples and keeps Wolfram order |
| ECA.SiteTriple | canonical_computations_package/CA/ECA.py:69-71 | the triple read at site i is (x[i+1], x[i], x[i-1]) on the ring: slot 0 is the right neighbour (x[0] at the last site), slot 2 the left neighbour (the last cell at site 0) |
| ECA.MatchCountDistinct | canonical_computations_package/CA/ECA.py:75-88 | over pairwise distinct patterns the match-and-sum count is 1 if the triple is stored and 0 otherwise |
| ECA.PatternsMatchAtMostOnce | canonical_computations_package/CA/ECA.py:75-88 | at most one stored pattern equals any triple, so the per-site sum never exceeds 1 |
| ECA.NextColumn | canonical_computations_package/CA/ECA.py:66-88 | column t + 1 is computed from column t alone (cell i is the match count of SiteTriple(x, i) against the stored patterns); it has the same length and every cell is 0 or 1, whatever the old cells |
| ECA.State | canonical_computations_package/CA/ECA.py:54-88 | column t of the run: the initial configuration for t = 0, NextColumn of column t - 1 otherwise; same length as the initial configuration, and binary whenever t > 0 or the initial configuration is binary |
| ECA.MatchAndSum | canonical_computations_package/CA/ECA.py:75-88 | the per-site loop (product of the three slot indicators, summed over patterns) computes the match count |
| ECA.NextCellRule | canonical_computations_package/CA/ECA.py:66-88 | on a binary column, new cell i is 1 iff bit 4*x[i+1] + 2*x[i] + x[i-1] of the code is set, and 0 otherwise |
| ECA.Step | canonical_computations_package/CA/ECA.py:66-88 | one pass of the time loop refills the neighbourhood buffer so that row i holds SiteTriple(prev, i), writes NextColumn of the previous column into column t, and leaves every other column unchanged |
| ECA.RunECA | canonical_computations_package/CA/ECA.py:49-90 | the diagram is size x simulationLength; column 0 is the initial configuration; each later column is NextColumn of the one before (a synchronous update); every cell is 0 or 1 |
| ECA.RuleZero | canonical_computations_package/CA/ECA.py:39-43 | code 0 stores no pattern, so every column after the first is all zeros |
| ECA.RuleIdentity | canonical_computations_package/CA/ECA.py:66-88 | under code 204 every column equals the initial configuration |
| ECA.RuleXor | canonical_computations_package/CA/ECA.py:66-88 | under code 90 cell i becomes x[i+1] XOR x[i-1] |
| ECA.RuleXorExample | canonical_computations_package/CA/ECA.py:66-88 | code 90 maps the ring [0,0,1,0,0] to [0,1,0,1,0] |
| CCDiagrams.DistinctNoDuplicates | canonical_computations_package/diagrams/CC_diagrams.py:42-53 | the discovered vectors are pairwise distinct |
| CCDiagrams.DistinctMembers | canonical_computations_package/diagrams/CC_diagrams.py:42-53 | a vector is discovered iff it occurs in the scan |
| CCDiagrams.DistinctDiscovery | canonical_computations_package/diagrams/CC_diagrams.py:42-53 | a vector met for the first time gets the number of distinct vectors met before it; a vector met again gets an earlier label |
| CCDiagrams.CellVector | canonical_computations_package/diagrams/CC_diagrams.py:37 | the slice stack[:, s, t]: a vector of length D whose entry k is stack[k, s, t] |
| CCDiagrams.LabelIsFinal | canonical_computations_package/diagrams/CC_diagrams.py:42-53 | the label a cell receives when scanned is its position among the distinct vectors of the whole scan, so later cells never change it |
| CCDiagrams.TablesAdd | canonical_computations_package/diagrams/CC_diagrams.py:50-53 | recording a new vector under the next label keeps both dictionaries and the counter in step with the discovered list |
| CCDiagrams.LabelOf | canonical_computations_package/diagrams/CC_diagrams.py:42-53 | a known vector keeps its label; a new one receives the counter's value and is entered in both dictionaries; the tables stay consistent |
| CCDiagrams.ScanCell | canonical_computations_package/diagrams/CC_diagrams.py:37-53 | labelling cell (s, t) gives it its final label and advances the tables by one scanned cell |
| CCDiagrams.LabelColumn | canonical_computations_package/diagrams/CC_diagrams.py:33-53 | the inner loop labels every cell of time step t with its final label and leaves the other time steps unchanged |
| CCDiagrams.CCDiagram | canonical_computations_package/diagrams/CC_diagrams.py:6-57 | the L x T label diagram labels each cell with its vector's position in first-discovery order; the function table's keys are exactly 0..n-1 and key k holds the k-th discovered vector; looking a cell's label up gives back its vector; two cells share a label iff their vectors are equal |
| CCDiagrams.LabelledAll | canonical_computations_package/diagrams/CC_diagrams.py:42-57 | once every cell carries its final label, the diagram and the function table invert each other and labels are injective on vectors |
| CCDiagrams.Digits | canonical_computations_package/diagrams/CC_diagrams.py:62 | the i-th tuple of itertools.product(states, repeat=n): n entries, all drawn from states, i written in base m = the number of states with the last position varying fastest |
| CCDiagrams.Product | canonical_computations_package/diagrams/CC_diagrams.py:62 | the whole enumeration: m^n tuples, where m is the number of states (one empty tuple when n = 0, none when there are no states and n > 0) |
| CCDiagrams.DigitsAt | canonical_computations_package/diagrams/CC_diagrams.py:62 | entry k of the i-th tuple is the state indexed by digit k of i in base m, that is states[(i / m^(n-1-k)) mod m] |
| CCDiagrams.ProductDigit | canonical_computations_package/diagrams/CC_diagrams.py:62 | the same closed form for the enumeration itself: Product(states, n)[i][k] == states[(i / m^(n-1-k)) mod m] |
| CCDiagrams.ProductStep | canonical_computations_package/diagrams/CC_diagrams.py:62 | the tuple at i * m + j is the tuple at i with states[j] appended, where m is the number of states (the last position varies fastest) |
| CCDiagrams.ProductMembers | canonical_computations_package/diagrams/CC_diagrams.py:62 | the enumeration lists exactly the length-n vectors over the states |
| CCDiagrams.RankDigits | canonical_computations_package/diagrams/CC_diagrams.py:62 | every length-n vector over the states occurs in the enumeration, at position Rank |
| CCDiagrams.RankOfDigits | canonical_computations_package/diagrams/CC_diagrams.py:62 | over pairwise distinct states Rank recovers the position of an enumerated tuple |
| CCDiagrams.DigitsInjective | canonical_computations_package/diagrams/CC_diagrams.py:62 | over pairwise distinct states the enumeration has no repetition |
| CCDiagrams.BinaryDigits | canonical_computations_package/diagrams/CC_diagrams.py:60-67 | with states [0, 1] the tuple at position i has big-endian binary value i |
| CCDiagrams.PositionTable | canonical_computations_package/diagrams/CC_diagrams.py:65-67 | the keys are exactly the listed vectors; each key maps to the position of its last listing; distinct keys have distinct labels |
| CCDiagrams.CreateCCLabels | canonical_computations_package/diagrams/CC_diagrams.py:60-68 | the keys are exactly the length-n vectors over the states; each is labelled with its position in product order; the labels are injective; over distinct states the i-th tuple gets label i; with states [0, 1] a vector's label is its binary value |
| CCDiagrams.CCDiagramConsistentLabels | canonical_computations_package/diagrams/CC_diagrams.py:71-94 | succeeds iff every cell's vector is a key, and then labels each cell with the table's value for its vector; otherwise it fails with the first missing vector in scan order and invents no label; under an injective table two cells share a label iff their vectors are equal, which is the partition CCDiagram makes |
| CCAnalysis.RollZero | canonical_computations_package/analysis/CC_analysis.py:17-21 | a roll by 0 is the identity |
| CCAnalysis.Roll | canonical_computations_package/analysis/CC_analysis.py:21 | np.roll(c, r): entry i is c[(i - r) mod L], where L is the length of c, following np.roll's sign convention, and the length is kept |
| CCAnalysis.RollRotates | canonical_computations_package/analysis/CC_analysis.py:21 | for 0 <= r <= L a roll by r moves the last r entries to the front: Roll(c, r) == c[L - r..] + c[..L - r] |
| CCAnalysis.Agreements | canonical_computations_package/analysis/CC_analysis.py:24 | np.sum(a == b) (also at line 48): the number of positions where a and b agree; at most the length, and equal to it when a == b |
| CCAnalysis.AgreementsFull | canonical_computations_package/analysis/CC_analysis.py:24 | the agreement count never exceeds the length, and it equals the length iff the columns are equal |
| CCAnalysis.FirstRepeatUnique | canonical_computations_package/analysis/CC_analysis.py:42-50 | the first repeating pair is unique |
| CCAnalysis.FirstShiftRepeatUnique | canonical_computations_package/analysis/CC_analysis.py:13-29 | the first shifted repetition is unique |
| CCAnalysis.FindCycles | canonical_computations_package/analysis/CC_analysis.py:37-53 | returns [t, t2, t2 - t] with t2 - t >= 1 for the lexicographically first pair of equal columns, and [0, 0, 0] iff no two columns are equal |
| CCAnalysis.FindShiftCycles | canonical_computations_package/analysis/CC_analysis.py:5-34 | returns [t, t2, t2 - t, r] with t2 - t >= 1 and 0 <= r < L for the first (t, t2, r) where column t equals column t2 rolled by r, and [0, 0, 0, 0] iff there is none |
| CCAnalysis.RepeatIsShiftRepeat | canonical_computations_package/analysis/CC_analysis.py:17-24 | on a non-empty lattice an equal pair of columns is a shifted repetition with r = 0 |
| CCAnalysis.ShiftSearchSucceeds | canonical_computations_package/analysis/CC_analysis.py:13-24 | on a non-empty lattice, whenever the plain search succeeds, so does the shifted one |
| CCAnalysis.ShiftSearchNoLater | canonical_computations_package/analysis/CC_analysis.py:13-24 | on a non-empty lattice the shifted search's first match comes at or before the plain search's |
| CCAnalysis.EmptyLattice | canonical_computations_package/analysis/CC_analysis.py:17 | with L = 0 and T >= 2 the plain search matches (0, 1) while the shifted search never matches |
| CCAnalysis.ShiftExample | canonical_computations_package/analysis/CC_analysis.py:13-29 | for columns [1, 0] then [0, 1] there is no plain repetition, and the first shifted repetition is (0, 1) with r = 1 |
| CCAnalysis.ShiftSearchExample | canonical_computations_package/analysis/CC_analysis.py:5-53 | on the 2 x 2 diagram with columns [1, 0] then [0, 1] the shifted search returns [0, 1, 1, 1] and the plain search returns the sentinel [0, 0, 0] |
| SpatialEncoders.Scatter | canonical_computations_package/ReCA/spatial_encoders.py:10-14 | a zero row of the encoded width after writing values[i] at column locations[i] for i = 0, 1, ... in turn |
| SpatialEncoders.ScatterUnnamed | canonical_computations_package/ReCA/spatial_encoders.py:10-14 | a column that no location names stays 0 |
| SpatialEncoders.ScatterLastWrite | canonical_computations_package/ReCA/spatial_encoders.py:13-14 | a named column holds the value of the last (largest-index) write to it |
| SpatialEncoders.ScatterDistinct | canonical_computations_package/ReCA/spatial_encoders.py:12-14 | with distinct locations, input entry i lands at column locations[i] |
| SpatialEncoders.KToNEncoder | canonical_computations_package/ReCA/spatial_encoders.py:3-15 | fails with the width and the location count iff they differ; otherwise the result is N x encodedInputSize and row n is the scatter of input row n alone |

## Left out

- Numba compilation, numpy vectorisation and the GPU remark in `create_rule_array` are performance devices. The match-and-sum step is modelled as a per-site loop, which gives the same values.
- Numpy dtypes are modelled as integers:
  - the `uint8` diagrams;
  - the `uint64` label diagrams;
  - the `float64` buffer of the encoder, whose values are only copied.
- `tobytes()` dictionary keys are modelled as the integer vectors themselves. The `uint8` cast in `CC_diagram_consistent_labels` is not modelled, so keys are compared as plain vectors.
- `wolfram_code & 2**j` is modelled as the arithmetic bit `Bit(code, j)`. The two agree on [0, 255].
- ECA.RuleMapping: requires 0 <= code <= 255, because the masking of codes outside that range is not modelled.
- ECA.RunECA: requires a binary initial configuration and simulationLength >= 1, because the source assumes both.
- SpatialEncoders.KToNEncoder: requires the locations to lie in [0, encodedInputSize) whenever the lengths agree, because numpy's wrap-around for negative indices and its error for out-of-range ones are not modelled.
- The reused rule-configuration buffer of `run_ECA` is not modelled. The per-pattern equality indicators are computed inside `MatchAndSum`, and only the neighbourhood buffer is an array that is refilled.
- `run_ECA` calls `create_rule_array` for the lattice size, but the rule array is used only as a list of patterns per site. It is modelled as a sequence of sequences, not as a size x 3 x k array.
- "Output row n depends only on input row n" is stated through `KToNEncoder`'s postcondition, which mentions only `Row(inputSet, n)`. There is no separate lemma.
- The claim that consistent labelling partitions cells exactly as `CC_diagram` does is stated as the two if-and-only-if postconditions of `CCDiagram` and `CCDiagramConsistentLabels`. The second holds under an injective table, which `CreateCCLabels` guarantees.
- Memory-use warnings, plotting, file I/O and packaging are not part of this model.
- `create_CC_labels` gives `CA_states` the default `[0, 1]`. `CreateCCLabels` takes `caStates` explicitly, and the binary-value property is stated for `caStates == [0, 1]`.
- `create_CC_labels` builds each product tuple as an `np.uint8` array, so states outside [0, 255] wrap or raise there. `CreateCCLabels` keeps the states as they are and has no precondition on them.
- `Boolean_functions` in `CC_diagram` stores a slice of the input stack, so in the source the table is a view of the input. `CCDiagram` stores the vector as a value; aliasing between the table and the stack is not modelled.
- `RunECA`, `CCDiagram`, `CCDiagramConsistentLabels` and `KToNEncoder` allocate the arrays they return, as the source does, but their contracts do not state `fresh`. A caller therefore cannot conclude that writing into the result leaves its own arrays unchanged.
