# Hadamard secret sharing, modelled in Dafny

This project models the core of a Rust library that splits a 32-bit secret
into parts using the incidence matrix of a Hadamard matrix. It proves what
the library promises about that core.

- `hadamard.dfy` (module `Hadamard`) models `src/hadamard_matrix.rs`.
  - `HadamardMatrix` is a class over a two-dimensional array.
  - `From` accepts a matrix exactly when it is Hadamard: square, non-empty, entries in {-1, +1}, and M·Mᵗ = n·I.
  - `Normalize` negates whole rows and columns in place. It is proved to leave the closed form `NormalForm` of the old matrix. That form has +1 throughout row 0 and column 0 and is still Hadamard.
  - `Incidence` / `GetIncidence` take the interior, with +1 read as 1 and -1 as 0.
- `scheme_impl.dfy` (module `SchemeImpl`) models `src/scheme_impl.rs`.
  - `Part` and `HSS` are datatypes, as neither is changed after construction.
  - `Share`, `Reconstruct` and `Validate` keep the source's triple loop over rows, blocks `s_ind` and columns `j`.
  - Each is proved against a specification function: `Shares`, `Recovered`, and `Voters`/`Flagged`.
  - Lemmas state what these mean: authentic parts give back `secret & coverage`, a covering set of authentic parts gives back the secret, authentic parts are never flagged, and a flagged part stood on the smaller side of a disputed bit (the zeros on a tie).
- `lib.dfy` (module `Scheme`) models `src/lib.rs`.
  - `HadamardSSS.New` checks, normalizes and takes the incidence matrix.
  - `GetThreshold` is `(d + 3) / 2`.
  - `Reconstruct` refuses fewer parts than the threshold.
  - `Share`, `Validate` and `IsValid` hand the work to the engine.
  - `ThresholdRoundTrip` states the scheme's promise: parts from `threshold` distinct rows pass the gate, are not flagged and give back the secret, provided every column of the incidence matrix is missed by fewer than `threshold` rows.
- `hadamard_examples.dfy` and `scheme_examples.dfy` state the repository's unit tests as lemmas.
  - The 8 x 8 test matrix is proved Hadamard via Sylvester's doubling construction.
  - Its incidence matrix `I7` and threshold 5 are derived.
  - The tests' round trip and validation claims are proved for every secret and every random draw, not only for secrets 0..99.

How the source's types and effects are represented:

- **Secrets and payloads** (`u32`) are `Word`s: sequences of 32 booleans, least significant bit first (`words.dfy`). The operations used are per-bit: `|=`, `&` with `1 << j_id`, and `^`.
- **Randomness.** `rand::thread_rng().gen_range(0..=1)` is an input. `noise[i][p]` is the bit that party i draws at position p.
- **Errors.** `Result<_, &'static str>` is `Wrappers.Result`.
- **Panics become preconditions**:
  - the incidence matrix must have at least one row, because `times` divides by n;
  - every part number must be a row of the matrix, because of `mtx[[ind, j]]`;
  - in `validate`, every flagged part number must be below 32, because of `suspicious[ind]` on a vector of 32 flags (see Findings);
  - `new` needs a Hadamard matrix, because of the `expect`.
- The engine's matrix is also taken to be square (see Left out).

Where the code and its own description disagree, the model follows the code:

- `HadamardSSS::new` and the `lib.rs` tests call `HSS::new` and `Part::new`. Only `from` exists, so the model uses the constructors of the datatypes.
- `HadamardSSS::validate` is declared to return `Vec<Part>`, but it returns the engine's `Vec<usize>`. The model returns the part numbers.
- `mtx_len` returns the element count n·n, not the dimension. See Findings.

## Model

| member | source | states |
|---|---|---|
| Hadamard.GramEntry | src/hadamard_matrix.rs:55-56 | entry (i, j) of M·Mᵗ is the inner product of rows i and j |
| Hadamard.HadamardIffOrthogonalRows | src/hadamard_matrix.rs:42-63 | the acceptance test holds exactly when the matrix is non-empty and all ±1, every row has squared norm n, and distinct rows are orthogonal |
| Hadamard.HadamardMatrix.CheckHadamard | src/hadamard_matrix.rs:42-63 | `is_hadamard`: after the shape check, the early-exit entry scan and the product comparison, returns true exactly when the matrix is square, non-empty, all ±1 and M·Mᵗ = n·I |
| Hadamard.HadamardMatrix.Copy | src/hadamard_matrix.rs:26 | the object holds a fresh array with the same dimensions and contents as the input |
| Hadamard.HadamardMatrix.From | src/hadamard_matrix.rs:24-30 | Ok exactly when the input is Hadamard, and then a fresh object holding an identical copy; Err otherwise |
| Hadamard.HadamardMatrix.Normalize | src/hadamard_matrix.rs:75-90 | the one-pass row-then-column sign flipping leaves exactly `NormalForm` of the old matrix, and the object is still a Hadamard matrix |
| Hadamard.HadamardMatrix.NormalizeRow | src/hadamard_matrix.rs:78-82 | the row test of step i: row i is negated exactly when it currently starts with -1, which is when the original row did, taking the flips of steps before i to the flips of row i as well |
| Hadamard.HadamardMatrix.NormalizeColumn | src/hadamard_matrix.rs:83-87 | the column test of step i: column i is negated exactly when row 0, already made to start with +1, holds -1 there, adding the flip of column i |
| Hadamard.HadamardMatrix.NegateRow | src/hadamard_matrix.rs:79-81 | every entry of row i is negated and every other entry is unchanged |
| Hadamard.HadamardMatrix.NegateColumn | src/hadamard_matrix.rs:84-86 | every entry of column i is negated and every other entry is unchanged |
| Hadamard.NormalForm | src/hadamard_matrix.rs:75-90 | the closed form of `normalize` is a square matrix of the same order |
| Hadamard.DotOfFlipped | src/hadamard_matrix.rs:77-88 | negating two rows by the same column flips, and each row by its own sign, multiplies their inner product by the product of the row signs |
| Hadamard.NormalFormFirstRowAndColumn | src/hadamard_matrix.rs:75-90 | after normalization every entry of row 0 and of column 0 is +1 |
| Hadamard.NormalFormKeepsSigns | src/hadamard_matrix.rs:77-88 | normalization keeps every entry in {-1, +1} |
| Hadamard.NormalFormKeepsHadamard | src/hadamard_matrix.rs:77-88 | normalizing a Hadamard matrix yields a Hadamard matrix |
| Hadamard.NormalFormOfNormalized | src/hadamard_matrix.rs:78-83 | a matrix whose first row and column are +1 is left unchanged (no pivot is -1) |
| Hadamard.NormalFormIdempotent | src/hadamard_matrix.rs:75-90 | normalizing twice is the same as normalizing once |
| Hadamard.Incidence | src/hadamard_matrix.rs:94-97 | the result is (n-1) x (n-1); for a ±1 input, entry (i, j) is 1 where entry (i+1, j+1) is +1 and 0 where it is -1 |
| Hadamard.HadamardMatrix.GetIncidence | src/hadamard_matrix.rs:94-97 | the same, read from the object's array |
| HadamardExamples.EmptyRowRejected | src/hadamard_matrix.rs:104-108 | the 1 x 0 matrix is not Hadamard, so `from` fails |
| HadamardExamples.NonSignsRejected | src/hadamard_matrix.rs:112-114 | `[[1,2],[3,4]]` is rejected |
| HadamardExamples.IdentityRejected | src/hadamard_matrix.rs:115-117 | `[[1,0],[0,1]]` is rejected |
| HadamardExamples.ParallelRowsRejected | src/hadamard_matrix.rs:118-120 | `[[-1,-1],[1,1]]` is rejected: its rows are not orthogonal |
| HadamardExamples.H2Accepted | src/hadamard_matrix.rs:124-126 | `[[1,1],[1,-1]]` is accepted |
| HadamardExamples.SylvesterKeepsHadamard | src/hadamard_matrix.rs:127-132 | the doubling `[[H,H],[H,-H]]` of a Hadamard matrix is Hadamard (the shape of every test matrix) |
| HadamardExamples.H4IsSylvester | src/hadamard_matrix.rs:127-132 | the 4 x 4 test matrix is the doubling of H2 |
| HadamardExamples.H4Accepted | src/hadamard_matrix.rs:127-132 | the 4 x 4 test matrix is accepted |
| HadamardExamples.NormalizeExampleA | src/hadamard_matrix.rs:137-142 | `[[-1,-1],[-1,1]]` normalizes to `[[1,1],[1,-1]]` |
| HadamardExamples.NormalizeExampleB | src/hadamard_matrix.rs:143-148 | `[[-1,1],[1,1]]` normalizes to `[[1,1],[1,-1]]` |
| HadamardExamples.IncidenceOfH2 | src/hadamard_matrix.rs:154-158 | the incidence matrix of H2 is `[[0]]` |
| HadamardExamples.IncidenceOfH4 | src/hadamard_matrix.rs:159-167 | the incidence matrix of the 4 x 4 matrix is `[[0,1,0],[1,0,0],[0,0,1]]` |
| SchemeImpl.Shares | src/scheme_impl.rs:89-111 | `share` makes exactly n parts, and part i has number i |
| SchemeImpl.HSS.Share | src/scheme_impl.rs:89-111 | returns Ok with exactly `Shares`: in part i, bit p is the secret's bit where `mtx[i][p % n] == 1` and party i's random bit otherwise; there are `Dimension()` parts |
| SchemeImpl.BlocksCoverWidth | src/scheme_impl.rs:94 | `times = (32 + n - 1) / n` blocks of n positions reach every bit below 32 |
| SchemeImpl.BlockColumn | src/scheme_impl.rs:98 | position `j + s_ind * n` lies in column j |
| SchemeImpl.SharesAreAuthentic | src/scheme_impl.rs:99-102 | any selection of the parts `share` made carries the secret's own bit wherever its row carries one |
| SchemeImpl.HSS.Reconstruct | src/scheme_impl.rs:116-135 | returns Ok with `Recovered`: bit p is set exactly when some supplied part whose row has a 1 in column p % n has bit p set |
| SchemeImpl.RecoveredFromAuthentic | src/scheme_impl.rs:121-134 | from authentic parts the result is `secret & coverage`: the secret's bit where some part covers it, 0 where none does |
| SchemeImpl.RoundTrip | src/scheme_impl.rs:116-135 | authentic parts whose rows cover every column reconstruct the secret |
| SchemeImpl.DistinctRowsCover | src/scheme_impl.rs:121-134 | if every column is missed by fewer than k rows, parts from k distinct rows cover every column |
| SchemeImpl.HSS.Validate | src/scheme_impl.rs:148-185 | as written, defined when every flagged number is below 32: the result is strictly increasing and holds exactly the numbers that `Flagged` marks |
| SchemeImpl.HSS.ValidateAllRows | src/scheme_impl.rs:148-185 | with `suspicious` sized by the number of rows, defined for every input: the result is strictly increasing and holds exactly the numbers that `Flagged` marks |
| SchemeImpl.HSS.TallyVotes | src/scheme_impl.rs:152-166 | `cells[p][b]` lists, in order, the numbers of the parts that carry bit p and state it as b |
| SchemeImpl.HSS.TallyPart | src/scheme_impl.rs:153-165 | one pass of the tally pushes the part's number on the side it states, for exactly the bits its row carries |
| SchemeImpl.VotersOfAppend | src/scheme_impl.rs:158-162 | tallying one more part appends its number to the side it votes for, if its row carries the bit |
| SchemeImpl.VotersAre | src/scheme_impl.rs:152-166 | x is a voter for b on bit p exactly when a supplied part numbered x carries bit p and states b |
| SchemeImpl.HSS.MarkSuspicious | src/scheme_impl.rs:168-176 | for a flag vector longer than every flagged number, the flag of x is set exactly when, on some disputed bit, x is on the side chosen by `(count0 > count1) as usize` |
| SchemeImpl.HSS.MarkGroup | src/scheme_impl.rs:172-174 | the flags afterwards are the flags before plus exactly the parts flagged because of that disputed bit |
| SchemeImpl.CollectFlagged | src/scheme_impl.rs:178-184 | the result is strictly increasing and holds exactly the marked positions |
| SchemeImpl.NoDissentWhenAuthentic | src/scheme_impl.rs:155-162 | on authentic parts nobody votes against the secret's bit |
| SchemeImpl.AuthenticNotFlagged | src/scheme_impl.rs:168-176 | authentic parts dispute no bit, so nobody is flagged |
| SchemeImpl.FlaggedIsMinority | src/scheme_impl.rs:170-175 | a flagged number belongs to a supplied part and sits on the side with no more voters than the other; on a tie that side is the zeros |
| SchemeImpl.TieFlagsZeros | src/scheme_impl.rs:170-175 | on a tied disputed bit every zero-voter is flagged, and a one-voter is not flagged for that bit |
| SchemeImpl.FlaggedIsRow | src/scheme_impl.rs:154-161 | only numbers of supplied parts enter `cells`, so every flagged number is a row of the matrix |
| SchemeImpl.NothingFlaggedIffConsistent | src/scheme_impl.rs:168-184 | nobody is flagged exactly when no bit is disputed |
| SchemeImpl.HSS.MtxLen | src/scheme_impl.rs:63-66 | as written: the number of entries, n·n for the engine's square matrix |
| SchemeImpl.HSS.Dimension | src/scheme_impl.rs:62-66 | the documented dimension: its square is `MtxLen()`, and it is the number of parts `share` makes |
| SchemeImpl.HSS.MtxLenOverstates | src/scheme_impl.rs:63-66 | for every matrix of order 2 or more, `mtx_len` exceeds the number of parts |
| Scheme.GetThreshold | src/lib.rs:27-30 | the threshold is the least count above half of d + 1, with d the incidence order: 2t > d + 1 and 2t <= d + 3 |
| Scheme.ThresholdOfOrder | src/lib.rs:28 | for d = 4t - 1 the threshold is 2t + 1 |
| Scheme.HadamardSSS.New | src/lib.rs:18-25 | for a Hadamard input, Ok with the incidence matrix of its normal form (order n - 1) and the threshold of that matrix; the normal form is Hadamard |
| Scheme.HadamardSSS.IsValid | src/lib.rs:32-34 | when every flagged number is below 32 (the engine's panic condition): true exactly when nobody is flagged, that is, when no bit is disputed |
| Scheme.HadamardSSS.Share | src/lib.rs:43-45 | the engine's `share`, unchanged |
| Scheme.HadamardSSS.Reconstruct | src/lib.rs:47-54 | Err "less than threshold parties" exactly when fewer parts than the threshold are given; otherwise the engine's `Recovered` |
| Scheme.HadamardSSS.Validate | src/lib.rs:56-58 | the engine's `validate`, unchanged, with its panic condition |
| Scheme.ThresholdRoundTrip | src/lib.rs:47-54 | shared parts from `threshold` distinct rows pass the gate, are authentic and unflagged, and reconstruct the secret, when each column is missed by fewer than `threshold` rows |
| SchemeExamples.H8IsSylvester | src/scheme_impl.rs:195-202 | the 8 x 8 test matrix is the doubling of H4 |
| SchemeExamples.H8Accepted | src/scheme_impl.rs:195-203 | the 8 x 8 test matrix is accepted by `from` |
| SchemeExamples.SchemeOfH8 | src/scheme_impl.rs:195-206 | normalizing leaves it unchanged, its incidence matrix is I7, and the threshold is 5 |
| SchemeExamples.IncidenceOfH8 | src/hadamard_matrix.rs:94-97 | the interior of the 8 x 8 test matrix, read as 0/1, is I7 |
| SchemeExamples.I7ZeroRows | src/lib.rs:28 | each column of I7 is missed by exactly four rows, fewer than the threshold 5 |
| SchemeExamples.AnyFiveRowsRecover | src/scheme_impl.rs:207-211 | for every secret and every random draw, shares from any five distinct rows reconstruct the secret and are not flagged |
| SchemeExamples.FirstFiveRecover | src/lib.rs:77-81 | `res[0..5]` reconstructs every secret and nobody is flagged, so "valid" and "secret recovered" agree |
| SchemeExamples.TamperedFacts | src/scheme_impl.rs:237 | after `^ 43`, part 0 states the opposite of the secret on bits 1 and 5, and parts 1 to 4 are unchanged |
| SchemeExamples.TamperedNotRecovered | src/scheme_impl.rs:237-239 | with part 0 altered, bit 5 comes back wrong: among the five parts only part 0 carries it |
| SchemeExamples.TamperedVoters | src/scheme_impl.rs:237-238 | on bit 1, part 0 votes alone against parts 3 and 4 |
| SchemeExamples.TamperedPartZero | src/scheme_impl.rs:235-241 | with part 0 altered, reconstruction is wrong and part 0 is flagged, so "valid" and "secret recovered" agree, both false |
| SchemeExamples.Row32Flagged | src/scheme_impl.rs:168-174 | on a 33 x 33 all-ones matrix, with part 0 stating 1 and part 32 stating 0 on every bit, part 32 is flagged, so `suspicious[32]` is written in a vector of 32 flags |
| SchemeExamples.MtxLenOfI7 | src/scheme_impl.rs:63-66 | on the test engine `mtx_len` is 49 while `share` makes 7 parts |

## Left out

- Randomness: `rand::thread_rng` and `gen_range` are replaced by the `noise` input. Secrecy below the threshold is a probabilistic claim, and it is not stated.
- `ndarray` internals (`dot`, `eye`, `t`, `slice`, `ones`) are replaced by `Product`, `ScaledIdentity`, `Transpose` and the comprehension in `Incidence`, on `seq<seq<int>>`.
- Hadamard.HadamardMatrix.CheckHadamard: does not model `i32` overflow in `dot` and `n as i32`. Entries are unbounded integers, so no product can wrap.
- Hadamard.HadamardMatrix.Normalize: requires the object to hold a Hadamard matrix. `from` is the only way to build one, so this always holds. The `&mut Self` it returns for chaining is not modelled.
- The `zeroize_memory` derives are left out: memory hygiene, no behaviour.
- The `println!` diagnostics are left out: output only.
- `src/scheme_traits.rs` only declares the `SharingScheme` interface. Its methods appear here as methods of `HSS` and `HadamardSSS`, and the trait itself is not modelled.
- `Part::from`, `number` and `data` are the constructor and fields of the `Part` datatype. `HSS::from` is the `HSS` constructor.
- The compile mismatches in `src/lib.rs` (`HSS::new`, `Part::new`, the `Vec<Part>` return type of `validate`) are not reproduced. The model follows the evident delegation.
- The loops of `share` write every bit position exactly once per row. The model proves only the final payload, which is the observable result.
- Scheme.ThresholdRoundTrip: requires that each column of the incidence matrix is missed by fewer than `threshold` rows. The general design-theory fact behind this requirement, for every Hadamard matrix, is not proved. It is proved for the 8 x 8 test matrix (`SchemeExamples.I7ZeroRows`).
- SchemeImpl.WellFormed: the engine's matrix is taken to be square. `HSS::from` accepts any `Array2`, and `share`, `reconstruct` and `validate` read only columns below n = `shape()[0]`, so an n x m matrix with m > n also works in the source. Every engine is built from the square incidence matrix of `HadamardSSS::new`, so only square matrices are modelled.
- Scheme.HadamardSSS.Reconstruct: like the source, the gate counts parts, not distinct rows. Repeated parts pass the gate without adding coverage.

## Findings

| source | as written | input that shows it | evidently intended | confidence | as-written member | corrected member |
|---|---|---|---|---|---|---|
| src/scheme_impl.rs:63-66 | `mtx_len` returns `self.mtx.len()`, the number of entries (n·n) | the 7 x 7 incidence matrix of the 8 x 8 test matrix: `mtx_len` is 49, but `share` makes 7 parts | the dimension n, the largest number of parts, as the doc comment says | high; not executed | SchemeImpl.HSS.MtxLen (with SchemeImpl.HSS.MtxLenOverstates, SchemeExamples.MtxLenOfI7) | SchemeImpl.HSS.Dimension (used in the contract of SchemeImpl.HSS.Share) |
| src/scheme_impl.rs:168-174 | `suspicious` has `secret_size` (32) entries but is indexed by part number, so any flagged part numbered 32 or more panics and can never be reported | an incidence matrix of order 33 or more, such as the 33 x 33 all-ones matrix, with part 0 stating 1 and part 32 stating 0 on every bit: every bit is a tie, part 32 is flagged, and `suspicious[32]` is out of bounds | one flag per row (n entries), so every flagged part is reported | medium; not executed | SchemeImpl.HSS.Validate (precondition: every flagged number below 32; SchemeExamples.Row32Flagged) | SchemeImpl.HSS.ValidateAllRows |
