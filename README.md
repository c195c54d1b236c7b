# Claims-table generation, modelled in Dafny

This project models `creation_base_sinistres.py`. The script turns an insurance
subscription table into a synthetic claims table in two steps.

- **Filter and explode (lines 13 and 17).** Keep the policy rows whose claim
  count `N_SINISTRE` is positive. Repeat each kept row `N_SINISTRE` times with
  `Index.repeat` and `.loc`. Reset the index to 0 .. n-1.
- **Simulate (lines 35-49).** Add a cost column `COUT_SINISTRE`. Add a claim
  date column `DATE_SINISTRE`, which is the policy start date plus a whole number
  of days drawn in `[0, end - start]`.

The model has these parts:

- `Table`: a policy row (`Row`) holds the count, the start and end dates as
  integer day numbers, and the other columns as an opaque map. A `Frame` is
  index labels beside rows. `Error` lists the library errors that can happen.
- `Expansion`: pure functions for the boolean mask (`SelectPositive`),
  numpy/pandas `Index.repeat` (`IndexRepeat`, which fails on a negative count),
  `.loc` with a list of labels (`Loc`, which raises a KeyError for a missing
  label and returns every entry when a label repeats), `reset_index` and the
  whole step (`Explode`). It also defines a plain reference definition,
  `Expanded`, and the sum of positive counts, `SumPositive`.
- `ExpansionProofs`: `Explode` never fails and equals `Expanded` under a fresh
  index. There are lemmas about the length, the membership and the block layout
  of `Expanded`.
- `Simulation`: the claims table is an `array<ClaimRow>`. Its two new columns
  start as `None`. Cost and date are written in place by loop methods.
  Assigning a column replaces a column of the same name that the input
  already had, so such a cell is removed from the row's other columns.
  `randint(0, span + 1)` is modelled element by element. It fails for the whole
  table when any row's end date is before its start date.
- `Pipeline`: the script from the row sequence to the simulated table.

The random generator is replaced by its values. `couts` holds the drawn costs.
`draws` holds the drawn day offsets, with the precondition that each offset is in
`[0, span]` whenever `span >= 0`. Dates are day numbers, already converted.

Two behaviours of the code are worth noting; the model follows the code:

- A negative `N_SINISTRE` is not an error. The mask at line 13 drops it silently
  before `repeat` sees it. The model proves that `IndexRepeat` would fail on a
  negative count, and that after the mask it never does.
- A policy with at least one claim whose end date is before its start date does not make the explosion
  fail. It makes the day draw of line 46 fail, in the simulation step. By then
  the cost column of line 35 has already been written (`SimulateClaims`,
  `Fail` case).

## Model

| member | source | states |
|---|---|---|
| `Table.Range` | creation_base_sinistres.py:17 | the RangeIndex that `read_csv` gives and `reset_index` rebuilds: n labels, label i at position i |
| `Expansion.SelectPositive` | creation_base_sinistres.py:13 | every kept row has a positive count; a (label, row) entry is kept if and only if it is in the input with a positive count; labels come from the input and stay strictly increasing |
| `Expansion.IndexRepeat` | creation_base_sinistres.py:17 | fails exactly when some count is negative; otherwise it returns sum-of-counts labels, and label i fills the counts[i] consecutive slots that start after the copies of labels 0..i-1 |
| `Expansion.Lookup` | creation_base_sinistres.py:17 | the entries found for a label all carry that label and form the same set of entries as the input's entries under it (how many and in what order is fixed by `LookupUnique` on the unique index the script has); nothing is found if and only if the label is missing from the index |
| `Expansion.Loc` | creation_base_sinistres.py:17 | succeeds if and only if every requested label is in the index; a failure is a KeyError naming a missing label; every returned row is an entry of the frame under its returned label; with a unique (strictly increasing) index the result has exactly the requested labels, in order, one row each, and row k is the entry under label k |
| `Expansion.LookupUnique` | creation_base_sinistres.py:17 | with a strictly increasing index, a label finds exactly its one row |
| `Expansion.LookupPresent` | creation_base_sinistres.py:17 | with a strictly increasing index, a label present in the index finds one entry |
| `Expansion.ResetIndex` | creation_base_sinistres.py:17 | `reset_index(drop=True)` keeps the rows unchanged and gives them the labels 0..n-1, a strictly increasing index |
| `Expansion.Explode` | creation_base_sinistres.py:13-17 | the whole filter-and-explode step; its value is stated by `ExplodeIsExpanded`: it never fails and is the reference explosion under the index 0..n-1 |
| `ExpansionProofs.ExpandedOfSelected` | creation_base_sinistres.py:13-17 | dropping the rows without claims does not change the exploded table |
| `ExpansionProofs.ExplodeIsExpanded` | creation_base_sinistres.py:13-17 | the mask plus repeat plus `.loc` plus `reset_index` never fails; the result is the reference explosion under the fresh index 0..n-1, with rows copied unchanged |
| `ExpansionProofs.ExpandedLength` | creation_base_sinistres.py:13-19 | the exploded table has as many rows as the sum of `N_SINISTRE` over rows with `N_SINISTRE > 0` |
| `ExpansionProofs.SumPositiveIsTotal` | creation_base_sinistres.py:19 | when no count is negative, that row count is the plain total of the `N_SINISTRE` column |
| `ExpansionProofs.ExpandedMembers` | creation_base_sinistres.py:13 | a row appears in the output if and only if it is a source row with a positive count; rows with count zero or below never appear |
| `ExpansionProofs.ExpandedEvery` | creation_base_sinistres.py:13-17 | a property holds of all output rows if and only if it holds of all source rows with a positive count |
| `ExpansionProofs.PrefixClaims` | creation_base_sinistres.py:17 | the block of row i starts where the blocks of rows 0..i-1 end, so blocks are consecutive and in source order |
| `ExpansionProofs.ExpandedLayout` | creation_base_sinistres.py:17 | copy j of source row i, for j below its count, sits at output position SumPositive(rows before i) + j and equals row i |
| `ExpansionProofs.PrefixMonotone` | creation_base_sinistres.py:17 | the claim total of a longer prefix of the table is at least that of a shorter one |
| `ExpansionProofs.ExpandedOriginUnique` | creation_base_sinistres.py:17 | an output position is copy j of row i for only one (i, j); with the layout lemmas, each kept row occupies exactly N_SINISTRE positions |
| `ExpansionProofs.ExpandedOrigin` | creation_base_sinistres.py:17 | every output row k is copy j of some source row i with a positive count, at position SumPositive(rows before i) + j |
| `Simulation.RandInt` | creation_base_sinistres.py:46 | succeeds if and only if the range [low, high) is non-empty, and then returns the drawn value, which lies in the range |
| `Simulation.DureeCouverture` | creation_base_sinistres.py:43 | the coverage length end - start in days; `JoursAleatoires` and `EndBeforeStartFails` state that a negative length makes the draw fail, and `ClaimDateInCoverage` that an offset within it keeps the date in the window |
| `Simulation.JoursAleatoires` | creation_base_sinistres.py:43-46 | fails (empty draw range) if and only if some row ends before it starts; otherwise it returns the drawn offsets, each in [0, end - start] of its row |
| `Simulation.Without` | creation_base_sinistres.py:35-49 | assigning a column removes any cell of that name among the other columns and keeps the count, both dates and every other cell with its value |
| `Simulation.WithCouts` | creation_base_sinistres.py:35-38 | the table after line 35; `SetCoutSinistre`'s ensures says the loop produces it, and `SimulationKeepsPolicies` what it keeps |
| `Simulation.WithDates` | creation_base_sinistres.py:49 | the table after line 49; `SetDateSinistre`'s ensures says the loop produces it, and `ClaimDateInCoverage` that each date lies in its coverage window |
| `Simulation.SetCoutSinistre` | creation_base_sinistres.py:35-38 | the array afterwards is the old table with cost i set on row i, and any COUT_SINISTRE cell among its other columns removed (the assignment replaces it) |
| `Simulation.SetDateSinistre` | creation_base_sinistres.py:49 | the array afterwards is the old table with claim date start + offset i set on row i, and any DATE_SINISTRE cell among its other columns removed |
| `Simulation.SimulateClaims` | creation_base_sinistres.py:35-49 | succeeds if and only if no row ends before it starts; on success both columns are added; on failure only the cost column has been added |
| `SimulationProofs.SimulationKeepsPolicies` | creation_base_sinistres.py:35-49 | adding the two columns keeps the row count and, in every row, the count, both dates and every other column; an existing COUT_SINISTRE or DATE_SINISTRE column is replaced, not kept beside the new value |
| `SimulationProofs.ClaimDateInCoverage` | creation_base_sinistres.py:43-49 | with offsets in [0, end - start], every claim date is present and lies in [start, end] inclusive |
| `SimulationProofs.ZeroSpanForcesStartDate` | creation_base_sinistres.py:43-49 | when start equals end, the only draw is 0 and the claim date is the start date |
| `SimulationProofs.EndBeforeStartFails` | creation_base_sinistres.py:43-46 | when end is before start, the draw over [0, span + 1) fails instead of returning a value |
| `Pipeline.ExplodeStep` | creation_base_sinistres.py:13-19 | the explosion run on the input yields the reference rows, as many as the sum of positive counts that line 19 prints |
| `Pipeline.SimulateTable` | creation_base_sinistres.py:35-49 | on an exploded table: success if and only if all windows are valid; row k is then policy k (minus any old COUT_SINISTRE or DATE_SINISTRE cell) with cost k and date start + offset k, inside its window |
| `Pipeline.RowsAfterSimulation` | creation_base_sinistres.py:35-49 | row k of the simulated table is policy row k with the two assigned names replaced, cost k and claim date start + offset k, and that date is in the window |
| `Pipeline.CreationBaseSinistres` | creation_base_sinistres.py:13-49 | the script succeeds if and only if every source row with a positive count has start <= end; it then yields SumPositive rows, row k being exploded row k, with any old COUT_SINISTRE or DATE_SINISTRE cell replaced, plus its cost and a claim date inside the coverage window |

## Left out

- CSV loading (line 7) and the commented-out save (line 57): file I/O. The input is a sequence of rows with the default RangeIndex that `read_csv` gives.
- Date parsing with `pd.to_datetime` (lines 24-25): dates are taken as integer day numbers. Times of day, and the flooring of `.dt.days` that they would cause, are not modelled.
- The log-normal cost draw and the rounding to 2 decimals (lines 31-38): floating-point random sampling. The costs are an input sequence of reals, copied into the column.
- SetCoutSinistre: does not model `round(2)` or the positivity of log-normal draws; costs are taken as given.
- The random generator (lines 35 and 46): replaced by the sequences `couts` and `draws`. Offsets are required to lie in `[0, span]` for each row whose span is non-negative.
- The console output (lines 19 and 53-54): printing only. The row count that line 19 prints is the subject of `ExpandedLength` and `SumPositiveIsTotal`.
- Missing or non-integer `N_SINISTRE` values (a float column in pandas): counts are integers here.
- Column names that clash with the three modelled columns: the other-columns map is not constrained to avoid `N_SINISTRE`, `date_debut_police` or `date_fin_police`. `read_csv` renames duplicate headers, so such a row does not come from a CSV file.
- 64-bit limits of numpy and pandas dates: integers are unbounded.
- `.copy()` at line 13 has no observable effect in a value model.
