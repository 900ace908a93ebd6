# thermo-online: a Dafny model of the simulation bindings and the animation page

thermo-online runs a binary-alloy lattice simulation in the browser through
WebAssembly. This project models its core in Dafny:

- `src/lib.rs`. The `ModelResults` log of one simulation has six per-temperature
  series (temperature, internal energy, heat capacity, acceptance rate, entropy,
  free energy) and two series of cluster distributions. The module also covers
  the entropy integration and the free-energy derivation, the CSV export, and
  the `remove_last_comma` helper of the JSON export. The `makemodel!` macro
  generates five lattice models (16 to 256 sites on a side). For them it covers
  the constructor with its update-rule selection, `run_at_temp` with its
  equilibration and measurement loops and its sampling rule for animation
  frames and cluster counts, the data analysis, the zip buffer's lifecycle,
  `make_energies` and `get_color`.
- `www/index.js`. It covers the flat `[frame][row][col]` buffer index, the
  canvas sizing, the per-repaint frame counter and the nested drawing loops
  of `drawGrid`.

The `phases` crate does the physics and is not modelled. It appears as a
`Physics` value of functions: whether the n-th update is accepted, the energy
after n updates, and the mean and variance that `StreamingStats` reports. The
lattice state is represented by the number of updates applied, so every frame
and every cluster count is identified by the state it was taken from.

An `f32` value is a `Float32.F32`: a real number, an infinity or NaN. The
arithmetic is exact, so rounding and overflow are not modelled. Division by
zero gives an infinity or NaN, as in IEEE 754. That is what decides the
`is_finite` branch of `calc_entropy`. `u32` products wrap modulo 2^32, as in the
release WebAssembly build.

Two ways a call can panic are modelled:

- Read-only operations (`make_csv_buffer`, `get_zip_len`/`get_zip_ptr`,
  `get_color`) return `None` where the source panics.
- Operations that change state `requires` the condition under which the source
  does not panic. Each such precondition is listed under "Left out".

Two behaviours of the code are stated as they are written:

- `calc_entropy` discards the old entropy series, but `calc_free_energy`
  appends to the free-energy series. A second analysis therefore doubles its
  length (an `ensures` of `Models.Model.DoDataAnalysis` states this).
- The first frame that `renderLoop` draws is frame `1 % animationLen`: frame 1
  unless the animation has a single frame. The counter is advanced before the
  frame is drawn.

The measurement loop tests `k % (tot_steps / budget) == 0` on every step. In
the model the stride is computed once before the loop, because it does not
change. The test is written as `Sampling.Multiple(k, stride)`, which
`Sampling.MultipleIff` proves equal to `k % stride == 0`. A budget of b frames
(or distributions) therefore gives at least b and at most 2b - 1 samples per
run, not exactly b (`Sampling.BudgetBounds`): with tot_steps 10 and frames 3
the frames are taken at k = 0, 3, 6 and 9.

## Model

| member | source | states |
|---|---|---|
| `Float32.FromNat` | src/lib.rs:332 | an integer converted to f32 is the finite value of that integer |
| `Float32.Neg` | src/lib.rs:339 | negation keeps finiteness and negates the value |
| `Float32.Add` | src/lib.rs:112-118 | the sum is finite exactly when both operands are, and is then the real sum |
| `Float32.Sub` | src/lib.rs:128 | the difference is finite exactly when both operands are, and is then the real difference |
| `Float32.Mul` | src/lib.rs:118 | the product is finite exactly when both operands are, and is then the real product |
| `Float32.Div` | src/lib.rs:112-114 | the quotient is finite exactly when the dividend is finite and the divisor is infinite or nonzero; it is then the real quotient, or zero for an infinite divisor |
| `Float32.Half` | src/lib.rs:112-114 | halving keeps finiteness and halves the value |
| `Sampling.Stride` | src/lib.rs:316 | where the rule is defined, the divisor `tot_steps / budget` is at least 1, and `budget` strides fit in the loop but `budget` strides of one more step do not |
| `Sampling.MultipleIff` | src/lib.rs:316-322 | the subtraction test `Multiple(k, d)` holds exactly when k % d == 0 |
| `Sampling.RuleDefinedIff` | src/lib.rs:316 | for a nonempty loop, the sampling division is by zero exactly when the budget is 0 or larger than the number of steps |
| `Sampling.SampleStepsMembers` | src/lib.rs:313-326 | step k is sampled if and only if k < tot_steps and k is a multiple of the stride |
| `Sampling.SampleStepsIncreasing` | src/lib.rs:313-326 | samples are taken in strictly increasing step order |
| `Sampling.SampleCount` | src/lib.rs:313-326 | there are exactly ceil(tot_steps / stride) samples |
| `Sampling.BudgetBounds` | src/lib.rs:316-322 | a budget of b frames or distributions yields at least b and fewer than 2b samples |
| `Csv.CsvLines` | src/lib.rs:140-175 | with separator-free fields, the buffer's lines are the five header lines, one line per row and an empty remainder |
| `Csv.RowFields` | src/lib.rs:163-172 | a data line splits at its commas into exactly its fields followed by an empty piece (the trailing comma) |
| `Csv.CsvTextSnoc` | src/lib.rs:162-173 | writing one more row extends the buffer by that row's line and its newline |
| `Results.EntropyPrefix` | src/lib.rs:106-123 | the first n entries of the entropy series; it has exactly n entries |
| `Results.EntropyPrefixSnoc` | src/lib.rs:111-121 | the prefix of n + 1 entries is the prefix of n entries plus one step from its last entry |
| `Results.EntropyPrefixDrop` | src/lib.rs:111-121 | dropping the last entry of a prefix gives the prefix one shorter |
| `Results.EntropyPrefixPrefix` | src/lib.rs:111-121 | every shorter prefix is an initial segment of a longer one, so later iterations never change earlier entries |
| `Results.EntropyShape` | src/lib.rs:106-123 | the entropy series has max(1, len(heat_capacity)) entries, starts at the ideal entropy, and each later entry is one integration step (or a carry) from its predecessor |
| `Results.EntropyAtZeroTemperature` | src/lib.rs:112-121 | at a step whose temperature is 0 the average is not finite, so the entropy is carried over unchanged |
| `Results.StepAtZero` | src/lib.rs:112-116 | a zero temperature makes the average non-finite, and the step returns the last entropy |
| `Results.StepFormula` | src/lib.rs:112-118 | with finite values and nonzero temperatures, one step is last + (T - T') * (C/T + C'/T') / 2, and finite |
| `Results.HalfIsDiv` | src/lib.rs:112-114 | halving is the same as dividing by the f32 value 2.0 |
| `Results.EntropyIntegrates` | src/lib.rs:112-118 | with finite nonzero temperatures and finite heat capacities, S[i] = S[i-1] + (T[i] - T[i-1]) * (C[i]/T[i] + C[i-1]/T[i-1]) / 2 |
| `Results.FreeEnergies` | src/lib.rs:125-130 | one free energy per internal-energy entry |
| `Results.FreeEnergyInverse` | src/lib.rs:128 | for finite values, F + T * S gives back the internal energy U |
| `Results.CsvTable` | src/lib.rs:162-172 | one row per logged entry, and each row holds one formatted field per column |
| `Results.CsvTableSnoc` | src/lib.rs:162-172 | the table for n + 1 entries is the one for n entries plus the row of entry n |
| `Results.CsvLayout` | src/lib.rs:140-175 | the CSV text has 5 + n + 1 lines: the header, n data lines of six comma-terminated fields, and the empty rest |
| `Results.RemoveLastComma` | src/lib.rs:178-182 | drops the last two bytes (a trailing ",\n" becomes "\n") and ends with a newline; a buffer shorter than two bytes becomes "\n" |
| `Results.ModelResults.constructor` | src/lib.rs:53-67 | every series starts empty, whatever the capacity, and the series are aligned |
| `Results.ModelResults.PushTemp` | src/lib.rs:69-71 | appends one temperature and changes nothing else |
| `Results.ModelResults.PushIntEnergy` | src/lib.rs:72-74 | appends one internal energy and changes nothing else |
| `Results.ModelResults.PushHeatCapacity` | src/lib.rs:75-77 | appends one heat capacity and changes nothing else |
| `Results.ModelResults.PushAcceptanceRate` | src/lib.rs:78-80 | appends one acceptance rate and changes nothing else |
| `Results.ModelResults.PushDistr0` | src/lib.rs:81-83 | appends one species-0 distribution and changes nothing else |
| `Results.ModelResults.PushDistr1` | src/lib.rs:84-86 | appends one species-1 distribution and changes nothing else |
| `Results.ModelResults.Len` | src/lib.rs:134-136 | the length of the temperature series as a u32 (below 2^32, and exact when it fits) |
| `Results.ModelResults.CalcEntropy` | src/lib.rs:106-123 | whatever the entropy series held, afterwards it is the integrated entropy series |
| `Results.ModelResults.AppendEntropy` | src/lib.rs:111-121 | one loop iteration extends the entropy prefix by exactly one entry |
| `Results.ModelResults.NextEntropy` | src/lib.rs:112-121 | the pushed value is the integration step from the last entry when the average is finite, and the last entry otherwise |
| `Results.ModelResults.CalcFreeEnergy` | src/lib.rs:125-130 | appends F = U - T*S for each internal energy to the existing free-energy series |
| `Results.ModelResults.DoDataAnalysis` | src/lib.rs:89-104 | the entropy series is rebuilt to max(1, n) entries, and exactly n free energies are appended |
| `Results.ModelResults.Columns` | src/lib.rs:166-171 | the six columns of a CSV line |
| `Results.ModelResults.MakeCsvBuffer` | src/lib.rs:140-175 | produces the CSV text of all data lines if and only if every column reached for has an entry per internal energy; otherwise None, where the source panics |
| `Models.Side` | src/lib.rs:520-524 | the side of each generated model is 2 to its exponent, between 16 and 256 |
| `Models.SelectMethod` | src/lib.rs:266-276 | "monte_carlo_swap" selects the swap rule; any other name selects move_vacancy; the host is alerted exactly for names that are neither |
| `Models.SelectMethodName` | src/lib.rs:266-268 | each rule's own name selects that rule without an alert |
| `Models.MakeEnergies` | src/lib.rs:33-36 | four energies: j00, j01 twice, and j11 |
| `Models.MakeEnergiesSymmetric` | src/lib.rs:33-36 | the tables it makes are exactly the symmetric 2x2 tables |
| `Models.Wrap32` | src/lib.rs:304 | a u32 result is below 2^32 and equals the true value when that fits |
| `Models.AcceptedCount` | src/lib.rs:309-314 | the count of accepted updates never exceeds the number of updates |
| `Models.EnergySamples` | src/lib.rs:315 | one energy value is added to the statistics per measurement update |
| `Models.FramesAt` | src/lib.rs:316-321 | one GIF frame per sampled step |
| `Models.CountsAt` | src/lib.rs:322-325 | one cluster count per sampled step |
| `Models.StrideFor` | src/lib.rs:316-322 | the stride is at least 1, and it is tot_steps / budget whenever the loop runs |
| `Models.FramesTakenSampled` | src/lib.rs:313-321 | the frames the loop takes are exactly one frame after each sampled step, in step order |
| `Models.CountsTakenSampled` | src/lib.rs:313-325 | the cluster counts the loop takes are exactly one count after each sampled step, in step order |
| `Models.AcceptanceRateBounds` | src/lib.rs:331-332 | the acceptance rate is in [0, 1] when there were measurement updates, and NaN when there were none |
| `Models.Model.constructor` | src/lib.rs:257-293 | normalises the concentrations to c/(c0+c1), selects the rule by name, keeps the first four energies, and starts with an empty, aligned log and no zip data |
| `Models.Model.Width` | src/lib.rs:501-503 | the lattice side, equal to the height |
| `Models.Model.Height` | src/lib.rs:505-507 | the lattice side |
| `Models.Model.RunAtTemp` | src/lib.rs:295-335 | applies the equilibration updates and then the measurement updates; pushes each of the six series exactly once, with the averaged energy, heat capacity and acceptance rate of the measured updates; appends exactly the frames and cluster counts of the sampled steps; entropy, free energy and zip data are unchanged |
| `Models.Model.Equilibrate` | src/lib.rs:304-306 | the equilibration loop applies exactly eq updates |
| `Models.Model.PushStatistics` | src/lib.rs:327-334 | pushes the mean energy per site, the variance over T^2 per site, accepted / tot_steps and both distributions, one entry each |
| `Models.Model.Measure` | src/lib.rs:308-326 | the measurement loop applies tot_steps updates, counts the accepted ones, sees every energy, and takes frames and both species' cluster counts at exactly the steps of the sampling rule |
| `Models.Model.DoDataAnalysis` | src/lib.rs:337-340 | seeds the entropy with the ideal mixing entropy -(c0 ln c0 + c1 ln c1); afterwards there are max(1, completed) entropies and one more free energy per completed run |
| `Models.Model.LogLen` | src/lib.rs:345-347 | the number of completed runs, when it fits in a u32 |
| `Models.Model.MakeZip` | src/lib.rs:403-450 | the zip data becomes the archive of the CSV text of the whole log |
| `Models.Model.ZipLen` | src/lib.rs:490-492 | defined exactly while zip data exists, and then its length; None where the source panics |
| `Models.Model.ZipBytes` | src/lib.rs:483-488 | defined exactly while zip data exists, and then exactly the current archive bytes, as many as ZipLen reports |
| `Models.Model.DestroyZipData` | src/lib.rs:494-496 | afterwards there is no zip data |
| `Palette.Decimal` | src/lib.rs:18-23 | the decimal formatting is a nonempty string of digits with no leading zero |
| `Palette.DecimalRoundTrip` | src/lib.rs:18-23 | reading the formatted digits back gives the number |
| `Palette.ColorIndices` | src/lib.rs:20-22 | colour num reads the three consecutive bytes starting at 3 * num |
| `Palette.ColorIndicesWrap` | src/lib.rs:21-22 | the as-written indices equal the intended ones if and only if num < 85; for 85 they are (255, 0, 1) instead of (255, 256, 257) |
| `Palette.ColorIndicesDisjoint` | src/lib.rs:20-22 | distinct colours read disjoint byte triples |
| `Palette.GetColorAsWritten` | src/lib.rs:16-24 | as written, defined exactly when the three wrapped indices are inside the palette |
| `Palette.GetColorAsWrittenWrong` | src/lib.rs:21-22 | with a 258-byte palette, the as-written colour 85 differs from the intended one |
| `Palette.GetColor` | src/lib.rs:16-24 | defined exactly when the colour's three bytes are inside the palette, and then the CSS rgb string of those bytes; None where the source panics |
| `Render.IndexInBounds` | www/index.js:31-37 | an in-range (frame, row, column) indexes inside the width*height*animationLen buffer |
| `Render.DecodeGetIndex` | www/index.js:31-33 | decoding getIndex of an in-range cell gives the cell back |
| `Render.GetIndexInjective` | www/index.js:31-33 | distinct in-range cells occupy distinct buffer positions |
| `Render.GetIndexSurjective` | www/index.js:31-37 | every position of the buffer is getIndex of exactly the in-range cell it decodes to |
| `Render.ColourOf` | www/index.js:43 | a cell is orange if and only if it holds 0, otherwise red |
| `Render.ColourNameOf` | www/index.js:43 | the fill style is "orange" for a cell holding 0 and "red" otherwise |
| `Render.GridCommandsAt` | www/index.js:40-52 | cell (row, col) is square number row*width+col of the frame's drawing |
| `Render.GridVisitsOnce` | www/index.js:40-50 | no two squares of a frame are drawn at the same position |
| `Render.GridInsideCanvas` | www/index.js:16-17 | every drawn square lies inside the CELL_SIZE*width by CELL_SIZE*height canvas |
| `Render.GridRow` | www/index.js:41-51 | squares row*width to row*width+width-1 of the drawing are that row's cells, left to right |
| `Render.DrawRow` | www/index.js:41-51 | the inner loop draws the row's cells left to right |
| `Render.DrawGrid` | www/index.js:35-54 | the nested loops draw every cell of the frame once, row by row, coloured by its species |
| `Render.AllFramesShown` | www/index.js:23-29 | from any tick, every frame is drawn within the next animationLen ticks |
| `Render.NextFrame` | www/index.js:25 | advancing the counter keeps it equal to the tick count modulo the animation length |
| `Render.RenderLoop.constructor` | www/index.js:16-23 | the canvas is CELL_SIZE times the grid in each dimension, and the counter starts at 0 |
| `Render.RenderLoop.Tick` | www/index.js:24-29 | one repaint advances the counter modulo the animation length and then draws that frame's grid |

## Left out

- `phases` crate (System, update rules, energies, `StreamingStats`, `count_clusters`, `combine`, `disentangle`, `ClusterStats`): foreign code, given as the `Physics` parameter; a cluster distribution is the sequence of counts combined into it.
- `do_data_analysis`'s cluster statistics (`cluster_stats_0`/`cluster_stats_1`, src/lib.rs:92-103): computed by the foreign `disentangle`.
- `make_json_buffer` (src/lib.rs:177-239): its layout, and the way it prints counts divided by `distrs_per_temp`, are not modelled; only its `remove_last_comma` helper is.
- `make_model_params` (src/lib.rs:452-481) and the GIF entry of the archive: these are text formatting and a foreign encoder.
- `Models.Model.MakeZip`: the foreign zip writer is the parameter `pack`, applied to the CSV text alone. The other three archive entries are not modelled.
- `Models.Model.MakeZip`: requires `CsvDefined` (entropy and free energy have an entry for every internal energy). Without it, `make_csv_buffer` indexes past a series and the source panics. The `.expect` failures of the zip writer are not modelled.
- `Models.Model.RunAtTemp`: requires that the sampling rule is defined for both budgets. If `frames` or `distrs_per_temp` is 0 or larger than `tot_steps` (with `tot_steps > 0`), the source panics with a division by zero.
- `Models.Model.constructor`: requires at least four energies. With fewer the source panics at src/lib.rs:283. The GIF encoder, the palette edit at src/lib.rs:277-282 and the `Concentration` passed to the foreign system are not modelled.
- `Results.ModelResults.CalcEntropy`, `Results.ModelResults.CalcFreeEnergy` and `Results.ModelResults.DoDataAnalysis`: require the index bounds under which the loops do not panic. Every `Models.Model` keeps these bounds through its `Valid` invariant.
- `Models.Model.DoDataAnalysis`: `ln` is a parameter, because the model of f32 has no logarithm.
- f32 rounding, overflow to infinity, signed zero and the sign of infinities from a zero divisor: the arithmetic is exact. A zero divisor counts as +0.
- `Models.Wrap32`: models release-build wrap-around only. Debug builds panic on u32 overflow instead.
- The `*_ptr` accessors (src/lib.rs:349-398), `gif_len` and `gif_ptr` (src/lib.rs:509-515): raw pointers into wasm memory. `get_zip_ptr` is modelled by the bytes it points to.
- `alert`: a host call, modelled as the `alerted` flag of the method selection.
- The `console!` macro: logging only.
- Browser APIs (`getContext`, `beginPath`, `stroke`, `requestAnimationFrame`, `memory.buffer`): a repaint is one `Tick` call, the canvas is a list of filled squares, and the animation buffer is a parameter.
- www/index.js calls `take_steps`, `anim_len` and `anim_ptr`, which src/lib.rs does not define. It also calls `new` with four arguments where src/lib.rs takes seven. The page's width, height and animation length are therefore positive parameters.
- bootstrap.js is not part of this model.
- `PALETTE` (from the `phases` crate) is a parameter of `Palette.GetColor`.

## Findings

| source | as written | input that shows it | evidently intended | confidence | as-written member | corrected member |
|---|---|---|---|---|---|---|
| src/lib.rs:21-22 | `(3 * num + 1) as usize` and `(3 * num + 2) as usize` are computed in u8 before the cast, so they wrap modulo 256 in a release build (or panic in a debug build) | `num = 85` with a palette of at least 258 bytes: bytes 0 and 1 are read instead of 256 and 257 | cast first, as on line 20, so the indices are 3*num+1 and 3*num+2 | low; not executed (only visible if `PALETTE` holds more than 85 colours) | `Palette.GetColorAsWrittenWrong` | `Palette.GetColor` |
