# Backward induction for patch choice (ecopatch)

This project models the backward-induction engine of ecopatch, a
dynamic-programming model of a forager choosing between food patches
(Mangel & Clark, *Dynamic Modeling in Behavioral Ecology*, chapter 2).

- The forager's energy reserve is a state `x` in `0 .. x_max`.
- States at or below `x_crit` are dead.
- A patch has four parameters:
  - a foraging cost `a`;
  - a predation probability `b`;
  - a probability `l` of finding food;
  - a gain `y` when food is found.
- Working backward from the last timestep, the engine computes for each
  living state:
  - the best survival probability `F0[x]`, given next-step fitness `F1`;
  - the patch `D[x]` that achieves it.
- It then copies `F0` into `F1` and records each timestep's values in a
  decision table.

Two variants of the engine exist, and both are modelled:

- `backward.py`:
  - patch indices in `D` are 0-based;
  - the timestep loop is `for t in reversed(range(n))`;
  - the decision table ("landscape") holds `n * x_max` records.
- `patch.py`, an earlier draft:
  - patch indices in `D` are 1-based;
  - `t` counts down from `n` inside `process_timestep`;
  - the scenario is hard-coded;
  - patch records are built by `new_patch`.

The project has three modules:

- `Foraging`, in `Foraging.dfy`, is shared by both variants. It holds:
  - `chop`, `compute_v` and `init_f`, which are identical in the two
    source files;
  - the specification of one timestep, as the functions `Decide`, `Update`
    and `Run`, parameterised by the numbering offset of `D` (0 or 1);
  - the lemmas about it.
- `Backward`, in `Backward.dfy`, holds:
  - `get_patches`;
  - `max_v`, as nested loops updating the arrays in place;
  - `log_vals`;
  - the `simulation` loop, which also writes the decision table.
- `Draft`, in `Draft.dfy`, holds `new_patch`, `process_timestep` and
  `run_simulation`.

The imperative members are proved against these functions:

- `MaxV` and `ProcessTimestep` produce exactly `Decide` and `Update` of the
  old arrays.
- `Simulation` leaves in every record of the decision table the values of
  `Run` at that timestep.
- `RunSimulation` returns `Run(20, ...)`.

The lemmas about `Run` then establish the properties the source relies on:
fitness stays a probability, `F1` equals `F0` after each step, dead states
stay at 0, and `D` names a patch.

## Model

| member | source | states |
|---|---|---|
| Foraging.Chop | backward.py:123-136 | below x_crit the result is 0; above x_max it is x_max; otherwise it is x itself. It is always an index in 0..x_max, and either 0 or at least x_crit. patch.py:112-125 is the same function |
| Foraging.ChopMonotone | backward.py:123-136 | chop never maps a larger reserve to a smaller state |
| Foraging.SurvivalIsProbability | backward.py:118-119 | the survival formula (1-B)(L·fed + (1-L)·unfed) maps probabilities to a probability |
| Foraging.SurvivalMonotone | backward.py:118-119 | the formula is monotone in both continuation fitnesses |
| Foraging.Survival | backward.py:118-119 | the survival formula: certain predation (B = 1) gives 0, and when both outcomes lead to the same fitness, the result is (1-B) times that fitness whatever L is. Its bound and monotonicity are SurvivalIsProbability and SurvivalMonotone |
| Foraging.ComputeV | backward.py:105-120 | when B, L and every F1 entry lie in [0,1], the value of a patch lies in [0,1]. patch.py:94-109 is the same formula |
| Foraging.ComputeVMonotone | backward.py:105-120 | "greater energy reserves result in increased fitness": with F1 non-decreasing, a patch's value does not decrease in x |
| Foraging.Scan | backward.py:85-100 | the running maximum from vm = 0 with a strict `>`: a patch it takes is one of those scanned, carries its own value, and that value is above 0. The full first-maximum property is ScanFindsFirstMaximum |
| Foraging.ScanFindsFirstMaximum | backward.py:85-100 | the running maximum from vm = 0 with a strict `>` keeps the old entries exactly when no value exceeds 0. Otherwise it takes the largest value, which is positive, at the lowest index reaching it |
| Foraging.GainMonotone | backward.py:85-97 | the running maximum is at least 0, and it is monotone in the values compared |
| Foraging.InitialValues | backward.py:64-77 | terminal condition: F0 and D are 0, and F1[x] is 1 exactly when x_crit < x (0 otherwise) |
| Foraging.Initial | backward.py:64-77 | init_f as values: three arrays of length x_max+1. Their contents are stated by InitialValues and InitialMonotone |
| Foraging.InitF | backward.py:64-77 | init_f returns three fresh arrays of length x_max+1 holding that terminal condition. patch.py:76-91 is the same loop |
| Foraging.DecideChoosesFirstMaximum | backward.py:80-102 | after the patch loop, a dead state, or a state where no patch scores above 0, keeps its F0 and D. Otherwise F0[x] is the maximum value, which is positive, and D[x] minus the offset is the lowest patch index reaching it |
| Foraging.Decide | backward.py:80-102 | max_v as a function of the old arrays: F1 is only read, and F0 and D are unchanged at the dead states 0..x_crit. What it does at each living state is DecideChoosesFirstMaximum |
| Foraging.Update | backward.py:42-52 | one whole timestep, max_v followed by the copy loop: afterwards F1 equals F0. patch.py:43-73 is the same with offset 1 |
| Foraging.Run | backward.py:41-55 | the arrays after n timesteps: each has length x_max+1, and after at least one timestep F1 equals F0 |
| Foraging.RunInvariants | backward.py:41-52 | after every timestep F1 equals F0, and states 0..x_crit hold fitness 0 and decision 0 in all arrays throughout |
| Foraging.RunIsProbability | backward.py:41-52 | if every patch's B and L are probabilities, every F0 and F1 entry is a probability at every timestep |
| Foraging.RunChoiceInRange | backward.py:95-100 | every D entry is the initial 0 or a patch number: position plus offset, below offset + number of patches |
| Foraging.InitialMonotone | backward.py:72-75 | the terminal fitness is non-decreasing in the state and 0 on dead states |
| Foraging.IntendedStepMonotone | backward.py:84-100 | with F0[x] := vm after the loop, a higher state gets at least the fitness of a lower one in one timestep |
| Foraging.IntendedUpdateMonotone | backward.py:84-100 | one intended timestep keeps F0 and F1 non-decreasing and the dead states at 0 |
| Foraging.IntendedUpdate | backward.py:84-100 | the corrected timestep: F0[x] is the running maximum vm, so 0 when no patch scores above 0. F1 equals F0 afterwards, and the dead states keep their fitness |
| Foraging.IntendedRun | backward.py:41-55 | n corrected timesteps from the terminal condition: after at least one, F1 equals F0 |
| Foraging.IntendedRunMonotone | backward.py:84-100 | the intended run is non-decreasing in the state at every timestep, as the doc comment at backward.py:108 promises |
| Foraging.ExamplePick | backward.py:86-100 | the choice made for the one-patch scenario of the finding below |
| Foraging.StaleFitnessExample | backward.py:95-97 | the as-written run of that scenario gives F0 = [0, 0, 0.5, 0.25], which is not non-decreasing; the intended run gives [0, 0, 0, 0.25] |
| Backward.GetPatches | backward.py:139-151 | zip truncation: there are as many patches as the shortest list has entries, and patch i holds the i-th entry of each list |
| Backward.PatchLoop | backward.py:85-100 | the inner loop of max_v for state x changes only F0[x] and D[x], and leaves there the choice ScanFindsFirstMaximum describes |
| Backward.MaxV | backward.py:80-102 | max_v turns the arrays into Decide(old arrays) with offset 0. F1 and the entries at or below x_crit are unchanged |
| Backward.BlocksIsProduct | backward.py:159 | the start of timestep t's block is t * x_max |
| Backward.BlocksMonotone | backward.py:157-159 | a later timestep's block starts after an earlier one ends |
| Backward.RowIndex | backward.py:157-159 | record t*x_max + x lies in timestep t's block, and the block lies inside the n*x_max table |
| Backward.BlocksDisjoint | backward.py:157-165 | different timesteps write disjoint records |
| Backward.RowIndexDecodes | backward.py:159 | the position t*x_max + x gives back t by division and x by remainder |
| Backward.RowIndexCovers | backward.py:38 | every position of the n*x_max table is the position of exactly one (t, x) pair |
| Backward.LogVals | backward.py:154-167 | log_vals writes record t*x_max + x as (t, x+1, F0[x+1], F1[x+1], D[x+1]) for x < x_max, and leaves every other record unchanged |
| Backward.CopyFitness | backward.py:51-52 | step 4: after the copy loop F1 equals F0 |
| Backward.Simulation | backward.py:38-61 | the table has n*x_max records. t runs from n-1 down to 0, and each timestep is processed once whatever `t -= 1` does. On return the record of every (t, state x+1) holds F0 and D after n-t timesteps and F1 after n-t-1 timesteps |
| Backward.TableFitnessNext | backward.py:50-52 | a record's F1 is the F0 of the record for the same state one timestep later. At the last timestep it is the terminal condition |
| Backward.TableDeadStates | backward.py:84 | records of dead states hold fitness 0 and patch 0 |
| Backward.TableRow | backward.py:157-165 | the record log_vals writes for timestep t and state x+1. It is keyed by t and x+1; its values are Run after n-t timesteps (F0, D) and after n-t-1 timesteps (F1) |
| Backward.TableRowInRange | backward.py:154-167 | every fitness in the table is a probability, and every patch entry is 0 or a 0-based patch index |
| Draft.NewPatch | patch.py:128-138 | the record's five fields equal the five arguments |
| Draft.Registry | patch.py:17-27 | the three patches run_simulation builds; every predation and food probability among them lies in [0,1] |
| Draft.PatchLoop | patch.py:47-61 | the draft's inner loop changes only F0[x] and D[x]. D[x] becomes the winning patch's position plus 1 |
| Draft.ProcessTimestep | patch.py:43-73 | process_timestep turns the arrays into Update(old arrays) with offset 1, so F1 equals F0 on return. It returns t-1 |
| Draft.RunSimulation | patch.py:1-40 | the fixed scenario runs process_timestep exactly 20 times and returns the arrays of Run(20) with offset 1. F1 equals F0, every fitness is a probability, and states 0..3 hold 0 |

## Left out

- Console output is not modelled. That covers `print_vals`, `print_landscape` and every `print` call.
- File I/O is not modelled: `numpy.save` (backward.py:58-59) and the `display`/`log` flags of `simulation`.
- Configuration parsing is not modelled: `get_conf` and `flist`.
- Backward.Simulation takes its patches already built. `get_patches` is modelled separately as Backward.GetPatches.
- main.py is not part of this model. It is a dashboard with no algorithmic content.
- forward.py is not part of this model. It is an unfinished stochastic replay.
- Floating point is not modelled: probabilities and fitness are exact reals, so IEEE rounding in `compute_v` is not captured.
- Cost and state increment are integers. `backward.py` reads them as floats through `flist`, but `chop`'s result is used as an array index. `patch.py` uses integers.
- `D` and the record's `state` and `patch` fields are integers. numpy stores `D` as float and `state` as float64; only whole numbers are ever stored.
- The unused `mod` (patch.py:14) is not modelled. `expected` (patch.py:21) is only stored by Draft.NewPatch.
- The inner patch loop of `max_v` and of `process_timestep` is a method of its own (Backward.PatchLoop, Draft.PatchLoop). The control flow is the same, but the loop is not written inline.
- Backward.LogVals requires its block to lie inside the table. Out-of-range writes, which numpy would reject with an error, are not modelled; Backward.Simulation always meets this requirement.
- Backward.Simulation: the arrays F0, F1 and D are local to the source's `simulation`. Its contract speaks of the returned table only. The arrays' invariants are stated by the lemmas about `Run`.
- Draft.RunSimulation returns the registry and the number of `process_timestep` calls as ghost results, so that its contract can state them.
- `simulation` allocates `n_timesteps * x_max` records, one per state 1..x_max, so the states 1..x_crit, which are dead, get records too (backward.py:38, 157).

## Findings

| source | as written | input that shows it | evidently intended | confidence | as-written member | corrected member |
|---|---|---|---|---|---|---|
| backward.py:95-97 | `F0[x]` is written only when some patch gives `v > vm` with `vm` starting at 0. When every patch gives 0, `F0[x]` keeps the previous timestep's value, and so does `D[x]`. The same holds at patch.py:58-61 | x_crit = 0, x_max = 3, one patch (cost 1, predation 0.5, food 0, gain 0), two timesteps: F0 ends as [0, 0, 0.5, 0.25]. State 2 is certain to starve, yet it scores above state 3 | `F0[x]` is the maximum over patches (0 when no patch helps), and fitness does not decrease as reserves grow (backward.py:108) | not executed | Foraging.StaleFitnessExample | Foraging.IntendedRunMonotone |

The imperative members (Backward.MaxV, Draft.ProcessTimestep and the
simulations) keep the behaviour as written, so that they model the source.
Foraging.IntendedUpdate and Foraging.IntendedRun define the corrected
timestep, and the monotonicity lemmas are proved about them.
