# Gravity grid — a Dafny model

The model covers the particle-mesh gravity engine of a Rust particle simulation.

- Every particle is binned into a uniform grid of square cells, and each cell adds up the mass in it.
- Every cell then sums pairwise forces with the cells in a clamped neighbour window around it. The pairs are reduced by a recursive halving sum.
- Every particle is pushed by the force of its cell.
- A `World` runs this pass for each of its grids in turn, then moves every particle one explicit Euler step.

The project has six modules, one per concern:

| file | module | models |
|---|---|---|
| `option.dfy` | `Options` | Rust's `Option` |
| `particle.dfy` | `Particles` | `src/particle.rs`: the class `Particle`, its value view `PState`, and the functions `Accelerated` and `Moved` that specify its methods |
| `binning.dfy` | `Binning` | `get_index`, `zero_mass` and `compute_mass` as functions on values: row-major cell indices, the `as u32` cast, the binned cell masses and their sums |
| `interaction.dfy` | `Interaction` | `compute_force` and `devide_and_conquer` as functions on values: the neighbour window, the filtered pair list, the reduction and the per-cell forces |
| `gravity_grid.dfy` | `Grids` | the class `GravityGrid`: its two buffers are arrays updated in place, and each method is proved against the functions above |
| `world.dfy` | `Simulation` | the class `World` and its `update`: one value-level pass per grid (`RunGrid`), the fold over the grids (`AfterGrids`), and the final integration |

The pairwise law `compute_gravity` is an f32 trigonometric formula. It is a parameter, `law: GravityLaw`. Every statement about forces holds for every law.

Floating-point numbers (`f32`, `f64`) are modelled as `real`.

### Behaviour of the code worth knowing

- **Negative coordinates.** `(x / cell_size).floor() as u32` saturates a negative value to 0. A particle at any negative coordinate is binned into column (or row) 0; it is not excluded (`CellOfNegative`).
- **Particles off the grid.** `get_index` writes `particle.index` only when the cell is on the grid. A particle off the grid keeps the index of the last cell it was binned into, possibly by another grid. When that old index is inside this grid's buffers, the particle is pushed by that slot's force (`StaleIndexPush`). When the old index is past the end of the buffers, `cell_forces.get` finds nothing and the particle is left alone (`StaleIndexBeyondNotPushed`). A particle that was never binned is also left alone (`UnbinnedNotPushed`).
- **Window edges.** The window is clamped above to `width - 1` and `height - 1`, and its upper bounds are exclusive (`y_bound_low..y_bound_high`). The window therefore holds the 5 cells before the cell, the cell itself and 4 cells after it. It never holds the last column or the last row of the grid (`WindowMembers`, `PermutationsSound`).
- **Pair lists are one-sided.** Because the window reaches 5 cells back but only 4 forward, two massive cells 5 columns apart in one row are not treated alike. The right cell records the left one, but the left cell never records the right one (`OneSidedPairs`). A cell in the last column or row enters no other cell's list. So, for any pairwise law, the force on a cell from a neighbour is not matched in general by an opposite force on that neighbour.
- **Each neighbour is counted once.** A cell's pair list holds its neighbours in strictly increasing cell index, so no neighbour appears twice in the sum (`PermutationsOrdered`).
- **Velocity change.** `apply_force` adds the force to the velocity as it is, without dividing by the mass (`Accelerated`).
- **Particle mass.** `compute_mass` reads `particle.mass`, and `src/main.rs:85` calls `Particle::new` with a third argument, the mass. The `Particle` struct in `src/particle.rs` declares no `mass` field. The model gives `Particle` a `mass` field, set by its constructor.

## Model

| member | source | states |
|---|---|---|
| Particles.Accelerated | src/particle.rs:16-19 | the velocity grows by exactly (fX, fY); position, mass and cell index are unchanged |
| Particles.Moved | src/particle.rs:21-24 | the position grows by exactly dt times the velocity; velocity, mass and cell index are unchanged |
| Particles.AccelerateTwice | src/particle.rs:16-19 | two impulses in a row are one impulse of their sum |
| Particles.AccelerateByZero | src/particle.rs:16-19 | a zero force leaves the particle unchanged |
| Particles.MoveStill | src/particle.rs:21-24 | a zero step, or a particle at rest, does not move |
| Particles.Particle.constructor | src/particle.rs:12-14 | a new particle sits at (x, y) with zero velocity, the given mass and no cell index |
| Particles.Particle.ApplyForce | src/particle.rs:16-19 | the particle's new state is `Accelerated` of its old state |
| Particles.Particle.Update | src/particle.rs:21-24 | the particle's new state is `Moved` of its old state by dt |
| Particles.States | src/world.rs:21-29 | the value view of a particle list has its length, and entry k is particle k's state |
| Binning.SaturatingU32 | src/gravity_grid.rs:45-46 | the `as u32` cast: values in range are kept, negatives become 0, values past the range become the largest `u32`, and the result is always a `u32` |
| Binning.CellCoordinate | src/gravity_grid.rs:45-46 | the cast coordinate is a `u32`, is 0 for a negative coordinate, is the floor of coordinate / cell edge when that floor is in range, and is the largest `u32` when the floor is past it |
| Binning.CellOf | src/gravity_grid.rs:40-54 | a found cell index is always inside the cell buffers |
| Binning.CellOfInside | src/gravity_grid.rs:45-52 | for non-negative coordinates, a cell is found if and only if x < width·cellSize and y < height·cellSize |
| Binning.CellOfNegative | src/gravity_grid.rs:45-46 | a negative coordinate is binned exactly as coordinate 0 |
| Binning.CellOfContains | src/gravity_grid.rs:45-50 | the found cell c has column c % width and row c / width, and its square holds the position |
| Binning.RowMajor | src/gravity_grid.rs:50 | index y·width + x gives back column x (remainder) and row y (quotient) |
| Binning.RowMajorInjective | src/gravity_grid.rs:126-133 | two cells with equal index are the same cell, so `index1 != index2` means two different cells |
| Binning.Reindex | src/gravity_grid.rs:40-54 | only the cell index changes: it becomes the found cell, or stays as it was when no cell is found |
| Binning.Reindexed | src/gravity_grid.rs:62-64 | every particle of the list is reindexed, pointwise and in order |
| Binning.Zeros | src/gravity_grid.rs:56-60 | n entries, every one zero |
| Binning.Deposit | src/gravity_grid.rs:63-68 | one particle's binning keeps the number of cells; what each cell gets is stated by `DepositAt` |
| Binning.DepositAt | src/gravity_grid.rs:63-68 | binning one particle adds its mass to the cell it is found in and leaves every other cell as it was |
| Binning.Binned | src/gravity_grid.rs:62-70 | binning a particle list keeps the number of cells; what each cell and the total get is stated by `BinnedAt`, `BinnedSum` and `MassConservation` |
| Binning.BinnedAt | src/gravity_grid.rs:62-70 | after binning, each cell holds its old mass plus exactly the masses of the particles found in it |
| Binning.BinnedSum | src/gravity_grid.rs:62-70 | binning adds to the total cell mass exactly the mass of the particles on the grid |
| Binning.MassConservation | src/gravity_grid.rs:56-70 | zeroing then binning particles that are all on the grid gives cell masses summing to their total mass |
| Binning.BinnedReadsPositions | src/gravity_grid.rs:62-70 | binning depends only on the positions and masses: velocities and old indices do not matter |
| Interaction.DivideAndConquer | src/gravity_grid.rs:84-99 | no contract of its own beyond a non-empty list; `DivideAndConquerIsSum` states that it equals the sequential sum |
| Interaction.SumSplit | src/gravity_grid.rs:84-99 | splitting the pair list anywhere and adding the two partial sums gives the whole sum |
| Interaction.DivideAndConquerIsSum | src/gravity_grid.rs:84-99 | the recursive halving reduction equals the sequential sum of the pair forces, for every non-empty list |
| Interaction.NeighbourWindow | src/gravity_grid.rs:108-123 | no contract of its own; `WindowMembers` states its exact membership and `Grids.GravityGrid.ClampWindow` states that the clamping code computes it |
| Interaction.Permutations | src/gravity_grid.rs:125-146 | no contract of its own; `PermutationsSound`, `PermutationsComplete` and `PermutationsOrdered` state which pairs it holds and in what order |
| Interaction.WindowMembers | src/gravity_grid.rs:108-129 | the clamped window is well formed, and a cell is in it if and only if it lies at most 5 before and fewer than 5 after on each axis and not in the last column or row |
| Interaction.PermutationsSound | src/gravity_grid.rs:125-146 | every recorded pair carries both cells' masses, both non-zero, for two different cells inside the window |
| Interaction.PermutationsComplete | src/gravity_grid.rs:125-146 | every different cell in the window whose mass and the cell's own mass are non-zero is recorded |
| Interaction.PermutationsOrdered | src/gravity_grid.rs:126-146 | the neighbours of a cell's pair list come in strictly increasing cell index `index2`, so no neighbour is recorded twice |
| Interaction.OneSidedPairs | src/gravity_grid.rs:108-146 | for massive cells (x, y) and (x+5, y) away from the last column and row, (x+5, y) records (x, y) but (x, y) never records (x+5, y) |
| Interaction.CellForce | src/gravity_grid.rs:147-152 | no contract of its own; `CellForceIsSum` and `EmptyCellNoForce` state its value |
| Interaction.CellForceAt | src/gravity_grid.rs:126-152 | no contract of its own; it is `CellForce` of the cell whose index is c, as `ForcesAt` states for the force buffer |
| Interaction.CellForceIsSum | src/gravity_grid.rs:147-152 | a cell's force is the sequential sum of its pair forces, zero when there is no pair |
| Interaction.EmptyCellNoForce | src/gravity_grid.rs:133-149 | a cell without mass records no pair and gets the zero force |
| Interaction.Forces | src/gravity_grid.rs:101-155 | the force buffer has one entry per cell |
| Interaction.ForcesByCell | src/gravity_grid.rs:105-155 | a buffer holding each cell's force at slot y·width + x is the force buffer |
| Interaction.ForcesAt | src/gravity_grid.rs:126-152 | slot y·width + x of the force buffer holds the force of the cell in column x and row y |
| Grids.Kick | src/gravity_grid.rs:158-166 | a particle with a set index inside the buffer gets that slot's force added to its velocity; any other particle is unchanged; position, mass and index never change |
| Grids.Kicked | src/gravity_grid.rs:157-168 | every particle of the list is kicked, pointwise and in order |
| Grids.GravityGrid.constructor | src/gravity_grid.rs:26-38 | both buffers are fresh, have width·height entries and are all zero |
| Grids.GravityGrid.GetIndex | src/gravity_grid.rs:40-54 | returns `CellOf` of the particle's position and leaves the particle as `Reindex` says |
| Grids.GravityGrid.ZeroMass | src/gravity_grid.rs:56-60 | every cell mass is zero afterwards, whatever it was before, so a second call changes nothing |
| Grids.GravityGrid.ComputeMass | src/gravity_grid.rs:62-70 | the cell masses become `Binned` of the old masses and the particles, and the particles become `Reindexed` |
| Grids.GravityGrid.BinParticle | src/gravity_grid.rs:63-68 | one particle deposits its mass in the cell it is found in, if any, and is reindexed |
| Grids.GravityGrid.ClampWindow | src/gravity_grid.rs:108-123 | the clamped bounds are those of `NeighbourWindow` |
| Grids.GravityGrid.CollectPermutations | src/gravity_grid.rs:108-146 | the pair list built for a cell is exactly `Permutations` of the current masses |
| Grids.GravityGrid.ScanRow | src/gravity_grid.rs:129-145 | scanning one row appends exactly that row's recorded pairs |
| Grids.GravityGrid.ComputeForce | src/gravity_grid.rs:101-155 | the force buffer becomes `Forces` of the current masses, and the masses are not modified |
| Grids.GravityGrid.StoreRow | src/gravity_grid.rs:106-153 | each cell of the row gets its force, and every cell of every other row, earlier or later, keeps the force it had |
| Grids.GravityGrid.StoreCellForce | src/gravity_grid.rs:126-152 | only the cell's own slot changes, and it receives `CellForce` |
| Grids.GravityGrid.ApplyForce | src/gravity_grid.rs:157-168 | the particles become `Kicked` by the force buffer; the buffers are not modified |
| Simulation.RunGrid | src/world.rs:21-26 | one grid pass leaves positions and masses as they were, with buffers of width·height entries |
| Simulation.AfterGrids | src/world.rs:21-26 | the grid passes in order keep the number of particles |
| Simulation.NextGrid | src/world.rs:21-26 | grid i acts on what the grids before it left |
| Simulation.GridsKeepPositions | src/world.rs:21-26 | after all grid passes, every particle's position and mass are those from the start of the frame |
| Simulation.GridsBinStartPositions | src/world.rs:21-26 | every grid bins the particles at their start-of-frame positions, whatever the earlier grids did |
| Simulation.TickMovesOnce | src/world.rs:20-30 | in one update each particle is moved once, from its start-of-frame position, with the velocity all grids left it |
| Simulation.GridMassConservation | src/world.rs:22-23 | with every particle on the grid, a pass's cell masses sum to the total particle mass |
| Simulation.PushedByOwnCell | src/world.rs:23-25 | a particle found in cell c is given index c and pushed by exactly cell c's force |
| Simulation.StaleIndexPush | src/world.rs:23-25 | a particle off the grid with an old index inside the buffer keeps it and is pushed by that slot's force |
| Simulation.StaleIndexBeyondNotPushed | src/gravity_grid.rs:159-166 | a particle off the grid whose old index is past the end of the buffers is left unchanged |
| Simulation.UnbinnedNotPushed | src/world.rs:23-25 | a particle off the grid that was never binned is left unchanged |
| Simulation.TickWithoutGrids | src/world.rs:20-30 | with no grid, an update only moves the particles |
| Simulation.Tick | src/world.rs:20-30 | no contract of its own; `World.Update` ends in it, and `TickMovesOnce`, `GridsKeepPositions` and `TickWithoutGrids` state what it does |
| Simulation.Integrated | src/world.rs:27-29 | every particle is moved one step, pointwise and in order |
| Simulation.Shapes | src/world.rs:21 | the shapes of the grids, in order |
| Simulation.RunPass | src/world.rs:22-25 | zero, bin, compute forces and apply them: the particles and both buffers end as `RunGrid` says |
| Simulation.BinPass | src/world.rs:22-23 | after zeroing and binning, the masses are the particles binned onto zeros, and the particles are reindexed |
| Simulation.Integrate | src/world.rs:27-29 | every particle's new state is `Integrated` of the old states |
| Simulation.World.constructor | src/world.rs:12-18 | a new world holds the given particles and no grid |
| Simulation.World.Update | src/world.rs:20-30 | the particles end as `Tick`: all grid passes in order, then one integration step |
| Simulation.World.RunGrids | src/world.rs:21-26 | after the grid loop, the particles are `AfterGrids` of the shapes of the grids |
| Simulation.World.StepGrid | src/world.rs:21-26 | one iteration of the grid loop takes the particles from after i grids to after i + 1, and leaves grid i's buffers holding the masses and forces of that pass (`Holds`) |

## Left out

- `compute_gravity` (src/gravity_grid.rs:72-82) is the f32 inverse-square law with `atan2`, `cos` and `sin`. It is the parameter `law`, so the model states nothing about the law itself. Equal and opposite forces between two cells would not hold for any law anyway, because the pair lists are one-sided (`OneSidedPairs`).
- The floating-point types `f32` and `f64` are modelled as `real`. Rounding, NaN, infinities and the non-associativity of float addition are not modelled. The same holds for the narrowing of the `f64` `cell_size` to `f32` (src/gravity_grid.rs:43 and 103); the positions are already `f32`, so their `as f32` casts change nothing. `DivideAndConquerIsSum` holds for reals only.
- `rayon::join` in `devide_and_conquer` is modelled as sequential evaluation. The two halves are independent, and the model sums them in a fixed order.
- `u32` overflow is not modelled. `ValidDims` asks that `width`, `height` and `width * height` fit a `u32` and that `cell_size` be positive. `GravityGrid.constructor` and the grids of a `World` assume it.
- Grid indices are `nat`. `index1 as usize` and friends cannot be negative in the model, which matches the code's clamped bounds.
- `devide_and_conquer` on an empty slice would panic. `compute_force` never calls it that way, so `DivideAndConquer` requires a non-empty list.
- `World.draw`, the `gl: Config` field, `src/config.rs` and `src/main.rs` (window, event loop, random particle placement, the frame buffer) are rendering and I/O. `World.constructor` does not set a configuration.
- `ggs` is a public field (src/world.rs:6) that no code in the repository fills; `src/main.rs` does not use this `World` and runs its own two grids directly, in the same zero, bin, force, apply order. The model takes the grids of a `World` as given. `World.Valid` asks that the grids own distinct buffers and that each particle occur once, which Rust's ownership guarantees.
- Simulation.World.RunGrids: states the particles after the grid loop but not each grid's final buffers, because stating them across the loop made the proof too costly for the verifier; `Simulation.World.StepGrid` and `Simulation.RunPass` state them for one grid.
- Simulation.World.Update: states the particles' final states but not the final contents of each grid's buffers. `Simulation.RunPass` states those for one pass.
- Particles.Particle.constructor: adds the `mass` argument that `src/main.rs:85` passes but the struct in `src/particle.rs` lacks.
