# Bounded random walkers reporting to a controller

This project models the sequential logic of an MPI program in which every
rank but 0 runs a bounded one-dimensional random walk, and rank 0, the
controller, waits for one completion message from each walker.

- `walker.dfy` (module `Walker`): the walk of one walker. The position starts
  at 0. Each step `1..max_steps` moves it by −1 on an even draw and by +1 on an
  odd draw. The walk stops at the first step where the position is outside
  `[-domain_size, domain_size]` and sends that step number. If no step leaves
  the range, it sends `max_steps` after the loop. The `rand()` draws are an
  input sequence `draws`. The send appends to the output sequence `sent`.
  `Walk` is the loop itself. It is proved equal to the specification
  functions `Outcome` and `StepsTaken`. The lemmas characterise those
  functions: the first exit step, the range of the report, and the positions
  before it.
- `controller.dfy` (module `Controller`): the receive loop. It performs
  `world_size - 1` receives from any source and increments `completed` once
  per receive. A receive consumes the next element of `inbox`, the messages in
  arrival order. The count never depends on what was received.
- `simulation.dfy` (module `Simulation`): `main`'s argument guard and role
  dispatch for one process (`Launch`), and the whole star of walkers feeding
  the controller in an arbitrary arrival order (`Settle`).

The code does not validate its inputs, and the model accepts any integers
for `domain_size` and `max_steps`. A negative `domain_size` with
`max_steps >= 1` makes the very first step out of bounds. A `max_steps` below
1 makes the walk send `max_steps` without moving.

The controller only prints each value it receives. In the model, `received`
stands for those printed values, in the order they arrived.

## Model

| member | source | states |
|---|---|---|
| `Walker.Move` | random_walk.cpp:75-76 | each step moves by exactly −1 or +1, and by −1 exactly when the draw is even |
| `Walker.Walk` | random_walk.cpp:70-93 | the walk loop ends the way `Outcome` says and sends exactly one message, the step count that `StepsTaken` gives for that ending: the early send before `return`, or the send of `max_steps` after the loop, never both and never neither |
| `Walker.ExitFromIsFirstExit` | random_walk.cpp:72-87 | searching from a step `from`, the walk ends out of bounds at the first step at or after `from` whose position is outside the range, and ends by the step limit exactly when every step up to `max_steps` is inside |
| `Walker.OutcomeIsFirstExit` | random_walk.cpp:72-93 | the walk ends out of bounds at step `s` if and only if `s` is the smallest step in `1..max_steps` whose position is outside `[-domain_size, domain_size]`; it ends by the step limit if and only if no such step exists |
| `Walker.StepsTakenInRange` | random_walk.cpp:72-93 | when `max_steps >= 1` the reported step count lies in `[1, max_steps]` |
| `Walker.InsideBeforeReport` | random_walk.cpp:79-87 | every step before the reported one is inside the closed range, and a report below `max_steps` comes from a position outside it |
| `Walker.PositionWithinSteps` | random_walk.cpp:70-76 | after `k` moves the position lies in `[-k, k]` |
| `Walker.NoExitBeforeDomainEdge` | random_walk.cpp:72-86 | with `domain_size >= 0`, an out-of-bounds ending happens no earlier than step `domain_size + 1` |
| `Walker.WideDomainReachesStepLimit` | random_walk.cpp:72-93 | when `max_steps <= domain_size` the walk can never leave the range and reports `max_steps` (for example `domain_size = 1000000`, `max_steps = 5` reports 5 for any draws) |
| `Walker.TwoRightMovesLeaveUnitDomain` | random_walk.cpp:75-85 | with `domain_size = 1` and two odd draws first, the walk ends out of bounds at exactly step 2 and reports 2 |
| `Walker.NegativeDomainExitsAtFirstStep` | random_walk.cpp:79-85 | with a negative `domain_size` and `max_steps >= 1`, the range is empty and the walk ends out of bounds at step 1 |
| `Controller.Collect` | random_walk.cpp:106-119 | after the loop, `completed == world_size - 1` whatever values arrive and in whatever order; the values received are the first `world_size - 1` messages, in arrival order |
| `Simulation.Launch` | random_walk.cpp:23-45 | with `argc != 3` the process returns 1 and runs neither role, and only rank 0 prints the usage text; with `argc == 3` it returns 0 after rank 0 has run the controller and every other rank a walker |
| `Simulation.ReportsInRange` | random_walk.cpp:84-93 | with `max_steps >= 1`, the report each walker sends lies in `[1, max_steps]`; each entry of `Reports` is the one value `Walker.Walk` sends for that walker's draws |
| `Simulation.Settle` | random_walk.cpp:111-119 | fed any permutation of the walkers' reports, the controller counts exactly the number of walkers and receives exactly those reports, each in `[1, max_steps]` when `max_steps >= 1` |

## Left out

- MPI setup, teardown and transport (`MPI_Init`, `MPI_Comm_size`, `MPI_Comm_rank`, `MPI_Send`, `MPI_Recv`, `MPI_Finalize`) are foreign calls. A send appends to `sent`. A receive consumes the next element of `inbox`. Rank and world size are parameters.
- The processes run in parallel, and `MPI_ANY_SOURCE` lets the reports arrive in any order. The model does not capture the parallelism. `Settle` takes the arrival order as an arbitrary permutation of the reports.
- `srand(time(NULL) + world_rank)` and `rand()` are library calls. They are replaced by a given sequence of draws, one per step. `rand()` never returns a negative value, so the draws are natural numbers.
- `Walker.Walk` requires at least `max_steps` draws, because the generator never runs dry. A walk that leaves early uses only the draws up to its exit step.
- `Controller.Collect` requires at least `world_size - 1` messages in `inbox`. With fewer, the source blocks forever in `MPI_Recv`. That non-terminating case is not modelled.
- `Controller.Collect` requires `world_size >= 1`, which MPI guarantees for every running process.
- `atoi` parsing of the two arguments is not modelled. `domain_size` and `max_steps` are given as integers.
- All `std::cout` and `std::cerr` text is console output only. The model keeps only whether the usage text is printed.
- The globals `domain_size`, `max_steps`, `world_rank` and `world_size` are passed as parameters, not kept as ambient state.
- The model uses unbounded integers, not 32-bit `int`. Two edge cases that are undefined behaviour in C++ are therefore not modelled. The first is the overflow of `++step` when `max_steps` is 2147483647 and the walk never leaves the range. The second is the negation of a `domain_size` of −2147483648. The position itself cannot overflow, because it never exceeds the step count in absolute value.
