# CloudSim scheduling heuristics, modelled in Dafny

This project models the five batch-scheduling heuristics of `src/Main.java`.
Each heuristic assigns cloudlets (tasks with a length in instructions) to VMs
(machines with a speed in MIPS):

- **FIFO** hands the cloudlets, in list order, to the VMs in round-robin
  order.
- **Shortest-First** sorts the cloudlet list by length (stable, in place) and
  then hands the cloudlets out in the same round-robin way.
- **Min-Min** repeatedly commits the (remaining cloudlet, VM) pair with the
  smallest completion time, `length / mips + vmLoad[vm]`.
- **Max-Min** repeatedly commits the remaining cloudlet whose own best
  completion time is the largest, on its best VM.
- **Sufferage** repeatedly commits the remaining cloudlet with the largest gap
  between its second-best and best completion times, on its best VM.

The three load-aware heuristics share their data model and round structure:

- The source's list scans become methods with loops. These are
  `SelectMinMin`, `ScanBestVm`/`SelectMaxMin` and `ScanTwoBest`/`SelectSufferage`.
- The inner VM scans `ScanBestVm` and `ScanTwoBest` are proved against the
  specification functions `BestVm`, `MinTime` and `SecondTime`. The
  selections `SelectMinMin`, `SelectMaxMin` and `SelectSufferage` are proved
  against a specification predicate of the heuristic's pick: `IsMinMinPick`,
  `IsMaxMinPick` or `IsSufferagePick`.
- The whole run is a method too: `RunMinMin`, `RunMaxMin` or `RunSufferage`.
  It updates the caller's `assignedVm` array in place. `assignedVm` holds each
  cloudlet's VM id, indexed by position, and stands for `setVmId`.
- Each run method returns the final `vmLoad`. A ghost list of rounds (`picks`)
  is proved to be a complete valid run in the sense of `Rounds.Complete`.
- Shared lemmas give the following facts about runs:
  - A valid run takes exactly |tasks| rounds.
  - Every cloudlet ends up on a VM.
  - Each VM's load is the sum of length / speed over its cloudlets.
  - Loads only grow.
  - Each heuristic's pick is unique, so a complete run is determined by its
    input.

The model has these modules:

- `Core`: cloudlets, VMs and the completion time. It also holds the
  specification functions: the first best VM, the minimum time, the
  second-best time and the sufferage.
- `Rounds`: the scheduler state, one round (`Apply`), runs, and the
  predicates for each heuristic's pick.
- `RunFacts`: the lemmas shared by the three load-aware heuristics.
- `Commit`: the assignment step at the end of a round.
- `MinMin`, `MaxMin`, `SufferageSched`: the three load-aware heuristics.
- `RoundRobin`: FIFO, Shortest-First and the stable sort.
- `Scenario`: a worked input, with two VMs of speed 1 and 2 and cloudlets of
  length 4, 2 and 6. Min-Min's only complete run on it puts cloudlets 0 and 1
  on VM 1 and cloudlet 2 on VM 0.

Three behaviours of the code are worth knowing:

- **An empty VM list with a non-empty cloudlet list.** The code throws on
  `vms.get` (FIFO, Shortest-First, Max-Min, Sufferage) or loops forever
  (Min-Min, whose scan then finds nothing). The model states this case as a
  precondition, and `RunFacts.NoRunWithoutVms` proves that no run can complete
  without a VM.
- **Sufferage with a single VM.** The second-best time stays at
  `Double.MAX_VALUE`, so the sufferage is the sentinel itself, and the first
  remaining cloudlet wins.
- **The sufferage is never negative.** The second-best time is never below the
  best one.

## Model

| member | source | states |
|---|---|---|
| Core.ExecTime | src/Main.java:83 | a cloudlet's run time on a VM, length / mips, is non-negative, and zero exactly for a zero-length cloudlet |
| Core.Ct | src/Main.java:70 | the completion time length / mips + vmLoad[i] is at least the VM's current load, and equals it exactly for a zero-length cloudlet |
| Core.BestVm | src/Main.java:104-111 | the VM picked by the strict `<` scan: no VM has a smaller completion time, and every earlier VM has a strictly larger one |
| Core.MinTime | src/Main.java:101-111 | the `minCompletionTime` the inner scan leaves: no VM finishes the cloudlet earlier, and some VM finishes it exactly then |
| Core.SecondTime | src/Main.java:146-156 | the smallest completion time among the VMs other than the excluded one: it is attained by such a VM and bounds all of them; it is the MAX_VALUE sentinel (Inf) exactly when no such VM exists |
| Core.SufferageOf | src/Main.java:158 | second-best minus best time is never negative, and is Inf exactly when there is a single VM |
| Core.Gap | src/Main.java:158 | `secondBestTime - bestTime`: infinite exactly when the second-best time is the MAX_VALUE sentinel, otherwise the finite difference, never negative when second-best is not below best |
| Rounds.RemoveAt | src/Main.java:84 | removing the picked cloudlet shortens the remaining list by one and keeps the others in order |
| Rounds.Iota | src/Main.java:59 | the remaining list starts as every cloudlet position, in list order |
| Rounds.Init | src/Main.java:59-60 | the state before the first round: every cloudlet remaining, in list order, and unassigned; one load per VM, all zero |
| Rounds.Apply | src/Main.java:81-85 | a round never lowers a load, and it removes exactly one cloudlet from the remaining list |
| Rounds.LoadOf | src/Main.java:83 | the accumulated load of a VM, a sum of execution times, is non-negative |
| Rounds.IsMinMinPick | src/Main.java:63-78 | Min-Min's choice in a round: the (remaining cloudlet, VM) pair with the smallest completion time, every pair scanned before it strictly slower; the chosen VM is a best VM for the chosen cloudlet |
| Rounds.IsMaxMinPick | src/Main.java:95-119 | Max-Min's choice in a round: the remaining cloudlet whose best time is the largest, every earlier one's strictly smaller, on its first best VM |
| Rounds.IsSufferagePick | src/Main.java:135-166 | Sufferage's choice in a round: the remaining cloudlet with the largest sufferage, every earlier one's strictly smaller, on its first best VM |
| Rounds.StateAfter | src/Main.java:62-86 | the state after a sequence of rounds, starting from the initial state: one load per VM, all non-negative, one owner entry per cloudlet, and at most |tasks| cloudlets remaining |
| Rounds.ValidRun | src/Main.java:62-86 | the source's `while` loop as a sequence of rounds, each the heuristic's pick in the state the earlier rounds left; every picked VM exists |
| Rounds.Complete | src/Main.java:62-86 | a valid run that has emptied the remaining list, as the `while` loops at lines 62-86, 94-127 and 134-174 end; with any cloudlet it has at least one round |
| RunFacts.LoadOfAssign | src/Main.java:83 | assigning an unassigned cloudlet adds its execution time to its VM's sum and leaves every other VM's sum unchanged |
| RunFacts.InitConsistent | src/Main.java:59-60 | the start state satisfies the run invariant |
| RunFacts.ApplyConsistent | src/Main.java:81-85 | a round keeps the remaining list duplicate-free and equal to the unassigned cloudlets, keeps every assignment on an existing VM, and keeps each load equal to the sum over its cloudlets |
| RunFacts.StateAfterConsistent | src/Main.java:62-86 | every state reached by rounds satisfies that invariant |
| RunFacts.ValidRunRemaining | src/Main.java:62 | after r valid rounds exactly |tasks| - r cloudlets remain, so there are at most |tasks| rounds |
| RunFacts.CompleteRun | src/Main.java:58-87 | a complete run has exactly |tasks| rounds, every cloudlet is on a VM, and each VM's load is the sum of length / mips over its cloudlets |
| RunFacts.PickUnique | src/Main.java:72 | the strict `<` and `>` comparisons leave at most one pick per state, for each heuristic |
| RunFacts.RunDeterministic | src/Main.java:62-86 | two complete runs of a heuristic on the same input make the same rounds |
| RunFacts.RoundStep | src/Main.java:81-85 | appending the heuristic's pick extends a valid run, and the new state is the old one after that round |
| RunFacts.ApplyChangesOneVm | src/Main.java:82-84 | a round adds length / mips to the chosen VM's load only, records the VM for the picked cloudlet only, and removes that cloudlet |
| RunFacts.LoadsGrow | src/Main.java:83 | every load after n rounds is at most the same load at the end of the run |
| RunFacts.NoRunWithoutVms | src/Main.java:62-86 | with cloudlets but no VM, no heuristic's run can complete |
| Commit.CommitPick | src/Main.java:81-85 | setting the VM id, adding to vmLoad and removing the cloudlet move the source's variables to the state after the round; only the picked cloudlet's VM id and the chosen VM's load change |
| MinMin.SelectMinMin | src/Main.java:63-78 | the nested scan returns the pair with the smallest completion time, with every pair scanned before it strictly slower; it returns none exactly when no cloudlet remains or there is no VM |
| MinMin.MinMinIsMinOfMins | src/Main.java:68-78 | Min-Min's pick goes to its cloudlet's first best VM, and no remaining cloudlet has a smaller best time |
| MinMin.RunMinMin | src/Main.java:58-87 | the loop performs a complete Min-Min run; assignedVm holds every cloudlet's VM id and the freshly allocated vmLoad each VM's summed load |
| MaxMin.ScanBestVm | src/Main.java:101-111 | the inner scan returns the first VM with the smallest completion time, and that time; with no VM it returns the sentinels Inf and -1 |
| MaxMin.SelectMaxMin | src/Main.java:95-119 | the scan returns the cloudlet whose best time is the largest, every earlier cloudlet's being strictly smaller, on its first best VM; starting from -1 it always finds one when a cloudlet remains |
| MaxMin.RunMaxMin | src/Main.java:90-128 | the loop performs a complete Max-Min run; assignedVm holds every cloudlet's VM id and the freshly allocated vmLoad each VM's summed load |
| SufferageSched.TwoBestStep | src/Main.java:149-155 | how the first best VM and the second-best time change when the scan takes in one more VM |
| SufferageSched.ScanTwoBest | src/Main.java:141-158 | the two-best scan returns the first best VM, the minimum time and the smallest time among the other VMs; second-best is never below best, and their gap is the sufferage |
| SufferageSched.FirstMaxExtend | src/Main.java:161-165 | the strict `>` update keeps the first maximum: a value strictly above it takes over, any other value leaves it |
| SufferageSched.SelectSufferage | src/Main.java:135-166 | the scan returns the cloudlet with the largest sufferage, every earlier one's being strictly smaller, on its first best VM; starting from -1 it always finds one when a cloudlet remains |
| SufferageSched.ZeroSufferageIffTie | src/Main.java:149-158 | the sufferage is zero exactly when another VM ties with the best VM's time |
| SufferageSched.SingleVmPicksFirst | src/Main.java:141-165 | with a single VM every sufferage is the sentinel, so the first remaining cloudlet is picked |
| SufferageSched.RunSufferage | src/Main.java:130-175 | the loop performs a complete Sufferage run; assignedVm holds every cloudlet's VM id and the freshly allocated vmLoad each VM's summed load |
| RoundRobin.NextVmIndex | src/Main.java:39 | stepping `(vmIndex + 1) % vms.size()` keeps vmIndex equal to the number of cloudlets handed out, modulo the VM count |
| RoundRobin.RunFifo | src/Main.java:27-41 | the i-th cloudlet polled from the queue gets the id of VM i mod |vms| |
| RoundRobin.Before | src/Main.java:45 | the length comparator, made total by original position: a cloudlet that goes first is never longer and never the same position |
| RoundRobin.BeforeTotalOrder | src/Main.java:45 | that order is a strict total order: of two distinct positions exactly one goes first, and it is transitive |
| RoundRobin.IsStableSortOf | src/Main.java:45 | the promise of `Collections.sort` with that comparator: a rearrangement of the list in Before order, hence of the same length and ascending by length |
| RoundRobin.SinkStep | src/Main.java:45 | swapping a longer cloudlet behind the one being inserted keeps the partial stable order |
| RoundRobin.SinkInto | src/Main.java:45 | one insertion step extends the stably sorted prefix by one cloudlet |
| RoundRobin.SortByLength | src/Main.java:45 | the list is rearranged into ascending length, with equally long cloudlets kept in their original order |
| RoundRobin.StableSortUnique | src/Main.java:45 | any two stable sorts by length of the same list are equal, so the insertion sort ends where the library sort does |
| RoundRobin.RunShortestFirst | src/Main.java:43-56 | the list ends stably sorted by length, and the cloudlet at sorted position i gets the id of VM i mod |vms| |
| Scenario.RoundOne | src/Main.java:68-78 | on the worked input, Min-Min's first pick is cloudlet 1 on VM 1, with completion time 1 |
| Scenario.RoundTwo | src/Main.java:68-78 | the second pick is cloudlet 0 on VM 1, with completion time 3 |
| Scenario.RoundThree | src/Main.java:68-78 | the third pick is cloudlet 2 on VM 0: both VMs give 6, and the first wins the tie |
| Scenario.MinMinStates | src/Main.java:81-85 | the states the worked input's rounds pass through |
| Scenario.MinMinRounds | src/Main.java:58-87 | those three picks form a complete Min-Min run |
| Scenario.MinMinScenario | src/Main.java:58-87 | every complete Min-Min run on the worked input ends with cloudlets 0 and 1 on VM 1, cloudlet 2 on VM 0, and loads 6 and 3 |

## Left out

- `main`, `CloudSim.setup` and `printResults` are left out. They set up the
  simulation and print results. The call `runSufferage()` without arguments
  is left out too.
- Sharing between runs is not modelled. In the source, all five runs work on
  the same `Cloudlet` objects: later runs overwrite the VM ids, and
  Shortest-First reorders the shared list before Min-Min runs. Each modelled
  run takes its own inputs.
- Only the fields the heuristics read are kept from CloudSim's `Cloudlet` and
  `Vm` classes: id, length and mips. `setVmId` becomes a write to the
  `assignedVm` array.
- Lengths are non-negative integers and speeds are positive reals. The model
  does not cover a zero speed, where the source would divide by zero.
- Double-precision rounding is not modelled. Completion times are exact
  reals, so ties are decided on exact values.
- `Double.MAX_VALUE` is modelled as an infinite sentinel. With one VM, the
  source computes MAX_VALUE minus a moderate time, which rounds back to
  MAX_VALUE. All single-VM sufferages are therefore equal, and the model's
  Inf behaves the same way. Times near MAX_VALUE are not modelled.
- Cloudlets are identified by their position in the list. If the same
  `Cloudlet` object appeared twice, `remove(Object)` would drop its first
  occurrence; that case is not modelled.
- `RunFifo`, `RunShortestFirst`, `RunMinMin`, `RunMaxMin` and `RunSufferage`
  require at least one VM when there are cloudlets. Otherwise the source
  throws or, in Min-Min, never terminates; `NoRunWithoutVms` states the
  consequence.
- `SortByLength` is an insertion sort, where the source calls the library's
  stable merge sort. `StableSortUnique` shows that both give the same list.
- `vmLoad` is local to each source method. The model returns it so that load
  conservation can be stated about the result.
- `SelectMaxMin` requires non-negative loads. Every state a run reaches has
  them (`StateAfterConsistent`), and the source's start value of -1 relies on
  them to always find a cloudlet.
- `SelectMaxMin` and `SelectSufferage` require a VM whenever a cloudlet
  remains. Without one, the source picks a cloudlet with VM index -1 and
  throws at `vms.get(-1)`.
