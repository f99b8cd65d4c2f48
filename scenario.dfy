/**
 * A worked input: two VMs of speed 1 and 2, three cloudlets of length 4, 2
 * and 6. Min-Min's rounds on it are computed pair by pair, and determinism
 * makes them the only complete run.
 */
module Scenario {
  import opened Core
  import opened Rounds
  import opened RunFacts

  const vms: seq<Vm> := [Vm(0, 1.0), Vm(1, 2.0)]
  const tasks: seq<Task> := [Task(0, 4), Task(1, 2), Task(2, 6)]

  /** Min-Min's three rounds on the worked input. */
  const minMinPicks: seq<Pick> := [Pick(1, 1), Pick(0, 1), Pick(0, 0)]

  /** Round one: cloudlet 1 on VM 1 finishes at 1, every other pair later. */
  lemma RoundOne()
    ensures IsMinMinPick(tasks, vms, [0, 1, 2], [0.0, 0.0], Pick(1, 1))
  {
    forall k, v | 0 <= k < 3 && 0 <= v < 2
      ensures Ct(tasks[[0, 1, 2][k]], vms, [0.0, 0.0], v) >= 1.0
      ensures ScannedBefore(k, v, 1, 1) ==> Ct(tasks[[0, 1, 2][k]], vms, [0.0, 0.0], v) > 1.0
    {
    }
  }

  /** Round two: cloudlet 0 on VM 1 finishes at 2 + 1 = 3, the rest later. */
  lemma RoundTwo()
    ensures IsMinMinPick(tasks, vms, [0, 2], [0.0, 1.0], Pick(0, 1))
  {
    forall k, v | 0 <= k < 2 && 0 <= v < 2
      ensures Ct(tasks[[0, 2][k]], vms, [0.0, 1.0], v) >= 3.0
      ensures ScannedBefore(k, v, 0, 1) ==> Ct(tasks[[0, 2][k]], vms, [0.0, 1.0], v) > 3.0
    {
    }
  }

  /** Round three: cloudlet 2 finishes at 6 on either VM; the first VM wins the tie. */
  lemma RoundThree()
    ensures IsMinMinPick(tasks, vms, [2], [0.0, 3.0], Pick(0, 0))
  {
    forall v | 0 <= v < 2
      ensures Ct(tasks[2], vms, [0.0, 3.0], v) == 6.0
    {
    }
  }

  /** The states Min-Min's rounds pass through on the worked input. */
  lemma MinMinStates()
    ensures StateAfter(tasks, vms, minMinPicks[..0]) == Sched([0, 1, 2], [0.0, 0.0], [-1, -1, -1])
    ensures StateAfter(tasks, vms, minMinPicks[..1]) == Sched([0, 2], [0.0, 1.0], [-1, 1, -1])
    ensures StateAfter(tasks, vms, minMinPicks[..2]) == Sched([2], [0.0, 3.0], [1, 1, -1])
    ensures StateAfter(tasks, vms, minMinPicks) == Sched([], [6.0, 3.0], [1, 1, 0])
  {
    assert Iota(3) == [0, 1, 2];
    assert minMinPicks[..0] == [] && minMinPicks[..1] == [Pick(1, 1)];
    assert minMinPicks[..2] == [Pick(1, 1), Pick(0, 1)];
    assert minMinPicks[..|minMinPicks| - 1] == minMinPicks[..2];
    assert [Pick(1, 1), Pick(0, 1)][..1] == [Pick(1, 1)];
  }

  lemma MinMinRounds()
    ensures Complete(MinMin, tasks, vms, minMinPicks)
  {
    MinMinStates();
    RoundOne();
    RoundTwo();
    RoundThree();
  }

  /**
   * Every complete Min-Min run on the worked input puts cloudlets 0 and 1 on
   * VM 1 and cloudlet 2 on VM 0, leaving loads 6 and 3.
   */
  lemma MinMinScenario(picks: seq<Pick>)
    requires Complete(MinMin, tasks, vms, picks)
    ensures picks == minMinPicks
    ensures StateAfter(tasks, vms, picks) == Sched([], [6.0, 3.0], [1, 1, 0])
  {
    MinMinRounds();
    RunDeterministic(MinMin, tasks, vms, picks, minMinPicks);
    MinMinStates();
  }
}
