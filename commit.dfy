/**
 * The end of every Min-Min, Max-Min and Sufferage round: set the picked
 * cloudlet's VM id, add its execution time to that VM's load, and remove it
 * from the remaining list.
 */
module Commit {
  import opened Core
  import opened Rounds

  method CommitPick(tasks: seq<Task>, vms: seq<Vm>, assignedVm: array<int>, vmLoad: array<real>,
                    remaining: seq<nat>, p: Pick, ghost st: Sched)
      returns (remaining': seq<nat>)
    requires Mirrors(tasks, vms, st, remaining, vmLoad[..], assignedVm[..])
    requires Applicable(tasks, vms, st, p)
    modifies assignedVm, vmLoad
    ensures Mirrors(tasks, vms, Apply(tasks, vms, st, p), remaining', vmLoad[..], assignedVm[..])
    ensures remaining' == RemoveAt(remaining, p.slot)
    ensures assignedVm[..] == old(assignedVm[..])[remaining[p.slot] := vms[p.vm].id]
    ensures vmLoad[..] == old(vmLoad[..])[p.vm := old(vmLoad[p.vm]) + ExecTime(tasks[remaining[p.slot]], vms[p.vm])]
  {
    var t := remaining[p.slot];
    assignedVm[t] := vms[p.vm].id;
    vmLoad[p.vm] := vmLoad[p.vm] + ExecTime(tasks[t], vms[p.vm]);
    remaining' := RemoveAt(remaining, p.slot);
  }
}
