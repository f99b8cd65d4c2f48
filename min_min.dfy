/**
 * Min-Min: every round commits the (remaining cloudlet, VM) pair with the
 * smallest completion time over all pairs, scanning cloudlets in list order
 * and VMs in list order; the strict `<` keeps the first pair on a tie.
 */
module MinMin {
  import opened Core
  import opened Rounds
  import opened RunFacts
  import opened Commit

  /**
   * One scan of the nested loops. The running minimum starts at the
   * Double.MAX_VALUE sentinel (Inf), so the very first pair is taken; with
   * no VMs nothing is found and the result is None, as the source's
   * `minCloudlet` stays null.
   */
  method SelectMinMin(tasks: seq<Task>, vms: seq<Vm>, load: seq<real>, remaining: seq<nat>)
      returns (choice: Option<Pick>)
    requires Ready(tasks, vms, remaining, load)
    ensures choice.Some? <==> |remaining| > 0 && |vms| > 0
    ensures choice.Some? ==> IsMinMinPick(tasks, vms, remaining, load, choice.value)
  {
    choice := None;
    var minCompletionTime := Inf;
    for k := 0 to |remaining|
      invariant choice.Some? <==> k > 0 && |vms| > 0
      invariant choice.None? ==> minCompletionTime == Inf
      invariant choice.Some? ==>
        && choice.value.slot < k && choice.value.vm < |vms|
        && minCompletionTime == Fin(Ct(tasks[remaining[choice.value.slot]], vms, load, choice.value.vm))
      invariant choice.Some? ==> forall k', v :: 0 <= k' < k && 0 <= v < |vms| ==>
        minCompletionTime.value <= Ct(tasks[remaining[k']], vms, load, v)
      invariant choice.Some? ==> forall k', v ::
        0 <= k' < |remaining| && 0 <= v < |vms| && ScannedBefore(k', v, choice.value.slot, choice.value.vm) ==>
        minCompletionTime.value < Ct(tasks[remaining[k']], vms, load, v)
    {
      var cloudlet := tasks[remaining[k]];
      for i := 0 to |vms|
        invariant choice.Some? <==> (k > 0 || i > 0) && |vms| > 0
        invariant choice.None? ==> minCompletionTime == Inf
        invariant choice.Some? ==>
          && choice.value.slot <= k && choice.value.vm < |vms|
          && (choice.value.slot == k ==> choice.value.vm < i)
          && minCompletionTime == Fin(Ct(tasks[remaining[choice.value.slot]], vms, load, choice.value.vm))
        invariant choice.Some? ==> forall k', v :: 0 <= k' < |remaining| && 0 <= v < |vms| && ScannedBefore(k', v, k, i) ==>
          minCompletionTime.value <= Ct(tasks[remaining[k']], vms, load, v)
        invariant choice.Some? ==> forall k', v ::
          0 <= k' < |remaining| && 0 <= v < |vms| && ScannedBefore(k', v, choice.value.slot, choice.value.vm) ==>
          minCompletionTime.value < Ct(tasks[remaining[k']], vms, load, v)
      {
        var execTime := Ct(cloudlet, vms, load, i);
        if Below(Fin(execTime), minCompletionTime) {
          minCompletionTime := Fin(execTime);
          choice := Some(Pick(k, i));
        }
      }
    }
  }

  /**
   * Min-Min is the minimum over the tasks of each task's minimum over the
   * VMs: the pick goes to its task's first best VM, and no remaining task
   * has a smaller best completion time.
   */
  lemma MinMinIsMinOfMins(tasks: seq<Task>, vms: seq<Vm>, remaining: seq<nat>, load: seq<real>, p: Pick)
    requires IsMinMinPick(tasks, vms, remaining, load, p)
    ensures p.vm == BestVm(tasks[remaining[p.slot]], vms, load, |vms|)
    ensures forall k :: 0 <= k < |remaining| ==>
      MinTime(tasks[remaining[p.slot]], vms, load) <= MinTime(tasks[remaining[k]], vms, load)
  {
    var t := tasks[remaining[p.slot]];
    var b := BestVm(t, vms, load, |vms|);
    assert !ScannedBefore(p.slot, b, p.slot, p.vm);
    assert !(p.vm < b);
  }

  /**
   * The whole Min-Min run. `assignedVm` holds the VM id of each cloudlet, by
   * position in `tasks` (the cloudlets' `setVmId`); the returned array is the
   * final `vmLoad`. The ghost `picks` are the rounds, each Min-Min's pick
   * in the state the earlier rounds left.
   */
  method RunMinMin(tasks: seq<Task>, vms: seq<Vm>, assignedVm: array<int>)
      returns (vmLoad: array<real>, ghost picks: seq<Pick>)
    requires |tasks| == 0 || |vms| > 0
    requires assignedVm.Length == |tasks|
    modifies assignedVm
    ensures Complete(MinMin, tasks, vms, picks)
    ensures Realises(tasks, vms, StateAfter(tasks, vms, picks), assignedVm[..], vmLoad[..])
    ensures fresh(vmLoad)
  {
    var remainingCloudlets := Iota(|tasks|);
    vmLoad := new real[|vms|](_ => 0.0);
    picks := [];
    assert Mirrors(tasks, vms, StateAfter(tasks, vms, picks), remainingCloudlets, vmLoad[..], assignedVm[..]);
    while |remainingCloudlets| > 0
      invariant ValidRun(MinMin, tasks, vms, picks)
      invariant Mirrors(tasks, vms, StateAfter(tasks, vms, picks), remainingCloudlets, vmLoad[..], assignedVm[..])
      decreases |remainingCloudlets|
    {
      var minCloudlet := SelectMinMin(tasks, vms, vmLoad[..], remainingCloudlets);
      if minCloudlet.Some? {
        ghost var st := StateAfter(tasks, vms, picks);
        RoundStep(MinMin, tasks, vms, picks, st, minCloudlet.value);
        remainingCloudlets := CommitPick(tasks, vms, assignedVm, vmLoad, remainingCloudlets, minCloudlet.value, st);
        picks := picks + [minCloudlet.value];
      }
    }
    CompleteRealises(MinMin, tasks, vms, picks, assignedVm[..], vmLoad[..]);
  }
}
