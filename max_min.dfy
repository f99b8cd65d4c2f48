/**
 * Max-Min: every round finds, for each remaining cloudlet, its own best VM
 * and minimum completion time, and commits the cloudlet whose minimum is the
 * largest (the first one on a tie) to that VM.
 */
module MaxMin {
  import opened Core
  import opened Rounds
  import opened RunFacts
  import opened Commit

  /**
   * The inner VM loop for one cloudlet: the smallest completion time and the
   * first VM reaching it. With no VMs the sentinels stay: Inf (the source's
   * Double.MAX_VALUE) and -1.
   */
  method ScanBestVm(cloudlet: Task, vms: seq<Vm>, load: seq<real>) returns (minCompletionTime: Ext, selectedVmIndex: int)
    requires |load| == |vms|
    ensures |vms| == 0 ==> minCompletionTime == Inf && selectedVmIndex == -1
    ensures |vms| > 0 ==>
      && 0 <= selectedVmIndex < |vms|
      && selectedVmIndex == BestVm(cloudlet, vms, load, |vms|)
      && minCompletionTime == Fin(MinTime(cloudlet, vms, load))
  {
    minCompletionTime := Inf;
    selectedVmIndex := -1;
    for i := 0 to |vms|
      invariant i == 0 ==> minCompletionTime == Inf && selectedVmIndex == -1
      invariant i > 0 ==>
        && selectedVmIndex == BestVm(cloudlet, vms, load, i)
        && minCompletionTime == Fin(Ct(cloudlet, vms, load, selectedVmIndex))
    {
      var execTime := Ct(cloudlet, vms, load, i);
      if Below(Fin(execTime), minCompletionTime) {
        minCompletionTime := Fin(execTime);
        selectedVmIndex := i;
      }
    }
  }

  /**
   * One selection scan. The running maximum starts at -1; completion times
   * are never negative when the loads are not, so the first cloudlet is
   * always taken and a pick exists whenever a cloudlet remains.
   */
  method SelectMaxMin(tasks: seq<Task>, vms: seq<Vm>, load: seq<real>, remaining: seq<nat>)
      returns (choice: Option<Pick>)
    requires Ready(tasks, vms, remaining, load) && NonNegative(load)
    requires |remaining| == 0 || |vms| > 0
    ensures choice.Some? <==> |remaining| > 0
    ensures choice.Some? ==> IsMaxMinPick(tasks, vms, remaining, load, choice.value)
  {
    choice := None;
    var maxMinCompletionTime := -1.0;
    for k := 0 to |remaining|
      invariant choice.Some? <==> k > 0
      invariant choice.None? ==> maxMinCompletionTime == -1.0
      invariant choice.Some? ==>
        && 0 < |vms| && choice.value.slot < k
        && choice.value.vm == BestVm(tasks[remaining[choice.value.slot]], vms, load, |vms|)
        && maxMinCompletionTime == MinTime(tasks[remaining[choice.value.slot]], vms, load)
        && (forall k' :: 0 <= k' < k ==> MinTime(tasks[remaining[k']], vms, load) <= maxMinCompletionTime)
        && (forall k' :: 0 <= k' < choice.value.slot ==> MinTime(tasks[remaining[k']], vms, load) < maxMinCompletionTime)
    {
      var minCompletionTime, selectedVmIndex := ScanBestVm(tasks[remaining[k]], vms, load);
      if Below(Fin(maxMinCompletionTime), minCompletionTime) {
        maxMinCompletionTime := minCompletionTime.value;
        choice := Some(Pick(k, selectedVmIndex));
      }
    }
  }

  /**
   * The whole Max-Min run, with the same outputs as Min-Min's: the cloudlets'
   * VM ids by position, the final `vmLoad`, and the ghost rounds.
   */
  method RunMaxMin(tasks: seq<Task>, vms: seq<Vm>, assignedVm: array<int>)
      returns (vmLoad: array<real>, ghost picks: seq<Pick>)
    requires |tasks| == 0 || |vms| > 0
    requires assignedVm.Length == |tasks|
    modifies assignedVm
    ensures Complete(MaxMin, tasks, vms, picks)
    ensures Realises(tasks, vms, StateAfter(tasks, vms, picks), assignedVm[..], vmLoad[..])
    ensures fresh(vmLoad)
  {
    var remainingCloudlets := Iota(|tasks|);
    vmLoad := new real[|vms|](_ => 0.0);
    picks := [];
    assert Mirrors(tasks, vms, StateAfter(tasks, vms, picks), remainingCloudlets, vmLoad[..], assignedVm[..]);
    while |remainingCloudlets| > 0
      invariant ValidRun(MaxMin, tasks, vms, picks)
      invariant Mirrors(tasks, vms, StateAfter(tasks, vms, picks), remainingCloudlets, vmLoad[..], assignedVm[..])
      decreases |remainingCloudlets|
    {
      ghost var st := StateAfter(tasks, vms, picks);
      StateAfterConsistent(tasks, vms, picks);
      var maxCloudlet := SelectMaxMin(tasks, vms, vmLoad[..], remainingCloudlets);
      if maxCloudlet.Some? {
        RoundStep(MaxMin, tasks, vms, picks, st, maxCloudlet.value);
        remainingCloudlets := CommitPick(tasks, vms, assignedVm, vmLoad, remainingCloudlets, maxCloudlet.value, st);
        picks := picks + [maxCloudlet.value];
      }
    }
    CompleteRealises(MaxMin, tasks, vms, picks, assignedVm[..], vmLoad[..]);
  }
}
