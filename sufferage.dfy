/**
 * Sufferage: every round finds, for each remaining cloudlet, its best and
 * second-best completion times, and commits the cloudlet with the largest
 * gap between them (the first one on a tie) to its best VM.
 */
module SufferageSched {
  import opened Core
  import opened Rounds
  import opened RunFacts
  import opened Commit

  /**
   * Over a prefix that does not contain VM s, the smallest time other than
   * s's is simply the smallest time: the time of the prefix's first best VM.
   */
  lemma {:induction false} SecondTimeWithoutExcluded(t: Task, vms: seq<Vm>, load: seq<real>, s: nat, n: nat)
    requires n <= |vms| == |load| && s >= n
    ensures n == 0 ==> SecondTime(t, vms, load, s, n) == Inf
    ensures n > 0 ==> SecondTime(t, vms, load, s, n) == Fin(Ct(t, vms, load, BestVm(t, vms, load, n)))
  {
    if n > 1 {
      SecondTimeWithoutExcluded(t, vms, load, s, n - 1);
    }
  }

  /** How the best VM and the second-best time change when the scan takes in VM i. */
  lemma TwoBestStep(t: Task, vms: seq<Vm>, load: seq<real>, i: nat)
    requires 0 < i < |vms| == |load|
    ensures var b := BestVm(t, vms, load, i);
      if Ct(t, vms, load, i) < Ct(t, vms, load, b) then
        && BestVm(t, vms, load, i + 1) == i
        && SecondTime(t, vms, load, i, i + 1) == Fin(Ct(t, vms, load, b))
      else
        && BestVm(t, vms, load, i + 1) == b
        && SecondTime(t, vms, load, b, i + 1) == MinE(SecondTime(t, vms, load, b, i), Fin(Ct(t, vms, load, i)))
  {
    SecondTimeWithoutExcluded(t, vms, load, i, i);
  }

  /**
   * The inner VM loop for one cloudlet. A time strictly below the best
   * pushes the best down to second place; otherwise a time strictly below
   * the second best replaces it. So afterwards the best time is the minimum,
   * `selectedVm` is the first VM reaching it, and the second-best time is the
   * smallest time among the other VMs (equal to the best on a tie, and the
   * Double.MAX_VALUE sentinel, Inf, with a single VM).
   */
  method ScanTwoBest(cloudlet: Task, vms: seq<Vm>, load: seq<real>)
      returns (bestTime: Ext, secondBestTime: Ext, selectedVm: int)
    requires |load| == |vms|
    ensures |vms| == 0 ==> bestTime == Inf && secondBestTime == Inf && selectedVm == -1
    ensures |vms| > 0 ==>
      && 0 <= selectedVm < |vms|
      && selectedVm == BestVm(cloudlet, vms, load, |vms|)
      && bestTime == Fin(MinTime(cloudlet, vms, load))
      && secondBestTime == SecondTime(cloudlet, vms, load, selectedVm, |vms|)
      && !Below(secondBestTime, bestTime)
      && Gap(secondBestTime, bestTime.value) == SufferageOf(cloudlet, vms, load)
  {
    bestTime := Inf;
    secondBestTime := Inf;
    selectedVm := -1;
    for i := 0 to |vms|
      invariant i == 0 ==> bestTime == Inf && secondBestTime == Inf && selectedVm == -1
      invariant i > 0 ==>
        && selectedVm == BestVm(cloudlet, vms, load, i)
        && bestTime == Fin(Ct(cloudlet, vms, load, selectedVm))
        && secondBestTime == SecondTime(cloudlet, vms, load, selectedVm, i)
    {
      var execTime := Ct(cloudlet, vms, load, i);
      if i > 0 {
        TwoBestStep(cloudlet, vms, load, i);
      }
      if Below(Fin(execTime), bestTime) {
        secondBestTime := bestTime;
        bestTime := Fin(execTime);
        selectedVm := i;
      } else if Below(Fin(execTime), secondBestTime) {
        secondBestTime := Fin(execTime);
      }
    }
  }

  /** `sufs` lists the sufferages of the first |sufs| remaining cloudlets, in list order. */
  ghost predicate SufferagesOfPrefix(tasks: seq<Task>, vms: seq<Vm>, remaining: seq<nat>, load: seq<real>, sufs: seq<Ext>)
  {
    && Ready(tasks, vms, remaining, load) && 0 < |vms| && |sufs| <= |remaining|
    && forall k :: 0 <= k < |sufs| ==> sufs[k] == SufferageOf(tasks[remaining[k]], vms, load)
  }

  lemma SufferagesOfPrefixExtend(tasks: seq<Task>, vms: seq<Vm>, remaining: seq<nat>, load: seq<real>, sufs: seq<Ext>)
    requires SufferagesOfPrefix(tasks, vms, remaining, load, sufs) && |sufs| < |remaining|
    ensures SufferagesOfPrefix(tasks, vms, remaining, load, sufs + [SufferageOf(tasks[remaining[|sufs|]], vms, load)])
  {
  }

  /**
   * Position j holds the first maximum of `vals`: no value is above it, and
   * every value before it is strictly below it.
   */
  predicate IsFirstMax(vals: seq<Ext>, j: nat)
  {
    && j < |vals|
    && (forall k :: 0 <= k < |vals| ==> !Below(vals[j], vals[k]))
    && (forall k :: 0 <= k < j ==> Below(vals[k], vals[j]))
  }

  /**
   * The scan's update `if (sufferageValue > maxSufferage)`: a new value
   * strictly above the maximum so far becomes the first maximum; any other
   * value leaves it in place.
   */
  lemma FirstMaxExtend(vals: seq<Ext>, j: nat, v: Ext)
    requires IsFirstMax(vals, j)
    ensures Below(vals[j], v) ==> IsFirstMax(vals + [v], |vals|)
    ensures !Below(vals[j], v) ==> IsFirstMax(vals + [v], j)
  {
    if Below(vals[j], v) {
      forall k | 0 <= k < |vals|
        ensures Below(vals[k], v)
      {
        AtMostThenBelow(vals[k], vals[j], v);
      }
    }
  }

  /**
   * A slot whose sufferage is the largest of all, and strictly larger than
   * every earlier one, is Sufferage's pick when it goes to its best VM.
   */
  lemma FirstMaxIsPick(tasks: seq<Task>, vms: seq<Vm>, remaining: seq<nat>, load: seq<real>, sufs: seq<Ext>, p: Pick)
    requires SufferagesOfPrefix(tasks, vms, remaining, load, sufs) && |sufs| == |remaining|
    requires p.slot < |remaining| && p.vm == BestVm(tasks[remaining[p.slot]], vms, load, |vms|)
    requires IsFirstMax(sufs, p.slot)
    ensures IsSufferagePick(tasks, vms, remaining, load, p)
  {
  }

  /**
   * One selection scan. The running maximum starts at -1 and sufferages are
   * never negative, so the first cloudlet is always taken.
   */
  method SelectSufferage(tasks: seq<Task>, vms: seq<Vm>, load: seq<real>, remaining: seq<nat>)
      returns (choice: Option<Pick>)
    requires Ready(tasks, vms, remaining, load)
    requires |remaining| == 0 || |vms| > 0
    ensures choice.Some? <==> |remaining| > 0
    ensures choice.Some? ==> IsSufferagePick(tasks, vms, remaining, load, choice.value)
  {
    // The sufferages scanned so far, so that the loop invariants speak of
    // sequence elements.
    ghost var sufferages: seq<Ext> := [];
    choice := None;
    var maxSufferage := Fin(-1.0);
    for k := 0 to |remaining|
      invariant |sufferages| == k
      invariant |remaining| > 0 ==> SufferagesOfPrefix(tasks, vms, remaining, load, sufferages)
      invariant choice.Some? <==> k > 0
      invariant choice.None? ==> maxSufferage == Fin(-1.0)
      invariant choice.Some? ==>
        && choice.value.slot < k
        && choice.value.vm == BestVm(tasks[remaining[choice.value.slot]], vms, load, |vms|)
        && maxSufferage == sufferages[choice.value.slot]
        && IsFirstMax(sufferages, choice.value.slot)
    {
      var bestTime, secondBestTime, selectedVm := ScanTwoBest(tasks[remaining[k]], vms, load);
      var sufferageValue := Gap(secondBestTime, bestTime.value);
      SufferagesOfPrefixExtend(tasks, vms, remaining, load, sufferages);
      if choice.Some? {
        FirstMaxExtend(sufferages, choice.value.slot, sufferageValue);
      }
      if Below(maxSufferage, sufferageValue) {
        maxSufferage := sufferageValue;
        choice := Some(Pick(k, selectedVm));
      }
      sufferages := sufferages + [sufferageValue];
    }
    if choice.Some? {
      FirstMaxIsPick(tasks, vms, remaining, load, sufferages, choice.value);
    }
  }

  /**
   * The sufferage is zero exactly when some VM other than the first best one
   * reaches the same minimum time: a tie for the best leaves the cloudlet
   * nothing to lose.
   */
  lemma ZeroSufferageIffTie(t: Task, vms: seq<Vm>, load: seq<real>)
    requires 0 < |vms| == |load|
    ensures SufferageOf(t, vms, load) == Fin(0.0) <==>
      exists w :: 0 <= w < |vms| && w != BestVm(t, vms, load, |vms|) && Ct(t, vms, load, w) == MinTime(t, vms, load)
  {
    var b := BestVm(t, vms, load, |vms|);
    var second := SecondTime(t, vms, load, b, |vms|);
    if exists w :: 0 <= w < |vms| && w != b && Ct(t, vms, load, w) == MinTime(t, vms, load) {
      var w :| 0 <= w < |vms| && w != b && Ct(t, vms, load, w) == MinTime(t, vms, load);
      assert second.Fin?;
      var u :| 0 <= u < |vms| && u != b && Ct(t, vms, load, u) == second.value;
      assert second.value <= Ct(t, vms, load, w);
      assert Ct(t, vms, load, b) <= Ct(t, vms, load, u);
    }
    if SufferageOf(t, vms, load) == Fin(0.0) {
      var u :| 0 <= u < |vms| && u != b && Ct(t, vms, load, u) == second.value;
      assert Ct(t, vms, load, u) == MinTime(t, vms, load);
    }
  }

  /**
   * With a single VM every sufferage is the Double.MAX_VALUE sentinel, no
   * later cloudlet beats the first, and the rounds take the cloudlets in
   * list order.
   */
  lemma SingleVmPicksFirst(tasks: seq<Task>, vms: seq<Vm>, remaining: seq<nat>, load: seq<real>, p: Pick)
    requires |vms| == 1
    requires IsSufferagePick(tasks, vms, remaining, load, p)
    ensures p == Pick(0, 0)
  {
    assert !Below(SufferageOf(tasks[remaining[0]], vms, load), SufferageOf(tasks[remaining[p.slot]], vms, load));
  }

  /**
   * The whole Sufferage run, with the same outputs as Min-Min's: the
   * cloudlets' VM ids by position, the final `vmLoad`, and the ghost rounds.
   */
  method RunSufferage(tasks: seq<Task>, vms: seq<Vm>, assignedVm: array<int>)
      returns (vmLoad: array<real>, ghost picks: seq<Pick>)
    requires |tasks| == 0 || |vms| > 0
    requires assignedVm.Length == |tasks|
    modifies assignedVm
    ensures Complete(Sufferage, tasks, vms, picks)
    ensures Realises(tasks, vms, StateAfter(tasks, vms, picks), assignedVm[..], vmLoad[..])
    ensures fresh(vmLoad)
  {
    var remainingCloudlets := Iota(|tasks|);
    vmLoad := new real[|vms|](_ => 0.0);
    picks := [];
    assert Mirrors(tasks, vms, StateAfter(tasks, vms, picks), remainingCloudlets, vmLoad[..], assignedVm[..]);
    while |remainingCloudlets| > 0
      invariant ValidRun(Sufferage, tasks, vms, picks)
      invariant Mirrors(tasks, vms, StateAfter(tasks, vms, picks), remainingCloudlets, vmLoad[..], assignedVm[..])
      decreases |remainingCloudlets|
    {
      ghost var st := StateAfter(tasks, vms, picks);
      var selectedCloudlet := SelectSufferage(tasks, vms, vmLoad[..], remainingCloudlets);
      if selectedCloudlet.Some? {
        RoundStep(Sufferage, tasks, vms, picks, st, selectedCloudlet.value);
        remainingCloudlets := CommitPick(tasks, vms, assignedVm, vmLoad, remainingCloudlets, selectedCloudlet.value, st);
        picks := picks + [selectedCloudlet.value];
      }
    }
    CompleteRealises(Sufferage, tasks, vms, picks, assignedVm[..], vmLoad[..]);
  }
}
