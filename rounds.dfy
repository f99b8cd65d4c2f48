/**
 * The rounds of the three load-aware heuristics (Min-Min, Max-Min and
 * Sufferage). Each round of the source's `while (!remainingCloudlets.isEmpty())`
 * loop picks one remaining cloudlet and one VM, sets the cloudlet's VM, adds
 * the cloudlet's execution time to that VM's entry of `vmLoad` and removes
 * the cloudlet from the remaining list. This module states what each
 * heuristic's pick is, what a round does to the state, and what a whole run
 * is, and proves the facts the three heuristics share.
 */
module Rounds {
  import opened Core

  datatype Heuristic = MinMin | MaxMin | Sufferage

  /** A round's choice: the position `slot` in the remaining list, and a VM index. */
  datatype Pick = Pick(slot: nat, vm: nat)

  /**
   * The scheduler's state between rounds: the remaining list (task positions,
   * in list order), the load vector, and for every task the index of the VM
   * it was given, or -1 while it is unassigned.
   */
  datatype Sched = Sched(remaining: seq<nat>, load: seq<real>, owner: seq<int>)

  /** The remaining list refers to tasks, and there is one load entry per VM. */
  predicate Ready(tasks: seq<Task>, vms: seq<Vm>, remaining: seq<nat>, load: seq<real>)
  {
    |load| == |vms| && forall k :: 0 <= k < |remaining| ==> remaining[k] < |tasks|
  }

  /** Pair (k, v) comes before pair (k', v') in the task-outer, VM-inner scan order. */
  predicate ScannedBefore(k: int, v: int, k': int, v': int)
  {
    k < k' || (k == k' && v < v')
  }

  /**
   * Min-Min's pick: the (remaining task, VM) pair with the smallest completion
   * time; every pair scanned before it is strictly slower.
   */
  ghost predicate IsMinMinPick(tasks: seq<Task>, vms: seq<Vm>, remaining: seq<nat>, load: seq<real>, p: Pick): (r: bool)
    ensures r ==> p.slot < |remaining| && remaining[p.slot] < |tasks| && p.vm < |vms| == |load|
    ensures r ==> forall v :: 0 <= v < |vms| ==>
      Ct(tasks[remaining[p.slot]], vms, load, p.vm) <= Ct(tasks[remaining[p.slot]], vms, load, v)
  {
    && Ready(tasks, vms, remaining, load)
    && p.slot < |remaining| && p.vm < |vms|
    && (forall k, v :: 0 <= k < |remaining| && 0 <= v < |vms| ==>
          Ct(tasks[remaining[p.slot]], vms, load, p.vm) <= Ct(tasks[remaining[k]], vms, load, v))
    && (forall k, v :: 0 <= k < |remaining| && 0 <= v < |vms| && ScannedBefore(k, v, p.slot, p.vm) ==>
          Ct(tasks[remaining[p.slot]], vms, load, p.vm) < Ct(tasks[remaining[k]], vms, load, v))
  }

  /**
   * Max-Min's pick: the remaining task whose own best completion time is the
   * largest, every earlier task's being strictly smaller, on its first best VM.
   */
  ghost predicate IsMaxMinPick(tasks: seq<Task>, vms: seq<Vm>, remaining: seq<nat>, load: seq<real>, p: Pick): (r: bool)
    ensures r ==> p.slot < |remaining| && remaining[p.slot] < |tasks| && p.vm < |vms| == |load|
    ensures r ==> forall v :: 0 <= v < |vms| ==>
      Ct(tasks[remaining[p.slot]], vms, load, p.vm) <= Ct(tasks[remaining[p.slot]], vms, load, v)
  {
    && Ready(tasks, vms, remaining, load)
    && 0 < |vms| && p.slot < |remaining|
    && p.vm == BestVm(tasks[remaining[p.slot]], vms, load, |vms|)
    && (forall k :: 0 <= k < |remaining| ==>
          MinTime(tasks[remaining[k]], vms, load) <= MinTime(tasks[remaining[p.slot]], vms, load))
    && (forall k :: 0 <= k < p.slot ==>
          MinTime(tasks[remaining[k]], vms, load) < MinTime(tasks[remaining[p.slot]], vms, load))
  }

  /**
   * Sufferage's pick: the remaining task with the largest sufferage, every
   * earlier task's being strictly smaller, on its first best VM.
   */
  ghost predicate IsSufferagePick(tasks: seq<Task>, vms: seq<Vm>, remaining: seq<nat>, load: seq<real>, p: Pick): (r: bool)
    ensures r ==> p.slot < |remaining| && remaining[p.slot] < |tasks| && p.vm < |vms| == |load|
    ensures r ==> forall v :: 0 <= v < |vms| ==>
      Ct(tasks[remaining[p.slot]], vms, load, p.vm) <= Ct(tasks[remaining[p.slot]], vms, load, v)
  {
    && Ready(tasks, vms, remaining, load)
    && 0 < |vms| && p.slot < |remaining|
    && p.vm == BestVm(tasks[remaining[p.slot]], vms, load, |vms|)
    && (forall k :: 0 <= k < |remaining| ==>
          !Below(SufferageOf(tasks[remaining[p.slot]], vms, load), SufferageOf(tasks[remaining[k]], vms, load)))
    && (forall k :: 0 <= k < p.slot ==>
          Below(SufferageOf(tasks[remaining[k]], vms, load), SufferageOf(tasks[remaining[p.slot]], vms, load)))
  }

  ghost predicate IsPick(h: Heuristic, tasks: seq<Task>, vms: seq<Vm>, st: Sched, p: Pick)
  {
    match h
    case MinMin => IsMinMinPick(tasks, vms, st.remaining, st.load, p)
    case MaxMin => IsMaxMinPick(tasks, vms, st.remaining, st.load, p)
    case Sufferage => IsSufferagePick(tasks, vms, st.remaining, st.load, p)
  }

  /** Removes the element at position k: `remainingCloudlets.remove(c)` for the c found there. */
  function RemoveAt(s: seq<nat>, k: nat): (r: seq<nat>)
    requires k < |s|
    ensures |r| == |s| - 1
    ensures forall i :: 0 <= i < k ==> r[i] == s[i]
    ensures forall i :: k <= i < |r| ==> r[i] == s[i + 1]
  {
    s[..k] + s[k + 1..]
  }

  function Iota(n: nat): (r: seq<nat>)
    ensures |r| == n && forall i :: 0 <= i < n ==> r[i] == i
  {
    if n == 0 then [] else Iota(n - 1) + [n - 1]
  }

  /** The state before the first round: every task remaining, every load zero, no task assigned. */
  function Init(tasks: seq<Task>, vms: seq<Vm>): (r: Sched)
    ensures Ready(tasks, vms, r.remaining, r.load) && NonNegative(r.load)
    ensures |r.remaining| == |r.owner| == |tasks| && |r.load| == |vms|
    ensures forall i :: 0 <= i < |tasks| ==> r.remaining[i] == i && r.owner[i] == -1
    ensures forall v :: 0 <= v < |vms| ==> r.load[v] == 0.0
  {
    Sched(Iota(|tasks|), seq(|vms|, _ => 0.0), seq(|tasks|, _ => -1))
  }

  predicate Applicable(tasks: seq<Task>, vms: seq<Vm>, st: Sched, p: Pick)
  {
    && p.slot < |st.remaining| && st.remaining[p.slot] < |tasks| && st.remaining[p.slot] < |st.owner|
    && p.vm < |vms| && |st.load| == |vms|
  }

  /**
   * One round's update for pick p: the picked task gets the VM, the VM's load
   * grows by the task's execution time on it, and the task leaves the
   * remaining list. (A pick outside the state changes nothing; no heuristic
   * makes one.)
   */
  function Apply(tasks: seq<Task>, vms: seq<Vm>, st: Sched, p: Pick): (r: Sched)
    ensures |r.load| == |st.load| && |r.owner| == |st.owner|
    ensures forall v :: 0 <= v < |st.load| ==> r.load[v] >= st.load[v]
    ensures Applicable(tasks, vms, st, p) ==> |r.remaining| == |st.remaining| - 1
    ensures |r.remaining| <= |st.remaining|
  {
    if Applicable(tasks, vms, st, p) then
      var t := st.remaining[p.slot];
      Sched(RemoveAt(st.remaining, p.slot),
            st.load[p.vm := st.load[p.vm] + ExecTime(tasks[t], vms[p.vm])],
            st.owner[t := p.vm])
    else st
  }

  /** The state after making the picks in order, starting from Init. */
  function StateAfter(tasks: seq<Task>, vms: seq<Vm>, picks: seq<Pick>): (r: Sched)
    ensures |r.load| == |vms| && |r.owner| == |tasks| && |r.remaining| <= |tasks|
    ensures NonNegative(r.load)
    decreases |picks|
  {
    if picks == [] then Init(tasks, vms)
    else Apply(tasks, vms, StateAfter(tasks, vms, picks[..|picks| - 1]), picks[|picks| - 1])
  }

  /** Taking the first n elements is taking the first n - 1 and then element n - 1. */
  lemma TakeLast<T>(s: seq<T>, n: nat)
    requires 0 < n <= |s|
    ensures s[..n] == s[..n - 1] + [s[n - 1]] && s[..n][..n - 1] == s[..n - 1]
  {
  }

  lemma TakeOfTake<T>(s: seq<T>, m: nat, r: nat)
    requires r <= m <= |s|
    ensures s[..m][..r] == s[..r]
  {
  }

  lemma TakeOfSnoc<T>(s: seq<T>, x: T, r: nat)
    requires r <= |s|
    ensures (s + [x])[..r] == s[..r] && (s + [x])[..|s|] == s
  {
  }

  /** Every pick is the heuristic's pick in the state the earlier picks left. */
  ghost predicate ValidRun(h: Heuristic, tasks: seq<Task>, vms: seq<Vm>, picks: seq<Pick>): (r: bool)
    ensures r ==> forall i :: 0 <= i < |picks| ==> picks[i].vm < |vms|
  {
    forall r :: 0 <= r < |picks| ==> IsPick(h, tasks, vms, StateAfter(tasks, vms, picks[..r]), picks[r])
  }

  /** A valid run that has emptied the remaining list: what the source's loop produces. */
  ghost predicate Complete(h: Heuristic, tasks: seq<Task>, vms: seq<Vm>, picks: seq<Pick>): (r: bool)
    ensures r ==> forall i :: 0 <= i < |picks| ==> picks[i].vm < |vms|
    ensures r && |tasks| > 0 ==> |picks| > 0
  {
    ValidRun(h, tasks, vms, picks) && StateAfter(tasks, vms, picks).remaining == []
  }

  /** Sum of the execution times, on VM v, of the tasks among the first n that are assigned to v. */
  function LoadOf(tasks: seq<Task>, vms: seq<Vm>, owner: seq<int>, v: nat, n: nat): (r: real)
    requires n <= |owner| == |tasks| && v < |vms|
    ensures r >= 0.0
    decreases n
  {
    if n == 0 then 0.0
    else LoadOf(tasks, vms, owner, v, n - 1) + (if owner[n - 1] == v then ExecTime(tasks[n - 1], vms[v]) else 0.0)
  }

  /**
   * The invariant every reachable state keeps: the remaining list holds
   * distinct tasks, exactly the unassigned ones; every assignment names a VM;
   * and each VM's load is the sum of the execution times of its tasks.
   */
  ghost predicate Consistent(tasks: seq<Task>, vms: seq<Vm>, st: Sched)
  {
    && |st.load| == |vms| && |st.owner| == |tasks|
    && (forall k :: 0 <= k < |st.remaining| ==> st.remaining[k] < |tasks|)
    && (forall k, l :: 0 <= k < l < |st.remaining| ==> st.remaining[k] != st.remaining[l])
    && (forall t :: 0 <= t < |tasks| ==> (t in st.remaining <==> st.owner[t] == -1))
    && (forall t :: 0 <= t < |tasks| ==> -1 <= st.owner[t] < |vms|)
    && (forall v :: 0 <= v < |vms| ==> st.load[v] == LoadOf(tasks, vms, st.owner, v, |tasks|))
  }

  /**
   * What a finished run hands back: `ids` gives every task the id of the VM
   * the state assigns it, `load` is the state's load vector, and each VM's
   * load is the sum of length / speed over the tasks assigned to it.
   */
  ghost predicate Realises(tasks: seq<Task>, vms: seq<Vm>, st: Sched, ids: seq<int>, load: seq<real>)
  {
    && |ids| == |tasks| && |st.owner| == |tasks| && load == st.load && |load| == |vms|
    && (forall t :: 0 <= t < |tasks| ==> 0 <= st.owner[t] < |vms| && ids[t] == vms[st.owner[t]].id)
    && (forall v :: 0 <= v < |vms| ==> load[v] == LoadOf(tasks, vms, st.owner, v, |tasks|))
  }

  /**
   * The source's variables mirror state `st`: the remaining list, the load
   * array and the cloudlets' VM ids agree with it (a task the state has not
   * assigned yet may hold any id).
   */
  ghost predicate Mirrors(tasks: seq<Task>, vms: seq<Vm>, st: Sched, remaining: seq<nat>, load: seq<real>, ids: seq<int>)
  {
    && st.remaining == remaining && st.load == load
    && |st.owner| == |tasks| == |ids|
    && (forall t :: 0 <= t < |tasks| ==> st.owner[t] < |vms|)
    && (forall t :: 0 <= t < |tasks| && st.owner[t] >= 0 ==> ids[t] == vms[st.owner[t]].id)
  }
}
