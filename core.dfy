/**
 * Shared data model of the five batch-scheduling heuristics: tasks
 * (cloudlets), VMs, the completion-time formula and the per-task
 * "best VM" and "second-best time" that the load-aware heuristics scan for.
 */
module Core {

  datatype Option<T> = None | Some(value: T)

  /** A VM speed in MIPS. The heuristics divide by it, so it is positive. */
  type Mips = r: real | r > 0.0 witness 1.0

  /** A cloudlet: its identifier and its length in instructions. */
  datatype Task = Task(id: int, length: nat)

  /** A VM: its identifier and its speed. */
  datatype Vm = Vm(id: int, mips: Mips)

  /**
   * A completion time that may still be the "nothing found yet" sentinel.
   * The source starts its scans from Double.MAX_VALUE; here that sentinel
   * is Inf, which is above every finite time and equal only to itself.
   */
  datatype Ext = Fin(value: real) | Inf

  /** Strict order on extended times: a < b. */
  predicate Below(a: Ext, b: Ext)
  {
    a.Fin? && (b.Inf? || a.value < b.value)
  }

  /** x <= m < c gives x < c. */
  lemma AtMostThenBelow(x: Ext, m: Ext, c: Ext)
    requires !Below(m, x) && Below(m, c)
    ensures Below(x, c)
  {
  }

  /** The smaller of two extended times. */
  function MinE(a: Ext, b: Ext): (r: Ext)
    ensures r == a || r == b
    ensures !Below(a, r) && !Below(b, r)
  {
    if Below(b, a) then b else a
  }

  /** `second - best`, where an infinite second-best time gives an infinite gap. */
  function Gap(second: Ext, best: real): (r: Ext)
    ensures r.Inf? <==> second.Inf?
    ensures second.Fin? ==> r.value + best == second.value
    ensures second.Fin? && second.value >= best ==> r.value >= 0.0
  {
    match second
    case Inf => Inf
    case Fin(s) => Fin(s - best)
  }

  /** Time the VM needs to run the task on its own: length / speed. */
  function ExecTime(t: Task, vm: Vm): (r: real)
    ensures r >= 0.0
    ensures r == 0.0 <==> t.length == 0
  {
    t.length as real / vm.mips
  }

  /**
   * Completion time of task `t` on VM number `v` when that VM already carries
   * `load[v]`: the one formula all three load-aware heuristics use.
   */
  function Ct(t: Task, vms: seq<Vm>, load: seq<real>, v: int): (r: real)
    requires 0 <= v < |vms| == |load|
    ensures r >= load[v]
    ensures r == load[v] <==> t.length == 0
  {
    ExecTime(t, vms[v]) + load[v]
  }

  predicate NonNegative(load: seq<real>)
  {
    forall v :: 0 <= v < |load| ==> load[v] >= 0.0
  }

  /**
   * The first VM among `vms[..n]` that minimises the completion time of `t`:
   * no VM does better, and every VM before it does strictly worse.
   */
  function BestVm(t: Task, vms: seq<Vm>, load: seq<real>, n: nat): (b: nat)
    requires 0 < n <= |vms| == |load|
    ensures b < n
    ensures forall v :: 0 <= v < n ==> Ct(t, vms, load, b) <= Ct(t, vms, load, v)
    ensures forall v :: 0 <= v < b ==> Ct(t, vms, load, b) < Ct(t, vms, load, v)
    decreases n
  {
    if n == 1 then 0
    else
      var b := BestVm(t, vms, load, n - 1);
      if Ct(t, vms, load, n - 1) < Ct(t, vms, load, b) then n - 1 else b
  }

  /**
   * The smallest completion time of `t` over all VMs: no VM finishes `t`
   * earlier, and some VM finishes it exactly then.
   */
  function MinTime(t: Task, vms: seq<Vm>, load: seq<real>): (r: real)
    requires 0 < |vms| == |load|
    ensures forall v :: 0 <= v < |vms| ==> r <= Ct(t, vms, load, v)
    ensures exists v :: 0 <= v < |vms| && r == Ct(t, vms, load, v)
  {
    Ct(t, vms, load, BestVm(t, vms, load, |vms|))
  }

  /**
   * The smallest completion time of `t` over the VMs of `vms[..n]` other than
   * VM `s`, or Inf when there is no such VM.
   */
  function SecondTime(t: Task, vms: seq<Vm>, load: seq<real>, s: nat, n: nat): (r: Ext)
    requires n <= |vms| == |load|
    ensures r == Inf <==> n == 0 || (n == 1 && s == 0)
    ensures r.Fin? ==> forall v :: 0 <= v < n && v != s ==> r.value <= Ct(t, vms, load, v)
    ensures r.Fin? ==> exists v :: 0 <= v < n && v != s && Ct(t, vms, load, v) == r.value
    decreases n
  {
    if n == 0 then Inf
    else
      var r := SecondTime(t, vms, load, s, n - 1);
      if n - 1 == s then r else MinE(r, Fin(Ct(t, vms, load, n - 1)))
  }

  /**
   * The sufferage of `t`: its second-best completion time minus its best.
   * With a single VM there is no second-best time and the sufferage is Inf.
   */
  function SufferageOf(t: Task, vms: seq<Vm>, load: seq<real>): (r: Ext)
    requires 0 < |vms| == |load|
    ensures r == Inf <==> |vms| == 1
    ensures r.Fin? ==> r.value >= 0.0
  {
    var b := BestVm(t, vms, load, |vms|);
    Gap(SecondTime(t, vms, load, b, |vms|), Ct(t, vms, load, b))
  }
}
