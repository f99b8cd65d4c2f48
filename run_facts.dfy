/**
 * Facts shared by the Min-Min, Max-Min and Sufferage runs: every reachable
 * state keeps the load accounting exact, a complete run assigns every task
 * exactly once in |tasks| rounds, each heuristic's pick is unique, and so a
 * complete run is determined by its input.
 */
module RunFacts {
  import opened Core
  import opened Rounds

  lemma {:induction false} LoadOfAllUnassigned(tasks: seq<Task>, vms: seq<Vm>, owner: seq<int>, v: nat, n: nat)
    requires n <= |owner| == |tasks| && v < |vms|
    requires forall t :: 0 <= t < n ==> owner[t] == -1
    ensures LoadOf(tasks, vms, owner, v, n) == 0.0
  {
    if n > 0 {
      LoadOfAllUnassigned(tasks, vms, owner, v, n - 1);
    }
  }

  /**
   * Giving unassigned task t to VM u adds t's execution time to u's sum and
   * leaves every other VM's sum as it was.
   */
  lemma {:induction false} LoadOfAssign(tasks: seq<Task>, vms: seq<Vm>, owner: seq<int>, t: nat, u: nat, v: nat, n: nat)
    requires n <= |owner| == |tasks| && t < |owner| && u < |vms| && v < |vms|
    requires owner[t] == -1
    ensures LoadOf(tasks, vms, owner[t := u], v, n)
         == LoadOf(tasks, vms, owner, v, n) + (if v == u && t < n then ExecTime(tasks[t], vms[u]) else 0.0)
  {
    if n > 0 {
      LoadOfAssign(tasks, vms, owner, t, u, v, n - 1);
    }
  }

  lemma InitConsistent(tasks: seq<Task>, vms: seq<Vm>)
    ensures Consistent(tasks, vms, Init(tasks, vms))
  {
    var st := Init(tasks, vms);
    forall v | 0 <= v < |vms|
      ensures st.load[v] == LoadOf(tasks, vms, st.owner, v, |tasks|)
    {
      LoadOfAllUnassigned(tasks, vms, st.owner, v, |tasks|);
    }
    forall t | 0 <= t < |tasks|
      ensures t in st.remaining
    {
      assert st.remaining[t] == t;
    }
  }

  /** A round keeps the state consistent. */
  lemma ApplyConsistent(tasks: seq<Task>, vms: seq<Vm>, st: Sched, p: Pick)
    requires Consistent(tasks, vms, st)
    ensures Consistent(tasks, vms, Apply(tasks, vms, st, p))
  {
    if Applicable(tasks, vms, st, p) {
      var t := st.remaining[p.slot];
      var r := Apply(tasks, vms, st, p);
      assert st.owner[t] == -1;
      forall v | 0 <= v < |vms|
        ensures r.load[v] == LoadOf(tasks, vms, r.owner, v, |tasks|)
      {
        LoadOfAssign(tasks, vms, st.owner, t, p.vm, v, |tasks|);
      }
      forall x | 0 <= x < |tasks|
        ensures x in r.remaining <==> r.owner[x] == -1
      {
        if x in r.remaining {
          var i :| 0 <= i < |r.remaining| && r.remaining[i] == x;
          if i < p.slot {
            assert st.remaining[i] == x;
          } else {
            assert st.remaining[i + 1] == x;
          }
        }
      }
    }
  }

  /** Every state a sequence of rounds reaches is consistent. */
  lemma {:induction false} StateAfterConsistent(tasks: seq<Task>, vms: seq<Vm>, picks: seq<Pick>)
    ensures Consistent(tasks, vms, StateAfter(tasks, vms, picks))
    decreases |picks|
  {
    if picks == [] {
      InitConsistent(tasks, vms);
    } else {
      StateAfterConsistent(tasks, vms, picks[..|picks| - 1]);
      ApplyConsistent(tasks, vms, StateAfter(tasks, vms, picks[..|picks| - 1]), picks[|picks| - 1]);
    }
  }

  lemma PickApplicable(h: Heuristic, tasks: seq<Task>, vms: seq<Vm>, st: Sched, p: Pick)
    requires Consistent(tasks, vms, st) && IsPick(h, tasks, vms, st, p)
    ensures Applicable(tasks, vms, st, p)
  {
    if h == MaxMin || h == Sufferage {
      assert p.vm < |vms|;
    }
  }

  /** Dropping the last round of a valid run leaves a valid run. */
  lemma ValidRunPrefix(h: Heuristic, tasks: seq<Task>, vms: seq<Vm>, picks: seq<Pick>)
    requires ValidRun(h, tasks, vms, picks) && picks != []
    ensures ValidRun(h, tasks, vms, picks[..|picks| - 1])
  {
    var prefix := picks[..|picks| - 1];
    forall r | 0 <= r < |prefix|
      ensures IsPick(h, tasks, vms, StateAfter(tasks, vms, prefix[..r]), prefix[r])
    {
      TakeOfTake(picks, |picks| - 1, r);
    }
  }

  /** Each round of a valid run removes exactly one task from the remaining list. */
  lemma {:induction false} ValidRunRemaining(h: Heuristic, tasks: seq<Task>, vms: seq<Vm>, picks: seq<Pick>)
    requires ValidRun(h, tasks, vms, picks)
    ensures |picks| <= |tasks|
    ensures |StateAfter(tasks, vms, picks).remaining| == |tasks| - |picks|
    decreases |picks|
  {
    if picks != [] {
      var prefix := picks[..|picks| - 1];
      ValidRunPrefix(h, tasks, vms, picks);
      ValidRunRemaining(h, tasks, vms, prefix);
      StateAfterConsistent(tasks, vms, prefix);
      PickApplicable(h, tasks, vms, StateAfter(tasks, vms, prefix), picks[|picks| - 1]);
    }
  }

  /**
   * Completeness and load conservation: a complete run takes exactly |tasks|
   * rounds, every task ends up on a VM, and every VM's load is the sum of
   * length / speed over the tasks assigned to it.
   */
  lemma CompleteRun(h: Heuristic, tasks: seq<Task>, vms: seq<Vm>, picks: seq<Pick>)
    requires Complete(h, tasks, vms, picks)
    ensures |picks| == |tasks|
    ensures var st := StateAfter(tasks, vms, picks);
      && |st.owner| == |tasks| && |st.load| == |vms|
      && (forall t :: 0 <= t < |tasks| ==> 0 <= st.owner[t] < |vms|)
      && (forall v :: 0 <= v < |vms| ==> st.load[v] == LoadOf(tasks, vms, st.owner, v, |tasks|))
  {
    ValidRunRemaining(h, tasks, vms, picks);
    StateAfterConsistent(tasks, vms, picks);
  }

  /** Each heuristic's pick is determined by the state: strict comparisons leave no ties open. */
  lemma PickUnique(h: Heuristic, tasks: seq<Task>, vms: seq<Vm>, st: Sched, p: Pick, q: Pick)
    requires IsPick(h, tasks, vms, st, p) && IsPick(h, tasks, vms, st, q)
    ensures p == q
  {
    match h
    case MinMin =>
      assert !ScannedBefore(p.slot, p.vm, q.slot, q.vm);
      assert !ScannedBefore(q.slot, q.vm, p.slot, p.vm);
    case MaxMin =>
      assert !(p.slot < q.slot) && !(q.slot < p.slot);
    case Sufferage =>
      assert !(p.slot < q.slot) && !(q.slot < p.slot);
  }

  /**
   * Determinism: two complete runs of the same heuristic on the same input
   * make the same picks, so they end in the same assignment and loads.
   */
  lemma RunDeterministic(h: Heuristic, tasks: seq<Task>, vms: seq<Vm>, picks: seq<Pick>, picks': seq<Pick>)
    requires Complete(h, tasks, vms, picks) && Complete(h, tasks, vms, picks')
    ensures picks == picks'
  {
    CompleteRun(h, tasks, vms, picks);
    CompleteRun(h, tasks, vms, picks');
    SamePrefix(h, tasks, vms, picks, picks', |picks|);
    assert picks == picks[..|picks|] && picks' == picks'[..|picks|];
  }

  lemma {:induction false} SamePrefix(h: Heuristic, tasks: seq<Task>, vms: seq<Vm>, picks: seq<Pick>, picks': seq<Pick>, n: nat)
    requires ValidRun(h, tasks, vms, picks) && ValidRun(h, tasks, vms, picks')
    requires n <= |picks| && n <= |picks'|
    ensures picks[..n] == picks'[..n]
    decreases n
  {
    if n > 0 {
      SamePrefix(h, tasks, vms, picks, picks', n - 1);
      var st := StateAfter(tasks, vms, picks[..n - 1]);
      assert StateAfter(tasks, vms, picks'[..n - 1]) == st;
      PickUnique(h, tasks, vms, st, picks[n - 1], picks'[n - 1]);
      TakeLast(picks, n);
      TakeLast(picks', n);
    }
  }

  /**
   * One round of a run: appending the heuristic's pick in the current state
   * extends a valid run, and the new state is the old one with the picked
   * task removed, assigned and its execution time added to the VM's load.
   */
  lemma RoundStep(h: Heuristic, tasks: seq<Task>, vms: seq<Vm>, picks: seq<Pick>, st: Sched, p: Pick)
    requires ValidRun(h, tasks, vms, picks) && st == StateAfter(tasks, vms, picks)
    requires |st.owner| == |tasks| && IsPick(h, tasks, vms, st, p)
    ensures Applicable(tasks, vms, st, p)
    ensures ValidRun(h, tasks, vms, picks + [p])
    ensures StateAfter(tasks, vms, picks + [p]) == Apply(tasks, vms, st, p)
  {
    var ext := picks + [p];
    TakeOfSnoc(picks, p, |picks|);
    forall r | 0 <= r < |ext|
      ensures IsPick(h, tasks, vms, StateAfter(tasks, vms, ext[..r]), ext[r])
    {
      TakeOfSnoc(picks, p, r);
      if r < |picks| {
        assert ext[r] == picks[r];
      }
    }
  }

  /** A complete run whose assignments have all been written out realises its final state. */
  lemma CompleteRealises(h: Heuristic, tasks: seq<Task>, vms: seq<Vm>, picks: seq<Pick>, ids: seq<int>, load: seq<real>)
    requires Complete(h, tasks, vms, picks)
    requires var st := StateAfter(tasks, vms, picks);
      && |ids| == |tasks| && load == st.load && |st.owner| == |tasks|
      && forall t :: 0 <= t < |tasks| && 0 <= st.owner[t] < |vms| ==> ids[t] == vms[st.owner[t]].id
    ensures Realises(tasks, vms, StateAfter(tasks, vms, picks), ids, load)
  {
    CompleteRun(h, tasks, vms, picks);
  }

  /**
   * A round changes exactly one load, by the picked task's length over the
   * VM's speed, records that VM for that task only, and removes the task
   * from the remaining list.
   */
  lemma ApplyChangesOneVm(tasks: seq<Task>, vms: seq<Vm>, st: Sched, p: Pick)
    requires Applicable(tasks, vms, st, p)
    ensures var r, t := Apply(tasks, vms, st, p), st.remaining[p.slot];
      && (forall v :: 0 <= v < |vms| ==>
            r.load[v] == st.load[v] + (if v == p.vm then ExecTime(tasks[t], vms[v]) else 0.0))
      && r.owner[t] == p.vm
      && (forall x :: 0 <= x < |st.owner| && x != t ==> r.owner[x] == st.owner[x])
      && r.remaining == RemoveAt(st.remaining, p.slot)
  {
  }

  /** Loads only grow: every load after n rounds is at most the same load at the end. */
  lemma {:induction false} LoadsGrow(tasks: seq<Task>, vms: seq<Vm>, picks: seq<Pick>, n: nat, v: nat)
    requires n <= |picks| && v < |vms|
    ensures |StateAfter(tasks, vms, picks[..n]).load| == |StateAfter(tasks, vms, picks).load| == |vms|
    ensures StateAfter(tasks, vms, picks[..n]).load[v] <= StateAfter(tasks, vms, picks).load[v]
    decreases |picks|
  {
    if n < |picks| {
      var prefix := picks[..|picks| - 1];
      LoadsGrow(tasks, vms, prefix, n, v);
      TakeOfTake(picks, |picks| - 1, n);
    } else {
      assert picks[..n] == picks;
      StateAfterConsistent(tasks, vms, picks);
    }
  }

  /**
   * Without a VM no run can finish: no heuristic has a pick, while the
   * remaining list starts out holding every task. The source then throws
   * (FIFO, Shortest-First, Max-Min, Sufferage) or loops forever (Min-Min).
   */
  lemma NoRunWithoutVms(h: Heuristic, tasks: seq<Task>, vms: seq<Vm>, picks: seq<Pick>)
    requires |vms| == 0 && |tasks| > 0
    ensures !Complete(h, tasks, vms, picks)
  {
    if |picks| > 0 {
      assert !IsPick(h, tasks, vms, StateAfter(tasks, vms, picks[..0]), picks[0]);
    } else {
      assert StateAfter(tasks, vms, picks).remaining == Iota(|tasks|);
    }
  }
}
