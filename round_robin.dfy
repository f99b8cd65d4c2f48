/**
 * The two load-blind heuristics. FIFO hands the cloudlets, in list order, to
 * the VMs in turn. Shortest-First first sorts the cloudlet list by length,
 * stably and in place, and then hands the cloudlets out in the same way.
 */
module RoundRobin {
  import opened Core
  import opened Rounds

  /** Euclidean division leaves one remainder: a = q * m + r with 0 <= r < m fixes a % m. */
  lemma ModUnique(a: int, m: int, q: int, r: int)
    requires m > 0 && 0 <= r < m && a == q * m + r
    ensures a % m == r
  {
    var q', r' := a / m, a % m;
    assert (q - q') * m == r' - r;
    assert q - q' >= 1 ==> (q - q') * m >= m;
    assert q - q' <= -1 ==> (q - q') * m <= -m;
  }

  /**
   * The source's step `vmIndex = (vmIndex + 1) % vms.size()` keeps vmIndex
   * equal to the number of cloudlets handed out so far, modulo the VM count.
   */
  lemma NextVmIndex(handed: nat, m: nat)
    requires m > 0
    ensures (handed % m + 1) % m == (handed + 1) % m
  {
    var q, r := handed / m, handed % m;
    if r + 1 == m {
      assert handed + 1 == (q + 1) * m + 0;
      ModUnique(handed + 1, m, q + 1, 0);
      ModUnique(r + 1, m, 1, 0);
    } else {
      ModUnique(handed + 1, m, q, r + 1);
      ModUnique(r + 1, m, 0, r + 1);
    }
  }

  /**
   * FIFO: the cloudlets are polled from a queue in list order, and the i-th
   * one gets VM number i mod |vms|. `assignedVm` holds the VM id of each
   * cloudlet, by position in `tasks` (the cloudlets' `setVmId`).
   */
  method RunFifo(tasks: seq<Task>, vms: seq<Vm>, assignedVm: array<int>)
    requires |tasks| == 0 || |vms| > 0
    requires assignedVm.Length == |tasks|
    modifies assignedVm
    ensures forall i :: 0 <= i < |tasks| ==> assignedVm[i] == vms[i % |vms|].id
  {
    var queue := tasks;
    var polled := 0;
    var vmIndex := 0;
    while |queue| > 0
      invariant polled + |queue| == |tasks| && queue == tasks[polled..]
      invariant |vms| > 0 ==> vmIndex == polled % |vms|
      invariant forall i :: 0 <= i < polled ==> assignedVm[i] == vms[i % |vms|].id
    {
      queue := queue[1..];
      var vm := vms[vmIndex];
      assignedVm[polled] := vm.id;
      NextVmIndex(polled, |vms|);
      vmIndex := (vmIndex + 1) % |vms|;
      polled := polled + 1;
    }
  }

  /**
   * The comparator's order made total: original position p goes before q
   * when its cloudlet is shorter, or equally long and earlier in the list.
   */
  predicate Before(orig: seq<Task>, p: nat, q: nat): (r: bool)
    requires p < |orig| && q < |orig|
    ensures r ==> p != q && orig[p].length <= orig[q].length
  {
    orig[p].length < orig[q].length || (orig[p].length == orig[q].length && p < q)
  }

  /**
   * Before is a strict total order on positions, as a comparator must induce
   * for the sort to be well defined: of two distinct positions exactly one
   * goes first, and the order is transitive.
   */
  lemma BeforeTotalOrder(orig: seq<Task>, p: nat, q: nat, x: nat)
    requires p < |orig| && q < |orig| && x < |orig|
    ensures p != q ==> (Before(orig, p, q) <==> !Before(orig, q, p))
    ensures Before(orig, p, q) && Before(orig, q, x) ==> Before(orig, p, x)
  {
  }

  /** `perm` lists every position below |perm| exactly once. */
  ghost predicate IsPermutation(perm: seq<nat>)
  {
    && (forall k :: 0 <= k < |perm| ==> perm[k] < |perm|)
    && (forall k, l :: 0 <= k < l < |perm| ==> perm[k] != perm[l])
    && (forall p :: 0 <= p < |perm| ==> p in perm)
  }

  /** `s` is `orig` rearranged: its k-th element is the one `orig` held at `perm[k]`. */
  ghost predicate Arranged(s: seq<Task>, orig: seq<Task>, perm: seq<nat>)
  {
    && |s| == |orig| == |perm| && IsPermutation(perm)
    && forall k :: 0 <= k < |s| ==> s[k] == orig[perm[k]]
  }

  /** Between lo and hi the rearrangement follows Before. */
  ghost predicate OrderedBetween(orig: seq<Task>, perm: seq<nat>, lo: nat, hi: nat)
    requires forall k :: 0 <= k < |perm| ==> perm[k] < |orig|
  {
    forall k, l :: lo <= k < l < hi && l < |perm| ==> Before(orig, perm[k], perm[l])
  }

  /**
   * `s` is the stable sort of `orig` by length: a rearrangement of it that is
   * ordered by length and keeps equally long cloudlets in their original
   * order. This is what `Collections.sort` with a comparator on the length
   * promises.
   */
  ghost predicate IsStableSortOf(s: seq<Task>, orig: seq<Task>, perm: seq<nat>): (r: bool)
    ensures r ==> |s| == |orig| && forall k, l :: 0 <= k < l < |s| ==> s[k].length <= s[l].length
  {
    Arranged(s, orig, perm) && OrderedBetween(orig, perm, 0, |perm|)
  }

  function Swap<T>(s: seq<T>, j: nat): (r: seq<T>)
    requires 0 < j < |s|
    ensures |r| == |s| && r[j - 1] == s[j] && r[j] == s[j - 1]
    ensures forall k :: 0 <= k < |s| && k != j - 1 && k != j ==> r[k] == s[k]
  {
    s[j - 1 := s[j]][j := s[j - 1]]
  }

  /** Swapping two neighbours in the list and in the rearrangement keeps them in step. */
  lemma SwapArranged(s: seq<Task>, orig: seq<Task>, perm: seq<nat>, j: nat)
    requires Arranged(s, orig, perm) && 0 < j < |s|
    ensures Arranged(Swap(s, j), orig, Swap(perm, j))
  {
    var perm' := Swap(perm, j);
    forall p | 0 <= p < |perm|
      ensures p in perm'
    {
      assert p in perm;
      var k :| 0 <= k < |perm| && perm[k] == p;
      if k == j - 1 {
        assert perm'[j] == p;
      } else if k == j {
        assert perm'[j - 1] == p;
      } else {
        assert perm'[k] == p;
      }
    }
  }

  /**
   * Insertion sort after i steps: the first i places hold the first i
   * cloudlets of the original list, in Before order; the rest are untouched.
   */
  ghost predicate SortedPrefix(s: seq<Task>, orig: seq<Task>, perm: seq<nat>, i: nat)
  {
    && Arranged(s, orig, perm) && i <= |perm|
    && OrderedBetween(orig, perm, 0, i)
    && (forall k :: 0 <= k < i ==> perm[k] < i)
    && (forall k :: i <= k < |perm| ==> perm[k] == k)
  }

  /**
   * Step i of insertion sort, under way: the cloudlet first listed at i sits
   * at j and goes before everything behind it up to i; apart from it, the
   * first i + 1 places are in Before order.
   */
  ghost predicate Sinking(s: seq<Task>, orig: seq<Task>, perm: seq<nat>, i: nat, j: nat)
  {
    && Arranged(s, orig, perm) && j <= i < |perm| && perm[j] == i
    && (forall k :: 0 <= k <= i ==> perm[k] <= i)
    && (forall k :: i < k < |perm| ==> perm[k] == k)
    && (forall k, l :: 0 <= k < l <= i && k != j && l != j ==> Before(orig, perm[k], perm[l]))
    && (forall l :: j < l <= i ==> Before(orig, i, perm[l]))
  }

  lemma IotaSorted(s: seq<Task>)
    ensures SortedPrefix(s, s, Iota(|s|), 0)
  {
    var perm := Iota(|s|);
    forall p | 0 <= p < |s|
      ensures p in perm
    {
      assert perm[p] == p;
    }
  }

  lemma StartSinking(s: seq<Task>, orig: seq<Task>, perm: seq<nat>, i: nat)
    requires SortedPrefix(s, orig, perm, i) && i < |perm|
    ensures Sinking(s, orig, perm, i, i)
  {
  }

  /** A cloudlet longer than the sinking one moves behind it; the order is kept. */
  lemma SinkStep(s: seq<Task>, orig: seq<Task>, perm: seq<nat>, i: nat, j: nat)
    requires Sinking(s, orig, perm, i, j) && 0 < j && s[j - 1].length > s[j].length
    ensures Sinking(Swap(s, j), orig, Swap(perm, j), i, j - 1)
  {
    SwapArranged(s, orig, perm, j);
    var perm' := Swap(perm, j);
    assert Before(orig, i, perm[j - 1]);
    forall k, l | 0 <= k < l <= i && k != j - 1 && l != j - 1
      ensures Before(orig, perm'[k], perm'[l])
    {
      var k' := if k == j then j - 1 else k;
      var l' := if l == j then j - 1 else l;
      assert perm'[k] == perm[k'] && perm'[l] == perm[l'];
      assert k' < l' && k' != j && l' != j;
    }
  }

  /**
   * Once the sinking cloudlet meets one no longer than itself, it is in
   * place: that one is from an earlier position, so it goes first even on
   * equal lengths, and so does everything before it.
   */
  lemma InsertedInPlace(s: seq<Task>, orig: seq<Task>, perm: seq<nat>, i: nat, j: nat)
    requires Sinking(s, orig, perm, i, j)
    requires j > 0 ==> s[j - 1].length <= s[j].length
    ensures SortedPrefix(s, orig, perm, i + 1)
  {
    if j > 0 {
      assert perm[j - 1] != i;
      forall k | 0 <= k < j
        ensures Before(orig, perm[k], i)
      {
        if k < j - 1 {
          assert Before(orig, perm[k], perm[j - 1]);
        }
      }
    }
    forall k | 0 <= k < i + 1
      ensures perm[k] < i + 1
    {
    }
  }

  /**
   * One step of insertion sort: the cloudlet at place i sinks past the
   * longer ones before it, by adjacent swaps, and stops at the first that is
   * no longer than itself.
   */
  method SinkInto(a: array<Task>, i: nat, ghost orig: seq<Task>, ghost perm: seq<nat>) returns (ghost perm': seq<nat>)
    requires SortedPrefix(a[..], orig, perm, i) && i < a.Length
    modifies a
    ensures SortedPrefix(a[..], orig, perm', i + 1)
  {
    StartSinking(a[..], orig, perm, i);
    perm' := perm;
    var j: nat := i;
    while j > 0 && a[j - 1].length > a[j].length
      invariant Sinking(a[..], orig, perm', i, j)
    {
      ghost var before := a[..];
      SinkStep(before, orig, perm', i, j);
      a[j - 1], a[j] := a[j], a[j - 1];
      assert a[..] == Swap(before, j);
      perm' := Swap(perm', j);
      j := j - 1;
    }
    InsertedInPlace(a[..], orig, perm', i, j);
  }

  /**
   * Sorts the cloudlet list by length, in place, keeping equally long
   * cloudlets in their original order (insertion sort). The ghost `perm`
   * tells which original position each cloudlet came from.
   */
  method SortByLength(a: array<Task>) returns (ghost perm: seq<nat>)
    modifies a
    ensures IsStableSortOf(a[..], old(a[..]), perm)
  {
    ghost var orig := a[..];
    perm := Iota(a.Length);
    IotaSorted(orig);
    for i := 0 to a.Length
      invariant SortedPrefix(a[..], orig, perm, i)
    {
      perm := SinkInto(a, i, orig, perm);
    }
  }

  /**
   * Any two stable sorts of the same list agree, position by position, on
   * where every cloudlet came from. So the stable insertion sort here ends
   * with the list that the source's library sort produces.
   */
  lemma {:induction false} StableSortsAgreeUpTo(orig: seq<Task>, s1: seq<Task>, p1: seq<nat>, s2: seq<Task>, p2: seq<nat>, n: nat)
    requires IsStableSortOf(s1, orig, p1) && IsStableSortOf(s2, orig, p2)
    requires n <= |orig|
    ensures p1[..n] == p2[..n]
  {
    if n > 0 {
      StableSortsAgreeUpTo(orig, s1, p1, s2, p2, n - 1);
      var x, y := p1[n - 1], p2[n - 1];
      assert x in p2 && y in p1;
      var l :| 0 <= l < |p2| && p2[l] == x;
      var l' :| 0 <= l' < |p1| && p1[l'] == y;
      assert forall k :: 0 <= k < n - 1 ==> p2[k] == p1[k];
      assert l >= n - 1 && l' >= n - 1;
      assert Before(orig, y, x) || l == n - 1;
      assert Before(orig, x, y) || l' == n - 1;
      assert p1[..n] == p1[..n - 1] + [x] && p2[..n] == p2[..n - 1] + [y];
    }
  }

  lemma StableSortUnique(orig: seq<Task>, s1: seq<Task>, p1: seq<nat>, s2: seq<Task>, p2: seq<nat>)
    requires IsStableSortOf(s1, orig, p1) && IsStableSortOf(s2, orig, p2)
    ensures p1 == p2 && s1 == s2
  {
    StableSortsAgreeUpTo(orig, s1, p1, s2, p2, |orig|);
    assert p1 == p1[..|orig|] && p2 == p2[..|orig|];
  }

  /**
   * Shortest-First: the caller's list is sorted by length in place, then
   * walked in its new order, the i-th cloudlet getting VM number
   * i mod |vms|. `assignedVm[i]` is the VM id of the cloudlet at position i
   * of the sorted list; the ghost `perm` says where it stood before.
   */
  method RunShortestFirst(cloudlets: array<Task>, vms: seq<Vm>, assignedVm: array<int>) returns (ghost perm: seq<nat>)
    requires cloudlets.Length == 0 || |vms| > 0
    requires assignedVm.Length == cloudlets.Length
    modifies cloudlets, assignedVm
    ensures IsStableSortOf(cloudlets[..], old(cloudlets[..]), perm)
    ensures forall i :: 0 <= i < cloudlets.Length ==> assignedVm[i] == vms[i % |vms|].id
  {
    perm := SortByLength(cloudlets);
    var vmIndex := 0;
    for i := 0 to cloudlets.Length
      modifies assignedVm
      invariant |vms| > 0 ==> vmIndex == i % |vms|
      invariant forall i' :: 0 <= i' < i ==> assignedVm[i'] == vms[i' % |vms|].id
    {
      var vm := vms[vmIndex];
      assignedVm[i] := vm.id;
      NextVmIndex(i, |vms|);
      vmIndex := (vmIndex + 1) % |vms|;
    }
  }
}
