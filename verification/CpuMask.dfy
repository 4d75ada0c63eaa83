/**
 Iterating over a CPU mask: cpumask_next and for_each_cpu of include/common.h.

 The C loop has no bound of its own: past the last set bit it shifts by 32, which is undefined. Here that
 ends the search with `None`.
 */
module CpuMask {
  import opened Options
  import opened Words

  /** The CPUs a 32-bit mask names. */
  function Cpus(mask: nat): set<nat> {
    set k: nat | k < 32 && Bit(mask, k)
  }

  ghost predicate Ascending(s: seq<nat>) {
    forall i, j :: 0 <= i < j < |s| ==> s[i] < s[j]
  }

  /** cpumask_next: the least set bit above `cpu`, exactly when there is one. */
  method CpumaskNext(cpu: int, mask: nat) returns (r: Option<nat>)
    requires -1 <= cpu < 32
    ensures r.None? <==> forall k :: k in Cpus(mask) ==> k <= cpu
    ensures r.Some? ==>
              r.value in Cpus(mask) && cpu < r.value && forall k :: k in Cpus(mask) && cpu < k ==> r.value <= k
  {
    var c: nat := cpu + 1;
    MaskTest(mask, c);
    while c < 32 && And(Pow2(c), mask) == 0
      invariant cpu < c <= 32
      invariant forall k :: k in Cpus(mask) ==> k <= cpu || c <= k
      invariant And(Pow2(c), mask) != 0 <==> Bit(mask, c)
    {
      c := c + 1;
      MaskTest(mask, c);
    }
    if c < 32 {
      assert c in Cpus(mask);
      return Some(c);
    }
    r := None;
  }

  /** for_each_cpu: the CPUs its body sees, and whether every search it makes is defined. It looks for one CPU
      more than it visits, so `num` must be below the number of set bits: at that number it runs off the mask. */
  method ForEachCpu(num: int, mask: nat) returns (seen: seq<nat>, defined: bool)
    ensures defined <==> (if num < 0 then 0 else num) < |Cpus(mask)|
    ensures defined ==> |seen| == if num < 0 then 0 else num
    ensures Ascending(seen) && forall k :: k in seen ==> k in Cpus(mask)
    ensures forall k, x :: k in Cpus(mask) && k !in seen && x in seen ==> x < k
  {
    seen, defined := [], true;
    ghost var below: set<nat> := {};
    var iter := 0;
    var cpu := CpumaskNext(-1, mask);
    while iter < num && cpu.Some?
      invariant 0 <= iter && (iter <= num || iter == 0) && |seen| == iter == |below|
      invariant Ascending(seen) && (forall k :: k in seen <==> k in below)
      invariant Visited(below, mask, cpu)
      decreases num - iter
    {
      Appended(seen, cpu.value);
      ghost var last := cpu.value;
      seen := seen + [cpu.value];
      iter := iter + 1;
      cpu := CpumaskNext(cpu.value, mask);
      Advance(below, mask, last, cpu);
      below := below + {last};
    }
    defined := cpu.Some?;
    if cpu.Some? {
      Smaller(below, Cpus(mask), cpu.value);
    }
  }

  /** `below` is what the iteration has passed when it stands at `cpu`. */
  ghost predicate Visited(below: set<nat>, mask: nat, cpu: Option<nat>) {
    if cpu.Some? then cpu.value in Cpus(mask) && below == set k | k in Cpus(mask) && k < cpu.value
    else below == Cpus(mask)
  }

  lemma {:induction false} Advance(below: set<nat>, mask: nat, last: nat, next: Option<nat>)
    requires Visited(below, mask, Some(last))
    requires next.None? ==> forall k :: k in Cpus(mask) ==> k <= last
    requires next.Some? ==>
               && next.value in Cpus(mask) && last < next.value
               && forall k :: k in Cpus(mask) && last < k ==> next.value <= k
    ensures last !in below && Visited(below + {last}, mask, next)
  {}

  lemma {:induction false} Appended(s: seq<nat>, x: nat)
    requires Ascending(s) && forall k :: k in s ==> k < x
    ensures Ascending(s + [x])
  {
    assert forall i :: 0 <= i < |s| ==> s[i] in s;
  }

  lemma {:induction false} Smaller(a: set<nat>, b: set<nat>, x: nat)
    requires a <= b && x in b && x !in a
    ensures |a| < |b|
  {
    assert a <= b - {x};
    SubsetSize(a, b - {x});
  }

  lemma {:induction false} SubsetSize(a: set<nat>, b: set<nat>)
    requires a <= b
    ensures |a| <= |b|
    decreases a
  {
    if a != {} {
      var x :| x in a;
      SubsetSize(a - {x}, b - {x});
    }
  }
}
