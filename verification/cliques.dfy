/** `Graph::countCliques` and `isClique` (part7): every bitmask from 1 to
    `2^n - 1` names the subset of its set bits, listed in increasing order;
    the subset counts when every later member is in the list of every
    earlier member. Only that direction is checked, so on a directed graph
    an edge one way is enough. */
module Cliques {
  import opened Seqs
  import opened Graphs

  /** `1 << k`. */
  function Pow2(k: nat): (r: nat)
    ensures r >= 1
  {
    if k == 0 then 1 else 2 * Pow2(k - 1)
  }

  /** Binary digit `i` of `mask`, as `mask & (1 << i)` tests it. */
  predicate Bit(mask: nat, i: nat) {
    if i == 0 then mask % 2 == 1 else Bit(mask / 2, i - 1)
  }

  /** The subset a mask names: its set bits below `n`, in increasing order. */
  function Members(mask: nat, n: nat): (r: seq<int>)
    ensures forall k :: 0 <= k < |r| ==> 0 <= r[k] < n
  {
    if n == 0 then []
    else Members(mask, n - 1) + (if Bit(mask, n - 1) then [n - 1] else [])
  }

  /** The list holds exactly the set bits below `n`, in increasing order. */
  lemma {:induction false} MembersOrdered(mask: nat, n: nat)
    ensures forall i, j :: 0 <= i < j < |Members(mask, n)| ==> Members(mask, n)[i] < Members(mask, n)[j]
    ensures forall v :: v in Members(mask, n) <==> 0 <= v < n && Bit(mask, v)
  {
    if n > 0 {
      MembersOrdered(mask, n - 1);
    }
  }

  /** `isClique`: every pair taken in list order is joined by an edge from
      the earlier member to the later one. */
  predicate IsClique(subset: seq<int>, adj: seq<seq<int>>)
    requires forall k :: 0 <= k < |subset| ==> 0 <= subset[k] < |adj|
  {
    forall i, j :: 0 <= i < j < |subset| ==> subset[j] in adj[subset[i]]
  }

  /** The counting loop over the masks from `mask` up to `2^n - 1`. */
  function CountFrom(adj: seq<seq<int>>, n: nat, mask: nat): (r: nat)
    requires n <= |adj| && mask <= Pow2(n)
    ensures r <= Pow2(n) - mask
    decreases Pow2(n) - mask
  {
    if mask == Pow2(n) then 0
    else (if IsClique(Members(mask, n), adj) then 1 else 0) + CountFrom(adj, n, mask + 1)
  }

  /** `countCliques`; `1 << n` is only meaningful for `n <= 30`. */
  function CountCliques(g: Graph): nat
    requires Shaped(g) && g.numVertices <= 30
  {
    CountFrom(g.adj, g.numVertices, 1)
  }

  // ---------------------------------------------------------------------
  // What the loop counts.

  /** The set of set bits of `mask` below `n`. */
  ghost function SetOf(mask: nat, n: nat): set<int> {
    if n == 0 then {} else SetOf(mask, n - 1) + (if Bit(mask, n - 1) then {n - 1} else {})
  }

  lemma {:induction false} SetOfMembers(mask: nat, n: nat)
    ensures forall i :: i in SetOf(mask, n) <==> 0 <= i < n && Bit(mask, i)
  {
    if n > 0 {
      SetOfMembers(mask, n - 1);
    }
  }

  /** Every member of `s` lists every larger member of `s`. */
  ghost predicate OneWay(adj: seq<seq<int>>, s: set<int>) {
    forall a, b :: a in s && b in s && a < b ==> 0 <= a < |adj| && b in adj[a]
  }

  /** A set `countCliques` counts: non-empty and passing the one-way check. */
  ghost predicate CliqueSet(adj: seq<seq<int>>, s: set<int>) {
    s != {} && OneWay(adj, s)
  }

  /** All subsets of `[0, n)`. */
  ghost function PowerSet(n: nat): set<set<int>> {
    set s: set<int> | s <= Range(n)
  }

  ghost function AddAll(fam: set<set<int>>, x: int): set<set<int>> {
    set s | s in fam :: s + {x}
  }

  /** The test `countCliques` applies to a vertex set, taken after the
      members of `extra` are added to it. */
  datatype Test = Test(adj: seq<seq<int>>, extra: set<int>)

  ghost predicate Holds(p: Test, s: set<int>) {
    CliqueSet(p.adj, s + p.extra)
  }

  ghost function Filter(fam: set<set<int>>, p: Test): set<set<int>> {
    set s | s in fam && Holds(p, s)
  }

  /** `p` applied after adding `x`. */
  ghost function With(p: Test, x: int): Test {
    Test(p.adj, p.extra + {x})
  }

  lemma WithHolds(p: Test, x: int, s: set<int>)
    ensures Holds(With(p, x), s) == Holds(p, s + {x})
  {
    assert s + (p.extra + {x}) == s + {x} + p.extra;
  }

  /** The sets `countCliques` counts, among the subsets of `[0, n)`. */
  ghost function CliqueSets(adj: seq<seq<int>>, n: nat): set<set<int>> {
    set s | s in PowerSet(n) && CliqueSet(adj, s)
  }

  /** How many masks in `lo .. hi - 1` have a subset of `[0, n)` satisfying `p`. */
  ghost function CountMasks(p: Test, n: nat, lo: int, hi: int): nat
    decreases hi - lo
  {
    if lo >= hi then 0 else (if lo >= 0 && Holds(p, SetOf(lo, n)) then 1 else 0) + CountMasks(p, n, lo + 1, hi)
  }

  lemma {:induction false} CountMasksSplit(p: Test, n: nat, lo: int, mid: int, hi: int)
    requires lo <= mid <= hi
    ensures CountMasks(p, n, lo, hi) == CountMasks(p, n, lo, mid) + CountMasks(p, n, mid, hi)
    decreases mid - lo
  {
    if lo < mid {
      CountMasksSplit(p, n, lo + 1, mid, hi);
    }
  }

  lemma {:induction false} BitBelow(m: nat, k: nat)
    requires m < Pow2(k)
    ensures !Bit(m, k)
  {
    if k > 0 {
      BitBelow(m / 2, k - 1);
    }
  }

  /** Adding `2^k` to a smaller mask sets bit `k` and keeps the bits below. */
  lemma {:induction false} BitShift(m: nat, k: nat, i: nat)
    requires m < Pow2(k) && i <= k
    ensures Bit(m + Pow2(k), i) == (i == k || Bit(m, i))
  {
    if k == 0 {
    } else if i == 0 {
      assert (m + Pow2(k)) % 2 == m % 2;
    } else {
      assert (m + Pow2(k)) / 2 == m / 2 + Pow2(k - 1);
      BitShift(m / 2, k - 1, i - 1);
    }
  }

  lemma {:induction false} SetOfLow(m: nat, n: nat, k: nat)
    requires k <= n && m < Pow2(k)
    ensures SetOf(m, n) == SetOf(m, k)
    decreases n - k
  {
    if n > k {
      SetOfLow(m, n - 1, k);
      assert !Bit(m, n - 1) by {
        BitFromBelow(m, k, n - 1);
      }
    }
  }

  lemma {:induction false} BitFromBelow(m: nat, k: nat, i: nat)
    requires m < Pow2(k) && k <= i
    ensures !Bit(m, i)
    decreases i
  {
    if k == 0 || i == k {
      BitBelow(m, i);
    } else {
      BitFromBelow(m / 2, k - 1, i - 1);
    }
  }

  lemma {:induction false} SetOfHigh(m: nat, k: nat, n: nat)
    requires k <= n && m < Pow2(n)
    ensures SetOf(m + Pow2(n), k) == SetOf(m, k)
    decreases k
  {
    if k > 0 {
      SetOfHigh(m, k - 1, n);
      BitShift(m, n, k - 1);
    }
  }

  lemma SetOfTop(m: nat, n: nat)
    requires n >= 1 && m < Pow2(n - 1)
    ensures SetOf(m + Pow2(n - 1), n) == SetOf(m, n - 1) + {n - 1}
  {
    SetOfHigh(m, n - 1, n - 1);
    BitShift(m, n - 1, n - 1);
  }

  lemma {:induction false} SetOfZero(n: nat)
    ensures SetOf(0, n) == {}
  {
    if n > 0 {
      SetOfZero(n - 1);
      BitBelow(0, n - 1);
    }
  }

  /** Adding a fresh member to every set of a family keeps the family's size. */
  lemma {:induction false} AddMemberCard(a: set<set<int>>, x: int)
    requires forall s :: s in a ==> x !in s
    ensures |AddAll(a, x)| == |a|
    decreases |a|
  {
    if a != {} {
      var s0 :| s0 in a;
      var rest := a - {s0};
      AddMemberCard(rest, x);
      assert AddAll(a, x) == AddAll(rest, x) + {s0 + {x}};
      forall s | s in rest ensures s + {x} != s0 + {x} {
        assert (s + {x}) - {x} == s && (s0 + {x}) - {x} == s0;
      }
    }
  }

  lemma PowerSetUnion(p: Test, n: nat)
    requires n >= 1
    ensures Filter(PowerSet(n), p)
         == Filter(PowerSet(n - 1), p) + AddAll(Filter(PowerSet(n - 1), With(p, n - 1)), n - 1)
  {
    var all := Filter(PowerSet(n), p);
    var low := Filter(PowerSet(n - 1), p);
    var pre := Filter(PowerSet(n - 1), With(p, n - 1));
    var high := AddAll(pre, n - 1);
    forall s | s in all ensures s in low + high {
      if n - 1 in s {
        var t := s - {n - 1};
        assert s == t + {n - 1};
        WithHolds(p, n - 1, t);
        assert t in pre;
      } else {
        assert s in PowerSet(n - 1);
      }
    }
    forall s | s in low + high ensures s in all {
      if s in high {
        var t :| t in pre && s == t + {n - 1};
        WithHolds(p, n - 1, t);
      }
    }
  }

  lemma PowerSetDisjoint(p: Test, n: nat)
    requires n >= 1
    ensures Filter(PowerSet(n - 1), p) * AddAll(Filter(PowerSet(n - 1), With(p, n - 1)), n - 1) == {}
  {
    var high := AddAll(Filter(PowerSet(n - 1), With(p, n - 1)), n - 1);
    forall s | s in high ensures s !in Filter(PowerSet(n - 1), p) {
      assert n - 1 in s;
    }
  }

  /** The subsets of `[0, n)` satisfying `p`, split on whether they hold `n - 1`. */
  lemma PowerSetSplit(p: Test, n: nat)
    requires n >= 1
    ensures |Filter(PowerSet(n), p)| == |Filter(PowerSet(n - 1), p)| + |Filter(PowerSet(n - 1), With(p, n - 1))|
  {
    var pre := Filter(PowerSet(n - 1), With(p, n - 1));
    PowerSetUnion(p, n);
    PowerSetDisjoint(p, n);
    AddMemberCard(pre, n - 1);
  }

  /** Masks below `2^(n-1)` name the same subsets of `[0, n)` as of `[0, n-1)`. */
  lemma {:induction false} LowMasks(p: Test, n: nat, lo: nat, hi: nat)
    requires n >= 1 && lo <= hi <= Pow2(n - 1)
    ensures CountMasks(p, n, lo, hi) == CountMasks(p, n - 1, lo, hi)
    decreases hi - lo
  {
    if lo < hi {
      SetOfLow(lo, n, n - 1);
      LowMasks(p, n, lo + 1, hi);
    }
  }

  /** Mask `m + 2^(n-1)` names the subset of mask `m` plus `n - 1`. */
  lemma {:induction false} HighMasks(p: Test, n: nat, lo: nat, hi: nat)
    requires n >= 1 && lo <= hi <= Pow2(n - 1)
    ensures CountMasks(p, n, lo + Pow2(n - 1), hi + Pow2(n - 1)) == CountMasks(With(p, n - 1), n - 1, lo, hi)
    decreases hi - lo
  {
    if lo < hi {
      SetOfTop(lo, n);
      WithHolds(p, n - 1, SetOf(lo, n - 1));
      HighMasks(p, n, lo + 1, hi);
    }
  }

  /** How many subsets of `[0, n)` satisfy `p`, counted by splitting on the
      top vertex. */
  ghost function SplitCount(p: Test, n: nat): nat
    decreases n
  {
    if n == 0 then (if Holds(p, {}) then 1 else 0)
    else SplitCount(p, n - 1) + SplitCount(With(p, n - 1), n - 1)
  }

  lemma SplitCountBase(p: Test)
    ensures SplitCount(p, 0) == |Filter(PowerSet(0), p)|
  {
    assert PowerSet(0) == {{}} by {
      assert {} <= Range(0);
      forall s | s in PowerSet(0) ensures s == {} {
        assert forall x :: x in s ==> x in Range(0);
      }
    }
    if Holds(p, {}) {
      assert Filter(PowerSet(0), p) == {{}};
    } else {
      assert Filter(PowerSet(0), p) == {};
    }
  }

  /** The split count is the number of subsets that satisfy `p`. */
  lemma {:induction false} SplitCountCard(p: Test, n: nat)
    ensures SplitCount(p, n) == |Filter(PowerSet(n), p)|
    decreases n
  {
    if n == 0 {
      SplitCountBase(p);
    } else {
      SplitCountCard(p, n - 1);
      SplitCountCard(With(p, n - 1), n - 1);
      PowerSetSplit(p, n);
    }
  }

  /** Masks `0 .. 2^n - 1` name each subset of `[0, n)` exactly once. */
  lemma {:induction false} PowerCount(p: Test, n: nat)
    ensures CountMasks(p, n, 0, Pow2(n)) == SplitCount(p, n)
    decreases n
  {
    if n == 0 {
      assert SetOf(0, 0) == {};
      assert CountMasks(p, 0, 1, 1) == 0;
    } else {
      PowerCount(p, n - 1);
      PowerCount(With(p, n - 1), n - 1);
      MasksSplit(p, n);
    }
  }

  /** The masks below `2^(n-1)` and the masks from there to `2^n - 1`. */
  lemma MasksSplit(p: Test, n: nat)
    requires n >= 1
    ensures CountMasks(p, n, 0, Pow2(n))
         == CountMasks(p, n - 1, 0, Pow2(n - 1)) + CountMasks(With(p, n - 1), n - 1, 0, Pow2(n - 1))
  {
    var h := Pow2(n - 1);
    assert Pow2(n) == h + h;
    CountMasksSplit(p, n, 0, h, h + h);
    LowMasks(p, n, 0, h);
    HighMasks(p, n, 0, h);
  }

  /** A mask between 1 and `2^n - 1` has a set bit below `n`. */
  lemma {:induction false} SomeBit(m: nat, n: nat) returns (i: nat)
    requires 1 <= m < Pow2(n)
    ensures i < n && Bit(m, i)
  {
    if m % 2 == 1 {
      i := 0;
    } else {
      var j := SomeBit(m / 2, n - 1);
      i := j + 1;
    }
  }

  /** The list check on a mask's members is the one-way check on its set. */
  lemma IsCliqueOneWay(adj: seq<seq<int>>, mask: nat, n: nat)
    requires n <= |adj|
    ensures IsClique(Members(mask, n), adj) <==> OneWay(adj, SetOf(mask, n))
  {
    var r := Members(mask, n);
    var set_ := SetOf(mask, n);
    SetOfMembers(mask, n);
    MembersOrdered(mask, n);
    if IsClique(r, adj) {
      forall a, b | a in set_ && b in set_ && a < b
        ensures 0 <= a < |adj| && b in adj[a]
      {
        var i :| 0 <= i < |r| && r[i] == a;
        var j :| 0 <= j < |r| && r[j] == b;
        assert i < j;
      }
    }
    if OneWay(adj, set_) {
      forall i, j | 0 <= i < j < |r| ensures r[j] in adj[r[i]] {
        assert r[i] in set_ && r[j] in set_ && r[i] < r[j];
      }
    }
  }

  /** The test `countCliques` applies to a mask's set. */
  ghost function IsCliqueSet(adj: seq<seq<int>>): Test {
    Test(adj, {})
  }

  lemma HoldsPlain(adj: seq<seq<int>>, s: set<int>)
    ensures Holds(IsCliqueSet(adj), s) == CliqueSet(adj, s)
  {
    assert s + {} == s;
  }

  lemma {:induction false} CountFromIsCount(adj: seq<seq<int>>, n: nat, mask: nat)
    requires n <= |adj| && 1 <= mask <= Pow2(n)
    ensures CountFrom(adj, n, mask) == CountMasks(IsCliqueSet(adj), n, mask, Pow2(n))
    decreases Pow2(n) - mask
  {
    if mask < Pow2(n) {
      MaskCounts(adj, n, mask);
      CountFromIsCount(adj, n, mask + 1);
    }
  }

  /** A non-zero mask counts exactly when its set is a clique set. */
  lemma MaskCounts(adj: seq<seq<int>>, n: nat, mask: nat)
    requires n <= |adj| && 1 <= mask < Pow2(n)
    ensures IsClique(Members(mask, n), adj) == Holds(IsCliqueSet(adj), SetOf(mask, n))
  {
    IsCliqueOneWay(adj, mask, n);
    var i := SomeBit(mask, n);
    SetOfMembers(mask, n);
    assert i in SetOf(mask, n);
    HoldsPlain(adj, SetOf(mask, n));
  }

  /** `countCliques` is the number of non-empty vertex sets in which every
      member lists every larger member. */
  lemma CountCliquesCounts(g: Graph)
    requires Shaped(g) && g.numVertices <= 30
    ensures CountCliques(g) == |CliqueSets(g.adj, g.numVertices)|
  {
    var n := g.numVertices;
    CountFromIsCount(g.adj, n, 1);
    PowerCount(IsCliqueSet(g.adj), n);
    SplitCountCard(IsCliqueSet(g.adj), n);
    SetOfZero(n);
    HoldsPlain(g.adj, {});
    assert CountMasks(IsCliqueSet(g.adj), n, 0, Pow2(n)) == CountMasks(IsCliqueSet(g.adj), n, 1, Pow2(n));
    forall s ensures s in Filter(PowerSet(n), IsCliqueSet(g.adj)) <==> s in CliqueSets(g.adj, n) {
      HoldsPlain(g.adj, s);
    }
    assert Filter(PowerSet(n), IsCliqueSet(g.adj)) == CliqueSets(g.adj, n);
  }

  // ---------------------------------------------------------------------
  // Bounds on the count.

  ghost function Singletons(n: nat): set<set<int>> {
    set v | 0 <= v < n :: {v}
  }

  lemma {:induction false} SingletonsCard(n: nat)
    ensures |Singletons(n)| == n
  {
    if n > 0 {
      SingletonsCard(n - 1);
      assert Singletons(n) == Singletons(n - 1) + {{n - 1}};
      assert {n - 1} !in Singletons(n - 1);
    }
  }

  /** Every single vertex counts and no mask counts twice: `n` to `2^n - 1`. */
  lemma CliqueCountBounds(g: Graph)
    requires Shaped(g) && g.numVertices <= 30
    ensures g.numVertices <= CountCliques(g) <= Pow2(g.numVertices) - 1
  {
    var n := g.numVertices;
    CountCliquesCounts(g);
    forall s | s in Singletons(n) ensures s in CliqueSets(g.adj, n) {
      var v :| 0 <= v < n && s == {v};
      assert s in PowerSet(n);
    }
    SingletonsCard(n);
    SubsetCard(Singletons(n), CliqueSets(g.adj, n));
  }
}
