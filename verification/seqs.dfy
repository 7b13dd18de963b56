/** Sequence utilities and integer limits that several parts of the graph
    engine share. */
module Seqs {

  /** No element occurs twice. */
  predicate Distinct<T(==)>(s: seq<T>) {
    forall i, j :: 0 <= i < j < |s| ==> s[i] != s[j]
  }

  /** The `erase(remove(begin, end, x), end)` idiom: every occurrence of `x`
      is dropped and the surviving elements keep their relative order. */
  function RemoveAll<T(==)>(s: seq<T>, x: T): (r: seq<T>)
    ensures x !in r
  {
    if |s| == 0 then []
    else
      assert s == [s[0]] + s[1..];
      if s[0] == x then RemoveAll(s[1..], x)
      else [s[0]] + RemoveAll(s[1..], x)
  }

  /** Removal distributes over concatenation: the order of what survives is
      the order of the input. */
  lemma {:induction false} RemoveAllAppend<T>(a: seq<T>, b: seq<T>, x: T)
    ensures RemoveAll(a + b, x) == RemoveAll(a, x) + RemoveAll(b, x)
  {
    if |a| == 0 {
      assert a + b == b;
    } else {
      assert (a + b)[1..] == a[1..] + b;
      RemoveAllAppend(a[1..], b, x);
    }
  }

  /** Removal drops every copy of `x` and keeps every other element as
      often as it occurs. */
  lemma {:induction false} RemoveAllCount<T>(s: seq<T>, x: T)
    ensures multiset(RemoveAll(s, x)) == multiset(s)[x := 0]
    ensures |RemoveAll(s, x)| == |s| - multiset(s)[x]
  {
    if |s| > 0 {
      assert s == [s[0]] + s[1..];
      RemoveAllCount(s[1..], x);
    }
  }

  /** Removing an absent element changes nothing. */
  lemma {:induction false} RemoveAllAbsent<T>(s: seq<T>, x: T)
    requires x !in s
    ensures RemoveAll(s, x) == s
  {
    if |s| > 0 {
      assert x !in s[1..];
      RemoveAllAbsent(s[1..], x);
    }
  }

  /** Sum of a sequence of integers. */
  function Sum(s: seq<int>): int {
    if |s| == 0 then 0 else s[0] + Sum(s[1..])
  }

  lemma {:induction false} SumAppend(a: seq<int>, b: seq<int>)
    ensures Sum(a + b) == Sum(a) + Sum(b)
  {
    if |a| == 0 {
      assert a + b == b;
    } else {
      assert (a + b)[1..] == a[1..] + b;
      SumAppend(a[1..], b);
    }
  }

  /** Overwriting one entry shifts the sum by the difference. */
  lemma {:induction false} SumUpdate(s: seq<int>, i: int, v: int)
    requires 0 <= i < |s|
    ensures Sum(s[i := v]) == Sum(s) - s[i] + v
  {
    if i > 0 {
      assert s[i := v][1..] == s[1..][i - 1 := v];
      SumUpdate(s[1..], i - 1, v);
    }
  }

  /** A sum of non-negative entries is non-negative. */
  lemma {:induction false} SumNonNegative(s: seq<int>)
    requires forall i :: 0 <= i < |s| ==> s[i] >= 0
    ensures Sum(s) >= 0
  {
    if |s| > 0 {
      SumNonNegative(s[1..]);
    }
  }

  /** The elements of every inner sequence, in order. */
  function Flatten<T>(ss: seq<seq<T>>): seq<T> {
    if |ss| == 0 then [] else ss[0] + Flatten(ss[1..])
  }

  lemma {:induction false} FlattenAppend<T>(a: seq<seq<T>>, b: seq<seq<T>>)
    ensures Flatten(a + b) == Flatten(a) + Flatten(b)
  {
    if |a| == 0 {
      assert a + b == b;
    } else {
      assert (a + b)[1..] == a[1..] + b;
      FlattenAppend(a[1..], b);
    }
  }

  lemma {:induction false} FlattenMember<T>(ss: seq<seq<T>>, x: T)
    ensures x in Flatten(ss) <==> exists i :: 0 <= i < |ss| && x in ss[i]
  {
    if |ss| > 0 {
      FlattenMember(ss[1..], x);
      assert forall i :: 1 <= i < |ss| ==> ss[i] == ss[1..][i - 1];
    }
  }

  /** When the flattening repeats nothing, no element lies in two inner
      sequences. */
  lemma {:induction false} FlattenDisjoint<T>(ss: seq<seq<T>>)
    requires Distinct(Flatten(ss))
    ensures forall i, j, x :: 0 <= i < j < |ss| && x in ss[i] ==> x !in ss[j]
  {
    if |ss| > 0 {
      var a := ss[0];
      var b := Flatten(ss[1..]);
      assert Flatten(ss) == a + b;
      assert Distinct(b) by {
        forall i, j | 0 <= i < j < |b| ensures b[i] != b[j] {
          assert b[i] == (a + b)[|a| + i] && b[j] == (a + b)[|a| + j];
        }
      }
      FlattenDisjoint(ss[1..]);
      forall i, j, x | 0 <= i < j < |ss| && x in ss[i] ensures x !in ss[j] {
        FlattenMember(ss[1..], x);
        assert ss[j] == ss[1..][j - 1];
        if i == 0 {
          var p :| 0 <= p < |a| && a[p] == x;
          assert (a + b)[p] == x;
          forall q | 0 <= q < |b| ensures b[q] != x {
            assert (a + b)[|a| + q] == b[q];
          }
        } else {
          assert ss[i] == ss[1..][i - 1];
        }
      }
    }
  }

  /** Total number of entries over all inner sequences. */
  function TotalLength<T>(ss: seq<seq<T>>): nat {
    if |ss| == 0 then 0 else |ss[0]| + TotalLength(ss[1..])
  }

  lemma {:induction false} TotalLengthUpdate<T>(ss: seq<seq<T>>, i: int, s: seq<T>)
    requires 0 <= i < |ss|
    ensures TotalLength(ss[i := s]) == TotalLength(ss) - |ss[i]| + |s|
  {
    if i > 0 {
      assert ss[i := s][1..] == ss[1..][i - 1 := s];
      TotalLengthUpdate(ss[1..], i - 1, s);
    }
  }

  /** No entries in total means every inner sequence is empty. */
  lemma {:induction false} TotalLengthZero<T>(ss: seq<seq<T>>)
    requires TotalLength(ss) == 0
    ensures forall i :: 0 <= i < |ss| ==> ss[i] == []
  {
    if |ss| > 0 {
      TotalLengthZero(ss[1..]);
      forall i | 0 < i < |ss| ensures ss[i] == [] {
        assert ss[i] == ss[1..][i - 1];
      }
    }
  }

  /** The set of integers in `[0, n)`. */
  function Range(n: int): (r: set<int>)
    ensures forall x :: x in r <==> 0 <= x < n
  {
    if n <= 0 then {} else Range(n - 1) + {n - 1}
  }

  lemma {:induction false} RangeCard(n: int)
    requires n >= 0
    ensures |Range(n)| == n
  {
    if n > 0 {
      RangeCard(n - 1);
      assert n - 1 !in Range(n - 1);
      assert Range(n) == Range(n - 1) + {n - 1};
    }
  }

  /** A set of fewer than `n` integers misses some member of `[0, n)`. */
  lemma MissesSome(s: set<int>, n: int) returns (x: int)
    requires n >= 0 && |s| < n
    ensures 0 <= x < n && x !in s
  {
    RangeCard(n);
    var d := Range(n) - s;
    assert |d| > 0 by {
      assert |d| == |Range(n)| - |Range(n) * s|;
      assert |Range(n) * s| <= |s| by {
        assert Range(n) * s <= s;
        SubsetCard(Range(n) * s, s);
      }
    }
    x :| x in d;
  }

  lemma {:induction false} SubsetCard<T>(a: set<T>, b: set<T>)
    requires a <= b
    ensures |a| <= |b|
  {
    assert b == a + (b - a);
  }

  /** `std::reverse`. */
  function Reverse<T>(s: seq<T>): (r: seq<T>)
    ensures |r| == |s| && forall i :: 0 <= i < |s| ==> r[i] == s[|s| - 1 - i]
    ensures multiset(r) == multiset(s)
  {
    if |s| == 0 then [] else
      assert s == [s[0]] + s[1..];
      Reverse(s[1..]) + [s[0]]
  }

  /** The first position of `x` in `s`. */
  function IndexOf<T(==)>(s: seq<T>, x: T): (i: int)
    requires x in s
    ensures 0 <= i < |s| && s[i] == x && x !in s[..i]
  {
    if s[0] == x then 0 else 1 + IndexOf(s[1..], x)
  }

  /** `INT_MAX` of a 32-bit `int`. */
  const IntMax := 2147483647

  /** `std::min`. */
  function Min(a: int, b: int): int {
    if a <= b then a else b
  }
}
