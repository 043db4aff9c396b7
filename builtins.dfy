/** Models of the Python built-ins and library calls the game's core relies on:
    `int()` applied to a float, floor division `//`, `range(start, stop, step)`,
    and `random.sample`, whose random draws are an injected oracle. */
module Builtins {

  /** Python's `None` or a value. */
  datatype Option<T> = None | Some(value: T)

  function RAbs(x: real): (r: real)
    ensures r >= 0.0 && (r == x || r == -x)
  {
    if x < 0.0 then -x else x
  }

  function RMax(a: real, b: real): real { if a >= b then a else b }

  function RMin(a: real, b: real): real { if a <= b then a else b }

  /** Python's `int(x)` on a float: truncation toward zero. */
  function Trunc(x: real): int {
    if x >= 0.0 then x.Floor else -((-x).Floor)
  }

  /** Truncation moves toward zero by less than one. */
  lemma TruncSpec(x: real)
    ensures x >= 0.0 ==> Trunc(x) as real <= x < Trunc(x) as real + 1.0
    ensures x < 0.0 ==> Trunc(x) as real - 1.0 < x <= Trunc(x) as real
  {
  }

  /** Python's `a // b` on integers: the floor of a / b. Dafny's `/` is Euclidean and
      agrees with it only when b > 0. */
  function FloorDiv(a: int, b: int): int
    requires b != 0
  {
    if b > 0 then a / b else (-a) / (-b)
  }

  /** The quotient q is the floor of a / b: q * b is the multiple of b at or below a
      (above a, for a negative b) closest to it. */
  lemma FloorDivSpec(a: int, b: int)
    requires b != 0
    ensures b > 0 ==> FloorDiv(a, b) * b <= a < FloorDiv(a, b) * b + b
    ensures b < 0 ==> FloorDiv(a, b) * b + b < a <= FloorDiv(a, b) * b
  {
  }

  function Abs(x: int): nat { if x < 0 then -x else x }

  function Min(a: int, b: int): int { if a <= b then a else b }

  /** len(range(start, stop, step)): the number of steps that stay short of stop. */
  function RangeLen(start: int, stop: int, step: int): nat
    requires step != 0
  {
    if step > 0 then (if start < stop then (stop - start - 1) / step + 1 else 0)
    else (if start > stop then (start - stop - 1) / (-step) + 1 else 0)
  }

  /** The elements of Python's `range(start, stop, step)`, in order; Python raises
      ValueError for a zero step. */
  function Range(start: int, stop: int, step: int): seq<int>
    requires step != 0
  {
    seq(RangeLen(start, stop, step), k => start + k * step)
  }

  /** With a positive step, range() holds start, start+step, ... and stays below stop. */
  lemma RangeBounds(start: int, stop: int, step: int)
    requires step > 0
    ensures var r := Range(start, stop, step);
      (r != [] ==> r[0] == start) &&
      (forall k | 0 <= k < |r| :: start <= r[k] < stop) &&
      (forall k | 0 <= k < |r| - 1 :: r[k + 1] == r[k] + step)
  {
    RangeLength(start, stop, step);
    var r := Range(start, stop, step);
    forall k | 0 <= k < |r| ensures start <= r[k] < stop {
      MulMono(0, k, step);
      MulMono(k, |r| - 1, step);
    }
  }

  /** len(range(start, stop, step)) for a positive step n: the smallest n with
      start + n * step >= stop. */
  lemma RangeLength(start: int, stop: int, step: int)
    requires step > 0
    ensures var n := |Range(start, stop, step)|;
      if start < stop then start + (n - 1) * step < stop <= start + n * step else n == 0
  {
    if start < stop {
      var q := (stop - start - 1) / step;
      assert q * step <= stop - start - 1 < q * step + step;
      assert (q + 1) * step == q * step + step;
    }
  }

  /** Multiplying by a positive factor keeps order. */
  lemma MulMono(a: int, b: int, c: int)
    requires a <= b && c > 0
    ensures a * c <= b * c
  {
    assert b * c - a * c == (b - a) * c;
  }

  /** Python's `list.reverse()`, on a value. */
  function Reverse<T>(s: seq<T>): (r: seq<T>)
    ensures |r| == |s| && forall i | 0 <= i < |s| :: r[i] == s[|s| - 1 - i]
  {
    if s == [] then [] else Reverse(s[1..]) + [s[0]]
  }

  lemma ReverseSnoc<T>(s: seq<T>, x: T)
    ensures Reverse(s + [x]) == [x] + Reverse(s)
  {
    assert |Reverse(s + [x])| == |[x] + Reverse(s)|;
  }

  /** No element occurs twice. */
  predicate Distinct<T(==)>(s: seq<T>) {
    forall i, j | 0 <= i < j < |s| :: s[i] != s[j]
  }

  lemma {:induction false} DistinctCount<T>(s: seq<T>, v: T)
    requires Distinct(s)
    ensures multiset(s)[v] <= 1
  {
    if s != [] {
      assert s == [s[0]] + s[1..];
      assert Distinct(s[1..]) by {
        forall i, j | 0 <= i < j < |s[1..]| ensures s[1..][i] != s[1..][j] {
          assert s[1..][i] == s[i + 1] && s[1..][j] == s[j + 1];
        }
      }
      DistinctCount(s[1..], v);
      if s[0] == v {
        assert v !in s[1..] by {
          forall k | 0 <= k < |s[1..]| ensures s[1..][k] != v { assert s[1..][k] == s[k + 1]; }
        }
      }
    }
  }

  lemma RepeatCount<T>(t: seq<T>, i: int, j: int)
    requires 0 <= i < j < |t| && t[i] == t[j]
    ensures multiset(t)[t[i]] >= 2
  {
    assert t == t[..j] + t[j..];
    assert t[i] in t[..j];
    assert t[j..][0] == t[j];
    assert t[j] in t[j..];
  }

  /** A sub-multiset of a duplicate-free sequence is itself duplicate-free. */
  lemma DistinctSub<T>(s: seq<T>, t: seq<T>)
    requires Distinct(s) && multiset(t) <= multiset(s)
    ensures Distinct(t)
  {
    forall i, j | 0 <= i < j < |t| ensures t[i] != t[j] {
      if t[i] == t[j] {
        RepeatCount(t, i, j);
        DistinctCount(s, t[i]);
        assert false;
      }
    }
  }

  /** `random.sample(population, k)`: k elements drawn without replacement. Draw number i
      (the oracle `pick`) selects one of the |population| - i elements still in the pool;
      every ordered selection the library can return is produced by some oracle. Python
      raises ValueError unless 0 <= k <= len(population). */
  method Sample<T(==)>(population: seq<T>, k: int, pick: nat -> nat) returns (chosen: seq<T>)
    requires 0 <= k <= |population|
    ensures |chosen| == k
    ensures multiset(chosen) <= multiset(population)
    ensures forall x | x in chosen :: x in population
    ensures Distinct(population) ==> Distinct(chosen)
  {
    var pool := population;
    chosen := [];
    var i := 0;
    while i < k
      invariant 0 <= i <= k && |chosen| == i && |pool| == |population| - i
      invariant multiset(chosen) + multiset(pool) == multiset(population)
    {
      var j := pick(i) % |pool|;
      var x := pool[j];
      var rest := pool[..j] + pool[j + 1..];
      assert pool == pool[..j] + [x] + pool[j + 1..];
      assert multiset(pool) == multiset(rest) + multiset{x};
      chosen := chosen + [x];
      pool := rest;
      i := i + 1;
    }
    SubMultisetMembers(population, chosen);
    if Distinct(population) {
      DistinctSub(population, chosen);
    }
  }

  lemma SubMultisetMembers<T>(s: seq<T>, t: seq<T>)
    requires multiset(t) <= multiset(s)
    ensures forall x | x in t :: x in s
  {
    forall x | x in t ensures x in s {
      assert x in multiset(t);
    }
  }
}
