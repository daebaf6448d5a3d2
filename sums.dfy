/** Sums of sequences of weights, shared by the load balancers and the schedulers. */
module Sums {

  /** The total of `s`, added from the front. */
  function Sum(s: seq<nat>): nat
  {
    if s == [] then 0 else Sum(s[..|s| - 1]) + s[|s| - 1]
  }

  /** The total of a concatenation is the sum of the totals. */
  lemma {:induction false} SumConcat(a: seq<nat>, b: seq<nat>)
    ensures Sum(a + b) == Sum(a) + Sum(b)
    decreases |b|
  {
    if b != [] {
      assert (a + b)[..|a + b| - 1] == a + b[..|b| - 1];
      SumConcat(a, b[..|b| - 1]);
    } else {
      assert a + b == a;
    }
  }

  /** The total of a sequence is its first element plus the total of the rest. */
  lemma SumCons(x: nat, s: seq<nat>)
    ensures Sum([x] + s) == x + Sum(s)
  {
    SumConcat([x], s);
    assert [x][..0] == [];
  }

  /** Extending a window by one element adds that element. */
  lemma SumExtend(s: seq<nat>, lo: nat, hi: nat)
    requires lo <= hi < |s|
    ensures Sum(s[lo..hi + 1]) == Sum(s[lo..hi]) + s[hi]
  {
    assert s[lo..hi + 1][..hi - lo] == s[lo..hi];
  }

  /** Adjacent windows add up. */
  lemma SumSplit(s: seq<nat>, lo: nat, mid: nat, hi: nat)
    requires lo <= mid <= hi <= |s|
    ensures Sum(s[lo..hi]) == Sum(s[lo..mid]) + Sum(s[mid..hi])
  {
    assert s[lo..hi] == s[lo..mid] + s[mid..hi];
    SumConcat(s[lo..mid], s[mid..hi]);
  }

  /** Adding `w` to one element adds `w` to the total. */
  lemma SumUpdate(s: seq<nat>, t: nat, w: nat)
    requires t < |s|
    ensures Sum(s[t := s[t] + w]) == Sum(s) + w
  {
    var u := s[t := s[t] + w];
    assert s == s[..t] + [s[t]] + s[t + 1..];
    assert u == s[..t] + [s[t] + w] + s[t + 1..];
    SumConcat(s[..t] + [s[t]], s[t + 1..]);
    SumConcat(s[..t], [s[t]]);
    SumConcat(s[..t] + [s[t] + w], s[t + 1..]);
    SumConcat(s[..t], [s[t] + w]);
    SumCons(s[t], []);
    SumCons(s[t] + w, []);
    assert [s[t]] + [] == [s[t]] && [s[t] + w] + [] == [s[t] + w];
  }

  /** Rearranging a sequence keeps its total. */
  lemma {:induction false} SumPermutation(a: seq<nat>, b: seq<nat>)
    requires multiset(a) == multiset(b)
    ensures Sum(a) == Sum(b)
    decreases |a|
  {
    if a != [] {
      var x := a[|a| - 1];
      assert x in multiset(b) by { assert x in multiset(a); }
      var k :| 0 <= k < |b| && b[k] == x;
      var b' := b[..k] + b[k + 1..];
      assert b == b[..k] + [x] + b[k + 1..];
      assert a == a[..|a| - 1] + [x];
      calc {
        multiset(a[..|a| - 1]) + multiset{x};
        multiset(a);
        multiset(b);
        multiset(b[..k] + [x] + b[k + 1..]);
        multiset(b') + multiset{x};
      }
      assert multiset(a[..|a| - 1]) == multiset(a) - multiset{x};
      assert multiset(b') == multiset(b) - multiset{x};
      SumPermutation(a[..|a| - 1], b');
      SumConcat(b[..k] + [x], b[k + 1..]);
      SumConcat(b[..k], [x]);
      SumConcat(b[..k], b[k + 1..]);
      assert Sum([x]) == x by { assert [x][..0] == []; }
    }
  }

  // ---------------------------------------------------------------------------
  // Windows and reindexing

  /** Growing a front window by one at its end and a back window by one at
      its start adds the two new elements (the windows may overlap). */
  lemma WindowsStep(w: seq<nat>, k: nat, j: nat, lo: nat)
    requires k <= j < |w| && lo < |w|
    ensures Sum(w[k..j + 1]) + Sum(w[lo..]) == Sum(w[k..j]) + Sum(w[lo + 1..]) + w[j] + w[lo]
  {
    SumExtend(w, k, j);
    SumSplit(w, lo, lo + 1, |w|);
    SumExtend(w, lo, lo);
    assert w[lo..lo] == [];
    assert w[lo..|w|] == w[lo..] && w[lo + 1..|w|] == w[lo + 1..];
  }

  /** Dropping at most the first element of `w` drops its weight. */
  lemma LeftoverSplit(w: seq<nat>, k: nat)
    requires k <= 1 && k <= |w|
    ensures Sum(w[k..|w|]) + (if k == 1 then w[0] else 0) == Sum(w)
  {
    assert w == w[0..|w|];
    SumSplit(w, 0, k, |w|);
    assert w[0..0] == [];
    if k == 1 {
      SumExtend(w, 0, 0);
    }
  }

  /** `s` read through the index map `m`: `[s[m[0]], s[m[1]], ...]` (an
      entry of `m` out of range reads as 0). */
  function Apply(s: seq<nat>, m: seq<nat>): (r: seq<nat>)
    ensures |r| == |m|
    ensures forall j :: 0 <= j < |m| ==> r[j] == if m[j] < |s| then s[m[j]] else 0
  {
    seq(|m|, j requires 0 <= j < |m| => if m[j] < |s| then s[m[j]] else 0)
  }

  lemma ApplyConcat(s: seq<nat>, m1: seq<nat>, m2: seq<nat>)
    ensures Apply(s, m1 + m2) == Apply(s, m1) + Apply(s, m2)
  {
  }

  /** Reading through `m` splits around its entry at `k`. */
  lemma ApplyRemove(s: seq<nat>, m: seq<nat>, k: nat)
    requires k < |m|
    ensures Apply(s, m) == Apply(s, m[..k]) + [if m[k] < |s| then s[m[k]] else 0] + Apply(s, m[k + 1..])
    ensures Apply(s, m[..k] + m[k + 1..]) == Apply(s, m[..k]) + Apply(s, m[k + 1..])
  {
    ApplyConcat(s, m[..k], m[k + 1..]);
  }

  /** Taking the last entry of `m1` out of `m1`, and the same entry out of
      `m2` where it sits at `k`, keeps the two multisets equal. */
  lemma RemoveLast(m1: seq<nat>, m2: seq<nat>, k: nat)
    requires multiset(m1) == multiset(m2) && k < |m2| && m1 != [] && m2[k] == m1[|m1| - 1]
    ensures multiset(m1[..|m1| - 1]) == multiset(m2[..k] + m2[k + 1..])
  {
    var x := m2[k];
    assert m1 == m1[..|m1| - 1] + [x];
    assert m2 == m2[..k] + [x] + m2[k + 1..];
    calc {
      multiset(m1[..|m1| - 1]) + multiset{x};
      multiset(m1);
      multiset(m2);
      multiset(m2[..k] + [x] + m2[k + 1..]);
      multiset(m2[..k] + m2[k + 1..]) + multiset{x};
    }
    assert multiset(m1[..|m1| - 1]) == multiset(m1) - multiset{x};
    assert multiset(m2[..k] + m2[k + 1..]) == multiset(m2) - multiset{x};
  }

  /** Reading through a rearranged index map gives a rearranged sequence. */
  lemma {:induction false} ApplyPermutation(s: seq<nat>, m1: seq<nat>, m2: seq<nat>)
    requires multiset(m1) == multiset(m2)
    ensures multiset(Apply(s, m1)) == multiset(Apply(s, m2))
    decreases |m1|
  {
    if m1 == [] {
      assert |m2| == |multiset(m2)| == 0;
    } else {
      var n := |m1| - 1;
      var x := m1[n];
      assert x in multiset(m2) by { assert m1 == m1[..n] + [x]; assert x in multiset(m1); }
      var k :| 0 <= k < |m2| && m2[k] == x;
      RemoveLast(m1, m2, k);
      ApplyPermutation(s, m1[..n], m2[..k] + m2[k + 1..]);
      ApplyRemove(s, m2, k);
      ApplyRemove(s, m1, n);
      assert m1[n + 1..] == [];
    }
  }

  // ---------------------------------------------------------------------------
  // Arithmetic

  lemma MulMono(a: nat, b: nat, c: nat)
    requires a <= b
    ensures a * c <= b * c
  {
  }

  lemma MulSucc(a: nat, c: nat)
    ensures (a + 1) * c == a * c + c
  {
  }

  /** Division with remainder is unique. */
  lemma ModUnique(x: nat, n: nat, q: nat, r: nat)
    requires 1 <= n && x == q * n + r && r < n
    ensures x % n == r
  {
    var q' := x / n;
    var r' := x % n;
    assert x == q' * n + r';
    MulSucc(q', n);
    MulSucc(q, n);
    if q' < q {
      MulMono(q' + 1, q, n);
      assert false;
    } else if q < q' {
      MulMono(q + 1, q', n);
      assert false;
    }
  }

  /** The quotient is the largest multiple that fits. */
  lemma DivLeast(a: nat, b: nat, q: nat)
    requires 1 <= b && q * b <= a
    ensures q <= a / b
  {
    var d := a / b;
    assert a == d * b + a % b;
    MulSucc(d, b);
    if d < q {
      MulMono(d + 1, q, b);
      assert false;
    }
  }

  /** A larger divisor gives a smaller quotient. */
  lemma DivDivisorMono(a: nat, b: nat, c: nat)
    requires 1 <= b <= c
    ensures a / c <= a / b
  {
    var q := a / c;
    assert a == q * c + a % c;
    MulMono(b, c, q);
    assert b * q == q * b && c * q == q * c;
    DivLeast(a, b, q);
  }

  /** Stepping a remainder by one and wrapping agrees with stepping the number. */
  lemma ModSucc(a: nat, n: nat)
    requires 1 <= n
    ensures (a % n + 1) % n == (a + 1) % n
  {
    var q := a / n;
    var r := a % n;
    if r + 1 < n {
      ModUnique(a + 1, n, q, r + 1);
      ModUnique(r + 1, n, 0, r + 1);
    } else {
      ModUnique(a + 1, n, q + 1, 0);
      ModUnique(r + 1, n, 1, 0);
    }
  }
}
