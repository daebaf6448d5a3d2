/** Workload sorting of the BIN+LPT and SRR balancers (libgomp/src/libgomp/loop.c,
    lines 80-156): an exchange sort that swaps a weight array and an index map in
    lockstep, a quicksort on top of it, and `sort`, which seeds the map with the
    identity before sorting.

    C pointers into an array (`a + i`) are modelled as an array together with an
    offset; `unsigned` values are modelled as `nat`. */
module TaskSort {

  /** Largest `unsigned` value: `n - 1` wraps to it when `n == 0`. */
  const UINT_MAX: nat := 0xFFFF_FFFF

  /** `N` of loop.c:80: below this length `quicksort` hands over to `insertion`. */
  const CUTOFF: nat := 128

  /** The weights and the index map that the sort rearranges together. */
  datatype Pair = Pair(a: seq<nat>, m: seq<nat>)

  ghost predicate Sorted(s: seq<nat>)
  {
    forall k, l :: 0 <= k < l < |s| ==> s[k] <= s[l]
  }

  /** Every map entry names the original position of the weight beside it. */
  ghost predicate Tracks(a: seq<nat>, m: seq<nat>, orig: seq<nat>)
  {
    |a| == |m| && forall k :: 0 <= k < |a| ==> m[k] < |orig| && a[k] == orig[m[k]]
  }

  /** No weight before `i` is larger than a weight from `i` on. */
  ghost predicate SplitAt(s: seq<nat>, i: nat)
  {
    forall k, l :: 0 <= k < i <= l < |s| ==> s[k] <= s[l]
  }

  ghost predicate SettledBefore(s: seq<nat>, i: nat)
  {
    forall k, l :: 0 <= k < i && k < l < |s| ==> s[k] <= s[l]
  }

  /** `exch(s[x], s[y], t)`. */
  function Swap(s: seq<nat>, x: nat, y: nat): (r: seq<nat>)
    requires x < |s| && y < |s|
    ensures |r| == |s| && r[x] == s[y] && r[y] == s[x]
    ensures forall k :: 0 <= k < |s| && k != x && k != y ==> r[k] == s[k]
  {
    seq(|s|, k requires 0 <= k < |s| => if k == x then s[y] else if k == y then s[x] else s[k])
  }

  lemma SwapPermutes(s: seq<nat>, x: nat, y: nat)
    requires x < |s| && y < |s|
    ensures multiset(Swap(s, x, y)) == multiset(s)
  {
    assert Swap(s, x, y) == s[x := s[y]][y := s[x]];
  }

  /** One pass of the inner loop of `insertion` (loop.c:102-106): if the weight at
      `j` is smaller than the one at `i`, both arrays exchange positions `i` and `j`. */
  function Exchange(p: Pair, i: nat, j: nat): (r: Pair)
    requires |p.a| == |p.m| && i < |p.a| && j < |p.a|
    ensures |r.a| == |p.a| && |r.m| == |p.m|
  {
    if p.a[j] < p.a[i] then Pair(Swap(p.a, i, j), Swap(p.m, i, j)) else p
  }

  /** The inner loop of `insertion` from `j` on (loop.c:99-107). */
  function PullFrom(p: Pair, i: nat, j: nat): (r: Pair)
    requires |p.a| == |p.m| && i < j
    ensures |r.a| == |p.a| && |r.m| == |p.m|
    decreases |p.a| - j
  {
    if j >= |p.a| || i >= |p.a| then p else PullFrom(Exchange(p, i, j), i, j + 1)
  }

  /** The outer loop of `insertion` from `i` on (loop.c:97-108). */
  function InsertionFrom(p: Pair, i: nat): (r: Pair)
    requires |p.a| == |p.m|
    ensures |r.a| == |p.a| && |r.m| == |p.m|
    decreases |p.a| - i
  {
    if i + 1 >= |p.a| then p else InsertionFrom(PullFrom(p, i, i + 1), i + 1)
  }

  /** What `insertion(map, a, n)` leaves in the two windows of length `n`. */
  function Insertion(p: Pair): (r: Pair)
    requires |p.a| == |p.m|
    ensures |r.a| == |p.a| && |r.m| == |p.m|
  {
    InsertionFrom(p, 0)
  }

  function Identity(n: nat): (r: seq<nat>)
    ensures |r| == n && forall k :: 0 <= k < n ==> r[k] == k
  {
    seq(n, k => k)
  }

  /** What `sort(a, n, map)` leaves in `a[0..n)` and `map[0..n)` (loop.c:147-156). */
  function SortResult(a: seq<nat>): (r: Pair)
    ensures |r.a| == |a| && |r.m| == |a|
  {
    Insertion(Pair(a, Identity(|a|)))
  }

  // ---------------------------------------------------------------------------
  // Properties of one exchange

  lemma ExchangeFrame(p: Pair, i: nat, j: nat)
    requires |p.a| == |p.m| && i < j < |p.a|
    ensures Exchange(p, i, j).a[..i] == p.a[..i]
    ensures forall l :: i < l < j ==> Exchange(p, i, j).a[l] == p.a[l]
    ensures Exchange(p, i, j).a[i] <= p.a[i] && Exchange(p, i, j).a[i] <= Exchange(p, i, j).a[j]
  {
  }

  lemma ExchangeSettled(p: Pair, i: nat, j: nat)
    requires |p.a| == |p.m| && i < j < |p.a| && SettledBefore(p.a, i)
    ensures SettledBefore(Exchange(p, i, j).a, i)
  {
    var r := Exchange(p, i, j).a;
    forall k, l | 0 <= k < i && k < l < |r| ensures r[k] <= r[l] {
      assert r[l] == p.a[l] || r[l] == p.a[i] || r[l] == p.a[j];
    }
  }

  lemma ExchangeTracks(p: Pair, i: nat, j: nat, orig: seq<nat>)
    requires |p.a| == |p.m| && i < j < |p.a| && Tracks(p.a, p.m, orig)
    ensures Tracks(Exchange(p, i, j).a, Exchange(p, i, j).m, orig)
  {
    var r := Exchange(p, i, j);
    forall k | 0 <= k < |r.a| ensures r.m[k] < |orig| && r.a[k] == orig[r.m[k]] {
      if k == i {
      } else if k == j {
      } else {
      }
    }
  }

  // ---------------------------------------------------------------------------
  // Properties of the inner loop

  /** The inner loop only exchanges slot `i` with later slots. */
  lemma {:induction false} PullFromPrefix(p: Pair, i: nat, j: nat)
    requires |p.a| == |p.m| && i < j && i < |p.a|
    decreases |p.a| - j
    ensures PullFrom(p, i, j).a[..i] == p.a[..i]
  {
    if j < |p.a| {
      ExchangeFrame(p, i, j);
      PullFromPrefix(Exchange(p, i, j), i, j + 1);
    }
  }

  lemma ExchangePermutes(p: Pair, i: nat, j: nat)
    requires |p.a| == |p.m| && i < |p.a| && j < |p.a|
    ensures multiset(Exchange(p, i, j).a) == multiset(p.a)
    ensures multiset(Exchange(p, i, j).m) == multiset(p.m)
  {
    if p.a[j] < p.a[i] {
      SwapPermutes(p.a, i, j);
      SwapPermutes(p.m, i, j);
    }
  }

  /** The inner loop permutes the weights. */
  lemma {:induction false} PullFromPermutesWeights(p: Pair, i: nat, j: nat)
    requires |p.a| == |p.m| && i < j
    decreases |p.a| - j
    ensures multiset(PullFrom(p, i, j).a) == multiset(p.a)
  {
    if j < |p.a| && i < |p.a| {
      var q := Exchange(p, i, j);
      ExchangePermutes(p, i, j);
      PullFromPermutesWeights(q, i, j + 1);
      assert PullFrom(p, i, j) == PullFrom(q, i, j + 1);
    }
  }

  /** The inner loop permutes the map. */
  lemma {:induction false} PullFromPermutesMap(p: Pair, i: nat, j: nat)
    requires |p.a| == |p.m| && i < j
    decreases |p.a| - j
    ensures multiset(PullFrom(p, i, j).m) == multiset(p.m)
  {
    if j < |p.a| && i < |p.a| {
      var q := Exchange(p, i, j);
      ExchangePermutes(p, i, j);
      PullFromPermutesMap(q, i, j + 1);
      assert PullFrom(p, i, j) == PullFrom(q, i, j + 1);
    }
  }

  /** The inner loop keeps every settled slot settled. */
  lemma {:induction false} PullFromSettled(p: Pair, i: nat, j: nat)
    requires |p.a| == |p.m| && i < j && SettledBefore(p.a, i)
    decreases |p.a| - j
    ensures SettledBefore(PullFrom(p, i, j).a, i)
  {
    if j < |p.a| && i < |p.a| {
      ExchangeSettled(p, i, j);
      PullFromSettled(Exchange(p, i, j), i, j + 1);
    }
  }

  /** The inner loop keeps every map entry naming the original position of its weight. */
  lemma {:induction false} PullFromTracks(p: Pair, i: nat, j: nat, orig: seq<nat>)
    requires |p.a| == |p.m| && i < j && Tracks(p.a, p.m, orig)
    decreases |p.a| - j
    ensures Tracks(PullFrom(p, i, j).a, PullFrom(p, i, j).m, orig)
  {
    if j < |p.a| && i < |p.a| {
      ExchangeTracks(p, i, j, orig);
      PullFromTracks(Exchange(p, i, j), i, j + 1, orig);
    }
  }

  /** The inner loop leaves in slot `i` a weight no larger than any later one. */
  lemma {:induction false} PullFromMinimum(p: Pair, i: nat, j: nat)
    requires |p.a| == |p.m| && i < j && i < |p.a|
    requires forall l :: i < l < j && l < |p.a| ==> p.a[i] <= p.a[l]
    decreases |p.a| - j
    ensures forall l :: i < l < |p.a| ==> PullFrom(p, i, j).a[i] <= PullFrom(p, i, j).a[l]
  {
    if j < |p.a| {
      ExchangeFrame(p, i, j);
      PullFromMinimum(Exchange(p, i, j), i, j + 1);
    }
  }

  // ---------------------------------------------------------------------------
  // Properties of the outer loop

  /** The outer loop, from slot `i` on, settles every remaining slot. */
  lemma {:induction false} InsertionFromSorts(p: Pair, i: nat)
    requires |p.a| == |p.m| && SettledBefore(p.a, i)
    decreases |p.a| - i
    ensures Sorted(InsertionFrom(p, i).a)
  {
    if i + 1 >= |p.a| {
      forall k, l | 0 <= k < l < |p.a| ensures p.a[k] <= p.a[l] {
        assert k < i;
      }
    } else {
      var q := PullFrom(p, i, i + 1);
      PullFromSettled(p, i, i + 1);
      PullFromMinimum(p, i, i + 1);
      PullFromPrefix(p, i, i + 1);
      forall k, l | 0 <= k < i + 1 && k < l < |q.a| ensures q.a[k] <= q.a[l] {
        if k < i {
          assert SettledBefore(q.a, i);
        }
      }
      InsertionFromSorts(q, i + 1);
    }
  }

  /** The outer loop permutes both windows. */
  lemma {:induction false} InsertionFromPermutes(p: Pair, i: nat)
    requires |p.a| == |p.m|
    decreases |p.a| - i
    ensures multiset(InsertionFrom(p, i).a) == multiset(p.a)
    ensures multiset(InsertionFrom(p, i).m) == multiset(p.m)
  {
    if i + 1 < |p.a| {
      var q := PullFrom(p, i, i + 1);
      assert InsertionFrom(p, i) == InsertionFrom(q, i + 1);
      PullFromPermutesWeights(p, i, i + 1);
      PullFromPermutesMap(p, i, i + 1);
      InsertionFromPermutes(q, i + 1);
    }
  }

  /** The outer loop keeps every map entry naming the original position of its weight. */
  lemma {:induction false} InsertionFromTracks(p: Pair, i: nat, orig: seq<nat>)
    requires |p.a| == |p.m| && Tracks(p.a, p.m, orig)
    decreases |p.a| - i
    ensures Tracks(InsertionFrom(p, i).a, InsertionFrom(p, i).m, orig)
  {
    if i + 1 < |p.a| {
      PullFromTracks(p, i, i + 1, orig);
      InsertionFromTracks(PullFrom(p, i, i + 1), i + 1, orig);
    }
  }

  /** `insertion` sorts the weights and permutes the map in lockstep with them. */
  lemma InsertionSorts(p: Pair, orig: seq<nat>)
    requires |p.a| == |p.m|
    ensures var r := Insertion(p);
      Sorted(r.a) &&
      multiset(r.a) == multiset(p.a) && multiset(r.m) == multiset(p.m) &&
      (Tracks(p.a, p.m, orig) ==> Tracks(r.a, r.m, orig))
  {
    InsertionFromSorts(p, 0);
    InsertionFromPermutes(p, 0);
    if Tracks(p.a, p.m, orig) {
      InsertionFromTracks(p, 0, orig);
    }
  }

  /** After `sort(a, n, map)`, `a[0..n)` is sorted and a permutation of its input,
      `map[0..n)` is a permutation of `0..n-1`, and `a[k] == old_a[map[k]]`. */
  lemma SortIsCorrect(a: seq<nat>)
    ensures var r := SortResult(a);
      Sorted(r.a) &&
      multiset(r.a) == multiset(a) &&
      multiset(r.m) == multiset(Identity(|a|)) &&
      (forall k :: 0 <= k < |a| ==> r.m[k] < |a| && r.a[k] == a[r.m[k]])
  {
    var p := Pair(a, Identity(|a|));
    assert Tracks(p.a, p.m, a);
    InsertionSorts(p, a);
  }

  lemma {:induction false} IdentityCount(n: nat, v: nat)
    ensures multiset(Identity(n))[v] == if v < n then 1 else 0
  {
    if n > 0 {
      assert Identity(n) == Identity(n - 1) + [n - 1];
      IdentityCount(n - 1, v);
    }
  }

  /** A sequence with the elements of `Identity(n)` lists each of `0..n` once. */
  lemma PermutationOfIdentity(m: seq<nat>, n: nat)
    requires multiset(m) == multiset(Identity(n))
    ensures |m| == n
    ensures forall x, y :: 0 <= x < y < |m| ==> m[x] != m[y]
    ensures forall v :: 0 <= v < n ==> v in m
  {
    assert |m| == |multiset(m)| == |multiset(Identity(n))| == n;
    forall x, y | 0 <= x < y < |m|
      ensures m[x] != m[y]
    {
      if m[x] == m[y] {
        var v := m[x];
        assert m == m[..y] + [v] + m[y + 1..];
        assert v in multiset(m[..y]) by { assert m[..y][x] == v; }
        assert multiset(m)[v] >= 2;
        IdentityCount(n, v);
        assert false;
      }
    }
    forall v | 0 <= v < n
      ensures v in m
    {
      IdentityCount(n, v);
      assert v in multiset(m);
    }
  }

  /** The map `sort` returns is a permutation of the positions `0..|a|`. */
  lemma SortMapIsPermutation(a: seq<nat>)
    ensures var r := SortResult(a);
      (forall x, y :: 0 <= x < y < |a| ==> r.m[x] != r.m[y]) &&
      (forall v :: 0 <= v < |a| ==> v in r.m)
  {
    SortIsCorrect(a);
    PermutationOfIdentity(SortResult(a).m, |a|);
  }

  // ---------------------------------------------------------------------------
  // The C routines

  /** The inner loop of `insertion` (loop.c:99-107) for one slot `i`, on windows
      `a[aOff..aOff+n)` and `map[mOff..mOff+n)` whose contents are `A` and `M`; returns
      their new contents. */
  method PullMinimum(m: array<nat>, mOff: nat, a: array<nat>, aOff: nat, n: nat, i: nat,
                     ghost pa: seq<nat>, ghost A: seq<nat>, ghost qa: seq<nat>,
                     ghost pm: seq<nat>, ghost M: seq<nat>, ghost qm: seq<nat>)
      returns (ghost p: Pair)
    requires a != m && |pa| == aOff && |A| == n && |pm| == mOff && |M| == n
    requires a[..] == pa + A + qa && m[..] == pm + M + qm
    modifies a, m
    ensures p == PullFrom(Pair(A, M), i, i + 1)
    ensures a[..] == pa + p.a + qa && m[..] == pm + p.m + qm
  {
    p := Pair(A, M);
    ghost var goal := PullFrom(p, i, i + 1);
    var j := i + 1;
    while j < n
      invariant i < j && |p.a| == n && |p.m| == n
      invariant a[..] == pa + p.a + qa && m[..] == pm + p.m + qm
      invariant PullFrom(p, i, j) == goal
    {
      assert a[aOff + j] == p.a[j] && a[aOff + i] == p.a[i];
      if a[aOff + j] < a[aOff + i] {
        ExchangeWithin(m, mOff, a, aOff, n, i, j, pa, p.a, qa, pm, p.m, qm);
      }
      p := Exchange(p, i, j);
      j := j + 1;
    }
  }

  /** `insertion(map, a, n)` (loop.c:91-109) on windows `a[aOff..aOff+n)` and
      `map[mOff..mOff+n)` whose contents are `A` and `M`; returns their new contents.
      For `n == 0` the bound `n - 1` wraps to `UINT_MAX` and the outer loop runs
      without effect. */
  method InsertionSort(m: array<nat>, mOff: nat, a: array<nat>, aOff: nat, n: nat,
                       ghost pa: seq<nat>, ghost A: seq<nat>, ghost qa: seq<nat>,
                       ghost pm: seq<nat>, ghost M: seq<nat>, ghost qm: seq<nat>)
      returns (ghost p: Pair)
    requires a != m && |pa| == aOff && |A| == n && |pm| == mOff && |M| == n
    requires a[..] == pa + A + qa && m[..] == pm + M + qm
    modifies a, m
    ensures p == Insertion(Pair(A, M))
    ensures a[..] == pa + p.a + qa && m[..] == pm + p.m + qm
  {
    p := Pair(A, M);
    ghost var goal := Insertion(p);
    var bound := if n == 0 then UINT_MAX else n - 1;
    var i := 0;
    while i < bound
      invariant i <= bound && |p.a| == n && |p.m| == n
      invariant a[..] == pa + p.a + qa && m[..] == pm + p.m + qm
      invariant InsertionFrom(p, i) == goal
    {
      p := PullMinimum(m, mOff, a, aOff, n, i, pa, p.a, qa, pm, p.m, qm);
      i := i + 1;
    }
  }

  /** `sort(a, n, map)` (loop.c:147-156): `map[0..n)` becomes the identity and both
      arrays are then sorted by `insertion`. */
  method Sort(a: array<nat>, n: nat, m: array<nat>)
    requires a != m && n <= a.Length && n <= m.Length
    modifies a, m
    ensures Pair(a[..n], m[..n]) == SortResult(old(a[..n]))
    ensures a[n..] == old(a[n..]) && m[n..] == old(m[n..])
  {
    var i := 0;
    while i < n
      invariant i <= n
      invariant forall k :: 0 <= k < i ==> m[k] == k
      invariant m[n..] == old(m[n..]) && a[..] == old(a[..])
    {
      m[i] := i;
      i := i + 1;
    }
    assert m[..n] == Identity(n);
    assert a[..] == [] + a[..n] + a[n..] && m[..] == [] + m[..n] + m[n..];
    ghost var p := InsertionSort(m, 0, a, 0, n, [], a[..n], a[n..], [], m[..n], m[n..]);
    ArrayWindows(a, [], p.a, old(a[n..]));
    ArrayWindows(m, [], p.m, old(m[n..]));
  }

  // ---------------------------------------------------------------------------
  // Quicksort

  /** The index at which `while (a[i] < p) i++;` (loop.c:130-131) stops: the first
      index from `i` on whose weight is no smaller than `p`, or `|s|` if there is none
      (the partition loop never reaches that case). */
  function ScanUpFrom(s: seq<nat>, i: nat, p: nat): (r: nat)
    requires i <= |s|
    ensures i <= r <= |s| && (r < |s| ==> p <= s[r])
    ensures forall k :: i <= k < r ==> s[k] < p
    decreases |s| - i
  {
    if i == |s| || p <= s[i] then i else ScanUpFrom(s, i + 1, p)
  }

  /** The index at which `while (p < a[j]) j--;` (loop.c:132-133) stops: the last
      index up to `j` whose weight is no larger than `p`, or 0 if there is none
      (the partition loop never reaches that case). */
  function ScanDownFrom(s: seq<nat>, j: nat, p: nat): (r: nat)
    requires j < |s|
    ensures r <= j && (s[r] <= p || r == 0)
    ensures forall k :: r < k <= j ==> p < s[k]
    decreases j
  {
    if j == 0 || s[j] <= p then j else ScanDownFrom(s, j - 1, p)
  }

  /** The invariant of the partition loop at the state `(i, j)`: a weight no smaller
      than the pivot `p` lies at or after `i` and one no larger at or before `j`, so
      that both scans stop inside the window; no weight before `i` is larger than
      `p` and none after `j` smaller. */
  ghost predicate Bracketed(s: seq<nat>, p: nat, i: nat, j: nat)
  {
    i <= |s| && j < |s| &&
    (exists k :: i <= k < |s| && p <= s[k]) &&
    (exists k :: 0 <= k <= j && s[k] <= p) &&
    (forall k :: 0 <= k < i ==> s[k] <= p) &&
    (forall k :: j < k < |s| ==> p <= s[k])
  }

  /** No weight before `i` is larger than `p` and none from `i` on smaller. */
  ghost predicate SplitBy(s: seq<nat>, p: nat, i: nat)
  {
    (forall k :: 0 <= k < i && k < |s| ==> s[k] <= p) &&
    (forall k :: i <= k < |s| ==> p <= s[k])
  }

  /** Under the loop invariant both scans stop on a sentinel and extend the settled
      ends; if they meet, the window is split at the upper scan's index. */
  lemma BracketedStops(s: seq<nat>, p: nat, i: nat, j: nat)
    requires Bracketed(s, p, i, j)
    ensures var i', j' := ScanUpFrom(s, i, p), ScanDownFrom(s, j, p);
      i' < |s| && s[j'] <= p &&
      (forall k :: 0 <= k < i' ==> s[k] <= p) &&
      (forall k :: j' < k < |s| ==> p <= s[k]) &&
      (i' >= j' ==> SplitBy(s, p, i'))
  {
    var i', j' := ScanUpFrom(s, i, p), ScanDownFrom(s, j, p);
    forall k | 0 <= k < i' ensures s[k] <= p {
      if k >= i {
        assert s[k] < p;
      }
    }
    forall k | j' < k < |s| ensures p <= s[k] {
      if k <= j {
        assert p < s[k];
      }
    }
    if i' >= j' {
      forall k | i' <= k < |s| ensures p <= s[k] {
        if k <= j' {
          assert k == i';
        }
      }
    }
  }

  lemma SplitByPivot(s: seq<nat>, p: nat, i: nat)
    requires SplitBy(s, p, i)
    ensures SplitAt(s, i)
  {
    forall k, l | 0 <= k < i <= l < |s| ensures s[k] <= s[l] {
      assert s[k] <= p <= s[l];
    }
  }

  /** Exchanging the two stopped positions and stepping past them re-establishes
      the loop invariant. */
  lemma BracketedRound(s: seq<nat>, p: nat, i: nat, j: nat)
    requires i < j < |s| && p <= s[i] && s[j] <= p
    requires forall k :: 0 <= k < i ==> s[k] <= p
    requires forall k :: j < k < |s| ==> p <= s[k]
    ensures Bracketed(Swap(s, i, j), p, i + 1, j - 1)
  {
    var t := Swap(s, i, j);
    assert p <= t[j] && t[i] <= p;
  }

  /** One round of the partition loop from a state satisfying its invariant: if the
      scans meet, the window is split at `i'`, which is positive; otherwise the
      exchange re-establishes the invariant. */
  lemma PartitionStep(s: seq<nat>, p: nat, i: nat, j: nat, i': nat, j': nat)
    requires Bracketed(s, p, i, j) && 2 <= |s|
    requires i == 0 ==> j == |s| - 1 && s[|s| / 2] == p
    requires i' == ScanUpFrom(s, i, p) && j' == ScanDownFrom(s, j, p)
    ensures i' < |s|
    ensures i' >= j' ==> 0 < i' && SplitAt(s, i')
    ensures i' < j' ==> Bracketed(Swap(s, i', j'), p, i' + 1, j' - 1)
  {
    BracketedStops(s, p, i, j);
    if i' >= j' {
      SplitByPivot(s, p, i');
      if i == 0 {
        assert s[|s| / 2] == p;
      }
    } else {
      BracketedRound(s, p, i', j');
    }
  }

  /** `while (a[i] < p) i++;` (loop.c:130-131) on the window `a[aOff..aOff+n)`,
      whose contents are `s`. */
  method ScanUp(a: array<nat>, aOff: nat, n: nat, i: nat, p: nat, ghost s: seq<nat>) returns (r: nat)
    requires aOff + n <= a.Length && a[aOff..aOff + n] == s
    requires i < n && exists k :: i <= k < n && p <= s[k]
    ensures r == ScanUpFrom(s, i, p) && r < n
  {
    r := i;
    while a[aOff + r] < p
      invariant i <= r < n && a[aOff + r] == s[r]
      invariant exists k :: r <= k < n && p <= s[k]
      invariant ScanUpFrom(s, r, p) == ScanUpFrom(s, i, p)
      decreases n - r
    {
      r := r + 1;
      assert a[aOff + r] == s[r];
    }
  }

  /** `while (p < a[j]) j--;` (loop.c:132-133) on the window `a[aOff..aOff+n)`,
      whose contents are `s`. */
  method ScanDown(a: array<nat>, aOff: nat, n: nat, j: nat, p: nat, ghost s: seq<nat>) returns (r: nat)
    requires aOff + n <= a.Length && a[aOff..aOff + n] == s
    requires j < n && exists k :: 0 <= k <= j && s[k] <= p
    ensures r == ScanDownFrom(s, j, p) && s[r] <= p
  {
    r := j;
    while p < a[aOff + r]
      invariant r <= j && a[aOff + r] == s[r]
      invariant exists k :: 0 <= k <= r && s[k] <= p
      invariant ScanDownFrom(s, r, p) == ScanDownFrom(s, j, p)
      decreases r
    {
      r := r - 1;
      assert a[aOff + r] == s[r];
    }
  }

  /** An array whose contents are `pre + w + post` has `w` in the window after `pre`. */
  lemma ArrayWindows(a: array<nat>, pre: seq<nat>, w: seq<nat>, post: seq<nat>)
    requires a[..] == pre + w + post
    ensures a[..|pre|] == pre && a[|pre|..|pre| + |w|] == w && a[|pre| + |w|..] == post
  {
    assert a[..|pre|] == a[..][..|pre|];
    assert a[|pre|..|pre| + |w|] == a[..][|pre|..|pre| + |w|];
    assert a[|pre| + |w|..] == a[..][|pre| + |w|..];
  }

  /** Regrouping a concatenation around a split of its middle part. */
  lemma Regroup(pre: seq<nat>, l: seq<nat>, r: seq<nat>, post: seq<nat>)
    ensures pre + (l + r) + post == pre + l + (r + post)
    ensures pre + (l + r) + post == (pre + l) + r + post
  {
  }

  /** `exch(a[x], a[y], t); exch(map[x], map[y], t)` where `a[..]` is `pa + A + qa`
      and `map[..]` is `pm + M + qm`, and `x`, `y` are positions in `A` and `M`. */
  method ExchangeWithin(m: array<nat>, mOff: nat, a: array<nat>, aOff: nat, n: nat, x: nat, y: nat,
                        ghost pa: seq<nat>, ghost A: seq<nat>, ghost qa: seq<nat>,
                        ghost pm: seq<nat>, ghost M: seq<nat>, ghost qm: seq<nat>)
    requires a != m && |pa| == aOff && |A| == n && |pm| == mOff && |M| == n
    requires a[..] == pa + A + qa && m[..] == pm + M + qm
    requires x < n && y < n
    modifies a, m
    ensures a[..] == pa + Swap(A, x, y) + qa && m[..] == pm + Swap(M, x, y) + qm
  {
    assert a[aOff + x] == A[x] && a[aOff + y] == A[y];
    assert m[mOff + x] == M[x] && m[mOff + y] == M[y];
    a[aOff + x], a[aOff + y] := a[aOff + y], a[aOff + x];
    m[mOff + x], m[mOff + y] := m[mOff + y], m[mOff + x];
    assert a[..] == pa + Swap(A, x, y) + qa;
    assert m[..] == pm + Swap(M, x, y) + qm;
  }

  /** One round of the partition loop (loop.c:130-137): both scans, and the exchange
      unless they have met, on windows whose contents are `A` and `M`. */
  method PartitionRound(m: array<nat>, mOff: nat, a: array<nat>, aOff: nat, n: nat, p: nat, i: nat, j: nat,
                        ghost pa: seq<nat>, ghost A: seq<nat>, ghost qa: seq<nat>,
                        ghost pm: seq<nat>, ghost M: seq<nat>, ghost qm: seq<nat>)
      returns (i': nat, j': nat)
    requires a != m && |pa| == aOff && |A| == n && |pm| == mOff && |M| == n
    requires a[..] == pa + A + qa && m[..] == pm + M + qm
    requires i < n && j < n
    requires (exists k :: i <= k < n && p <= A[k]) && (exists k :: 0 <= k <= j && A[k] <= p)
    modifies a, m
    ensures i' == ScanUpFrom(A, i, p) && j' == ScanDownFrom(A, j, p) && i' < n
    ensures i' >= j' ==> a[..] == old(a[..]) && m[..] == old(m[..])
    ensures i' < j' ==> a[..] == pa + Swap(A, i', j') + qa && m[..] == pm + Swap(M, i', j') + qm
  {
    ArrayWindows(a, pa, A, qa);
    i' := ScanUp(a, aOff, n, i, p, A);
    j' := ScanDown(a, aOff, n, j, p, A);
    if i' < j' {
      ExchangeWithin(m, mOff, a, aOff, n, i', j', pa, A, qa, pm, M, qm);
    }
  }

  /** The partition loop of `quicksort` (loop.c:127-138) on the windows
      `a[aOff..aOff+n)` and `map[mOff..mOff+n)`, whose contents are `A0` and `M0`, with
      pivot `a[n/2]`; returns the final `i` and the new window contents.  For a window
      of at least two weights both parts are non-empty, no weight before `i` is larger
      than one from `i` on, and both windows are rearranged. */
  method Partition(m: array<nat>, mOff: nat, a: array<nat>, aOff: nat, n: nat,
                   ghost pa: seq<nat>, ghost A0: seq<nat>, ghost qa: seq<nat>,
                   ghost pm: seq<nat>, ghost M0: seq<nat>, ghost qm: seq<nat>)
      returns (i: nat, ghost A: seq<nat>, ghost M: seq<nat>)
    requires a != m && |pa| == aOff && |A0| == n && |pm| == mOff && |M0| == n
    requires a[..] == pa + A0 + qa && m[..] == pm + M0 + qm
    requires 2 <= n
    modifies a, m
    ensures |A| == n && |M| == n && a[..] == pa + A + qa && m[..] == pm + M + qm
    ensures 0 < i < n && SplitAt(A, i)
    ensures multiset(A) == multiset(A0) && multiset(M) == multiset(M0)
  {
    ArrayWindows(a, pa, A0, qa);
    A, M := A0, M0;
    var p := a[aOff + n / 2];
    assert p == A[n / 2];
    i := 0;
    var j: nat := n - 1;
    while true
      invariant |A| == n && |M| == n
      invariant a[..] == pa + A + qa && m[..] == pm + M + qm
      invariant Bracketed(A, p, i, j)
      invariant multiset(A) == multiset(A0) && multiset(M) == multiset(M0)
      invariant 0 < i || (j == n - 1 && A[n / 2] == p)
      invariant i <= j + 1
      decreases j + 1 - i
    {
      var done, i', j';
      ghost var A', M';
      done, i', j', A', M' := PartitionTurn(m, mOff, a, aOff, n, p, i, j, pa, A, qa, pm, M, qm);
      A, M := A', M';
      if done {
        i := i';
        break;
      }
      i, j := i', j';
    }
  }

  /** One pass of the partition loop: either the scans meet and the window is
      split at `i'`, or the exchanged window is bracketed by the stepped indices. */
  method PartitionTurn(m: array<nat>, mOff: nat, a: array<nat>, aOff: nat, n: nat, p: nat, i: nat, j: nat,
                       ghost pa: seq<nat>, ghost A: seq<nat>, ghost qa: seq<nat>,
                       ghost pm: seq<nat>, ghost M: seq<nat>, ghost qm: seq<nat>)
      returns (done: bool, i': nat, j': nat, ghost A': seq<nat>, ghost M': seq<nat>)
    requires a != m && |pa| == aOff && |A| == n && |pm| == mOff && |M| == n
    requires a[..] == pa + A + qa && m[..] == pm + M + qm
    requires 2 <= n && Bracketed(A, p, i, j)
    requires 0 < i || (j == n - 1 && A[n / 2] == p)
    modifies a, m
    ensures |A'| == n && |M'| == n && a[..] == pa + A' + qa && m[..] == pm + M' + qm
    ensures multiset(A') == multiset(A) && multiset(M') == multiset(M)
    ensures done ==> 0 < i' < n && SplitAt(A', i')
    ensures !done ==> Bracketed(A', p, i', j') && 0 < i' <= j' + 1 && j' + 1 - i' < j + 1 - i
  {
    var x, y := PartitionRound(m, mOff, a, aOff, n, p, i, j, pa, A, qa, pm, M, qm);
    PartitionStep(A, p, i, j, x, y);
    if x >= y {
      done, i', j', A', M' := true, x, y, A, M;
    } else {
      SwapPermutes(A, x, y);
      SwapPermutes(M, x, y);
      done, i', j', A', M' := false, x + 1, y - 1, Swap(A, x, y), Swap(M, x, y);
    }
  }

  /** Two sorted runs that are permutations of the two sides of a split sequence
      concatenate to a sorted sequence. */
  lemma SortedAcrossSplit(l: seq<nat>, r: seq<nat>, l': seq<nat>, r': seq<nat>)
    requires SplitAt(l + r, |l|)
    requires Sorted(l') && Sorted(r')
    requires multiset(l') == multiset(l) && multiset(r') == multiset(r)
    ensures Sorted(l' + r')
  {
    var s, t := l + r, l' + r';
    forall x, y | 0 <= x < y < |t| ensures t[x] <= t[y] {
      if y < |l'| {
        assert t[x] == l'[x] && t[y] == l'[y];
      } else if |l'| <= x {
        assert t[x] == r'[x - |l'|] && t[y] == r'[y - |l'|];
      } else {
        assert t[x] in multiset(l) by { assert l'[x] in multiset(l'); }
        assert t[y] in multiset(r) by { assert r'[y - |l'|] in multiset(r'); }
        var k :| 0 <= k < |l| && l[k] == t[x];
        var k' :| 0 <= k' < |r| && r[k'] == t[y];
        assert s[k] == l[k] && s[|l| + k'] == r[k'];
      }
    }
  }

  /** The weights after the two recursive calls of `quicksort`: `A` split at `i` by
      the partition, its first `i` weights rearranged into the sorted `l`, then the
      rest into the sorted `r`, gives a sorted rearrangement of `A`. */
  lemma SortedHalves(A: seq<nat>, i: nat, l: seq<nat>, r: seq<nat>)
    requires i <= |A| && SplitAt(A, i)
    requires Sorted(l) && multiset(l) == multiset(A[..i])
    requires Sorted(r) && multiset(r) == multiset(A[i..])
    ensures Sorted(l + r) && multiset(l + r) == multiset(A)
  {
    assert A == A[..i] + A[i..];
    SortedAcrossSplit(A[..i], A[i..], l, r);
  }

  /** The map after the two recursive calls of `quicksort`: the first rearranges the
      first `k1` entries of `M` into `M1`, the second the first `k2` entries of
      `M1 + M[k1..]` into `M2`; the result is a rearrangement of `M`. */
  lemma PermutedTwice(M: seq<nat>, k1: nat, M1: seq<nat>, k2: nat, M2: seq<nat>)
    requires k1 <= |M| && k2 <= |M| && |M1| == k1
    requires multiset(M1) == multiset(M[..k1])
    requires multiset(M2) == multiset((M1 + M[k1..])[..k2])
    ensures multiset(M2 + (M1 + M[k1..])[k2..]) == multiset(M)
  {
    var MM := M1 + M[k1..];
    assert MM == MM[..k2] + MM[k2..];
    assert M == M[..k1] + M[k1..];
    calc {
      multiset(M2 + MM[k2..]);
      multiset(MM[..k2]) + multiset(MM[k2..]);
      multiset(MM);
      multiset(M1) + multiset(M[k1..]);
      multiset(M);
    }
  }

  /** `quicksort(map, a, n)` (loop.c:114-142) on the windows `a[aOff..aOff+n)` and
      `map[mOff..mOff+n)`, whose contents are `A` and `M`; returns their new contents.
      The weight window ends sorted and rearranged, the map window rearranged, and
      below the cutoff both are exactly what `insertion` makes of them.  As written,
      the second recursive call passes `map` itself rather than `map + i`, so past
      the cutoff the map window is only known to be rearranged, not to follow the
      weights. */
  method Quicksort(m: array<nat>, mOff: nat, a: array<nat>, aOff: nat, n: nat,
                   ghost pa: seq<nat>, ghost A: seq<nat>, ghost qa: seq<nat>,
                   ghost pm: seq<nat>, ghost M: seq<nat>, ghost qm: seq<nat>)
      returns (ghost A': seq<nat>, ghost M': seq<nat>)
    requires a != m && |pa| == aOff && |A| == n && |pm| == mOff && |M| == n
    requires a[..] == pa + A + qa && m[..] == pm + M + qm
    modifies a, m
    ensures |A'| == n && |M'| == n && a[..] == pa + A' + qa && m[..] == pm + M' + qm
    ensures Sorted(A') && multiset(A') == multiset(A) && multiset(M') == multiset(M)
    ensures n < CUTOFF ==> Pair(A', M') == Insertion(Pair(A, M))
    decreases n, 1
  {
    if n < CUTOFF {
      ghost var p := InsertionSort(m, mOff, a, aOff, n, pa, A, qa, pm, M, qm);
      A', M' := p.a, p.m;
      InsertionSorts(Pair(A, M), []);
    } else {
      var i, A1, M1 := Partition(m, mOff, a, aOff, n, pa, A, qa, pm, M, qm);
      A', M' := SortHalves(m, mOff, a, aOff, n, i, pa, A1, qa, pm, M1, qm);
      assert multiset(A1) == multiset(A);
    }
  }

  /** The two recursive calls that end `quicksort` (loop.c:140-141), once the
      partition has split the weight window `A` at `i`; the second call is passed the
      map window of the first. */
  method SortHalves(m: array<nat>, mOff: nat, a: array<nat>, aOff: nat, n: nat, i: nat,
                    ghost pa: seq<nat>, ghost A: seq<nat>, ghost qa: seq<nat>,
                    ghost pm: seq<nat>, ghost M: seq<nat>, ghost qm: seq<nat>)
      returns (ghost A': seq<nat>, ghost M': seq<nat>)
    requires a != m && |pa| == aOff && |A| == n && |pm| == mOff && |M| == n
    requires a[..] == pa + A + qa && m[..] == pm + M + qm
    requires 0 < i < n && SplitAt(A, i)
    modifies a, m
    ensures |A'| == n && |M'| == n && a[..] == pa + A' + qa && m[..] == pm + M' + qm
    ensures Sorted(A') && multiset(A') == multiset(A) && multiset(M') == multiset(M)
    decreases n, 0
  {
    assert A == A[..i] + A[i..] && M == M[..i] + M[i..];
    Regroup(pa, A[..i], A[i..], qa);
    Regroup(pm, M[..i], M[i..], qm);
    var L, M1 := Quicksort(m, mOff, a, aOff, i, pa, A[..i], A[i..] + qa, pm, M[..i], M[i..] + qm);
    Regroup(pa, L, A[i..], qa);
    ghost var MM := M1 + M[i..];
    Regroup(pm, M1, M[i..], qm);
    assert MM == MM[..n - i] + MM[n - i..];
    Regroup(pm, MM[..n - i], MM[n - i..], qm);
    var R, M2 := Quicksort(m, mOff, a, aOff + i, n - i, pa + L, A[i..], qa, pm, MM[..n - i], MM[n - i..] + qm);
    Regroup(pa, L, R, qa);
    Regroup(pm, M2, MM[n - i..], qm);
    A', M' := L + R, M2 + MM[n - i..];
    SortedHalves(A, i, L, R);
    PermutedTwice(M, i, M1, n - i, M2);
  }
}
