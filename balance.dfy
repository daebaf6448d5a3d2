/** The static load balancers of libgomp/src/libgomp/loop.c (lines 162-378): SRR
    (`srr_balance`) and BIN+LPT (`binlpt_balance` with its helpers
    `compute_cummulativesum`, `compute_chunksizes` and `compute_chunks`).  The
    `binlpt` namespace of offline_computation.cpp is the same code with the chunk
    count passed explicitly, which is how it is modelled here for both. */
module Balance {
  import opened Sums
  import opened TaskSort

  // ---------------------------------------------------------------------------
  // Prefix sums

  /** `compute_cummulativesum(a, n)` (loop.c:239-251): the exclusive prefix sums
      of `a[0..n)`; `sum[0]` is written first, so `n` must be at least one. */
  method CummulativeSum(a: seq<nat>, n: nat) returns (sum: array<nat>)
    requires 1 <= n <= |a|
    ensures fresh(sum) && sum.Length == n
    ensures forall i :: 0 <= i < n ==> sum[i] == Sum(a[..i])
  {
    sum := new nat[n];
    sum[0] := 0;
    var i := 1;
    while i < n
      invariant 1 <= i <= n
      invariant forall k :: 0 <= k < i ==> sum[k] == Sum(a[..k])
    {
      SumExtend(a, 0, i - 1);
      sum[i] := sum[i - 1] + a[i - 1];
      i := i + 1;
    }
  }

  /** Each prefix sum is the previous one plus the weight before it. */
  lemma PrefixSumStep(a: seq<nat>, i: nat)
    requires 0 < i <= |a|
    ensures Sum(a[..i]) == Sum(a[..i - 1]) + a[i - 1] && Sum(a[..0]) == 0
  {
    SumExtend(a, 0, i - 1);
  }

  // ---------------------------------------------------------------------------
  // Chunk sizes

  /** The exclusive prefix sums of `tasks`, as `compute_cummulativesum` computes them. */
  ghost function PrefixSums(tasks: seq<nat>): (r: seq<nat>)
    ensures |r| == |tasks| && forall i :: 0 <= i < |tasks| ==> r[i] == Sum(tasks[..i])
  {
    seq(|tasks|, i requires 0 <= i < |tasks| => Sum(tasks[..i]))
  }

  /** The weight of the tasks `i..j` read off the prefix sums, when `j` is a
      prefix-sum index. */
  lemma WindowWeight(tasks: seq<nat>, i: nat, j: nat)
    requires i <= j < |tasks|
    ensures PrefixSums(tasks)[j] as int - PrefixSums(tasks)[i] == Sum(tasks[i..j])
  {
    SumSplit(tasks, 0, i, j);
    assert tasks[0..j] == tasks[..j] && tasks[0..i] == tasks[..i];
  }

  /** The weight of the tasks `i..j`. */
  function Weight(tasks: seq<nat>, i: nat, j: nat): nat
    requires i <= j <= |tasks|
  {
    Sum(tasks[i..j])
  }

  /** The chunk search of loop.c:282-286 over the prefix sums `w`, with `j` the
      next candidate: the first `j` at which the weight `w[j] - w[i]` gathered
      since `i` exceeds `cw`, or `|w|`. */
  function CutFrom(w: seq<nat>, i: nat, j: nat, cw: nat): (r: nat)
    requires i < j <= |w|
    ensures j <= r <= |w|
    decreases |w| - j
  {
    if j == |w| || w[j] as int - w[i] > cw then j else CutFrom(w, i, j + 1, cw)
  }

  /** Where a chunk starting at task `i` ends when it is not the last one. */
  function Cut(w: seq<nat>, i: nat, cw: nat): (r: nat)
    requires i < |w|
    ensures i < r <= |w|
  {
    CutFrom(w, i, i + 1, cw)
  }

  lemma {:induction false} CutFromIsFirstExcess(tasks: seq<nat>, i: nat, j: nat, cw: nat)
    requires i < j <= |tasks|
    ensures var r := CutFrom(PrefixSums(tasks), i, j, cw);
            (forall l :: j <= l < r ==> Weight(tasks, i, l) <= cw) &&
            (r < |tasks| ==> Weight(tasks, i, r) > cw)
    decreases |tasks| - j
  {
    var w := PrefixSums(tasks);
    if j < |tasks| {
      WindowWeight(tasks, i, j);
      if w[j] as int - w[i] <= cw {
        CutFromIsFirstExcess(tasks, i, j + 1, cw);
      }
    }
  }

  /** A chunk ends at the first task index past its start at which the weight
      gathered from the start exceeds `cw`; every shorter chunk weighs at most
      `cw`. */
  lemma CutIsFirstExcess(tasks: seq<nat>, i: nat, cw: nat)
    requires i < |tasks|
    ensures var r := Cut(PrefixSums(tasks), i, cw);
            (forall l :: i < l < r ==> Weight(tasks, i, l) <= cw) &&
            (r < |tasks| ==> Weight(tasks, i, r) > cw)
  {
    CutFromIsFirstExcess(tasks, i, i + 1, cw);
  }

  /** Where the chunk starting at task `i` in slot `k` ends: at its cut, or at
      the last task in slot `nchunks - 1`. */
  function ChunkEnd(w: seq<nat>, i: nat, k: nat, nchunks: nat, cw: nat): (j: nat)
    requires i < |w| && k < nchunks
    ensures i < j <= |w|
  {
    if k < nchunks - 1 then Cut(w, i, cw) else |w|
  }

  /** The sizes of the chunks from task `i` on, the next one going in slot `k`
      (loop.c:276-292): the chunk in every slot but `nchunks - 1` ends at its
      cut; the one in slot `nchunks - 1` takes all remaining tasks. */
  function SizesFrom(w: seq<nat>, i: nat, k: nat, nchunks: nat, cw: nat): (r: seq<nat>)
    requires i <= |w| && k < nchunks
    ensures |r| <= nchunks - k && (i < |w| ==> 1 <= |r|)
    decreases |w| - i
  {
    if i == |w| then []
    else
      var j := ChunkEnd(w, i, k, nchunks, cw);
      [j - i] + (if j == |w| then [] else SizesFrom(w, j, k + 1, nchunks, cw))
  }

  /** Every formed chunk is non-empty. */
  lemma {:induction false} SizesFromPositive(w: seq<nat>, i: nat, k: nat, nchunks: nat, cw: nat)
    requires i <= |w| && k < nchunks
    ensures var r := SizesFrom(w, i, k, nchunks, cw);
            forall c :: 0 <= c < |r| ==> 1 <= r[c]
    decreases |w| - i
  {
    if i < |w| {
      var j := ChunkEnd(w, i, k, nchunks, cw);
      var rest := if j == |w| then [] else SizesFrom(w, j, k + 1, nchunks, cw);
      var r := SizesFrom(w, i, k, nchunks, cw);
      assert r == [j - i] + rest;
      assert r[0] == j - i;
      if j < |w| {
        SizesFromPositive(w, j, k + 1, nchunks, cw);
        assert rest == SizesFrom(w, j, k + 1, nchunks, cw);
        assert forall c :: 0 <= c < |rest| ==> 1 <= rest[c];
        forall c | 1 <= c < |r|
          ensures 1 <= r[c]
        {
          assert r[c] == rest[c - 1];
        }
      }
    }
  }

  /** The formed chunks together hold every task from `i` on. */
  lemma {:induction false} SizesFromTotal(w: seq<nat>, i: nat, k: nat, nchunks: nat, cw: nat)
    requires i <= |w| && k < nchunks
    ensures Sum(SizesFrom(w, i, k, nchunks, cw)) == |w| - i
    decreases |w| - i
  {
    if i == |w| {
      assert SizesFrom(w, i, k, nchunks, cw) == [];
    } else {
      var j := ChunkEnd(w, i, k, nchunks, cw);
      if j < |w| {
        var rest := SizesFrom(w, j, k + 1, nchunks, cw);
        SizesFromTotal(w, j, k + 1, nchunks, cw);
        SumOfCons(SizesFrom(w, i, k, nchunks, cw), j - i, rest, |w| - j);
      } else {
        SumOfCons(SizesFrom(w, i, k, nchunks, cw), j - i, [], 0);
      }
    }
  }

  lemma SumOfCons(s: seq<nat>, x: nat, rest: seq<nat>, t: nat)
    requires s == [x] + rest && Sum(rest) == t
    ensures Sum(s) == x + t
  {
    SumCons(x, rest);
  }

  /** The task at which chunk `c` of `SizesFrom(w, i, k, nchunks, cw)` starts. */
  function Start(w: seq<nat>, i: nat, k: nat, nchunks: nat, cw: nat, c: nat): (o: nat)
    requires i <= |w| && k < nchunks && c < |SizesFrom(w, i, k, nchunks, cw)|
    decreases c
  {
    if c == 0 then i
    else
      var j := ChunkEnd(w, i, k, nchunks, cw);
      assert j < |w|;
      Start(w, j, k + 1, nchunks, cw, c - 1)
  }

  /** Chunk `c` starts after the chunks before it. */
  lemma {:induction false} StartIsOffset(w: seq<nat>, i: nat, k: nat, nchunks: nat, cw: nat, c: nat)
    requires i <= |w| && k < nchunks && c < |SizesFrom(w, i, k, nchunks, cw)|
    ensures Start(w, i, k, nchunks, cw, c) == i + Sum(SizesFrom(w, i, k, nchunks, cw)[..c])
    decreases c
  {
    var s := SizesFrom(w, i, k, nchunks, cw);
    if c == 0 {
      assert s[..0] == [];
    } else {
      var j := ChunkEnd(w, i, k, nchunks, cw);
      assert j < |w|;
      var rest := SizesFrom(w, j, k + 1, nchunks, cw);
      StartIsOffset(w, j, k + 1, nchunks, cw, c - 1);
      assert s[..c] == [j - i] + rest[..c - 1];
      SumCons(j - i, rest[..c - 1]);
    }
  }

  /** Where each formed chunk ends: chunk `c`, starting at task `o`, ends at its
      cut when its slot is below `nchunks - 1`, and at the last task when it is
      in slot `nchunks - 1`. */
  lemma {:induction false} StartRule(w: seq<nat>, i: nat, k: nat, nchunks: nat, cw: nat, c: nat)
    requires i <= |w| && k < nchunks && c < |SizesFrom(w, i, k, nchunks, cw)|
    ensures var o := Start(w, i, k, nchunks, cw, c);
            var e := o + SizesFrom(w, i, k, nchunks, cw)[c];
            o < |w| &&
            (k + c < nchunks - 1 ==> e == Cut(w, o, cw)) &&
            (k + c == nchunks - 1 ==> e == |w|)
    decreases c
  {
    if c > 0 {
      var j := ChunkEnd(w, i, k, nchunks, cw);
      assert j < |w|;
      StartRule(w, j, k + 1, nchunks, cw, c - 1);
    }
  }

  /** The chunk weight `total / nchunks` (loop.c:273). */
  function ChunkWeight(tasks: seq<nat>, nchunks: nat): nat
    requires 1 <= nchunks
  {
    Sum(tasks) / nchunks
  }

  /** `n` copies of `v`. */
  function Repeat(v: nat, n: nat): (r: seq<nat>)
    ensures |r| == n && forall k :: 0 <= k < n ==> r[k] == v
  {
    seq(n, _ => v)
  }

  lemma {:induction false} SumZeros(n: nat)
    ensures Sum(Repeat(0, n)) == 0
  {
    if n > 0 {
      assert Repeat(0, n)[..n - 1] == Repeat(0, n - 1);
      SumZeros(n - 1);
    }
  }

  /** The chunks actually formed from `tasks`. */
  ghost function FormedChunks(tasks: seq<nat>, nchunks: nat): (r: seq<nat>)
    requires 1 <= nchunks
    ensures |r| <= nchunks
  {
    SizesFrom(PrefixSums(tasks), 0, 0, nchunks, ChunkWeight(tasks, nchunks))
  }

  /** What `compute_chunksizes(tasks, ntasks, nchunks)` returns: the formed sizes,
      then zeros up to `nchunks` entries (the buffer comes from `calloc`). */
  ghost function ChunkSizesOf(tasks: seq<nat>, nchunks: nat): (r: seq<nat>)
    requires 1 <= nchunks
    ensures |r| == nchunks
  {
    var s := FormedChunks(tasks, nchunks);
    s + Repeat(0, nchunks - |s|)
  }

  /** The chunk sizes: at least one chunk, every formed chunk non-empty, the
      unused slots zero, and every task in exactly one chunk. */
  lemma ChunkSizesShape(tasks: seq<nat>, nchunks: nat)
    requires 1 <= |tasks| && 1 <= nchunks
    ensures var s := FormedChunks(tasks, nchunks);
            var r := ChunkSizesOf(tasks, nchunks);
            1 <= |s| <= nchunks &&
            (forall c :: 0 <= c < |s| ==> 1 <= r[c]) &&
            (forall c :: |s| <= c < nchunks ==> r[c] == 0) &&
            Sum(r) == |tasks|
  {
    var s := FormedChunks(tasks, nchunks);
    var w := PrefixSums(tasks);
    SizesFromPositive(w, 0, 0, nchunks, ChunkWeight(tasks, nchunks));
    SizesFromTotal(w, 0, 0, nchunks, ChunkWeight(tasks, nchunks));
    SumConcat(s, Repeat(0, nchunks - |s|));
    SumZeros(nchunks - |s|);
  }

  /** The chunk rule for chunk `c` of the sizes `s`, with chunk weight `cw`:
      the chunk starts where the chunks before it end; unless it is in slot
      `nchunks - 1`, it is the shortest run from there weighing more than
      `cw`, or the remaining tasks when no such run exists; in slot
      `nchunks - 1` it takes all remaining tasks. */
  ghost predicate FollowsChunkRule(tasks: seq<nat>, nchunks: nat, cw: nat, s: seq<nat>, c: nat)
    requires c < |s|
  {
    var o := Sum(s[..c]);
    var e := o + s[c];
    o < e <= |tasks| &&
    (c < nchunks - 1 ==>
       (forall l :: o < l < e ==> Weight(tasks, o, l) <= cw) &&
       (e < |tasks| ==> Weight(tasks, o, e) > cw)) &&
    (c == nchunks - 1 ==> e == |tasks|)
  }

  /** Every formed chunk obeys the chunk rule. */
  lemma ChunkRule(tasks: seq<nat>, nchunks: nat, c: nat)
    requires 1 <= nchunks && c < |FormedChunks(tasks, nchunks)|
    ensures FollowsChunkRule(tasks, nchunks, ChunkWeight(tasks, nchunks), FormedChunks(tasks, nchunks), c)
  {
    var cw := ChunkWeight(tasks, nchunks);
    assert FormedChunks(tasks, nchunks) == SizesFrom(PrefixSums(tasks), 0, 0, nchunks, cw);
    ChunkRuleFor(tasks, nchunks, cw, c);
  }

  /** `ChunkRule` for any chunk weight `cw`. */
  lemma ChunkRuleFor(tasks: seq<nat>, nchunks: nat, cw: nat, c: nat)
    requires 1 <= nchunks && c < |SizesFrom(PrefixSums(tasks), 0, 0, nchunks, cw)|
    ensures FollowsChunkRule(tasks, nchunks, cw, SizesFrom(PrefixSums(tasks), 0, 0, nchunks, cw), c)
  {
    ChunkEnds(PrefixSums(tasks), nchunks, cw, c);
    RuleFromCut(tasks, nchunks, cw, SizesFrom(PrefixSums(tasks), 0, 0, nchunks, cw), c);
  }

  /** A chunk that ends at its cut, or at the last task in slot `nchunks - 1`,
      obeys the chunk rule. */
  lemma RuleFromCut(tasks: seq<nat>, nchunks: nat, cw: nat, s: seq<nat>, c: nat)
    requires c < |s|
    requires var o := Sum(s[..c]);
             o < o + s[c] <= |tasks| &&
             (c < nchunks - 1 ==> o + s[c] == Cut(PrefixSums(tasks), o, cw)) &&
             (c == nchunks - 1 ==> o + s[c] == |tasks|)
    ensures FollowsChunkRule(tasks, nchunks, cw, s, c)
  {
    if c < nchunks - 1 {
      CutIsFirstExcess(tasks, Sum(s[..c]), cw);
    }
  }

  /** Where formed chunk `c` of the prefix sums `w` starts and ends. */
  lemma ChunkEnds(w: seq<nat>, nchunks: nat, cw: nat, c: nat)
    requires 1 <= nchunks && c < |SizesFrom(w, 0, 0, nchunks, cw)|
    ensures var s := SizesFrom(w, 0, 0, nchunks, cw);
            var o := Sum(s[..c]);
            o < o + s[c] <= |w| &&
            (c < nchunks - 1 ==> o + s[c] == Cut(w, o, cw)) &&
            (c == nchunks - 1 ==> o + s[c] == |w|)
  {
    StartRule(w, 0, 0, nchunks, cw, c);
    StartIsOffset(w, 0, 0, nchunks, cw, c);
    SizesFromPositive(w, 0, 0, nchunks, cw);
  }

  /** One chunk search of `compute_chunksizes` (loop.c:282-286) over the prefix
      sums `workload`. */
  method CutAt(workload: array<nat>, i: nat, cw: nat) returns (j: nat)
    requires i < workload.Length
    ensures j == Cut(workload[..], i, cw)
  {
    j := i + 1;
    while j < workload.Length
      invariant i < j <= workload.Length
      invariant CutFrom(workload[..], i, j, cw) == Cut(workload[..], i, cw)
      decreases workload.Length - j
    {
      if workload[j] as int - workload[i] > cw {
        break;
      }
      j := j + 1;
    }
  }

  /** One step of `SizesFrom`: the chunk ending at `j` in front of the rest,
      the prefix `done` of formed chunks growing by one. */
  lemma SizesFromStep(w: seq<nat>, i: nat, k: nat, nchunks: nat, cw: nat, j: nat, all: seq<nat>, done: seq<nat>)
    requires i < |w| && k < nchunks
    requires j == ChunkEnd(w, i, k, nchunks, cw)
    requires all == done + SizesFrom(w, i, k, nchunks, cw)
    ensures i < j <= |w|
    ensures j < |w| ==> k + 1 < nchunks && all == (done + [j - i]) + SizesFrom(w, j, k + 1, nchunks, cw)
    ensures j == |w| ==> all == done + [j - i]
  {
    var rest := if j == |w| then [] else SizesFrom(w, j, k + 1, nchunks, cw);
    assert SizesFrom(w, i, k, nchunks, cw) == [j - i] + rest;
    Regroup(done, [j - i], rest, []);
  }

  /** The chunk loop of `compute_chunksizes` (loop.c:276-292) on the prefix sums
      `workload`, filling the zeroed `chunksizes`. */
  method FillChunkSizes(workload: array<nat>, chunksizes: array<nat>, nchunks: nat, chunkweight: nat)
    requires workload != chunksizes
    requires workload.Length >= 1 && chunksizes.Length == nchunks >= 1
    requires forall c :: 0 <= c < nchunks ==> chunksizes[c] == 0
    modifies chunksizes
    ensures var all := SizesFrom(workload[..], 0, 0, nchunks, chunkweight);
            chunksizes[..] == all + Repeat(0, nchunks - |all|)
  {
    var ntasks := workload.Length;
    ghost var w := workload[..];
    ghost var all := SizesFrom(w, 0, 0, nchunks, chunkweight);
    ghost var done: seq<nat> := [];
    assert done + all == all;
    var k := 0;
    var i := 0;
    while i < ntasks
      invariant i <= ntasks && k <= nchunks && |done| == k
      invariant forall c :: 0 <= c < k ==> chunksizes[c] == done[c]
      invariant i < ntasks ==> k < nchunks && all == done + SizesFrom(w, i, k, nchunks, chunkweight)
      invariant i == ntasks ==> all == done
      invariant forall c :: k <= c < nchunks ==> chunksizes[c] == 0
      decreases ntasks - i
    {
      var j := ntasks;
      if k < nchunks - 1 {
        j := CutAt(workload, i, chunkweight);
      }
      SizesFromStep(w, i, k, nchunks, chunkweight, j, all, done);
      chunksizes[k] := j - i;
      done := done + [j - i];
      i := j;
      k := k + 1;
    }
    forall c | 0 <= c < nchunks
      ensures chunksizes[c] == (all + Repeat(0, nchunks - |all|))[c]
    {
    }
    assert chunksizes[..] == all + Repeat(0, nchunks - |all|);
    assert workload[..] == w;
  }

  /** `compute_chunksizes(tasks, ntasks, nchunks)` (loop.c:262-298). */
  method ChunkSizes(tasks: seq<nat>, nchunks: nat) returns (chunksizes: array<nat>)
    requires 1 <= |tasks| && 1 <= nchunks
    ensures fresh(chunksizes) && chunksizes[..] == ChunkSizesOf(tasks, nchunks)
  {
    var ntasks := |tasks|;
    chunksizes := new nat[nchunks](_ => 0);
    var workload := CummulativeSum(tasks, ntasks);
    assert workload[..] == PrefixSums(tasks);
    SumExtend(tasks, 0, ntasks - 1);
    assert tasks[0..ntasks] == tasks && tasks[0..ntasks - 1] == tasks[..ntasks - 1];
    var chunkweight := (workload[ntasks - 1] + tasks[ntasks - 1]) / nchunks;
    assert chunkweight == ChunkWeight(tasks, nchunks);
    FillChunkSizes(workload, chunksizes, nchunks, chunkweight);
  }

  // ---------------------------------------------------------------------------
  // Chunk weights

  /** Sums of a prefix grow with the prefix. */
  lemma SumPrefixMono(s: seq<nat>, i: nat, j: nat)
    requires i <= j <= |s|
    ensures Sum(s[..i]) <= Sum(s[..j])
  {
    SumSplit(s, 0, i, j);
    assert s[0..j] == s[..j] && s[0..i] == s[..i];
  }

  /** The weights of the consecutive blocks of `tasks` whose sizes are `sizes`. */
  function BlockSums(tasks: seq<nat>, sizes: seq<nat>): (r: seq<nat>)
    requires Sum(sizes) <= |tasks|
    ensures |r| == |sizes|
    decreases |sizes|
  {
    if sizes == [] then []
    else
      var p := sizes[..|sizes| - 1];
      var o := Sum(p);
      BlockSums(tasks, p) + [Sum(tasks[o..o + sizes[|sizes| - 1]])]
  }

  /** Block `c` weighs the tasks from the end of the blocks before it. */
  lemma {:induction false} BlockSumsAt(tasks: seq<nat>, sizes: seq<nat>, c: nat)
    requires Sum(sizes) <= |tasks| && c < |sizes|
    ensures Sum(sizes[..c]) + sizes[c] <= |tasks|
    ensures BlockSums(tasks, sizes)[c] == Sum(tasks[Sum(sizes[..c])..Sum(sizes[..c]) + sizes[c]])
    decreases |sizes|
  {
    var p := sizes[..|sizes| - 1];
    if c < |p| {
      SumPrefixMono(sizes, |p|, |sizes|);
      assert sizes[..|sizes|][..|p|] == p;
      assert sizes[..|sizes|] == sizes;
      BlockSumsAt(tasks, p, c);
      assert p[..c] == sizes[..c];
    } else {
      assert sizes[..c] == p;
    }
  }

  /** The blocks together weigh as much as the tasks they cover. */
  lemma {:induction false} BlockSumsTotal(tasks: seq<nat>, sizes: seq<nat>)
    requires Sum(sizes) <= |tasks|
    ensures Sum(BlockSums(tasks, sizes)) == Sum(tasks[..Sum(sizes)])
    decreases |sizes|
  {
    if sizes != [] {
      var p := sizes[..|sizes| - 1];
      var o := Sum(p);
      var e := o + sizes[|sizes| - 1];
      BlockSumsTotal(tasks, p);
      SumConcat(BlockSums(tasks, p), [Sum(tasks[o..e])]);
      assert Sum([Sum(tasks[o..e])]) == Sum(tasks[o..e]) by {
        assert [Sum(tasks[o..e])][..0] == [];
      }
      SumSplit(tasks, 0, o, e);
      assert tasks[0..e] == tasks[..e] && tasks[0..o] == tasks[..o];
    } else {
      assert tasks[..0] == [];
    }
  }

  /** The inner loop of `compute_chunks` (loop.c:319-320): the weight of the
      `len` tasks from `k`, and the index past them. */
  method WeighBlock(tasks: seq<nat>, k: nat, len: nat) returns (w: nat, k': nat)
    requires k + len <= |tasks|
    ensures k' == k + len && w == Sum(tasks[k..k'])
  {
    w := 0;
    k' := k;
    var j := 0;
    while j < len
      invariant j <= len && k' == k + j
      invariant w == Sum(tasks[k..k'])
    {
      SumExtend(tasks, k, k');
      w := w + tasks[k'];
      k' := k' + 1;
      j := j + 1;
    }
  }

  /** `compute_chunks(tasks, ntasks, chunksizes, nchunks)` (loop.c:303-323): the
      weight of every chunk. */
  method Chunks(tasks: seq<nat>, chunksizes: array<nat>, nchunks: nat) returns (chunks: array<nat>)
    requires nchunks <= chunksizes.Length && Sum(chunksizes[..nchunks]) <= |tasks|
    ensures fresh(chunks) && chunks[..] == BlockSums(tasks, chunksizes[..nchunks])
  {
    ghost var sizes := chunksizes[..nchunks];
    chunks := new nat[nchunks](_ => 0);
    var i := 0;
    var k := 0;
    while i < nchunks
      invariant i <= nchunks && chunks.Length == nchunks
      invariant k == Sum(sizes[..i]) <= |tasks|
      invariant chunks[..i] == BlockSums(tasks, sizes[..i])
      invariant forall c :: i <= c < nchunks ==> chunks[c] == 0
    {
      SumPrefixMono(sizes, i + 1, nchunks);
      assert sizes[..nchunks] == sizes;
      assert sizes[..i + 1][..i] == sizes[..i];
      var w;
      w, k := WeighBlock(tasks, k, chunksizes[i]);
      chunks[i] := w;
      assert chunks[..i + 1] == chunks[..i] + [chunks[i]];
      i := i + 1;
    }
    assert chunks[..] == chunks[..nchunks] && sizes[..nchunks] == sizes;
  }

  // ---------------------------------------------------------------------------
  // Least loaded thread

  /** The scan for the least loaded thread from index `j`, `best` the least
      loaded so far. */
  function ArgMinFrom(load: seq<nat>, j: nat, best: nat): (r: nat)
    requires best < j <= |load|
    ensures best <= r < |load|
    decreases |load| - j
  {
    if j == |load| then best
    else ArgMinFrom(load, j + 1, if load[j] < load[best] then j else best)
  }

  /** The thread the scans of loop.c:211-216 and loop.c:357-362 pick: the first
      one of least load. */
  function ArgMin(load: seq<nat>): (r: nat)
    requires 1 <= |load|
    ensures r < |load|
  {
    ArgMinFrom(load, 1, 0)
  }

  lemma {:induction false} ArgMinFromIsLeast(load: seq<nat>, j: nat, best: nat)
    requires best < j <= |load|
    requires forall l :: 0 <= l < j ==> load[best] <= load[l]
    requires forall l :: 0 <= l < best ==> load[best] < load[l]
    ensures var r := ArgMinFrom(load, j, best);
            (forall l :: 0 <= l < |load| ==> load[r] <= load[l]) &&
            (forall l :: 0 <= l < r ==> load[r] < load[l])
    decreases |load| - j
  {
    if j < |load| {
      ArgMinFromIsLeast(load, j + 1, if load[j] < load[best] then j else best);
    }
  }

  /** The thread picked carries the least load, and every thread before it a
      strictly greater one. */
  lemma ArgMinIsLeast(load: seq<nat>)
    requires 1 <= |load|
    ensures var r := ArgMin(load);
            (forall l :: 0 <= l < |load| ==> load[r] <= load[l]) &&
            (forall l :: 0 <= l < r ==> load[r] < load[l])
  {
    ArgMinFromIsLeast(load, 1, 0);
  }

  /** The least-loaded scan over `load[0..nthreads)`. */
  method LeastLoaded(load: array<nat>, nthreads: nat) returns (tid: nat)
    requires 1 <= nthreads <= load.Length
    ensures tid == ArgMin(load[..nthreads])
  {
    ghost var l := load[..nthreads];
    tid := 0;
    var j := 1;
    while j < nthreads
      invariant tid < j <= nthreads
      invariant ArgMinFrom(l, j, tid) == ArgMin(l)
    {
      if load[j] < load[tid] {
        tid := j;
      }
      j := j + 1;
    }
  }

  // ---------------------------------------------------------------------------
  // Task map layout

  /** The task map that gives every task of chunk `c` the thread `owner[c]`, the
      chunks laid out one after the other with the sizes `sizes`. */
  function Layout(sizes: seq<nat>, owner: seq<nat>): (r: seq<nat>)
    requires |owner| == |sizes|
    ensures |r| == Sum(sizes)
    decreases |sizes|
  {
    if sizes == [] then []
    else
      var n := |sizes| - 1;
      Layout(sizes[..n], owner[..n]) + Repeat(owner[n], sizes[n])
  }

  /** Every task of chunk `c` runs on the chunk's thread. */
  lemma {:induction false} LayoutAt(sizes: seq<nat>, owner: seq<nat>, c: nat, j: nat)
    requires |owner| == |sizes| && c < |sizes| && j < sizes[c]
    ensures Sum(sizes[..c]) + j < Sum(sizes)
    ensures Layout(sizes, owner)[Sum(sizes[..c]) + j] == owner[c]
    decreases |sizes|
  {
    var n := |sizes| - 1;
    var p := sizes[..n];
    if c < n {
      LayoutAt(p, owner[..n], c, j);
      assert p[..c] == sizes[..c];
    } else {
      assert sizes[..c] == p;
    }
  }

  /** Handing chunk `c` to thread `t` overwrites that chunk's tasks and no other. */
  lemma {:induction false} LayoutUpdate(sizes: seq<nat>, owner: seq<nat>, c: nat, t: nat)
    requires |owner| == |sizes| && c < |sizes|
    ensures var l := Layout(sizes, owner);
            var o := Sum(sizes[..c]);
            o + sizes[c] <= |l| &&
            Layout(sizes, owner[c := t]) == l[..o] + Repeat(t, sizes[c]) + l[o + sizes[c]..]
    decreases |sizes|
  {
    var n := |sizes| - 1;
    var p := sizes[..n];
    var l := Layout(sizes, owner);
    var l' := Layout(p, owner[..n]);
    var rep := Repeat(owner[n], sizes[n]);
    assert l == l' + rep;
    assert owner[c := t][..n] == if c < n then owner[..n][c := t] else owner[..n];
    if c < n {
      var o := Sum(p[..c]);
      assert p[..c] == sizes[..c];
      LayoutUpdate(p, owner[..n], c, t);
      assert o + sizes[c] <= |l'|;
      assert l[..o] == l'[..o];
      assert l[o + sizes[c]..] == l'[o + sizes[c]..] + rep;
    } else {
      assert sizes[..c] == p;
      assert l[..Sum(p)] == l';
      assert l[Sum(p) + sizes[c]..] == [];
    }
  }

  /** The inner loop of loop.c:364-365: the `len` entries from `off` become `tid`. */
  method FillBlock(taskmap: array<nat>, off: nat, len: nat, tid: nat)
    requires off + len <= taskmap.Length
    modifies taskmap
    ensures taskmap[..] == old(taskmap[..off]) + Repeat(tid, len) + old(taskmap[off + len..])
  {
    var j := 0;
    while j < len
      invariant j <= len
      invariant forall x :: 0 <= x < taskmap.Length ==>
        taskmap[x] == if off <= x < off + j then tid else old(taskmap[x])
    {
      taskmap[off + j] := tid;
      j := j + 1;
    }
  }

  // ---------------------------------------------------------------------------
  // Longest processing time first

  /** The thread loads and the chunk owners while chunks are being placed. */
  datatype LptState = LptState(load: seq<nat>, owner: seq<nat>)

  /** Placing chunk `c` of weight `w` (loop.c:351-366): a chunk of no weight is
      skipped; any other goes to the least loaded thread, which takes on `w`. */
  function LptStep(st: LptState, w: nat, c: nat): (r: LptState)
    requires 1 <= |st.load| && c < |st.owner|
    ensures |r.load| == |st.load| && |r.owner| == |st.owner|
  {
    if w == 0 then st
    else
      var t := ArgMin(st.load);
      LptState(st.load[t := st.load[t] + w], st.owner[c := t])
  }

  /** The placement of the sorted chunk weights `sa` (chunk `sm[x]` weighing
      `sa[x]`) from the heaviest down to position `i`, all threads idle and every
      owner 0 at the start. */
  ghost function Lpt(sa: seq<nat>, sm: seq<nat>, nthreads: nat, i: nat): (r: LptState)
    requires |sa| == |sm| && 1 <= nthreads && i <= |sa|
    requires forall x :: 0 <= x < |sm| ==> sm[x] < |sm|
    ensures |r.load| == nthreads && |r.owner| == |sa|
    decreases |sa| - i
  {
    if i == |sa| then LptState(Repeat(0, nthreads), Repeat(0, |sa|))
    else LptStep(Lpt(sa, sm, nthreads, i + 1), sa[i], sm[i])
  }

  /** Every chunk owner is one of the threads. */
  lemma {:induction false} LptOwnersAreThreads(sa: seq<nat>, sm: seq<nat>, nthreads: nat, i: nat)
    requires |sa| == |sm| && 1 <= nthreads && i <= |sa|
    requires forall x :: 0 <= x < |sm| ==> sm[x] < |sm|
    ensures forall c :: 0 <= c < |sa| ==> Lpt(sa, sm, nthreads, i).owner[c] < nthreads
    decreases |sa| - i
  {
    if i < |sa| {
      LptOwnersAreThreads(sa, sm, nthreads, i + 1);
    }
  }

  /** The threads together carry exactly the weight of the chunks placed. */
  lemma {:induction false} LptConservesWork(sa: seq<nat>, sm: seq<nat>, nthreads: nat, i: nat)
    requires |sa| == |sm| && 1 <= nthreads && i <= |sa|
    requires forall x :: 0 <= x < |sm| ==> sm[x] < |sm|
    ensures Sum(Lpt(sa, sm, nthreads, i).load) == Sum(sa[i..])
    decreases |sa| - i
  {
    if i == |sa| {
      SumZeros(nthreads);
    } else {
      var st := Lpt(sa, sm, nthreads, i + 1);
      LptConservesWork(sa, sm, nthreads, i + 1);
      assert sa[i..] == [sa[i]] + sa[i + 1..];
      SumCons(sa[i], sa[i + 1..]);
      if sa[i] != 0 {
        SumUpdate(st.load, ArgMin(st.load), sa[i]);
      }
    }
  }

  /** One placement step gives a chunk of some weight to the least loaded
      thread (the lowest such id) and leaves everything alone for a chunk of
      no weight. */
  lemma LptStepPlaces(st: LptState, w: nat, c: nat)
    requires 1 <= |st.load| && c < |st.owner|
    ensures var r := LptStep(st, w, c);
            (w == 0 ==> r == st) &&
            (w != 0 ==>
               var t := r.owner[c];
               t < |st.load| &&
               (forall u :: 0 <= u < |st.load| ==> st.load[t] <= st.load[u]) &&
               (forall u :: 0 <= u < t ==> st.load[t] < st.load[u]) &&
               r.load == st.load[t := st.load[t] + w] && r.owner == st.owner[c := t])
  {
    ArgMinIsLeast(st.load);
  }

  /** A chunk that weighs nothing at every sorted position from `i` on keeps
      owner 0. */
  lemma {:induction false} LptSkipsEmpty(sa: seq<nat>, sm: seq<nat>, nthreads: nat, i: nat, c: nat)
    requires |sa| == |sm| && 1 <= nthreads && i <= |sa| && c < |sa|
    requires forall x :: 0 <= x < |sm| ==> sm[x] < |sm|
    requires forall x :: i <= x < |sa| && sm[x] == c ==> sa[x] == 0
    ensures Lpt(sa, sm, nthreads, i).owner[c] == 0
    decreases |sa| - i
  {
    if i < |sa| {
      LptSkipsEmpty(sa, sm, nthreads, i + 1, c);
    }
  }

  // ---------------------------------------------------------------------------
  // BIN+LPT

  /** The chunk weights BIN+LPT places (`compute_chunks` over `compute_chunksizes`). */
  ghost function ChunkWeights(tasks: seq<nat>, nchunks: nat): (r: seq<nat>)
    requires 1 <= |tasks| && 1 <= nchunks
    ensures |r| == nchunks
  {
    ChunkSizesShape(tasks, nchunks);
    BlockSums(tasks, ChunkSizesOf(tasks, nchunks))
  }

  /** The thread loads once every chunk is placed. */
  ghost function BinlptLoads(tasks: seq<nat>, nchunks: nat, nthreads: nat): (r: seq<nat>)
    requires 1 <= |tasks| && 1 <= nchunks && 1 <= nthreads
    ensures |r| == nthreads
  {
    var s := SortResult(ChunkWeights(tasks, nchunks));
    SortIsCorrect(ChunkWeights(tasks, nchunks));
    Lpt(s.a, s.m, nthreads, 0).load
  }

  /** The thread each chunk goes to: LPT over the chunks sorted by weight. */
  ghost function BinlptOwners(tasks: seq<nat>, nchunks: nat, nthreads: nat): (r: seq<nat>)
    requires 1 <= |tasks| && 1 <= nchunks && 1 <= nthreads
    ensures |r| == nchunks
  {
    var s := SortResult(ChunkWeights(tasks, nchunks));
    SortIsCorrect(ChunkWeights(tasks, nchunks));
    Lpt(s.a, s.m, nthreads, 0).owner
  }

  /** What `binlpt_balance(tasks, ntasks, nthreads)` returns (loop.c:328-378) with
      `nchunks` chunks: each task runs on the thread of its chunk. */
  ghost function BinlptMap(tasks: seq<nat>, nchunks: nat, nthreads: nat): (r: seq<nat>)
    requires 1 <= |tasks| && 1 <= nchunks && 1 <= nthreads
    ensures |r| == |tasks|
  {
    ChunkSizesShape(tasks, nchunks);
    Layout(ChunkSizesOf(tasks, nchunks), BinlptOwners(tasks, nchunks, nthreads))
  }

  /** The BIN+LPT task map has one entry per task, and each entry is a thread. */
  lemma BinlptMapIsAssignment(tasks: seq<nat>, nchunks: nat, nthreads: nat)
    requires 1 <= |tasks| && 1 <= nchunks && 1 <= nthreads
    ensures var r := BinlptMap(tasks, nchunks, nthreads);
            |r| == |tasks| && forall x :: 0 <= x < |r| ==> r[x] < nthreads
  {
    var w := ChunkWeights(tasks, nchunks);
    var s := SortResult(w);
    ChunkSizesShape(tasks, nchunks);
    SortIsCorrect(w);
    LptOwnersAreThreads(s.a, s.m, nthreads, 0);
    LayoutOwners(ChunkSizesOf(tasks, nchunks), BinlptOwners(tasks, nchunks, nthreads), nthreads);
  }

  /** All tasks of chunk `c` run on the chunk's thread. */
  lemma BinlptChunkOnOneThread(tasks: seq<nat>, nchunks: nat, nthreads: nat, c: nat, j: nat)
    requires 1 <= |tasks| && 1 <= nchunks && 1 <= nthreads
    requires c < nchunks && j < ChunkSizesOf(tasks, nchunks)[c]
    ensures var sizes := ChunkSizesOf(tasks, nchunks);
            var o := Sum(sizes[..c]) + j;
            o < |BinlptMap(tasks, nchunks, nthreads)| &&
            BinlptMap(tasks, nchunks, nthreads)[o] == BinlptOwners(tasks, nchunks, nthreads)[c]
  {
    ChunkSizesShape(tasks, nchunks);
    LayoutAt(ChunkSizesOf(tasks, nchunks), BinlptOwners(tasks, nchunks, nthreads), c, j);
  }

  /** A chunk of no weight is skipped by the placement loop, so its tasks stay
      on thread 0 of the zeroed task map. */
  lemma BinlptEmptyChunkOnThreadZero(tasks: seq<nat>, nchunks: nat, nthreads: nat, c: nat)
    requires 1 <= |tasks| && 1 <= nchunks && 1 <= nthreads
    requires c < nchunks && ChunkWeights(tasks, nchunks)[c] == 0
    ensures BinlptOwners(tasks, nchunks, nthreads)[c] == 0
  {
    var w := ChunkWeights(tasks, nchunks);
    var s := SortResult(w);
    SortIsCorrect(w);
    LptSkipsEmpty(s.a, s.m, nthreads, 0, c);
  }

  /** LPT hands out all the work: the thread loads add up to the weight of all
      the tasks. */
  lemma BinlptHandsOutAllWork(tasks: seq<nat>, nchunks: nat, nthreads: nat)
    requires 1 <= |tasks| && 1 <= nchunks && 1 <= nthreads
    ensures Sum(BinlptLoads(tasks, nchunks, nthreads)) == Sum(tasks)
  {
    var sizes := ChunkSizesOf(tasks, nchunks);
    var w := ChunkWeights(tasks, nchunks);
    var s := SortResult(w);
    ChunkSizesShape(tasks, nchunks);
    SortIsCorrect(w);
    LptHandsOutAll(s.a, s.m, w, nthreads);
    BlockSumsTotal(tasks, sizes);
    assert tasks[..Sum(sizes)] == tasks;
  }

  /** Placing a rearrangement of the weights `w` loads the threads with the
      total of `w`. */
  lemma LptHandsOutAll(sa: seq<nat>, sm: seq<nat>, w: seq<nat>, nthreads: nat)
    requires |sa| == |sm| && 1 <= nthreads
    requires forall x :: 0 <= x < |sm| ==> sm[x] < |sm|
    requires multiset(sa) == multiset(w)
    ensures Sum(Lpt(sa, sm, nthreads, 0).load) == Sum(w)
  {
    LptConservesWork(sa, sm, nthreads, 0);
    assert sa[0..] == sa;
    SumPermutation(sa, w);
  }

  /** A layout holds only owners. */
  lemma {:induction false} LayoutOwners(sizes: seq<nat>, owner: seq<nat>, bound: nat)
    requires |owner| == |sizes| && forall c :: 0 <= c < |owner| ==> owner[c] < bound
    ensures forall x :: 0 <= x < |Layout(sizes, owner)| ==> Layout(sizes, owner)[x] < bound
    decreases |sizes|
  {
    if sizes != [] {
      var n := |sizes| - 1;
      LayoutOwners(sizes[..n], owner[..n], bound);
    }
  }

  /** One pass of the placement loop of `binlpt_balance` (loop.c:351-366) for
      the chunk at sorted position `i - 1`, with `st` the loads and owners so far: one
      step of LPT. */
  method PlaceChunk(taskmap: array<nat>, load: array<nat>, chunkoff: array<nat>, chunksizes: array<nat>,
                    sortmap: array<nat>, chunks: array<nat>, nthreads: nat, i: nat,
                    ghost sizes: seq<nat>, ghost sa: seq<nat>, ghost sm: seq<nat>, ghost st: LptState)
    requires taskmap != load
    requires taskmap !in {chunkoff, chunksizes, sortmap, chunks}
    requires load !in {chunkoff, chunksizes, sortmap, chunks}
    requires 1 <= i <= |sa| == |sm| == |sizes| == chunks.Length == chunkoff.Length == chunksizes.Length
    requires |sa| <= sortmap.Length && 1 <= nthreads == load.Length
    requires chunks[..] == sa && sortmap[..|sa|] == sm && chunksizes[..] == sizes
    requires forall x :: 0 <= x < |sm| ==> sm[x] < |sm|
    requires forall c :: 0 <= c < |sizes| ==> chunkoff[c] == Sum(sizes[..c])
    requires Sum(sizes) == taskmap.Length
    requires |st.owner| == |sizes| && load[..] == st.load
    requires taskmap[..] == Layout(sizes, st.owner)
    modifies taskmap, load
    ensures load[..] == LptStep(st, sa[i - 1], sm[i - 1]).load
    ensures taskmap[..] == Layout(sizes, LptStep(st, sa[i - 1], sm[i - 1]).owner)
  {
    if chunks[i - 1] == 0 {
      return;
    }
    var tid := LeastLoaded(load, nthreads);
    assert load[..nthreads] == load[..];
    var c := sortmap[i - 1];
    assert c == sm[i - 1];
    LayoutUpdate(sizes, st.owner, c, tid);
    var w := chunks[i - 1];
    assert w == sa[i - 1];
    AddLoad(load, tid, w);
    FillBlock(taskmap, chunkoff[c], chunksizes[c], tid);
  }

  /** The chunk sizes, the chunk weights and the chunk offsets that
      `binlpt_balance` computes first (loop.c:343-345). */
  method ChunkTables(tasks: seq<nat>, nchunks: nat) returns (chunksizes: array<nat>, chunks: array<nat>, chunkoff: array<nat>)
    requires 1 <= nchunks <= |tasks|
    ensures fresh(chunksizes) && fresh(chunks) && fresh(chunkoff)
    ensures chunksizes != chunks && chunksizes != chunkoff && chunks != chunkoff
    ensures chunksizes[..] == ChunkSizesOf(tasks, nchunks)
    ensures chunks[..] == ChunkWeights(tasks, nchunks)
    ensures chunkoff.Length == nchunks && Sum(chunksizes[..]) == |tasks|
    ensures forall c :: 0 <= c < nchunks ==> chunkoff[c] == Sum(chunksizes[..c])
  {
    chunksizes := ChunkSizes(tasks, nchunks);
    ChunkSizesShape(tasks, nchunks);
    assert chunksizes[..nchunks] == chunksizes[..];
    chunks := Chunks(tasks, chunksizes, nchunks);
    chunkoff := CummulativeSum(chunksizes[..], nchunks);
    forall c | 0 <= c < nchunks
      ensures chunkoff[c] == Sum(chunksizes[..c])
    {
      assert chunksizes[..][..c] == chunksizes[..c];
    }
  }

  /** `binlpt_balance(tasks, ntasks, nthreads)` (loop.c:328-378) with `__nchunks`
      as the parameter `nchunks`; `sortmap` has `ntasks` entries, so the chunks
      must be at most as many as the tasks.  The zeroed task map and loads are
      allocated just before they are first used. */
  method BinlptBalance(tasks: seq<nat>, nthreads: nat, nchunks: nat) returns (taskmap: array<nat>)
    requires 1 <= nchunks <= |tasks| && 1 <= nthreads
    ensures fresh(taskmap) && taskmap[..] == BinlptMap(tasks, nchunks, nthreads)
  {
    var ntasks := |tasks|;
    var chunksizes, chunks, chunkoff := ChunkTables(tasks, nchunks);
    ghost var sizes := chunksizes[..];
    var sortmap := new nat[ntasks];
    assert chunks[..nchunks] == chunks[..];
    Sort(chunks, nchunks, sortmap);
    ghost var sa := chunks[..nchunks];
    ghost var sm := sortmap[..nchunks];
    SortedChunks(tasks, nchunks, nthreads, sizes, sa, sm);
    assert chunks[..] == sa;
    taskmap := new nat[ntasks](_ => 0);
    var load := new nat[nthreads](_ => 0);
    assert taskmap[..] == Repeat(0, ntasks) && load[..] == Repeat(0, nthreads);
    PlaceAll(taskmap, load, chunkoff, chunksizes, sortmap, chunks, nthreads, sizes, sa, sm);
  }

  /** What the placement starts from once `sort` has ordered the chunk weights. */
  lemma SortedChunks(tasks: seq<nat>, nchunks: nat, nthreads: nat, sizes: seq<nat>, sa: seq<nat>, sm: seq<nat>)
    requires 1 <= |tasks| && 1 <= nchunks && 1 <= nthreads
    requires sizes == ChunkSizesOf(tasks, nchunks)
    requires Pair(sa, sm) == SortResult(ChunkWeights(tasks, nchunks))
    ensures |sa| == |sm| == nchunks && forall x :: 0 <= x < |sm| ==> sm[x] < |sm|
    ensures BinlptMap(tasks, nchunks, nthreads) == Layout(sizes, Lpt(sa, sm, nthreads, 0).owner)
  {
    SortIsCorrect(ChunkWeights(tasks, nchunks));
  }

  /** The placement loop of `binlpt_balance` (loop.c:351-366), from the heaviest
      chunk down to the lightest. */
  method PlaceAll(taskmap: array<nat>, load: array<nat>, chunkoff: array<nat>, chunksizes: array<nat>,
                  sortmap: array<nat>, chunks: array<nat>, nthreads: nat,
                  ghost sizes: seq<nat>, ghost sa: seq<nat>, ghost sm: seq<nat>)
    requires taskmap != load
    requires taskmap !in {chunkoff, chunksizes, sortmap, chunks}
    requires load !in {chunkoff, chunksizes, sortmap, chunks}
    requires |sa| == |sm| == |sizes| == chunks.Length == chunkoff.Length == chunksizes.Length
    requires |sa| <= sortmap.Length && 1 <= nthreads == load.Length
    requires chunks[..] == sa && sortmap[..|sa|] == sm && chunksizes[..] == sizes
    requires forall x :: 0 <= x < |sm| ==> sm[x] < |sm|
    requires forall c :: 0 <= c < |sizes| ==> chunkoff[c] == Sum(sizes[..c])
    requires Sum(sizes) == taskmap.Length
    requires load[..] == Repeat(0, nthreads) && taskmap[..] == Repeat(0, taskmap.Length)
    modifies taskmap, load
    ensures taskmap[..] == Layout(sizes, Lpt(sa, sm, nthreads, 0).owner)
  {
    LayoutZero(sizes);
    var i: nat := chunks.Length;
    while i > 0
      invariant i <= |sa|
      invariant load[..] == Lpt(sa, sm, nthreads, i).load
      invariant taskmap[..] == Layout(sizes, Lpt(sa, sm, nthreads, i).owner)
    {
      PlaceChunk(taskmap, load, chunkoff, chunksizes, sortmap, chunks, nthreads, i, sizes, sa, sm,
                 Lpt(sa, sm, nthreads, i));
      i := i - 1;
    }
  }

  /** With every owner 0, the layout is all zeros. */
  lemma {:induction false} LayoutZero(sizes: seq<nat>)
    ensures Layout(sizes, Repeat(0, |sizes|)) == Repeat(0, Sum(sizes))
    decreases |sizes|
  {
    if sizes != [] {
      var n := |sizes| - 1;
      assert Repeat(0, |sizes|)[..n] == Repeat(0, n);
      LayoutZero(sizes[..n]);
    }
  }

  // ---------------------------------------------------------------------------
  // SRR

  /** The thread of the pass `j` (counted from 0) of the pairing loop of
      `srr_balance`, whose `tid` starts at 0 and steps by
      `tid = (tid + 1) % nthreads` (loop.c:189, 203). */
  function Turn(j: nat, nthreads: nat): (t: nat)
    requires 1 <= nthreads
    ensures t < nthreads && t <= j
  {
    if j == 0 then 0
    else
      var p := Turn(j - 1, nthreads);
      if p + 1 == nthreads then 0 else p + 1
  }

  /** The code's wrap-around computes the next turn. */
  lemma TurnStep(j: nat, nthreads: nat)
    requires 1 <= nthreads
    ensures (Turn(j, nthreads) + 1) % nthreads == Turn(j + 1, nthreads)
  {
    var p := Turn(j, nthreads);
    if p + 1 == nthreads {
      ModUnique(p + 1, nthreads, 1, 0);
    } else {
      ModUnique(p + 1, nthreads, 0, p + 1);
    }
  }

  /** Pass `j` goes to thread `j % nthreads`: plain round robin. */
  lemma {:induction false} TurnIsMod(j: nat, nthreads: nat)
    requires 1 <= nthreads
    ensures Turn(j, nthreads) == j % nthreads
  {
    if j > 0 {
      TurnIsMod(j - 1, nthreads);
      TurnStep(j - 1, nthreads);
      ModSucc(j - 1, nthreads);
    }
  }

  /** The position mirrored to sorted position `x` in the pairing loop of
      `srr_balance` (loop.c:192-204), which pairs `sortmap[i]` with
      `sortmap[ntasks - ((i - k) + 1)]` for `k = ntasks & 1`. */
  function Mirror(n: nat, x: nat): (y: nat)
    requires n % 2 <= x < n
    ensures n % 2 <= y < n
  {
    n - ((x - n % 2) + 1)
  }

  /** The last pass of the pairing loop that writes the task at sorted position
      `x`, counted from `k`, before pass `i` (or -1 if none has).  Every position
      is written twice, once as `l` and once as `r`. */
  function LastPass(n: nat, x: nat, i: nat): (r: int)
    requires n % 2 <= x < n
  {
    var y := Mirror(n, x);
    var k := n % 2;
    if x < i && y < i then (if x < y then y else x) - k
    else if x < i then x - k
    else if y < i then y - k
    else -1
  }

  /** The pass whose thread the task at sorted position `x` keeps: the later of
      the two passes that visit it. */
  function SrrSlot(n: nat, x: nat): (s: nat)
    requires n % 2 <= x < n
  {
    LastPass(n, x, n)
  }

  /** `load` of `srr_balance` before pass `i` of the pairing loop: each pass adds
      `tasks[l] + tasks[r]` to its thread, where `tasks` is already sorted while
      `l` and `r` are original indices. */
  function SrrLoads(a: seq<nat>, m: seq<nat>, nthreads: nat, i: nat): (r: seq<nat>)
    requires |a| == |m| && 1 <= nthreads && |a| % 2 <= i <= |a|
    requires forall x :: 0 <= x < |m| ==> m[x] < |a|
    ensures |r| == |a|
    decreases i
  {
    var n := |a|;
    var k := n % 2;
    if i == k then Repeat(0, n)
    else
      var j := i - 1;
      var p := SrrLoads(a, m, nthreads, j);
      var t := Turn(j - k, nthreads);
      p[t := p[t] + a[m[j]] + a[m[Mirror(n, j)]]]
  }

  /** The thread `srr_balance(tasks, n, nthreads)` gives the task at sorted
      position `x`, with `a` and `m` what `sort` returns: the round-robin turn of
      its last pairing pass, and, for the leftover smallest task when `n` is odd,
      the least loaded thread after pairing. */
  function SrrOwner(a: seq<nat>, m: seq<nat>, nthreads: nat, x: nat): (t: nat)
    requires |a| == |m| && 1 <= nthreads && x < |a|
    requires |a| % 2 == 1 ==> nthreads <= |a|
    requires forall x :: 0 <= x < |m| ==> m[x] < |a|
    ensures t < nthreads
  {
    var n := |a|;
    if n % 2 <= x then Turn(SrrSlot(n, x), nthreads)
    else ArgMin(SrrLoads(a, m, nthreads, n)[..nthreads])
  }

  /** The two tasks of a pair end up on the same thread, whose number is the
      pair's last pass modulo `nthreads`, and that pass is one of the later half
      of the passes. */
  lemma SrrPairsShareThread(a: seq<nat>, m: seq<nat>, nthreads: nat, x: nat)
    requires |a| == |m| && 1 <= nthreads && |a| % 2 <= x < |a|
    requires |a| % 2 == 1 ==> nthreads <= |a|
    requires forall x :: 0 <= x < |m| ==> m[x] < |a|
    ensures SrrOwner(a, m, nthreads, x) == SrrOwner(a, m, nthreads, Mirror(|a|, x))
    ensures SrrOwner(a, m, nthreads, x) == SrrSlot(|a|, x) % nthreads
    ensures (|a| - |a| % 2) / 2 <= SrrSlot(|a|, x) < |a| - |a| % 2
  {
    TurnIsMod(SrrSlot(|a|, x), nthreads);
  }

  /** When the number of tasks is odd, the leftover task at sorted position 0 is
      a lightest one, and its thread carries the least load after pairing (the
      lowest such thread). */
  lemma SrrSmallestToLeastLoaded(tasks: seq<nat>, nthreads: nat)
    requires |tasks| % 2 == 1 && 1 <= nthreads <= |tasks|
    ensures var S := SortResult(tasks);
            (forall x :: 0 <= x < |S.m| ==> S.m[x] < |tasks|) &&
            (forall x :: 0 <= x < |tasks| ==> tasks[S.m[0]] <= tasks[x]) &&
            var load := SrrLoads(S.a, S.m, nthreads, |tasks|);
            var t := SrrOwner(S.a, S.m, nthreads, 0);
            (forall u :: 0 <= u < nthreads ==> load[t] <= load[u]) &&
            (forall u :: 0 <= u < t ==> load[t] < load[u])
  {
    var S := SortResult(tasks);
    SortedFirstIsLightest(tasks);
    var load := SrrLoads(S.a, S.m, nthreads, |tasks|);
    ArgMinIsLeast(load[..nthreads]);
  }

  /** `sort` puts a lightest task first. */
  lemma SortedFirstIsLightest(tasks: seq<nat>)
    requires 1 <= |tasks|
    ensures var S := SortResult(tasks);
            (forall x :: 0 <= x < |S.m| ==> S.m[x] < |tasks|) &&
            forall x :: 0 <= x < |tasks| ==> tasks[S.m[0]] <= tasks[x]
  {
    var S := SortResult(tasks);
    SortIsCorrect(tasks);
    forall x | 0 <= x < |tasks|
      ensures tasks[S.m[0]] <= tasks[x]
    {
      assert tasks[x] in multiset(S.a) by { assert tasks[x] in multiset(tasks); }
      var y :| 0 <= y < |S.a| && S.a[y] == tasks[x];
      assert S.a[0] <= S.a[y];
    }
  }

  /** Read through a rearrangement of `0..|s|`, `s` keeps its total. */
  lemma ApplySum(s: seq<nat>, m: seq<nat>)
    requires multiset(m) == multiset(Identity(|s|))
    ensures Sum(Apply(s, m)) == Sum(s)
  {
    ApplyPermutation(s, m, Identity(|s|));
    assert Apply(s, Identity(|s|)) == s;
    SumPermutation(Apply(s, m), s);
  }

  /** One pass adds its pair's two weights to the total load. */
  lemma SrrLoadsSumStep(a: seq<nat>, m: seq<nat>, nthreads: nat, j: nat)
    requires |a| == |m| && 1 <= nthreads && |a| % 2 <= j < |a|
    requires forall x :: 0 <= x < |m| ==> m[x] < |a|
    ensures Sum(SrrLoads(a, m, nthreads, j + 1)) ==
            Sum(SrrLoads(a, m, nthreads, j)) + a[m[j]] + a[m[Mirror(|a|, j)]]
  {
    var L := SrrLoads(a, m, nthreads, j);
    var t := Turn(j - |a| % 2, nthreads);
    var w := a[m[j]] + a[m[Mirror(|a|, j)]];
    SrrLoadsStep(a, m, nthreads, j);
    SumUpdate(L, t, w);
    assert L[t := L[t] + a[m[j]] + a[m[Mirror(|a|, j)]]] == L[t := L[t] + w];
  }

  /** The weights the passes before `i` read: at the sorted positions they
      took as `l` (from `k` up) and as `r` (from the end down). */
  ghost function PassedWeight(a: seq<nat>, m: seq<nat>, i: nat): nat
    requires |a| == |m| && |a| % 2 <= i <= |a|
    requires forall x :: 0 <= x < |m| ==> m[x] < |a|
  {
    Passed(Apply(a, m), |a| % 2, i)
  }

  /** The weight of the front window `k..i` of `w` and of the back window as
      long as it. */
  function Passed(w: seq<nat>, k: nat, i: nat): nat
    requires k <= i <= |w|
  {
    Sum(w[k..i]) + Sum(w[|w| - (i - k)..])
  }

  /** Growing both windows by one adds the two new elements. */
  lemma PassedStep(w: seq<nat>, k: nat, j: nat)
    requires k <= j < |w|
    ensures Passed(w, k, j + 1) == Passed(w, k, j) + w[j] + w[|w| - (j - k + 1)]
  {
    var lo := |w| - (j - k + 1);
    assert |w| - (j + 1 - k) == lo && |w| - (j - k) == lo + 1;
    WindowsStep(w, k, j, lo);
  }

  /** Pass `j` reads the weights at sorted positions `j` and `Mirror(n, j)`. */
  lemma PassedWeightStep(a: seq<nat>, m: seq<nat>, j: nat)
    requires |a| == |m| && |a| % 2 <= j < |a|
    requires forall x :: 0 <= x < |m| ==> m[x] < |a|
    ensures PassedWeight(a, m, j + 1) == PassedWeight(a, m, j) + a[m[j]] + a[m[Mirror(|a|, j)]]
  {
    var w := Apply(a, m);
    PassedStep(w, |a| % 2, j);
    assert w[j] == a[m[j]] && w[Mirror(|a|, j)] == a[m[Mirror(|a|, j)]];
  }

  lemma SrrLoadsTotalStep(a: seq<nat>, m: seq<nat>, nthreads: nat, j: nat)
    requires |a| == |m| && 1 <= nthreads && |a| % 2 <= j < |a|
    requires forall x :: 0 <= x < |m| ==> m[x] < |a|
    requires Sum(SrrLoads(a, m, nthreads, j)) == PassedWeight(a, m, j)
    ensures Sum(SrrLoads(a, m, nthreads, j + 1)) == PassedWeight(a, m, j + 1)
  {
    SrrLoadsSumStep(a, m, nthreads, j);
    PassedWeightStep(a, m, j);
  }

  /** Before the first pass no thread carries any load. */
  lemma SrrLoadsStart(a: seq<nat>, m: seq<nat>, nthreads: nat)
    requires |a| == |m| && 1 <= nthreads
    requires forall x :: 0 <= x < |m| ==> m[x] < |a|
    ensures Sum(SrrLoads(a, m, nthreads, |a| % 2)) == 0
  {
    SumZeros(|a|);
  }

  /** Windows of length zero weigh nothing. */
  lemma PassedNone(w: seq<nat>, k: nat)
    requires k <= |w|
    ensures Passed(w, k, k) == 0
  {
    assert w[k..k] == [] && w[|w|..] == [];
  }

  /** Before pass `i`, the loads total the weights those passes read. */
  lemma {:induction false} SrrLoadsTotal(a: seq<nat>, m: seq<nat>, nthreads: nat, i: nat)
    requires |a| == |m| && 1 <= nthreads && |a| % 2 <= i <= |a|
    requires forall x :: 0 <= x < |m| ==> m[x] < |a|
    ensures Sum(SrrLoads(a, m, nthreads, i)) == PassedWeight(a, m, i)
    decreases i
  {
    if i == |a| % 2 {
      SrrLoadsStart(a, m, nthreads);
      PassedNone(Apply(a, m), i);
    } else {
      SrrLoadsTotal(a, m, nthreads, i - 1);
      SrrLoadsTotalStep(a, m, nthreads, i - 1);
    }
  }

  /** Pairing hands every pair out twice, so the loads after it add up to
      twice the weights read, that is twice the total work less the leftover
      entry when `ntasks` is odd; that entry is `tasks[sortmap[0]]` read from
      the sorted array. */
  lemma SrrLoadsDoubleCount(tasks: seq<nat>, nthreads: nat)
    requires 1 <= nthreads
    ensures var S := SortResult(tasks);
            (forall x :: 0 <= x < |S.m| ==> S.m[x] < |tasks|) &&
            Sum(SrrLoads(S.a, S.m, nthreads, |tasks|)) +
              2 * (if |tasks| % 2 == 1 then S.a[S.m[0]] else 0) == 2 * Sum(tasks)
  {
    var S := SortResult(tasks);
    var n := |tasks|;
    var k := n % 2;
    SortIsCorrect(tasks);
    var w := Apply(S.a, S.m);
    SrrLoadsTotal(S.a, S.m, nthreads, n);
    PassedWeightAll(S.a, S.m);
    ApplySum(S.a, S.m);
    SumPermutation(S.a, tasks);
    LeftoverSplit(w, k);
  }

  /** After the last pass both windows cover the same positions `k..n`. */
  lemma PassedWeightAll(a: seq<nat>, m: seq<nat>)
    requires |a| == |m| && forall x :: 0 <= x < |m| ==> m[x] < |a|
    ensures PassedWeight(a, m, |a|) == 2 * Sum(Apply(a, m)[|a| % 2..|a|])
  {
    var w := Apply(a, m);
    assert w[|a| - (|a| - |a| % 2)..] == w[|a| % 2..|a|];
  }

  /** Every task at a sorted position from `k` on that a pass before `i` has
      written holds the thread of the last such pass. */
  ghost predicate SrrPassed(T: seq<nat>, m: seq<nat>, nthreads: nat, i: nat)
    requires |m| == |T| && 1 <= nthreads
    requires forall x :: 0 <= x < |m| ==> m[x] < |T|
  {
    forall x {:trigger LastPass(|T|, x, i)} :: |T| % 2 <= x < |T| && 0 <= LastPass(|T|, x, i) ==>
      T[m[x]] == Turn(LastPass(|T|, x, i), nthreads)
  }

  /** Pass `i` of the pairing loop adds the weights of its pair to its thread. */
  lemma SrrLoadsStep(a: seq<nat>, m: seq<nat>, nthreads: nat, i: nat)
    requires |a| == |m| && 1 <= nthreads && |a| % 2 <= i < |a|
    requires forall x :: 0 <= x < |m| ==> m[x] < |a|
    ensures var tid := Turn(i - |a| % 2, nthreads);
            var L := SrrLoads(a, m, nthreads, i);
            tid < |a| && L[tid := L[tid] + a[m[i]] + a[m[Mirror(|a|, i)]]] == SrrLoads(a, m, nthreads, i + 1)
  {
  }

  /** Pass `i` of the pairing loop, writing `tid` for the task at sorted
      position `i` and its mirror, moves `SrrPassed` on by one pass. */
  lemma SrrPassStep(T: seq<nat>, m: seq<nat>, pos: seq<nat>, nthreads: nat, i: nat, tid: nat)
    requires |m| == |T| && 1 <= nthreads && |T| % 2 <= i < |T|
    requires forall x :: 0 <= x < |m| ==> m[x] < |T|
    requires |pos| == |m| && forall x :: 0 <= x < |m| ==> pos[m[x]] == x
    requires tid == Turn(i - |T| % 2, nthreads)
    requires SrrPassed(T, m, nthreads, i)
    ensures SrrPassed(T[m[i] := tid][m[Mirror(|T|, i)] := tid], m, nthreads, i + 1)
    ensures |T| % 2 == 1 ==> T[m[i] := tid][m[Mirror(|T|, i)] := tid][m[0]] == T[m[0]]
  {
    var n := |T|;
    var T' := T[m[i] := tid][m[Mirror(n, i)] := tid];
    forall x | n % 2 <= x < n && 0 <= LastPass(n, x, i + 1)
      ensures T'[m[x]] == Turn(LastPass(n, x, i + 1), nthreads)
    {
      if x != i && x != Mirror(n, i) {
        assert Mirror(n, x) != i;
        assert LastPass(n, x, i + 1) == LastPass(n, x, i);
        assert m[x] != m[i] && m[x] != m[Mirror(n, i)] by {
          assert pos[m[x]] == x && pos[m[i]] == i && pos[m[Mirror(n, i)]] == Mirror(n, i);
        }
        assert T'[m[x]] == T[m[x]];
      }
    }
    if n % 2 == 1 {
      assert pos[m[0]] == 0 && pos[m[i]] == i && pos[m[Mirror(n, i)]] == Mirror(n, i);
    }
  }

  /** What pass `i` of the pairing loop, with thread `tid`, does to the task map
      `T`, the loads `L` and the thread. */
  lemma SrrAdvance(T: seq<nat>, L: seq<nat>, a: seq<nat>, m: seq<nat>, pos: seq<nat>, nthreads: nat, i: nat, tid: nat)
    requires |m| == |T| == |a| && 1 <= nthreads && |a| % 2 <= i < |a|
    requires forall x :: 0 <= x < |m| ==> m[x] < |T|
    requires |pos| == |m| && forall x :: 0 <= x < |m| ==> pos[m[x]] == x
    requires tid == Turn(i - |a| % 2, nthreads)
    requires L == SrrLoads(a, m, nthreads, i)
    requires SrrPassed(T, m, nthreads, i)
    ensures tid < |a|
    ensures L[tid := L[tid] + a[m[i]] + a[m[Mirror(|a|, i)]]] == SrrLoads(a, m, nthreads, i + 1)
    ensures SrrPassed(T[m[i] := tid][m[Mirror(|a|, i)] := tid], m, nthreads, i + 1)
    ensures |a| % 2 == 1 ==> T[m[i] := tid][m[Mirror(|a|, i)] := tid][m[0]] == T[m[0]]
    ensures (tid + 1) % nthreads == Turn(i + 1 - |a| % 2, nthreads)
  {
    SrrLoadsStep(a, m, nthreads, i);
    SrrPassStep(T, m, pos, nthreads, i, tid);
    TurnStep(i - |a| % 2, nthreads);
  }

  /** The pairing loop of `srr_balance` (loop.c:188-204) over the sorted weights
      `tasks` (`a`) and the sorting map `sortmap` (`m`). */
  method SrrPairs(taskmap: array<nat>, load: array<nat>, tasks: array<nat>, sortmap: array<nat>, nthreads: nat,
                  ghost a: seq<nat>, ghost m: seq<nat>, ghost pos: seq<nat>)
    requires taskmap != load && taskmap != tasks && taskmap != sortmap && load != tasks && load != sortmap
    requires taskmap.Length == load.Length == tasks.Length == sortmap.Length && 1 <= nthreads
    requires tasks[..] == a && sortmap[..] == m
    requires forall x :: 0 <= x < |m| ==> m[x] < |m|
    requires |pos| == |m| && forall x :: 0 <= x < |m| ==> pos[m[x]] == x
    requires load[..] == Repeat(0, load.Length)
    modifies taskmap, load
    ensures load[..] == SrrLoads(a, m, nthreads, |a|)
    ensures SrrPassed(taskmap[..], m, nthreads, |a|)
    ensures |a| % 2 == 1 ==> taskmap[m[0]] == old(taskmap[m[0]])
  {
    var ntasks := tasks.Length;
    var tid: nat := 0;
    var k := ntasks % 2;
    var i := k;
    assert |a| == ntasks && k == |a| % 2;
    while i < k + (ntasks - k)
      invariant k <= i <= ntasks
      invariant tid == Turn(i - |a| % 2, nthreads)
      invariant load[..] == SrrLoads(a, m, nthreads, i)
      invariant SrrPassed(taskmap[..], m, nthreads, i)
      invariant k == 1 ==> taskmap[m[0]] == old(taskmap[m[0]])
    {
      SrrTurn(taskmap, load, tasks, sortmap, nthreads, i, tid, a, m, pos);
      tid := (tid + 1) % nthreads;
      i := i + 1;
    }
  }

  /** Pass `i` of the pairing loop keeps its invariants: the loads and the task
      map are those of the passes up to `i`, and the odd task is untouched. */
  method SrrTurn(taskmap: array<nat>, load: array<nat>, tasks: array<nat>, sortmap: array<nat>, nthreads: nat,
                 i: nat, tid: nat, ghost a: seq<nat>, ghost m: seq<nat>, ghost pos: seq<nat>)
    requires taskmap != load && taskmap != tasks && load != tasks
    requires taskmap.Length == load.Length == tasks.Length == sortmap.Length && 1 <= nthreads
    requires tasks[..] == a && sortmap[..] == m
    requires forall x :: 0 <= x < |m| ==> m[x] < |m|
    requires |pos| == |m| && forall x :: 0 <= x < |m| ==> pos[m[x]] == x
    requires |a| % 2 <= i < |a| && tid == Turn(i - |a| % 2, nthreads)
    requires load[..] == SrrLoads(a, m, nthreads, i)
    requires SrrPassed(taskmap[..], m, nthreads, i)
    modifies taskmap, load
    ensures load[..] == SrrLoads(a, m, nthreads, i + 1)
    ensures SrrPassed(taskmap[..], m, nthreads, i + 1)
    ensures |a| % 2 == 1 ==> taskmap[m[0]] == old(taskmap[m[0]])
    ensures (tid + 1) % nthreads == Turn(i + 1 - |a| % 2, nthreads)
  {
    ghost var T: seq<nat> := taskmap[..];
    ghost var L: seq<nat> := load[..];
    SrrAdvance(T, L, a, m, pos, nthreads, i, tid);
    SrrPass(taskmap, load, tasks, sortmap, i, tid, a, m);
    assert taskmap[..] == T[m[i] := tid][m[Mirror(|a|, i)] := tid];
    assert taskmap[m[0]] == taskmap[..][m[0]];
  }

  /** The body of the pairing loop of `srr_balance` (loop.c:194-200) for pass
      `i`, whose thread is `tid`: both tasks of the pair get `tid`, and `tid`
      gets their weights, read from the sorted `tasks` at their original
      indices. */
  method SrrPass(taskmap: array<nat>, load: array<nat>, tasks: array<nat>, sortmap: array<nat>,
                 i: nat, tid: nat, ghost a: seq<nat>, ghost m: seq<nat>)
    requires taskmap != load && taskmap != tasks && load != tasks
    requires taskmap.Length == load.Length == tasks.Length == sortmap.Length
    requires tasks[..] == a && sortmap[..] == m
    requires forall x :: 0 <= x < |m| ==> m[x] < |m|
    requires |a| % 2 <= i < |a| && tid < |a|
    modifies taskmap, load
    ensures taskmap[..] == old(taskmap[..])[m[i] := tid][m[Mirror(|a|, i)] := tid]
    ensures load[..] == old(load[..])[tid := old(load[..])[tid] + a[m[i]] + a[m[Mirror(|a|, i)]]]
  {
    var ntasks := tasks.Length;
    var k := ntasks % 2;
    var l := sortmap[i];
    var r := sortmap[ntasks - ((i - k) + 1)];
    WritePair(taskmap, l, r, tid);
    AddLoad(load, tid, tasks[l] + tasks[r]);
  }

  /** `taskmap[l] = tid; taskmap[r] = tid;` */
  method WritePair(taskmap: array<nat>, l: nat, r: nat, tid: nat)
    requires l < taskmap.Length && r < taskmap.Length
    modifies taskmap
    ensures taskmap[..] == old(taskmap[..])[l := tid][r := tid]
  {
    taskmap[l] := tid;
    taskmap[r] := tid;
  }

  /** `load[tid] += w;` */
  method AddLoad(load: array<nat>, tid: nat, w: nat)
    requires tid < load.Length
    modifies load
    ensures load[..] == old(load[..])[tid := old(load[tid]) + w]
  {
    load[tid] := load[tid] + w;
  }

  /** The assignment part of `srr_balance` (loop.c:180-222) once `tasks` holds
      the sorted weights `a` and `sortmap` the sorting map `m`. */
  method SrrAssign(tasks: array<nat>, sortmap: array<nat>, nthreads: nat,
                   ghost a: seq<nat>, ghost m: seq<nat>, ghost pos: seq<nat>)
    returns (taskmap: array<nat>)
    requires tasks != sortmap && tasks[..] == a && sortmap[..] == m && |a| == |m| && 1 <= nthreads
    requires |a| % 2 == 1 ==> nthreads <= |a|
    requires forall x :: 0 <= x < |m| ==> m[x] < |m|
    requires |pos| == |m| && forall x :: 0 <= x < |m| ==> pos[m[x]] == x
    ensures fresh(taskmap) && taskmap.Length == |a|
    ensures forall x :: 0 <= x < |a| ==> taskmap[m[x]] == SrrOwner(a, m, nthreads, x)
  {
    var ntasks := tasks.Length;
    taskmap := new nat[ntasks];
    var load := new nat[ntasks](_ => 0);
    assert load[..] == Repeat(0, ntasks);
    SrrPairs(taskmap, load, tasks, sortmap, nthreads, a, m, pos);
    ghost var pairs := load[..];
    var k := ntasks % 2;
    assert k == 1 ==> 1 <= ntasks;
    var i := k;
    while i > 0
      invariant i <= k
      invariant i == k ==> load[..] == pairs
      invariant SrrPassed(taskmap[..], m, nthreads, ntasks)
      invariant i < k ==> 1 <= ntasks && taskmap[m[0]] == SrrOwner(a, m, nthreads, 0)
    {
      var leastoverload := LeastLoaded(load, nthreads);
      SrrLeftoverKeepsPairs(taskmap[..], m, pos, nthreads, leastoverload);
      taskmap[sortmap[i - 1]] := leastoverload;
      load[leastoverload] := load[leastoverload] + tasks[sortmap[i - 1]];
      i := i - 1;
    }
    forall x | 0 <= x < ntasks
      ensures taskmap[m[x]] == SrrOwner(a, m, nthreads, x)
    {
      if k <= x {
        assert LastPass(ntasks, x, ntasks) == SrrSlot(ntasks, x);
      }
    }
  }

  /** Writing the leftover task at sorted position 0 leaves the pairs alone. */
  lemma SrrLeftoverKeepsPairs(T: seq<nat>, m: seq<nat>, pos: seq<nat>, nthreads: nat, t: nat)
    requires |m| == |T| && 1 <= nthreads && |T| % 2 == 1
    requires forall x :: 0 <= x < |m| ==> m[x] < |T|
    requires |pos| == |m| && forall x :: 0 <= x < |m| ==> pos[m[x]] == x
    requires SrrPassed(T, m, nthreads, |T|)
    ensures SrrPassed(T[m[0] := t], m, nthreads, |T|)
  {
    forall x | 1 <= x < |T|
      ensures T[m[0] := t][m[x]] == T[m[x]]
    {
      assert pos[m[x]] == x && pos[m[0]] == 0;
    }
  }

  /** `srr_balance(tasks, ntasks, nthreads)` (loop.c:171-225): sorts the caller's
      `tasks` in place, hands the sorted tasks out in mirrored pairs round-robin,
      and gives the leftover smallest task of an odd count to the least loaded
      thread.  `load` has `ntasks` entries, so that scan needs `nthreads <= ntasks`. */
  method SrrBalance(tasks: array<nat>, nthreads: nat) returns (taskmap: array<nat>)
    requires 1 <= nthreads
    requires tasks.Length % 2 == 1 ==> nthreads <= tasks.Length
    modifies tasks
    ensures fresh(taskmap) && taskmap.Length == tasks.Length
    ensures var S := SortResult(old(tasks[..]));
            tasks[..] == S.a &&
            (forall x :: 0 <= x < |S.m| ==> S.m[x] < tasks.Length) &&
            forall x :: 0 <= x < tasks.Length ==> taskmap[S.m[x]] == SrrOwner(S.a, S.m, nthreads, x)
    ensures forall t :: 0 <= t < taskmap.Length ==> taskmap[t] < nthreads
  {
    var ntasks := tasks.Length;
    var sortmap := new nat[ntasks];
    assert tasks[..ntasks] == tasks[..];
    Sort(tasks, ntasks, sortmap);
    assert tasks[..] == tasks[..ntasks] && sortmap[..] == sortmap[..ntasks];
    ghost var sa := tasks[..];
    ghost var sm := sortmap[..];
    SortedMap(old(tasks[..]), sa, sm);
    ghost var pos := Inverse(sm);
    taskmap := SrrAssign(tasks, sortmap, nthreads, sa, sm, pos);
    SrrOwnersInRange(taskmap[..], sa, sm, nthreads);
  }

  /** Every entry of a task map that agrees with `SrrOwner` is a thread, since
      the sorting map reaches every task. */
  lemma SrrOwnersInRange(T: seq<nat>, a: seq<nat>, m: seq<nat>, nthreads: nat)
    requires |T| == |a| == |m| && 1 <= nthreads
    requires |a| % 2 == 1 ==> nthreads <= |a|
    requires forall x :: 0 <= x < |m| ==> m[x] < |a|
    requires forall t :: 0 <= t < |m| ==> t in m
    requires forall x :: 0 <= x < |m| ==> T[m[x]] == SrrOwner(a, m, nthreads, x)
    ensures forall t :: 0 <= t < |T| ==> T[t] < nthreads
  {
    forall t | 0 <= t < |T|
      ensures T[t] < nthreads
    {
      assert t in m;
      var x :| 0 <= x < |m| && m[x] == t;
      assert T[t] == SrrOwner(a, m, nthreads, x);
    }
  }

  /** What `srr_balance` needs of the map `sort` returns. */
  lemma SortedMap(tasks: seq<nat>, sa: seq<nat>, sm: seq<nat>)
    requires Pair(sa, sm) == SortResult(tasks)
    ensures |sa| == |sm| == |tasks|
    ensures forall x :: 0 <= x < |sm| ==> sm[x] < |sm|
    ensures forall x, y :: 0 <= x < y < |sm| ==> sm[x] != sm[y]
    ensures forall t :: 0 <= t < |sm| ==> t in sm
    ensures var pos := Inverse(sm); |pos| == |sm| && forall x :: 0 <= x < |sm| ==> pos[sm[x]] == x
  {
    SortIsCorrect(tasks);
    SortMapIsPermutation(tasks);
    var pos := Inverse(sm);
    forall x | 0 <= x < |sm|
      ensures pos[sm[x]] == x
    {
      assert sm[pos[sm[x]]] == sm[x];
    }
  }

  /** The last position of `t` in `m`. */
  ghost function IndexOf(m: seq<nat>, t: nat): (x: nat)
    requires t in m
    ensures x < |m| && m[x] == t
  {
    if m[|m| - 1] == t then |m| - 1
    else
      assert m == m[..|m| - 1] + [m[|m| - 1]];
      IndexOf(m[..|m| - 1], t)
  }

  /** The inverse of a permutation `m` of `0..|m|`. */
  ghost function Inverse(m: seq<nat>): (pos: seq<nat>)
    requires forall t :: 0 <= t < |m| ==> t in m
    ensures |pos| == |m| && forall t :: 0 <= t < |m| ==> pos[t] < |m| && m[pos[t]] == t
  {
    seq(|m|, t requires 0 <= t < |m| => IndexOf(m, t))
  }
}
