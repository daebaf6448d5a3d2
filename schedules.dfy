/** The chunk-size helpers of `schedules.h` and the factoring schedule FAC2
    (`bo_iter_fac2_next`) under sequential execution. */
module Schedules {
  import opened Sums
  import opened WorkShares

  /** `clip(x, low, hi)`: `x` clamped to `[low, hi]`, testing `low` first. */
  function Clip(x: int, low: int, hi: int): (r: int)
    ensures x < low ==> r == low
    ensures low <= x && hi < x ==> r == hi
    ensures low <= x <= hi ==> r == x
    ensures low <= hi ==> low <= r <= hi
  {
    if x < low then low else if x > hi then hi else x
  }

  /** `clip_ull`: the same clamp on unsigned values. */
  function ClipUll(x: nat, low: nat, hi: nat): (r: nat)
    ensures r == Clip(x, low, hi)
  {
    if x < low then low else if x > hi then hi else x
  }

  /** Clamping twice is clamping once. */
  lemma ClipIdempotent(x: int, low: int, hi: int)
    requires low <= hi
    ensures Clip(Clip(x, low, hi), low, hi) == Clip(x, low, hi)
  {
  }

  /** Clamping preserves the order of its arguments. */
  lemma ClipMonotone(x: int, y: int, low: int, hi: int)
    requires x <= y
    ensures Clip(x, low, hi) <= Clip(y, low, hi) || hi < low
  {
  }

  /** `css_chunk_size(param, N, P)`: the exponent `2/3` is an integer division, so
      `pow` is taken to the power 0 and yields 1 whatever `param` and `P` are; the
      result is `clip(1, 1, N)`. */
  function CssChunkSize(param: real, n: int, p: nat): (r: int)
    ensures 1 <= n ==> r == 1
    ensures n < 1 ==> r == n
  {
    Clip(1, 1, n)
  }

  /** `css_chunk_size_ull`: the unsigned variant, `clip_ull(1, 1, N)`. */
  function CssChunkSizeUll(param: real, n: nat, p: nat): (r: nat)
    ensures 1 <= n ==> r == 1
    ensures n == 0 ==> r == 0
  {
    ClipUll(1, 1, n)
  }

  /** `fss_transform_range`: the identity on the schedule parameter. */
  function FssTransformRange(param: real): (r: real)
    ensures r == param
  {
    param
  }

  // ---------------------------------------------------------------------------
  // FAC2

  /** The shared FAC2 state of a work share: `next`, `barrier` and `chunk_size`. */
  datatype Fac2State = Fac2State(next: int, barrier: int, chunk: int)

  /** What sequential FAC2 keeps true of its state for a loop ending at `end` with
      step `incr > 0`: `next` has not passed `end`, and between batch refreshes the
      chunk size is at least one. */
  ghost predicate Fac2Valid(s: Fac2State, end: int, incr: int, nthreads: nat)
  {
    0 < incr && 1 <= nthreads && s.next <= end &&
    (s.barrier != s.next ==> 1 <= s.chunk)
  }

  /** The iterations left: `R = (end - start) / incr` (schedules.h:84). */
  function Remaining(s: Fac2State, end: int, incr: int): nat
    requires 0 < incr && s.next <= end
  {
    (end - s.next) / incr
  }

  /** The batch refresh when `next` has reached the barrier (schedules.h:86-126):
      `F = (R / 2) / nthreads` and the barrier moves `F * nthreads` iterations on,
      or, when `F <= 1`, chunks of one run to `end`. */
  function Refresh(s: Fac2State, end: int, incr: int, nthreads: nat): Fac2State
    requires 0 < incr && 1 <= nthreads && s.next <= end
  {
    if s.barrier != s.next then s
    else
      var f := (Remaining(s, end, incr) / 2) / nthreads;
      if f <= 1 then Fac2State(s.next, end, 1)
      else Fac2State(s.next, s.barrier + f * nthreads * incr, f)
  }

  /** The end of the chunk handed out (schedules.h:128-131). */
  function ChunkEnd(s: Fac2State, end: int, incr: int): int
    requires 0 < incr && s.next <= end
  {
    if s.chunk <= Remaining(s, end, incr) then s.next + s.chunk * incr else end
  }

  /** One successful call of `bo_iter_fac2_next`: refresh, then `next := nend`. */
  function Fac2Step(s: Fac2State, end: int, incr: int, nthreads: nat): Fac2State
    requires 0 < incr && 1 <= nthreads && s.next <= end
  {
    var t := Refresh(s, end, incr, nthreads);
    t.(next := ChunkEnd(t, end, incr))
  }

  /** `m` iterations of step `incr` fit in the `R * incr` iterations left. */
  lemma FitsRemaining(d: int, incr: int, m: nat)
    requires 0 < incr && 0 <= d && m <= d / incr
    ensures m * incr <= d
  {
    assert (d / incr) * incr <= d;
    assert m * incr <= (d / incr) * incr;
  }

  /** A batch of `f * nthreads` chunks of `f` iterations fits in half of `R`. */
  lemma BatchFits(r: nat, nthreads: nat, f: nat)
    requires 1 <= nthreads && f == (r / 2) / nthreads
    ensures f <= f * nthreads <= r / 2 <= r
  {
  }

  /** A refresh at the barrier with `F > 1` moves the barrier past `next` but not
      past `end`; with `F <= 1` it moves it to `end`. */
  lemma RefreshBarrier(s: Fac2State, end: int, incr: int, nthreads: nat)
    requires Fac2Valid(s, end, incr, nthreads) && s.barrier == s.next
    ensures var t := Refresh(s, end, incr, nthreads);
            t.next == s.next && 1 <= t.chunk && s.next <= t.barrier <= end &&
            (t.chunk == 1 ==> t.barrier == end)
  {
    var r := Remaining(s, end, incr);
    var f := (r / 2) / nthreads;
    if f > 1 {
      BatchFits(r, nthreads, f);
      FitsRemaining(end - s.next, incr, f * nthreads);
    }
  }

  /** A call with work left keeps the state valid and hands out a non-empty chunk
      that starts at the old `next` and ends at the new one, within `end`. */
  lemma Fac2StepValid(s: Fac2State, end: int, incr: int, nthreads: nat)
    requires Fac2Valid(s, end, incr, nthreads) && s.next != end
    ensures Fac2Valid(Fac2Step(s, end, incr, nthreads), end, incr, nthreads)
    ensures s.next < Fac2Step(s, end, incr, nthreads).next <= end
  {
    var t := Refresh(s, end, incr, nthreads);
    if s.barrier == s.next {
      RefreshBarrier(s, end, incr, nthreads);
    }
    var r := Remaining(t, end, incr);
    if t.chunk <= r {
      FitsRemaining(end - t.next, incr, t.chunk);
      MulMono(1, t.chunk, incr);
    }
  }

  /** The chunks `[start, nend)` that successive calls hand out from state `s` until
      the call that returns false. */
  ghost function Fac2Run(s: Fac2State, end: int, incr: int, nthreads: nat): seq<(int, int)>
    requires Fac2Valid(s, end, incr, nthreads)
    decreases end - s.next
  {
    if s.next == end then []
    else
      var u := Fac2Step(s, end, incr, nthreads);
      Fac2StepValid(s, end, incr, nthreads);
      [(s.next, u.next)] + Fac2Run(u, end, incr, nthreads)
  }

  /** The integers `lo, lo + 1, ..., hi - 1`. */
  function Range(lo: int, hi: int): (r: seq<int>)
    requires lo <= hi
    ensures |r| == hi - lo && forall k :: 0 <= k < |r| ==> r[k] == lo + k
  {
    seq(hi - lo, k requires 0 <= k < hi - lo => lo + k)
  }

  /** The integers the chunks cover, in order. */
  function Covered(chunks: seq<(int, int)>): seq<int>
  {
    if chunks == [] then []
    else if chunks[0].0 <= chunks[0].1 then Range(chunks[0].0, chunks[0].1) + Covered(chunks[1..])
    else Covered(chunks[1..])
  }

  lemma RangeSplit(lo: int, mid: int, hi: int)
    requires lo <= mid <= hi
    ensures Range(lo, hi) == Range(lo, mid) + Range(mid, hi)
  {
  }

  /** Under sequential execution the chunks of successive calls are non-empty and
      cover `[next, end)` exactly once each, in increasing order. */
  lemma {:induction false} Fac2Covers(s: Fac2State, end: int, incr: int, nthreads: nat)
    requires Fac2Valid(s, end, incr, nthreads)
    ensures Covered(Fac2Run(s, end, incr, nthreads)) == Range(s.next, end)
    ensures forall k :: 0 <= k < |Fac2Run(s, end, incr, nthreads)| ==>
              Fac2Run(s, end, incr, nthreads)[k].0 < Fac2Run(s, end, incr, nthreads)[k].1
    decreases end - s.next
  {
    var run := Fac2Run(s, end, incr, nthreads);
    if s.next != end {
      var u := Fac2Step(s, end, incr, nthreads);
      Fac2StepValid(s, end, incr, nthreads);
      Fac2Covers(u, end, incr, nthreads);
      assert run == [(s.next, u.next)] + Fac2Run(u, end, incr, nthreads);
      assert run[1..] == Fac2Run(u, end, incr, nthreads);
      RangeSplit(s.next, u.next, end);
    }
  }

  /** The state of `ws` that FAC2 uses. */
  ghost function Fac2Of(ws: WorkShare): Fac2State
    reads ws
  {
    Fac2State(ws.next, ws.barrier, ws.chunkSize)
  }

  /** `bo_iter_fac2_next(pstart, pend)` (schedules.h:64-145) when every
      compare-and-swap succeeds: returns false and changes nothing once `next`
      is `end`; otherwise refreshes the batch at the barrier and hands out
      `[start, nend)`, storing `nend` in `next`. */
  method Fac2Next(ws: WorkShare, nthreads: nat) returns (ok: bool, start: int, nend: int)
    requires Fac2Valid(Fac2Of(ws), ws.end, ws.incr, nthreads)
    modifies ws`next, ws`barrier, ws`chunkSize
    ensures ok <==> old(ws.next) != ws.end
    ensures !ok ==> Fac2Of(ws) == old(Fac2Of(ws))
    ensures ok ==> Fac2Of(ws) == Fac2Step(old(Fac2Of(ws)), ws.end, ws.incr, nthreads)
    ensures ok ==> start == old(ws.next) && nend == ws.next
    ensures Fac2Valid(Fac2Of(ws), ws.end, ws.incr, nthreads)
  {
    start := ws.next;
    var end := ws.end;
    var incr := ws.incr;
    var barrier := ws.barrier;
    var chunkSize := ws.chunkSize;
    if start == end {
      return false, start, start;
    }
    var r := (end - start) / incr;
    if barrier == start {
      var f := (r / 2) / nthreads;
      var pf := f * nthreads;
      var nbarrier := barrier + pf * incr;
      if f <= 1 {
        f := 1;
        nbarrier := end;
      }
      ws.chunkSize := f;
      chunkSize := f;
      ws.barrier := nbarrier;
    }
    if chunkSize <= r {
      nend := start + chunkSize * incr;
    } else {
      nend := end;
    }
    ws.next := nend;
    ok := true;
    Fac2StepValid(old(Fac2Of(ws)), end, incr, nthreads);
  }
}
