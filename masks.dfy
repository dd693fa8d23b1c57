/** Column masks and blocks (gblock.py:170-205): absorbing short
    non-conserved runs into the surrounding blocks, cutting a mask into
    maximal runs of kept columns, and trimming a block to its flank-
    conserved ends. */
module Masks {
  import opened Msa
  import opened Columns

  // ---------------------------------------------------------------------
  // Maximal runs of equal values
  // ---------------------------------------------------------------------

  /** First index of the maximal run of mask[k]'s value that holds k. */
  function RunStart(mask: seq<bool>, k: nat): (r: nat)
    requires k < |mask|
    ensures r <= k
  {
    if k > 0 && mask[k - 1] == mask[k] then RunStart(mask, k - 1) else k
  }

  /** One past the last index of the maximal run that holds k. */
  function RunEnd(mask: seq<bool>, k: nat): (r: nat)
    requires k < |mask|
    ensures k < r <= |mask|
    decreases |mask| - k
  {
    if k + 1 < |mask| && mask[k + 1] == mask[k] then RunEnd(mask, k + 1) else k + 1
  }

  /** [i, j) is a maximal run of the value v. */
  ghost predicate MaximalRun(mask: seq<bool>, i: nat, j: nat, v: bool)
  {
    i < j <= |mask| &&
    (forall t :: i <= t < j ==> mask[t] == v) &&
    (i == 0 || mask[i - 1] != v) &&
    (j == |mask| || mask[j] != v)
  }

  /** Every index of a maximal run reports that run's bounds. */
  lemma RunBounds(mask: seq<bool>, i: nat, j: nat, v: bool)
    requires MaximalRun(mask, i, j, v)
    ensures forall k :: i <= k < j ==> RunStart(mask, k) == i && RunEnd(mask, k) == j
  {
    forall k | i <= k < j
      ensures RunStart(mask, k) == i && RunEnd(mask, k) == j
    {
      RunStartOf(mask, i, j, v, k);
      RunEndOf(mask, i, j, v, k);
    }
  }

  lemma {:induction false} RunStartOf(mask: seq<bool>, i: nat, j: nat, v: bool, k: nat)
    requires MaximalRun(mask, i, j, v) && i <= k < j
    ensures RunStart(mask, k) == i
    decreases k
  {
    if k > i {
      RunStartOf(mask, i, j, v, k - 1);
    }
  }

  lemma {:induction false} RunEndOf(mask: seq<bool>, i: nat, j: nat, v: bool, k: nat)
    requires MaximalRun(mask, i, j, v) && i <= k < j
    ensures RunEnd(mask, k) == j
    decreases j - k
  {
    if k + 1 < j {
      RunEndOf(mask, i, j, v, k + 1);
    }
  }

  /** The run that RunStart and RunEnd report is maximal. */
  lemma RunIsMaximal(mask: seq<bool>, k: nat)
    requires k < |mask|
    ensures MaximalRun(mask, RunStart(mask, k), RunEnd(mask, k), mask[k])
  {
    RunStartSpan(mask, k);
    RunEndSpan(mask, k);
  }

  lemma {:induction false} RunStartSpan(mask: seq<bool>, k: nat)
    requires k < |mask|
    ensures forall t :: RunStart(mask, k) <= t <= k ==> mask[t] == mask[k]
    ensures RunStart(mask, k) == 0 || mask[RunStart(mask, k) - 1] != mask[k]
    decreases k
  {
    if k > 0 && mask[k - 1] == mask[k] {
      RunStartSpan(mask, k - 1);
    }
  }

  lemma {:induction false} RunEndSpan(mask: seq<bool>, k: nat)
    requires k < |mask|
    ensures forall t :: k <= t < RunEnd(mask, k) ==> mask[t] == mask[k]
    ensures RunEnd(mask, k) == |mask| || mask[RunEnd(mask, k)] != mask[k]
    decreases |mask| - k
  {
    if k + 1 < |mask| && mask[k + 1] == mask[k] {
      RunEndSpan(mask, k + 1);
    }
  }

  // ---------------------------------------------------------------------
  // _allow_short_nonconserved_runs (gblock.py:170-190)
  // ---------------------------------------------------------------------

  /** Column k is a False lying in a run of at most maxRun Falses with a
      True on both sides. */
  predicate ShortInnerRun(mask: seq<bool>, maxRun: int, k: nat)
    requires k < |mask|
  {
    !mask[k] && 0 < RunStart(mask, k) && RunEnd(mask, k) < |mask| &&
    RunEnd(mask, k) - RunStart(mask, k) <= maxRun
  }

  predicate AbsorbedAt(mask: seq<bool>, maxRun: int, k: nat)
    requires k < |mask|
  {
    mask[k] || (maxRun > 0 && ShortInnerRun(mask, maxRun, k))
  }

  /** The mask after short inner runs of Falses are promoted to True. */
  function Absorbed(mask: seq<bool>, maxRun: int): (r: seq<bool>)
    ensures |r| == |mask|
  {
    seq(|mask|, k requires 0 <= k < |mask| => AbsorbedAt(mask, maxRun, k))
  }

  /** _allow_short_nonconserved_runs: scan the copy of the mask run by run
      and fill every short run flanked by True on both sides. */
  method AllowShortNonconservedRuns(mask: seq<bool>, maxRun: int) returns (r: seq<bool>)
    ensures r == Absorbed(mask, maxRun)
  {
    if maxRun <= 0 {
      return mask;
    }
    var m := new bool[|mask|](k requires 0 <= k < |mask| => mask[k]);
    var L := m.Length;
    var i := 0;
    while i < L
      invariant 0 <= i <= L
      invariant forall t :: 0 <= t < i ==> m[t] == AbsorbedAt(mask, maxRun, t)
      invariant forall t :: i <= t < L ==> m[t] == mask[t]
      invariant 0 < i < L && !mask[i] ==> mask[i - 1]
      decreases L - i
    {
      if !m[i] {
        var j := i;
        while j < L && !m[j]
          invariant i < j || j == i
          invariant j <= L
          invariant forall t :: i <= t < j ==> !mask[t]
          decreases L - j
        {
          j := j + 1;
        }
        assert MaximalRun(mask, i, j, false);
        RunBounds(mask, i, j, false);
        var run := j - i;
        var leftTrue := i - 1 >= 0 && m[i - 1];
        var rightTrue := j < L && m[j];
        assert leftTrue == (0 < i);
        if run <= maxRun && leftTrue && rightTrue {
          for k := i to j
            invariant forall t :: 0 <= t < i ==> m[t] == AbsorbedAt(mask, maxRun, t)
            invariant forall t :: i <= t < k ==> m[t]
            invariant forall t :: k <= t < L ==> m[t] == mask[t]
          {
            m[k] := true;
          }
        }
        i := j;
      } else {
        i := i + 1;
      }
    }
    return m[..];
  }

  /** Promotion never clears a kept column and does nothing when the
      allowed run length is not positive. */
  lemma AbsorbedKeeps(mask: seq<bool>, maxRun: int)
    ensures forall k :: 0 <= k < |mask| && mask[k] ==> Absorbed(mask, maxRun)[k]
    ensures maxRun <= 0 ==> Absorbed(mask, maxRun) == mask
  {
  }

  /** Whole runs are promoted or not: every column of a maximal False run
      becomes True exactly when the run is short and has a True on both
      sides. */
  lemma AbsorbedRuns(mask: seq<bool>, maxRun: int, i: nat, j: nat)
    requires MaximalRun(mask, i, j, false)
    ensures forall k :: i <= k < j ==>
              (Absorbed(mask, maxRun)[k] <==> (maxRun > 0 && 0 < i && j < |mask| && j - i <= maxRun))
  {
    RunBounds(mask, i, j, false);
  }

  /** Promoting twice is promoting once: what stays False is a run with a
      gap at an edge or one that is too long, and it is the same maximal run
      in the promoted mask. */
  lemma AbsorbedIdempotent(mask: seq<bool>, maxRun: int)
    ensures Absorbed(Absorbed(mask, maxRun), maxRun) == Absorbed(mask, maxRun)
  {
    var r := Absorbed(mask, maxRun);
    forall k | 0 <= k < |mask| && !r[k]
      ensures !AbsorbedAt(r, maxRun, k)
    {
      var i, j := RunStart(mask, k), RunEnd(mask, k);
      RunIsMaximal(mask, k);
      AbsorbedRuns(mask, maxRun, i, j);
      assert MaximalRun(r, i, j, false);
      RunBounds(r, i, j, false);
    }
  }

  /** [T, F, F, T]: a run of two is promoted with a limit of 2 and kept
      with a limit of 1. */
  lemma AbsorbedExamples()
    ensures Absorbed([true, false, false, true], 2) == [true, true, true, true]
    ensures Absorbed([true, false, false, true], 1) == [true, false, false, true]
  {
    var mask := [true, false, false, true];
    assert MaximalRun(mask, 1, 3, false);
    RunBounds(mask, 1, 3, false);
  }

  // ---------------------------------------------------------------------
  // find_blocks (gblock.py:192-199)
  // ---------------------------------------------------------------------

  /** The blocks found so far and the start of the open run, if any. */
  datatype Scan = Scan(blocks: seq<(nat, nat)>, start: Option<nat>)

  /** One column i of mask + [False]. */
  function ScanStep(minLen: int, st: Scan, i: nat, keep: bool): Scan
  {
    if keep && st.start.None? then Scan(st.blocks, Some(i))
    else if !keep && st.start.Some? then
      Scan(if i - st.start.value >= minLen then st.blocks + [(st.start.value, i)] else st.blocks, None)
    else st
  }

  /** The scan after the first n columns of xs. */
  function ScanUpTo(xs: seq<bool>, minLen: int, n: nat): Scan
    requires n <= |xs|
  {
    if n == 0 then Scan([], None) else ScanStep(minLen, ScanUpTo(xs, minLen, n - 1), n - 1, xs[n - 1])
  }

  /** The blocks find_blocks returns. */
  function Blocks(mask: seq<bool>, minLen: int): seq<(nat, nat)>
  {
    ScanUpTo(mask + [false], minLen, |mask| + 1).blocks
  }

  /** find_blocks: one pass over mask + [False] with an open start. */
  method FindBlocks(mask: seq<bool>, minLen: int) returns (blocks: seq<(nat, nat)>)
    ensures blocks == Blocks(mask, minLen)
  {
    var xs := mask + [false];
    blocks := [];
    var s: Option<nat> := None;
    for i := 0 to |xs|
      invariant Scan(blocks, s) == ScanUpTo(xs, minLen, i)
    {
      var keep := xs[i];
      if keep && s.None? {
        s := Some(i);
      } else if !keep && s.Some? {
        if i - s.value >= minLen {
          blocks := blocks + [(s.value, i)];
        }
        s := None;
      }
    }
  }

  /** A block: a maximal run of kept columns at least minLen long. */
  ghost predicate IsBlock(mask: seq<bool>, minLen: int, b: (nat, nat))
  {
    MaximalRun(mask, b.0, b.1, true) && b.1 - b.0 >= minLen
  }

  /** Blocks come in column order and do not touch. */
  ghost predicate Ascending(blocks: seq<(nat, nat)>)
  {
    forall a, b :: 0 <= a < b < |blocks| ==> blocks[a].1 < blocks[b].0
  }

  /** Column k lies in one of the blocks. */
  ghost predicate Covered(blocks: seq<(nat, nat)>, k: nat)
  {
    exists b :: b in blocks && b.0 <= k < b.1
  }

  /** Column k is kept and its run of kept columns is long enough. */
  ghost predicate InLongRun(mask: seq<bool>, minLen: int, k: nat)
  {
    k < |mask| && mask[k] && RunEnd(mask, k) - RunStart(mask, k) >= minLen
  }

  /** What the scan knows after n columns of mask + [False]. */
  ghost predicate ScanInv(mask: seq<bool>, minLen: int, n: nat, st: Scan)
  {
    (forall b :: b in st.blocks ==> IsBlock(mask, minLen, b) && b.1 < n) &&
    Ascending(st.blocks) &&
    (st.start.None? ==> n == 0 || n - 1 >= |mask| || !mask[n - 1]) &&
    (st.start.Some? ==>
       st.start.value < n <= |mask| &&
       (forall t :: st.start.value <= t < n ==> mask[t]) &&
       (st.start.value == 0 || !mask[st.start.value - 1]) &&
       (forall b :: b in st.blocks ==> b.1 < st.start.value)) &&
    (forall k :: 0 <= k < n && (st.start.None? || k < st.start.value) && InLongRun(mask, minLen, k) ==>
       Covered(st.blocks, k))
  }

  lemma {:induction false} ScanKeepsInv(mask: seq<bool>, minLen: int, n: nat)
    requires n <= |mask| + 1
    ensures ScanInv(mask, minLen, n, ScanUpTo(mask + [false], minLen, n))
  {
    var xs := mask + [false];
    if n > 0 {
      ScanKeepsInv(mask, minLen, n - 1);
      var st := ScanUpTo(xs, minLen, n - 1);
      var i := n - 1;
      var keep := xs[i];
      assert keep == (i < |mask| && mask[i]);
      if !keep && st.start.Some? {
        var s := st.start.value;
        assert MaximalRun(mask, s, i, true);
        RunBounds(mask, s, i, true);
        var st' := ScanUpTo(xs, minLen, n);
        if i - s >= minLen {
          assert st'.blocks == st.blocks + [(s, i)];
          forall k | 0 <= k < n && InLongRun(mask, minLen, k)
            ensures Covered(st'.blocks, k)
          {
            if k < s {
              assert Covered(st.blocks, k);
              var b :| b in st.blocks && b.0 <= k < b.1;
              assert b in st'.blocks;
            } else {
              assert (s, i) in st'.blocks;
            }
          }
        } else {
          forall k | 0 <= k < n && InLongRun(mask, minLen, k)
            ensures Covered(st'.blocks, k)
          {
            assert k < s;
          }
        }
      }
    }
  }

  /** Every block is a maximal run of kept columns of at least minLen
      columns; blocks are in column order; and a kept column lies in a
      block exactly when its run of kept columns is at least minLen long. */
  lemma BlocksMeaning(mask: seq<bool>, minLen: int)
    ensures forall b :: b in Blocks(mask, minLen) ==> IsBlock(mask, minLen, b)
    ensures Ascending(Blocks(mask, minLen))
    ensures forall k :: 0 <= k < |mask| ==>
              (Covered(Blocks(mask, minLen), k) <==> InLongRun(mask, minLen, k))
  {
    var n := |mask| + 1;
    ScanKeepsInv(mask, minLen, n);
    var st := ScanUpTo(mask + [false], minLen, n);
    assert (mask + [false])[n - 1] == false;
    assert st.start.None?;
    forall k | 0 <= k < |mask| && Covered(st.blocks, k)
      ensures InLongRun(mask, minLen, k)
    {
      var b :| b in st.blocks && b.0 <= k < b.1;
      RunBounds(mask, b.0, b.1, true);
    }
  }

  // ---------------------------------------------------------------------
  // soft_trim_block (gblock.py:201-205)
  // ---------------------------------------------------------------------

  /** A column that may stand at a block's edge. */
  predicate Flank(m: Metric, flankCons: real, maxGap: real)
  {
    m.gapRatio <= maxGap && m.consRatio >= flankCons
  }

  /** The first flank column at or after s, or e if none. */
  function TrimStart(mets: seq<Metric>, s: nat, e: nat, flankCons: real, maxGap: real): nat
    requires e <= |mets|
    decreases e - s
  {
    if s < e && !Flank(mets[s], flankCons, maxGap) then TrimStart(mets, s + 1, e, flankCons, maxGap) else s
  }

  /** One past the last flank column before e, or s if none. */
  function TrimEnd(mets: seq<Metric>, s: nat, e: nat, flankCons: real, maxGap: real): nat
    requires e <= |mets|
    decreases e
  {
    if e > s && !Flank(mets[e - 1], flankCons, maxGap) then TrimEnd(mets, s, e - 1, flankCons, maxGap) else e
  }

  /** The trimmed block, None if nothing is left. */
  function SoftTrim(mets: seq<Metric>, b: (nat, nat), flankCons: real, maxGap: real): Option<(nat, nat)>
    requires b.1 <= |mets|
  {
    var s := TrimStart(mets, b.0, b.1, flankCons, maxGap);
    var e := TrimEnd(mets, s, b.1, flankCons, maxGap);
    if e > s then Some((s, e)) else None
  }

  /** soft_trim_block: move each edge inwards past non-flank columns. */
  method SoftTrimBlock(b: (nat, nat), mets: seq<Metric>, flankCons: real, maxGap: real)
    returns (r: Option<(nat, nat)>)
    requires b.1 <= |mets|
    ensures r == SoftTrim(mets, b, flankCons, maxGap)
  {
    var (s, e) := b;
    while s < e && !(mets[s].gapRatio <= maxGap && mets[s].consRatio >= flankCons)
      invariant TrimStart(mets, s, e, flankCons, maxGap) == TrimStart(mets, b.0, b.1, flankCons, maxGap)
      decreases e - s
    {
      s := s + 1;
    }
    ghost var s0 := s;
    while e > s && !(mets[e - 1].gapRatio <= maxGap && mets[e - 1].consRatio >= flankCons)
      invariant e <= b.1
      invariant TrimEnd(mets, s, e, flankCons, maxGap) == TrimEnd(mets, s0, b.1, flankCons, maxGap)
      decreases e
    {
      e := e - 1;
    }
    r := if e > s then Some((s, e)) else None;
  }

  lemma {:induction false} TrimStartMeaning(mets: seq<Metric>, s: nat, e: nat, flankCons: real, maxGap: real)
    requires e <= |mets|
    ensures var r := TrimStart(mets, s, e, flankCons, maxGap);
            (s <= e ==> s <= r <= e) && (s > e ==> r == s) &&
            (forall t :: s <= t < r ==> !Flank(mets[t], flankCons, maxGap)) &&
            (r < e ==> Flank(mets[r], flankCons, maxGap))
    decreases e - s
  {
    if s < e && !Flank(mets[s], flankCons, maxGap) {
      TrimStartMeaning(mets, s + 1, e, flankCons, maxGap);
    }
  }

  lemma {:induction false} TrimEndMeaning(mets: seq<Metric>, s: nat, e: nat, flankCons: real, maxGap: real)
    requires s <= e <= |mets|
    ensures var r := TrimEnd(mets, s, e, flankCons, maxGap);
            s <= r <= e &&
            (forall t :: r <= t < e ==> !Flank(mets[t], flankCons, maxGap)) &&
            (r > s ==> Flank(mets[r - 1], flankCons, maxGap))
    decreases e
  {
    if e > s && !Flank(mets[e - 1], flankCons, maxGap) {
      TrimEndMeaning(mets, s, e - 1, flankCons, maxGap);
    }
  }

  /** The trimmed block is the part of [s, e) from its first to its last
      flank column: None exactly when [s, e) has no flank column, and
      otherwise both ends are flank columns and every column cut off is not. */
  lemma SoftTrimMeaning(mets: seq<Metric>, b: (nat, nat), flankCons: real, maxGap: real)
    requires b.1 <= |mets|
    ensures SoftTrim(mets, b, flankCons, maxGap).None? <==>
              forall t :: b.0 <= t < b.1 ==> !Flank(mets[t], flankCons, maxGap)
    ensures SoftTrim(mets, b, flankCons, maxGap).Some? ==>
              var (s, e) := SoftTrim(mets, b, flankCons, maxGap).value;
              b.0 <= s < e <= b.1 &&
              Flank(mets[s], flankCons, maxGap) && Flank(mets[e - 1], flankCons, maxGap) &&
              (forall t :: b.0 <= t < s ==> !Flank(mets[t], flankCons, maxGap)) &&
              (forall t :: e <= t < b.1 ==> !Flank(mets[t], flankCons, maxGap))
  {
    var s := TrimStart(mets, b.0, b.1, flankCons, maxGap);
    TrimStartMeaning(mets, b.0, b.1, flankCons, maxGap);
    if s <= b.1 {
      TrimEndMeaning(mets, s, b.1, flankCons, maxGap);
    }
  }
}
