/** gblock_filter (gblock.py:207-234): keep the columns of the conserved
    blocks of an alignment. */
module Filter {
  import opened Msa
  import opened Columns
  import opened Masks

  /** The thresholds gblock_filter takes. */
  datatype FilterParams = FilterParams(
    minBlockLen: int,
    maxGap: real,
    minCons: real,
    flankCons: Option<real>,
    dropAllGapColumns: bool,
    maxNonconsRun: int)

  /** The residue strings of the entries. */
  function Residues(entries: seq<Entry>): (seqs: seq<string>)
    ensures |seqs| == |entries|
    ensures forall k :: 0 <= k < |entries| ==> seqs[k] == entries[k].residues
  {
    seq(|entries|, k requires 0 <= k < |entries| => entries[k].residues)
  }

  /** A column is conserved: few enough gaps and a frequent enough residue. */
  predicate Conserved(m: Metric, maxGap: real, minCons: real)
  {
    m.gapRatio <= maxGap && m.consRatio >= minCons
  }

  /** The mask of conserved columns, with short inner runs of the others
      promoted when maxNonconsRun is positive. */
  function FilterMask(mets: seq<Metric>, p: FilterParams): (mask: seq<bool>)
    ensures |mask| == |mets|
  {
    var mask := seq(|mets|, i requires 0 <= i < |mets| => Conserved(mets[i], p.maxGap, p.minCons));
    if p.maxNonconsRun > 0 then Absorbed(mask, p.maxNonconsRun) else mask
  }

  /** Block b lies inside one of blocks. */
  ghost predicate Inside(blocks: seq<(nat, nat)>, x: (nat, nat))
  {
    exists a :: 0 <= a < |blocks| && blocks[a].0 <= x.0 && x.1 <= blocks[a].1
  }

  /** [tb for b in blocks if (tb := soft_trim_block(b, ...)) and
      tb[1] - tb[0] >= min_block_len] */
  function TrimAll(mets: seq<Metric>, blocks: seq<(nat, nat)>, flankCons: real, maxGap: real, minLen: int)
    : (r: seq<(nat, nat)>)
    requires forall b :: b in blocks ==> b.1 <= |mets|
    ensures |r| <= |blocks|
  {
    if blocks == [] then []
    else
      var rest := TrimAll(mets, blocks[..|blocks| - 1], flankCons, maxGap, minLen);
      var tb := SoftTrim(mets, blocks[|blocks| - 1], flankCons, maxGap);
      if tb.Some? && tb.value.1 - tb.value.0 >= minLen then rest + [tb.value] else rest
  }

  /** Trimmed blocks are non-empty, long enough, and each lies inside an
      original block. */
  lemma {:induction false} TrimAllInside(mets: seq<Metric>, blocks: seq<(nat, nat)>, flankCons: real, maxGap: real, minLen: int)
    requires forall b :: b in blocks ==> b.1 <= |mets|
    ensures forall x :: x in TrimAll(mets, blocks, flankCons, maxGap, minLen) ==>
              x.0 < x.1 && x.1 - x.0 >= minLen && Inside(blocks, x)
  {
    if blocks != [] {
      var n := |blocks|;
      var init := blocks[..n - 1];
      TrimAllInside(mets, init, flankCons, maxGap, minLen);
      var rest := TrimAll(mets, init, flankCons, maxGap, minLen);
      forall x | x in rest
        ensures Inside(blocks, x)
      {
        var a :| 0 <= a < |init| && init[a].0 <= x.0 && x.1 <= init[a].1;
        assert blocks[a] == init[a];
      }
      var tb := SoftTrim(mets, blocks[n - 1], flankCons, maxGap);
      if tb.Some? {
        SoftTrimMeaning(mets, blocks[n - 1], flankCons, maxGap);
        assert Inside(blocks, tb.value) by {
          assert blocks[n - 1].0 <= tb.value.0 && tb.value.1 <= blocks[n - 1].1;
        }
      }
    }
  }

  /** Trimming keeps the blocks in column order. */
  lemma {:induction false} TrimAllAscending(mets: seq<Metric>, blocks: seq<(nat, nat)>, flankCons: real, maxGap: real, minLen: int)
    requires forall b :: b in blocks ==> b.1 <= |mets|
    requires Ascending(blocks)
    ensures Ascending(TrimAll(mets, blocks, flankCons, maxGap, minLen))
  {
    if blocks != [] {
      var n := |blocks|;
      var init := blocks[..n - 1];
      TrimAllAscending(mets, init, flankCons, maxGap, minLen);
      TrimAllInside(mets, init, flankCons, maxGap, minLen);
      var rest := TrimAll(mets, init, flankCons, maxGap, minLen);
      var tb := SoftTrim(mets, blocks[n - 1], flankCons, maxGap);
      if tb.Some? && tb.value.1 - tb.value.0 >= minLen {
        SoftTrimMeaning(mets, blocks[n - 1], flankCons, maxGap);
        var r := rest + [tb.value];
        assert blocks[n - 1].0 <= tb.value.0;
        forall a, b | 0 <= a < b < |r|
          ensures r[a].1 < r[b].0
        {
          if b == |rest| {
            assert r[a] in rest;
            var c :| 0 <= c < |init| && init[c].0 <= r[a].0 && r[a].1 <= init[c].1;
            assert blocks[c] == init[c];
          }
        }
      }
    }
  }

  /** keep.extend(range(s, e)) for every block, in order. */
  function Ranges(blocks: seq<(nat, nat)>): seq<nat>
  {
    if blocks == [] then []
    else
      var b := blocks[|blocks| - 1];
      Ranges(blocks[..|blocks| - 1]) + seq(if b.1 >= b.0 then b.1 - b.0 else 0, t requires t >= 0 => b.0 + t)
  }

  /** A column is in the ranges exactly when a block holds it. */
  lemma {:induction false} RangesMembers(blocks: seq<(nat, nat)>)
    ensures forall x: nat :: x in Ranges(blocks) <==> Covered(blocks, x)
  {
    if blocks != [] {
      var n := |blocks|;
      var init := blocks[..n - 1];
      var b := blocks[n - 1];
      RangesMembers(init);
      var tail := seq(if b.1 >= b.0 then b.1 - b.0 else 0, t requires t >= 0 => b.0 + t);
      assert Ranges(blocks) == Ranges(init) + tail;
      forall x: nat
        ensures x in Ranges(blocks) <==> Covered(blocks, x)
      {
        if x in tail {
          var i :| 0 <= i < |tail| && tail[i] == x;
          assert b in blocks && b.0 <= x < b.1;
        }
        if Covered(blocks, x) {
          var c :| c in blocks && c.0 <= x < c.1;
          if c == b {
            assert tail[x - b.0] == x;
          } else {
            var a :| 0 <= a < n && blocks[a] == c;
            assert init[a] == c;
            assert Covered(init, x);
          }
        }
        if Covered(init, x) {
          var c :| c in init && c.0 <= x < c.1;
          assert c in blocks;
        }
      }
    }
  }

  /** Every column of the ranges is below a bound on the block ends. */
  lemma RangesBelow(blocks: seq<(nat, nat)>, bound: nat)
    requires forall b :: b in blocks ==> b.1 <= bound
    ensures forall t :: 0 <= t < |Ranges(blocks)| ==> Ranges(blocks)[t] < bound
  {
    RangesMembers(blocks);
    forall t | 0 <= t < |Ranges(blocks)|
      ensures Ranges(blocks)[t] < bound
    {
      assert Covered(blocks, Ranges(blocks)[t]);
    }
  }

  /** Strictly increasing column numbers. */
  ghost predicate Increasing(keep: seq<nat>)
  {
    forall a, b :: 0 <= a < b < |keep| ==> keep[a] < keep[b]
  }

  /** The ranges of blocks in column order run strictly upwards. */
  lemma {:induction false} RangesIncreasing(blocks: seq<(nat, nat)>)
    requires Ascending(blocks)
    ensures Increasing(Ranges(blocks))
  {
    if blocks != [] {
      var n := |blocks|;
      var init := blocks[..n - 1];
      var b := blocks[n - 1];
      RangesIncreasing(init);
      RangesMembers(init);
      var tail := seq(if b.1 >= b.0 then b.1 - b.0 else 0, t requires t >= 0 => b.0 + t);
      var r := Ranges(blocks);
      assert r == Ranges(init) + tail;
      forall x | x in Ranges(init)
        ensures x < b.0
      {
        var c :| c in init && c.0 <= x < c.1;
        var a :| 0 <= a < n - 1 && init[a] == c;
        assert blocks[a] == c;
      }
      forall i, j | 0 <= i < j < |r|
        ensures r[i] < r[j]
      {
        if j >= |Ranges(init)| && i < |Ranges(init)| {
          assert r[i] in Ranges(init);
        }
      }
    }
  }

  /** [i for i in keep if any(seq[i] != '-' for seq in seqs)] */
  function DropAllGapColumns(keep: seq<nat>, seqs: seq<string>): (r: seq<nat>)
    requires Readable(seqs)
    requires forall t :: 0 <= t < |keep| ==> keep[t] < |seqs[0]|
    ensures forall t :: 0 <= t < |r| ==> r[t] in keep && !AllGaps(Column(seqs, r[t]))
    ensures forall i :: i in keep && !AllGaps(Column(seqs, i)) ==> i in r
  {
    if keep == [] then []
    else
      var i := keep[|keep| - 1];
      var rest := DropAllGapColumns(keep[..|keep| - 1], seqs);
      if !AllGaps(Column(seqs, i)) then rest + [i] else rest
  }

  /** Dropping columns keeps the rest in order. */
  lemma {:induction false} DropIncreasing(keep: seq<nat>, seqs: seq<string>)
    requires Readable(seqs)
    requires forall t :: 0 <= t < |keep| ==> keep[t] < |seqs[0]|
    requires Increasing(keep)
    ensures Increasing(DropAllGapColumns(keep, seqs))
  {
    if keep != [] {
      var init := keep[..|keep| - 1];
      DropIncreasing(init, seqs);
      var rest := DropAllGapColumns(init, seqs);
      var r := DropAllGapColumns(keep, seqs);
      forall a, b | 0 <= a < b < |r|
        ensures r[a] < r[b]
      {
        if b == |rest| {
          assert r[a] in init;
        }
      }
    }
  }

  /** The blocks that survive masking, block finding and, when flankCons
      is given, trimming. */
  function FinalBlocks(mets: seq<Metric>, p: FilterParams): (bs: seq<(nat, nat)>)
    ensures forall b :: b in bs ==> b.1 <= |mets|
    ensures Ascending(bs)
  {
    var mask := FilterMask(mets, p);
    BlocksMeaning(mask, p.minBlockLen);
    var blocks := Blocks(mask, p.minBlockLen);
    if p.flankCons.Some? then
      TrimAllInside(mets, blocks, p.flankCons.value, p.maxGap, p.minBlockLen);
      TrimAllAscending(mets, blocks, p.flankCons.value, p.maxGap, p.minBlockLen);
      var bs := TrimAll(mets, blocks, p.flankCons.value, p.maxGap, p.minBlockLen);
      assert forall b :: b in bs ==> b.1 <= |mets| by {
        forall b | b in bs
          ensures b.1 <= |mets|
        {
          var a :| 0 <= a < |blocks| && blocks[a].0 <= b.0 && b.1 <= blocks[a].1;
        }
      }
      bs
    else
      blocks
  }

  /** The columns gblock_filter keeps, in order. */
  function KeptColumns(seqs: seq<string>, p: FilterParams): (keep: seq<nat>)
    requires Readable(seqs)
    ensures forall t :: 0 <= t < |keep| ==> keep[t] < |seqs[0]|
  {
    var mets := Metrics(seqs);
    var bs := FinalBlocks(mets, p);
    if bs == [] then []
    else
      RangesBelow(bs, |seqs[0]|);
      var keep := Ranges(bs);
      if p.dropAllGapColumns then DropAllGapColumns(keep, seqs) else keep
  }

  /** "".join(seq[i] for i in keep) */
  function Project(s: string, keep: seq<nat>): (r: string)
    requires forall t :: 0 <= t < |keep| ==> keep[t] < |s|
    ensures |r| == |keep|
  {
    seq(|keep|, t requires 0 <= t < |keep| => s[keep[t]])
  }

  lemma EqualLengthsReadable(entries: seq<Entry>)
    requires AllEqualLength(entries)
    ensures Readable(Residues(entries))
  {
  }

  /** What gblock_filter returns. */
  function GblockFilterResult(entries: seq<Entry>, p: FilterParams): (r: Result<seq<Entry>>)
  {
    if !AllEqualLength(entries) then Err(UnequalLengths)
    else
      EqualLengthsReadable(entries);
      Ok(Rows(entries, KeptColumns(Residues(entries), p)))
  }

  /** [(h, "".join(seq[i] for i in keep)) for h, seq in entries] */
  function Rows(entries: seq<Entry>, keep: seq<nat>): (out: seq<Entry>)
    requires forall k, t :: 0 <= k < |entries| && 0 <= t < |keep| ==> keep[t] < |entries[k].residues|
    ensures |out| == |entries|
  {
    seq(|entries|, k requires 0 <= k < |entries| =>
          Entry(entries[k].header, Project(entries[k].residues, keep)))
  }

  /** Kept columns index every row of an alignment. */
  lemma KeptColumnsFit(entries: seq<Entry>, p: FilterParams)
    requires AllEqualLength(entries)
    ensures Readable(Residues(entries))
    ensures forall k, t :: 0 <= k < |entries| && 0 <= t < |KeptColumns(Residues(entries), p)| ==>
              KeptColumns(Residues(entries), p)[t] < |entries[k].residues|
  {
  }

  /** gblock_filter. */
  method GblockFilter(entries: seq<Entry>, p: FilterParams) returns (r: Result<seq<Entry>>)
    ensures r == GblockFilterResult(entries, p)
  {
    if !AllEqualLength(entries) {
      return Err(UnequalLengths);
    }
    var seqs := Residues(entries);
    KeptColumnsFit(entries, p);
    var mets := ColumnMetrics(seqs);
    var blocks := SelectBlocks(mets, p);
    if blocks == [] {
      r := Ok(seq(|entries|, k requires 0 <= k < |entries| => Entry(entries[k].header, "")));
      assert KeptColumns(seqs, p) == [];
      assert r.value == Rows(entries, []);
      return;
    }
    var keep := KeepColumns(seqs, mets, blocks, p);
    var out := BuildRows(entries, keep);
    return Ok(out);
  }

  /** keep: the columns of the blocks, without the all-gap ones when
      dropAllGapColumns is set. */
  method KeepColumns(seqs: seq<string>, mets: seq<Metric>, blocks: seq<(nat, nat)>, p: FilterParams)
    returns (keep: seq<nat>)
    requires Readable(seqs) && mets == Metrics(seqs)
    requires blocks == FinalBlocks(mets, p) && blocks != []
    ensures keep == KeptColumns(seqs, p)
  {
    keep := ExtendRanges(blocks);
    RangesBelow(blocks, |seqs[0]|);
    if p.dropAllGapColumns {
      keep := DropAllGapColumns(keep, seqs);
    }
  }

  /** out.append((h, "".join(seq[i] for i in keep))) for every entry. */
  method BuildRows(entries: seq<Entry>, keep: seq<nat>) returns (out: seq<Entry>)
    requires forall k, t :: 0 <= k < |entries| && 0 <= t < |keep| ==> keep[t] < |entries[k].residues|
    ensures out == Rows(entries, keep)
  {
    out := [];
    for k := 0 to |entries|
      invariant out == Rows(entries, keep)[..k]
    {
      out := out + [Entry(entries[k].header, Project(entries[k].residues, keep))];
    }
  }

  /** The mask, the blocks found in it and, when flankCons is given, the
      trimmed blocks. */
  method SelectBlocks(mets: seq<Metric>, p: FilterParams) returns (blocks: seq<(nat, nat)>)
    ensures blocks == FinalBlocks(mets, p)
  {
    var mask := seq(|mets|, i requires 0 <= i < |mets| => Conserved(mets[i], p.maxGap, p.minCons));
    if p.maxNonconsRun > 0 {
      mask := AllowShortNonconservedRuns(mask, p.maxNonconsRun);
    }
    blocks := FindBlocks(mask, p.minBlockLen);
    assert mask == FilterMask(mets, p);
    BlocksMeaning(mask, p.minBlockLen);
    if p.flankCons.Some? {
      blocks := TrimBlocks(mets, blocks, p.flankCons.value, p.maxGap, p.minBlockLen);
    }
  }

  /** The list comprehension over soft_trim_block. */
  method TrimBlocks(mets: seq<Metric>, blocks: seq<(nat, nat)>, flankCons: real, maxGap: real, minLen: int)
    returns (r: seq<(nat, nat)>)
    requires forall b :: b in blocks ==> b.1 <= |mets|
    ensures r == TrimAll(mets, blocks, flankCons, maxGap, minLen)
  {
    r := [];
    for i := 0 to |blocks|
      invariant r == TrimAll(mets, blocks[..i], flankCons, maxGap, minLen)
    {
      assert blocks[..i + 1][..i] == blocks[..i];
      var tb := SoftTrimBlock(blocks[i], mets, flankCons, maxGap);
      if tb.Some? && tb.value.1 - tb.value.0 >= minLen {
        r := r + [tb.value];
      }
    }
    assert blocks[..|blocks|] == blocks;
  }

  /** for s, e in blocks: keep.extend(range(s, e)) */
  method ExtendRanges(blocks: seq<(nat, nat)>) returns (keep: seq<nat>)
    ensures keep == Ranges(blocks)
  {
    keep := [];
    for i := 0 to |blocks|
      invariant keep == Ranges(blocks[..i])
    {
      assert blocks[..i + 1][..i] == blocks[..i];
      var (s, e) := blocks[i];
      var k := s;
      ghost var before := keep;
      while k < e
        invariant s <= k <= e || (e < s && k == s)
        invariant keep == before + seq(k - s, t requires t >= 0 => s + t)
        decreases e - k
      {
        keep := keep + [k];
        k := k + 1;
      }
    }
    assert blocks[..|blocks|] == blocks;
  }

  // ---------------------------------------------------------------------
  // What gblock_filter promises
  // ---------------------------------------------------------------------

  /** The filter rejects exactly the inputs that are not an alignment: no
      entries or rows of different lengths. */
  lemma FilterRejectsUnaligned(entries: seq<Entry>, p: FilterParams)
    ensures GblockFilterResult(entries, p).Err? <==>
              (|entries| == 0 ||
               exists k :: 0 <= k < |entries| && |entries[k].residues| != |entries[0].residues|)
    ensures GblockFilterResult(entries, p).Err? ==> GblockFilterResult(entries, p).error == UnequalLengths
  {
  }

  /** On an alignment, every output row keeps its header and holds the
      same columns, in the same increasing order, of its input row; so all
      output rows have one length. */
  lemma FilterKeepsColumns(entries: seq<Entry>, p: FilterParams) returns (keep: seq<nat>)
    requires AllEqualLength(entries)
    ensures GblockFilterResult(entries, p).Ok?
    ensures |GblockFilterResult(entries, p).value| == |entries|
    ensures Increasing(keep)
    ensures forall t :: 0 <= t < |keep| ==> keep[t] < |entries[0].residues|
    ensures |keep| <= |entries[0].residues|
    ensures forall k :: 0 <= k < |entries| ==>
              GblockFilterResult(entries, p).value[k].header == entries[k].header &&
              |GblockFilterResult(entries, p).value[k].residues| == |keep| &&
              forall t :: 0 <= t < |keep| ==>
                GblockFilterResult(entries, p).value[k].residues[t] == entries[k].residues[keep[t]]
  {
    var seqs := Residues(entries);
    KeptColumnsFit(entries, p);
    keep := KeptColumns(seqs, p);
    KeptIncreasing(seqs, p);
    IncreasingBound(keep, |entries[0].residues|);
    var out := Rows(entries, keep);
    assert GblockFilterResult(entries, p) == Ok(out);
    forall k | 0 <= k < |entries|
      ensures out[k].header == entries[k].header && out[k].residues == Project(entries[k].residues, keep)
    {
    }
  }

  /** Strictly increasing columns below L are at most L many. */
  lemma IncreasingBound(keep: seq<nat>, L: nat)
    requires Increasing(keep)
    requires forall t :: 0 <= t < |keep| ==> keep[t] < L
    ensures |keep| <= L
  {
    if keep != [] {
      IncreasingFromIndex(keep, |keep| - 1);
    }
  }

  lemma {:induction false} IncreasingFromIndex(keep: seq<nat>, t: nat)
    requires Increasing(keep) && t < |keep|
    ensures keep[t] >= t
  {
    if t > 0 {
      IncreasingFromIndex(keep, t - 1);
    }
  }

  /** When no block survives, every row keeps its header and loses all its
      residues. */
  lemma FilterNoBlocks(entries: seq<Entry>, p: FilterParams)
    requires AllEqualLength(entries)
    requires FinalBlocks(Metrics(Residues(entries)), p) == []
    ensures GblockFilterResult(entries, p).Ok?
    ensures |GblockFilterResult(entries, p).value| == |entries|
    ensures forall k :: 0 <= k < |entries| ==>
              GblockFilterResult(entries, p).value[k] == Entry(entries[k].header, "")
  {
    EqualLengthsReadable(entries);
    assert KeptColumns(Residues(entries), p) == [];
  }

  /** The kept columns run strictly upwards. */
  lemma KeptIncreasing(seqs: seq<string>, p: FilterParams)
    requires Readable(seqs)
    ensures Increasing(KeptColumns(seqs, p))
  {
    var bs := FinalBlocks(Metrics(seqs), p);
    if bs != [] {
      RangesIncreasing(bs);
      RangesBelow(bs, |seqs[0]|);
      if p.dropAllGapColumns {
        DropIncreasing(Ranges(bs), seqs);
      }
    }
  }

  /** Without trimming and dropping, column i is kept exactly when it lies
      in a run of masked columns at least minBlockLen long. */
  lemma FilterKeepsLongRuns(entries: seq<Entry>, p: FilterParams, i: nat)
    requires AllEqualLength(entries)
    requires p.flankCons.None? && !p.dropAllGapColumns
    requires i < |entries[0].residues|
    ensures i in KeptColumns(Residues(entries), p) <==>
              InLongRun(FilterMask(Metrics(Residues(entries)), p), p.minBlockLen, i)
  {
    var seqs := Residues(entries);
    var mask := FilterMask(Metrics(seqs), p);
    BlocksMeaning(mask, p.minBlockLen);
    RangesMembers(Blocks(mask, p.minBlockLen));
  }

  /** A kept column is a column of a final block, and not all gaps when
      dropAllGapColumns is set. */
  lemma KeptInBlocks(seqs: seq<string>, p: FilterParams, i: nat)
    requires Readable(seqs)
    requires i in KeptColumns(seqs, p)
    ensures i in Ranges(FinalBlocks(Metrics(seqs), p))
    ensures p.dropAllGapColumns ==> !AllGaps(Column(seqs, i))
  {
    var bs := FinalBlocks(Metrics(seqs), p);
    RangesBelow(bs, |seqs[0]|);
    if p.dropAllGapColumns {
      var t :| 0 <= t < |KeptColumns(seqs, p)| && KeptColumns(seqs, p)[t] == i;
    }
  }

  /** Every column of a final block is in the mask. */
  lemma BlockColumnsMasked(mets: seq<Metric>, p: FilterParams, i: nat)
    requires i in Ranges(FinalBlocks(mets, p))
    ensures i < |mets| && FilterMask(mets, p)[i]
  {
    var mask := FilterMask(mets, p);
    var blocks := Blocks(mask, p.minBlockLen);
    var bs := FinalBlocks(mets, p);
    BlocksMeaning(mask, p.minBlockLen);
    RangesMembers(bs);
    var c :| c in bs && c.0 <= i < c.1;
    if p.flankCons.Some? {
      TrimAllInside(mets, blocks, p.flankCons.value, p.maxGap, p.minBlockLen);
      var a :| 0 <= a < |blocks| && blocks[a].0 <= c.0 && c.1 <= blocks[a].1;
      assert IsBlock(mask, p.minBlockLen, blocks[a]);
    } else {
      assert IsBlock(mask, p.minBlockLen, c);
    }
  }

  /** Every kept column is in the mask; with no run promotion that means it
      is conserved, and with dropAllGapColumns it is not all gaps. */
  lemma FilterKeepsMasked(entries: seq<Entry>, p: FilterParams, i: nat)
    requires AllEqualLength(entries)
    requires i in KeptColumns(Residues(entries), p)
    ensures i < |entries[0].residues|
    ensures FilterMask(Metrics(Residues(entries)), p)[i]
    ensures p.maxNonconsRun <= 0 ==> Conserved(Metrics(Residues(entries))[i], p.maxGap, p.minCons)
    ensures p.dropAllGapColumns ==> !AllGaps(Column(Residues(entries), i))
  {
    var seqs := Residues(entries);
    var mets := Metrics(seqs);
    KeptInBlocks(seqs, p, i);
    BlockColumnsMasked(mets, p, i);
  }
}
