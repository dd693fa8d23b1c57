/** Per-column statistics of an alignment (column_metrics, gblock.py:155-168).

    For every column: the gap ratio (gaps over sequences) and the
    conservation ratio (the count of the most frequent residue over the
    number of residues, 0 for a column of gaps only).  Ratios are exact
    rationals here; the source computes them in floating point. */
module Columns {
  import opened Msa

  /** {"gap_ratio": ..., "cons_ratio": ...} */
  datatype Metric = Metric(gapRatio: real, consRatio: real)

  /** Number of occurrences of c in xs. */
  function Count(xs: string, c: char): (r: nat)
    ensures r <= |xs|
  {
    if xs == [] then 0
    else Count(xs[..|xs| - 1], c) + (if xs[|xs| - 1] == c then 1 else 0)
  }

  function Max(x: nat, y: nat): nat
  {
    if x >= y then x else y
  }

  /** The largest count among the characters xs[0..k). */
  function MaxCountUpTo(xs: string, k: nat): nat
    requires k <= |xs|
  {
    if k == 0 then 0 else Max(MaxCountUpTo(xs, k - 1), Count(xs, xs[k - 1]))
  }

  /** max(cnt.values()): the count of a most frequent character of xs. */
  function Majority(xs: string): (r: nat)
    ensures xs != [] ==> exists k :: 0 <= k < |xs| && r == Count(xs, xs[k])
    ensures forall c :: Count(xs, c) <= r
  {
    MajorityBounds(xs, |xs|);
    forall c
      ensures Count(xs, c) <= MaxCountUpTo(xs, |xs|)
    {
      if Count(xs, c) > 0 {
        var k := Occurrence(xs, c);
        MajorityBounds(xs, |xs|);
      }
    }
    MaxCountUpTo(xs, |xs|)
  }

  /** The running maximum is one of the counts seen, and bounds them all. */
  lemma {:induction false} MajorityBounds(xs: string, k: nat)
    requires k <= |xs|
    ensures k > 0 ==> exists i :: 0 <= i < k && MaxCountUpTo(xs, k) == Count(xs, xs[i])
    ensures forall i :: 0 <= i < k ==> Count(xs, xs[i]) <= MaxCountUpTo(xs, k)
  {
    if k > 0 {
      MajorityBounds(xs, k - 1);
      if MaxCountUpTo(xs, k - 1) < Count(xs, xs[k - 1]) || k == 1 {
        assert MaxCountUpTo(xs, k) == Count(xs, xs[k - 1]);
      }
    }
  }

  /** A character that occurs has an index. */
  lemma {:induction false} Occurrence(xs: string, c: char) returns (k: nat)
    requires Count(xs, c) > 0
    ensures k < |xs| && xs[k] == c
    decreases |xs|
  {
    if xs[|xs| - 1] == c {
      k := |xs| - 1;
    } else {
      k := Occurrence(xs[..|xs| - 1], c);
    }
  }

  /** A character that does not occur counts 0. */
  lemma {:induction false} CountAbsent(xs: string, c: char)
    requires c !in xs
    ensures Count(xs, c) == 0
    decreases |xs|
  {
    if xs != [] {
      CountAbsent(xs[..|xs| - 1], c);
    }
  }

  /** col = [s[i] for s in aligned_seqs] */
  function Column(seqs: seq<string>, i: nat): (col: string)
    requires forall k :: 0 <= k < |seqs| ==> i < |seqs[k]|
    ensures |col| == |seqs|
  {
    seq(|seqs|, k requires 0 <= k < |seqs| => seqs[k][i])
  }

  /** The metrics of one column of n >= 1 characters. */
  function ColumnMetric(col: string): Metric
    requires |col| > 0
  {
    var non := Ungap(col);
    Metric(GapCount(col) as real / |col| as real,
           if non == [] then 0.0 else Majority(non) as real / |non| as real)
  }

  /** Every sequence is at least as long as the first one, so every column
      index below L is readable. */
  ghost predicate Readable(seqs: seq<string>)
  {
    |seqs| > 0 && forall k :: 0 <= k < |seqs| ==> |seqs[k]| >= |seqs[0]|
  }

  /** The list column_metrics returns: one metric per column of the first
      sequence's length. */
  function Metrics(seqs: seq<string>): (mets: seq<Metric>)
    requires Readable(seqs)
    ensures |mets| == |seqs[0]|
  {
    seq(|seqs[0]|, i requires 0 <= i < |seqs[0]| => ColumnMetric(Column(seqs, i)))
  }

  /** column_metrics (gblock.py:155-168). */
  method ColumnMetrics(seqs: seq<string>) returns (mets: seq<Metric>)
    requires Readable(seqs)
    ensures mets == Metrics(seqs)
  {
    var n := |seqs|;
    var L := |seqs[0]|;
    mets := [];
    for i := 0 to L
      invariant mets == Metrics(seqs)[..i]
    {
      var col := Column(seqs, i);
      var gaps := GapCount(col);
      var non := Ungap(col);
      var gapRatio := gaps as real / n as real;
      var consRatio;
      if non == [] {
        consRatio := 0.0;
      } else {
        var cnt := CountChars(non);
        var best := MaxValue(cnt, non);
        consRatio := best as real / |non| as real;
      }
      mets := mets + [Metric(gapRatio, consRatio)];
    }
  }

  /** cnt[c] = cnt.get(c, 0) + 1 for every c of non. */
  method CountChars(non: string) returns (cnt: map<char, nat>)
    ensures forall c :: c in cnt <==> c in non
    ensures forall c :: c in cnt ==> cnt[c] == Count(non, c)
  {
    cnt := map[];
    for k := 0 to |non|
      invariant forall c :: c in cnt <==> c in non[..k]
      invariant forall c :: c in cnt ==> cnt[c] == Count(non[..k], c)
    {
      var c := non[k];
      assert non[..k + 1][..k] == non[..k];
      forall d
        ensures Count(non[..k + 1], d) == Count(non[..k], d) + (if d == c then 1 else 0)
      {
      }
      if c !in cnt {
        CountAbsent(non[..k], c);
      }
      cnt := cnt[c := (if c in cnt then cnt[c] else 0) + 1];
    }
    assert non[..|non|] == non;
  }

  /** max(cnt.values()) over the counts of a non-empty string: the
      majority count. */
  method MaxValue(cnt: map<char, nat>, non: string) returns (best: nat)
    requires non != []
    requires forall c :: c in cnt <==> c in non
    requires forall c :: c in cnt ==> cnt[c] == Count(non, c)
    ensures best == Majority(non)
  {
    var keys := cnt.Keys;
    best := cnt[non[0]];
    keys := keys - {non[0]};
    ghost var seen := {non[0]};
    while keys != {}
      invariant keys + seen == cnt.Keys && keys !! seen
      invariant best in cnt.Values
      invariant forall c :: c in seen ==> cnt[c] <= best
      decreases |keys|
    {
      var c :| c in keys;
      if cnt[c] > best {
        best := cnt[c];
      }
      keys := keys - {c};
      seen := seen + {c};
    }
    var c0 :| c0 in cnt && cnt[c0] == best;
    var k :| 0 <= k < |non| && Majority(non) == Count(non, non[k]);
    assert non[k] in cnt;
  }

  // ---------------------------------------------------------------------
  // What the ratios mean
  // ---------------------------------------------------------------------

  /** a / b for 0 <= a <= b and b > 0: between 0 and 1, 0 only for a = 0,
      1 only for a = b. */
  lemma Ratio(a: nat, b: nat)
    requires 0 < b && a <= b
    ensures 0.0 <= a as real / b as real <= 1.0
    ensures a as real / b as real == 0.0 <==> a == 0
    ensures a as real / b as real == 1.0 <==> a == b
  {
    var r := a as real / b as real;
    assert r * b as real == a as real;
  }

  /** Both ratios lie in [0, 1]. */
  lemma MetricBounds(col: string)
    requires |col| > 0
    ensures 0.0 <= ColumnMetric(col).gapRatio <= 1.0
    ensures 0.0 <= ColumnMetric(col).consRatio <= 1.0
  {
    var non := Ungap(col);
    Ratio(GapCount(col), |col|);
    if non != [] {
      var k :| 0 <= k < |non| && Majority(non) == Count(non, non[k]);
      Ratio(Majority(non), |non|);
    }
  }

  /** The gap ratio is 1 exactly for a column of gaps only. */
  lemma GapRatioOneIffAllGaps(col: string)
    requires |col| > 0
    ensures ColumnMetric(col).gapRatio == 1.0 <==> AllGaps(col)
  {
    Ratio(GapCount(col), |col|);
    if AllGaps(col) {
      UngapOfAllGaps(col);
    }
    if GapCount(col) == |col| {
      UngapEmptyIsAllGaps(col);
    }
  }

  /** The conservation ratio is 0 exactly for a column of gaps only (any
      residue counts at least once). */
  lemma ConsRatioZeroIffAllGaps(col: string)
    requires |col| > 0
    ensures ColumnMetric(col).consRatio == 0.0 <==> AllGaps(col)
  {
    var non := Ungap(col);
    if AllGaps(col) {
      UngapOfAllGaps(col);
    }
    if non != [] {
      CountOfMember(non, 0);
      var k :| 0 <= k < |non| && Majority(non) == Count(non, non[k]);
      Ratio(Majority(non), |non|);
    } else {
      UngapEmptyIsAllGaps(col);
    }
  }

  lemma {:induction false} CountOfMember(xs: string, k: nat)
    requires k < |xs|
    ensures Count(xs, xs[k]) >= 1
    decreases |xs|
  {
    if k < |xs| - 1 {
      CountOfMember(xs[..|xs| - 1], k);
    }
  }

  /** All characters of xs are c. */
  predicate Uniform(xs: string, c: char)
  {
    forall k :: 0 <= k < |xs| ==> xs[k] == c
  }

  lemma {:induction false} CountAllIffUniform(xs: string, c: char)
    ensures Count(xs, c) == |xs| <==> Uniform(xs, c)
    decreases |xs|
  {
    if xs != [] {
      CountAllIffUniform(xs[..|xs| - 1], c);
    }
  }

  /** The conservation ratio is 1 exactly when the column has residues and
      they are all the same one. */
  lemma ConsRatioOneIffUniform(col: string)
    requires |col| > 0
    ensures ColumnMetric(col).consRatio == 1.0 <==>
              (Ungap(col) != [] && Uniform(Ungap(col), Ungap(col)[0]))
  {
    var non := Ungap(col);
    if non != [] {
      var k :| 0 <= k < |non| && Majority(non) == Count(non, non[k]);
      Ratio(Majority(non), |non|);
      if Uniform(non, non[0]) {
        CountAllIffUniform(non, non[0]);
      }
      if Majority(non) == |non| {
        CountAllIffUniform(non, non[k]);
        assert non[0] == non[k];
      }
    }
  }
}
