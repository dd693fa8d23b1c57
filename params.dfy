/** Translating classic Gblocks parameters into the filter's thresholds
    (gb_allowed_gap_to_max_gap and convert_gblocks_params_to_internal,
    gblock.py:246-270). */
module Params {
  import opened Msa

  /** Lower-cases the ASCII letters of s.  Python's str.lower also folds
      other scripts.  The only non-ASCII characters whose lower case holds
      an ASCII letter are U+0130 (to "i" and a combining dot) and the
      Kelvin sign (to "k"), and none of the six names compared against
      ("none", "half", "all", "auto", "mafft", "muscle") contains "i" or
      "k", so every keyword test comes out the same. */
  function Lower(s: string): (r: string)
    ensures |r| == |s|
  {
    seq(|s|, i requires 0 <= i < |s| =>
          if 'A' <= s[i] <= 'Z' then (s[i] as int - 'A' as int + 'a' as int) as char else s[i])
  }

  /** max(0.0, min(1.0, v)) */
  function Clamp01(v: real): (r: real)
    ensures 0.0 <= r <= 1.0
    ensures 0.0 <= v <= 1.0 ==> r == v
    ensures v < 0.0 ==> r == 0.0
    ensures v > 1.0 ==> r == 1.0
  {
    var lo := if v <= 1.0 then v else 1.0;
    if lo >= 0.0 then lo else 0.0
  }

  /** gb_allowed_gap_to_max_gap: "none", "half" and "all" in any case,
      otherwise the number the mode parses to, clamped to [0, 1], and 0.5
      when it does not parse.  parsed is float(mode.lower()): None when
      Python's float() raises. */
  function AllowedGapToMaxGap(mode: string, parsed: Option<real>): (r: real)
    ensures 0.0 <= r <= 1.0
  {
    var m := Lower(mode);
    if m == "none" then 0.0
    else if m == "half" then 0.5
    else if m == "all" then 1.0
    else if parsed.Some? then Clamp01(parsed.value)
    else 0.5
  }

  /** mode spells the lower-case word w in some mix of letter cases. */
  predicate CaseVariant(mode: string, w: string)
  {
    |mode| == |w| &&
    forall i :: 0 <= i < |w| ==>
      mode[i] == w[i] || ('a' <= w[i] <= 'z' && mode[i] as int == w[i] as int - 'a' as int + 'A' as int)
  }

  /** Lower-casing a case variant of a lower-case ASCII word gives the word. */
  lemma LowerOfVariant(mode: string, w: string)
    requires CaseVariant(mode, w)
    requires forall i :: 0 <= i < |w| ==> 'a' <= w[i] <= 'z'
    ensures Lower(mode) == w
  {
  }

  /** The keywords win over parsing, in every letter case. */
  lemma AllowedGapKeywords(mode: string, parsed: Option<real>)
    ensures CaseVariant(mode, "none") ==> AllowedGapToMaxGap(mode, parsed) == 0.0
    ensures CaseVariant(mode, "half") ==> AllowedGapToMaxGap(mode, parsed) == 0.5
    ensures CaseVariant(mode, "all") ==> AllowedGapToMaxGap(mode, parsed) == 1.0
  {
    if CaseVariant(mode, "none") {
      LowerOfVariant(mode, "none");
    }
    if CaseVariant(mode, "half") {
      LowerOfVariant(mode, "half");
    }
    if CaseVariant(mode, "all") {
      LowerOfVariant(mode, "all");
    }
  }

  /** A mode that is no keyword yields its clamped number, or 0.5 when it
      does not parse. */
  lemma AllowedGapNumbers(mode: string, parsed: Option<real>)
    requires Lower(mode) != "none" && Lower(mode) != "half" && Lower(mode) != "all"
    ensures parsed.None? ==> AllowedGapToMaxGap(mode, parsed) == 0.5
    ensures parsed.Some? && 0.0 <= parsed.value <= 1.0 ==> AllowedGapToMaxGap(mode, parsed) == parsed.value
    ensures parsed.Some? && parsed.value > 1.0 ==> AllowedGapToMaxGap(mode, parsed) == 1.0
    ensures parsed.Some? && parsed.value < 0.0 ==> AllowedGapToMaxGap(mode, parsed) == 0.0
  {
  }

  /** (min_block_len, max_gap, min_cons, flank_cons, max_noncons_run) */
  datatype Internal = Internal(
    minBlockLen: int,
    maxGap: real,
    minCons: real,
    flankCons: real,
    maxNonconsRun: int)

  function MaxInt(x: int, y: int): int
  {
    if x >= y then x else y
  }

  function MinInt(x: int, y: int): int
  {
    if x <= y then x else y
  }

  /** convert_gblocks_params_to_internal: Gblocks counts sequences, the
      filter uses ratios.  allowedGapParsed is float() of the lower-cased
      allowed-gap mode, None when it does not parse. */
  function ConvertGblocksParams(n: int, minConsCount: int, flankConsCount: int, maxNonconsRun: int,
                                minBlockLen: int, allowedGap: string, allowedGapParsed: Option<real>)
    : (r: Internal)
    ensures r.minBlockLen >= 1 && r.maxNonconsRun >= 0
    ensures 0.0 <= r.maxGap <= 1.0
    ensures 0.0 < r.minCons <= 1.0 && 0.0 < r.flankCons <= 1.0
  {
    var nn := MaxInt(1, n);
    var mc := MaxInt(1, MinInt(minConsCount, nn));
    var mf := MaxInt(1, MinInt(flankConsCount, nn));
    Ratio(mc, nn);
    Ratio(mf, nn);
    Internal(MaxInt(1, minBlockLen),
             AllowedGapToMaxGap(allowedGap, allowedGapParsed),
             mc as real / nn as real,
             mf as real / nn as real,
             MaxInt(0, maxNonconsRun))
  }

  lemma Ratio(a: int, b: int)
    requires 1 <= a <= b
    ensures 0.0 < a as real / b as real <= 1.0
  {
    var r := a as real / b as real;
    assert r * b as real == a as real;
  }

  /** With at least one sequence and counts between 1 and n, each ratio
      times n gives back its count, and the other numbers pass through. */
  lemma ConvertKeepsCounts(n: int, minConsCount: int, flankConsCount: int, maxNonconsRun: int,
                           minBlockLen: int, allowedGap: string, allowedGapParsed: Option<real>)
    requires 1 <= minConsCount <= n && 1 <= flankConsCount <= n
    requires minBlockLen >= 1 && maxNonconsRun >= 0
    ensures var r := ConvertGblocksParams(n, minConsCount, flankConsCount, maxNonconsRun,
                                          minBlockLen, allowedGap, allowedGapParsed);
            r.minCons * n as real == minConsCount as real &&
            r.flankCons * n as real == flankConsCount as real &&
            r.minBlockLen == minBlockLen && r.maxNonconsRun == maxNonconsRun
  {
  }

  /** Counts are clamped into [1, n] (and n to at least 1) first. */
  lemma ConvertClampsCounts(n: int, minConsCount: int, flankConsCount: int, maxNonconsRun: int,
                            minBlockLen: int, allowedGap: string, allowedGapParsed: Option<real>)
    ensures var r := ConvertGblocksParams(n, minConsCount, flankConsCount, maxNonconsRun,
                                          minBlockLen, allowedGap, allowedGapParsed);
            (n <= 1 ==> r.minCons == 1.0 && r.flankCons == 1.0) &&
            (minConsCount >= n >= 1 ==> r.minCons == 1.0) &&
            (flankConsCount >= n >= 1 ==> r.flankCons == 1.0) &&
            (n >= 1 && minConsCount <= 1 ==> r.minCons == 1.0 / n as real) &&
            (maxNonconsRun <= 0 ==> r.maxNonconsRun == 0) &&
            (minBlockLen <= 1 ==> r.minBlockLen == 1)
  {
  }

  /** The defaults for ten sequences: counts 9 and 14, a run of 8, blocks
      of 10 and no gaps allowed. */
  lemma ConvertDefaultsForTen(parsed: Option<real>)
    ensures ConvertGblocksParams(10, 9, 14, 8, 10, "None", parsed) == Internal(10, 0.0, 0.9, 1.0, 8)
  {
    AllowedGapKeywords("None", parsed);
  }
}
