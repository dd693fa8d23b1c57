/** Gap patterns of the center-star aligner (gblock.py:83-115).

    A gap pattern of a base string of length L is a list of L + 1 counts:
    entry k is the number of gap columns placed right before base residue
    k, and entry L the number of gap columns after the last one.
    `GapPatternFromAlignedBase` reads such a pattern off an aligned copy of
    the base, `MergeMax` combines two patterns column-wise, and
    `ExpandToPattern` re-spaces an aligned string so that its columns line
    up with a (merged) pattern. */
module Patterns {
  import opened Msa

  // ---------------------------------------------------------------------
  // gap_pattern_from_aligned_base (gblock.py:83-91)
  // ---------------------------------------------------------------------

  /** The counters of the scan: the pattern built so far, the index of the
      next base residue and the length of the current run of gaps. */
  datatype PatState = PatState(gaps: seq<nat>, iBase: nat, run: nat)

  /** One character of the scan (gblock.py:85-89): a gap extends the run; a
      residue credits the run to its own slot (only while that slot lies
      before L) and starts a new run. */
  function PatStep(L: nat, st: PatState, ch: char): (r: PatState)
    requires |st.gaps| == L + 1
    ensures |r.gaps| == L + 1
  {
    if ch == GAP then st.(run := st.run + 1)
    else
      var gaps := if st.iBase < L then st.gaps[st.iBase := st.gaps[st.iBase] + st.run] else st.gaps;
      PatState(gaps, st.iBase + 1, 0)
  }

  /** The counters after scanning all of `s`, starting from L + 1 zeros. */
  function PatScan(L: nat, s: string): (r: PatState)
    ensures |r.gaps| == L + 1
  {
    if s == [] then PatState(seq(L + 1, _ => 0), 0, 0)
    else PatStep(L, PatScan(L, s[..|s| - 1]), s[|s| - 1])
  }

  /** The pattern gap_pattern_from_aligned_base returns: the scan's counts,
      with the final run added to slot L. */
  function GapPattern(base: string, alnBase: string): (p: seq<nat>)
    ensures |p| == |base| + 1
  {
    var st := PatScan(|base|, alnBase);
    st.gaps[|base| := st.gaps[|base|] + st.run]
  }

  /** gap_pattern_from_aligned_base: the counts are kept in an array of
      L + 1 slots updated in place. */
  method GapPatternFromAlignedBase(base: string, alnBase: string) returns (p: seq<nat>)
    ensures p == GapPattern(base, alnBase)
  {
    var L := |base|;
    var gaps := new nat[L + 1](_ => 0);
    var iBase, run := 0, 0;
    for k := 0 to |alnBase|
      invariant PatScan(L, alnBase[..k]) == PatState(gaps[..], iBase, run)
    {
      assert alnBase[..k + 1][..k] == alnBase[..k];
      var ch := alnBase[k];
      if ch == GAP {
        run := run + 1;
      } else {
        if iBase < L {
          gaps[iBase] := gaps[iBase] + run;
        }
        run := 0;
        iBase := iBase + 1;
      }
    }
    assert alnBase[..|alnBase|] == alnBase;
    gaps[L] := gaps[L] + run;
    p := gaps[..];
  }

  /** The string a pattern describes: for each residue of `t`, its count of
      gaps and then the residue. */
  function Weave(q: seq<nat>, t: string): (r: string)
    requires |q| == |t|
  {
    if q == [] then []
    else Weave(q[..|q| - 1], t[..|t| - 1]) + Dashes(q[|q| - 1]) + [t[|t| - 1]]
  }

  /** The aligned base spelled out from its pattern: gaps and residues for
      slots 0..L-1, then the trailing gaps of slot L. */
  function Rebuild(p: seq<nat>, base: string): (r: string)
    requires |p| == |base| + 1
  {
    Weave(p[..|base|], base) + Dashes(p[|base|])
  }

  lemma DashesSnoc(n: nat)
    ensures Dashes(n) + [GAP] == Dashes(n + 1)
  {
  }

  /** What the counters mean after scanning `s` whose residues fit in L
      slots: slots before iBase hold the gaps before each residue, later
      slots are still zero, and the run is the trailing gaps. */
  lemma {:induction false} PatScanMeaning(L: nat, s: string)
    requires NonGapCount(s) <= L
    ensures var st := PatScan(L, s);
      st.iBase == NonGapCount(s) &&
      (forall k :: st.iBase <= k <= L ==> st.gaps[k] == 0) &&
      s == Weave(st.gaps[..st.iBase], Ungap(s)) + Dashes(st.run)
    decreases |s|
  {
    if s != [] {
      var s', c := s[..|s| - 1], s[|s| - 1];
      assert s == s' + [c];
      UngapSnoc(s', c);
      PatScanMeaning(L, s');
      var st' := PatScan(L, s');
      var st := PatScan(L, s);
      if c == GAP {
        assert st == st'.(run := st'.run + 1);
        DashesSnoc(st'.run);
        var w := Weave(st'.gaps[..st'.iBase], Ungap(s'));
        assert s == (w + Dashes(st'.run)) + [GAP];
        assert (w + Dashes(st'.run)) + [GAP] == w + (Dashes(st'.run) + [GAP]);
        assert Ungap(s) == Ungap(s');
        assert st.gaps[..st.iBase] == st'.gaps[..st'.iBase];
        assert s == Weave(st.gaps[..st.iBase], Ungap(s)) + Dashes(st.run);
      } else {
        assert st.gaps == st'.gaps[st'.iBase := st'.run];
        assert st.gaps[..st.iBase][..st'.iBase] == st'.gaps[..st'.iBase];
        assert Ungap(s)[..st'.iBase] == Ungap(s');
        assert Dashes(st.run) == [];
      }
    }
  }

  /** Round trip: the pattern of an aligned copy of `base` determines that
      copy, i.e. spelling the pattern out around `base` gives it back. */
  lemma GapPatternRoundTrip(base: string, alnBase: string)
    requires Ungap(alnBase) == base
    ensures Rebuild(GapPattern(base, alnBase), base) == alnBase
  {
    var L := |base|;
    PatScanMeaning(L, alnBase);
    var st := PatScan(L, alnBase);
    var p := GapPattern(base, alnBase);
    assert p[..L] == st.gaps[..L];
    assert p[L] == st.run;
  }

  /** Sum of a pattern's counts. */
  function Sum(p: seq<nat>): nat
  {
    if p == [] then 0 else Sum(p[..|p| - 1]) + p[|p| - 1]
  }

  lemma {:induction false} WeaveGaps(q: seq<nat>, t: string)
    requires |q| == |t| && GAP !in t
    ensures GapCount(Weave(q, t)) == Sum(q)
    decreases |q|
  {
    if q != [] {
      var q', t' := q[..|q| - 1], t[..|t| - 1];
      WeaveGaps(q', t');
      GapCountAppend(Weave(q', t'), Dashes(q[|q| - 1]));
      GapCountAppend(Weave(q', t') + Dashes(q[|q| - 1]), [t[|t| - 1]]);
      GapCountDashes(q[|q| - 1]);
      assert t[|t| - 1] in t;
      assert [t[|t| - 1]][..0] == [];
    }
  }

  lemma {:induction false} GapCountAppend(s: string, t: string)
    ensures GapCount(s + t) == GapCount(s) + GapCount(t)
    decreases |t|
  {
    if t == [] {
      assert s + t == s;
    } else {
      var t' := t[..|t| - 1];
      assert (s + t)[..|s + t| - 1] == s + t';
      GapCountAppend(s, t');
    }
  }

  lemma {:induction false} GapCountDashes(n: nat)
    ensures GapCount(Dashes(n)) == n
    decreases n
  {
    if n > 0 {
      assert Dashes(n)[..n - 1] == Dashes(n - 1);
      GapCountDashes(n - 1);
    }
  }

  lemma SumSplit(p: seq<nat>)
    requires p != []
    ensures Sum(p) == Sum(p[..|p| - 1]) + p[|p| - 1]
  {
  }

  /** Zero counts past position i add nothing to the sum. */
  lemma {:induction false} SumZeroTail(q: seq<nat>, i: nat)
    requires i <= |q|
    requires forall k :: i <= k < |q| ==> q[k] == 0
    ensures Sum(q) == Sum(q[..i])
    decreases |q|
  {
    if |q| == i {
      assert q[..i] == q;
    } else {
      var q' := q[..|q| - 1];
      assert q'[..i] == q[..i];
      SumZeroTail(q', i);
    }
  }

  /** The counts of the pattern add up to the gaps of the aligned base,
      whenever it has at most L residues: only where the gaps lie matters,
      not which residues sit between them. */
  lemma GapPatternCountsGaps(base: string, alnBase: string)
    requires NonGapCount(alnBase) <= |base|
    ensures Sum(GapPattern(base, alnBase)) == GapCount(alnBase)
  {
    var L := |base|;
    PatScanMeaning(L, alnBase);
    var st := PatScan(L, alnBase);
    var p := GapPattern(base, alnBase);
    var u := Ungap(alnBase);
    UngapIdempotent(alnBase);
    UngapGapFree(u);
    var q := st.gaps[..st.iBase];
    WeaveGaps(q, u);
    GapCountAppend(Weave(q, u), Dashes(st.run));
    GapCountDashes(st.run);
    SumZeroTail(st.gaps, st.iBase);
    SumSplit(p);
    SumSplit(st.gaps);
    assert p[..L] == st.gaps[..L];
  }

  lemma {:induction false} UngapIdempotent(s: string)
    ensures Ungap(Ungap(s)) == Ungap(s)
    decreases |s|
  {
    if s != [] {
      var s', c := s[..|s| - 1], s[|s| - 1];
      UngapIdempotent(s');
      UngapAppend(Ungap(s'), if c == GAP then [] else [c]);
      assert [c][..0] == [];
    }
  }

  lemma {:induction false} UngapGapFree(s: string)
    requires Ungap(s) == s
    ensures GAP !in s
    decreases |s|
  {
    if s != [] {
      var s', c := s[..|s| - 1], s[|s| - 1];
      assert |Ungap(s')| <= |s'|;
      assert c != GAP;
      assert Ungap(s') == s';
      UngapGapFree(s');
    }
  }

  // ---------------------------------------------------------------------
  // merge_gap_patterns_max (gblock.py:93-99)
  // ---------------------------------------------------------------------

  /** p[i], or 0 past the end of p. */
  function At(p: seq<nat>, i: int): nat
  {
    if 0 <= i < |p| then p[i] else 0
  }

  function Max(x: nat, y: nat): nat
  {
    if x >= y then x else y
  }

  /** merge_gap_patterns_max: as long as the longer pattern, each slot the
      larger of the two counts (a missing count reads as 0). */
  function MergeMax(p1: seq<nat>, p2: seq<nat>): (r: seq<nat>)
    ensures |r| == Max(|p1|, |p2|)
    ensures forall i :: 0 <= i < |r| ==> r[i] >= At(p1, i) && r[i] >= At(p2, i)
    ensures forall i :: 0 <= i < |r| ==> r[i] == At(p1, i) || r[i] == At(p2, i)
  {
    seq(Max(|p1|, |p2|), i => Max(At(p1, i), At(p2, i)))
  }

  /** The merge is the least pattern above both inputs. */
  lemma MergeMaxIsLeast(p1: seq<nat>, p2: seq<nat>, q: seq<nat>)
    requires |q| >= |p1| && |q| >= |p2|
    requires forall i :: 0 <= i < |q| ==> q[i] >= At(p1, i) && q[i] >= At(p2, i)
    ensures forall i :: 0 <= i < |MergeMax(p1, p2)| ==> MergeMax(p1, p2)[i] <= q[i]
  {
  }

  lemma MergeMaxCommutes(p1: seq<nat>, p2: seq<nat>)
    ensures MergeMax(p1, p2) == MergeMax(p2, p1)
  {
  }

  lemma MergeMaxIdempotent(p: seq<nat>)
    ensures MergeMax(p, p) == p
  {
  }

  lemma MergeMaxAssociates(p1: seq<nat>, p2: seq<nat>, p3: seq<nat>)
    ensures MergeMax(MergeMax(p1, p2), p3) == MergeMax(p1, MergeMax(p2, p3))
  {
  }

  /** Merging into the all-zero start pattern of the same length gives the
      other pattern back. */
  lemma MergeMaxZeros(p: seq<nat>)
    ensures MergeMax(seq(|p|, _ => 0), p) == p
  {
  }

  // ---------------------------------------------------------------------
  // expand_to_pattern (gblock.py:101-115)
  // ---------------------------------------------------------------------

  /** aln_base of gblock.py:103-106: a gap stays a gap, the j-th residue of
      `s` is replaced by base[j]. */
  function Marks(base: string, s: string): (m: string)
    requires NonGapCount(s) <= |base|
    ensures |m| == |s|
  {
    if s == [] then []
    else
      var s', c := s[..|s| - 1], s[|s| - 1];
      UngapSnoc(s', c);
      assert s' + [c] == s;
      Marks(base, s') + [if c == GAP then GAP else base[NonGapCount(s')]]
  }

  /** Where one round of the inner loop (gblock.py:110-113) starting at
      cursor i stops: just past the first column whose mark is a residue,
      or at the end. */
  function NextCursor(m: string, i: nat): (r: nat)
    requires i <= |m|
    ensures i <= r <= |m|
    ensures i < |m| ==> i < r
    decreases |m| - i
  {
    if i == |m| then i
    else if m[i] != GAP then i + 1
    else NextCursor(m, i + 1)
  }

  /** The cursor after k rounds. */
  function Cursor(m: string, k: nat): (r: nat)
    ensures r <= |m|
  {
    if k == 0 then 0 else NextCursor(m, Cursor(m, k - 1))
  }

  /** The output after k rounds: each round writes its target gaps and then
      the columns it consumed. */
  function Woven(s: string, m: string, target: seq<nat>, k: nat): string
    requires |m| == |s| && k <= |target|
  {
    if k == 0 then []
    else Woven(s, m, target, k - 1) + Dashes(target[k - 1]) + s[Cursor(m, k - 1)..Cursor(m, k)]
  }

  /** What expand_to_pattern returns: IndexError when `s` has more residues
      than the base or the pattern has fewer than L + 1 slots; otherwise L
      rounds and the trailing gaps of slot L. */
  function Expand(base: string, s: string, target: seq<nat>): (r: Result<string>)
    ensures r.Err? <==> NonGapCount(s) > |base| || |target| <= |base|
    ensures r.Err? ==> r.error == IndexOutOfRange
  {
    if NonGapCount(s) > |base| || |target| <= |base| then Err(IndexOutOfRange)
    else Ok(Woven(s, Marks(base, s), target, |base|) + Dashes(target[|base|]))
  }

  /** The non-gap count of a prefix never exceeds that of the whole. */
  lemma NonGapPrefix(s: string, i: nat)
    requires i <= |s|
    ensures NonGapCount(s[..i]) <= NonGapCount(s)
  {
    assert s == s[..i] + s[i..];
    UngapAppend(s[..i], s[i..]);
  }

  /** expand_to_pattern: first the marks, then L rounds that each write
      their gaps and copy columns of `s` up to and including the next one
      whose mark is a residue, then the gaps of slot L. */
  method ExpandToPattern(base: string, s: string, target: seq<nat>) returns (r: Result<string>)
    ensures r == Expand(base, s, target)
  {
    var marks := MarkResidues(base, s);
    if marks.Err? {
      return Err(marks.error);
    }
    var L := |base|;
    var out := WeaveRounds(s, marks.value, target, L);
    if out.Err? {
      return Err(out.error);
    }
    if L >= |target| {
      return Err(IndexOutOfRange);
    }
    r := Ok(out.value + Dashes(target[L]));
  }

  /** gblock.py:103-106: aln_base, built by appending to a list; the j-th
      residue of `s` reads base[j], which is an IndexError once j reaches
      the length of the base. */
  method MarkResidues(base: string, s: string) returns (r: Result<string>)
    ensures r.Err? <==> NonGapCount(s) > |base|
    ensures r.Err? ==> r.error == IndexOutOfRange
    ensures r.Ok? ==> r.value == Marks(base, s)
  {
    var L := |base|;
    var alnBase: string := [];
    var jBase := 0;
    for i := 0 to |s|
      invariant jBase == NonGapCount(s[..i]) <= L
      invariant alnBase == Marks(base, s[..i])
    {
      var ch := s[i];
      assert s[..i + 1] == s[..i] + [ch];
      UngapSnoc(s[..i], ch);
      if ch == GAP {
        alnBase := alnBase + [GAP];
      } else {
        if jBase >= L {
          NonGapPrefix(s, i + 1);
          return Err(IndexOutOfRange);
        }
        alnBase := alnBase + [base[jBase]];
        jBase := jBase + 1;
      }
    }
    assert s[..|s|] == s;
    r := Ok(alnBase);
  }

  /** gblock.py:107-113: the L rounds over the columns of `s`, with the
      cursor i_aln shared between rounds; reading a missing slot of the
      pattern is an IndexError. */
  method WeaveRounds(s: string, m: string, target: seq<nat>, L: nat) returns (r: Result<string>)
    requires |m| == |s|
    ensures r.Err? <==> |target| < L
    ensures r.Err? ==> r.error == IndexOutOfRange
    ensures r.Ok? ==> r.value == Woven(s, m, target, L)
  {
    var out: string := [];
    var iAln := 0;
    for k := 0 to L
      invariant iAln == Cursor(m, k)
      invariant k <= |target| && out == Woven(s, m, target, k)
    {
      if k >= |target| {
        return Err(IndexOutOfRange);
      }
      out := out + Dashes(target[k]);
      ghost var start := iAln;
      while iAln < |s|
        invariant start <= iAln <= |s|
        invariant NextCursor(m, iAln) == NextCursor(m, start)
        invariant out == Woven(s, m, target, k) + Dashes(target[k]) + s[start..iAln]
        decreases |s| - iAln
      {
        var chA, chB := s[iAln], m[iAln];
        assert s[start..iAln + 1] == s[start..iAln] + [chA];
        iAln := iAln + 1;
        out := out + [chA];
        if chB != GAP {
          break;
        }
      }
    }
    r := Ok(out);
  }

  /** The rounds copy the columns they consume unchanged, so the output of
      k rounds holds exactly the residues of the consumed prefix. */
  lemma {:induction false} WovenResidues(s: string, m: string, target: seq<nat>, k: nat)
    requires |m| == |s| && k <= |target|
    ensures Ungap(Woven(s, m, target, k)) == Ungap(s[..Cursor(m, k)])
  {
    if k == 0 {
      assert s[..0] == [];
    } else {
      var c0, c1 := Cursor(m, k - 1), Cursor(m, k);
      assert c0 <= c1;
      WovenResidues(s, m, target, k - 1);
      var w, d := Woven(s, m, target, k - 1), Dashes(target[k - 1]);
      assert Woven(s, m, target, k) == w + d + s[c0..c1];
      UngapDashes(target[k - 1]);
      UngapSkipGaps(w, d, s[c0..c1]);
      assert s[..c1] == s[..c0] + s[c0..c1];
      UngapAppend(s[..c0], s[c0..c1]);
    }
  }

  lemma UngapSkipGaps(w: string, d: string, t: string)
    requires Ungap(d) == []
    ensures Ungap(w + d + t) == Ungap(w) + Ungap(t)
  {
    UngapAppend(w, d);
    UngapAppend(w + d, t);
  }

  /** Residues never appear from nowhere: the expanded string has at most
      the residues of `s`. */
  lemma ExpandResidueBound(base: string, s: string, target: seq<nat>)
    requires Expand(base, s, target).Ok?
    ensures NonGapCount(Expand(base, s, target).value) <= NonGapCount(s)
  {
    var m := Marks(base, s);
    var L := |base|;
    WovenResidues(s, m, target, L);
    UngapAppend(Woven(s, m, target, L), Dashes(target[L]));
    UngapDashes(target[L]);
    NonGapPrefix(s, Cursor(m, L));
  }

  /** With a gap-free base a mark is a gap exactly where `s` has a gap. */
  lemma {:induction false} MarksMatchGaps(base: string, s: string, i: nat)
    requires GAP !in base && NonGapCount(s) <= |base| && i < |s|
    ensures Marks(base, s)[i] == GAP <==> s[i] == GAP
    decreases |s|
  {
    var s', c := s[..|s| - 1], s[|s| - 1];
    UngapSnoc(s', c);
    if i < |s'| {
      MarksMatchGaps(base, s', i);
    } else if c != GAP {
      assert base[NonGapCount(s')] in base;
    }
  }

  /** ungapped s[i..] is s[i] (when a residue) followed by ungapped s[i+1..]. */
  lemma UngapCons(s: string, i: nat)
    requires i < |s|
    ensures NonGapCount(s[i..]) == (if s[i] == GAP then 0 else 1) + NonGapCount(s[i + 1..])
  {
    assert s[i..] == [s[i]] + s[i + 1..];
    UngapAppend([s[i]], s[i + 1..]);
    assert [s[i]][..0] == [];
  }

  /** With marks that follow the gaps of `s`, one round consumes exactly one
      residue, unless none is left. */
  lemma {:induction false} NextCursorConsumesOne(s: string, m: string, i: nat)
    requires |m| == |s| && i <= |s|
    requires forall j :: 0 <= j < |s| ==> (m[j] == GAP <==> s[j] == GAP)
    ensures NonGapCount(s[NextCursor(m, i)..]) == if NonGapCount(s[i..]) == 0 then 0 else NonGapCount(s[i..]) - 1
    decreases |s| - i
  {
    if i < |s| {
      UngapCons(s, i);
      if m[i] == GAP {
        NextCursorConsumesOne(s, m, i + 1);
      }
    }
  }

  /** After k rounds the residues left unconsumed are those beyond the k-th. */
  lemma {:induction false} CursorLeaves(s: string, m: string, k: nat)
    requires |m| == |s|
    requires forall j :: 0 <= j < |s| ==> (m[j] == GAP <==> s[j] == GAP)
    ensures NonGapCount(s[Cursor(m, k)..]) == if NonGapCount(s) <= k then 0 else NonGapCount(s) - k
  {
    if k == 0 {
      assert s[0..] == s;
    } else {
      CursorLeaves(s, m, k - 1);
      NextCursorConsumesOne(s, m, Cursor(m, k - 1));
    }
  }

  /** With marks that follow the gaps of `s` and at most L residues, L
      rounds consume every residue. */
  lemma WovenKeepsAll(s: string, m: string, target: seq<nat>, L: nat)
    requires |m| == |s| && L <= |target| && NonGapCount(s) <= L
    requires forall j :: 0 <= j < |s| ==> (m[j] == GAP <==> s[j] == GAP)
    ensures Ungap(Woven(s, m, target, L)) == Ungap(s)
  {
    var c := Cursor(m, L);
    CursorLeaves(s, m, L);
    WovenResidues(s, m, target, L);
    assert s == s[..c] + s[c..];
    UngapAppend(s[..c], s[c..]);
  }

  /** A gap of `s` is always a gap of its marks (a residue of `s` may get
      a gap mark too, where the base itself holds a gap). */
  lemma {:induction false} MarksGapAtGap(base: string, s: string, i: nat)
    requires NonGapCount(s) <= |base| && i < |s| && s[i] == GAP
    ensures Marks(base, s)[i] == GAP
    decreases |s|
  {
    var s', c := s[..|s| - 1], s[|s| - 1];
    UngapSnoc(s', c);
    assert s' + [c] == s;
    if i < |s'| {
      MarksGapAtGap(base, s', i);
    }
  }

  /** When every gap of `s` is a gap of `m`, `m` has at most as many
      residues on every prefix, and the same number only when the two
      strings have their gaps in the same places. */
  lemma {:induction false} Dominated(s: string, m: string, n: nat)
    requires |m| == |s| && n <= |s|
    requires forall j :: 0 <= j < |s| && s[j] == GAP ==> m[j] == GAP
    ensures NonGapCount(m[..n]) <= NonGapCount(s[..n])
    ensures NonGapCount(m[..n]) == NonGapCount(s[..n]) ==>
              forall j :: 0 <= j < n ==> (m[j] == GAP <==> s[j] == GAP)
  {
    if n > 0 {
      Dominated(s, m, n - 1);
      UngapPrefixSnoc(s, n);
      UngapPrefixSnoc(m, n);
    }
  }

  /** A round started where no residue mark is left runs to the end. */
  lemma {:induction false} NextCursorNoResidue(m: string, i: nat)
    requires i <= |m| && NonGapCount(m[i..]) == 0
    ensures NextCursor(m, i) == |m|
    decreases |m| - i
  {
    if i < |m| {
      UngapCons(m, i);
      NextCursorNoResidue(m, i + 1);
    }
  }

  /** When every gap of `s` is a gap of `m` and `s` has at most L
      residues, L rounds consume every residue of `s`. */
  lemma WovenKeepsAllDominated(s: string, m: string, target: seq<nat>, L: nat)
    requires |m| == |s| && L <= |target| && NonGapCount(s) <= L
    requires forall j :: 0 <= j < |s| && s[j] == GAP ==> m[j] == GAP
    ensures Ungap(Woven(s, m, target, L)) == Ungap(s)
  {
    Dominated(s, m, |s|);
    assert m[..|m|] == m && s[..|s|] == s;
    if NonGapCount(m) == NonGapCount(s) {
      WovenKeepsAll(s, m, target, L);
    } else {
      // Fewer residue marks than rounds: round L starts with none left
      // and runs to the end of `s`.
      CursorLeaves(m, m, L - 1);
      NextCursorNoResidue(m, Cursor(m, L - 1));
      WovenResidues(s, m, target, L);
    }
  }

  /** Residue preservation: when `s` has no more residues than the base
      has characters and the pattern has L + 1 slots, the expansion
      succeeds and carries exactly the residues of `s`, in order. */
  lemma ExpandKeepsResidues(base: string, s: string, target: seq<nat>)
    requires NonGapCount(s) <= |base| && |target| > |base|
    ensures Expand(base, s, target).Ok?
    ensures Ungap(Expand(base, s, target).value) == Ungap(s)
  {
    var m := Marks(base, s);
    var L := |base|;
    forall j | 0 <= j < |s| && s[j] == GAP
      ensures m[j] == GAP
    {
      MarksGapAtGap(base, s, j);
    }
    WovenKeepsAllDominated(s, m, target, L);
    UngapAppend(Woven(s, m, target, L), Dashes(target[L]));
    UngapDashes(target[L]);
  }
}
