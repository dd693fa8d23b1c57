/** The pairwise aligner: global Needleman-Wunsch alignment with a linear gap
    cost and identity scoring (nw_align, gblock.py:54-81).

    The score and trace tables of the source are modelled as `array2`s that
    `NwAlign` fills row by row; `Score` and `TraceAt` say what every cell must
    hold, and `Traceback` is the pair of strings the walk from (n, m) back to
    (0, 0) produces.  The lemmas then say what that pair means: an alignment
    of the two inputs, no longer than n + m, with the table's score, and no
    worse than any other alignment. */
module Pairwise {
  import opened Msa

  /** The three scoring constants of nw_align (defaults 1, -1, -2). */
  datatype Scoring = Scoring(matchScore: int, mismatchScore: int, gapScore: int)

  const DefaultScoring: Scoring := Scoring(1, -1, -2)

  /** Trace codes 0..3 of the source: 0 is only ever stored at (0, 0). */
  datatype Move = Stop | Diag | Up | Left

  function Substitution(sc: Scoring, x: char, y: char): int
  {
    if x == y then sc.matchScore else sc.mismatchScore
  }

  /** The cell update of gblock.py:69-74: the best of the three candidates,
      ties going to the diagonal first, then to up, then to left. */
  function Choose(sdiag: int, sup: int, sleft: int): (c: (int, Move))
    ensures c.0 >= sdiag && c.0 >= sup && c.0 >= sleft
  {
    if sdiag >= sup && sdiag >= sleft then (sdiag, Diag)
    else if sup >= sleft then (sup, Up)
    else (sleft, Left)
  }

  /** Cell (i, j) of the score and trace tables once they are filled:
      along the first column each cell is one gap below the one above it,
      with trace "up" (so i * gap, see BorderScores), along the first row
      one gap below its left neighbour, with trace "left", and every other
      cell is the tie-broken best of its three predecessors. */
  function Cell(sc: Scoring, a: string, b: string, i: nat, j: nat): (c: (int, Move))
    requires i <= |a| && j <= |b|
    decreases i + j
  {
    if i == 0 && j == 0 then (0, Stop)
    else if j == 0 then (Cell(sc, a, b, i - 1, 0).0 + sc.gapScore, Up)
    else if i == 0 then (Cell(sc, a, b, 0, j - 1).0 + sc.gapScore, Left)
    else Choose(Cell(sc, a, b, i - 1, j - 1).0 + Substitution(sc, a[i - 1], b[j - 1]),
                Cell(sc, a, b, i - 1, j).0 + sc.gapScore,
                Cell(sc, a, b, i, j - 1).0 + sc.gapScore)
  }

  /** score[i][j] */
  function Score(sc: Scoring, a: string, b: string, i: nat, j: nat): int
    requires i <= |a| && j <= |b|
  {
    Cell(sc, a, b, i, j).0
  }

  /** trace[i][j]: only (0, 0) holds the code 0. */
  function TraceAt(sc: Scoring, a: string, b: string, i: nat, j: nat): (t: Move)
    requires i <= |a| && j <= |b|
    ensures t == Stop <==> i == 0 && j == 0
    ensures t == Diag ==> i > 0 && j > 0
    ensures t == Up ==> i > 0
    ensures t == Left ==> j > 0
  {
    Cell(sc, a, b, i, j).1
  }

  /** The two aligned strings the traceback from (i, j) yields, in reading order. */
  function Traceback(sc: Scoring, a: string, b: string, i: nat, j: nat): (string, string)
    requires i <= |a| && j <= |b|
    decreases i + j
  {
    var t := TraceAt(sc, a, b, i, j);
    if t == Stop then ([], [])
    else if t == Diag then
      var p := Traceback(sc, a, b, i - 1, j - 1);
      (p.0 + [a[i - 1]], p.1 + [b[j - 1]])
    else if t == Up then
      var p := Traceback(sc, a, b, i - 1, j);
      (p.0 + [a[i - 1]], p.1 + [GAP])
    else
      var p := Traceback(sc, a, b, i, j - 1);
      (p.0 + [GAP], p.1 + [b[j - 1]])
  }

  /** "".join(reversed(xs)) */
  function Reversed(s: string): (r: string)
    ensures |r| == |s|
  {
    if s == [] then [] else [s[|s| - 1]] + Reversed(s[..|s| - 1])
  }

  /** nw_align (gblock.py:54-81): fill the (n+1)x(m+1) tables, then walk the
      trace back from (n, m). */
  method NwAlign(a: string, b: string, sc: Scoring) returns (alnA: string, alnB: string)
    ensures (alnA, alnB) == Traceback(sc, a, b, |a|, |b|)
    ensures |alnA| == |alnB|
    ensures Ungap(alnA) == Ungap(a) && Ungap(alnB) == Ungap(b)
    ensures |a| <= |alnA| <= |a| + |b| && |b| <= |alnA|
  {
    var score, trace := FillTables(a, b, sc);
    alnA, alnB := WalkBack(a, b, sc, trace);
    TracebackLengths(sc, a, b, |a|, |b|);
    TracebackResidues(sc, a, b, |a|, |b|);
    assert a[..|a|] == a && b[..|b|] == b;
  }

  /** gblock.py:55-74: the first column and row get i * gap and j * gap,
      every inner cell the tie-broken best of its three predecessors, row
      by row. */
  method FillTables(a: string, b: string, sc: Scoring) returns (score: array2<int>, trace: array2<Move>)
    ensures fresh(score) && fresh(trace)
    ensures score.Length0 == trace.Length0 == |a| + 1 && score.Length1 == trace.Length1 == |b| + 1
    ensures forall ii, jj :: 0 <= ii <= |a| && 0 <= jj <= |b| ==> score[ii, jj] == Score(sc, a, b, ii, jj)
    ensures forall ii, jj :: 0 <= ii <= |a| && 0 <= jj <= |b| ==> trace[ii, jj] == TraceAt(sc, a, b, ii, jj)
  {
    score := new int[|a| + 1, |b| + 1]((_, _) => 0);
    trace := new Move[|a| + 1, |b| + 1]((_, _) => Stop);
    FillBorders(a, b, sc, score, trace);
    for i := 1 to |a| + 1
      invariant forall ii, jj :: 0 <= ii < i && 0 <= jj <= |b| ==> score[ii, jj] == Score(sc, a, b, ii, jj)
      invariant forall ii, jj :: 0 <= ii < i && 0 <= jj <= |b| ==> trace[ii, jj] == TraceAt(sc, a, b, ii, jj)
      invariant forall ii :: 0 <= ii <= |a| ==> score[ii, 0] == Score(sc, a, b, ii, 0)
      invariant forall ii :: 0 <= ii <= |a| ==> trace[ii, 0] == TraceAt(sc, a, b, ii, 0)
    {
      FillRow(a, b, sc, score, trace, i);
    }
  }

  /** gblock.py:59-64: score[i][0] = i * gap with trace "up", then
      score[0][j] = j * gap with trace "left". */
  method FillBorders(a: string, b: string, sc: Scoring, score: array2<int>, trace: array2<Move>)
    requires score.Length0 == trace.Length0 == |a| + 1 && score.Length1 == trace.Length1 == |b| + 1
    requires score[0, 0] == 0 && trace[0, 0] == Stop
    modifies score, trace
    ensures forall ii :: 0 <= ii <= |a| ==> score[ii, 0] == Score(sc, a, b, ii, 0)
    ensures forall ii :: 0 <= ii <= |a| ==> trace[ii, 0] == TraceAt(sc, a, b, ii, 0)
    ensures forall jj :: 0 <= jj <= |b| ==> score[0, jj] == Score(sc, a, b, 0, jj)
    ensures forall jj :: 0 <= jj <= |b| ==> trace[0, jj] == TraceAt(sc, a, b, 0, jj)
  {
    for i := 1 to |a| + 1
      invariant forall ii :: 0 <= ii < i ==> score[ii, 0] == Score(sc, a, b, ii, 0)
      invariant forall ii :: 0 <= ii < i ==> trace[ii, 0] == TraceAt(sc, a, b, ii, 0)
    {
      BorderScores(sc, a, b, i, 0);
      score[i, 0] := i * sc.gapScore;
      trace[i, 0] := Up;
    }
    for j := 1 to |b| + 1
      invariant forall ii :: 0 <= ii <= |a| ==> score[ii, 0] == Score(sc, a, b, ii, 0)
      invariant forall ii :: 0 <= ii <= |a| ==> trace[ii, 0] == TraceAt(sc, a, b, ii, 0)
      invariant forall jj :: 0 <= jj < j ==> score[0, jj] == Score(sc, a, b, 0, jj)
      invariant forall jj :: 0 <= jj < j ==> trace[0, jj] == TraceAt(sc, a, b, 0, jj)
    {
      BorderScores(sc, a, b, 0, j);
      score[0, j] := j * sc.gapScore;
      trace[0, j] := Left;
    }
  }

  /** gblock.py:65-74 for one row i >= 1: the cells (i, 1..m), left to right. */
  method FillRow(a: string, b: string, sc: Scoring, score: array2<int>, trace: array2<Move>, i: nat)
    requires score.Length0 == trace.Length0 == |a| + 1 && score.Length1 == trace.Length1 == |b| + 1
    requires 1 <= i <= |a|
    requires forall ii, jj :: 0 <= ii < i && 0 <= jj <= |b| ==> score[ii, jj] == Score(sc, a, b, ii, jj)
    requires forall ii, jj :: 0 <= ii < i && 0 <= jj <= |b| ==> trace[ii, jj] == TraceAt(sc, a, b, ii, jj)
    requires forall ii :: 0 <= ii <= |a| ==> score[ii, 0] == Score(sc, a, b, ii, 0)
    requires forall ii :: 0 <= ii <= |a| ==> trace[ii, 0] == TraceAt(sc, a, b, ii, 0)
    modifies score, trace
    ensures forall ii, jj :: 0 <= ii <= i && 0 <= jj <= |b| ==> score[ii, jj] == Score(sc, a, b, ii, jj)
    ensures forall ii, jj :: 0 <= ii <= i && 0 <= jj <= |b| ==> trace[ii, jj] == TraceAt(sc, a, b, ii, jj)
    ensures forall ii :: 0 <= ii <= |a| ==> score[ii, 0] == Score(sc, a, b, ii, 0)
    ensures forall ii :: 0 <= ii <= |a| ==> trace[ii, 0] == TraceAt(sc, a, b, ii, 0)
  {
    var ai := a[i - 1];
    for j := 1 to |b| + 1
      invariant forall ii, jj :: 0 <= ii < i && 0 <= jj <= |b| ==> score[ii, jj] == Score(sc, a, b, ii, jj)
      invariant forall ii, jj :: 0 <= ii < i && 0 <= jj <= |b| ==> trace[ii, jj] == TraceAt(sc, a, b, ii, jj)
      invariant forall ii :: 0 <= ii <= |a| ==> score[ii, 0] == Score(sc, a, b, ii, 0)
      invariant forall ii :: 0 <= ii <= |a| ==> trace[ii, 0] == TraceAt(sc, a, b, ii, 0)
      invariant forall jj :: 0 <= jj < j ==> score[i, jj] == Score(sc, a, b, i, jj)
      invariant forall jj :: 0 <= jj < j ==> trace[i, jj] == TraceAt(sc, a, b, i, jj)
    {
      var bj := b[j - 1];
      var sdiag := score[i - 1, j - 1] + (if ai == bj then sc.matchScore else sc.mismatchScore);
      var sup := score[i - 1, j] + sc.gapScore;
      var sleft := score[i, j - 1] + sc.gapScore;
      InnerCell(sc, a, b, i, j);
      if sdiag >= sup && sdiag >= sleft {
        score[i, j] := sdiag; trace[i, j] := Diag;
      } else if sup >= sleft {
        score[i, j] := sup; trace[i, j] := Up;
      } else {
        score[i, j] := sleft; trace[i, j] := Left;
      }
    }
  }

  /** An inner cell is the choice among its three predecessors. */
  lemma InnerCell(sc: Scoring, a: string, b: string, i: nat, j: nat)
    requires 0 < i <= |a| && 0 < j <= |b|
    ensures Cell(sc, a, b, i, j) ==
              Choose(Cell(sc, a, b, i - 1, j - 1).0 + Substitution(sc, a[i - 1], b[j - 1]),
                     Cell(sc, a, b, i - 1, j).0 + sc.gapScore,
                     Cell(sc, a, b, i, j - 1).0 + sc.gapScore)
  {
  }

  /** gblock.py:75-81: from (n, m) follow the trace to (0, 0), appending one
      column per step to two lists, and return them reversed. */
  method WalkBack(a: string, b: string, sc: Scoring, trace: array2<Move>) returns (alnA: string, alnB: string)
    requires trace.Length0 == |a| + 1 && trace.Length1 == |b| + 1
    requires forall ii, jj :: 0 <= ii <= |a| && 0 <= jj <= |b| ==> trace[ii, jj] == TraceAt(sc, a, b, ii, jj)
    ensures (alnA, alnB) == Traceback(sc, a, b, |a|, |b|)
  {
    var i, j := |a|, |b|;
    var revA, revB := [], [];
    ghost var full := Traceback(sc, a, b, |a|, |b|);
    while i > 0 || j > 0
      invariant 0 <= i <= |a| && 0 <= j <= |b|
      invariant Traceback(sc, a, b, i, j).0 + Reversed(revA) == full.0
      invariant Traceback(sc, a, b, i, j).1 + Reversed(revB) == full.1
      decreases i + j
    {
      var t := trace[i, j];
      ghost var i0, j0 := i, j;
      var x, y;
      if t == Diag {
        x, y := a[i - 1], b[j - 1];
        i, j := i - 1, j - 1;
      } else if t == Up {
        x, y := a[i - 1], GAP;
        i := i - 1;
      } else {
        x, y := GAP, b[j - 1];
        j := j - 1;
      }
      TracebackStep(sc, a, b, i0, j0);
      WalkStep(Traceback(sc, a, b, i0, j0).0, Traceback(sc, a, b, i, j).0, x, revA, full.0);
      WalkStep(Traceback(sc, a, b, i0, j0).1, Traceback(sc, a, b, i, j).1, y, revB, full.1);
      revA, revB := revA + [x], revB + [y];
    }
    assert Traceback(sc, a, b, i, j) == ([], []);
    assert [] + Reversed(revA) == Reversed(revA) && [] + Reversed(revB) == Reversed(revB);
    alnA, alnB := Reversed(revA), Reversed(revB);
  }

  /** One step of the walk: the traceback from (i, j) is the traceback
      from the predecessor the trace names, plus one column. */
  lemma TracebackStep(sc: Scoring, a: string, b: string, i: nat, j: nat)
    requires i <= |a| && j <= |b| && (i > 0 || j > 0)
    ensures var t := TraceAt(sc, a, b, i, j);
      var i', j' := if t == Left then i else i - 1, if t == Up then j else j - 1;
      var x := if t == Left then GAP else a[i - 1];
      var y := if t == Up then GAP else b[j - 1];
      i' <= |a| && j' <= |b| &&
      Traceback(sc, a, b, i, j) == (Traceback(sc, a, b, i', j').0 + [x], Traceback(sc, a, b, i', j').1 + [y])
  {
  }

  /** The loop invariant of WalkBack survives one step: moving the last
      column of the remaining prefix onto the reversed list keeps the total. */
  lemma WalkStep(prefix: string, rest: string, x: char, rev: string, full: string)
    requires prefix == rest + [x]
    requires prefix + Reversed(rev) == full
    ensures rest + Reversed(rev + [x]) == full
  {
    ReversedSnoc(rev, x);
    assert rest + ([x] + Reversed(rev)) == (rest + [x]) + Reversed(rev);
  }

  lemma ReversedSnoc(s: string, x: char)
    ensures Reversed(s + [x]) == [x] + Reversed(s)
  {
    assert (s + [x])[..|s|] == s;
  }

  /** The full traceback keeps the residues of both inputs, in order. */
  lemma TracebackKeepsResidues(sc: Scoring, a: string, b: string)
    ensures var p := Traceback(sc, a, b, |a|, |b|);
      Ungap(p.0) == Ungap(a) && Ungap(p.1) == Ungap(b)
  {
    TracebackResidues(sc, a, b, |a|, |b|);
    assert a[..|a|] == a && b[..|b|] == b;
  }

  /** The first column and row of the score table hold i * gap and j * gap,
      the values nw_align writes there. */
  lemma {:induction false} BorderScores(sc: Scoring, a: string, b: string, i: nat, j: nat)
    requires i <= |a| && j <= |b|
    ensures Score(sc, a, b, i, 0) == i * sc.gapScore
    ensures Score(sc, a, b, 0, j) == j * sc.gapScore
  {
    if i > 0 {
      BorderScores(sc, a, b, i - 1, 0);
      assert i * sc.gapScore == (i - 1) * sc.gapScore + sc.gapScore;
    }
    if j > 0 {
      BorderScores(sc, a, b, 0, j - 1);
      assert j * sc.gapScore == (j - 1) * sc.gapScore + sc.gapScore;
    }
  }

  /** The two rows of the traceback from (i, j) have one length, which lies
      in [max(i, j), i + j]. */
  lemma {:induction false} TracebackLengths(sc: Scoring, a: string, b: string, i: nat, j: nat)
    requires i <= |a| && j <= |b|
    ensures var p := Traceback(sc, a, b, i, j);
      |p.0| == |p.1| && i <= |p.0| && j <= |p.0| && |p.0| <= i + j
    decreases i + j
  {
    var t := TraceAt(sc, a, b, i, j);
    if t == Diag {
      TracebackLengths(sc, a, b, i - 1, j - 1);
    } else if t == Up {
      TracebackLengths(sc, a, b, i - 1, j);
    } else if t == Left {
      TracebackLengths(sc, a, b, i, j - 1);
    }
  }

  /** Deleting the gaps from the rows of the traceback from (i, j) gives the
      prefixes a[..i] and b[..j] with their own gaps deleted: the aligner
      only ever inserts gaps. */
  lemma {:induction false} TracebackResidues(sc: Scoring, a: string, b: string, i: nat, j: nat)
    requires i <= |a| && j <= |b|
    ensures var p := Traceback(sc, a, b, i, j);
      Ungap(p.0) == Ungap(a[..i]) && Ungap(p.1) == Ungap(b[..j])
    decreases i + j
  {
    if i > 0 || j > 0 {
      TracebackStep(sc, a, b, i, j);
      var t := TraceAt(sc, a, b, i, j);
      var i', j' := if t == Left then i else i - 1, if t == Up then j else j - 1;
      var x := if t == Left then GAP else a[i - 1];
      var y := if t == Up then GAP else b[j - 1];
      var q := Traceback(sc, a, b, i', j');
      TracebackResidues(sc, a, b, i', j');
      UngapSnoc(q.0, x);
      UngapSnoc(q.1, y);
      if t != Left {
        UngapPrefixSnoc(a, i);
      }
      if t != Up {
        UngapPrefixSnoc(b, j);
      }
    }
  }

  /** Two equal-length rows form an alignment of x and y: deleting the gaps
      gives x and y back and no column is a gap in both rows. */
  ghost predicate IsAlignment(rowX: string, rowY: string, x: string, y: string)
  {
    |rowX| == |rowY| && Ungap(rowX) == x && Ungap(rowY) == y &&
    forall k :: 0 <= k < |rowX| ==> rowX[k] != GAP || rowY[k] != GAP
  }

  /** For gap-free inputs no column of the traceback is a gap in both rows. */
  lemma {:induction false} TracebackNoDoubleGap(sc: Scoring, a: string, b: string, i: nat, j: nat)
    requires i <= |a| && j <= |b|
    requires GAP !in a && GAP !in b
    ensures var p := Traceback(sc, a, b, i, j);
      forall k :: 0 <= k < |p.0| && k < |p.1| ==> p.0[k] != GAP || p.1[k] != GAP
    decreases i + j
  {
    var t := TraceAt(sc, a, b, i, j);
    var p := Traceback(sc, a, b, i, j);
    if t == Diag {
      var q := Traceback(sc, a, b, i - 1, j - 1);
      TracebackNoDoubleGap(sc, a, b, i - 1, j - 1);
      TracebackLengths(sc, a, b, i - 1, j - 1);
      assert a[i - 1] in a;
      NoDoubleGapSnoc(q.0, q.1, a[i - 1], b[j - 1]);
    } else if t == Up {
      var q := Traceback(sc, a, b, i - 1, j);
      TracebackNoDoubleGap(sc, a, b, i - 1, j);
      TracebackLengths(sc, a, b, i - 1, j);
      assert a[i - 1] in a;
      NoDoubleGapSnoc(q.0, q.1, a[i - 1], GAP);
    } else if t == Left {
      var q := Traceback(sc, a, b, i, j - 1);
      TracebackNoDoubleGap(sc, a, b, i, j - 1);
      TracebackLengths(sc, a, b, i, j - 1);
      assert b[j - 1] in b;
      NoDoubleGapSnoc(q.0, q.1, GAP, b[j - 1]);
    }
  }

  lemma NoDoubleGapSnoc(rowX: string, rowY: string, x: char, y: char)
    requires |rowX| == |rowY|
    requires forall k :: 0 <= k < |rowX| && k < |rowY| ==> rowX[k] != GAP || rowY[k] != GAP
    requires x != GAP || y != GAP
    ensures forall k :: 0 <= k < |rowX + [x]| && k < |rowY + [y]| ==>
              (rowX + [x])[k] != GAP || (rowY + [y])[k] != GAP
  {
    forall k | 0 <= k < |rowX + [x]| && k < |rowY + [y]|
      ensures (rowX + [x])[k] != GAP || (rowY + [y])[k] != GAP
    {
      if k < |rowX| {
        assert (rowX + [x])[k] == rowX[k] && (rowY + [y])[k] == rowY[k];
      }
    }
  }

  /** For gap-free inputs the traceback is an alignment of a[..i] and b[..j]. */
  lemma TracebackIsAlignment(sc: Scoring, a: string, b: string, i: nat, j: nat)
    requires i <= |a| && j <= |b|
    requires GAP !in a && GAP !in b
    ensures var p := Traceback(sc, a, b, i, j); IsAlignment(p.0, p.1, a[..i], b[..j])
  {
    TracebackLengths(sc, a, b, i, j);
    TracebackResidues(sc, a, b, i, j);
    TracebackNoDoubleGap(sc, a, b, i, j);
    assert GAP !in a[..i] && GAP !in b[..j] by {
      assert forall c :: c in a[..i] ==> c in a;
      assert forall c :: c in b[..j] ==> c in b;
    }
    UngapOfGapFree(a[..i]);
    UngapOfGapFree(b[..j]);
  }

  /** The score of an alignment read column by column: a gap in either row
      costs the gap penalty, otherwise the substitution score. */
  function ColumnScore(sc: Scoring, rowX: string, rowY: string): int
    requires |rowX| == |rowY|
  {
    if rowX == [] then 0
    else
      var k := |rowX| - 1;
      ColumnScore(sc, rowX[..k], rowY[..k]) + ColumnCost(sc, rowX[k], rowY[k])
  }

  /** The score of one column. */
  function ColumnCost(sc: Scoring, x: char, y: char): int
  {
    if x == GAP || y == GAP then sc.gapScore else Substitution(sc, x, y)
  }

  lemma ColumnScoreSnoc(sc: Scoring, rowX: string, rowY: string, x: char, y: char)
    requires |rowX| == |rowY|
    ensures ColumnScore(sc, rowX + [x], rowY + [y]) == ColumnScore(sc, rowX, rowY) + ColumnCost(sc, x, y)
  {
    assert (rowX + [x])[..|rowX|] == rowX && (rowY + [y])[..|rowY|] == rowY;
  }

  /** Each cell's score is its traced predecessor's score plus the cost of
      the traced step. */
  lemma ScoreFollowsTrace(sc: Scoring, a: string, b: string, i: nat, j: nat)
    requires i <= |a| && j <= |b|
    ensures TraceAt(sc, a, b, i, j) == Diag ==>
      Score(sc, a, b, i, j) == Score(sc, a, b, i - 1, j - 1) + Substitution(sc, a[i - 1], b[j - 1])
    ensures TraceAt(sc, a, b, i, j) == Up ==>
      Score(sc, a, b, i, j) == Score(sc, a, b, i - 1, j) + sc.gapScore
    ensures TraceAt(sc, a, b, i, j) == Left ==>
      Score(sc, a, b, i, j) == Score(sc, a, b, i, j - 1) + sc.gapScore
  {
  }

  /** Each cell's score is at least every predecessor's score plus the cost
      of the step from it. */
  lemma ScoreDominates(sc: Scoring, a: string, b: string, i: nat, j: nat)
    requires i <= |a| && j <= |b|
    ensures i > 0 && j > 0 ==>
      Score(sc, a, b, i, j) >= Score(sc, a, b, i - 1, j - 1) + Substitution(sc, a[i - 1], b[j - 1])
    ensures i > 0 ==> Score(sc, a, b, i, j) >= Score(sc, a, b, i - 1, j) + sc.gapScore
    ensures j > 0 ==> Score(sc, a, b, i, j) >= Score(sc, a, b, i, j - 1) + sc.gapScore
  {
  }

  /** For gap-free inputs, the traceback from (i, j) scores exactly score[i][j]. */
  lemma {:induction false} TracebackScore(sc: Scoring, a: string, b: string, i: nat, j: nat)
    requires i <= |a| && j <= |b|
    requires GAP !in a && GAP !in b
    ensures var p := Traceback(sc, a, b, i, j);
      |p.0| == |p.1| && ColumnScore(sc, p.0, p.1) == Score(sc, a, b, i, j)
    decreases i + j
  {
    TracebackLengths(sc, a, b, i, j);
    if i > 0 || j > 0 {
      TracebackStep(sc, a, b, i, j);
      var t := TraceAt(sc, a, b, i, j);
      var i', j' := if t == Left then i else i - 1, if t == Up then j else j - 1;
      var x := if t == Left then GAP else a[i - 1];
      var y := if t == Up then GAP else b[j - 1];
      var q := Traceback(sc, a, b, i', j');
      TracebackScore(sc, a, b, i', j');
      ScoreFollowsTrace(sc, a, b, i, j);
      if t == Diag {
        assert a[i - 1] in a && b[j - 1] in b;
      }
      ColumnScoreSnoc(sc, q.0, q.1, x, y);
    }
  }

  /** No alignment of the prefixes a[..i] and b[..j] scores above score[i][j]. */
  lemma {:induction false} ScoreIsOptimal(sc: Scoring, a: string, b: string, i: nat, j: nat,
                                          rowX: string, rowY: string)
    requires i <= |a| && j <= |b|
    requires IsAlignment(rowX, rowY, a[..i], b[..j])
    ensures ColumnScore(sc, rowX, rowY) <= Score(sc, a, b, i, j)
    decreases |rowX|
  {
    if rowX == [] {
      assert |a[..i]| == 0 && |b[..j]| == 0;
    } else {
      var k := |rowX| - 1;
      var x, y := rowX[k], rowY[k];
      var rowX', rowY' := rowX[..k], rowY[..k];
      assert rowX == rowX' + [x] && rowY == rowY' + [y];
      UngapSnoc(rowX', x);
      UngapSnoc(rowY', y);
      ColumnScoreSnoc(sc, rowX', rowY', x, y);
      ScoreDominates(sc, a, b, i, j);
      assert forall t :: 0 <= t < k ==> rowX'[t] == rowX[t] && rowY'[t] == rowY[t];
      if x != GAP && y != GAP {
        SnocPrefix(Ungap(rowX'), x, a, i);
        SnocPrefix(Ungap(rowY'), y, b, j);
        ScoreIsOptimal(sc, a, b, i - 1, j - 1, rowX', rowY');
      } else if x == GAP {
        SnocPrefix(Ungap(rowY'), y, b, j);
        ScoreIsOptimal(sc, a, b, i, j - 1, rowX', rowY');
      } else {
        SnocPrefix(Ungap(rowX'), x, a, i);
        ScoreIsOptimal(sc, a, b, i - 1, j, rowX', rowY');
      }
    }
  }

  lemma SnocPrefix(u: string, x: char, a: string, i: nat)
    requires i <= |a| && u + [x] == a[..i]
    ensures i > 0 && u == a[..i - 1] && x == a[i - 1]
  {
    assert |u + [x]| == i;
    assert (u + [x])[..i - 1] == u;
    assert a[..i][..i - 1] == a[..i - 1];
  }

  /** What nw_align promises on gap-free inputs: it returns an alignment of
      a and b, of length in [max(n,m), n+m], whose score is score[n][m] and
      is the best any alignment of a and b can reach. */
  lemma NwAlignIsOptimalAlignment(sc: Scoring, a: string, b: string, rowX: string, rowY: string)
    requires GAP !in a && GAP !in b
    requires IsAlignment(rowX, rowY, a, b)
    ensures var p := Traceback(sc, a, b, |a|, |b|);
      IsAlignment(p.0, p.1, a, b) &&
      |a| <= |p.0| && |b| <= |p.0| && |p.0| <= |a| + |b| &&
      ColumnScore(sc, p.0, p.1) == Score(sc, a, b, |a|, |b|) &&
      ColumnScore(sc, rowX, rowY) <= ColumnScore(sc, p.0, p.1)
  {
    assert a[..|a|] == a && b[..|b|] == b;
    TracebackIsAlignment(sc, a, b, |a|, |b|);
    TracebackLengths(sc, a, b, |a|, |b|);
    TracebackScore(sc, a, b, |a|, |b|);
    ScoreIsOptimal(sc, a, b, |a|, |b|, rowX, rowY);
  }
}
