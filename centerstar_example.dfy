/** A worked input of center_star_align (gblock.py:117-133) whose rows do
    not come out with one length: ["ABCD", "XABC", "AB"] gives rows of
    lengths 6, 6 and 5, so gblock_pipeline fails with AlignmentFailed at
    gblock.py:243.  Every intermediate value of the loop is computed below:
    the base is "ABCD" (the first longest entry), the master pattern grows
    to [1, 0, 0, 0, 0] with the second entry, and the third entry's
    re-expansion adds a second leading gap to both earlier rows while its
    own row gets only one. */
module CenterStarExample {
  import opened Msa
  import opened Pairwise
  import opened Patterns
  import opened CenterStar
  import opened Filter
  import opened Pipeline
  import opened Params

  // ---------------------------------------------------------------------
  // nw_align of the base against each entry: the trace codes on the path
  // back from (n, m), then the two aligned strings
  // ---------------------------------------------------------------------

  lemma AlignSelfTrace()
    ensures TraceAt(DefaultScoring, "ABCD", "ABCD", 1, 1) == Diag
    ensures TraceAt(DefaultScoring, "ABCD", "ABCD", 2, 2) == Diag
    ensures TraceAt(DefaultScoring, "ABCD", "ABCD", 3, 3) == Diag
    ensures TraceAt(DefaultScoring, "ABCD", "ABCD", 4, 4) == Diag
  {
    assert Cell(DefaultScoring, "ABCD", "ABCD", 1, 1) == (1, Diag);
    assert Cell(DefaultScoring, "ABCD", "ABCD", 1, 2) == (-1, Left);
    assert Cell(DefaultScoring, "ABCD", "ABCD", 1, 3) == (-3, Left);
    assert Cell(DefaultScoring, "ABCD", "ABCD", 1, 4) == (-5, Left);
    assert Cell(DefaultScoring, "ABCD", "ABCD", 2, 1) == (-1, Up);
    assert Cell(DefaultScoring, "ABCD", "ABCD", 2, 2) == (2, Diag);
    assert Cell(DefaultScoring, "ABCD", "ABCD", 2, 3) == (0, Left);
    assert Cell(DefaultScoring, "ABCD", "ABCD", 2, 4) == (-2, Left);
    assert Cell(DefaultScoring, "ABCD", "ABCD", 3, 1) == (-3, Up);
    assert Cell(DefaultScoring, "ABCD", "ABCD", 3, 2) == (0, Up);
    assert Cell(DefaultScoring, "ABCD", "ABCD", 3, 3) == (3, Diag);
    assert Cell(DefaultScoring, "ABCD", "ABCD", 3, 4) == (1, Left);
    assert Cell(DefaultScoring, "ABCD", "ABCD", 4, 1) == (-5, Up);
    assert Cell(DefaultScoring, "ABCD", "ABCD", 4, 2) == (-2, Up);
    assert Cell(DefaultScoring, "ABCD", "ABCD", 4, 3) == (1, Up);
    assert Cell(DefaultScoring, "ABCD", "ABCD", 4, 4) == (4, Diag);
  }

  lemma AlignSelf()
    ensures Traceback(DefaultScoring, "ABCD", "ABCD", 4, 4) == ("ABCD", "ABCD")
  {
    AlignSelfTrace();
    assert Traceback(DefaultScoring, "ABCD", "ABCD", 1, 1).0 == "" + ['A'] == "A";
    assert Traceback(DefaultScoring, "ABCD", "ABCD", 1, 1).1 == "" + ['A'] == "A";
    assert Traceback(DefaultScoring, "ABCD", "ABCD", 2, 2).0 == "A" + ['B'] == "AB";
    assert Traceback(DefaultScoring, "ABCD", "ABCD", 2, 2).1 == "A" + ['B'] == "AB";
    assert Traceback(DefaultScoring, "ABCD", "ABCD", 3, 3).0 == "AB" + ['C'] == "ABC";
    assert Traceback(DefaultScoring, "ABCD", "ABCD", 3, 3).1 == "AB" + ['C'] == "ABC";
    assert Traceback(DefaultScoring, "ABCD", "ABCD", 4, 4).0 == "ABC" + ['D'] == "ABCD";
    assert Traceback(DefaultScoring, "ABCD", "ABCD", 4, 4).1 == "ABC" + ['D'] == "ABCD";
  }

  lemma AlignShiftedTrace()
    ensures TraceAt(DefaultScoring, "ABCD", "XABC", 0, 1) == Left
    ensures TraceAt(DefaultScoring, "ABCD", "XABC", 1, 2) == Diag
    ensures TraceAt(DefaultScoring, "ABCD", "XABC", 2, 3) == Diag
    ensures TraceAt(DefaultScoring, "ABCD", "XABC", 3, 4) == Diag
    ensures TraceAt(DefaultScoring, "ABCD", "XABC", 4, 4) == Up
  {
    assert Cell(DefaultScoring, "ABCD", "XABC", 1, 1) == (-1, Diag);
    assert Cell(DefaultScoring, "ABCD", "XABC", 1, 2) == (-1, Diag);
    assert Cell(DefaultScoring, "ABCD", "XABC", 1, 3) == (-3, Left);
    assert Cell(DefaultScoring, "ABCD", "XABC", 1, 4) == (-5, Left);
    assert Cell(DefaultScoring, "ABCD", "XABC", 2, 1) == (-3, Diag);
    assert Cell(DefaultScoring, "ABCD", "XABC", 2, 2) == (-2, Diag);
    assert Cell(DefaultScoring, "ABCD", "XABC", 2, 3) == (0, Diag);
    assert Cell(DefaultScoring, "ABCD", "XABC", 2, 4) == (-2, Left);
    assert Cell(DefaultScoring, "ABCD", "XABC", 3, 1) == (-5, Diag);
    assert Cell(DefaultScoring, "ABCD", "XABC", 3, 2) == (-4, Diag);
    assert Cell(DefaultScoring, "ABCD", "XABC", 3, 3) == (-2, Up);
    assert Cell(DefaultScoring, "ABCD", "XABC", 3, 4) == (1, Diag);
    assert Cell(DefaultScoring, "ABCD", "XABC", 4, 1) == (-7, Diag);
    assert Cell(DefaultScoring, "ABCD", "XABC", 4, 2) == (-6, Diag);
    assert Cell(DefaultScoring, "ABCD", "XABC", 4, 3) == (-4, Up);
    assert Cell(DefaultScoring, "ABCD", "XABC", 4, 4) == (-1, Up);
  }

  lemma AlignShiftedPrefix()
    ensures Traceback(DefaultScoring, "ABCD", "XABC", 2, 3) == ("-AB", "XAB")
  {
    AlignShiftedTrace();
    assert Traceback(DefaultScoring, "ABCD", "XABC", 0, 1).0 == "" + ['-'] == "-";
    assert Traceback(DefaultScoring, "ABCD", "XABC", 0, 1).1 == "" + ['X'] == "X";
    assert Traceback(DefaultScoring, "ABCD", "XABC", 1, 2).0 == "-" + ['A'] == "-A";
    assert Traceback(DefaultScoring, "ABCD", "XABC", 1, 2).1 == "X" + ['A'] == "XA";
    assert Traceback(DefaultScoring, "ABCD", "XABC", 2, 3).0 == "-A" + ['B'] == "-AB";
    assert Traceback(DefaultScoring, "ABCD", "XABC", 2, 3).1 == "XA" + ['B'] == "XAB";
  }

  lemma AlignShifted()
    ensures Traceback(DefaultScoring, "ABCD", "XABC", 4, 4) == ("-ABCD", "XABC-")
  {
    AlignShiftedTrace();
    AlignShiftedPrefix();
    assert Traceback(DefaultScoring, "ABCD", "XABC", 3, 4).0 == "-AB" + ['C'] == "-ABC";
    assert Traceback(DefaultScoring, "ABCD", "XABC", 3, 4).1 == "XAB" + ['C'] == "XABC";
    assert Traceback(DefaultScoring, "ABCD", "XABC", 4, 4).0 == "-ABC" + ['D'] == "-ABCD";
    assert Traceback(DefaultScoring, "ABCD", "XABC", 4, 4).1 == "XABC" + ['-'] == "XABC-";
  }

  lemma AlignShortTrace()
    ensures TraceAt(DefaultScoring, "ABCD", "AB", 1, 1) == Diag
    ensures TraceAt(DefaultScoring, "ABCD", "AB", 2, 2) == Diag
    ensures TraceAt(DefaultScoring, "ABCD", "AB", 3, 2) == Up
    ensures TraceAt(DefaultScoring, "ABCD", "AB", 4, 2) == Up
  {
    assert Cell(DefaultScoring, "ABCD", "AB", 1, 1) == (1, Diag);
    assert Cell(DefaultScoring, "ABCD", "AB", 1, 2) == (-1, Left);
    assert Cell(DefaultScoring, "ABCD", "AB", 2, 1) == (-1, Up);
    assert Cell(DefaultScoring, "ABCD", "AB", 2, 2) == (2, Diag);
    assert Cell(DefaultScoring, "ABCD", "AB", 3, 1) == (-3, Up);
    assert Cell(DefaultScoring, "ABCD", "AB", 3, 2) == (0, Up);
    assert Cell(DefaultScoring, "ABCD", "AB", 4, 1) == (-5, Up);
    assert Cell(DefaultScoring, "ABCD", "AB", 4, 2) == (-2, Up);
  }

  lemma AlignShort()
    ensures Traceback(DefaultScoring, "ABCD", "AB", 4, 2) == ("ABCD", "AB--")
  {
    AlignShortTrace();
    assert Traceback(DefaultScoring, "ABCD", "AB", 1, 1).0 == "" + ['A'] == "A";
    assert Traceback(DefaultScoring, "ABCD", "AB", 1, 1).1 == "" + ['A'] == "A";
    assert Traceback(DefaultScoring, "ABCD", "AB", 2, 2).0 == "A" + ['B'] == "AB";
    assert Traceback(DefaultScoring, "ABCD", "AB", 2, 2).1 == "A" + ['B'] == "AB";
    assert Traceback(DefaultScoring, "ABCD", "AB", 3, 2).0 == "AB" + ['C'] == "ABC";
    assert Traceback(DefaultScoring, "ABCD", "AB", 3, 2).1 == "AB" + ['-'] == "AB-";
    assert Traceback(DefaultScoring, "ABCD", "AB", 4, 2).0 == "ABC" + ['D'] == "ABCD";
    assert Traceback(DefaultScoring, "ABCD", "AB", 4, 2).1 == "AB-" + ['-'] == "AB--";
  }

  // ---------------------------------------------------------------------
  // gap_pattern_from_aligned_base of the two aligned bases that occur
  // ---------------------------------------------------------------------

  lemma PatternSelf()
    ensures GapPattern("ABCD", "ABCD") == [0, 0, 0, 0, 0]
  {
    assert "ABCD"[..3] == "ABC";
    assert "ABC"[..2] == "AB";
    assert "AB"[..1] == "A";
    assert "A"[..0] == "";
    assert PatScan(4, "A") == PatState([0, 0, 0, 0, 0], 1, 0);
    assert PatScan(4, "AB") == PatState([0, 0, 0, 0, 0], 2, 0);
    assert PatScan(4, "ABC") == PatState([0, 0, 0, 0, 0], 3, 0);
    assert PatScan(4, "ABCD") == PatState([0, 0, 0, 0, 0], 4, 0);
  }

  lemma PatternShifted()
    ensures GapPattern("ABCD", "-ABCD") == [1, 0, 0, 0, 0]
  {
    assert "-ABCD"[..4] == "-ABC";
    assert "-ABC"[..3] == "-AB";
    assert "-AB"[..2] == "-A";
    assert "-A"[..1] == "-";
    assert "-"[..0] == "";
    assert PatScan(4, "-") == PatState([0, 0, 0, 0, 0], 0, 1);
    assert PatScan(4, "-A") == PatState([1, 0, 0, 0, 0], 1, 0);
    assert PatScan(4, "-AB") == PatState([1, 0, 0, 0, 0], 2, 0);
    assert PatScan(4, "-ABC") == PatState([1, 0, 0, 0, 0], 3, 0);
    assert PatScan(4, "-ABCD") == PatState([1, 0, 0, 0, 0], 4, 0);
  }

  // ---------------------------------------------------------------------
  // expand_to_pattern of every row the loop expands or re-expands: the
  // residue counts, the marks (aln_base), the woven rounds, the result
  // ---------------------------------------------------------------------

  lemma ExpandFirstCount()
    ensures Ungap("A") == "A"
    ensures Ungap("AB") == "AB"
    ensures Ungap("ABC") == "ABC"
    ensures Ungap("ABCD") == "ABCD"
  {
    assert "ABCD"[..3] == "ABC";
    assert "ABC"[..2] == "AB";
    assert "AB"[..1] == "A";
    assert "A"[..0] == "";
    assert Ungap("A") == "A";
    assert Ungap("AB") == "AB";
    assert Ungap("ABC") == "ABC";
    assert Ungap("ABCD") == "ABCD";
  }

  lemma ExpandFirstMarks()
    ensures NonGapCount("ABCD") == 4
    ensures Marks("ABCD", "ABCD") == "ABCD"
  {
    ExpandFirstCount();
    assert "ABCD"[..3] == "ABC";
    assert "ABC"[..2] == "AB";
    assert "AB"[..1] == "A";
    assert "A"[..0] == "";
    assert Marks("ABCD", "A") == "A";
    assert Marks("ABCD", "AB") == "AB";
    assert Marks("ABCD", "ABC") == "ABC";
    assert Marks("ABCD", "ABCD") == "ABCD";
  }

  lemma ExpandFirstCursors()
    ensures Cursor("ABCD", 0) == 0
    ensures Cursor("ABCD", 1) == 1
    ensures Cursor("ABCD", 2) == 2
    ensures Cursor("ABCD", 3) == 3
    ensures Cursor("ABCD", 4) == 4
  {
    assert Cursor("ABCD", 0) == 0;
    assert Cursor("ABCD", 1) == 1;
    assert Cursor("ABCD", 2) == 2;
    assert Cursor("ABCD", 3) == 3;
    assert Cursor("ABCD", 4) == 4;
  }

  lemma ExpandFirstWoven()
    ensures Woven("ABCD", "ABCD", [0, 0, 0, 0, 0], 4) == "ABCD"
  {
    ExpandFirstCursors();
    assert Dashes(0) == "";
    assert Woven("ABCD", "ABCD", [0, 0, 0, 0, 0], 1) == "" + "" + "ABCD"[0..1] == "A";
    assert Woven("ABCD", "ABCD", [0, 0, 0, 0, 0], 2) == "A" + "" + "ABCD"[1..2] == "AB";
    assert Woven("ABCD", "ABCD", [0, 0, 0, 0, 0], 3) == "AB" + "" + "ABCD"[2..3] == "ABC";
    assert Woven("ABCD", "ABCD", [0, 0, 0, 0, 0], 4) == "ABC" + "" + "ABCD"[3..4] == "ABCD";
  }

  lemma ExpandFirst()
    ensures Expand("ABCD", "ABCD", [0, 0, 0, 0, 0]) == Ok("ABCD")
  {
    ExpandFirstMarks();
    ExpandFirstWoven();
    assert Dashes(0) == "";
    assert "ABCD" + "" == "ABCD";
  }

  lemma ReexpandFirstWoven()
    ensures Woven("ABCD", "ABCD", [1, 0, 0, 0, 0], 4) == "-ABCD"
  {
    ExpandFirstCursors();
    assert Dashes(0) == "";
    assert Dashes(1) == "-";
    assert Woven("ABCD", "ABCD", [1, 0, 0, 0, 0], 1) == "" + "-" + "ABCD"[0..1] == "-A";
    assert Woven("ABCD", "ABCD", [1, 0, 0, 0, 0], 2) == "-A" + "" + "ABCD"[1..2] == "-AB";
    assert Woven("ABCD", "ABCD", [1, 0, 0, 0, 0], 3) == "-AB" + "" + "ABCD"[2..3] == "-ABC";
    assert Woven("ABCD", "ABCD", [1, 0, 0, 0, 0], 4) == "-ABC" + "" + "ABCD"[3..4] == "-ABCD";
  }

  lemma ReexpandFirst()
    ensures Expand("ABCD", "ABCD", [1, 0, 0, 0, 0]) == Ok("-ABCD")
  {
    ExpandFirstMarks();
    ReexpandFirstWoven();
    assert Dashes(0) == "";
    assert "-ABCD" + "" == "-ABCD";
  }

  lemma ExpandSecondCount()
    ensures Ungap("X") == "X"
    ensures Ungap("XA") == "XA"
    ensures Ungap("XAB") == "XAB"
    ensures Ungap("XABC") == "XABC"
    ensures Ungap("XABC-") == "XABC"
  {
    assert "XABC-"[..4] == "XABC";
    assert "XABC"[..3] == "XAB";
    assert "XAB"[..2] == "XA";
    assert "XA"[..1] == "X";
    assert "X"[..0] == "";
    assert Ungap("X") == "X";
    assert Ungap("XA") == "XA";
    assert Ungap("XAB") == "XAB";
    assert Ungap("XABC") == "XABC";
    assert Ungap("XABC-") == "XABC";
  }

  lemma ExpandSecondMarks()
    ensures NonGapCount("XABC-") == 4
    ensures Marks("ABCD", "XABC-") == "ABCD-"
  {
    ExpandSecondCount();
    assert "XABC-"[..4] == "XABC";
    assert "XABC"[..3] == "XAB";
    assert "XAB"[..2] == "XA";
    assert "XA"[..1] == "X";
    assert "X"[..0] == "";
    assert Marks("ABCD", "X") == "A";
    assert Marks("ABCD", "XA") == "AB";
    assert Marks("ABCD", "XAB") == "ABC";
    assert Marks("ABCD", "XABC") == "ABCD";
    assert Marks("ABCD", "XABC-") == "ABCD-";
  }

  lemma ExpandSecondCursors()
    ensures Cursor("ABCD-", 0) == 0
    ensures Cursor("ABCD-", 1) == 1
    ensures Cursor("ABCD-", 2) == 2
    ensures Cursor("ABCD-", 3) == 3
    ensures Cursor("ABCD-", 4) == 4
  {
    assert Cursor("ABCD-", 0) == 0;
    assert Cursor("ABCD-", 1) == 1;
    assert Cursor("ABCD-", 2) == 2;
    assert Cursor("ABCD-", 3) == 3;
    assert Cursor("ABCD-", 4) == 4;
  }

  lemma ExpandSecondWoven()
    ensures Woven("XABC-", "ABCD-", [1, 0, 0, 0, 0], 4) == "-XABC"
  {
    ExpandSecondCursors();
    assert Dashes(0) == "";
    assert Dashes(1) == "-";
    assert Woven("XABC-", "ABCD-", [1, 0, 0, 0, 0], 1) == "" + "-" + "XABC-"[0..1] == "-X";
    assert Woven("XABC-", "ABCD-", [1, 0, 0, 0, 0], 2) == "-X" + "" + "XABC-"[1..2] == "-XA";
    assert Woven("XABC-", "ABCD-", [1, 0, 0, 0, 0], 3) == "-XA" + "" + "XABC-"[2..3] == "-XAB";
    assert Woven("XABC-", "ABCD-", [1, 0, 0, 0, 0], 4) == "-XAB" + "" + "XABC-"[3..4] == "-XABC";
  }

  lemma ExpandSecond()
    ensures Expand("ABCD", "XABC-", [1, 0, 0, 0, 0]) == Ok("-XABC")
  {
    ExpandSecondMarks();
    ExpandSecondWoven();
    assert Dashes(0) == "";
    assert "-XABC" + "" == "-XABC";
  }

  lemma ReexpandFirstAgainCount()
    ensures Ungap("-") == ""
    ensures Ungap("-A") == "A"
    ensures Ungap("-AB") == "AB"
    ensures Ungap("-ABC") == "ABC"
    ensures Ungap("-ABCD") == "ABCD"
  {
    assert "-ABCD"[..4] == "-ABC";
    assert "-ABC"[..3] == "-AB";
    assert "-AB"[..2] == "-A";
    assert "-A"[..1] == "-";
    assert "-"[..0] == "";
    assert Ungap("-") == "";
    assert Ungap("-A") == "A";
    assert Ungap("-AB") == "AB";
    assert Ungap("-ABC") == "ABC";
    assert Ungap("-ABCD") == "ABCD";
  }

  lemma ReexpandFirstAgainMarks()
    ensures NonGapCount("-ABCD") == 4
    ensures Marks("ABCD", "-ABCD") == "-ABCD"
  {
    ReexpandFirstAgainCount();
    assert "-ABCD"[..4] == "-ABC";
    assert "-ABC"[..3] == "-AB";
    assert "-AB"[..2] == "-A";
    assert "-A"[..1] == "-";
    assert "-"[..0] == "";
    assert Marks("ABCD", "-") == "-";
    assert Marks("ABCD", "-A") == "-A";
    assert Marks("ABCD", "-AB") == "-AB";
    assert Marks("ABCD", "-ABC") == "-ABC";
    assert Marks("ABCD", "-ABCD") == "-ABCD";
  }

  lemma ReexpandFirstAgainCursors()
    ensures Cursor("-ABCD", 0) == 0
    ensures Cursor("-ABCD", 1) == 2
    ensures Cursor("-ABCD", 2) == 3
    ensures Cursor("-ABCD", 3) == 4
    ensures Cursor("-ABCD", 4) == 5
  {
    assert Cursor("-ABCD", 0) == 0;
    assert Cursor("-ABCD", 1) == 2;
    assert Cursor("-ABCD", 2) == 3;
    assert Cursor("-ABCD", 3) == 4;
    assert Cursor("-ABCD", 4) == 5;
  }

  lemma ReexpandFirstAgainWoven()
    ensures Woven("-ABCD", "-ABCD", [1, 0, 0, 0, 0], 4) == "--ABCD"
  {
    ReexpandFirstAgainCursors();
    assert Dashes(0) == "";
    assert Dashes(1) == "-";
    assert Woven("-ABCD", "-ABCD", [1, 0, 0, 0, 0], 1) == "" + "-" + "-ABCD"[0..2] == "--A";
    assert Woven("-ABCD", "-ABCD", [1, 0, 0, 0, 0], 2) == "--A" + "" + "-ABCD"[2..3] == "--AB";
    assert Woven("-ABCD", "-ABCD", [1, 0, 0, 0, 0], 3) == "--AB" + "" + "-ABCD"[3..4] == "--ABC";
    assert Woven("-ABCD", "-ABCD", [1, 0, 0, 0, 0], 4) == "--ABC" + "" + "-ABCD"[4..5] == "--ABCD";
  }

  lemma ReexpandFirstAgain()
    ensures Expand("ABCD", "-ABCD", [1, 0, 0, 0, 0]) == Ok("--ABCD")
  {
    ReexpandFirstAgainMarks();
    ReexpandFirstAgainWoven();
    assert Dashes(0) == "";
    assert "--ABCD" + "" == "--ABCD";
  }

  lemma ReexpandSecondCount()
    ensures Ungap("-") == ""
    ensures Ungap("-X") == "X"
    ensures Ungap("-XA") == "XA"
    ensures Ungap("-XAB") == "XAB"
    ensures Ungap("-XABC") == "XABC"
  {
    assert "-XABC"[..4] == "-XAB";
    assert "-XAB"[..3] == "-XA";
    assert "-XA"[..2] == "-X";
    assert "-X"[..1] == "-";
    assert "-"[..0] == "";
    assert Ungap("-") == "";
    assert Ungap("-X") == "X";
    assert Ungap("-XA") == "XA";
    assert Ungap("-XAB") == "XAB";
    assert Ungap("-XABC") == "XABC";
  }

  lemma ReexpandSecondMarks()
    ensures NonGapCount("-XABC") == 4
    ensures Marks("ABCD", "-XABC") == "-ABCD"
  {
    ReexpandSecondCount();
    assert "-XABC"[..4] == "-XAB";
    assert "-XAB"[..3] == "-XA";
    assert "-XA"[..2] == "-X";
    assert "-X"[..1] == "-";
    assert "-"[..0] == "";
    assert Marks("ABCD", "-") == "-";
    assert Marks("ABCD", "-X") == "-A";
    assert Marks("ABCD", "-XA") == "-AB";
    assert Marks("ABCD", "-XAB") == "-ABC";
    assert Marks("ABCD", "-XABC") == "-ABCD";
  }

  lemma ReexpandSecondWoven()
    ensures Woven("-XABC", "-ABCD", [1, 0, 0, 0, 0], 4) == "--XABC"
  {
    ReexpandFirstAgainCursors();
    assert Dashes(0) == "";
    assert Dashes(1) == "-";
    assert Woven("-XABC", "-ABCD", [1, 0, 0, 0, 0], 1) == "" + "-" + "-XABC"[0..2] == "--X";
    assert Woven("-XABC", "-ABCD", [1, 0, 0, 0, 0], 2) == "--X" + "" + "-XABC"[2..3] == "--XA";
    assert Woven("-XABC", "-ABCD", [1, 0, 0, 0, 0], 3) == "--XA" + "" + "-XABC"[3..4] == "--XAB";
    assert Woven("-XABC", "-ABCD", [1, 0, 0, 0, 0], 4) == "--XAB" + "" + "-XABC"[4..5] == "--XABC";
  }

  lemma ReexpandSecond()
    ensures Expand("ABCD", "-XABC", [1, 0, 0, 0, 0]) == Ok("--XABC")
  {
    ReexpandSecondMarks();
    ReexpandSecondWoven();
    assert Dashes(0) == "";
    assert "--XABC" + "" == "--XABC";
  }

  lemma ExpandThirdCount()
    ensures Ungap("A") == "A"
    ensures Ungap("AB") == "AB"
    ensures Ungap("AB-") == "AB"
    ensures Ungap("AB--") == "AB"
  {
    assert "AB--"[..3] == "AB-";
    assert "AB-"[..2] == "AB";
    assert "AB"[..1] == "A";
    assert "A"[..0] == "";
    assert Ungap("A") == "A";
    assert Ungap("AB") == "AB";
    assert Ungap("AB-") == "AB";
    assert Ungap("AB--") == "AB";
  }

  lemma ExpandThirdMarks()
    ensures NonGapCount("AB--") == 2
    ensures Marks("ABCD", "AB--") == "AB--"
  {
    ExpandThirdCount();
    assert "AB--"[..3] == "AB-";
    assert "AB-"[..2] == "AB";
    assert "AB"[..1] == "A";
    assert "A"[..0] == "";
    assert Marks("ABCD", "A") == "A";
    assert Marks("ABCD", "AB") == "AB";
    assert Marks("ABCD", "AB-") == "AB-";
    assert Marks("ABCD", "AB--") == "AB--";
  }

  lemma ExpandThirdCursors()
    ensures Cursor("AB--", 0) == 0
    ensures Cursor("AB--", 1) == 1
    ensures Cursor("AB--", 2) == 2
    ensures Cursor("AB--", 3) == 4
    ensures Cursor("AB--", 4) == 4
  {
    assert Cursor("AB--", 0) == 0;
    assert Cursor("AB--", 1) == 1;
    assert Cursor("AB--", 2) == 2;
    assert Cursor("AB--", 3) == 4;
    assert Cursor("AB--", 4) == 4;
  }

  lemma ExpandThirdWoven()
    ensures Woven("AB--", "AB--", [1, 0, 0, 0, 0], 4) == "-AB--"
  {
    ExpandThirdCursors();
    assert Dashes(0) == "";
    assert Dashes(1) == "-";
    assert Woven("AB--", "AB--", [1, 0, 0, 0, 0], 1) == "" + "-" + "AB--"[0..1] == "-A";
    assert Woven("AB--", "AB--", [1, 0, 0, 0, 0], 2) == "-A" + "" + "AB--"[1..2] == "-AB";
    assert Woven("AB--", "AB--", [1, 0, 0, 0, 0], 3) == "-AB" + "" + "AB--"[2..4] == "-AB--";
    assert Woven("AB--", "AB--", [1, 0, 0, 0, 0], 4) == "-AB--" + "" + "AB--"[4..4] == "-AB--";
  }

  lemma ExpandThird()
    ensures Expand("ABCD", "AB--", [1, 0, 0, 0, 0]) == Ok("-AB--")
  {
    ExpandThirdMarks();
    ExpandThirdWoven();
    assert Dashes(0) == "";
    assert "-AB--" + "" == "-AB--";
  }


  // ---------------------------------------------------------------------
  // The three iterations of the loop and the final sort
  // ---------------------------------------------------------------------

  /** One iteration of the loop, given its four ingredients. */
  lemma StepFrom(sc: Scoring, base: string, st: Star, e: Entry,
                 alnBase: string, alnSeq: string, merged: seq<nat>, prev: seq<string>, sNew: string)
    requires Traceback(sc, base, e.residues, |base|, |e.residues|) == (alnBase, alnSeq)
    requires MergeMax(st.master, GapPattern(base, alnBase)) == merged
    requires ExpandAll(base, st.rows, merged) == Ok(prev)
    requires Expand(base, alnSeq, merged) == Ok(sNew)
    ensures StarStep(sc, base, st, e) == Ok(Star(merged, st.headers + [e.header], prev + [sNew]))
  {
  }

  lemma MergeShifted()
    ensures MergeMax([0, 0, 0, 0, 0], [1, 0, 0, 0, 0]) == [1, 0, 0, 0, 0]
  {
    var r := MergeMax([0, 0, 0, 0, 0], [1, 0, 0, 0, 0]);
    assert r[0] == 1 && r[1] == 0 && r[2] == 0 && r[3] == 0 && r[4] == 0;
  }

  lemma MergeKept()
    ensures MergeMax([1, 0, 0, 0, 0], [0, 0, 0, 0, 0]) == [1, 0, 0, 0, 0]
  {
    var r := MergeMax([1, 0, 0, 0, 0], [0, 0, 0, 0, 0]);
    assert r[0] == 1 && r[1] == 0 && r[2] == 0 && r[3] == 0 && r[4] == 0;
  }

  lemma ReexpandAllOnce()
    ensures ExpandAll("ABCD", ["ABCD"], [1, 0, 0, 0, 0]) == Ok(["-ABCD"])
  {
    ReexpandFirst();
    assert ["ABCD"][1..] == [];
    assert ["-ABCD"] + [] == ["-ABCD"];
  }

  lemma ReexpandAllTwice()
    ensures ExpandAll("ABCD", ["-ABCD", "-XABC"], [1, 0, 0, 0, 0]) == Ok(["--ABCD", "--XABC"])
  {
    ReexpandFirstAgain();
    ReexpandSecond();
    assert ["-ABCD", "-XABC"][1..] == ["-XABC"];
    assert ["-XABC"][1..] == [];
    assert ["--XABC"] + [] == ["--XABC"];
    assert ExpandAll("ABCD", ["-XABC"], [1, 0, 0, 0, 0]) == Ok(["--XABC"]);
    assert ["--ABCD"] + ["--XABC"] == ["--ABCD", "--XABC"];
  }

  /** The three entries of the example. */
  function Input(): seq<Entry>
  {
    [Entry("s1", "ABCD"), Entry("s2", "XABC"), Entry("s3", "AB")]
  }

  /** s1: its own alignment adds no gap. */
  lemma StepOne()
    ensures StarStep(DefaultScoring, "ABCD", Star([0, 0, 0, 0, 0], [], []), Input()[0])
              == Ok(Star([0, 0, 0, 0, 0], ["s1"], ["ABCD"]))
  {
    var e := Input()[0];
    var st := Star([0, 0, 0, 0, 0], [], []);
    assert st.headers + [e.header] == ["s1"];
    assert [] + ["ABCD"] == ["ABCD"];
    AlignSelf();
    PatternSelf();
    ExpandFirst();
    StepFrom(DefaultScoring, "ABCD", st, e, "ABCD", "ABCD", [0, 0, 0, 0, 0], [], "ABCD");
  }

  /** s2: one gap before the base, so s1 is re-expanded to "-ABCD"; the
      trailing gap of the aligned s2 is lost. */
  lemma StepTwo()
    ensures StarStep(DefaultScoring, "ABCD", Star([0, 0, 0, 0, 0], ["s1"], ["ABCD"]), Input()[1])
              == Ok(Star([1, 0, 0, 0, 0], ["s1", "s2"], ["-ABCD", "-XABC"]))
  {
    var e := Input()[1];
    var st := Star([0, 0, 0, 0, 0], ["s1"], ["ABCD"]);
    assert st.headers + [e.header] == ["s1", "s2"];
    assert ["-ABCD"] + ["-XABC"] == ["-ABCD", "-XABC"];
    AlignShifted();
    PatternShifted();
    MergeShifted();
    ReexpandAllOnce();
    ExpandSecond();
    StepFrom(DefaultScoring, "ABCD", st, e, "-ABCD", "XABC-", [1, 0, 0, 0, 0], ["-ABCD"], "-XABC");
  }

  /** s3: the pattern does not change, yet the earlier rows gain a second
      leading gap when re-expanded. */
  lemma StepThree()
    ensures StarStep(DefaultScoring, "ABCD", Star([1, 0, 0, 0, 0], ["s1", "s2"], ["-ABCD", "-XABC"]), Input()[2])
              == Ok(Star([1, 0, 0, 0, 0], ["s1", "s2", "s3"], ["--ABCD", "--XABC", "-AB--"]))
  {
    var e := Input()[2];
    var st := Star([1, 0, 0, 0, 0], ["s1", "s2"], ["-ABCD", "-XABC"]);
    assert st.headers + [e.header] == ["s1", "s2", "s3"];
    assert ["--ABCD", "--XABC"] + ["-AB--"] == ["--ABCD", "--XABC", "-AB--"];
    AlignShort();
    PatternSelf();
    MergeKept();
    ReexpandAllTwice();
    ExpandThird();
    StepFrom(DefaultScoring, "ABCD", st, e, "ABCD", "AB--", [1, 0, 0, 0, 0], ["--ABCD", "--XABC"], "-AB--");
  }

  lemma LoopOfExample()
    ensures Run(DefaultScoring, "ABCD", Start("ABCD"), Input())
              == Ok(Star([1, 0, 0, 0, 0], ["s1", "s2", "s3"], ["--ABCD", "--XABC", "-AB--"]))
  {
    var es := Input();
    assert Start("ABCD") == Star([0, 0, 0, 0, 0], [], []);
    StepOne();
    StepTwo();
    StepThree();
    RunUnfold(DefaultScoring, "ABCD", Star([0, 0, 0, 0, 0], [], []), es);
    assert es[1..][0] == es[1] && es[1..][1..] == es[2..];
    RunUnfold(DefaultScoring, "ABCD", Star([0, 0, 0, 0, 0], ["s1"], ["ABCD"]), es[1..]);
    assert es[2..][0] == es[2] && es[2..][1..] == [];
    RunUnfold(DefaultScoring, "ABCD", Star([1, 0, 0, 0, 0], ["s1", "s2"], ["-ABCD", "-XABC"]), es[2..]);
  }

  /** The rows center_star_align returns for Input(). */
  function Output(): seq<Entry>
  {
    [Entry("s1", "--ABCD"), Entry("s2", "--XABC"), Entry("s3", "-AB--")]
  }

  lemma SortOfExample()
    ensures SortByKey(Order(Input()), Zip(["s1", "s2", "s3"], ["--ABCD", "--XABC", "-AB--"])) == Output()
  {
    var zipped := Zip(["s1", "s2", "s3"], ["--ABCD", "--XABC", "-AB--"]);
    assert zipped == Output();
    var order := Order(Input());
    assert Key(order, zipped[0]) == 0 && Key(order, zipped[1]) == 1 && Key(order, zipped[2]) == 2;
    SortKeepsSorted(order, zipped);
  }

  /** center_star_align on Input() succeeds with rows of lengths 6, 6 and 5:
      not an alignment. */
  lemma UnequalRows()
    ensures CenterStarResult(DefaultScoring, Input()) == Ok(Output())
    ensures !AllEqualLength(Output())
  {
    assert |Output()[2].residues| != |Output()[0].residues|;
    assert LongestIndex(Input()) == 0;
    SortOfExample();
    LoopOfExample();
  }

  /** The fallback path of the pipeline on Input(): no external aligner is
      found, the center-star rows differ in length, and the pipeline
      reports AlignmentFailed instead of filtering them. */
  lemma PipelineRejectsExample(p: FilterParams, toolOutput: Result<seq<string>>)
    ensures PipelineResult(Input(), AlignOptions(true, "auto", false, false, toolOutput, true), p)
              == Err(AlignmentFailed)
  {
    assert |Input()[2].residues| != |Input()[0].residues|;
    assert Lower("auto") == "auto";
    UnequalRows();
  }
}
