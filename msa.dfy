/** Shared vocabulary of the trimmer: labelled sequence entries, the gap
    symbol, the errors the engine raises, and the equal-length test that
    decides whether a list of entries is already a multiple alignment
    (gblock.py:30-31). */
module Msa {

  /** The gap symbol '-' used by every aligned residue string. */
  const GAP: char := '-'

  /** A FASTA record: (header, residues). */
  datatype Entry = Entry(header: string, residues: string)

  /** The exceptions the engine raises, one constructor per raise site kind. */
  datatype Error =
    | NoEntries         // ValueError("No FASTA entries found.")
    | UnequalLengths    // ValueError from gblock_filter
    | AlignmentFailed   // ValueError from gblock_pipeline after alignment
    | NoAligner         // RuntimeError from auto_align_if_needed
    | IndexOutOfRange   // IndexError in expand_to_pattern
    | ExternalFailed    // RuntimeError raised by an external aligner run
    | EmptySequence     // ValueError from max() over no entries

  datatype Option<+T> = None | Some(value: T)

  /** Success or one of the engine's errors; usable with `:-`. */
  datatype Result<+T> = Ok(value: T) | Err(error: Error) {
    predicate IsFailure() { Err? }
    function PropagateFailure<U>(): Result<U>
      requires Err?
    {
      Err(error)
    }
    function Extract(): T
      requires Ok?
    {
      value
    }
  }

  /** `s` with every gap symbol deleted. */
  function Ungap(s: string): (r: string)
    ensures |r| <= |s|

  {
    if s == [] then []
    else Ungap(s[..|s| - 1]) + (if s[|s| - 1] == GAP then [] else [s[|s| - 1]])
  }

  /** Number of non-gap characters of `s`. */
  function NonGapCount(s: string): nat
  {
    |Ungap(s)|
  }

  /** Number of gap symbols in `s`. */
  function GapCount(s: string): (r: nat)
    ensures r + NonGapCount(s) == |s|
  {
    if s == [] then 0
    else GapCount(s[..|s| - 1]) + (if s[|s| - 1] == GAP then 1 else 0)
  }

  /** Python's '-' * n. */
  function Dashes(n: nat): (r: string)
    ensures |r| == n
    ensures forall k :: 0 <= k < n ==> r[k] == GAP
  {
    seq(n, _ => GAP)
  }

  /** True when every character of `s` is a gap. */
  predicate AllGaps(s: string)
  {
    forall k :: 0 <= k < |s| ==> s[k] == GAP
  }

  lemma UngapSnoc(s: string, c: char)
    ensures Ungap(s + [c]) == Ungap(s) + (if c == GAP then [] else [c])
  {
    assert (s + [c])[..|s|] == s;
  }

  lemma UngapPrefixSnoc(s: string, i: nat)
    requires 0 < i <= |s|
    ensures Ungap(s[..i]) == Ungap(s[..i - 1]) + (if s[i - 1] == GAP then [] else [s[i - 1]])
  {
    assert s[..i] == s[..i - 1] + [s[i - 1]];
    UngapSnoc(s[..i - 1], s[i - 1]);
  }

  lemma {:induction false} UngapAppend(s: string, t: string)
    ensures Ungap(s + t) == Ungap(s) + Ungap(t)
    decreases |t|
  {
    if t == [] {
      assert s + t == s;
    } else {
      var t' := t[..|t| - 1];
      assert (s + t)[..|s + t| - 1] == s + t';
      UngapAppend(s, t');
    }
  }

  lemma {:induction false} UngapOfAllGaps(s: string)
    requires AllGaps(s)
    ensures Ungap(s) == []
    decreases |s|
  {
    if s != [] {
      UngapOfAllGaps(s[..|s| - 1]);
    }
  }

  lemma {:induction false} UngapEmptyIsAllGaps(s: string)
    requires Ungap(s) == []
    ensures AllGaps(s)
    decreases |s|
  {
    if s != [] {
      UngapEmptyIsAllGaps(s[..|s| - 1]);
    }
  }

  lemma UngapDashes(n: nat)
    ensures Ungap(Dashes(n)) == []
  {
    UngapOfAllGaps(Dashes(n));
  }

  /** A string without gap symbols is its own ungapped form. */
  lemma {:induction false} UngapOfGapFree(s: string)
    requires GAP !in s
    ensures Ungap(s) == s
    decreases |s|
  {
    if s != [] {
      UngapOfGapFree(s[..|s| - 1]);
    }
  }

  /** all_equal_length (gblock.py:30-31): the set of residue lengths has
      exactly one element, so an empty list is NOT equal-length. */
  function AllEqualLength(entries: seq<Entry>): (r: bool)
    ensures r <==>
              (|entries| > 0 &&
               forall k :: 0 <= k < |entries| ==> |entries[k].residues| == |entries[0].residues|)
  {
    var lengths := set k | 0 <= k < |entries| :: |entries[k].residues|;
    LengthSetSingleton(entries, lengths);
    |lengths| == 1
  }

  lemma LengthSetSingleton(entries: seq<Entry>, lengths: set<int>)
    requires lengths == set k | 0 <= k < |entries| :: |entries[k].residues|
    ensures |lengths| == 1 <==>
              (|entries| > 0 &&
               forall k :: 0 <= k < |entries| ==> |entries[k].residues| == |entries[0].residues|)
  {
    if |entries| == 0 {
      assert lengths == {};
    } else {
      var n0 := |entries[0].residues|;
      if forall k :: 0 <= k < |entries| ==> |entries[k].residues| == n0 {
        assert lengths == {n0};
      } else {
        var k :| 0 <= k < |entries| && |entries[k].residues| != n0;
        var nk := |entries[k].residues|;
        assert n0 in lengths && nk in lengths;
        assert nk in lengths - {n0};
        assert |lengths - {n0}| == |lengths| - 1;
      }
    }
  }
}
