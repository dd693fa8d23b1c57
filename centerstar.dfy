/** The built-in fallback aligner: a center-star progressive alignment
    (center_star_align, gblock.py:117-133).

    The longest entry is the base.  Every entry in turn is aligned to the
    base with Needleman-Wunsch; the gap pattern of the aligned base is
    merged into a master pattern, every string produced so far is
    re-expanded to the merged pattern, and the new aligned entry is
    expanded to it as well.  The rows are finally sorted by the position of
    their header in the input.

    The re-expansion reads an earlier output as if it were aligned to the
    bare base, so the rows need not come out with one length (the pipeline
    checks that afterwards).  What the model proves is what does hold: the
    call never fails on a non-empty input, it returns one row per entry,
    every row keeps its entry's residues, and with distinct headers the
    rows come back in input order. */
module CenterStar {
  import opened Msa
  import opened Pairwise
  import opened Patterns

  // ---------------------------------------------------------------------
  // The choice of the base (gblock.py:118)
  // ---------------------------------------------------------------------

  /** max(range(n), key=length): the first index of a longest entry. */
  function LongestIndex(entries: seq<Entry>): (r: nat)
    requires |entries| > 0
    ensures r < |entries|
    ensures forall k :: 0 <= k < |entries| ==> |entries[k].residues| <= |entries[r].residues|
    ensures forall k :: 0 <= k < r ==> |entries[k].residues| < |entries[r].residues|
  {
    if |entries| == 1 then 0
    else
      var k := LongestIndex(entries[..|entries| - 1]);
      if |entries[|entries| - 1].residues| > |entries[k].residues| then |entries| - 1 else k
  }

  // ---------------------------------------------------------------------
  // The loop of gblock.py:121-129
  // ---------------------------------------------------------------------

  /** The loop's state: master pattern, headers and aligned rows so far. */
  datatype Star = Star(master: seq<nat>, headers: seq<string>, rows: seq<string>)

  /** The comprehension of gblock.py:126: every row re-expanded, the first
      failure ending the whole call. */
  function ExpandAll(base: string, rows: seq<string>, target: seq<nat>): (r: Result<seq<string>>)
  {
    if rows == [] then Ok([])
    else
      var x :- Expand(base, rows[0], target);
      var rest :- ExpandAll(base, rows[1..], target);
      Ok([x] + rest)
  }

  /** One iteration of the loop for entry e. */
  function StarStep(sc: Scoring, base: string, st: Star, e: Entry): Result<Star>
  {
    var aln := Traceback(sc, base, e.residues, |base|, |e.residues|);
    var merged := MergeMax(st.master, GapPattern(base, aln.0));
    var prev :- ExpandAll(base, st.rows, merged);
    var sNew :- Expand(base, aln.1, merged);
    Ok(Star(merged, st.headers + [e.header], prev + [sNew]))
  }

  /** The loop run from state st over the entries es. */
  function Run(sc: Scoring, base: string, st: Star, es: seq<Entry>): Result<Star>
    decreases |es|
  {
    if es == [] then Ok(st)
    else
      var next :- StarStep(sc, base, st, es[0]);
      Run(sc, base, next, es[1..])
  }

  /** The state before the loop: L + 1 zero gaps, no rows. */
  function Start(base: string): Star
  {
    Star(seq(|base| + 1, _ => 0), [], [])
  }

  // ---------------------------------------------------------------------
  // The final sort (gblock.py:130-132)
  // ---------------------------------------------------------------------

  /** order = {h: i for i, (h, _) in enumerate(entries)}: the last index of
      every header. */
  function Order(entries: seq<Entry>): (r: map<string, nat>)
    ensures forall k :: 0 <= k < |entries| ==> entries[k].header in r
    ensures forall h :: h in r ==> r[h] < |entries| && entries[r[h]].header == h
    ensures forall h, k :: h in r && r[h] < k < |entries| ==> entries[k].header != h
  {
    if entries == [] then map[]
    else
      var n := |entries| - 1;
      var m := Order(entries[..n]);
      OrderSnoc(entries, m);
      m[entries[n].header := n]
  }

  /** One step of Order: recording the last entry's header keeps the three
      properties of Order. */
  lemma OrderSnoc(entries: seq<Entry>, m: map<string, nat>)
    requires |entries| > 0
    requires forall k :: 0 <= k < |entries| - 1 ==> entries[k].header in m
    requires forall h :: h in m ==> m[h] < |entries| - 1 && entries[m[h]].header == h
    requires forall h, k :: h in m && m[h] < k < |entries| - 1 ==> entries[k].header != h
    ensures var r := m[entries[|entries| - 1].header := |entries| - 1];
      && (forall k :: 0 <= k < |entries| ==> entries[k].header in r)
      && (forall h :: h in r ==> r[h] < |entries| && entries[r[h]].header == h)
      && (forall h, k :: h in r && r[h] < k < |entries| ==> entries[k].header != h)
  {
  }

  /** The sort key order[h] of a row; every header of the rows is a key of
      `order`, so the fallback value is never used. */
  function Key(order: map<string, nat>, e: Entry): nat
  {
    if e.header in order then order[e.header] else 0
  }

  /** Inserting x after every element whose key is at most x's. */
  function Insert(order: map<string, nat>, xs: seq<Entry>, x: Entry): (r: seq<Entry>)
    ensures |r| == |xs| + 1
  {
    if xs == [] || Key(order, xs[|xs| - 1]) <= Key(order, x) then xs + [x]
    else Insert(order, xs[..|xs| - 1], x) + [xs[|xs| - 1]]
  }

  /** list.sort(key=...): a stable sort by key. */
  function SortByKey(order: map<string, nat>, xs: seq<Entry>): (r: seq<Entry>)
    ensures |r| == |xs|
  {
    if xs == [] then []
    else Insert(order, SortByKey(order, xs[..|xs| - 1]), xs[|xs| - 1])
  }

  predicate SortedByKey(order: map<string, nat>, xs: seq<Entry>)
  {
    forall i, j :: 0 <= i < j < |xs| ==> Key(order, xs[i]) <= Key(order, xs[j])
  }

  /** list(zip(headers, rows)) */
  function Zip(headers: seq<string>, rows: seq<string>): (r: seq<Entry>)
    ensures |r| == if |headers| <= |rows| then |headers| else |rows|
  {
    seq(if |headers| <= |rows| then |headers| else |rows|, k requires 0 <= k < |headers| && k < |rows| => Entry(headers[k], rows[k]))
  }

  /** What center_star_align returns: max() fails on no entries; otherwise
      the loop's rows, zipped with their headers and sorted by input
      position. */
  function CenterStarResult(sc: Scoring, entries: seq<Entry>): Result<seq<Entry>>
  {
    if |entries| == 0 then Err(EmptySequence)
    else
      var base := entries[LongestIndex(entries)].residues;
      var st :- Run(sc, base, Start(base), entries);
      Ok(SortByKey(Order(entries), Zip(st.headers, st.rows)))
  }

  // ---------------------------------------------------------------------
  // The methods
  // ---------------------------------------------------------------------

  /** center_star_align (gblock.py:117-133). */
  method CenterStarAlign(entries: seq<Entry>, sc: Scoring) returns (r: Result<seq<Entry>>)
    ensures r == CenterStarResult(sc, entries)
  {
    if |entries| == 0 {
      return Err(EmptySequence);
    }
    var base := entries[LongestIndex(entries)].residues;
    var L := |base|;
    var master: seq<nat> := seq(L + 1, _ => 0);
    var headers: seq<string> := [];
    var rows: seq<string> := [];
    for i := 0 to |entries|
      invariant Run(sc, base, Star(master, headers, rows), entries[i..]) == Run(sc, base, Start(base), entries)
    {
      var e := entries[i];
      assert entries[i..][0] == e && entries[i..][1..] == entries[i + 1..];
      var alnBase, alnSeq := NwAlign(base, e.residues, sc);
      var gapsNew := GapPatternFromAlignedBase(base, alnBase);
      var merged := MergeMax(master, gapsNew);
      var prev := ExpandEach(base, rows, merged);
      if prev.Err? {
        return Err(prev.error);
      }
      var sNew := ExpandToPattern(base, alnSeq, merged);
      if sNew.Err? {
        return Err(sNew.error);
      }
      master := merged;
      headers := headers + [e.header];
      rows := prev.value + [sNew.value];
    }
    var out := Zip(headers, rows);
    r := Ok(SortByKey(Order(entries), out));
  }

  /** gblock.py:126: re-expand every earlier row to the merged pattern. */
  method ExpandEach(base: string, rows: seq<string>, target: seq<nat>) returns (r: Result<seq<string>>)
    ensures r == ExpandAll(base, rows, target)
  {
    var out: seq<string> := [];
    for i := 0 to |rows|
      invariant |out| == i
      invariant forall k :: 0 <= k < i ==> Expand(base, rows[k], target).Ok? && out[k] == Expand(base, rows[k], target).value
    {
      var x := ExpandToPattern(base, rows[i], target);
      if x.Err? {
        ExpandAllMeaning(base, rows, target);
        assert ExpandAll(base, rows, target) == Err(IndexOutOfRange);
        return Err(x.error);
      }
      out := out + [x.value];
    }
    ExpandAllMeaning(base, rows, target);
    assert out == ExpandAll(base, rows, target).value;
    r := Ok(out);
  }

  // ---------------------------------------------------------------------
  // Lemmas
  // ---------------------------------------------------------------------

  /** The comprehension succeeds exactly when every row expands, and then
      holds the expanded rows in order. */
  lemma {:induction false} ExpandAllMeaning(base: string, rows: seq<string>, target: seq<nat>)
    ensures ExpandAll(base, rows, target).Ok? <==>
              (forall k :: 0 <= k < |rows| ==> Expand(base, rows[k], target).Ok?)
    ensures ExpandAll(base, rows, target).Err? ==> ExpandAll(base, rows, target).error == IndexOutOfRange
    ensures ExpandAll(base, rows, target).Ok? ==>
              |ExpandAll(base, rows, target).value| == |rows| &&
              forall k :: 0 <= k < |rows| ==> ExpandAll(base, rows, target).value[k] == Expand(base, rows[k], target).value
    decreases |rows|
  {
    if rows != [] {
      ExpandAllMeaning(base, rows[1..], target);
      assert forall k :: 1 <= k < |rows| ==> rows[k] == rows[1..][k - 1];
    }
  }

  /** What every state of the loop satisfies after the entries `done`: a
      master pattern of L + 1 slots, one row per entry with its header,
      no row with more residues than the base, and every row holding
      exactly its entry's residues once gaps are deleted. */
  ghost predicate Good(base: string, st: Star, done: seq<Entry>)
  {
    |st.master| == |base| + 1 &&
    |st.headers| == |done| && |st.rows| == |done| &&
    (forall k :: 0 <= k < |done| ==> st.headers[k] == done[k].header) &&
    (forall k :: 0 <= k < |done| ==> NonGapCount(st.rows[k]) <= |base|) &&
    (forall k :: 0 <= k < |done| ==> Ungap(st.rows[k]) == Ungap(done[k].residues))
  }

  /** Re-expanding rows that fit the base to a pattern of L + 1 slots
      succeeds and keeps every row's residues. */
  lemma ExpandRowsKeep(base: string, rows: seq<string>, done: seq<Entry>, merged: seq<nat>)
    returns (prev: seq<string>)
    requires |rows| == |done| && |merged| == |base| + 1
    requires forall k :: 0 <= k < |rows| ==> NonGapCount(rows[k]) <= |base|
    requires forall k :: 0 <= k < |rows| ==> Ungap(rows[k]) == Ungap(done[k].residues)
    ensures ExpandAll(base, rows, merged) == Ok(prev)
    ensures |prev| == |rows|
    ensures forall k :: 0 <= k < |rows| ==> Ungap(prev[k]) == Ungap(done[k].residues)
  {
    ExpandAllMeaning(base, rows, merged);
    forall k | 0 <= k < |rows|
      ensures Expand(base, rows[k], merged).Ok?
      ensures Ungap(Expand(base, rows[k], merged).value) == Ungap(done[k].residues)
    {
      ExpandKeepsResidues(base, rows[k], merged);
    }
    prev := ExpandAll(base, rows, merged).value;
  }

  /** One iteration succeeds and keeps the state good, for an entry no
      longer than the base. */
  lemma StepKeepsGood(sc: Scoring, base: string, st: Star, done: seq<Entry>, e: Entry)
    requires Good(base, st, done) && |e.residues| <= |base|
    ensures StarStep(sc, base, st, e).Ok?
    ensures Good(base, StarStep(sc, base, st, e).value, done + [e])
  {
    var aln := Traceback(sc, base, e.residues, |base|, |e.residues|);
    TracebackKeepsResidues(sc, base, e.residues);
    var merged := MergeMax(st.master, GapPattern(base, aln.0));
    assert |merged| == |base| + 1;
    var prev := ExpandRowsKeep(base, st.rows, done, merged);
    ExpandKeepsResidues(base, aln.1, merged);
    var sNew := Expand(base, aln.1, merged).value;
    var next := StarStep(sc, base, st, e).value;
    assert next == Star(merged, st.headers + [e.header], prev + [sNew]);
  }

  lemma RunUnfold(sc: Scoring, base: string, st: Star, es: seq<Entry>)
    requires es != [] && StarStep(sc, base, st, es[0]).Ok?
    ensures Run(sc, base, st, es) == Run(sc, base, StarStep(sc, base, st, es[0]).value, es[1..])
  {
  }

  /** The whole loop succeeds and ends in a good state. */
  lemma {:induction false} RunKeepsGood(sc: Scoring, base: string, st: Star, entries: seq<Entry>, i: nat)
    requires i <= |entries| && Good(base, st, entries[..i])
    requires forall k :: 0 <= k < |entries| ==> |entries[k].residues| <= |base|
    ensures Run(sc, base, st, entries[i..]).Ok?
    ensures Good(base, Run(sc, base, st, entries[i..]).value, entries)
    decreases |entries| - i
  {
    if i == |entries| {
      assert entries[..i] == entries;
      assert entries[i..] == [];
    } else {
      assert entries[..i + 1] == entries[..i] + [entries[i]];
      StepKeepsGood(sc, base, st, entries[..i], entries[i]);
      var next := StarStep(sc, base, st, entries[i]).value;
      assert entries[i..][0] == entries[i] && entries[i..][1..] == entries[i + 1..];
      RunUnfold(sc, base, st, entries[i..]);
      RunKeepsGood(sc, base, next, entries, i + 1);
    }
  }

  lemma {:induction false} InsertPermutes(order: map<string, nat>, xs: seq<Entry>, x: Entry)
    ensures multiset(Insert(order, xs, x)) == multiset(xs) + multiset{x}
    decreases |xs|
  {
    if !(xs == [] || Key(order, xs[|xs| - 1]) <= Key(order, x)) {
      InsertPermutes(order, xs[..|xs| - 1], x);
      assert xs == xs[..|xs| - 1] + [xs[|xs| - 1]];
    }
  }

  /** The sort only reorders. */
  lemma {:induction false} SortPermutes(order: map<string, nat>, xs: seq<Entry>)
    ensures multiset(SortByKey(order, xs)) == multiset(xs)
    decreases |xs|
  {
    if xs != [] {
      SortPermutes(order, xs[..|xs| - 1]);
      InsertPermutes(order, SortByKey(order, xs[..|xs| - 1]), xs[|xs| - 1]);
      assert xs == xs[..|xs| - 1] + [xs[|xs| - 1]];
    }
  }

  lemma {:induction false} InsertSorted(order: map<string, nat>, xs: seq<Entry>, x: Entry)
    requires SortedByKey(order, xs)
    ensures SortedByKey(order, Insert(order, xs, x))
    ensures forall k :: 0 <= k < |Insert(order, xs, x)| ==>
              Insert(order, xs, x)[k] == x || Insert(order, xs, x)[k] in xs
    decreases |xs|
  {
    if !(xs == [] || Key(order, xs[|xs| - 1]) <= Key(order, x)) {
      var init, last := xs[..|xs| - 1], xs[|xs| - 1];
      InsertSorted(order, init, x);
      var ins := Insert(order, init, x);
      forall k | 0 <= k < |ins|
        ensures Key(order, ins[k]) <= Key(order, last)
      {
        if ins[k] != x {
          var j :| 0 <= j < |init| && init[j] == ins[k];
          assert xs[j] == init[j];
        }
      }
    }
  }

  /** The sort puts the rows in key order. */
  lemma {:induction false} SortSorts(order: map<string, nat>, xs: seq<Entry>)
    ensures SortedByKey(order, SortByKey(order, xs))
    decreases |xs|
  {
    if xs != [] {
      SortSorts(order, xs[..|xs| - 1]);
      InsertSorted(order, SortByKey(order, xs[..|xs| - 1]), xs[|xs| - 1]);
    }
  }

  /** Stability on sorted input: rows already in key order stay put. */
  lemma {:induction false} SortKeepsSorted(order: map<string, nat>, xs: seq<Entry>)
    requires SortedByKey(order, xs)
    ensures SortByKey(order, xs) == xs
    decreases |xs|
  {
    if xs != [] {
      var init := xs[..|xs| - 1];
      SortKeepsSorted(order, init);
      assert xs == init + [xs[|xs| - 1]];
    }
  }

  /** The rows of xs whose key is v, in their order in xs. */
  function WithKey(order: map<string, nat>, xs: seq<Entry>, v: nat): (r: seq<Entry>)
    ensures |r| <= |xs|
  {
    if xs == [] then []
    else WithKey(order, xs[..|xs| - 1], v) + (if Key(order, xs[|xs| - 1]) == v then [xs[|xs| - 1]] else [])
  }

  lemma WithKeySnoc(order: map<string, nat>, xs: seq<Entry>, x: Entry, v: nat)
    ensures WithKey(order, xs + [x], v) == WithKey(order, xs, v) + (if Key(order, x) == v then [x] else [])
  {
    assert (xs + [x])[..|xs|] == xs;
  }

  /** Inserting x adds it after every row with its key. */
  lemma {:induction false} InsertWithKey(order: map<string, nat>, xs: seq<Entry>, x: Entry, v: nat)
    ensures WithKey(order, Insert(order, xs, x), v) ==
              WithKey(order, xs, v) + (if Key(order, x) == v then [x] else [])
    decreases |xs|
  {
    if xs == [] || Key(order, xs[|xs| - 1]) <= Key(order, x) {
      WithKeySnoc(order, xs, x, v);
    } else {
      var init, last := xs[..|xs| - 1], xs[|xs| - 1];
      InsertWithKey(order, init, x, v);
      WithKeySnoc(order, Insert(order, init, x), last, v);
      assert xs == init + [last];
      WithKeySnoc(order, init, last, v);
    }
  }

  /** Stability: for every key, the rows with that key leave the sort in
      the order they entered it, so rows with equal keys are never swapped. */
  lemma {:induction false} SortStable(order: map<string, nat>, xs: seq<Entry>, v: nat)
    ensures WithKey(order, SortByKey(order, xs), v) == WithKey(order, xs, v)
    decreases |xs|
  {
    if xs != [] {
      var init, last := xs[..|xs| - 1], xs[|xs| - 1];
      SortStable(order, init, v);
      InsertWithKey(order, SortByKey(order, init), last, v);
    }
  }

  /** Every sorted row is an input row and every input row is a sorted row. */
  lemma SortMembers(order: map<string, nat>, xs: seq<Entry>)
    ensures forall j :: 0 <= j < |xs| ==> SortByKey(order, xs)[j] in xs
    ensures forall k :: 0 <= k < |xs| ==> xs[k] in SortByKey(order, xs)
  {
    var out := SortByKey(order, xs);
    SortPermutes(order, xs);
    forall j | 0 <= j < |xs|
      ensures out[j] in xs
    {
      assert out[j] in multiset(xs);
    }
    forall k | 0 <= k < |xs|
      ensures xs[k] in out
    {
      assert xs[k] in multiset(out);
    }
  }

  /** Some row of `rows` has header h. */
  ghost predicate HeaderIn(rows: seq<Entry>, h: string)
  {
    exists k :: 0 <= k < |rows| && rows[k].header == h
  }

  /** Some row of `rows` has e's header and e's residues. */
  ghost predicate SameRowIn(rows: seq<Entry>, e: Entry)
  {
    exists k :: 0 <= k < |rows| && rows[k].header == e.header && Ungap(rows[k].residues) == Ungap(e.residues)
  }

  /** Membership both ways between `out` and `xs` carries the headers of
      the entries that `xs` lines up with row by row. */
  lemma MembersMatchHeaders(entries: seq<Entry>, xs: seq<Entry>, out: seq<Entry>)
    requires |xs| == |entries|
    requires forall j :: 0 <= j < |out| ==> out[j] in xs
    requires forall k :: 0 <= k < |xs| ==> xs[k] in out
    requires forall k :: 0 <= k < |xs| ==> xs[k].header == entries[k].header
    ensures forall j :: 0 <= j < |out| ==> HeaderIn(entries, out[j].header)
    ensures forall k :: 0 <= k < |entries| ==> HeaderIn(out, entries[k].header)
  {
    forall j | 0 <= j < |out|
      ensures HeaderIn(entries, out[j].header)
    {
      var k :| 0 <= k < |xs| && xs[k] == out[j];
      assert entries[k].header == out[j].header;
    }
    forall k | 0 <= k < |entries|
      ensures HeaderIn(out, entries[k].header)
    {
      var j :| 0 <= j < |out| && out[j] == xs[k];
    }
  }

  /** The same, for header and residues together. */
  lemma MembersMatchRows(entries: seq<Entry>, xs: seq<Entry>, out: seq<Entry>)
    requires |xs| == |entries|
    requires forall j :: 0 <= j < |out| ==> out[j] in xs
    requires forall k :: 0 <= k < |xs| ==> xs[k] in out
    requires forall k :: 0 <= k < |xs| ==> xs[k].header == entries[k].header
    requires forall k :: 0 <= k < |xs| ==> Ungap(xs[k].residues) == Ungap(entries[k].residues)
    ensures forall j :: 0 <= j < |out| ==> SameRowIn(entries, out[j])
    ensures forall k :: 0 <= k < |entries| ==> SameRowIn(out, entries[k])
  {
    forall j | 0 <= j < |out|
      ensures SameRowIn(entries, out[j])
    {
      var k :| 0 <= k < |xs| && xs[k] == out[j];
      assert entries[k].header == out[j].header;
    }
    forall k | 0 <= k < |entries|
      ensures SameRowIn(out, entries[k])
    {
      var j :| 0 <= j < |out| && out[j] == xs[k];
    }
  }

  ghost predicate DistinctHeaders(entries: seq<Entry>)
  {
    forall i, j :: 0 <= i < j < |entries| ==> entries[i].header != entries[j].header
  }

  /** With distinct headers, every header's order is its own position. */
  lemma OrderOfDistinct(entries: seq<Entry>, k: nat)
    requires DistinctHeaders(entries) && k < |entries|
    ensures Order(entries)[entries[k].header] == k
  {
    var o := Order(entries)[entries[k].header];
    assert entries[o].header == entries[k].header;
    assert !(o < k) && !(k < o);
  }

  /** On a non-empty input the result is the sort of one row per entry,
      each with its entry's header and at most as many residues as the
      base, and exactly its entry's residues once gaps are deleted. */
  lemma CenterStarUnsorted(sc: Scoring, entries: seq<Entry>) returns (zipped: seq<Entry>)
    requires |entries| > 0
    ensures CenterStarResult(sc, entries) == Ok(SortByKey(Order(entries), zipped))
    ensures |zipped| == |entries|
    ensures forall k :: 0 <= k < |entries| ==> zipped[k].header == entries[k].header
    ensures forall k :: 0 <= k < |entries| ==> Ungap(zipped[k].residues) == Ungap(entries[k].residues)
  {
    var base := entries[LongestIndex(entries)].residues;
    assert entries[..0] == [] && entries[0..] == entries;
    RunKeepsGood(sc, base, Start(base), entries, 0);
    var st := Run(sc, base, Start(base), entries).value;
    zipped := Zip(st.headers, st.rows);
  }

  /** center_star_align on a non-empty input succeeds with one row per
      entry, each row carrying the header of an entry, and every entry's
      header on some row. */
  lemma CenterStarRows(sc: Scoring, entries: seq<Entry>) returns (out: seq<Entry>)
    requires |entries| > 0
    ensures CenterStarResult(sc, entries) == Ok(out)
    ensures |out| == |entries|
    ensures forall j :: 0 <= j < |out| ==> HeaderIn(entries, out[j].header)
    ensures forall k :: 0 <= k < |entries| ==> HeaderIn(out, entries[k].header)
  {
    var zipped := CenterStarUnsorted(sc, entries);
    out := SortByKey(Order(entries), zipped);
    SortMembers(Order(entries), zipped);
    MembersMatchHeaders(entries, zipped, out);
  }

  /** Every row holds the residues of an entry with the same header, and
      every entry's residues appear on a row with its header. */
  lemma CenterStarKeepsResidues(sc: Scoring, entries: seq<Entry>) returns (out: seq<Entry>)
    requires |entries| > 0
    ensures CenterStarResult(sc, entries) == Ok(out)
    ensures forall j :: 0 <= j < |out| ==> SameRowIn(entries, out[j])
    ensures forall k :: 0 <= k < |entries| ==> SameRowIn(out, entries[k])
  {
    var zipped := CenterStarUnsorted(sc, entries);
    out := SortByKey(Order(entries), zipped);
    SortMembers(Order(entries), zipped);
    MembersMatchRows(entries, zipped, out);
  }

  /** With distinct headers the sort restores input order: row k carries
      the header of entry k and, once gaps are deleted, its residues;
      a gap-free entry comes back as itself once gaps are deleted. */
  lemma CenterStarKeepsOrder(sc: Scoring, entries: seq<Entry>)
    requires |entries| > 0 && DistinctHeaders(entries)
    ensures CenterStarResult(sc, entries).Ok?
    ensures |CenterStarResult(sc, entries).value| == |entries|
    ensures forall k :: 0 <= k < |entries| ==> CenterStarResult(sc, entries).value[k].header == entries[k].header
    ensures forall k :: 0 <= k < |entries| ==>
              Ungap(CenterStarResult(sc, entries).value[k].residues) == Ungap(entries[k].residues)
    ensures forall k :: 0 <= k < |entries| && GAP !in entries[k].residues ==>
              Ungap(CenterStarResult(sc, entries).value[k].residues) == entries[k].residues
  {
    var zipped := CenterStarUnsorted(sc, entries);
    var order := Order(entries);
    forall k | 0 <= k < |zipped|
      ensures Key(order, zipped[k]) == k
    {
      OrderOfDistinct(entries, k);
    }
    SortKeepsSorted(order, zipped);
    forall k | 0 <= k < |entries| && GAP !in entries[k].residues
      ensures Ungap(entries[k].residues) == entries[k].residues
    {
      UngapOfGapFree(entries[k].residues);
    }
  }

}
