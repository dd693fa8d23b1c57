/** Reading and writing FASTA (parse_fasta and write_fasta,
    gblock.py:5-28), at the level of lines: the parser takes the lines a
    text file yields (each may still end in its newline) and the writer
    returns the strings it writes, the file being their concatenation. */
module Fasta {
  import opened Msa

  // ---------------------------------------------------------------------
  // str.strip()
  // ---------------------------------------------------------------------

  /** The characters Python's str.isspace accepts, by code point. */
  predicate IsSpace(c: char)
  {
    var n := c as int;
    n == 0x20 || 0x09 <= n <= 0x0d || 0x1c <= n <= 0x1f || n == 0x85 || n == 0xa0 ||
    n == 0x1680 || 0x2000 <= n <= 0x200a || n == 0x2028 || n == 0x2029 ||
    n == 0x202f || n == 0x205f || n == 0x3000
  }

  function StripLeft(s: string): (r: string)
    ensures |r| <= |s|
  {
    if s != [] && IsSpace(s[0]) then StripLeft(s[1..]) else s
  }

  function StripRight(s: string): (r: string)
    ensures |r| <= |s|
  {
    if s != [] && IsSpace(s[|s| - 1]) then StripRight(s[..|s| - 1]) else s
  }

  /** s.strip(): leading and trailing white space removed. */
  function Strip(s: string): (r: string)
  {
    StripRight(StripLeft(s))
  }

  /** Neither end of s is white space. */
  predicate Trimmed(s: string)
  {
    s == [] || (!IsSpace(s[0]) && !IsSpace(s[|s| - 1]))
  }

  lemma {:induction false} StripLeftMeaning(s: string) returns (i: nat)
    ensures i <= |s| && StripLeft(s) == s[i..]
    ensures forall k :: 0 <= k < i ==> IsSpace(s[k])
    ensures StripLeft(s) == [] || !IsSpace(StripLeft(s)[0])
    decreases |s|
  {
    if s != [] && IsSpace(s[0]) {
      var i' := StripLeftMeaning(s[1..]);
      i := i' + 1;
      assert s[1..][i'..] == s[i..];
      forall k | 0 <= k < i
        ensures IsSpace(s[k])
      {
        if k > 0 {
          assert s[k] == s[1..][k - 1];
        }
      }
    } else {
      i := 0;
    }
  }

  lemma {:induction false} StripRightMeaning(s: string) returns (j: nat)
    ensures j <= |s| && StripRight(s) == s[..j]
    ensures forall k :: j <= k < |s| ==> IsSpace(s[k])
    ensures StripRight(s) == [] || !IsSpace(StripRight(s)[|StripRight(s)| - 1])
    decreases |s|
  {
    if s != [] && IsSpace(s[|s| - 1]) {
      j := StripRightMeaning(s[..|s| - 1]);
      assert s[..|s| - 1][..j] == s[..j];
      forall k | j <= k < |s|
        ensures IsSpace(s[k])
      {
        if k < |s| - 1 {
          assert s[k] == s[..|s| - 1][k];
        }
      }
    } else {
      j := |s|;
    }
  }

  /** strip removes white space at both ends and only there: the result is
      the slice s[i..j] with no white space at either end, and everything
      cut off is white space. */
  lemma StripMeaning(s: string) returns (i: nat, j: nat)
    ensures i <= j <= |s| && Strip(s) == s[i..j]
    ensures Trimmed(Strip(s))
    ensures forall k :: 0 <= k < i ==> IsSpace(s[k])
    ensures forall k :: j <= k < |s| ==> IsSpace(s[k])
  {
    i := StripLeftMeaning(s);
    var t := s[i..];
    var j' := StripRightMeaning(t);
    j := i + j';
    assert t[..j'] == s[i..j];
    forall k | j <= k < |s|
      ensures IsSpace(s[k])
    {
      assert s[k] == t[k - i];
    }
    var r := Strip(s);
    if r != [] {
      assert r[0] == StripLeft(s)[0];
    }
  }

  /** A trimmed string loses nothing but a trailing newline. */
  lemma StripLine(s: string)
    requires Trimmed(s)
    ensures Strip(s + "\n") == s
  {
    var t := s + "\n";
    if s == [] {
      assert StripLeft(t) == StripLeft(t[1..]);
      assert t[1..] == [];
    } else {
      assert StripLeft(t) == t;
      assert StripRight(t) == StripRight(t[..|t| - 1]);
      assert t[..|t| - 1] == s;
    }
  }

  // ---------------------------------------------------------------------
  // parse_fasta (gblock.py:5-18)
  // ---------------------------------------------------------------------

  /** The entries read so far, the open header and its sequence lines. */
  datatype ParseState = ParseState(xs: seq<Entry>, h: Option<string>, buf: seq<string>)

  const Start := ParseState([], None, [])

  /** "".join(buf) */
  function Concat(buf: seq<string>): string
  {
    if buf == [] then [] else buf[0] + Concat(buf[1..])
  }

  /** The entries, with the open one closed if there is one. */
  function Flush(st: ParseState): seq<Entry>
  {
    if st.h.Some? then st.xs + [Entry(st.h.value, Concat(st.buf))] else st.xs
  }

  /** s[1:].strip() or "unnamed" */
  function HeaderOf(s: string): (h: string)
    requires s != []
    ensures h != []
  {
    var t := Strip(s[1..]);
    if t == [] then "unnamed" else t
  }

  /** One line of the input. */
  function ParseStep(st: ParseState, raw: string): ParseState
  {
    var s := Strip(raw);
    if s == [] then st
    else if s[0] == '>' then ParseState(Flush(st), Some(HeaderOf(s)), [])
    else ParseState(st.xs, st.h, st.buf + [s])
  }

  /** The state after the lines, from st. */
  function ParseFold(st: ParseState, lines: seq<string>): ParseState
    decreases |lines|
  {
    if lines == [] then st else ParseFold(ParseStep(st, lines[0]), lines[1..])
  }

  /** What parse_fasta returns: the entries, or NoEntries when there is no
      header line. */
  function ParseFastaResult(lines: seq<string>): Result<seq<Entry>>
  {
    var xs := Flush(ParseFold(Start, lines));
    if xs == [] then Err(NoEntries) else Ok(xs)
  }

  /** parse_fasta over the lines of the file. */
  method ParseFasta(lines: seq<string>) returns (r: Result<seq<Entry>>)
    ensures r == ParseFastaResult(lines)
  {
    var xs: seq<Entry> := [];
    var h: Option<string> := None;
    var buf: seq<string> := [];
    for i := 0 to |lines|
      invariant ParseFold(ParseState(xs, h, buf), lines[i..]) == ParseFold(Start, lines)
    {
      assert lines[i..] == [lines[i]] + lines[i + 1..];
      var s := Strip(lines[i]);
      if s != [] {
        if s[0] == '>' {
          if h.Some? {
            xs := xs + [Entry(h.value, Concat(buf))];
          }
          var t := Strip(s[1..]);
          h, buf := Some(if t == [] then "unnamed" else t), [];
        } else {
          buf := buf + [s];
        }
      }
    }
    if h.Some? {
      xs := xs + [Entry(h.value, Concat(buf))];
    }
    if xs == [] {
      return Err(NoEntries);
    }
    return Ok(xs);
  }

  lemma {:induction false} ParseFoldAppend(st: ParseState, a: seq<string>, b: seq<string>)
    ensures ParseFold(st, a + b) == ParseFold(ParseFold(st, a), b)
    decreases |a|
  {
    if a != [] {
      assert (a + b)[1..] == a[1..] + b;
      ParseFoldAppend(ParseStep(st, a[0]), a[1..], b);
    } else {
      assert a + b == b;
    }
  }

  /** A line is a header line when, stripped, it starts with '>'. */
  predicate IsHeaderLine(raw: string)
  {
    Strip(raw) != [] && Strip(raw)[0] == '>'
  }

  /** Lines with no header line leave a state without a header without
      entries or header. */
  lemma {:induction false} NoHeaderFold(buf: seq<string>, lines: seq<string>)
    requires forall k :: 0 <= k < |lines| ==> !IsHeaderLine(lines[k])
    ensures ParseFold(ParseState([], None, buf), lines).xs == []
    ensures ParseFold(ParseState([], None, buf), lines).h == None
    decreases |lines|
  {
    if lines != [] {
      var st := ParseStep(ParseState([], None, buf), lines[0]);
      assert st.xs == [] && st.h == None;
      NoHeaderFold(st.buf, lines[1..]);
    }
  }

  /** Without a header line there are no entries: parse_fasta raises. */
  lemma NoHeaderNoEntries(lines: seq<string>)
    requires forall k :: 0 <= k < |lines| ==> !IsHeaderLine(lines[k])
    ensures ParseFastaResult(lines) == Err(NoEntries)
  {
    NoHeaderFold([], lines);
  }

  /** Sequence lines before the first header belong to no entry and are
      dropped. */
  lemma LeadingLinesDropped(junk: seq<string>, header: string, rest: seq<string>)
    requires forall k :: 0 <= k < |junk| ==> !IsHeaderLine(junk[k])
    requires IsHeaderLine(header)
    ensures ParseFastaResult(junk + [header] + rest) == ParseFastaResult([header] + rest)
  {
    NoHeaderFold([], junk);
    ParseFoldAppend(Start, junk, [header] + rest);
    assert junk + [header] + rest == junk + ([header] + rest);
    var st := ParseFold(Start, junk);
    assert ParseStep(st, header) == ParseStep(Start, header);
  }

  /** A line that is blank once stripped leaves the parse unchanged,
      wherever it occurs. */
  lemma BlankLineSkipped(a: seq<string>, raw: string, b: seq<string>)
    requires Strip(raw) == []
    ensures ParseFastaResult(a + [raw] + b) == ParseFastaResult(a + b)
  {
    ParseFoldAppend(Start, a + [raw], b);
    ParseFoldAppend(Start, a, [raw]);
    ParseFoldAppend(Start, a, b);
  }

  /** A header line with nothing after the '>' (once whitespace is
      stripped) names its entry "unnamed". */
  lemma EmptyHeaderUnnamed(raw: string, seqLines: seq<string>)
    requires Strip(raw) == ">"
    requires forall k :: 0 <= k < |seqLines| ==> !IsHeaderLine(seqLines[k])
    ensures ParseFastaResult([raw] + seqLines).Ok?
    ensures ParseFastaResult([raw] + seqLines).value[0].header == "unnamed"
  {
    assert Strip(raw)[1..] == [];
    var st := ParseStep(Start, raw);
    assert st == ParseState([], Some("unnamed"), []);
    HeaderKept([], "unnamed", seqLines);
    assert ([raw] + seqLines)[1..] == seqLines;
    assert ParseFold(Start, [raw] + seqLines) == ParseFold(st, seqLines);
  }

  /** Sequence lines keep the open header and add to its buffer. */
  lemma {:induction false} HeaderKept(buf: seq<string>, h: string, lines: seq<string>)
    requires forall k :: 0 <= k < |lines| ==> !IsHeaderLine(lines[k])
    ensures ParseFold(ParseState([], Some(h), buf), lines).xs == []
    ensures ParseFold(ParseState([], Some(h), buf), lines).h == Some(h)
    decreases |lines|
  {
    if lines != [] {
      var st := ParseStep(ParseState([], Some(h), buf), lines[0]);
      HeaderKept(st.buf, h, lines[1..]);
    }
  }

  // ---------------------------------------------------------------------
  // write_fasta (gblock.py:20-28)
  // ---------------------------------------------------------------------

  /** [seq[i:i+wrap] for i in range(0, len(seq), wrap)] for wrap > 0. */
  function Chunks(s: string, wrap: nat): (cs: seq<string>)
    requires wrap > 0
    decreases |s|
  {
    if s == [] then []
    else if |s| <= wrap then [s]
    else [s[..wrap]] + Chunks(s[wrap..], wrap)
  }

  /** The chunks are non-empty, at most wrap long, all but the last exactly
      wrap long, and put back together they are s. */
  lemma {:induction false} ChunksMeaning(s: string, wrap: nat)
    requires wrap > 0
    ensures Concat(Chunks(s, wrap)) == s
    ensures forall k :: 0 <= k < |Chunks(s, wrap)| ==>
              0 < |Chunks(s, wrap)[k]| <= wrap &&
              (k < |Chunks(s, wrap)| - 1 ==> |Chunks(s, wrap)[k]| == wrap)
    decreases |s|
  {
    if s != [] && |s| > wrap {
      ChunksMeaning(s[wrap..], wrap);
      var cs := Chunks(s, wrap);
      assert cs[1..] == Chunks(s[wrap..], wrap);
      assert s[..wrap] + s[wrap..] == s;
    } else if s != [] {
      assert Chunks(s, wrap)[1..] == [];
    }
  }

  /** The chunks of clean residues are clean. */
  lemma {:induction false} ChunksClean(s: string, wrap: nat)
    requires wrap > 0 && CleanResidues(s)
    ensures forall k :: 0 <= k < |Chunks(s, wrap)| ==> CleanResidues(Chunks(s, wrap)[k])
    decreases |s|
  {
    if s != [] && |s| > wrap {
      ChunksClean(s[wrap..], wrap);
      var cs := Chunks(s, wrap);
      assert cs[1..] == Chunks(s[wrap..], wrap);
      forall k | 0 <= k < |cs|
        ensures CleanResidues(cs[k])
      {
        if k > 0 {
          assert cs[k] == cs[1..][k - 1];
        }
      }
    }
  }

  /** Each string followed by a newline. */
  function Lines(cs: seq<string>): (r: seq<string>)
    ensures |r| == |cs|
  {
    seq(|cs|, k requires 0 <= k < |cs| => cs[k] + "\n")
  }

  /** What write_fasta writes for one entry. */
  function EntryLines(e: Entry, wrap: int): seq<string>
  {
    [">" + e.header + "\n"] +
    (if wrap > 0 then Lines(Chunks(e.residues, wrap)) else [e.residues + "\n"])
  }

  /** What write_fasta writes, piece by piece. */
  function FastaLines(entries: seq<Entry>, wrap: int): seq<string>
  {
    if entries == [] then [] else EntryLines(entries[0], wrap) + FastaLines(entries[1..], wrap)
  }

  /** write_fasta: the strings written, in order. */
  method WriteFasta(entries: seq<Entry>, wrap: int) returns (out: seq<string>)
    ensures out == FastaLines(entries, wrap)
  {
    out := [];
    for k := 0 to |entries|
      invariant out + FastaLines(entries[k..], wrap) == FastaLines(entries, wrap)
    {
      assert entries[k..][1..] == entries[k + 1..];
      var e := entries[k];
      var body: seq<string>;
      if wrap > 0 {
        body := WriteChunks(e.residues, wrap);
      } else {
        body := [e.residues + "\n"];
      }
      FastaLinesUnfold(entries, k);
      ghost var before := out;
      out := out + [">" + e.header + "\n"] + body;
      AppendAssoc(before, [">" + e.header + "\n"] + body, FastaLines(entries[k + 1..], wrap));
    }
  }

  lemma FastaLinesUnfold(entries: seq<Entry>, k: nat)
    requires k < |entries|
    ensures forall wrap :: FastaLines(entries[k..], wrap) == EntryLines(entries[k], wrap) + FastaLines(entries[k + 1..], wrap)
  {
    assert entries[k..][1..] == entries[k + 1..];
  }

  lemma AppendAssoc(a: seq<string>, b: seq<string>, c: seq<string>)
    ensures a + b + c == a + (b + c)
  {
  }

  /** for i in range(0, len(seq), wrap): out.write(seq[i:i+wrap] + "\n") */
  method WriteChunks(s: string, wrap: int) returns (out: seq<string>)
    requires wrap > 0
    ensures out == Lines(Chunks(s, wrap))
  {
    out := [];
    var i := 0;
    while i < |s|
      invariant 0 <= i <= |s|
      invariant out + Lines(Chunks(s[i..], wrap)) == Lines(Chunks(s, wrap))
      decreases |s| - i
    {
      var j := if i + wrap <= |s| then i + wrap else |s|;
      assert Chunks(s[i..], wrap) == [s[i..j]] + Chunks(s[j..], wrap) by {
        if |s[i..]| > wrap {
          assert s[i..][..wrap] == s[i..j];
          assert s[i..][wrap..] == s[j..];
        } else {
          assert s[i..j] == s[i..];
          assert s[j..] == [];
        }
      }
      assert Lines([s[i..j]] + Chunks(s[j..], wrap)) == [s[i..j] + "\n"] + Lines(Chunks(s[j..], wrap));
      out := out + [s[i..j] + "\n"];
      i := j;
    }
    assert s[i..] == [];
  }

  // ---------------------------------------------------------------------
  // Reading back what was written
  // ---------------------------------------------------------------------

  /** A header that reads back as itself. */
  predicate CleanHeader(h: string)
  {
    h != [] && Trimmed(h)
  }

  /** Residues that read back as themselves: no white space anywhere and
      no '>' that could start a line. */
  predicate CleanResidues(s: string)
  {
    forall k :: 0 <= k < |s| ==> !IsSpace(s[k]) && s[k] != '>'
  }

  /** Clean sequence lines add to the open entry's buffer. */
  lemma {:induction false} SequenceLinesFold(st: ParseState, cs: seq<string>)
    requires forall k :: 0 <= k < |cs| ==> cs[k] != [] && CleanResidues(cs[k])
    ensures ParseFold(st, Lines(cs)) == ParseState(st.xs, st.h, st.buf + cs)
    decreases |cs|
  {
    if cs != [] {
      var c := cs[0];
      StripLine(c);
      assert Lines(cs)[0] == c + "\n";
      assert Lines(cs)[1..] == Lines(cs[1..]);
      var st1 := ParseStep(st, c + "\n");
      assert st1 == ParseState(st.xs, st.h, st.buf + [c]);
      SequenceLinesFold(st1, cs[1..]);
      assert st.buf + [c] + cs[1..] == st.buf + cs;
    }
  }

  lemma {:induction false} ConcatAppend(a: seq<string>, b: seq<string>)
    ensures Concat(a + b) == Concat(a) + Concat(b)
    decreases |a|
  {
    if a != [] {
      assert (a + b)[1..] == a[1..] + b;
      ConcatAppend(a[1..], b);
    } else {
      assert a + b == b;
    }
  }

  /** A clean header line closes the open entry and opens its own. */
  lemma HeaderStep(st: ParseState, h: string)
    requires CleanHeader(h)
    ensures ParseStep(st, ">" + h + "\n") == ParseState(Flush(st), Some(h), [])
  {
    var hdr := ">" + h;
    StripLine(hdr);
    assert hdr[1..] == h;
    assert StripLeft(h) == h;
    assert StripRight(h) == h;
  }

  /** The sequence lines of clean residues buffer pieces that join back
      into them. */
  lemma BodyFold(st: ParseState, s: string, wrap: int)
    requires CleanResidues(s)
    ensures var body := if wrap > 0 then Lines(Chunks(s, wrap)) else [s + "\n"];
            ParseFold(st, body).xs == st.xs && ParseFold(st, body).h == st.h &&
            Concat(ParseFold(st, body).buf) == Concat(st.buf) + s
  {
    if wrap > 0 {
      var cs := Chunks(s, wrap);
      ChunksMeaning(s, wrap);
      ChunksClean(s, wrap);
      SequenceLinesFold(st, cs);
      ConcatAppend(st.buf, cs);
    } else if s == [] {
      StripLine(s);
      assert ParseFold(st, [s + "\n"]) == ParseFold(st, []);
      assert Concat(st.buf) + s == Concat(st.buf);
    } else {
      SequenceLinesFold(st, [s]);
      assert Lines([s]) == [s + "\n"];
      assert Concat([s]) == s + Concat([]);
      ConcatAppend(st.buf, [s]);
    }
  }

  /** The lines of one clean entry close the open entry and leave this one
      open with its residues buffered. */
  lemma EntryFold(st: ParseState, e: Entry, wrap: int)
    requires CleanHeader(e.header) && CleanResidues(e.residues)
    ensures ParseFold(st, EntryLines(e, wrap)).xs == Flush(st)
    ensures ParseFold(st, EntryLines(e, wrap)).h == Some(e.header)
    ensures Concat(ParseFold(st, EntryLines(e, wrap)).buf) == e.residues
  {
    var line := ">" + e.header + "\n";
    HeaderStep(st, e.header);
    var st1 := ParseState(Flush(st), Some(e.header), []);
    var body := if wrap > 0 then Lines(Chunks(e.residues, wrap)) else [e.residues + "\n"];
    assert EntryLines(e, wrap) == [line] + body;
    assert ParseFold(st, [line] + body) == ParseFold(st1, body) by {
      assert ([line] + body)[1..] == body;
    }
    BodyFold(st1, e.residues, wrap);
    assert Concat(st1.buf) + e.residues == e.residues;
  }

  /** Reading the lines of clean entries after a state flushes that state
      and then yields the entries. */
  lemma {:induction false} FastaFold(st: ParseState, entries: seq<Entry>, wrap: int)
    requires forall k :: 0 <= k < |entries| ==>
               CleanHeader(entries[k].header) && CleanResidues(entries[k].residues)
    ensures Flush(ParseFold(st, FastaLines(entries, wrap))) == Flush(st) + entries
    decreases |entries|
  {
    if entries != [] {
      var e := entries[0];
      ParseFoldAppend(st, EntryLines(e, wrap), FastaLines(entries[1..], wrap));
      var st1 := ParseFold(st, EntryLines(e, wrap));
      EntryFold(st, e, wrap);
      FastaFold(st1, entries[1..], wrap);
      assert Flush(st1) == Flush(st) + [e];
      assert Flush(st) + [e] + entries[1..] == Flush(st) + entries;
    }
  }

  /** parse_fasta reads back what write_fasta wrote, for any wrap, when
      the headers and residues are clean. */
  lemma WriteThenParse(entries: seq<Entry>, wrap: int)
    requires entries != []
    requires forall k :: 0 <= k < |entries| ==>
               CleanHeader(entries[k].header) && CleanResidues(entries[k].residues)
    ensures ParseFastaResult(FastaLines(entries, wrap)) == Ok(entries)
  {
    FastaFold(Start, entries, wrap);
    assert Flush(Start) + entries == entries;
  }
}
