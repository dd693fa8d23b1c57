# GBlocks trimming engine in Dafny

This project models the alignment-and-trimming engine of `gblock.py`, a
Gblocks-style filter for multiple sequence alignments, and proves what it
computes. The engine has these parts:

- **Reading and writing FASTA.** `parse_fasta` and `write_fasta` are modelled
  over the lines of the file.
- **Equal-length test.** `all_equal_length` decides whether entries already
  form an alignment.
- **Pairwise aligner.** `nw_align` is a Needleman–Wunsch aligner. It fills
  two 2-D tables, then walks back through them.
- **Center-star aligner.** It is built from `gap_pattern_from_aligned_base`,
  `merge_gap_patterns_max` and `expand_to_pattern`, and is the fallback when
  no external aligner is installed.
- **Dispatcher and pipeline.** `auto_align_if_needed` and `gblock_pipeline`.
- **Column scorer.** `column_metrics` gives each column a gap ratio and a
  majority-identity ratio.
- **Block extractor.** `_allow_short_nonconserved_runs`, `find_blocks` and
  `soft_trim_block`.
- **Filter.** `gblock_filter` keeps the columns of the surviving blocks.
- **Parameter translator.** It turns classic Gblocks parameters into the
  filter's thresholds.

The model keeps the source's form. Loops that update tables, counters,
dictionaries and masks are `method`s with loop invariants. Two-dimensional
tables are `array2`, and the absorbed mask is an `array`. Each method is
proved equal to a specification function. What the source promises is then
proved about that function as lemmas.

Files, one module each:

| file | module | source |
|---|---|---|
| msa.dfy | Msa | entries, errors, gap helpers, `all_equal_length` |
| fasta.dfy | Fasta | `parse_fasta`, `write_fasta` |
| pairwise.dfy | Pairwise | `nw_align` |
| patterns.dfy | Patterns | `gap_pattern_from_aligned_base`, `merge_gap_patterns_max`, `expand_to_pattern` |
| centerstar.dfy | CenterStar | `center_star_align` |
| columns.dfy | Columns | `column_metrics` |
| masks.dfy | Masks | `_allow_short_nonconserved_runs`, `find_blocks`, `soft_trim_block` |
| filter.dfy | Filter | `gblock_filter` |
| params.dfy | Params | `gb_allowed_gap_to_max_gap`, `convert_gblocks_params_to_internal` |
| pipeline.dfy | Pipeline | `auto_align_if_needed`, `gblock_pipeline` |
| centerstar_example.dfy | CenterStarExample | a worked input of `center_star_align` whose rows differ in length |

Each exception the source raises is a constructor of `Msa.Error`, and each
raising operation returns a `Result`.

Ratios are exact rationals (`real`). The source computes them in binary
floating point.

## Model

| member | source | states |
|---|---|---|
| Msa.AllEqualLength | gblock.py:30-31 | true exactly when there is at least one entry and every residue string is as long as the first; the empty list is not an alignment |
| Msa.LengthSetSingleton | gblock.py:30-31 | the set of lengths has exactly one element iff the list is nonempty and all lengths equal the first one, so the set-based test and AllEqualLength agree |
| Msa.UngapAppend | gblock.py:101-115 | deleting gaps distributes over concatenation |
| Fasta.StripMeaning | gblock.py:9 | str.strip() returns a slice s[i..j] with only whitespace cut off on either side, and the result starts and ends with non-whitespace |
| Fasta.ParseFasta | gblock.py:5-18 | the line loop computes ParseFastaResult: blank lines skipped, a header line closes the open entry, other lines appended to the open one, NoEntries when nothing was read |
| Fasta.NoHeaderNoEntries | gblock.py:17 | a file without a header line raises "No FASTA entries found" |
| Fasta.LeadingLinesDropped | gblock.py:14-15 | residue lines before the first header are discarded |
| Fasta.BlankLineSkipped | gblock.py:9-10 | a line that is empty once whitespace is stripped can be removed from the input, wherever it stands, without changing the result |
| Fasta.EmptyHeaderUnnamed | gblock.py:13 | any header line that strips to a bare `>`, whatever whitespace surrounds it, opens an entry named "unnamed" |
| Fasta.ParseFoldAppend | gblock.py:8-15 | reading a + b is reading a and then b from where a left off |
| Fasta.ChunksMeaning | gblock.py:24-26 | the chunks concatenate back to the residues; each chunk is nonempty and at most `wrap` long, and all but the last are exactly `wrap` long |
| Fasta.WriteFasta | gblock.py:20-28 | the writer's loop emits FastaLines: per entry a `>header` line, then the residues in chunks of `wrap` when wrap > 0, else on one line |
| Fasta.WriteChunks | gblock.py:25-26 | the chunk loop emits the residues in consecutive slices of `wrap` characters, one per line |
| Fasta.WriteThenParse | gblock.py:5-28 | round trip: writing a nonempty list of entries whose headers are nonempty with no white space at either end, and whose residues hold no white space and no `>`, at any wrap, and parsing the lines back gives the same entries |
| Pairwise.NwAlign | gblock.py:54-81 | the table fill and walk-back compute Traceback; the two rows are equal-length, deleting gaps from them gives back the gap-free parts of a and b, and their length lies between max(n, m) and n + m |
| Pairwise.TracebackLengths | gblock.py:75-81 | the walk-back from (i, j) gives two rows of equal length between max(i, j) and i + j |
| Pairwise.TracebackResidues | gblock.py:75-81 | the rows with gaps deleted are the prefixes a[..i] and b[..j] with gaps deleted |
| Pairwise.TracebackNoDoubleGap | gblock.py:75-81 | for gap-free inputs no column of the result holds a gap in both rows |
| Pairwise.TracebackIsAlignment | gblock.py:54-81 | for gap-free inputs the result is an alignment of a[..i] and b[..j]: equal-length rows, no all-gap column, residues kept in order |
| Pairwise.ScoreIsOptimal | gblock.py:62-74 | no alignment of a[..i] and b[..j] scores more than the table entry score[i][j] |
| Pairwise.NwAlignIsOptimalAlignment | gblock.py:54-81 | the result is an alignment, its column score equals score[n][m], and every other alignment of a and b scores at most as much |
| Patterns.GapPatternFromAlignedBase | gblock.py:83-91 | the counter loop computes GapPattern, a list of L + 1 counts |
| Patterns.PatScanMeaning | gblock.py:85-89 | after the scan, i_base is the number of residues read, the slots at and after i_base are still 0, and the aligned base is the residues woven with the counted gaps followed by the open run |
| Patterns.GapPatternRoundTrip | gblock.py:83-91 | when the aligned base holds exactly the base's residues, re-inserting the counted gaps before each residue rebuilds the aligned base |
| Patterns.GapPatternCountsGaps | gblock.py:83-91 | whenever the aligned base has at most L residues, whichever they are, the L + 1 counts add up to the number of gaps in it |
| Patterns.MergeMax | gblock.py:93-99 | the result has length max(len p1, len p2); each entry is at least both inputs' entries (missing ones read as 0) and equal to one of them |
| Patterns.MergeMaxIsLeast | gblock.py:93-99 | any pattern that dominates both inputs dominates the merge; it is their least upper bound |
| Patterns.MergeMaxAssociates | gblock.py:93-99 | merging is associative, so the master pattern does not depend on how the merges are grouped |
| Patterns.MergeMaxCommutes | gblock.py:93-99 | merging is symmetric in its arguments |
| Patterns.MergeMaxIdempotent | gblock.py:93-99 | merging a pattern with itself returns it |
| Patterns.MergeMaxZeros | gblock.py:120-125 | merging the initial all-zero master with a pattern of the same length returns the pattern |
| Patterns.Expand | gblock.py:101-115 | IndexError exactly when the sequence has more residues than the base, or the pattern has fewer than L + 1 slots |
| Patterns.ExpandToPattern | gblock.py:101-115 | the two loops (reference track, then cursor rounds) compute Expand, including its IndexError cases |
| Patterns.MarkResidues | gblock.py:103-106 | the reference-track loop fails with IndexError exactly when the sequence has more residues than the base; otherwise it returns the marks |
| Patterns.WeaveRounds | gblock.py:107-113 | the cursor rounds fail exactly when the pattern is too short, and otherwise write the woven string |
| Patterns.MarksMatchGaps | gblock.py:103-106 | for a gap-free base, the reference track has a gap exactly where the sequence has one |
| Patterns.MarksGapAtGap | gblock.py:103-106 | for any base, every gap of the sequence is a gap of the reference track (a residue may get a gap mark where the base holds `-`) |
| Patterns.ExpandKeepsResidues | gblock.py:101-115 | for any base, a sequence of at most L residues and a pattern of L + 1 slots, expansion succeeds and only inserts gaps: the output with gaps deleted equals the input with gaps deleted |
| Patterns.ExpandResidueBound | gblock.py:101-115 | a successful expansion never has more residues than its input |
| CenterStar.LongestIndex | gblock.py:118 | max(..., key=len) picks a longest entry, and the first one among equals |
| CenterStar.Order | gblock.py:130 | the dict comprehension maps every header to an index holding that header, namely the last such index |
| CenterStar.OrderOfDistinct | gblock.py:130 | with distinct headers each header maps to its own position |
| CenterStar.SortPermutes | gblock.py:132 | the key sort is a permutation of its input |
| CenterStar.SortSorts | gblock.py:132 | the key sort's result is ordered by key |
| CenterStar.SortKeepsSorted | gblock.py:132 | a list already ordered by key comes back unchanged |
| CenterStar.SortStable | gblock.py:132 | the sort is stable: for every key, the entries with that key come out in the order they went in, so entries with equal keys (repeated headers) are never swapped |
| CenterStar.CenterStarAlign | gblock.py:117-133 | the loop over entries, re-expanding the earlier rows each round, computes CenterStarResult |
| CenterStar.ExpandEach | gblock.py:126 | the list comprehension expands every earlier row, or fails with IndexError if one expansion fails |
| CenterStar.ExpandAllMeaning | gblock.py:126 | the comprehension succeeds iff every expansion does, and then yields each row's expansion in place |
| CenterStar.RunKeepsGood | gblock.py:122-129 | while every input is no longer than the reference (always so for the longest one), no round fails, and the rows carry the input headers in input order and each input's residues once gaps are deleted, whatever the reference holds |
| CenterStar.CenterStarRows | gblock.py:117-133 | one entry per input, and the output headers are exactly the input headers |
| CenterStar.CenterStarKeepsResidues | gblock.py:117-133 | each output row is some input row with the same header and the same residues once gaps are deleted, and every input is so matched |
| CenterStar.CenterStarKeepsOrder | gblock.py:117-133 | with distinct headers, row k carries entry k's header and, once gaps are deleted, entry k's residues; a gap-free entry comes back as itself once gaps are deleted |
| CenterStarExample.UnequalRows | gblock.py:117-133 | on the entries "ABCD", "XABC" and "AB" (headers s1, s2, s3) the fallback aligner succeeds with the rows "--ABCD", "--XABC" and "-AB--", which are not all of one length |
| CenterStarExample.PipelineRejectsExample | gblock.py:236-244 | on that input, with no external tool found and the fallback on, the pipeline fails with "Alignment failed" instead of filtering |
| Columns.Majority | gblock.py:164-166 | max(cnt.values()) is the count of some character of the column and no character occurs more often |
| Columns.ColumnMetrics | gblock.py:155-168 | the column loop computes Metrics: one metric per column of the first sequence |
| Columns.CountChars | gblock.py:164-165 | the dictionary's keys are exactly the residues of the column, and each value is that residue's count |
| Columns.MaxValue | gblock.py:166 | the largest dictionary value equals the majority count |
| Columns.MetricBounds | gblock.py:161-166 | both ratios lie in [0, 1] |
| Columns.GapRatioOneIffAllGaps | gblock.py:159-161 | the gap ratio is 1 exactly for an all-gap column |
| Columns.ConsRatioZeroIffAllGaps | gblock.py:162-166 | the conservation ratio is 0 exactly for an all-gap column, so it is positive otherwise |
| Columns.ConsRatioOneIffUniform | gblock.py:162-166 | the conservation ratio is 1 exactly when the column has residues and they are all the same |
| Masks.RunIsMaximal | gblock.py:180-182 | RunStart and RunEnd bound the maximal run of equal values around any position |
| Masks.AllowShortNonconservedRuns | gblock.py:170-190 | the in-place loop over the copied mask computes Absorbed |
| Masks.AbsorbedKeeps | gblock.py:170-190 | the result never clears a True, and equals the input when max_run ≤ 0 |
| Masks.AbsorbedRuns | gblock.py:178-187 | a maximal False run [i, j) is promoted iff max_run > 0, it touches neither end (True on both sides) and is at most max_run long; otherwise it stays False |
| Masks.AbsorbedIdempotent | gblock.py:170-190 | absorbing twice is absorbing once |
| Masks.AbsorbedExamples | gblock.py:170-190 | [T, F, F, T] becomes all True with max_run 2 and stays unchanged with max_run 1 |
| Masks.FindBlocks | gblock.py:192-199 | the enumerate loop with the open start s computes Blocks |
| Masks.ScanKeepsInv | gblock.py:193-198 | after each step, the recorded blocks are maximal True runs of length ≥ min_len, ascending, and cover exactly the long runs closed so far, and s marks the open run |
| Masks.BlocksMeaning | gblock.py:192-199 | the blocks are ascending, disjoint half-open intervals, each a maximal all-True run of length ≥ min_len, and a column is covered exactly when it lies in such a run |
| Masks.SoftTrimBlock | gblock.py:201-205 | the two shrinking loops compute SoftTrim |
| Masks.TrimStartMeaning | gblock.py:203 | the first loop stops at the first flank-passing column of the block, or at e when there is none |
| Masks.TrimEndMeaning | gblock.py:204 | the second loop stops just past the last flank-passing column after s, or at s |
| Masks.SoftTrimMeaning | gblock.py:201-205 | None exactly when no column of the block passes the flank test; otherwise the trimmed block starts and ends on passing columns and everything cut off fails it |
| Filter.TrimAllInside | gblock.py:223-224 | each trimmed block survives only when it is nonempty and at least min_block_len long, and lies inside one of the original blocks |
| Filter.TrimAllAscending | gblock.py:223-224 | trimming ascending blocks leaves them ascending |
| Filter.TrimBlocks | gblock.py:223-224 | the comprehension with the walrus filter computes TrimAll |
| Filter.RangesMembers | gblock.py:227-228 | the extended index list holds exactly the columns covered by some block |
| Filter.RangesIncreasing | gblock.py:227-228 | for ascending blocks the extended index list is strictly increasing |
| Filter.ExtendRanges | gblock.py:227-228 | the extend loop computes Ranges |
| Filter.DropAllGapColumns | gblock.py:229-230 | the kept indices are exactly the given ones whose column has a residue |
| Filter.DropIncreasing | gblock.py:229-230 | dropping all-gap columns keeps the index list strictly increasing |
| Filter.FinalBlocks | gblock.py:217-224 | the surviving blocks end within the alignment and are ascending |
| Filter.SelectBlocks | gblock.py:217-224 | mask, optional absorption, block extraction and optional flank trimming compute FinalBlocks |
| Filter.KeepColumns | gblock.py:227-230 | the index list and optional gap-column drop compute KeptColumns |
| Filter.BuildRows | gblock.py:231-233 | the output loop projects every entry onto the kept columns |
| Filter.GblockFilter | gblock.py:207-234 | the filter computes GblockFilterResult |
| Filter.FilterRejectsUnaligned | gblock.py:212-213 | ValueError exactly when the list is empty or some length differs from the first |
| Filter.FilterKeepsColumns | gblock.py:207-234 | on an alignment: one row per entry with its header in order, every row of the same length ≤ the input length, taken from the same strictly increasing column indices |
| Filter.FilterNoBlocks | gblock.py:226 | when no block survives every row keeps its header and has the empty string |
| Filter.FilterKeepsLongRuns | gblock.py:217-228 | without flank trimming or gap-column dropping, a column is kept exactly when it lies in a run of at least min_block_len columns of the (absorbed) mask |
| Filter.FilterKeepsMasked | gblock.py:217-230 | every kept column passes the (absorbed) mask; without absorption it passes the gap and conservation thresholds; with dropping enabled it is not all gaps |
| Params.Clamp01 | gblock.py:252 | max(0.0, min(1.0, v)) lies in [0, 1] and is v when v already does |
| Params.AllowedGapToMaxGap | gblock.py:246-254 | the allowed-gap fraction is always in [0, 1] |
| Params.AllowedGapKeywords | gblock.py:247-250 | every mix of letter cases of "none", "half" and "all" maps to 0, 0.5 and 1, whatever the mode would parse to |
| Params.AllowedGapNumbers | gblock.py:251-254 | any other mode yields its number clamped to [0, 1], or 0.5 when it does not parse |
| Params.ConvertGblocksParams | gblock.py:256-270 | min_block_len ≥ 1, max_noncons_run ≥ 0, max_gap in [0, 1], and both ratios in (0, 1] |
| Params.ConvertKeepsCounts | gblock.py:262-270 | with counts in [1, N], each ratio times N is its count, and the run and block limits pass through |
| Params.ConvertClampsCounts | gblock.py:262-269 | counts are clamped into [1, N] and N to at least 1 before dividing; a run limit below 0 becomes 0 and a block length below 1 becomes 1 |
| Params.ConvertDefaultsForTen | gblock.py:256-270 | for ten sequences the default parameters give (10, 0.0, 0.9, 1.0, 8) |
| Pipeline.AutoAlignIfNeeded | gblock.py:135-153 | the dispatcher computes AutoAlignResult |
| Pipeline.AlignedInputUnchanged | gblock.py:137 | with at most one entry or equal lengths the entries are returned unchanged |
| Pipeline.NoAlignerIsError | gblock.py:139-153 | unequal entries whose aligner name resolves to neither mafft nor muscle (auto with no tool found, or any other name), with no fallback, raise the "no aligner" error |
| Pipeline.FallbackKeepsHeaders | gblock.py:139-152 | whenever the aligner name resolves to neither mafft nor muscle, the fallback returns one row per entry with exactly the input's headers |
| Pipeline.ToolOutputRead | gblock.py:138-145 | whenever the name resolves to mafft or muscle (in any letter case, or through "auto" with a tool found), the tool's output file is read back as the entries it wrote, whatever the fallback setting |
| Pipeline.GblockPipeline | gblock.py:236-244 | the pipeline computes PipelineResult |
| Pipeline.PipelineOutcome | gblock.py:242-244 | an aligner error is passed on; rows still of unequal length raise "Alignment failed"; otherwise the result is the filter's, which then succeeds |
| Pipeline.PipelineOnAlignment | gblock.py:242-244 | on an input that is already an alignment the pipeline is the filter and succeeds |

## Left out

- File opening, reading and writing in `parse_fasta` and `write_fasta` are not modelled. The model reads and writes the file as a sequence of lines, each with its newline.
- `main` (gblock.py:272-356) is left out: argument parsing, printing and the command-line entry point.
- `run_mafft`, `run_muscle` and `which_or_path` (gblock.py:33-52) are left out, along with the temporary directory and writing the input file (gblock.py:142-150). They run external programs. The caller passes in whether each tool was found, plus the tool's output lines or `ExternalFailed`.
- The `aligner_exe` argument is left out. It only picks which executable the external tools run.
- Python's `float(mode)` (gblock.py:252) is not modelled: parsing arbitrary strings, including "nan" and "inf", is outside the model. Its result is a parameter `parsed: Option<real>`, with None when it raises.
- IEEE floating-point rounding of the ratios is not modelled. Ratios are exact rationals, so comparisons against thresholds are exact too.
- Params.Lower: lower-cases ASCII letters only. Python's `str.lower` also folds other scripts. The only non-ASCII characters whose lower case holds an ASCII letter are U+0130, which becomes `i` and a combining dot, and the Kelvin sign, which becomes `k`. None of the six names compared against ("none", "half", "all", "auto", "mafft", "muscle") contains `i` or `k`, so every keyword test behaves the same.
- CenterStar.CenterStarRows: claims no equal-length output. `center_star_align` does not guarantee it: `expand_to_pattern` rebuilds its reference track from the sequence's own residues, and re-expanding an expanded row inserts gaps again. Only the length check in `gblock_pipeline` (gblock.py:243) catches this, as `Pipeline.PipelineOutcome` states. `CenterStarExample.UnequalRows` computes an input where the rows differ in length.
- CenterStar.CenterStarKeepsOrder: claims input order only for distinct headers. With repeated headers the dict at gblock.py:130 gives every copy the last index of its header, so those rows sort together at that position. `CenterStar.SortStable` still keeps them in input order among themselves.
- Default parameter values are not modelled. Every threshold is an explicit argument, so the filter's `drop_all_gap_columns=False` default and the pipeline's `True` default do not appear.
- Idempotence of the filter is not claimed. The source does not promise it.
- Fasta.WriteThenParse: requires nonempty headers without white space at either end, and residues without white space or `>`. Otherwise `strip()` and the header test change the text on the way back.
- Line splitting is not modelled. A header or residue string containing a newline is written as one element of the line sequence, where a real file would read it back as two lines.
- protein_fetch_safe.py, fetch_pane.py and main_gui.py are not part of this model. They are a network client and a Tkinter interface.
