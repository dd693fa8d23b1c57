/** The end-to-end trimmer (auto_align_if_needed and gblock_pipeline,
    gblock.py:135-153 and 236-244): align the input when its rows differ in
    length, then filter the alignment.

    Locating and running MAFFT or MUSCLE happens outside the model: the
    caller says which tools were found and hands in what the chosen tool
    produced, the lines of its output file, or ExternalFailed when it could
    not be run or exited with an error. */
module Pipeline {
  import opened Msa
  import opened Pairwise
  import opened CenterStar
  import opened Filter
  import opened Fasta
  import opened Params

  /** aligner.lower(), with "auto" resolved to the first tool found. */
  function ChooseAligner(aligner: string, mafftFound: bool, muscleFound: bool): (chosen: string)
    ensures Lower(aligner) != "auto" ==> chosen == Lower(aligner)
    ensures Lower(aligner) == "auto" ==>
              chosen == (if mafftFound then "mafft" else if muscleFound then "muscle" else "none")
  {
    var c := Lower(aligner);
    if c == "auto" then (if mafftFound then "mafft" else if muscleFound then "muscle" else "none")
    else c
  }

  /** What auto_align_if_needed returns.  toolOutput is the chosen external
      tool's output file as lines, or its failure. */
  function AutoAlignResult(entries: seq<Entry>, aligner: string, mafftFound: bool, muscleFound: bool,
                           toolOutput: Result<seq<string>>, fallbackAlign: bool): Result<seq<Entry>>
  {
    if |entries| <= 1 || AllEqualLength(entries) then Ok(entries)
    else
      var chosen := ChooseAligner(aligner, mafftFound, muscleFound);
      if chosen == "mafft" || chosen == "muscle" then
        if toolOutput.Err? then Err(toolOutput.error) else ParseFastaResult(toolOutput.value)
      else if fallbackAlign then CenterStarResult(DefaultScoring, entries)
      else Err(NoAligner)
  }

  /** auto_align_if_needed. */
  method AutoAlignIfNeeded(entries: seq<Entry>, aligner: string, mafftFound: bool, muscleFound: bool,
                           toolOutput: Result<seq<string>>, fallbackAlign: bool)
    returns (r: Result<seq<Entry>>)
    ensures r == AutoAlignResult(entries, aligner, mafftFound, muscleFound, toolOutput, fallbackAlign)
  {
    if |entries| <= 1 || AllEqualLength(entries) {
      return Ok(entries);
    }
    var chosen := Lower(aligner);
    if chosen == "auto" {
      chosen := if mafftFound then "mafft" else if muscleFound then "muscle" else "none";
    }
    if chosen == "mafft" || chosen == "muscle" {
      if toolOutput.Err? {
        return Err(toolOutput.error);
      }
      r := ParseFasta(toolOutput.value);
      return;
    }
    if fallbackAlign {
      r := CenterStarAlign(entries, DefaultScoring);
      return;
    }
    return Err(NoAligner);
  }

  /** The options of gblock_pipeline besides the filter's thresholds. */
  datatype AlignOptions = AlignOptions(
    autoAlign: bool,
    aligner: string,
    mafftFound: bool,
    muscleFound: bool,
    toolOutput: Result<seq<string>>,
    fallbackAlign: bool)

  /** What gblock_pipeline returns. */
  function PipelineResult(entries: seq<Entry>, opts: AlignOptions, p: FilterParams): Result<seq<Entry>>
  {
    var aln :- if opts.autoAlign
               then AutoAlignResult(entries, opts.aligner, opts.mafftFound, opts.muscleFound,
                                    opts.toolOutput, opts.fallbackAlign)
               else Ok(entries);
    if !AllEqualLength(aln) then Err(AlignmentFailed)
    else GblockFilterResult(aln, p)
  }

  /** gblock_pipeline. */
  method GblockPipeline(entries: seq<Entry>, opts: AlignOptions, p: FilterParams) returns (r: Result<seq<Entry>>)
    ensures r == PipelineResult(entries, opts, p)
  {
    var aln := entries;
    if opts.autoAlign {
      var a := AutoAlignIfNeeded(entries, opts.aligner, opts.mafftFound, opts.muscleFound,
                                 opts.toolOutput, opts.fallbackAlign);
      if a.Err? {
        return Err(a.error);
      }
      aln := a.value;
    }
    if !AllEqualLength(aln) {
      return Err(AlignmentFailed);
    }
    r := GblockFilter(aln, p);
  }

  // ---------------------------------------------------------------------
  // What the pipeline promises
  // ---------------------------------------------------------------------

  /** An input that is already an alignment (or has a single entry) is
      passed through untouched. */
  lemma AlignedInputUnchanged(entries: seq<Entry>, aligner: string, mafftFound: bool, muscleFound: bool,
                              toolOutput: Result<seq<string>>, fallbackAlign: bool)
    requires |entries| <= 1 || AllEqualLength(entries)
    ensures AutoAlignResult(entries, aligner, mafftFound, muscleFound, toolOutput, fallbackAlign) == Ok(entries)
  {
  }

  /** Unequal rows with no external tool chosen (auto with neither found,
      or any other name) and no fallback are an error. */
  lemma NoAlignerIsError(entries: seq<Entry>, aligner: string, mafftFound: bool, muscleFound: bool,
                         toolOutput: Result<seq<string>>)
    requires |entries| > 1 && !AllEqualLength(entries)
    requires ChooseAligner(aligner, mafftFound, muscleFound) != "mafft"
    requires ChooseAligner(aligner, mafftFound, muscleFound) != "muscle"
    ensures AutoAlignResult(entries, aligner, mafftFound, muscleFound, toolOutput, false) == Err(NoAligner)
  {
  }

  /** When no external tool is chosen, the fallback keeps one row per entry, and the headers of the rows are
      exactly the input's headers. */
  lemma FallbackKeepsHeaders(entries: seq<Entry>, aligner: string, mafftFound: bool, muscleFound: bool,
                             toolOutput: Result<seq<string>>)
    returns (out: seq<Entry>)
    requires |entries| > 1 && !AllEqualLength(entries)
    requires ChooseAligner(aligner, mafftFound, muscleFound) != "mafft"
    requires ChooseAligner(aligner, mafftFound, muscleFound) != "muscle"
    ensures AutoAlignResult(entries, aligner, mafftFound, muscleFound, toolOutput, true) == Ok(out)
    ensures |out| == |entries|
    ensures forall j :: 0 <= j < |out| ==> HeaderIn(entries, out[j].header)
    ensures forall k :: 0 <= k < |entries| ==> HeaderIn(out, entries[k].header)
  {
    out := CenterStarRows(DefaultScoring, entries);
  }

  /** A tool's output is read back as FASTA: what the tool wrote cleanly is
      what the aligner step returns. */
  lemma ToolOutputRead(entries: seq<Entry>, aligner: string, mafftFound: bool, muscleFound: bool,
                       fallbackAlign: bool, aligned: seq<Entry>, wrap: int)
    requires |entries| > 1 && !AllEqualLength(entries)
    requires ChooseAligner(aligner, mafftFound, muscleFound) == "mafft" ||
             ChooseAligner(aligner, mafftFound, muscleFound) == "muscle"
    requires aligned != []
    requires forall k :: 0 <= k < |aligned| ==>
               CleanHeader(aligned[k].header) && CleanResidues(aligned[k].residues)
    ensures AutoAlignResult(entries, aligner, mafftFound, muscleFound, Ok(FastaLines(aligned, wrap)), fallbackAlign)
              == Ok(aligned)
  {
    WriteThenParse(aligned, wrap);
  }

  /** An aligner error is passed on; rows that still differ in length
      give AlignmentFailed; otherwise the result is the filter applied to
      the aligned rows, which then always succeeds. */
  lemma PipelineOutcome(entries: seq<Entry>, opts: AlignOptions, p: FilterParams)
    ensures var aln := if opts.autoAlign
                       then AutoAlignResult(entries, opts.aligner, opts.mafftFound, opts.muscleFound,
                                            opts.toolOutput, opts.fallbackAlign)
                       else Ok(entries);
            (aln.Err? ==> PipelineResult(entries, opts, p) == Err(aln.error)) &&
            (aln.Ok? && !AllEqualLength(aln.value) ==> PipelineResult(entries, opts, p) == Err(AlignmentFailed)) &&
            (aln.Ok? && AllEqualLength(aln.value) ==>
               PipelineResult(entries, opts, p) == GblockFilterResult(aln.value, p) &&
               PipelineResult(entries, opts, p).Ok?)
  {
  }

  /** On an aligned input the pipeline is the filter itself. */
  lemma PipelineOnAlignment(entries: seq<Entry>, opts: AlignOptions, p: FilterParams)
    requires AllEqualLength(entries)
    ensures PipelineResult(entries, opts, p) == GblockFilterResult(entries, p)
    ensures PipelineResult(entries, opts, p).Ok?
  {
  }
}
