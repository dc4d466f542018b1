/** The prompt builder: the PubMed density bucket and the per-gene user
    message sent to the language model. */
module Prompt {
  import opened Strings
  import opened Decimal
  import opened Assembler

  /** At most this many trials counts as a sparse-trial gene. */
  const SparseTrialThreshold := 2
  /** Fewer PubMed hits than this is "low" density. */
  const PubmedModerateMin := 6
  /** More PubMed hits than this is "high" density. */
  const PubmedModerateMax := 40
  /** Characters of an abstract quoted in the prompt. */
  const SnippetLength := 300

  const SparseTrialLine :=
    "Sparse-trial context detected. Focus on PubMed novelty.\n"
    + "If abstracts clearly show repurposing (e.g., converting cardiovascular or immune drugs to cancer use), "
    + "angiogenesis regulation, or other mechanistic innovation, this gene clearly qualifies for 5."
  const MultipleTrialLine :=
    "Multiple-trial context: baseline is dominant; increase only if very recent breakthroughs appear."
  const AbstractsHeader := "Top PubMed abstracts:"

  /** `pubmed_density_bucket`: exactly one of three labels, by the number of hits. */
  function DensityBucket(total: int): (b: string)
    ensures b == "low" <==> total < PubmedModerateMin
    ensures b == "high" <==> total > PubmedModerateMax
    ensures b == "moderate" <==> PubmedModerateMin <= total <= PubmedModerateMax
  {
    if total < PubmedModerateMin then "low"
    else if total > PubmedModerateMax then "high"
    else "moderate"
  }

  /** Position of a label on the low < moderate < high scale. */
  function BucketRank(b: string): nat {
    if b == "low" then 0 else if b == "moderate" then 1 else 2
  }

  /** More hits never give a lower density label. */
  lemma DensityBucketMonotone(x: int, y: int)
    requires x <= y
    ensures BucketRank(DensityBucket(x)) <= BucketRank(DensityBucket(y))
  {
  }

  /** The boundaries of the middle bucket are both inclusive. */
  lemma DensityBucketBoundaries()
    ensures DensityBucket(5) == "low"
    ensures DensityBucket(6) == "moderate"
    ensures DensityBucket(40) == "moderate"
    ensures DensityBucket(41) == "high"
  {
  }

  /** An abstract as quoted in the prompt: its first 300 characters with
      every line feed turned into a space. */
  function Snippet(abstractText: string): (r: string)
    ensures |r| == if |abstractText| < SnippetLength then |abstractText| else SnippetLength
    ensures forall k :: 0 <= k < |r| ==>
              r[k] == (if abstractText[k] == '\n' then ' ' else abstractText[k])
    ensures '\n' !in r
  {
    ReplaceChar(Prefix(abstractText, SnippetLength), '\n', ' ')
  }

  /** The prompt line quoting one retrieved document. */
  function DocLine(d: Doc): string {
    "- PMID:" + d.pmid + " | " + d.title + " :: " + Snippet(d.abstractText)
  }

  /** The first line: the gene. */
  function GeneLine(gene: string): string {
    "Gene: " + gene
  }

  /** The second line: the trial-derived baseline. */
  function BaselineLine(baseline: int): string {
    "Baseline novelty_score = " + IntToString(baseline)
  }

  /** The third line: trial count, PubMed hits and their density label. */
  function CountsLine(numTrials: int, total: int): string {
    "Trials = " + IntToString(numTrials) + ", PubMed hits = " + IntToString(total) + " (" + DensityBucket(total) + ")"
  }

  /** The fourth line: the instruction for sparse-trial genes, or the one
      for genes with several trials. */
  function InstructionLine(numTrials: int): (line: string)
    ensures line == SparseTrialLine <==> numTrials <= SparseTrialThreshold
    ensures line == MultipleTrialLine <==> numTrials > SparseTrialThreshold
  {
    assert |SparseTrialLine| != |MultipleTrialLine|;
    if numTrials <= SparseTrialThreshold then SparseTrialLine else MultipleTrialLine
  }

  /** The lines of `build_user_msg`, before they are joined with line feeds. */
  function UserLines(gene: string, total: int, numTrials: int, topContext: seq<Doc>, baseline: int): (lines: seq<string>)
    ensures |lines| == 5 + |topContext|
    ensures lines[0] == GeneLine(gene)
    ensures lines[1] == BaselineLine(baseline)
    ensures lines[2] == CountsLine(numTrials, total)
    ensures lines[3] == InstructionLine(numTrials)
    ensures lines[4] == AbstractsHeader
    ensures forall j :: 0 <= j < |topContext| ==> lines[5 + j] == DocLine(topContext[j])
  {
    var header := [GeneLine(gene), BaselineLine(baseline), CountsLine(numTrials, total), InstructionLine(numTrials), AbstractsHeader];
    header + seq(|topContext|, j requires 0 <= j < |topContext| => DocLine(topContext[j]))
  }

  /** `build_user_msg`: the lines joined with line feeds. */
  function BuildUserMsg(gene: string, total: int, numTrials: int, topContext: seq<Doc>, baseline: int): (msg: string)
    ensures |GeneLine(gene)| <= |msg| && msg[..|GeneLine(gene)|] == GeneLine(gene)
  {
    Join(UserLines(gene, total, numTrials, topContext, baseline), "\n")
  }

  /** The message ends with the quote of the last retrieved document, or
      with the header line when nothing was retrieved. */
  lemma UserMsgEnding(gene: string, total: int, numTrials: int, topContext: seq<Doc>, baseline: int)
    ensures var msg := BuildUserMsg(gene, total, numTrials, topContext, baseline);
            var last := if topContext == [] then AbstractsHeader else DocLine(topContext[|topContext| - 1]);
            |last| <= |msg| && msg[|msg| - |last|..] == last
  {
    var lines := UserLines(gene, total, numTrials, topContext, baseline);
    JoinEndsWithLast(lines, "\n");
  }

  /** Appending one more retrieved document appends exactly its quote line. */
  lemma UserMsgSnoc(gene: string, total: int, numTrials: int, topContext: seq<Doc>, d: Doc, baseline: int)
    ensures BuildUserMsg(gene, total, numTrials, topContext + [d], baseline)
            == BuildUserMsg(gene, total, numTrials, topContext, baseline) + "\n" + DocLine(d)
  {
    var lines := UserLines(gene, total, numTrials, topContext, baseline);
    var lines' := UserLines(gene, total, numTrials, topContext + [d], baseline);
    assert lines' == lines + [DocLine(d)];
    JoinSnoc(lines, DocLine(d), "\n");
  }
}
