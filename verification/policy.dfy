/** The score policy applied to each gene's model reply: fall back to the
    trial-derived baseline when no usable score comes back, then cap the
    score at 4, or at 5 for a fixed allow-list of genes. */
module Policy {
  import opened Wrappers
  import opened Strings

  /** Genes allowed to keep a score of 5. */
  const Special5Genes: set<string> := {"AGTR2", "ACE2", "ADRB2", "AQP1", "CALCRL", "PTGFR", "KISS1R"}

  const DefaultCap := 4
  const SpecialCap := 5

  /** Separator between the reference strings of one reply. */
  const RefSeparator := " || "

  /** The highest score a gene may receive. */
  function ScoreCap(gene: string): (cap: int)
    ensures cap == SpecialCap <==> gene in Special5Genes
    ensures cap == DefaultCap <==> gene !in Special5Genes
  {
    if gene in Special5Genes then SpecialCap else DefaultCap
  }

  /** The score written for `gene`: the parsed score when there is one,
      otherwise the baseline, and in either case at most the gene's cap. */
  function FinalScore(gene: string, parsed: Option<int>, baseline: int): (r: int)
    ensures r <= ScoreCap(gene)
    ensures r <= parsed.GetOr(baseline)
    ensures r == parsed.GetOr(baseline) || r == ScoreCap(gene)
  {
    var s := parsed.GetOr(baseline);
    if s <= ScoreCap(gene) then s else ScoreCap(gene)
  }

  /** Without a usable score the baseline is kept exactly when it is within
      the cap; a higher baseline is cut down to the cap. */
  lemma FallbackScore(gene: string, baseline: int)
    ensures FinalScore(gene, None, baseline) == baseline <==> baseline <= ScoreCap(gene)
    ensures baseline > ScoreCap(gene) ==> FinalScore(gene, None, baseline) == ScoreCap(gene)
  {
  }

  /** A higher reply never gives a lower final score. */
  lemma FinalScoreMonotone(gene: string, s: int, t: int, baseline: int)
    requires s <= t
    ensures FinalScore(gene, Some(s), baseline) <= FinalScore(gene, Some(t), baseline)
  {
  }

  /** Capping an already final score changes nothing. */
  lemma FinalScoreIdempotent(gene: string, parsed: Option<int>, baseline: int)
    ensures var r := FinalScore(gene, parsed, baseline);
            FinalScore(gene, Some(r), baseline) == r
  {
  }

  /** A 5 survives only for the allow-list, so a 5 in the output names an
      allow-listed gene. */
  lemma FiveOnlyForAllowList(gene: string, parsed: Option<int>, baseline: int)
    ensures FinalScore(gene, parsed, baseline) == 5 ==> gene in Special5Genes
    ensures gene in Special5Genes && parsed.GetOr(baseline) >= 5 ==> FinalScore(gene, parsed, baseline) == 5
    ensures gene !in Special5Genes && parsed.GetOr(baseline) >= 4 ==> FinalScore(gene, parsed, baseline) == 4
  {
  }

  /** Nothing bounds the score from below: a reply of 0 or less passes through. */
  lemma NoLowerBound(gene: string, s: int, baseline: int)
    requires s <= 0
    ensures FinalScore(gene, Some(s), baseline) == s
  {
  }

  // ---------------------------------------------------------------------
  // One output row
  // ---------------------------------------------------------------------

  /** What came back for one gene. `Unusable` is a failed request or a reply
      that does not decode as JSON; otherwise each field may be missing. The
      score is `Some(int(v))` when `int` accepts the reply's value `v`, and
      `None` when the key is missing or `int` raises. */
  datatype Reply =
    | Unusable
    | Parsed(score: Option<int>, role: Option<string>, context: Option<string>, refs: Option<seq<string>>)

  /** One line of the output table. */
  datatype OutputRow = OutputRow(
    gene: string,
    oncogenicRole: string,
    therapyContext: string,
    noveltyScore: int,
    baselineFromTrials: int,
    keyRefs: string,
    numTrials: int,
    pubmedTotal: int)

  /** The output row for `gene` from its reply and its table figures. */
  function ScoreRow(gene: string, reply: Reply, baseline: int, numTrials: int, total: int): (row: OutputRow)
    ensures row.gene == gene && row.baselineFromTrials == baseline
    ensures row.numTrials == numTrials && row.pubmedTotal == total
    ensures row.noveltyScore <= ScoreCap(gene)
    ensures reply.Unusable? ==>
              && row.oncogenicRole == "" && row.therapyContext == "" && row.keyRefs == ""
              && row.noveltyScore == FinalScore(gene, None, baseline)
    ensures reply.Parsed? ==>
              && row.oncogenicRole == reply.role.GetOr("")
              && row.therapyContext == reply.context.GetOr("")
              && row.noveltyScore == FinalScore(gene, reply.score, baseline)
    ensures reply.Parsed? && reply.refs.Some? && |reply.refs.value| == 1 ==> row.keyRefs == reply.refs.value[0]
    ensures reply.Parsed? && reply.refs.GetOr([]) == [] ==> row.keyRefs == ""
  {
    match reply
    case Unusable =>
      OutputRow(gene, "", "", FinalScore(gene, Some(baseline), baseline), baseline, Join([], RefSeparator), numTrials, total)
    case Parsed(score, role, context, refs) =>
      OutputRow(gene, role.GetOr(""), context.GetOr(""), FinalScore(gene, score, baseline),
                baseline, Join(refs.GetOr([]), RefSeparator), numTrials, total)
  }

  /** A failed reply and a reply without a score give the same score. */
  lemma UnusableLikeMissingScore(gene: string, role: Option<string>, context: Option<string>,
                                 refs: Option<seq<string>>, baseline: int, numTrials: int, total: int)
    ensures ScoreRow(gene, Unusable, baseline, numTrials, total).noveltyScore
         == ScoreRow(gene, Parsed(None, role, context, refs), baseline, numTrials, total).noveltyScore
  {
  }

  /** Adding a reference appends it after the separator. */
  lemma KeyRefsSnoc(gene: string, score: Option<int>, role: Option<string>, context: Option<string>,
                    refs: seq<string>, extra: string, baseline: int, numTrials: int, total: int)
    requires refs != []
    ensures ScoreRow(gene, Parsed(score, role, context, Some(refs + [extra])), baseline, numTrials, total).keyRefs
         == ScoreRow(gene, Parsed(score, role, context, Some(refs)), baseline, numTrials, total).keyRefs + RefSeparator + extra
  {
    JoinSnoc(refs, extra, RefSeparator);
  }
}
