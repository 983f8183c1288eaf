/**
 * A resolved contradiction that a sync reopens (src/factsToSemanticGraph.ts, src/contradictionPair.ts).
 */
module FactsReopened {
  import opened Options
  import opened FactsSpec
  import opened FactsNodes
  import FactsRuns

  const NLI: string := "NLI: \"ARR is 5\" vs \"ARR is 7\""
  const NLI_SWAPPED: string := "NLI: \"ARR is 7\" vs \"ARR is 5\""
  const NLI_LOWER: string := "nli: \"arr is 5\" vs \"arr is 7\""
  const NLI_SWAPPED_LOWER: string := "nli: \"arr is 7\" vs \"arr is 5\""

  /**
   * What the code answers for the texts above: the NLI pattern is case-sensitive, so the lowercased
   * text is split at "vs" as prose and gets another key; all words are too short for the overlap.
   */
  function NliPairKey(s: string): Option<string> {
    if s == NLI || s == NLI_SWAPPED then Some("arr is 5::arr is 7")
    else if s == NLI_LOWER then Some("\"arr is 7\"::nli: \"arr is 5\"")
    else None
  }

  function NliLower(s: string): string {
    if s == NLI then NLI_LOWER else if s == NLI_SWAPPED then NLI_SWAPPED_LOWER else s
  }

  const NLI_ENV: Env := Env(
    0.65, s => s, s => s, ids => ids, ids => 0, (cs, s) => None, NliPairKey, (a, b) => 0.0, NliLower, s => false,
    (i, s) => false)

  lemma NothingToTrim(s: string)
    requires s != [] && !IsSpace(s[0]) && !IsSpace(s[|s| - 1])
    ensures Trim(s) == s
  {
  }

  lemma NliTextsDiffer()
    ensures NLI_SWAPPED != NLI && NLI_LOWER != NLI && NLI_LOWER != NLI_SWAPPED && NLI_SWAPPED_LOWER != NLI_LOWER
  {
    assert NLI[0] == NLI_SWAPPED[0] == 'N' && NLI_LOWER[0] == 'n';
    assert NLI[13] == NLI_LOWER[13] == '5' && NLI_SWAPPED[13] == NLI_SWAPPED_LOWER[13] == '7';
  }

  lemma NliTexts()
    ensures Trim(NLI) == NLI && Trim(NLI_SWAPPED) == NLI_SWAPPED && Trim(NLI_LOWER) == NLI_LOWER
    ensures NLI_SWAPPED != NLI && NLI_LOWER != NLI && NLI_LOWER != NLI_SWAPPED && NLI_SWAPPED_LOWER != NLI_LOWER
  {
    NothingToTrim(NLI);
    NothingToTrim(NLI_SWAPPED);
    NothingToTrim(NLI_LOWER);
    NliTextsDiffer();
  }

  lemma NliAnswers()
    ensures PairKey(NLI_ENV, NLI_SWAPPED) == PairKey(NLI_ENV, NLI) == Some("arr is 5::arr is 7")
    ensures PairKey(NLI_ENV, NLI_LOWER) == Some("\"arr is 7\"::nli: \"arr is 5\"")
    ensures NLI_ENV.lower(NLI) == NLI_LOWER && NLI_ENV.lower(NLI_SWAPPED) == NLI_SWAPPED_LOWER
  {
    NliTexts();
  }

  lemma SwappedNliIsProcessed()
    ensures Processed(NLI_ENV, [NLI], [NLI_SWAPPED], 0)
  {
    NliTexts();
    NliAnswers();
    var rs := ResolvedTexts(NLI_ENV, [NLI]);
    assert rs[0] == Trim(NLI_ENV.lower(NLI)) == NLI_LOWER;
    assert "arr is 5::arr is 7"[0] == 'a' && "\"arr is 7\"::nli: \"arr is 5\""[0] == '\"';
  }

  /**
   * The resolved checks can fail to recognise the same contradiction: this one, listed as resolved,
   * is reopened when it is extracted again with its sides swapped, provided no embedding tells.
   */
  lemma SwappedNliReopens()
    ensures var pre := [GNode(Contradiction, NLI, 1.0, Resolved, true, None, true)];
            var post := SyncedGraph(NLI_ENV, Facts([], [], [], [], [NLI_SWAPPED], 1.0), [NLI], pre);
            |post| > 0 && post[0] == pre[0].(status := Active)
  {
    var pre := [GNode(Contradiction, NLI, 1.0, Resolved, true, None, true)];
    var f := Facts([], [], [], [], [NLI_SWAPPED], 1.0);
    SwappedNliIsProcessed();
    NliAnswers();
    NliTexts();
    assert pre[..|pre| - 1] == [];
    assert RowIds(pre, Contradiction) == [0];
    assert FactIds(NLI_ENV, pre, Contradiction) == [0];
    FactsRuns.SameKeyReopensExactly(NLI_ENV, f, [NLI], pre, NLI_SWAPPED, 0);
    SyncedContradiction(NLI_ENV, f, [NLI], pre, 0);
  }
}
