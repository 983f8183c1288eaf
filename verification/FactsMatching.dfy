/**
 * Which node an item of the batch goes to, in terms of the rows found and of the text matcher's
 * answer alone (src/factsToSemanticGraph.ts).
 */
module FactsMatching {
  import opened Options
  import opened FactsSpec
  import opened FactsPhases
  import opened FactsNodes

  // ---------------------------------------------------------------------------------------------
  // Entries and queries
  // ---------------------------------------------------------------------------------------------

  /** Claim k of the batch: structured claims with their dimensions if there are any, else flat ones. */
  predicate IsClaimOf(f: Facts, k: nat, content: string, dimension: Option<string>) {
    if f.structuredClaims != []
    then
      && k < |f.structuredClaims|
      && f.structuredClaims[k].1 == content && dimension == Some(Trim(f.structuredClaims[k].0))
    else k < |f.claims| && f.claims[k] == content && dimension == None
  }

  lemma EntriesExactly(env: Env, f: Facts, k: nat, content: string, dimension: Option<string>)
    ensures (k < |ClaimEntries(env, f)| && ClaimEntries(env, f)[k] == Entry(content, dimension))
            <==> f.confidence >= env.minClaimConfidence && IsClaimOf(f, k, content, dimension)
  {
  }

  /** A facts-sync claim of the current view with the dimension. */
  predicate Carries(n: GNode, dimension: Option<string>) {
    n.nodeType == Claim && n.factsSync && n.current && n.dimension == dimension && dimension.Some?
  }

  /** Row i is the first of its type, in the order of the query, that carries the dimension. */
  ghost predicate FirstToCarry(env: Env, pre: seq<GNode>, dimension: Option<string>, i: nat) {
    i < |pre| && Carries(pre[i], dimension)
    && exists k :: 0 <= k < |FactIds(env, pre, Claim)| && FactIds(env, pre, Claim)[k] == i
                   && forall j :: 0 <= j < k ==> !Carries(pre[FactIds(env, pre, Claim)[j]], dimension)
  }

  /** The text matcher, asked about the contents of all facts-sync nodes of the type, answers with row i. */
  ghost predicate Answers(env: Env, pre: seq<GNode>, t: NodeType, text: string, i: nat) {
    var ids := FactIds(env, pre, t);
    var contents := seq(|ids|, k requires 0 <= k < |ids| => pre[ids[k]].content);
    exists k :: 0 <= k < |ids| && ids[k] == i && env.matcher(contents, text) == Some(k)
  }

  lemma {:induction false} FirstInIds(pre: seq<GNode>, ids: seq<nat>, dimension: string, i: nat)
    requires forall k :: 0 <= k < |ids| ==> ids[k] < |pre|
    ensures ByDimension(pre, ids, dimension) == Some(i)
            <==> exists k :: 0 <= k < |ids| && ids[k] == i && pre[i].dimension == Some(dimension)
                             && forall j :: 0 <= j < k ==> pre[ids[j]].dimension != Some(dimension)
  {
    if ids != [] {
      FirstInIds(pre, ids[1..], dimension, i);
      if pre[ids[0]].dimension != Some(dimension) {
        FirstOfRest(pre, ids, dimension, i);
      }
    }
  }

  lemma FirstOfRest(pre: seq<GNode>, ids: seq<nat>, dimension: string, i: nat)
    requires ids != [] && forall k :: 0 <= k < |ids| ==> ids[k] < |pre|
    requires pre[ids[0]].dimension != Some(dimension)
    ensures (exists k :: 0 <= k < |ids| && ids[k] == i && pre[i].dimension == Some(dimension)
                         && forall j :: 0 <= j < k ==> pre[ids[j]].dimension != Some(dimension))
            <==> (exists k :: 0 <= k < |ids[1..]| && ids[1..][k] == i && pre[i].dimension == Some(dimension)
                              && forall j :: 0 <= j < k ==> pre[ids[1..][j]].dimension != Some(dimension))
  {
    if k :| 0 <= k < |ids| && ids[k] == i && pre[i].dimension == Some(dimension)
            && forall j :: 0 <= j < k ==> pre[ids[j]].dimension != Some(dimension) {
      assert ids[1..][k - 1] == i;
      assert forall j :: 0 <= j < k - 1 ==> ids[1..][j] == ids[j + 1];
    }
    if k :| 0 <= k < |ids[1..]| && ids[1..][k] == i && pre[i].dimension == Some(dimension)
            && forall j :: 0 <= j < k ==> pre[ids[1..][j]].dimension != Some(dimension) {
      assert ids[k + 1] == i;
      assert forall j :: 0 < j < k + 1 ==> ids[j] == ids[1..][j - 1];
    }
  }

  lemma DimensionExactly(env: Env, pre: seq<GNode>, dimension: string, i: nat)
    ensures ByDimension(pre, FactIds(env, pre, Claim), dimension) == Some(i)
            <==> FirstToCarry(env, pre, Some(dimension), i)
  {
    FirstInIds(pre, FactIds(env, pre, Claim), dimension, i);
  }

  lemma SomeCarries(env: Env, pre: seq<GNode>, dimension: string)
    ensures ByDimension(pre, FactIds(env, pre, Claim), dimension).Some?
            <==> exists i :: 0 <= i < |pre| && Carries(pre[i], Some(dimension))
  {
    var ids := FactIds(env, pre, Claim);
    var r := ByDimension(pre, ids, dimension);
    if r.Some? {
      DimensionExactly(env, pre, dimension, r.value);
    } else {
      forall i: nat | i < |pre|
        ensures !Carries(pre[i], Some(dimension))
      {
        NoneInIds(pre, ids, dimension, i);
      }
    }
  }

  lemma {:induction false} NoneInIds(pre: seq<GNode>, ids: seq<nat>, dimension: string, i: nat)
    requires forall k :: 0 <= k < |ids| ==> ids[k] < |pre|
    requires ByDimension(pre, ids, dimension) == None
    ensures i in ids ==> pre[i].dimension != Some(dimension)
  {
    if ids != [] && i in ids && ids[0] != i {
      assert i in ids[1..];
      NoneInIds(pre, ids[1..], dimension, i);
    }
  }

  lemma AnswersExactly(env: Env, pre: seq<GNode>, t: NodeType, text: string, i: nat)
    ensures ByText(env, pre, t, text) == Some(i) <==> Answers(env, pre, t, text, i)
  {
    var ids := FactIds(env, pre, t);
    assert Contents(pre, ids) == seq(|ids|, k requires 0 <= k < |ids| => pre[ids[k]].content);
  }

  /** The row that a claim matches: the first that carries its dimension; without one, the matcher's answer. */
  ghost predicate Matches(env: Env, pre: seq<GNode>, content: string, dimension: Option<string>, i: nat) {
    if exists j :: 0 <= j < |pre| && Carries(pre[j], dimension) then FirstToCarry(env, pre, dimension, i)
    else Answers(env, pre, Claim, Trim(env.canonText(content)), i)
  }

  lemma MatchExactly(env: Env, pre: seq<GNode>, content: string, dimension: Option<string>, i: nat)
    ensures MatchClaim(env, pre, Entry(content, dimension)) == Some(i)
            <==> Matches(env, pre, content, dimension, i)
  {
    AnswersExactly(env, pre, Claim, Trim(env.canonText(content)), i);
    if dimension.Some? {
      DimensionExactly(env, pre, dimension.value, i);
      SomeCarries(env, pre, dimension.value);
    }
  }

  // ---------------------------------------------------------------------------------------------
  // Claims
  // ---------------------------------------------------------------------------------------------

  /** The row is active, has the greater confidence, keeps its dimension and its canonical reading. */
  ghost predicate Raised(env: Env, a: GNode, b: GNode, confidence: real) {
    && b.nodeType == Claim && b.status == Active
    && b.confidence == (if a.confidence >= confidence then a.confidence else confidence)
    && b.dimension == a.dimension && b.factsSync == a.factsSync && b.current == a.current
    && env.claimKey(b.content) == env.claimKey(a.content)
  }

  /** The graph when the first k claims of the batch have been looked at. */
  function Before(env: Env, f: Facts, pre: seq<GNode>, k: nat): seq<GNode>
    requires k <= |ClaimEntries(env, f)|
  {
    ClaimsAfter(env, pre, ClaimEntries(env, f), f.confidence, k)
  }

  /** What a sync does for a claim that matches row i: it raises that row, and appends nothing for the claim. */
  lemma MatchedClaimIsRaised(env: Env, f: Facts, rows: seq<string>, pre: seq<GNode>, k: nat, content: string,
                             dimension: Option<string>, i: nat)
    requires f.confidence >= env.minClaimConfidence && IsClaimOf(f, k, content, dimension) && Trim(content) != []
    requires Matches(env, pre, content, dimension, i)
    ensures k < |ClaimEntries(env, f)| && i < |pre| && i < |SyncedGraph(env, f, rows, pre)|
    ensures Raised(env, pre[i], SyncedGraph(env, f, rows, pre)[i], f.confidence)
    ensures |Before(env, f, pre, k + 1)| == |Before(env, f, pre, k)|
  {
    EntriesExactly(env, f, k, content, dimension);
    MatchExactly(env, pre, content, dimension, i);
    ClaimsNext(env, pre, ClaimEntries(env, f), f.confidence, k);
    GoesToMatch(env, f, pre, k, i);
    SyncedClaim(env, f, rows, pre, i);
  }

  lemma GoesToMatch(env: Env, f: Facts, pre: seq<GNode>, k: nat, i: nat)
    requires k < |ClaimEntries(env, f)| && f.confidence >= env.minClaimConfidence
    requires Trim(ClaimEntries(env, f)[k].content) != [] && MatchClaim(env, pre, ClaimEntries(env, f)[k]) == Some(i)
    ensures ClaimedBy(env, f, pre, i)
  {
    assert TargetOf(env, pre, ClaimEntries(env, f), f.confidence, k) == Some(i);
  }

  lemma NoMatch(env: Env, pre: seq<GNode>, content: string, dimension: Option<string>)
    requires forall i: nat :: !Matches(env, pre, content, dimension, i)
    ensures MatchClaim(env, pre, Entry(content, dimension)) == None
  {
    var r := MatchClaim(env, pre, Entry(content, dimension));
    if r.Some? {
      MatchExactly(env, pre, content, dimension, r.value);
    }
  }

  /** An active claim of any creator has exactly this text, and only its confidence changes, to the greater one. */
  ghost predicate Merged(now: seq<GNode>, next: seq<GNode>, text: string, confidence: real) {
    exists j :: 0 <= j < |now| && IsActiveClaim(now[j]) && now[j].content == text
      && next == now[j := now[j].(confidence := if now[j].confidence >= confidence
                                                then now[j].confidence else confidence)]
  }

  lemma UnmatchedStep(env: Env, pre: seq<GNode>, now: seq<GNode>, e: Entry, confidence: real)
    requires |pre| <= |now| && Trim(e.content) != [] && MatchClaim(env, pre, e) == None
    ensures var text, next := ClaimText(env, e), UpsertOne(env, pre, now, e, confidence);
            if exists j :: 0 <= j < |now| && IsActiveClaim(now[j]) && now[j].content == text
            then Merged(now, next, text, confidence)
            else next == now + [NewClaim(env, e, confidence)]
  {
    var r := DuplicateOf(env, now, ClaimText(env, e));
    if r.Some? {
      assert IsActiveClaim(now[r.value]) && now[r.value].content == ClaimText(env, e);
    }
  }

  lemma AppendedIsThere(env: Env, f: Facts, rows: seq<string>, pre: seq<GNode>, k: nat, n: GNode)
    requires k < |ClaimEntries(env, f)| && n.nodeType == Claim
    requires Before(env, f, pre, k + 1) == Before(env, f, pre, k) + [n]
    ensures var i := |Before(env, f, pre, k)|;
            i < |SyncedGraph(env, f, rows, pre)| && SyncedGraph(env, f, rows, pre)[i] == n
  {
    var i, j := |Before(env, f, pre, k)|, k + 1;
    NewClaimStays(env, f, pre, j, i, n);
    LaterPhasesLeaveClaim(env, f, rows, pre, i);
  }

  /**
   * What it does for one that matches none: it is merged into an active claim of any creator with exactly
   * its text; without one it becomes a new claim, which is still there in the end as it was appended.
   */
  lemma UnmatchedClaimIsMergedOrNew(env: Env, f: Facts, rows: seq<string>, pre: seq<GNode>, k: nat, content: string,
                                    dimension: Option<string>)
    requires f.confidence >= env.minClaimConfidence && IsClaimOf(f, k, content, dimension) && Trim(content) != []
    requires forall i: nat :: !Matches(env, pre, content, dimension, i)
    ensures k < |ClaimEntries(env, f)|
    ensures var text := Trim(env.canonText(content));
            var now, next := Before(env, f, pre, k), Before(env, f, pre, k + 1);
            var n := GNode(Claim, text, f.confidence, Active, true, if dimension == Some("") then None else dimension,
                           true);
            if exists j :: 0 <= j < |now| && IsActiveClaim(now[j]) && now[j].content == text
            then Merged(now, next, text, f.confidence)
            else
              && next == now + [n]
              && |now| < |SyncedGraph(env, f, rows, pre)| && SyncedGraph(env, f, rows, pre)[|now|] == n
  {
    var e := Entry(content, dimension);
    var now := Before(env, f, pre, k);
    EntriesExactly(env, f, k, content, dimension);
    NoMatch(env, pre, content, dimension);
    ClaimsNext(env, pre, ClaimEntries(env, f), f.confidence, k);
    UnmatchedStep(env, pre, now, e, f.confidence);
    if !exists j :: 0 <= j < |now| && IsActiveClaim(now[j]) && now[j].content == ClaimText(env, e) {
      AppendedIsThere(env, f, rows, pre, k, NewClaim(env, e, f.confidence));
    }
  }

  lemma {:induction false} NewClaimStays(env: Env, f: Facts, pre: seq<GNode>, k: nat, i: nat, n: GNode)
    requires k <= |ClaimEntries(env, f)| && |pre| <= i < |Before(env, f, pre, k)| && Before(env, f, pre, k)[i] == n
    ensures i < |AfterClaims(env, f, pre)| && AfterClaims(env, f, pre)[i] == n
    decreases |ClaimEntries(env, f)| - k
  {
    if k != |ClaimEntries(env, f)| {
      var j := k + 1;
      NewClaimStaysOnce(env, f, pre, k, j, i);
      NewClaimStays(env, f, pre, j, i, n);
    }
  }

  lemma UpsertLeavesNew(env: Env, pre: seq<GNode>, now: seq<GNode>, e: Entry, confidence: real, i: nat)
    requires |pre| <= i < |now| && now[i].confidence == confidence
    ensures UpsertOne(env, pre, now, e, confidence)[i] == now[i]
  {
  }

  lemma NewClaimStaysOnce(env: Env, f: Facts, pre: seq<GNode>, k: nat, j: nat, i: nat)
    requires j == k + 1 <= |ClaimEntries(env, f)| && |pre| <= i < |Before(env, f, pre, k)|
    ensures i < |Before(env, f, pre, j)| && Before(env, f, pre, j)[i] == Before(env, f, pre, k)[i]
  {
    var entries := ClaimEntries(env, f);
    ClaimsHold(env, pre, entries, f.confidence, k);
    ClaimsNext(env, pre, entries, f.confidence, k);
    UpsertLeavesNew(env, pre, Before(env, f, pre, k), entries[k], f.confidence, i);
  }

  /** A sync adds no second claim to a dimension that has one. */
  lemma NoSecondClaim(env: Env, f: Facts, rows: seq<string>, pre: seq<GNode>, i: nat, j: nat)
    requires i < |pre| && |pre| <= j < |SyncedGraph(env, f, rows, pre)|
    requires Carries(pre[i], pre[i].dimension) && pre[i].dimension != Some("")
    requires SyncedGraph(env, f, rows, pre)[j].nodeType == Claim
    ensures SyncedGraph(env, f, rows, pre)[j].dimension != pre[i].dimension
  {
    var n := SyncedGraph(env, f, rows, pre)[j];
    NothingInvented(env, f, rows, pre, j);
    var entries := ClaimEntries(env, f);
    var q :| 0 <= q < |entries| && Says(env, pre, entries, q, n);
    if n.dimension == pre[i].dimension {
      SomeCarries(env, pre, pre[i].dimension.value);
    }
  }

  // ---------------------------------------------------------------------------------------------
  // Wording and candidates
  // ---------------------------------------------------------------------------------------------

  /** Claim k of the batch matches row i, says the same up to canonicalisation, and says it differently. */
  ghost predicate Rewords(env: Env, f: Facts, pre: seq<GNode>, k: nat, i: nat)
    requires k < |ClaimEntries(env, f)| && i < |pre|
  {
    var e := ClaimEntries(env, f)[k];
    var text := Trim(env.canonText(e.content));
    && Trim(e.content) != [] && Matches(env, pre, e.content, e.dimension, i)
    && env.claimKey(text) == env.claimKey(pre[i].content) && text != pre[i].content
  }

  lemma WordingStep(env: Env, f: Facts, pre: seq<GNode>, k: nat, j: nat, i: nat)
    requires j == k + 1 <= |ClaimEntries(env, f)| && i < |pre|
    ensures Before(env, f, pre, j)[i].content
            == if Rewords(env, f, pre, k, i) then Trim(env.canonText(ClaimEntries(env, f)[k].content))
               else Before(env, f, pre, k)[i].content
  {
    var e := ClaimEntries(env, f)[k];
    ClaimsNext(env, pre, ClaimEntries(env, f), f.confidence, k);
    MatchExactly(env, pre, e.content, e.dimension, i);
    assert e == Entry(e.content, e.dimension);
  }

  lemma {:induction false} WordingStays(env: Env, f: Facts, pre: seq<GNode>, k: nat, i: nat)
    requires k <= |ClaimEntries(env, f)| && i < |pre|
    requires forall q :: k <= q < |ClaimEntries(env, f)| ==> !Rewords(env, f, pre, q, i)
    ensures AfterClaims(env, f, pre)[i].content == Before(env, f, pre, k)[i].content
    decreases |ClaimEntries(env, f)| - k
  {
    if k != |ClaimEntries(env, f)| {
      var j := k + 1;
      WordingStep(env, f, pre, k, j, i);
      WordingStays(env, f, pre, j, i);
    }
  }

  lemma ClaimTypeStays(env: Env, f: Facts, pre: seq<GNode>, i: nat)
    requires i < |pre| && pre[i].nodeType == Claim
    ensures AfterClaims(env, f, pre)[i].nodeType == Claim
  {
    ClaimsHold(env, pre, ClaimEntries(env, f), f.confidence, |ClaimEntries(env, f)|);
  }

  /** A claim that nothing rewords keeps its text. */
  lemma WordingIsKept(env: Env, f: Facts, rows: seq<string>, pre: seq<GNode>, i: nat)
    requires i < |pre| && pre[i].nodeType == Claim
    requires forall k :: 0 <= k < |ClaimEntries(env, f)| ==> !Rewords(env, f, pre, k, i)
    ensures i < |SyncedGraph(env, f, rows, pre)| && SyncedGraph(env, f, rows, pre)[i].content == pre[i].content
  {
    ClaimTypeStays(env, f, pre, i);
    WordingStays(env, f, pre, 0, i);
    LaterPhasesLeaveClaim(env, f, rows, pre, i);
  }

  /** Any other claim has the text of the last one of the batch that rewords it. */
  lemma LastWordingWins(env: Env, f: Facts, rows: seq<string>, pre: seq<GNode>, k: nat, i: nat)
    requires i < |pre| && pre[i].nodeType == Claim && k < |ClaimEntries(env, f)| && Rewords(env, f, pre, k, i)
    requires forall q :: k < q < |ClaimEntries(env, f)| ==> !Rewords(env, f, pre, q, i)
    ensures i < |SyncedGraph(env, f, rows, pre)|
    ensures SyncedGraph(env, f, rows, pre)[i].content == Trim(env.canonText(ClaimEntries(env, f)[k].content))
  {
    var j := k + 1;
    ClaimTypeStays(env, f, pre, i);
    WordingStep(env, f, pre, k, j, i);
    WordingStays(env, f, pre, j, i);
    LaterPhasesLeaveClaim(env, f, rows, pre, i);
  }

  /** Claim k matches a node that reads differently and was not merged with its reading. */
  ghost predicate Offers(env: Env, pre: seq<GNode>, e: Entry, c: Candidate) {
    var text := Trim(env.canonText(e.content));
    && Trim(e.content) != [] && Matches(env, pre, e.content, e.dimension, c.existingId) && c.existingId < |pre|
    && env.claimKey(text) != env.claimKey(pre[c.existingId].content)
    && !env.mergedKey(c.existingId, env.claimKey(text))
    && c.existingContent == pre[c.existingId].content && c.newContent == text
    && c.dimension == if e.dimension == Some("") then None else e.dimension
  }

  lemma OfferExactly(env: Env, pre: seq<GNode>, e: Entry, c: Candidate)
    ensures CandidateOf(env, pre, e) == [c] <==> Offers(env, pre, e, c)
    ensures |CandidateOf(env, pre, e)| <= 1
  {
    assert e == Entry(e.content, e.dimension);
    MatchExactly(env, pre, e.content, e.dimension, c.existingId);
    if CandidateOf(env, pre, e) != [] {
      assert CandidateOf(env, pre, e)[0] == CandidateOf(env, pre, e)[|CandidateOf(env, pre, e)| - 1];
    }
  }
}
