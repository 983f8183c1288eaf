/**
 * What the phases of a sync do to the graph they find (src/factsToSemanticGraph.ts).
 */
module FactsPhases {
  import opened Options
  import opened FactsSpec

  // ---------------------------------------------------------------------------------------------
  // Claims
  // ---------------------------------------------------------------------------------------------

  /**
   * A claim that the batch goes to is active, has the greater confidence, and reads the same up to
   * canonicalisation.
   */
  ghost predicate RaisedClaim(env: Env, a: GNode, b: GNode, confidence: real) {
    && a.nodeType == Claim && a.current && SameIdentity(a, b)
    && b.confidence == MaxReal(a.confidence, confidence)
    && b.status == Active
    && env.claimKey(b.content) == env.claimKey(a.content)
  }

  /** New claims repeat neither each other nor a claim that stayed as it was and active. */
  ghost predicate NoNewDuplicates(pre: seq<GNode>, post: seq<GNode>)
    requires |pre| <= |post|
  {
    && (forall i, j :: |pre| <= i < j < |post| ==> post[i].content != post[j].content)
    && (forall i, j :: 0 <= i < |pre| && |pre| <= j < |post| && post[i] == pre[i] && IsActiveClaim(pre[i]) ==>
          pre[i].content != post[j].content)
  }

  /** Entry q is not blank, matched nothing, and is what the new claim says. */
  predicate Says(env: Env, pre: seq<GNode>, entries: seq<Entry>, q: nat, n: GNode)
    requires q < |entries|
  {
    && Trim(entries[q].content) != [] && MatchClaim(env, pre, entries[q]) == None
    && n.content == ClaimText(env, entries[q]) && n.dimension == Dimension(entries[q])
  }

  ghost predicate FromEntry(env: Env, pre: seq<GNode>, entries: seq<Entry>, upto: nat, n: GNode)
    requires upto <= |entries|
  {
    exists q :: 0 <= q < upto && Says(env, pre, entries, q, n)
  }

  /** A row that was there has been raised if a claim went to it, and stayed as it was otherwise. */
  ghost predicate OldClaims(env: Env, pre: seq<GNode>, now: seq<GNode>, entries: seq<Entry>, confidence: real, k: nat)
    requires |pre| <= |now| && k <= |entries|
  {
    forall i :: 0 <= i < |pre| ==>
      if TouchedBy(env, pre, entries, confidence, k, i) then RaisedClaim(env, pre[i], now[i], confidence)
      else now[i] == pre[i]
  }

  /** Row i is an active claim of the batch. */
  ghost predicate IsNewClaim(env: Env, pre: seq<GNode>, entries: seq<Entry>, confidence: real, k: nat, i: nat, n: GNode)
    requires k <= |entries|
  {
    && IsFact(n, Claim) && n.status == Active && n.confidence == confidence
    && TouchedBy(env, pre, entries, confidence, k, i) && FromEntry(env, pre, entries, k, n)
  }

  /** So is every new row. */
  ghost predicate NewClaims(env: Env, pre: seq<GNode>, now: seq<GNode>, entries: seq<Entry>, confidence: real, k: nat)
    requires k <= |entries|
  {
    forall i :: |pre| <= i < |now| ==> IsNewClaim(env, pre, entries, confidence, k, i, now[i])
  }

  /** After the first k claims. */
  ghost predicate ClaimsInv(env: Env, pre: seq<GNode>, now: seq<GNode>, entries: seq<Entry>, confidence: real, k: nat)
    requires k <= |entries|
  {
    && |pre| <= |now|
    && OldClaims(env, pre, now, entries, confidence, k)
    && NewClaims(env, pre, now, entries, confidence, k)
    && NoNewDuplicates(pre, now)
  }

  lemma TouchedNext(env: Env, pre: seq<GNode>, entries: seq<Entry>, confidence: real, k: nat, i: nat)
    requires k < |entries|
    ensures TouchedBy(env, pre, entries, confidence, k + 1, i)
            <==> TouchedBy(env, pre, entries, confidence, k, i) || TargetOf(env, pre, entries, confidence, k) == Some(i)
  {
  }

  lemma RaiseRaises(env: Env, a: GNode, now: GNode, text: string, confidence: real)
    requires a.nodeType == Claim && a.current
    requires now == a || RaisedClaim(env, a, now, confidence)
    ensures var n := RaiseClaim(env, a, now, text, confidence);
            && RaisedClaim(env, a, n, confidence)
            && (n == a ==> now == a)
  {
  }

  /** What the step does to its row: an old one is raised and does not return to what it was, a new one stays. */
  ghost predicate RowRaised(env: Env, pre: seq<GNode>, now: seq<GNode>, confidence: real, id: nat, n: GNode)
    requires |pre| <= |now| && id < |now|
  {
    if id < |pre| then RaisedClaim(env, pre[id], n, confidence) && (n == pre[id] ==> now[id] == pre[id])
    else n == now[id]
  }

  lemma RowKeepsOld(env: Env, pre: seq<GNode>, now: seq<GNode>, entries: seq<Entry>, confidence: real, k: nat, id: nat,
                    n: GNode)
    requires k < |entries| && |pre| <= |now| && OldClaims(env, pre, now, entries, confidence, k)
    requires id < |now| && TargetOf(env, pre, entries, confidence, k) == Some(id)
    requires RowRaised(env, pre, now, confidence, id, n)
    ensures OldClaims(env, pre, now[id := n], entries, confidence, k + 1)
  {
    forall i | 0 <= i < |pre|
      ensures if TouchedBy(env, pre, entries, confidence, k + 1, i)
              then RaisedClaim(env, pre[i], now[id := n][i], confidence)
              else now[id := n][i] == pre[i]
    {
      TouchedNext(env, pre, entries, confidence, k, i);
    }
  }

  lemma NewClaimPersists(env: Env, pre: seq<GNode>, entries: seq<Entry>, confidence: real, k: nat, i: nat, n: GNode)
    requires k < |entries| && IsNewClaim(env, pre, entries, confidence, k, i, n)
    ensures IsNewClaim(env, pre, entries, confidence, k + 1, i, n)
  {
    TouchedNext(env, pre, entries, confidence, k, i);
    var q :| 0 <= q < k && Says(env, pre, entries, q, n);
  }

  lemma NewClaimsPersist(env: Env, pre: seq<GNode>, now: seq<GNode>, next: seq<GNode>, entries: seq<Entry>,
                         confidence: real, k: nat)
    requires k < |entries| && NewClaims(env, pre, now, entries, confidence, k)
    requires |now| == |next| && forall i :: |pre| <= i < |now| ==> next[i] == now[i]
    ensures NewClaims(env, pre, next, entries, confidence, k + 1)
  {
    forall i | |pre| <= i < |next|
      ensures IsNewClaim(env, pre, entries, confidence, k + 1, i, next[i])
    {
      NewClaimPersists(env, pre, entries, confidence, k, i, next[i]);
    }
  }

  /** The step of an entry that changes one row and appends none. */
  lemma RowStep(env: Env, pre: seq<GNode>, now: seq<GNode>, entries: seq<Entry>, confidence: real, k: nat, id: nat,
                n: GNode)
    requires k < |entries| && ClaimsInv(env, pre, now, entries, confidence, k)
    requires id < |now| && TargetOf(env, pre, entries, confidence, k) == Some(id)
    requires RowRaised(env, pre, now, confidence, id, n)
    ensures ClaimsInv(env, pre, now[id := n], entries, confidence, k + 1)
  {
    RowKeepsOld(env, pre, now, entries, confidence, k, id, n);
    NewClaimsPersist(env, pre, now, now[id := n], entries, confidence, k);
    RowKeepsDistinct(env, pre, now, confidence, id, n);
  }

  lemma RowKeepsDistinct(env: Env, pre: seq<GNode>, now: seq<GNode>, confidence: real, id: nat, n: GNode)
    requires |pre| <= |now| && id < |now| && NoNewDuplicates(pre, now) && RowRaised(env, pre, now, confidence, id, n)
    ensures NoNewDuplicates(pre, now[id := n])
  {
  }

  lemma SkipEntryStep(env: Env, pre: seq<GNode>, now: seq<GNode>, entries: seq<Entry>, confidence: real, k: nat)
    requires k < |entries| && ClaimsInv(env, pre, now, entries, confidence, k)
    requires TargetOf(env, pre, entries, confidence, k) == None
    ensures ClaimsInv(env, pre, now, entries, confidence, k + 1)
  {
    forall i | 0 <= i < |pre|
      ensures TouchedBy(env, pre, entries, confidence, k + 1, i) <==> TouchedBy(env, pre, entries, confidence, k, i)
    {
      TouchedNext(env, pre, entries, confidence, k, i);
    }
    NewClaimsPersist(env, pre, now, now, entries, confidence, k);
  }

  lemma AppendKeepsOld(env: Env, pre: seq<GNode>, now: seq<GNode>, entries: seq<Entry>, confidence: real, k: nat,
                       n: GNode)
    requires k < |entries| && |pre| <= |now| && OldClaims(env, pre, now, entries, confidence, k)
    requires TargetOf(env, pre, entries, confidence, k) == Some(|now|)
    ensures OldClaims(env, pre, now + [n], entries, confidence, k + 1)
  {
    forall i | 0 <= i < |pre|
      ensures TouchedBy(env, pre, entries, confidence, k + 1, i) <==> TouchedBy(env, pre, entries, confidence, k, i)
    {
      TouchedNext(env, pre, entries, confidence, k, i);
    }
  }

  lemma AppendKeepsDistinct(env: Env, pre: seq<GNode>, now: seq<GNode>, n: GNode)
    requires |pre| <= |now| && NoNewDuplicates(pre, now)
    requires forall i :: 0 <= i < |now| && IsActiveClaim(now[i]) ==> now[i].content != n.content
    requires forall i :: |pre| <= i < |now| ==> IsActiveClaim(now[i])
    ensures NoNewDuplicates(pre, now + [n])
  {
  }

  lemma AppendKeepsNew(env: Env, pre: seq<GNode>, now: seq<GNode>, entries: seq<Entry>, confidence: real, k: nat)
    requires k < |entries| && |pre| <= |now| && NewClaims(env, pre, now, entries, confidence, k)
    requires Trim(entries[k].content) != [] && MatchClaim(env, pre, entries[k]) == None
    requires TargetOf(env, pre, entries, confidence, k) == Some(|now|)
    ensures NewClaims(env, pre, now + [NewClaim(env, entries[k], confidence)], entries, confidence, k + 1)
  {
    var n := NewClaim(env, entries[k], confidence);
    forall i | |pre| <= i < |now + [n]|
      ensures IsNewClaim(env, pre, entries, confidence, k + 1, i, (now + [n])[i])
    {
      if i == |now| {
        AppendedIsNew(env, pre, entries, confidence, k, i);
      } else {
        NewClaimPersists(env, pre, entries, confidence, k, i, now[i]);
      }
    }
  }

  lemma AppendedIsNew(env: Env, pre: seq<GNode>, entries: seq<Entry>, confidence: real, k: nat, i: nat)
    requires k < |entries| && TargetOf(env, pre, entries, confidence, k) == Some(i)
    requires Trim(entries[k].content) != [] && MatchClaim(env, pre, entries[k]) == None
    ensures IsNewClaim(env, pre, entries, confidence, k + 1, i, NewClaim(env, entries[k], confidence))
  {
    TouchedNext(env, pre, entries, confidence, k, i);
    assert Says(env, pre, entries, k, NewClaim(env, entries[k], confidence));
  }

  lemma AppendStep(env: Env, pre: seq<GNode>, now: seq<GNode>, entries: seq<Entry>, confidence: real, k: nat)
    requires k < |entries| && ClaimsInv(env, pre, now, entries, confidence, k)
    requires Trim(entries[k].content) != [] && MatchClaim(env, pre, entries[k]) == None
    requires DuplicateOf(env, now, ClaimText(env, entries[k])) == None
    requires TargetOf(env, pre, entries, confidence, k) == Some(|now|)
    ensures ClaimsInv(env, pre, now + [NewClaim(env, entries[k], confidence)], entries, confidence, k + 1)
  {
    var n := NewClaim(env, entries[k], confidence);
    AppendKeepsOld(env, pre, now, entries, confidence, k, n);
    AppendKeepsNew(env, pre, now, entries, confidence, k);
    AppendKeepsDistinct(env, pre, now, n);
  }

  lemma MergeRaises(env: Env, pre: seq<GNode>, now: seq<GNode>, entries: seq<Entry>, confidence: real, k: nat, id: nat)
    requires k <= |entries| && ClaimsInv(env, pre, now, entries, confidence, k) && id < |now| && IsActiveClaim(now[id])
    ensures RowRaised(env, pre, now, confidence, id, now[id].(confidence := MaxReal(now[id].confidence, confidence)))
  {
  }

  lemma MatchStep(env: Env, pre: seq<GNode>, now: seq<GNode>, entries: seq<Entry>, confidence: real, k: nat, i: nat)
    requires k < |entries| && ClaimsInv(env, pre, now, entries, confidence, k)
    requires Trim(entries[k].content) != [] && MatchClaim(env, pre, entries[k]) == Some(i)
    ensures ClaimsInv(env, pre, UpsertOne(env, pre, now, entries[k], confidence), entries, confidence, k + 1)
  {
    RaiseRaises(env, pre[i], now[i], ClaimText(env, entries[k]), confidence);
    RowStep(env, pre, now, entries, confidence, k, i,
            RaiseClaim(env, pre[i], now[i], ClaimText(env, entries[k]), confidence));
  }

  lemma MergeStep(env: Env, pre: seq<GNode>, now: seq<GNode>, entries: seq<Entry>, confidence: real, k: nat, j: nat)
    requires k < |entries| && ClaimsInv(env, pre, now, entries, confidence, k)
    requires now == ClaimsAfter(env, pre, entries, confidence, k)
    requires Trim(entries[k].content) != [] && MatchClaim(env, pre, entries[k]) == None
    requires DuplicateOf(env, now, ClaimText(env, entries[k])) == Some(j)
    ensures ClaimsInv(env, pre, UpsertOne(env, pre, now, entries[k], confidence), entries, confidence, k + 1)
  {
    MergeRaises(env, pre, now, entries, confidence, k, j);
    RowStep(env, pre, now, entries, confidence, k, j, now[j].(confidence := MaxReal(now[j].confidence, confidence)));
  }

  lemma ClaimStep(env: Env, pre: seq<GNode>, now: seq<GNode>, entries: seq<Entry>, confidence: real, k: nat)
    requires k < |entries| && ClaimsInv(env, pre, now, entries, confidence, k)
    requires now == ClaimsAfter(env, pre, entries, confidence, k)
    ensures ClaimsInv(env, pre, UpsertOne(env, pre, now, entries[k], confidence), entries, confidence, k + 1)
  {
    if Trim(entries[k].content) == [] {
      SkipEntryStep(env, pre, now, entries, confidence, k);
    } else {
      match MatchClaim(env, pre, entries[k]) {
        case Some(i) => MatchStep(env, pre, now, entries, confidence, k, i);
        case None =>
          match DuplicateOf(env, now, ClaimText(env, entries[k])) {
            case Some(j) => MergeStep(env, pre, now, entries, confidence, k, j);
            case None => AppendStep(env, pre, now, entries, confidence, k);
          }
      }
    }
  }

  lemma {:induction false} ClaimsHoldToEnd(env: Env, pre: seq<GNode>, entries: seq<Entry>, confidence: real,
                                           now: seq<GNode>, j: nat, k: nat)
    requires j <= k <= |entries|
    requires now == ClaimsAfter(env, pre, entries, confidence, j) && ClaimsInv(env, pre, now, entries, confidence, j)
    ensures ClaimsInv(env, pre, ClaimsAfter(env, pre, entries, confidence, k), entries, confidence, k)
    decreases k - j
  {
    if j != k {
      ClaimStep(env, pre, now, entries, confidence, j);
      ClaimsHoldToEnd(env, pre, entries, confidence, UpsertOne(env, pre, now, entries[j], confidence), j + 1, k);
    }
  }

  /** The claims phase, whatever the matcher and the duplicate query answer. */
  lemma ClaimsHold(env: Env, pre: seq<GNode>, entries: seq<Entry>, confidence: real, k: nat)
    requires k <= |entries|
    ensures ClaimsInv(env, pre, ClaimsAfter(env, pre, entries, confidence, k), entries, confidence, k)
  {
    ClaimsHoldToEnd(env, pre, entries, confidence, pre, 0, k);
  }

  /**
   * Where an entry goes there is an active claim in the end; if it matched nothing, that claim reads
   * like the entry.
   */
  ghost predicate Kept(env: Env, pre: seq<GNode>, now: seq<GNode>, entries: seq<Entry>, confidence: real, k: nat)
    requires k < |entries|
  {
    var target := TargetOf(env, pre, entries, confidence, k);
    target.Some? ==>
      && target.value < |now| && IsActiveClaim(now[target.value])
      && (MatchClaim(env, pre, entries[k]) == None ==>
            env.claimKey(now[target.value].content) == env.claimKey(ClaimText(env, entries[k])))
  }

  /** Rows keep their canonical reading, and active claims stay active. */
  ghost predicate Grows(env: Env, now: seq<GNode>, next: seq<GNode>) {
    && |now| <= |next|
    && forall i :: 0 <= i < |now| ==>
         env.claimKey(next[i].content) == env.claimKey(now[i].content)
           && (IsActiveClaim(now[i]) ==> IsActiveClaim(next[i]))
  }

  lemma UpsertGrows(env: Env, pre: seq<GNode>, now: seq<GNode>, entries: seq<Entry>, confidence: real, k: nat)
    requires k < |entries| && ClaimsInv(env, pre, now, entries, confidence, k)
    ensures Grows(env, now, UpsertOne(env, pre, now, entries[k], confidence))
  {
    var e := entries[k];
    if Trim(e.content) != [] && MatchClaim(env, pre, e).Some? {
      var i := MatchClaim(env, pre, e).value;
      RaiseRaises(env, pre[i], now[i], ClaimText(env, e), confidence);
    }
  }

  lemma UpsertKeeps(env: Env, pre: seq<GNode>, now: seq<GNode>, entries: seq<Entry>, confidence: real, k: nat)
    requires k < |entries| && ClaimsInv(env, pre, now, entries, confidence, k)
    requires now == ClaimsAfter(env, pre, entries, confidence, k)
    ensures Kept(env, pre, UpsertOne(env, pre, now, entries[k], confidence), entries, confidence, k)
  {
    var e := entries[k];
    if Trim(e.content) != [] && MatchClaim(env, pre, e).Some? {
      var i := MatchClaim(env, pre, e).value;
      RaiseRaises(env, pre[i], now[i], ClaimText(env, e), confidence);
    }
  }

  lemma KeptPersists(env: Env, pre: seq<GNode>, now: seq<GNode>, next: seq<GNode>, entries: seq<Entry>,
                     confidence: real, k: nat)
    requires k < |entries| && Kept(env, pre, now, entries, confidence, k) && Grows(env, now, next)
    ensures Kept(env, pre, next, entries, confidence, k)
  {
  }

  lemma ClaimsNext(env: Env, pre: seq<GNode>, entries: seq<Entry>, confidence: real, k: nat)
    requires k < |entries|
    ensures ClaimsAfter(env, pre, entries, confidence, k + 1)
            == UpsertOne(env, pre, ClaimsAfter(env, pre, entries, confidence, k), entries[k], confidence)
  {
  }

  lemma KeptNext(env: Env, pre: seq<GNode>, entries: seq<Entry>, confidence: real, j: nat, i: nat, k: nat)
    requires k < j && i == j + 1 <= |entries|
    requires Kept(env, pre, ClaimsAfter(env, pre, entries, confidence, j), entries, confidence, k)
    ensures Kept(env, pre, ClaimsAfter(env, pre, entries, confidence, i), entries, confidence, k)
  {
    var now, next := ClaimsAfter(env, pre, entries, confidence, j), ClaimsAfter(env, pre, entries, confidence, i);
    ClaimsHold(env, pre, entries, confidence, j);
    ClaimsNext(env, pre, entries, confidence, j);
    UpsertGrows(env, pre, now, entries, confidence, j);
    KeptPersists(env, pre, now, next, entries, confidence, k);
  }

  lemma KeptAtOnce(env: Env, pre: seq<GNode>, entries: seq<Entry>, confidence: real, k: nat, j: nat)
    requires k < |entries| && j == k + 1
    ensures Kept(env, pre, ClaimsAfter(env, pre, entries, confidence, j), entries, confidence, k)
  {
    ClaimsHold(env, pre, entries, confidence, k);
    ClaimsNext(env, pre, entries, confidence, k);
    UpsertKeeps(env, pre, ClaimsAfter(env, pre, entries, confidence, k), entries, confidence, k);
  }

  /** The claims at hand are kept in the end if they are kept now. */
  lemma {:induction false} KeptToEnd(env: Env, pre: seq<GNode>, entries: seq<Entry>, confidence: real, j: nat,
                                     upto: nat, k: nat)
    requires k < j <= upto <= |entries|
    requires Kept(env, pre, ClaimsAfter(env, pre, entries, confidence, j), entries, confidence, k)
    ensures Kept(env, pre, ClaimsAfter(env, pre, entries, confidence, upto), entries, confidence, k)
    decreases upto - j
  {
    if j != upto {
      var i := j + 1;
      KeptNext(env, pre, entries, confidence, j, i, k);
      KeptToEnd(env, pre, entries, confidence, i, upto, k);
    }
  }

  /** No claim of the batch is lost. */
  lemma ClaimsAreKept(env: Env, pre: seq<GNode>, entries: seq<Entry>, confidence: real, upto: nat, k: nat)
    requires k < upto <= |entries|
    ensures Kept(env, pre, ClaimsAfter(env, pre, entries, confidence, upto), entries, confidence, k)
  {
    var j := k + 1;
    KeptAtOnce(env, pre, entries, confidence, k, j);
    KeptToEnd(env, pre, entries, confidence, j, upto, k);
  }

  // ---------------------------------------------------------------------------------------------
  // The view of one type
  // ---------------------------------------------------------------------------------------------

  /** The nodes of one type read the same in both graphs. */
  ghost predicate SameView(pre: seq<GNode>, post: seq<GNode>, t: NodeType) {
    && |pre| <= |post|
    && (forall i :: 0 <= i < |pre| ==> IsFact(post[i], t) == IsFact(pre[i], t))
    && (forall i :: 0 <= i < |pre| && IsFact(pre[i], t) ==> post[i].content == pre[i].content)
    && (forall i :: |pre| <= i < |post| ==> !IsFact(post[i], t))
  }

  lemma SameViewComposes(a: seq<GNode>, b: seq<GNode>, c: seq<GNode>, t: NodeType)
    requires SameView(a, b, t) && SameView(b, c, t)
    ensures SameView(a, c, t)
  {
  }

  /** Nodes of other types, before or after, do not change what a query of one type returns. */
  lemma {:induction false} RowIdsExtend(pre: seq<GNode>, post: seq<GNode>, t: NodeType)
    requires |pre| <= |post|
    requires forall i :: 0 <= i < |pre| ==> IsFact(post[i], t) == IsFact(pre[i], t)
    requires forall i :: |pre| <= i < |post| ==> !IsFact(post[i], t)
    ensures RowIds(post, t) == RowIds(pre, t)
  {
    if |post| > |pre| {
      RowIdsExtend(pre, post[..|post| - 1], t);
    } else if post != [] {
      RowIdsExtend(pre[..|pre| - 1], post[..|post| - 1], t);
    }
  }

  lemma {:induction false} ByPairKeyExtend(env: Env, pre: seq<GNode>, post: seq<GNode>, ids: seq<nat>, key: string)
    requires |pre| <= |post|
    requires forall k :: 0 <= k < |ids| ==> ids[k] < |pre| && post[ids[k]].content == pre[ids[k]].content
    ensures ByPairKey(env, post, ids, key) == ByPairKey(env, pre, ids, key)
  {
    if ids != [] {
      ByPairKeyExtend(env, pre, post, ids[1..], key);
    }
  }

  lemma SameMatches(env: Env, pre: seq<GNode>, post: seq<GNode>, t: NodeType, text: string)
    requires SameView(pre, post, t)
    ensures ByText(env, post, t, text) == ByText(env, pre, t, text)
  {
    RowIdsExtend(pre, post, t);
    assert Contents(post, FactIds(env, pre, t)) == Contents(pre, FactIds(env, pre, t));
  }

  lemma SameContradictionMatches(env: Env, pre: seq<GNode>, post: seq<GNode>, s: string)
    requires SameView(pre, post, Contradiction)
    ensures MatchContradiction(env, post, s) == MatchContradiction(env, pre, s)
  {
    SameMatches(env, pre, post, Contradiction, Trim(s));
    RowIdsExtend(pre, post, Contradiction);
    if PairKey(env, s).Some? {
      ByPairKeyExtend(env, pre, post, FactIds(env, pre, Contradiction), PairKey(env, s).value);
    }
  }

  // ---------------------------------------------------------------------------------------------
  // Goals and risks
  // ---------------------------------------------------------------------------------------------

  lemma NamedNext(env: Env, pre: seq<GNode>, t: NodeType, texts: seq<string>, q: nat, i: nat)
    requires q < |texts|
    ensures NamedBy(env, pre, t, texts, q + 1, i)
            <==> NamedBy(env, pre, t, texts, q, i) || Names(env, pre, t, texts, q, Some(i))
  {
  }

  lemma SplitAtEnd(pre: seq<GNode>, old': seq<GNode>, new': seq<GNode>, now: seq<GNode>)
    requires |pre| <= |now| && now[..|pre|] == old' && now[|pre|..] == new'
    ensures now == old' + new'
  {
  }

  lemma AccumulatedSame(env: Env, pre: seq<GNode>, t: NodeType, texts: seq<string>, q: nat)
    requires q < |texts| && forall i: nat :: i < |pre| ==> !Names(env, pre, t, texts, q, Some(i))
    ensures var now, next := Accumulated(env, pre, t, texts, q), Accumulated(env, pre, t, texts, q + 1);
            next == now + (if Names(env, pre, t, texts, q, None) then [NewItem(env, t, texts[q])] else [])
  {
    var now, next := Accumulated(env, pre, t, texts, q), Accumulated(env, pre, t, texts, q + 1);
    forall i | 0 <= i < |pre|
      ensures next[i] == now[i]
    {
      NamedNext(env, pre, t, texts, q, i);
    }
    assert next[..|pre|] == now[..|pre|];
    SplitAtEnd(pre, now[..|pre|], now[|pre|..], now);
    SplitAtEnd(pre, next[..|pre|], next[|pre|..], next);
  }

  lemma NothingAccumulated(env: Env, pre: seq<GNode>, t: NodeType, texts: seq<string>)
    ensures Accumulated(env, pre, t, texts, 0) == pre
  {
  }

  lemma AccumulatedRow(env: Env, pre: seq<GNode>, t: NodeType, texts: seq<string>, q: nat, id: nat)
    requires q < |texts| && id < |pre| && Names(env, pre, t, texts, q, Some(id))
    ensures var now, next := Accumulated(env, pre, t, texts, q), Accumulated(env, pre, t, texts, q + 1);
            && next == now[id := now[id].(status := Active)]
            && (pre[id].status == Active ==> next == now)
  {
    var now, next := Accumulated(env, pre, t, texts, q), Accumulated(env, pre, t, texts, q + 1);
    var row := now[id := now[id].(status := Active)];
    forall i | 0 <= i < |pre|
      ensures next[i] == row[i]
    {
      NamedNext(env, pre, t, texts, q, i);
    }
    assert next[..|pre|] == row[..|pre|];
    assert row[|pre|..] == now[|pre|..] == next[|pre|..];
    SplitAtEnd(pre, row[..|pre|], row[|pre|..], row);
    SplitAtEnd(pre, next[..|pre|], next[|pre|..], next);
  }

  /** A new goal or risk carries a text of the batch that is not blank and matched nothing. */
  ghost predicate FromText(env: Env, pre: seq<GNode>, t: NodeType, texts: seq<string>, upto: nat, n: GNode)
    requires upto <= |texts|
  {
    exists q :: 0 <= q < upto && Names(env, pre, t, texts, q, None) && n == NewItem(env, t, texts[q])
  }

  lemma FromTextNext(env: Env, pre: seq<GNode>, t: NodeType, texts: seq<string>, q: nat, upto: nat, n: GNode)
    requires upto == q + 1 <= |texts|
    ensures FromText(env, pre, t, texts, upto, n)
            <==> FromText(env, pre, t, texts, q, n)
                 || (Names(env, pre, t, texts, q, None) && n == NewItem(env, t, texts[q]))
  {
  }

  lemma NewItemsNext(env: Env, pre: seq<GNode>, t: NodeType, texts: seq<string>, q: nat, upto: nat, n: GNode)
    requires upto == q + 1 <= |texts|
    ensures n in NewItems(env, pre, t, texts, upto)
            <==> n in NewItems(env, pre, t, texts, q)
                 || (Names(env, pre, t, texts, q, None) && n == NewItem(env, t, texts[q]))
  {
  }

  /** And every such text has one. */
  lemma {:induction false} NewItemsExactly(env: Env, pre: seq<GNode>, t: NodeType, texts: seq<string>, upto: nat,
                                           n: GNode)
    requires upto <= |texts|
    ensures n in NewItems(env, pre, t, texts, upto) <==> FromText(env, pre, t, texts, upto, n)
  {
    if upto > 0 {
      var q: nat := upto - 1;
      NewItemsExactly(env, pre, t, texts, q, n);
      FromTextNext(env, pre, t, texts, q, upto, n);
      NewItemsNext(env, pre, t, texts, q, upto, n);
    }
  }

  lemma AppendedItem(env: Env, pre: seq<GNode>, t: NodeType, texts: seq<string>, upto: nat, i: nat)
    requires upto <= |texts| && |pre| <= i < |Accumulated(env, pre, t, texts, upto)|
    ensures FromText(env, pre, t, texts, upto, Accumulated(env, pre, t, texts, upto)[i])
  {
    var post := Accumulated(env, pre, t, texts, upto);
    assert post[i] == post[|pre|..][i - |pre|];
    NewItemsExactly(env, pre, t, texts, upto, post[i]);
  }

  lemma OnlyOwnTypeNamed(env: Env, pre: seq<GNode>, t: NodeType, texts: seq<string>, upto: nat, i: nat)
    requires upto <= |texts| && i < |pre| && pre[i].nodeType != t
    ensures !NamedBy(env, pre, t, texts, upto, i)
  {
  }

  /** Accumulating one type leaves the others as they are. */
  lemma AccumulatedView(env: Env, pre: seq<GNode>, t: NodeType, texts: seq<string>, upto: nat, other: NodeType)
    requires upto <= |texts| && other != t
    ensures SameView(pre, Accumulated(env, pre, t, texts, upto), other)
  {
    var post := Accumulated(env, pre, t, texts, upto);
    forall i | |pre| <= i < |post|
      ensures !IsFact(post[i], other)
    {
      AppendedItem(env, pre, t, texts, upto, i);
    }
  }

  // ---------------------------------------------------------------------------------------------
  // Contradictions
  // ---------------------------------------------------------------------------------------------

  lemma ReferredNext(env: Env, resolvedRows: seq<string>, strs: seq<string>, c: nat, pre: seq<GNode>, i: nat)
    requires c < |strs|
    ensures ReferredBy(env, resolvedRows, strs, c + 1, pre, i)
            <==> ReferredBy(env, resolvedRows, strs, c, pre, i)
                 || (Processed(env, resolvedRows, strs, c) && MatchContradiction(env, pre, strs[c]) == Some(i))
  {
  }

  lemma ContradictionsSame(env: Env, resolvedRows: seq<string>, strs: seq<string>, c: nat, pre: seq<GNode>)
    requires c < |strs| && (Processed(env, resolvedRows, strs, c) ==> MatchContradiction(env, pre, strs[c]) == None)
    ensures var now := ContradictionsAfter(env, resolvedRows, strs, c, pre);
            ContradictionsAfter(env, resolvedRows, strs, c + 1, pre)
            == now + (if Processed(env, resolvedRows, strs, c) then [NewContradiction(strs[c])] else [])
  {
    var now := ContradictionsAfter(env, resolvedRows, strs, c, pre);
    var next := ContradictionsAfter(env, resolvedRows, strs, c + 1, pre);
    forall i | 0 <= i < |pre|
      ensures next[i] == now[i]
    {
      ReferredNext(env, resolvedRows, strs, c, pre, i);
    }
    assert next[..|pre|] == now[..|pre|];
    SplitAtEnd(pre, now[..|pre|], now[|pre|..], now);
    SplitAtEnd(pre, next[..|pre|], next[|pre|..], next);
  }

  lemma ContradictionsRow(env: Env, resolvedRows: seq<string>, strs: seq<string>, c: nat, pre: seq<GNode>, id: nat)
    requires c < |strs| && Processed(env, resolvedRows, strs, c) && MatchContradiction(env, pre, strs[c]) == Some(id)
    ensures var now := ContradictionsAfter(env, resolvedRows, strs, c, pre);
            ContradictionsAfter(env, resolvedRows, strs, c + 1, pre) == now[id := now[id].(status := Active)]
  {
    var now := ContradictionsAfter(env, resolvedRows, strs, c, pre);
    var next := ContradictionsAfter(env, resolvedRows, strs, c + 1, pre);
    var row := now[id := now[id].(status := Active)];
    forall i | 0 <= i < |pre|
      ensures next[i] == row[i]
    {
      ReferredNext(env, resolvedRows, strs, c, pre, i);
    }
    assert next[..|pre|] == row[..|pre|];
    assert row[|pre|..] == now[|pre|..] == next[|pre|..];
    SplitAtEnd(pre, row[..|pre|], row[|pre|..], row);
    SplitAtEnd(pre, next[..|pre|], next[|pre|..], next);
  }

  /** A new contradiction carries a string of the batch that was processed and referred to nothing. */
  ghost predicate FromString(env: Env, resolvedRows: seq<string>, strs: seq<string>, upto: nat, pre: seq<GNode>,
                             n: GNode)
    requires upto <= |strs|
  {
    exists c :: 0 <= c < upto && Processed(env, resolvedRows, strs, c) && MatchContradiction(env, pre, strs[c]) == None
                && n == NewContradiction(strs[c])
  }

  lemma NewContradictionsNext(env: Env, resolvedRows: seq<string>, strs: seq<string>, c: nat, pre: seq<GNode>, n: GNode,
                              upto: nat)
    requires upto == c + 1 <= |strs|
    ensures n in NewContradictions(env, resolvedRows, strs, upto, pre)
            <==> n in NewContradictions(env, resolvedRows, strs, c, pre)
                 || (Processed(env, resolvedRows, strs, c) && MatchContradiction(env, pre, strs[c]) == None
                     && n == NewContradiction(strs[c]))
  {
  }

  lemma FromStringNext(env: Env, resolvedRows: seq<string>, strs: seq<string>, c: nat, pre: seq<GNode>, n: GNode,
                       upto: nat)
    requires upto == c + 1 <= |strs|
    ensures FromString(env, resolvedRows, strs, upto, pre, n)
            <==> FromString(env, resolvedRows, strs, c, pre, n)
                 || (Processed(env, resolvedRows, strs, c) && MatchContradiction(env, pre, strs[c]) == None
                     && n == NewContradiction(strs[c]))
  {
  }

  /** And every such string has one. */
  lemma {:induction false} NewContradictionsExactly(env: Env, resolvedRows: seq<string>, strs: seq<string>, upto: nat,
                                                    pre: seq<GNode>, n: GNode)
    requires upto <= |strs|
    ensures n in NewContradictions(env, resolvedRows, strs, upto, pre)
            <==> FromString(env, resolvedRows, strs, upto, pre, n)
  {
    if upto > 0 {
      var c := upto - 1;
      NewContradictionsExactly(env, resolvedRows, strs, c, pre, n);
      FromStringNext(env, resolvedRows, strs, c, pre, n, upto);
      NewContradictionsNext(env, resolvedRows, strs, c, pre, n, upto);
    }
  }

  lemma AppendedContradiction(env: Env, resolvedRows: seq<string>, strs: seq<string>, upto: nat, pre: seq<GNode>,
                              i: nat)
    requires upto <= |strs| && |pre| <= i < |ContradictionsAfter(env, resolvedRows, strs, upto, pre)|
    ensures FromString(env, resolvedRows, strs, upto, pre, ContradictionsAfter(env, resolvedRows, strs, upto, pre)[i])
  {
    var post := ContradictionsAfter(env, resolvedRows, strs, upto, pre);
    assert post[i] == post[|pre|..][i - |pre|];
    NewContradictionsExactly(env, resolvedRows, strs, upto, pre, post[i]);
  }

  lemma UnmatchedKeyIsFresh(env: Env, nodes: seq<GNode>, s: string, i: nat)
    requires MatchContradiction(env, nodes, s) == None && PairKey(env, s).Some?
    requires i < |nodes| && IsFact(nodes[i], Contradiction)
    ensures PairKey(env, nodes[i].content) != PairKey(env, s)
  {
    var ids := FactIds(env, nodes, Contradiction);
    assert i in ids;
    var k :| 0 <= k < |ids| && ids[k] == i;
    assert ByPairKey(env, nodes, ids, PairKey(env, s).value) == None;
  }

  lemma ProcessedKeysDiffer(env: Env, resolvedRows: seq<string>, strs: seq<string>, b: nat, c: nat)
    requires b < c < |strs| && Processed(env, resolvedRows, strs, b) && Processed(env, resolvedRows, strs, c)
    requires PairKey(env, strs[c]).Some?
    ensures PairKey(env, NewContradiction(strs[b]).content) != PairKey(env, strs[c])
  {
    TrimTwice(strs[b]);
  }

  /** No contradiction of the graph has the pair key of a string that is processed next and refers to nothing. */
  lemma KeyIsFresh(env: Env, resolvedRows: seq<string>, strs: seq<string>, c: nat, pre: seq<GNode>, i: nat)
    requires c < |strs| && Processed(env, resolvedRows, strs, c) && MatchContradiction(env, pre, strs[c]) == None
    requires PairKey(env, strs[c]).Some?
    requires var now := ContradictionsAfter(env, resolvedRows, strs, c, pre); i < |now| && IsFact(now[i], Contradiction)
    ensures PairKey(env, ContradictionsAfter(env, resolvedRows, strs, c, pre)[i].content) != PairKey(env, strs[c])
  {
    if i < |pre| {
      UnmatchedKeyIsFresh(env, pre, strs[c], i);
    } else {
      AppendedContradiction(env, resolvedRows, strs, c, pre, i);
      var b :| 0 <= b < c && Processed(env, resolvedRows, strs, b) && MatchContradiction(env, pre, strs[b]) == None
               && ContradictionsAfter(env, resolvedRows, strs, c, pre)[i] == NewContradiction(strs[b]);
      ProcessedKeysDiffer(env, resolvedRows, strs, b, c);
    }
  }

  lemma AppendKeepsKeys(env: Env, now: seq<GNode>, n: GNode)
    requires DistinctPairKeys(env, now)
    requires PairKey(env, n.content).Some? ==>
               forall i :: 0 <= i < |now| && IsFact(now[i], Contradiction) ==>
                 PairKey(env, now[i].content) != PairKey(env, n.content)
    ensures DistinctPairKeys(env, now + [n])
  {
  }

  lemma UpdateKeepsKeys(env: Env, now: seq<GNode>, id: nat)
    requires id < |now| && DistinctPairKeys(env, now)
    ensures DistinctPairKeys(env, now[id := now[id].(status := Active)])
  {
  }

  /** The pair keys of facts-sync contradictions stay pairwise different. */
  lemma {:induction false} ContradictionsKeepKeys(env: Env, resolvedRows: seq<string>, strs: seq<string>, upto: nat,
                                                  pre: seq<GNode>)
    requires upto <= |strs| && DistinctPairKeys(env, pre)
    ensures DistinctPairKeys(env, ContradictionsAfter(env, resolvedRows, strs, upto, pre))
  {
    if upto == 0 {
      assert ContradictionsAfter(env, resolvedRows, strs, 0, pre) == pre;
    } else {
      var c := upto - 1;
      var now := ContradictionsAfter(env, resolvedRows, strs, c, pre);
      ContradictionsKeepKeys(env, resolvedRows, strs, c, pre);
      if Processed(env, resolvedRows, strs, c) && MatchContradiction(env, pre, strs[c]).Some? {
        ContradictionsRow(env, resolvedRows, strs, c, pre, MatchContradiction(env, pre, strs[c]).value);
        UpdateKeepsKeys(env, now, MatchContradiction(env, pre, strs[c]).value);
      } else {
        ContradictionsSame(env, resolvedRows, strs, c, pre);
        if Processed(env, resolvedRows, strs, c) {
          TrimTwice(strs[c]);
          forall i | 0 <= i < |now| && IsFact(now[i], Contradiction) && PairKey(env, strs[c]).Some?
            ensures PairKey(env, now[i].content) != PairKey(env, strs[c])
          {
            KeyIsFresh(env, resolvedRows, strs, c, pre, i);
          }
          AppendKeepsKeys(env, now, NewContradiction(strs[c]));
        }
      }
    }
  }
}
