/**
 * syncFactsToSemanticGraph, phase by phase, on the nodes table (src/factsToSemanticGraph.ts).
 */
module FactsSync {
  import opened Options
  import opened FactsSpec
  import opened FactsPhases

  // ---------------------------------------------------------------------------------------------
  // The pair index
  // ---------------------------------------------------------------------------------------------

  function Lookup(m: map<string, nat>, key: string): Option<nat> {
    if key in m then Some(m[key]) else None
  }

  lemma {:induction false} ByPairKeyAppend(env: Env, nodes: seq<GNode>, ids: seq<nat>, id: nat, key: string)
    requires (forall k :: 0 <= k < |ids| ==> ids[k] < |nodes|) && id < |nodes|
    ensures ByPairKey(env, nodes, ids + [id], key)
            == if ByPairKey(env, nodes, ids, key).Some? then ByPairKey(env, nodes, ids, key)
               else if PairKey(env, nodes[id].content) == Some(key) then Some(id) else None
  {
    if ids != [] {
      assert (ids + [id])[1..] == ids[1..] + [id];
      ByPairKeyAppend(env, nodes, ids[1..], id, key);
    }
  }

  /** The index answers like a search through the given ids. */
  ghost predicate Indexes(env: Env, nodes: seq<GNode>, ids: seq<nat>, byPair: map<string, nat>)
    requires forall k :: 0 <= k < |ids| ==> ids[k] < |nodes|
  {
    forall key :: Lookup(byPair, key) == ByPairKey(env, nodes, ids, key)
  }

  lemma IndexNext(env: Env, nodes: seq<GNode>, ids: seq<nat>, id: nat, byPair: map<string, nat>)
    requires (forall k :: 0 <= k < |ids| ==> ids[k] < |nodes|) && id < |nodes|
    requires Indexes(env, nodes, ids, byPair)
    ensures var key := PairKey(env, nodes[id].content);
            Indexes(env, nodes, ids + [id],
                    if key.Some? && key.value !in byPair then byPair[key.value := id] else byPair)
  {
    var key := PairKey(env, nodes[id].content);
    var next := if key.Some? && key.value !in byPair then byPair[key.value := id] else byPair;
    forall q
      ensures Lookup(next, q) == ByPairKey(env, nodes, ids + [id], q)
    {
      ByPairKeyAppend(env, nodes, ids, id, q);
      assert Lookup(byPair, q) == ByPairKey(env, nodes, ids, q);
    }
  }

  /** The keys of the strings already looked at. */
  ghost predicate SeenKeys(env: Env, strs: seq<string>, c: nat, seen: set<string>)
    requires c <= |strs|
  {
    forall key :: key in seen <==> exists b :: 0 <= b < c && Trim(strs[b]) != [] && PairKey(env, strs[b]) == Some(key)
  }

  /** For keys not yet seen the index answers as it did at the start. */
  ghost predicate IndexInv(env: Env, pre: seq<GNode>, byPair: map<string, nat>, seen: set<string>) {
    forall key :: key !in seen ==> Lookup(byPair, key) == ByPairKey(env, pre, FactIds(env, pre, Contradiction), key)
  }

  /** The pair index, or else the text match, finds the node the string refers to. */
  function Target(env: Env, pre: seq<GNode>, byPair: map<string, nat>, s: string): Option<nat> {
    var pairMatched := if PairKey(env, s).Some? then Lookup(byPair, PairKey(env, s).value) else None;
    if pairMatched.Some? then pairMatched else ByText(env, pre, Contradiction, Trim(s))
  }

  /** The node that a string refers to becomes active, a string that refers to none becomes a node. */
  function Placed(now: seq<GNode>, target: Option<nat>, s: string): (next: seq<GNode>)
    requires target.Some? ==> target.value < |now|
  {
    match target
    case Some(id) => now[id := now[id].(status := Active)]
    case None => now + [NewContradiction(s)]
  }

  function WithKey(seen: set<string>, key: Option<string>): set<string> {
    if key.Some? then seen + {key.value} else seen
  }

  lemma TargetIsMatch(env: Env, pre: seq<GNode>, byPair: map<string, nat>, seen: set<string>, s: string)
    requires IndexInv(env, pre, byPair, seen)
    requires PairKey(env, s).Some? ==> PairKey(env, s).value !in seen
    ensures Target(env, pre, byPair, s) == MatchContradiction(env, pre, s)
  {
  }

  lemma NotSeenIsNotRepeated(env: Env, resolvedRows: seq<string>, strs: seq<string>, c: nat, seen: set<string>)
    requires c < |strs| && SeenKeys(env, strs, c, seen) && Trim(strs[c]) != []
    ensures Processed(env, resolvedRows, strs, c)
            <==> !(PairKey(env, strs[c]).Some? && PairKey(env, strs[c]).value in seen)
                 && !MatchesResolved(env, resolvedRows, strs[c])
  {
  }

  /** What the string does to the graph, by the set and the index at hand. */
  lemma StringNext(env: Env, resolvedRows: seq<string>, strs: seq<string>, c: nat, pre: seq<GNode>,
                   byPair: map<string, nat>, seen: set<string>)
    requires c < |strs| && SeenKeys(env, strs, c, seen) && IndexInv(env, pre, byPair, seen)
    ensures var now := ContradictionsAfter(env, resolvedRows, strs, c, pre);
            var next := ContradictionsAfter(env, resolvedRows, strs, c + 1, pre);
            var key := PairKey(env, strs[c]);
            if Trim(strs[c]) == [] || (key.Some? && key.value in seen) || MatchesResolved(env, resolvedRows, strs[c])
            then next == now
            else
              var target := Target(env, pre, byPair, strs[c]);
              && (target.Some? ==> target.value < |pre|)
              && next == Placed(now, target, strs[c])
  {
    if Trim(strs[c]) == [] {
      ContradictionsSame(env, resolvedRows, strs, c, pre);
    } else {
      NotSeenIsNotRepeated(env, resolvedRows, strs, c, seen);
      if Processed(env, resolvedRows, strs, c) {
        TargetIsMatch(env, pre, byPair, seen, strs[c]);
        match MatchContradiction(env, pre, strs[c]) {
          case Some(id) => ContradictionsRow(env, resolvedRows, strs, c, pre, id);
          case None => ContradictionsSame(env, resolvedRows, strs, c, pre);
        }
      } else {
        ContradictionsSame(env, resolvedRows, strs, c, pre);
      }
    }
  }

  lemma NothingYet(env: Env, resolvedRows: seq<string>, strs: seq<string>, pre: seq<GNode>, byPair: map<string, nat>)
    requires Indexes(env, pre, FactIds(env, pre, Contradiction), byPair)
    ensures ContradictionsAfter(env, resolvedRows, strs, 0, pre) == pre
    ensures SeenKeys(env, strs, 0, {}) && IndexInv(env, pre, byPair, {})
  {
  }

  lemma IndexKept(env: Env, pre: seq<GNode>, byPair: map<string, nat>, seen: set<string>, key: Option<string>, id: nat)
    requires IndexInv(env, pre, byPair, seen)
    ensures IndexInv(env, pre, byPair, WithKey(seen, key))
    ensures key.Some? ==> IndexInv(env, pre, byPair[key.value := id], WithKey(seen, key))
  {
  }

  lemma SeenNext(env: Env, strs: seq<string>, c: nat, seen: set<string>)
    requires c < |strs| && SeenKeys(env, strs, c, seen)
    ensures SeenKeys(env, strs, c + 1, if Trim(strs[c]) == [] then seen else WithKey(seen, PairKey(env, strs[c])))
  {
  }

  /** Among the rows found, `matched` are those that the first k claims go to. */
  ghost predicate MatchedExactly(env: Env, pre: seq<GNode>, entries: seq<Entry>, confidence: real, k: nat,
                                 matched: set<nat>)
    requires k <= |entries|
  {
    forall i: nat :: i < |pre| ==> (i in matched <==> TouchedBy(env, pre, entries, confidence, k, i))
  }

  lemma MatchedNext(env: Env, pre: seq<GNode>, entries: seq<Entry>, confidence: real, k: nat, matched: set<nat>,
                    target: Option<nat>)
    requires k < |entries| && MatchedExactly(env, pre, entries, confidence, k, matched)
    requires Trim(entries[k].content) == [] ==> target == None
    requires Trim(entries[k].content) != [] ==>
               target == if MatchClaim(env, pre, entries[k]).Some? then MatchClaim(env, pre, entries[k])
                         else DuplicateOf(env, ClaimsAfter(env, pre, entries, confidence, k),
                                          ClaimText(env, entries[k]))
    ensures MatchedExactly(env, pre, entries, confidence, k + 1,
                           if target.Some? then matched + {target.value} else matched)
  {
    forall i: nat | i < |pre|
      ensures TouchedBy(env, pre, entries, confidence, k + 1, i)
              <==> TouchedBy(env, pre, entries, confidence, k, i) || target == Some(i)
    {
      TouchedNext(env, pre, entries, confidence, k, i);
    }
  }

  lemma NothingClaimed(env: Env, pre: seq<GNode>, entries: seq<Entry>, confidence: real)
    ensures ClaimsAfter(env, pre, entries, confidence, 0) == pre && Candidates(env, pre, entries, 0) == []
    ensures MatchedExactly(env, pre, entries, confidence, 0, {})
  {
  }

  lemma CandidatesNext(env: Env, pre: seq<GNode>, entries: seq<Entry>, k: nat)
    requires k < |entries|
    ensures Candidates(env, pre, entries, k + 1) == Candidates(env, pre, entries, k) + CandidateOf(env, pre, entries[k])
    ensures Trim(entries[k].content) == [] ==> Candidates(env, pre, entries, k + 1) == Candidates(env, pre, entries, k)
  {
  }

  /** The graph with those of the claims `done` stale that were active and not matched. */
  function Staled(now: seq<GNode>, snapshot: seq<GNode>, matched: set<nat>, done: seq<nat>): (r: seq<GNode>)
    requires |snapshot| <= |now|
    ensures |r| == |now|
  {
    seq(|now|, i requires 0 <= i < |now| =>
      if i in done && i < |snapshot| && GoesStale(snapshot, matched, i) then now[i].(status := Irrelevant) else now[i])
  }

  predicate GoesStale(snapshot: seq<GNode>, matched: set<nat>, i: nat)
    requires i < |snapshot|
  {
    i !in matched && snapshot[i].status == Active
  }

  lemma StaledNext(now: seq<GNode>, snapshot: seq<GNode>, matched: set<nat>, ids: seq<nat>, k: nat)
    requires |snapshot| <= |now| && k < |ids| && ids[k] < |snapshot|
    ensures var r, next := Staled(now, snapshot, matched, ids[..k]), Staled(now, snapshot, matched, ids[..k + 1]);
            next == if GoesStale(snapshot, matched, ids[k]) then r[ids[k] := r[ids[k]].(status := Irrelevant)] else r
  {
    assert ids[..k + 1] == ids[..k] + [ids[k]];
  }

  lemma NothingStaled(now: seq<GNode>, snapshot: seq<GNode>, matched: set<nat>)
    requires |snapshot| <= |now|
    ensures Staled(now, snapshot, matched, []) == now
  {
  }

  lemma StaledAll(env: Env, now: seq<GNode>, snapshot: seq<GNode>, matched: set<nat>, entries: seq<Entry>,
                  confidence: real)
    requires |snapshot| <= |now| && MatchedExactly(env, snapshot, entries, confidence, |entries|, matched)
    ensures Staled(now, snapshot, matched, FactIds(env, snapshot, Claim))
            == StaleGraph(env, snapshot, now, entries, confidence)
  {
    var a := Staled(now, snapshot, matched, FactIds(env, snapshot, Claim));
    var b := StaleGraph(env, snapshot, now, entries, confidence);
    forall i: nat | i < |now|
      ensures a[i] == b[i]
    {
      assert i < |snapshot| ==> (i in matched <==> TouchedBy(env, snapshot, entries, confidence, |entries|, i));
    }
  }

  class SemanticGraph {
    var nodes: seq<GNode>

    constructor (nodes: seq<GNode>)
      ensures this.nodes == nodes
    {
      this.nodes := nodes;
    }

    /** The duplicate query: an active claim with exactly this text, LIMIT 1. */
    method FindActiveClaim(env: Env, text: string) returns (r: Option<nat>)
      ensures r == DuplicateOf(env, nodes, text)
      ensures r.Some? ==> r.value < |nodes| && IsActiveClaim(nodes[r.value]) && nodes[r.value].content == text
      ensures r.None? ==> forall i :: 0 <= i < |nodes| && IsActiveClaim(nodes[i]) ==> nodes[i].content != text
    {
      var ids := [];
      for i := 0 to |nodes|
        invariant ids == ActiveClaims(nodes[..i], text)
      {
        assert nodes[..i + 1][..i] == nodes[..i];
        if IsActiveClaim(nodes[i]) && nodes[i].content == text {
          ids := ids + [i];
        }
      }
      assert nodes[..|nodes|] == nodes;
      r := if ids == [] then None else Some(ids[env.limitOne(ids) % |ids|]);
    }

    /** UPDATE ... WHERE confidence <= $2. */
    method UpdateNodeConfidence(id: nat, confidence: real)
      requires id < |nodes|
      modifies this
      ensures nodes == old(nodes)[id := old(nodes)[id].(confidence := MaxReal(old(nodes)[id].confidence, confidence))]
    {
      if nodes[id].confidence <= confidence {
        nodes := nodes[id := nodes[id].(confidence := confidence)];
      }
    }

    /** A matched claim; `snapshot` holds the values read at the start of the sync. */
    method RaiseExisting(env: Env, snapshot: seq<GNode>, e: Entry, id: nat, confidence: real)
      returns (candidate: seq<Candidate>)
      requires |snapshot| <= |nodes| && Trim(e.content) != [] && MatchClaim(env, snapshot, e) == Some(id)
      modifies this
      ensures nodes == old(nodes)[id := RaiseClaim(env, snapshot[id], old(nodes)[id], ClaimText(env, e), confidence)]
      ensures candidate == CandidateOf(env, snapshot, e)
    {
      var existing := snapshot[id];
      var text := ClaimText(env, e);
      candidate := [];
      if existing.content != text {
        if env.claimKey(existing.content) == env.claimKey(text) {
          nodes := nodes[id := nodes[id].(content := text)];
        } else if !env.mergedKey(id, env.claimKey(text)) {
          candidate := [Candidate(id, existing.content, text, Dimension(e))];
        }
      }
      if confidence >= existing.confidence {
        UpdateNodeConfidence(id, confidence);
      }
      if existing.status != Active {
        nodes := nodes[id := nodes[id].(status := Active)];
      }
    }

    /** A claim that matched no facts-sync node: merged into an active row with the same text, or appended. */
    method MergeOrAppend(env: Env, e: Entry, confidence: real) returns (merged: Option<nat>)
      modifies this
      ensures merged == DuplicateOf(env, old(nodes), ClaimText(env, e))
      ensures merged.Some? ==>
                nodes == old(nodes)[merged.value :=
                  old(nodes)[merged.value].(confidence := MaxReal(old(nodes)[merged.value].confidence, confidence))]
      ensures merged.None? ==> nodes == old(nodes) + [NewClaim(env, e, confidence)]
    {
      merged := FindActiveClaim(env, ClaimText(env, e));
      if merged.Some? {
        if confidence >= nodes[merged.value].confidence {
          UpdateNodeConfidence(merged.value, confidence);
        }
      } else {
        nodes := nodes + [GNode(Claim, ClaimText(env, e), confidence, Active, true, Dimension(e), true)];
      }
    }

    /** One claim of the batch; `target` is the row it matched or was merged into. */
    method UpsertClaim(env: Env, snapshot: seq<GNode>, e: Entry, confidence: real)
      returns (target: Option<nat>, candidate: seq<Candidate>)
      requires |snapshot| <= |nodes| && Trim(e.content) != []
      modifies this
      ensures nodes == UpsertOne(env, snapshot, old(nodes), e, confidence)
      ensures target == if MatchClaim(env, snapshot, e).Some? then MatchClaim(env, snapshot, e)
                        else DuplicateOf(env, old(nodes), ClaimText(env, e))
      ensures candidate == CandidateOf(env, snapshot, e)
    {
      target := MatchClaim(env, snapshot, e);
      if target.Some? {
        candidate := RaiseExisting(env, snapshot, e, target.value, confidence);
      } else {
        candidate := [];
        target := MergeOrAppend(env, e, confidence);
      }
    }

    /** `matched` are the rows that were matched or merged into; among the rows found, those the batch goes to. */
    method SyncClaims(env: Env, entries: seq<Entry>, confidence: real)
      returns (matched: set<nat>, candidates: seq<Candidate>)
      modifies this
      ensures nodes == ClaimsAfter(env, old(nodes), entries, confidence, |entries|)
      ensures MatchedExactly(env, old(nodes), entries, confidence, |entries|, matched)
      ensures candidates == Candidates(env, old(nodes), entries, |entries|)
    {
      var snapshot := nodes;
      matched, candidates := {}, [];
      NothingClaimed(env, snapshot, entries, confidence);
      for k := 0 to |entries|
        invariant nodes == ClaimsAfter(env, snapshot, entries, confidence, k)
        invariant MatchedExactly(env, snapshot, entries, confidence, k, matched)
        invariant candidates == Candidates(env, snapshot, entries, k)
      {
        ClaimsNext(env, snapshot, entries, confidence, k);
        CandidatesNext(env, snapshot, entries, k);
        if Trim(entries[k].content) != [] {
          var target, candidate := UpsertClaim(env, snapshot, entries[k], confidence);
          MatchedNext(env, snapshot, entries, confidence, k, matched, target);
          if target.Some? {
            matched := matched + {target.value};
          }
          candidates := candidates + candidate;
        } else {
          MatchedNext(env, snapshot, entries, confidence, k, matched, None);
        }
      }
    }

    /** Stale marking looks at the statuses read at the start. */
    method StaleClaims(env: Env, snapshot: seq<GNode>, matched: set<nat>, ghost entries: seq<Entry>,
                       ghost confidence: real)
      requires |snapshot| <= |nodes|
      requires MatchedExactly(env, snapshot, entries, confidence, |entries|, matched)
      modifies this
      ensures nodes == StaleGraph(env, snapshot, old(nodes), entries, confidence)
    {
      var ids := FactIds(env, snapshot, Claim);
      NothingStaled(nodes, snapshot, matched);
      for k := 0 to |ids|
        invariant nodes == Staled(old(nodes), snapshot, matched, ids[..k])
      {
        StaledNext(old(nodes), snapshot, matched, ids, k);
        if ids[k] !in matched && snapshot[ids[k]].status == Active {
          nodes := nodes[ids[k] := nodes[ids[k]].(status := Irrelevant)];
        }
      }
      assert ids[..|ids|] == ids;
      StaledAll(env, old(nodes), snapshot, matched, entries, confidence);
    }

    /** Goals and risks: matched ones become active, others are appended, none is ever staled. */
    method Accumulate(env: Env, t: NodeType, texts: seq<string>)
      modifies this
      ensures nodes == Accumulated(env, old(nodes), t, texts, |texts|)
    {
      var snapshot := nodes;
      NothingAccumulated(env, snapshot, t, texts);
      for q := 0 to |texts|
        invariant nodes == Accumulated(env, snapshot, t, texts, q)
      {
        if Trim(texts[q]) != [] {
          var existing := ByText(env, snapshot, t, ItemText(env, texts[q]));
          if existing.Some? {
            AccumulatedRow(env, snapshot, t, texts, q, existing.value);
            if snapshot[existing.value].status != Active {
              nodes := nodes[existing.value := nodes[existing.value].(status := Active)];
            }
          } else {
            AccumulatedSame(env, snapshot, t, texts, q);
            nodes := nodes + [GNode(t, ItemText(env, texts[q]), 1.0, Active, true, None, true)];
          }
        } else {
          AccumulatedSame(env, snapshot, t, texts, q);
        }
      }
    }

    /** existingContraIdByPair: the first id for each pair key. */
    method IndexPairs(env: Env) returns (byPair: map<string, nat>)
      ensures Indexes(env, nodes, FactIds(env, nodes, Contradiction), byPair)
    {
      byPair := map[];
      var ids := FactIds(env, nodes, Contradiction);
      for k := 0 to |ids|
        invariant Indexes(env, nodes, ids[..k], byPair)
      {
        var key := PairKey(env, nodes[ids[k]].content);
        IndexNext(env, nodes, ids[..k], ids[k], byPair);
        assert ids[..k + 1] == ids[..k] + [ids[k]];
        if key.Some? && key.value !in byPair {
          byPair := byPair[key.value := ids[k]];
        }
      }
      assert ids[..|ids|] == ids;
    }

    /** One contradiction of the batch that is neither blank, repeated nor resolved. */
    method PlaceContradiction(env: Env, snapshot: seq<GNode>, byPair: map<string, nat>, s: string)
      returns (byPair': map<string, nat>)
      requires |snapshot| <= |nodes|
      requires Target(env, snapshot, byPair, s).Some? ==> Target(env, snapshot, byPair, s).value < |nodes|
      modifies this
      ensures nodes == Placed(old(nodes), Target(env, snapshot, byPair, s), s)
      ensures byPair' == if Target(env, snapshot, byPair, s).None? && PairKey(env, s).Some?
                         then byPair[PairKey(env, s).value := |old(nodes)|] else byPair
    {
      byPair' := byPair;
      var target := Target(env, snapshot, byPair, s);
      if target.Some? {
        if nodes[target.value].status != Active {
          nodes := nodes[target.value := nodes[target.value].(status := Active)];
        }
      } else {
        nodes := nodes + [NewContradiction(s)];
        if PairKey(env, s).Some? {
          byPair' := byPair[PairKey(env, s).value := |nodes| - 1];
        }
      }
    }

    /** `resolvedRows` are the contents the resolved query returned: at most 200 rows, none when it fails. */
    method SyncContradictions(env: Env, resolvedRows: seq<string>, strs: seq<string>)
      modifies this
      ensures nodes == ContradictionsAfter(env, resolvedRows, strs, |strs|, old(nodes))
    {
      var snapshot := nodes;
      var byPair := IndexPairs(env);
      var seen := {};
      NothingYet(env, resolvedRows, strs, snapshot, byPair);
      for c := 0 to |strs|
        invariant nodes == ContradictionsAfter(env, resolvedRows, strs, c, snapshot)
        invariant SeenKeys(env, strs, c, seen)
        invariant IndexInv(env, snapshot, byPair, seen)
      {
        var pairKey := PairKey(env, strs[c]);
        SeenNext(env, strs, c, seen);
        StringNext(env, resolvedRows, strs, c, snapshot, byPair, seen);
        if Trim(strs[c]) != [] {
          IndexKept(env, snapshot, byPair, seen, pairKey, |nodes|);
          if !(pairKey.Some? && pairKey.value in seen) && !MatchesResolved(env, resolvedRows, strs[c]) {
            byPair := PlaceContradiction(env, snapshot, byPair, strs[c]);
          }
          seen := WithKey(seen, pairKey);
        }
      }
    }

    /**
     * One sync. Claims of a batch below the confidence threshold are not looked at, so every active
     * claim goes stale; goals, risks and contradictions are processed regardless.
     */
    method SyncFacts(env: Env, f: Facts, resolvedRows: seq<string>) returns (candidates: seq<Candidate>)
      modifies this
      ensures nodes == SyncedGraph(env, f, resolvedRows, old(nodes))
      ensures candidates == Candidates(env, old(nodes), ClaimEntries(env, f), |ClaimEntries(env, f)|)
    {
      var snapshot := nodes;
      var matched: set<nat>;
      matched, candidates := SyncClaims(env, ClaimEntries(env, f), f.confidence);
      Accumulate(env, Goal, f.goals);
      Accumulate(env, Risk, f.risks);
      StaleClaims(env, snapshot, matched, ClaimEntries(env, f), f.confidence);
      SyncContradictions(env, resolvedRows, f.contradictions);
    }
  }
}
