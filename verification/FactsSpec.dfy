/**
 * The graph that facts are synced into, and what one sync may do to it (src/factsToSemanticGraph.ts,
 * src/semantic-graph/nodes.ts, src/contradictionPair.ts).
 *
 * A node's id is its position: rows are only ever appended. Text matching, canonicalisation, pair
 * keys and resolution lookups are parameters, so every statement holds whatever they answer.
 */
module FactsSpec {
  import opened Options

  datatype NodeType = Claim | Goal | Risk | Contradiction | OtherType

  datatype Status = Active | Irrelevant | Resolved | OtherStatus

  /** `factsSync` is created_by === "facts-sync"; `current` is the current view (not superseded). */
  datatype GNode = GNode(
    nodeType: NodeType,
    content: string,
    confidence: real,
    status: Status,
    factsSync: bool,
    dimension: Option<string>,
    current: bool)

  /** A claim of the batch; structured claims carry a dimension. */
  datatype Entry = Entry(content: string, dimension: Option<string>)

  datatype Env = Env(
    minClaimConfidence: real,
    canonText: string -> string,                    // canonicalizeClaimText
    claimKey: string -> string,                     // canonicalClaimKey
    order: seq<nat> -> seq<nat>,                    // the order a query returns rows in
    limitOne: seq<nat> -> nat,                      // which of several rows a query with LIMIT 1 returns
    matcher: (seq<string>, string) -> Option<nat>,  // matchExistingNode, on the candidates' contents
    trimmedPairKey: string -> Option<string>,       // contradictionPairKey after its own trim
    overlap: (string, string) -> real,              // contradictionContentOverlap
    lower: string -> string,
    embeddingResolved: string -> bool,              // isResolved
    mergedKey: (nat, string) -> bool)               // loadResolvedEquivalenceKeys: node id, canonical key

  // ---------------------------------------------------------------------------------------------
  // Trimming
  // ---------------------------------------------------------------------------------------------

  /** The white space and line terminators of ECMA-262, section 12.2 and 12.3. */
  predicate IsSpace(c: char) {
    || '\U{09}' <= c <= '\U{0D}' || c == ' ' || c == '\U{A0}' || c == '\U{1680}' || '\U{2000}' <= c <= '\U{200A}'
    || c == '\U{2028}' || c == '\U{2029}' || c == '\U{202F}' || c == '\U{205F}' || c == '\U{3000}' || c == '\U{FEFF}'
  }

  function TrimStart(s: string): string {
    if s == [] || !IsSpace(s[0]) then s else TrimStart(s[1..])
  }

  function TrimEnd(s: string): string {
    if s == [] || !IsSpace(s[|s| - 1]) then s else TrimEnd(s[..|s| - 1])
  }

  function Trim(s: string): string {
    TrimEnd(TrimStart(s))
  }

  lemma {:induction false} TrimEndKeepsStart(s: string)
    requires s == [] || !IsSpace(s[0])
    ensures TrimEnd(s) == [] || TrimEnd(s)[0] == s[0]
  {
    if s != [] && IsSpace(s[|s| - 1]) {
      TrimEndKeepsStart(s[..|s| - 1]);
    }
  }

  lemma {:induction false} TrimEndEnds(s: string)
    ensures TrimEnd(s) == [] || !IsSpace(TrimEnd(s)[|TrimEnd(s)| - 1])
  {
    if s != [] && IsSpace(s[|s| - 1]) {
      TrimEndEnds(s[..|s| - 1]);
    }
  }

  lemma {:induction false} TrimStartStarts(s: string)
    ensures TrimStart(s) == [] || !IsSpace(TrimStart(s)[0])
  {
    if s != [] && IsSpace(s[0]) {
      TrimStartStarts(s[1..]);
    }
  }

  lemma TrimTwice(s: string)
    ensures Trim(Trim(s)) == Trim(s)
  {
    TrimStartStarts(s);
    TrimEndKeepsStart(TrimStart(s));
    TrimEndEnds(TrimStart(s));
  }

  /** contradictionPairKey: the parser trims before it looks. */
  function PairKey(env: Env, s: string): Option<string> {
    env.trimmedPairKey(Trim(s))
  }

  // ---------------------------------------------------------------------------------------------
  // Queries and matching
  // ---------------------------------------------------------------------------------------------

  predicate IsFact(n: GNode, t: NodeType) {
    n.nodeType == t && n.factsSync && n.current
  }

  /** The facts-sync nodes of a type in the current view. */
  function RowIds(nodes: seq<GNode>, t: NodeType): (ids: seq<nat>)
    ensures forall i: nat :: i in ids <==> i < |nodes| && IsFact(nodes[i], t)
  {
    if nodes == [] then []
    else
      var front := RowIds(nodes[..|nodes| - 1], t);
      if IsFact(nodes[|nodes| - 1], t) then front + [|nodes| - 1] else front
  }

  /**
   * queryNodesByCreator: ordered by creation time, which rows of one transaction share. The theorems
   * hold for every order.
   */
  function FactIds(env: Env, nodes: seq<GNode>, t: NodeType): (ids: seq<nat>)
    ensures forall i: nat :: i in ids <==> i < |nodes| && IsFact(nodes[i], t)
    ensures forall k :: 0 <= k < |ids| ==> ids[k] < |nodes| && IsFact(nodes[ids[k]], t)
  {
    var ids := InOrder(env, RowIds(nodes, t));
    assert forall k :: 0 <= k < |ids| ==> ids[k] in ids;
    ids
  }

  function InOrder(env: Env, ids: seq<nat>): (r: seq<nat>)
    ensures forall i: nat :: i in r <==> i in ids
  {
    var r := env.order(ids);
    assert forall i: nat :: i in r <==> i in multiset(r);
    if multiset(r) == multiset(ids) then r else ids
  }

  function Contents(nodes: seq<GNode>, ids: seq<nat>): (cs: seq<string>)
    requires forall k :: 0 <= k < |ids| ==> ids[k] < |nodes|
    ensures |cs| == |ids| && forall k :: 0 <= k < |ids| ==> cs[k] == nodes[ids[k]].content
  {
    seq(|ids|, k requires 0 <= k < |ids| => nodes[ids[k]].content)
  }

  /** matchExistingNode: whichever candidate the matcher answers, if any. */
  function ByText(env: Env, nodes: seq<GNode>, t: NodeType, text: string): (r: Option<nat>)
    ensures r.Some? ==> r.value < |nodes| && IsFact(nodes[r.value], t)
  {
    var ids := FactIds(env, nodes, t);
    match env.matcher(Contents(nodes, ids), text)
    case None => None
    case Some(k) => if k < |ids| then Some(ids[k]) else None
  }

  /** matchExistingByDimension: the first claim that carries the dimension. */
  function ByDimension(nodes: seq<GNode>, ids: seq<nat>, dimension: string): (r: Option<nat>)
    requires forall k :: 0 <= k < |ids| ==> ids[k] < |nodes|
    ensures r.Some? ==> r.value in ids
  {
    if ids == [] then None
    else
      if nodes[ids[0]].dimension == Some(dimension) then Some(ids[0])
      else ByDimension(nodes, ids[1..], dimension)
  }

  function ClaimText(env: Env, e: Entry): string {
    Trim(env.canonText(e.content))
  }

  function MatchClaim(env: Env, nodes: seq<GNode>, e: Entry): (r: Option<nat>)
    ensures r.Some? ==> r.value < |nodes| && IsFact(nodes[r.value], Claim)
  {
    var ids := FactIds(env, nodes, Claim);
    if e.dimension.Some? && ByDimension(nodes, ids, e.dimension.value).Some?
    then ByDimension(nodes, ids, e.dimension.value)
    else ByText(env, nodes, Claim, ClaimText(env, e))
  }

  // ---------------------------------------------------------------------------------------------
  // What a sync does to claims
  // ---------------------------------------------------------------------------------------------

  function MaxReal(a: real, b: real): real {
    if a >= b then a else b
  }

  predicate SameIdentity(a: GNode, b: GNode) {
    a.nodeType == b.nodeType && a.factsSync == b.factsSync && a.dimension == b.dimension && a.current == b.current
  }

  /** An active claim of any creator in the current view. */
  predicate IsActiveClaim(n: GNode) {
    n.nodeType == Claim && n.current && n.status == Active
  }

  /** The active claims with exactly this text, oldest first. */
  function ActiveClaims(nodes: seq<GNode>, text: string): (ids: seq<nat>)
    ensures forall k :: 0 <= k < |ids| ==>
            ids[k] < |nodes| && IsActiveClaim(nodes[ids[k]]) && nodes[ids[k]].content == text
    ensures ids == [] ==> forall i :: 0 <= i < |nodes| && IsActiveClaim(nodes[i]) ==> nodes[i].content != text
  {
    if nodes == [] then []
    else
      var n := |nodes| - 1;
      var front := ActiveClaims(nodes[..n], text);
      if IsActiveClaim(nodes[n]) && nodes[n].content == text then front + [n] else front
  }

  /** The duplicate query: one of them. */
  function DuplicateOf(env: Env, nodes: seq<GNode>, text: string): (r: Option<nat>)
    ensures r.Some? ==> r.value < |nodes| && IsActiveClaim(nodes[r.value]) && nodes[r.value].content == text
    ensures r.None? ==> forall i :: 0 <= i < |nodes| && IsActiveClaim(nodes[i]) ==> nodes[i].content != text
  {
    var ids := ActiveClaims(nodes, text);
    if ids == [] then None else Some(ids[env.limitOne(ids) % |ids|])
  }

  /** A matched claim: `a` as read at the start of the sync, `now` as it is. */
  function RaiseClaim(env: Env, a: GNode, now: GNode, text: string, confidence: real): GNode {
    now.(content := if a.content != text && env.claimKey(a.content) == env.claimKey(text) then text else now.content,
         confidence := if confidence >= a.confidence then MaxReal(now.confidence, confidence) else now.confidence,
         status := if a.status != Active then Active else now.status)
  }

  /** An empty dimension is not stored. */
  function Dimension(e: Entry): Option<string> {
    if e.dimension == Some("") then None else e.dimension
  }

  function NewClaim(env: Env, e: Entry, confidence: real): GNode {
    GNode(Claim, ClaimText(env, e), confidence, Active, true, Dimension(e), true)
  }

  /** One claim of the batch, on a graph that was `pre` when the sync began. */
  function UpsertOne(env: Env, pre: seq<GNode>, now: seq<GNode>, e: Entry, confidence: real): (next: seq<GNode>)
    requires |pre| <= |now|
    ensures |now| <= |next|
  {
    if Trim(e.content) == [] then now
    else
      match MatchClaim(env, pre, e)
      case Some(i) => now[i := RaiseClaim(env, pre[i], now[i], ClaimText(env, e), confidence)]
      case None =>
        match DuplicateOf(env, now, ClaimText(env, e))
        case Some(j) => now[j := now[j].(confidence := MaxReal(now[j].confidence, confidence))]
        case None => now + [NewClaim(env, e, confidence)]
  }

  /** After the first `upto` claims. */
  function ClaimsAfter(env: Env, pre: seq<GNode>, entries: seq<Entry>, confidence: real, upto: nat): (now: seq<GNode>)
    requires upto <= |entries|
    ensures |pre| <= |now|
  {
    if upto == 0 then pre
    else UpsertOne(env, pre, ClaimsAfter(env, pre, entries, confidence, upto - 1), entries[upto - 1], confidence)
  }

  /** The row that claim k of the batch raises, is merged into, or becomes. */
  function TargetOf(env: Env, pre: seq<GNode>, entries: seq<Entry>, confidence: real, k: nat): Option<nat>
    requires k < |entries|
  {
    if Trim(entries[k].content) == [] then None
    else
      match MatchClaim(env, pre, entries[k])
      case Some(i) => Some(i)
      case None =>
        var now := ClaimsAfter(env, pre, entries, confidence, k);
        match DuplicateOf(env, now, ClaimText(env, entries[k]))
        case Some(j) => Some(j)
        case None => Some(|now|)
  }

  /** One of the first `upto` claims goes to row i. */
  ghost predicate TouchedBy(env: Env, pre: seq<GNode>, entries: seq<Entry>, confidence: real, upto: nat, i: nat)
    requires upto <= |entries|
  {
    exists k :: 0 <= k < upto && TargetOf(env, pre, entries, confidence, k) == Some(i)
  }

  /** Some claim of the batch goes to row i. */
  ghost predicate Touched(env: Env, pre: seq<GNode>, entries: seq<Entry>, confidence: real, i: nat) {
    TouchedBy(env, pre, entries, confidence, |entries|, i)
  }

  /** A claim that matched a node with a different canonical reading. */
  datatype Candidate = Candidate(existingId: nat, existingContent: string, newContent: string,
                                 dimension: Option<string>)

  function CandidateOf(env: Env, pre: seq<GNode>, e: Entry): seq<Candidate> {
    if Trim(e.content) == [] || MatchClaim(env, pre, e).None? then []
    else
      var i := MatchClaim(env, pre, e).value;
      var key := env.claimKey(ClaimText(env, e));
      if env.claimKey(pre[i].content) != key && !env.mergedKey(i, key)
      then [Candidate(i, pre[i].content, ClaimText(env, e), Dimension(e))] else []
  }

  /** Those of the first `upto` claims. */
  function Candidates(env: Env, pre: seq<GNode>, entries: seq<Entry>, upto: nat): seq<Candidate>
    requires upto <= |entries|
  {
    if upto == 0 then [] else Candidates(env, pre, entries, upto - 1) + CandidateOf(env, pre, entries[upto - 1])
  }

  /** Active facts-sync claims that no claim of the batch goes to become irrelevant. */
  ghost function StaleGraph(env: Env, pre: seq<GNode>, now: seq<GNode>, entries: seq<Entry>,
                            confidence: real): (r: seq<GNode>)
    ensures |r| == |now|
  {
    seq(|now|, i requires 0 <= i < |now| =>
      if i < |pre| && IsFact(pre[i], Claim) && pre[i].status == Active && !Touched(env, pre, entries, confidence, i)
      then now[i].(status := Irrelevant) else now[i])
  }

  // ---------------------------------------------------------------------------------------------
  // What a sync does to goals and risks
  // ---------------------------------------------------------------------------------------------

  function ItemText(env: Env, raw: string): string {
    Trim(env.canonText(raw))
  }

  /** Text q of the batch is not blank and matches this node, or none. */
  predicate Names(env: Env, pre: seq<GNode>, t: NodeType, texts: seq<string>, q: nat, target: Option<nat>)
    requires q < |texts|
  {
    Trim(texts[q]) != [] && ByText(env, pre, t, ItemText(env, texts[q])) == target
  }

  /** One of the first `upto` texts matches node i. */
  ghost predicate NamedBy(env: Env, pre: seq<GNode>, t: NodeType, texts: seq<string>, upto: nat, i: nat)
    requires upto <= |texts|
  {
    exists q :: 0 <= q < upto && Names(env, pre, t, texts, q, Some(i))
  }

  /** Some text of the batch matches node i. */
  ghost predicate Named(env: Env, pre: seq<GNode>, t: NodeType, texts: seq<string>, i: nat) {
    NamedBy(env, pre, t, texts, |texts|, i)
  }

  function NewItem(env: Env, t: NodeType, raw: string): GNode {
    GNode(t, ItemText(env, raw), 1.0, Active, true, None, true)
  }

  /** One new node for each of the first `upto` texts that is not blank and matches nothing, in order. */
  function NewItems(env: Env, pre: seq<GNode>, t: NodeType, texts: seq<string>, upto: nat): seq<GNode>
    requires upto <= |texts|
  {
    if upto == 0 then []
    else
      NewItems(env, pre, t, texts, upto - 1)
      + (if Names(env, pre, t, texts, upto - 1, None) then [NewItem(env, t, texts[upto - 1])] else [])
  }

  /** After the first `upto` texts. */
  ghost function Accumulated(env: Env, pre: seq<GNode>, t: NodeType, texts: seq<string>, upto: nat): (post: seq<GNode>)
    requires upto <= |texts|
    ensures |pre| <= |post|
    ensures forall i :: 0 <= i < |pre| ==> post[i] == Reactivated(pre[i], NamedBy(env, pre, t, texts, upto, i))
    ensures post[|pre|..] == NewItems(env, pre, t, texts, upto)
  {
    seq(|pre|, i requires 0 <= i < |pre| => Reactivated(pre[i], NamedBy(env, pre, t, texts, upto, i)))
    + NewItems(env, pre, t, texts, upto)
  }

  function Reactivated(n: GNode, referred: bool): GNode {
    if referred then n.(status := Active) else n
  }

  // ---------------------------------------------------------------------------------------------
  // Contradictions
  // ---------------------------------------------------------------------------------------------

  /** The resolved set as the code keys it: contents lowercased, then trimmed. */
  function ResolvedTexts(env: Env, resolvedRows: seq<string>): (rs: seq<string>)
    ensures |rs| == |resolvedRows|
  {
    seq(|resolvedRows|, k requires 0 <= k < |resolvedRows| => Trim(env.lower(resolvedRows[k])))
  }

  /** matchesResolvedContradiction or the embedding lookup. */
  predicate MatchesResolved(env: Env, resolvedRows: seq<string>, s: string) {
    var rs := ResolvedTexts(env, resolvedRows);
    || (PairKey(env, s).Some? && exists r :: r in rs && PairKey(env, r) == PairKey(env, s))
    || env.lower(Trim(s)) in rs
    || (exists r :: r in rs && env.overlap(env.lower(Trim(s)), r) >= 0.55)
    || env.embeddingResolved(Trim(s))
  }

  /** The string is neither blank, nor a repeat of an earlier pair key of the batch, nor resolved. */
  ghost predicate Processed(env: Env, resolvedRows: seq<string>, strs: seq<string>, c: nat)
    requires c < |strs|
  {
    && Trim(strs[c]) != []
    && (PairKey(env, strs[c]).Some? ==>
          forall b :: 0 <= b < c && Trim(strs[b]) != [] ==> PairKey(env, strs[b]) != PairKey(env, strs[c]))
    && !MatchesResolved(env, resolvedRows, strs[c])
  }

  /** The first facts-sync contradiction with the pair key. */
  function ByPairKey(env: Env, nodes: seq<GNode>, ids: seq<nat>, key: string): (r: Option<nat>)
    requires forall k :: 0 <= k < |ids| ==> ids[k] < |nodes|
    ensures r.Some? ==> r.value in ids && PairKey(env, nodes[r.value].content) == Some(key)
    ensures r.None? ==> forall k :: 0 <= k < |ids| ==> PairKey(env, nodes[ids[k]].content) != Some(key)
  {
    if ids == [] then None
    else
      if PairKey(env, nodes[ids[0]].content) == Some(key) then Some(ids[0])
      else ByPairKey(env, nodes, ids[1..], key)
  }

  /** The existing contradiction a string refers to: by pair key first, by text otherwise. */
  function MatchContradiction(env: Env, nodes: seq<GNode>, s: string): (r: Option<nat>)
    ensures r.Some? ==> r.value < |nodes| && IsFact(nodes[r.value], Contradiction)
  {
    var ids := FactIds(env, nodes, Contradiction);
    if PairKey(env, s).Some? && ByPairKey(env, nodes, ids, PairKey(env, s).value).Some?
    then ByPairKey(env, nodes, ids, PairKey(env, s).value)
    else ByText(env, nodes, Contradiction, Trim(s))
  }

  /** Some string of the batch is processed and refers to node i. */
  ghost predicate Referred(env: Env, resolvedRows: seq<string>, strs: seq<string>, nodes: seq<GNode>, i: nat) {
    ReferredBy(env, resolvedRows, strs, |strs|, nodes, i)
  }

  /** So does one of the first `upto`. */
  ghost predicate ReferredBy(env: Env, resolvedRows: seq<string>, strs: seq<string>, upto: nat, nodes: seq<GNode>,
                             i: nat)
    requires upto <= |strs|
  {
    exists c :: 0 <= c < upto && Processed(env, resolvedRows, strs, c)
      && MatchContradiction(env, nodes, strs[c]) == Some(i)
  }

  function NewContradiction(s: string): GNode {
    GNode(Contradiction, Trim(s), 1.0, Active, true, None, true)
  }

  /** One new node for each of the first `upto` strings that is processed and refers to nothing. */
  ghost function NewContradictions(env: Env, resolvedRows: seq<string>, strs: seq<string>, upto: nat,
                                   pre: seq<GNode>): seq<GNode>
    requires upto <= |strs|
  {
    if upto == 0 then []
    else
      var c := upto - 1;
      NewContradictions(env, resolvedRows, strs, c, pre)
      + (if Processed(env, resolvedRows, strs, c) && MatchContradiction(env, pre, strs[c]).None?
         then [NewContradiction(strs[c])] else [])
  }

  /** After the first `upto` strings. */
  ghost function ContradictionsAfter(env: Env, resolvedRows: seq<string>, strs: seq<string>, upto: nat, pre: seq<GNode>)
    : (post: seq<GNode>)
    requires upto <= |strs|
    ensures |pre| <= |post|
    ensures forall i :: 0 <= i < |pre| ==>
              post[i] == Reactivated(pre[i], ReferredBy(env, resolvedRows, strs, upto, pre, i))
    ensures post[|pre|..] == NewContradictions(env, resolvedRows, strs, upto, pre)
  {
    seq(|pre|, i requires 0 <= i < |pre| => Reactivated(pre[i], ReferredBy(env, resolvedRows, strs, upto, pre, i)))
    + NewContradictions(env, resolvedRows, strs, upto, pre)
  }

  /** Facts-sync contradictions of the current view have pairwise different pair keys, where they have one. */
  ghost predicate DistinctPairKeys(env: Env, nodes: seq<GNode>) {
    forall i, j :: 0 <= i < j < |nodes| && IsFact(nodes[i], Contradiction) && IsFact(nodes[j], Contradiction)
                   && PairKey(env, nodes[j].content).Some? ==>
      PairKey(env, nodes[i].content) != PairKey(env, nodes[j].content)
  }

  /** The two environments compute the same keys; everything else may differ. */
  ghost predicate SameKeys(a: Env, b: Env) {
    a.claimKey == b.claimKey && a.trimmedPairKey == b.trimmedPairKey
  }

  lemma SameKeysSameDistinct(a: Env, b: Env, nodes: seq<GNode>)
    requires SameKeys(a, b)
    ensures DistinctPairKeys(a, nodes) <==> DistinctPairKeys(b, nodes)
  {
    assert forall s :: PairKey(a, s) == PairKey(b, s);
  }

  // ---------------------------------------------------------------------------------------------
  // A whole sync
  // ---------------------------------------------------------------------------------------------

  datatype Facts = Facts(
    structuredClaims: seq<(string, string)>,  // dimension, content
    claims: seq<string>,
    goals: seq<string>,
    risks: seq<string>,
    contradictions: seq<string>,
    confidence: real)

  /** Structured claims win over flat ones; a batch below the threshold has no claims at all. */
  function ClaimEntries(env: Env, f: Facts): seq<Entry> {
    if f.confidence < env.minClaimConfidence then []
    else if |f.structuredClaims| > 0 then
      seq(|f.structuredClaims|, k requires 0 <= k < |f.structuredClaims| =>
        Entry(f.structuredClaims[k].1, Some(Trim(f.structuredClaims[k].0))))
    else seq(|f.claims|, k requires 0 <= k < |f.claims| => Entry(f.claims[k], None))
  }

  /** The graphs after the claims, the goals, the risks, the staling and the contradictions. */
  function AfterClaims(env: Env, f: Facts, pre: seq<GNode>): seq<GNode> {
    ClaimsAfter(env, pre, ClaimEntries(env, f), f.confidence, |ClaimEntries(env, f)|)
  }

  ghost function AfterGoals(env: Env, f: Facts, pre: seq<GNode>): seq<GNode> {
    Accumulated(env, AfterClaims(env, f, pre), Goal, f.goals, |f.goals|)
  }

  ghost function AfterRisks(env: Env, f: Facts, pre: seq<GNode>): seq<GNode> {
    Accumulated(env, AfterGoals(env, f, pre), Risk, f.risks, |f.risks|)
  }

  ghost function AfterStaling(env: Env, f: Facts, pre: seq<GNode>): seq<GNode> {
    StaleGraph(env, pre, AfterRisks(env, f, pre), ClaimEntries(env, f), f.confidence)
  }

  ghost function SyncedGraph(env: Env, f: Facts, resolvedRows: seq<string>, pre: seq<GNode>): seq<GNode> {
    ContradictionsAfter(env, resolvedRows, f.contradictions, |f.contradictions|, AfterStaling(env, f, pre))
  }

  /** A claim of the batch goes to row i, and the batch reaches the threshold. */
  ghost predicate ClaimedBy(env: Env, f: Facts, pre: seq<GNode>, i: nat) {
    f.confidence >= env.minClaimConfidence && Touched(env, pre, ClaimEntries(env, f), f.confidence, i)
  }
}
