/**
 * Concurrent emits into one scope that starts empty: each emit reads the frontier and, any number
 * of other steps later, inserts a row with those parents or fails (src/causalEmit.ts,
 * src/causalContributions.ts). At most k emits are in flight at once.
 */
module CausalRuns {
  import opened CausalDag
  import opened Sets

  /** The rows in insertion order, and the frontier each emit in flight has read. */
  datatype Sys = Sys(rows: seq<Rid>, inFlight: map<nat, seq<Rid>>)

  const EMPTY: Sys := Sys([], map[])

  datatype Event =
    | ReadFrontier(emit: nat, tips: seq<Rid>)
    | InsertRow(emit: nat, payload: string, kind: Kind)
    | Fail(emit: nat)

  /** The query returns the tips in an order of the database's choosing. */
  ghost predicate Enabled(k: nat, s: Sys, e: Event) {
    match e
    case ReadFrontier(id, tips) =>
      && id !in s.inFlight && |s.inFlight| < k
      && NoDuplicates(tips) && forall r :: r in tips <==> r in Frontier(s.rows)
    case InsertRow(id, _, _) => id in s.inFlight
    case Fail(id) => id in s.inFlight
  }

  function Apply(s: Sys, e: Event): Sys
    requires e.InsertRow? ==> e.emit in s.inFlight
  {
    match e
    case ReadFrontier(id, tips) => s.(inFlight := s.inFlight[id := tips])
    case InsertRow(id, payload, kind) =>
      Sys(Insert(s.rows, Rid(s.inFlight[id], payload, kind)), s.inFlight - {id})
    case Fail(id) => s.(inFlight := s.inFlight - {id})
  }

  ghost predicate ValidRun(k: nat, s: Sys, es: seq<Event>)
    decreases |es|
  {
    es == [] || (Enabled(k, s, es[0]) && ValidRun(k, Apply(s, es[0]), es[1..]))
  }

  ghost function Run(k: nat, s: Sys, es: seq<Event>): Sys
    requires ValidRun(k, s, es)
    decreases |es|
  {
    if es == [] then s else Run(k, Apply(s, es[0]), es[1..])
  }

  // ---------------------------------------------------------------------------------------------
  // The frontier never exceeds the number of emits in flight
  // ---------------------------------------------------------------------------------------------

  /** Parents are stored before their children: nothing dangles. */
  ghost predicate ParentsStored(rows: seq<Rid>) {
    forall i, p :: 0 <= i < |rows| && p in rows[i].parents ==> p in rows[..i]
  }

  /** Tips inserted after position i. */
  function LaterTips(rows: seq<Rid>, i: nat): set<Rid>
    requires i < |rows|
  {
    set r | r in rows[i + 1..] && IsTip(rows, r)
  }

  /** Emits in flight whose frontier does not hold x: they will not cover it. */
  function Unaware(inFlight: map<nat, seq<Rid>>, x: Rid): set<nat> {
    set id | id in inFlight && x !in inFlight[id]
  }

  /** Every later tip was left by an emit that was unaware of x; those yet to insert are still counted. */
  ghost predicate TipsBounded(k: nat, s: Sys) {
    forall i :: 0 <= i < |s.rows| && IsTip(s.rows, s.rows[i]) ==>
      |LaterTips(s.rows, i)| + 1 + |Unaware(s.inFlight, s.rows[i])| <= k
  }

  ghost predicate Inv(k: nat, s: Sys) {
    && NoDuplicates(s.rows) && ParentsStored(s.rows)
    && (forall id, p :: id in s.inFlight && p in s.inFlight[id] ==> p in s.rows)
    && |s.inFlight| <= k
    && TipsBounded(k, s)
  }

  lemma ReadKeepsInv(k: nat, s: Sys, id: nat, tips: seq<Rid>)
    requires Inv(k, s) && Enabled(k, s, ReadFrontier(id, tips))
    ensures Inv(k, Apply(s, ReadFrontier(id, tips)))
  {
    var s' := Apply(s, ReadFrontier(id, tips));
    forall i | 0 <= i < |s.rows| && IsTip(s.rows, s.rows[i])
      ensures Unaware(s'.inFlight, s.rows[i]) == Unaware(s.inFlight, s.rows[i])
    {
      assert s.rows[i] in Frontier(s.rows);
    }
  }

  lemma InsertedIsTip(rows: seq<Rid>, r: Rid)
    requires ParentsStored(rows) && r !in rows && forall p :: p in r.parents ==> p in rows
    ensures IsTip(rows + [r], r)
    ensures forall x :: x in rows ==> (IsTip(rows + [r], x) <==> IsTip(rows, x) && x !in r.parents)
    ensures ParentsStored(rows + [r])
  {
    assert r in rows + [r];
    forall c | c in rows
      ensures r !in c.parents
    {
      var i :| 0 <= i < |rows| && rows[i] == c;
      assert forall p :: p in c.parents ==> p in rows[..i];
    }
    assert r !in r.parents;
    forall i, p | 0 <= i < |rows + [r]| && p in (rows + [r])[i].parents
      ensures p in (rows + [r])[..i]
    {
      assert (rows + [r])[..i] == rows[..i];
    }
  }

  lemma LaterTipsAfterInsert(rows: seq<Rid>, r: Rid, i: nat)
    requires i < |rows| && forall x :: x in rows && IsTip(rows + [r], x) ==> IsTip(rows, x)
    ensures |LaterTips(rows + [r], i)| <= |LaterTips(rows, i)| + 1
  {
    assert (rows + [r])[i + 1..] == rows[i + 1..] + [r];
    forall x | x in LaterTips(rows + [r], i)
      ensures x in LaterTips(rows, i) + {r}
    {
      if x != r {
        assert x in rows[i + 1..];
        assert x in rows;
      }
    }
    SubsetSize(LaterTips(rows + [r], i), LaterTips(rows, i) + {r});
  }

  lemma UnawareAfterInsert(inFlight: map<nat, seq<Rid>>, id: nat, x: Rid)
    requires id in inFlight
    ensures x !in inFlight[id] ==> |Unaware(inFlight - {id}, x)| == |Unaware(inFlight, x)| - 1
    ensures |Unaware(inFlight - {id}, x)| <= |Unaware(inFlight, x)| && |Unaware(inFlight - {id}, x)| <= |inFlight| - 1
  {
    if x !in inFlight[id] {
      assert Unaware(inFlight, x) == Unaware(inFlight - {id}, x) + {id};
    }
    SubsetSize(Unaware(inFlight - {id}, x), Unaware(inFlight, x));
    SubsetSize(Unaware(inFlight - {id}, x), inFlight.Keys - {id});
    assert inFlight.Keys == (inFlight.Keys - {id}) + {id};
  }

  lemma InsertKeepsBound(k: nat, s: Sys, id: nat, r: Rid, i: nat)
    requires ParentsStored(s.rows) && TipsBounded(k, s) && |s.inFlight| <= k
    requires id in s.inFlight && r !in s.rows && r.parents == s.inFlight[id]
    requires forall p :: p in r.parents ==> p in s.rows
    requires i <= |s.rows| && IsTip(s.rows + [r], (s.rows + [r])[i])
    ensures |LaterTips(s.rows + [r], i)| + 1 + |Unaware(s.inFlight - {id}, (s.rows + [r])[i])| <= k
  {
    InsertedIsTip(s.rows, r);
    var x := (s.rows + [r])[i];
    UnawareAfterInsert(s.inFlight, id, x);
    if i == |s.rows| {
      assert (s.rows + [r])[i + 1..] == [];
      assert LaterTips(s.rows + [r], i) == {};
    } else {
      assert x == s.rows[i] && x in s.rows;
      LaterTipsAfterInsert(s.rows, r, i);
    }
  }

  lemma FailKeepsInv(k: nat, s: Sys, id: nat)
    requires Inv(k, s) && id in s.inFlight
    ensures Inv(k, Apply(s, Fail(id)))
  {
    var s' := Apply(s, Fail(id));
    SubsetSize(s'.inFlight.Keys, s.inFlight.Keys);
    forall x
      ensures |Unaware(s'.inFlight, x)| <= |Unaware(s.inFlight, x)|
    {
      SubsetSize(Unaware(s'.inFlight, x), Unaware(s.inFlight, x));
    }
  }

  lemma InsertKeepsInv(k: nat, s: Sys, id: nat, payload: string, kind: Kind)
    requires Inv(k, s) && id in s.inFlight
    ensures Inv(k, Apply(s, InsertRow(id, payload, kind)))
  {
    var r := Rid(s.inFlight[id], payload, kind);
    var s' := Apply(s, InsertRow(id, payload, kind));
    if r in s.rows {
      FailKeepsInv(k, s, id);
    } else {
      SubsetSize(s'.inFlight.Keys, s.inFlight.Keys);
      InsertedIsTip(s.rows, r);
      forall i | 0 <= i < |s'.rows| && IsTip(s'.rows, s'.rows[i])
        ensures |LaterTips(s'.rows, i)| + 1 + |Unaware(s'.inFlight, s'.rows[i])| <= k
      {
        InsertKeepsBound(k, s, id, r, i);
      }
    }
  }

  lemma {:induction false} RunKeepsInv(k: nat, s: Sys, es: seq<Event>)
    requires Inv(k, s) && ValidRun(k, s, es)
    ensures Inv(k, Run(k, s, es))
    decreases |es|
  {
    if es != [] {
      match es[0] {
        case ReadFrontier(id, tips) => ReadKeepsInv(k, s, id, tips);
        case InsertRow(id, payload, kind) => InsertKeepsInv(k, s, id, payload, kind);
        case Fail(id) => FailKeepsInv(k, s, id);
      }
      RunKeepsInv(k, Apply(s, es[0]), es[1..]);
    }
  }

  lemma OldestTip(rows: seq<Rid>, j: nat) returns (i: nat)
    requires j < |rows| && IsTip(rows, rows[j])
    ensures i < |rows| && IsTip(rows, rows[i]) && forall q :: 0 <= q < i ==> !IsTip(rows, rows[q])
  {
    i := j;
    if q :| 0 <= q < j && IsTip(rows, rows[q]) {
      i := OldestTip(rows, q);
    }
  }

  lemma TipsFromOldest(rows: seq<Rid>, i: nat)
    requires i < |rows| && forall q :: 0 <= q < i ==> !IsTip(rows, rows[q])
    ensures |Frontier(rows)| <= 1 + |LaterTips(rows, i)|
  {
    forall r | r in Frontier(rows)
      ensures r in {rows[i]} + LaterTips(rows, i)
    {
      var l :| 0 <= l < |rows| && rows[l] == r;
      if l > i {
        assert rows[i + 1..][l - i - 1] == r;
      }
    }
    SubsetSize(Frontier(rows), {rows[i]} + LaterTips(rows, i));
  }

  lemma InvBoundsFrontier(k: nat, s: Sys)
    requires TipsBounded(k, s)
    ensures |Frontier(s.rows)| <= k
  {
    if j :| 0 <= j < |s.rows| && IsTip(s.rows, s.rows[j]) {
      var i := OldestTip(s.rows, j);
      TipsFromOldest(s.rows, i);
    } else {
      assert Frontier(s.rows) == {};
    }
  }

  /** However frontier reads and inserts interleave, the scope never has more tips than emits in flight at once. */
  lemma FrontierBounded(k: nat, es: seq<Event>)
    requires ValidRun(k, EMPTY, es)
    ensures |Frontier(Run(k, EMPTY, es).rows)| <= k
  {
    RunKeepsInv(k, EMPTY, es);
    InvBoundsFrontier(k, Run(k, EMPTY, es));
  }

  /** Rows written through the frontier never dangle, so a row's cone holds all of its ancestors. */
  lemma NothingDangles(k: nat, es: seq<Event>, r: Rid, p: Rid)
    requires ValidRun(k, EMPTY, es) && r in Run(k, EMPTY, es).rows && p in r.parents
    ensures p in Run(k, EMPTY, es).rows && InCone(Run(k, EMPTY, es).rows, p, r)
  {
    RunKeepsInv(k, EMPTY, es);
    var rows := Run(k, EMPTY, es).rows;
    var i :| 0 <= i < |rows| && rows[i] == r;
    assert p in rows[..i];
    assert InCone(rows, p, p);
  }

  // ---------------------------------------------------------------------------------------------
  // The bound is reached
  // ---------------------------------------------------------------------------------------------

  lemma {:induction false} RunAppend(k: nat, s: Sys, es: seq<Event>, e: Event)
    requires ValidRun(k, s, es) && Enabled(k, Run(k, s, es), e)
    ensures ValidRun(k, s, es + [e]) && Run(k, s, es + [e]) == Apply(Run(k, s, es), e)
    decreases |es|
  {
    if es != [] {
      RunAppend(k, Apply(s, es[0]), es[1..], e);
      assert (es + [e])[1..] == es[1..] + [e];
    }
  }

  function Filler(n: nat): (s: string)
    ensures |s| == n
  {
    if n == 0 then "" else Filler(n - 1) + "x"
  }

  function Root(n: nat): Rid {
    Rid([], Filler(n), Claim)
  }

  function Roots(n: nat): (rs: seq<Rid>)
    ensures |rs| == n && forall i :: 0 <= i < n ==> rs[i] == Root(i)
  {
    if n == 0 then [] else Roots(n - 1) + [Root(n - 1)]
  }

  function Readers(n: nat): (m: map<nat, seq<Rid>>)
    ensures |m| == n && forall i: nat :: i in m <==> i < n
  {
    if n == 0 then map[] else Readers(n - 1)[n - 1 := []]
  }

  /** All k emits read the empty frontier. */
  lemma {:induction false} ReadAll(k: nat, n: nat) returns (es: seq<Event>)
    requires n <= k
    ensures ValidRun(k, EMPTY, es)
    ensures Run(k, EMPTY, es) == Sys([], Readers(n))
  {
    es := [];
    if n > 0 {
      es := ReadAll(k, n - 1);
      RunAppend(k, EMPTY, es, ReadFrontier(n - 1, []));
      es := es + [ReadFrontier(n - 1, [])];
    }
  }

  lemma RootIsNew(n: nat)
    ensures Root(n) !in Roots(n) && Roots(n + 1) == Roots(n) + [Root(n)]
  {
    forall i | 0 <= i < n
      ensures Roots(n)[i] != Root(n)
    {
      assert |Filler(i)| != |Filler(n)|;
    }
  }

  lemma InsertRoot(n: nat, waiting: nat)
    requires waiting > 0
    ensures var e := InsertRow(waiting - 1, Filler(n), Claim);
            && e.emit in Readers(waiting)
            && Apply(Sys(Roots(n), Readers(waiting)), e) == Sys(Roots(n + 1), Readers(waiting - 1))
  {
    RootIsNew(n);
    assert Readers(waiting) - {waiting - 1} == Readers(waiting - 1);
  }

  lemma InsertNext(k: nat, before: seq<Event>, n: nat, waiting: nat) returns (es: seq<Event>)
    requires waiting > 0 && ValidRun(k, EMPTY, before) && Run(k, EMPTY, before) == Sys(Roots(n), Readers(waiting))
    ensures ValidRun(k, EMPTY, es) && Run(k, EMPTY, es) == Sys(Roots(n + 1), Readers(waiting - 1))
  {
    var e := InsertRow(waiting - 1, Filler(n), Claim);
    InsertRoot(n, waiting);
    RunAppend(k, EMPTY, before, e);
    es := before + [e];
  }

  /** Then they insert their rows, all of them roots. */
  lemma {:induction false} InsertAll(k: nat, n: nat) returns (es: seq<Event>)
    requires n <= k
    ensures ValidRun(k, EMPTY, es)
    ensures Run(k, EMPTY, es) == Sys(Roots(n), Readers(k - n))
  {
    if n == 0 {
      es := ReadAll(k, k);
    } else {
      var before := InsertAll(k, n - 1);
      es := InsertNext(k, before, n - 1, k - n + 1);
    }
  }

  function RowSet(rows: seq<Rid>): set<Rid> {
    set r | r in rows
  }

  lemma RowSetGrows(rows: seq<Rid>, r: Rid)
    requires r !in rows
    ensures |RowSet(rows + [r])| == |RowSet(rows)| + 1
  {
    assert RowSet(rows + [r]) == RowSet(rows) + {r};
  }

  lemma {:induction false} RootsAreDistinct(n: nat)
    ensures |RowSet(Roots(n))| == n
  {
    if n > 0 {
      RootsAreDistinct(n - 1);
      RootIsNew(n - 1);
      RowSetGrows(Roots(n - 1), Root(n - 1));
    }
  }

  lemma RootsAreTips(n: nat)
    ensures |Frontier(Roots(n))| == n
  {
    RootsAreDistinct(n);
    assert forall r :: r in Roots(n) ==> r.parents == [];
    assert Frontier(Roots(n)) == RowSet(Roots(n));
  }

  /** A frontier of m tips can arise exactly when m emits may be in flight at once. */
  lemma FrontierSizesExactly(k: nat, m: nat)
    ensures (exists es :: ValidRun(k, EMPTY, es) && |Frontier(Run(k, EMPTY, es).rows)| == m) <==> m <= k
  {
    if m <= k {
      var es := InsertAll(k, m);
      RootsAreTips(m);
    } else {
      forall es | ValidRun(k, EMPTY, es)
        ensures |Frontier(Run(k, EMPTY, es).rows)| != m
      {
        FrontierBounded(k, es);
      }
    }
  }

  // ---------------------------------------------------------------------------------------------
  // One emit at a time
  // ---------------------------------------------------------------------------------------------

  /** Each row's only parent is the row before it. */
  ghost predicate IsChain(rows: seq<Rid>) {
    && (rows != [] ==> rows[0].parents == [])
    && forall i :: 0 < i < |rows| ==> rows[i].parents == [rows[i - 1]]
  }

  function LastRow(rows: seq<Rid>): seq<Rid> {
    if rows == [] then [] else [rows[|rows| - 1]]
  }

  /** A chain has one tip, and the single emit in flight has read it. */
  ghost predicate SerialInv(s: Sys) {
    && NoDuplicates(s.rows) && IsChain(s.rows) && |s.inFlight| <= 1
    && forall id :: id in s.inFlight ==> s.inFlight[id] == LastRow(s.rows)
  }

  lemma LastIsOnlyTip(rows: seq<Rid>, i: nat)
    requires NoDuplicates(rows) && IsChain(rows) && i < |rows|
    ensures IsTip(rows, rows[i]) <==> i == |rows| - 1
  {
    if i < |rows| - 1 {
      assert rows[i + 1].parents == [rows[i]];
      assert rows[i + 1] in rows && rows[i] in rows[i + 1].parents;
    } else {
      forall j | 0 <= j < |rows|
        ensures rows[i] !in rows[j].parents
      {
        if j > 0 {
          assert rows[j].parents == [rows[j - 1]] && rows[j - 1] != rows[i];
        }
      }
    }
  }

  lemma SingleElement<T>(s: seq<T>, x: T)
    requires NoDuplicates(s) && forall y :: y in s <==> y == x
    ensures s == [x]
  {
    assert |s| <= 1 || s[0] != s[1];
    assert x in s;
    forall k | 0 <= k < |s|
      ensures s[k] == x
    {
      assert s[k] in s;
    }
  }

  lemma ChainFrontier(rows: seq<Rid>, tips: seq<Rid>)
    requires NoDuplicates(rows) && IsChain(rows)
    requires NoDuplicates(tips) && forall r :: r in tips <==> r in Frontier(rows)
    ensures tips == LastRow(rows)
  {
    assert tips != [] ==> tips[0] in tips;
    if rows == [] {
      assert Frontier(rows) == {};
    } else {
      forall r
        ensures r in tips <==> r == rows[|rows| - 1]
      {
        LastIsOnlyTip(rows, |rows| - 1);
        if r in rows {
          var i :| 0 <= i < |rows| && rows[i] == r;
          LastIsOnlyTip(rows, i);
        }
      }
      SingleElement(tips, rows[|rows| - 1]);
    }
  }

  lemma NextRowIsNew(rows: seq<Rid>, payload: string, kind: Kind)
    requires NoDuplicates(rows) && IsChain(rows)
    ensures Rid(LastRow(rows), payload, kind) !in rows
  {
    forall i | 0 <= i < |rows|
      ensures rows[i].parents != LastRow(rows)
    {
      assert |LastRow(rows)| == 1;
      if i > 0 {
        assert rows[i].parents[0] == rows[i - 1];
      }
    }
  }

  lemma SerialStep(s: Sys, e: Event)
    requires SerialInv(s) && Enabled(1, s, e)
    ensures SerialInv(Apply(s, e))
  {
    match e {
      case ReadFrontier(id, tips) =>
        ChainFrontier(s.rows, tips);
        assert s.inFlight.Keys == {};
      case InsertRow(id, payload, kind) =>
        NextRowIsNew(s.rows, payload, kind);
        if j :| j in s.inFlight && j != id {
          SubsetSize({j, id}, s.inFlight.Keys);
        }
        assert s.inFlight.Keys == {id};
      case Fail(id) =>
        SubsetSize((s.inFlight - {id}).Keys, s.inFlight.Keys);
    }
  }

  lemma {:induction false} SerialRun(s: Sys, es: seq<Event>)
    requires SerialInv(s) && ValidRun(1, s, es)
    ensures SerialInv(Run(1, s, es))
    decreases |es|
  {
    if es != [] {
      SerialStep(s, es[0]);
      SerialRun(Apply(s, es[0]), es[1..]);
    }
  }

  lemma {:induction false} ChainCone(rows: seq<Rid>, i: nat, j: nat)
    requires IsChain(rows) && i <= j < |rows|
    ensures InCone(rows, rows[i], rows[j])
    decreases j
  {
    if i < j {
      ChainCone(rows, i, j - 1);
      assert rows[j - 1] in rows[j].parents;
    }
  }

  lemma PositionIn<T>(x: T, s: seq<T>) returns (i: nat)
    requires x in s
    ensures i < |s| && s[i] == x
  {
    i :| i < |s| && s[i] == x;
  }

  /** The first i rows stand at the beginning of the list. */
  ghost predicate Begins(rows: seq<Rid>, out: seq<Rid>, i: nat)
    requires i <= |rows|
  {
    i <= |out| && forall k :: 0 <= k < i ==> out[k] == rows[k]
  }

  /** If a later row than the next one followed, its parent would have to be there already. */
  lemma ParentStandsBefore(rows: seq<Rid>, out: seq<Rid>, i: nat, l: nat)
    requires IsChain(rows) && ParentsFirst(rows, out)
    requires i < l < |rows| && i < |out| && Begins(rows, out, i) && out[i] == rows[l]
    ensures rows[l - 1] in rows[..i]
  {
    assert rows[l].parents == [rows[l - 1]];
    assert rows[l - 1] in out[i].parents && rows[l - 1] in rows;
    assert out[..i] == rows[..i];
  }

  lemma OneMoreBegins(rows: seq<Rid>, out: seq<Rid>, i: nat)
    requires NoDuplicates(rows) && IsChain(rows) && NoDuplicates(out) && ParentsFirst(rows, out)
    requires forall r :: r in out <==> r in rows
    requires i < |rows| && Begins(rows, out, i)
    ensures i < |out| && out[i] == rows[i]
  {
    var j := PositionIn(rows[i], out);
    assert j >= i;
    assert out[i] in out;
    var l := PositionIn(out[i], rows);
    assert l >= i;
    if l > i {
      ParentStandsBefore(rows, out, i, l);
    }
  }

  lemma {:induction false} ChainOrder(rows: seq<Rid>, out: seq<Rid>, i: nat)
    requires NoDuplicates(rows) && IsChain(rows) && NoDuplicates(out) && ParentsFirst(rows, out)
    requires forall r :: r in out <==> r in rows
    requires i <= |rows|
    ensures Begins(rows, out, i)
  {
    if i != 0 {
      ChainOrder(rows, out, i - 1);
      OneMoreBegins(rows, out, i - 1);
    }
  }

  lemma ExtraRepeats(rows: seq<Rid>, out: seq<Rid>)
    requires rows < out && forall r :: r in out ==> r in rows
    ensures !NoDuplicates(out)
  {
    assert out[|rows|] in rows;
    var i :| 0 <= i < |rows| && rows[i] == out[|rows|];
    assert out[i] == out[|rows|];
  }

  lemma ChainConeIsScope(rows: seq<Rid>, cone: seq<Rid>)
    requires rows != [] && NoDuplicates(rows) && IsChain(rows) && IsConeOf(rows, rows[|rows| - 1], cone)
    ensures cone == rows
  {
    forall r
      ensures r in cone <==> r in rows
    {
      if r in rows {
        var i :| 0 <= i < |rows| && rows[i] == r;
        ChainCone(rows, i, |rows| - 1);
      }
      if r in cone {
        ConeIsStored(rows, r, rows[|rows| - 1]);
      }
    }
    ChainOrder(rows, cone, |rows|);
    if rows < cone {
      ExtraRepeats(rows, cone);
    }
  }

  /**
   * With one emit at a time the scope is a chain, and the cone of its newest row is the whole scope in
   * insertion order.
   */
  lemma SerialScopeIsChain(es: seq<Event>, cone: seq<Rid>)
    requires ValidRun(1, EMPTY, es)
    ensures var rows := Run(1, EMPTY, es).rows;
            && IsChain(rows)
            && (rows != [] && IsConeOf(rows, rows[|rows| - 1], cone) ==> cone == rows)
  {
    SerialRun(EMPTY, es);
    var rows := Run(1, EMPTY, es).rows;
    if rows != [] && IsConeOf(rows, rows[|rows| - 1], cone) {
      ChainConeIsScope(rows, cone);
    }
  }

  /** Every insert of a serial run adds a row: no emit's rid is already taken. */
  lemma SerialInsertAdds(es: seq<Event>, id: nat, payload: string, kind: Kind)
    requires ValidRun(1, EMPTY, es) && Enabled(1, Run(1, EMPTY, es), InsertRow(id, payload, kind))
    ensures var s := Run(1, EMPTY, es);
            Apply(s, InsertRow(id, payload, kind)).rows == s.rows + [Rid(LastRow(s.rows), payload, kind)]
  {
    SerialRun(EMPTY, es);
    NextRowIsNew(Run(1, EMPTY, es).rows, payload, kind);
  }
}
