/**
 * Word-set overlap, the distance it induces, and the matcher that uses it
 * (src/contradictionPair.ts, src/factsToSemanticGraph.ts, src/resolutionService.ts).
 *
 * Both overlap functions of the program compute this on the word sets of their texts.
 */
module TextOverlap {
  import opened Options
  import opened Sets

  type Word = string

  /** Shared words over the larger set; nothing overlaps an empty set, not even itself. */
  function Overlap(a: set<Word>, b: set<Word>): real {
    if |a| == 0 || |b| == 0 then 0.0
    else |a * b| as real / MaxSize(a, b) as real
  }

  function MaxSize(a: set<Word>, b: set<Word>): nat {
    if |a| >= |b| then |a| else |b|
  }

  method ContentOverlap(a: set<Word>, b: set<Word>) returns (r: real)
    ensures r == Overlap(a, b)
  {
    if |a| == 0 || |b| == 0 {
      return 0.0;
    }
    var overlap := 0;
    var rest := a;
    while rest != {}
      invariant rest <= a
      invariant overlap == |(a - rest) * b|
      decreases rest
    {
      var w :| w in rest;
      assert (a - (rest - {w})) * b == (a - rest) * b + ({w} * b);
      if w in b {
        assert {w} * b == {w};
        overlap := overlap + 1;
      }
      rest := rest - {w};
    }
    assert (a - {}) * b == a * b;
    r := overlap as real / MaxSize(a, b) as real;
  }

  // ---------------------------------------------------------------------------------------------
  // 1 - overlap is a distance, except from a set to itself when it is empty
  // ---------------------------------------------------------------------------------------------

  /** Two parts of b share at least what they exceed b by. */
  lemma SharedThrough(a: set<Word>, b: set<Word>, c: set<Word>)
    ensures |a * b| + |b * c| <= |b| + |a * c|
    ensures |a * b| <= |a| && |a * b| <= |b| && |b * c| <= |c| && |b * c| <= |b|
  {
    var x, y := a * b, b * c;
    assert |x + y| + |x * y| == |x| + |y| by {
      assert x + y == x + (y - x) && y == (y - x) + x * y;
    }
    SubsetSize(x + y, b);
    SubsetSize(x * y, a * c);
    SubsetSize(x, a);
    SubsetSize(x, b);
    SubsetSize(y, c);
    SubsetSize(y, b);
  }

  lemma QuotientAtMost(x: real, d: real, e: real)
    requires 0.0 <= x && 0.0 < e <= d
    ensures x / d <= x / e
  {
    assert x == (x / d) * d == (x / e) * e;
    assert x / d >= 0.0;
    assert (x / d) * e <= (x / d) * d;
    CancelFactor(e, x / d, x / e);
  }

  lemma CancelFactor(a: real, s: real, t: real)
    requires 0.0 < a && a * s <= a * t
    ensures s <= t
  {
  }

  /** x/a + y/m is at most 1 + z/a when b and c fit below a; m stands for the larger of b and c. */
  lemma LargeOutside(x: real, y: real, z: real, a: real, b: real, m: real)
    requires 0.0 < b <= m <= a && 0.0 <= x && 0.0 <= y <= m && x + y <= b + z
    ensures x / a + y / m <= 1.0 + z / a
  {
    var q := y / m;
    assert y == q * m;
    assert 0.0 <= q <= 1.0 by {
      QuotientBounds(y, m);
    }
    // a * (x/a + q) == x + a*q, and a*q - y == (a - m) * q <= a - m <= a - b
    assert a * q - q * m == (a - m) * q;
    assert (a - m) * q <= a - m;
    assert x + a * q <= a + z;
    ScaleDown(x, q, z, a);
  }

  lemma QuotientBounds(y: real, m: real)
    requires 0.0 < m && 0.0 <= y <= m
    ensures 0.0 <= y / m <= 1.0
  {
    assert y == (y / m) * m;
    CancelFactor(m, y / m, 1.0);
  }

  lemma ScaleDown(x: real, q: real, z: real, a: real)
    requires 0.0 < a && x + a * q <= a + z
    ensures x / a + q <= 1.0 + z / a
  {
    var u, w := x / a, z / a;
    assert x == u * a && z == w * a;
    assert a * (u + q) == x + a * q && a * (1.0 + w) == a + z;
    CancelFactor(a, u + q, 1.0 + w);
  }

  lemma OverlapBounds(a: set<Word>, b: set<Word>)
    ensures 0.0 <= Overlap(a, b) <= 1.0
    ensures Overlap(a, b) == Overlap(b, a)
  {
    assert a * b == b * a;
    SubsetSize(a * b, a);
    SubsetSize(a * b, b);
    if |a| > 0 && |b| > 0 {
      QuotientBounds(|a * b| as real, MaxSize(a, b) as real);
    }
  }

  /** x/m + y/m is at most 1 + z/a when a fits below m. */
  lemma LargeInside(x: real, y: real, z: real, a: real, m: real)
    requires 0.0 < a <= m && 0.0 <= z && x + y <= m + z
    ensures x / m + y / m <= 1.0 + z / a
  {
    assert y == (y / m) * m;
    ScaleDown(x, y / m, z, m);
    QuotientAtMost(z, m, a);
  }

  /** The case in which the first set is at least as large as the last. */
  lemma OverlapComposesOrdered(a: set<Word>, b: set<Word>, c: set<Word>)
    requires |a| >= |c| > 0 && |b| > 0
    ensures Overlap(a, b) + Overlap(b, c) <= 1.0 + Overlap(a, c)
  {
    SharedThrough(a, b, c);
    var x, y, z := |a * b| as real, |b * c| as real, |a * c| as real;
    if |b| >= |a| {
      LargeInside(x, y, z, |a| as real, |b| as real);
    } else {
      LargeOutside(x, y, z, |a| as real, |b| as real, MaxSize(b, c) as real);
    }
  }

  /** Two overlaps through a common set leave an overlap: the triangle inequality of 1 - overlap, for all sets. */
  lemma OverlapTriangle(a: set<Word>, b: set<Word>, c: set<Word>)
    ensures (1.0 - Overlap(a, c)) <= (1.0 - Overlap(a, b)) + (1.0 - Overlap(b, c))
  {
    OverlapBounds(a, b);
    OverlapBounds(b, c);
    OverlapBounds(a, c);
    if |a| > 0 && |b| > 0 && |c| > 0 {
      if |a| >= |c| {
        OverlapComposesOrdered(a, b, c);
      } else {
        OverlapBounds(c, b);
        OverlapComposesOrdered(c, b, a);
      }
    }
  }

  /** Full overlap means identical word sets, except that texts without significant words never overlap. */
  lemma FullOverlapExactly(a: set<Word>, b: set<Word>)
    ensures Overlap(a, b) == 1.0 <==> a == b && a != {}
  {
    SubsetSize(a * b, a);
    SubsetSize(a * b, b);
    if a == b && a != {} {
      assert a * b == a;
      assert |a| > 0;
      WholeQuotient(|a * b|, |a|);
    } else if |a| > 0 && |b| > 0 {
      WholeQuotient(|a * b|, MaxSize(a, b));
      if |a * b| == MaxSize(a, b) {
        SameSizeSubset(a * b, a);
        SameSizeSubset(a * b, b);
      }
    }
  }

  lemma WholeQuotient(x: nat, d: nat)
    requires d > 0
    ensures x as real / d as real == 1.0 <==> x == d
  {
    assert x as real == (x as real / d as real) * d as real;
  }

  /** CASCADE_OVERLAP_THRESHOLD */
  const CASCADE: real := 0.55

  /** Two contradictions resolved as near-duplicates of one primary still share a tenth of their words. */
  lemma CascadedAreRelated(primary: set<Word>, b: set<Word>, c: set<Word>)
    requires Overlap(primary, b) >= CASCADE && Overlap(primary, c) >= CASCADE
    ensures Overlap(b, c) >= 0.10
  {
    OverlapBounds(b, primary);
    OverlapTriangle(b, primary, c);
  }

  // ---------------------------------------------------------------------------------------------
  // The matcher
  // ---------------------------------------------------------------------------------------------

  /** Equal, or one text begins with the other. */
  predicate PrefixMatch(content: string, text: string) {
    text <= content || content <= text
  }

  /** No candidate is a prefix match. */
  predicate NoPrefixMatch(contents: seq<string>, text: string) {
    forall i :: 0 <= i < |contents| ==> !PrefixMatch(contents[i], text)
  }

  /**
   * matchExistingNode: the oldest prefix match; without one, the oldest of the best-scoring
   * candidates, provided its score reaches 0.6.
   */
  method MatchExistingNode(contents: seq<string>, text: string, score: (string, string) -> real)
    returns (r: Option<nat>)
    ensures r.Some? ==> r.value < |contents|
    ensures !NoPrefixMatch(contents, text) ==>
              && r.Some? && PrefixMatch(contents[r.value], text)
              && forall j :: 0 <= j < r.value ==> !PrefixMatch(contents[j], text)
    ensures NoPrefixMatch(contents, text) && r.Some? ==>
              && score(contents[r.value], text) >= 0.6
              && (forall j :: 0 <= j < |contents| ==> score(contents[j], text) <= score(contents[r.value], text))
              && (forall j :: 0 <= j < r.value ==> score(contents[j], text) < score(contents[r.value], text))
    ensures r.None? ==> forall j :: 0 <= j < |contents| ==> score(contents[j], text) < 0.6
  {
    for i := 0 to |contents|
      invariant forall j :: 0 <= j < i ==> !PrefixMatch(contents[j], text)
    {
      if PrefixMatch(contents[i], text) {
        return Some(i);
      }
    }
    var best := 0.0;
    r := None;
    for i := 0 to |contents|
      invariant best >= 0.0 && forall j :: 0 <= j < i ==> score(contents[j], text) <= best
      invariant r.None? ==> best == 0.0
      invariant r.Some? ==> r.value < i && score(contents[r.value], text) == best
      invariant r.Some? ==> forall j :: 0 <= j < r.value ==> score(contents[j], text) < best
    {
      var s := score(contents[i], text);
      if s > best {
        best, r := s, Some(i);
      }
    }
    if best < 0.6 {
      r := None;
    }
  }
}
