/**
 * Similarity of canonical texts: character shingles and their Jaccard index
 * (src/connectors/commentSpamSignals.ts).
 */
module CommentSimilarity {
  import opened Common
  import opened CommentText
  import opened CommentRotation

  const RING_SIM_THRESHOLD: real := 0.8
  const SHINGLE_LENGTH: nat := 3
  /** Shorter canonical texts are compared for equality instead. */
  const MIN_LENGTH: nat := 8

  /* ----- shingles ----- */

  /** The number of windows of length `n` in `s`. */
  function Windows(s: string, n: nat): nat {
    if |s| < n then 0 else |s| - n + 1
  }

  function Window(s: string, n: nat, i: nat): string
    requires i < Windows(s, n)
  {
    s[i..i + n]
  }

  /** The windows of `s`; a text shorter than a window is its own only shingle, unless it is empty. */
  function ShinglesOf(s: string, n: nat): set<string> {
    if |s| < n then (if s == "" then {} else {s}) else set i: nat | i < Windows(s, n) :: Window(s, n, i)
  }

  method Shingles(s: string, n: nat) returns (out: set<string>)
    ensures out == ShinglesOf(s, n)
    ensures |s| >= n ==> forall x :: x in out <==> exists i: nat :: i < Windows(s, n) && x == Window(s, n, i)
  {
    out := {};
    if |s| < n {
      if s != "" {
        out := out + {s};
      }
      return;
    }
    var i := 0;
    while i + n <= |s|
      invariant i <= Windows(s, n)
      invariant forall x :: x in out <==> exists j: nat :: j < i && x == Window(s, n, j)
    {
      assert s[i..i + n] == Window(s, n, i);
      out := out + {s[i..i + n]};
      i := i + 1;
    }
  }

  /* ----- the Jaccard index ----- */

  /** |A intersect B| / |A union B|, and 0 for two empty sets. */
  function JaccardOf<T>(a: set<T>, b: set<T>): real {
    if a + b == {} then 0.0 else |a * b| as real / |a + b| as real
  }

  method Jaccard<T(==)>(a: set<T>, b: set<T>) returns (r: real)
    ensures r == JaccardOf(a, b)
  {
    if |a| == 0 && |b| == 0 {
      return 0.0;
    }
    var inter := 0;
    var rest := a;
    while rest != {}
      invariant rest <= a
      invariant inter == |(a - rest) * b|
      decreases rest
    {
      var x :| x in rest;
      CommonNext(a, b, rest, x);
      if x in b {
        inter := inter + 1;
      }
      rest := rest - {x};
    }
    assert (a - {}) * b == a * b;
    var union := |a| + |b| - inter;
    assert |a + b| == |a| + |b| - |a * b|;
    NonEmptyUnion(a, b);
    return if union == 0 then 0.0 else inter as real / union as real;
  }

  lemma CommonNext<T>(a: set<T>, b: set<T>, rest: set<T>, x: T)
    requires x in rest && rest <= a
    ensures |(a - (rest - {x})) * b| == |(a - rest) * b| + if x in b then 1 else 0
  {
    assert (a - (rest - {x})) * b == (a - rest) * b + if x in b then {x} else {};
  }

  lemma NonEmptyUnion<T>(a: set<T>, b: set<T>)
    ensures a + b == {} <==> |a + b| == 0
    ensures a + b == {} <==> a == {} && b == {}
  {
    if a + b == {} {
      assert a <= a + b && b <= a + b;
    }
  }

  lemma RatioBounds(x: nat, y: nat)
    requires x <= y && y > 0
    ensures 0.0 <= x as real / y as real <= 1.0
    ensures x as real / y as real == 1.0 <==> x == y
  {
    var q := x as real / y as real;
    assert q * y as real == x as real;
    if x == y {
      Cancel(q, 1.0, y as real);
    }
  }

  /** The index is symmetric, lies in [0, 1], and is 1 for equal sets that are not empty, and only for them. */
  lemma JaccardBounds<T>(a: set<T>, b: set<T>)
    ensures JaccardOf(a, b) == JaccardOf(b, a)
    ensures 0.0 <= JaccardOf(a, b) <= 1.0
    ensures JaccardOf(a, b) == 1.0 <==> a == b && a != {}
  {
    assert a + b == b + a && a * b == b * a;
    NonEmptyUnion(a, b);
    if a + b != {} {
      assert |a + b| == |a * b| + |(a + b) - (a * b)| by {
        assert a + b == a * b + ((a + b) - (a * b));
      }
      RatioBounds(|a * b|, |a + b|);
      if |a * b| == |a + b| {
        assert (a + b) - (a * b) == {};
        assert a <= a * b && b <= a * b;
      }
    }
  }

  /** The distance, one minus the index, as a ratio. */
  lemma Distance<T>(a: set<T>, b: set<T>)
    requires a + b != {}
    ensures |a + b| > 0
    ensures 1.0 - JaccardOf(a, b) == |(a - b) + (b - a)| as real / |a + b| as real
  {
    NonEmptyUnion(a, b);
    var u, i, d := |a + b|, |a * b|, |(a - b) + (b - a)|;
    assert a + b == a * b + ((a - b) + (b - a));
    assert u == i + d;
    RatiosAdd(i, d, u);
  }

  lemma RatiosAdd(i: nat, d: nat, u: nat)
    requires u == i + d && u > 0
    ensures 1.0 - i as real / u as real == d as real / u as real
  {
    var p, q := i as real / u as real, d as real / u as real;
    assert p * u as real == i as real && q * u as real == d as real;
    assert i as real + d as real == u as real;
    assert (p + q) * u as real == p * u as real + q * u as real;
    Cancel(p + q, 1.0, u as real);
  }

  lemma Cancel(x: real, y: real, factor: real)
    requires x * factor == y * factor && factor > 0.0
    ensures x == y
  {
    assert (x - y) * factor == 0.0;
  }

  lemma CancelAtMost(x: real, y: real, factor: real)
    requires x * factor <= y * factor && factor > 0.0
    ensures x <= y
  {
    assert (y - x) * factor >= 0.0;
  }

  lemma RatioGrows(x: nat, y: nat, extra: nat)
    requires x <= y && y > 0
    ensures x as real / y as real <= (x + extra) as real / (y + extra) as real
  {
    var p, q := x as real / y as real, (x + extra) as real / (y + extra) as real;
    var yr, er := y as real, extra as real;
    assert p * yr == x as real && q * (yr + er) == x as real + er;
    RatioBounds(x, y);
    assert p * er <= er;
    assert (q - p) * (yr + er) >= 0.0;
  }

  lemma RatioShrinks(x: nat, y: nat, z: nat)
    requires 0 < y <= z
    ensures x as real / y as real >= x as real / z as real
  {
    var p, q := x as real / y as real, x as real / z as real;
    assert p * y as real == x as real && q * z as real == x as real;
    assert p >= 0.0;
    assert p * z as real >= p * y as real;
    assert (p - q) * z as real >= 0.0;
  }

  lemma RatiosCompare(x: nat, y: nat, z: nat, n: nat)
    requires n > 0 && x <= y + z
    ensures x as real / n as real <= y as real / n as real + z as real / n as real
  {
    var p, q, r := x as real / n as real, y as real / n as real, z as real / n as real;
    assert p * n as real == x as real && q * n as real == y as real && r * n as real == z as real;
    assert (q + r - p) * n as real >= 0.0;
  }

  /** The parts of three sets that the triangle inequality weighs against each other. */
  lemma SymmetricDifferences<T>(a: set<T>, b: set<T>, c: set<T>)
    ensures var all := a + b + c;
            && |all| == |a + c| + |b - a - c|
            && |(a - c) + (c - a)| + |b - a - c| <= |(a - b) + (b - a)| + |(b - c) + (c - b)|
  {
    var only := b - a - c;
    var ac, ab, bc := (a - c) + (c - a), (a - b) + (b - a), (b - c) + (c - b);
    assert a + b + c == (a + c) + only;
    assert |ac + only| == |ac| + |only|;
    SubsetCount(ac + only, ab + bc);
    assert |ab + bc| <= |ab| + |bc|;
  }

  /** The Jaccard distance obeys the triangle inequality, for all finite sets. */
  lemma TriangleInequality<T>(a: set<T>, b: set<T>, c: set<T>)
    ensures 1.0 - JaccardOf(a, c) <= (1.0 - JaccardOf(a, b)) + (1.0 - JaccardOf(b, c))
  {
    if a == {} || b == {} || c == {} {
      if a == {} || b == {} {
        EmptyIsFar(a, b);
      } else {
        EmptyIsFar(b, c);
      }
      JaccardBounds(a, c);
      JaccardBounds(a, b);
      JaccardBounds(b, c);
    } else {
      var x, ac := DistanceCounts(a, c);
      var y, ab := DistanceCounts(a, b);
      var z, bc := DistanceCounts(b, c);
      CountsCompare(a, b, c);
      TriangleOfCounts(x, y, z, |b - a - c|, ac, ab, bc);
    }
  }

  lemma DistanceCounts<T>(a: set<T>, b: set<T>) returns (apart: nat, all: nat)
    requires a != {}
    ensures apart == |(a - b) + (b - a)| && all == |a + b|
    ensures apart <= all && all > 0
    ensures 1.0 - JaccardOf(a, b) == apart as real / all as real
  {
    apart, all := |(a - b) + (b - a)|, |a + b|;
    assert a <= a + b;
    Distance(a, b);
    SubsetCount((a - b) + (b - a), a + b);
  }

  lemma CountsCompare<T>(a: set<T>, b: set<T>, c: set<T>)
    ensures |a + b| <= |a + c| + |b - a - c| && |b + c| <= |a + c| + |b - a - c|
    ensures |(a - c) + (c - a)| + |b - a - c| <= |(a - b) + (b - a)| + |(b - c) + (c - b)|
  {
    SymmetricDifferences(a, b, c);
    SubsetCount(a + b, a + b + c);
    SubsetCount(b + c, a + b + c);
  }

  lemma TriangleOfCounts(x: nat, y: nat, z: nat, extra: nat, ac: nat, ab: nat, bc: nat)
    requires x <= ac && ac > 0 && x + extra <= y + z
    requires 0 < ab <= ac + extra && 0 < bc <= ac + extra
    ensures x as real / ac as real <= y as real / ab as real + z as real / bc as real
  {
    RatioGrows(x, ac, extra);
    RatioShrinks(y, ab, ac + extra);
    RatioShrinks(z, bc, ac + extra);
    RatiosCompare(x + extra, y, z, ac + extra);
  }

  lemma EmptyIsFar<T>(a: set<T>, b: set<T>)
    requires a == {} || b == {}
    ensures JaccardOf(a, b) == 0.0
  {
    assert a * b == {};
    NonEmptyUnion(a, b);
  }

  /* ----- near duplicates ----- */

  function Similarity(a: string, b: string): real {
    JaccardOf(ShinglesOf(a, SHINGLE_LENGTH), ShinglesOf(b, SHINGLE_LENGTH))
  }

  predicate NearDuplicate(a: string, b: string, threshold: real) {
    var na, nb := NormalizeForDup(a), NormalizeForDup(b);
    if |na| < MIN_LENGTH || |nb| < MIN_LENGTH then na == nb && |na| > 0
    else Similarity(na, nb) >= threshold
  }

  lemma ShinglesOfLongText(s: string)
    requires |s| >= SHINGLE_LENGTH
    ensures ShinglesOf(s, SHINGLE_LENGTH) != {}
  {
    assert Window(s, SHINGLE_LENGTH, 0) in ShinglesOf(s, SHINGLE_LENGTH);
  }

  /** Texts with the same canonical text are near duplicates of each other exactly when it is not empty. */
  lemma SameTextIsNearDuplicate(a: string, b: string, threshold: real)
    requires threshold <= 1.0 && NormalizeForDup(a) == NormalizeForDup(b)
    ensures NearDuplicate(a, b, threshold) <==> NormalizeForDup(a) != ""
  {
    var na := NormalizeForDup(a);
    if |na| >= MIN_LENGTH {
      ShinglesOfLongText(na);
      JaccardBounds(ShinglesOf(na, SHINGLE_LENGTH), ShinglesOf(na, SHINGLE_LENGTH));
    }
  }

  lemma NearDuplicateSymmetric(a: string, b: string, threshold: real)
    ensures NearDuplicate(a, b, threshold) <==> NearDuplicate(b, a, threshold)
  {
    JaccardBounds(ShinglesOf(NormalizeForDup(a), SHINGLE_LENGTH), ShinglesOf(NormalizeForDup(b), SHINGLE_LENGTH));
  }

  /** A template posted with another link, handle, identifier or number is a near duplicate, if any text remains. */
  lemma RotatedIsNearDuplicate(u: string, t1: string, t2: string, v: string, threshold: real)
    requires IsVolatile(t1) && IsVolatile(t2) && EndsInSpace(u) && StartsWithSpace(v)
    requires threshold <= 1.0
    ensures NearDuplicate(u + t1 + v, u + t2 + v, threshold) <==> NormalizeForDup(u + t1 + v) != ""
  {
    RotatedVolatile(u, t1, t2, v);
    SameTextIsNearDuplicate(u + t1 + v, u + t2 + v, threshold);
  }

  /**
   * Two comments that a third is a near duplicate of are near duplicates themselves at
   * 2 * threshold - 1: at 0.6, for the ring's threshold.
   */
  lemma NearDuplicatesOfOne(a: string, b: string, c: string, threshold: real)
    requires NearDuplicate(b, a, threshold) && NearDuplicate(b, c, threshold)
    ensures NearDuplicate(a, c, 2.0 * threshold - 1.0)
    ensures threshold == RING_SIM_THRESHOLD ==> NearDuplicate(a, c, 0.6)
  {
    NearDuplicateSymmetric(a, b, threshold);
    TriangleInequality(
      ShinglesOf(NormalizeForDup(a), SHINGLE_LENGTH),
      ShinglesOf(NormalizeForDup(b), SHINGLE_LENGTH),
      ShinglesOf(NormalizeForDup(c), SHINGLE_LENGTH));
  }

  /* ----- where the comparison by shingles begins ----- */

  function Repeated(c: char, n: nat): (s: string)
    ensures |s| == n && forall i | 0 <= i < n :: s[i] == c
  {
    seq(n, i => c)
  }

  lemma RepeatedIsCanonical(c: char, n: nat)
    requires IsLower(c)
    ensures NormalizeForDup(Repeated(c, n)) == Repeated(c, n)
  {
    SkeletonStays(Repeated(c, n));
  }

  lemma RepeatedShingles(c: char, n: nat)
    requires n >= 3
    ensures ShinglesOf(Repeated(c, n), SHINGLE_LENGTH) == {[c, c, c]}
  {
    var s := Repeated(c, n);
    assert forall i: nat | i < Windows(s, SHINGLE_LENGTH) :: Window(s, SHINGLE_LENGTH, i) == [c, c, c];
    assert Window(s, SHINGLE_LENGTH, 0) in ShinglesOf(s, SHINGLE_LENGTH);
  }

  /**
   * Texts of one repeated letter have the same trigrams. They are near duplicates of each
   * other exactly from eight letters on, and below that of themselves only.
   */
  lemma EightLettersAreEnough(c: char, m: nat, n: nat)
    requires IsLower(c)
    ensures NearDuplicate(Repeated(c, m), Repeated(c, n), RING_SIM_THRESHOLD)
       <==> m > 0 && n > 0 && (m == n || (m >= 8 && n >= 8))
  {
    RepeatedIsCanonical(c, m);
    RepeatedIsCanonical(c, n);
    if m == n {
      assert Repeated(c, m) == Repeated(c, n);
    }
    if m >= 3 && n >= 3 {
      RepeatedShingles(c, m);
      RepeatedShingles(c, n);
      JaccardBounds({[c, c, c]}, {[c, c, c]});
    }
  }
}
