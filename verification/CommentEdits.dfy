/**
 * How many edits the near-duplicate test forgives (src/connectors/commentSpamSignals.ts).
 */
module CommentEdits {
  import opened Common
  import opened CommentText
  import opened CommentSimilarity

  /** Where two texts of equal length differ. */
  function Edits(s: string, t: string): set<nat>
    requires |s| == |t|
  {
    set i: nat | i < |s| && s[i] != t[i]
  }

  predicate IsChanged(s: string, t: string, n: nat, i: nat)
    requires |s| == |t| && i < Windows(s, n)
  {
    Window(s, n, i) != Window(t, n, i)
  }

  /** The shingles that the windows without an edit give to both texts. */
  function SharedShingles(s: string, t: string, n: nat): set<string>
    requires |s| == |t|
  {
    set i: nat | i < Windows(s, n) && !IsChanged(s, t, n, i) :: Window(s, n, i)
  }

  function ChangedWindows(s: string, t: string, n: nat): set<int>
    requires |s| == |t|
  {
    set i: nat | i < Windows(s, n) && IsChanged(s, t, n, i) :: i
  }

  function WindowsAt(s: string, n: nat, at: set<int>): set<string> {
    set i <- at | 0 <= i < Windows(s, n) :: Window(s, n, i)
  }

  lemma {:induction false} WindowsAtCount(s: string, n: nat, at: set<int>)
    ensures |WindowsAt(s, n, at)| <= |at|
  {
    if i: int :| i in at {
      var rest := at - {i};
      WindowsAtCount(s, n, rest);
      var own := if 0 <= i < Windows(s, n) then {Window(s, n, i)} else {};
      assert WindowsAt(s, n, at) == WindowsAt(s, n, rest) + own;
    } else {
      assert WindowsAt(s, n, at) == {};
    }
  }

  /** The windows of length `n` that contain position `d`. */
  function Span(d: int, n: nat): (r: set<int>)
    ensures |r| <= n
    ensures forall i :: i in r <==> d - n < i <= d
  {
    if n == 0 then {} else Span(d, n - 1) + {d - (n - 1)}
  }

  /** The windows of length `n` that contain one of the positions `at`. */
  ghost function Covering(at: set<nat>, n: nat): (r: set<int>)
    ensures forall d <- at, i: int | d - n < i <= d :: i in r
  {
    if at == {} then {}
    else
      var d :| d in at;
      var rest := Covering(at - {d}, n);
      assert forall e <- at :: e == d || e in at - {d};
      rest + Span(d, n)
  }

  lemma {:induction false} CoveringCount(at: set<nat>, n: nat)
    ensures |Covering(at, n)| <= |at| * n
  {
    if at != {} {
      var d: nat :| d in at && Covering(at, n) == Covering(at - {d}, n) + Span(d, n);
      CoveringCount(at - {d}, n);
      UnionCount(Covering(at - {d}, n), Span(d, n));
      OneMore(|at|, |at - {d}|, n);
    }
  }

  lemma UnionCount<T>(a: set<T>, b: set<T>)
    ensures |a + b| <= |a| + |b|
  {
  }

  lemma OneMore(k: nat, j: nat, n: nat)
    requires k == j + 1
    ensures k * n == j * n + n
  {
  }

  lemma ChangedIsCovered(s: string, t: string, n: nat)
    requires |s| == |t|
    ensures ChangedWindows(s, t, n) <= Covering(Edits(s, t), n)
  {
    forall i | i in ChangedWindows(s, t, n)
      ensures i in Covering(Edits(s, t), n)
    {
      var k :| 0 <= k < n && Window(s, n, i)[k] != Window(t, n, i)[k];
      var d: nat := i + k;
      assert d in Edits(s, t);
    }
  }

  lemma ChangedCount(s: string, t: string, n: nat)
    requires |s| == |t|
    ensures |ChangedWindows(s, t, n)| <= |Edits(s, t)| * n
  {
    ChangedIsCovered(s, t, n);
    CoveringCount(Edits(s, t), n);
    SubsetCount(ChangedWindows(s, t, n), Covering(Edits(s, t), n));
  }

  lemma ChangedShinglesCount(s: string, t: string, n: nat)
    requires |s| == |t|
    ensures |WindowsAt(s, n, ChangedWindows(s, t, n))| <= |Edits(s, t)| * n
    ensures |WindowsAt(t, n, ChangedWindows(s, t, n))| <= |Edits(s, t)| * n
  {
    WindowsAtCount(s, n, ChangedWindows(s, t, n));
    WindowsAtCount(t, n, ChangedWindows(s, t, n));
    ChangedCount(s, t, n);
  }

  lemma ShinglesSplit(s: string, t: string, n: nat)
    requires |s| == |t| >= n
    ensures ShinglesOf(s, n) == SharedShingles(s, t, n) + WindowsAt(s, n, ChangedWindows(s, t, n))
    ensures ShinglesOf(t, n) == SharedShingles(s, t, n) + WindowsAt(t, n, ChangedWindows(s, t, n))
  {
    var changed := ChangedWindows(s, t, n);
    forall w
      ensures w in ShinglesOf(s, n) <==> w in SharedShingles(s, t, n) || w in WindowsAt(s, n, changed)
    {
      if w in ShinglesOf(s, n) {
        var i: nat :| i < Windows(s, n) && w == Window(s, n, i);
        assert IsChanged(s, t, n, i) ==> i in changed;
      }
    }
    forall w
      ensures w in ShinglesOf(t, n) <==> w in SharedShingles(s, t, n) || w in WindowsAt(t, n, changed)
    {
      if w in ShinglesOf(t, n) {
        var i: nat :| i < Windows(t, n) && w == Window(t, n, i);
        assert IsChanged(s, t, n, i) ==> i in changed;
      }
    }
  }

  lemma RatioAtLeast(x: nat, u: nat, c: nat, m: nat)
    requires 0 < c <= x && 0 < u <= c + m
    ensures x as real / u as real >= c as real / (c + m) as real
  {
    RatioShrinks(x, u, c + m);
    var p, q := x as real / (c + m) as real, c as real / (c + m) as real;
    assert p * (c + m) as real == x as real && q * (c + m) as real == c as real;
    assert c as real <= x as real;
    assert q * (c + m) as real <= p * (c + m) as real;
    CancelAtMost(q, p, (c + m) as real);
  }

  /**
   * k substitutions leave two texts at least c / (c + 2 k n) similar, where c counts
   * the distinct shingles of the windows no substitution falls into.
   */
  lemma EditsCost(s: string, t: string, n: nat, k: nat)
    requires |s| == |t| >= n && |Edits(s, t)| == k
    ensures JaccardOf(ShinglesOf(s, n), ShinglesOf(t, n)) >= Share(|SharedShingles(s, t, n)|, 2 * (k * n))
  {
    ShinglesSplit(s, t, n);
    ChangedShinglesCount(s, t, n);
    SharedIndex(
      SharedShingles(s, t, n),
      ShinglesOf(s, n), WindowsAt(s, n, ChangedWindows(s, t, n)),
      ShinglesOf(t, n), WindowsAt(t, n, ChangedWindows(s, t, n)),
      k * n, k * n, 2 * (k * n));
  }

  /** c / (c + m), and 0 if c is 0. */
  function Share(c: nat, m: nat): real {
    if c == 0 then 0.0 else c as real / (c + m) as real
  }

  lemma SharedIndex(shared: set<string>, a: set<string>, x: set<string>, b: set<string>, y: set<string>,
                    k: nat, m: nat, both: nat)
    requires a == shared + x && b == shared + y && |x| <= k && |y| <= m && both == k + m
    ensures JaccardOf(a, b) >= Share(|shared|, both)
  {
    if shared == {} {
      JaccardBounds(a, b);
    } else {
      SharedCounts(shared, x, y);
      assert shared <= a + b;
      SubsetCount(shared, a + b);
      RatioAtLeast(|a * b|, |a + b|, |shared|, both);
    }
  }

  lemma SharedCounts<T>(shared: set<T>, x: set<T>, y: set<T>)
    ensures |shared| <= |(shared + x) * (shared + y)|
    ensures |(shared + x) + (shared + y)| <= |shared| + |x| + |y|
    ensures |shared + x| <= |shared| + |x|
  {
    SubsetCount(shared, (shared + x) * (shared + y));
    assert (shared + x) + (shared + y) == shared + (x + y);
    assert |shared + (x + y)| <= |shared| + |x + y| <= |shared| + |x| + |y|;
  }

  /**
   * Two canonical texts of equal length that differ in one character, one of which
   * has at least 27 distinct trigrams, pass the test at the ring's threshold.
   */
  lemma OneEditIsForgiven(a: string, b: string)
    requires var na, nb := NormalizeForDup(a), NormalizeForDup(b);
             && |na| == |nb| && |Edits(na, nb)| == 1
             && |ShinglesOf(na, SHINGLE_LENGTH)| >= 27
    ensures NearDuplicate(a, b, RING_SIM_THRESHOLD)
  {
    var na, nb := NormalizeForDup(a), NormalizeForDup(b);
    OneEdit(na, nb);
    EnoughShingles(na, 27);
  }

  lemma OneEdit(s: string, t: string)
    requires |s| == |t| && |Edits(s, t)| == 1 && |ShinglesOf(s, SHINGLE_LENGTH)| >= 27
    ensures Similarity(s, t) >= RING_SIM_THRESHOLD
  {
    var n := SHINGLE_LENGTH;
    EnoughShingles(s, 27);
    ShinglesSplit(s, t, n);
    ChangedCount(s, t, n);
    WindowsAtCount(s, n, ChangedWindows(s, t, n));
    var shared := SharedShingles(s, t, n);
    assert |ShinglesOf(s, n)| <= |shared| + |WindowsAt(s, n, ChangedWindows(s, t, n))|;
    assert |shared| >= 24;
    EditsCost(s, t, n, 1);
    ShareOfSix(|shared|);
  }

  lemma ShareOfSix(c: nat)
    requires c > 0
    ensures Share(c, 6) >= RING_SIM_THRESHOLD <==> c >= 24
  {
    assert (c + 6) as real == c as real + 6.0;
    FourFifths(c as real);
  }

  lemma FourFifths(c: real)
    requires c > 0.0
    ensures c / (c + 6.0) >= 0.8 <==> c >= 24.0
  {
    var q := c / (c + 6.0);
    assert q * (c + 6.0) == c;
    if c >= 24.0 {
      CancelAtMost(0.8, q, c + 6.0);
    }
    if q >= 0.8 {
      assert (q - 0.8) * (c + 6.0) >= 0.0;
    }
  }

  lemma EnoughShingles(s: string, m: nat)
    requires |ShinglesOf(s, SHINGLE_LENGTH)| >= m && m >= 2
    ensures |s| >= m + 2
  {
    if |s| >= SHINGLE_LENGTH {
      AllWindows(s);
      var m := Windows(s, SHINGLE_LENGTH);
      WindowsAtCount(s, SHINGLE_LENGTH, Span(m - 1, m));
    }
  }

  lemma AllWindows(s: string)
    requires |s| >= SHINGLE_LENGTH
    ensures var m := Windows(s, SHINGLE_LENGTH);
            ShinglesOf(s, SHINGLE_LENGTH) == WindowsAt(s, SHINGLE_LENGTH, Span(m - 1, m))
  {
  }

  /* ----- 27 trigrams are needed ----- */

  predicate AllDistinct(s: string) {
    forall i, j | 0 <= i < j < |s| :: s[i] != s[j]
  }

  lemma DistinctWindows(s: string, i: nat, j: nat)
    requires AllDistinct(s) && i < j < Windows(s, SHINGLE_LENGTH)
    ensures Window(s, SHINGLE_LENGTH, i) != Window(s, SHINGLE_LENGTH, j)
  {
    assert Window(s, SHINGLE_LENGTH, i)[0] == s[i] && Window(s, SHINGLE_LENGTH, j)[0] == s[j];
  }

  lemma {:induction false} DistinctShingles(s: string, m: nat)
    requires AllDistinct(s) && m <= Windows(s, SHINGLE_LENGTH)
    ensures |WindowsAt(s, SHINGLE_LENGTH, Span(m - 1, m))| == m
  {
    var n := SHINGLE_LENGTH;
    if m == 0 {
      assert WindowsAt(s, n, Span(-1, 0)) == {};
    } else {
      DistinctShingles(s, m - 1);
      NotAmongEarlier(s, m);
      NextWindow(s, n, m);
    }
  }

  lemma NotAmongEarlier(s: string, m: nat)
    requires AllDistinct(s) && 0 < m <= Windows(s, SHINGLE_LENGTH)
    ensures Window(s, SHINGLE_LENGTH, m - 1) !in WindowsAt(s, SHINGLE_LENGTH, Span(m - 2, m - 1))
  {
    forall i: int | i in Span(m - 2, m - 1) && 0 <= i < Windows(s, SHINGLE_LENGTH)
      ensures Window(s, SHINGLE_LENGTH, i) != Window(s, SHINGLE_LENGTH, m - 1)
    {
      DistinctWindows(s, i, m - 1);
    }
  }

  lemma NextWindow(s: string, n: nat, m: nat)
    requires 0 < m <= Windows(s, n)
    ensures WindowsAt(s, n, Span(m - 1, m)) == WindowsAt(s, n, Span(m - 2, m - 1)) + {Window(s, n, m - 1)}
  {
    var before, all := WindowsAt(s, n, Span(m - 2, m - 1)), WindowsAt(s, n, Span(m - 1, m));
    forall w
      ensures w in all <==> w in before || w == Window(s, n, m - 1)
    {
      if w in all {
        var i: int :| i in Span(m - 1, m) && w == Window(s, n, i);
        assert i == m - 1 || i in Span(m - 2, m - 1);
      }
      assert m - 1 in Span(m - 1, m);
    }
  }

  lemma DistinctShingleCount(s: string)
    requires AllDistinct(s) && |s| >= SHINGLE_LENGTH
    ensures |ShinglesOf(s, SHINGLE_LENGTH)| == |s| - 2
  {
    AllWindows(s);
    DistinctShingles(s, Windows(s, SHINGLE_LENGTH));
  }

  /**
   * For texts of pairwise distinct characters, replacing an inner character by a new
   * one is forgiven exactly when there are at least 27 trigrams.
   */
  lemma TwentySevenIsNeeded(s: string, p: nat, c: char)
    requires AllDistinct(s) && c !in s && 2 <= p < |s| - 2
    ensures var t := s[p := c];
            && |Edits(s, t)| == 1
            && (Similarity(s, t) >= RING_SIM_THRESHOLD <==> |ShinglesOf(s, SHINGLE_LENGTH)| >= 27)
  {
    var t := s[p := c];
    assert Edits(s, t) == {p};
    DistinctShingleCount(s);
    DistinctShingleCount(t);
    CommonShingles(s, p, c);
    ThreeApart(ShinglesOf(s, SHINGLE_LENGTH), ShinglesOf(t, SHINGLE_LENGTH), |s| - 2);
  }

  /** The index of two sets of `m` elements that have all but three in common. */
  lemma ThreeApart(a: set<string>, b: set<string>, m: nat)
    requires m >= 3 && |a| == |b| == m && |a * b| == m - 3
    ensures JaccardOf(a, b) >= RING_SIM_THRESHOLD <==> m >= 27
  {
    assert |a + b| == |a| + |b| - |a * b| == m + 3;
    NonEmptyUnion(a, b);
    if m > 3 {
      ShareOfSix(m - 3);
    }
  }

  lemma CommonShingles(s: string, p: nat, c: char)
    requires AllDistinct(s) && c !in s && 2 <= p < |s| - 2
    ensures |ShinglesOf(s, SHINGLE_LENGTH) * ShinglesOf(s[p := c], SHINGLE_LENGTH)|
         == |ShinglesOf(s, SHINGLE_LENGTH)| - 3
  {
    var n, t := SHINGLE_LENGTH, s[p := c];
    var a, b := ShinglesOf(s, n), ShinglesOf(t, n);
    var gone := {Window(s, n, p - 2), Window(s, n, p - 1), Window(s, n, p)};
    forall w | w in a
      ensures w in b <==> w !in gone
    {
      var i: nat :| i < Windows(s, n) && w == Window(s, n, i);
      WindowSurvives(s, p, c, i);
    }
    assert a * b == a - gone;
    ThreeWindows(s, p);
  }

  lemma ThreeWindows(s: string, p: nat)
    requires AllDistinct(s) && 2 <= p < |s| - 2
    ensures var n := SHINGLE_LENGTH;
            var gone := {Window(s, n, p - 2), Window(s, n, p - 1), Window(s, n, p)};
            |gone| == 3 && gone <= ShinglesOf(s, n)
  {
    DistinctWindows(s, p - 2, p - 1);
    DistinctWindows(s, p - 2, p);
    DistinctWindows(s, p - 1, p);
  }

  /** A window is a shingle of the edited text unless it is one of the three around the edit. */
  lemma WindowSurvives(s: string, p: nat, c: char, i: nat)
    requires AllDistinct(s) && c !in s && 2 <= p < |s| - 2 && i < Windows(s, SHINGLE_LENGTH)
    ensures var w := Window(s, SHINGLE_LENGTH, i);
            w in ShinglesOf(s[p := c], SHINGLE_LENGTH)
            <==> w !in {Window(s, SHINGLE_LENGTH, p - 2), Window(s, SHINGLE_LENGTH, p - 1), Window(s, SHINGLE_LENGTH, p)}
  {
    var n, t := SHINGLE_LENGTH, s[p := c];
    var w := Window(s, n, i);
    if p - 2 <= i <= p {
      assert w[p - i] == s[p];
      HasNo(t, s[p], w);
    } else {
      assert w == Window(t, n, i);
      forall j | p - 2 <= j <= p
        ensures w != Window(s, n, j)
      {
        DistinctWindows(s, if i < j then i else j, if i < j then j else i);
      }
    }
  }

  /** A window with a character that the text lacks is no shingle of it. */
  lemma HasNo(t: string, d: char, w: string)
    requires |t| >= SHINGLE_LENGTH && d !in t && d in w
    ensures w !in ShinglesOf(t, SHINGLE_LENGTH)
  {
    forall i: nat | i < Windows(t, SHINGLE_LENGTH)
      ensures d !in Window(t, SHINGLE_LENGTH, i)
    {
    }
  }

  /* ----- replacing, inserting and deleting a stretch of text ----- */

  function WindowSet(s: string, n: nat): set<string> {
    set i: nat | i < Windows(s, n) :: Window(s, n, i)
  }

  /** The windows that a text keeps whatever stands between `x` and `y`. */
  function KeptShingles(x: string, y: string, n: nat): set<string> {
    WindowSet(x, n) + WindowSet(y, n)
  }

  /** The first places of the windows of `x + a + y` that are neither in `x` nor in `y`. */
  function Across(x: string, a: string, n: nat): (r: set<int>)
    requires n > 0
    ensures |r| <= |a| + (n - 1)
    ensures forall i :: i in r <==> |x| - n < i < |x| + |a|
  {
    Span(|x| + |a| - 1, |a| + (n - 1))
  }

  lemma WindowInFront(x: string, a: string, y: string, n: nat, i: nat)
    requires i < Windows(x, n)
    ensures i < Windows(x + a + y, n) && Window(x + a + y, n, i) == Window(x, n, i)
  {
  }

  lemma WindowBehind(x: string, a: string, y: string, n: nat, i: nat)
    requires i < Windows(y, n)
    ensures |x| + |a| + i < Windows(x + a + y, n) && Window(x + a + y, n, |x| + |a| + i) == Window(y, n, i)
  {
    assert (x + a + y)[|x| + |a|..] == y;
  }

  lemma KeptAreShingles(x: string, a: string, y: string, n: nat)
    requires n > 0
    ensures KeptShingles(x, y, n) <= WindowSet(x + a + y, n)
  {
    forall w | w in WindowSet(x, n)
      ensures w in WindowSet(x + a + y, n)
    {
      var i: nat :| i < Windows(x, n) && w == Window(x, n, i);
      WindowInFront(x, a, y, n, i);
    }
    forall w | w in WindowSet(y, n)
      ensures w in WindowSet(x + a + y, n)
    {
      var i: nat :| i < Windows(y, n) && w == Window(y, n, i);
      WindowBehind(x, a, y, n, i);
      assert w == Window(x + a + y, n, |x| + |a| + i);
    }
  }

  lemma WindowsSplit(x: string, a: string, y: string, n: nat)
    requires n > 0
    ensures WindowSet(x + a + y, n) == KeptShingles(x, y, n) + WindowsAt(x + a + y, n, Across(x, a, n))
  {
    var s := x + a + y;
    KeptAreShingles(x, a, y, n);
    forall w | w in WindowSet(s, n)
      ensures w in KeptShingles(x, y, n) || w in WindowsAt(s, n, Across(x, a, n))
    {
      var i: nat :| i < Windows(s, n) && w == Window(s, n, i);
      if i < Windows(x, n) {
        WindowInFront(x, a, y, n, i);
      } else if |x| + |a| <= i {
        WindowBehind(x, a, y, n, i - (|x| + |a|));
      } else {
        assert i in Across(x, a, n);
      }
    }
  }

  lemma ShinglesAround(x: string, a: string, y: string, n: nat)
    requires n > 0 && KeptShingles(x, y, n) != {}
    ensures ShinglesOf(x + a + y, n) == KeptShingles(x, y, n) + WindowsAt(x + a + y, n, Across(x, a, n))
    ensures |WindowsAt(x + a + y, n, Across(x, a, n))| <= |a| + (n - 1)
  {
    assert |x + a + y| >= n by {
      var w :| w in KeptShingles(x, y, n);
    }
    WindowsSplit(x, a, y, n);
    WindowsAtCount(x + a + y, n, Across(x, a, n));
  }

  /**
   * Two texts that differ in one stretch only, `a` against `b`, of any lengths, are at
   * least c / (c + |a| + |b| + 2 (n - 1)) similar, where c counts the distinct shingles
   * of the text before and after the stretch.
   */
  lemma StretchCost(x: string, a: string, b: string, y: string, n: nat)
    requires n > 0
    ensures JaccardOf(ShinglesOf(x + a + y, n), ShinglesOf(x + b + y, n))
         >= Share(|KeptShingles(x, y, n)|, |a| + |b| + 2 * (n - 1))
  {
    var kept, total := KeptShingles(x, y, n), |a| + |b| + 2 * (n - 1);
    if kept == {} {
      JaccardBounds(ShinglesOf(x + a + y, n), ShinglesOf(x + b + y, n));
      assert Share(|kept|, total) == 0.0;
    } else {
      KeptCost(x, a, b, y, n, kept, x + a + y, x + b + y, total);
    }
  }

  lemma KeptCost(x: string, a: string, b: string, y: string, n: nat, kept: set<string>, s: string, t: string, total: nat)
    requires n > 0 && kept == KeptShingles(x, y, n) != {} && s == x + a + y && t == x + b + y
    requires total == |a| + |b| + 2 * (n - 1)
    ensures JaccardOf(ShinglesOf(s, n), ShinglesOf(t, n)) >= Share(|kept|, total)
  {
    ShinglesAround(x, a, y, n);
    ShinglesAround(x, b, y, n);
    SharedIndex(
      kept,
      ShinglesOf(s, n), WindowsAt(s, n, Across(x, a, n)),
      ShinglesOf(t, n), WindowsAt(t, n, Across(x, b, n)),
      |a| + (n - 1), |b| + (n - 1), total);
  }

  /**
   * Two canonical texts of which one has a character more somewhere pass the test at the
   * ring's threshold if the shorter has at least 22 distinct trigrams.
   */
  lemma OneInsertionIsForgiven(a: string, b: string, x: string, c: char, y: string)
    requires NormalizeForDup(a) == x + y && NormalizeForDup(b) == x + [c] + y
    requires |ShinglesOf(x + y, SHINGLE_LENGTH)| >= 22
    ensures NearDuplicate(a, b, RING_SIM_THRESHOLD) && NearDuplicate(b, a, RING_SIM_THRESHOLD)
  {
    OneInsertion(x, c, y);
    EnoughShingles(x + y, 22);
    NearDuplicateSymmetric(a, b, RING_SIM_THRESHOLD);
  }

  lemma OneInsertion(x: string, c: char, y: string)
    requires |ShinglesOf(x + y, SHINGLE_LENGTH)| >= 22
    ensures Similarity(x + y, x + [c] + y) >= RING_SIM_THRESHOLD
  {
    assert x + [] + y == x + y;
    EnoughKept(x, y, 20);
    var kept := KeptShingles(x, y, SHINGLE_LENGTH);
    KeptCost(x, [], [c], y, SHINGLE_LENGTH, kept, x + y, x + [c] + y, 5);
    ShareOfFive(|kept|);
  }

  /** At most two trigrams of a text reach across a place in it. */
  lemma EnoughKept(x: string, y: string, m: nat)
    requires |ShinglesOf(x + y, SHINGLE_LENGTH)| >= m + 2
    ensures |KeptShingles(x, y, SHINGLE_LENGTH)| >= m
  {
    var n := SHINGLE_LENGTH;
    assert x + [] + y == x + y;
    if |x + y| >= n {
      WindowsSplit(x, [], y, n);
      WindowsAtCount(x + y, n, Across(x, [], n));
      UnionCount(KeptShingles(x, y, n), WindowsAt(x + y, n, Across(x, [], n)));
    }
  }

  lemma ShareOfFive(c: nat)
    requires c > 0
    ensures Share(c, 5) >= RING_SIM_THRESHOLD <==> c >= 20
  {
    assert (c + 5) as real == c as real + 5.0;
    FourFifthsOfFive(c as real);
  }

  lemma FourFifthsOfFive(c: real)
    requires c > 0.0
    ensures c / (c + 5.0) >= 0.8 <==> c >= 20.0
  {
    var q := c / (c + 5.0);
    assert q * (c + 5.0) == c;
    if c >= 20.0 {
      CancelAtMost(0.8, q, c + 5.0);
    }
    if q >= 0.8 {
      assert (q - 0.8) * (c + 5.0) >= 0.0;
    }
  }

  /* ----- 22 trigrams are needed ----- */

  lemma DistinctSplit(x: string, c: char, y: string)
    requires AllDistinct(x + y) && c !in x + y
    ensures AllDistinct(x + [c] + y)
  {
    var s, t := x + y, x + [c] + y;
    forall i, j | 0 <= i < j < |t|
      ensures t[i] != t[j]
    {
      assert i != |x| ==> t[i] == s[if i < |x| then i else i - 1];
      assert j != |x| ==> t[j] == s[if j < |x| then j else j - 1];
    }
  }

  /** Which windows survive an insertion: all but the two across the place. */
  lemma WindowSurvivesInsertion(x: string, c: char, y: string, i: nat)
    requires AllDistinct(x + y) && c !in x + y && |x| >= 2 && |y| >= 2 && i < Windows(x + y, SHINGLE_LENGTH)
    ensures Window(x + y, SHINGLE_LENGTH, i) in WindowSet(x + [c] + y, SHINGLE_LENGTH) <==> i != |x| - 2 && i != |x| - 1
  {
    var n, s, t := SHINGLE_LENGTH, x + y, x + [c] + y;
    assert x + [] + y == s;
    if i + n <= |x| {
      WindowInFront(x, [], y, n, i);
      WindowInFront(x, [c], y, n, i);
    } else if i >= |x| {
      WindowBehind(x, [], y, n, i - |x|);
      WindowBehind(x, [c], y, n, i - |x|);
      assert Window(s, n, i) == Window(t, n, |x| + 1 + (i - |x|));
    } else if Window(s, n, i) in WindowSet(t, n) {
      var j: nat :| j < Windows(t, n) && Window(s, n, i) == Window(t, n, j);
      SeamWindowIsGone(x, c, y, i, j);
    }
  }

  lemma SeamWindowIsGone(x: string, c: char, y: string, i: nat, j: nat)
    requires AllDistinct(x + y) && c !in x + y && |x| >= 2 && |y| >= 2
    requires i < Windows(x + y, SHINGLE_LENGTH) && (i == |x| - 2 || i == |x| - 1)
    requires j < Windows(x + [c] + y, SHINGLE_LENGTH)
    ensures Window(x + y, SHINGLE_LENGTH, i) != Window(x + [c] + y, SHINGLE_LENGTH, j)
  {
    var s, t, k := x + y, x + [c] + y, |x| - 1 - i;
    var w, v := Window(s, SHINGLE_LENGTH, i), Window(t, SHINGLE_LENGTH, j);
    assert w[k] == s[|x| - 1] == t[|x| - 1] && w[k + 1] == s[|x|] == t[|x| + 1];
    assert v[k] == t[j + k] && v[k + 1] == t[j + k + 1];
    DistinctSplit(x, c, y);
    if j + k == |x| - 1 {
      assert v[k + 1] == c;
      assert s[|x|] in s;
    } else {
      assert t[j + k] != t[|x| - 1];
    }
  }

  /**
   * For texts of pairwise distinct characters, inserting a new one, not at an end or next
   * to it, is forgiven exactly when the shorter text has at least 22 trigrams.
   */
  lemma TwentyTwoAreNeeded(x: string, c: char, y: string)
    requires AllDistinct(x + y) && c !in x + y && |x| >= 2 && |y| >= 2
    ensures Similarity(x + y, x + [c] + y) >= RING_SIM_THRESHOLD <==> |ShinglesOf(x + y, SHINGLE_LENGTH)| >= 22
  {
    var s, t := x + y, x + [c] + y;
    DistinctSplit(x, c, y);
    DistinctShingleCount(s);
    DistinctShingleCount(t);
    CommonAfterInsertion(x, c, y);
    TwoAndThreeApart(ShinglesOf(s, SHINGLE_LENGTH), ShinglesOf(t, SHINGLE_LENGTH), |s| - 2);
  }

  lemma CommonAfterInsertion(x: string, c: char, y: string)
    requires AllDistinct(x + y) && c !in x + y && |x| >= 2 && |y| >= 2
    ensures |ShinglesOf(x + y, SHINGLE_LENGTH) * ShinglesOf(x + [c] + y, SHINGLE_LENGTH)|
         == |ShinglesOf(x + y, SHINGLE_LENGTH)| - 2
  {
    var n, s, t := SHINGLE_LENGTH, x + y, x + [c] + y;
    var a, b := ShinglesOf(s, n), ShinglesOf(t, n);
    var gone := {Window(s, n, |x| - 2), Window(s, n, |x| - 1)};
    DistinctWindows(s, |x| - 2, |x| - 1);
    forall w | w in a
      ensures w in b <==> w !in gone
    {
      var i: nat :| i < Windows(s, n) && w == Window(s, n, i);
      WindowSurvivesInsertion(x, c, y, i);
      if i != |x| - 2 && i != |x| - 1 {
        NotGone(s, i, |x|);
      }
    }
    assert a * b == a - gone;
    assert gone <= a;
  }

  lemma NotGone(s: string, i: nat, m: nat)
    requires AllDistinct(s) && 2 <= m && m - 1 < Windows(s, SHINGLE_LENGTH) && i < Windows(s, SHINGLE_LENGTH)
    requires i != m - 2 && i != m - 1
    ensures Window(s, SHINGLE_LENGTH, i) !in {Window(s, SHINGLE_LENGTH, m - 2), Window(s, SHINGLE_LENGTH, m - 1)}
  {
    if i < m - 2 {
      DistinctWindows(s, i, m - 2);
      DistinctWindows(s, i, m - 1);
    } else {
      DistinctWindows(s, m - 2, i);
      DistinctWindows(s, m - 1, i);
    }
  }

  /** The index of a set of `m` elements and one of `m + 1` that share all but two of the first. */
  lemma TwoAndThreeApart(a: set<string>, b: set<string>, m: nat)
    requires m >= 2 && |a| == m && |b| == m + 1 && |a * b| == m - 2
    ensures JaccardOf(a, b) >= RING_SIM_THRESHOLD <==> m >= 22
  {
    assert |a + b| == |a| + |b| - |a * b| == m + 3;
    NonEmptyUnion(a, b);
    if m > 2 {
      ShareOfFive(m - 2);
    }
  }
}
