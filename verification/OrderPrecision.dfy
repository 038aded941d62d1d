/**
 * How many moves the `decimal(50, 45)` column of the orders can take
 * (db/migrations/20230620155259_create_collection_article_table.js).
 *
 * Orders are computed in exact arithmetic here. Then every move may need one more
 * binary digit, and a binary digit costs one decimal digit, so 45 moves that change
 * something always fit and the 46th need not.
 */
module OrderPrecision {
  import opened Common
  import opened Ordering
  import opened CollectionTable

  predicate IsWhole(x: real) {
    x.Floor as real == x
  }

  /** `x` has at most `k` binary places: it is a multiple of 2^-k. */
  predicate IsDyadic(x: real, k: nat)
    decreases k
  {
    if k == 0 then IsWhole(x) else IsDyadic(2.0 * x, k - 1)
  }

  /** `x` has at most `k` decimal places. */
  predicate IsDecimal(x: real, k: nat)
    decreases k
  {
    if k == 0 then IsWhole(x) else IsDecimal(10.0 * x, k - 1)
  }

  /** 2^-k. */
  function Halves(k: nat): (h: real)
    ensures 0.0 < h <= 1.0
  {
    if k == 0 then 1.0 else Halves(k - 1) / 2.0
  }

  lemma WholeIs(x: real, n: int)
    requires x == n as real
    ensures IsWhole(x)
  {
  }

  lemma WholeSum(x: real, y: real)
    requires IsWhole(x) && IsWhole(y)
    ensures IsWhole(x + y) && IsWhole(x - y)
  {
    var m, n := x.Floor, y.Floor;
    WholeIs(x + y, m + n);
    WholeIs(x - y, m - n);
  }

  lemma {:induction false} DyadicSum(x: real, y: real, k: nat)
    requires IsDyadic(x, k) && IsDyadic(y, k)
    ensures IsDyadic(x + y, k) && IsDyadic(x - y, k)
    decreases k
  {
    if k == 0 {
      WholeSum(x, y);
    } else {
      DyadicSum(2.0 * x, 2.0 * y, k - 1);
      assert 2.0 * x + 2.0 * y == 2.0 * (x + y);
      assert 2.0 * x - 2.0 * y == 2.0 * (x - y);
    }
  }

  lemma {:induction false} DyadicStep(x: real, k: nat)
    requires IsDyadic(x, k)
    ensures IsDyadic(x, k + 1) && IsDyadic(x / 2.0, k + 1)
    decreases k
  {
    if k == 0 {
      WholeSum(x, x);
      assert IsDyadic(2.0 * x, 0);
      assert IsDyadic(2.0 * (x / 2.0), 0);
    } else {
      DyadicStep(2.0 * x, k - 1);
      assert 2.0 * (x / 2.0) == x;
    }
  }

  lemma {:induction false} WholeIsDyadic(x: real, k: nat)
    requires IsWhole(x)
    ensures IsDyadic(x, k)
  {
    if k > 0 {
      WholeIsDyadic(x, k - 1);
      DyadicStep(x, k - 1);
    }
  }

  /** A positive multiple of 2^-k is at least 2^-k. */
  lemma {:induction false} DyadicAtLeast(x: real, k: nat)
    requires IsDyadic(x, k) && x > 0.0
    ensures x >= Halves(k)
    decreases k
  {
    if k > 0 {
      DyadicAtLeast(2.0 * x, k - 1);
    }
  }

  lemma {:induction false} DyadicIsDecimal(x: real, k: nat, digits: nat)
    requires IsDyadic(x, k) && k <= digits
    ensures IsDecimal(x, digits)
    decreases digits
  {
    if k > 0 {
      var y := 2.0 * x;
      DyadicSum(y, y, k - 1);
      DyadicSum(2.0 * y, 2.0 * y, k - 1);
      DyadicSum(4.0 * y, y, k - 1);
      assert 4.0 * y + y == 10.0 * x;
      DyadicIsDecimal(10.0 * x, k - 1, digits - 1);
    } else if digits > 0 {
      WholeSum(x, x);
      WholeSum(2.0 * x, 2.0 * x);
      WholeSum(4.0 * x, x);
      WholeSum(5.0 * x, 5.0 * x);
      DyadicIsDecimal(10.0 * x, 0, digits - 1);
    }
  }

  /* ----- what moves cost ----- */

  predicate AllDyadic(list: seq<Placement>, k: nat) {
    forall i | 0 <= i < |list| :: IsDyadic(list[i].order, k)
  }

  predicate AllAtMost(list: seq<Placement>, bound: real) {
    forall i | 0 <= i < |list| :: list[i].order <= bound
  }

  /** The moves of a run that are not skipped because the article is there already. */
  ghost function EffectiveMoves(list: seq<Placement>, moves: seq<Move>): (k: nat)
    ensures k <= |moves|
  {
    if moves == [] then
      0
    else
      var last := |moves| - 1;
      var before := AllReordered(list, moves[..last]);
      EffectiveMoves(list, moves[..last])
      + CostOf(before, moves[last])
  }

  /** A move costs something unless the article is where it is to go. */
  function CostOf(list: seq<Placement>, move: Move): nat {
    if IndexOf(list, move.id) != move.newPosition then 1 else 0
  }

  lemma NewOrderCostsOneDigit(list: seq<Placement>, move: Move, k: nat, bound: real)
    requires IsPositive(list) && IsApplicable(list, move)
    requires IndexOf(list, move.id) != move.newPosition
    requires AllDyadic(list, k) && AllAtMost(list, bound)
    ensures IsDyadic(NewOrder(list, move), k + 1) && NewOrder(list, move) <= bound + 1.0
  {
    var n := move.newPosition;
    var others := RemoveAt(list, IndexOf(list, move.id));
    if n == 0 {
      WholeIsDyadic(1.0, k);
      DyadicSum(list[0].order, 1.0, k);
      DyadicStep(list[0].order + 1.0, k);
    } else if n == |list| - 1 {
      assert list[n].order > 0.0;
      DyadicStep(list[n].order, k);
    } else {
      DyadicSum(others[n].order, others[n - 1].order, k);
      DyadicStep(others[n].order + others[n - 1].order, k);
    }
  }

  lemma AllDyadicStep(list: seq<Placement>, k: nat)
    requires AllDyadic(list, k)
    ensures AllDyadic(list, k + 1)
  {
    forall i | 0 <= i < |list|
      ensures IsDyadic(list[i].order, k + 1)
    {
      DyadicStep(list[i].order, k);
    }
  }

  lemma ReplaceKeeps(list: seq<Placement>, i: nat, n: nat, p: Placement, k: nat, bound: real)
    requires AllDyadic(list, k) && AllAtMost(list, bound) && i < |list| && n < |list|
    requires IsDyadic(p.order, k) && p.order <= bound
    ensures AllDyadic(InsertAt(RemoveAt(list, i), n, p), k) && AllAtMost(InsertAt(RemoveAt(list, i), n, p), bound)
  {
    var others := RemoveAt(list, i);
    assert AllDyadic(others, k) && AllAtMost(others, bound);
  }

  /** A move that changes something needs at most one more binary digit and raises the maximum by at most one. */
  lemma MoveCostsOneDigit(list: seq<Placement>, move: Move, k: nat, bound: real)
    requires IsPositive(list) && IsApplicable(list, move)
    requires IndexOf(list, move.id) != move.newPosition
    requires AllDyadic(list, k) && AllAtMost(list, bound)
    ensures AllDyadic(Reordered(list, move), k + 1)
    ensures AllAtMost(Reordered(list, move), bound + 1.0)
  {
    NewOrderCostsOneDigit(list, move, k, bound);
    AllDyadicStep(list, k);
    var p := Placement(move.id, NewOrder(list, move));
    ReplaceKeeps(list, IndexOf(list, move.id), move.newPosition, p, k + 1, bound + 1.0);
  }

  lemma {:induction false} MovesCostDigits(list: seq<Placement>, moves: seq<Move>, digits: nat, bound: real)
    requires IsTidy(list) && AreValidMoves(Ids(list), moves)
    requires AllDyadic(list, digits) && AllAtMost(list, bound)
    ensures var k := EffectiveMoves(list, moves);
            && AllDyadic(AllReordered(list, moves), digits + k)
            && AllAtMost(AllReordered(list, moves), bound + k as real)
    decreases |moves|
  {
    if moves != [] {
      var last := |moves| - 1;
      var k := EffectiveMoves(list, moves[..last]);
      MovesCostDigits(list, moves[..last], digits, bound);
      LastMoveCosts(list, moves, digits + k, bound + k as real);
    }
  }

  lemma LastMoveCosts(list: seq<Placement>, moves: seq<Move>, digits: nat, bound: real)
    requires IsTidy(list) && AreValidMoves(Ids(list), moves) && moves != []
    requires var before := AllReordered(list, moves[..|moves| - 1]);
             AllDyadic(before, digits) && AllAtMost(before, bound)
    ensures var m := CostOf(AllReordered(list, moves[..|moves| - 1]), moves[|moves| - 1]);
            && AllDyadic(AllReordered(list, moves), digits + m)
            && AllAtMost(AllReordered(list, moves), bound + m as real)
  {
    LastMove(list, moves);
    AllReorderedIsTidy(list, moves[..|moves| - 1]);
    MoveCosts(AllReordered(list, moves[..|moves| - 1]), moves[|moves| - 1], AllReordered(list, moves), digits, bound);
  }

  lemma MoveCosts(list: seq<Placement>, move: Move, after: seq<Placement>, digits: nat, bound: real)
    requires IsPositive(list) && IsApplicable(list, move) && after == Reordered(list, move)
    requires AllDyadic(list, digits) && AllAtMost(list, bound)
    ensures AllDyadic(after, digits + CostOf(list, move))
    ensures AllAtMost(after, bound + CostOf(list, move) as real)
  {
    if IndexOf(list, move.id) != move.newPosition {
      MoveCostsOneDigit(list, move, digits, bound);
    }
  }

  /* ----- the column ----- */

  const FRACTION_DIGITS: nat := 45
  /** 50 digits in all leave 5 before the point. */
  const WHOLE_LIMIT: real := 100000.0

  /** The column stores `x` without rounding or overflow. */
  predicate FitsColumn(x: real) {
    IsDecimal(x, FRACTION_DIGITS) && -WHOLE_LIMIT < x < WHOLE_LIMIT
  }

  /**
   * From orders that are multiples of 2^-digits (whole ones, as adding articles makes
   * them, have no digits), k effective moves leave, in exact arithmetic, multiples of
   * 2^-(digits + k). So orders are at least that large and that far apart, the largest
   * has grown by at most k, and up to 45 digits the column holds them all.
   */
  lemma PrecisionBudget(list: seq<Placement>, moves: seq<Move>, digits: nat, bound: real)
    requires IsTidy(list) && AreValidMoves(Ids(list), moves)
    requires AllDyadic(list, digits) && AllAtMost(list, bound)
    ensures var k, after := EffectiveMoves(list, moves), AllReordered(list, moves);
            && AllDyadic(after, digits + k)
            && AllAtMost(after, bound + k as real)
            && (forall i | 0 <= i < |after| :: after[i].order >= Halves(digits + k))
            && (forall i, j | 0 <= i < j < |after| :: after[i].order - after[j].order >= Halves(digits + k))
            && (digits + k <= 45 && bound + (k as real) < 100000.0 ==>
                  forall i | 0 <= i < |after| :: FitsColumn(after[i].order))
  {
    MovesCostDigits(list, moves, digits, bound);
    AllReorderedIsTidy(list, moves);
    var k := digits + EffectiveMoves(list, moves);
    DyadicGaps(AllReordered(list, moves), k);
    if k <= FRACTION_DIGITS {
      DyadicFits(AllReordered(list, moves), k);
    }
  }

  lemma DyadicGaps(list: seq<Placement>, k: nat)
    requires IsDescending(list) && IsPositive(list) && AllDyadic(list, k)
    ensures forall i | 0 <= i < |list| :: list[i].order >= Halves(k)
    ensures forall i, j | 0 <= i < j < |list| :: list[i].order - list[j].order >= Halves(k)
  {
    forall i | 0 <= i < |list|
      ensures list[i].order >= Halves(k)
    {
      DyadicAtLeast(list[i].order, k);
    }
    forall i, j | 0 <= i < j < |list|
      ensures list[i].order - list[j].order >= Halves(k)
    {
      DyadicSum(list[i].order, list[j].order, k);
      DyadicAtLeast(list[i].order - list[j].order, k);
    }
  }

  lemma DyadicFits(list: seq<Placement>, k: nat)
    requires AllDyadic(list, k) && k <= FRACTION_DIGITS
    ensures forall i | 0 <= i < |list| :: IsDecimal(list[i].order, FRACTION_DIGITS)
  {
    forall i | 0 <= i < |list|
      ensures IsDecimal(list[i].order, FRACTION_DIGITS)
    {
      DyadicIsDecimal(list[i].order, k, FRACTION_DIGITS);
    }
  }

  /** Before the point the column has five digits. */
  lemma WholeOrdersFit(n: int)
    ensures FitsColumn(n as real) <==> -99999 <= n <= 99999
  {
    WholeIs(n as real, n);
    DyadicIsDecimal(n as real, 0, FRACTION_DIGITS);
  }

  /* ----- the budget cannot be raised ----- */

  /** Two articles, fresh from being added. */
  function Pair(a: Id, b: Id): seq<Placement> {
    [Placement(a, 2.0), Placement(b, 1.0)]
  }

  /** Sends the first of two articles to the back, `k` times. */
  function Rotations(a: Id, b: Id, k: nat): (moves: seq<Move>)
    ensures |moves| == k
  {
    if k == 0 then [] else Rotations(a, b, k - 1) + [Move(if k % 2 == 1 then a else b, 1)]
  }

  /** The two articles after `k` rotations. */
  function Rotated(a: Id, b: Id, k: nat): seq<Placement> {
    [Placement(if k % 2 == 0 then a else b, 2.0 * Halves(k)), Placement(if k % 2 == 0 then b else a, Halves(k))]
  }

  lemma RotatePair(front: Placement, back: Placement)
    requires front.id != back.id
    ensures IndexOf([front, back], front.id) == 0
    ensures Reordered([front, back], Move(front.id, 1)) == [back, Placement(front.id, back.order / 2.0)]
  {
  }

  lemma {:induction false} RotationsAreValid(a: Id, b: Id, k: nat)
    requires a != b
    ensures IsTidy(Pair(a, b)) && AreValidMoves(Ids(Pair(a, b)), Rotations(a, b, k))
  {
    var ids := Ids(Pair(a, b));
    assert ids[0] == a && ids[1] == b;
    if k > 0 {
      RotationsAreValid(a, b, k - 1);
    }
  }

  lemma {:induction false} RotationsHalve(a: Id, b: Id, k: nat)
    requires a != b
    ensures AllReordered(Pair(a, b), Rotations(a, b, k)) == Rotated(a, b, k)
    ensures EffectiveMoves(Pair(a, b), Rotations(a, b, k)) == k
  {
    if k > 0 {
      RotationsHalve(a, b, k - 1);
      assert Rotations(a, b, k)[..k - 1] == Rotations(a, b, k - 1);
      RotateOnce(a, b, k);
    }
  }

  lemma RotateOnce(a: Id, b: Id, k: nat)
    requires a != b && k > 0
    ensures var before, move := Rotated(a, b, k - 1), Rotations(a, b, k)[k - 1];
            && IsApplicable(before, move) && IndexOf(before, move.id) != move.newPosition
            && Reordered(before, move) == Rotated(a, b, k)
  {
    var before := Rotated(a, b, k - 1);
    RotatePair(before[0], before[1]);
  }

  /** An integer over 2^e. */
  function Over(n: int, e: nat): real {
    if e == 0 then n as real else Over(n, e - 1) / 2.0
  }

  lemma {:induction false} OverScales(n: int, e: nat)
    ensures Over(5 * n, e) == 5.0 * Over(n, e)
    ensures Over(1, e) == Halves(e)
  {
    if e > 0 {
      OverScales(n, e - 1);
    }
  }

  lemma {:induction false} OddOverIsNotWhole(n: int, e: nat)
    requires n % 2 == 1 && e > 0
    ensures !IsWhole(Over(n, e))
  {
    if IsWhole(Over(n, e)) {
      var whole := Over(n, e).Floor;
      WholeSum(Over(n, e), Over(n, e));
      assert Over(n, e - 1) == (2 * whole) as real;
      if e > 1 {
        OddOverIsNotWhole(n, e - 1);
      }
    }
  }

  lemma OverTimesTen(n: int, e: nat)
    requires n % 2 == 1 && e > 0
    ensures (5 * n) % 2 == 1
    ensures 10.0 * Over(n, e) == Over(5 * n, e - 1)
  {
    OverScales(n, e - 1);
  }

  lemma {:induction false} OddOverNeedsDigits(n: int, e: nat, digits: nat)
    requires n % 2 == 1 && e > digits
    ensures !IsDecimal(Over(n, e), digits)
    decreases digits
  {
    if digits == 0 {
      OddOverIsNotWhole(n, e);
    } else {
      OverTimesTen(n, e);
      OddOverNeedsDigits(5 * n, e - 1, digits - 1);
    }
  }

  /**
   * The budget of 45 is exact: for every k there is a run of k effective moves on
   * two freshly added articles that makes the order 2^-k, and the column holds
   * 2^-k exactly when k is at most 45.
   */
  lemma BudgetIsExact(a: Id, b: Id, k: nat)
    requires a != b
    ensures IsTidy(Pair(a, b)) && AreValidMoves(Ids(Pair(a, b)), Rotations(a, b, k))
    ensures EffectiveMoves(Pair(a, b), Rotations(a, b, k)) == k
    ensures var after := AllReordered(Pair(a, b), Rotations(a, b, k));
            && |after| == 2 && after[1].order == Halves(k)
            && (FitsColumn(after[1].order) <==> k <= 45)
  {
    RotationsAreValid(a, b, k);
    RotationsHalve(a, b, k);
    HalvesIsDyadic(k);
    if k <= FRACTION_DIGITS {
      DyadicIsDecimal(Halves(k), k, FRACTION_DIGITS);
    } else {
      OverScales(1, k);
      OddOverNeedsDigits(1, k, FRACTION_DIGITS);
    }
  }

  lemma {:induction false} HalvesIsDyadic(k: nat)
    ensures IsDyadic(Halves(k), k)
  {
    if k > 0 {
      HalvesIsDyadic(k - 1);
      DyadicStep(Halves(k - 1), k - 1);
    }
  }

  /* ----- from adding to moving ----- */

  lemma {:induction false} FreshListIsWhole(ids: seq<Id>)
    requires NoDuplicates(ids)
    ensures var list := OnTop(ids, 1.0, []);
            && |list| == |ids|
            && (forall i | 0 <= i < |list| :: list[i] == Placement(ids[|ids| - 1 - i], (|ids| - i) as real))
            && IsTidy(list) && AllDyadic(list, 0) && AllAtMost(list, |ids| as real)
  {
    if ids != [] {
      var last := |ids| - 1;
      FreshListIsWhole(ids[..last]);
      var list := OnTop(ids, 1.0, []);
      WholeIs(1.0 + last as real, 1 + last);
    }
  }

  /**
   * A collection filled in one go, of at most the 400 articles it may hold, takes
   * any 45 moves that change something without the column ever rounding.
   */
  lemma FreshCollectionTakes45Moves(ids: seq<Id>, moves: seq<Move>)
    requires NoDuplicates(ids) && |ids| <= 400
    requires AreValidMoves(Ids(OnTop(ids, 1.0, [])), moves)
    requires EffectiveMoves(OnTop(ids, 1.0, []), moves) <= 45
    ensures var after := AllReordered(OnTop(ids, 1.0, []), moves);
            forall i | 0 <= i < |after| :: FitsColumn(after[i].order)
  {
    FreshListIsWhole(ids);
    PrecisionBudget(OnTop(ids, 1.0, []), moves, 0, |ids| as real);
  }
}
