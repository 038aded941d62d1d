/**
 * What holds after any run of additions, removals and reorderings in collections
 * (src/connectors/collectionService.ts) while no article changes state.
 */
module CollectionRuns {
  import opened Common
  import opened Ordering
  import opened OrderPrecision
  import opened CollectionTable

  /* ----- runs ----- */

  datatype Operation =
    | Add(collection: Id, ids: seq<Id>, user: Id)
    | Remove(collection: Id, ids: seq<Id>)
    | Reorder(collection: Id, moves: seq<Move>)

  /** The order the first added article gets: one above the maximum of the collection, or 1. */
  ghost predicate IsInitOrder(rows: Rows, collection: Id, first: real) {
    && (forall s <- rows | s.collection == collection :: rows[s] + 1.0 <= first)
    && if exists s <- rows :: s.collection == collection
       then exists s <- rows | s.collection == collection :: rows[s] + 1.0 == first
       else first == 1.0
  }

  /** What one operation makes of the rows. */
  ghost predicate Yields(collections: map<Id, Id>, articles: Articles, rows: Rows, op: Operation, rows': Rows) {
    match op
    case Add(c, ids, user) =>
      (match Validated(collections, rows, articles, c, ids, user)
       case Err(_) => rows' == rows
       case Ok(accepted) =>
         if accepted == [] || HasKeyConflict(rows, c, accepted) then rows' == rows
         else exists first :: IsInitOrder(rows, c, first) && rows' == Inserted(rows, c, accepted, first))
    case Remove(c, ids) =>
      rows' == Removed(rows, c, ids)
    case Reorder(c, moves) =>
      exists before ::
        && IsListing(rows, articles, c, before)
        && if AreValidMoves(Ids(before), moves) then IsRewrite(rows, rows', c, AllReordered(before, moves))
           else rows' == rows
  }

  lemma YieldsTidy(collections: map<Id, Id>, articles: Articles, rows: Rows, op: Operation, rows': Rows)
    requires Yields(collections, articles, rows, op, rows') && IsTidyTable(rows, articles)
    ensures IsTidyTable(rows', articles)
  {
    match op
    case Add(c, ids, user) =>
      if rows' != rows {
        var accepted := Validated(collections, rows, articles, c, ids, user).value;
        var first :| IsInitOrder(rows, c, first) && rows' == Inserted(rows, c, accepted, first);
        InitOrderIsAboveAll(rows, articles, c, first);
        AddKeepsTidy(rows, articles, c, accepted, first);
      }
    case Remove(_, _) =>
    case Reorder(c, moves) =>
      var before :| && IsListing(rows, articles, c, before)
                    && if AreValidMoves(Ids(before), moves) then IsRewrite(rows, rows', c, AllReordered(before, moves))
                       else rows' == rows;
      if AreValidMoves(Ids(before), moves) {
        ReorderAgrees(rows, rows', articles, c, before, moves);
      }
  }

  lemma InitOrderIsAboveAll(rows: Rows, articles: Articles, collection: Id, first: real)
    requires IsTidyTable(rows, articles) && IsInitOrder(rows, collection, first)
    ensures IsAboveAll(rows, collection, first)
  {
  }

  /** What a reordering that went through has done. */
  lemma ReorderDone(collections: map<Id, Id>, articles: Articles, rows: Rows, rows': Rows,
                    collection: Id, before: seq<Placement>, moves: seq<Move>)
    requires IsListing(rows, articles, collection, before) && AreValidMoves(Ids(before), moves)
    requires IsRewrite(rows, rows', collection, AllReordered(before, moves))
    ensures Yields(collections, articles, rows, Reorder(collection, moves), rows')
    ensures Ids(AllReordered(before, moves)) == AllMoved(Ids(before), moves)
    ensures IsTidyTable(rows, articles) ==>
              IsTidyTable(rows', articles) && IsListing(rows', articles, collection, AllReordered(before, moves))
  {
    AllReorderedIds(before, moves);
    if IsTidyTable(rows, articles) {
      ReorderAgrees(rows, rows', articles, collection, before, moves);
    }
  }

  /** `states` are the rows before, between and after the operations. */
  ghost predicate IsHistory(collections: map<Id, Id>, articles: Articles, ops: seq<Operation>, states: seq<Rows>) {
    && |states| == |ops| + 1
    && forall k {:trigger ops[k]} | 0 <= k < |ops| :: Yields(collections, articles, states[k], ops[k], states[k + 1])
  }

  /**
   * Over any run of additions, removals and reorderings, in any collections, orders
   * stay positive and the active articles of a collection keep distinct ones.
   */
  lemma {:induction false} TidyForever(collections: map<Id, Id>, articles: Articles,
                                       ops: seq<Operation>, states: seq<Rows>, k: nat)
    requires IsHistory(collections, articles, ops, states) && IsTidyTable(states[0], articles)
    requires k < |states|
    ensures IsTidyTable(states[k], articles)
  {
    if k > 0 {
      TidyForever(collections, articles, ops, states, k - 1);
      YieldsTidy(collections, articles, states[k - 1], ops[k - 1], states[k]);
    }
  }

  /* ----- when all rows keep different orders ----- */

  ghost predicate AllApart(rows: Rows) {
    forall collection :: IsApart(rows, collection)
  }

  /** The reordering leaves some listed article at the order of a row that does not show. */
  ghost predicate Ties(rows: Rows, articles: Articles, op: Operation) {
    && op.Reorder?
    && exists before :: IsListing(rows, articles, op.collection, before) && TiesWith(rows, op.collection, before, op.moves)
  }

  ghost predicate TiesWith(rows: Rows, collection: Id, before: seq<Placement>, moves: seq<Move>) {
    && AreValidMoves(Ids(before), moves)
    && var after := AllReordered(before, moves);
       exists s <- Hidden(rows, collection, before), i :: 0 <= i < |after| && rows[s] == after[i].order
  }

  lemma YieldsApart(collections: map<Id, Id>, articles: Articles, rows: Rows, op: Operation, rows': Rows)
    requires Yields(collections, articles, rows, op, rows') && IsTidyTable(rows, articles) && AllApart(rows)
    ensures AllApart(rows') <==> !Ties(rows, articles, op)
  {
    match op
    case Add(c, ids, user) =>
      if rows' != rows {
        var accepted := Validated(collections, rows, articles, c, ids, user).value;
        var first :| IsInitOrder(rows, c, first) && rows' == Inserted(rows, c, accepted, first);
        InitOrderIsAboveAll(rows, articles, c, first);
        forall d
          ensures IsApart(rows', d)
        {
          AddKeepsApart(rows, c, accepted, first, d);
        }
      }
    case Remove(_, _) =>
      forall d
        ensures IsApart(rows', d)
      {
        assert IsApart(rows, d);
      }
    case Reorder(c, moves) =>
      var before :| && IsListing(rows, articles, c, before)
                    && if AreValidMoves(Ids(before), moves) then IsRewrite(rows, rows', c, AllReordered(before, moves))
                       else rows' == rows;
      OneListing(rows, articles, op, before);
      if AreValidMoves(Ids(before), moves) {
        ReorderApart(rows, rows', articles, c, before, moves);
      }
  }

  /** In a tidy table a reordering ties if it does so with the one listing. */
  lemma OneListing(rows: Rows, articles: Articles, op: Operation, before: seq<Placement>)
    requires IsTidyTable(rows, articles) && op.Reorder? && IsListing(rows, articles, op.collection, before)
    ensures Ties(rows, articles, op) <==> TiesWith(rows, op.collection, before, op.moves)
  {
    if Ties(rows, articles, op) {
      var other :| IsListing(rows, articles, op.collection, other) && TiesWith(rows, op.collection, other, op.moves);
      ListingOfTidyTable(rows, articles, op.collection, before);
      ListingOfTidyTable(rows, articles, op.collection, other);
      ListingIsUnique(rows, articles, op.collection, before, other);
    }
  }

  lemma ReorderApart(rows: Rows, rows': Rows, articles: Articles, collection: Id,
                     before: seq<Placement>, moves: seq<Move>)
    requires IsTidyTable(rows, articles) && AllApart(rows)
    requires IsListing(rows, articles, collection, before) && AreValidMoves(Ids(before), moves)
    requires IsRewrite(rows, rows', collection, AllReordered(before, moves))
    ensures AllApart(rows') <==> !TiesWith(rows, collection, before, moves)
  {
    ListingOfTidyTable(rows, articles, collection, before);
    AllReorderedIds(before, moves);
    AllReorderedIsTidy(before, moves);
    AllMovedKeepsArticles(Ids(before), moves);
    assert IsApart(rows, collection);
    RewriteApart(rows, rows', articles, collection, before, AllReordered(before, moves));
    forall d | d != collection
      ensures IsApart(rows', d)
    {
      assert IsApart(rows, d);
    }
  }

  /**
   * Over any run, all rows of every collection keep different orders, whether they
   * show or not, exactly when no reordering ends at the order of a row that does not.
   */
  lemma ApartForever(collections: map<Id, Id>, articles: Articles, ops: seq<Operation>, states: seq<Rows>, n: nat)
    requires IsHistory(collections, articles, ops, states) && n < |states|
    requires IsTidyTable(states[0], articles) && AllApart(states[0])
    ensures (forall k | 0 <= k <= n :: AllApart(states[k])) <==> forall k | 0 <= k < n :: !Ties(states[k], articles, ops[k])
  {
    if forall k | 0 <= k <= n :: AllApart(states[k]) {
      forall k | 0 <= k < n
        ensures !Ties(states[k], articles, ops[k])
      {
        assert AllApart(states[k]) && AllApart(states[k + 1]);
        ApartStep(collections, articles, ops, states, k);
      }
    }
    if forall k | 0 <= k < n :: !Ties(states[k], articles, ops[k]) {
      forall k | 0 <= k <= n
        ensures AllApart(states[k])
      {
        ApartWithoutTies(collections, articles, ops, states, k);
      }
    }
  }

  lemma {:induction false} ApartWithoutTies(collections: map<Id, Id>, articles: Articles,
                                            ops: seq<Operation>, states: seq<Rows>, n: nat)
    requires IsHistory(collections, articles, ops, states) && n < |states|
    requires IsTidyTable(states[0], articles) && AllApart(states[0])
    requires forall k | 0 <= k < n :: !Ties(states[k], articles, ops[k])
    ensures AllApart(states[n])
  {
    if n > 0 {
      ApartWithoutTies(collections, articles, ops, states, n - 1);
      ApartStep(collections, articles, ops, states, n - 1);
    }
  }

  lemma ApartStep(collections: map<Id, Id>, articles: Articles, ops: seq<Operation>, states: seq<Rows>, k: nat)
    requires IsHistory(collections, articles, ops, states) && k < |ops|
    requires IsTidyTable(states[0], articles) && AllApart(states[k])
    ensures AllApart(states[k + 1]) <==> !Ties(states[k], articles, ops[k])
  {
    TidyForever(collections, articles, ops, states, k);
    YieldsApart(collections, articles, states[k], ops[k], states[k + 1]);
  }

  /* ----- every branch of a move can tie ----- */

  /** Three articles that show and three that do not. */
  function TieArticles(): Articles {
    map[10 := Article(1, Active), 11 := Article(1, Active), 12 := Article(1, Active),
        13 := Article(1, Archived), 14 := Article(1, Archived), 15 := Article(1, Archived)]
  }

  function TieRows(): Rows {
    map[Slot(1, 10) := 3.0, Slot(1, 11) := 1.0, Slot(1, 12) := 0.5,
        Slot(1, 13) := 4.0, Slot(1, 14) := 2.0, Slot(1, 15) := 0.25]
  }

  function TieList(): seq<Placement> {
    [Placement(10, 3.0), Placement(11, 1.0), Placement(12, 0.5)]
  }

  /** To the front, between the first two, and to the back. */
  function TieMoves(): seq<Move> {
    [Move(12, 0), Move(12, 1), Move(10, 2)]
  }

  lemma TieListing()
    ensures IsListing(TieRows(), TieArticles(), 1, TieList())
  {
    assert Ids(TieList()) == [10, 11, 12];
    forall id
      ensures id in Ids(TieList()) <==> id in ShownIds(TieRows(), TieArticles(), 1)
    {
      ShownWhen(TieRows(), TieArticles(), 1, id);
    }
  }

  lemma TieTidiness()
    ensures IsApart(TieRows(), 1) && IsTidyTable(TieRows(), TieArticles())
  {
  }

  lemma TieOrders()
    ensures IndexOf(TieList(), 12) == 2 && IndexOf(TieList(), 10) == 0
    ensures NewOrder(TieList(), TieMoves()[0]) == TieRows()[Slot(1, 13)]
    ensures NewOrder(TieList(), TieMoves()[1]) == TieRows()[Slot(1, 14)]
    ensures NewOrder(TieList(), TieMoves()[2]) == TieRows()[Slot(1, 15)]
  {
    assert RemoveAt(TieList(), 2) == [Placement(10, 3.0), Placement(11, 1.0)];
  }

  /** A move that writes the order of a row that does not show leaves a table that is tidy only as it shows. */
  lemma MoveTies(rows: Rows, articles: Articles, collection: Id, list: seq<Placement>, move: Move, hidden: Slot)
    requires IsTidyTable(rows, articles) && IsApart(rows, collection) && IsListing(rows, articles, collection, list)
    requires IsApplicable(list, move) && IndexOf(list, move.id) != move.newPosition
    requires hidden in Hidden(rows, collection, list) && rows[hidden] == NewOrder(list, move)
    ensures var rows' := rows[Slot(collection, move.id) := NewOrder(list, move)];
            && IsTidyTable(rows', articles) && !IsApart(rows', collection)
            && exists articles' :: !IsTidyTable(rows', articles')
  {
    ListingOfTidyTable(rows, articles, collection, list);
    MoveApart(rows, articles, collection, list, move);
    MoveKeepsTidy(rows, articles, collection, list, move);
    TidyWhateverShows(rows[Slot(collection, move.id) := NewOrder(list, move)]);
  }

  /**
   * A table of rows that are all apart on which a move to the front, to the middle or
   * to the back ties with a row that does not show.
   */
  lemma EveryBranchMayTie(k: nat)
    requires k < |TieMoves()|
    ensures IsTidyTable(TieRows(), TieArticles()) && IsListing(TieRows(), TieArticles(), 1, TieList()) && IsApart(TieRows(), 1)
    ensures var move := TieMoves()[k];
            && IsApplicable(TieList(), move) && IndexOf(TieList(), move.id) != move.newPosition
            && var rows' := TieRows()[Slot(1, move.id) := NewOrder(TieList(), move)];
               && IsTidyTable(rows', TieArticles()) && !IsApart(rows', 1)
               && exists articles :: !IsTidyTable(rows', articles)
  {
    TieListing();
    TieTidiness();
    TieOrders();
    TieHidden(k);
    MoveTies(TieRows(), TieArticles(), 1, TieList(), TieMoves()[k], Slot(1, 13 + k));
  }

  lemma TieHidden(k: nat)
    requires k < |TieMoves()|
    ensures Slot(1, 13 + k) in Hidden(TieRows(), 1, TieList())
  {
    assert Ids(TieList()) == [10, 11, 12];
  }

  lemma MoveKeepsTidy(rows: Rows, articles: Articles, collection: Id, list: seq<Placement>, move: Move)
    requires IsTidyTable(rows, articles) && IsListing(rows, articles, collection, list)
    requires IsApplicable(list, move) && IndexOf(list, move.id) != move.newPosition
    ensures IsTidyTable(rows[Slot(collection, move.id) := NewOrder(list, move)], articles)
  {
    ListingOfTidyTable(rows, articles, collection, list);
    ListingIsRewrite(rows, articles, collection, list);
    RewriteStep(rows, rows, collection, list, move);
    ReorderedIsTidy(list, move);
    ReorderedKeepsArticles(list, move);
    RewriteIsListing(rows, rows[Slot(collection, move.id) := NewOrder(list, move)], articles, collection,
                     list, Reordered(list, move));
  }

  /* ----- how many digits a run needs ----- */

  ghost predicate RowsDyadic(rows: Rows, collection: Id, k: nat) {
    forall s <- rows | s.collection == collection :: IsDyadic(rows[s], k)
  }

  ghost predicate RowsAtMost(rows: Rows, collection: Id, bound: real) {
    forall s <- rows | s.collection == collection :: rows[s] <= bound
  }

  /** The rows' orders are multiples of 2^-k and at most `bound`. */
  ghost predicate Within(rows: Rows, collection: Id, k: nat, bound: real) {
    RowsDyadic(rows, collection, k) && RowsAtMost(rows, collection, bound)
  }

  /** How many moves of the operation rewrite a row of the collection. */
  ghost function EffectiveIn(articles: Articles, rows: Rows, op: Operation, collection: Id): nat {
    if op.Reorder? && op.collection == collection && exists before :: IsListing(rows, articles, collection, before) then
      var before :| IsListing(rows, articles, collection, before);
      EffectiveOf(before, op.moves)
    else
      0
  }

  /** The moves are made if they are all valid, and none otherwise. */
  ghost function EffectiveOf(before: seq<Placement>, moves: seq<Move>): nat {
    if AreValidMoves(Ids(before), moves) then EffectiveMoves(before, moves) else 0
  }

  /** How many articles the operation asks to add to the collection. */
  function AddedBy(op: Operation, collection: Id): nat {
    if op.Add? && op.collection == collection then |op.ids| else 0
  }

  ghost function EffectiveInRun(articles: Articles, ops: seq<Operation>, states: seq<Rows>, collection: Id, n: nat): nat
    requires n <= |ops| && n <= |states|
  {
    if n == 0 then 0
    else EffectiveInRun(articles, ops, states, collection, n - 1) + EffectiveIn(articles, states[n - 1], ops[n - 1], collection)
  }

  function AddedInRun(ops: seq<Operation>, collection: Id, n: nat): nat
    requires n <= |ops|
  {
    if n == 0 then 0 else AddedInRun(ops, collection, n - 1) + AddedBy(ops[n - 1], collection)
  }

  lemma {:induction false} DyadicMore(x: real, k: nat, more: nat)
    requires IsDyadic(x, k)
    ensures IsDyadic(x, k + more)
  {
    if more > 0 {
      DyadicMore(x, k, more - 1);
      DyadicStep(x, k + more - 1);
    }
  }

  lemma InitOrderCosts(rows: Rows, collection: Id, first: real, k: nat, bound: real)
    requires IsInitOrder(rows, collection, first)
    requires RowsDyadic(rows, collection, k) && RowsAtMost(rows, collection, bound) && bound >= 0.0
    ensures IsDyadic(first, k) && first <= bound + 1.0
  {
    WholeIsDyadic(1.0, k);
    if exists s <- rows :: s.collection == collection {
      var s :| s in rows && s.collection == collection && rows[s] + 1.0 == first;
      DyadicSum(rows[s], 1.0, k);
    }
  }

  lemma DyadicPlus(x: real, n: nat, k: nat)
    requires IsDyadic(x, k)
    ensures IsDyadic(x + n as real, k)
  {
    WholeIs(n as real, n);
    WholeIsDyadic(n as real, k);
    DyadicSum(x, n as real, k);
  }

  lemma AddCosts(rows: Rows, collection: Id, ids: seq<Id>, first: real, k: nat, bound: real)
    requires NoDuplicates(ids)
    requires RowsDyadic(rows, collection, k) && RowsAtMost(rows, collection, bound)
    requires IsDyadic(first, k) && first <= bound + 1.0
    ensures RowsDyadic(Inserted(rows, collection, ids, first), collection, k)
    ensures RowsAtMost(Inserted(rows, collection, ids, first), collection, bound + |ids| as real)
  {
    InsertedRows(rows, collection, ids, first);
    var after := Inserted(rows, collection, ids, first);
    forall s | s in after && s.collection == collection
      ensures IsDyadic(after[s], k) && after[s] <= bound + |ids| as real
    {
      if s.article in ids {
        var i :| 0 <= i < |ids| && ids[i] == s.article;
        assert s == Slot(collection, ids[i]);
        DyadicPlus(first, i, k);
      }
    }
  }

  lemma ReorderCosts(rows: Rows, rows': Rows, collection: Id, before: seq<Placement>,
                     moves: seq<Move>, after: seq<Placement>, m: nat, k: nat, bound: real)
    requires IsTidy(before) && AllDyadic(before, k) && AllAtMost(before, bound)
    requires AreValidMoves(Ids(before), moves)
    requires after == AllReordered(before, moves) && m == EffectiveMoves(before, moves)
    requires IsRewrite(rows, rows', collection, after)
    requires RowsDyadic(rows, collection, k) && RowsAtMost(rows, collection, bound)
    ensures RowsDyadic(rows', collection, k + m) && RowsAtMost(rows', collection, bound + m as real)
  {
    MovesCostDigits(before, moves, k, bound);
    RewriteCosts(rows, rows', collection, after, k, m, bound);
  }

  lemma ListingCosts(rows: Rows, articles: Articles, collection: Id, list: seq<Placement>, k: nat, bound: real)
    requires IsListing(rows, articles, collection, list)
    requires RowsDyadic(rows, collection, k) && RowsAtMost(rows, collection, bound)
    ensures AllDyadic(list, k) && AllAtMost(list, bound)
  {
    forall i | 0 <= i < |list|
      ensures IsDyadic(list[i].order, k) && list[i].order <= bound
    {
      assert rows[Slot(collection, list[i].id)] == list[i].order;
    }
  }

  lemma RewriteCosts(rows: Rows, rows': Rows, collection: Id, list: seq<Placement>, k: nat, m: nat, bound: real)
    requires IsRewrite(rows, rows', collection, list)
    requires RowsDyadic(rows, collection, k) && RowsAtMost(rows, collection, bound)
    requires AllDyadic(list, k + m) && AllAtMost(list, bound + m as real)
    ensures RowsDyadic(rows', collection, k + m) && RowsAtMost(rows', collection, bound + m as real)
  {
    forall s | s in rows' && s.collection == collection
      ensures IsDyadic(rows'[s], k + m) && rows'[s] <= bound + m as real
    {
      if s.article in Ids(list) {
        var i :| 0 <= i < |list| && Ids(list)[i] == s.article;
        assert s == Slot(collection, list[i].id);
      } else {
        DyadicMore(rows[s], k, m);
      }
    }
  }

  lemma YieldsCosts(collections: map<Id, Id>, articles: Articles, rows: Rows, op: Operation, rows': Rows,
                    collection: Id, m: nat, k: nat, k': nat, bound: real, bound': real)
    requires Yields(collections, articles, rows, op, rows') && IsTidyTable(rows, articles)
    requires Within(rows, collection, k, bound) && bound >= 0.0
    requires m == EffectiveIn(articles, rows, op, collection) && k' == k + m
    requires bound' == bound + (m + AddedBy(op, collection)) as real
    ensures Within(rows', collection, k', bound')
  {
    if op.collection == collection {
      match op
      case Add(_, _, _) => AdditionCosts(collections, articles, rows, op, rows', k, bound);
      case Remove(_, _) =>
      case Reorder(_, _) => ReorderYieldsCosts(collections, articles, rows, op, rows', m, k, bound);
    } else {
      CostsElsewhere(collections, articles, rows, op, rows', collection, k, bound);
    }
  }

  lemma ReorderYieldsCosts(collections: map<Id, Id>, articles: Articles, rows: Rows, op: Operation, rows': Rows,
                           m: nat, k: nat, bound: real)
    requires op.Reorder? && Yields(collections, articles, rows, op, rows') && IsTidyTable(rows, articles)
    requires m == EffectiveIn(articles, rows, op, op.collection)
    requires RowsDyadic(rows, op.collection, k) && RowsAtMost(rows, op.collection, bound)
    ensures RowsDyadic(rows', op.collection, k + m) && RowsAtMost(rows', op.collection, bound + m as real)
  {
    var before := ReorderedListing(collections, articles, rows, op, rows');
    var _ := TheListing(articles, rows, op, before);
    ReorderingCosts(articles, rows, op, rows', before, m, k, bound);
  }

  lemma CostsElsewhere(collections: map<Id, Id>, articles: Articles, rows: Rows, op: Operation, rows': Rows,
                       collection: Id, k: nat, bound: real)
    requires Yields(collections, articles, rows, op, rows') && op.collection != collection
    requires RowsDyadic(rows, collection, k) && RowsAtMost(rows, collection, bound)
    ensures RowsDyadic(rows', collection, k) && RowsAtMost(rows', collection, bound)
  {
    if op.Add? && rows' != rows {
      AddedElsewhere(collections, articles, rows, op, rows', collection);
    }
  }

  /** The listing that a reordering read. */
  lemma ReorderedListing(collections: map<Id, Id>, articles: Articles, rows: Rows, op: Operation, rows': Rows)
    returns (before: seq<Placement>)
    requires op.Reorder? && Yields(collections, articles, rows, op, rows')
    ensures IsListing(rows, articles, op.collection, before)
    ensures if AreValidMoves(Ids(before), op.moves)
            then IsRewrite(rows, rows', op.collection, AllReordered(before, op.moves)) else rows' == rows
  {
    var c, moves := op.collection, op.moves;
    before :| && IsListing(rows, articles, c, before)
              && if AreValidMoves(Ids(before), moves) then IsRewrite(rows, rows', c, AllReordered(before, moves))
                 else rows' == rows;
  }

  lemma AdditionCosts(collections: map<Id, Id>, articles: Articles, rows: Rows, op: Operation, rows': Rows, k: nat, bound: real)
    requires op.Add? && Yields(collections, articles, rows, op, rows')
    requires RowsDyadic(rows, op.collection, k) && RowsAtMost(rows, op.collection, bound) && bound >= 0.0
    ensures RowsDyadic(rows', op.collection, k)
    ensures RowsAtMost(rows', op.collection, bound + |op.ids| as real)
  {
    if rows' != rows {
      var c := op.collection;
      var accepted := Validated(collections, rows, articles, c, op.ids, op.user).value;
      var first :| IsInitOrder(rows, c, first) && rows' == Inserted(rows, c, accepted, first);
      ScreenedMeaning(op.ids, ShownIds(rows, articles, c), articles, op.user);
      InitOrderCosts(rows, c, first, k, bound);
      AddCosts(rows, c, accepted, first, k, bound);
    }
  }

  lemma AddedElsewhere(collections: map<Id, Id>, articles: Articles, rows: Rows, op: Operation, rows': Rows, collection: Id)
    requires op.Add? && Yields(collections, articles, rows, op, rows') && rows' != rows && op.collection != collection
    ensures forall s <- rows' | s.collection == collection :: s in rows && rows'[s] == rows[s]
  {
    var c := op.collection;
    var accepted := Validated(collections, rows, articles, c, op.ids, op.user).value;
    var first :| IsInitOrder(rows, c, first) && rows' == Inserted(rows, c, accepted, first);
    InsertedRows(rows, c, accepted, first);
  }

  lemma ReorderingCosts(articles: Articles, rows: Rows, op: Operation, rows': Rows, before: seq<Placement>,
                        m: nat, k: nat, bound: real)
    requires op.Reorder? && IsTidyTable(rows, articles) && IsListing(rows, articles, op.collection, before)
    requires m == EffectiveOf(before, op.moves)
    requires if AreValidMoves(Ids(before), op.moves)
             then IsRewrite(rows, rows', op.collection, AllReordered(before, op.moves)) else rows' == rows
    requires RowsDyadic(rows, op.collection, k) && RowsAtMost(rows, op.collection, bound)
    ensures RowsDyadic(rows', op.collection, k + m) && RowsAtMost(rows', op.collection, bound + m as real)
  {
    if AreValidMoves(Ids(before), op.moves) {
      ListingOfTidyTable(rows, articles, op.collection, before);
      ListingCosts(rows, articles, op.collection, before, k, bound);
      ReorderCosts(rows, rows', op.collection, before, op.moves, AllReordered(before, op.moves), m, k, bound);
    }
  }

  /** In a tidy table the listing that a reordering read is the only one. */
  lemma TheListing(articles: Articles, rows: Rows, op: Operation, before: seq<Placement>) returns (m: nat)
    requires IsTidyTable(rows, articles) && op.Reorder? && IsListing(rows, articles, op.collection, before)
    ensures m == EffectiveOf(before, op.moves) == EffectiveIn(articles, rows, op, op.collection)
  {
    forall other | IsListing(rows, articles, op.collection, other)
      ensures other == before
    {
      ListingOfTidyTable(rows, articles, op.collection, before);
      ListingOfTidyTable(rows, articles, op.collection, other);
      ListingIsUnique(rows, articles, op.collection, before, other);
    }
    m := EffectiveOf(before, op.moves);
  }

  lemma {:induction false} RunCosts(collections: map<Id, Id>, articles: Articles, ops: seq<Operation>, states: seq<Rows>,
                                    collection: Id, n: nat, bound: real)
    requires IsHistory(collections, articles, ops, states) && IsTidyTable(states[0], articles) && n <= |ops|
    requires RowsDyadic(states[0], collection, 0) && RowsAtMost(states[0], collection, bound) && bound >= 0.0
    ensures Within(states[n], collection, EffectiveInRun(articles, ops, states, collection, n),
                   BoundInRun(articles, ops, states, collection, n, bound))
  {
    if n > 0 {
      RunCosts(collections, articles, ops, states, collection, n - 1, bound);
      StepCosts(collections, articles, ops, states, collection, n, bound);
    }
  }

  /** Every effective move and every article that is added may raise the bound by one. */
  ghost function BoundInRun(articles: Articles, ops: seq<Operation>, states: seq<Rows>, collection: Id, n: nat, bound: real): real
    requires n <= |ops| && n <= |states|
  {
    bound + (EffectiveInRun(articles, ops, states, collection, n) + AddedInRun(ops, collection, n)) as real
  }

  lemma StepCosts(collections: map<Id, Id>, articles: Articles, ops: seq<Operation>, states: seq<Rows>,
                  collection: Id, n: nat, bound: real)
    requires IsHistory(collections, articles, ops, states) && IsTidyTable(states[0], articles) && 0 < n <= |ops|
    requires Within(states[n - 1], collection, EffectiveInRun(articles, ops, states, collection, n - 1),
                    BoundInRun(articles, ops, states, collection, n - 1, bound)) && bound >= 0.0
    ensures Within(states[n], collection, EffectiveInRun(articles, ops, states, collection, n),
                   BoundInRun(articles, ops, states, collection, n, bound))
  {
    TidyForever(collections, articles, ops, states, n - 1);
    HistoryStep(collections, articles, ops, states, n);
    SumsInRun(articles, ops, states, collection, n, bound);
    YieldsCosts(collections, articles, states[n - 1], ops[n - 1], states[n], collection,
                EffectiveIn(articles, states[n - 1], ops[n - 1], collection),
                EffectiveInRun(articles, ops, states, collection, n - 1), EffectiveInRun(articles, ops, states, collection, n),
                BoundInRun(articles, ops, states, collection, n - 1, bound), BoundInRun(articles, ops, states, collection, n, bound));
  }

  lemma SumsInRun(articles: Articles, ops: seq<Operation>, states: seq<Rows>, collection: Id, n: nat, bound: real)
    requires 0 < n <= |ops| && n <= |states| && bound >= 0.0
    ensures EffectiveInRun(articles, ops, states, collection, n)
         == EffectiveInRun(articles, ops, states, collection, n - 1) + EffectiveIn(articles, states[n - 1], ops[n - 1], collection)
    ensures BoundInRun(articles, ops, states, collection, n, bound)
         == BoundInRun(articles, ops, states, collection, n - 1, bound)
            + (EffectiveIn(articles, states[n - 1], ops[n - 1], collection) + AddedBy(ops[n - 1], collection)) as real
    ensures BoundInRun(articles, ops, states, collection, n - 1, bound) >= 0.0
  {
  }

  lemma HistoryStep(collections: map<Id, Id>, articles: Articles, ops: seq<Operation>, states: seq<Rows>, n: nat)
    requires IsHistory(collections, articles, ops, states) && 0 < n <= |ops|
    ensures Yields(collections, articles, states[n - 1], ops[n - 1], states[n])
  {
    var k := n - 1;
    assert Yields(collections, articles, states[k], ops[k], states[k + 1]);
  }

  /**
   * After any run with k effective moves in a collection that began with whole orders,
   * or empty, all its rows are, in exact arithmetic, multiples of 2^-k: so they are at
   * least that large, those that show are at least that far apart, and up to 45
   * effective moves the column holds them.
   */
  lemma PrecisionForever(collections: map<Id, Id>, articles: Articles, ops: seq<Operation>, states: seq<Rows>,
                         collection: Id, n: nat, bound: real)
    requires IsHistory(collections, articles, ops, states) && IsTidyTable(states[0], articles) && n <= |ops|
    requires RowsDyadic(states[0], collection, 0) && RowsAtMost(states[0], collection, bound) && bound >= 0.0
    ensures var k, added, rows := EffectiveInRun(articles, ops, states, collection, n), AddedInRun(ops, collection, n), states[n];
            && RowsDyadic(rows, collection, k)
            && RowsAtMost(rows, collection, bound + (k + added) as real)
            && (forall s <- rows | s.collection == collection :: rows[s] >= Halves(k))
            && (forall s, t | s in rows && t in rows && rows[s] > rows[t] && s.collection == t.collection == collection ::
                  rows[s] - rows[t] >= Halves(k))
            && (k <= 45 && bound + (k + added) as real < 100000.0 ==>
                  forall s <- rows | s.collection == collection :: FitsColumn(rows[s]))
  {
    RunCosts(collections, articles, ops, states, collection, n, bound);
    TidyForever(collections, articles, ops, states, n);
    var k, rows := EffectiveInRun(articles, ops, states, collection, n), states[n];
    forall s | s in rows && s.collection == collection
      ensures rows[s] >= Halves(k) && (k <= FRACTION_DIGITS ==> IsDecimal(rows[s], FRACTION_DIGITS))
    {
      DyadicAtLeast(rows[s], k);
      if k <= FRACTION_DIGITS {
        DyadicIsDecimal(rows[s], k, FRACTION_DIGITS);
      }
    }
    forall s, t | s in rows && t in rows && rows[s] > rows[t] && s.collection == t.collection == collection
      ensures rows[s] - rows[t] >= Halves(k)
    {
      DyadicSum(rows[s], rows[t], k);
      DyadicAtLeast(rows[s] - rows[t], k);
    }
  }
}
