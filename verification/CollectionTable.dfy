/**
 * The rows behind collections of articles (src/connectors/collectionService.ts):
 * what adding, removing and reordering do to them, when they also hold articles that
 * are not active and so do not show.
 */
module CollectionTable {
  import opened Common
  import opened Ordering

  const MAX_ARTICLES_PER_COLLECTION_LIMIT: nat := 400

  datatype ArticleState = Active | Archived | Banned | Pending | Error
  datatype Article = Article(author: Id, state: ArticleState)

  /** The unique key of a `collection_article` row. */
  datatype Slot = Slot(collection: Id, article: Id)

  /** The `order` of every `collection_article` row. */
  type Rows = map<Slot, real>
  type Articles = map<Id, Article>

  datatype CollectionError =
    | CollectionNotFound | Forbidden | CapacityExceeded | ArticleNotFound
    | InvalidNewPosition | InvalidArticleId | UniqueViolation

  /* ----- reading a collection ----- */

  predicate IsActive(articles: Articles, id: Id) {
    id in articles && articles[id].state == Active
  }

  /** The collection shows the article of this row. */
  predicate IsShown(articles: Articles, collection: Id, slot: Slot) {
    slot.collection == collection && IsActive(articles, slot.article)
  }

  function ShownIds(rows: Rows, articles: Articles, collection: Id): set<Id> {
    set s <- rows | IsShown(articles, collection, s) :: s.article
  }

  /** A collection shows the articles it has a row for and whose state is active. */
  lemma ShownWhen(rows: Rows, articles: Articles, collection: Id, id: Id)
    ensures id in ShownIds(rows, articles, collection)
       <==> Slot(collection, id) in rows && id in articles && articles[id].state == Active
  {
    if Slot(collection, id) in rows && IsActive(articles, id) {
      assert IsShown(articles, collection, Slot(collection, id));
    }
  }

  /** `list` is the collection as a query reads it: its active articles by descending order. */
  ghost predicate IsListing(rows: Rows, articles: Articles, collection: Id, list: seq<Placement>) {
    && NoDuplicates(Ids(list))
    && (forall id :: id in Ids(list) <==> id in ShownIds(rows, articles, collection))
    && (forall i | 0 <= i < |list| ::
          Slot(collection, list[i].id) in rows && rows[Slot(collection, list[i].id)] == list[i].order)
    && (forall i, j | 0 <= i < j < |list| :: list[i].order >= list[j].order)
  }

  /**
   * What keeps the order of a collection well defined: positive orders, and no two
   * active articles of a collection with the same one.
   */
  ghost predicate IsTidyTable(rows: Rows, articles: Articles) {
    && (forall s <- rows :: rows[s] > 0.0)
    && (forall s, t | s in rows && t in rows && s != t && s.collection == t.collection
                      && IsActive(articles, s.article) && IsActive(articles, t.article) ::
          rows[s] != rows[t])
  }

  lemma ListingOfTidyTable(rows: Rows, articles: Articles, collection: Id, list: seq<Placement>)
    requires IsTidyTable(rows, articles) && IsListing(rows, articles, collection, list)
    ensures IsTidy(list)
  {
    forall i | 0 <= i < |list|
      ensures IsActive(articles, list[i].id)
    {
      assert Ids(list)[i] in ShownIds(rows, articles, collection);
    }
    forall i, j | 0 <= i < j < |list|
      ensures list[i].order > list[j].order
    {
      assert Ids(list)[i] != Ids(list)[j];
      assert rows[Slot(collection, list[i].id)] != rows[Slot(collection, list[j].id)];
    }
  }

  lemma {:induction false} ListingLength(rows: Rows, articles: Articles, collection: Id, list: seq<Placement>)
    requires IsListing(rows, articles, collection, list)
    ensures |list| == |ShownIds(rows, articles, collection)|
  {
    IdCount(Ids(list));
    assert IdSet(Ids(list)) == ShownIds(rows, articles, collection);
  }

  /* ----- reordering ----- */

  /** `rows'` is `rows` with the articles of `list` at the orders that `list` says. */
  ghost predicate IsRewrite(rows: Rows, rows': Rows, collection: Id, list: seq<Placement>) {
    && rows'.Keys == rows.Keys
    && (forall i | 0 <= i < |list| ::
          Slot(collection, list[i].id) in rows' && rows'[Slot(collection, list[i].id)] == list[i].order)
    && (forall s <- rows | s.collection != collection || s.article !in Ids(list) :: rows'[s] == rows[s])
  }

  /** Writing the one new order of a move keeps the table in step with the list. */
  lemma RewriteStep(rows: Rows, rows': Rows, collection: Id, list: seq<Placement>, move: Move)
    requires IsRewrite(rows, rows', collection, list)
    requires NoDuplicates(Ids(list)) && IsApplicable(list, move) && IndexOf(list, move.id) != move.newPosition
    ensures Slot(collection, move.id) in rows'
    ensures IsRewrite(rows, rows'[Slot(collection, move.id) := NewOrder(list, move)], collection, Reordered(list, move))
  {
    var slot, after := Slot(collection, move.id), Reordered(list, move);
    ReorderedEntries(list, move);
    ReorderedKeepsMembers(list, move);
    assert Ids(list)[IndexOf(list, move.id)] == move.id;
    forall j | 0 <= j < |after|
      ensures Slot(collection, after[j].id) in rows'
      ensures rows'[slot := NewOrder(list, move)][Slot(collection, after[j].id)] == after[j].order
    {
      if j != move.newPosition {
        var k :| 0 <= k < |list| && list[k] == after[j];
      }
    }
  }

  lemma ReorderedEntries(list: seq<Placement>, move: Move)
    requires NoDuplicates(Ids(list)) && IsApplicable(list, move) && IndexOf(list, move.id) != move.newPosition
    ensures var after := Reordered(list, move);
            && |after| == |list|
            && after[move.newPosition] == Placement(move.id, NewOrder(list, move))
            && (forall j | 0 <= j < |after| && j != move.newPosition :: after[j] in list && after[j].id != move.id)
  {
    var i, n, after := IndexOf(list, move.id), move.newPosition, Reordered(list, move);
    forall j | 0 <= j < |after| && j != n
      ensures after[j] in list && after[j].id != move.id
    {
      var k := ReplacedEntry(list, i, n, after[n], j);
      assert Ids(list)[k] != Ids(list)[i];
    }
  }

  lemma ReorderedKeepsMembers(list: seq<Placement>, move: Move)
    requires NoDuplicates(Ids(list)) && IsApplicable(list, move)
    ensures forall id :: id in Ids(list) <==> id in Ids(Reordered(list, move))
  {
    ReorderedIds(list, move);
    ValidIsApplicable(list, move);
    MovedMeaning(Ids(list), move);
    forall id
      ensures id in Ids(list) <==> id in Ids(Reordered(list, move))
    {
      SameMembers(Ids(list), Ids(Reordered(list, move)), id);
    }
  }

  /** Rewriting a listing to a tidy list of the same articles gives a tidy table that lists as it. */
  lemma RewriteIsListing(rows: Rows, rows': Rows, articles: Articles, collection: Id,
                         before: seq<Placement>, after: seq<Placement>)
    requires IsTidyTable(rows, articles) && IsListing(rows, articles, collection, before)
    requires IsRewrite(rows, rows', collection, after)
    requires IsTidy(after) && multiset(Ids(after)) == multiset(Ids(before))
    ensures IsListing(rows', articles, collection, after)
    ensures IsTidyTable(rows', articles)
  {
    forall id
      ensures id in Ids(after) <==> id in ShownIds(rows', articles, collection)
    {
      SameMembers(Ids(before), Ids(after), id);
      assert ShownIds(rows', articles, collection) == ShownIds(rows, articles, collection);
    }
    TidyAfterRewrite(rows, rows', articles, collection, after);
  }

  lemma TidyAfterRewrite(rows: Rows, rows': Rows, articles: Articles, collection: Id, after: seq<Placement>)
    requires IsTidyTable(rows, articles) && IsRewrite(rows, rows', collection, after) && IsTidy(after)
    requires forall id | id in ShownIds(rows, articles, collection) :: id in Ids(after)
    ensures IsTidyTable(rows', articles)
  {
    forall s | s in rows' && s.collection == collection && s.article in Ids(after)
      ensures exists i :: 0 <= i < |after| && after[i].id == s.article && rows'[s] == after[i].order
    {
      var i :| 0 <= i < |after| && Ids(after)[i] == s.article;
      assert s == Slot(collection, after[i].id);
    }
    forall s, t | s in rows' && t in rows' && s != t && s.collection == t.collection
                  && IsActive(articles, s.article) && IsActive(articles, t.article)
      ensures rows'[s] != rows'[t]
    {
      if s.collection == collection {
        assert s.article in ShownIds(rows, articles, collection);
        assert t.article in ShownIds(rows, articles, collection);
        var i :| 0 <= i < |after| && after[i].id == s.article && rows'[s] == after[i].order;
        var j :| 0 <= j < |after| && after[j].id == t.article && rows'[t] == after[j].order;
        DifferentOrders(after, i, j);
      }
    }
  }

  /**
   * After any valid moves the rows of a tidy table, read back by descending order,
   * are exactly the list kept in memory, and show the articles where the moves,
   * taken one after the other, put them.
   */
  lemma ReorderAgrees(rows: Rows, rows': Rows, articles: Articles, collection: Id,
                      before: seq<Placement>, moves: seq<Move>)
    requires IsTidyTable(rows, articles) && IsListing(rows, articles, collection, before)
    requires AreValidMoves(Ids(before), moves)
    requires IsRewrite(rows, rows', collection, AllReordered(before, moves))
    ensures IsListing(rows', articles, collection, AllReordered(before, moves))
    ensures Ids(AllReordered(before, moves)) == AllMoved(Ids(before), moves)
    ensures IsTidyTable(rows', articles)
  {
    ListingOfTidyTable(rows, articles, collection, before);
    AllReorderedIds(before, moves);
    AllReorderedIsTidy(before, moves);
    AllMovedKeepsArticles(Ids(before), moves);
    RewriteIsListing(rows, rows', articles, collection, before, AllReordered(before, moves));
  }

  /* ----- rows that do not show ----- */

  /** No two rows of the collection have the same order, whether their articles show or not. */
  ghost predicate IsApart(rows: Rows, collection: Id) {
    forall s, t | s in rows && t in rows && s != t && s.collection == t.collection == collection :: rows[s] != rows[t]
  }

  /** The rows of the collection whose articles are not in the list. */
  function Hidden(rows: Rows, collection: Id, list: seq<Placement>): set<Slot> {
    set s <- rows | s.collection == collection && s.article !in Ids(list)
  }

  /**
   * Orders tell rows apart whatever the states of their articles, now and later,
   * exactly when they do so for all rows.
   */
  lemma TidyWhateverShows(rows: Rows)
    ensures (forall articles :: IsTidyTable(rows, articles))
       <==> (forall s <- rows :: rows[s] > 0.0) && forall collection :: IsApart(rows, collection)
  {
    if forall articles :: IsTidyTable(rows, articles) {
      var ids := set s <- rows :: s.article;
      var all: Articles := map id <- ids :: Article(0, Active);
      assert IsTidyTable(rows, all);
      assert forall s <- rows :: s.article in ids && IsActive(all, s.article);
    }
    if (forall s <- rows :: rows[s] > 0.0) && forall collection :: IsApart(rows, collection) {
      forall articles
        ensures IsTidyTable(rows, articles)
      {
        forall s, t | s in rows && t in rows && s != t && s.collection == t.collection
          ensures rows[s] != rows[t]
        {
          assert IsApart(rows, s.collection);
        }
      }
    }
  }

  /** A listing rewritten to a descending list of the same articles: when all rows stay apart. */
  lemma RewriteApart(rows: Rows, rows': Rows, articles: Articles, collection: Id,
                     before: seq<Placement>, after: seq<Placement>)
    requires IsApart(rows, collection) && IsListing(rows, articles, collection, before)
    requires IsRewrite(rows, rows', collection, after)
    requires IsTidy(after) && multiset(Ids(after)) == multiset(Ids(before))
    ensures IsApart(rows', collection)
       <==> forall s <- Hidden(rows, collection, before), i | 0 <= i < |after| :: rows[s] != after[i].order
  {
    forall id
      ensures id in Ids(after) <==> id in Ids(before)
    {
      SameMembers(Ids(before), Ids(after), id);
    }
    if IsApart(rows', collection) {
      forall s, i | s in Hidden(rows, collection, before) && 0 <= i < |after|
        ensures rows[s] != after[i].order
      {
        assert Ids(after)[i] == after[i].id;
        assert s != Slot(collection, after[i].id);
      }
    } else {
      var s, t :| s in rows' && t in rows' && s != t && s.collection == t.collection == collection && rows'[s] == rows'[t];
      TieInvolvesHidden(rows, rows', collection, after, s, t);
    }
  }

  lemma NoTieInList(rows: Rows, rows': Rows, collection: Id, after: seq<Placement>, s: Slot, t: Slot)
    requires IsRewrite(rows, rows', collection, after) && IsTidy(after)
    requires s in rows && t in rows && s != t && s.collection == t.collection == collection
    requires s.article in Ids(after) && t.article in Ids(after)
    ensures rows'[s] != rows'[t]
  {
    var i :| 0 <= i < |after| && Ids(after)[i] == s.article;
    var j :| 0 <= j < |after| && Ids(after)[j] == t.article;
    assert s == Slot(collection, after[i].id) && t == Slot(collection, after[j].id);
    DifferentOrders(after, i, j);
  }

  /** Two rows that tie after a rewrite are not both of the list, nor both not. */
  lemma TieInvolvesHidden(rows: Rows, rows': Rows, collection: Id, after: seq<Placement>, s: Slot, t: Slot)
    requires IsApart(rows, collection) && IsRewrite(rows, rows', collection, after) && IsTidy(after)
    requires s in rows && t in rows && s != t && s.collection == t.collection == collection && rows'[s] == rows'[t]
    ensures exists h, i :: h in Hidden(rows, collection, after) && 0 <= i < |after| && rows[h] == after[i].order
  {
    if s.article in Ids(after) && t.article in Ids(after) {
      NoTieInList(rows, rows', collection, after, s, t);
    }
    if s.article in Ids(after) {
      var i :| 0 <= i < |after| && Ids(after)[i] == s.article;
      assert s == Slot(collection, after[i].id) && t in Hidden(rows, collection, after);
    } else {
      assert s in Hidden(rows, collection, after);
      assert t.article in Ids(after);
      var i :| 0 <= i < |after| && Ids(after)[i] == t.article;
      assert t == Slot(collection, after[i].id);
    }
  }

  /**
   * One move, in whichever branch, keeps all rows of the collection apart exactly when
   * no row of an article that is not listed has the order that the move writes.
   */
  lemma MoveApart(rows: Rows, articles: Articles, collection: Id, list: seq<Placement>, move: Move)
    requires IsApart(rows, collection) && IsListing(rows, articles, collection, list) && IsTidy(list)
    requires IsApplicable(list, move) && IndexOf(list, move.id) != move.newPosition
    ensures IsApart(rows[Slot(collection, move.id) := NewOrder(list, move)], collection)
       <==> forall s <- Hidden(rows, collection, list) :: rows[s] != NewOrder(list, move)
  {
    MoveApartTo(rows, rows[Slot(collection, move.id) := NewOrder(list, move)], articles, collection, list, move,
                NewOrder(list, move), Reordered(list, move));
  }

  lemma MoveApartTo(rows: Rows, rows': Rows, articles: Articles, collection: Id, list: seq<Placement>, move: Move,
                    order: real, after: seq<Placement>)
    requires IsApart(rows, collection) && IsListing(rows, articles, collection, list) && IsTidy(list)
    requires IsApplicable(list, move) && IndexOf(list, move.id) != move.newPosition
    requires order == NewOrder(list, move) && after == Reordered(list, move)
    requires rows' == rows[Slot(collection, move.id) := order]
    ensures IsApart(rows', collection) <==> forall s <- Hidden(rows, collection, list) :: rows[s] != order
  {
    ListingIsRewrite(rows, articles, collection, list);
    RewriteStep(rows, rows, collection, list, move);
    ReorderedIsTidy(list, move);
    ReorderedKeepsArticles(list, move);
    RewriteApart(rows, rows', articles, collection, list, after);
    HiddenAgainst(rows, articles, collection, list, move, order, after);
  }

  /** Where rows are apart, a hidden row can only meet the one order that a move writes. */
  lemma HiddenAgainst(rows: Rows, articles: Articles, collection: Id, list: seq<Placement>, move: Move,
                      order: real, after: seq<Placement>)
    requires IsApart(rows, collection) && IsListing(rows, articles, collection, list)
    requires IsApplicable(list, move) && IndexOf(list, move.id) != move.newPosition
    requires order == NewOrder(list, move) && after == Reordered(list, move)
    ensures (forall s <- Hidden(rows, collection, list), i | 0 <= i < |after| :: rows[s] != after[i].order)
       <==> forall s <- Hidden(rows, collection, list) :: rows[s] != order
  {
    ReorderedEntries(list, move);
    forall s, i | s in Hidden(rows, collection, list) && 0 <= i < |after| && i != move.newPosition
      ensures rows[s] != after[i].order
    {
      var k :| 0 <= k < |list| && list[k] == after[i];
      assert Ids(list)[k] == list[k].id;
      assert s != Slot(collection, list[k].id);
    }
  }

  lemma ListingIsRewrite(rows: Rows, articles: Articles, collection: Id, list: seq<Placement>)
    requires IsListing(rows, articles, collection, list)
    ensures IsRewrite(rows, rows, collection, list)
  {
  }

  lemma ReorderedKeepsArticles(list: seq<Placement>, move: Move)
    requires NoDuplicates(Ids(list)) && IsApplicable(list, move)
    ensures multiset(Ids(Reordered(list, move))) == multiset(Ids(list))
  {
    ReorderedIds(list, move);
    ValidIsApplicable(list, move);
    MovedMeaning(Ids(list), move);
  }

  /** The orders that the moves write, one after the other. */
  function WrittenOrders(list: seq<Placement>, moves: seq<Move>): seq<real> {
    if moves == [] then
      []
    else
      var last := |moves| - 1;
      var before := AllReordered(list, moves[..last]);
      WrittenOrders(list, moves[..last])
      + if IsApplicable(before, moves[last]) && IndexOf(before, moves[last].id) != moves[last].newPosition
        then [NewOrder(before, moves[last])] else []
  }

  /** The table with the articles of the list at the orders that the list says. */
  function Rewritten(rows: Rows, collection: Id, list: seq<Placement>): Rows {
    map s <- rows :: if s.collection == collection && IndexOf(list, s.article) < |list|
                     then list[IndexOf(list, s.article)].order else rows[s]
  }

  lemma RewrittenIsRewrite(rows: Rows, rows': Rows, collection: Id, list: seq<Placement>)
    requires NoDuplicates(Ids(list)) && forall i | 0 <= i < |list| :: Slot(collection, list[i].id) in rows
    ensures IsRewrite(rows, rows', collection, list) <==> rows' == Rewritten(rows, collection, list)
  {
    forall i | 0 <= i < |list|
      ensures IndexOf(list, list[i].id) == i
    {
      assert Ids(list)[i] == list[i].id;
      assert Ids(list)[IndexOf(list, list[i].id)] == list[i].id;
    }
    forall s | s in rows
      ensures IndexOf(list, s.article) < |list| <==> s.article in Ids(list)
    {
      IndexOfMember(list, s.article);
    }
    if IsRewrite(rows, rows', collection, list) {
      forall s | s in rows
        ensures rows'[s] == Rewritten(rows, collection, list)[s]
      {
        var i := IndexOf(list, s.article);
        if s.collection == collection && i < |list| {
          assert s == Slot(collection, list[i].id);
        }
      }
    }
  }

  lemma IndexOfMember(list: seq<Placement>, id: Id)
    ensures IndexOf(list, id) < |list| <==> id in Ids(list)
  {
    if IndexOf(list, id) < |list| {
      assert Ids(list)[IndexOf(list, id)] == id;
    }
    if id in Ids(list) {
      var i :| 0 <= i < |list| && Ids(list)[i] == id;
      assert list[i].id == id;
    }
  }

  /** All rows of the collection are apart at first and after every one of the moves. */
  ghost predicate StayApart(rows: Rows, collection: Id, list: seq<Placement>, moves: seq<Move>) {
    && (moves != [] ==> StayApart(rows, collection, list, moves[..|moves| - 1]))
    && IsApartAfter(rows, collection, list, moves)
  }

  ghost predicate IsApartAfter(rows: Rows, collection: Id, list: seq<Placement>, moves: seq<Move>) {
    IsApart(Rewritten(rows, collection, AllReordered(list, moves)), collection)
  }

  /**
   * All rows of the collection stay apart after every one of the moves exactly when no
   * row of an article that is not listed has one of the orders that the moves write.
   */
  lemma {:induction false} MovesApart(rows: Rows, articles: Articles, collection: Id, list: seq<Placement>, moves: seq<Move>)
    requires IsApart(rows, collection) && IsListing(rows, articles, collection, list) && IsTidy(list)
    requires AreValidMoves(Ids(list), moves)
    ensures StayApart(rows, collection, list, moves)
       <==> forall s <- Hidden(rows, collection, list) :: rows[s] !in WrittenOrders(list, moves)
    decreases |moves|
  {
    if moves == [] {
      ApartBefore(rows, articles, collection, list);
    } else {
      var last := |moves| - 1;
      assert AreValidMoves(Ids(list), moves[..last]);
      MovesApart(rows, articles, collection, list, moves[..last]);
      if StayApart(rows, collection, list, moves[..last]) {
        LastMoveApart(rows, articles, collection, list, moves);
      } else {
        EarlierOrders(list, moves);
      }
    }
  }

  lemma EarlierOrders(list: seq<Placement>, moves: seq<Move>)
    requires moves != []
    ensures forall order <- WrittenOrders(list, moves[..|moves| - 1]) :: order in WrittenOrders(list, moves)
  {
  }

  lemma ApartBefore(rows: Rows, articles: Articles, collection: Id, list: seq<Placement>)
    requires IsApart(rows, collection) && IsListing(rows, articles, collection, list)
    ensures IsApartAfter(rows, collection, list, [])
  {
    assert AllReordered(list, []) == list;
    ListingIsRewrite(rows, articles, collection, list);
    RewrittenIsRewrite(rows, rows, collection, list);
  }

  /** The state after some moves is a table that lists as the list in memory, with the same rows hidden. */
  lemma AfterMoves(rows: Rows, articles: Articles, collection: Id, list: seq<Placement>, moves: seq<Move>)
    requires IsListing(rows, articles, collection, list) && IsTidy(list) && AreValidMoves(Ids(list), moves)
    ensures var after := AllReordered(list, moves);
            var rows' := Rewritten(rows, collection, after);
            && IsTidy(after) && multiset(Ids(after)) == multiset(Ids(list))
            && IsRewrite(rows, rows', collection, after)
            && IsListing(rows', articles, collection, after)
            && Hidden(rows', collection, after) == Hidden(rows, collection, list)
            && forall s <- Hidden(rows, collection, list) :: rows'[s] == rows[s]
  {
    AllReorderedIsTidy(list, moves);
    AllReorderedIds(list, moves);
    AllMovedKeepsArticles(Ids(list), moves);
    RewrittenListing(rows, articles, collection, list, AllReordered(list, moves));
  }

  /** A table rewritten to a tidy list of the articles that it listed lists as that, with the same rows hidden. */
  lemma RewrittenListing(rows: Rows, articles: Articles, collection: Id, list: seq<Placement>, after: seq<Placement>)
    requires IsListing(rows, articles, collection, list)
    requires IsTidy(after) && multiset(Ids(after)) == multiset(Ids(list))
    ensures var rows' := Rewritten(rows, collection, after);
            && IsRewrite(rows, rows', collection, after)
            && IsListing(rows', articles, collection, after)
            && Hidden(rows', collection, after) == Hidden(rows, collection, list)
            && forall s <- Hidden(rows, collection, list) :: rows'[s] == rows[s]
  {
    var rows' := Rewritten(rows, collection, after);
    forall id
      ensures id in Ids(after) <==> id in Ids(list)
    {
      SameMembers(Ids(list), Ids(after), id);
    }
    forall i | 0 <= i < |after|
      ensures Slot(collection, after[i].id) in rows
    {
      assert Ids(after)[i] in Ids(list);
      ShownWhen(rows, articles, collection, after[i].id);
    }
    RewrittenIsRewrite(rows, rows', collection, after);
    assert ShownIds(rows', articles, collection) == ShownIds(rows, articles, collection);
  }

  lemma LastMoveApart(rows: Rows, articles: Articles, collection: Id, list: seq<Placement>, moves: seq<Move>)
    requires IsListing(rows, articles, collection, list) && IsTidy(list)
    requires AreValidMoves(Ids(list), moves) && moves != []
    requires IsApartAfter(rows, collection, list, moves[..|moves| - 1])
    requires forall s <- Hidden(rows, collection, list) :: rows[s] !in WrittenOrders(list, moves[..|moves| - 1])
    ensures IsApartAfter(rows, collection, list, moves)
       <==> forall s <- Hidden(rows, collection, list) :: rows[s] !in WrittenOrders(list, moves)
  {
    var last := |moves| - 1;
    var before := AllReordered(list, moves[..last]);
    var rows1 := Rewritten(rows, collection, before);
    LastMove(list, moves);
    AfterMoves(rows, articles, collection, list, moves[..last]);
    if IndexOf(before, moves[last].id) != moves[last].newPosition {
      AfterMoves(rows, articles, collection, list, moves);
      RewriteStep(rows, rows1, collection, before, moves[last]);
      RowsOfListing(rows, articles, collection, list, moves);
      RewrittenIsRewrite(rows, rows1[Slot(collection, moves[last].id) := NewOrder(before, moves[last])],
                         collection, AllReordered(list, moves));
      MoveApart(rows1, articles, collection, before, moves[last]);
    }
  }

  lemma RowsOfListing(rows: Rows, articles: Articles, collection: Id, list: seq<Placement>, moves: seq<Move>)
    requires IsListing(rows, articles, collection, list)
    requires multiset(Ids(AllReordered(list, moves))) == multiset(Ids(list))
    ensures forall i | 0 <= i < |AllReordered(list, moves)| :: Slot(collection, AllReordered(list, moves)[i].id) in rows
  {
    var after := AllReordered(list, moves);
    forall i | 0 <= i < |after|
      ensures Slot(collection, after[i].id) in rows
    {
      SameMembers(Ids(list), Ids(after), after[i].id);
      assert Ids(after)[i] == after[i].id;
      ShownWhen(rows, articles, collection, after[i].id);
    }
  }

  lemma DifferentOrders(list: seq<Placement>, i: nat, j: nat)
    requires IsDescending(list) && i < |list| && j < |list| && i != j
    ensures list[i].order != list[j].order
  {
    assert i < j || j < i;
  }

  /** A tidy table has one listing only. */
  lemma {:induction false} ListingIsUnique(rows: Rows, articles: Articles, collection: Id,
                                           a: seq<Placement>, b: seq<Placement>)
    requires IsListing(rows, articles, collection, a) && IsListing(rows, articles, collection, b)
    requires IsTidy(a) && IsTidy(b)
    ensures a == b
  {
    ListingLength(rows, articles, collection, a);
    ListingLength(rows, articles, collection, b);
    SameFrom(rows, articles, collection, a, b, |a|);
  }

  lemma {:induction false} SameFrom(rows: Rows, articles: Articles, collection: Id,
                                    a: seq<Placement>, b: seq<Placement>, n: nat)
    requires IsListing(rows, articles, collection, a) && IsListing(rows, articles, collection, b)
    requires IsTidy(a) && IsTidy(b) && |a| == |b| && n <= |a|
    ensures a[..n] == b[..n]
  {
    if n > 0 {
      var k := n - 1;
      SameFrom(rows, articles, collection, a, b, k);
      NotAfter(rows, articles, collection, a, b, k);
      NotAfter(rows, articles, collection, b, a, k);
      assert a[k].order == b[k].order;
      var i := OccursAt(rows, articles, collection, a, b, k);
      assert i == k;
    }
  }

  /** Where the article at `k` in one listing is in another. */
  lemma OccursAt(rows: Rows, articles: Articles, collection: Id, a: seq<Placement>, b: seq<Placement>, k: nat)
    returns (i: nat)
    requires IsListing(rows, articles, collection, a) && IsListing(rows, articles, collection, b)
    requires k < |a|
    ensures i < |b| && b[i] == a[k]
  {
    assert Ids(a)[k] in Ids(a);
    assert a[k].id in Ids(b);
    i :| 0 <= i < |b| && Ids(b)[i] == a[k].id;
  }

  lemma NotAfter(rows: Rows, articles: Articles, collection: Id, a: seq<Placement>, b: seq<Placement>, k: nat)
    requires IsListing(rows, articles, collection, a) && IsListing(rows, articles, collection, b)
    requires IsTidy(a) && IsTidy(b) && |a| == |b| && k < |a| && a[..k] == b[..k]
    ensures a[k].order <= b[k].order
  {
    var i := OccursAt(rows, articles, collection, a, b, k);
    assert forall j | 0 <= j < k :: a[..k][j] == b[..k][j];
    assert forall j | 0 <= j < k :: b[j].order > a[k].order;
  }

  /* ----- adding ----- */

  /** What `validateAddArticles` does with the requested articles once the collection is found. */
  function Screened(ids: seq<Id>, present: set<Id>, articles: Articles, user: Id): Result<seq<Id>, CollectionError> {
    if ids == [] then
      Ok([])
    else
      var last := |ids| - 1;
      match Screened(ids[..last], present, articles, user)
      case Err(e) => Err(e)
      case Ok(accepted) =>
        if ids[last] in present then Ok(accepted)
        else if !IsActive(articles, ids[last]) then Err(ArticleNotFound)
        else if articles[ids[last]].author != user then Err(Forbidden)
        else Ok(accepted + [ids[last]])
  }

  function Absent(ids: seq<Id>, present: set<Id>): seq<Id> {
    if ids == [] then []
    else Absent(ids[..|ids| - 1], present) + if ids[|ids| - 1] in present then [] else [ids[|ids| - 1]]
  }

  /**
   * Screening succeeds exactly when every requested article that does not show yet
   * is an active article of the user, and then accepts those, in the order given.
   */
  lemma {:induction false} ScreenedMeaning(ids: seq<Id>, present: set<Id>, articles: Articles, user: Id)
    ensures Screened(ids, present, articles, user).Ok?
       <==> forall id <- ids | id !in present ::
              id in articles && articles[id].state == Active && articles[id].author == user
    ensures Screened(ids, present, articles, user).Ok? ==>
              Screened(ids, present, articles, user).value == Absent(ids, present)
    ensures |Absent(ids, present)| <= |ids|
    ensures forall id :: id in Absent(ids, present) <==> id in ids && id !in present
  {
    if ids != [] {
      var last := |ids| - 1;
      ScreenedMeaning(ids[..last], present, articles, user);
      assert ids == ids[..last] + [ids[last]];
    }
  }

  /** Otherwise the first requested article that is refused says why. */
  lemma {:induction false} ScreenedError(ids: seq<Id>, present: set<Id>, articles: Articles, user: Id) returns (k: nat)
    requires Screened(ids, present, articles, user).Err?
    ensures k < |ids| && ids[k] !in present && Screened(ids[..k], present, articles, user).Ok?
    ensures Screened(ids, present, articles, user).error
         == if ids[k] in articles && articles[ids[k]].state == Active then Forbidden else ArticleNotFound
    ensures ids[k] in articles && articles[ids[k]].state == Active ==> articles[ids[k]].author != user
  {
    k := |ids| - 1;
    if Screened(ids[..k], present, articles, user).Err? {
      var last := k;
      k := ScreenedError(ids[..last], present, articles, user);
      assert ids[..last][..k] == ids[..k];
    }
  }

  function Validated(collections: map<Id, Id>, rows: Rows, articles: Articles,
                     collection: Id, ids: seq<Id>, user: Id): Result<seq<Id>, CollectionError> {
    if collection !in collections then Err(CollectionNotFound)
    else if collections[collection] != user then Err(Forbidden)
    else
      var present := ShownIds(rows, articles, collection);
      if |present| + |ids| > MAX_ARTICLES_PER_COLLECTION_LIMIT then Err(CapacityExceeded)
      else Screened(ids, present, articles, user)
  }

  /** The insertion of `ids` from order `first` upwards. */
  function Inserted(rows: Rows, collection: Id, ids: seq<Id>, first: real): Rows {
    if ids == [] then rows
    else
      var last := |ids| - 1;
      Inserted(rows, collection, ids[..last], first)[Slot(collection, ids[last]) := first + last as real]
  }

  ghost predicate HasKeyConflict(rows: Rows, collection: Id, ids: seq<Id>) {
    !NoDuplicates(ids) || exists id <- ids :: Slot(collection, id) in rows
  }

  /**
   * Validation looks at active rows only, and still an insertion it lets through
   * breaks the unique key only if the request itself names a new article twice.
   */
  lemma ConflictOnlyWithItself(collections: map<Id, Id>, rows: Rows, articles: Articles,
                               collection: Id, ids: seq<Id>, user: Id)
    requires Validated(collections, rows, articles, collection, ids, user).Ok?
    ensures var accepted := Validated(collections, rows, articles, collection, ids, user).value;
            HasKeyConflict(rows, collection, accepted) <==> !NoDuplicates(accepted)
  {
    var present := ShownIds(rows, articles, collection);
    ScreenedMeaning(ids, present, articles, user);
    var accepted := Validated(collections, rows, articles, collection, ids, user).value;
    forall id | id in accepted
      ensures Slot(collection, id) !in rows
    {
      ShownWhen(rows, articles, collection, id);
    }
  }

  /** A request without duplicates that validates is inserted, and stays within the limit. */
  lemma ValidAddFits(collections: map<Id, Id>, rows: Rows, articles: Articles,
                     collection: Id, ids: seq<Id>, user: Id, first: real)
    requires Validated(collections, rows, articles, collection, ids, user).Ok? && NoDuplicates(ids)
    ensures var accepted := Validated(collections, rows, articles, collection, ids, user).value;
            && !HasKeyConflict(rows, collection, accepted)
            && |ShownIds(Inserted(rows, collection, accepted, first), articles, collection)| <= 400
            && (forall id <- ids :: id in ShownIds(Inserted(rows, collection, accepted, first), articles, collection))
  {
    var present := ShownIds(rows, articles, collection);
    var accepted := Validated(collections, rows, articles, collection, ids, user).value;
    ScreenedMeaning(ids, present, articles, user);
    AbsentKeepsDistinct(ids, present);
    ConflictOnlyWithItself(collections, rows, articles, collection, ids, user);
    ShownAfterInsert(rows, articles, collection, accepted, first);
    IdCount(accepted);
    assert |present + IdSet(accepted)| == |present| + |accepted|;
  }

  lemma {:induction false} AbsentKeepsDistinct(ids: seq<Id>, present: set<Id>)
    requires NoDuplicates(ids)
    ensures NoDuplicates(Absent(ids, present))
    ensures forall id <- Absent(ids, present) :: id in ids
  {
    if ids != [] {
      var last := |ids| - 1;
      AbsentKeepsDistinct(ids[..last], present);
      assert ids[last] !in ids[..last];
    }
  }

  lemma {:induction false} InsertedRows(rows: Rows, collection: Id, ids: seq<Id>, first: real)
    requires NoDuplicates(ids)
    ensures var after := Inserted(rows, collection, ids, first);
            && (forall s :: s in after <==> s in rows || (s.collection == collection && s.article in ids))
            && (forall i | 0 <= i < |ids| :: after[Slot(collection, ids[i])] == first + i as real)
            && (forall s <- rows | !(s.collection == collection && s.article in ids) :: after[s] == rows[s])
  {
    if ids != [] {
      var last := |ids| - 1;
      InsertedRows(rows, collection, ids[..last], first);
      assert ids == ids[..last] + [ids[last]];
    }
  }

  lemma ShownAfterInsert(rows: Rows, articles: Articles, collection: Id, ids: seq<Id>, first: real)
    requires NoDuplicates(ids) && forall id <- ids :: IsActive(articles, id)
    ensures ShownIds(Inserted(rows, collection, ids, first), articles, collection)
         == ShownIds(rows, articles, collection) + IdSet(ids)
  {
    InsertedRows(rows, collection, ids, first);
    var after := Inserted(rows, collection, ids, first);
    forall id | id in ids
      ensures id in ShownIds(after, articles, collection)
    {
      assert IsShown(articles, collection, Slot(collection, id)) && Slot(collection, id) in after;
    }
    forall id | id in ShownIds(rows, articles, collection)
      ensures id in ShownIds(after, articles, collection)
    {
      assert Slot(collection, id) in after;
    }
  }

  /** `first` is above the order of every row of the collection, shown or not. */
  ghost predicate IsAboveAll(rows: Rows, collection: Id, first: real) {
    first > 0.0 && forall s <- rows | s.collection == collection :: rows[s] < first
  }

  /** The list with the new articles on top, the last of them first. */
  function OnTop(ids: seq<Id>, first: real, list: seq<Placement>): seq<Placement> {
    if ids == [] then list
    else [Placement(ids[|ids| - 1], first + (|ids| - 1) as real)] + OnTop(ids[..|ids| - 1], first, list)
  }

  /**
   * New articles show before all older ones, in reverse of the order given, and the
   * older ones keep theirs.
   */
  lemma {:induction false} AddedOnTop(rows: Rows, articles: Articles, collection: Id,
                                      ids: seq<Id>, first: real, list: seq<Placement>)
    requires IsListing(rows, articles, collection, list)
    requires NoDuplicates(ids)
    requires forall id <- ids :: IsActive(articles, id) && Slot(collection, id) !in rows
    requires IsAboveAll(rows, collection, first)
    ensures IsListing(Inserted(rows, collection, ids, first), articles, collection, OnTop(ids, first, list))
    decreases |ids|
  {
    if ids != [] {
      var last := |ids| - 1;
      var before := Inserted(rows, collection, ids[..last], first);
      AddedOnTop(rows, articles, collection, ids[..last], first, list);
      InsertedIsBelow(rows, collection, ids[..last], first);
      LastIsNew(rows, collection, ids, first);
      OneOnTop(before, articles, collection, ids[last], first + last as real, OnTop(ids[..last], first, list));
    }
  }

  /** Whatever the collection listed, it now lists that with the new articles on top. */
  ghost predicate ShowsOnTop(rows: Rows, rows': Rows, articles: Articles, collection: Id, ids: seq<Id>) {
    forall list | IsListing(rows, articles, collection, list) :: IsOnTopOf(rows', articles, collection, ids, list)
  }

  ghost predicate IsOnTopOf(rows: Rows, articles: Articles, collection: Id, ids: seq<Id>, list: seq<Placement>) {
    exists first :: IsListing(rows, articles, collection, OnTop(ids, first, list))
  }

  lemma NothingOnTop(rows: Rows, articles: Articles, collection: Id)
    ensures ShowsOnTop(rows, rows, articles, collection, [])
  {
    forall list | IsListing(rows, articles, collection, list)
      ensures IsOnTopOf(rows, articles, collection, [], list)
    {
      assert OnTop([], 1.0, list) == list;
    }
  }

  lemma AddShowsOnTop(rows: Rows, articles: Articles, collection: Id, ids: seq<Id>, first: real)
    requires !HasKeyConflict(rows, collection, ids) && IsAboveAll(rows, collection, first)
    requires forall id <- ids :: IsActive(articles, id)
    ensures ShowsOnTop(rows, Inserted(rows, collection, ids, first), articles, collection, ids)
  {
    forall list | IsListing(rows, articles, collection, list)
      ensures IsOnTopOf(Inserted(rows, collection, ids, first), articles, collection, ids, list)
    {
      AddedOnTop(rows, articles, collection, ids, first, list);
    }
  }

  lemma LastIsNew(rows: Rows, collection: Id, ids: seq<Id>, first: real)
    requires NoDuplicates(ids) && ids != []
    requires Slot(collection, ids[|ids| - 1]) !in rows
    ensures Slot(collection, ids[|ids| - 1]) !in Inserted(rows, collection, ids[..|ids| - 1], first)
  {
    InsertedRows(rows, collection, ids[..|ids| - 1], first);
    assert ids[|ids| - 1] !in ids[..|ids| - 1];
  }

  lemma {:induction false} InsertedIsBelow(rows: Rows, collection: Id, ids: seq<Id>, first: real)
    requires IsAboveAll(rows, collection, first)
    ensures IsAboveAll(Inserted(rows, collection, ids, first), collection, first + |ids| as real)
    decreases |ids|
  {
    if ids != [] {
      InsertedIsBelow(rows, collection, ids[..|ids| - 1], first);
    }
  }

  lemma OneOnTop(rows: Rows, articles: Articles, collection: Id, id: Id, order: real, list: seq<Placement>)
    requires IsListing(rows, articles, collection, list)
    requires Slot(collection, id) !in rows && IsActive(articles, id)
    requires IsAboveAll(rows, collection, order)
    ensures IsListing(rows[Slot(collection, id) := order], articles, collection, [Placement(id, order)] + list)
  {
    var rows' := rows[Slot(collection, id) := order];
    var list' := [Placement(id, order)] + list;
    assert Ids(list') == [id] + Ids(list);
    assert id !in Ids(list);
    assert ShownIds(rows', articles, collection) == ShownIds(rows, articles, collection) + {id} by {
      assert IsShown(articles, collection, Slot(collection, id));
      forall a | a in ShownIds(rows, articles, collection)
        ensures a in ShownIds(rows', articles, collection)
      {
        assert Slot(collection, a) in rows';
      }
    }
  }

  lemma {:induction false} AddKeepsTidy(rows: Rows, articles: Articles, collection: Id, ids: seq<Id>, first: real)
    requires IsTidyTable(rows, articles) && IsAboveAll(rows, collection, first)
    ensures IsTidyTable(Inserted(rows, collection, ids, first), articles)
    decreases |ids|
  {
    if ids != [] {
      AddKeepsTidy(rows, articles, collection, ids[..|ids| - 1], first);
      InsertedIsBelow(rows, collection, ids[..|ids| - 1], first);
    }
  }

  /** Adding keeps all rows apart, since new orders are above all there are. */
  lemma {:induction false} AddKeepsApart(rows: Rows, collection: Id, ids: seq<Id>, first: real, c: Id)
    requires IsApart(rows, c) && IsAboveAll(rows, collection, first)
    ensures IsApart(Inserted(rows, collection, ids, first), c)
    decreases |ids|
  {
    if ids != [] {
      AddKeepsApart(rows, collection, ids[..|ids| - 1], first, c);
      InsertedIsBelow(rows, collection, ids[..|ids| - 1], first);
    }
  }

  /* ----- removing ----- */

  function Removed(rows: Rows, collection: Id, ids: seq<Id>): Rows {
    map s <- rows | !(s.collection == collection && s.article in ids) :: rows[s]
  }

  /** Removal takes the articles out of the listing and leaves the rest in order. */
  lemma {:induction false} RemovedFromListing(rows: Rows, articles: Articles, collection: Id,
                                              ids: seq<Id>, list: seq<Placement>)
    requires IsListing(rows, articles, collection, list)
    ensures IsListing(Removed(rows, collection, ids), articles, collection, Kept(list, ids))
  {
    var rows' := Removed(rows, collection, ids);
    KeptMembers(list, ids);
    KeptDistinct(list, ids);
    KeptDescends(list, ids);
    forall id
      ensures id in Ids(Kept(list, ids)) <==> id in ShownIds(rows', articles, collection)
    {
      KeptIds(list, ids, id);
      ShownWhen(rows, articles, collection, id);
      ShownWhen(rows', articles, collection, id);
    }
    forall i | 0 <= i < |Kept(list, ids)|
      ensures Kept(list, ids)[i] in list && Kept(list, ids)[i].id !in ids
    {
    }
  }

  lemma RemovedElsewhere(rows: Rows, articles: Articles, collection: Id, ids: seq<Id>, c: Id, list: seq<Placement>)
    requires IsListing(rows, articles, c, list) && c != collection
    ensures IsListing(Removed(rows, collection, ids), articles, c, list)
  {
    forall id
      ensures id in Ids(list) <==> id in ShownIds(Removed(rows, collection, ids), articles, c)
    {
      ShownWhen(rows, articles, c, id);
      ShownWhen(Removed(rows, collection, ids), articles, c, id);
    }
  }

  /** Removing what was just added gives the table back. */
  lemma RemoveUndoesAdd(rows: Rows, collection: Id, ids: seq<Id>, first: real)
    requires !HasKeyConflict(rows, collection, ids)
    ensures Removed(Inserted(rows, collection, ids, first), collection, ids) == rows
  {
    InsertedRows(rows, collection, ids, first);
  }

  function Kept(list: seq<Placement>, ids: seq<Id>): seq<Placement> {
    if list == [] then []
    else (if list[0].id in ids then [] else [list[0]]) + Kept(list[1..], ids)
  }

  lemma {:induction false} KeptMembers(list: seq<Placement>, ids: seq<Id>)
    ensures forall p :: p in Kept(list, ids) <==> p in list && p.id !in ids
  {
    if list != [] {
      KeptMembers(list[1..], ids);
      assert list == [list[0]] + list[1..];
    }
  }

  lemma IdIn(list: seq<Placement>, id: Id)
    ensures id in Ids(list) <==> exists p <- list :: p.id == id
  {
    if id in Ids(list) {
      var i :| 0 <= i < |list| && Ids(list)[i] == id;
      assert list[i] in list;
    }
    if p :| p in list && p.id == id {
      var i :| 0 <= i < |list| && list[i] == p;
      assert Ids(list)[i] == id;
    }
  }

  lemma KeptIds(list: seq<Placement>, ids: seq<Id>, id: Id)
    ensures id in Ids(Kept(list, ids)) <==> id in Ids(list) && id !in ids
  {
    KeptMembers(list, ids);
    IdIn(list, id);
    IdIn(Kept(list, ids), id);
  }

  ghost predicate IsNonIncreasing(list: seq<Placement>) {
    forall i, j | 0 <= i < j < |list| :: list[i].order >= list[j].order
  }

  lemma {:induction false} KeptDescends(list: seq<Placement>, ids: seq<Id>)
    requires IsNonIncreasing(list)
    ensures IsNonIncreasing(Kept(list, ids))
  {
    if list != [] {
      KeptDescends(list[1..], ids);
      KeptMembers(list[1..], ids);
      var rest := Kept(list[1..], ids);
      assert forall p <- list[1..] :: list[0].order >= p.order;
      assert forall i | 0 <= i < |rest| :: rest[i] in list[1..];
    }
  }

  lemma {:induction false} KeptDistinct(list: seq<Placement>, ids: seq<Id>)
    requires NoDuplicates(Ids(list))
    ensures NoDuplicates(Ids(Kept(list, ids)))
  {
    if list != [] {
      var rest := Kept(list[1..], ids);
      assert Ids(list[1..]) == Ids(list)[1..];
      KeptDistinct(list[1..], ids);
      if list[0].id !in ids {
        KeptIds(list[1..], ids, list[0].id);
        assert list[0].id !in Ids(list)[1..];
        HeadDistinct(list[0], rest);
      }
    }
  }

  lemma HeadDistinct(p: Placement, rest: seq<Placement>)
    requires NoDuplicates(Ids(rest)) && p.id !in Ids(rest)
    ensures NoDuplicates(Ids([p] + rest))
  {
    assert Ids([p] + rest) == [p.id] + Ids(rest);
  }
}
