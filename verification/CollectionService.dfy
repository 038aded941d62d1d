/** The operations on collections (src/connectors/collectionService.ts). */
module CollectionServices {
  import opened Common
  import opened Ordering
  import opened CollectionTable
  import opened CollectionRuns

  /* ----- pages of a collection ----- */

  function Backwards(list: seq<Placement>): (r: seq<Placement>)
    ensures |r| == |list|
    ensures forall i | 0 <= i < |r| :: r[i] == list[|list| - 1 - i]
  {
    if list == [] then [] else Backwards(list[1..]) + [list[0]]
  }

  /** The offset and limit of a query, where they are given: record `i` of the page is record `skip + i` of the list. */
  function PageOf(list: seq<Placement>, skip: Option<nat>, take: Option<nat>): (page: seq<Placement>)
    ensures var first := if skip.Some? then skip.value else 0;
            && (forall i | 0 <= i < |page| :: first + i < |list| && page[i] == list[first + i])
            && (page == [] || first + |page| == |list| || (take.Some? && |page| == take.value))
            && (page == [] ==> |list| <= first || (take.Some? && take.value == 0))
            && (take.Some? ==> |page| <= take.value)
  {
    var rest := if skip.None? then list else if skip.value <= |list| then list[skip.value..] else [];
    if take.None? || |rest| <= take.value then rest else rest[..take.value]
  }

  /* ----- the service ----- */

  class CollectionService {
    /** The author of every collection. */
    var collections: map<Id, Id>
    var articles: Articles
    var rows: Rows

    /**
     * A page of the collection, read from the top or, if not `reversed`, from the
     * bottom, and the number of articles in all. The number comes with the records, so
     * without records it reads as zero.
     */
    method FindAndCountArticlesInCollection(collection: Id, skip: Option<nat>, take: Option<nat>, reversed: bool)
      returns (records: seq<Placement>, count: nat)
      ensures exists list :: IsListing(rows, articles, collection, list)
                             && records == PageOf(if reversed then list else Backwards(list), skip, take)
      ensures count == if records == [] then 0 else |ShownIds(rows, articles, collection)|
    {
      var list := ReadByOrder(collection);
      records := PageOf(if reversed then list else Backwards(list), skip, take);
      count := if records == [] then 0 else |list|;
      ListingLength(rows, articles, collection, list);
    }

    /** The join on active articles, ordered by descending `order`. */
    method ReadByOrder(collection: Id) returns (list: seq<Placement>)
      ensures IsListing(rows, articles, collection, list)
    {
      var rest := ShownIds(rows, articles, collection);
      list := [];
      while rest != {}
        invariant NoDuplicates(Ids(list))
        invariant forall id :: id in Ids(list) <==> id in ShownIds(rows, articles, collection) && id !in rest
        invariant rest <= ShownIds(rows, articles, collection)
        invariant forall i | 0 <= i < |list| ::
                    Slot(collection, list[i].id) in rows && rows[Slot(collection, list[i].id)] == list[i].order
        invariant forall i, j | 0 <= i < j < |list| :: list[i].order >= list[j].order
        invariant forall i, id | 0 <= i < |list| && id in rest ::
                    Slot(collection, id) in rows && list[i].order >= rows[Slot(collection, id)]
        decreases rest
      {
        AllShownHaveRows(rows, articles, collection);
        HighestExists(rows, collection, rest);
        var top: Id :| top in rest && forall id <- rest :: rows[Slot(collection, id)] <= rows[Slot(collection, top)];
        ghost var before := list;
        list := list + [Placement(top, rows[Slot(collection, top)])];
        assert Ids(list) == Ids(before) + [top];
        rest := rest - {top};
      }
    }

    method ValidateCollection(collection: Id, newArticlesCount: nat, user: Id)
      returns (r: Result<seq<Placement>, CollectionError>)
      ensures collection !in collections ==> r == Err(CollectionNotFound)
      ensures collection in collections && collections[collection] != user ==> r == Err(Forbidden)
      ensures collection in collections && collections[collection] == user ==>
                if |ShownIds(rows, articles, collection)| + newArticlesCount > 400
                then r == Err(CapacityExceeded)
                else r.Ok? && IsListing(rows, articles, collection, r.value)
    {
      if collection !in collections {
        return Err(CollectionNotFound);
      }
      if collections[collection] != user {
        return Err(Forbidden);
      }
      var records, count := FindAndCountArticlesInCollection(collection, None, Some(MAX_ARTICLES_PER_COLLECTION_LIMIT), true);
      ghost var list :| IsListing(rows, articles, collection, list)
                        && records == PageOf(list, None, Some(MAX_ARTICLES_PER_COLLECTION_LIMIT));
      ListingLength(rows, articles, collection, list);
      if count + newArticlesCount > MAX_ARTICLES_PER_COLLECTION_LIMIT {
        return Err(CapacityExceeded);
      }
      return Ok(records);
    }

    method ValidateAddArticles(collection: Id, articleIds: seq<Id>, user: Id)
      returns (r: Result<seq<Id>, CollectionError>)
      ensures r == Validated(collections, rows, articles, collection, articleIds, user)
    {
      var original := ValidateCollection(collection, |articleIds|, user);
      if original.Err? {
        return Err(original.error);
      }
      var originalIds := Ids(original.value);
      ghost var present := ShownIds(rows, articles, collection);
      var accepted := [];
      for k := 0 to |articleIds|
        invariant Screened(articleIds[..k], present, articles, user) == Ok(accepted)
      {
        assert articleIds[..k + 1][..k] == articleIds[..k];
        var id := articleIds[k];
        if id in originalIds {
          continue;
        }
        if !IsActive(articles, id) {
          ScreenedStops(articleIds, k + 1, present, articles, user);
          return Err(ArticleNotFound);
        }
        if articles[id].author != user {
          ScreenedStops(articleIds, k + 1, present, articles, user);
          return Err(Forbidden);
        }
        accepted := accepted + [id];
      }
      assert articleIds[..|articleIds|] == articleIds;
      return Ok(accepted);
    }

    method AddArticles(collection: Id, articleIds: seq<Id>, user: Id) returns (r: Result<(), CollectionError>)
      modifies this`rows
      ensures Yields(collections, articles, old(rows), Add(collection, articleIds, user), rows)
      ensures r == match Validated(collections, old(rows), articles, collection, articleIds, user)
                   case Err(e) => Err(e)
                   case Ok(accepted) => if NoDuplicates(accepted) then Ok(()) else Err(UniqueViolation)
      ensures IsTidyTable(old(rows), articles) ==> IsTidyTable(rows, articles)
      ensures r.Ok? ==> |ShownIds(rows, articles, collection)| <= 400
      ensures r.Ok? && IsTidyTable(old(rows), articles) ==>
                ShowsOnTop(old(rows), rows, articles, collection,
                           Absent(articleIds, ShownIds(old(rows), articles, collection)))
    {
      var validated := ValidateAddArticles(collection, articleIds, user);
      if validated.Err? {
        return Err(validated.error);
      }
      var accepted := validated.value;
      ConflictOnlyWithItself(collections, rows, articles, collection, articleIds, user);
      ScreenedMeaning(articleIds, ShownIds(rows, articles, collection), articles, user);
      if accepted == [] {
        NothingOnTop(rows, articles, collection);
        return Ok(());
      }
      var first := InitOrder(collection);
      if !NoDuplicates(accepted) || exists id <- accepted :: Slot(collection, id) in rows {
        return Err(UniqueViolation);
      }
      rows := InsertRows(collection, accepted, first);
      WithinLimit(old(rows), collection, articleIds, user, first);
      if IsTidyTable(old(rows), articles) {
        YieldsTidy(collections, articles, old(rows), Add(collection, articleIds, user), rows);
        InitOrderIsAboveAll(old(rows), articles, collection, first);
        AddShowsOnTop(old(rows), articles, collection, accepted, first);
      }
      return Ok(());
    }

    lemma WithinLimit(rows: Rows, collection: Id, ids: seq<Id>, user: Id, first: real)
      requires Validated(collections, rows, articles, collection, ids, user).Ok?
      requires NoDuplicates(Validated(collections, rows, articles, collection, ids, user).value)
      ensures var accepted := Validated(collections, rows, articles, collection, ids, user).value;
              |ShownIds(Inserted(rows, collection, accepted, first), articles, collection)|
              <= MAX_ARTICLES_PER_COLLECTION_LIMIT
    {
      var present := ShownIds(rows, articles, collection);
      var accepted := Validated(collections, rows, articles, collection, ids, user).value;
      ScreenedMeaning(ids, present, articles, user);
      ShownAfterInsert(rows, articles, collection, accepted, first);
      IdCount(accepted);
    }

    method InitOrder(collection: Id) returns (first: real)
      ensures IsInitOrder(rows, collection, first)
    {
      var slots := set s <- rows | s.collection == collection;
      assert forall s <- rows | s.collection == collection :: s in slots;
      if slots == {} {
        return 1.0;
      }
      HighestSlotExists(rows, slots);
      var top: Slot :| top in slots && forall s <- slots :: rows[s] <= rows[top];
      return rows[top] + 1.0;
    }

    method InsertRows(collection: Id, accepted: seq<Id>, first: real) returns (inserted: Rows)
      ensures inserted == Inserted(rows, collection, accepted, first)
    {
      inserted := rows;
      for index := 0 to |accepted|
        invariant inserted == Inserted(rows, collection, accepted[..index], first)
      {
        assert accepted[..index + 1][..index] == accepted[..index];
        inserted := inserted[Slot(collection, accepted[index]) := first + index as real];
      }
      assert accepted[..|accepted|] == accepted;
    }

    /**
     * Deletes rows whether they show or not. Every listing of the collection loses the
     * articles and keeps the others in order; other collections list as before.
     */
    method RemoveArticles(collection: Id, articleIds: seq<Id>)
      modifies this`rows
      ensures Yields(collections, articles, old(rows), Remove(collection, articleIds), rows)
      ensures forall list | IsListing(old(rows), articles, collection, list) ::
                IsListing(rows, articles, collection, Kept(list, articleIds))
      ensures forall c, list | c != collection && IsListing(old(rows), articles, c, list) ::
                IsListing(rows, articles, c, list)
      ensures IsTidyTable(old(rows), articles) ==> IsTidyTable(rows, articles)
    {
      rows := map s <- rows | !(s.collection == collection && s.article in articleIds) :: rows[s];
      forall list | IsListing(old(rows), articles, collection, list)
        ensures IsListing(rows, articles, collection, Kept(list, articleIds))
      {
        RemovedFromListing(old(rows), articles, collection, articleIds, list);
      }
      forall c, list | c != collection && IsListing(old(rows), articles, c, list)
        ensures IsListing(rows, articles, c, list)
      {
        RemovedElsewhere(old(rows), articles, collection, articleIds, c, list);
      }
    }

    /**
     * Applies the moves, or none of them if any is invalid. `before` is the
     * collection as read at the start and `after` the list in memory at the end.
     */
    method ReorderArticles(collection: Id, moves: seq<Move>)
      returns (r: Result<(), CollectionError>, ghost before: seq<Placement>, after: seq<Placement>)
      modifies this`rows
      ensures IsListing(old(rows), articles, collection, before)
      ensures r == if exists move <- moves :: !(0 <= move.newPosition < |before|) then Err(InvalidNewPosition)
                   else if exists move <- moves :: move.id !in Ids(before) then Err(InvalidArticleId)
                   else Ok(())
      ensures r.Err? ==> rows == old(rows) && after == before
      ensures r.Ok? ==> after == AllReordered(before, moves) && Ids(after) == AllMoved(Ids(before), moves)
      ensures r.Ok? ==> IsRewrite(old(rows), rows, collection, after)
      ensures IsTidyTable(old(rows), articles) ==>
                IsTidyTable(rows, articles) && IsListing(rows, articles, collection, after)
      ensures Yields(collections, articles, old(rows), Reorder(collection, moves), rows)
    {
      var collectionArticles, count := FindAndCountArticlesInCollection(collection, None, None, true);
      before, after := collectionArticles, collectionArticles;
      ListingLength(rows, articles, collection, before);

      if exists move <- moves :: !(0 <= move.newPosition < count) {
        return Err(InvalidNewPosition), before, after;
      }
      var articleIds := Ids(collectionArticles);
      if exists move <- moves :: move.id !in articleIds {
        return Err(InvalidArticleId), before, after;
      }
      assert AreValidMoves(Ids(before), moves);

      after := ApplyMoves(collection, collectionArticles, count, moves);
      ReorderDone(collections, articles, old(rows), rows, collection, before, moves);
      return Ok(()), before, after;
    }

    /** The loop over the moves: each rewrites at most one row and keeps the list in step with it. */
    method ApplyMoves(collection: Id, list: seq<Placement>, count: nat, moves: seq<Move>) returns (after: seq<Placement>)
      requires IsListing(rows, articles, collection, list) && count == |list|
      requires AreValidMoves(Ids(list), moves)
      modifies this`rows
      ensures after == AllReordered(list, moves)
      ensures IsRewrite(old(rows), rows, collection, after)
    {
      after := list;
      for k := 0 to |moves|
        invariant after == AllReordered(list, moves[..k])
        invariant |after| == count
        invariant IsRewrite(old(rows), rows, collection, after)
      {
        assert moves[..k + 1][..k] == moves[..k];
        LastMove(list, moves[..k + 1]);
        label before_move:
        ghost var current := after;
        if IndexOf(after, moves[k].id) == moves[k].newPosition {
          continue;
        }
        after := MoveArticle(collection, after, count, moves[k]);
        RewriteStep(old(rows), old@before_move(rows), collection, current, moves[k]);
      }
      assert moves[..|moves|] == moves;
    }

    /** One move that changes something: rewrites its row and rearranges the list in memory. */
    method MoveArticle(collection: Id, list: seq<Placement>, count: nat, move: Move) returns (moved: seq<Placement>)
      requires count == |list| && IsApplicable(list, move) && IndexOf(list, move.id) != move.newPosition
      modifies this`rows
      ensures rows == old(Updated(collection, move.id, NewOrder(list, move)))
      ensures moved == Reordered(list, move)
    {
      var i := IndexOf(list, move.id);
      if move.newPosition == 0 {
        var order := list[0].order + 1.0;
        rows := Updated(collection, move.id, order);
        moved := [Placement(move.id, order)] + RemoveAt(list, i);
      } else if move.newPosition == count - 1 {
        var lastOrder := list[count - 1].order;
        var order := lastOrder / 2.0;
        rows := Updated(collection, move.id, order);
        moved := RemoveAt(list, i) + [Placement(move.id, order)];
      } else {
        moved := RemoveAt(list, i);
        var prevOrder := moved[move.newPosition].order;
        var nextOrder := moved[move.newPosition - 1].order;
        var order := (prevOrder + nextOrder) / 2.0;
        rows := Updated(collection, move.id, order);
        moved := InsertAt(moved, move.newPosition, Placement(move.id, order));
      }
    }

    /** `update collection_article set order = ... where article_id = ... and collection_id = ...` */
    function Updated(collection: Id, article: Id, order: real): Rows
      reads this`rows
    {
      if Slot(collection, article) in rows then rows[Slot(collection, article) := order] else rows
    }
  }

  lemma AllShownHaveRows(rows: Rows, articles: Articles, collection: Id)
    ensures forall id <- ShownIds(rows, articles, collection) :: Slot(collection, id) in rows
  {
    forall id | id in ShownIds(rows, articles, collection)
      ensures Slot(collection, id) in rows
    {
      ShownWhen(rows, articles, collection, id);
    }
  }

  lemma {:induction false} HighestExists(rows: Rows, collection: Id, ids: set<Id>)
    requires ids != {} && forall id <- ids :: Slot(collection, id) in rows
    ensures exists top :: top in ids && forall id <- ids :: rows[Slot(collection, id)] <= rows[Slot(collection, top)]
  {
    var slots := set id <- ids :: Slot(collection, id);
    var some :| some in ids;
    assert Slot(collection, some) in slots;
    HighestSlotExists(rows, slots);
    var top :| top in slots && forall s <- slots :: rows[s] <= rows[top];
    assert forall id <- ids :: Slot(collection, id) in slots;
    assert top.article in ids;
  }

  lemma {:induction false} HighestSlotExists(rows: Rows, slots: set<Slot>)
    requires slots != {} && forall s <- slots :: s in rows
    ensures exists top :: top in slots && forall s <- slots :: rows[s] <= rows[top]
  {
    var some :| some in slots;
    var rest := slots - {some};
    assert forall s <- slots :: s == some || s in rest;
    if rest != {} {
      HighestSlotExists(rows, rest);
      var best :| best in rest && forall s <- rest :: rows[s] <= rows[best];
      var top := if rows[best] < rows[some] then some else best;
      assert top in slots && forall s <- slots :: rows[s] <= rows[top];
    }
  }

  lemma {:induction false} ScreenedStops(ids: seq<Id>, k: nat, present: set<Id>, articles: Articles, user: Id)
    requires k <= |ids| && Screened(ids[..k], present, articles, user).Err?
    ensures Screened(ids, present, articles, user) == Screened(ids[..k], present, articles, user)
    decreases |ids|
  {
    if k < |ids| {
      var last := |ids| - 1;
      assert ids[..last][..k] == ids[..k];
      ScreenedStops(ids[..last], k, present, articles, user);
    } else {
      assert ids[..k] == ids;
    }
  }
}
