/**
 * The order of a collection's articles (src/connectors/collectionService.ts).
 *
 * An article's position is not stored. Its row carries a fractional `order`,
 * the collection is read by descending order, and a move rewrites the one row it
 * concerns: first + 1 at the front, half of the last at the back, the midpoint of
 * the new neighbours anywhere else.
 */
module Ordering {
  import opened Common

  /** An article as read from the collection, with the order of its row. */
  datatype Placement = Placement(id: Id, order: real)

  datatype Move = Move(id: Id, newPosition: int)

  function Ids(list: seq<Placement>): (ids: seq<Id>)
    ensures |ids| == |list|
    ensures forall i | 0 <= i < |list| :: ids[i] == list[i].id
  {
    seq(|list|, i requires 0 <= i < |list| => list[i].id)
  }

  /* ----- taking out of a sequence, and putting in ----- */

  function RemoveAt<T>(s: seq<T>, i: nat): (r: seq<T>)
    requires i < |s|
    ensures |r| == |s| - 1
    ensures forall j | 0 <= j < |r| :: r[j] == s[if j < i then j else j + 1]
  {
    s[..i] + s[i + 1..]
  }

  function InsertAt<T>(s: seq<T>, n: nat, x: T): (r: seq<T>)
    requires n <= |s|
    ensures |r| == |s| + 1
    ensures forall j | 0 <= j < |r| :: r[j] == if j < n then s[j] else if j == n then x else s[j - 1]
  {
    s[..n] + [x] + s[n..]
  }

  lemma InsertUndoesRemove<T>(s: seq<T>, i: nat)
    requires i < |s|
    ensures InsertAt(RemoveAt(s, i), i, s[i]) == s
    ensures multiset(RemoveAt(s, i)) == multiset(s) - multiset{s[i]}
  {
    assert s == s[..i] + ([s[i]] + s[i + 1..]);
  }

  lemma InsertAddsOne<T>(s: seq<T>, n: nat, x: T)
    requires n <= |s|
    ensures multiset(InsertAt(s, n, x)) == multiset(s) + multiset{x}
  {
    assert multiset(s) == multiset(s[..n]) + multiset(s[n..]) by {
      assert s == s[..n] + s[n..];
    }
  }

  lemma RemoveUndoesInsert<T>(s: seq<T>, n: nat, x: T)
    requires n <= |s|
    ensures RemoveAt(InsertAt(s, n, x), n) == s
  {
  }

  /** After taking entry `i` out and putting `x` in at `n`, where the other entries come from. */
  lemma ReplacedEntry<T>(s: seq<T>, i: nat, n: nat, x: T, j: nat) returns (k: nat)
    requires i < |s| && n < |s| && j < |s| && j != n
    ensures k < |s| && k != i && InsertAt(RemoveAt(s, i), n, x)[j] == s[k]
  {
    var m := if j < n then j else j - 1;
    k := if m < i then m else m + 1;
  }

  /* ----- the meaning of a move: take the article out, put it back in ----- */

  function Without(ids: seq<Id>, id: Id): seq<Id> {
    if ids == [] then []
    else if ids[0] == id then Without(ids[1..], id)
    else [ids[0]] + Without(ids[1..], id)
  }

  function Moved(ids: seq<Id>, move: Move): seq<Id> {
    var others := Without(ids, move.id);
    if 0 <= move.newPosition <= |others| then InsertAt(others, move.newPosition, move.id) else ids
  }

  function AllMoved(ids: seq<Id>, moves: seq<Move>): seq<Id> {
    if moves == [] then ids else Moved(AllMoved(ids, moves[..|moves| - 1]), moves[|moves| - 1])
  }

  predicate IsValidMove(ids: seq<Id>, move: Move) {
    move.id in ids && 0 <= move.newPosition < |ids|
  }

  predicate AreValidMoves(ids: seq<Id>, moves: seq<Move>) {
    forall move <- moves :: IsValidMove(ids, move)
  }

  lemma {:induction false} WithoutAbsent(ids: seq<Id>, id: Id)
    requires id !in ids
    ensures Without(ids, id) == ids
  {
    if ids != [] {
      WithoutAbsent(ids[1..], id);
    }
  }

  lemma {:induction false} WithoutAt(ids: seq<Id>, i: nat)
    requires NoDuplicates(ids) && i < |ids|
    ensures Without(ids, ids[i]) == RemoveAt(ids, i)
  {
    if i == 0 {
      WithoutAbsent(ids[1..], ids[0]);
    } else {
      WithoutAt(ids[1..], i - 1);
      assert RemoveAt(ids, i) == [ids[0]] + RemoveAt(ids[1..], i - 1);
    }
  }

  /** On a duplicate-free list a move removes the article's index and inserts at the new one. */
  lemma MovedAt(ids: seq<Id>, i: nat, n: nat)
    requires NoDuplicates(ids) && i < |ids| && n < |ids|
    ensures Moved(ids, Move(ids[i], n)) == InsertAt(RemoveAt(ids, i), n, ids[i])
    ensures NoDuplicates(Moved(ids, Move(ids[i], n)))
  {
    WithoutAt(ids, i);
    var others := RemoveAt(ids, i);
    forall j | 0 <= j < |others|
      ensures others[j] != ids[i]
    {
      var k := if j < i then j else j + 1;
      assert others[j] == ids[k];
    }
    NoDuplicatesAfterInsert(others, n, ids[i]);
  }

  lemma NoDuplicatesAfterInsert(ids: seq<Id>, n: nat, id: Id)
    requires NoDuplicates(ids) && n <= |ids| && id !in ids
    ensures NoDuplicates(InsertAt(ids, n, id))
  {
  }

  /**
   * A valid move puts its article where it says and leaves the others in the
   * order they had.
   */
  lemma MovedMeaning(ids: seq<Id>, move: Move)
    requires NoDuplicates(ids) && IsValidMove(ids, move)
    ensures var after := Moved(ids, move);
            && |after| == |ids| && NoDuplicates(after) && multiset(after) == multiset(ids)
            && after[move.newPosition] == move.id
            && Without(after, move.id) == Without(ids, move.id)
  {
    var i :| 0 <= i < |ids| && ids[i] == move.id;
    MovedAt(ids, i, move.newPosition);
    MovedFrom(ids, i, move.newPosition);
  }

  lemma MovedFrom(ids: seq<Id>, i: nat, n: nat)
    requires NoDuplicates(ids) && i < |ids| && n < |ids|
    requires NoDuplicates(InsertAt(RemoveAt(ids, i), n, ids[i]))
    ensures var after := InsertAt(RemoveAt(ids, i), n, ids[i]);
            multiset(after) == multiset(ids) && Without(after, ids[i]) == Without(ids, ids[i])
  {
    MovedMembers(ids, i, n);
    WithoutAt(ids, i);
    WithoutAt(InsertAt(RemoveAt(ids, i), n, ids[i]), n);
    RemoveUndoesInsert(RemoveAt(ids, i), n, ids[i]);
  }

  lemma MovedMembers(ids: seq<Id>, i: nat, n: nat)
    requires i < |ids| && n < |ids|
    ensures multiset(InsertAt(RemoveAt(ids, i), n, ids[i])) == multiset(ids)
  {
    InsertUndoesRemove(ids, i);
    InsertAddsOne(RemoveAt(ids, i), n, ids[i]);
    assert ids[i] in multiset(ids);
  }

  lemma {:induction false} AllMovedKeepsArticles(ids: seq<Id>, moves: seq<Move>)
    requires NoDuplicates(ids) && AreValidMoves(ids, moves)
    ensures |AllMoved(ids, moves)| == |ids|
    ensures NoDuplicates(AllMoved(ids, moves))
    ensures multiset(AllMoved(ids, moves)) == multiset(ids)
  {
    if moves != [] {
      var last := |moves| - 1;
      AllMovedKeepsArticles(ids, moves[..last]);
      var before := AllMoved(ids, moves[..last]);
      assert moves[last] in moves;
      SameMembers(ids, before, moves[last].id);
      MovedMeaning(before, moves[last]);
    }
  }

  lemma SameMembers(a: seq<Id>, b: seq<Id>, id: Id)
    requires multiset(a) == multiset(b)
    ensures id in a <==> id in b
  {
    assert id in a <==> id in multiset(a);
    assert id in b <==> id in multiset(b);
  }

  /* ----- strictly descending, positive orders ----- */

  predicate IsDescending(list: seq<Placement>) {
    forall i, j | 0 <= i < j < |list| :: list[i].order > list[j].order
  }

  predicate IsPositive(list: seq<Placement>) {
    forall i | 0 <= i < |list| :: list[i].order > 0.0
  }

  predicate IsTidy(list: seq<Placement>) {
    NoDuplicates(Ids(list)) && IsDescending(list) && IsPositive(list)
  }

  function IndexOf(list: seq<Placement>, id: Id): (i: nat)
    ensures i <= |list|
    ensures i < |list| ==> list[i].id == id
    ensures forall j | 0 <= j < i :: list[j].id != id
  {
    if list == [] || list[0].id == id then 0 else 1 + IndexOf(list[1..], id)
  }

  predicate IsApplicable(list: seq<Placement>, move: Move) {
    0 <= move.newPosition < |list| && IndexOf(list, move.id) < |list|
  }

  /** The order a move gives its article, which is not yet at its new position. */
  function NewOrder(list: seq<Placement>, move: Move): real
    requires IsApplicable(list, move) && IndexOf(list, move.id) != move.newPosition
  {
    var n := move.newPosition;
    if n == 0 then
      list[0].order + 1.0
    else if n == |list| - 1 then
      list[n].order / 2.0
    else
      var others := RemoveAt(list, IndexOf(list, move.id));
      (others[n].order + others[n - 1].order) / 2.0
  }

  /** The list after a move. */
  function Reordered(list: seq<Placement>, move: Move): seq<Placement>
    requires IsApplicable(list, move)
  {
    var i := IndexOf(list, move.id);
    if i == move.newPosition then list
    else InsertAt(RemoveAt(list, i), move.newPosition, Placement(move.id, NewOrder(list, move)))
  }

  lemma ValidIsApplicable(list: seq<Placement>, move: Move)
    ensures IsValidMove(Ids(list), move) <==> IsApplicable(list, move)
  {
    if IsValidMove(Ids(list), move) {
      var i :| 0 <= i < |Ids(list)| && Ids(list)[i] == move.id;
      assert list[i].id == move.id;
    }
    if IsApplicable(list, move) {
      assert Ids(list)[IndexOf(list, move.id)] == move.id;
    }
  }

  /** The new order is positive and lies strictly between the new neighbours. */
  lemma NewOrderFits(list: seq<Placement>, move: Move)
    requires IsDescending(list) && IsPositive(list) && IsApplicable(list, move)
    requires IndexOf(list, move.id) != move.newPosition
    ensures var n, order := move.newPosition, NewOrder(list, move);
            var others := RemoveAt(list, IndexOf(list, move.id));
            && order > 0.0
            && (n > 0 ==> others[n - 1].order > order)
            && (n < |others| ==> order > others[n].order)
  {
  }

  lemma RemoveKeepsDescending(list: seq<Placement>, i: nat)
    requires IsDescending(list) && IsPositive(list) && i < |list|
    ensures IsDescending(RemoveAt(list, i)) && IsPositive(RemoveAt(list, i))
  {
  }

  lemma InsertKeepsDescending(others: seq<Placement>, n: nat, p: Placement)
    requires IsDescending(others) && IsPositive(others)
    requires n <= |others| && p.order > 0.0
    requires n > 0 ==> others[n - 1].order > p.order
    requires n < |others| ==> p.order > others[n].order
    ensures IsDescending(InsertAt(others, n, p)) && IsPositive(InsertAt(others, n, p))
  {
    assert forall k | 0 <= k < n :: others[k].order >= others[n - 1].order;
    assert forall k | n <= k < |others| :: others[n].order >= others[k].order;
  }

  /** The ids of a list after a removal and an insertion. */
  lemma IdsCommute(list: seq<Placement>, i: nat, n: nat, p: Placement)
    requires i < |list| && n < |list|
    ensures Ids(InsertAt(RemoveAt(list, i), n, p)) == InsertAt(RemoveAt(Ids(list), i), n, p.id)
  {
  }

  /** On the articles, a move is what a move means. */
  lemma ReorderedIds(list: seq<Placement>, move: Move)
    requires NoDuplicates(Ids(list)) && IsApplicable(list, move)
    ensures NoDuplicates(Ids(Reordered(list, move)))
    ensures Ids(Reordered(list, move)) == Moved(Ids(list), move)
  {
    var i, n := IndexOf(list, move.id), move.newPosition;
    assert Ids(list)[i] == move.id;
    MovedAt(Ids(list), i, n);
    if i == n {
      InsertUndoesRemove(Ids(list), i);
    } else {
      IdsCommute(list, i, n, Placement(move.id, NewOrder(list, move)));
    }
  }

  /** A move keeps the list tidy. */
  lemma ReorderedIsTidy(list: seq<Placement>, move: Move)
    requires IsTidy(list) && IsApplicable(list, move)
    ensures IsTidy(Reordered(list, move))
  {
    var i, n := IndexOf(list, move.id), move.newPosition;
    ReorderedIds(list, move);
    if i != n {
      NewOrderFits(list, move);
      RemoveKeepsDescending(list, i);
      InsertKeepsDescending(RemoveAt(list, i), n, Placement(move.id, NewOrder(list, move)));
    }
  }

  /** The list after several moves; one that does not apply is passed over. */
  function AllReordered(list: seq<Placement>, moves: seq<Move>): seq<Placement> {
    if moves == [] then
      list
    else
      var last := |moves| - 1;
      var before := AllReordered(list, moves[..last]);
      if IsApplicable(before, moves[last]) then Reordered(before, moves[last]) else before
  }

  /** On the articles, several moves are what they mean one after the other. */
  lemma {:induction false} AllReorderedIds(list: seq<Placement>, moves: seq<Move>)
    requires NoDuplicates(Ids(list)) && AreValidMoves(Ids(list), moves)
    ensures NoDuplicates(Ids(AllReordered(list, moves)))
    ensures Ids(AllReordered(list, moves)) == AllMoved(Ids(list), moves)
    decreases |moves|
  {
    if moves != [] {
      var last := |moves| - 1;
      AllReorderedIds(list, moves[..last]);
      NextIsApplicable(list, moves[..last], moves[last]);
      ReorderedIds(AllReordered(list, moves[..last]), moves[last]);
    }
  }

  /** Any number of valid moves keeps the list tidy. */
  lemma {:induction false} AllReorderedIsTidy(list: seq<Placement>, moves: seq<Move>)
    requires IsTidy(list) && AreValidMoves(Ids(list), moves)
    ensures IsTidy(AllReordered(list, moves))
    decreases |moves|
  {
    if moves != [] {
      var last := |moves| - 1;
      AllReorderedIsTidy(list, moves[..last]);
      AllReorderedIds(list, moves[..last]);
      NextIsApplicable(list, moves[..last], moves[last]);
      ReorderedIsTidy(AllReordered(list, moves[..last]), moves[last]);
    }
  }

  /** A move that is valid at first is still valid after other valid moves. */
  lemma NextIsApplicable(list: seq<Placement>, moves: seq<Move>, next: Move)
    requires NoDuplicates(Ids(list)) && AreValidMoves(Ids(list), moves)
    requires IsValidMove(Ids(list), next)
    requires Ids(AllReordered(list, moves)) == AllMoved(Ids(list), moves)
    ensures IsApplicable(AllReordered(list, moves), next)
  {
    AllMovedKeepsArticles(Ids(list), moves);
    SameMembers(Ids(list), AllMoved(Ids(list), moves), next.id);
    ValidIsApplicable(AllReordered(list, moves), next);
  }

  lemma LastMove(list: seq<Placement>, moves: seq<Move>)
    requires NoDuplicates(Ids(list)) && AreValidMoves(Ids(list), moves) && moves != []
    ensures var last := |moves| - 1;
            && AreValidMoves(Ids(list), moves[..last])
            && var before := AllReordered(list, moves[..last]);
               && NoDuplicates(Ids(before))
               && IsApplicable(before, moves[last])
               && AllReordered(list, moves) == Reordered(before, moves[last])
  {
    var last := |moves| - 1;
    assert moves[last] in moves;
    AllReorderedIds(list, moves[..last]);
    NextIsApplicable(list, moves[..last], moves[last]);
  }
}
