/** Types shared by the models of the server's services. */
module Common {

  /** A database identifier: an unsigned big integer. */
  type Id = nat

  /** A nullable column or an absent argument. */
  datatype Option<+T> = None | Some(value: T)

  /** An operation either returns a value or throws. */
  datatype Result<+T, +E> = Ok(value: T) | Err(error: E)

  /** Tables are finite, so a sequence can always issue an identifier not in use. */
  lemma {:induction false} FreshIdExists(used: set<Id>)
    ensures exists id: Id :: id !in used
  {
    var bound := BoundAbove(used);
    assert bound !in used;
  }

  ghost function BoundAbove(used: set<Id>): (bound: Id)
    ensures forall id | id in used :: id < bound
  {
    if used == {} then
      0
    else
      var id :| id in used;
      var rest := BoundAbove(used - {id});
      assert forall x <- used :: x == id || x in used - {id};
      if id < rest then rest else id + 1
  }

  /* ----- lists and sets ----- */

  /** A list with `f` applied to each of its elements. */
  function Each<T, U>(s: seq<T>, f: T -> U): (r: seq<U>)
    ensures |r| == |s|
    ensures forall i | 0 <= i < |s| :: r[i] == f(s[i])
  {
    seq(|s|, i requires 0 <= i < |s| => f(s[i]))
  }

  predicate NoDuplicates(ids: seq<Id>) {
    forall i, j | 0 <= i < j < |ids| :: ids[i] != ids[j]
  }

  function IdSet(ids: seq<Id>): set<Id> {
    set id <- ids
  }

  lemma {:induction false} IdCount(ids: seq<Id>)
    ensures |IdSet(ids)| <= |ids|
    ensures |IdSet(ids)| == |ids| <==> NoDuplicates(ids)
  {
    if ids != [] {
      var last := |ids| - 1;
      IdCount(ids[..last]);
      assert ids == ids[..last] + [ids[last]];
      assert IdSet(ids) == IdSet(ids[..last]) + {ids[last]};
      if ids[last] in ids[..last] {
        assert IdSet(ids) == IdSet(ids[..last]);
        var i :| 0 <= i < last && ids[..last][i] == ids[last];
        assert ids[i] == ids[last];
      } else {
        assert forall i | 0 <= i < last :: ids[i] == ids[..last][i] && ids[i] in ids[..last];
      }
    }
  }

  lemma {:induction false} SubsetCount<T>(a: set<T>, b: set<T>)
    requires a <= b
    ensures |a| <= |b|
    ensures |a| == |b| <==> a == b
  {
    assert b == a + (b - a);
    assert |b| == |a| + |b - a|;
  }
}
