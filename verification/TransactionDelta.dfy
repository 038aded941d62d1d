/**
 * The view of balance changes per user
 * (db/migrations/20200408130304_create_transaction_delta_view.js).
 *
 * A transaction is a credit of its recipient and a debit of its sender. The view
 * joins the two lists with `union`, which drops duplicate rows; no money is lost.
 */
module TransactionDelta {
  import opened Common

  /** A row of `transaction`; its primary key `id` makes rows distinct, and other columns may be null. */
  datatype Transaction = Transaction(id: Id, amount: Option<real>, sender: Option<Id>, recipient: Option<Id>)

  /** A row of the view: the user, the change, and the transaction's own columns. */
  datatype Delta = Delta(user: Id, delta: Option<real>, trx: Transaction)

  function Negated(amount: Option<real>): Option<real> {
    if amount.Some? then Some(0.0 - amount.value) else None
  }

  function Credits(users: set<Id>, trxs: set<Transaction>): set<Delta> {
    set t <- trxs | t.recipient.Some? && t.recipient.value in users :: Delta(t.recipient.value, t.amount, t)
  }

  function Debits(users: set<Id>, trxs: set<Transaction>): set<Delta> {
    set t <- trxs | t.sender.Some? && t.sender.value in users :: Delta(t.sender.value, Negated(t.amount), t)
  }

  function View(users: set<Id>, trxs: set<Transaction>): set<Delta> {
    Credits(users, trxs) + Debits(users, trxs)
  }

  /* ----- sums; null amounts do not count ----- */

  function Amount(amount: Option<real>): real {
    if amount.Some? then amount.value else 0.0
  }

  ghost function Sum(rows: set<Delta>): real {
    if rows == {} then 0.0
    else
      var row :| row in rows;
      Amount(row.delta) + Sum(rows - {row})
  }

  lemma {:induction false} SumWithout(rows: set<Delta>, row: Delta)
    requires row in rows
    ensures Sum(rows) == Amount(row.delta) + Sum(rows - {row})
    decreases |rows|
  {
    var first: Delta :| first in rows && Sum(rows) == Amount(first.delta) + Sum(rows - {first});
    if first != row {
      SumWithout(rows - {first}, row);
      SumWithout(rows - {row}, first);
      assert (rows - {first}) - {row} == (rows - {row}) - {first};
    }
  }

  lemma {:induction false} SumOfBoth(a: set<Delta>, b: set<Delta>)
    requires a !! b
    ensures Sum(a + b) == Sum(a) + Sum(b)
    decreases |a|
  {
    if a == {} {
      assert a + b == b;
    } else {
      var row :| row in a;
      SumWithout(a + b, row);
      SumWithout(a, row);
      assert (a + b) - {row} == (a - {row}) + b;
      SumOfBoth(a - {row}, b);
    }
  }

  ghost function RowsOf(rows: set<Delta>, user: Id): set<Delta> {
    set row <- rows | row.user == user
  }

  /** What the user received, over transactions counted one by one. */
  ghost function Received(trxs: set<Transaction>, user: Id): real {
    if trxs == {} then 0.0
    else
      var t :| t in trxs;
      (if t.recipient == Some(user) then Amount(t.amount) else 0.0) + Received(trxs - {t}, user)
  }

  ghost function Sent(trxs: set<Transaction>, user: Id): real {
    if trxs == {} then 0.0
    else
      var t :| t in trxs;
      (if t.sender == Some(user) then Amount(t.amount) else 0.0) + Sent(trxs - {t}, user)
  }

  lemma {:induction false} ReceivedWithout(trxs: set<Transaction>, user: Id, t: Transaction)
    requires t in trxs
    ensures Received(trxs, user)
         == (if t.recipient == Some(user) then Amount(t.amount) else 0.0) + Received(trxs - {t}, user)
    decreases |trxs|
  {
    var first: Transaction :| first in trxs && Received(trxs, user)
      == (if first.recipient == Some(user) then Amount(first.amount) else 0.0) + Received(trxs - {first}, user);
    if first != t {
      ReceivedWithout(trxs - {first}, user, t);
      ReceivedWithout(trxs - {t}, user, first);
      assert (trxs - {first}) - {t} == (trxs - {t}) - {first};
    }
  }

  lemma {:induction false} SentWithout(trxs: set<Transaction>, user: Id, t: Transaction)
    requires t in trxs
    ensures Sent(trxs, user) == (if t.sender == Some(user) then Amount(t.amount) else 0.0) + Sent(trxs - {t}, user)
    decreases |trxs|
  {
    var first: Transaction :| first in trxs && Sent(trxs, user)
      == (if first.sender == Some(user) then Amount(first.amount) else 0.0) + Sent(trxs - {first}, user);
    if first != t {
      SentWithout(trxs - {first}, user, t);
      SentWithout(trxs - {t}, user, first);
      assert (trxs - {first}) - {t} == (trxs - {t}) - {first};
    }
  }

  /* ----- no money is lost ----- */

  function CreditOf(users: set<Id>, t: Transaction): set<Delta> {
    if t.recipient.Some? && t.recipient.value in users then {Delta(t.recipient.value, t.amount, t)} else {}
  }

  function DebitOf(users: set<Id>, t: Transaction): set<Delta> {
    if t.sender.Some? && t.sender.value in users then {Delta(t.sender.value, Negated(t.amount), t)} else {}
  }

  lemma ViewOfOne(users: set<Id>, t: Transaction)
    ensures View(users, {t}) == CreditOf(users, t) + DebitOf(users, t)
  {
  }

  /** What one transaction adds to the view: its credit less its debit, to the total and to each user. */
  lemma OneTransaction(users: set<Id>, t: Transaction)
    ensures Sum(View(users, {t})) ==
            (if t.recipient.Some? && t.recipient.value in users then Amount(t.amount) else 0.0)
            - if t.sender.Some? && t.sender.value in users then Amount(t.amount) else 0.0
  {
    ViewOfOne(users, t);
    SumOfFew(CreditOf(users, t), DebitOf(users, t));
  }

  lemma RowsOfBoth(a: set<Delta>, b: set<Delta>, user: Id)
    ensures RowsOf(a + b, user) == RowsOf(a, user) + RowsOf(b, user)
  {
  }

  lemma RowsOfParts(users: set<Id>, t: Transaction, user: Id)
    ensures RowsOf(CreditOf(users, t), user) == if t.recipient == Some(user) then CreditOf(users, t) else {}
    ensures RowsOf(DebitOf(users, t), user) == if t.sender == Some(user) then DebitOf(users, t) else {}
  {
  }

  lemma OneTransactionOf(users: set<Id>, t: Transaction, user: Id)
    requires user in users
    ensures Sum(RowsOf(View(users, {t}), user)) ==
            (if t.recipient == Some(user) then Amount(t.amount) else 0.0)
            - if t.sender == Some(user) then Amount(t.amount) else 0.0
  {
    var own := if t.recipient == Some(user) then CreditOf(users, t) else {};
    var owed := if t.sender == Some(user) then DebitOf(users, t) else {};
    ViewOfOne(users, t);
    RowsOfParts(users, t, user);
    RowsOfBoth(CreditOf(users, t), DebitOf(users, t), user);
    SumOfFew(own, owed);
  }

  /** Two sets of at most one row each: a row in both is a duplicate, worth nothing if credit and debit agree. */
  lemma SumOfFew(credits: set<Delta>, debits: set<Delta>)
    requires |credits| <= 1 && |debits| <= 1
    requires credits * debits != {} ==> forall row <- credits :: Amount(row.delta) == 0.0
    ensures Sum(credits + debits) == Sum(credits) + Sum(debits)
    ensures forall row <- credits :: Sum(credits) == Amount(row.delta)
    ensures forall row <- debits :: Sum(debits) == Amount(row.delta)
  {
    forall row | row in credits
      ensures credits == {row} && Sum(credits) == Amount(row.delta)
    {
      Singleton(credits, row);
      SumWithout(credits, row);
    }
    forall row | row in debits
      ensures debits == {row} && Sum(debits) == Amount(row.delta)
    {
      Singleton(debits, row);
      SumWithout(debits, row);
    }
    if row :| row in credits * debits {
      assert credits + debits == credits;
    } else {
      assert credits !! debits;
      SumOfBoth(credits, debits);
    }
  }

  lemma Singleton(rows: set<Delta>, row: Delta)
    requires |rows| <= 1 && row in rows
    ensures rows == {row}
  {
    assert |rows - {row}| == 0;
    assert rows == {row} + (rows - {row});
  }

  lemma ViewWithout(users: set<Id>, trxs: set<Transaction>, t: Transaction)
    requires t in trxs
    ensures View(users, trxs) == View(users, {t}) + View(users, trxs - {t})
    ensures View(users, {t}) !! View(users, trxs - {t})
  {
    assert trxs == {t} + (trxs - {t});
    assert forall row <- View(users, {t}) :: row.trx == t;
    assert forall row <- View(users, trxs - {t}) :: row.trx in trxs - {t};
  }

  /**
   * For every user the changes in the view add up to what the user received minus
   * what the user sent, although duplicate rows are dropped.
   */
  lemma {:induction false} UserBalance(users: set<Id>, trxs: set<Transaction>, user: Id)
    requires user in users
    ensures Sum(RowsOf(View(users, trxs), user)) == Received(trxs, user) - Sent(trxs, user)
    decreases |trxs|
  {
    if trxs == {} {
      assert RowsOf(View(users, trxs), user) == {};
    } else {
      var t :| t in trxs;
      ViewWithout(users, trxs, t);
      var one, rest := RowsOf(View(users, {t}), user), RowsOf(View(users, trxs - {t}), user);
      RowsOfBoth(View(users, {t}), View(users, trxs - {t}), user);
      SumOfBoth(one, rest);
      OneTransactionOf(users, t, user);
      UserBalance(users, trxs - {t}, user);
      ReceivedWithout(trxs, user, t);
      SentWithout(trxs, user, t);
    }
  }

  /** Both parties are users, or neither is. */
  predicate IsInternal(users: set<Id>, t: Transaction) {
    (t.recipient.Some? && t.recipient.value in users) == (t.sender.Some? && t.sender.value in users)
  }

  /** Transactions between two users add nothing to the total of the view. */
  lemma {:induction false} InternalTransactionsCancel(users: set<Id>, trxs: set<Transaction>)
    ensures Sum(View(users, trxs)) == Sum(View(users, set t <- trxs | !IsInternal(users, t)))
    decreases |trxs|
  {
    var outside := set t <- trxs | !IsInternal(users, t);
    if t :| t in trxs && IsInternal(users, t) {
      ViewWithout(users, trxs, t);
      SumOfBoth(View(users, {t}), View(users, trxs - {t}));
      OneTransaction(users, t);
      InternalTransactionsCancel(users, trxs - {t});
      assert (set t' <- trxs - {t} | !IsInternal(users, t')) == outside;
    } else {
      assert outside == trxs;
    }
  }

  /**
   * A transaction loses a row to `union` exactly when a user sends themself nothing:
   * the duplicate that is dropped is always worth zero.
   */
  lemma DuplicatesAreWorthless(users: set<Id>, t: Transaction)
    requires t.recipient.Some? && t.recipient.value in users && t.sender.Some? && t.sender.value in users
    ensures |View(users, {t})| == (if t.sender == t.recipient && Amount(t.amount) == 0.0 then 1 else 2)
  {
    var credit, debit := Delta(t.recipient.value, t.amount, t), Delta(t.sender.value, Negated(t.amount), t);
    assert View(users, {t}) == {credit, debit};
    if t.sender == t.recipient && Amount(t.amount) == 0.0 {
      assert credit == debit;
    }
  }
}
