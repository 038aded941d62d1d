/**
 * The migration of invited members to Matters subscriptions
 * (db/migrations/20210427123109_migrate_subscription.js).
 *
 * For every accepted invitation the migration moves one Stripe subscription item
 * of the invited user under a free Matters subscription, and cancels the user's
 * Stripe subscription when that leaves it empty.
 */
module MigrateSubscription {
  import opened Common

  datatype Provider = Stripe | Matters
  datatype SubscriptionState = Active | PastDue | Unpaid | Canceled | Incomplete | IncompleteExpired | Trialing

  datatype User = User(email: Option<string>)
  datatype Price = Price(circle: Id, active: bool)
  datatype Subscription = Subscription(provider: Provider, user: Id, state: SubscriptionState)
  /** `archived` is a nullable column: a null is neither true nor false. */
  datatype Item = Item(user: Id, subscription: Id, price: Id, provider: Provider, archived: Option<bool>)
  datatype Invitation = Invitation(
    id: Id, user: Option<Id>, email: Option<string>, circle: Id,
    accepted: bool, acceptedAt: Option<int>, item: Option<Id>)

  datatype Db = Db(
    users: map<Id, User>,
    prices: map<Id, Price>,
    subscriptions: map<Id, Subscription>,
    items: map<Id, Item>,
    invitations: map<Id, Invitation>)

  /** The foreign key of items. */
  predicate IsConsistent(db: Db) {
    forall i <- db.items :: db.items[i].subscription in db.subscriptions
  }

  /* ----- what the queries select ----- */

  predicate HasContact(invt: Invitation) {
    invt.user.Some? || (invt.email.Some? && invt.email.value != "")
  }

  predicate IsInvited(db: Db, invt: Invitation, user: Id) {
    && user in db.users
    && if invt.user.Some? then user == invt.user.value else db.users[user].email == invt.email
  }

  predicate IsLive(item: Item) {
    item.archived == Some(false)
  }

  /** Step 1: a live Stripe item of the user for an active price of the circle. */
  predicate IsMigratable(db: Db, invt: Invitation, user: Id, item: Id) {
    && item in db.items
    && IsLive(db.items[item])
    && db.items[item].provider == Stripe
    && db.items[item].user == user
    && db.items[item].price in db.prices
    && db.prices[db.items[item].price].circle == invt.circle
    && db.prices[db.items[item].price].active
  }

  predicate InForce(subscription: Subscription) {
    subscription.state == Active || subscription.state == Trialing
  }

  /** Step 2: any Stripe subscription of the user, not necessarily the item's. */
  predicate IsStripeSubscription(db: Db, user: Id, subscription: Id) {
    && subscription in db.subscriptions
    && db.subscriptions[subscription].provider == Stripe
    && db.subscriptions[subscription].user == user
    && InForce(db.subscriptions[subscription])
  }

  predicate IsMattersSubscription(db: Db, user: Id, subscription: Id) {
    subscription in db.subscriptions && db.subscriptions[subscription] == Subscription(Matters, user, Trialing)
  }

  /** Step 3: a live Matters item for the same user and price. */
  predicate IsMattersItem(items: map<Id, Item>, user: Id, subscription: Id, price: Id, item: Id) {
    item in items && items[item] == Item(user, subscription, price, Matters, Some(false))
  }

  /* ----- one invitation ----- */

  /**
   * What the queries found for one invitation. No query says which of several
   * matching rows comes first, so the choice is free; the identifiers of inserted
   * rows are any unused ones.
   */
  datatype Choice =
    | NoContact
    | UserNotFound
    | ItemNotFound(user: Id)
    | SubscriptionNotFound(user: Id)
    | Migrate(user: Id, item: Id, subscription: Id, mattersSubscription: Id, mattersItem: Id)

  ghost predicate IsPossible(db: Db, invt: Invitation, c: Choice) {
    match c
    case NoContact =>
      !HasContact(invt)
    case UserNotFound =>
      HasContact(invt) && forall u :: !IsInvited(db, invt, u)
    case ItemNotFound(user) =>
      HasContact(invt) && IsInvited(db, invt, user) && forall i :: !IsMigratable(db, invt, user, i)
    case SubscriptionNotFound(user) =>
      && HasContact(invt) && IsInvited(db, invt, user)
      && (exists i :: IsMigratable(db, invt, user, i))
      && forall s :: !IsStripeSubscription(db, user, s)
    case Migrate(user, item, subscription, ms, mi) =>
      && HasContact(invt) && IsInvited(db, invt, user)
      && IsMigratable(db, invt, user, item)
      && IsStripeSubscription(db, user, subscription)
      && (|| IsMattersSubscription(db, user, ms)
          || (ms !in db.subscriptions && forall s :: !IsMattersSubscription(db, user, s)))
      && var price := db.items[item].price;
         || IsMattersItem(db.items, user, ms, price, mi)
         || (mi !in db.items && forall i :: !IsMattersItem(db.items, user, ms, price, i))
  }

  function WithSubscription(subscriptions: map<Id, Subscription>, ms: Id, user: Id): map<Id, Subscription> {
    if ms in subscriptions then subscriptions else subscriptions[ms := Subscription(Matters, user, Trialing)]
  }

  function WithItem(items: map<Id, Item>, mi: Id, user: Id, ms: Id, price: Id): map<Id, Item> {
    if mi in items then items else items[mi := Item(user, ms, price, Matters, Some(false))]
  }

  function Linked(invitations: map<Id, Invitation>, v: Id, mi: Id): map<Id, Invitation> {
    if v in invitations then invitations[v := invitations[v].(item := Some(mi))] else invitations
  }

  function WithArchived(items: map<Id, Item>, item: Id): map<Id, Item> {
    if item in items then items[item := items[item].(archived := Some(true))] else items
  }

  /** Step 6: some live item is under the subscription. */
  predicate HasLiveItem(items: map<Id, Item>, subscription: Id) {
    exists i <- items :: IsLive(items[i]) && items[i].subscription == subscription
  }

  function WithCanceled(subscriptions: map<Id, Subscription>, s: Id): map<Id, Subscription> {
    if s in subscriptions then subscriptions[s := subscriptions[s].(state := Canceled)] else subscriptions
  }

  /** The tables after one invitation, the queries having found `c`. */
  ghost function Step(db: Db, invt: Invitation, c: Choice): Db
    requires IsPossible(db, invt, c)
  {
    if !c.Migrate? then
      db
    else
      var items := WithItem(db.items, c.mattersItem, c.user, c.mattersSubscription, db.items[c.item].price);
      var items := WithArchived(items, c.item);
      var subscriptions := WithSubscription(db.subscriptions, c.mattersSubscription, c.user);
      Db(
        db.users,
        db.prices,
        if HasLiveItem(items, c.subscription) then subscriptions else WithCanceled(subscriptions, c.subscription),
        items,
        Linked(db.invitations, invt.id, c.mattersItem))
  }

  /* ----- the whole run ----- */

  /** `choices` is one way the run over `invts` can go. */
  ghost predicate IsRun(db: Db, invts: seq<Invitation>, choices: seq<Choice>)
    decreases |invts|, 0
  {
    && |invts| == |choices|
    && (invts == [] || (
          var n := |invts| - 1;
          && IsRun(db, invts[..n], choices[..n])
          && IsPossible(Run(db, invts[..n], choices[..n]), invts[n], choices[n])))
  }

  ghost function Run(db: Db, invts: seq<Invitation>, choices: seq<Choice>): Db
    requires IsRun(db, invts, choices)
    decreases |invts|, 1
  {
    if invts == [] then
      db
    else
      var n := |invts| - 1;
      Step(Run(db, invts[..n], choices[..n]), invts[n], choices[n])
  }

  /* ----- what a run may change ----- */

  predicate SubscriptionEvolved(before: Subscription, after: Subscription) {
    after == before || (before.provider == Stripe && InForce(before) && after == before.(state := Canceled))
  }

  predicate ItemEvolved(before: Item, after: Item) {
    after == before || (before.provider == Stripe && IsLive(before) && after == before.(archived := Some(true)))
  }

  /**
   * A run only adds Matters rows, archives live Stripe items, cancels Stripe
   * subscriptions in force, and links invitations.
   */
  ghost predicate Evolved(db: Db, db': Db) {
    && db'.users == db.users && db'.prices == db.prices
    && db.subscriptions.Keys <= db'.subscriptions.Keys
    && (forall s <- db.subscriptions :: SubscriptionEvolved(db.subscriptions[s], db'.subscriptions[s]))
    && (forall s <- db'.subscriptions | s !in db.subscriptions ::
          db'.subscriptions[s].provider == Matters && db'.subscriptions[s].state == Trialing)
    && db.items.Keys <= db'.items.Keys
    && (forall i <- db.items :: ItemEvolved(db.items[i], db'.items[i]))
    && (forall i <- db'.items | i !in db.items :: db'.items[i].provider == Matters && IsLive(db'.items[i]))
    && db'.invitations.Keys == db.invitations.Keys
    && (forall v <- db.invitations :: db'.invitations[v] == db.invitations[v].(item := db'.invitations[v].item))
  }

  lemma StepItemsEvolve(db: Db, invt: Invitation, c: Choice)
    requires IsPossible(db, invt, c)
    ensures var items := Step(db, invt, c).items;
            && db.items.Keys <= items.Keys
            && (forall i <- db.items :: ItemEvolved(db.items[i], items[i]))
            && (forall i <- items | i !in db.items ::
                  c.Migrate? && items[i] == Item(c.user, c.mattersSubscription, db.items[c.item].price, Matters, Some(false)))
  {
  }

  lemma StepSubscriptionsEvolve(db: Db, invt: Invitation, c: Choice)
    requires IsPossible(db, invt, c)
    ensures var subscriptions := Step(db, invt, c).subscriptions;
            && db.subscriptions.Keys <= subscriptions.Keys
            && (c.Migrate? ==> c.mattersSubscription in subscriptions)
            && (forall s <- db.subscriptions :: SubscriptionEvolved(db.subscriptions[s], subscriptions[s]))
            && (forall s <- subscriptions | s !in db.subscriptions ::
                  subscriptions[s].provider == Matters && subscriptions[s].state == Trialing)
  {
  }

  lemma StepEvolves(db: Db, invt: Invitation, c: Choice)
    requires IsConsistent(db) && IsPossible(db, invt, c)
    ensures IsConsistent(Step(db, invt, c))
    ensures Evolved(db, Step(db, invt, c))
  {
    StepItemsEvolve(db, invt, c);
    StepSubscriptionsEvolve(db, invt, c);
  }

  lemma EvolvedTransitive(db0: Db, db1: Db, db2: Db)
    requires Evolved(db0, db1) && Evolved(db1, db2)
    ensures Evolved(db0, db2)
  {
  }

  lemma {:induction false} RunEvolves(db: Db, invts: seq<Invitation>, choices: seq<Choice>)
    requires IsConsistent(db) && IsRun(db, invts, choices)
    ensures IsConsistent(Run(db, invts, choices))
    ensures Evolved(db, Run(db, invts, choices))
  {
    if invts != [] {
      var n := |invts| - 1;
      var before := Run(db, invts[..n], choices[..n]);
      RunEvolves(db, invts[..n], choices[..n]);
      StepEvolves(before, invts[n], choices[n]);
      EvolvedTransitive(db, before, Run(db, invts, choices));
    }
  }

  /* ----- nobody loses coverage ----- */

  /** The user has a live item for the price under a subscription in force. */
  ghost predicate Covered(db: Db, user: Id, price: Id) {
    exists i :: Covers(db, user, price, i)
  }

  ghost predicate Covers(db: Db, user: Id, price: Id, i: Id) {
    && i in db.items
    && db.items[i].user == user && db.items[i].price == price
    && IsLive(db.items[i])
    && db.items[i].subscription in db.subscriptions
    && InForce(db.subscriptions[db.items[i].subscription])
  }

  /** The run moved the user's item for the price. */
  ghost predicate Migrated(db: Db, choices: seq<Choice>, user: Id, price: Id) {
    exists c <- choices :: MigratesPair(db, c, user, price)
  }

  ghost predicate MigratesPair(db: Db, c: Choice, user: Id, price: Id) {
    && c.Migrate? && c.user == user
    && c.item in db.items && db.items[c.item].price == price
  }

  lemma StepCoverage(db: Db, invt: Invitation, c: Choice, user: Id, price: Id)
    requires IsConsistent(db) && IsPossible(db, invt, c)
    ensures Covered(Step(db, invt, c), user, price) <==> Covered(db, user, price) || MigratesPair(db, c, user, price)
  {
    var db' := Step(db, invt, c);
    if c.Migrate? {
      if MigratesPair(db, c, user, price) {
        assert Covers(db', user, price, c.mattersItem);
      } else if Covered(db, user, price) {
        var i :| Covers(db, user, price, i);
        assert IsLive(db'.items[i]);
        assert Covers(db', user, price, i);
      } else if Covered(db', user, price) {
        var i :| Covers(db', user, price, i);
        assert i != c.mattersItem;
        assert db'.items[i] == db.items[i];
        assert Covers(db, user, price, i);
      }
    }
  }

  /**
   * After the run a user is covered for a price exactly when they were before or
   * the run moved an item of theirs for it. In particular no coverage is lost.
   */
  lemma {:induction false} CoverageAfterRun(db: Db, invts: seq<Invitation>, choices: seq<Choice>, user: Id, price: Id)
    requires IsConsistent(db) && IsRun(db, invts, choices)
    ensures Covered(Run(db, invts, choices), user, price)
       <==> Covered(db, user, price) || Migrated(db, choices, user, price)
  {
    if invts != [] {
      var n := |invts| - 1;
      var before := Run(db, invts[..n], choices[..n]);
      CoverageAfterRun(db, invts[..n], choices[..n], user, price);
      RunEvolves(db, invts[..n], choices[..n]);
      StepCoverage(before, invts[n], choices[n], user, price);
      MigratedNext(db, choices, user, price);
      SamePair(db, before, invts[n], choices[n], user, price);
    }
  }

  lemma MigratedNext(db: Db, choices: seq<Choice>, user: Id, price: Id)
    requires choices != []
    ensures var n := |choices| - 1;
            Migrated(db, choices, user, price)
            <==> Migrated(db, choices[..n], user, price) || MigratesPair(db, choices[n], user, price)
  {
    assert choices == choices[..|choices| - 1] + [choices[|choices| - 1]];
  }

  /** An item that is moved later is one of the original ones. */
  lemma SamePair(db: Db, before: Db, invt: Invitation, c: Choice, user: Id, price: Id)
    requires Evolved(db, before) && IsPossible(before, invt, c)
    ensures MigratesPair(before, c, user, price) <==> MigratesPair(db, c, user, price)
  {
  }

  /* ----- what is canceled was empty ----- */

  ghost predicate CanceledByRun(db: Db, db': Db, s: Id) {
    && s in db.subscriptions && s in db'.subscriptions
    && db.subscriptions[s].state != Canceled && db'.subscriptions[s].state == Canceled
  }

  /** A subscription the run canceled has no live item at its end, whatever came after. */
  lemma {:induction false} CanceledAreEmpty(db: Db, invts: seq<Invitation>, choices: seq<Choice>, s: Id)
    requires IsConsistent(db) && IsRun(db, invts, choices)
    requires CanceledByRun(db, Run(db, invts, choices), s)
    ensures !HasLiveItem(Run(db, invts, choices).items, s)
    ensures db.subscriptions[s].provider == Stripe
    ensures exists c <- choices :: c.Migrate? && c.subscription == s
  {
    var n := |invts| - 1;
    var before, after := Run(db, invts[..n], choices[..n]), Run(db, invts, choices);
    RunEvolves(db, invts[..n], choices[..n]);
    assert choices == choices[..n] + [choices[n]];
    if CanceledByRun(db, before, s) {
      CanceledAreEmpty(db, invts[..n], choices[..n], s);
    } else {
      assert choices[n].Migrate? && choices[n].subscription == s;
    }
  }

  /* ----- how much a run creates ----- */

  /** At most one Matters subscription is created per user, and only for users without one. */
  lemma {:induction false} OneMattersSubscriptionPerUser(
    db: Db, invts: seq<Invitation>, choices: seq<Choice>, s1: Id, s2: Id)
    requires IsConsistent(db) && IsRun(db, invts, choices)
    requires var db' := Run(db, invts, choices);
             && s1 in db'.subscriptions && s1 !in db.subscriptions
             && s2 in db'.subscriptions
             && IsMattersSubscription(db', db'.subscriptions[s1].user, s2)
    ensures s1 == s2
  {
    var n := |invts| - 1;
    var before := Run(db, invts[..n], choices[..n]);
    RunEvolves(db, invts[..n], choices[..n]);
    var user := Run(db, invts, choices).subscriptions[s1].user;
    if s1 in before.subscriptions && s2 in before.subscriptions {
      OneMattersSubscriptionPerUser(db, invts[..n], choices[..n], s1, s2);
    } else if s1 in before.subscriptions {
      assert IsMattersSubscription(before, user, s1);
    } else if s2 in before.subscriptions {
      assert IsMattersSubscription(before, user, s2);
    }
  }

  ghost function CreatedItems(db: Db, db': Db): set<Id> {
    db'.items.Keys - db.items.Keys
  }

  ghost function ArchivedItems(db: Db, db': Db): set<Id>
    requires db.items.Keys <= db'.items.Keys
  {
    set i <- db.items | db.items[i] != db'.items[i]
  }

  ghost function CountMigrations(choices: seq<Choice>): nat {
    if choices == [] then 0
    else CountMigrations(choices[..|choices| - 1]) + if choices[|choices| - 1].Migrate? then 1 else 0
  }

  lemma StepArchivesOneItem(db: Db, before: Db, invt: Invitation, c: Choice)
    requires IsConsistent(before) && IsPossible(before, invt, c) && Evolved(db, before)
    ensures Evolved(db, Step(before, invt, c))
    ensures |ArchivedItems(db, Step(before, invt, c))| == |ArchivedItems(db, before)| + if c.Migrate? then 1 else 0
  {
    StepEvolves(before, invt, c);
    EvolvedTransitive(db, before, Step(before, invt, c));
    if c.Migrate? {
      assert c.item in db.items && db.items[c.item] == before.items[c.item];
      OnlyItemArchived(before, invt, c);
      ArchivedGrows(db, before, Step(before, invt, c), c.item);
    }
  }

  lemma ArchivedGrows(db: Db, before: Db, after: Db, item: Id)
    requires db.items.Keys <= before.items.Keys && db.items.Keys <= after.items.Keys
    requires item in db.items && before.items[item] == db.items[item] != after.items[item]
    requires forall i <- before.items | i != item :: i in after.items && after.items[i] == before.items[i]
    ensures |ArchivedItems(db, after)| == |ArchivedItems(db, before)| + 1
  {
    assert ArchivedItems(db, after) == ArchivedItems(db, before) + {item};
  }

  lemma OnlyItemArchived(db: Db, invt: Invitation, c: Choice)
    requires IsPossible(db, invt, c) && c.Migrate?
    ensures var items := Step(db, invt, c).items;
            && c.item in items && items[c.item] == db.items[c.item].(archived := Some(true)) != db.items[c.item]
            && forall i <- db.items | i != c.item :: i in items && items[i] == db.items[i]
  {
  }

  lemma {:induction false} ArchivesOneItemEach(db: Db, invts: seq<Invitation>, choices: seq<Choice>)
    requires IsConsistent(db) && IsRun(db, invts, choices)
    ensures Evolved(db, Run(db, invts, choices))
    ensures |ArchivedItems(db, Run(db, invts, choices))| == CountMigrations(choices)
  {
    RunEvolves(db, invts, choices);
    if invts != [] {
      var n := |invts| - 1;
      ArchivesOneItemEach(db, invts[..n], choices[..n]);
      RunEvolves(db, invts[..n], choices[..n]);
      StepArchivesOneItem(db, Run(db, invts[..n], choices[..n]), invts[n], choices[n]);
    }
  }

  lemma StepCreatesAtMostOneItem(db: Db, before: Db, invt: Invitation, c: Choice)
    requires IsPossible(before, invt, c)
    ensures |CreatedItems(db, Step(before, invt, c))| <= |CreatedItems(db, before)| + if c.Migrate? then 1 else 0
  {
    var created := CreatedItems(db, before);
    if c.Migrate? {
      var after := Step(before, invt, c);
      assert after.items.Keys == before.items.Keys + {c.mattersItem};
      assert CreatedItems(db, after) <= created + {c.mattersItem};
      SubsetCount(CreatedItems(db, after), created + {c.mattersItem});
    }
  }

  lemma {:induction false} CreatesAtMostOneItemEach(db: Db, invts: seq<Invitation>, choices: seq<Choice>)
    requires IsConsistent(db) && IsRun(db, invts, choices)
    ensures |CreatedItems(db, Run(db, invts, choices))| <= CountMigrations(choices)
  {
    if invts != [] {
      var n := |invts| - 1;
      CreatesAtMostOneItemEach(db, invts[..n], choices[..n]);
      StepCreatesAtMostOneItem(db, Run(db, invts[..n], choices[..n]), invts[n], choices[n]);
    }
  }

  /**
   * Every migrated invitation archives a Stripe item of its own; the Matters
   * items created are never more than those.
   */
  lemma CreatesNoMoreThanItArchives(db: Db, invts: seq<Invitation>, choices: seq<Choice>)
    requires IsConsistent(db) && IsRun(db, invts, choices)
    ensures Evolved(db, Run(db, invts, choices))
    ensures |ArchivedItems(db, Run(db, invts, choices))| == CountMigrations(choices)
    ensures |CreatedItems(db, Run(db, invts, choices))| <= |ArchivedItems(db, Run(db, invts, choices))|
  {
    ArchivesOneItemEach(db, invts, choices);
    CreatesAtMostOneItemEach(db, invts, choices);
  }

  /* ----- what a linked invitation refers to ----- */

  /** The invited user holds `item` for the circle, under a trialing Matters subscription. */
  ghost predicate IsGranted(db: Db, user: Id, circle: Id, item: Id) {
    && item in db.items
    && db.items[item].provider == Matters && IsLive(db.items[item])
    && db.items[item].user == user
    && IsMattersSubscription(db, user, db.items[item].subscription)
    && db.items[item].price in db.prices && db.prices[db.items[item].price].circle == circle
  }

  /** The primary key of invitations. */
  ghost predicate IsKeyed(db: Db) {
    forall v <- db.invitations :: db.invitations[v].id == v
  }

  /** The invitations the migration selects, earliest acceptance first. */
  ghost predicate IsSelection(db: Db, invts: seq<Invitation>) {
    && IsKeyed(db)
    && (forall k | 0 <= k < |invts| ::
          invts[k].id in db.invitations && db.invitations[invts[k].id] == invts[k])
    && (forall v <- db.invitations ::
          db.invitations[v] in invts <==> db.invitations[v].accepted && db.invitations[v].item.None?)
    && (forall j, k | 0 <= j < k < |invts| :: invts[j].id != invts[k].id)
    && (forall j, k | 0 <= j < k < |invts| && invts[k].acceptedAt.Some? ::
          invts[j].acceptedAt.Some? && invts[j].acceptedAt.value <= invts[k].acceptedAt.value)
  }

  /** Ascending order puts nulls last. */
  predicate AcceptedNoLater(a: Invitation, b: Invitation) {
    b.acceptedAt.None? || (a.acceptedAt.Some? && a.acceptedAt.value <= b.acceptedAt.value)
  }

  /** The invitation `v` is linked as choice `k` of the run says, or not at all. */
  ghost predicate LinkedAsChosen(db: Db, invts: seq<Invitation>, choices: seq<Choice>, db': Db, v: Id)
    requires |invts| == |choices| && v in db.invitations && v in db'.invitations
  {
    && (forall k | 0 <= k < |invts| && choices[k].Migrate? && invts[k].id == v ::
          && IsInvited(db', invts[k], choices[k].user)
          && db'.invitations[v].item == Some(choices[k].mattersItem)
          && IsGranted(db', choices[k].user, invts[k].circle, choices[k].mattersItem))
    && ((forall k | 0 <= k < |invts| && choices[k].Migrate? :: invts[k].id != v) ==>
          db'.invitations[v] == db.invitations[v])
  }

  lemma StepGrants(db: Db, invt: Invitation, c: Choice)
    requires IsConsistent(db) && IsPossible(db, invt, c)
    ensures var db' := Step(db, invt, c);
            && db'.invitations.Keys == db.invitations.Keys
            && (forall v <- db.invitations | v != invt.id || !c.Migrate? :: db'.invitations[v] == db.invitations[v])
            && (c.Migrate? && invt.id in db.invitations ==> db'.invitations[invt.id].item == Some(c.mattersItem))
            && (c.Migrate? ==> IsInvited(db', invt, c.user) && IsGranted(db', c.user, invt.circle, c.mattersItem))
  {
  }

  lemma {:induction false} LinksAreGranted(db: Db, invts: seq<Invitation>, choices: seq<Choice>, v: Id)
    requires IsConsistent(db) && IsRun(db, invts, choices)
    requires forall j, k | 0 <= j < k < |invts| :: invts[j].id != invts[k].id
    requires v in db.invitations
    ensures v in Run(db, invts, choices).invitations
    ensures LinkedAsChosen(db, invts, choices, Run(db, invts, choices), v)
  {
    if invts != [] {
      var n := |invts| - 1;
      var before, after := Run(db, invts[..n], choices[..n]), Run(db, invts, choices);
      LinksAreGranted(db, invts[..n], choices[..n], v);
      RunEvolves(db, invts[..n], choices[..n]);
      StepEvolves(before, invts[n], choices[n]);
      StepGrants(before, invts[n], choices[n]);
      if choices[n].Migrate? && invts[n].id == v {
        LinkMade(db, invts, choices, after, v);
      } else {
        LinkKept(db, invts, choices, before, after, v);
      }
    }
  }

  lemma LinkMade(db: Db, invts: seq<Invitation>, choices: seq<Choice>, after: Db, v: Id)
    requires |invts| == |choices| > 0 && v in db.invitations && v in after.invitations
    requires forall j, k | 0 <= j < k < |invts| :: invts[j].id != invts[k].id
    requires var n := |invts| - 1;
             && choices[n].Migrate? && invts[n].id == v
             && IsInvited(after, invts[n], choices[n].user)
             && after.invitations[v].item == Some(choices[n].mattersItem)
             && IsGranted(after, choices[n].user, invts[n].circle, choices[n].mattersItem)
    ensures LinkedAsChosen(db, invts, choices, after, v)
  {
    assert forall k | 0 <= k < |invts| - 1 :: invts[k].id != v;
  }

  lemma LinkKept(db: Db, invts: seq<Invitation>, choices: seq<Choice>, before: Db, after: Db, v: Id)
    requires |invts| == |choices| > 0 && v in db.invitations && v in before.invitations && v in after.invitations
    requires var n := |invts| - 1;
             && LinkedAsChosen(db, invts[..n], choices[..n], before, v)
             && !(choices[n].Migrate? && invts[n].id == v)
    requires Evolved(before, after) && after.invitations[v] == before.invitations[v]
    ensures LinkedAsChosen(db, invts, choices, after, v)
  {
    var n := |invts| - 1;
    forall k | 0 <= k < |invts| && choices[k].Migrate? && invts[k].id == v
      ensures IsInvited(after, invts[k], choices[k].user)
      ensures after.invitations[v].item == Some(choices[k].mattersItem)
      ensures IsGranted(after, choices[k].user, invts[k].circle, choices[k].mattersItem)
    {
      assert k < n && invts[..n][k] == invts[k] && choices[..n][k] == choices[k];
      GrantKept(before, after, choices[k].user, invts[k].circle, choices[k].mattersItem);
    }
  }

  lemma GrantKept(db: Db, db': Db, user: Id, circle: Id, item: Id)
    requires Evolved(db, db') && IsGranted(db, user, circle, item)
    ensures IsGranted(db', user, circle, item)
  {
  }

  /**
   * At the end of the run every invitation is as it was, except that a selected
   * one may be linked to an item for its circle that the invited user really holds.
   */
  lemma InvitationsAfterRun(db: Db, invts: seq<Invitation>, choices: seq<Choice>, v: Id)
    requires IsConsistent(db) && IsRun(db, invts, choices) && IsSelection(db, invts)
    requires v in db.invitations
    ensures v in Run(db, invts, choices).invitations
    ensures var db', invt := Run(db, invts, choices), db.invitations[v];
            || db'.invitations[v] == invt
            || (&& invt.accepted && invt.item.None?
                && db'.invitations[v].item.Some?
                && db'.invitations[v] == invt.(item := db'.invitations[v].item)
                && exists user :: IsInvited(db, invt, user) && IsGranted(db', user, invt.circle, db'.invitations[v].item.value))
  {
    var db' := Run(db, invts, choices);
    LinksAreGranted(db, invts, choices, v);
    RunEvolves(db, invts, choices);
    if k :| 0 <= k < |invts| && choices[k].Migrate? && invts[k].id == v {
      assert db.invitations[v] == invts[k] && invts[k] in invts;
      assert IsInvited(db, invts[k], choices[k].user);
    }
  }

  /* ----- which invitations are migrated, and which items are moved ----- */

  /** The user an invitation is for: the one it names, or else any with its e-mail address. */
  ghost predicate IsAddressee(users: map<Id, User>, invt: Invitation, user: Id) {
    && user in users
    && match invt.user
       case Some(id) => id == user
       case None => invt.email.Some? && invt.email.value != "" && users[user].email == invt.email
  }

  /** The user holds a Stripe item, neither archived nor null, for an active price of the circle. */
  ghost predicate HoldsItemFor(db: Db, user: Id, circle: Id, i: Id) {
    && i in db.items
    && db.items[i].user == user && db.items[i].provider == Stripe && db.items[i].archived == Some(false)
    && db.items[i].price in db.prices
    && db.prices[db.items[i].price] == Price(circle, true)
  }

  /** A Stripe subscription of the user is active or on trial. */
  ghost predicate HoldsSubscription(db: Db, user: Id, s: Id) {
    && s in db.subscriptions
    && db.subscriptions[s] in [Subscription(Stripe, user, Active), Subscription(Stripe, user, Trialing)]
  }

  ghost predicate CanMove(db: Db, user: Id, circle: Id) {
    (exists i :: HoldsItemFor(db, user, circle, i)) && exists s :: HoldsSubscription(db, user, s)
  }

  lemma QueriesMean(db: Db, invt: Invitation, user: Id, x: Id)
    ensures IsAddressee(db.users, invt, user) <==> HasContact(invt) && IsInvited(db, invt, user)
    ensures HoldsItemFor(db, user, invt.circle, x) <==> IsMigratable(db, invt, user, x)
    ensures HoldsSubscription(db, user, x) <==> IsStripeSubscription(db, user, x)
  {
    if x in db.subscriptions {
      var s := db.subscriptions[x];
      assert s == Subscription(s.provider, s.user, s.state);
    }
  }

  /** What a step that migrates has found, and did with the item and the subscriptions. */
  lemma StepMoves(db: Db, invt: Invitation, c: Choice)
    requires IsPossible(db, invt, c) && c.Migrate?
    ensures IsAddressee(db.users, invt, c.user) && HoldsItemFor(db, c.user, invt.circle, c.item)
    ensures HoldsSubscription(db, c.user, c.subscription)
    ensures var db' := Step(db, invt, c);
            && c.item in db'.items && db'.items[c.item] == db.items[c.item].(archived := Some(true))
            && (forall i <- db.items | i != c.item :: i in db'.items && db'.items[i] == db.items[i])
            && c.mattersItem in db'.items
            && db'.items[c.mattersItem]
               == Item(c.user, c.mattersSubscription, db.items[c.item].price, Matters, Some(false))
            && c.mattersSubscription in db'.subscriptions
            && db'.subscriptions[c.mattersSubscription] == Subscription(Matters, c.user, Trialing)
            && c.subscription in db'.subscriptions
            && db'.subscriptions[c.subscription] == db.subscriptions[c.subscription].(
                 state := if exists i <- db'.items :: db'.items[i].archived == Some(false) && db'.items[i].subscription == c.subscription
                          then db.subscriptions[c.subscription].state else Canceled)
  {
    QueriesMean(db, invt, c.user, c.item);
    QueriesMean(db, invt, c.user, c.subscription);
    OnlyItemArchived(db, invt, c);
    StepSubscriptionsEvolve(db, invt, c);
  }

  /** A step that does not migrate has found nobody, or somebody with nothing to move. */
  lemma StepStays(db: Db, invt: Invitation, c: Choice)
    requires IsPossible(db, invt, c) && !c.Migrate?
    ensures if c.NoContact? || c.UserNotFound? then forall u :: !IsAddressee(db.users, invt, u)
            else IsAddressee(db.users, invt, c.user) && !CanMove(db, c.user, invt.circle)
  {
    if c.NoContact? || c.UserNotFound? {
      forall u
        ensures !IsAddressee(db.users, invt, u)
      {
        QueriesMean(db, invt, u, 0);
      }
    } else {
      forall x
        ensures HoldsItemFor(db, c.user, invt.circle, x) <==> IsMigratable(db, invt, c.user, x)
        ensures HoldsSubscription(db, c.user, x) <==> IsStripeSubscription(db, c.user, x)
      {
        QueriesMean(db, invt, c.user, x);
      }
      QueriesMean(db, invt, c.user, 0);
    }
  }

  /** The addressee of an invitation, at its turn in a run, has something to move. */
  ghost predicate CanMoveAtTurn(db: Db, invts: seq<Invitation>, choices: seq<Choice>, k: nat, user: Id)
    requires IsRun(db, invts, choices) && k < |invts| && IsRun(db, invts[..k], choices[..k])
  {
    CanMove(Run(db, invts[..k], choices[..k]), user, invts[k].circle)
  }

  /**
   * An invitation is migrated only if a user it is for has, at its turn, a live Stripe
   * item for an active price of its circle and a Stripe subscription in force. If it is
   * not, it is for nobody, or for a user without; so exactly then, if it is for one user.
   */
  lemma MigratedWhen(db: Db, invts: seq<Invitation>, choices: seq<Choice>, k: nat)
    requires IsConsistent(db) && IsRun(db, invts, choices) && k < |invts|
    ensures IsRun(db, invts[..k], choices[..k])
    ensures choices[k].Migrate? ==>
              exists u :: IsAddressee(db.users, invts[k], u) && CanMoveAtTurn(db, invts, choices, k, u)
    ensures !choices[k].Migrate? ==>
              || (forall u :: !IsAddressee(db.users, invts[k], u))
              || exists u :: IsAddressee(db.users, invts[k], u) && !CanMoveAtTurn(db, invts, choices, k, u)
  {
    StepOfRun(db, invts, choices, k);
    RunEvolves(db, invts[..k], choices[..k]);
    var before, c := Run(db, invts[..k], choices[..k]), choices[k];
    if c.Migrate? {
      StepMoves(before, invts[k], c);
      assert HoldsItemFor(before, c.user, invts[k].circle, c.item) && HoldsSubscription(before, c.user, c.subscription);
      assert IsAddressee(db.users, invts[k], c.user) && CanMoveAtTurn(db, invts, choices, k, c.user);
    } else {
      StepStays(before, invts[k], c);
    }
  }

  /**
   * Every item that a run changes was a live Stripe item, for an active price of the
   * circle of one of the invitations, of a user that invitation is for, and is archived.
   */
  lemma {:induction false} MovedForInvitation(db: Db, invts: seq<Invitation>, choices: seq<Choice>, i: Id) returns (k: nat)
    requires IsConsistent(db) && IsRun(db, invts, choices)
    requires i in db.items && i in Run(db, invts, choices).items && Run(db, invts, choices).items[i] != db.items[i]
    ensures k < |invts| && IsAddressee(db.users, invts[k], db.items[i].user)
    ensures HoldsItemFor(db, db.items[i].user, invts[k].circle, i)
    ensures Run(db, invts, choices).items[i] == db.items[i].(archived := Some(true))
  {
    var n := |invts| - 1;
    var before := Run(db, invts[..n], choices[..n]);
    RunEvolves(db, invts[..n], choices[..n]);
    StepEvolves(before, invts[n], choices[n]);
    if before.items[i] != db.items[i] {
      k := MovedForInvitation(db, invts[..n], choices[..n], i);
      assert !IsLive(before.items[i]);
    } else {
      StepMoves(before, invts[n], choices[n]);
      k := n;
    }
  }

  /* ----- the subscription that is counted need not be the item's ----- */

  /** A subscription in force that nothing live belongs to. */
  ghost predicate Lingers(db: Db, s: Id) {
    s in db.subscriptions && InForce(db.subscriptions[s]) && !HasLiveItem(db.items, s)
  }

  /**
   * A step that archives the last live item of a subscription in force leaves it
   * in force exactly when the query of step 2 found some other subscription.
   */
  lemma OwnSubscriptionLingers(db: Db, invt: Invitation, c: Choice)
    requires IsPossible(db, invt, c) && c.Migrate?
    requires var own := db.items[c.item].subscription;
             own in db.subscriptions && InForce(db.subscriptions[own])
    ensures var own := db.items[c.item].subscription;
            Lingers(Step(db, invt, c), own)
            <==> c.subscription != own && c.mattersSubscription != own
                 && forall i <- db.items | db.items[i].subscription == own && IsLive(db.items[i]) :: i == c.item
  {
    var own := db.items[c.item].subscription;
    var db' := Step(db, invt, c);
    if c.mattersSubscription == own {
      assert db'.items[c.mattersItem].subscription == own;
      assert HasLiveItem(db'.items, own);
    } else {
      forall i | i in db.items && i != c.item
        ensures db'.items[i] == db.items[i]
      {
      }
      if i :| i in db.items && db.items[i].subscription == own && IsLive(db.items[i]) && i != c.item {
        assert HasLiveItem(db'.items, own);
      }
    }
  }

  /** Whatever Stripe subscription of the user exists, some run of the queries finds it with the item. */
  lemma ChoiceExists(db: Db, invt: Invitation, user: Id, item: Id, s: Id) returns (c: Choice)
    requires HasContact(invt) && IsInvited(db, invt, user)
    requires IsMigratable(db, invt, user, item) && IsStripeSubscription(db, user, s)
    ensures IsPossible(db, invt, c) && c.Migrate? && c.user == user && c.item == item && c.subscription == s
  {
    var ms: Id;
    if exists m :: IsMattersSubscription(db, user, m) {
      ms :| IsMattersSubscription(db, user, ms);
    } else {
      FreshIdExists(db.subscriptions.Keys);
      ms :| ms !in db.subscriptions.Keys;
    }
    var price := db.items[item].price;
    var mi: Id;
    if exists m :: IsMattersItem(db.items, user, ms, price, m) {
      mi :| IsMattersItem(db.items, user, ms, price, mi);
    } else {
      FreshIdExists(db.items.Keys);
      mi :| mi !in db.items.Keys;
    }
    c := Migrate(user, item, s, ms, mi);
  }

  ghost predicate Moves(db: Db, invt: Invitation, c: Choice, item: Id) {
    IsPossible(db, invt, c) && c.Migrate? && c.item == item
  }

  /**
   * Moving the last live item of a Stripe subscription in force may leave that
   * subscription in force, with nothing under it, exactly when the user has another one
   * in force; and it must do so exactly when it is not itself one of the user's.
   */
  lemma OwnMayLinger(db: Db, invt: Invitation, user: Id, item: Id, own: Id)
    requires HasContact(invt) && IsInvited(db, invt, user) && IsMigratable(db, invt, user, item)
    requires own == db.items[item].subscription && own in db.subscriptions
    requires db.subscriptions[own].provider == Stripe && InForce(db.subscriptions[own])
    requires LiveUnder(db, own) == {item}
    ensures (exists c :: Moves(db, invt, c, item) && Lingers(Step(db, invt, c), own))
       <==> exists s :: s != own && IsStripeSubscription(db, user, s)
    ensures (forall c | Moves(db, invt, c, item) :: Lingers(Step(db, invt, c), own))
       <==> !IsStripeSubscription(db, user, own)
  {
    forall c | Moves(db, invt, c, item)
      ensures Lingers(Step(db, invt, c), own) <==> c.subscription != own
      ensures IsStripeSubscription(db, user, c.subscription)
    {
      OwnSubscriptionLingers(db, invt, c);
      assert forall i <- db.items | db.items[i].subscription == own && IsLive(db.items[i]) :: i in LiveUnder(db, own);
    }
    if s :| s != own && IsStripeSubscription(db, user, s) {
      var c := ChoiceExists(db, invt, user, item, s);
      assert Moves(db, invt, c, item) && Lingers(Step(db, invt, c), own);
    }
    if IsStripeSubscription(db, user, own) {
      var c := ChoiceExists(db, invt, user, item, own);
      assert Moves(db, invt, c, item) && !Lingers(Step(db, invt, c), own);
    }
  }

  /* ----- what lingers at the end of a run ----- */

  function LiveUnder(db: Db, s: Id): set<Id> {
    set i <- db.items | IsLive(db.items[i]) && db.items[i].subscription == s
  }

  function MovedItems(choices: seq<Choice>): set<Id> {
    set c <- choices | c.Migrate? :: c.item
  }

  ghost predicate IsStripe(db: Db, s: Id) {
    s in db.subscriptions && db.subscriptions[s].provider == Stripe
  }

  lemma StepLive(db: Db, invt: Invitation, c: Choice, s: Id)
    requires IsPossible(db, invt, c) && IsStripe(db, s)
    ensures LiveUnder(Step(db, invt, c), s) == LiveUnder(db, s) - if c.Migrate? then {c.item} else {}
  {
  }

  /** Under a Stripe subscription a run leaves just the items that it did not move. */
  lemma {:induction false} LiveAfterRun(db: Db, invts: seq<Invitation>, choices: seq<Choice>, s: Id)
    requires IsConsistent(db) && IsRun(db, invts, choices) && IsStripe(db, s)
    ensures LiveUnder(Run(db, invts, choices), s) == LiveUnder(db, s) - MovedItems(choices)
  {
    if invts != [] {
      var n := |invts| - 1;
      LiveAfterRun(db, invts[..n], choices[..n], s);
      RunEvolves(db, invts[..n], choices[..n]);
      StepLive(Run(db, invts[..n], choices[..n]), invts[n], choices[n], s);
      MovedNext(choices);
    }
  }

  lemma MovedNext(choices: seq<Choice>)
    requires choices != []
    ensures var n := |choices| - 1;
            MovedItems(choices) == MovedItems(choices[..n]) + if choices[n].Migrate? then {choices[n].item} else {}
  {
    assert choices == choices[..|choices| - 1] + [choices[|choices| - 1]];
  }

  /** The `k`-th invitation counted the items of `s` when its last one had been moved. */
  ghost predicate FoundEmpty(db: Db, choices: seq<Choice>, s: Id, k: nat)
    requires k < |choices|
  {
    choices[k].Migrate? && choices[k].subscription == s && LiveUnder(db, s) <= MovedItems(choices[..k + 1])
  }

  lemma HasLiveItemWhen(db: Db, s: Id)
    ensures HasLiveItem(db.items, s) <==> LiveUnder(db, s) != {}
  {
    if i :| i in db.items && IsLive(db.items[i]) && db.items[i].subscription == s {
      assert i in LiveUnder(db, s);
    }
  }

  lemma NothingLeft(a: set<Id>, b: set<Id>)
    ensures a - b == {} <==> a <= b
  {
    forall x | x in a && a - b == {}
      ensures x in b
    {
      assert x !in a - b;
    }
  }

  lemma StepInForce(db: Db, invt: Invitation, c: Choice, s: Id)
    requires IsPossible(db, invt, c) && IsStripe(db, s)
    ensures IsStripe(Step(db, invt, c), s)
    ensures InForce(Step(db, invt, c).subscriptions[s])
       <==> InForce(db.subscriptions[s]) && !(c.Migrate? && c.subscription == s && LiveUnder(Step(db, invt, c), s) == {})
  {
    HasLiveItemWhen(Step(db, invt, c), s);
  }

  lemma {:induction false} InForceAfterRun(db: Db, invts: seq<Invitation>, choices: seq<Choice>, s: Id)
    requires IsConsistent(db) && IsRun(db, invts, choices) && IsStripe(db, s) && InForce(db.subscriptions[s])
    ensures IsStripe(Run(db, invts, choices), s)
    ensures InForce(Run(db, invts, choices).subscriptions[s])
       <==> forall k | 0 <= k < |choices| :: !FoundEmpty(db, choices, s, k)
  {
    if invts != [] {
      var n := |invts| - 1;
      var before := Run(db, invts[..n], choices[..n]);
      InForceAfterRun(db, invts[..n], choices[..n], s);
      StepInForce(before, invts[n], choices[n], s);
      LiveAfterRun(db, invts, choices, s);
      NothingLeft(LiveUnder(db, s), MovedItems(choices));
      assert choices[..n + 1] == choices;
      forall k | 0 <= k < n
        ensures FoundEmpty(db, choices[..n], s, k) <==> FoundEmpty(db, choices, s, k)
      {
        assert choices[..n][..k + 1] == choices[..k + 1];
      }
      assert FoundEmpty(db, choices, s, n) <==>
        choices[n].Migrate? && choices[n].subscription == s && LiveUnder(Run(db, invts, choices), s) == {};
    }
  }

  /**
   * A Stripe subscription in force is left in force with nothing under it at the end of
   * a run exactly when the run moved all its items, and no invitation that counted them
   * did so when the last had been moved.
   */
  lemma LingersAfterRun(db: Db, invts: seq<Invitation>, choices: seq<Choice>, s: Id)
    requires IsConsistent(db) && IsRun(db, invts, choices) && IsStripe(db, s) && InForce(db.subscriptions[s])
    ensures Lingers(Run(db, invts, choices), s)
       <==> && LiveUnder(db, s) <= MovedItems(choices)
            && forall k | 0 <= k < |choices| :: !FoundEmpty(db, choices, s, k)
  {
    var db' := Run(db, invts, choices);
    InForceAfterRun(db, invts, choices, s);
    LiveAfterRun(db, invts, choices, s);
    NothingLeft(LiveUnder(db, s), MovedItems(choices));
    HasLiveItemWhen(db', s);
  }

  /** When the last item of a subscription was moved. */
  lemma {:induction false} LastMoved(choices: seq<Choice>, items: set<Id>) returns (k: nat)
    requires items != {} && items <= MovedItems(choices)
    ensures k < |choices| && choices[k].Migrate? && choices[k].item in items
    ensures items <= MovedItems(choices[..k + 1])
  {
    var n := |choices| - 1;
    MovedNext(choices);
    if items <= MovedItems(choices[..n]) {
      k := LastMoved(choices[..n], items);
      assert choices[..n][..k + 1] == choices[..k + 1];
    } else {
      k := n;
      assert choices[..n + 1] == choices;
    }
  }

  /** The `k`-th step of a run was possible in the state it met. */
  lemma {:induction false} StepOfRun(db: Db, invts: seq<Invitation>, choices: seq<Choice>, k: nat)
    requires IsRun(db, invts, choices) && k < |invts|
    ensures IsRun(db, invts[..k], choices[..k])
    ensures IsPossible(Run(db, invts[..k], choices[..k]), invts[k], choices[k])
  {
    var n := |invts| - 1;
    if k < n {
      StepOfRun(db, invts[..n], choices[..n], k);
      assert invts[..n][..k] == invts[..k] && choices[..n][..k] == choices[..k];
    }
  }

  /**
   * The only Stripe subscription in force of a user, with live items that are all the
   * user's own, never ends up in force with nothing under it.
   */
  lemma OnlySubscriptionNeverLingers(db: Db, invts: seq<Invitation>, choices: seq<Choice>, user: Id, s: Id)
    requires IsConsistent(db) && IsRun(db, invts, choices)
    requires forall t :: IsStripeSubscription(db, user, t) <==> t == s
    requires LiveUnder(db, s) != {} && forall i <- LiveUnder(db, s) :: db.items[i].user == user
    ensures !Lingers(Run(db, invts, choices), s)
  {
    assert IsStripeSubscription(db, user, s);
    LingersAfterRun(db, invts, choices, s);
    if LiveUnder(db, s) <= MovedItems(choices) {
      var k := LastMoved(choices, LiveUnder(db, s));
      StepOfRun(db, invts, choices, k);
      RunEvolves(db, invts[..k], choices[..k]);
      var c := choices[k];
      assert c.user == user;
      assert IsStripeSubscription(db, user, c.subscription);
      assert FoundEmpty(db, choices, s, k);
    }
  }

  /* ----- a table where a subscription lingers ----- */

  /** A user with two subscriptions in force, an item under one of them, and an invitation. */
  function TwoSubscriptions(): Db {
    Db(
      map[1 := User(None)],
      map[5 := Price(7, true)],
      map[20 := Subscription(Stripe, 1, Active), 21 := Subscription(Stripe, 1, Active)],
      map[30 := Item(1, 20, 5, Stripe, Some(false))],
      map[40 := TheInvitation()])
  }

  function TheInvitation(): Invitation {
    Invitation(40, Some(1), None, 7, true, Some(0), None)
  }

  /**
   * The item's subscription, 20, stays in force with nothing under it, and the one that
   * was counted, 21, is canceled though nothing under it was moved.
   */
  lemma WrongSubscriptionCanceled() returns (choices: seq<Choice>)
    ensures IsConsistent(TwoSubscriptions()) && IsSelection(TwoSubscriptions(), [TheInvitation()])
    ensures IsRun(TwoSubscriptions(), [TheInvitation()], choices)
    ensures var db' := Run(TwoSubscriptions(), [TheInvitation()], choices);
            && Lingers(db', 20)
            && 21 in db'.subscriptions && db'.subscriptions[21].state == Canceled
    ensures LiveUnder(TwoSubscriptions(), 21) == {}
  {
    var db, invt := TwoSubscriptions(), TheInvitation();
    var c := Migrate(1, 30, 21, 22, 31);
    choices := [c];
    assert IsPossible(db, invt, c);
    assert [invt][..0] == [] && [c][..0] == [];
    assert IsRun(db, [], []) && Run(db, [], []) == db;
    assert IsRun(db, [invt], [c]) && Run(db, [invt], [c]) == Step(db, invt, c);
    SelectionOfOne();
    OwnSubscriptionLingers(db, invt, c);
    StepLive(db, invt, c, 21);
    StepInForce(db, invt, c, 21);
  }

  lemma SelectionOfOne()
    ensures IsSelection(TwoSubscriptions(), [TheInvitation()])
  {
  }

  /* ----- the migration ----- */

  /** `invts` are the selected invitations but for `rest`, in order, and no later than those. */
  ghost predicate ArePicked(invitations: map<Id, Invitation>, selected: set<Id>, rest: set<Id>, invts: seq<Invitation>) {
    && rest <= selected <= invitations.Keys
    && (forall k | 0 <= k < |invts| ::
          && invts[k].id in selected && invts[k].id !in rest && invitations[invts[k].id] == invts[k])
    && (forall v <- selected :: v in rest || invitations[v] in invts)
    && (forall j, k | 0 <= j < k < |invts| :: invts[j].id != invts[k].id && AcceptedNoLater(invts[j], invts[k]))
    && (forall k, v | 0 <= k < |invts| && v in rest :: AcceptedNoLater(invts[k], invitations[v]))
  }

  lemma PickNext(invitations: map<Id, Invitation>, selected: set<Id>, rest: set<Id>, invts: seq<Invitation>, v: Id)
    requires ArePicked(invitations, selected, rest, invts)
    requires v in rest && invitations[v].id == v
    requires forall w <- rest :: AcceptedNoLater(invitations[v], invitations[w])
    ensures ArePicked(invitations, selected, rest - {v}, invts + [invitations[v]])
  {
  }

  lemma {:induction false} EarliestExists(invitations: map<Id, Invitation>, ids: set<Id>)
    requires ids != {} && ids <= invitations.Keys
    ensures exists v :: v in ids && forall w <- ids :: AcceptedNoLater(invitations[v], invitations[w])
  {
    var some :| some in ids;
    var rest := ids - {some};
    assert forall v <- ids :: v == some || v in rest;
    if rest == {} {
      assert AcceptedNoLater(invitations[some], invitations[some]);
    } else {
      EarliestExists(invitations, rest);
      var best :| best in rest && forall w <- rest :: AcceptedNoLater(invitations[best], invitations[w]);
      var v := if AcceptedNoLater(invitations[best], invitations[some]) then best else some;
      assert v in ids && forall w <- ids :: AcceptedNoLater(invitations[v], invitations[w]);
    }
  }

  class Migration {
    var db: Db

    constructor (db: Db)
      ensures this.db == db
    {
      this.db := db;
    }

    /** Selects the invitations and processes them in order; `choices` records what the queries found. */
    method Up() returns (invts: seq<Invitation>, ghost choices: seq<Choice>)
      requires IsKeyed(db)
      modifies this
      ensures IsSelection(old(db), invts)
      ensures IsRun(old(db), invts, choices)
      ensures db == Run(old(db), invts, choices)
    {
      invts := Select();
      choices := [];
      for n := 0 to |invts|
        invariant IsRun(old(db), invts[..n], choices)
        invariant db == Run(old(db), invts[..n], choices)
      {
        ghost var c := Process(invts[n]);
        assert invts[..n + 1][..n] == invts[..n];
        assert (choices + [c])[..n] == choices;
        choices := choices + [c];
      }
      assert invts[..|invts|] == invts;
    }

    /** The accepted invitations without an item, by ascending time of acceptance, nulls last. */
    method Select() returns (invts: seq<Invitation>)
      requires IsKeyed(db)
      ensures IsSelection(db, invts)
    {
      var selected := set v <- db.invitations | db.invitations[v].accepted && db.invitations[v].item.None?;
      var rest := selected;
      invts := [];
      while rest != {}
        invariant ArePicked(db.invitations, selected, rest, invts)
        decreases rest
      {
        EarliestExists(db.invitations, rest);
        var v: Id :| v in rest && forall w <- rest :: AcceptedNoLater(db.invitations[v], db.invitations[w]);
        PickNext(db.invitations, selected, rest, invts, v);
        invts := invts + [db.invitations[v]];
        rest := rest - {v};
      }
    }

    method Process(invt: Invitation) returns (ghost c: Choice)
      modifies this
      ensures IsPossible(old(db), invt, c)
      ensures db == Step(old(db), invt, c)
    {
      if !HasContact(invt) {
        return NoContact;
      }
      var userFound, user := FindUser(invt);
      if !userFound {
        return UserNotFound;
      }
      if !exists i :: i in db.items && IsMigratable(db, invt, user, i) {
        return ItemNotFound(user);
      }
      var item: Id :| item in db.items && IsMigratable(db, invt, user, item);
      var price := db.items[item].price;
      if !exists s :: s in db.subscriptions && IsStripeSubscription(db, user, s) {
        return SubscriptionNotFound(user);
      }
      var subscription: Id :| subscription in db.subscriptions && IsStripeSubscription(db, user, subscription);
      var mattersSubscription := FindOrInsertSubscription(user);
      var mattersItem := FindOrInsertItem(user, mattersSubscription, price);
      c := Migrate(user, item, subscription, mattersSubscription, mattersItem);
      db := db.(invitations := Linked(db.invitations, invt.id, mattersItem));
      db := db.(items := WithArchived(db.items, item));
      if !HasLiveItem(db.items, subscription) {
        db := db.(subscriptions := WithCanceled(db.subscriptions, subscription));
      }
    }

    method FindUser(invt: Invitation) returns (found: bool, user: Id)
      ensures found ==> IsInvited(db, invt, user)
      ensures !found ==> forall u :: !IsInvited(db, invt, u)
    {
      if exists u :: u in db.users && IsInvited(db, invt, u) {
        found := true;
        user :| user in db.users && IsInvited(db, invt, user);
      } else {
        found, user := false, 0;
      }
    }

    method FindOrInsertSubscription(user: Id) returns (ms: Id)
      modifies this
      ensures || (IsMattersSubscription(old(db), user, ms) && db == old(db))
              || (&& ms !in old(db).subscriptions
                  && (forall s :: !IsMattersSubscription(old(db), user, s))
                  && db == old(db).(subscriptions := old(db).subscriptions[ms := Subscription(Matters, user, Trialing)]))
    {
      if exists s :: s in db.subscriptions && IsMattersSubscription(db, user, s) {
        ms :| ms in db.subscriptions && IsMattersSubscription(db, user, ms);
      } else {
        FreshIdExists(db.subscriptions.Keys);
        ms :| ms !in db.subscriptions.Keys;
        db := db.(subscriptions := db.subscriptions[ms := Subscription(Matters, user, Trialing)]);
      }
    }

    method FindOrInsertItem(user: Id, ms: Id, price: Id) returns (mi: Id)
      modifies this
      ensures || (IsMattersItem(old(db).items, user, ms, price, mi) && db == old(db))
              || (&& mi !in old(db).items
                  && (forall i :: !IsMattersItem(old(db).items, user, ms, price, i))
                  && db == old(db).(items := old(db).items[mi := Item(user, ms, price, Matters, Some(false))]))
    {
      if exists i :: i in db.items && IsMattersItem(db.items, user, ms, price, i) {
        mi :| mi in db.items && IsMattersItem(db.items, user, ms, price, mi);
      } else {
        FreshIdExists(db.items.Keys);
        mi :| mi !in db.items.Keys;
        db := db.(items := db.items[mi := Item(user, ms, price, Matters, Some(false))]);
      }
    }
  }
}
