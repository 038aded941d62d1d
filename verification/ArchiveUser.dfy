/**
 * Archiving a user (src/connectors/archiveUserService.ts).
 *
 * Every draft of the user gets its own worker, and all workers run at once. A
 * worker takes two database steps: it drops the asset mappings of its draft and
 * then deletes those of the assets it let go that nobody maps any more. Drafts
 * may share assets, so what a worker deletes depends on the interleaving; what
 * all of them together delete does not.
 */
module ArchiveUser {
  import opened Common

  /** The owner of an asset: a row of the table that `typeId` names. */
  datatype Entity = Entity(typeId: Id, id: Id)

  /** A row of `asset_map`. */
  datatype Mapping = Mapping(asset: Id, owner: Entity)

  type Path = string
  type Mappings = set<Mapping>
  type Assets = map<Id, Path>

  /* ----- what the collection of a set of owners' assets should be ----- */

  predicate IsMapped(mappings: Mappings, asset: Id) {
    exists m <- mappings :: m.asset == asset
  }

  /** `asset` belongs to one of `owners`, and to nobody else. */
  ghost predicate OwnedOnlyBy(mappings: Mappings, owners: set<Entity>, asset: Id) {
    && IsMapped(mappings, asset)
    && forall m <- mappings | m.asset == asset :: m.owner in owners
  }

  /** The mappings of everybody but `owners`. */
  ghost function MappingsWithout(mappings: Mappings, owners: set<Entity>): Mappings {
    set m <- mappings | m.owner !in owners
  }

  /** The assets left when `owners` give up theirs. */
  ghost function Collected(mappings: Mappings, assets: Assets, owners: set<Entity>): Assets {
    map a <- assets | !OwnedOnlyBy(mappings, owners, a) :: assets[a]
  }

  /** Collecting for some owners and then for others is collecting for all of them. */
  lemma CollectInTwoRounds(mappings: Mappings, assets: Assets, first: set<Entity>, second: set<Entity>)
    ensures MappingsWithout(MappingsWithout(mappings, first), second) == MappingsWithout(mappings, first + second)
    ensures Collected(MappingsWithout(mappings, first), Collected(mappings, assets, first), second)
         == Collected(mappings, assets, first + second)
  {
    var rest := MappingsWithout(mappings, first);
    forall a | a in assets
      ensures OwnedOnlyBy(mappings, first + second, a)
         <==> OwnedOnlyBy(mappings, first, a) || OwnedOnlyBy(rest, second, a)
    {
      if OwnedOnlyBy(mappings, first + second, a) && !OwnedOnlyBy(mappings, first, a) {
        var m :| m in mappings && m.asset == a && m.owner !in first;
        assert m in rest;
      }
      if OwnedOnlyBy(rest, second, a) {
        var m :| m in rest && m.asset == a;
        assert m in mappings;
      }
    }
  }

  /* ----- the two database steps of a worker ----- */

  function MappedTo(mappings: Mappings, owner: Entity): set<Id> {
    set m <- mappings | m.owner == owner :: m.asset
  }

  function DropMappings(mappings: Mappings, owner: Entity): Mappings {
    set m <- mappings | m.owner != owner
  }

  /** The existing assets among `ids` that no mapping refers to. */
  function Unreferenced(mappings: Mappings, assets: Assets, ids: set<Id>): set<Id> {
    set a <- ids | a in assets && !IsMapped(mappings, a)
  }

  /* ----- concurrent workers ----- */

  /** A worker has done nothing, has dropped its mappings, or has deleted assets. */
  datatype Worker =
    | Waiting
    | Dropped(held: set<Id>)
    | Finished(held: set<Id>, deleted: set<Id>)

  datatype System = System(mappings: Mappings, assets: Assets, workers: map<Entity, Worker>)

  function Start(mappings: Mappings, assets: Assets, owners: set<Entity>): System {
    System(mappings, assets, map owner <- owners :: Waiting)
  }

  /** The worker of `owner` takes its next step, if it has one. */
  function Step(s: System, owner: Entity): System {
    if owner !in s.workers then
      s
    else
      match s.workers[owner]
      case Waiting =>
        var held := MappedTo(s.mappings, owner);
        System(DropMappings(s.mappings, owner), s.assets, s.workers[owner := Dropped(held)])
      case Dropped(held) =>
        var deleted := Unreferenced(s.mappings, s.assets, held);
        System(s.mappings, s.assets - deleted, s.workers[owner := Finished(held, deleted)])
      case Finished(_, _) => s
  }

  /** The system after the workers have been scheduled in the order of `schedule`. */
  function Run(s: System, schedule: seq<Entity>): System {
    if schedule == [] then s else Step(Run(s, schedule[..|schedule| - 1]), schedule[|schedule| - 1])
  }

  predicate AllFinished(s: System) {
    forall owner <- s.workers :: s.workers[owner].Finished?
  }

  /**
   * What holds between any two steps of any interleaving that began with
   * `mappings` and `assets`.
   */
  ghost predicate Invariant(mappings: Mappings, assets: Assets, s: System) {
    && (forall m :: m in s.mappings <==>
          m in mappings && (m.owner in s.workers ==> s.workers[m.owner].Waiting?))
    && (forall owner <- s.workers | !s.workers[owner].Waiting? ::
          s.workers[owner].held == MappedTo(mappings, owner))
    && (forall a <- s.assets :: a in assets && s.assets[a] == assets[a])
       // an asset is gone exactly when a finished worker deleted it
    && (forall a <- assets :: a !in s.assets <==> DeletedBySome(s, a))
    && DeletedOnce(s)
       // an asset that somebody still maps is never deleted
    && (forall m <- s.mappings | m.asset in assets :: m.asset in s.assets)
       // only assets of these owners alone are deleted ...
    && (forall a <- assets :: a !in s.assets ==> OwnedOnlyBy(mappings, s.workers.Keys, a))
       // ... and such an asset is gone once all its owners' workers have finished
    && (forall a <- assets | OwnedOnlyBy(mappings, s.workers.Keys, a) && HoldersFinished(mappings, s, a) ::
          a !in s.assets)
  }

  ghost predicate DeletedBy(s: System, owner: Entity, a: Id) {
    owner in s.workers && s.workers[owner].Finished? && a in s.workers[owner].deleted
  }

  ghost predicate DeletedBySome(s: System, a: Id) {
    exists owner :: DeletedBy(s, owner, a)
  }

  /** No two workers report the same asset as deleted. */
  ghost predicate DeletedOnce(s: System) {
    forall o1, o2, a :: DeletedBy(s, o1, a) && DeletedBy(s, o2, a) ==> o1 == o2
  }

  ghost predicate HoldersFinished(mappings: Mappings, s: System, a: Id) {
    forall m <- mappings | m.asset == a && m.owner in s.workers :: s.workers[m.owner].Finished?
  }

  lemma StartInvariant(mappings: Mappings, assets: Assets, owners: set<Entity>)
    ensures Invariant(mappings, assets, Start(mappings, assets, owners))
  {
    var s := Start(mappings, assets, owners);
    forall a | a in assets && OwnedOnlyBy(mappings, s.workers.Keys, a)
      ensures !HoldersFinished(mappings, s, a)
    {
      var m :| m in mappings && m.asset == a;
    }
  }

  lemma StepInvariant(mappings: Mappings, assets: Assets, s: System, owner: Entity)
    requires Invariant(mappings, assets, s)
    ensures Invariant(mappings, assets, Step(s, owner))
    ensures Step(s, owner).workers.Keys == s.workers.Keys
  {
    if owner in s.workers {
      match s.workers[owner]
      case Waiting => DropInvariant(mappings, assets, s, owner);
      case Dropped(_) => DeleteInvariant(mappings, assets, s, owner);
      case Finished(_, _) =>
    }
  }

  lemma DropInvariant(mappings: Mappings, assets: Assets, s: System, owner: Entity)
    requires Invariant(mappings, assets, s)
    requires owner in s.workers && s.workers[owner].Waiting?
    ensures Invariant(mappings, assets, Step(s, owner))
    ensures Step(s, owner).workers.Keys == s.workers.Keys
  {
    var t := Step(s, owner);
    assert t.workers.Keys == s.workers.Keys;
    assert MappedTo(s.mappings, owner) == MappedTo(mappings, owner);
    assert forall o, a :: DeletedBy(t, o, a) <==> DeletedBy(s, o, a);
    forall a | a in assets
      ensures DeletedBySome(t, a) <==> DeletedBySome(s, a)
      ensures HoldersFinished(mappings, t, a) ==> HoldersFinished(mappings, s, a)
    {
      if DeletedBySome(s, a) {
        var o :| DeletedBy(s, o, a);
        assert DeletedBy(t, o, a);
      }
      if DeletedBySome(t, a) {
        var o :| DeletedBy(t, o, a);
        assert DeletedBy(s, o, a);
      }
    }
  }

  lemma DeleteInvariant(mappings: Mappings, assets: Assets, s: System, owner: Entity)
    requires Invariant(mappings, assets, s)
    requires owner in s.workers && s.workers[owner].Dropped?
    ensures Invariant(mappings, assets, Step(s, owner))
    ensures Step(s, owner).workers.Keys == s.workers.Keys
  {
    var t := Step(s, owner);
    var deleted := Unreferenced(s.mappings, s.assets, s.workers[owner].held);
    assert t.workers.Keys == s.workers.Keys;
    assert forall o, a :: DeletedBy(t, o, a) <==> DeletedBy(s, o, a) || (o == owner && a in deleted);
    forall a | a in assets
      ensures DeletedBySome(t, a) <==> DeletedBySome(s, a) || a in deleted
    {
      if DeletedBySome(s, a) {
        var o :| DeletedBy(s, o, a);
        assert DeletedBy(t, o, a);
      }
      if a in deleted {
        assert DeletedBy(t, owner, a);
      }
      if DeletedBySome(t, a) {
        var o :| DeletedBy(t, o, a);
        assert DeletedBy(s, o, a) || a in deleted;
      }
    }
    forall a | a in deleted
      ensures OwnedOnlyBy(mappings, s.workers.Keys, a)
    {
      var m :| m in mappings && m.owner == owner && m.asset == a;
    }
    forall o1, o2, a | DeletedBy(t, o1, a) && DeletedBy(t, o2, a)
      ensures o1 == o2
    {
      if a in deleted {
        assert a in s.assets;
        assert a in assets;
        assert !DeletedBySome(s, a);
      }
    }
    forall a | a in assets && OwnedOnlyBy(mappings, t.workers.Keys, a) && HoldersFinished(mappings, t, a)
      ensures a !in t.assets
    {
      if !HoldersFinished(mappings, s, a) {
        var m :| m in mappings && m.asset == a && m.owner in s.workers && !s.workers[m.owner].Finished?;
        assert m.owner == owner;
        assert a in MappedTo(mappings, owner);
        assert !IsMapped(s.mappings, a);
      }
    }
  }

  lemma {:induction false} RunInvariant(mappings: Mappings, assets: Assets, owners: set<Entity>, schedule: seq<Entity>)
    ensures Invariant(mappings, assets, Run(Start(mappings, assets, owners), schedule))
    ensures Run(Start(mappings, assets, owners), schedule).workers.Keys == owners
  {
    if schedule == [] {
      StartInvariant(mappings, assets, owners);
    } else {
      var before := schedule[..|schedule| - 1];
      RunInvariant(mappings, assets, owners, before);
      StepInvariant(mappings, assets, Run(Start(mappings, assets, owners), before), schedule[|schedule| - 1]);
    }
  }

  /** A state in which every worker has finished is the collected one. */
  lemma FinishedIsCollected(mappings: Mappings, assets: Assets, s: System)
    requires Invariant(mappings, assets, s) && AllFinished(s)
    ensures s.mappings == MappingsWithout(mappings, s.workers.Keys)
    ensures s.assets == Collected(mappings, assets, s.workers.Keys)
  {
    forall a | a in assets
      ensures a in s.assets <==> !OwnedOnlyBy(mappings, s.workers.Keys, a)
    {
      assert HoldersFinished(mappings, s, a);
    }
    assert s.assets.Keys == Collected(mappings, assets, s.workers.Keys).Keys;
  }

  /**
   * Every interleaving of the workers that runs them all to the end leaves the
   * same tables: the owners' mappings are gone, an asset is gone exactly when it
   * was owned by at least one of them and by nobody else, and each such asset was
   * reported by exactly one worker.
   */
  lemma EveryInterleavingCollects(mappings: Mappings, assets: Assets, owners: set<Entity>, schedule: seq<Entity>)
    requires AllFinished(Run(Start(mappings, assets, owners), schedule))
    ensures var s := Run(Start(mappings, assets, owners), schedule);
            && s.mappings == MappingsWithout(mappings, owners)
            && s.assets == Collected(mappings, assets, owners)
            && DeletedOnce(s)
            && (forall a <- assets :: OwnedOnlyBy(mappings, owners, a) <==> DeletedBySome(s, a))
  {
    RunInvariant(mappings, assets, owners, schedule);
    FinishedIsCollected(mappings, assets, Run(Start(mappings, assets, owners), schedule));
  }

  /**
   * At no point of any interleaving, complete or not, does a remaining mapping
   * refer to a deleted asset, and nothing is deleted that anybody else owned.
   */
  lemma NeverDeletesASharedAsset(mappings: Mappings, assets: Assets, owners: set<Entity>, schedule: seq<Entity>)
    ensures var s := Run(Start(mappings, assets, owners), schedule);
            && (forall m <- s.mappings | m.asset in assets :: m.asset in s.assets)
            && (forall a <- assets | a !in s.assets :: OwnedOnlyBy(mappings, owners, a))
  {
    RunInvariant(mappings, assets, owners, schedule);
  }

  /** How far the worker of `owner` is. */
  function StepsTaken(s: System, owner: Entity): nat
    requires owner in s.workers
  {
    match s.workers[owner]
    case Waiting => 0
    case Dropped(_) => 1
    case Finished(_, _) => 2
  }

  lemma {:induction false} StepsAreScheduled(s: System, schedule: seq<Entity>, owner: Entity)
    requires forall o <- s.workers :: s.workers[o].Waiting?
    requires owner in s.workers
    ensures Run(s, schedule).workers.Keys == s.workers.Keys
    ensures StepsTaken(Run(s, schedule), owner) ==
            if multiset(schedule)[owner] < 2 then multiset(schedule)[owner] else 2
  {
    if schedule != [] {
      var last := |schedule| - 1;
      assert schedule == schedule[..last] + [schedule[last]];
      StepsAreScheduled(s, schedule[..last], owner);
      assert Step(Run(s, schedule[..last]), schedule[last]).workers.Keys == s.workers.Keys;
    }
  }

  /** A schedule completes exactly when it lets every worker move at least twice. */
  lemma CompletesWhenAllMoveTwice(mappings: Mappings, assets: Assets, owners: set<Entity>, schedule: seq<Entity>)
    ensures AllFinished(Run(Start(mappings, assets, owners), schedule))
       <==> forall owner <- owners :: multiset(schedule)[owner] >= 2
  {
    var s := Start(mappings, assets, owners);
    assert s.workers.Keys == owners;
    RunInvariant(mappings, assets, owners, schedule);
    forall owner | owner in owners
      ensures Run(s, schedule).workers[owner].Finished? <==> multiset(schedule)[owner] >= 2
    {
      StepsAreScheduled(s, schedule, owner);
    }
  }

  /* ----- the service ----- */

  datatype UserState = Frozen | Active | Banned | Archived
  datatype User = User(state: UserState, avatar: Option<Id>, profileCover: Option<Id>)
  datatype OAuthClient = OAuthClient(user: Id, avatar: Option<Id>)
  datatype Draft = Draft(author: Id)
  datatype ArticleState = ArticlePending | ArticleActive | ArticleArchived | ArticleBanned | ArticleError
  datatype Article = Article(author: Id, state: ArticleState)
  datatype Moment = Moment(author: Id, archived: bool)

  datatype Outcome = Done | UnexpectedState | UserMissing

  ghost function EntitiesOfDrafts(drafts: map<Id, Draft>, draftType: Id, author: Id): set<Entity> {
    set d <- drafts | drafts[d].author == author :: Entity(draftType, d)
  }

  class ArchiveUserService {
    var users: map<Id, User>
    var oauthClients: map<Id, OAuthClient>
    var drafts: map<Id, Draft>
    var articles: map<Id, Article>
    var moments: map<Id, Moment>
    var assetMap: Mappings
    var assets: Assets
    const draftType: Id
    const userType: Id

    method DeleteAsset(owner: Entity) returns (deleted: set<Id>)
      modifies this`assetMap, this`assets
      ensures assetMap == MappingsWithout(old(assetMap), {owner})
      ensures assets == Collected(old(assetMap), old(assets), {owner})
      ensures deleted == old(assets).Keys - assets.Keys
    {
      var assetIds := MappedTo(assetMap, owner);
      assetMap := DropMappings(assetMap, owner);
      deleted := Unreferenced(assetMap, assets, assetIds);
      assets := assets - deleted;

      ghost var schedule := [owner, owner];
      ghost var s0 := Start(old(assetMap), old(assets), {owner});
      assert schedule[..1] == [owner] && [owner][..0] == [];
      assert Run(s0, []) == s0;
      assert Run(s0, [owner]) == Step(s0, owner);
      assert Run(s0, schedule) == Step(Step(s0, owner), owner);
      EveryInterleavingCollects(old(assetMap), old(assets), {owner}, schedule);
    }

    /**
     * Runs the workers of the author's drafts; the database serves their
     * statements in an order nobody controls.
     */
    method DeleteDrafts(author: Id)
      modifies this`drafts, this`assetMap, this`assets
      ensures drafts == map d <- old(drafts) | old(drafts)[d].author != author :: old(drafts)[d]
      ensures assetMap == MappingsWithout(old(assetMap), EntitiesOfDrafts(old(drafts), draftType, author))
      ensures assets == Collected(old(assetMap), old(assets), EntitiesOfDrafts(old(drafts), draftType, author))
    {
      var owners := set d <- drafts | drafts[d].author == author :: Entity(draftType, d);
      drafts := map d <- drafts | drafts[d].author != author :: drafts[d];

      var workers: map<Entity, Worker> := map owner <- owners :: Waiting;
      StartInvariant(assetMap, assets, owners);
      while exists owner :: owner in workers && !workers[owner].Finished?
        invariant workers.Keys == owners
        invariant Invariant(old(assetMap), old(assets), System(assetMap, assets, workers))
        modifies this`assetMap, this`assets
        decreases Remaining(workers)
      {
        var owner :| owner in workers && !workers[owner].Finished?;
        StepInvariant(old(assetMap), old(assets), System(assetMap, assets, workers), owner);
        StepMakesProgress(System(assetMap, assets, workers), owner);
        workers := Advance(workers, owner);
      }
      FinishedIsCollected(old(assetMap), old(assets), System(assetMap, assets, workers));
    }

    /** The database serves the next statement of the worker of `owner`. */
    method Advance(workers: map<Entity, Worker>, owner: Entity) returns (advanced: map<Entity, Worker>)
      requires owner in workers && !workers[owner].Finished?
      modifies this`assetMap, this`assets
      ensures System(assetMap, assets, advanced) == Step(System(old(assetMap), old(assets), workers), owner)
    {
      match workers[owner]
      case Waiting =>
        var held := MappedTo(assetMap, owner);
        assetMap := DropMappings(assetMap, owner);
        advanced := workers[owner := Dropped(held)];
      case Dropped(held) =>
        var deleted := Unreferenced(assetMap, assets, held);
        assets := assets - deleted;
        advanced := workers[owner := Finished(held, deleted)];
    }

    method DeleteUserAssets(userId: Id)
      modifies this`users, this`oauthClients, this`assetMap, this`assets
      ensures users == if userId in old(users)
                       then old(users)[userId := old(users)[userId].(avatar := None, profileCover := None)]
                       else old(users)
      ensures oauthClients.Keys == old(oauthClients).Keys
      ensures forall c <- oauthClients ::
                oauthClients[c] == if old(oauthClients)[c].user == userId
                                   then old(oauthClients)[c].(avatar := None) else old(oauthClients)[c]
      ensures assetMap == MappingsWithout(old(assetMap), {Entity(userType, userId)})
      ensures assets == Collected(old(assetMap), old(assets), {Entity(userType, userId)})
    {
      if userId in users {
        users := users[userId := users[userId].(avatar := None, profileCover := None)];
      }
      oauthClients := map c <- oauthClients ::
        if oauthClients[c].user == userId then oauthClients[c].(avatar := None) else oauthClients[c];
      var _ := DeleteAsset(Entity(userType, userId));
    }

    /**
     * Archiving deletes the user's drafts and unpublished articles, archives the
     * moments, and deletes exactly the assets that belonged to the user or to the
     * user's drafts and to nothing else. A user in any other state loses nothing.
     */
    method ArchiveUser(userId: Id) returns (outcome: Outcome)
      modifies this
      ensures outcome == if userId !in old(users) then UserMissing
                         else if old(users)[userId].state != Archived then UnexpectedState
                         else Done
      ensures outcome != Done ==>
                && users == old(users) && oauthClients == old(oauthClients) && drafts == old(drafts)
                && articles == old(articles) && moments == old(moments)
                && assetMap == old(assetMap) && assets == old(assets)
      ensures outcome == Done ==>
                var owners := EntitiesOfDrafts(old(drafts), draftType, userId) + {Entity(userType, userId)};
                && assetMap == MappingsWithout(old(assetMap), owners)
                && assets == Collected(old(assetMap), old(assets), owners)
      ensures outcome == Done ==>
                && drafts == (map d <- old(drafts) | old(drafts)[d].author != userId :: old(drafts)[d])
                && articles == (map a <- old(articles)
                                  | !(old(articles)[a].author == userId && old(articles)[a].state in {ArticlePending, ArticleError})
                                  :: old(articles)[a])
                && moments == (map m <- old(moments) ::
                                 if old(moments)[m].author == userId then old(moments)[m].(archived := true) else old(moments)[m])
                && users == old(users)[userId := old(users)[userId].(avatar := None, profileCover := None)]
      ensures outcome == Done ==>
                && oauthClients.Keys == old(oauthClients).Keys
                && forall c <- oauthClients ::
                     if old(oauthClients)[c].user == userId
                     then oauthClients[c].avatar.None? && oauthClients[c].user == userId
                     else oauthClients[c] == old(oauthClients)[c]
    {
      if userId !in users {
        return UserMissing;
      }
      if users[userId].state != Archived {
        return UnexpectedState;
      }
      ghost var ofDrafts := EntitiesOfDrafts(drafts, draftType, userId);
      DeleteDrafts(userId);
      articles := map a <- articles
        | !(articles[a].author == userId && articles[a].state in {ArticlePending, ArticleError})
        :: articles[a];
      moments := map m <- moments ::
        if moments[m].author == userId then moments[m].(archived := true) else moments[m];
      DeleteUserAssets(userId);
      CollectInTwoRounds(old(assetMap), old(assets), ofDrafts, {Entity(userType, userId)});
      return Done;
    }
  }

  /** The number of steps the workers have left, for termination. */
  ghost function Remaining(workers: map<Entity, Worker>): nat {
    |set o <- workers | workers[o].Waiting?| + |set o <- workers | !workers[o].Finished?|
  }

  lemma StepMakesProgress(s: System, owner: Entity)
    requires owner in s.workers && !s.workers[owner].Finished?
    ensures Remaining(Step(s, owner).workers) < Remaining(s.workers)
  {
    var t := Step(s, owner);
    var waiting := set o <- s.workers | s.workers[o].Waiting?;
    var unfinished := set o <- s.workers | !s.workers[o].Finished?;
    if s.workers[owner].Waiting? {
      assert (set o <- t.workers | t.workers[o].Waiting?) == waiting - {owner};
      assert (set o <- t.workers | !t.workers[o].Finished?) == unfinished;
    } else {
      assert (set o <- t.workers | t.workers[o].Waiting?) == waiting;
      assert (set o <- t.workers | !t.workers[o].Finished?) == unfinished - {owner};
    }
  }
}
