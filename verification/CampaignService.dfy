/**
 * Updating an article's campaigns, and the grand slam of a campaign
 * (src/connectors/campaignService.ts).
 */
module CampaignServices {
  import opened Common
  import opened CampaignTables

  /* ----- the grand slam: who submitted to every required stage ----- */

  datatype Article = Article(author: Id)
  datatype User = User(active: bool)

  /** The tables the grand slam query joins. */
  datatype Tables = Tables(
    reference: Reference,
    submissions: seq<Submission>,
    articles: map<Id, Article>,
    users: map<Id, User>)

  /* ----- what the query means ----- */

  /** The instant lies in the period, if there is one: from its start on, and before its end if it has one. */
  predicate IsDuring(period: Option<Period>, t: int) {
    match period
    case None => false
    case Some(Period(start, None)) => start <= t
    case Some(Period(start, Some(end))) => start <= t < end
  }

  /**
   * The author has a successful application made within the application period of
   * the campaign. The join is on the user alone: it may be to another campaign.
   */
  predicate AppliedInTime(db: Tables, campaign: Id, author: Id) {
    exists a <- db.reference.applications :: IsInTime(db, campaign, author, a)
  }

  /** A successful application of the author, to whatever campaign, within the period of this one. */
  predicate IsInTime(db: Tables, campaign: Id, author: Id, a: Application) {
    && campaign in db.reference.campaigns
    && a.user == author && a.state == Succeeded
    && IsDuring(db.reference.campaigns[campaign].applicationPeriod, a.createdAt)
  }

  predicate AppliedHere(db: Tables, campaign: Id, author: Id) {
    exists a <- db.reference.applications :: IsInTime(db, campaign, author, a) && a.campaign == campaign
  }

  predicate AppliedElsewhere(db: Tables, campaign: Id, author: Id) {
    exists a <- db.reference.applications :: IsInTime(db, campaign, author, a) && a.campaign != campaign
  }

  predicate IsActiveUser(db: Tables, author: Id) {
    author in db.users && db.users[author].active
  }

  /** The author is active and may take part. */
  predicate IsEligible(db: Tables, campaign: Id, author: Id) {
    IsActiveUser(db, author) && AppliedInTime(db, campaign, author)
  }

  /** The submission is one of the author's to that stage, made within the writing period. */
  predicate IsEntry(db: Tables, campaign: Id, author: Id, stage: Id, row: Submission) {
    && row.campaign == campaign && row.stage == Some(stage) && stage in db.reference.stages
    && row.article in db.articles && db.articles[row.article].author == author
    && campaign in db.reference.campaigns
    && IsDuring(db.reference.campaigns[campaign].writingPeriod, row.createdAt)
  }

  predicate HasEntry(db: Tables, campaign: Id, author: Id, stage: Id) {
    exists row <- db.submissions :: IsEntry(db, campaign, author, stage, row)
  }

  /** The author has an entry that was not taken back. */
  predicate HasLiveEntry(db: Tables, campaign: Id, author: Id, stage: Id) {
    exists row <- db.submissions :: IsEntry(db, campaign, author, stage, row) && !row.deleted
  }

  /* ----- the query ----- */

  /** The range operator: a null range contains nothing. */
  predicate Contains(period: Option<Period>, t: int) {
    && period.Some?
    && period.value.start <= t
    && (period.value.end.Some? ==> t < period.value.end.value)
  }

  /** One joined row: a submission with its article, author, stage and campaign, and an application of the author. */
  predicate IsJoined(db: Tables, campaign: Id, stageIds: seq<Id>, row: Submission, a: Application) {
    && row.article in db.articles
    && row.stage.Some? && row.stage.value in db.reference.stages
    && a.user == db.articles[row.article].author
    && a.user in db.users
    && row.campaign in db.reference.campaigns
    && row.campaign == campaign && a.state == Succeeded && db.users[a.user].active
    && row.stage.value in stageIds
    && Contains(db.reference.campaigns[row.campaign].writingPeriod, row.createdAt)
    && Contains(db.reference.campaigns[row.campaign].applicationPeriod, a.createdAt)
  }

  /** The groups of the inner query: pairs of an author and a stage with at least one joined row. */
  function Pairs(db: Tables, campaign: Id, stageIds: seq<Id>): set<(Id, Id)> {
    set row <- db.submissions, a <- db.reference.applications | IsJoined(db, campaign, stageIds, row, a) ::
      (a.user, row.stage.value)
  }

  function StagesOfAuthor(pairs: set<(Id, Id)>, author: Id): set<Id> {
    set p <- pairs | p.0 == author :: p.1
  }

  /** The outer query: the authors of as many pairs as there are stage ids. */
  function Slammers(pairs: set<(Id, Id)>, count: nat): set<Id> {
    set p <- pairs | |StagesOfAuthor(pairs, p.0)| == count :: p.0
  }

  function CampaignStages(db: Tables, campaign: Id): set<Id> {
    set s <- db.reference.stages | db.reference.stages[s].campaign == campaign
  }

  function Required(campaignStages: seq<Id>, stageIds: Option<seq<Id>>): seq<Id> {
    if stageIds.Some? then stageIds.value else campaignStages
  }

  /**
   * `campaignStages` lists the campaign's stages, in the order the query returned
   * them. Without requested ids they are all required.
   */
  function GrandSlamUsers(db: Tables, campaign: Id, campaignStages: seq<Id>, stageIds: Option<seq<Id>>)
    : Result<set<Id>, CampaignError>
  {
    if stageIds.Some? && exists id <- stageIds.value :: id !in campaignStages then
      Err(InvalidStages)
    else
      var required := Required(campaignStages, stageIds);
      Ok(Slammers(Pairs(db, campaign, required), |required|))
  }

  lemma PairMeaning(db: Tables, campaign: Id, stageIds: seq<Id>, author: Id, stage: Id)
    ensures (author, stage) in Pairs(db, campaign, stageIds)
       <==> stage in stageIds && IsEligible(db, campaign, author) && HasEntry(db, campaign, author, stage)
  {
    if stage in stageIds && IsEligible(db, campaign, author) && HasEntry(db, campaign, author, stage) {
      var row :| row in db.submissions && IsEntry(db, campaign, author, stage, row);
      var a :| a in db.reference.applications && IsInTime(db, campaign, author, a);
      assert IsJoined(db, campaign, stageIds, row, a);
      assert (a.user, row.stage.value) in Pairs(db, campaign, stageIds);
    }
  }

  lemma StagesOfAuthorMeaning(db: Tables, campaign: Id, stageIds: seq<Id>, author: Id)
    ensures forall stage :: stage in StagesOfAuthor(Pairs(db, campaign, stageIds), author) <==>
                            stage in stageIds && IsEligible(db, campaign, author) && HasEntry(db, campaign, author, stage)
  {
    var pairs := Pairs(db, campaign, stageIds);
    forall stage
      ensures stage in StagesOfAuthor(pairs, author) <==>
              stage in stageIds && IsEligible(db, campaign, author) && HasEntry(db, campaign, author, stage)
    {
      PairMeaning(db, campaign, stageIds, author, stage);
      if (author, stage) in pairs {
        assert (author, stage).0 == author && (author, stage).1 == stage;
      }
    }
  }

  lemma SlammerMeaning(pairs: set<(Id, Id)>, count: nat, author: Id)
    ensures author in Slammers(pairs, count) <==> StagesOfAuthor(pairs, author) != {} && |StagesOfAuthor(pairs, author)| == count
  {
    if stage :| stage in StagesOfAuthor(pairs, author) {
      var p :| p in pairs && p.0 == author && p.1 == stage;
      assert p == (author, stage);
    }
    if author in Slammers(pairs, count) {
      var p :| p in pairs && p.0 == author;
      assert p.1 in StagesOfAuthor(pairs, author);
    }
  }

  /**
   * Counting stages finds exactly the eligible authors with an entry for every
   * required stage, if the required stages are some and no stage is listed twice.
   * Otherwise it finds nobody.
   */
  lemma GrandSlamMeaning(db: Tables, campaign: Id, campaignStages: seq<Id>, stageIds: Option<seq<Id>>, author: Id)
    requires GrandSlamUsers(db, campaign, campaignStages, stageIds).Ok?
    ensures var required := Required(campaignStages, stageIds);
            author in GrandSlamUsers(db, campaign, campaignStages, stageIds).value
            <==> && required != [] && NoDuplicates(required)
                 && IsEligible(db, campaign, author)
                 && forall stage <- required :: HasEntry(db, campaign, author, stage)
  {
    var required := Required(campaignStages, stageIds);
    var pairs := Pairs(db, campaign, required);
    var stages := StagesOfAuthor(pairs, author);
    SlammerMeaning(pairs, |required|, author);
    StagesOfAuthorMeaning(db, campaign, required, author);
    IdCount(required);
    assert stages <= IdSet(required);
    SubsetCount(stages, IdSet(required));
    if required != [] {
      assert required[0] in required;
    }
  }

  /* ----- who is found without having earned it ----- */

  ghost predicate IsFound(db: Tables, campaign: Id, campaignStages: seq<Id>, stageIds: Option<seq<Id>>, author: Id) {
    && GrandSlamUsers(db, campaign, campaignStages, stageIds).Ok?
    && author in GrandSlamUsers(db, campaign, campaignStages, stageIds).value
  }

  /** An active author who applied to this campaign in time, with a live entry for every required stage. */
  ghost predicate HasEarned(db: Tables, campaign: Id, required: seq<Id>, author: Id) {
    && required != [] && IsActiveUser(db, author) && AppliedHere(db, campaign, author)
    && forall stage <- required :: HasLiveEntry(db, campaign, author, stage)
  }

  /** An author is found without an application to this campaign in time exactly by one to another. */
  lemma FoundByApplicationElsewhere(db: Tables, campaign: Id, campaignStages: seq<Id>, stageIds: Option<seq<Id>>, author: Id)
    requires GrandSlamUsers(db, campaign, campaignStages, stageIds).Ok?
    ensures var required := Required(campaignStages, stageIds);
            IsFound(db, campaign, campaignStages, stageIds, author) && !AppliedHere(db, campaign, author)
            <==> && required != [] && NoDuplicates(required) && IsActiveUser(db, author)
                 && (forall stage <- required :: HasEntry(db, campaign, author, stage))
                 && !AppliedHere(db, campaign, author) && AppliedElsewhere(db, campaign, author)
  {
    GrandSlamMeaning(db, campaign, campaignStages, stageIds, author);
  }

  /** An author is found with nothing left of some required stage exactly by deleted entries. */
  lemma FoundByDeletedEntries(db: Tables, campaign: Id, campaignStages: seq<Id>, stageIds: Option<seq<Id>>, author: Id)
    requires GrandSlamUsers(db, campaign, campaignStages, stageIds).Ok?
    ensures var required := Required(campaignStages, stageIds);
            (&& IsFound(db, campaign, campaignStages, stageIds, author)
             && exists stage <- required :: !HasLiveEntry(db, campaign, author, stage))
            <==> && NoDuplicates(required) && IsEligible(db, campaign, author)
                 && (forall stage <- required :: HasEntry(db, campaign, author, stage))
                 && exists stage <- required :: DeletedOnly(db, campaign, author, stage)
  {
    var required := Required(campaignStages, stageIds);
    GrandSlamMeaning(db, campaign, campaignStages, stageIds, author);
    if exists stage <- required :: !HasLiveEntry(db, campaign, author, stage) && HasEntry(db, campaign, author, stage) {
      var stage :| stage in required && !HasLiveEntry(db, campaign, author, stage) && HasEntry(db, campaign, author, stage);
      assert DeletedOnly(db, campaign, author, stage);
    }
  }

  /** The author has entries for the stage, and all of them are deleted. */
  predicate DeletedOnly(db: Tables, campaign: Id, author: Id, stage: Id) {
    && HasEntry(db, campaign, author, stage)
    && forall row <- db.submissions :: IsEntry(db, campaign, author, stage, row) ==> row.deleted
  }

  /** Those who earned it are found exactly if no required stage is listed twice. */
  lemma EarnedIsFound(db: Tables, campaign: Id, campaignStages: seq<Id>, stageIds: Option<seq<Id>>, author: Id)
    requires GrandSlamUsers(db, campaign, campaignStages, stageIds).Ok?
    requires HasEarned(db, campaign, Required(campaignStages, stageIds), author)
    ensures IsFound(db, campaign, campaignStages, stageIds, author) <==> NoDuplicates(Required(campaignStages, stageIds))
  {
    GrandSlamMeaning(db, campaign, campaignStages, stageIds, author);
    assert forall stage :: HasLiveEntry(db, campaign, author, stage) ==> HasEntry(db, campaign, author, stage);
  }

  /**
   * With all stages of the campaign required, exactly those who earned the grand slam are
   * found, and besides them the eligible authors with an entry for every stage who
   * applied elsewhere only or have but deleted entries for some stage. So the result is
   * right for an author exactly when neither is the case.
   */
  lemma FoundBeyondEarned(db: Tables, campaign: Id, campaignStages: seq<Id>, author: Id)
    requires AreStagesOf(db, campaign, campaignStages)
    ensures HasEarned(db, campaign, campaignStages, author) ==> IsFound(db, campaign, campaignStages, None, author)
    ensures (IsFound(db, campaign, campaignStages, None, author) <==> HasEarned(db, campaign, campaignStages, author))
       <==> !(&& campaignStages != [] && IsEligible(db, campaign, author)
              && (forall stage <- campaignStages :: HasEntry(db, campaign, author, stage))
              && (|| !AppliedHere(db, campaign, author)
                  || exists stage <- campaignStages :: DeletedOnly(db, campaign, author, stage)))
  {
    GrandSlamMeaning(db, campaign, campaignStages, None, author);
    assert forall stage :: HasLiveEntry(db, campaign, author, stage) <==>
      HasEntry(db, campaign, author, stage) && !DeletedOnly(db, campaign, author, stage);
  }

  /**
   * A campaign of one stage with applications in [0, 10). User 7 applied to campaign 2 at
   * 5, and to this one at 6 or, if not `here`, too late at 20; the one submission is
   * deleted or not.
   */
  function SlamTables(here: bool, deleted: bool): Tables {
    Tables(
      Reference(
        map[1 := Campaign(Active, Some(Period(0, Some(10))), Some(Period(0, Some(100)))),
            2 := Campaign(Active, Some(Period(0, Some(10))), None)],
        map[11 := Stage(1, None)],
        [Application(1, 7, Succeeded, if here then 6 else 20), Application(2, 7, Succeeded, 5)]),
      [Submission(30, 1, Some(11), deleted, 50)],
      map[30 := Article(7)],
      map[7 := User(true)])
  }

  /**
   * User 7 may submit and is found in all four tables, and has earned it in one. Asking
   * for the stage twice finds nobody.
   */
  lemma UnearnedGrandSlam(here: bool, deleted: bool)
    ensures var db := SlamTables(here, deleted);
            && AreStagesOf(db, 1, [11]) && MaySubmit(db.reference, 7, Request(1, Some(11)), 50)
            && IsFound(db, 1, [11], None, 7)
            && (AppliedHere(db, 1, 7) <==> here)
            && (HasLiveEntry(db, 1, 7, 11) <==> !deleted)
            && (HasEarned(db, 1, [11], 7) <==> here && !deleted)
            && GrandSlamUsers(db, 1, [11], Some([11, 11])).Ok? && !IsFound(db, 1, [11], Some([11, 11]), 7)
  {
    var db := SlamTables(here, deleted);
    SlamStages(here, deleted);
    SlamEntries(here, deleted);
    SlamApplications(here, deleted);
    GrandSlamMeaning(db, 1, [11], None, 7);
    GrandSlamMeaning(db, 1, [11], Some([11, 11]), 7);
    assert [11, 11][0] == [11, 11][1];
  }

  lemma SlamStages(here: bool, deleted: bool)
    ensures AreStagesOf(SlamTables(here, deleted), 1, [11])
  {
    var db := SlamTables(here, deleted);
    assert 11 in IdSet([11]) && 11 in CampaignStages(db, 1);
  }

  lemma SlamEntries(here: bool, deleted: bool)
    ensures var db := SlamTables(here, deleted);
            HasEntry(db, 1, 7, 11) && (HasLiveEntry(db, 1, 7, 11) <==> !deleted)
  {
    var db := SlamTables(here, deleted);
    assert IsEntry(db, 1, 7, 11, db.submissions[0]) && db.submissions[0] in db.submissions;
  }

  lemma SlamApplications(here: bool, deleted: bool)
    ensures var db := SlamTables(here, deleted);
            && AppliedInTime(db, 1, 7) && (AppliedHere(db, 1, 7) <==> here)
            && MaySubmit(db.reference, 7, Request(1, Some(11)), 50)
  {
    var db := SlamTables(here, deleted);
    var applications := db.reference.applications;
    assert applications[0] in applications && applications[1] in applications;
    assert IsInTime(db, 1, 7, applications[1]) && (IsInTime(db, 1, 7, applications[0]) <==> here);
  }

  /** `ids` are the campaign's stages as the query returns them, in some order. */
  ghost predicate AreStagesOf(db: Tables, campaign: Id, ids: seq<Id>) {
    NoDuplicates(ids) && IdSet(ids) == CampaignStages(db, campaign)
  }

  /**
   * Without requested ids, the grand slam goes to the eligible authors with an entry for
   * every stage of the campaign, if it has any. Requested ids are refused exactly when
   * one is not a stage of the campaign.
   */
  lemma GrandSlamOfAllStages(db: Tables, campaign: Id, campaignStages: seq<Id>, stageIds: seq<Id>, author: Id)
    requires AreStagesOf(db, campaign, campaignStages)
    ensures GrandSlamUsers(db, campaign, campaignStages, None).Ok?
    ensures author in GrandSlamUsers(db, campaign, campaignStages, None).value
            <==> && CampaignStages(db, campaign) != {} && IsEligible(db, campaign, author)
                 && forall stage <- CampaignStages(db, campaign) :: HasEntry(db, campaign, author, stage)
    ensures GrandSlamUsers(db, campaign, campaignStages, Some(stageIds)).Ok?
            <==> IdSet(stageIds) <= CampaignStages(db, campaign)
  {
    GrandSlamMeaning(db, campaign, campaignStages, None, author);
    assert forall id :: id in campaignStages <==> id in IdSet(campaignStages);
    assert forall id :: id in stageIds <==> id in IdSet(stageIds);
    if campaignStages != [] {
      assert campaignStages[0] in campaignStages;
    }
  }

  /* ----- the service ----- */

  class CampaignService {
    var reference: Reference
    var submissions: seq<Submission>

    /**
     * A submission that validates takes the article into the campaign, with its rows
     * there live and at the stage if one is given, and leaves all other rows alone.
     */
    method SubmitArticleToCampaign(article: Id, author: Id, request: Request, now: int)
      returns (error: Option<CampaignError>)
      modifies this`submissions
      ensures error == Validate(reference, author, request, now)
      ensures error.None? <==> MaySubmit(reference, author, request, now)
      ensures OneApplicationEach(reference.applications) ==>
                (error == Some(NotApplied)
                 <==> && request.campaign in reference.campaigns && reference.campaigns[request.campaign].state == Active
                      && !exists a <- reference.applications ::
                           a.campaign == request.campaign && a.user == author && a.state == Succeeded)
      ensures error.Some? ==> submissions == old(submissions)
      ensures error.None? ==> submissions == Submitted(old(submissions), article, request.campaign, request.stage, now)
      ensures error.None? ==>
                LiveCampaigns(reference, submissions, article)
                == LiveCampaigns(reference, old(submissions), article) + {request.campaign}
      ensures error.None? ==> OnlyTouches(reference, old(submissions), submissions, article, [request.campaign])
      ensures error.None? ==>
                forall row <- submissions | IsOf(row, article, request.campaign) ::
                  !row.deleted && (request.stage.Some? ==> row.stage == request.stage)
    {
      ValidateMeaning(reference, author, request, now);
      if OneApplicationEach(reference.applications) {
        AppliedOnce(reference.applications, request.campaign, author);
      }
      error := Validate(reference, author, request, now);
      if error.Some? {
        return;
      }
      Upsert(article, request, now);
      LiveAfterSubmit(reference, old(submissions), article, request.campaign, request.stage, now);
    }

    method Upsert(article: Id, request: Request, now: int)
      modifies this`submissions
      ensures submissions == Submitted(old(submissions), article, request.campaign, request.stage, now)
    {
      if !Exists(submissions, article, request.campaign) {
        submissions := submissions + [Submission(article, request.campaign, request.stage, false, now)];
        return;
      }
      for i := 0 to |submissions|
        invariant |submissions| == |old(submissions)|
        invariant forall j | 0 <= j < i ::
                    submissions[j] == Submitted(old(submissions), article, request.campaign, request.stage, now)[j]
        invariant forall j | i <= j < |submissions| :: submissions[j] == old(submissions)[j]
      {
        if IsOf(submissions[i], article, request.campaign) {
          var stage := if request.stage.Some? then request.stage else submissions[i].stage;
          submissions := submissions[i := submissions[i].(stage := stage, deleted := false)];
        }
      }
    }

    /**
     * Attaches, restages and detaches until the article is in the requested
     * campaigns; what was done before a request that fails stays done.
     */
    method UpdateArticleCampaigns(article: Id, author: Id, newCampaigns: seq<Request>, now: int)
      returns (mutatedCampaignIds: seq<Id>, error: Option<CampaignError>)
      modifies this`submissions
      ensures Progress(submissions, mutatedCampaignIds, error)
           == Reconciled(reference, old(submissions), article, author, newCampaigns, now)
      ensures error.None? ==>
                forall c :: c in LiveCampaigns(reference, submissions, article) <==> c in RequestedCampaigns(newCampaigns)
      ensures OnlyTouches(reference, old(submissions), submissions, article, mutatedCampaignIds)
    {
      ghost var start := submissions;
      ReconciledCampaigns(reference, start, article, author, newCampaigns, now);
      ReconciledTouches(reference, start, article, author, newCampaigns, now);
      mutatedCampaignIds, error := [], None;
      var originalCampaigns := Originals(reference, submissions, article);
      var originalCampaignIds := CampaignsOf(originalCampaigns);

      for k := 0 to |newCampaigns|
        invariant error.None?
        invariant Progress(submissions, mutatedCampaignIds, None)
               == Attached(reference, originalCampaigns, start, article, author, newCampaigns[..k], now)
      {
        assert newCampaigns[..k + 1][..k] == newCampaigns[..k];
        var request := newCampaigns[k];
        if request.campaign in originalCampaignIds {
          if IsAtStage(originalCampaigns, request) {
            continue;
          } else if !IsKnownStage(reference, request.stage) {
            error := Some(ForeignKeyViolation);
            ErrorStops(start, originalCampaigns, article, author, newCampaigns, k + 1, now);
            return;
          } else {
            submissions := WithStage(submissions, article, request.campaign, request.stage);
            mutatedCampaignIds := mutatedCampaignIds + [request.campaign];
          }
        } else {
          error := SubmitArticleToCampaign(article, author, request, now);
          if error.Some? {
            ErrorStops(start, originalCampaigns, article, author, newCampaigns, k + 1, now);
            return;
          }
          mutatedCampaignIds := mutatedCampaignIds + [request.campaign];
        }
      }
      assert newCampaigns[..|newCampaigns|] == newCampaigns;

      var newCampaignIds := RequestedCampaigns(newCampaigns);
      var toRemove := NotRequested(originalCampaignIds, newCampaignIds);
      submissions := WithDeleted(submissions, article, toRemove);
      mutatedCampaignIds := mutatedCampaignIds + toRemove;
    }

    lemma {:induction false} ErrorStops(start: seq<Submission>, originals: seq<Submission>, article: Id, author: Id,
                                        requests: seq<Request>, k: nat, now: int)
      requires k <= |requests|
      requires Attached(reference, originals, start, article, author, requests[..k], now).error.Some?
      ensures Attached(reference, originals, start, article, author, requests, now)
           == Attached(reference, originals, start, article, author, requests[..k], now)
      decreases |requests|
    {
      if k < |requests| {
        var last := |requests| - 1;
        assert requests[..last][..k] == requests[..k];
        ErrorStops(start, originals, article, author, requests[..last], k, now);
      } else {
        assert requests[..k] == requests;
      }
    }
  }
}
