/**
 * Submissions of articles to campaigns (src/connectors/campaignService.ts): the
 * tables, validation, and the reconciliation of an article's campaigns with a
 * requested list.
 */
module CampaignTables {
  import opened Common

  datatype CampaignState = Pending | Active | Finished | Archived
  datatype ApplicationState = ApplicationPending | Succeeded | Rejected

  /** The instants from `start` on, up to but without `end` if there is one. */
  datatype Period = Period(start: int, end: Option<int>)

  datatype Campaign = Campaign(state: CampaignState, applicationPeriod: Option<Period>, writingPeriod: Option<Period>)
  datatype Stage = Stage(campaign: Id, period: Option<Period>)
  datatype Application = Application(campaign: Id, user: Id, state: ApplicationState, createdAt: int)

  /** A row of `campaign_article`. */
  datatype Submission = Submission(article: Id, campaign: Id, stage: Option<Id>, deleted: bool, createdAt: int)

  /** The tables that an update of an article's campaigns only reads. */
  datatype Reference = Reference(campaigns: map<Id, Campaign>, stages: map<Id, Stage>, applications: seq<Application>)

  datatype CampaignError =
    | CampaignNotFound | CampaignNotActive | NotApplied | WritingPeriodNotStarted
    | StageRequired | StageNotFound | StageNotStarted | InvalidStages | ForeignKeyViolation

  datatype Request = Request(campaign: Id, stage: Option<Id>)

  /* ----- validation ----- */

  /** The first application of the user in the table. */
  function FirstApplication(applications: seq<Application>, campaign: Id, user: Id): Option<Application> {
    if applications == [] then None
    else if applications[0].campaign == campaign && applications[0].user == user then Some(applications[0])
    else FirstApplication(applications[1..], campaign, user)
  }

  /** When a stored period is read back to begin. An empty one is stored as such and begins at zero. */
  function StartOf(period: Period): int {
    if period.end == Some(period.start) then 0 else period.start
  }

  predicate NotStarted(period: Option<Period>, now: int) {
    period.Some? && now < StartOf(period.value)
  }

  /** For a stage a start of zero counts as no start. */
  predicate StageStartsLater(stage: Stage, now: int) {
    NotStarted(stage.period, now) && StartOf(stage.period.value) != 0
  }

  predicate HasStages(db: Reference, campaign: Id) {
    exists s <- db.stages :: db.stages[s].campaign == campaign
  }

  /** What validating a submission throws, if anything. */
  function Validate(db: Reference, user: Id, request: Request, now: int): Option<CampaignError> {
    if request.campaign !in db.campaigns then
      Some(CampaignNotFound)
    else if db.campaigns[request.campaign].state != Active then
      Some(CampaignNotActive)
    else
      var application := FirstApplication(db.applications, request.campaign, user);
      if application.None? || application.value.state != Succeeded then
        Some(NotApplied)
      else if NotStarted(db.campaigns[request.campaign].writingPeriod, now) then
        Some(WritingPeriodNotStarted)
      else if HasStages(db, request.campaign) && request.stage.None? then
        Some(StageRequired)
      else if request.stage.None? then
        None
      else if request.stage.value !in db.stages then
        Some(StageNotFound)
      else if StageStartsLater(db.stages[request.stage.value], now) then
        Some(StageNotStarted)
      else
        None
  }

  predicate IsActiveCampaign(db: Reference, campaign: Id) {
    campaign in db.campaigns && db.campaigns[campaign].state == Active
  }

  /* ----- what a submission needs, on the rows ----- */

  /** The first of the user's applications to the campaign, in the order of the table, has succeeded. */
  predicate HasSucceeded(applications: seq<Application>, campaign: Id, user: Id) {
    exists i | 0 <= i < |applications| ::
      && applications[i].campaign == campaign && applications[i].user == user && applications[i].state == Succeeded
      && forall j | 0 <= j < i :: applications[j].campaign != campaign || applications[j].user != user
  }

  /** Without a period it has begun; an empty one begins at zero. */
  predicate HasBegun(period: Option<Period>, now: int) {
    match period
    case None => true
    case Some(p) => if p.end == Some(p.start) then 0 <= now else p.start <= now
  }

  /** A stage has begun also if its period is empty or begins at zero. */
  predicate IsOpen(stage: Stage, now: int) {
    match stage.period
    case None => true
    case Some(p) => p.end == Some(p.start) || p.start == 0 || p.start <= now
  }

  /** What a submission needs. The stage need not be one of the campaign's. */
  predicate MaySubmit(db: Reference, user: Id, request: Request, now: int) {
    && request.campaign in db.campaigns && db.campaigns[request.campaign].state == Active
    && HasSucceeded(db.applications, request.campaign, user)
    && HasBegun(db.campaigns[request.campaign].writingPeriod, now)
    && match request.stage
       case None => forall s <- db.stages :: db.stages[s].campaign != request.campaign
       case Some(s) => s in db.stages && IsOpen(db.stages[s], now)
  }

  lemma {:induction false} FirstApplicationMeaning(applications: seq<Application>, campaign: Id, user: Id)
    ensures var first := FirstApplication(applications, campaign, user);
            HasSucceeded(applications, campaign, user) <==> first.Some? && first.value.state == Succeeded
  {
    if applications != [] {
      var rest := applications[1..];
      FirstApplicationMeaning(rest, campaign, user);
      if applications[0].campaign == campaign && applications[0].user == user {
        FirstDecides(applications, campaign, user);
      } else {
        RestDecides(applications, campaign, user);
      }
    }
  }

  lemma FirstDecides(applications: seq<Application>, campaign: Id, user: Id)
    requires applications != [] && applications[0].campaign == campaign && applications[0].user == user
    ensures HasSucceeded(applications, campaign, user) <==> applications[0].state == Succeeded
  {
  }

  lemma RestDecides(applications: seq<Application>, campaign: Id, user: Id)
    requires applications != [] && !(applications[0].campaign == campaign && applications[0].user == user)
    ensures HasSucceeded(applications, campaign, user) <==> HasSucceeded(applications[1..], campaign, user)
  {
    var rest := applications[1..];
    assert forall k | 0 <= k < |rest| :: rest[k] == applications[k + 1];
    if HasSucceeded(rest, campaign, user) {
      var i :| 0 <= i < |rest| && rest[i].campaign == campaign && rest[i].user == user && rest[i].state == Succeeded
               && forall j | 0 <= j < i :: rest[j].campaign != campaign || rest[j].user != user;
      forall j | 0 <= j < i + 1
        ensures applications[j].campaign != campaign || applications[j].user != user
      {
        assert j > 0 ==> applications[j] == rest[j - 1];
      }
      assert applications[i + 1].state == Succeeded;
    }
    if HasSucceeded(applications, campaign, user) {
      var i :| 0 <= i < |applications| && applications[i].campaign == campaign && applications[i].user == user
               && applications[i].state == Succeeded
               && forall j | 0 <= j < i :: applications[j].campaign != campaign || applications[j].user != user;
      assert rest[i - 1] == applications[i];
    }
  }

  /** A user applies to a campaign once. */
  predicate OneApplicationEach(applications: seq<Application>) {
    forall i, j | 0 <= i < j < |applications| ::
      applications[i].campaign != applications[j].campaign || applications[i].user != applications[j].user
  }

  /** Then any successful application to the campaign will do. */
  lemma AppliedOnce(applications: seq<Application>, campaign: Id, user: Id)
    requires OneApplicationEach(applications)
    ensures HasSucceeded(applications, campaign, user)
       <==> exists a <- applications :: a.campaign == campaign && a.user == user && a.state == Succeeded
  {
    if a :| a in applications && a.campaign == campaign && a.user == user && a.state == Succeeded {
      var i :| 0 <= i < |applications| && applications[i] == a;
      assert forall j | 0 <= j < i :: applications[j].campaign != campaign || applications[j].user != user;
    }
  }

  /** When each error is thrown, and when none is. */
  lemma ValidateMeaning(db: Reference, user: Id, request: Request, now: int)
    ensures Validate(db, user, request, now).None? <==> MaySubmit(db, user, request, now)
    ensures var error, c := Validate(db, user, request, now), request.campaign;
            var running := c in db.campaigns && db.campaigns[c].state == Active;
            var admitted := running && HasSucceeded(db.applications, c, user);
            var writing := admitted && HasBegun(db.campaigns[c].writingPeriod, now);
            && (error == Some(CampaignNotFound) <==> c !in db.campaigns)
            && (error == Some(CampaignNotActive) <==> c in db.campaigns && db.campaigns[c].state != Active)
            && (error == Some(NotApplied) <==> running && !HasSucceeded(db.applications, c, user))
            && (error == Some(WritingPeriodNotStarted) <==> admitted && !HasBegun(db.campaigns[c].writingPeriod, now))
            && (error == Some(StageRequired) <==>
                  writing && request.stage.None? && exists s <- db.stages :: db.stages[s].campaign == c)
            && (error == Some(StageNotFound) <==> writing && request.stage.Some? && request.stage.value !in db.stages)
            && (error == Some(StageNotStarted) <==>
                  writing && request.stage.Some? && request.stage.value in db.stages
                  && !IsOpen(db.stages[request.stage.value], now))
  {
    FirstApplicationMeaning(db.applications, request.campaign, user);
  }

  /* ----- the statements that change submissions ----- */

  predicate IsOf(row: Submission, article: Id, campaign: Id) {
    row.article == article && row.campaign == campaign
  }

  predicate Exists(rows: seq<Submission>, article: Id, campaign: Id) {
    exists row <- rows :: IsOf(row, article, campaign)
  }

  /** Sets the stage of all rows of the article in the campaign, deleted or not. */
  function WithStage(rows: seq<Submission>, article: Id, campaign: Id, stage: Option<Id>): (r: seq<Submission>)
    ensures |r| == |rows|
  {
    seq(|rows|, i requires 0 <= i < |rows| =>
      if IsOf(rows[i], article, campaign) then rows[i].(stage := stage) else rows[i])
  }

  /**
   * Inserts a row or revives those there are. An update without a stage leaves the
   * stage alone: an undefined column is not written.
   */
  function Submitted(rows: seq<Submission>, article: Id, campaign: Id, stage: Option<Id>, now: int): (r: seq<Submission>)
    ensures |rows| <= |r| <= |rows| + 1
  {
    if !Exists(rows, article, campaign) then
      rows + [Submission(article, campaign, stage, false, now)]
    else
      seq(|rows|, i requires 0 <= i < |rows| =>
        if IsOf(rows[i], article, campaign)
        then rows[i].(stage := if stage.Some? then stage else rows[i].stage, deleted := false)
        else rows[i])
  }

  function WithDeleted(rows: seq<Submission>, article: Id, campaigns: seq<Id>): (r: seq<Submission>)
    ensures |r| == |rows|
  {
    seq(|rows|, i requires 0 <= i < |rows| =>
      if rows[i].article == article && rows[i].campaign in campaigns then rows[i].(deleted := true) else rows[i])
  }

  /* ----- reconciliation ----- */

  predicate IsOriginal(db: Reference, row: Submission, article: Id) {
    && row.article == article && !row.deleted
    && row.campaign in db.campaigns && db.campaigns[row.campaign].state == Active
  }

  /** The article's rows that are not deleted and belong to active campaigns. */
  function Originals(db: Reference, rows: seq<Submission>, article: Id): seq<Submission> {
    if rows == [] then []
    else (if IsOriginal(db, rows[0], article) then [rows[0]] else []) + Originals(db, rows[1..], article)
  }

  function CampaignsOf(rows: seq<Submission>): (r: seq<Id>)
    ensures |r| == |rows|
    ensures forall i | 0 <= i < |rows| :: r[i] == rows[i].campaign
  {
    Each(rows, (row: Submission) => row.campaign)
  }

  function RequestedCampaigns(requests: seq<Request>): (r: seq<Id>)
    ensures |r| == |requests|
    ensures forall i | 0 <= i < |requests| :: r[i] == requests[i].campaign
  {
    Each(requests, (r: Request) => r.campaign)
  }

  /** The campaigns the article is in: those that a live row in an active campaign names. */
  function LiveCampaigns(db: Reference, rows: seq<Submission>, article: Id): set<Id> {
    set row <- rows | row.article == article && !row.deleted && IsActiveCampaign(db, row.campaign) :: row.campaign
  }

  predicate IsAttached(originals: seq<Submission>, campaign: Id) {
    campaign in CampaignsOf(originals)
  }

  /** Some original row of the campaign is at the requested stage; a null stage equals no request. */
  predicate IsAtStage(originals: seq<Submission>, request: Request) {
    request.stage.Some? && exists row <- originals :: row.campaign == request.campaign && row.stage == request.stage
  }

  /** The foreign key of submissions: a stage that is given exists. Of which campaign it is nothing checks. */
  predicate IsKnownStage(db: Reference, stage: Option<Id>) {
    stage.Some? ==> stage.value in db.stages
  }

  datatype Progress = Progress(rows: seq<Submission>, mutated: seq<Id>, error: Option<CampaignError>)

  /** The loop over the requests, up to the first that fails validation. */
  function Attached(db: Reference, originals: seq<Submission>, start: seq<Submission>,
                    article: Id, author: Id, requests: seq<Request>, now: int): Progress
  {
    if requests == [] then
      Progress(start, [], None)
    else
      var last := |requests| - 1;
      var p := Attached(db, originals, start, article, author, requests[..last], now);
      if p.error.Some? then p else AttachNext(db, originals, p, article, author, requests[last], now)
  }

  function AttachNext(db: Reference, originals: seq<Submission>, p: Progress,
                      article: Id, author: Id, request: Request, now: int): Progress
  {
    var c := request.campaign;
    if IsAttached(originals, c) then
      if IsAtStage(originals, request) then p
      else if !IsKnownStage(db, request.stage) then p.(error := Some(ForeignKeyViolation))
      else Progress(WithStage(p.rows, article, c, request.stage), p.mutated + [c], None)
    else
      var error := Validate(db, author, request, now);
      if error.Some? then p.(error := error)
      else Progress(Submitted(p.rows, article, c, request.stage, now), p.mutated + [c], None)
  }

  function NotRequested(campaigns: seq<Id>, requested: seq<Id>): seq<Id> {
    if campaigns == [] then []
    else (if campaigns[0] in requested then [] else [campaigns[0]]) + NotRequested(campaigns[1..], requested)
  }

  /** The whole update: the rows after it, the campaigns it reports, or what it threw. */
  function Reconciled(db: Reference, rows: seq<Submission>,
                      article: Id, author: Id, requests: seq<Request>, now: int): Progress
  {
    var originals := Originals(db, rows, article);
    var p := Attached(db, originals, rows, article, author, requests, now);
    if p.error.Some? then p
    else
      var removed := NotRequested(CampaignsOf(originals), RequestedCampaigns(requests));
      Progress(WithDeleted(p.rows, article, removed), p.mutated + removed, None)
  }

  /* ----- which campaigns the article is in ----- */

  lemma {:induction false} OriginalsMeaning(db: Reference, rows: seq<Submission>, article: Id)
    ensures forall row :: row in Originals(db, rows, article) <==> row in rows && IsOriginal(db, row, article)
  {
    if rows != [] {
      OriginalsMeaning(db, rows[1..], article);
      assert rows == [rows[0]] + rows[1..];
    }
  }

  lemma AttachedMeaning(db: Reference, rows: seq<Submission>, article: Id, c: Id)
    ensures IsAttached(Originals(db, rows, article), c) <==> c in LiveCampaigns(db, rows, article)
  {
    var originals := Originals(db, rows, article);
    OriginalsMeaning(db, rows, article);
    if c in LiveCampaigns(db, rows, article) {
      var row :| row in rows && IsOriginal(db, row, article) && row.campaign == c;
      var i :| 0 <= i < |originals| && originals[i] == row;
      assert CampaignsOf(originals)[i] == c;
    }
    if IsAttached(originals, c) {
      var i :| 0 <= i < |originals| && CampaignsOf(originals)[i] == c;
      assert originals[i] in originals;
    }
  }

  lemma {:induction false} NotRequestedMeaning(campaigns: seq<Id>, requested: seq<Id>)
    ensures forall c :: c in NotRequested(campaigns, requested) <==> c in campaigns && c !in requested
  {
    if campaigns != [] {
      NotRequestedMeaning(campaigns[1..], requested);
    }
  }

  ghost predicate IsLiveAt(db: Reference, rows: seq<Submission>, article: Id, c: Id, i: nat) {
    i < |rows| && IsOriginal(db, rows[i], article) && rows[i].campaign == c
  }

  lemma LiveWhen(db: Reference, rows: seq<Submission>, article: Id, c: Id)
    ensures c in LiveCampaigns(db, rows, article) <==> exists i: nat :: IsLiveAt(db, rows, article, c, i)
  {
    if c in LiveCampaigns(db, rows, article) {
      var row :| row in rows && IsOriginal(db, row, article) && row.campaign == c;
      var i :| 0 <= i < |rows| && rows[i] == row;
      assert IsLiveAt(db, rows, article, c, i);
    }
    if i: nat :| IsLiveAt(db, rows, article, c, i) {
      assert rows[i] in rows;
    }
  }

  /** Setting a stage moves the article into and out of no campaign. */
  lemma LiveAfterStage(db: Reference, rows: seq<Submission>, article: Id, c: Id, stage: Option<Id>)
    ensures LiveCampaigns(db, WithStage(rows, article, c, stage), article) == LiveCampaigns(db, rows, article)
  {
    var after := WithStage(rows, article, c, stage);
    forall d
      ensures d in LiveCampaigns(db, after, article) <==> d in LiveCampaigns(db, rows, article)
    {
      LiveWhen(db, rows, article, d);
      LiveWhen(db, after, article, d);
      assert forall i: nat :: IsLiveAt(db, rows, article, d, i) <==> IsLiveAt(db, after, article, d, i);
    }
  }

  /** Submitting to an active campaign moves the article into that one. */
  lemma LiveAfterSubmit(db: Reference, rows: seq<Submission>, article: Id, c: Id, stage: Option<Id>, now: int)
    requires IsActiveCampaign(db, c)
    ensures LiveCampaigns(db, Submitted(rows, article, c, stage, now), article)
         == LiveCampaigns(db, rows, article) + {c}
  {
    var after := Submitted(rows, article, c, stage, now);
    forall d
      ensures d in LiveCampaigns(db, after, article) <==> d in LiveCampaigns(db, rows, article) || d == c
    {
      LiveWhen(db, rows, article, d);
      LiveWhen(db, after, article, d);
      if d == c {
        var i := SubmittedAt(rows, article, c, stage, now);
        assert IsLiveAt(db, after, article, c, i);
      } else {
        assert forall i: nat :: IsLiveAt(db, rows, article, d, i) <==> IsLiveAt(db, after, article, d, i);
      }
    }
  }

  lemma SubmittedAt(rows: seq<Submission>, article: Id, c: Id, stage: Option<Id>, now: int) returns (i: nat)
    ensures var after := Submitted(rows, article, c, stage, now);
            i < |after| && IsOf(after[i], article, c) && !after[i].deleted
  {
    if Exists(rows, article, c) {
      i :| 0 <= i < |rows| && IsOf(rows[i], article, c);
    } else {
      i := |rows|;
    }
  }

  /** Deleting moves the article out of the given campaigns. */
  lemma LiveAfterDelete(db: Reference, rows: seq<Submission>, article: Id, removed: seq<Id>)
    ensures LiveCampaigns(db, WithDeleted(rows, article, removed), article)
         == set c <- LiveCampaigns(db, rows, article) | c !in removed
  {
    var after := WithDeleted(rows, article, removed);
    forall d
      ensures d in LiveCampaigns(db, after, article) <==> d in LiveCampaigns(db, rows, article) && d !in removed
    {
      LiveWhen(db, rows, article, d);
      LiveWhen(db, after, article, d);
      assert forall i: nat :: IsLiveAt(db, after, article, d, i) <==> IsLiveAt(db, rows, article, d, i) && d !in removed;
    }
  }

  /**
   * A request goes through if the submission validates or, for a campaign the article is
   * in already, if the stage exists or is the one it is at.
   */
  predicate IsAccepted(db: Reference, originals: seq<Submission>, author: Id, request: Request, now: int) {
    if IsAttached(originals, request.campaign) then IsAtStage(originals, request) || IsKnownStage(db, request.stage)
    else MaySubmit(db, author, request, now)
  }

  lemma AcceptedIsActive(db: Reference, rows: seq<Submission>, article: Id, author: Id, request: Request, now: int)
    requires IsAccepted(db, Originals(db, rows, article), author, request, now)
    ensures IsActiveCampaign(db, request.campaign)
  {
    AttachedMeaning(db, rows, article, request.campaign);
  }

  lemma {:induction false} LiveAfterAttach(db: Reference, rows: seq<Submission>, article: Id, author: Id,
                                           requests: seq<Request>, now: int)
    ensures var originals := Originals(db, rows, article);
            var p := Attached(db, originals, rows, article, author, requests, now);
            && (p.error.None? <==> forall r <- requests :: IsAccepted(db, originals, author, r, now))
            && LiveCampaigns(db, rows, article) <= LiveCampaigns(db, p.rows, article)
            && (forall c <- LiveCampaigns(db, p.rows, article) ::
                  c in LiveCampaigns(db, rows, article) || c in RequestedCampaigns(requests))
            && (p.error.None? ==> forall c <- RequestedCampaigns(requests) :: c in LiveCampaigns(db, p.rows, article))
  {
    if requests != [] {
      var last := |requests| - 1;
      var originals, r := Originals(db, rows, article), requests[last];
      var p := Attached(db, originals, rows, article, author, requests[..last], now);
      LiveAfterAttach(db, rows, article, author, requests[..last], now);
      assert requests == requests[..last] + [r];
      assert RequestedCampaigns(requests) == RequestedCampaigns(requests[..last]) + [r.campaign];
      if p.error.None? {
        LiveAfterNext(db, rows, p, article, author, r, now);
      }
    }
  }

  lemma LiveAfterNext(db: Reference, rows: seq<Submission>, p: Progress, article: Id, author: Id, r: Request, now: int)
    requires p.error.None? && LiveCampaigns(db, rows, article) <= LiveCampaigns(db, p.rows, article)
    ensures var originals := Originals(db, rows, article);
            var q := AttachNext(db, originals, p, article, author, r, now);
            && (q.error.None? <==> IsAccepted(db, originals, author, r, now))
            && LiveCampaigns(db, q.rows, article)
               == LiveCampaigns(db, p.rows, article) + if q.error.None? then {r.campaign} else {}
  {
    ValidateMeaning(db, author, r, now);
    AttachedMeaning(db, rows, article, r.campaign);
    if IsAccepted(db, Originals(db, rows, article), author, r, now) {
      AcceptedIsActive(db, rows, article, author, r, now);
      LiveAfterStage(db, p.rows, article, r.campaign, r.stage);
      LiveAfterSubmit(db, p.rows, article, r.campaign, r.stage, now);
    }
  }

  /**
   * The update succeeds exactly when every request is accepted, and then the article
   * is in exactly the requested campaigns. When it throws, the article is in every
   * campaign it was in, and in no other than requested.
   */
  lemma ReconciledCampaigns(db: Reference, rows: seq<Submission>, article: Id, author: Id,
                            requests: seq<Request>, now: int)
    ensures var originals, p := Originals(db, rows, article), Reconciled(db, rows, article, author, requests, now);
            && (p.error.None? <==> forall r <- requests :: IsAccepted(db, originals, author, r, now))
            && (p.error.None? ==>
                  forall c :: c in LiveCampaigns(db, p.rows, article) <==> c in RequestedCampaigns(requests))
            && (p.error.Some? ==>
                  && LiveCampaigns(db, rows, article) <= LiveCampaigns(db, p.rows, article)
                  && forall c <- LiveCampaigns(db, p.rows, article) ::
                       c in LiveCampaigns(db, rows, article) || c in RequestedCampaigns(requests))
  {
    var originals := Originals(db, rows, article);
    var p := Attached(db, originals, rows, article, author, requests, now);
    LiveAfterAttach(db, rows, article, author, requests, now);
    if p.error.None? {
      var removed := NotRequested(CampaignsOf(originals), RequestedCampaigns(requests));
      LiveAfterDelete(db, p.rows, article, removed);
      NotRequestedMeaning(CampaignsOf(originals), RequestedCampaigns(requests));
      forall c
        ensures IsAttached(originals, c) <==> c in LiveCampaigns(db, rows, article)
      {
        AttachedMeaning(db, rows, article, c);
      }
    }
  }

  /* ----- which rows change, and which campaigns are reported ----- */

  /** Row `i` changed, or is new, only as a row of the article in an active campaign of `touched`. */
  ghost predicate IsTouchedOnly(db: Reference, before: seq<Submission>, after: seq<Submission>,
                                article: Id, touched: seq<Id>, i: nat)
    requires i < |after|
  {
    && (|| (i < |before| && after[i] == before[i])
        || (&& after[i].article == article && after[i].campaign in touched
            && IsActiveCampaign(db, after[i].campaign)))
    && (i < |before| ==> after[i] == before[i].(stage := after[i].stage, deleted := after[i].deleted))
  }

  ghost predicate OnlyTouches(db: Reference, before: seq<Submission>, after: seq<Submission>, article: Id, touched: seq<Id>) {
    && |before| <= |after|
    && forall i | 0 <= i < |after| :: IsTouchedOnly(db, before, after, article, touched, i)
  }

  lemma TouchesMore(db: Reference, a: seq<Submission>, b: seq<Submission>, c: seq<Submission>,
                    article: Id, touched: seq<Id>, more: seq<Id>)
    requires OnlyTouches(db, a, b, article, touched) && OnlyTouches(db, b, c, article, more)
    ensures OnlyTouches(db, a, c, article, touched + more)
  {
    forall i | 0 <= i < |c|
      ensures IsTouchedOnly(db, a, c, article, touched + more, i)
    {
      assert IsTouchedOnly(db, b, c, article, more, i);
      if i < |b| {
        assert IsTouchedOnly(db, a, b, article, touched, i);
      }
    }
  }

  lemma {:induction false} AttachTouches(db: Reference, rows: seq<Submission>, article: Id, author: Id,
                                         requests: seq<Request>, now: int)
    ensures var p := Attached(db, Originals(db, rows, article), rows, article, author, requests, now);
            OnlyTouches(db, rows, p.rows, article, p.mutated)
  {
    if requests != [] {
      var last := |requests| - 1;
      var originals, r := Originals(db, rows, article), requests[last];
      var p := Attached(db, originals, rows, article, author, requests[..last], now);
      AttachTouches(db, rows, article, author, requests[..last], now);
      ValidateMeaning(db, author, r, now);
      if p.error.None? && IsAccepted(db, originals, author, r, now) {
        AcceptedIsActive(db, rows, article, author, r, now);
        var q := AttachNext(db, originals, p, article, author, r, now);
        if q.mutated != p.mutated {
          TouchesMore(db, rows, p.rows, q.rows, article, p.mutated, [r.campaign]);
        }
      }
    }
  }

  /**
   * Every row that an update changes or inserts, whether it succeeds or throws, is a
   * row of the article in an active campaign; if it succeeds the campaign is reported.
   */
  lemma ReconciledTouches(db: Reference, rows: seq<Submission>, article: Id, author: Id,
                          requests: seq<Request>, now: int)
    ensures var p := Reconciled(db, rows, article, author, requests, now);
            OnlyTouches(db, rows, p.rows, article, p.mutated)
  {
    var originals := Originals(db, rows, article);
    var p := Attached(db, originals, rows, article, author, requests, now);
    AttachTouches(db, rows, article, author, requests, now);
    if p.error.None? {
      var removed := NotRequested(CampaignsOf(originals), RequestedCampaigns(requests));
      NotRequestedMeaning(CampaignsOf(originals), RequestedCampaigns(requests));
      forall c | c in removed
        ensures IsActiveCampaign(db, c)
      {
        AttachedMeaning(db, rows, article, c);
      }
      TouchesMore(db, rows, p.rows, WithDeleted(p.rows, article, removed), article, p.mutated, removed);
    }
  }

  /** The request is not for a stage the article is at already. */
  predicate Writes(originals: seq<Submission>, r: Request) {
    !(IsAttached(originals, r.campaign) && IsAtStage(originals, r))
  }

  function Written(originals: seq<Submission>, requests: seq<Request>): seq<Id> {
    if requests == [] then
      []
    else
      var r := requests[|requests| - 1];
      Written(originals, requests[..|requests| - 1]) + if Writes(originals, r) then [r.campaign] else []
  }

  lemma {:induction false} WrittenMeaning(originals: seq<Submission>, requests: seq<Request>)
    ensures forall c :: c in Written(originals, requests) <==> exists r <- requests :: r.campaign == c && Writes(originals, r)
  {
    if requests != [] {
      WrittenMeaning(originals, requests[..|requests| - 1]);
      assert requests == requests[..|requests| - 1] + [requests[|requests| - 1]];
    }
  }

  lemma {:induction false} AttachReports(db: Reference, rows: seq<Submission>, originals: seq<Submission>,
                                         article: Id, author: Id, requests: seq<Request>, now: int)
    requires Attached(db, originals, rows, article, author, requests, now).error.None?
    ensures Attached(db, originals, rows, article, author, requests, now).mutated == Written(originals, requests)
  {
    if requests != [] {
      AttachReports(db, rows, originals, article, author, requests[..|requests| - 1], now);
    }
  }

  /**
   * A successful update reports exactly the requested campaigns whose stage was not
   * the requested one already, and the campaigns the article was taken out of.
   */
  lemma ReconciledReports(db: Reference, rows: seq<Submission>, article: Id, author: Id,
                          requests: seq<Request>, now: int)
    requires Reconciled(db, rows, article, author, requests, now).error.None?
    ensures var originals := Originals(db, rows, article);
            forall c :: c in Reconciled(db, rows, article, author, requests, now).mutated <==>
                        || (exists r <- requests :: r.campaign == c && Writes(originals, r))
                        || (c in LiveCampaigns(db, rows, article) && c !in RequestedCampaigns(requests))
  {
    var originals := Originals(db, rows, article);
    AttachReports(db, rows, originals, article, author, requests, now);
    WrittenMeaning(originals, requests);
    NotRequestedMeaning(CampaignsOf(originals), RequestedCampaigns(requests));
    forall c
      ensures IsAttached(originals, c) <==> c in LiveCampaigns(db, rows, article)
    {
      AttachedMeaning(db, rows, article, c);
    }
  }

  /* ----- which stage the article ends up in ----- */

  predicate OneRowEach(rows: seq<Submission>, article: Id) {
    forall i, j | 0 <= i < j < |rows| && rows[i].article == article && rows[j].article == article ::
      rows[i].campaign != rows[j].campaign
  }

  /** The stage of the last request for the campaign that names another stage than the article was in. */
  function LastOther(originals: seq<Submission>, stage: Option<Id>, requests: seq<Request>, c: Id): Option<Id> {
    if requests == [] then
      stage
    else
      var r := requests[|requests| - 1];
      if r.campaign == c && !IsAtStage(originals, r) then r.stage
      else LastOther(originals, stage, requests[..|requests| - 1], c)
  }

  /** The stage of the last request for the campaign that names one. */
  function LastNamed(stage: Option<Id>, requests: seq<Request>, c: Id): Option<Id> {
    if requests == [] then
      stage
    else
      var r := requests[|requests| - 1];
      if r.campaign == c && r.stage.Some? then r.stage else LastNamed(stage, requests[..|requests| - 1], c)
  }

  /** What the requests make of a row of the article. */
  function AttachedRow(originals: seq<Submission>, requests: seq<Request>, row: Submission): Submission {
    if IsAttached(originals, row.campaign) then
      row.(stage := LastOther(originals, row.stage, requests, row.campaign))
    else if row.campaign in RequestedCampaigns(requests) then
      row.(stage := LastNamed(row.stage, requests, row.campaign), deleted := false)
    else
      row
  }

  /** What the whole update makes of it. */
  function ReconciledRow(originals: seq<Submission>, requests: seq<Request>, row: Submission): Submission {
    if IsAttached(originals, row.campaign) && row.campaign !in RequestedCampaigns(requests) then row.(deleted := true)
    else AttachedRow(originals, requests, row)
  }

  /** The campaign needs a new row: it is requested, and the article has none in it, deleted or not. */
  predicate NeedsRow(originals: seq<Submission>, requests: seq<Request>, rows: seq<Submission>, article: Id, c: Id) {
    c in RequestedCampaigns(requests) && !IsAttached(originals, c) && !Exists(rows, article, c)
  }

  /** The rows behind the first `n` are new ones, one for every campaign that needs one. */
  ghost predicate AreNewRows(originals: seq<Submission>, requests: seq<Request>, rows: seq<Submission>,
                             after: seq<Submission>, article: Id, now: int)
  {
    && |rows| <= |after|
    && (forall i | |rows| <= i < |after| ::
          && NeedsRow(originals, requests, rows, article, after[i].campaign)
          && after[i] == Submission(article, after[i].campaign, LastNamed(None, requests, after[i].campaign), false, now))
    && (forall i, j | |rows| <= i < j < |after| :: after[i].campaign != after[j].campaign)
    && (forall c | NeedsRow(originals, requests, rows, article, c) ::
          exists i :: |rows| <= i < |after| && after[i].campaign == c)
  }

  ghost predicate AreAttachedRows(originals: seq<Submission>, requests: seq<Request>, rows: seq<Submission>,
                                  after: seq<Submission>, article: Id)
  {
    && |rows| <= |after|
    && forall i | 0 <= i < |rows| ::
         after[i] == if rows[i].article == article then AttachedRow(originals, requests, rows[i]) else rows[i]
  }

  lemma RequestedNext(requests: seq<Request>)
    requires requests != []
    ensures var last := |requests| - 1;
            RequestedCampaigns(requests) == RequestedCampaigns(requests[..last]) + [requests[last].campaign]
  {
  }

  lemma {:induction false} NothingRequested(originals: seq<Submission>, stage: Option<Id>, requests: seq<Request>, c: Id)
    requires c !in RequestedCampaigns(requests)
    ensures LastNamed(stage, requests, c) == stage && LastOther(originals, stage, requests, c) == stage
  {
    if requests != [] {
      RequestedNext(requests);
      NothingRequested(originals, stage, requests[..|requests| - 1], c);
    }
  }

  /** How one more request changes what becomes of a row. */
  lemma AttachedRowNext(originals: seq<Submission>, requests: seq<Request>, row: Submission)
    requires requests != []
    ensures var r := requests[|requests| - 1];
            var before := AttachedRow(originals, requests[..|requests| - 1], row);
            AttachedRow(originals, requests, row) ==
            if row.campaign != r.campaign then before
            else if IsAttached(originals, r.campaign) then
              (if IsAtStage(originals, r) then before else before.(stage := r.stage))
            else
              before.(stage := if r.stage.Some? then r.stage else before.stage, deleted := false)
  {
    var r, earlier := requests[|requests| - 1], requests[..|requests| - 1];
    RequestedNext(requests);
    if row.campaign !in RequestedCampaigns(earlier) {
      NothingRequested(originals, row.stage, earlier, row.campaign);
    }
  }

  lemma AttachedRowsNext(db: Reference, originals: seq<Submission>, requests: seq<Request>, rows: seq<Submission>,
                         p: Progress, article: Id, author: Id, now: int)
    requires requests != []
    requires AreAttachedRows(originals, requests[..|requests| - 1], rows, p.rows, article)
    requires AttachNext(db, originals, p, article, author, requests[|requests| - 1], now).error.None?
    ensures AreAttachedRows(originals, requests, rows,
                            AttachNext(db, originals, p, article, author, requests[|requests| - 1], now).rows, article)
  {
    var r := requests[|requests| - 1];
    var q := AttachNext(db, originals, p, article, author, r, now);
    forall i | 0 <= i < |rows|
      ensures q.rows[i] == if rows[i].article == article then AttachedRow(originals, requests, rows[i]) else rows[i]
    {
      AttachedRowNext(originals, requests, rows[i]);
      if Exists(p.rows, article, r.campaign) {
      } else if rows[i].article == article && rows[i].campaign == r.campaign {
        assert IsOf(p.rows[i], article, r.campaign);
      }
    }
  }

  lemma NewRowsNext(db: Reference, originals: seq<Submission>, requests: seq<Request>, rows: seq<Submission>,
                    p: Progress, article: Id, author: Id, now: int)
    requires requests != []
    requires AreAttachedRows(originals, requests[..|requests| - 1], rows, p.rows, article)
    requires AreNewRows(originals, requests[..|requests| - 1], rows, p.rows, article, now)
    requires AttachNext(db, originals, p, article, author, requests[|requests| - 1], now).error.None?
    ensures AreNewRows(originals, requests, rows,
                       AttachNext(db, originals, p, article, author, requests[|requests| - 1], now).rows, article, now)
  {
    var r, earlier := requests[|requests| - 1], requests[..|requests| - 1];
    var q := AttachNext(db, originals, p, article, author, r, now);
    RequestedNext(requests);
    NextRow(db, originals, requests, rows, p, article, author, now);
    NextRowsHold(db, originals, requests, rows, p, article, author, now);
    forall c | NeedsRow(originals, requests, rows, article, c)
      ensures exists i :: |rows| <= i < |q.rows| && q.rows[i].campaign == c
    {
      if NeedsRow(originals, earlier, rows, article, c) {
        var i :| |rows| <= i < |p.rows| && p.rows[i].campaign == c;
        assert q.rows[i].campaign == c;
      } else {
        assert c == r.campaign;
        assert q.rows[|p.rows|].campaign == c;
      }
    }
  }

  /** A request inserts a row exactly when its campaign comes to need one. */
  lemma NextRow(db: Reference, originals: seq<Submission>, requests: seq<Request>, rows: seq<Submission>,
                p: Progress, article: Id, author: Id, now: int)
    requires requests != []
    requires AreAttachedRows(originals, requests[..|requests| - 1], rows, p.rows, article)
    requires AreNewRows(originals, requests[..|requests| - 1], rows, p.rows, article, now)
    requires AttachNext(db, originals, p, article, author, requests[|requests| - 1], now).error.None?
    ensures var r := requests[|requests| - 1];
            var q := AttachNext(db, originals, p, article, author, r, now);
            && (forall i | 0 <= i < |p.rows| :: i < |q.rows| && q.rows[i].campaign == p.rows[i].campaign)
            && if NeedsRow(originals, requests, rows, article, r.campaign)
                  && !NeedsRow(originals, requests[..|requests| - 1], rows, article, r.campaign)
               then q.rows == p.rows + [Submission(article, r.campaign, r.stage, false, now)]
               else |q.rows| == |p.rows|
  {
    RequestedNext(requests);
    ExistsAfter(originals, requests[..|requests| - 1], rows, p.rows, article, requests[|requests| - 1].campaign, now);
  }

  /** The new rows have the stages of the requests up to the next one. */
  lemma NextRowsHold(db: Reference, originals: seq<Submission>, requests: seq<Request>, rows: seq<Submission>,
                     p: Progress, article: Id, author: Id, now: int)
    requires requests != []
    requires AreAttachedRows(originals, requests[..|requests| - 1], rows, p.rows, article)
    requires AreNewRows(originals, requests[..|requests| - 1], rows, p.rows, article, now)
    requires AttachNext(db, originals, p, article, author, requests[|requests| - 1], now).error.None?
    ensures var q := AttachNext(db, originals, p, article, author, requests[|requests| - 1], now);
            forall i | |rows| <= i < |q.rows| ::
              && NeedsRow(originals, requests, rows, article, q.rows[i].campaign)
              && q.rows[i] == Submission(article, q.rows[i].campaign, LastNamed(None, requests, q.rows[i].campaign), false, now)
  {
    var r, earlier := requests[|requests| - 1], requests[..|requests| - 1];
    RequestedNext(requests);
    NextRow(db, originals, requests, rows, p, article, author, now);
    if r.campaign !in RequestedCampaigns(earlier) {
      NothingRequested(originals, None, earlier, r.campaign);
    }
  }

  /** A campaign has a row of the article once it had one, or needed one that was inserted. */
  lemma ExistsAfter(originals: seq<Submission>, requests: seq<Request>, rows: seq<Submission>, after: seq<Submission>,
                    article: Id, c: Id, now: int)
    requires AreAttachedRows(originals, requests, rows, after, article)
    requires AreNewRows(originals, requests, rows, after, article, now)
    ensures Exists(after, article, c) <==> Exists(rows, article, c) || NeedsRow(originals, requests, rows, article, c)
  {
    if Exists(rows, article, c) {
      var i :| 0 <= i < |rows| && IsOf(rows[i], article, c);
      assert IsOf(after[i], article, c);
    }
    if NeedsRow(originals, requests, rows, article, c) {
      var i :| |rows| <= i < |after| && after[i].campaign == c;
      assert IsOf(after[i], article, c);
    }
    if Exists(after, article, c) {
      var i :| 0 <= i < |after| && IsOf(after[i], article, c);
      if i < |rows| {
        assert IsOf(rows[i], article, c);
      }
    }
  }

  lemma {:induction false} AttachedRows(db: Reference, originals: seq<Submission>, rows: seq<Submission>,
                                        article: Id, author: Id, requests: seq<Request>, now: int)
    requires Attached(db, originals, rows, article, author, requests, now).error.None?
    ensures var after := Attached(db, originals, rows, article, author, requests, now).rows;
            && AreAttachedRows(originals, requests, rows, after, article)
            && AreNewRows(originals, requests, rows, after, article, now)
  {
    if requests == [] {
      forall i | 0 <= i < |rows|
        ensures AttachedRow(originals, [], rows[i]) == rows[i]
      {
      }
    } else {
      var earlier := requests[..|requests| - 1];
      AttachedRows(db, originals, rows, article, author, earlier, now);
      var p := Attached(db, originals, rows, article, author, earlier, now);
      AttachedRowsNext(db, originals, requests, rows, p, article, author, now);
      NewRowsNext(db, originals, requests, rows, p, article, author, now);
    }
  }

  /**
   * The table after a successful update, row by row, for any list of requests: every row
   * of the article has the stage of the last request that counts, rows in campaigns no
   * longer requested are deleted, every campaign that needs a row gets one, and rows of
   * other articles are as they were.
   */
  lemma ReconciledRows(db: Reference, rows: seq<Submission>, article: Id, author: Id, requests: seq<Request>, now: int)
    requires Reconciled(db, rows, article, author, requests, now).error.None?
    ensures var originals, after := Originals(db, rows, article), Reconciled(db, rows, article, author, requests, now).rows;
            && AreNewRows(originals, requests, rows, after, article, now)
            && forall i | 0 <= i < |rows| ::
                 after[i] == if rows[i].article == article then ReconciledRow(originals, requests, rows[i]) else rows[i]
  {
    var originals := Originals(db, rows, article);
    AttachedRows(db, originals, rows, article, author, requests, now);
    DetachedRows(originals, requests, rows, Attached(db, originals, rows, article, author, requests, now).rows, article, now);
  }

  /** Detaching deletes the rows in campaigns that are not requested, and touches no new row. */
  lemma DetachedRows(originals: seq<Submission>, requests: seq<Request>, rows: seq<Submission>, attached: seq<Submission>,
                     article: Id, now: int)
    requires AreAttachedRows(originals, requests, rows, attached, article)
    requires AreNewRows(originals, requests, rows, attached, article, now)
    ensures var after := WithDeleted(attached, article, NotRequested(CampaignsOf(originals), RequestedCampaigns(requests)));
            && AreNewRows(originals, requests, rows, after, article, now)
            && forall i | 0 <= i < |rows| ::
                 after[i] == if rows[i].article == article then ReconciledRow(originals, requests, rows[i]) else rows[i]
  {
    var removed := NotRequested(CampaignsOf(originals), RequestedCampaigns(requests));
    NotRequestedMeaning(CampaignsOf(originals), RequestedCampaigns(requests));
    NewRowsStay(originals, requests, rows, attached, article, removed, now);
    forall i | 0 <= i < |rows|
      ensures WithDeleted(attached, article, removed)[i]
           == if rows[i].article == article then ReconciledRow(originals, requests, rows[i]) else rows[i]
    {
      if rows[i].campaign !in RequestedCampaigns(requests) {
        NothingRequested(originals, rows[i].stage, requests, rows[i].campaign);
      }
    }
  }

  lemma NewRowsStay(originals: seq<Submission>, requests: seq<Request>, rows: seq<Submission>, attached: seq<Submission>,
                    article: Id, removed: seq<Id>, now: int)
    requires AreNewRows(originals, requests, rows, attached, article, now)
    requires forall c <- removed :: IsAttached(originals, c)
    ensures AreNewRows(originals, requests, rows, WithDeleted(attached, article, removed), article, now)
  {
    var after := WithDeleted(attached, article, removed);
    forall i | |rows| <= i < |after|
      ensures after[i] == attached[i]
    {
    }
    forall c | NeedsRow(originals, requests, rows, article, c)
      ensures exists i :: |rows| <= i < |after| && after[i].campaign == c
    {
      var i :| |rows| <= i < |attached| && attached[i].campaign == c;
      assert after[i].campaign == c;
    }
  }

  /* ----- whether articles are at stages of their campaigns ----- */

  /** No stage, or one of the campaign's. */
  predicate IsOwnStage(db: Reference, c: Id, stage: Option<Id>) {
    stage.Some? ==> stage.value in db.stages && db.stages[stage.value].campaign == c
  }

  predicate OwnStages(db: Reference, rows: seq<Submission>) {
    forall row <- rows :: IsOwnStage(db, row.campaign, row.stage)
  }

  /** A submission keeps articles at stages of their campaigns exactly when its own stage is. */
  lemma SubmittedOwnStages(db: Reference, rows: seq<Submission>, article: Id, request: Request, now: int)
    requires OwnStages(db, rows)
    ensures OwnStages(db, Submitted(rows, article, request.campaign, request.stage, now))
       <==> IsOwnStage(db, request.campaign, request.stage)
  {
    var after := Submitted(rows, article, request.campaign, request.stage, now);
    assert forall i | 0 <= i < |rows| :: rows[i] in rows;
    if OwnStages(db, after) {
      var i := SubmittedAt(rows, article, request.campaign, request.stage, now);
      assert after[i] in after;
    }
  }

  /** The request is one that can change the stage of its campaign's rows. */
  predicate Matters(originals: seq<Submission>, r: Request) {
    if IsAttached(originals, r.campaign) then !IsAtStage(originals, r) else r.stage.Some?
  }

  /** The last such request for its campaign. */
  ghost predicate Decides(originals: seq<Submission>, requests: seq<Request>, j: nat) {
    && j < |requests| && Matters(originals, requests[j])
    && forall k | j < k < |requests| && requests[k].campaign == requests[j].campaign :: !Matters(originals, requests[k])
  }

  /** The stage that a row of the campaign with the given stage ends up at. */
  function EndStage(originals: seq<Submission>, stage: Option<Id>, requests: seq<Request>, c: Id): Option<Id> {
    if IsAttached(originals, c) then LastOther(originals, stage, requests, c) else LastNamed(stage, requests, c)
  }

  /** Either a request decides the end stage, or the row keeps its own. */
  lemma {:induction false} EndStageIs(originals: seq<Submission>, stage: Option<Id>, requests: seq<Request>, c: Id)
    returns (j: Option<nat>)
    ensures j.Some? ==> && Decides(originals, requests, j.value) && requests[j.value].campaign == c
                        && EndStage(originals, stage, requests, c) == requests[j.value].stage
    ensures j.None? ==> && EndStage(originals, stage, requests, c) == stage
                        && forall r <- requests | r.campaign == c :: !Matters(originals, r)
  {
    if requests == [] {
      j := None;
    } else {
      var last := |requests| - 1;
      if requests[last].campaign == c && Matters(originals, requests[last]) {
        j := Some(last);
      } else {
        j := EndStageIs(originals, stage, requests[..last], c);
        assert requests == requests[..last] + [requests[last]];
      }
    }
  }

  lemma EndStageOfRow(originals: seq<Submission>, requests: seq<Request>, row: Submission)
    ensures ReconciledRow(originals, requests, row).campaign == row.campaign
    ensures ReconciledRow(originals, requests, row).stage == EndStage(originals, row.stage, requests, row.campaign)
  {
    if row.campaign !in RequestedCampaigns(requests) {
      NothingRequested(originals, row.stage, requests, row.campaign);
    }
  }

  /** Some row of the article is, after the update, in the campaign of a request. */
  lemma RequestHasRow(db: Reference, rows: seq<Submission>, article: Id, author: Id, requests: seq<Request>, now: int, j: nat)
    returns (i: nat)
    requires Reconciled(db, rows, article, author, requests, now).error.None? && j < |requests|
    ensures var after := Reconciled(db, rows, article, author, requests, now).rows;
            && i < |after| && after[i].campaign == requests[j].campaign
            && (i < |rows| ==> rows[i].article == article && rows[i].campaign == requests[j].campaign)
  {
    var c, originals := requests[j].campaign, Originals(db, rows, article);
    ReconciledRows(db, rows, article, author, requests, now);
    assert RequestedCampaigns(requests)[j] == c;
    if Exists(rows, article, c) {
      i :| 0 <= i < |rows| && IsOf(rows[i], article, c);
    } else {
      AttachedExists(db, rows, article, c);
      assert NeedsRow(originals, requests, rows, article, c);
      var after := Reconciled(db, rows, article, author, requests, now).rows;
      i :| |rows| <= i < |after| && after[i].campaign == c;
    }
  }

  lemma AttachedExists(db: Reference, rows: seq<Submission>, article: Id, c: Id)
    ensures IsAttached(Originals(db, rows, article), c) ==> Exists(rows, article, c)
  {
    AttachedMeaning(db, rows, article, c);
  }

  /** The stage of a row after the update. */
  lemma StageAfter(db: Reference, rows: seq<Submission>, article: Id, author: Id, requests: seq<Request>, now: int, i: nat)
    requires Reconciled(db, rows, article, author, requests, now).error.None?
    requires i < |Reconciled(db, rows, article, author, requests, now).rows|
    ensures var originals, after := Originals(db, rows, article), Reconciled(db, rows, article, author, requests, now).rows;
            if i < |rows| && rows[i].article != article then after[i] == rows[i]
            else && (i < |rows| ==> after[i].campaign == rows[i].campaign)
                 && after[i].stage == EndStage(originals, if i < |rows| then rows[i].stage else None, requests, after[i].campaign)
  {
    ReconciledRows(db, rows, article, author, requests, now);
    if i < |rows| {
      EndStageOfRow(Originals(db, rows, article), requests, rows[i]);
    }
  }

  /**
   * A successful update keeps all articles at stages of their campaigns exactly when,
   * for every requested campaign, the request that decides the stage names one of its own.
   */
  lemma ReconciledOwnStages(db: Reference, rows: seq<Submission>, article: Id, author: Id, requests: seq<Request>, now: int)
    requires Reconciled(db, rows, article, author, requests, now).error.None? && OwnStages(db, rows)
    ensures OwnStages(db, Reconciled(db, rows, article, author, requests, now).rows)
       <==> forall j: nat | Decides(Originals(db, rows, article), requests, j) ::
              IsOwnStage(db, requests[j].campaign, requests[j].stage)
  {
    var originals, after := Originals(db, rows, article), Reconciled(db, rows, article, author, requests, now).rows;
    if OwnStages(db, after) {
      forall j: nat | Decides(originals, requests, j)
        ensures IsOwnStage(db, requests[j].campaign, requests[j].stage)
      {
        var i := RequestHasRow(db, rows, article, author, requests, now, j);
        DecidedStage(db, rows, article, author, requests, now, i, j);
        assert after[i] in after;
      }
    }
    if forall j: nat | Decides(originals, requests, j) :: IsOwnStage(db, requests[j].campaign, requests[j].stage) {
      forall i | 0 <= i < |after|
        ensures IsOwnStage(db, after[i].campaign, after[i].stage)
      {
        StageAfter(db, rows, article, author, requests, now, i);
        assert i < |rows| ==> rows[i] in rows;
        var _ := EndStageIs(originals, if i < |rows| then rows[i].stage else None, requests, after[i].campaign);
      }
    }
  }

  lemma DecidedStage(db: Reference, rows: seq<Submission>, article: Id, author: Id, requests: seq<Request>, now: int,
                     i: nat, j: nat)
    requires Reconciled(db, rows, article, author, requests, now).error.None?
    requires i < |Reconciled(db, rows, article, author, requests, now).rows|
    requires Decides(Originals(db, rows, article), requests, j)
    requires Reconciled(db, rows, article, author, requests, now).rows[i].campaign == requests[j].campaign
    requires i < |rows| ==> rows[i].article == article
    ensures Reconciled(db, rows, article, author, requests, now).rows[i].stage == requests[j].stage
  {
    var originals, c := Originals(db, rows, article), requests[j].campaign;
    StageAfter(db, rows, article, author, requests, now, i);
    var k := EndStageIs(originals, if i < |rows| then rows[i].stage else None, requests, c);
    assert requests[j] in requests;
    assert k == Some(j);
  }

  /** A campaign without stages, and a stage of another one. */
  function TwoCampaigns(): Reference {
    Reference(
      map[1 := Campaign(Active, None, None), 2 := Campaign(Active, None, None)],
      map[21 := Stage(2, None)],
      [Application(1, 7, Succeeded, 0)])
  }

  /** The stage of campaign 2 is accepted for campaign 1. */
  lemma ForeignStageIsAccepted(article: Id, now: int)
    ensures MaySubmit(TwoCampaigns(), 7, Request(1, Some(21)), now)
    ensures !OwnStages(TwoCampaigns(), Submitted([], article, 1, Some(21), now))
  {
    var a := TwoCampaigns().applications[0];
    assert a == Application(1, 7, Succeeded, 0);
    SubmittedOwnStages(TwoCampaigns(), [], article, Request(1, Some(21)), now);
  }

  /* ----- when the last request for a campaign stands ----- */

  /** `j` is the last request for the campaign. */
  ghost predicate IsLastFor(requests: seq<Request>, c: Id, j: nat) {
    && j < |requests| && requests[j].campaign == c
    && forall k | j < k < |requests| :: requests[k].campaign != c
  }

  lemma {:induction false} LastOtherIs(originals: seq<Submission>, stage: Option<Id>, requests: seq<Request>, c: Id, j: nat)
    requires IsLastFor(requests, c, j)
    requires forall r <- requests | r.campaign == c :: IsAtStage(originals, r) <==> r.stage.Some? && r.stage == stage
    ensures LastOther(originals, stage, requests, c) == requests[j].stage
       <==> requests[j].stage.None? || requests[j].stage != stage || forall r <- requests | r.campaign == c :: r.stage == stage
  {
    if IsAtStage(originals, requests[j]) {
      OtherOrFirst(originals, stage, requests, c);
    } else {
      LastOtherAt(originals, stage, requests, c, j);
    }
  }

  lemma {:induction false} LastOtherAt(originals: seq<Submission>, stage: Option<Id>, requests: seq<Request>, c: Id, j: nat)
    requires IsLastFor(requests, c, j) && !IsAtStage(originals, requests[j])
    ensures LastOther(originals, stage, requests, c) == requests[j].stage
  {
    if j < |requests| - 1 {
      LastOtherAt(originals, stage, requests[..|requests| - 1], c, j);
    }
  }

  lemma {:induction false} OtherOrFirst(originals: seq<Submission>, stage: Option<Id>, requests: seq<Request>, c: Id)
    requires stage.Some?
    requires forall r <- requests | r.campaign == c :: IsAtStage(originals, r) <==> r.stage == stage
    ensures LastOther(originals, stage, requests, c) == stage <==> forall r <- requests | r.campaign == c :: r.stage == stage
  {
    if requests != [] {
      var last := |requests| - 1;
      OtherOrFirst(originals, stage, requests[..last], c);
      assert requests == requests[..last] + [requests[last]];
    }
  }

  lemma {:induction false} LastNamedIs(stage: Option<Id>, requests: seq<Request>, c: Id, j: nat)
    requires IsLastFor(requests, c, j)
    ensures LastNamed(stage, requests, c) == requests[j].stage
       <==> requests[j].stage.Some? || (stage.None? && forall r <- requests | r.campaign == c :: r.stage.None?)
  {
    var last := |requests| - 1;
    assert requests == requests[..last] + [requests[last]];
    if j < last {
      LastNamedIs(stage, requests[..last], c, j);
    } else if requests[j].stage.None? {
      NoneNamed(stage, requests[..last], c);
    }
  }

  lemma {:induction false} NoneNamed(stage: Option<Id>, requests: seq<Request>, c: Id)
    ensures LastNamed(stage, requests, c).None? <==> stage.None? && forall r <- requests | r.campaign == c :: r.stage.None?
  {
    if requests != [] {
      var last := |requests| - 1;
      NoneNamed(stage, requests[..last], c);
      assert requests == requests[..last] + [requests[last]];
    }
  }

  /** With one row per campaign, being at the requested stage is a matter of that row. */
  lemma AtStageOfRow(db: Reference, rows: seq<Submission>, article: Id, i: nat, r: Request)
    requires OneRowEach(rows, article) && i < |rows| && IsOriginal(db, rows[i], article) && r.campaign == rows[i].campaign
    ensures IsAtStage(Originals(db, rows, article), r) <==> r.stage.Some? && r.stage == rows[i].stage
  {
    var originals := Originals(db, rows, article);
    OriginalsMeaning(db, rows, article);
    assert rows[i] in originals;
    if IsAtStage(originals, r) {
      var row :| row in originals && row.campaign == r.campaign && row.stage == r.stage;
      var k :| 0 <= k < |rows| && rows[k] == row;
      assert k == i;
    }
  }

  /**
   * If the article was in the campaign, the last request for it stands exactly when it
   * names no stage or another than the first, or no request names another.
   */
  lemma LastRequestStands(db: Reference, rows: seq<Submission>, article: Id, author: Id, requests: seq<Request>, now: int,
                          i: nat, j: nat)
    requires Reconciled(db, rows, article, author, requests, now).error.None? && OneRowEach(rows, article)
    requires i < |rows| && IsOriginal(db, rows[i], article) && IsLastFor(requests, rows[i].campaign, j)
    ensures var after := Reconciled(db, rows, article, author, requests, now).rows;
            && i < |after| && after[i] == rows[i].(stage := after[i].stage)
            && (after[i].stage == requests[j].stage
                <==> || requests[j].stage.None? || requests[j].stage != rows[i].stage
                     || forall r <- requests | r.campaign == rows[i].campaign :: r.stage == rows[i].stage)
  {
    var originals := Originals(db, rows, article);
    ReconciledRows(db, rows, article, author, requests, now);
    AttachedMeaning(db, rows, article, rows[i].campaign);
    assert RequestedCampaigns(requests)[j] == rows[i].campaign;
    forall r | r in requests && r.campaign == rows[i].campaign
      ensures IsAtStage(originals, r) <==> r.stage.Some? && r.stage == rows[i].stage
    {
      AtStageOfRow(db, rows, article, i, r);
    }
    LastOtherIs(originals, rows[i].stage, requests, rows[i].campaign, j);
  }

  /**
   * If the article was not in the campaign, its row there, revived or new, ends up live,
   * and the last request stands exactly when it names a stage, or no request and no
   * deleted row does.
   */
  lemma LastRequestStandsAnew(db: Reference, rows: seq<Submission>, article: Id, author: Id, requests: seq<Request>, now: int,
                              i: nat, j: nat)
    requires Reconciled(db, rows, article, author, requests, now).error.None?
    requires var after := Reconciled(db, rows, article, author, requests, now).rows;
             && i < |after| && after[i].article == article && (i < |rows| ==> rows[i].article == article)
             && after[i].campaign !in LiveCampaigns(db, rows, article)
             && IsLastFor(requests, after[i].campaign, j)
    ensures var after := Reconciled(db, rows, article, author, requests, now).rows;
            && !after[i].deleted
            && (after[i].stage == requests[j].stage
                <==> || requests[j].stage.Some?
                     || (&& (i < |rows| ==> rows[i].stage.None?)
                         && forall r <- requests | r.campaign == after[i].campaign :: r.stage.None?))
  {
    var after := Reconciled(db, rows, article, author, requests, now).rows;
    ReconciledRows(db, rows, article, author, requests, now);
    AttachedMeaning(db, rows, article, after[i].campaign);
    assert RequestedCampaigns(requests)[j] == after[i].campaign;
    LastNamedIs(if i < |rows| then rows[i].stage else None, requests, after[i].campaign, j);
  }

  /**
   * A campaign requested twice is not simply updated twice: a second request for the
   * stage the article was in at first is passed over, and the first one stands.
   */
  lemma DuplicateRequestIsPassedOver(db: Reference, article: Id, author: Id, c: Id, s0: Id, s1: Id, at: int, now: int)
    requires IsActiveCampaign(db, c) && s0 != s1 && s1 in db.stages
    ensures var rows := [Submission(article, c, Some(s0), false, at)];
            Reconciled(db, rows, article, author, [Request(c, Some(s1)), Request(c, Some(s0))], now)
            == Progress([rows[0].(stage := Some(s1))], [c], None)
  {
    var row := Submission(article, c, Some(s0), false, at);
    var requests := [Request(c, Some(s1)), Request(c, Some(s0))];
    var originals := Originals(db, [row], article);
    OnlyOriginal(db, row, article);
    assert row in originals;
    assert requests[..1] == [requests[0]] && requests[..1][..0] == [];
    assert Attached(db, originals, [row], article, author, [], now) == Progress([row], [], None);
    assert WithStage([row], article, c, Some(s1)) == [row.(stage := Some(s1))];
    var first := Attached(db, originals, [row], article, author, requests[..1], now);
    assert first == AttachNext(db, originals, Progress([row], [], None), article, author, requests[0], now);
    assert Attached(db, originals, [row], article, author, requests, now) == first;
    assert RequestedCampaigns(requests)[0] == c;
    assert NotRequested([c], RequestedCampaigns(requests)) == [];
    assert WithDeleted(first.rows, article, []) == first.rows;
  }

  lemma OnlyOriginal(db: Reference, row: Submission, article: Id)
    requires IsOriginal(db, row, article)
    ensures Originals(db, [row], article) == [row]
    ensures CampaignsOf([row]) == [row.campaign] && IsAttached([row], row.campaign)
  {
    assert [row][1..] == [] && Originals(db, [], article) == [];
    assert CampaignsOf([row])[0] == row.campaign;
  }
}
