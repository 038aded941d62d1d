# Verified models of matters-server

This project models six parts of the server's connectors and migrations and proves what
they promise. Every SQL statement is one atomic step on maps, sets or sequences of rows.

| file | what it models |
|---|---|
| `Ordering.dfy`, `OrderPrecision.dfy` | moves in a collection, the fractional `order` of its rows, and how many moves the `decimal(50, 45)` column can take |
| `CollectionTable.dfy`, `CollectionRuns.dfy`, `CollectionService.dfy` | the rows of collections with active and inactive articles; adding, removing, reordering, and any run of them |
| `ArchiveUser.dfy` | archiving a user, with one concurrent worker per draft that drops asset mappings and then deletes unreferenced assets |
| `CommentText.dfy`, `CommentPatterns.dfy`, `CommentCase.dfy` | the text passes that canonicalise a comment, and the regular expressions they stand for |
| `CommentScan.dfy`, `CommentRotation.dfy`, `CommentNeighbours.dfy` | rotating links, handles and contact ids, between spaces and next to other text |
| `CommentSimilarity.dfy`, `CommentEdits.dfy` | shingles and the Jaccard index, and how many edits the near-duplicate test forgives |
| `MigrateSubscription.dfy` | the migration of invited members to Matters subscriptions |
| `CampaignTables.dfy`, `CampaignService.dfy` | reconciling an article's campaigns with a requested list, and the grand slam of a campaign |
| `TransactionDelta.dfy` | the view of balance changes per user |
| `Ga4Paths.dfy`, `Ga4.dfy` | resolving paths to articles; paging, merging and saving article statistics |

`Common.dfy` holds `Option`, `Result`, the existence of an unused identifier, and facts about lists and sets.

Services are classes whose fields are their tables. A query that takes the first of several
rows without an order is a free choice: in the migration the choices of a run are recorded
(`Choice`), and every theorem holds for all of them.

What the proofs found about the code:

- The coverage of the subscription migration is not only kept: it grows by exactly the pairs
  that were moved (`CoverageAfterRun`). An item may be moved although its own subscription is
  not in force, and then the user gains coverage. "Live" is `archived = false`, as every query
  has it; a null is not live.
- The last step for an invitation counts the items of the subscription that the query found. When
  the moved item was the last of its own subscription, that one may stay in force with nothing
  under it exactly when the user has another in force (`OwnMayLinger`), and at the end of a run it
  does exactly when no invitation counted it after its last item was moved (`LingersAfterRun`). A
  user's only subscription never lingers (`OnlySubscriptionNeverLingers`). On a table of two
  subscriptions the run cancels the wrong one (`WrongSubscriptionCanceled`).
- In every branch of a move the new order can equal that of a row whose article is not active
  (`EveryBranchMayTie`). Moves keep all rows of a collection apart exactly when they write no order
  of such a row (`MoveApart`, `MovesApart`, `ApartForever`), and only then does the order stay
  unique whatever states the articles take later (`TidyWhateverShows`).
- A campaign requested several times is compared every time with the stage the article was in at
  first. The last request stands exactly when it names no stage or another than that, or no request
  names another (`LastRequestStands`, `DuplicateRequestIsPassedOver`).
- Reviving a deleted submission without a stage keeps the old stage (`LastRequestStandsAnew`).
- The grand slam joins applications on the user alone and does not look at deletion. An author who
  did not apply to the campaign in time is found exactly by an application in its period to another
  (`FoundByApplicationElsewhere`), and one with nothing left of some stage exactly by deleted
  submissions (`FoundByDeletedEntries`); the result is right for everybody else
  (`FoundBeyondEarned`). `UnearnedGrandSlam` has a table for each case. Counting finds nobody when
  the required stages are none or one is named twice (`GrandSlamMeaning`, `EarnedIsFound`).
- The stage of a submission may be one of another campaign (`ForeignStageIsAccepted`). Articles stay
  at stages of their campaigns exactly when the requests that decide their stages name such
  (`SubmittedOwnStages`, `ReconciledOwnStages`).
- Merging keeps "1" and "01" apart although both name article 1. Data with two such ids cannot be
  inserted when the article has no row for the days yet, and is updated when it has one
  (`InsertableUnlessAliased`, `AliasedIdsCannotBeInserted`). What is stored for an article is then one
  of its entries, which is the sum of its rows exactly when no other id names it (`SavedSums`).
- A dot or colon behind an identifier can make a link of its end, so what follows may vanish or not
  (`DotMakesALink`); no other neighbour can (`RotatedInText`).

## Model

| member | source | states |
|---|---|---|
| Ordering.MovedMeaning | src/connectors/collectionService.ts:288-292 | a valid move puts its article at the new position and leaves the others in the order they had |
| Ordering.AllMovedKeepsArticles | src/connectors/collectionService.ts:314-358 | any number of valid moves permutes the articles and makes no duplicates |
| Ordering.NewOrderFits | src/connectors/collectionService.ts:320-349 | in all three branches the new order is positive and strictly between those of the new neighbours |
| Ordering.ReorderedIds | src/connectors/collectionService.ts:314-358 | on the articles, front, back and middle branch together are "remove the id, insert it at the position" |
| Ordering.ReorderedIsTidy | src/connectors/collectionService.ts:314-358 | a move keeps the list strictly descending, positive and free of duplicates |
| Ordering.AllReorderedIds | src/connectors/collectionService.ts:314-358 | the loop over the moves equals folding the simple meaning of a move over them |
| Ordering.AllReorderedIsTidy | src/connectors/collectionService.ts:314-358 | after every number of moves the list is strictly descending and positive |
| OrderPrecision.MoveCostsOneDigit | src/connectors/collectionService.ts:320-349 | in exact arithmetic an effective move needs at most one more binary place and raises the maximum by at most one |
| OrderPrecision.PrecisionBudget | db/migrations/20230620155259_create_collection_article_table.js:11 | in exact arithmetic k effective moves on multiples of 2^-d leave multiples of 2^-(d+k), so gaps and minimum are at least that, the maximum grew by at most k, and for d+k up to 45 the column holds every order |
| OrderPrecision.BudgetIsExact | db/migrations/20230620155259_create_collection_article_table.js:11 | in exact arithmetic, for every k two fresh articles and k moves give the order 2^-k, which the column holds exactly when k is at most 45 |
| OrderPrecision.WholeOrdersFit | db/migrations/20230620155259_create_collection_article_table.js:11 | a whole number fits the column exactly if it has at most five digits |
| OrderPrecision.FreshCollectionTakes45Moves | src/connectors/collectionService.ts:52-62 | in exact arithmetic a collection filled in one addition takes any 45 effective moves without rounding |
| CollectionRuns.PrecisionForever | src/connectors/collectionService.ts:35-82 | in exact arithmetic, after any run of additions, removals and reorderings with k effective moves in a collection that began empty or with whole orders, all its rows are multiples of 2^-k, hidden ones too, and the column holds them for k up to 45 |
| CollectionTable.ShownWhen | src/connectors/collectionService.ts:204-208 | a collection shows exactly the articles it has a row for whose state is active |
| CollectionTable.ListingIsUnique | src/connectors/collectionService.ts:204-232 | rows with distinct active orders have one descending listing only |
| CollectionTable.ReorderAgrees | src/connectors/collectionService.ts:294-359 | after any valid moves the stored orders, read back, are the list in memory and show the articles where the moves put them; orders stay positive and distinct |
| CollectionTable.ScreenedMeaning | src/connectors/collectionService.ts:98-116 | screening succeeds exactly when every article that does not show yet is an active one of the user, and accepts those in the order given |
| CollectionTable.ScreenedError | src/connectors/collectionService.ts:98-116 | otherwise the first refused article says why: not found unless it exists and is active, else forbidden |
| CollectionTable.ConflictOnlyWithItself | db/migrations/20230620155259_create_collection_article_table.js:13 | although only active rows are inspected, a validated insertion breaks the unique key only if the request names a new article twice |
| CollectionTable.ValidAddFits | src/connectors/collectionService.ts:84-148 | a validated request without duplicates inserts without conflict, shows all its articles and stays within the limit of 400 |
| CollectionTable.AddedOnTop | src/connectors/collectionService.ts:52-62 | added articles show before all older ones, in reverse of the order given, and the older keep theirs |
| CollectionTable.AddKeepsTidy | src/connectors/collectionService.ts:52-62 | adding keeps orders positive and distinct |
| CollectionTable.RemoveUndoesAdd | src/connectors/collectionService.ts:71-82 | removing what was just added gives the table back |
| CollectionTable.TidyWhateverShows | src/connectors/collectionService.ts:204-232 | orders tell articles apart whatever states they have, now and later, exactly when all rows of every collection have different ones |
| CollectionTable.MoveApart | src/connectors/collectionService.ts:320-349 | in all three branches a move keeps all rows of the collection apart exactly when no row that does not show has the order it writes |
| CollectionTable.MovesApart | src/connectors/collectionService.ts:314-358 | all rows stay apart after every one of the moves exactly when no row that does not show has an order that one of them writes |
| CollectionTable.RemovedFromListing | src/connectors/collectionService.ts:71-82 | removing takes the articles out of the listing and keeps the rest in order |
| CollectionRuns.TidyForever | src/connectors/collectionService.ts:35-82 | over any run of additions, removals and reorderings orders stay positive and active orders of a collection distinct |
| CollectionRuns.ApartForever | src/connectors/collectionService.ts:35-82 | over any run all rows, shown or not, keep different orders exactly when no reordering ends at the order of a row that does not show |
| CollectionRuns.EveryBranchMayTie | src/connectors/collectionService.ts:320-349 | a table on which a move to the front, the middle or the back ties with an inactive row, and is then not tidy for other article states |
| CollectionServices.CollectionService.FindAndCountArticlesInCollection | src/connectors/collectionService.ts:211-232 | returns a page of the active articles by descending or ascending order, record i of the page being record skip + i of the listing, and their number, which reads as zero without records |
| CollectionServices.CollectionService.ValidateCollection | src/connectors/collectionService.ts:119-148 | which error is thrown when, and otherwise the complete listing |
| CollectionServices.CollectionService.ValidateAddArticles | src/connectors/collectionService.ts:84-117 | throws the first error in the order of checks, or accepts the absent articles |
| CollectionServices.CollectionService.AddArticles | src/connectors/collectionService.ts:35-69 | inserts all accepted articles above the maximum or nothing; what was absent then shows on top, within the limit, and orders stay distinct |
| CollectionServices.CollectionService.RemoveArticles | src/connectors/collectionService.ts:71-82 | every listing of the collection loses the articles and keeps the others in order, other collections list as before, and orders stay distinct |
| CollectionServices.CollectionService.ReorderArticles | src/connectors/collectionService.ts:294-359 | applies all moves or, if any position or id is invalid, none; list, stored orders and the meaning of the moves agree |
| CollectionServices.CollectionService.MoveArticle | src/connectors/collectionService.ts:320-357 | one loop iteration writes the one new order and rearranges the list, all indices in bounds |
| ArchiveUser.EveryInterleavingCollects | src/connectors/archiveUserService.ts:43-59 | every interleaving that runs all workers to the end leaves the same tables: an asset is deleted exactly when drafts of the author alone owned it, and exactly one worker reports it |
| ArchiveUser.NeverDeletesASharedAsset | src/connectors/archiveUserService.ts:99-118 | at no point of any interleaving is an asset gone that a mapping still refers to or that anybody else owned |
| ArchiveUser.CompletesWhenAllMoveTwice | src/connectors/archiveUserService.ts:51-58 | a schedule completes exactly when every worker gets at least two turns |
| ArchiveUser.StepInvariant | src/connectors/archiveUserService.ts:99-118 | both database steps of a worker keep the invariant between steps |
| ArchiveUser.CollectInTwoRounds | src/connectors/archiveUserService.ts:19-36 | collecting for the drafts and then for the user is collecting for all of them at once |
| ArchiveUser.ArchiveUserService.DeleteAsset | src/connectors/archiveUserService.ts:99-118 | drops the owner's mappings, deletes what only that owner had, and returns exactly that |
| ArchiveUser.ArchiveUserService.DeleteDrafts | src/connectors/archiveUserService.ts:43-59 | whatever order the statements are served in, drafts, mappings and assets end up as collected |
| ArchiveUser.ArchiveUserService.DeleteUserAssets | src/connectors/archiveUserService.ts:73-86 | clears avatars and profile cover and collects the user's own assets |
| ArchiveUser.ArchiveUserService.ArchiveUser | src/connectors/archiveUserService.ts:19-36 | deletes exactly the assets that the user and the user's drafts alone owned, clears the avatars of the user and of the user's OAuth clients and of no others; a user in another state loses nothing |
| CommentPatterns.MatchIsLongest | src/connectors/commentSpamSignals.ts:59-108 | every pass takes the longest text its regular expression denotes, and none only if there is none |
| CommentPatterns.Alphabets | src/connectors/commentSpamSignals.ts:59-108 | the classes of characters in the expressions, spelled out: the six ASCII spaces, the digits, the letters, those of handles |
| CommentText.StripHtmlIdempotent | src/connectors/commentSpamSignals.ts:59-64 | the result has no tag, no entity and only single inner blanks, and stripping it again changes nothing |
| CommentText.NormalizeIdempotent | src/connectors/commentSpamSignals.ts:98-108 | the canonical text consists of lower-case letters (and letters beyond ASCII) only, and canonicalising again changes nothing |
| CommentCase.CaseDoesNotMatter | src/connectors/commentSpamSignals.ts:98-108 | comments that agree up to the case of letters, with the entity of a blank at the same places, have the same canonical text |
| CommentCase.CaseIsNearDuplicate | src/connectors/commentSpamSignals.ts:136-146 | such comments are near duplicates of each other exactly when any text remains |
| CommentCase.CaseOfEntityMatters | src/connectors/commentSpamSignals.ts:59-64 | the entity of a blank vanishes, and in capitals leaves the letters it is spelled with |
| CommentRotation.TokenByToken | src/connectors/commentSpamSignals.ts:98-108 | unless a tag reaches over it, a delimited token and the text on its two sides are canonicalised separately |
| CommentRotation.RotatedToken | src/connectors/commentSpamSignals.ts:98-108 | replacing a delimited token by another leaves the canonical text unchanged exactly when a tag swallows both or they have the same canonical text |
| CommentRotation.RotatedVolatile | src/connectors/commentSpamSignals.ts:131-135 | links, handles, identifiers with a digit and numbers can be rotated, also against each other, without changing the canonical text; outside tags it is as if they were not there |
| CommentNeighbours.RotatedInText | src/connectors/commentSpamSignals.ts:98-108 | an identifier can be replaced by another, or a handle by another, also where it touches other text (ideographs, punctuation other than a dot or colon behind it), in a tag, link or longer handle |
| CommentNeighbours.DotMakesALink | src/connectors/commentSpamSignals.ts:101-107 | two identifiers that leave different canonical texts before the same dot and word |
| CommentNeighbours.RotatedInTextIsNearDuplicate | src/connectors/commentSpamSignals.ts:131-135 | a template with such an identifier or handle rotated is a near duplicate exactly when any text remains |
| CommentSimilarity.Shingles | src/connectors/commentSpamSignals.ts:111-120 | the loop collects exactly the windows of length n, or the whole text if it is shorter |
| CommentSimilarity.Jaccard | src/connectors/commentSpamSignals.ts:123-130 | the counting loop computes the size of the intersection over that of the union, and 0 for two empty sets |
| CommentSimilarity.JaccardBounds | src/connectors/commentSpamSignals.ts:123-130 | the index is symmetric, in [0, 1], and 1 exactly for equal sets that are not empty |
| CommentSimilarity.TriangleInequality | src/connectors/commentSpamSignals.ts:123-130 | one minus the index obeys the triangle inequality for all finite sets |
| CommentSimilarity.SameTextIsNearDuplicate | src/connectors/commentSpamSignals.ts:136-146 | comments with one canonical text are near duplicates exactly when it is not empty |
| CommentSimilarity.EightLettersAreEnough | src/connectors/commentSpamSignals.ts:141-145 | texts of one repeated letter are near duplicates of each other exactly from eight letters on, and below that only of themselves |
| CommentSimilarity.RotatedIsNearDuplicate | src/connectors/commentSpamSignals.ts:131-135 | a template with a rotated link, handle, identifier or number is a near duplicate exactly when any text remains |
| CommentSimilarity.NearDuplicatesOfOne | src/connectors/commentSpamSignals.ts:136-146 | two comments that a third is a near duplicate of at a threshold t are near duplicates at 2t - 1, at 0.6 for the ring, whatever their lengths |
| CommentEdits.EditsCost | src/connectors/commentSpamSignals.ts:111-130 | k substitutions leave a similarity of at least c / (c + 2 k n), c counting the shingles of untouched windows |
| CommentEdits.OneEditIsForgiven | src/connectors/commentSpamSignals.ts:136-146 | texts of equal length that differ in one character are near duplicates if one has at least 27 distinct trigrams |
| CommentEdits.TwentySevenIsNeeded | src/connectors/commentSpamSignals.ts:136-146 | for texts of distinct characters an inner substitution by a new one passes exactly from 27 trigrams on |
| CommentEdits.StretchCost | src/connectors/commentSpamSignals.ts:111-135 | texts that differ in one stretch, of any two lengths p and q, are at least c / (c + p + q + 2(n-1)) similar, c counting the shingles before and behind it |
| CommentEdits.OneInsertionIsForgiven | src/connectors/commentSpamSignals.ts:131-146 | canonical texts of which one has a character more are near duplicates, either way round, if the shorter has at least 22 distinct trigrams |
| CommentEdits.TwentyTwoAreNeeded | src/connectors/commentSpamSignals.ts:131-146 | for texts of distinct characters an inner insertion of a new one passes exactly from 22 trigrams on |
| MigrateSubscription.CoverageAfterRun | db/migrations/20210427123109_migrate_subscription.js:39-188 | after any run a user is covered for a price exactly when they were before or an item of theirs for it was moved |
| MigrateSubscription.MigratedWhen | db/migrations/20210427123109_migrate_subscription.js:43-93 | an invitation is migrated only if a user it is for has at its turn a live Stripe item for an active price of its circle and a Stripe subscription active or on trial; otherwise it is for nobody or for a user without |
| MigrateSubscription.MovedForInvitation | db/migrations/20210427123109_migrate_subscription.js:61-78 | every item a run changes was a live Stripe item for an active price of the circle of an invitation, of a user that one is for, and is archived |
| MigrateSubscription.StepMoves | db/migrations/20210427123109_migrate_subscription.js:61-184 | what a migrated invitation leaves: the item archived and no other changed, a live Matters item for the same price under a trialing Matters subscription, the counted subscription canceled exactly if no live item is under it |
| MigrateSubscription.CanceledAreEmpty | db/migrations/20210427123109_migrate_subscription.js:160-184 | a subscription the run canceled is a Stripe one with no live item at the end of the run |
| MigrateSubscription.OwnMayLinger | db/migrations/20210427123109_migrate_subscription.js:80-174 | moving the last live item of a Stripe subscription in force may leave that one in force exactly when the user has another, and must exactly when it is not the user's |
| MigrateSubscription.LingersAfterRun | db/migrations/20210427123109_migrate_subscription.js:160-184 | a subscription is in force with nothing under it at the end of a run exactly when all its items were moved and no invitation counted it when the last had been |
| MigrateSubscription.OnlySubscriptionNeverLingers | db/migrations/20210427123109_migrate_subscription.js:160-184 | the only subscription in force of a user, with live items all the user's, never ends up in force with nothing under it |
| MigrateSubscription.WrongSubscriptionCanceled | db/migrations/20210427123109_migrate_subscription.js:80-184 | tables on which the item's subscription lingers and another one is canceled |
| MigrateSubscription.OneMattersSubscriptionPerUser | db/migrations/20210427123109_migrate_subscription.js:94-112 | at most one Matters subscription is created per user, and only for users without a trialing one |
| MigrateSubscription.CreatesNoMoreThanItArchives | db/migrations/20210427123109_migrate_subscription.js:114-158 | every migrated invitation archives one item of its own, and no more Matters items are created than that |
| MigrateSubscription.InvitationsAfterRun | db/migrations/20210427123109_migrate_subscription.js:142-147 | a selected invitation is unchanged or linked to a live item for its circle that the invited user holds; others are unchanged |
| MigrateSubscription.RunEvolves | db/migrations/20210427123109_migrate_subscription.js:39-188 | a run only adds Matters rows, archives live Stripe items, cancels Stripe subscriptions in force and links invitations |
| MigrateSubscription.Migration.Process | db/migrations/20210427123109_migrate_subscription.js:43-184 | the body of the loop is one step, for the rows its queries found |
| MigrateSubscription.Migration.Up | db/migrations/20210427123109_migrate_subscription.js:27-188 | selects the accepted invitations without an item, earliest acceptance first, and the loop is a run over them |
| CampaignTables.ReconciledCampaigns | src/connectors/campaignService.ts:363-420 | the update succeeds exactly when every request is attached already, at a stage that exists, or may be submitted; then the article is in exactly the requested campaigns, and when it throws it is out of none |
| CampaignTables.ValidateMeaning | src/connectors/campaignService.ts:450-511 | a submission is allowed exactly when the campaign is active, the user's first application to it has succeeded, its writing period and the stage have begun, and a stage is given if the campaign has any; and when each error is thrown |
| CampaignTables.AppliedOnce | src/connectors/campaignService.ts:469-475 | if users apply to a campaign once, any successful application to it will do |
| CampaignTables.ReconciledTouches | src/connectors/campaignService.ts:363-448 | only rows of the article in active campaigns change or appear, and each such campaign is reported |
| CampaignTables.ReconciledReports | src/connectors/campaignService.ts:383-419 | the reported campaigns are those requested and not at the requested stage, and those the article was taken out of |
| CampaignTables.ReconciledRows | src/connectors/campaignService.ts:363-447 | the table after a successful update row by row, for any list of requests: stage, deletion, revival, one new row for every campaign that needs one, rows of other articles unchanged |
| CampaignTables.LastRequestStands | src/connectors/campaignService.ts:383-405 | for a campaign the article was in, the last of any number of requests stands exactly when it names no stage or another than the first, or no request names another |
| CampaignTables.LastRequestStandsAnew | src/connectors/campaignService.ts:406-447 | for a campaign the article was not in, the row is live and the last request stands exactly when it names a stage, or neither a request nor the deleted row does |
| CampaignTables.SubmittedOwnStages | src/connectors/campaignService.ts:422-448 | a submission keeps all articles at stages of their campaigns exactly when its own stage is absent or the campaign's |
| CampaignTables.ReconciledOwnStages | src/connectors/campaignService.ts:363-447 | a successful update keeps them so exactly when every request that decides a stage names one of its campaign |
| CampaignTables.ForeignStageIsAccepted | src/connectors/campaignService.ts:492-511 | tables on which a submission to a stage of another campaign is accepted |
| CampaignTables.DuplicateRequestIsPassedOver | src/connectors/campaignService.ts:383-392 | a list of two requests of which the second is ignored, as it names the stage the article was in at first |
| CampaignServices.CampaignService.SubmitArticleToCampaign | src/connectors/campaignService.ts:422-511 | succeeds exactly when the submission is allowed, and with one application each says "not applied" exactly when there is no successful one to this campaign; then the article is in one campaign more, its rows there are live and at the stage given, and no other row changes; otherwise nothing does |
| CampaignServices.CampaignService.UpdateArticleCampaigns | src/connectors/campaignService.ts:363-420 | the loops compute the reconciliation, and what was done before a failing request stays done |
| CampaignServices.GrandSlamMeaning | src/connectors/campaignService.ts:581-625 | counting stages finds exactly the eligible authors with an entry for every required stage, if there are some and none is listed twice, and nobody otherwise |
| CampaignServices.GrandSlamOfAllStages | src/connectors/campaignService.ts:570-582 | without requested stages all those of the campaign are required, and requested ones are refused exactly when one is not the campaign's |
| CampaignServices.FoundByApplicationElsewhere | src/connectors/campaignService.ts:591-617 | an author is found without an application to the campaign in time exactly when everything else holds and there is one to another campaign |
| CampaignServices.FoundByDeletedEntries | src/connectors/campaignService.ts:584-617 | an author is found with no live submission to some required stage exactly when all those to it are deleted and everything else holds |
| CampaignServices.FoundBeyondEarned | src/connectors/campaignService.ts:565-625 | with all stages required, those who earned it are found, and the result is right for an author exactly unless they applied elsewhere only or have deleted submissions only for some stage |
| CampaignServices.EarnedIsFound | src/connectors/campaignService.ts:581-622 | with any required stages, an author who earned it is found exactly if none is listed twice |
| CampaignServices.UnearnedGrandSlam | src/connectors/campaignService.ts:565-625 | tables with and without an application to the campaign in time and a deleted submission: the user is found in all |
| TransactionDelta.UserBalance | db/migrations/20200408130304_create_transaction_delta_view.js:6-31 | a user's changes add up to received minus sent although duplicates are dropped |
| TransactionDelta.InternalTransactionsCancel | db/migrations/20200408130304_create_transaction_delta_view.js:6-31 | transactions between two users add nothing to the total |
| TransactionDelta.DuplicatesAreWorthless | db/migrations/20200408130304_create_transaction_delta_view.js:18 | a transaction loses a row to `union` exactly when a user sends themself nothing |
| Ga4.FetchGA4Data | src/connectors/ga4Service.ts:49-63 | the paging loop ends and returns the whole report, exactly when no page it asks for is lost, in the stated number of requests |
| Ga4Paths.ArticleAddress | src/connectors/ga4Service.ts:123-135 | a path below an author's page leads to what the piece behind the author says, whatever follows: the id it begins with, or else the article of the hash it ends with |
| Ga4Paths.ShortAddress | src/connectors/ga4Service.ts:136-146 | a short address leads to its article, and with anything behind it nowhere |
| Ga4Paths.EveryAddress | src/connectors/ga4Service.ts:123-150 | every path is an author's page, the address of a name, a short address or none of these, and leads nowhere exactly when no id, known media hash or known short hash stands in its place |
| Ga4.ConvertAndMerge | src/connectors/ga4Service.ts:101-121 | resolves every path; every legal id gets the sum of its rows, and the sums add up to all legal rows |
| Ga4.NumberOfMeaning | src/connectors/ga4Service.ts:115 | an id denotes a number exactly when it is the decimal numeral of its absolute value with any leading zeros, and a minus sign if negative |
| Ga4.MergedUpToMaximum | src/connectors/ga4Service.ts:109-119 | rows under a numeral are merged, under their own spelling, exactly when the number is at most the maximum id |
| Ga4.PathNumerals | src/connectors/ga4Service.ts:129 | the piece of a path that is taken for an id is one exactly when it is a decimal numeral |
| Ga4.MergeIgnoresOrder | src/connectors/ga4Service.ts:111-119 | the order of the rows does not matter |
| Ga4.StatisticsTable.SaveGA4Data | src/connectors/ga4Service.ts:66-99 | updates rows that differ and inserts missing ones, all or none; on success the table stores the data exactly if entries for one article agree; other rows are unchanged |
| Ga4.SecondSaveWritesNothing | src/connectors/ga4Service.ts:82-98 | saving stored data again updates and inserts nothing |
| Ga4.InsertKeepsExclusive | db/migrations/20231013164609_create_article_ga4_data_table.js:21-23 | an accepted insertion keeps the day ranges of every article apart |
| Ga4.InsertableUnlessAliased | src/connectors/ga4Service.ts:72-98 | merged data can be inserted exactly when the ids without a row name articles, none of them has an overlapping range stored, and no two of them name one article |
| Ga4.AliasedIdsCannotBeInserted | src/connectors/ga4Service.ts:111-119 | rows for "1" and "01" merge to two entries for article 1, which can be saved exactly when article 1 has a row for the range already |
| Ga4.SavedSums | src/connectors/ga4Service.ts:66-121 | after merging and saving an article's row holds one of its entries, which is the sum of all rows naming the article exactly when the others add up to nothing; with positive numbers of users, exactly when one id names it |

## Left out

- PrecisionBudget, `BudgetIsExact`, `FreshCollectionTakes45Moves`, `PrecisionForever`: exact arithmetic. The code computes in doubles and writes the shortest decimal of one, so a midpoint may be rounded before the column sees it.
- Rounding elsewhere of `parseFloat`, `toString` and the numeric types: indices and amounts are exact reals.
- Replica lag: reads and writes see one database.
- `Shingles`, `NearDuplicate`: characters are counted as code points, where the code counts UTF-16 units, so lengths and trigrams of texts with letters beyond the basic multilingual plane differ.
- Unicode: the text passes are exact for ASCII and for letters without case in the basic multilingual plane, such as most ideographs; other characters beyond ASCII (spaces, punctuation, letters with case) are treated as such letters.
- RotatedToken: a token with a `<` or `>` of its own, or the entity of a blank, is not covered, because it is not one token once markup is removed.
- RotatedInText: a dot or colon directly behind the identifier or handle is not covered, as it can make a link of its end.
- Storage, CDN, Stripe, mail, notifications, cache invalidation, logging and timestamps other than the ones compared: they do not influence the modelled rows.
- Foreign keys from other tables to assets and articles: a deletion that one of them forbids is not modelled in `ArchiveUser`.
- Paths of assets: assets are identified by id, and two assets with the same path are two assets.
- `Migration.Up`: the `remark` and `canceled_at` columns are not modelled.
- `GrandSlamUsers`: the campaign's stages are a parameter, in the order their query returns them (`AreStagesOf`).
- `ValidateCollection`, `ValidateAddArticles`: the collection's and the articles' loaders read the tables without a cache.
- `CampaignTables.Validate` is given one current time for the whole update, where the code reads the clock once for every submission.
- Applications, stages, listings and boosts of campaigns, pins and likes of collections: simple guards.
- Tiers of comment spam and their word lists, and the count of similar comments of an author: each is settled by one branch.
