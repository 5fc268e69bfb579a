# LC Connect: verified cores

A Dafny model of the parts of LC Connect whose correctness spans several statements, several
functions or a whole history of requests, with proofs of what they promise. One module per core
file of the application; each file opens with what it models.

| File | Core |
|---|---|
| `StaffThreads.dfy`, `DmConversations.dfy` | get-or-create of conversations under concurrency: ordered row locks, and a unique key as arbiter |
| `TemplateExpr.dfy`, `TemplateSyntax.dfy`, `DeckKeys.dfy` | the template runtime's expression evaluator, its print/parse round trip, and the keys of a deck's children |
| `LikeSearch.dfy` | search patterns against the meaning of SQL LIKE (section 8.5 of ISO/IEC 9075-2:2003) |
| `RateLimit.dfy` | the token bucket, in memory and as the Redis script |
| `AccountDeletion.dfy`, `AdminScopes.dfy`, `Publishing.dfy` | state machines over several tables |
| `Backfill.dfy`, `Retention.dfy`, `AuthLinking.dfy` | batch jobs against a declarative result |
| `ActivityCapacity.dfy` | locked joins, lock-free leaves and edits of an activity |
| `TextClip.dfy`, `Presence.dfy`, `Featured.dfy` | excerpts, the presence relation, the featured activity and its pin |

`dafny verify dfyconfig.toml` checks everything. Nothing here executes the application.

## How the code is modelled

* A table is a finite map from its key to its row; foreign-key actions, unique keys and row locks are
  those declared in the models and migrations. Statements see committed rows (READ COMMITTED).
* Code that changes rows or objects in place is a class whose methods do the same assignments and
  loops. Each method is proved to end in the state a function of the old state describes; the
  lemmas are about those functions.
* Concurrent requests are processes of a transition system, one statement per step. Requests may
  arrive, crash and interleave without limit; results hold for every run.
* Clocks, generated ids, the directory lookup, `exp`, the JavaScript engine's property lookup and
  conversions, and deployment settings are parameters. Times, tokens and scores are reals.

## What the proofs show beyond the code's own comments

* Losing the race for a match's conversation: the docstring says the loser reloads the winner's row.
  The rollback before the reload expires the match object, so reading `match.id` raises (the comment at
  backend/app/features/employers/service.py:95-97 describes this), and the request ends in an error. That
  happens exactly when a conversation of the match is committed by the time of the insert
  (`DmConversations.ErrorIff`), which takes another request that commits one between this one's find and its
  insert (`DmConversations.LostToCommit`); uniqueness holds regardless, and a retry finds the winner.
* Template expressions: an unparenthesised chain of comparisons groups to the right, because the
  leftmost operator splits the text; JavaScript groups it to the left (`TemplateSyntax.ChainDiffers`, and
  `TemplateSyntax.GroupingsAgreeIff` for when the two agree).
  A quoted literal evaluates to its content exactly when no operator is found in it
  (`TemplateSyntax.QuotedLiteralIff`); `'a==b'` does not.
* `resolve_conversation` notes that each arm of its query matches at most one row. Both arms together do
  exactly when the reference is not both a conversation's id and another conversation's match
  (`DmConversations.ResolveIsUniqueIff`).
* Pruning a rate limiter is invisible exactly when the idle time is at least `per_seconds`
  (`RateLimit.PruneInvisibleIff`); the hourly job uses one day.
* Inside an account deletion the ownership invariant holds exactly when no owned group has another active
  member; it holds again at the commit (`AccountDeletion.BrokenInBetweenIff`).
* A rejection leaves a live post behind exactly when the linked post is published already
  (`Publishing.RejectLeavesLiveIff`). That takes a crash between publishing and approving, or an admin who
  publishes the linked draft by hand (`Publishing.LiveRejectionHadCrash`). An orphan published by hand is a
  second live post, and open to everyone (`Publishing.TwoLivePosts`).
* The backfill fails exactly when some match of a user with itself has no conversation yet, or a direct one
  without that user (`Backfill.ClashIff`).
* The read boundary keeps the unread set exactly when a member's reads form a prefix of what they
  received; otherwise it only ever marks more as read (`Backfill.UnreadPreservedIff`).
* `edits_purged` leaves out the history that goes with its message (`Retention.EditsPurgedIsAllIff`).
* A dry run of auth linking may promise a clean gate for an apply that then fails: with autoflush off,
  the clash query does not see the id another user was given a moment before. With the shipped lookup the
  apply succeeds exactly when no two matched users' emails differ only in case and surrounding blanks
  (`AuthLinking.AppliesIffSpellingsDiffer`).
* Presence is symmetric between two people unless exactly one of them has no profile row and nothing
  else keeps them apart (`Presence.SymmetricIff`); with profiles for everyone it is symmetric outright.
* The featured activity is announced as the same for everyone. Under a pin it is. Without one it is exactly
  when the general pick still leads for each of its own participants, since the score includes the viewer's
  penalty (`Featured.SameForEveryoneIff`). That is for one result of the candidate query; the query leaves the
  order of equal starts open, which matters only when a tie is cut off at the 60th place
  (`Featured.ListingDoesNotMatter`). Whoever takes the last seat lowers the score, except in a pool where no
  activity has a second participant (`Featured.LastSeatLowers`). The score of an upcoming activity lies strictly between -0.33
  and 1, because a full activity keeps the scarcity floor.

## Model

| member | source | states |
|---|---|---|
| `StaffThreads.NextKeepsInv` | backend/app/shared/conversations.py:91-115 | Every statement, crash, arrival and departure keeps: at most one shared open thread per pair, locks held by exactly the transactions that took them, and drafts unseen by others |
| `StaffThreads.AtMostOneThread` | backend/app/shared/conversations.py:91-115 | Under every interleaving, two people never share two staff conversations in which both are active |
| `StaffThreads.RequestsAgree` | backend/app/shared/conversations.py:71-115 | Finished requests for the same two people, in either argument order, got the same conversation while neither left it, and it has exactly these two members |
| `StaffThreads.NoDeadlock` | backend/app/shared/conversations.py:98-104 | Following from any unfinished request to the holder of the lock it waits for, and on, ends at one that can take its next statement: along the chain the user ids grow |
| `StaffThreads.RequestsFinish` | backend/app/shared/conversations.py:91-115 | However they are scheduled, open requests take a bounded number of statements in all, and end with everyone finished |
| `StaffThreads.AbortIff` | backend/app/shared/conversations.py:107-114 | A statement ends its request in an error exactly when it inserts the member rows of a request for oneself |
| `StaffThreads.ThreadsDelivered` | backend/app/shared/conversations.py:91-115 | Without crashes, open requests for two different people all end with a thread in which both are active: the earlier one if there was one; earlier threads are unaltered |
| `DmConversations.NextKeepsInv` | backend/app/shared/conversations.py:38-68 | Every statement, crash and arrival keeps: one conversation per match, competing drafts apart, earlier conversations unaltered, new ones with their match's two users, and a lost race only where a conversation is |
| `DmConversations.OneConversationPerMatch` | backend/app/shared/conversations.py:38-68 | A match never gains a second conversation; one created by this code has exactly the match's two users |
| `DmConversations.RequestsAgree` | backend/app/shared/conversations.py:46-68 | All requests that returned a conversation for a match returned the same one |
| `DmConversations.ErrorIff` | backend/app/shared/conversations.py:50-67 | A statement ends its request in an error exactly when it is the insert and a conversation of the match is already committed, or the member rows of a match of a user with itself |
| `DmConversations.LostToCommit` | backend/app/shared/conversations.py:46-56 | Over every run, a request that lost was overtaken: another one committed a conversation of its match while it stood between its find and its insert |
| `DmConversations.FailureHasCause` | backend/app/shared/conversations.py:50-67 | A request that failed without a crash belongs to a match that has a conversation, or pairs a user with itself |
| `DmConversations.RetryFindsWinner` | backend/app/shared/conversations.py:46-48 | After a lost race, any later request for the match returns the winner's conversation |
| `DmConversations.LoserErrs` | backend/app/shared/conversations.py:52-59 | A run of two requests for a new match in which the second ends in an error |
| `DmConversations.NoDeadlock` | backend/app/shared/conversations.py:38-68 | An unfinished request can take its next statement, or the one whose uncommitted row it waits for can |
| `DmConversations.RequestsFinish` | backend/app/shared/conversations.py:38-68 | However they are scheduled, open requests take a bounded number of statements in all, and end with everyone finished |
| `DmConversations.ConversationsDelivered` | backend/app/shared/conversations.py:38-68 | Without crashes, every open request for a match of two different people ends with the conversation of the match, or has lost to it |
| `DmConversations.ResolveIsUniqueIff` | backend/app/shared/conversations.py:137-146 | At most one row answers a reference, exactly when it is not both a conversation's id and another conversation's match id |
| `TemplateExpr.ParensWrapWhole` | ui_mockups/LC Connect Admin Dashboard/support.js:237-247 | True exactly when no parenthesis closes back to depth zero before the end |
| `TemplateExpr.FindTopLevelEquality` | ui_mockups/LC Connect Admin Dashboard/support.js:248-262 | The scan finds the leftmost equality operator at bracket depth zero that has an operand before it, or none exists |
| `TemplateExpr.Resolve` | ui_mockups/LC Connect Admin Dashboard/support.js:205-236 | Ends on every text, measured by length, with the value of the specification function |
| `TemplateExpr.ClosingBracket` | ui_mockups/LC Connect Admin Dashboard/support.js:275-285 | The inner loop finds the first bracket that balances the opening one, or there is none |
| `TemplateExpr.ResolvePath` | ui_mockups/LC Connect Admin Dashboard/support.js:263-294 | The path loop ends and computes the walk over names and bracketed keys; anything else is undefined |
| `TemplateSyntax.RoundTrip` | ui_mockups/LC Connect Admin Dashboard/support.js:205-294 | Every syntax tree, printed with any padding and parentheses, evaluates to the tree's meaning; the meaning of a numeral is the number its digits write, of a keyword its value |
| `TemplateSyntax.NumberReads` | ui_mockups/LC Connect Admin Dashboard/support.js:231 | Digits, with any leading zeros, are the number they write; `d.f` is the number that `df` writes over ten to the length of `f`; a leading minus negates |
| `TemplateSyntax.WholeNumberReads` | ui_mockups/LC Connect Admin Dashboard/support.js:231 | The text of a natural number evaluates to that number |
| `TemplateSyntax.PathReads` | ui_mockups/LC Connect Admin Dashboard/support.js:263-294 | A name is looked up in the values and a further name or key in what came before; in a missing value nothing is looked up and the result is undefined |
| `TemplateSyntax.ComparisonReads` | ui_mockups/LC Connect Admin Dashboard/support.js:211-225 | What each of the four operators answers for two printed operands, by their values |
| `TemplateSyntax.LooseEqTable` | ui_mockups/LC Connect Admin Dashboard/support.js:220-223 | Loose equality as ECMAScript lays it down: symmetric, null and undefined equal to each other alone, equality within a type, otherwise by number and primitive |
| `TemplateSyntax.TruthTable` | ui_mockups/LC Connect Admin Dashboard/support.js:226 | Exactly undefined, null, false, zero, NaN and the empty string count as false |
| `TemplateSyntax.NothingToRead` | ui_mockups/LC Connect Admin Dashboard/support.js:206-207 | Whitespace alone, and a path that breaks off after its dot, are undefined |
| `TemplateSyntax.PaddingIsIgnored` | ui_mockups/LC Connect Admin Dashboard/support.js:206-207 | Whitespace around an expression never changes its value |
| `TemplateSyntax.OperatorFound` | ui_mockups/LC Connect Admin Dashboard/support.js:248-262 | Between two printed operands the scan finds the printed operator and reads it back |
| `TemplateSyntax.EqualResolves` | ui_mockups/LC Connect Admin Dashboard/support.js:211-225 | A printed comparison evaluates to its operator applied to the values of both operands |
| `TemplateSyntax.ParenResolves` | ui_mockups/LC Connect Admin Dashboard/support.js:208-210 | Parentheses around balanced text change nothing |
| `TemplateSyntax.NegationResolves` | ui_mockups/LC Connect Admin Dashboard/support.js:226 | `!` before an operand that is no comparison negates the truth of that operand |
| `TemplateSyntax.PathWalked` | ui_mockups/LC Connect Admin Dashboard/support.js:263-294 | Walking printed segments follows the tree's segments, keys evaluated on the way |
| `TemplateSyntax.QuotedLiteralIff` | ui_mockups/LC Connect Admin Dashboard/support.js:211-234 | A quoted text is its content exactly when no operator is found in it |
| `TemplateSyntax.QuotedComparison` | ui_mockups/LC Connect Admin Dashboard/support.js:211-234 | The quoted text `'a==b'` does not evaluate to its content |
| `TemplateSyntax.ChainGroupsRight` | ui_mockups/LC Connect Admin Dashboard/support.js:211-225 | An unparenthesised chain of two comparisons compares the first operand with the result of the second comparison |
| `TemplateSyntax.GroupingsAgreeIff` | ui_mockups/LC Connect Admin Dashboard/support.js:211-225 | For strict equality, exactly when grouping to the right and to the left agree, by the three values and the two negations |
| `TemplateSyntax.ChainDiffers` | ui_mockups/LC Connect Admin Dashboard/support.js:211-225 | `null===null===true` is false, where grouping to the left gives true |
| `DeckKeys.NextSlideIds` | ui_mockups/LC Connect Admin Dashboard/support.js:499-510 | The backward scan gives each child the id of the next element when that is a slide |
| `DeckKeys.WalkDeckChildren` | ui_mockups/LC Connect Admin Dashboard/support.js:493-542 | Keys are returned exactly when no child rules them out, one per kept child, each a function of the child's place alone |
| `DeckKeys.KeysDistinct` | ui_mockups/LC Connect Admin Dashboard/support.js:511-541 | Whenever there are keys, they are pairwise distinct as strings, across slides, whitespace and positions |
| `DeckKeys.BlankKeysDiffer` | ui_mockups/LC Connect Admin Dashboard/support.js:513-520 | Numbered whitespace keys never meet, neither within one base nor across bases |
| `DeckKeys.KeyableIff` | ui_mockups/LC Connect Admin Dashboard/support.js:511-541 | Keys exist exactly when no visible text stands beside the slides, every element is auxiliary or a slide with eight hexadecimal digits for an id, and no id occurs twice |
| `DeckKeys.KeysAreStable` | ui_mockups/LC Connect Admin Dashboard/support.js:493-542 | Inserting or removing one slide, with the whitespace before it, leaves the keys of all other slides and of all other whitespace as they were |
| `LikeSearch.EscapedIsPerCharacter` | backend/app/shared/text_search.py:12 | The three chained replaces equal one escape per character |
| `LikeSearch.PatternIsSubstringSearch` | backend/app/shared/text_search.py:6-13 | For every text and subject the pattern is well formed and matches exactly when the text is a substring |
| `LikeSearch.IlikeIsFoldedSubstringSearch` | backend/app/shared/text_search.py:6-13 | The same up to a character fold on both sides, for ILIKE |
| `RateLimit.RateLimiter.Make` | backend/app/shared/rate_limit.py:62-79 | Refuses a capacity or period that is not positive; otherwise an empty limiter that refills a full bucket per period |
| `RateLimit.RateLimiter.Allow` | backend/app/shared/rate_limit.py:81-93 | Answers and stores what the bucket rule says, for this key only |
| `RateLimit.DiscardForgets` | backend/app/shared/rate_limit.py:116-118 | A discarded key answers every later call as if it had never been used, and no other key notices |
| `RateLimit.RateLimiter.Prune` | backend/app/shared/rate_limit.py:120-126 | The loop removes exactly the buckets last used before the cutoff and counts them |
| `RateLimit.LevelIsRoom` | backend/app/shared/rate_limit.py:81-93 | The tokens in a bucket are the largest amount that keeps every window up to now within capacity plus refill |
| `RateLimit.GrantedIffAdmissible` | backend/app/shared/rate_limit.py:81-93 | After any calls in time order, a call is granted exactly when every window ending with it stays within capacity plus refill; no bucket is mentioned |
| `RateLimit.WindowBound` | backend/app/shared/rate_limit.py:81-93 | In any window the granted cost is at most capacity plus refill times its length |
| `RateLimit.SilenceRefills` | backend/app/shared/rate_limit.py:84-91 | A call within capacity is granted after as much silence as refills its cost |
| `RateLimit.PruneInvisibleIff` | backend/app/shared/rate_limit.py:120-126 | Prunes anywhere in any run change no answer, for any key, exactly when the idle time covers a full refill |
| `RateLimit.DeniedCallIsInvisible` | backend/app/shared/rate_limit.py:89-93 | A denied call changes no later answer for any key |
| `RateLimit.TtlCoversRefill` | backend/app/shared/rate_limit.py:50-51 | The expiry of the Redis key is never shorter than a full refill |
| `RateLimit.LuaAgreesWithMemory` | backend/app/shared/rate_limit.py:30-53 | With keys expiring, the script answers every run as the in-memory limiter does |
| `AccountDeletion.AccountStore.FirstCandidate` | backend/app/features/account/service.py:61-71 | The first candidate is an active member other than the leaver, an admin if there is one, else the earliest joiner |
| `AccountDeletion.AccountStore.ReassignOrDeleteOwnedGroups` | backend/app/features/account/service.py:56-77 | The loop, in whatever order, ends in the declarative result: each owned group handed to a successor or gone |
| `AccountDeletion.AccountStore.DeleteAccount` | backend/app/features/account/service.py:117-143 | Reassignment, then leaving every group chat, on the whole state |
| `AccountDeletion.DeletionKeepsGroupsOk` | backend/app/features/account/service.py:125-143 | Afterwards every group's owner is an active member and the only one with the owner role |
| `AccountDeletion.BrokenInBetweenIff` | backend/app/features/account/service.py:125-136 | Between the two steps that invariant holds exactly when no owned group has another active member |
| `AccountDeletion.NoTraceInGroups` | backend/app/features/account/service.py:125-143 | No group and no group membership refers to the deleted user |
| `AccountDeletion.FateOfOwnedGroup` | backend/app/features/account/service.py:57-77 | A group with another active member goes to a first-ranked one; otherwise group, chat, members and messages are gone |
| `AccountDeletion.NewOwnerRank` | backend/app/features/account/service.py:57-77 | The new owner of a group is an admin who joined no later than any other admin, if an active member is one, else a member who joined no later than any other |
| `AccountDeletion.OthersUntouched` | backend/app/features/account/service.py:117-143 | Everyone else's memberships, the user's direct chats, other groups and messages in surviving chats are unchanged, but for a successor's role in its own group's chat |
| `AdminScopes.AdminStore.InviteAdmin` | backend/app/features/admin/admins.py:106-191 | Refused in the stated order of errors with nothing changed, or the row and membership granted |
| `AdminScopes.AdminStore.DemoteIfNoScopesLeft` | backend/app/features/admin/admins.py:220-238 | Whoever holds no scope any more gets the role of their email, else student |
| `AdminScopes.AdminStore.RevokeAdminMembership` | backend/app/features/admin/admins.py:241-287 | Every refusal leaves the tables alone; success revokes one membership and demotes when it was the last |
| `AdminScopes.AdminStore.ResignAdminMembership` | backend/app/features/admin/admins.py:290-335 | The loop revokes all and only the actor's memberships; a super admin is refused |
| `AdminScopes.DemoteKeepsRest` | backend/app/features/admin/admins.py:220-238 | Demotion touches only the role of that user, and never leaves a scopeless user as admin |
| `AdminScopes.TombstoneIsNotCampus` | backend/app/shared/email_roles.py:17-33 | No email that normalizes can select a deleted account's row |
| `AdminScopes.InviteKeepsInv` | backend/app/features/admin/admins.py:106-191 | Inviting keeps the invariant, in particular never revives a deleted account |
| `AdminScopes.RevokeKeepsInv` | backend/app/features/admin/admins.py:241-287 | Revoking keeps the invariant, in particular some super admin |
| `AdminScopes.ResignKeepsInv` | backend/app/features/admin/admins.py:290-335 | Resigning keeps the invariant |
| `AdminScopes.DeleteKeepsInv` | backend/app/features/account/service.py:80-114 | Deleting an account keeps the invariant: the last super admin cannot, and a deleted user keeps no active scope |
| `AdminScopes.SyncKeepsInv` | backend/app/shared/email_roles.py:57-61 | Role sync neither makes nor unmakes an admin |
| `AdminScopes.RunKeepsInv` | backend/app/features/admin/admins.py:106-335 | Over every run a super admin remains, every active membership is of a live admin, and a live user is admin exactly while holding a scope |
| `AdminScopes.GrantsNeedRank` | backend/app/features/admin/admins.py:112-114 | A membership only ever becomes active by an invitation from a super admin, or from a school admin for the three operational scopes |
| `AdminScopes.LossesHaveCause` | backend/app/features/admin/admins.py:241-335 | A membership only ever becomes inactive when someone of such rank revokes it, its holder resigns without being a super admin, or its holder deletes the account |
| `AdminScopes.InviteSucceedsIff` | backend/app/features/admin/admins.py:106-191 | Exactly when an invitation succeeds and which error it meets otherwise; it grants that one membership, makes the user a linked admin and changes nothing else |
| `AdminScopes.RevokeSucceedsIff` | backend/app/features/admin/admins.py:241-287 | Exactly when a revoke succeeds, by who holds what, and which error it meets otherwise; it takes that one membership and settles its holder's role |
| `AdminScopes.ResignSucceedsIff` | backend/app/features/admin/admins.py:290-335 | Resigning succeeds exactly for holders of a scope other than super admins, and gives up all their scopes and no others |
| `AdminScopes.DeleteSucceedsIff` | backend/app/features/account/service.py:80-114 | Deletion is refused exactly for the only super admin; the account then has no scope, no email and no login |
| `AdminScopes.RoleOfAddress` | backend/app/shared/email_roles.py:17-54 | The role an address stands for, by its domain after the last `@` and the test settings; never admin |
| `AdminScopes.SyncGivesRole` | backend/app/shared/email_roles.py:57-61 | A sync is refused exactly for a non-admin with an address of no role; otherwise it gives that role, leaves admins alone, and repeating it changes nothing |
| `AdminScopes.NoEscalation` | backend/app/features/admin/admins.py:39-59 | A run in which no super admin acts adds no super admin and no school admin |
| `AdminScopes.LastSuperAdminStays` | backend/app/features/admin/admins.py:248-268 | The only super admin is still one after any single request, their own or another's |
| `Publishing.Publisher.PublishSubmission` | backend/app/shared/employer_publishing.py:38-74 | Uses the linked post or creates, marks and links one before it goes live; an archived post is a conflict |
| `Publishing.Publisher.ApproveSubmission` | backend/app/features/admin/employers.py:216-249 | Approves a pending submission once its post is live; otherwise nothing changes |
| `Publishing.NextKeepsInv` | backend/app/shared/employer_publishing.py:38-74 | Every commit, crash, retry, rejection, archiving and publishing by hand keeps: whatever an attempt has published is the linked post of its submission, and whatever is published was published by an attempt or by hand |
| `Publishing.AtMostOneLivePost` | backend/app/shared/employer_publishing.py:43-46 | Whatever else happens, attempts ever publish at most one post per submission: the linked one, attributed to the employer and limited to scholars |
| `Publishing.SecondLivePostIsByHand` | backend/app/features/campus_hub/publishing.py:231-278 | A live post of a submission that is not the linked one was published by hand |
| `Publishing.TwoLivePosts` | backend/app/features/campus_hub/publishing.py:231-278 | A run in which an orphan is published by hand and the retry's own post goes live too, the orphan open to everyone |
| `Publishing.ApprovedIsLive` | backend/app/features/admin/employers.py:216-249 | The linked post of an approved submission has been published |
| `Publishing.LinkIsStable` | backend/app/shared/employer_publishing.py:45-48 | Once set, the link never changes |
| `Publishing.CrashOrphans` | backend/app/shared/employer_publishing.py:64-69 | A crash between creating the draft and linking it leaves a post nothing refers to |
| `Publishing.OrphanNeedsHand` | backend/app/shared/employer_publishing.py:53-73 | Such a post is never linked or published by any attempt, and is live only if someone published it by hand |
| `Publishing.AttemptIsRun` | backend/app/features/admin/employers.py:216-249 | An approval without a crash is a run of those commits, so their properties hold for it |
| `Publishing.ApprovalCompletes` | backend/app/features/admin/employers.py:216-249 | Approval leaves the submission approved and linked, its post published, a new one attributed to the employer and limited to scholars, and every other row as it was |
| `Publishing.RejectLeavesLiveIff` | backend/app/features/admin/employers.py:252-283 | A rejection leaves the submission's published post behind exactly when the linked post is published already, unlinked posts published by hand aside |
| `Publishing.LiveRejectionHadCrash` | backend/app/features/admin/employers.py:216-283 | Over every run, a rejected submission whose linked post went live has seen an attempt crash between publishing and approving, unless the post was published by hand |
| `Publishing.CrashAllowsLiveRejection` | backend/app/features/admin/employers.py:216-283 | After every such crash a rejection is accepted, and the post stays live |
| `Publishing.RejectedWhileLive` | backend/app/features/admin/employers.py:252-283 | From empty tables, a run that ends with a rejected submission whose post is live |
| `Backfill.Store.CreateDmConversations` | backend/app/shared/conversation_backfill.py:16-21 | Inserting one row per match without a conversation, in any order, ends in the declarative table |
| `Backfill.Store.CreateDmMembers` | backend/app/shared/conversation_backfill.py:24-35 | Inserting the selected rows under the unique key, in any order, succeeds with exactly the missing members unless some direct conversation of a self-match lacks its user; then all is undone |
| `Backfill.ClashIsTwice` | backend/app/shared/conversation_backfill.py:24-35 | In that case the selected rows name one key twice |
| `Backfill.ClashIff` | backend/app/shared/conversation_backfill.py:16-35 | The second statement fails exactly when the tables before the first one have a match of a user with itself that has no conversation, or whose direct conversation lacks the user |
| `Backfill.SelfMatchFails` | backend/app/shared/conversation_backfill.py:16-35 | One self-match without a conversation makes the backfill fail |
| `Backfill.Store.LinkMessages` | backend/app/shared/conversation_backfill.py:38-44 | Updating row by row, in any order, links exactly the unlinked messages of matches that have a conversation |
| `Backfill.Store.RunBackfill` | backend/app/shared/conversation_backfill.py:46-50 | The three statements equal the declarative result, or nothing is kept; which of the two is decided by the self-matches in the tables before the call |
| `Backfill.BackfillIsComplete` | backend/app/shared/conversation_backfill.py:14-50 | Every match ends with exactly one conversation, direct ones with both users, and every message of a match with that conversation |
| `Backfill.BackfillOnlyAdds` | backend/app/shared/conversation_backfill.py:14-50 | Rows that existed are unaltered but for the link of an unlinked message, which goes to the conversation of its match; new conversations and memberships have the columns the statements give them, with the age of the match |
| `Backfill.BackfillIsIdempotent` | backend/app/shared/conversation_backfill.py:14-50 | Running it again creates nothing and changes nothing |
| `Backfill.BoundaryStore.BackfillReadBoundary` | backend/app/shared/conversation_backfill.py:57-68 | Every unset boundary becomes the newest received and read message, if any; set ones stay |
| `Backfill.BoundaryIsLatestRead` | backend/app/shared/conversation_backfill.py:53-68 | On the columns: a set boundary stays, an unset one becomes the latest by time and id of the messages received and read, and stays unset exactly when there is none |
| `Backfill.ReadStaysRead` | backend/app/shared/conversation_backfill.py:53-68 | No message that was read comes back as unread |
| `Backfill.UnreadPreservedIff` | backend/app/shared/conversation_backfill.py:53-68 | The unread set is the same before and after exactly when the reads form a prefix |
| `Retention.Store.SelectOldest` | backend/app/shared/message_retention.py:104-109 | A batch is distinct, eligible, oldest first, none older left out, and short only when nothing is left |
| `Retention.BatchMeans` | backend/app/shared/message_retention.py:104-109 | On the columns: a batch holds messages deleted before the cutoff, in the order of deletion, none older left out |
| `Retention.Store.DeleteMessages` | backend/app/models/messaging.py:136-138 | Deleting row by row, in any order, each with its foreign-key actions, equals one declarative delete of the whole batch |
| `Retention.Store.PurgeInBatches` | backend/app/shared/message_retention.py:101-114 | For every batch size of at least 1 the loop ends, having deleted all eligible messages and counted them; the batches do not show |
| `Retention.Store.PurgeSoftDeletedMessages` | backend/app/shared/message_retention.py:64-131 | Bad arguments and dry runs change nothing; an applied purge ends in the declarative result, with purged equal to eligible |
| `Retention.PurgeIsExact` | backend/app/shared/message_retention.py:73-82 | Exactly the messages with a deletion time before the cutoff go; exactly the recent edits of surviving messages stay; report text is unchanged |
| `Retention.NothingDangles` | backend/app/models/messaging.py:54-67 | No reply, edit, reaction, boundary or report points at a purged message, and references to surviving ones are kept |
| `Retention.InterruptedRunIsHarmless` | backend/app/shared/message_retention.py:101-114 | A run cut off between two commits, then completed with the same or a later cutoff, leaves what the later run alone would |
| `Retention.PurgesCompose` | backend/app/shared/message_retention.py:64-131 | A purge followed by one with the same or a later cutoff leaves what the later one alone would |
| `Retention.ScheduleIsLastPurge` | backend/app/shared/message_retention.py:64-131 | Purging at any nondecreasing sequence of cutoffs comes to purging once at the last |
| `Retention.EditsPurgedIsAllIff` | backend/app/shared/message_retention.py:116-122 | The reported edit count is all the history removed exactly when no purged message had any |
| `ActivityCapacity.Store.JoinActivity` | backend/app/features/activities/service.py:55-70 | Not found, already in, full or joined, and a row is added only in the last case |
| `ActivityCapacity.Store.LeaveActivity` | backend/app/features/activities/service.py:73-88 | Removes exactly the user's row; a missing or cancelled activity is not found |
| `ActivityCapacity.Store.UpdateActivity` | backend/app/features/activities/service.py:125-145 | A partial edit is refused on a bad end, a limit below the roster or a null start, else stored |
| `ActivityCapacity.EditStores` | backend/app/features/activities/service.py:138-145 | An accepted edit stores each of start, end and limit that it gives, keeps those it does not, and never touches the cancellation |
| `ActivityCapacity.EditRefusedIff` | backend/app/features/activities/service.py:125-145 | Exactly when each refusal is given, as conditions on the edit, the row and its roster |
| `ActivityCapacity.EditKeepsInv` | backend/app/features/activities/service.py:131-137 | An accepted edit keeps roster within limit, end after start, and what every open join already checked |
| `ActivityCapacity.NextKeepsInv` | backend/app/features/activities/service.py:55-88 | Every statement, crash, leave, edit, cancellation and creation keeps the invariant |
| `ActivityCapacity.NeverOverCapacity` | backend/app/features/activities/service.py:55-70 | Under every interleaving no activity is over its limit, nobody is on a roster twice, and no join meets the unique index |
| `ActivityCapacity.JoinsAreAtomic` | backend/app/features/activities/service.py:55-70 | Each join takes effect at its last statement, with the effect and answer of the whole operation run alone at that moment |
| `ActivityCapacity.AnswerIs` | backend/app/features/activities/service.py:55-70 | Which answer a join gets, as conditions on the rows |
| `ActivityCapacity.NoStatementFails` | backend/app/features/activities/service.py:55-70 | Over every run, no statement of a join ends in an error |
| `ActivityCapacity.JoinsAnswered` | backend/app/features/activities/service.py:55-70 | Without crashes, open joins all end with an answer |
| `ActivityCapacity.RefusedOnlyWhenFull` | backend/app/features/activities/service.py:66-68 | Full is answered only under the lock, to someone not on the roster, when the roster is exactly at the limit |
| `ActivityCapacity.NoDeadlock` | backend/app/features/activities/service.py:61-63 | An unfinished join can take its next statement, or the holder of the lock it waits for can |
| `ActivityCapacity.RequestsFinish` | backend/app/features/activities/service.py:55-70 | However they are scheduled, open joins take a bounded number of statements in all, and end with everyone finished |
| `ActivityCapacity.LeaveUndoesJoin` | backend/app/features/activities/service.py:55-88 | Leaving undoes joining: whoever else joined and left in between, the tables end as if the user had never joined |
| `AuthLinking.Session.LinkExistingAuthUsers` | backend/app/shared/auth_linking.py:45-97 | Dry run and apply give the same report, that of the committed rows; an apply stores all links, or fails and stores none exactly when two users got the same id |
| `AuthLinking.Session.Commit` | backend/alembic/versions/a1b2c3d4e5f6_add_auth_user_id.py:16-22 | A commit is accepted exactly when no two users share an id |
| `AuthLinking.WhereReported` | backend/app/shared/auth_linking.py:57-97 | Every user is in exactly one of the six outcomes, in the place of the report that says so, and the counts add up |
| `AuthLinking.OutcomeIs` | backend/app/shared/auth_linking.py:57-97 | Each of the six outcomes as a condition on the row, the other rows and the directory's answer |
| `AuthLinking.CountsMean` | backend/app/shared/auth_linking.py:57-67 | The linked count is the number of users with an id, the deleted count that of deleted users without one |
| `AuthLinking.ApplyStores` | backend/app/shared/auth_linking.py:79-97 | An apply gives the directory's id to exactly the live users without one whose id nobody holds, and changes nothing else |
| `AuthLinking.AppliedIsUniqueIff` | backend/app/shared/auth_linking.py:79-96 | Ids stay distinct exactly when no two users are about to get the same one |
| `AuthLinking.InjectiveLookupApplies` | backend/app/shared/auth_linking.py:45-97 | With distinct emails and a directory that is injective on unlinked live ones, an apply never fails and ids are distinct |
| `AuthLinking.SecondApplyLinksNobody` | backend/app/shared/auth_linking.py:45-97 | A second apply links nobody and changes nothing |
| `AuthLinking.GateMeansAllLinked` | backend/app/shared/auth_linking.py:30-37 | The gate is open exactly when every live account is linked once the links are applied |
| `AuthLinking.AppliesIffSpellingsDiffer` | backend/app/shared/auth_linking.py:68-96 | With a lookup that strips and lower-cases, an apply succeeds exactly when no two matched users' emails differ only in that |
| `AuthLinking.CleanDryRunMayNotApply` | backend/app/shared/auth_linking.py:79-96 | Two spellings of one address for which the dry run is clean and the apply fails |
| `TextClip.CleanIsJoinSplit` | backend/app/shared/employer_publishing.py:29 | Collapsing and stripping changes no word, and equals joining the split words |
| `TextClip.CleanIsIdentityIff` | backend/app/shared/message_snippets.py:22 | Cleaned text has single inner blanks only, and exactly such text is left alone by cleaning |
| `TextClip.BlankCharacters` | backend/app/shared/message_snippets.py:14-22 | The characters that cleaning takes for blanks, one by one |
| `TextClip.SnippetIsPrefix` | backend/app/shared/message_snippets.py:17-29 | Empty when deleted; else the cleaned text, or exactly its first limit characters cut at their last blank when that is in the second half of the limit, less all trailing punctuation, and an ellipsis; never over limit + 1 |
| `TextClip.SnippetIsIdempotent` | backend/app/shared/message_snippets.py:17-29 | A snippet of a snippet is the same snippet |
| `TextClip.ClipIsPrefix` | backend/app/shared/link_preview.py:360-368 | Nothing exactly for blank text; else the cleaned text, or the longest prefix that leaves room for the ellipsis; never over the limit |
| `TextClip.ClipTwice` | backend/app/shared/link_preview.py:360-368 | Clipping twice is clipping once to the shorter limit |
| `TextClip.SecondClipIsNoOp` | backend/app/shared/link_preview.py:129-152 | The second pass over a preview changes nothing, a preview fails exactly when every field is blank, and its limits are 200, 200, 300 and 2000 |
| `TextClip.SummaryIsPrefix` | backend/app/shared/employer_publishing.py:27-35 | The whole words of the first 399 characters, less trailing punctuation, and an ellipsis; never over 400 |
| `TextClip.SummaryIsIdempotent` | backend/app/shared/employer_publishing.py:27-35 | A summary of a summary is the same, and only a blank description has the empty one |
| `Presence.AudienceIs` | backend/app/shared/presence.py:32-78 | Someone is in the audience exactly when linked, unblocked either way, the viewed person does not hide, and the viewer has a profile that shows |
| `Presence.SymmetricIff` | backend/app/shared/presence.py:32-78 | Two people see each other alike, exactly unless one of them has no profile row and nothing else keeps them apart |
| `Presence.PresenceIsSymmetric` | backend/app/shared/presence.py:35-39 | With profiles for all linked people the relation is symmetric, and irreflexive when nobody is matched with themselves |
| `Presence.SeesSelfIff` | backend/app/shared/presence.py:43-78 | Someone is in their own audience exactly through an open self-match while showing presence and not blocking themselves |
| `Presence.HidingIsReciprocal` | backend/app/shared/presence.py:25-42 | Hiding, or a block in either direction, cuts both directions |
| `Featured.ScoreRange` | backend/app/features/activities/featured.py:67-83 | The score of anything upcoming is strictly between -0.33 and 1 |
| `Featured.ScoreGain` | backend/app/features/activities/featured.py:67-83 | Another participant raises the score of an activity without a limit, and of one with a limit until it is full, by the stated amount |
| `Featured.LastSeatLowers` | backend/app/features/activities/featured.py:73-83 | Taking the last seat lowers the score exactly when the largest count in the pool is above one |
| `Featured.UnlimitedIsThreeTenths` | backend/app/features/activities/featured.py:72-77 | An activity without a limit scores as one that is three tenths full |
| `Featured.JoinedScore` | backend/app/features/activities/featured.py:80-81 | Having joined costs the viewer's score of an activity exactly 0.15 |
| `Featured.PickIsUniqueMax` | backend/app/features/activities/featured.py:97-106 | The pick is the one candidate whose (score, smaller id) is above all others', and there is none only without candidates |
| `Featured.PickIgnoresOrder` | backend/app/features/activities/featured.py:97-106 | Lists with the same candidates give the same pick |
| `Featured.SoonerBeatsLater` | backend/app/features/activities/featured.py:68-83 | Between candidates that differ only in their start the sooner one ranks higher, by 0.45 of the difference of the decays |
| `Featured.Board.FeatureActivity` | backend/app/features/admin/activities_router.py:68-101 | Refused outside the next 60 days or for a missing or cancelled activity; otherwise the pin is set and every other running pin cleared |
| `Featured.AtMostOnePinned` | backend/app/features/admin/activities_router.py:81-88 | Over every run with a clock that does not go back, at most one activity is pinned at any time |
| `Featured.FeatureWins` | backend/app/features/admin/activities_router.py:81-89 | An accepted pin is the only one, until its end; other running pins are cleared and nothing else changes |
| `Featured.PinIsForEveryone` | backend/app/features/activities/featured.py:109-128 | A pin that is on is shown to every viewer |
| `Featured.ShownIs` | backend/app/features/activities/featured.py:109-138 | An activity is shown exactly when its own pin runs, it is not cancelled and not over, or no pin is like that and it is the pick |
| `Featured.PickOfView` | backend/app/features/activities/featured.py:67-106 | Someone who has not joined the general pick is shown it too; someone who has, exactly when it still leads with their penalties |
| `Featured.SameForEveryViewIff` | backend/app/features/activities/featured.py:67-106 | Whatever viewers have joined, all have the general pick, exactly when it has no participants or still leads with the penalty |
| `Featured.SameForEveryoneIff` | backend/app/features/activities/featured.py:109-138 | Without a pin, everyone is shown the same activity exactly when the general pick still leads for each of its own participants |
| `Featured.ListingDoesNotMatter` | backend/app/features/activities/featured.py:130-136 | Unless equal starts are cut off at the 60th place, any two results of the candidate query have the same activities and show the viewer the same one |
| `Featured.ViewersMayDiffer` | backend/app/features/activities/featured.py:80-81 | Two listed activities with a participant each, and two people who are shown different ones |

## Assumptions

* No deployment lists `deleted.invalid` as an allowed or test domain (`AdminScopes.SettingsOk`).
* A case fold leaves `%`, `_` and the backslash alone and makes no new ones (`LikeSearch.IsCaseFold`).
* `create_post` and `publish_post` are one commit each; attempts on one submission do not overlap and
  no post is deleted in between. Posts may be archived, and drafts published by hand, at any moment.
* The clock of the Redis script is the caller's; times in one run do not go back.
* Rows referred to by an operation are those the database would return; a new id is unused.

## Left out

- HTTP routing, authentication, Supabase, storage, email, push, audit rows and the React portals.
- The Redis transport and its fallback to memory, and `prune_idle_buckets`, which only sums prunes.
- Floating-point rounding, in the limiter, the scores and the template numbers; Lua's number formatting.
- RateLimit.SilenceRefills: calls with a cost above the capacity are never granted and are not part of it.
- TemplateExpr.Resolve: numbers are reals with NaN; BigInt, Symbol and exceptions thrown by getters are not modelled.
- TemplateSyntax.RoundTrip: in string literals brackets match and no operator stands outside them; QuotedLiteralIff says what happens otherwise.
- TemplateSyntax.GroupingsAgreeIff: loose equality, whose conversions are the engine's.
- Featured.SameForEveryoneIff: viewers whose listings differ by a tie cut off at the 60th place.
- StaffThreads.RequestsAgree: a person who left a thread may be given a new one, so agreement is stated while nobody left.
- AdminScopes.RunKeepsInv: requests are serial, since the code takes no lock that covers concurrent revocations.
- Publishing.AtMostOneLivePost: overlapping attempts on one submission; the code takes no lock there.
- Featured.AtMostOnePinned: pins are serial; two concurrent requests for different activities lock different rows.
- ActivityCapacity.NeverOverCapacity: an edit counts and writes in one step that does not overlap a join; the code does not lock between the two.
- ActivityCapacity.Store.UpdateActivity: the text fields, which are stripped and stored.
- Rows for the single statements `discard`, `unfeature_activity` and the DELETE of one conversation: they are modelled, and the rows name the lemmas that say what they achieve.
- AccountDeletion.AccountStore.DeleteAccount: activities, the social graph and profile scrubbing, which are single statements on other tables; the admin step is in AdminScopes.
- Backfill.UnreadPreservedIff: unread counts of deleted messages and of groups.
- Retention.Store.PurgeSoftDeletedMessages: writes by others during a run.
- TextClip.SnippetIsPrefix: limits below 0, and TextClip.ClipTwice limits below 1, which no caller passes.
- Featured: the reason shown beside a pick.
- Account export, dashboards, appeals, reports, program memberships, last-seen records, config parsing and most migrations.
