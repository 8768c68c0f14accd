# platforum: a verified model of the forum's business rules

platforum is a Django application that hosts many forums. A user joins a forum
through a membership (a `ForumAccount`). Members post topics and messages in
categories and sub-categories, like messages, receive notifications and earn
badges. The forum master moderates the forum, and members exchange private
messages in conversations.

This project models the core of that application in Dafny: the model methods
(`forum/models/*.py`, `account/models.py`), the ownership guard
(`platforum_project/func/security.py`), the forum bootstrap
(`forum/default_data/default_forum_data.py`) and the state-changing and
list-filtering parts of the three view modules (`forum/views/forum.py`,
`forum/views/admin.py`, `forum/views/private.py`).

How the model is organised:

- **The database is a `Database` class** (module `Schema`). It has one `map`
  field per table, keyed by primary key, a `set` of likes, and one key counter
  `nextId` that every insert draws from.
- **Rows are datatypes.** ORM writes become methods that reassign those fields,
  each with a `modifies` clause naming the tables it touches.
- **`Valid()` is the store's invariant.** Every key is below `nextId`, and
  usernames, emails and forum names are unique.
  - These references must point to stored rows: an account's user, a topic's
    or message's author (when present), and a conversation's owner and contacts.
  - These references are only bounded by `nextId`: an account's forum, a
    category's forum, a sub-category's category, a topic's sub-category and a
    message's topic or conversation.
  - A notification's account and the likes are not constrained.
  - `Content.CascadeLeavesNoOrphans` shows separately that the content
    cascades leave no survivor naming a removed parent.
- **Every view is split in two.**
  - A *gate* function encodes the order in which the view performs its lookups
    and guards.
  - A method runs the gate, then performs the write.
- **The error a view raises is a value.** It is returned as `Fail(e)` or
  `Err(e)`: `NotFound` for `get_object_or_404`, `DoesNotExist` /
  `MultipleObjectsReturned` for `objects.get`, `PermissionDenied`, and so on.

**The author reference.** Topics and messages name their author as an
`Option<AccountId>`, the membership that wrote them. `None` is what
`on_delete=SET_NULL` leaves behind once the author is removed. The views and
the notifier read this reference as `account`; the model field is named
`user`. The model uses one reference, to the membership.

The private views compare *users*. They reach the user through the membership
that a conversation or a message names. Conversation owners and contacts are
memberships, and the store's invariant keeps them stored: deleting a user
removes the conversations it owns, with their messages (CASCADE), and its
places among contacts.

**Guards whose code is not part of this model** become parameters holding
their verdict:

- `verify_active_forum_account` is the `active: Outcome` parameter.
- `verify_forum_master_status` is the `master: Outcome` parameter.
- `user_has_active_forum_account` is the `guard: Result<AccountId>` parameter.
  The private views require that an `Ok` guard names a membership of the caller
  in the forum.

**Other inputs are parameters too.** The clock is an integer `now` / `today`.
`slugify`, `normalize_email`, `set_password` and `welcome_message` are function
parameters or values.

## Model

| member | source | states |
|---|---|---|
| Security.UserPermission | platforum_project/platforum_project/func/security.py:4-6 | passes exactly when the element's author equals the caller, otherwise fails with PermissionDenied; it is a function, so it changes no state |
| Security.NoModeratorOverride | platforum_project/platforum_project/func/security.py:5 | a forum master who is not the author is refused with PermissionDenied |
| Accounts.CheckRequiredFields | platforum_project/account/models.py:11-18 | passes iff username, email, first name and last name are all non-empty; otherwise reports the first empty one in that order with its ValueError text |
| Accounts.SuperuserFlags | platforum_project/account/models.py:27-33 | absent flags default to True; succeeds iff neither flag is given as False, always yielding (True, True); is_staff is checked before is_superuser |
| Accounts.CreateUser | platforum_project/account/models.py:10-24 | a missing field returns its ValueError with the store unchanged; a username or normalised email already stored fails with IntegrityError (email unique, line 38); otherwise exactly one user with the given names, normalised email and hashed password is added under a fresh key |
| Accounts.CreateSuperuser | platforum_project/account/models.py:26-34 | a refused flag returns its ValueError before create_user runs, store unchanged; once the flags pass, a missing field returns create_user's ValueError and a taken username or email returns IntegrityError, store unchanged each time; succeeds iff the flags pass and create_user's checks pass; the one new row holds the username, the normalised email, the names, the hashed password, and is_staff and is_superuser set |
| Accounts.RetrieveForumAccount | platforum_project/account/models.py:44-48 | Ok(None) iff the user has no membership in the forum; Ok(Some(a)) names that user's only membership there; two memberships make `get` raise MultipleObjectsReturned, which is not caught |
| Accounts.DetachTopics | platforum_project/forum/models/content.py:48 | every topic survives a user deletion; only an author among the removed memberships becomes None |
| Accounts.DetachMessages | platforum_project/forum/models/content.py:70 | every message survives a user deletion; only an author among the removed memberships becomes None |
| Accounts.LikesWithout | platforum_project/forum/models/interactions.py:28 | exactly the likes whose liker was not removed survive (CASCADE) |
| Accounts.NotificationsWithout | platforum_project/forum/models/interactions.py:5 | exactly the notifications of memberships that were not removed survive, unchanged (CASCADE) |
| Accounts.OwnedBy | platforum_project/forum/migrations/0016_remove_personalmessaging_user_one_and_more.py:34-39 | exactly the conversations whose owner is a removed membership go with it (CASCADE) |
| Accounts.ConversationsWithout | platforum_project/forum/migrations/0016_remove_personalmessaging_user_one_and_more.py:24-39 | a conversation survives iff its owner survives; a survivor loses exactly the removed memberships from its contacts and is otherwise unchanged |
| Accounts.MessagesIn | platforum_project/forum/models/content.py:72-73 | exactly the messages posted in the given conversations, which go with them (CASCADE) |
| Accounts.CloseConversations | platforum_project/forum/migrations/0016_remove_personalmessaging_user_one_and_more.py:34-39 | the removed memberships' conversations go with the messages posted in them and the likes on those; the other conversations only lose them from their contacts |
| Accounts.DeleteUser | platforum_project/forum/models/forum.py:16-57 | a user who masters a forum cannot be deleted (PROTECT) and nothing changes; otherwise the user and all its memberships go, with their likes and notifications, the conversations they own with those conversations' messages and likes, and their places among contacts; the other topics and messages stay with the author detached, and the store stays consistent (no owner, contact or author names a removed membership) |
| ForumModels.CleanThumbnail | platforum_project/forum/models/forum.py:33-35 | Forum.clean and, identically, ForumAccount.clean (lines 121-123): passes iff there is no image or it is at most 5·1024·1024 bytes; exactly 5 MiB passes, one byte more fails with the ValidationError |
| ForumModels.SavedSlug | platforum_project/forum/models/forum.py:28-31 | a non-empty slug is kept; an empty one becomes slugify(name) |
| ForumModels.SlugKept | platforum_project/forum/models/forum.py:28-31 | once a save stored a non-empty slug, a later save under any new name keeps it |
| ForumModels.WithActive | platforum_project/forum/models/forum.py:103-111 | only the membership's active flag takes the new value; every other field and every other membership is unchanged |
| ForumModels.WithActiveIdempotent | platforum_project/forum/models/forum.py:103-111 | setting the flag twice equals setting it once |
| ForumModels.Deactivate | platforum_project/forum/models/forum.py:103-106 | the accounts table becomes WithActive(old, a, false) |
| ForumModels.Activate | platforum_project/forum/models/forum.py:108-111 | the accounts table becomes WithActive(old, a, true) |
| ForumModels.MessageCount | platforum_project/forum/models/forum.py:117-119 | the count is at most the number of messages, and zero iff no message has this author |
| ForumModels.LikesReceived | platforum_project/forum/models/forum.py:68-70 | the count is at most the number of likes, and zero iff no like is on a message by this author |
| ForumModels.MessageCountAfterInsert | platforum_project/forum/models/forum.py:117-119 | storing a new message raises its author's message count by exactly one and leaves every other count unchanged |
| ForumModels.BadgeRules | platforum_project/forum/models/forum.py:80-90 | nine conditions, in the order the dictionary lists them, with the nine catalog descriptions |
| ForumModels.Grants | platforum_project/forum/models/forum.py:92-96 | never removes a badge; it only adds catalog badges |
| ForumModels.GrantsExact | platforum_project/forum/models/forum.py:92-96 | with a catalog that covers the rules, the loop completes, and afterwards the badges are exactly those held before plus the unique badge of each rule that holds |
| ForumModels.GrantsFailWithoutCatalog | platforum_project/forum/models/forum.py:93-94 | a rule that holds whose description has zero or several catalog rows makes the call fail; when no holding rule has several rows, the failure is DoesNotExist |
| ForumModels.GrantsPassHolds | platforum_project/forum/models/forum.py:92-96 | a completed loop means that every rule that holds had one catalog row, and its badge is held |
| ForumModels.GrantsNothingNew | platforum_project/forum/models/forum.py:95-96 | when every earned badge is already held, the loop completes and adds nothing |
| ForumModels.BadgesIdempotent | platforum_project/forum/models/forum.py:76-96 | a second run with the same counts and date adds nothing; "Noo Badge" reads the badge count taken before the loop |
| ForumModels.BadgeOf | platforum_project/forum/tests/conftest.py:64-70 | in a full catalog, a description names exactly one badge |
| ForumModels.BadgeAwarded | platforum_project/forum/models/forum.py:80-96 | with the full catalog, the k-th badge is held afterwards iff it was held before or the k-th condition holds |
| ForumModels.BadgeThresholds | platforum_project/forum/models/forum.py:81-89 | with the full catalog, each badge is held afterwards iff it was held before or its condition holds: ≥10/50/100 messages, ≥10/50/100 likes (inclusive), under 4 days since joining, the forum-master flag, no badge before the run |
| ForumModels.GrantBadges | platforum_project/forum/models/forum.py:92-96 | the loop over the conditions ends with exactly Grants: the badges it leaves and whether a lookup raised |
| ForumModels.BadgesManager | platforum_project/forum/models/forum.py:72-96 | the evaluation leaves exactly Grants over the account's rules: its outcome is returned, only this account's badges change, and earlier additions stay when a lookup raises |
| Interactions.NoticesDistinguishable | platforum_project/forum/models/interactions.py:13-23 | a topic notice text never equals a conversation notice text |
| Interactions.Bumped | platforum_project/forum/models/interactions.py:11-12 | only the addressee's counter moves, by exactly one; every other field and every other account is unchanged |
| Interactions.OwnTopicSilent | platforum_project/forum/models/interactions.py:9-10 | a poster who is the topic's author changes nothing and gets None |
| Interactions.OtherTopicBumpsOnce | platforum_project/forum/models/interactions.py:10-12 | another poster raises the author's counter by exactly one and touches no other account or field |
| Interactions.OtherTopicNotifiesAuthor | platforum_project/forum/models/interactions.py:10-14 | another poster adds exactly one notification, under a fresh key, addressed to the author and not to the poster; a poster without a membership raises AttributeError before the notification is created |
| Interactions.ConversationAddressesOwner | platforum_project/forum/models/interactions.py:17-23 | the conversation notifier only ever notifies the owner and only moves the owner's counter, and only when the poster is someone else |
| Interactions.TopicNotified | platforum_project/forum/models/interactions.py:8-14 | None iff the poster is the topic's author; AttributeError iff they differ and one of them is absent, with no notification written; otherwise one notification to the author under the next key |
| Interactions.ConversationNotified | platforum_project/forum/models/interactions.py:16-23 | None iff the poster owns the conversation; DoesNotExist iff the owner row is missing (a consistent store rules this out), AttributeError iff the poster is absent, neither writing a notification; otherwise one notification to the owner under the next key |
| Interactions.NotifyTopic | platforum_project/forum/models/interactions.py:8-14 | the state and result are exactly TopicNotified's |
| Interactions.NotifyConversation | platforum_project/forum/models/interactions.py:16-23 | the state and result are exactly ConversationNotified's |
| Interactions.ToggleLike | platforum_project/forum/models/interactions.py:34-37 | the pair is present afterwards iff it was absent; every other pair is unchanged |
| Interactions.ToggleLikeTwice | platforum_project/forum/models/interactions.py:34-37 | toggling the same pair twice restores the like set |
| Interactions.ToggleLikeCommutes | platforum_project/forum/models/interactions.py:34-37 | toggles of two pairs commute |
| Interactions.LikesReceivedAfterToggle | platforum_project/forum/models/forum.py:68-70 | a toggle on an account's message moves that account's likes count by exactly one, up or down; any other toggle leaves it unchanged |
| Interactions.LikeUnlike | platforum_project/forum/models/interactions.py:33-37 | with a liker, the likes become ToggleLike(old, pair); without one the not-null liker column fails with IntegrityError and nothing changes; the store stays valid |
| Content.CreateTestCategory | platforum_project/forum/models/content.py:17-19 | adds exactly one category "Catégorie Test" in the forum, under a fresh key |
| Content.CreateTestSubcategory | platforum_project/forum/models/content.py:30-32 | adds exactly one sub-category "Sous catégorie Test" under the category |
| Content.CreateTopicTest | platforum_project/forum/models/content.py:63-65 | adds exactly one topic "Bienvenu(e)" by the author in the sub-category, neither pinned nor closed |
| Content.MessageTest | platforum_project/forum/models/content.py:85-87 | adds exactly one message with the welcome text by the author in the topic, not personal |
| Content.AuthorName | platforum_project/forum/models/content.py:78-80 | "Utilisateur banni" for an empty author reference, otherwise the username of the membership's user (Topic.author at lines 59-61 is the same) |
| Content.AuthorNameAfterUserDeleted | platforum_project/forum/models/content.py:59-80 | after its user is deleted, an author shows "Utilisateur banni"; every other author still shows the same username |
| Content.TopicsNewestFirst | platforum_project/forum/models/content.py:52-54 | lists exactly the given topics, each once (the length is the number of topics), in non-increasing creation order |
| Content.MessagesNewestFirst | platforum_project/forum/models/content.py:89-90 | lists exactly the given messages, each once (the length is the number of messages), in non-increasing creation order |
| Content.ForumTopics | platforum_project/forum/views/admin.py:22 | a topic is listed iff its sub-category's category belongs to the forum |
| Schema.LikesOff | platforum_project/forum/models/interactions.py:27 | exactly the likes on surviving messages remain (CASCADE) |
| Content.DeleteMessages | platforum_project/forum/models/interactions.py:27 | the messages go, with the likes on them |
| Content.DeleteTopics | platforum_project/forum/models/content.py:71 | the topics go, with their messages and the likes on those (CASCADE) |
| Content.DeleteSubCategories | platforum_project/forum/models/content.py:45 | the sub-categories go, with everything below them |
| Content.DeleteCategory | platforum_project/forum/models/content.py:24 | the category goes, with its sub-categories and everything below them |
| Content.CascadeLeavesNoOrphans | platforum_project/forum/models/content.py:24-71 | after a cascade, no surviving row refers to a removed parent, and conversation messages are never removed by it |
| Bootstrap.SavedForum | platforum_project/forum/default_data/default_forum_data.py:5-6 | the saved forum's master is the creating user, its name is the submitted one, and a given slug is kept |
| Bootstrap.WritesDone | platforum_project/forum/default_data/default_forum_data.py:4-11 | no write runs when the name is taken; otherwise exactly the writes before the first failing one run |
| Bootstrap.CreateForumWithData | platforum_project/forum/default_data/default_forum_data.py:4-11 | six writes in order at consecutive keys: the forum (master = user), one membership (active, not forum master), the test category, sub-category, topic and message, the last two by that membership; a failing write leaves the earlier rows in place |
| Bootstrap.OpenForum | platforum_project/forum/default_data/default_forum_data.py:6-7 | the forum row, then the membership of that forum, each present iff its write was reached |
| Bootstrap.SeedSections | platforum_project/forum/default_data/default_forum_data.py:8-9 | the test category in the new forum, then the test sub-category under it |
| Bootstrap.SeedThread | platforum_project/forum/default_data/default_forum_data.py:10-11 | the welcome topic in that sub-category, then the welcome message in the topic, both by the creator's membership |
| Bootstrap.CreatorAccountFound | platforum_project/account/models.py:44-48 | after a bootstrap, retrieve_forum_account finds the creator's new membership as the only one in the new forum |
| ForumViews.Index | platforum_project/forum/views/forum.py:32-38 | forum 404, then the caller's membership; a caller with one gets the badge evaluation, anyone else changes nothing |
| ForumViews.SubCategoryView | platforum_project/forum/views/forum.py:61-66 | the unpinned and pinned lists are disjoint, hold only topics with the matching flag, and together are exactly the sub-category's topics |
| ForumViews.AddTopicByActiveMember | platforum_project/forum/views/forum.py:100-101 | when the active-account guard's Pass means an active membership, a passed add_topic gate yields that membership as the author |
| ForumViews.AddTopicGate | platforum_project/forum/views/forum.py:98-102 | forum 404, then the active-account guard, then the sub-category 404; on success it yields the caller's membership |
| ForumViews.AddTopic | platforum_project/forum/views/forum.py:98-111 | a failing gate or invalid form writes nothing; a valid POST creates one topic by the caller's membership in the sub-category, then exactly one message with the submitted text in it |
| ForumViews.TopicPostGate | platforum_project/forum/views/forum.py:147-159 | the forum, sub-category and topic lookups (404) run before the active-account guard |
| ForumViews.PostInTopic | platforum_project/forum/views/forum.py:162-166 | the message is saved with the topic and the membership first; only then does the notifier run, on the updated store |
| ForumViews.TopicPost | platforum_project/forum/views/forum.py:147-166 | a failing gate or invalid form writes nothing; otherwise exactly PostedInTopic |
| ForumViews.LikeGate | platforum_project/forum/views/forum.py:199-203 | forum 404, then the active-account guard, then the message 404 |
| ForumViews.LikeUnlikeView | platforum_project/forum/views/forum.py:199-204 | the toggle happens only after the gate passes; the likes become ToggleLike of the caller's pair; the store stays valid |
| ForumViews.UpdateMessageGate | platforum_project/forum/views/forum.py:232-239 | passes iff every lookup and the active guard pass and the message's author is the caller's membership |
| ForumViews.UpdateMessage | platforum_project/forum/views/forum.py:232-244 | nothing changes unless the gate passes; then only the message's text (and its auto-now update time) changes |
| ForumViews.OwnershipNeedsAuthor | platforum_project/forum/views/forum.py:236-239 | when the active-account guard's Pass means an active membership, the edit gate (and likewise the delete gate at lines 280-283) passes only for a message whose stored author is the caller's membership, so a message without an author stays locked |
| ForumViews.DeleteMessageGate | platforum_project/forum/views/forum.py:278-283 | passes iff the forum, the active guard, the message lookup and the ownership guard pass |
| ForumViews.DeleteMessage | platforum_project/forum/views/forum.py:278-285 | deletes only after the gate passes, removing the message and its likes; the closing `Topic.objects.get` raises DoesNotExist for a missing topic |
| ForumViews.MembersList | platforum_project/forum/views/forum.py:309-313 | without a search, exactly the forum's active members; with one, exactly the forum's members whose username contains it ignoring case, active or not |
| ForumViews.SearchFindsBanned | platforum_project/forum/views/forum.py:309-313 | a banned member is absent from the plain list and found by searching for their username |
| ForumViews.MembersListView | platforum_project/forum/views/forum.py:305-313 | forum 404 and the active guard, then MembersList |
| ForumViews.MemberMessages | platforum_project/forum/views/forum.py:341 | exactly the messages written by the member in topics of this forum |
| ForumViews.MemberView | platforum_project/forum/views/forum.py:336-342 | the page holds min(5, n) distinct messages, where n is the number of the member's messages in this forum; they are drawn from those messages, newest first |
| ForumViews.MemberViewNewest | platforum_project/forum/views/forum.py:341-342 | no message left out is newer than one shown |
| ForumViews.QueryView | platforum_project/forum/views/forum.py:365-378 | as written: redirect iff the query is empty; otherwise every topic whose title contains it and every non-personal message whose text or topic title contains it, from any forum |
| ForumViews.QueryInForum | platforum_project/forum/views/forum.py:348-378 | the search scoped to the forum: only the forum's topics and the non-personal messages in them |
| ForumViews.QueryInForumIsRestriction | platforum_project/forum/views/forum.py:371-375 | the scoped answer is exactly the unscoped one restricted to the forum |
| ForumViews.QueryReachesOtherForums | platforum_project/forum/views/forum.py:371 | a topic of another forum whose title matches is returned by the search as written and not by the scoped one |
| AdminViews.AdminGate | platforum_project/forum/views/admin.py:15-18 | forum 404, then the caller's membership lookup, then the forum-master guard; on success it yields the membership |
| AdminViews.AdminItemGate | platforum_project/forum/views/admin.py:122-126 | the admin gate, then the target row's lookup with its own error |
| AdminViews.IndexAdmin | platforum_project/forum/views/admin.py:14-23 | the active and banned lists partition the forum's memberships by the active flag; topics and messages are exactly the forum's |
| AdminViews.MembersShown | platforum_project/forum/views/admin.py:57-61 | the forum's memberships that are not forum masters, narrowed by a case-insensitive username search when one is given |
| AdminViews.DisplayMembers | platforum_project/forum/views/admin.py:52-61 | the admin gate, then MembersShown |
| AdminViews.SearchNarrowsMembers | platforum_project/forum/views/admin.py:57-61 | a search result is a subset of the unsearched list |
| AdminViews.Flipped | platforum_project/forum/views/admin.py:46 | only the topic's pin flag is inverted; every other field and every other topic is unchanged |
| AdminViews.FlipTwice | platforum_project/forum/views/admin.py:46 | pinning twice restores the topics |
| AdminViews.PinGate | platforum_project/forum/views/admin.py:41-45 | forum 404, membership lookup, topic 404, then the forum-master guard |
| AdminViews.PinTopic | platforum_project/forum/views/admin.py:40-46 | nothing changes unless the gate passes; then the topics become Flipped |
| AdminViews.MemberStatusGate | platforum_project/forum/views/admin.py:68-73 | as written: the admin gate, the target looked up by key in every forum, and PermissionDenied for a forum master |
| AdminViews.MemberStatusGateInForum | platforum_project/forum/views/admin.py:68-73 | the scoped gate passes only for a membership of this forum, and implies the as-written gate |
| AdminViews.ToggleStatus | platforum_project/forum/views/admin.py:74 | an active member is deactivated, a banned one activated |
| AdminViews.ToggleTwice | platforum_project/forum/views/admin.py:74 | toggling twice restores the membership |
| AdminViews.MemberStatusView | platforum_project/forum/views/admin.py:67-74 | as written: nothing changes unless the gate passes; then the target's active flag is inverted |
| AdminViews.MemberStatusInForum | platforum_project/forum/views/admin.py:67-74 | the same, with the target scoped to the forum |
| AdminViews.MemberStatusCrossesForums | platforum_project/forum/views/admin.py:71 | the master of forum 1 passes the as-written gate on a member of forum 2; the scoped gate refuses with NotFound |
| AdminViews.Named | platforum_project/forum/views/admin.py:99-110 | the optional lines kept are exactly those with a non-empty name, never more lines than were read; their order is stated by AdminViews.NamedCons |
| AdminViews.NamedCons | platforum_project/forum/views/admin.py:99-110 | a named line is kept in front of the named remaining lines and an unnamed one is dropped, so the kept lines keep the form's order |
| AdminViews.SubRows | platforum_project/forum/views/admin.py:97-110 | one sub-category row per line, at consecutive keys |
| AdminViews.SubRowsAt | platforum_project/forum/views/admin.py:97-110 | the row at key base + i carries the i-th line's name and index under the category |
| AdminViews.BuiltIsNamedRows | platforum_project/forum/views/admin.py:99-110 | reading the optional lines one by one adds exactly the named ones, at consecutive keys |
| AdminViews.NamedLinesExact | platforum_project/forum/views/admin.py:99-110 | an optional line gets a row under the new category iff its name is non-empty |
| AdminViews.AddIfNamed | platforum_project/forum/views/admin.py:99-101 | one optional line: a row iff its name is non-empty |
| AdminViews.AddOptional | platforum_project/forum/views/admin.py:99-110 | lines sub_2 to sub_5, in order |
| AdminViews.BuilderRows | platforum_project/forum/views/admin.py:95-110 | closed form of the builder: the first line at c + 1, then the named optional lines at the following keys, with existing rows kept |
| AdminViews.CreateCategory | platforum_project/forum/views/admin.py:95-110 | one category with the form's name and index in the forum, its first sub-category always, then the named optional ones |
| AdminViews.BuilderView | platforum_project/forum/views/admin.py:82-110 | the admin gate runs first; nothing is written unless it passes and the form is valid |
| AdminViews.DeleteCategoryView | platforum_project/forum/views/admin.py:122-127 | after the admin gate, a missing category raises DoesNotExist; otherwise the category goes with everything below it |
| AdminViews.DeleteSubCategoryView | platforum_project/forum/views/admin.py:132-137 | after the admin gate, a missing sub-category raises DoesNotExist; otherwise it goes with everything below it |
| AdminViews.DeleteTopicView | platforum_project/forum/views/admin.py:199-205 | after the admin gate, a missing topic is 404; otherwise it goes with its messages and their likes |
| PrivateViews.ForumBySlug | platforum_project/forum/views/private.py:16 | Ok names the only forum with that slug; no such forum is NotFound; two or more raise MultipleObjectsReturned |
| PrivateViews.UserOf | platforum_project/platforum_project/func/security.py:5 | the user behind a membership reference, absent when the reference is empty or dangling |
| PrivateViews.PersonalMessaging | platforum_project/forum/views/private.py:14-19 | the slug lookup and the guard, then two lists within the forum: conversations the user owns, and conversations where the user is a contact (each an iff) |
| PrivateViews.InboxListsOpenConversations | platforum_project/forum/views/private.py:18-36 | a conversation of the forum is listed iff conversation_view lets the user in |
| PrivateViews.ConversationGate | platforum_project/forum/views/private.py:27-36 | slug, conversation 404, guard, then PermissionDenied unless the user is the owner or a contact |
| PrivateViews.ConversationPost | platforum_project/forum/views/private.py:27-44 | nothing is written for a non-participant; a valid POST adds exactly one message bound to the conversation and to the poster's membership, with personal left false and no notification |
| PrivateViews.UpdateConversationGate | platforum_project/forum/views/private.py:53-59 | passes iff the slug, guard, conversation and message lookups pass and the message's author is the caller |
| PrivateViews.UpdateMessageConversation | platforum_project/forum/views/private.py:53-66 | nothing changes unless the gate passes; then only the text (and the auto-now update time) changes |
| PrivateViews.DeleteConversationGate | platforum_project/forum/views/private.py:75-78 | conversation and message 404, then the ownership guard; no forum or active check |
| PrivateViews.DeleteMessageConversation | platforum_project/forum/views/private.py:75-79 | deletes only when the caller authored the message, removing it and its likes |
| PrivateViews.OrphanMessageLocked | platforum_project/forum/models/content.py:70 | a message whose author was removed can be deleted by nobody |
| PrivateViews.PosterMayDelete | platforum_project/forum/views/private.py:42-78 | the author of a message posted in a conversation passes the delete guard on it |
| PrivateViews.EditKeepsOwner | platforum_project/forum/views/private.py:64-65 | editing the text does not change who passes the ownership guard |
| Schema.GetUnique | platforum_project/account/models.py:46 | `objects.get`: one match is Ok, none is the given error, several are MultipleObjectsReturned |
| TextSearch.Fold | platforum_project/forum/views/forum.py:313 | folds each character, keeping the length |
| TextSearch.IContainsAt | platforum_project/forum/views/forum.py:313 | `icontains` holds iff some window of the text matches the query after folding |
| TextSearch.IContainsItself | platforum_project/forum/views/forum.py:313 | a text is found by itself written in any letter case |
| TextSearch.IContains | platforum_project/forum/views/forum.py:313 | the empty query is found in every text, and a match implies that the query is no longer than the text |

## Left out

- Schema.Consistent: the forum, category, sub-category and parent references are bounded by `nextId` and are not required to be stored rows. The notification and like references are not constrained. Stored-row references would add a clause to every insert's and every cascade's proof. For the cascades, `Content.CascadeLeavesNoOrphans` states the no-orphan property instead.
- HTTP, templates, redirects and pagination are left out. Each view keeps only its guard order, its writes and the lists it filters. A redirect is a plain success.
- Forms are left out: their fields, their validation and reCAPTCHA. A valid form is an `Option` parameter that is `None` for a GET or an invalid POST.
- The forum-thumbnail form on the admin dashboard (admin.py:25-29) and the form saves of update_category_view, update_subcategory_view and update_topic (admin.py:140-194) are left out. Their guard order is that of `AdminGate` followed by a 404 lookup.
- `profile_forum` (private.py:83-99) is left out. It only saves an uploaded avatar through a form.
- verify_active_forum_account, verify_forum_master_status and user_has_active_forum_account are not part of this model. Their verdicts are parameters, and the view contracts hold for every verdict. `ForumViews.ActiveSound` states the reading of a Pass from verify_active_forum_account (an active membership of the caller in the forum); `ForumViews.AddTopicByActiveMember` and `ForumViews.OwnershipNeedsAuthor` state what follows from it.
- The code of `slugify`, `normalize_email`, `set_password` and `welcome_message` is not part of this model. They are parameters.
- `Topic.pin_topic` / `unpin_topic` are not part of this model. `AdminViews.PinTopic` assumes they set `pin` to true and false respectively.
- Images are left out. A thumbnail is its size in bytes, and `thumbnail_url` (a static-file path) is not modelled.
- Concurrency is left out. The read-modify-write of `notification_counter` is one sequential step, and there are no transactions.
- The clock is an integer parameter. "Nouveau" compares the whole-day difference with 4.
- TextSearch.IContains: folds only ASCII letters. Django's `icontains` uses the database's case folding, which also folds non-ASCII letters.
- Content.TopicsNewestFirst: specifies the default `-creation` order of content.py:54. Migration 0023 orders topics by `last_activity`, a field the current content.py does not declare.
- Message.update is the `auto_now` field `updated`. The edit views set it to `now`, because the save refreshes it. There is no update counter.
- `user_permission` has no moderator override, and a message posted in a conversation sends no notification (`Security.NoModeratorOverride`, `PrivateViews.ConversationPost`).
- The bootstrap membership keeps the model defaults: active, not forum master.
- Conversation owners and contacts are memberships. Migration 0016 stores them as users. The private views compare users through the membership.
- conversation_view, update_message_conversation and delete_message_conversation look up the conversation and the message by key alone. They do not check that these belong to the forum or to each other, and the model keeps that.
- PrivateViews.ConversationPost: the message's author is the caller's membership in the forum, where the source assigns the user. This follows the single author reference described above.
- The stale duplicate modules are not modelled: forum/views/content.py, forum/models/account.py and forum/views.py. Nor are migrations, the admin registration, the email and password flows, or the landing and search pages.

## Findings

| source | as written | input that shows it | evidently intended | confidence | as-written member | corrected member |
|---|---|---|---|---|---|---|
| platforum_project/forum/views/admin.py:71 | `member_status_view` finds the target membership by key in every forum, so the master of one forum can ban or reinstate members of any other forum | forums 1 and 2; the caller's membership 3 is forum master of forum 1; target membership 4 belongs to forum 2 | only memberships of the forum being administered can be toggled | high, not executed | AdminViews.MemberStatusView, AdminViews.MemberStatusCrossesForums | AdminViews.MemberStatusInForum, AdminViews.MemberStatusGateInForum |
| platforum_project/forum/views/forum.py:371-375 | `query_view` searches topics and messages of every forum, though its documentation says "within a forum" | searching "hello" from forum 1 returns topic 6 "Hello", which belongs to forum 2 | only the forum's topics and the messages in them are returned | medium, not executed | ForumViews.QueryView, ForumViews.QueryReachesOtherForums | ForumViews.QueryInForum, ForumViews.QueryInForumIsRestriction |
