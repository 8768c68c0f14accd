/** forum/views/forum.py: what each forum page reads, and what its POST branch
    writes after the lookups and guards it runs first. A failed lookup or guard
    ends the request with its error before any write. `verify_active_forum_account`
    is not part of this model: its verdict is the `active` parameter. */
module ForumViews {
  import opened Schema
  import opened Ordering
  import Security
  import Accounts
  import ForumModels
  import Interactions
  import Content
  import TextSearch

  /** `index`: the forum (404), the caller's account, and for a caller with an
      account the badge evaluation. */
  method Index(db: Database, user: UserId, forum: ForumId, today: int) returns (r: Outcome)
    requires db.Valid()
    modifies db`accounts
    ensures db.Valid()
    ensures forum !in old(db.forums) ==> r == Fail(NotFound) && db.accounts == old(db.accounts)
    ensures var found := Accounts.RetrieveForumAccount(old(db.accounts), user, forum);
            forum in old(db.forums) && found.Err? ==>
              r == Fail(found.error) && db.accounts == old(db.accounts)
    ensures var found := Accounts.RetrieveForumAccount(old(db.accounts), user, forum);
            forum in old(db.forums) && found == Ok(None) ==>
              r == Pass && db.accounts == old(db.accounts)
    ensures var found := Accounts.RetrieveForumAccount(old(db.accounts), user, forum);
            forum in old(db.forums) && found.Ok? && found.value.Some? ==>
              var a := found.value.value;
              var g := ForumModels.Grants(old(db.accounts)[a].badges,
                                          ForumModels.AccountRules(old(db.accounts), db.messages,
                                                                   db.likes, a, today),
                                          db.badgeCatalog);
              r == g.outcome && db.accounts == old(db.accounts)[a := old(db.accounts)[a].(badges := g.badges)]
  {
    if forum !in db.forums {
      return Fail(NotFound);
    }
    var found := Accounts.RetrieveForumAccount(db.accounts, user, forum);
    if found.Err? {
      return Fail(found.error);
    }
    if found.value.None? {
      return Pass;
    }
    r := ForumModels.BadgesManager(db, found.value.value, today);
  }

  /** The two topic lists of a sub-category page. */
  datatype TopicLists = TopicLists(unpinned: set<TopicId>, pinned: set<TopicId>)

  /** `sub_category_view`: the forum (404), the caller's account, the
      sub-category (404), then its topics split by the pin flag. */
  function SubCategoryView(forums: map<ForumId, Forum>, accounts: map<AccountId, Account>,
                           subCategories: map<SubCategoryId, SubCategory>,
                           topics: map<TopicId, Topic>, user: UserId, forum: ForumId,
                           sub: SubCategoryId): (r: Result<TopicLists>)
    ensures r.Ok? <==> forum in forums && Accounts.RetrieveForumAccount(accounts, user, forum).Ok?
                       && sub in subCategories
    ensures r.Ok? ==> r.value.unpinned !! r.value.pinned
    ensures r.Ok? ==> r.value.unpinned + r.value.pinned == Content.TopicsUnder(topics, {sub})
    ensures r.Ok? ==> forall t | t in r.value.pinned :: topics[t].pin
    ensures r.Ok? ==> forall t | t in r.value.unpinned :: !topics[t].pin
  {
    if forum !in forums then Err(NotFound)
    else
      var found := Accounts.RetrieveForumAccount(accounts, user, forum);
      if found.Err? then Err(found.error)
      else if sub !in subCategories then Err(NotFound)
      else
        var lists := TopicLists(set t | t in topics && topics[t].subCategory == sub && !topics[t].pin,
                                set t | t in topics && topics[t].subCategory == sub && topics[t].pin);
        assert lists.unpinned + lists.pinned == Content.TopicsUnder(topics, {sub});
        Ok(lists)
  }

  /** The lookups of `add_topic`, in order: the forum (404), the active-account
      guard, the caller's account, the sub-category (404). The result is the
      caller's account, which may be absent. */
  function AddTopicGate(forums: map<ForumId, Forum>, accounts: map<AccountId, Account>,
                        subCategories: map<SubCategoryId, SubCategory>, user: UserId,
                        forum: ForumId, sub: SubCategoryId, active: Outcome)
    : (r: Result<Option<AccountId>>)
    ensures forum !in forums ==> r == Err(NotFound)
    ensures forum in forums && active.Fail? ==> r == Err(active.error)
    ensures r.Ok? <==> forum in forums && active == Pass && sub in subCategories
                       && Accounts.RetrieveForumAccount(accounts, user, forum).Ok?
    ensures r.Ok? ==> r.value == Accounts.RetrieveForumAccount(accounts, user, forum).value
  {
    if forum !in forums then Err(NotFound)
    else if active.Fail? then Err(active.error)
    else
      var found := Accounts.RetrieveForumAccount(accounts, user, forum);
      if found.Err? then Err(found.error)
      else if sub !in subCategories then Err(NotFound)
      else Ok(found.value)
  }

  /** What a Pass from the active-account guard means: the caller holds an active
      membership of the forum. The guard's code is not part of this model; this is
      the reading of it the views below rely on. */
  predicate ActiveSound(accounts: map<AccountId, Account>, user: UserId, forum: ForumId,
                        active: Outcome)
  {
    active == Pass ==> exists a | a in accounts :: accounts[a].user == user
                                                 && accounts[a].forum == forum && accounts[a].active
  }

  /** Behind a sound guard, a passed `add_topic` gate yields the caller's active
      membership, so the topic and its first message always have an author. */
  lemma AddTopicByActiveMember(forums: map<ForumId, Forum>, accounts: map<AccountId, Account>,
                               subCategories: map<SubCategoryId, SubCategory>, user: UserId,
                               forum: ForumId, sub: SubCategoryId, active: Outcome)
    requires ActiveSound(accounts, user, forum, active)
    requires AddTopicGate(forums, accounts, subCategories, user, forum, sub, active).Ok?
    ensures var author := AddTopicGate(forums, accounts, subCategories, user, forum, sub, active).value;
            && author.Some? && author.value in accounts && accounts[author.value].user == user
            && accounts[author.value].forum == forum && accounts[author.value].active
  {
  }

  /** The fields of a valid CreateTopic form. */
  datatype TopicForm = TopicForm(title: string, message: string)

  /** `add_topic`. `form` is the valid POSTed form, None for a GET or an invalid
      form. After the lookups pass, a valid form creates the topic, by the caller's
      account, in the sub-category, then its first message with the submitted
      text. The result is the new topic. */
  method AddTopic(db: Database, user: UserId, forum: ForumId, sub: SubCategoryId, active: Outcome,
                  form: Option<TopicForm>, now: int) returns (r: Result<Option<TopicId>>)
    requires db.Valid()
    modifies db`topics, db`messages, db`nextId
    ensures db.Valid()
    ensures var gate := AddTopicGate(old(db.forums), old(db.accounts), old(db.subCategories), user,
                                     forum, sub, active);
            gate.Err? || form.None? ==>
              && r == (if gate.Err? then Err(gate.error) else Ok(None))
              && db.topics == old(db.topics) && db.messages == old(db.messages)
              && db.nextId == old(db.nextId)
    ensures var gate := AddTopicGate(old(db.forums), old(db.accounts), old(db.subCategories), user,
                                     forum, sub, active);
            var t := old(db.nextId);
            gate.Ok? && form.Some? ==>
              && r == Ok(Some(t)) && db.nextId == t + 2
              && t !in old(db.topics) && t + 1 !in old(db.messages)
              && db.topics == old(db.topics)[t := Topic(form.value.title, sub, false, gate.value, now, false)]
              && db.messages == old(db.messages)[t + 1 :=
                   Message(form.value.message, gate.value, InTopic(t), false, now, now)]
  {
    var gate := AddTopicGate(db.forums, db.accounts, db.subCategories, user, forum, sub, active);
    if gate.Err? {
      return Err(gate.error);
    }
    if form.None? {
      return Ok(None);
    }
    assert sub < db.nextId;
    var t := db.InsertTopic(Topic(form.value.title, sub, false, gate.value, now, false));
    var m := db.InsertMessage(Message(form.value.message, gate.value, InTopic(t), false, now, now));
    r := Ok(Some(t));
  }

  /** The lookups of `topic_view`'s POST branch, in order: the forum (404), the
      caller's account, the sub-category (404), the topic (404), then the
      active-account guard. */
  function TopicPostGate(forums: map<ForumId, Forum>, accounts: map<AccountId, Account>,
                         subCategories: map<SubCategoryId, SubCategory>,
                         topics: map<TopicId, Topic>, user: UserId, forum: ForumId,
                         sub: SubCategoryId, topic: TopicId, active: Outcome)
    : (r: Result<Option<AccountId>>)
    ensures r.Ok? <==> forum in forums && sub in subCategories && topic in topics && active == Pass
                       && Accounts.RetrieveForumAccount(accounts, user, forum).Ok?
    ensures r.Ok? ==> r.value == Accounts.RetrieveForumAccount(accounts, user, forum).value
    ensures forum in forums && sub in subCategories && topic in topics
            && Accounts.RetrieveForumAccount(accounts, user, forum).Ok? && active.Fail? ==>
              r == Err(active.error)
  {
    if forum !in forums then Err(NotFound)
    else
      var found := Accounts.RetrieveForumAccount(accounts, user, forum);
      if found.Err? then Err(found.error)
      else if sub !in subCategories then Err(NotFound)
      else if topic !in topics then Err(NotFound)
      else if active.Fail? then Err(active.error)
      else Ok(found.value)
  }

  /** The state after a message with `text` by `poster` is posted in topic
      `topic`: the message stored at key `nextId`, then the topic notifier run on
      the state that includes it, the request answering with the notifier's error
      if it raises one and with the new message otherwise. Unprimed tables are
      before the post, primed ones after. */
  ghost predicate PostedInTopic(users: map<UserId, User>, accounts: map<AccountId, Account>,
                                topics: map<TopicId, Topic>, messages: map<MessageId, Message>,
                                notifications: map<NotificationId, Notification>, nextId: nat,
                                accounts': map<AccountId, Account>,
                                messages': map<MessageId, Message>,
                                notifications': map<NotificationId, Notification>, nextId': nat,
                                topic: TopicId, poster: Option<AccountId>, text: string, now: int,
                                r: Result<Option<MessageId>>)
  {
    && nextId !in messages
    && messages' == messages[nextId := Message(text, poster, InTopic(topic), false, now, now)]
    && topic in topics && AuthorIn(topics[topic].author, accounts)
    && Interactions.PosterIn(poster, users, accounts)
    && var n := Interactions.TopicNotified(users, accounts, notifications, nextId + 1,
                                           topics[topic].author, topics[topic].title, poster);
       && accounts' == n.accounts && notifications' == n.notifications && nextId' == n.nextId
       && r == (if n.result.Err? then Err(n.result.error) else Ok(Some(nextId)))
  }

  /** The write of `topic_view`'s POST branch: the message, then the notifier. */
  method PostInTopic(db: Database, topic: TopicId, poster: Option<AccountId>, text: string, now: int)
    returns (r: Result<Option<MessageId>>)
    requires db.Valid() && topic in db.topics && AuthorIn(poster, db.accounts)
    modifies db`messages, db`accounts, db`notifications, db`nextId
    ensures db.Valid()
    ensures PostedInTopic(old(db.users), old(db.accounts), old(db.topics), old(db.messages),
                          old(db.notifications), old(db.nextId), db.accounts, db.messages,
                          db.notifications, db.nextId, topic, poster, text, now, r)
  {
    ghost var users, accounts, topics := db.users, db.accounts, db.topics;
    ghost var messages, notifications := db.messages, db.notifications;
    var m := db.InsertMessage(Message(text, poster, InTopic(topic), false, now, now));
    assert db.users == users && db.accounts == accounts && db.topics == topics;
    assert db.notifications == notifications;
    var sent := Interactions.NotifyTopic(db, topic, poster);
    r := if sent.Err? then Err(sent.error) else Ok(Some(m));
    PostedInTopicFrom(users, accounts, topics, messages, notifications, m, db.accounts,
                      db.messages, db.notifications, db.nextId, topic, poster, text, now, r, sent);
  }

  /** Assembles `PostedInTopic` from the facts each step of `PostInTopic` yields. */
  lemma PostedInTopicFrom(users: map<UserId, User>, accounts: map<AccountId, Account>,
                          topics: map<TopicId, Topic>, messages: map<MessageId, Message>,
                          notifications: map<NotificationId, Notification>, nextId: nat,
                          accounts': map<AccountId, Account>,
                          messages': map<MessageId, Message>,
                          notifications': map<NotificationId, Notification>, nextId': nat,
                          topic: TopicId, poster: Option<AccountId>, text: string, now: int,
                          r: Result<Option<MessageId>>, sent: Result<Option<NotificationId>>)
    requires nextId !in messages
    requires messages' == messages[nextId := Message(text, poster, InTopic(topic), false, now, now)]
    requires topic in topics && AuthorIn(topics[topic].author, accounts)
    requires Interactions.PosterIn(poster, users, accounts)
    requires var n := Interactions.TopicNotified(users, accounts, notifications, nextId + 1,
                                                 topics[topic].author, topics[topic].title, poster);
             accounts' == n.accounts && notifications' == n.notifications && nextId' == n.nextId
             && sent == n.result
    requires r == (if sent.Err? then Err(sent.error) else Ok(Some(nextId)))
    ensures PostedInTopic(users, accounts, topics, messages, notifications, nextId, accounts',
                          messages', notifications', nextId', topic, poster, text, now, r)
  {
  }

  /** `topic_view`, POST. After the lookups pass, a valid form posts the message
      in the topic by the caller's account, which runs the topic notifier; an
      error the notifier raises ends the request with the message already
      stored. */
  method TopicPost(db: Database, user: UserId, forum: ForumId, sub: SubCategoryId, topic: TopicId,
                   active: Outcome, text: Option<string>, now: int)
    returns (r: Result<Option<MessageId>>)
    requires db.Valid()
    modifies db`messages, db`accounts, db`notifications, db`nextId
    ensures db.Valid()
    ensures var gate := TopicPostGate(old(db.forums), old(db.accounts), old(db.subCategories),
                                      old(db.topics), user, forum, sub, topic, active);
            gate.Err? || text.None? ==>
              && r == (if gate.Err? then Err(gate.error) else Ok(None))
              && db.messages == old(db.messages) && db.accounts == old(db.accounts)
              && db.notifications == old(db.notifications) && db.nextId == old(db.nextId)
    ensures var gate := TopicPostGate(old(db.forums), old(db.accounts), old(db.subCategories),
                                      old(db.topics), user, forum, sub, topic, active);
            gate.Ok? && text.Some? ==>
              PostedInTopic(old(db.users), old(db.accounts), old(db.topics), old(db.messages),
                            old(db.notifications), old(db.nextId), db.accounts, db.messages,
                            db.notifications, db.nextId, topic, gate.value, text.value, now, r)
  {
    var gate := TopicPostGate(db.forums, db.accounts, db.subCategories, db.topics, user, forum, sub,
                              topic, active);
    if gate.Err? {
      return Err(gate.error);
    }
    if text.None? {
      return Ok(None);
    }
    r := PostInTopic(db, topic, gate.value, text.value, now);
  }

  /** The lookups of `like_unlike_view`, in order: the forum (404), the
      active-account guard, the caller's account, the message (404). */
  function LikeGate(forums: map<ForumId, Forum>, accounts: map<AccountId, Account>,
                    messages: map<MessageId, Message>, user: UserId, forum: ForumId,
                    message: MessageId, active: Outcome): (r: Result<Option<AccountId>>)
    ensures forum in forums && active.Fail? ==> r == Err(active.error)
    ensures r.Ok? <==> forum in forums && active == Pass && message in messages
                       && Accounts.RetrieveForumAccount(accounts, user, forum).Ok?
    ensures r.Ok? ==> r.value == Accounts.RetrieveForumAccount(accounts, user, forum).value
  {
    if forum !in forums then Err(NotFound)
    else if active.Fail? then Err(active.error)
    else
      var found := Accounts.RetrieveForumAccount(accounts, user, forum);
      if found.Err? then Err(found.error)
      else if message !in messages then Err(NotFound)
      else Ok(found.value)
  }

  /** `like_unlike_view`: after the lookups pass, the caller's like on the
      message is toggled. */
  method LikeUnlikeView(db: Database, user: UserId, forum: ForumId, message: MessageId,
                        active: Outcome) returns (r: Outcome)
    requires db.Valid()
    modifies db`likes
    ensures db.Valid()
    ensures var gate := LikeGate(db.forums, db.accounts, db.messages, user, forum, message, active);
            gate.Err? ==> r == Fail(gate.error) && db.likes == old(db.likes)
    ensures var gate := LikeGate(db.forums, db.accounts, db.messages, user, forum, message, active);
            gate == Ok(None) ==> r == Fail(IntegrityError) && db.likes == old(db.likes)
    ensures var gate := LikeGate(db.forums, db.accounts, db.messages, user, forum, message, active);
            gate.Ok? && gate.value.Some? ==>
              r == Pass && db.likes == Interactions.ToggleLike(old(db.likes), Like(message, gate.value.value))
  {
    var gate := LikeGate(db.forums, db.accounts, db.messages, user, forum, message, active);
    if gate.Err? {
      return Fail(gate.error);
    }
    r := Interactions.LikeUnlike(db, gate.value, message);
  }

  /** The lookups of `update_message`, in order: the forum, sub-category and topic
      (404 each), the active-account guard, the caller's account, the message
      (404), then the ownership guard. */
  function UpdateMessageGate(forums: map<ForumId, Forum>, accounts: map<AccountId, Account>,
                             subCategories: map<SubCategoryId, SubCategory>,
                             topics: map<TopicId, Topic>, messages: map<MessageId, Message>,
                             user: UserId, forum: ForumId, sub: SubCategoryId, topic: TopicId,
                             message: MessageId, active: Outcome): (r: Outcome)
    ensures r == Pass <==>
              && forum in forums && sub in subCategories && topic in topics && active == Pass
              && Accounts.RetrieveForumAccount(accounts, user, forum).Ok? && message in messages
              && messages[message].author == Accounts.RetrieveForumAccount(accounts, user, forum).value
  {
    if forum !in forums || sub !in subCategories || topic !in topics then Fail(NotFound)
    else if active.Fail? then active
    else
      var found := Accounts.RetrieveForumAccount(accounts, user, forum);
      if found.Err? then Fail(found.error)
      else if message !in messages then Fail(NotFound)
      else Security.UserPermission(messages[message].author, found.value)
  }

  /** `update_message`: after the lookups and the ownership guard pass, a valid
      form replaces the message's text; the row's update time is refreshed and
      nothing else of it changes. */
  method UpdateMessage(db: Database, user: UserId, forum: ForumId, sub: SubCategoryId,
                       topic: TopicId, message: MessageId, active: Outcome, text: Option<string>,
                       now: int) returns (r: Outcome)
    requires db.Valid()
    modifies db`messages
    ensures db.Valid()
    ensures var gate := UpdateMessageGate(db.forums, db.accounts, db.subCategories, db.topics,
                                          old(db.messages), user, forum, sub, topic, message, active);
            && r == gate
            && (gate.Fail? || text.None? ==> db.messages == old(db.messages))
            && (gate == Pass && text.Some? ==>
                  db.messages == old(db.messages)[message := old(db.messages)[message].(
                                   text := text.value, updated := now)])
  {
    r := UpdateMessageGate(db.forums, db.accounts, db.subCategories, db.topics, db.messages, user,
                           forum, sub, topic, message, active);
    if r.Fail? || text.None? {
      return;
    }
    db.UpdateMessage(message, db.messages[message].(text := text.value, updated := now));
  }

  /** The lookups of `delete_message`, in order: the forum (404), the
      active-account guard, the caller's account, the message (404), then the
      ownership guard. */
  function DeleteMessageGate(forums: map<ForumId, Forum>, accounts: map<AccountId, Account>,
                             messages: map<MessageId, Message>, user: UserId, forum: ForumId,
                             message: MessageId, active: Outcome): (r: Outcome)
    ensures r == Pass <==>
              && forum in forums && active == Pass && message in messages
              && Accounts.RetrieveForumAccount(accounts, user, forum).Ok?
              && messages[message].author == Accounts.RetrieveForumAccount(accounts, user, forum).value
  {
    if forum !in forums then Fail(NotFound)
    else if active.Fail? then active
    else
      var found := Accounts.RetrieveForumAccount(accounts, user, forum);
      if found.Err? then Fail(found.error)
      else if message !in messages then Fail(NotFound)
      else Security.UserPermission(messages[message].author, found.value)
  }

  /** Behind a sound guard, the edit and delete gates open only to the stored
      author of the message: a message without an author stays locked. */
  lemma OwnershipNeedsAuthor(forums: map<ForumId, Forum>, accounts: map<AccountId, Account>,
                             subCategories: map<SubCategoryId, SubCategory>,
                             topics: map<TopicId, Topic>, messages: map<MessageId, Message>,
                             user: UserId, forum: ForumId, sub: SubCategoryId, topic: TopicId,
                             message: MessageId, active: Outcome)
    requires ActiveSound(accounts, user, forum, active)
    ensures UpdateMessageGate(forums, accounts, subCategories, topics, messages, user, forum, sub,
                              topic, message, active) == Pass ==>
              && messages[message].author.Some? && messages[message].author.value in accounts
              && accounts[messages[message].author.value].user == user
    ensures DeleteMessageGate(forums, accounts, messages, user, forum, message, active) == Pass ==>
              && messages[message].author.Some? && messages[message].author.value in accounts
              && accounts[messages[message].author.value].user == user
  {
  }

  /** `delete_message`: after the lookups and the ownership guard pass, the
      message goes, with the likes on it; the redirect then reads topic `topic`
      with `get`, which raises DoesNotExist after the delete when there is none. */
  method DeleteMessage(db: Database, user: UserId, forum: ForumId, topic: TopicId,
                       message: MessageId, active: Outcome) returns (r: Outcome)
    requires db.Valid()
    modifies db`messages, db`likes
    ensures db.Valid()
    ensures var gate := DeleteMessageGate(db.forums, db.accounts, old(db.messages), user, forum,
                                          message, active);
            && (gate.Fail? ==> r == gate && db.messages == old(db.messages) && db.likes == old(db.likes))
            && (gate == Pass ==>
                  && db.messages == old(db.messages) - {message}
                  && db.likes == LikesOff(old(db.likes), {message})
                  && r == (if topic in db.topics then Pass else Fail(DoesNotExist)))
  {
    r := DeleteMessageGate(db.forums, db.accounts, db.messages, user, forum, message, active);
    if r.Fail? {
      return;
    }
    Content.DeleteMessages(db, {message});
    r := if topic in db.topics then Pass else Fail(DoesNotExist);
  }

  /** The members `members_list_view` lists: without a search, the forum's
      active accounts; with one, the forum's accounts whose username contains it
      (ignoring case), active or not. */
  function MembersList(accounts: map<AccountId, Account>, users: map<UserId, User>, forum: ForumId,
                       search: string): (r: set<AccountId>)
    requires forall a | a in accounts :: accounts[a].user in users
    ensures forall a | a in r :: a in accounts && accounts[a].forum == forum
    ensures search == [] ==>
              forall a :: a in r <==> (a in accounts && accounts[a].forum == forum && accounts[a].active)
    ensures search != [] ==>
              forall a :: a in r <==> (a in accounts && accounts[a].forum == forum
                                       && TextSearch.IContains(users[accounts[a].user].username, search))
  {
    if search == [] then set a | a in accounts && accounts[a].forum == forum && accounts[a].active
    else set a | a in accounts && accounts[a].forum == forum
                 && TextSearch.IContains(users[accounts[a].user].username, search)
  }

  /** A search finds a banned member too: the active filter is dropped. */
  lemma SearchFindsBanned(accounts: map<AccountId, Account>, users: map<UserId, User>,
                          forum: ForumId, a: AccountId)
    requires forall b | b in accounts :: accounts[b].user in users
    requires a in accounts && accounts[a].forum == forum && !accounts[a].active
    ensures a !in MembersList(accounts, users, forum, [])
    ensures a in MembersList(accounts, users, forum, users[accounts[a].user].username)
            || users[accounts[a].user].username == []
  {
    var name := users[accounts[a].user].username;
    if name != [] {
      TextSearch.IContainsItself(name, name);
    }
  }

  /** `members_list_view`: the forum (404), the active-account guard, the caller's
      account, then the list. */
  function MembersListView(forums: map<ForumId, Forum>, accounts: map<AccountId, Account>,
                           users: map<UserId, User>, user: UserId, forum: ForumId,
                           active: Outcome, search: string): (r: Result<set<AccountId>>)
    requires forall a | a in accounts :: accounts[a].user in users
    ensures r.Ok? <==> forum in forums && active == Pass
                       && Accounts.RetrieveForumAccount(accounts, user, forum).Ok?
    ensures r.Ok? ==> r.value == MembersList(accounts, users, forum, search)
  {
    if forum !in forums then Err(NotFound)
    else if active.Fail? then Err(active.error)
    else
      var found := Accounts.RetrieveForumAccount(accounts, user, forum);
      if found.Err? then Err(found.error)
      else Ok(MembersList(accounts, users, forum, search))
  }

  /** The messages `member_view` draws from: written by `member`, in a topic of
      forum `forum`. */
  function MemberMessages(categories: map<CategoryId, Category>,
                          subCategories: map<SubCategoryId, SubCategory>,
                          topics: map<TopicId, Topic>, messages: map<MessageId, Message>,
                          forum: ForumId, member: AccountId): (r: set<MessageId>)
    ensures forall m :: m in r <==>
              && m in messages && messages[m].author == Some(member) && messages[m].parent.InTopic?
              && Content.TopicInForum(categories, subCategories, topics, forum, messages[m].parent.topic)
  {
    set m | m in messages && messages[m].author == Some(member) && messages[m].parent.InTopic?
            && Content.TopicInForum(categories, subCategories, topics, forum, messages[m].parent.topic)
  }

  /** `member_view`: the forum (404), the active-account guard, the caller's
      account, the member (404; any forum's account is found), then the member's
      five newest messages in this forum. */
  ghost function MemberView(forums: map<ForumId, Forum>, accounts: map<AccountId, Account>,
                            categories: map<CategoryId, Category>,
                            subCategories: map<SubCategoryId, SubCategory>,
                            topics: map<TopicId, Topic>, messages: map<MessageId, Message>,
                            user: UserId, forum: ForumId, member: AccountId, active: Outcome)
    : (r: Result<seq<MessageId>>)
    ensures r.Ok? <==> forum in forums && active == Pass && member in accounts
                       && Accounts.RetrieveForumAccount(accounts, user, forum).Ok?
    ensures r.Ok? ==> var n := |MemberMessages(categories, subCategories, topics, messages,
                                               forum, member)|;
                      |r.value| == if n < 5 then n else 5
    ensures r.Ok? ==> forall i, j | 0 <= i < j < |r.value| :: r.value[i] != r.value[j]
    ensures r.Ok? ==> forall i | 0 <= i < |r.value| ::
                        r.value[i] in MemberMessages(categories, subCategories, topics, messages,
                                                     forum, member)
    ensures r.Ok? ==> forall i, j | 0 <= i < j < |r.value| ::
                        && r.value[i] in messages && r.value[j] in messages
                        && messages[r.value[i]].creation >= messages[r.value[j]].creation
  {
    if forum !in forums then Err(NotFound)
    else if active.Fail? then Err(active.error)
    else
      var found := Accounts.RetrieveForumAccount(accounts, user, forum);
      if found.Err? then Err(found.error)
      else if member !in accounts then Err(NotFound)
      else
        var all := Content.MessagesNewestFirst(messages,
                     MemberMessages(categories, subCategories, topics, messages, forum, member));
        var shown := Take(all, 5);
        assert forall i | 0 <= i < |shown| :: shown[i] == all[i];
        assert forall i, j | 0 <= i < j < |shown| :: shown[i] != shown[j] by {
          forall i, j | 0 <= i < j < |shown| ensures shown[i] != shown[j] {
            assert shown[i] == all[i] && shown[j] == all[j];
          }
        }
        Ok(shown)
  }

  /** The page shows the newest messages: none of the member's messages in the
      forum that is left out is newer than one that is shown. */
  lemma MemberViewNewest(categories: map<CategoryId, Category>,
                         subCategories: map<SubCategoryId, SubCategory>,
                         topics: map<TopicId, Topic>, messages: map<MessageId, Message>,
                         forum: ForumId, member: AccountId, shown: MessageId, hidden: MessageId)
    requires var ids := MemberMessages(categories, subCategories, topics, messages, forum, member);
             var page := Take(Content.MessagesNewestFirst(messages, ids), 5);
             shown in page && hidden in ids && hidden !in page
    ensures messages[hidden].creation <= messages[shown].creation
  {
    var ids := MemberMessages(categories, subCategories, topics, messages, forum, member);
    var all := Content.MessagesNewestFirst(messages, ids);
    var page := Take(all, 5);
    var i :| 0 <= i < |page| && page[i] == shown;
    var j :| 0 <= j < |all| && all[j] == hidden;
    assert page == all[..|page|];
    assert all[i] == shown;
  }

  /** What `query_view` answers: a redirect for an empty query, else the topics
      and messages found. */
  datatype QueryAnswer = Redirect | Found(topics: set<TopicId>, messages: set<MessageId>)

  /** The message is in a stored topic whose title contains `search`
      (`topic__title__icontains`). */
  predicate TopicTitleMatches(topics: map<TopicId, Topic>, message: Message, search: string)
  {
    message.parent.InTopic? && message.parent.topic in topics
    && TextSearch.IContains(topics[message.parent.topic].title, search)
  }

  /** `query_view` as written: the forum (404), the caller's account, then, for a
      non-empty query, every topic whose title contains it and every non-personal
      message whose text or topic title contains it, in every forum and every
      conversation. */
  function QueryView(forums: map<ForumId, Forum>, accounts: map<AccountId, Account>,
                     topics: map<TopicId, Topic>, messages: map<MessageId, Message>,
                     user: UserId, forum: ForumId, search: string): (r: Result<QueryAnswer>)
    ensures r.Ok? <==> forum in forums && Accounts.RetrieveForumAccount(accounts, user, forum).Ok?
    ensures r.Ok? ==> (r.value == Redirect <==> search == [])
    ensures r.Ok? && r.value.Found? ==>
              && (forall t :: t in r.value.topics <==>
                    t in topics && TextSearch.IContains(topics[t].title, search))
              && (forall m :: m in r.value.messages <==>
                    && m in messages && !messages[m].personal
                    && (TextSearch.IContains(messages[m].text, search)
                        || TopicTitleMatches(topics, messages[m], search)))
  {
    if forum !in forums then Err(NotFound)
    else
      var found := Accounts.RetrieveForumAccount(accounts, user, forum);
      if found.Err? then Err(found.error)
      else if search == [] then Ok(Redirect)
      else
        Ok(Found(set t | t in topics && TextSearch.IContains(topics[t].title, search),
                 set m | m in messages && !messages[m].personal
                         && (TextSearch.IContains(messages[m].text, search)
                             || TopicTitleMatches(topics, messages[m], search))))
  }

  /** `query_view` as its documentation describes it ("within a forum"): the same
      lookups and filters, restricted to the topics of the forum and the messages
      in them. */
  function QueryInForum(forums: map<ForumId, Forum>, accounts: map<AccountId, Account>,
                        categories: map<CategoryId, Category>,
                        subCategories: map<SubCategoryId, SubCategory>,
                        topics: map<TopicId, Topic>, messages: map<MessageId, Message>,
                        user: UserId, forum: ForumId, search: string): (r: Result<QueryAnswer>)
    ensures r.Ok? <==> forum in forums && Accounts.RetrieveForumAccount(accounts, user, forum).Ok?
    ensures r.Ok? ==> (r.value == Redirect <==> search == [])
    ensures r.Ok? && r.value.Found? ==>
              && (forall t | t in r.value.topics ::
                    Content.TopicInForum(categories, subCategories, topics, forum, t))
              && (forall m | m in r.value.messages ::
                    m in messages && messages[m].parent.InTopic?
                    && Content.TopicInForum(categories, subCategories, topics, forum,
                                            messages[m].parent.topic))
  {
    var inForum := Content.ForumTopics(categories, subCategories, topics, forum);
    var answer := QueryView(forums, accounts, topics, messages, user, forum, search);
    if answer.Err? || answer.value == Redirect then answer
    else
      Ok(Found(answer.value.topics * inForum,
               set m | m in answer.value.messages && messages[m].parent.InTopic?
                       && messages[m].parent.topic in inForum))
  }

  /** The scoped search loses nothing of the forum: it is exactly the unscoped
      answer restricted to the forum's topics and the messages in them. */
  lemma QueryInForumIsRestriction(forums: map<ForumId, Forum>, accounts: map<AccountId, Account>,
                                  categories: map<CategoryId, Category>,
                                  subCategories: map<SubCategoryId, SubCategory>,
                                  topics: map<TopicId, Topic>, messages: map<MessageId, Message>,
                                  user: UserId, forum: ForumId, search: string)
    requires QueryView(forums, accounts, topics, messages, user, forum, search).Ok?
    requires search != []
    ensures var wide := QueryView(forums, accounts, topics, messages, user, forum, search).value;
            var narrow := QueryInForum(forums, accounts, categories, subCategories, topics, messages,
                                       user, forum, search).value;
            && (forall t :: t in narrow.topics <==>
                  t in wide.topics && Content.TopicInForum(categories, subCategories, topics, forum, t))
            && (forall m :: m in narrow.messages <==>
                  m in wide.messages && messages[m].parent.InTopic?
                  && Content.TopicInForum(categories, subCategories, topics, forum,
                                          messages[m].parent.topic))
  {
  }

  /** The search as written reaches into other forums: a topic of a second forum
      whose title matches is listed on the first forum's search page, and the
      scoped search does not list it. */
  lemma QueryReachesOtherForums()
    ensures var user := 0;
            var forums := map[1 := Forum(0, "A", "a", 0, "", 0, None),
                              2 := Forum(0, "B", "b", 0, "", 0, None)];
            var accounts := map[3 := Account(1, user, true, 0, false, 0, {}, None)];
            var categories := map[4 := Category("C", 2, None)];
            var subCategories := map[5 := SubCategory("S", 4, None)];
            var topics := map[6 := Topic("Hello", 5, false, None, 0, false)];
            var messages: map<MessageId, Message> := map[];
            var wide := QueryView(forums, accounts, topics, messages, user, 1, "hello");
            var narrow := QueryInForum(forums, accounts, categories, subCategories, topics, messages,
                                       user, 1, "hello");
            && wide.Ok? && wide.value.Found? && 6 in wide.value.topics
            && !Content.TopicInForum(categories, subCategories, topics, 1, 6)
            && narrow.Ok? && narrow.value.Found? && 6 !in narrow.value.topics
  {
    var user := 0;
    var accounts := map[3 := Account(1, user, true, 0, false, 0, {}, None)];
    assert Accounts.RetrieveForumAccount(accounts, user, 1).Ok? by {
      assert forall b | b in accounts && accounts[b].user == user && accounts[b].forum == 1 :: b == 3;
    }
    assert TextSearch.IContains("Hello", "hello") by {
      assert TextSearch.Fold("Hello") == TextSearch.Fold("hello") by {
        assert TextSearch.FoldChar('H') == 'h';
      }
      TextSearch.IContainsItself("Hello", "hello");
    }
  }
}
