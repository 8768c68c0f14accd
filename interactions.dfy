/** forum/models/interactions.py: the notifications a new message sends and the
    like toggle. */
module Interactions {
  import opened Schema
  import ForumModels

  /** The text of the notification a message posted in a topic sends. */
  function TopicNotice(username: string, title: string): string
  {
    "Nouveau message posté par " + username + " dans " + title
  }

  /** The text of the notification a message posted in a conversation sends: the
      topic text, naming the subject, behind a "Boite personnelle : " prefix. */
  function ConversationNotice(username: string, subject: string): string
  {
    "Boite personnelle : " + TopicNotice(username, subject)
  }

  /** A member reading the notification list can tell a topic notice from a
      conversation notice, whatever the names and titles: the two never coincide. */
  lemma NoticesDistinguishable(u1: string, title: string, u2: string, subject: string)
    ensures TopicNotice(u1, title) != ConversationNotice(u2, subject)
  {
    var topicHead := "Nouveau message posté par " + u1;
    assert (topicHead + " dans " + title)[0] == topicHead[0] == 'N';
    assert ConversationNotice(u2, subject)[0] == 'B';
  }

  /** The username of account `a`'s user. */
  function PosterName(users: map<UserId, User>, accounts: map<AccountId, Account>, a: AccountId)
    : string
    requires a in accounts && accounts[a].user in users
  {
    users[accounts[a].user].username
  }

  /** The poster is absent, or a stored account whose user is stored. */
  predicate PosterIn(poster: Option<AccountId>, users: map<UserId, User>,
                     accounts: map<AccountId, Account>)
  {
    poster.Some? ==> poster.value in accounts && accounts[poster.value].user in users
  }

  /** The accounts after account `a`'s notification counter went up by one: every
      other field of `a`, and every other account, is as it was. */
  function Bumped(accounts: map<AccountId, Account>, a: AccountId): (r: map<AccountId, Account>)
    requires a in accounts
    ensures r.Keys == accounts.Keys
    ensures r[a].notificationCounter == accounts[a].notificationCounter + 1
    ensures r[a].(notificationCounter := accounts[a].notificationCounter) == accounts[a]
    ensures forall b | b in accounts && b != a :: r[b] == accounts[b]
  {
    accounts[a := accounts[a].(notificationCounter := accounts[a].notificationCounter + 1)]
  }

  /** What a notifier leaves: the accounts, the notifications, the key counter,
      and what the call returns or raises. */
  datatype Notice = Notice(accounts: map<AccountId, Account>,
                           notifications: map<NotificationId, Notification>,
                           nextId: nat, result: Result<Option<NotificationId>>)

  /** The common tail of both notifiers once the addressee `to` is known and is not
      the poster: `to`'s counter is bumped and saved, then the text names the
      poster's user (an absent poster raises AttributeError there) and one
      notification to `to` is created under the next key. */
  function Deliver(users: map<UserId, User>, accounts: map<AccountId, Account>,
                   notifications: map<NotificationId, Notification>, nextId: nat,
                   to: AccountId, poster: Option<AccountId>, place: string, personal: bool)
    : (r: Notice)
    requires to in accounts && PosterIn(poster, users, accounts)
    ensures r.accounts == Bumped(accounts, to)
    ensures poster.None? ==> r == Notice(r.accounts, notifications, nextId, Err(AttributeError))
    ensures poster.Some? ==> && r.result == Ok(Some(nextId)) && r.nextId == nextId + 1
                             && r.notifications.Keys == notifications.Keys + {nextId}
                             && r.notifications[nextId].account == to
  {
    var bumped := Bumped(accounts, to);
    if poster.None? then Notice(bumped, notifications, nextId, Err(AttributeError))
    else
      var name := PosterName(users, accounts, poster.value);
      var text := if personal then ConversationNotice(name, place) else TopicNotice(name, place);
      Notice(bumped, notifications[nextId := Notification(to, text)], nextId + 1, Ok(Some(nextId)))
  }

  /** notify_member_if_message_posted_in_topic on a topic written by `author`
      and titled `title`. A topic whose author reference is empty has no counter
      to read: AttributeError before any write. */
  function TopicNotified(users: map<UserId, User>, accounts: map<AccountId, Account>,
                         notifications: map<NotificationId, Notification>, nextId: nat,
                         author: Option<AccountId>, title: string, poster: Option<AccountId>)
    : (r: Notice)
    requires AuthorIn(author, accounts) && PosterIn(poster, users, accounts)
    ensures r.accounts.Keys == accounts.Keys
    ensures r.result == Ok(None) <==> author == poster
    ensures r.result.Err? <==> author != poster && (author.None? || poster.None?)
    ensures r.result.Err? ==> r.result.error == AttributeError && r.nextId == nextId
                              && r.notifications == notifications
    ensures r.result.Ok? && r.result.value.Some? ==>
              && author.Some? && r.result.value.value == nextId && r.nextId == nextId + 1
              && r.notifications.Keys == notifications.Keys + {nextId}
              && r.notifications[nextId].account == author.value
  {
    if author == poster then Notice(accounts, notifications, nextId, Ok(None))
    else if author.None? then Notice(accounts, notifications, nextId, Err(AttributeError))
    else Deliver(users, accounts, notifications, nextId, author.value, poster, title, false)
  }

  /** notify_member_if_message_posted_in_conversation on a conversation owned by
      `owner` with subject `subject`. The owner reference is not nullable; an owner
      row that is no longer stored would raise DoesNotExist when it is read, which
      a consistent store rules out (the owner is CASCADE). */
  function ConversationNotified(users: map<UserId, User>, accounts: map<AccountId, Account>,
                                notifications: map<NotificationId, Notification>, nextId: nat,
                                owner: AccountId, subject: string, poster: Option<AccountId>)
    : (r: Notice)
    requires PosterIn(poster, users, accounts)
    ensures r.accounts.Keys == accounts.Keys
    ensures r.result == Ok(None) <==> Some(owner) == poster
    ensures r.result == Err(DoesNotExist) <==> Some(owner) != poster && owner !in accounts
    ensures r.result == Err(AttributeError) <==> owner in accounts && poster.None?
    ensures r.result.Err? ==> r.nextId == nextId && r.notifications == notifications
    ensures r.result.Ok? && r.result.value.Some? ==>
              && r.result.value.value == nextId && r.nextId == nextId + 1
              && r.notifications.Keys == notifications.Keys + {nextId}
              && r.notifications[nextId].account == owner
  {
    if Some(owner) == poster then Notice(accounts, notifications, nextId, Ok(None))
    else if owner !in accounts then Notice(accounts, notifications, nextId, Err(DoesNotExist))
    else Deliver(users, accounts, notifications, nextId, owner, poster, subject, true)
  }

  /** Posting in one's own topic changes nothing and returns None. */
  lemma OwnTopicSilent(users: map<UserId, User>, accounts: map<AccountId, Account>,
                       notifications: map<NotificationId, Notification>, nextId: nat,
                       author: Option<AccountId>, title: string)
    requires AuthorIn(author, accounts) && PosterIn(author, users, accounts)
    ensures TopicNotified(users, accounts, notifications, nextId, author, title, author)
            == Notice(accounts, notifications, nextId, Ok(None))
  {
  }

  /** Posting in somebody else's topic raises that author's counter by exactly
      one, and touches no other account and no other field. */
  lemma OtherTopicBumpsOnce(users: map<UserId, User>, accounts: map<AccountId, Account>,
                            notifications: map<NotificationId, Notification>, nextId: nat,
                            author: AccountId, title: string, poster: Option<AccountId>)
    requires author in accounts && PosterIn(poster, users, accounts) && poster != Some(author)
    ensures var n := TopicNotified(users, accounts, notifications, nextId, Some(author), title, poster);
            && n.accounts.Keys == accounts.Keys
            && n.accounts[author].notificationCounter == accounts[author].notificationCounter + 1
            && n.accounts[author].(notificationCounter := accounts[author].notificationCounter)
               == accounts[author]
            && forall b | b in accounts && b != author :: n.accounts[b] == accounts[b]
  {
  }

  /** When the poster has an account and is not the author, exactly one
      notification is added, under a fresh key, addressed to the author and so not
      to the poster; when the poster has none, nothing is added. */
  lemma OtherTopicNotifiesAuthor(users: map<UserId, User>, accounts: map<AccountId, Account>,
                                 notifications: map<NotificationId, Notification>, nextId: nat,
                                 author: AccountId, title: string, poster: Option<AccountId>)
    requires author in accounts && PosterIn(poster, users, accounts) && poster != Some(author)
    requires forall k | k in notifications :: k < nextId
    ensures var n := TopicNotified(users, accounts, notifications, nextId, Some(author), title, poster);
            if poster.None? then
              n.notifications == notifications && n.nextId == nextId && n.result == Err(AttributeError)
            else
              && n.result == Ok(Some(nextId)) && nextId !in notifications
              && n.notifications.Keys == notifications.Keys + {nextId}
              && (forall k | k in notifications :: n.notifications[k] == notifications[k])
              && n.notifications[nextId].account == author
              && n.notifications[nextId].account != poster.value
  {
  }

  /** The conversation notifier can only ever address the conversation's owner:
      every notification it adds is the owner's, and only a counter of the owner
      moves. */
  lemma ConversationAddressesOwner(users: map<UserId, User>, accounts: map<AccountId, Account>,
                                   notifications: map<NotificationId, Notification>, nextId: nat,
                                   owner: AccountId, subject: string, poster: Option<AccountId>)
    requires PosterIn(poster, users, accounts)
    ensures var n := ConversationNotified(users, accounts, notifications, nextId, owner, subject, poster);
            && (forall k | k in n.notifications && k !in notifications :: n.notifications[k].account == owner)
            && (forall b | b in accounts && b != owner :: b in n.accounts && n.accounts[b] == accounts[b])
            && (n.accounts != accounts ==> owner in accounts && Some(owner) != poster)
  {
  }

  /** Notification.notify_member_if_message_posted_in_topic, called with the topic
      and the poster's account (absent when the poster has no account in the
      forum). */
  method NotifyTopic(db: Database, topic: TopicId, poster: Option<AccountId>)
    returns (r: Result<Option<NotificationId>>)
    requires db.Valid() && topic in db.topics && AuthorIn(poster, db.accounts)
    modifies db`accounts, db`notifications, db`nextId
    ensures db.Valid()
    ensures AuthorIn(old(db.topics[topic].author), old(db.accounts))
    ensures PosterIn(poster, old(db.users), old(db.accounts))
    ensures var n := TopicNotified(old(db.users), old(db.accounts), old(db.notifications),
                                   old(db.nextId), old(db.topics[topic].author),
                                   old(db.topics[topic].title), poster);
            db.accounts == n.accounts && db.notifications == n.notifications
            && db.nextId == n.nextId && r == n.result
  {
    var author := db.topics[topic].author;
    assert TopicsOk(db.topics, db.accounts, db.nextId);
    assert AccountsOk(db.accounts, db.users, db.nextId);
    if author == poster {
      return Ok(None);
    }
    if author.None? {
      return Err(AttributeError);
    }
    r := NotifyAccount(db, author.value, poster, db.topics[topic].title, false);
  }

  /** Notification.notify_member_if_message_posted_in_conversation. */
  method NotifyConversation(db: Database, conversation: ConversationId, poster: Option<AccountId>)
    returns (r: Result<Option<NotificationId>>)
    requires db.Valid() && conversation in db.conversations && AuthorIn(poster, db.accounts)
    modifies db`accounts, db`notifications, db`nextId
    ensures db.Valid()
    ensures PosterIn(poster, old(db.users), old(db.accounts))
    ensures var n := ConversationNotified(old(db.users), old(db.accounts), old(db.notifications),
                                          old(db.nextId), old(db.conversations[conversation].owner),
                                          old(db.conversations[conversation].subject), poster);
            db.accounts == n.accounts && db.notifications == n.notifications
            && db.nextId == n.nextId && r == n.result
  {
    var owner := db.conversations[conversation].owner;
    assert AccountsOk(db.accounts, db.users, db.nextId);
    assert ConversationsOk(db.conversations, db.accounts, db.nextId);
    if Some(owner) == poster {
      return Ok(None);
    }
    r := NotifyAccount(db, owner, poster, db.conversations[conversation].subject, true);
  }

  /** `account.notification_counter += 1` followed by a save of that field. */
  method BumpCounter(db: Database, a: AccountId)
    requires db.Valid() && a in db.accounts
    modifies db`accounts
    ensures db.Valid() && db.accounts == Bumped(old(db.accounts), a)
  {
    var row := db.accounts[a];
    db.UpdateAccount(a, row.(notificationCounter := row.notificationCounter + 1));
  }

  /** The writes of `Deliver`: bump and save `to`'s counter, then create the
      notification. */
  method NotifyAccount(db: Database, to: AccountId, poster: Option<AccountId>, place: string,
                       personal: bool) returns (r: Result<Option<NotificationId>>)
    requires db.Valid() && to in db.accounts && PosterIn(poster, db.users, db.accounts)
    modifies db`accounts, db`notifications, db`nextId
    ensures db.Valid()
    ensures var n := Deliver(old(db.users), old(db.accounts), old(db.notifications), old(db.nextId),
                             to, poster, place, personal);
            db.accounts == n.accounts && db.notifications == n.notifications
            && db.nextId == n.nextId && r == n.result
  {
    var name := if poster.Some? then PosterName(db.users, db.accounts, poster.value) else "";
    var text := if personal then ConversationNotice(name, place) else TopicNotice(name, place);
    ghost var sent := Deliver(db.users, db.accounts, db.notifications, db.nextId, to, poster, place,
                              personal);
    assert poster.Some? ==>
             sent == Notice(Bumped(db.accounts, to), db.notifications[db.nextId := Notification(to, text)],
                            db.nextId + 1, Ok(Some(db.nextId)));
    BumpCounter(db, to);
    if poster.None? {
      return Err(AttributeError);
    }
    var n := db.InsertNotification(Notification(to, text));
    r := Ok(Some(n));
  }

  /** The likes after `get_or_create` followed by a delete of an existing row:
      `like` is added when absent and removed when present. */
  function ToggleLike(likes: set<Like>, like: Like): (r: set<Like>)
    ensures like in r <==> like !in likes
    ensures forall l | l != like :: l in r <==> l in likes
  {
    if like in likes then likes - {like} else likes + {like}
  }

  /** Toggling the same pair twice restores the likes. */
  lemma ToggleLikeTwice(likes: set<Like>, like: Like)
    ensures ToggleLike(ToggleLike(likes, like), like) == likes
  {
    var once := ToggleLike(likes, like);
    assert forall l :: l in ToggleLike(once, like) <==> l in likes;
  }

  /** Toggling different pairs commutes: each toggle leaves every other pair alone. */
  lemma ToggleLikeCommutes(likes: set<Like>, x: Like, y: Like)
    ensures ToggleLike(ToggleLike(likes, x), y) == ToggleLike(ToggleLike(likes, y), x)
  {
    var xy := ToggleLike(ToggleLike(likes, x), y);
    var yx := ToggleLike(ToggleLike(likes, y), x);
    assert forall l :: l in xy <==> l in yx;
  }

  /** A like on a message of account `a` moves the number of likes `a` received
      by exactly one; a like on anybody else's message leaves it as it was. */
  lemma {:induction false} LikesReceivedAfterToggle(likes: set<Like>, messages: map<MessageId, Message>,
                                                    like: Like, a: AccountId)
    ensures var before := ForumModels.LikesReceived(likes, messages, a);
            var after := ForumModels.LikesReceived(ToggleLike(likes, like), messages, a);
            if like.message in messages && messages[like.message].author == Some(a) then
              (like in likes ==> after + 1 == before) && (like !in likes ==> after == before + 1)
            else after == before
  {
    var on := ForumModels.LikesOn(likes, messages, a);
    var onAfter := ForumModels.LikesOn(ToggleLike(likes, like), messages, a);
    if like.message in messages && messages[like.message].author == Some(a) {
      if like in likes {
        assert onAfter == on - {like};
      } else {
        assert onAfter == on + {like};
      }
    } else {
      assert onAfter == on;
    }
  }

  /** Like.like_unlike: `get_or_create` on (message, liker), then a delete when
      the row already existed. A liker without an account cannot be stored (the
      liker column is not nullable): IntegrityError, nothing changes. */
  method LikeUnlike(db: Database, liker: Option<AccountId>, message: MessageId) returns (r: Outcome)
    requires db.Valid()
    modifies db`likes
    ensures db.Valid()
    ensures liker.None? ==> r == Fail(IntegrityError) && db.likes == old(db.likes)
    ensures liker.Some? ==> r == Pass && db.likes == ToggleLike(old(db.likes), Like(message, liker.value))
  {
    if liker.None? {
      return Fail(IntegrityError);
    }
    var like := Like(message, liker.value);
    if like in db.likes {
      db.likes := db.likes - {like};
    } else {
      db.likes := db.likes + {like};
    }
    r := Pass;
  }
}
