/** The forum's relational store: one map per table, keyed by primary key, and the
    errors the ORM and the views raise. Every other module reads and updates these
    tables the way the Django models and views do. */
module Schema {

  // Primary keys. Users, forums, accounts, categories, sub-categories, topics,
  // messages, conversations and notifications share one counter (`nextId`), so a
  // freshly allocated key is unused in every table. Badges are a static catalog.
  type UserId = nat
  type ThemeId = nat
  type ForumId = nat
  type AccountId = nat
  type CategoryId = nat
  type SubCategoryId = nat
  type TopicId = nat
  type MessageId = nat
  type ConversationId = nat
  type NotificationId = nat
  type BadgeId = nat

  datatype Option<T> = None | Some(value: T)

  /** The exceptions the modelled code raises or lets through. */
  datatype Error =
    | NotFound                 // get_object_or_404 raised Http404
    | DoesNotExist             // Model.objects.get found no row
    | MultipleObjectsReturned  // Model.objects.get found several rows
    | PermissionDenied
    | IntegrityError           // a unique or not-null constraint refused the write
    | AttributeError           // an attribute was read on None
    | ProtectedError           // a PROTECT foreign key refused a delete
    | ValueError(reason: string)
    | ValidationError(reason: string)
    | DatabaseFault            // a write that failed for a reason outside the model

  datatype Outcome = Pass | Fail(error: Error)

  datatype Result<T> = Ok(value: T) | Err(error: Error)

  /** account.models.CustomUser (with the privilege flags AbstractUser adds). */
  datatype User = User(username: string, email: string, firstName: string, lastName: string,
                       password: string, isStaff: bool, isSuperuser: bool)

  /** forum.models.Forum; `thumbnailSize` is the uploaded logo's size in bytes, if any. */
  datatype Forum = Forum(master: UserId, name: string, slug: string, theme: ThemeId,
                         description: string, creation: int, thumbnailSize: Option<nat>)

  /** forum.models.ForumAccount: one user's membership of one forum. */
  datatype Account = Account(forum: ForumId, user: UserId, active: bool, joined: int,
                             forumMaster: bool, notificationCounter: int,
                             badges: set<BadgeId>, thumbnailSize: Option<nat>)

  /** `index` is the display order; the test rows are created without one. */
  datatype Category = Category(name: string, forum: ForumId, index: Option<int>)

  datatype SubCategory = SubCategory(name: string, category: CategoryId, index: Option<int>)

  datatype Topic = Topic(title: string, subCategory: SubCategoryId, closed: bool,
                         author: Option<AccountId>, creation: int, pin: bool)

  /** A message belongs to a topic or to a private conversation. */
  datatype Parent = InTopic(topic: TopicId) | InConversation(conversation: ConversationId)

  datatype Message = Message(text: string, author: Option<AccountId>, parent: Parent,
                             personal: bool, creation: int, updated: int)

  datatype Conversation = Conversation(forum: ForumId, owner: AccountId,
                                       contacts: set<AccountId>, subject: string)

  datatype Notification = Notification(account: AccountId, text: string)

  datatype Like = Like(message: MessageId, liker: AccountId)

  predicate AuthorIn(author: Option<AccountId>, accounts: map<AccountId, Account>)
  {
    author.Some? ==> author.value in accounts
  }

  predicate ParentBelow(p: Parent, bound: nat)
  {
    match p
    case InTopic(t) => t < bound
    case InConversation(c) => c < bound
  }

  /** The whole database. */
  class Database {
    var users: map<UserId, User>
    var forums: map<ForumId, Forum>
    var accounts: map<AccountId, Account>
    var badgeCatalog: map<BadgeId, string>
    var categories: map<CategoryId, Category>
    var subCategories: map<SubCategoryId, SubCategory>
    var topics: map<TopicId, Topic>
    var messages: map<MessageId, Message>
    var conversations: map<ConversationId, Conversation>
    var notifications: map<NotificationId, Notification>
    var likes: set<Like>
    var nextId: nat

    /** Keys are below `nextId`, and so are the references that bind a new row to
        its parent; the foreign keys the notifier and author display follow point to
        rows that exist; usernames, emails and forum names are unique. */
    ghost predicate Valid()
      reads this
    {
      Consistent(users, forums, accounts, categories, subCategories, topics, messages,
                 conversations, notifications, nextId)
    }

    constructor (catalog: map<BadgeId, string>)
      ensures Valid()
      ensures users == map[] && forums == map[] && accounts == map[] && categories == map[]
      ensures subCategories == map[] && topics == map[] && messages == map[]
      ensures conversations == map[] && notifications == map[] && likes == {}
      ensures badgeCatalog == catalog && nextId == 0
    {
      users, forums, accounts, badgeCatalog := map[], map[], map[], catalog;
      categories, subCategories, topics, messages := map[], map[], map[], map[];
      conversations, notifications, likes, nextId := map[], map[], {}, 0;
    }

    /** Allocates the primary key of a new row: unused in every table and not
        referenced by any row. */
    method FreshId() returns (id: nat)
      requires Valid()
      modifies this`nextId
      ensures Valid() && id == old(nextId) && nextId == id + 1
      ensures id !in users && id !in forums && id !in accounts && id !in categories
      ensures id !in subCategories && id !in topics && id !in messages
      ensures id !in conversations && id !in notifications
    {
      id := nextId;
      nextId := nextId + 1;
    }

    /** Inserts a forum whose name no stored forum carries. */
    method InsertForum(row: Forum) returns (id: ForumId)
      requires Valid() && forall f | f in forums :: forums[f].name != row.name
      modifies this`forums, this`nextId
      ensures Valid() && id == old(nextId) && nextId == id + 1
      ensures id !in old(forums) && forums == old(forums)[id := row]
    {
      id := FreshId();
      forums := forums[id := row];
    }

    /** Inserts a membership row for a stored user. */
    method InsertAccount(row: Account) returns (id: AccountId)
      requires Valid() && row.forum < nextId && row.user in users
      modifies this`accounts, this`nextId
      ensures Valid() && id == old(nextId) && nextId == id + 1
      ensures id !in old(accounts) && accounts == old(accounts)[id := row]
    {
      id := FreshId();
      accounts := accounts[id := row];
    }

    /** Rewrites a membership row, keeping its forum and its user. */
    method UpdateAccount(id: AccountId, row: Account)
      requires Valid() && id in accounts
      requires row.forum == accounts[id].forum && row.user == accounts[id].user
      modifies this`accounts
      ensures Valid() && accounts == old(accounts)[id := row]
    {
      accounts := accounts[id := row];
    }

    method InsertCategory(row: Category) returns (id: CategoryId)
      requires Valid() && row.forum < nextId
      modifies this`categories, this`nextId
      ensures Valid() && id == old(nextId) && nextId == id + 1
      ensures id !in old(categories) && categories == old(categories)[id := row]
    {
      id := FreshId();
      categories := categories[id := row];
    }

    method InsertSubCategory(row: SubCategory) returns (id: SubCategoryId)
      requires Valid() && row.category < nextId
      modifies this`subCategories, this`nextId
      ensures Valid() && id == old(nextId) && nextId == id + 1
      ensures id !in old(subCategories) && subCategories == old(subCategories)[id := row]
    {
      id := FreshId();
      subCategories := subCategories[id := row];
    }

    method InsertTopic(row: Topic) returns (id: TopicId)
      requires Valid() && row.subCategory < nextId && AuthorIn(row.author, accounts)
      modifies this`topics, this`nextId
      ensures Valid() && id == old(nextId) && nextId == id + 1
      ensures id !in old(topics) && topics == old(topics)[id := row]
    {
      id := FreshId();
      topics := topics[id := row];
    }

    /** Rewrites a topic row, keeping its sub-category and its author. */
    method UpdateTopic(id: TopicId, row: Topic)
      requires Valid() && id in topics
      requires row.subCategory == topics[id].subCategory && row.author == topics[id].author
      modifies this`topics
      ensures Valid() && topics == old(topics)[id := row]
    {
      topics := topics[id := row];
    }

    method InsertMessage(row: Message) returns (id: MessageId)
      requires Valid() && ParentBelow(row.parent, nextId) && AuthorIn(row.author, accounts)
      modifies this`messages, this`nextId
      ensures Valid() && id == old(nextId) && nextId == id + 1
      ensures id !in old(messages) && messages == old(messages)[id := row]
    {
      id := FreshId();
      messages := messages[id := row];
    }

    /** Rewrites a message row, keeping its parent and its author. */
    method UpdateMessage(id: MessageId, row: Message)
      requires Valid() && id in messages
      requires row.parent == messages[id].parent && row.author == messages[id].author
      modifies this`messages
      ensures Valid() && messages == old(messages)[id := row]
    {
      messages := messages[id := row];
    }

    method InsertNotification(row: Notification) returns (id: NotificationId)
      requires Valid()
      modifies this`notifications, this`nextId
      ensures Valid() && id == old(nextId) && nextId == id + 1
      ensures id !in old(notifications) && notifications == old(notifications)[id := row]
    {
      id := FreshId();
      notifications := notifications[id := row];
    }

    /** Deletes rows of the topic, message and sub-category tables; the remaining
        rows still satisfy the invariant (parent references only need to be
        below `nextId`). */
    method RemoveContent(subCategoryIds: set<SubCategoryId>, topicIds: set<TopicId>,
                         messageIds: set<MessageId>)
      requires Valid()
      modifies this`subCategories, this`topics, this`messages
      ensures Valid()
      ensures subCategories == old(subCategories) - subCategoryIds
      ensures topics == old(topics) - topicIds
      ensures messages == old(messages) - messageIds
    {
      subCategories, topics, messages := subCategories - subCategoryIds, topics - topicIds,
                                         messages - messageIds;
    }

    /** Deletes rows of the topic and message tables. */
    method RemoveTopics(topicIds: set<TopicId>, messageIds: set<MessageId>)
      requires Valid()
      modifies this`topics, this`messages
      ensures Valid()
      ensures topics == old(topics) - topicIds && messages == old(messages) - messageIds
    {
      topics, messages := topics - topicIds, messages - messageIds;
    }

    /** Deletes rows of the message table. */
    method RemoveMessages(messageIds: set<MessageId>)
      requires Valid()
      modifies this`messages
      ensures Valid() && messages == old(messages) - messageIds
    {
      messages := messages - messageIds;
    }

    method RemoveCategory(id: CategoryId)
      requires Valid()
      modifies this`categories
      ensures Valid() && categories == old(categories) - {id}
    {
      categories := categories - {id};
    }
  }

  /** The invariant of the tables, stated on their values. */
  ghost predicate Consistent(users: map<UserId, User>, forums: map<ForumId, Forum>,
                             accounts: map<AccountId, Account>,
                             categories: map<CategoryId, Category>,
                             subCategories: map<SubCategoryId, SubCategory>,
                             topics: map<TopicId, Topic>, messages: map<MessageId, Message>,
                             conversations: map<ConversationId, Conversation>,
                             notifications: map<NotificationId, Notification>, nextId: nat)
  {
    && UsersOk(users, nextId)
    && ForumsOk(forums, nextId)
    && AccountsOk(accounts, users, nextId)
    && (forall c | c in categories :: c < nextId && categories[c].forum < nextId)
    && (forall s | s in subCategories :: s < nextId && subCategories[s].category < nextId)
    && TopicsOk(topics, accounts, nextId)
    && MessagesOk(messages, accounts, nextId)
    && ConversationsOk(conversations, accounts, nextId)
    && (forall n | n in notifications :: n < nextId)
  }

  /** Rewriting an account row without moving it to another forum or user keeps
      the tables consistent. */
  lemma AccountRowKeepsConsistent(users: map<UserId, User>, forums: map<ForumId, Forum>,
                                  accounts: map<AccountId, Account>,
                                  categories: map<CategoryId, Category>,
                                  subCategories: map<SubCategoryId, SubCategory>,
                                  topics: map<TopicId, Topic>, messages: map<MessageId, Message>,
                                  conversations: map<ConversationId, Conversation>,
                                  notifications: map<NotificationId, Notification>, nextId: nat,
                                  id: AccountId, row: Account)
    requires Consistent(users, forums, accounts, categories, subCategories, topics, messages,
                        conversations, notifications, nextId)
    requires id in accounts && row.forum == accounts[id].forum && row.user == accounts[id].user
    ensures Consistent(users, forums, accounts[id := row], categories, subCategories, topics,
                       messages, conversations, notifications, nextId)
  {
  }

  /** Users: keys below `bound`, usernames and emails unique. */
  ghost predicate UsersOk(users: map<UserId, User>, bound: nat)
  {
    && (forall u | u in users :: u < bound)
    && (forall u, v | u in users && v in users && u != v ::
          users[u].username != users[v].username && users[u].email != users[v].email)
  }

  /** Forums: keys below `bound`, names unique. */
  ghost predicate ForumsOk(forums: map<ForumId, Forum>, bound: nat)
  {
    && (forall f | f in forums :: f < bound)
    && (forall f, g | f in forums && g in forums && f != g :: forums[f].name != forums[g].name)
  }

  /** Accounts: keys and forums below `bound`, every account's user stored. */
  ghost predicate AccountsOk(accounts: map<AccountId, Account>, users: map<UserId, User>, bound: nat)
  {
    forall a | a in accounts :: a < bound && accounts[a].forum < bound && accounts[a].user in users
  }

  /** Conversations: keys below `bound`; the owner and every contact are stored
      memberships (the owner is CASCADE, and a deleted contact leaves the
      many-to-many table). */
  ghost predicate ConversationsOk(conversations: map<ConversationId, Conversation>,
                                  accounts: map<AccountId, Account>, bound: nat)
  {
    forall c | c in conversations ::
      c < bound && conversations[c].owner in accounts && conversations[c].contacts <= accounts.Keys
  }

  /** Topics: keys and sub-categories below `bound`, authors absent or stored. */
  ghost predicate TopicsOk(topics: map<TopicId, Topic>, accounts: map<AccountId, Account>, bound: nat)
  {
    forall t | t in topics ::
      t < bound && topics[t].subCategory < bound && AuthorIn(topics[t].author, accounts)
  }

  /** Messages: keys and parents below `bound`, authors absent or stored. */
  ghost predicate MessagesOk(messages: map<MessageId, Message>, accounts: map<AccountId, Account>,
                             bound: nat)
  {
    forall m | m in messages ::
      m < bound && ParentBelow(messages[m].parent, bound) && AuthorIn(messages[m].author, accounts)
  }

  /** The likes that survive the deletion of the messages `ids` (Like.message is
      CASCADE). */
  function LikesOff(likes: set<Like>, ids: set<MessageId>): (r: set<Like>)
    ensures forall l :: l in r <==> l in likes && l.message !in ids
  {
    set l | l in likes && l.message !in ids
  }

  /** The outcome of `Model.objects.get(...)` over the rows `matches` selects:
      the row when there is exactly one, `missing` when there is none, and
      MultipleObjectsReturned when there are several. */
  function GetUnique<K>(matches: set<K>, missing: Error): (r: Result<K>)
    ensures r.Ok? <==> |matches| == 1
    ensures r.Ok? ==> matches == {r.value}
    ensures matches == {} ==> r == Err(missing)
    ensures |matches| > 1 ==>
              r == Err(MultipleObjectsReturned) && exists x, y :: x in matches && y in matches && x != y
  {
    if |matches| == 0 then Err(missing)
    else if |matches| == 1 then
      var x :| x in matches;
      SingletonIs(matches, x);
      Ok(x)
    else
      HasTwo(matches);
      Err(MultipleObjectsReturned)
  }

  lemma SingletonIs<K>(s: set<K>, x: K)
    requires |s| == 1 && x in s
    ensures s == {x}
  {
    assert |s - {x}| == 0;
  }

  lemma HasTwo<K>(s: set<K>)
    requires |s| >= 2
    ensures exists x, y :: x in s && y in s && x != y
  {
    var x :| x in s;
    assert |s - {x}| >= 1;
    var y :| y in s - {x};
  }
}
