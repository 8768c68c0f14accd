/** forum/models/content.py: the rows a bootstrap creates, the author shown for a
    topic or message, the newest-first ordering, and what a delete takes with it
    (every foreign key of the content tables is CASCADE, except the author, which
    is SET_NULL). */
module Content {
  import opened Schema
  import opened Ordering
  import Accounts

  const TestCategoryName := "Catégorie Test"
  const TestSubCategoryName := "Sous catégorie Test"
  const TestTopicTitle := "Bienvenu(e)"

  /** What the `author` property shows once the author reference is gone. */
  const BannedAuthor := "Utilisateur banni"

  /** Category.create_test_category: one category named "Catégorie Test" in the
      forum, with no display index. */
  method CreateTestCategory(db: Database, forum: ForumId) returns (id: CategoryId)
    requires db.Valid() && forum in db.forums
    modifies db`categories, db`nextId
    ensures db.Valid() && id == old(db.nextId) && db.nextId == id + 1
    ensures id !in old(db.categories)
    ensures db.categories == old(db.categories)[id := Category(TestCategoryName, forum, None)]
  {
    assert ForumsOk(db.forums, db.nextId);
    id := db.InsertCategory(Category(TestCategoryName, forum, None));
  }

  /** SubCategory.create_test_subcategory: one sub-category named
      "Sous catégorie Test" under the category. */
  method CreateTestSubcategory(db: Database, category: CategoryId) returns (id: SubCategoryId)
    requires db.Valid() && category in db.categories
    modifies db`subCategories, db`nextId
    ensures db.Valid() && id == old(db.nextId) && db.nextId == id + 1
    ensures id !in old(db.subCategories)
    ensures db.subCategories == old(db.subCategories)[id := SubCategory(TestSubCategoryName, category, None)]
  {
    id := db.InsertSubCategory(SubCategory(TestSubCategoryName, category, None));
  }

  /** Topic.create_topic_test: one topic titled "Bienvenu(e)" by `author`, neither
      closed nor pinned (the field defaults), created `now`. */
  method CreateTopicTest(db: Database, subCategory: SubCategoryId, author: Option<AccountId>, now: int)
    returns (id: TopicId)
    requires db.Valid() && subCategory in db.subCategories && AuthorIn(author, db.accounts)
    modifies db`topics, db`nextId
    ensures db.Valid() && id == old(db.nextId) && db.nextId == id + 1
    ensures id !in old(db.topics)
    ensures db.topics == old(db.topics)[id := Topic(TestTopicTitle, subCategory, false, author, now, false)]
    ensures !db.topics[id].pin && !db.topics[id].closed
  {
    id := db.InsertTopic(Topic(TestTopicTitle, subCategory, false, author, now, false));
  }

  /** Message.message_test: one message in the topic by `author`, not personal
      (the field default), created and updated `now`. Its text is what
      `welcome_message(user)` returns; that function is not part of this model and
      its result is passed in. */
  method MessageTest(db: Database, topic: TopicId, author: Option<AccountId>, welcome: string, now: int)
    returns (id: MessageId)
    requires db.Valid() && topic in db.topics && AuthorIn(author, db.accounts)
    modifies db`messages, db`nextId
    ensures db.Valid() && id == old(db.nextId) && db.nextId == id + 1
    ensures id !in old(db.messages)
    ensures db.messages == old(db.messages)[id := Message(welcome, author, InTopic(topic), false, now, now)]
    ensures !db.messages[id].personal
  {
    assert TopicsOk(db.topics, db.accounts, db.nextId);
    id := db.InsertMessage(Message(welcome, author, InTopic(topic), false, now, now));
  }

  /** The `author` property of Topic and Message: the author's username, or
      "Utilisateur banni" when the author reference is empty. */
  function AuthorName(users: map<UserId, User>, accounts: map<AccountId, Account>,
                      author: Option<AccountId>): (r: string)
    requires AuthorIn(author, accounts)
    requires author.Some? ==> accounts[author.value].user in users
    ensures author.None? ==> r == BannedAuthor
    ensures author.Some? ==> r == users[accounts[author.value].user].username
  {
    if author.Some? then users[accounts[author.value].user].username else BannedAuthor
  }

  /** After a user is deleted, the topics and messages that user's accounts wrote
      show "Utilisateur banni", and every other author still shows the same name. */
  lemma AuthorNameAfterUserDeleted(users: map<UserId, User>, accounts: map<AccountId, Account>,
                                   user: UserId, author: Option<AccountId>)
    requires AuthorIn(author, accounts)
    requires author.Some? ==> accounts[author.value].user in users
    ensures var removed := Accounts.AccountsOf(accounts, user);
            var after := Accounts.Detached(author, removed);
            && AuthorIn(after, accounts - removed)
            && (after.Some? ==> (accounts - removed)[after.value].user in users - {user})
            && AuthorName(users - {user}, accounts - removed, after) ==
                 if author.Some? && accounts[author.value].user == user then BannedAuthor
                 else AuthorName(users, accounts, author)
  {
    var removed := Accounts.AccountsOf(accounts, user);
    if author.Some? && accounts[author.value].user == user {
      assert author.value in removed;
    } else if author.Some? {
      assert author.value !in removed;
    }
  }

  /** The creation times of the topics, which their default ordering sorts on. */
  function TopicCreation(topics: map<TopicId, Topic>): (r: map<TopicId, int>)
    ensures r.Keys == topics.Keys
  {
    map t | t in topics :: topics[t].creation
  }

  /** The creation times of the messages, which their default ordering sorts on. */
  function MessageCreation(messages: map<MessageId, Message>): (r: map<MessageId, int>)
    ensures r.Keys == messages.Keys
  {
    map m | m in messages :: messages[m].creation
  }

  /** A query over the topics `ids`, in the default `-creation` order. */
  ghost function TopicsNewestFirst(topics: map<TopicId, Topic>, ids: set<TopicId>): (r: seq<TopicId>)
    requires ids <= topics.Keys
    ensures |r| == |ids|
    ensures forall t :: t in r <==> t in ids
    ensures forall i, j | 0 <= i < j < |r| :: r[i] != r[j]
    ensures forall i, j | 0 <= i < j < |r| :: topics[r[i]].creation >= topics[r[j]].creation
  {
    var r := SortNewest(ids, TopicCreation(topics));
    assert forall i, j | 0 <= i < j < |r| :: TopicCreation(topics)[r[i]] >= TopicCreation(topics)[r[j]];
    r
  }

  /** A query over the messages `ids`, in the default `-creation` order. */
  ghost function MessagesNewestFirst(messages: map<MessageId, Message>, ids: set<MessageId>)
    : (r: seq<MessageId>)
    requires ids <= messages.Keys
    ensures |r| == |ids|
    ensures forall m :: m in r <==> m in ids
    ensures forall i, j | 0 <= i < j < |r| :: r[i] != r[j]
    ensures forall i, j | 0 <= i < j < |r| :: messages[r[i]].creation >= messages[r[j]].creation
  {
    var r := SortNewest(ids, MessageCreation(messages));
    assert forall i, j | 0 <= i < j < |r| :: MessageCreation(messages)[r[i]] >= MessageCreation(messages)[r[j]];
    r
  }

  /** Topic `t` is stored and its sub-category's category belongs to `forum`
      (the lookup `topic__sub_category__category__forum=forum`). */
  predicate TopicInForum(categories: map<CategoryId, Category>,
                         subCategories: map<SubCategoryId, SubCategory>,
                         topics: map<TopicId, Topic>, forum: ForumId, t: TopicId)
  {
    && t in topics
    && topics[t].subCategory in subCategories
    && subCategories[topics[t].subCategory].category in categories
    && categories[subCategories[topics[t].subCategory].category].forum == forum
  }

  /** The topics of forum `forum`. */
  function ForumTopics(categories: map<CategoryId, Category>,
                       subCategories: map<SubCategoryId, SubCategory>,
                       topics: map<TopicId, Topic>, forum: ForumId): (r: set<TopicId>)
    ensures forall t :: t in r <==> TopicInForum(categories, subCategories, topics, forum, t)
  {
    set t | t in topics && TopicInForum(categories, subCategories, topics, forum, t)
  }

  /** The sub-categories of the categories `ids`. */
  function SubCategoriesUnder(subCategories: map<SubCategoryId, SubCategory>, ids: set<CategoryId>)
    : set<SubCategoryId>
  {
    set s | s in subCategories && subCategories[s].category in ids
  }

  /** The topics of the sub-categories `ids`. */
  function TopicsUnder(topics: map<TopicId, Topic>, ids: set<SubCategoryId>): set<TopicId>
  {
    set t | t in topics && topics[t].subCategory in ids
  }

  /** The messages of the topics `ids`. */
  function MessagesUnder(messages: map<MessageId, Message>, ids: set<TopicId>): set<MessageId>
  {
    set m | m in messages && messages[m].parent.InTopic? && messages[m].parent.topic in ids
  }

  /** Deleting messages: the rows go, and the likes on them with them. */
  method DeleteMessages(db: Database, ids: set<MessageId>)
    requires db.Valid()
    modifies db`messages, db`likes
    ensures db.Valid()
    ensures db.messages == old(db.messages) - ids
    ensures db.likes == LikesOff(old(db.likes), ids)
  {
    db.RemoveMessages(ids);
    db.likes := LikesOff(db.likes, ids);
  }

  /** Deleting topics: the topics go, with their messages and the likes on those. */
  method DeleteTopics(db: Database, ids: set<TopicId>)
    requires db.Valid()
    modifies db`topics, db`messages, db`likes
    ensures db.Valid()
    ensures db.topics == old(db.topics) - ids
    ensures db.messages == old(db.messages) - MessagesUnder(old(db.messages), ids)
    ensures db.likes == LikesOff(old(db.likes), MessagesUnder(old(db.messages), ids))
  {
    var gone := MessagesUnder(db.messages, ids);
    db.RemoveTopics(ids, gone);
    db.likes := LikesOff(db.likes, gone);
  }

  /** Deleting sub-categories: their topics go too, and everything below them. */
  method DeleteSubCategories(db: Database, ids: set<SubCategoryId>)
    requires db.Valid()
    modifies db`subCategories, db`topics, db`messages, db`likes
    ensures db.Valid()
    ensures db.subCategories == old(db.subCategories) - ids
    ensures var topics := TopicsUnder(old(db.topics), ids);
            var messages := MessagesUnder(old(db.messages), topics);
            && db.topics == old(db.topics) - topics
            && db.messages == old(db.messages) - messages
            && db.likes == LikesOff(old(db.likes), messages)
  {
    var topics := TopicsUnder(db.topics, ids);
    var gone := MessagesUnder(db.messages, topics);
    db.RemoveContent(ids, topics, gone);
    db.likes := LikesOff(db.likes, gone);
  }

  /** Deleting a category: its sub-categories go too, and everything below them. */
  method DeleteCategory(db: Database, id: CategoryId)
    requires db.Valid()
    modifies db`categories, db`subCategories, db`topics, db`messages, db`likes
    ensures db.Valid()
    ensures db.categories == old(db.categories) - {id}
    ensures var subs := SubCategoriesUnder(old(db.subCategories), {id});
            var topics := TopicsUnder(old(db.topics), subs);
            var messages := MessagesUnder(old(db.messages), topics);
            && db.subCategories == old(db.subCategories) - subs
            && db.topics == old(db.topics) - topics
            && db.messages == old(db.messages) - messages
            && db.likes == LikesOff(old(db.likes), messages)
  {
    var subs := SubCategoriesUnder(db.subCategories, {id});
    DeleteSubCategories(db, subs);
    db.RemoveCategory(id);
  }

  /** A cascade leaves nothing dangling below what it removed: no surviving
      sub-category belongs to a removed category, no surviving topic to a removed
      sub-category, no surviving message to a removed topic, and no surviving like
      to a removed message. Rows elsewhere survive. */
  lemma CascadeLeavesNoOrphans(categories: set<CategoryId>,
                               subCategories: map<SubCategoryId, SubCategory>,
                               topics: map<TopicId, Topic>, messages: map<MessageId, Message>,
                               likes: set<Like>)
    ensures var subs := SubCategoriesUnder(subCategories, categories);
            var ts := TopicsUnder(topics, subs);
            var ms := MessagesUnder(messages, ts);
            && (forall s | s in subCategories - subs :: subCategories[s].category !in categories)
            && (forall t | t in topics - ts :: topics[t].subCategory !in subs)
            && (forall m | m in messages - ms && messages[m].parent.InTopic? ::
                  messages[m].parent.topic !in ts)
            && (forall l | l in LikesOff(likes, ms) :: l.message !in ms)
            && (forall m | m in messages && !messages[m].parent.InTopic? :: m !in ms)
  {
  }
}
