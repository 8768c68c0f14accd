/** forum/default_data/default_forum_data.py: creating a forum together with its
    first membership and a sample category, sub-category, topic and message. */
module Bootstrap {
  import opened Schema
  import ForumModels
  import Accounts
  import Content

  /** Some stored forum already carries the name (the column is unique). */
  predicate NameTaken(forums: map<ForumId, Forum>, name: string)
  {
    exists f | f in forums :: forums[f].name == name
  }

  /** The forum row the submitted form saves: its master set to the creating
      user, its slug filled by Forum.save when left empty, created `today`. */
  function SavedForum(draft: Forum, user: UserId, slugify: string -> string, today: int): (r: Forum)
    ensures r.master == user && r.name == draft.name && r.creation == today
    ensures draft.slug != [] ==> r.slug == draft.slug
  {
    draft.(master := user, slug := ForumModels.SavedSlug(draft.slug, draft.name, slugify),
           creation := today)
  }

  /** The membership row `ForumAccount.objects.create(forum=forum, user=user)`
      stores: the model defaults, active and not forum master. */
  function FirstAccount(forum: ForumId, user: UserId, today: int): Account
  {
    Account(forum, user, true, today, false, 0, {}, None)
  }

  /** The `k`-th write (counted from 1) completes: no earlier write and not this
      one fails, where `fault` = k means the k-th write fails and 0 that none does. */
  predicate Reached(fault: nat, k: nat)
  {
    fault == 0 || fault > k
  }

  /** How many of the six writes complete: none when the name is taken, else the
      writes before the failing one. */
  function WritesDone(nameTaken: bool, fault: nat): (n: nat)
    ensures n <= 6
    ensures nameTaken ==> n == 0
    ensures !nameTaken ==> forall k | 1 <= k <= 6 :: k <= n <==> Reached(fault, k)
  {
    if nameTaken then 0 else if fault == 0 || fault > 6 then 6 else fault - 1
  }

  /** create_forum_with_data. The six writes run in order, each using the row the
      one before created: the forum (whose master is the creating user), the
      creator's membership, a test category in the forum, a test sub-category in
      it, a welcome topic in that, and a welcome message in the topic. Topic and
      message are written by the creator's new membership. There is no
      transaction: when a write fails, the rows written before it stay. The keys
      are consecutive from `nextId`. */
  method CreateForumWithData(db: Database, draft: Forum, user: UserId, slugify: string -> string,
                             welcome: string, today: int, now: int, fault: nat)
    returns (r: Result<ForumId>)
    requires db.Valid() && user in db.users
    modifies db`forums, db`accounts, db`categories, db`subCategories, db`topics, db`messages,
             db`nextId
    ensures db.Valid()
    ensures var n := WritesDone(NameTaken(old(db.forums), draft.name), fault);
            && db.nextId == old(db.nextId) + n
            && r == (if n == 6 then Ok(old(db.nextId))
                     else if NameTaken(old(db.forums), draft.name) then Err(IntegrityError)
                     else Err(DatabaseFault))
    ensures var done := !NameTaken(old(db.forums), draft.name) && Reached(fault, 1);
            var base := old(db.nextId);
            db.forums == if done then old(db.forums)[base := SavedForum(draft, user, slugify, today)]
                         else old(db.forums)
    ensures var done := !NameTaken(old(db.forums), draft.name) && Reached(fault, 2);
            var base := old(db.nextId);
            db.accounts == if done then old(db.accounts)[base + 1 := FirstAccount(base, user, today)]
                           else old(db.accounts)
    ensures var done := !NameTaken(old(db.forums), draft.name) && Reached(fault, 2);
            SeededSections(old(db.categories), old(db.subCategories), db.categories, db.subCategories,
                           old(db.nextId), if done then fault else 3)
    ensures var done := !NameTaken(old(db.forums), draft.name) && Reached(fault, 4);
            SeededThread(old(db.topics), old(db.messages), db.topics, db.messages,
                         old(db.nextId), if done then fault else 5, welcome, now)
  {
    if NameTaken(db.forums, draft.name) {
      return Err(IntegrityError);
    }
    var forum := db.nextId;
    var ok := OpenForum(db, SavedForum(draft, user, slugify, today), FirstAccount(forum, user, today),
                        fault);
    if !ok {
      return Err(DatabaseFault);
    }
    ok := SeedSections(db, forum, fault);
    if !ok {
      return Err(DatabaseFault);
    }
    ok := SeedThread(db, forum, welcome, now, fault);
    r := if ok then Ok(forum) else Err(DatabaseFault);
  }

  /** Writes one and two of the bootstrap: the forum row, then the membership row
      of the forum's key; `ok` is false when one of them fails. */
  method OpenForum(db: Database, row: Forum, account: Account, fault: nat) returns (ok: bool)
    requires db.Valid() && !NameTaken(db.forums, row.name)
    requires account.forum == db.nextId && account.user in db.users
    modifies db`forums, db`accounts, db`nextId
    ensures db.Valid() && ok == Reached(fault, 2)
    ensures db.nextId == old(db.nextId) + (if fault == 1 then 0 else if fault == 2 then 1 else 2)
    ensures db.forums == if Reached(fault, 1) then old(db.forums)[old(db.nextId) := row]
                         else old(db.forums)
    ensures db.accounts == if Reached(fault, 2) then old(db.accounts)[old(db.nextId) + 1 := account]
                           else old(db.accounts)
  {
    if fault == 1 {
      return false;
    }
    var forum := db.InsertForum(row);
    if fault == 2 {
      return false;
    }
    var member := db.InsertAccount(account);
    ok := true;
  }

  /** The category and sub-category tables after writes three and four of the
      bootstrap of forum `base`: the rows the writes that completed created, at
      keys `base` + 2 and `base` + 3, and nothing else. */
  ghost predicate SeededSections(categories: map<CategoryId, Category>,
                                 subCategories: map<SubCategoryId, SubCategory>,
                                 categories': map<CategoryId, Category>,
                                 subCategories': map<SubCategoryId, SubCategory>,
                                 base: nat, fault: nat)
  {
    && categories' == (if Reached(fault, 3) then
                         categories[base + 2 := Category(Content.TestCategoryName, base, None)]
                       else categories)
    && subCategories' == (if Reached(fault, 4) then
                            subCategories[base + 3 :=
                              SubCategory(Content.TestSubCategoryName, base + 2, None)]
                          else subCategories)
  }

  /** The topic and message tables after writes five and six of the bootstrap of
      forum `base` (its membership is `base` + 1): the welcome topic at `base` + 4
      in sub-category `base` + 3 and the welcome message in it at `base` + 5, both
      by the membership, as far as the writes completed, and nothing else. */
  ghost predicate SeededThread(topics: map<TopicId, Topic>, messages: map<MessageId, Message>,
                               topics': map<TopicId, Topic>, messages': map<MessageId, Message>,
                               base: nat, fault: nat, welcome: string, now: int)
  {
    && topics' == (if Reached(fault, 5) then
                     topics[base + 4 :=
                       Topic(Content.TestTopicTitle, base + 3, false, Some(base + 1), now, false)]
                   else topics)
    && messages' == (if Reached(fault, 6) then
                       messages[base + 5 :=
                         Message(welcome, Some(base + 1), InTopic(base + 4), false, now, now)]
                     else messages)
  }

  /** Writes three and four of the bootstrap: the test category of forum `forum`
      and its test sub-category; `ok` is false when one of them fails. */
  method SeedSections(db: Database, forum: ForumId, fault: nat) returns (ok: bool)
    requires db.Valid() && forum in db.forums && db.nextId == forum + 2
    requires fault == 0 || fault > 2
    modifies db`categories, db`subCategories, db`nextId
    ensures db.Valid() && ok == Reached(fault, 4)
    ensures db.nextId == old(db.nextId) + (if fault == 3 then 0 else if fault == 4 then 1 else 2)
    ensures SeededSections(old(db.categories), old(db.subCategories), db.categories, db.subCategories,
                           forum, fault)
  {
    if fault == 3 {
      return false;
    }
    var category := Content.CreateTestCategory(db, forum);
    if fault == 4 {
      return false;
    }
    var subCategory := Content.CreateTestSubcategory(db, category);
    ok := true;
  }

  /** Writes five and six of the bootstrap of forum `forum`: the welcome topic in
      sub-category `forum` + 3 and the welcome message in it, both by membership
      `forum` + 1; `ok` is false when one of them fails. */
  method SeedThread(db: Database, forum: ForumId, welcome: string, now: int, fault: nat)
    returns (ok: bool)
    requires db.Valid() && forum + 1 in db.accounts && forum + 3 in db.subCategories
    requires db.nextId == forum + 4
    requires fault == 0 || fault > 4
    modifies db`topics, db`messages, db`nextId
    ensures db.Valid() && ok == Reached(fault, 6)
    ensures db.nextId == old(db.nextId) + (if fault == 5 then 0 else if fault == 6 then 1 else 2)
    ensures SeededThread(old(db.topics), old(db.messages), db.topics, db.messages,
                         forum, fault, welcome, now)
  {
    if fault == 5 {
      return false;
    }
    var topic := Content.CreateTopicTest(db, forum + 3, Some(forum + 1), now);
    if fault == 6 {
      return false;
    }
    var message := Content.MessageTest(db, topic, Some(forum + 1), welcome, now);
    ok := true;
  }

  /** After a complete bootstrap, `retrieve_forum_account` finds the creator's
      new membership in the new forum, and it is the only one: no account could
      belong to a forum whose key was just allocated. */
  lemma CreatorAccountFound(accounts: map<AccountId, Account>, forum: ForumId, account: AccountId,
                            user: UserId, today: int)
    requires forall a | a in accounts :: accounts[a].forum < forum
    ensures Accounts.RetrieveForumAccount(accounts[account := FirstAccount(forum, user, today)],
                                          user, forum) == Ok(Some(account))
  {
    var after := accounts[account := FirstAccount(forum, user, today)];
    assert forall b | b in after && after[b].user == user && after[b].forum == forum :: b == account;
    assert after[account].user == user && after[account].forum == forum;
  }
}
