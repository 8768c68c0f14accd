/** account/models.py: creating users and superusers, looking up a user's
    account in a forum, and what deleting a user does to the rows that refer to it. */
module Accounts {
  import opened Schema

  /** The extra keyword arguments create_user passes through to the model. */
  datatype Privileges = Privileges(isStaff: bool, isSuperuser: bool)

  const UsernameMissing := ValueError("Username must be set")
  const EmailMissing := ValueError("Email must be set")
  const FirstNameMissing := ValueError("First name must be set")
  const LastNameMissing := ValueError("Last name must be set")
  const StaffRequired := ValueError("Superuser must have is_staff=True.")
  const SuperuserRequired := ValueError("Superuser must have is_superuser=True.")

  /** The guard clauses of create_user: the first empty field, in the order
      username, email, first name, last name, is reported. */
  function CheckRequiredFields(username: string, email: string, firstName: string,
                               lastName: string): (r: Outcome)
    ensures r == Pass <==> username != [] && email != [] && firstName != [] && lastName != []
    ensures username == [] ==> r == Fail(UsernameMissing)
    ensures username != [] && email == [] ==> r == Fail(EmailMissing)
    ensures username != [] && email != [] && firstName == [] ==> r == Fail(FirstNameMissing)
    ensures username != [] && email != [] && firstName != [] && lastName == [] ==>
              r == Fail(LastNameMissing)
  {
    if username == [] then Fail(UsernameMissing)
    else if email == [] then Fail(EmailMissing)
    else if firstName == [] then Fail(FirstNameMissing)
    else if lastName == [] then Fail(LastNameMissing)
    else Pass
  }

  /** create_superuser's flag handling: an absent flag defaults to True, and a flag
      given as anything but True is refused, is_staff first. */
  function SuperuserFlags(isStaff: Option<bool>, isSuperuser: Option<bool>): (r: Result<Privileges>)
    ensures r.Ok? <==> isStaff != Some(false) && isSuperuser != Some(false)
    ensures r.Ok? ==> r.value == Privileges(true, true)
    ensures isStaff == Some(false) ==> r == Err(StaffRequired)
    ensures isStaff != Some(false) && isSuperuser == Some(false) ==> r == Err(SuperuserRequired)
  {
    var staff := if isStaff.Some? then isStaff.value else true;
    var superuser := if isSuperuser.Some? then isSuperuser.value else true;
    if !staff then Err(StaffRequired)
    else if !superuser then Err(SuperuserRequired)
    else Ok(Privileges(staff, superuser))
  }

  /** Saving a user whose username or email is already stored breaks a unique
      constraint. */
  predicate Taken(users: map<UserId, User>, username: string, email: string)
  {
    exists u | u in users :: users[u].username == username || users[u].email == email
  }

  /** CustomManager.create_user. `normalizeEmail` and `hashPassword` stand for
      BaseUserManager.normalize_email and set_password, whose code is not part of
      this model. */
  method CreateUser(db: Database, username: string, email: string, firstName: string,
                    lastName: string, password: string, privileges: Privileges,
                    normalizeEmail: string -> string, hashPassword: string -> string)
    returns (r: Result<UserId>)
    requires db.Valid()
    modifies db`users, db`nextId
    ensures db.Valid()
    ensures CheckRequiredFields(username, email, firstName, lastName).Fail? ==>
              r == Err(CheckRequiredFields(username, email, firstName, lastName).error)
              && unchanged(db)
    ensures CheckRequiredFields(username, email, firstName, lastName) == Pass
            && Taken(old(db.users), username, normalizeEmail(email)) ==>
              r == Err(IntegrityError) && unchanged(db)
    ensures CheckRequiredFields(username, email, firstName, lastName) == Pass
            && !Taken(old(db.users), username, normalizeEmail(email)) ==>
              r.Ok? && r.value !in old(db.users)
              && db.users == old(db.users)[r.value := User(username, normalizeEmail(email), firstName,
                                                            lastName, hashPassword(password),
                                                            privileges.isStaff, privileges.isSuperuser)]
  {
    var checked := CheckRequiredFields(username, email, firstName, lastName);
    if checked.Fail? {
      return Err(checked.error);
    }
    var normalized := normalizeEmail(email);
    if Taken(db.users, username, normalized) {
      return Err(IntegrityError);
    }
    var id := db.FreshId();
    db.users := db.users[id := User(username, normalized, firstName, lastName,
                                    hashPassword(password), privileges.isStaff,
                                    privileges.isSuperuser)];
    r := Ok(id);
  }

  /** CustomManager.create_superuser: the flags are checked before create_user's
      own checks run. */
  method CreateSuperuser(db: Database, username: string, email: string, firstName: string,
                         lastName: string, password: string, isStaff: Option<bool>,
                         isSuperuser: Option<bool>, normalizeEmail: string -> string,
                         hashPassword: string -> string)
    returns (r: Result<UserId>)
    requires db.Valid()
    modifies db`users, db`nextId
    ensures db.Valid()
    ensures SuperuserFlags(isStaff, isSuperuser).Err? ==>
              r == Err(SuperuserFlags(isStaff, isSuperuser).error) && unchanged(db)
    ensures r.Ok? ==> SuperuserFlags(isStaff, isSuperuser).Ok?
                      && r.value !in old(db.users) && r.value in db.users
                      && db.users[r.value].isStaff && db.users[r.value].isSuperuser
                      && db.users == old(db.users)[r.value := db.users[r.value]]
    ensures SuperuserFlags(isStaff, isSuperuser).Ok? ==>
              (r.Ok? <==> CheckRequiredFields(username, email, firstName, lastName) == Pass
                          && !Taken(old(db.users), username, normalizeEmail(email)))
    ensures SuperuserFlags(isStaff, isSuperuser).Ok?
            && CheckRequiredFields(username, email, firstName, lastName).Fail? ==>
              r == Err(CheckRequiredFields(username, email, firstName, lastName).error)
              && unchanged(db)
    ensures SuperuserFlags(isStaff, isSuperuser).Ok?
            && CheckRequiredFields(username, email, firstName, lastName) == Pass
            && Taken(old(db.users), username, normalizeEmail(email)) ==>
              r == Err(IntegrityError) && unchanged(db)
    ensures r.Ok? ==> db.users == old(db.users)[r.value := User(username, normalizeEmail(email),
                                                              firstName, lastName,
                                                              hashPassword(password), true, true)]
  {
    var flags := SuperuserFlags(isStaff, isSuperuser);
    if flags.Err? {
      return Err(flags.error);
    }
    r := CreateUser(db, username, email, firstName, lastName, password, flags.value,
                    normalizeEmail, hashPassword);
  }

  /** CustomUser.retrieve_forum_account: the user's account in the forum, None
      when there is none; several accounts make `get` raise, which the method does
      not catch. */
  function RetrieveForumAccount(accounts: map<AccountId, Account>, user: UserId,
                                forum: ForumId): (r: Result<Option<AccountId>>)
    ensures r == Ok(None) <==>
              forall a | a in accounts :: !(accounts[a].user == user && accounts[a].forum == forum)
    ensures r.Ok? && r.value.Some? ==>
              var a := r.value.value;
              a in accounts && accounts[a].user == user && accounts[a].forum == forum
              && forall b | b in accounts && accounts[b].user == user && accounts[b].forum == forum :: b == a
    ensures r.Err? ==> r.error == MultipleObjectsReturned
    ensures r.Err? ==> exists a, b | a in accounts && b in accounts && a != b ::
              && accounts[a].user == user && accounts[a].forum == forum
              && accounts[b].user == user && accounts[b].forum == forum
  {
    var matches := set a | a in accounts && accounts[a].user == user && accounts[a].forum == forum;
    assert forall b | b in accounts && accounts[b].user == user && accounts[b].forum == forum :: b in matches;
    var found := GetUnique(matches, DoesNotExist);
    if found.Ok? then
      assert found.value in matches;
      Ok(Some(found.value))
    else if matches == {} then Ok(None)
    else
      var a :| a in matches;
      Err(found.error)
  }

  /** The accounts a user holds, in every forum. */
  function AccountsOf(accounts: map<AccountId, Account>, user: UserId): set<AccountId>
  {
    set a | a in accounts && accounts[a].user == user
  }

  /** An author reference after the accounts `removed` are deleted (on_delete=SET_NULL). */
  function Detached(author: Option<AccountId>, removed: set<AccountId>): Option<AccountId>
  {
    if author.Some? && author.value in removed then None else author
  }

  /** The topics after the accounts `removed` are deleted: every topic stays, and
      only an author among `removed` is replaced by None. */
  function DetachTopics(topics: map<TopicId, Topic>, removed: set<AccountId>): (r: map<TopicId, Topic>)
    ensures r.Keys == topics.Keys
    ensures forall t | t in r :: r[t] == topics[t].(author := Detached(topics[t].author, removed))
    ensures forall t | t in r :: r[t].author.Some? ==> r[t].author.value !in removed
  {
    map t | t in topics :: topics[t].(author := Detached(topics[t].author, removed))
  }

  /** The messages after the accounts `removed` are deleted, likewise. */
  function DetachMessages(messages: map<MessageId, Message>, removed: set<AccountId>)
    : (r: map<MessageId, Message>)
    ensures r.Keys == messages.Keys
    ensures forall m | m in r :: r[m] == messages[m].(author := Detached(messages[m].author, removed))
    ensures forall m | m in r :: r[m].author.Some? ==> r[m].author.value !in removed
  {
    map m | m in messages :: messages[m].(author := Detached(messages[m].author, removed))
  }

  /** The likes that survive the deletion of the accounts `removed`. */
  function LikesWithout(likes: set<Like>, removed: set<AccountId>): (r: set<Like>)
    ensures forall l :: l in r <==> l in likes && l.liker !in removed
  {
    set l | l in likes && l.liker !in removed
  }

  /** The notifications that survive the deletion of the accounts `removed`. */
  function NotificationsWithout(notifications: map<NotificationId, Notification>,
                                removed: set<AccountId>): (r: map<NotificationId, Notification>)
    ensures forall n :: n in r <==> n in notifications && notifications[n].account !in removed
    ensures forall n | n in r :: r[n] == notifications[n]
  {
    map n | n in notifications && notifications[n].account !in removed :: notifications[n]
  }

  /** The conversations that go with the accounts `removed`: those they own
      (the owner reference is CASCADE). */
  function OwnedBy(conversations: map<ConversationId, Conversation>, removed: set<AccountId>)
    : (r: set<ConversationId>)
    ensures forall c :: c in r <==> c in conversations && conversations[c].owner in removed
  {
    set c | c in conversations && conversations[c].owner in removed
  }

  /** The conversations after the accounts `removed` are deleted: those they own
      go, and they leave the contacts of every other one. */
  function ConversationsWithout(conversations: map<ConversationId, Conversation>,
                                removed: set<AccountId>): (r: map<ConversationId, Conversation>)
    ensures forall c :: c in r <==> c in conversations && conversations[c].owner !in removed
    ensures forall c | c in r ::
              r[c] == conversations[c].(contacts := conversations[c].contacts - removed)
    ensures forall c | c in r :: r[c].owner !in removed && r[c].contacts !! removed
  {
    map c | c in conversations && conversations[c].owner !in removed ::
      conversations[c].(contacts := conversations[c].contacts - removed)
  }

  /** The messages posted in the conversations `ids` (Message.personal_messaging
      is CASCADE). */
  function MessagesIn(messages: map<MessageId, Message>, ids: set<ConversationId>)
    : (r: set<MessageId>)
    ensures forall m :: m in r <==> (m in messages && messages[m].parent.InConversation?
                                     && messages[m].parent.conversation in ids)
  {
    set m | m in messages && messages[m].parent.InConversation?
            && messages[m].parent.conversation in ids
  }

  /** The user is the master of some forum. */
  predicate MastersAForum(forums: map<ForumId, Forum>, user: UserId)
  {
    exists f | f in forums :: forums[f].master == user
  }

  /** Deleting a user. Forum.forum_master is PROTECT, so a user who owns a forum
      cannot be deleted and nothing changes. Otherwise the user's accounts go
      (CASCADE), and with them their likes and notifications (CASCADE), the
      conversations they own with the messages posted there and the likes on
      those, and their places among other conversations' contacts; topics and
      the other messages stay, with their author reference set to None (SET_NULL). */
  method DeleteUser(db: Database, user: UserId) returns (r: Outcome)
    requires db.Valid() && user in db.users
    modifies db`users, db`accounts, db`conversations, db`topics, db`messages, db`likes,
             db`notifications
    ensures db.Valid()
    ensures MastersAForum(old(db.forums), user) ==> r == Fail(ProtectedError) && unchanged(db)
    ensures !MastersAForum(old(db.forums), user) ==> r == Pass
    ensures !MastersAForum(old(db.forums), user) ==>
              var removed := AccountsOf(old(db.accounts), user);
              var closed := MessagesIn(old(db.messages), OwnedBy(old(db.conversations), removed));
              && db.users == old(db.users) - {user}
              && db.accounts == old(db.accounts) - removed
              && db.conversations == ConversationsWithout(old(db.conversations), removed)
              && db.topics == DetachTopics(old(db.topics), removed)
              && db.messages == DetachMessages(old(db.messages) - closed, removed)
              && db.likes == LikesWithout(LikesOff(old(db.likes), closed), removed)
              && db.notifications == NotificationsWithout(old(db.notifications), removed)
  {
    if MastersAForum(db.forums, user) {
      return Fail(ProtectedError);
    }
    var removed := AccountsOf(db.accounts, user);
    CloseConversations(db, removed);
    DetachAuthors(db, removed);
    DropAccountRows(db, removed);
    RemoveAccounts(db, user);
    r := Pass;
  }

  /** The CASCADE step for the conversations of the accounts `removed`: those
      they own go with their messages and the likes on these, and the others
      drop them from their contacts. */
  method CloseConversations(db: Database, removed: set<AccountId>)
    requires db.Valid()
    modifies db`conversations, db`messages, db`likes
    ensures db.Valid()
    ensures db.conversations == ConversationsWithout(old(db.conversations), removed)
    ensures var closed := MessagesIn(old(db.messages), OwnedBy(old(db.conversations), removed));
            db.messages == old(db.messages) - closed && db.likes == LikesOff(old(db.likes), closed)
  {
    var closed := MessagesIn(db.messages, OwnedBy(db.conversations, removed));
    db.RemoveMessages(closed);
    db.likes := LikesOff(db.likes, closed);
    assert ConversationsOk(db.conversations, db.accounts, db.nextId);
    db.conversations := ConversationsWithout(db.conversations, removed);
    assert ConversationsOk(db.conversations, db.accounts, db.nextId);
  }

  /** The SET_NULL step: authors among `removed` become None. */
  method DetachAuthors(db: Database, removed: set<AccountId>)
    requires db.Valid()
    modifies db`topics, db`messages
    ensures db.Valid()
    ensures db.topics == DetachTopics(old(db.topics), removed)
    ensures db.messages == DetachMessages(old(db.messages), removed)
  {
    DetachKeepsConsistent(db.users, db.forums, db.accounts, db.categories, db.subCategories,
                          db.topics, db.messages, db.conversations, db.notifications, db.nextId,
                          removed);
    db.topics, db.messages := DetachTopics(db.topics, removed), DetachMessages(db.messages, removed);
  }

  /** The CASCADE step for the rows that hang off the accounts `removed`: their
      likes and notifications go. */
  method DropAccountRows(db: Database, removed: set<AccountId>)
    requires db.Valid()
    modifies db`likes, db`notifications
    ensures db.Valid()
    ensures db.likes == LikesWithout(old(db.likes), removed)
    ensures db.notifications == NotificationsWithout(old(db.notifications), removed)
  {
    db.likes, db.notifications := LikesWithout(db.likes, removed),
                                  NotificationsWithout(db.notifications, removed);
  }

  /** The CASCADE step: the user and its accounts go, once nothing stored names
      those accounts as author, owner or contact. */
  method RemoveAccounts(db: Database, user: UserId)
    requires db.Valid()
    requires forall t | t in db.topics :: db.topics[t].author.Some? ==>
               db.topics[t].author.value !in AccountsOf(db.accounts, user)
    requires forall m | m in db.messages :: db.messages[m].author.Some? ==>
               db.messages[m].author.value !in AccountsOf(db.accounts, user)
    requires forall c | c in db.conversations ::
               db.conversations[c].owner !in AccountsOf(db.accounts, user)
               && db.conversations[c].contacts !! AccountsOf(db.accounts, user)
    modifies db`users, db`accounts
    ensures db.Valid()
    ensures db.users == old(db.users) - {user}
    ensures db.accounts == old(db.accounts) - AccountsOf(old(db.accounts), user)
  {
    RemovalKeepsConsistent(db.users, db.forums, db.accounts, db.categories, db.subCategories,
                           db.topics, db.messages, db.conversations, db.notifications, db.nextId,
                           user);
    db.users, db.accounts := db.users - {user}, db.accounts - AccountsOf(db.accounts, user);
  }

  /** Detaching authors keeps the tables consistent. */
  lemma DetachKeepsConsistent(users: map<UserId, User>, forums: map<ForumId, Forum>,
                              accounts: map<AccountId, Account>,
                              categories: map<CategoryId, Category>,
                              subCategories: map<SubCategoryId, SubCategory>,
                              topics: map<TopicId, Topic>, messages: map<MessageId, Message>,
                              conversations: map<ConversationId, Conversation>,
                              notifications: map<NotificationId, Notification>, nextId: nat,
                              removed: set<AccountId>)
    requires Consistent(users, forums, accounts, categories, subCategories, topics, messages,
                        conversations, notifications, nextId)
    ensures Consistent(users, forums, accounts, categories, subCategories,
                       DetachTopics(topics, removed), DetachMessages(messages, removed),
                       conversations, notifications, nextId)
  {
  }

  /** Removing a user and its accounts keeps the tables consistent once no topic
      or message names one of those accounts. */
  lemma RemovalKeepsConsistent(users: map<UserId, User>, forums: map<ForumId, Forum>,
                               accounts: map<AccountId, Account>,
                               categories: map<CategoryId, Category>,
                               subCategories: map<SubCategoryId, SubCategory>,
                               topics: map<TopicId, Topic>, messages: map<MessageId, Message>,
                               conversations: map<ConversationId, Conversation>,
                               notifications: map<NotificationId, Notification>, nextId: nat,
                               user: UserId)
    requires Consistent(users, forums, accounts, categories, subCategories, topics, messages,
                        conversations, notifications, nextId)
    requires forall t | t in topics :: topics[t].author.Some? ==>
               topics[t].author.value !in AccountsOf(accounts, user)
    requires forall m | m in messages :: messages[m].author.Some? ==>
               messages[m].author.value !in AccountsOf(accounts, user)
    requires forall c | c in conversations :: conversations[c].owner !in AccountsOf(accounts, user)
               && conversations[c].contacts !! AccountsOf(accounts, user)
    ensures Consistent(users - {user}, forums, accounts - AccountsOf(accounts, user), categories,
                       subCategories, topics, messages, conversations, notifications, nextId)
  {
  }
}
