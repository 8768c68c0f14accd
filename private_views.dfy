/** forum/views/private.py: the private conversations of a forum. The forum is
    found by its slug. `user_has_active_forum_account`, which is not part of this
    model, either raises or returns the caller's account in the forum: its result
    is the `guard` parameter. Ownership is checked between users, through the
    account a conversation or a message names. */
module PrivateViews {
  import opened Schema
  import Security
  import Content

  /** `get_object_or_404(Forum, slug=slug)`: the slug is not unique, so two forums
      sharing it make the lookup raise. */
  function ForumBySlug(forums: map<ForumId, Forum>, slug: string): (r: Result<ForumId>)
    ensures r.Ok? ==> r.value in forums && forums[r.value].slug == slug
                      && forall f | f in forums && forums[f].slug == slug :: f == r.value
    ensures (forall f | f in forums :: forums[f].slug != slug) <==> r == Err(NotFound)
    ensures r.Err? && r.error != NotFound ==>
              && r.error == MultipleObjectsReturned
              && exists f, g :: f in forums && g in forums && f != g
                                && forums[f].slug == slug && forums[g].slug == slug
  {
    var named := set f | f in forums && forums[f].slug == slug;
    assert (forall f | f in forums :: forums[f].slug != slug) <==> named == {} by {
      if named != {} {
        var f :| f in named;
      } else {
        assert forall f | f in forums :: f !in named;
      }
    }
    var r := GetUnique(named, NotFound);
    if r.Err? && r.error != NotFound then
      var f, g :| f in named && g in named && f != g;
      r
    else if r == Err(NotFound) then
      assert |named| == 0;
      r
    else
      assert named == {r.value};
      assert forall f | f in forums && forums[f].slug == slug :: f in named;
      r
  }

  /** The result of `user_has_active_forum_account(user, forum)`, when it returns,
      is an account of that user in that forum. */
  predicate GuardSound(accounts: map<AccountId, Account>, user: UserId, forum: ForumId,
                       guard: Result<AccountId>)
  {
    guard.Ok? ==> guard.value in accounts && accounts[guard.value].user == user
                  && accounts[guard.value].forum == forum
  }

  /** The user behind account `a`, if it is stored. */
  function UserOf(accounts: map<AccountId, Account>, a: Option<AccountId>): (r: Option<UserId>)
    ensures r.Some? <==> a.Some? && a.value in accounts
    ensures r.Some? ==> r.value == accounts[a.value].user
  {
    if a.Some? && a.value in accounts then Some(accounts[a.value].user) else None
  }

  /** `user` owns conversation `c` (`conversation.user == user`). */
  predicate Owns(accounts: map<AccountId, Account>, c: Conversation, user: UserId)
  {
    UserOf(accounts, Some(c.owner)) == Some(user)
  }

  /** `user` is among the contacts of conversation `c`. */
  predicate IsContact(accounts: map<AccountId, Account>, c: Conversation, user: UserId)
  {
    exists a | a in c.contacts :: UserOf(accounts, Some(a)) == Some(user)
  }

  /** The two lists of `personal_messaging`. */
  datatype Inbox = Inbox(owned: set<ConversationId>, contacted: set<ConversationId>)

  /** `personal_messaging`: the forum by slug, the active-account guard, then the
      forum's conversations the user owns and those the user is a contact of. */
  function PersonalMessaging(forums: map<ForumId, Forum>, accounts: map<AccountId, Account>,
                             conversations: map<ConversationId, Conversation>, user: UserId,
                             slug: string, guard: Result<AccountId>): (r: Result<Inbox>)
    ensures r.Ok? <==> ForumBySlug(forums, slug).Ok? && guard.Ok?
    ensures r.Ok? ==>
              var forum := ForumBySlug(forums, slug).value;
              && (forall c :: c in r.value.owned <==>
                    c in conversations && conversations[c].forum == forum
                    && Owns(accounts, conversations[c], user))
              && (forall c :: c in r.value.contacted <==>
                    c in conversations && conversations[c].forum == forum
                    && IsContact(accounts, conversations[c], user))
  {
    var found := ForumBySlug(forums, slug);
    if found.Err? then Err(found.error)
    else if guard.Err? then Err(guard.error)
    else
      var forum := found.value;
      var owned := set c | c in conversations && conversations[c].forum == forum
                           && Owns(accounts, conversations[c], user);
      var contacted := set c | c in conversations && conversations[c].forum == forum
                               && IsContact(accounts, conversations[c], user);
      Ok(Inbox(owned, contacted))
  }

  /** The lookups of `conversation_view`, in order: the forum by slug, the
      conversation (404, by key alone), the active-account guard, then the
      participant check. The result is the caller's account. */
  function ConversationGate(forums: map<ForumId, Forum>, accounts: map<AccountId, Account>,
                            conversations: map<ConversationId, Conversation>, user: UserId,
                            slug: string, conversation: ConversationId, guard: Result<AccountId>)
    : (r: Result<AccountId>)
    ensures r.Ok? <==> && ForumBySlug(forums, slug).Ok? && conversation in conversations
                       && guard.Ok?
                       && (Owns(accounts, conversations[conversation], user)
                           || IsContact(accounts, conversations[conversation], user))
    ensures r.Ok? ==> r == guard
    ensures (ForumBySlug(forums, slug).Ok? && conversation in conversations && guard.Ok?
             && !Owns(accounts, conversations[conversation], user)
             && !IsContact(accounts, conversations[conversation], user)) ==> r == Err(PermissionDenied)
  {
    var found := ForumBySlug(forums, slug);
    if found.Err? then Err(found.error)
    else if conversation !in conversations then Err(NotFound)
    else if guard.Err? then Err(guard.error)
    else if !Owns(accounts, conversations[conversation], user)
            && !IsContact(accounts, conversations[conversation], user) then Err(PermissionDenied)
    else guard
  }

  /** `conversation_view`, POST: after the lookups pass, a valid form stores the
      message in the conversation, by the caller's account. No notification is
      sent and the message keeps the default `personal` flag. */
  method ConversationPost(db: Database, user: UserId, slug: string, conversation: ConversationId,
                          guard: Result<AccountId>, text: Option<string>, now: int)
    returns (r: Result<Option<MessageId>>)
    requires db.Valid()
    requires ForumBySlug(db.forums, slug).Ok? ==>
               GuardSound(db.accounts, user, ForumBySlug(db.forums, slug).value, guard)
    modifies db`messages, db`nextId
    ensures db.Valid()
    ensures var gate := ConversationGate(db.forums, db.accounts, db.conversations, user, slug,
                                         conversation, guard);
            gate.Err? || text.None? ==>
              && r == (if gate.Err? then Err(gate.error) else Ok(None))
              && db.messages == old(db.messages) && db.nextId == old(db.nextId)
    ensures var gate := ConversationGate(db.forums, db.accounts, db.conversations, user, slug,
                                         conversation, guard);
            var m := old(db.nextId);
            gate.Ok? && text.Some? ==>
              && r == Ok(Some(m)) && m !in old(db.messages) && db.nextId == m + 1
              && db.accounts[gate.value].user == user
              && db.messages == old(db.messages)[m := Message(text.value, Some(gate.value),
                                                               InConversation(conversation),
                                                               false, now, now)]
  {
    var gate := ConversationGate(db.forums, db.accounts, db.conversations, user, slug, conversation,
                                 guard);
    if gate.Err? {
      return Err(gate.error);
    }
    if text.None? {
      return Ok(None);
    }
    assert conversation < db.nextId;
    var m := db.InsertMessage(Message(text.value, Some(gate.value), InConversation(conversation), false,
                                      now, now));
    r := Ok(Some(m));
  }

  /** The lookups of `update_message_conversation`, in order: the forum by slug,
      the active-account guard, the conversation (404), the message (404), then
      the ownership guard between the message's author and the caller. */
  function UpdateConversationGate(forums: map<ForumId, Forum>, accounts: map<AccountId, Account>,
                                  conversations: map<ConversationId, Conversation>,
                                  messages: map<MessageId, Message>, user: UserId, slug: string,
                                  conversation: ConversationId, message: MessageId,
                                  guard: Result<AccountId>): (r: Outcome)
    ensures r == Pass <==> && ForumBySlug(forums, slug).Ok? && guard.Ok?
                           && conversation in conversations && message in messages
                           && UserOf(accounts, messages[message].author) == Some(user)
  {
    var found := ForumBySlug(forums, slug);
    if found.Err? then Fail(found.error)
    else if guard.Err? then Fail(guard.error)
    else if conversation !in conversations || message !in messages then Fail(NotFound)
    else Security.UserPermission(UserOf(accounts, messages[message].author), Some(user))
  }

  /** `update_message_conversation`: after the lookups and the ownership guard
      pass, a valid form replaces the message's text; the save refreshes its
      update time and nothing else of it changes. */
  method UpdateMessageConversation(db: Database, user: UserId, slug: string,
                                   conversation: ConversationId, message: MessageId,
                                   guard: Result<AccountId>, text: Option<string>, now: int)
    returns (r: Outcome)
    requires db.Valid()
    modifies db`messages
    ensures db.Valid()
    ensures r == UpdateConversationGate(db.forums, db.accounts, db.conversations, old(db.messages),
                                        user, slug, conversation, message, guard)
    ensures r.Fail? || text.None? ==> db.messages == old(db.messages)
    ensures r == Pass && text.Some? ==>
              db.messages == old(db.messages)[message := old(db.messages)[message].(text := text.value,
                                                                                     updated := now)]
  {
    r := UpdateConversationGate(db.forums, db.accounts, db.conversations, db.messages, user, slug,
                                conversation, message, guard);
    if r.Fail? || text.None? {
      return;
    }
    db.UpdateMessage(message, db.messages[message].(text := text.value, updated := now));
  }

  /** The lookups of `delete_message_conversation`, in order: the conversation
      (404), the message (404), then the ownership guard. There is no forum and no
      active-account check. */
  function DeleteConversationGate(accounts: map<AccountId, Account>,
                                  conversations: map<ConversationId, Conversation>,
                                  messages: map<MessageId, Message>, user: UserId,
                                  conversation: ConversationId, message: MessageId): (r: Outcome)
    ensures r == Pass <==> conversation in conversations && message in messages
                           && UserOf(accounts, messages[message].author) == Some(user)
  {
    if conversation !in conversations || message !in messages then Fail(NotFound)
    else Security.UserPermission(UserOf(accounts, messages[message].author), Some(user))
  }

  /** `delete_message_conversation`: only the message's author can delete it; the
      likes on it go with it. */
  method DeleteMessageConversation(db: Database, user: UserId, conversation: ConversationId,
                                   message: MessageId) returns (r: Outcome)
    requires db.Valid()
    modifies db`messages, db`likes
    ensures db.Valid()
    ensures r == DeleteConversationGate(db.accounts, db.conversations, old(db.messages), user,
                                        conversation, message)
    ensures r.Fail? ==> db.messages == old(db.messages) && db.likes == old(db.likes)
    ensures r == Pass ==> db.messages == old(db.messages) - {message}
                          && db.likes == LikesOff(old(db.likes), {message})
  {
    r := DeleteConversationGate(db.accounts, db.conversations, db.messages, user, conversation, message);
    if r == Pass {
      Content.DeleteMessages(db, {message});
    }
  }

  /** A message whose author was deleted (SET_NULL) can be neither edited nor
      deleted by anyone. */
  lemma OrphanMessageLocked(accounts: map<AccountId, Account>,
                            conversations: map<ConversationId, Conversation>,
                            messages: map<MessageId, Message>, user: UserId,
                            conversation: ConversationId, message: MessageId)
    requires message in messages && messages[message].author.None?
    ensures DeleteConversationGate(accounts, conversations, messages, user, conversation, message)
            != Pass
  {
  }

  /** Every conversation `personal_messaging` lists is one `conversation_view`
      lets the user into, and every conversation of the forum it lets the user
      into is listed. */
  lemma InboxListsOpenConversations(forums: map<ForumId, Forum>, accounts: map<AccountId, Account>,
                                    conversations: map<ConversationId, Conversation>, user: UserId,
                                    slug: string, guard: Result<AccountId>, c: ConversationId)
    requires PersonalMessaging(forums, accounts, conversations, user, slug, guard).Ok?
    ensures var inbox := PersonalMessaging(forums, accounts, conversations, user, slug, guard).value;
            (c in inbox.owned || c in inbox.contacted)
            <==> && c in conversations
                 && conversations[c].forum == ForumBySlug(forums, slug).value
                 && ConversationGate(forums, accounts, conversations, user, slug, c, guard).Ok?
  {
  }

  /** The author of a message posted through `conversation_view` passes the
      ownership guard of `delete_message_conversation` on it. */
  lemma PosterMayDelete(accounts: map<AccountId, Account>,
                        conversations: map<ConversationId, Conversation>,
                        messages: map<MessageId, Message>, user: UserId, account: AccountId,
                        conversation: ConversationId, m: MessageId, text: string, now: int)
    requires account in accounts && accounts[account].user == user
    requires conversation in conversations
    ensures var posted := Message(text, Some(account), InConversation(conversation), false, now, now);
            DeleteConversationGate(accounts, conversations, messages[m := posted], user,
                                   conversation, m) == Pass
  {
  }

  /** Editing a message keeps its author, so the ownership guard decides the
      same way afterwards for every caller. */
  lemma EditKeepsOwner(accounts: map<AccountId, Account>,
                       conversations: map<ConversationId, Conversation>,
                       messages: map<MessageId, Message>, caller: UserId,
                       conversation: ConversationId, message: MessageId, text: string, now: int)
    requires message in messages
    ensures var edited := messages[message := messages[message].(text := text, updated := now)];
            DeleteConversationGate(accounts, conversations, edited, caller, conversation, message)
            == DeleteConversationGate(accounts, conversations, messages, caller, conversation, message)
  {
  }
}
