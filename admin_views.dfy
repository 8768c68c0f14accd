/** forum/views/admin.py: the forum master's pages. Every page first finds the
    forum (404) and the caller's account in it, then runs
    `verify_forum_master_status`, which is not part of this model: its verdict is
    the `master` parameter. A failed lookup or guard ends the request with its
    error before any write. */
module AdminViews {
  import opened Schema
  import Accounts
  import ForumModels
  import Content
  import TextSearch

  /** The lookups every admin page starts with: the forum (404), the caller's
      account, then the forum-master guard. The result is the caller's account. */
  function AdminGate(forums: map<ForumId, Forum>, accounts: map<AccountId, Account>, user: UserId,
                     forum: ForumId, master: Outcome): (r: Result<Option<AccountId>>)
    ensures forum !in forums ==> r == Err(NotFound)
    ensures (forum in forums && Accounts.RetrieveForumAccount(accounts, user, forum).Ok?
             && master.Fail?) ==> r == Err(master.error)
    ensures r.Ok? <==> forum in forums && Accounts.RetrieveForumAccount(accounts, user, forum).Ok?
                       && master == Pass
    ensures r.Ok? ==> r.value == Accounts.RetrieveForumAccount(accounts, user, forum).value
  {
    if forum !in forums then Err(NotFound)
    else
      var found := Accounts.RetrieveForumAccount(accounts, user, forum);
      if found.Err? then Err(found.error)
      else if master.Fail? then Err(master.error)
      else Ok(found.value)
  }

  /** The admin gate followed by the lookup of the row the page works on, which
      raises `missing` when the row is absent (404 for `get_object_or_404`,
      DoesNotExist for `objects.get`). */
  function AdminItemGate(forums: map<ForumId, Forum>, accounts: map<AccountId, Account>,
                         user: UserId, forum: ForumId, master: Outcome, present: bool,
                         missing: Error): (r: Outcome)
    ensures r == Pass <==> AdminGate(forums, accounts, user, forum, master).Ok? && present
    ensures AdminGate(forums, accounts, user, forum, master).Err? ==>
              r == Fail(AdminGate(forums, accounts, user, forum, master).error)
    ensures AdminGate(forums, accounts, user, forum, master).Ok? && !present ==> r == Fail(missing)
  {
    var gate := AdminGate(forums, accounts, user, forum, master);
    if gate.Err? then Fail(gate.error)
    else if !present then Fail(missing)
    else Pass
  }

  /** What the dashboard lists: the forum's active and banned members, its topics
      and the messages in them. */
  datatype Dashboard = Dashboard(active: set<AccountId>, banned: set<AccountId>,
                                 topics: set<TopicId>, messages: set<MessageId>)

  /** `index_admin_view`: after the admin gate, the dashboard's lists. The active
      and banned members split the forum's accounts by their active flag. */
  function IndexAdmin(forums: map<ForumId, Forum>, accounts: map<AccountId, Account>,
                      categories: map<CategoryId, Category>,
                      subCategories: map<SubCategoryId, SubCategory>,
                      topics: map<TopicId, Topic>, messages: map<MessageId, Message>,
                      user: UserId, forum: ForumId, master: Outcome): (r: Result<Dashboard>)
    ensures r.Ok? <==> AdminGate(forums, accounts, user, forum, master).Ok?
    ensures r.Ok? ==> r.value.active !! r.value.banned
    ensures r.Ok? ==> forall a :: a in r.value.active + r.value.banned <==>
                                    a in accounts && accounts[a].forum == forum
    ensures r.Ok? ==> forall a | a in r.value.active :: accounts[a].active
    ensures r.Ok? ==> forall a | a in r.value.banned :: !accounts[a].active
    ensures r.Ok? ==> forall t :: t in r.value.topics <==>
                                    Content.TopicInForum(categories, subCategories, topics, forum, t)
    ensures r.Ok? ==> forall m :: m in r.value.messages <==>
                                    && m in messages && messages[m].parent.InTopic?
                                    && messages[m].parent.topic in r.value.topics
  {
    var gate := AdminGate(forums, accounts, user, forum, master);
    if gate.Err? then Err(gate.error)
    else
      var inForum := Content.ForumTopics(categories, subCategories, topics, forum);
      var active := set a | a in accounts && accounts[a].forum == forum && accounts[a].active;
      var banned := set a | a in accounts && accounts[a].forum == forum && !accounts[a].active;
      Ok(Dashboard(active, banned, inForum, Content.MessagesUnder(messages, inForum)))
  }

  /** The accounts `display_members` lists: the forum's members who are not
      forum masters, narrowed by a non-empty search to the usernames containing
      it (ignoring case). */
  function MembersShown(accounts: map<AccountId, Account>, users: map<UserId, User>,
                        forum: ForumId, search: string): (r: set<AccountId>)
    requires forall a | a in accounts :: accounts[a].user in users
    ensures forall a | a in r :: a in accounts && !accounts[a].forumMaster
    ensures search == [] ==>
              forall a :: a in r <==> (a in accounts && accounts[a].forum == forum
                                       && !accounts[a].forumMaster)
    ensures search != [] ==>
              forall a :: a in r <==> (a in accounts && accounts[a].forum == forum
                                       && !accounts[a].forumMaster
                                       && TextSearch.IContains(users[accounts[a].user].username, search))
  {
    if search == [] then set a | a in accounts && accounts[a].forum == forum && !accounts[a].forumMaster
    else set a | a in accounts && accounts[a].forum == forum && !accounts[a].forumMaster
                 && TextSearch.IContains(users[accounts[a].user].username, search)
  }

  /** `display_members`: the admin gate, then the list. */
  function DisplayMembers(forums: map<ForumId, Forum>, accounts: map<AccountId, Account>,
                          users: map<UserId, User>, user: UserId, forum: ForumId, master: Outcome,
                          search: string): (r: Result<set<AccountId>>)
    requires forall a | a in accounts :: accounts[a].user in users
    ensures r.Ok? <==> AdminGate(forums, accounts, user, forum, master).Ok?
    ensures r.Ok? ==> r.value == MembersShown(accounts, users, forum, search)
  {
    var gate := AdminGate(forums, accounts, user, forum, master);
    if gate.Err? then Err(gate.error) else Ok(MembersShown(accounts, users, forum, search))
  }

  /** A search only narrows the list: whatever it finds is listed without it. */
  lemma SearchNarrowsMembers(accounts: map<AccountId, Account>, users: map<UserId, User>,
                             forum: ForumId, search: string)
    requires forall a | a in accounts :: accounts[a].user in users
    ensures MembersShown(accounts, users, forum, search) <= MembersShown(accounts, users, forum, [])
  {
  }

  /** The topics with topic `t`'s pin flag flipped. */
  function Flipped(topics: map<TopicId, Topic>, t: TopicId): (r: map<TopicId, Topic>)
    requires t in topics
    ensures r.Keys == topics.Keys
    ensures r[t].pin != topics[t].pin && r[t].(pin := topics[t].pin) == topics[t]
    ensures forall u | u in topics && u != t :: r[u] == topics[u]
  {
    topics[t := topics[t].(pin := !topics[t].pin)]
  }

  /** Pinning is undone by pinning again. */
  lemma FlipTwice(topics: map<TopicId, Topic>, t: TopicId)
    requires t in topics
    ensures Flipped(Flipped(topics, t), t) == topics
  {
    var twice := Flipped(Flipped(topics, t), t);
    assert twice[t] == topics[t];
    assert forall u | u in topics :: twice[u] == topics[u];
  }

  /** The lookups of `pin_topic`, in order: the forum (404), the caller's account,
      the topic (404), then the forum-master guard. */
  function PinGate(forums: map<ForumId, Forum>, accounts: map<AccountId, Account>,
                   topics: map<TopicId, Topic>, user: UserId, forum: ForumId, topic: TopicId,
                   master: Outcome): (r: Outcome)
    ensures r == Pass <==> AdminGate(forums, accounts, user, forum, master).Ok? && topic in topics
    ensures (forum in forums && Accounts.RetrieveForumAccount(accounts, user, forum).Ok?
             && topic in topics && master.Fail?) ==> r == master
  {
    if forum !in forums then Fail(NotFound)
    else
      var found := Accounts.RetrieveForumAccount(accounts, user, forum);
      if found.Err? then Fail(found.error)
      else if topic !in topics then Fail(NotFound)
      else master
  }

  /** `pin_topic`: after the lookups pass, a pinned topic is unpinned and an
      unpinned one pinned. */
  method PinTopic(db: Database, user: UserId, forum: ForumId, topic: TopicId, master: Outcome)
    returns (r: Outcome)
    requires db.Valid()
    modifies db`topics
    ensures db.Valid()
    ensures r == PinGate(db.forums, db.accounts, old(db.topics), user, forum, topic, master)
    ensures r.Fail? ==> db.topics == old(db.topics)
    ensures r == Pass ==> db.topics == Flipped(old(db.topics), topic)
  {
    r := PinGate(db.forums, db.accounts, db.topics, user, forum, topic, master);
    if r.Fail? {
      return;
    }
    if !db.topics[topic].pin {
      db.UpdateTopic(topic, db.topics[topic].(pin := true));
    } else {
      db.UpdateTopic(topic, db.topics[topic].(pin := false));
    }
  }

  /** The lookups of `member_status_view` as written: the admin gate, then the
      target account by key alone (404), whichever forum it belongs to, then the
      refusal to touch a forum master. */
  function MemberStatusGate(forums: map<ForumId, Forum>, accounts: map<AccountId, Account>,
                            user: UserId, forum: ForumId, member: AccountId, master: Outcome)
    : (r: Outcome)
    ensures r == Pass <==> AdminGate(forums, accounts, user, forum, master).Ok?
                           && member in accounts && !accounts[member].forumMaster
    ensures (AdminGate(forums, accounts, user, forum, master).Ok? && member in accounts
             && accounts[member].forumMaster) ==> r == Fail(PermissionDenied)
  {
    var gate := AdminGate(forums, accounts, user, forum, master);
    if gate.Err? then Fail(gate.error)
    else if member !in accounts then Fail(NotFound)
    else if accounts[member].forumMaster then Fail(PermissionDenied)
    else Pass
  }

  /** The target lookup scoped to the forum, as the page evidently intends: an
      account of another forum is not found. */
  function MemberStatusGateInForum(forums: map<ForumId, Forum>, accounts: map<AccountId, Account>,
                                   user: UserId, forum: ForumId, member: AccountId,
                                   master: Outcome): (r: Outcome)
    ensures r == Pass <==> AdminGate(forums, accounts, user, forum, master).Ok?
                           && member in accounts && accounts[member].forum == forum
                           && !accounts[member].forumMaster
    ensures r == Pass ==> MemberStatusGate(forums, accounts, user, forum, member, master) == Pass
  {
    var gate := AdminGate(forums, accounts, user, forum, master);
    if gate.Err? then Fail(gate.error)
    else if member !in accounts || accounts[member].forum != forum then Fail(NotFound)
    else if accounts[member].forumMaster then Fail(PermissionDenied)
    else Pass
  }

  /** The toggle itself: an active member is deactivated, a banned one activated. */
  method ToggleStatus(db: Database, member: AccountId)
    requires db.Valid() && member in db.accounts
    modifies db`accounts
    ensures db.Valid()
    ensures db.accounts == ForumModels.WithActive(old(db.accounts), member, !old(db.accounts)[member].active)
  {
    if db.accounts[member].active {
      ForumModels.Deactivate(db, member);
    } else {
      ForumModels.Activate(db, member);
    }
  }

  /** Toggling twice restores the membership. */
  lemma ToggleTwice(accounts: map<AccountId, Account>, member: AccountId)
    requires member in accounts
    ensures var once := ForumModels.WithActive(accounts, member, !accounts[member].active);
            ForumModels.WithActive(once, member, !once[member].active) == accounts
  {
    var once := ForumModels.WithActive(accounts, member, !accounts[member].active);
    var twice := ForumModels.WithActive(once, member, !once[member].active);
    assert twice[member] == accounts[member];
    assert forall b | b in accounts :: twice[b] == accounts[b];
  }

  /** `member_status_view` as written: after its lookups pass, the target
      account's active flag is toggled; a forum master is refused with
      PermissionDenied and nothing changes. */
  method MemberStatusView(db: Database, user: UserId, forum: ForumId, member: AccountId,
                          master: Outcome) returns (r: Outcome)
    requires db.Valid()
    modifies db`accounts
    ensures db.Valid()
    ensures r == MemberStatusGate(db.forums, old(db.accounts), user, forum, member, master)
    ensures r.Fail? ==> db.accounts == old(db.accounts)
    ensures r == Pass ==>
              db.accounts == ForumModels.WithActive(old(db.accounts), member,
                                                    !old(db.accounts)[member].active)
  {
    r := MemberStatusGate(db.forums, db.accounts, user, forum, member, master);
    if r == Pass {
      ToggleStatus(db, member);
    }
  }

  /** `member_status_view` with the target scoped to the forum: only an account
      of the forum whose master is acting can be toggled. */
  method MemberStatusInForum(db: Database, user: UserId, forum: ForumId, member: AccountId,
                             master: Outcome) returns (r: Outcome)
    requires db.Valid()
    modifies db`accounts
    ensures db.Valid()
    ensures r == MemberStatusGateInForum(db.forums, old(db.accounts), user, forum, member, master)
    ensures r.Fail? ==> db.accounts == old(db.accounts)
    ensures r == Pass ==>
              && old(db.accounts)[member].forum == forum
              && db.accounts == ForumModels.WithActive(old(db.accounts), member,
                                                       !old(db.accounts)[member].active)
  {
    r := MemberStatusGateInForum(db.forums, db.accounts, user, forum, member, master);
    if r == Pass {
      ToggleStatus(db, member);
    }
  }

  /** The master of one forum can ban a member of another: forum 1's master
      (account 3) toggles account 4, which belongs to forum 2. The scoped gate
      refuses the same request. */
  lemma MemberStatusCrossesForums()
    ensures var forums := map[1 := Forum(0, "A", "a", 0, "", 0, None),
                              2 := Forum(5, "B", "b", 0, "", 0, None)];
            var accounts := map[3 := Account(1, 0, true, 0, true, 0, {}, None),
                                4 := Account(2, 6, true, 0, false, 0, {}, None)];
            && MemberStatusGate(forums, accounts, 0, 1, 4, Pass) == Pass
            && accounts[4].forum != 1
            && MemberStatusGateInForum(forums, accounts, 0, 1, 4, Pass) == Fail(NotFound)
  {
    var accounts := map[3 := Account(1, 0, true, 0, true, 0, {}, None),
                        4 := Account(2, 6, true, 0, false, 0, {}, None)];
    assert forall b | b in accounts && accounts[b].user == 0 && accounts[b].forum == 1 :: b == 3;
    assert accounts[3].user == 0 && accounts[3].forum == 1;
  }

  /** One sub-category line of the CreateCategory form. */
  datatype SubForm = SubForm(name: string, index: Option<int>)

  /** The valid CreateCategory form: the category, its first sub-category and
      four optional ones. */
  datatype CategoryForm = CategoryForm(name: string, index: Option<int>, sub1: SubForm,
                                       sub2: SubForm, sub3: SubForm, sub4: SubForm, sub5: SubForm)

  /** The four optional lines, in the order the builder reads them. */
  function Optional(form: CategoryForm): seq<SubForm>
  {
    [form.sub2, form.sub3, form.sub4, form.sub5]
  }

  /** The lines of `lines` whose name is not empty, in order. */
  function Named(lines: seq<SubForm>): (r: seq<SubForm>)
    ensures |r| <= |lines|
    ensures forall s :: s in r <==> s in lines && s.name != []
  {
    if lines == [] then []
    else (if lines[0].name != [] then [lines[0]] else []) + Named(lines[1..])
  }

  /** The sub-category rows for the lines `made` under `category`, at consecutive
      keys from `base`. */
  function SubRows(made: seq<SubForm>, category: CategoryId, base: nat)
    : (r: map<SubCategoryId, SubCategory>)
    ensures forall k :: k in r <==> base <= k < base + |made|
  {
    if made == [] then map[]
    else SubRows(made[1..], category, base + 1)[base := SubCategory(made[0].name, category, made[0].index)]
  }

  /** The row at key `base` + `i` is the one of the `i`-th line. */
  lemma {:induction false} SubRowsAt(made: seq<SubForm>, category: CategoryId, base: nat, i: nat)
    requires i < |made|
    ensures SubRows(made, category, base)[base + i] == SubCategory(made[i].name, category, made[i].index)
    decreases i
  {
    if i > 0 {
      SubRowsAt(made[1..], category, base + 1, i - 1);
    }
  }

  /** The sub-category table and the next key. */
  datatype Rows = Rows(subCategories: map<SubCategoryId, SubCategory>, nextId: nat)

  /** One optional line read by the builder: a named line adds its row at the
      next key; an unnamed one changes nothing. */
  function Step(rows: Rows, category: CategoryId, s: SubForm): Rows
  {
    if s.name != [] then
      Rows(rows.subCategories[rows.nextId := SubCategory(s.name, category, s.index)], rows.nextId + 1)
    else rows
  }

  /** The optional lines read one after the other. */
  function Built(rows: Rows, category: CategoryId, lines: seq<SubForm>): Rows
    decreases |lines|
  {
    if lines == [] then rows else Built(Step(rows, category, lines[0]), category, lines[1..])
  }

  /** Adding one row in front of the rows of the remaining lines. */
  lemma SubRowsCons(s: SubForm, rest: seq<SubForm>, category: CategoryId, base: nat)
    ensures SubRows([s] + rest, category, base)
            == SubRows(rest, category, base + 1)[base := SubCategory(s.name, category, s.index)]
  {
    assert ([s] + rest)[1..] == rest;
  }

  /** A named line is kept in front of the named remaining lines; an unnamed one
      is dropped. */
  lemma NamedCons(lines: seq<SubForm>)
    requires lines != []
    ensures Named(lines) == (if lines[0].name != [] then [lines[0]] else []) + Named(lines[1..])
  {
  }

  /** Reading the lines one by one adds exactly the named ones, at consecutive
      keys from the next key. */
  lemma {:induction false} BuiltIsNamedRows(rows: Rows, category: CategoryId, lines: seq<SubForm>)
    ensures Built(rows, category, lines)
            == Rows(rows.subCategories + SubRows(Named(lines), category, rows.nextId),
                    rows.nextId + |Named(lines)|)
    decreases |lines|
  {
    if lines == [] {
      assert SubRows(Named(lines), category, rows.nextId) == map[];
      assert rows.subCategories + map[] == rows.subCategories;
    } else {
      var rest := lines[1..];
      var next := Step(rows, category, lines[0]);
      assert Built(rows, category, lines) == Built(next, category, rest);
      BuiltIsNamedRows(next, category, rest);
      NamedCons(lines);
      if lines[0].name != [] {
        var n := rows.nextId;
        var named := [lines[0]] + Named(rest);
        assert Named(lines) == named;
        var tail := SubRows(Named(rest), category, n + 1);
        assert next == Rows(rows.subCategories[n := SubCategory(lines[0].name, category, lines[0].index)],
                            n + 1);
        NamedHeadRows(rows, category, lines[0], rest);
        assert next.subCategories + tail == rows.subCategories + SubRows(named, category, n);
        assert |named| == 1 + |Named(rest)|;
      } else {
        assert next == rows;
        assert Named(lines) == Named(rest);
      }
    }
  }

  /** The rows of a named first line followed by those of the remaining lines,
      at the next key, are the rows of all the named lines. */
  lemma NamedHeadRows(rows: Rows, category: CategoryId, s: SubForm, rest: seq<SubForm>)
    requires s.name != []
    ensures var n := rows.nextId;
            var row := SubCategory(s.name, category, s.index);
            rows.subCategories[n := row] + SubRows(Named(rest), category, n + 1)
            == rows.subCategories + SubRows([s] + Named(rest), category, n)
  {
    var n := rows.nextId;
    var row := SubCategory(s.name, category, s.index);
    var tail := SubRows(Named(rest), category, n + 1);
    assert n !in tail;
    SubRowsCons(s, Named(rest), category, n);
    UnionAfterUpdate(rows.subCategories, tail, n, row);
  }

  /** A row set before a union with rows that do not use its key survives it. */
  lemma UnionAfterUpdate(m: map<SubCategoryId, SubCategory>, rest: map<SubCategoryId, SubCategory>,
                         k: SubCategoryId, row: SubCategory)
    requires k !in rest
    ensures m[k := row] + rest == m + rest[k := row]
  {
  }

  /** The builder reads the four optional lines in order. */
  lemma BuiltOptional(rows: Rows, category: CategoryId, form: CategoryForm)
    ensures Built(rows, category, Optional(form))
            == Step(Step(Step(Step(rows, category, form.sub2), category, form.sub3), category,
                         form.sub4), category, form.sub5)
  {
    var r1 := Step(rows, category, form.sub2);
    var r2 := Step(r1, category, form.sub3);
    var r3 := Step(r2, category, form.sub4);
    var r4 := Step(r3, category, form.sub5);
    assert Built(r4, category, []) == r4;
    assert Built(r3, category, [form.sub5]) == Built(r4, category, []);
    assert [form.sub4, form.sub5][1..] == [form.sub5];
    assert Built(r2, category, [form.sub4, form.sub5]) == Built(r3, category, [form.sub5]);
    assert [form.sub3, form.sub4, form.sub5][1..] == [form.sub4, form.sub5];
    assert Built(r1, category, [form.sub3, form.sub4, form.sub5]) == Built(r2, category, [form.sub4, form.sub5]);
    assert Optional(form)[1..] == [form.sub3, form.sub4, form.sub5];
  }

  /** A named optional line gets a sub-category under the new category, with its
      own name and index; an unnamed one gets none. */
  lemma NamedLinesExact(lines: seq<SubForm>, category: CategoryId, base: nat, s: SubForm)
    requires s in lines
    ensures s.name != [] <==>
              SubCategory(s.name, category, s.index) in SubRows(Named(lines), category, base).Values
  {
    var made := Named(lines);
    var rows := SubRows(made, category, base);
    var row := SubCategory(s.name, category, s.index);
    assert s.name != [] ==> row in rows.Values by {
      if s.name != [] {
        assert s in made;
        var i :| 0 <= i < |made| && made[i] == s;
        SubRowsAt(made, category, base, i);
        assert base + i in rows && rows[base + i] == row;
      }
    }
    assert row in rows.Values ==> s.name != [] by {
      if row in rows.Values {
        var k :| k in rows && rows[k] == row;
        var i := k - base;
        SubRowsAt(made, category, base, i);
        assert made[i] == s;
      }
    }
  }

  /** Creates a sub-category for one optional line of the form, when its name is
      not empty. */
  method AddIfNamed(db: Database, category: CategoryId, s: SubForm)
    requires db.Valid() && category < db.nextId
    modifies db`subCategories, db`nextId
    ensures db.Valid() && category < db.nextId
    ensures Rows(db.subCategories, db.nextId) == Step(Rows(old(db.subCategories), old(db.nextId)), category, s)
  {
    if s.name != [] {
      var id := db.InsertSubCategory(SubCategory(s.name, category, s.index));
    }
  }

  /** The optional sub-category writes of the builder, under `category`. */
  method AddOptional(db: Database, category: CategoryId, form: CategoryForm)
    requires db.Valid() && category < db.nextId
    modifies db`subCategories, db`nextId
    ensures db.Valid()
    ensures Rows(db.subCategories, db.nextId)
            == Built(Rows(old(db.subCategories), old(db.nextId)), category, Optional(form))
  {
    BuiltOptional(Rows(db.subCategories, db.nextId), category, form);
    AddIfNamed(db, category, form.sub2);
    AddIfNamed(db, category, form.sub3);
    AddIfNamed(db, category, form.sub4);
    AddIfNamed(db, category, form.sub5);
  }

  /** The sub-category table and next key once the builder has created
      category `c` from form `f` and written the first line's row at `c` + 1. */
  function FirstLine(subCategories: map<SubCategoryId, SubCategory>, c: CategoryId, f: CategoryForm)
    : Rows
  {
    Rows(subCategories[c + 1 := SubCategory(f.sub1.name, c, f.sub1.index)], c + 2)
  }

  /** What the builder leaves: the first line's row at `c` + 1, then the rows of
      the named optional lines at the keys that follow, and nothing else
      changed. */
  lemma BuilderRows(subCategories: map<SubCategoryId, SubCategory>, c: CategoryId, f: CategoryForm)
    ensures var after := Built(FirstLine(subCategories, c, f), c, Optional(f));
            && after.subCategories == subCategories[c + 1 := SubCategory(f.sub1.name, c, f.sub1.index)]
                                      + SubRows(Named(Optional(f)), c, c + 2)
            && after.nextId == c + 2 + |Named(Optional(f))|
  {
    BuiltIsNamedRows(FirstLine(subCategories, c, f), c, Optional(f));
  }

  /** `builder_view`: after the admin gate, a valid form creates the category in
      the forum, then its first sub-category, then each optional sub-category
      whose name is not empty, in order. The keys are consecutive from `nextId`;
      the result is the new category. */
  method BuilderView(db: Database, user: UserId, forum: ForumId, master: Outcome,
                     form: Option<CategoryForm>) returns (r: Result<Option<CategoryId>>)
    requires db.Valid()
    modifies db`categories, db`subCategories, db`nextId
    ensures db.Valid()
    ensures var gate := AdminGate(db.forums, db.accounts, user, forum, master);
            gate.Err? || form.None? ==>
              && r == (if gate.Err? then Err(gate.error) else Ok(None))
              && db.categories == old(db.categories) && db.subCategories == old(db.subCategories)
              && db.nextId == old(db.nextId)
    ensures var gate := AdminGate(db.forums, db.accounts, user, forum, master);
            var c := old(db.nextId);
            gate.Ok? && form.Some? ==>
              var f := form.value;
              && r == Ok(Some(c)) && c !in old(db.categories) && c + 1 !in old(db.subCategories)
              && db.categories == old(db.categories)[c := Category(f.name, forum, f.index)]
              && Rows(db.subCategories, db.nextId) == Built(FirstLine(old(db.subCategories), c, f), c, Optional(f))
  {
    var gate := AdminGate(db.forums, db.accounts, user, forum, master);
    if gate.Err? {
      return Err(gate.error);
    }
    if form.None? {
      return Ok(None);
    }
    assert forum < db.nextId;
    var c := CreateCategory(db, forum, form.value);
    r := Ok(Some(c));
  }

  /** The writes of the builder: the category in forum `forum`, its first
      sub-category, then the named optional ones. */
  method CreateCategory(db: Database, forum: ForumId, f: CategoryForm) returns (c: CategoryId)
    requires db.Valid() && forum < db.nextId
    modifies db`categories, db`subCategories, db`nextId
    ensures db.Valid()
    ensures c == old(db.nextId) && c !in old(db.categories) && c + 1 !in old(db.subCategories)
    ensures db.categories == old(db.categories)[c := Category(f.name, forum, f.index)]
    ensures Rows(db.subCategories, db.nextId) == Built(FirstLine(old(db.subCategories), c, f), c, Optional(f))
  {
    c := db.InsertCategory(Category(f.name, forum, f.index));
    var first := db.InsertSubCategory(SubCategory(f.sub1.name, c, f.sub1.index));
    AddOptional(db, c, f);
  }

  /** `delete_category_view`: after the admin gate, the category is read with
      `get` (DoesNotExist when absent) and deleted, with everything below it. */
  method DeleteCategoryView(db: Database, user: UserId, forum: ForumId, master: Outcome,
                            category: CategoryId) returns (r: Outcome)
    requires db.Valid()
    modifies db`categories, db`subCategories, db`topics, db`messages, db`likes
    ensures db.Valid()
    ensures r == AdminItemGate(db.forums, db.accounts, user, forum, master,
                               category in old(db.categories), DoesNotExist)
    ensures r.Fail? ==> && db.categories == old(db.categories)
                        && db.subCategories == old(db.subCategories)
                        && db.topics == old(db.topics) && db.messages == old(db.messages)
                        && db.likes == old(db.likes)
    ensures r == Pass ==>
              var subs := Content.SubCategoriesUnder(old(db.subCategories), {category});
              var topics := Content.TopicsUnder(old(db.topics), subs);
              var messages := Content.MessagesUnder(old(db.messages), topics);
              && db.categories == old(db.categories) - {category}
              && db.subCategories == old(db.subCategories) - subs
              && db.topics == old(db.topics) - topics
              && db.messages == old(db.messages) - messages
              && db.likes == LikesOff(old(db.likes), messages)
  {
    r := AdminItemGate(db.forums, db.accounts, user, forum, master, category in db.categories,
                       DoesNotExist);
    if r == Pass {
      Content.DeleteCategory(db, category);
    }
  }

  /** `delete_subcategory_view`: after the admin gate, the sub-category is read
      with `get` (DoesNotExist when absent) and deleted, with its topics, their
      messages and the likes on those. */
  method DeleteSubCategoryView(db: Database, user: UserId, forum: ForumId, master: Outcome,
                               subCategory: SubCategoryId) returns (r: Outcome)
    requires db.Valid()
    modifies db`subCategories, db`topics, db`messages, db`likes
    ensures db.Valid()
    ensures r == AdminItemGate(db.forums, db.accounts, user, forum, master,
                               subCategory in old(db.subCategories), DoesNotExist)
    ensures r.Fail? ==> && db.subCategories == old(db.subCategories)
                        && db.topics == old(db.topics) && db.messages == old(db.messages)
                        && db.likes == old(db.likes)
    ensures r == Pass ==>
              var topics := Content.TopicsUnder(old(db.topics), {subCategory});
              var messages := Content.MessagesUnder(old(db.messages), topics);
              && db.subCategories == old(db.subCategories) - {subCategory}
              && db.topics == old(db.topics) - topics
              && db.messages == old(db.messages) - messages
              && db.likes == LikesOff(old(db.likes), messages)
  {
    r := AdminItemGate(db.forums, db.accounts, user, forum, master, subCategory in db.subCategories,
                       DoesNotExist);
    if r == Pass {
      Content.DeleteSubCategories(db, {subCategory});
    }
  }

  /** `delete_topic_view`: after the admin gate, the topic (404) is deleted with
      its messages and the likes on them. */
  method DeleteTopicView(db: Database, user: UserId, forum: ForumId, master: Outcome,
                         topic: TopicId) returns (r: Outcome)
    requires db.Valid()
    modifies db`topics, db`messages, db`likes
    ensures db.Valid()
    ensures r == AdminItemGate(db.forums, db.accounts, user, forum, master, topic in old(db.topics),
                               NotFound)
    ensures r.Fail? ==> && db.topics == old(db.topics) && db.messages == old(db.messages)
                        && db.likes == old(db.likes)
    ensures r == Pass ==>
              var messages := Content.MessagesUnder(old(db.messages), {topic});
              && db.topics == old(db.topics) - {topic}
              && db.messages == old(db.messages) - messages
              && db.likes == LikesOff(old(db.likes), messages)
  {
    r := AdminItemGate(db.forums, db.accounts, user, forum, master, topic in db.topics, NotFound);
    if r == Pass {
      Content.DeleteTopics(db, {topic});
    }
  }
}
