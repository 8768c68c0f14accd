/** forum/models/forum.py: the logo size rule, the slug a forum keeps, a
    membership's activation, the counts a membership is judged by, and the badge
    engine. */
module ForumModels {
  import opened Schema

  /** The largest logo or avatar accepted: 5 MiB. */
  const MaxThumbnailBytes: nat := 5 * 1024 * 1024

  const ThumbnailTooLarge := ValidationError("La taille du fichier ne doit pas dépasser 5MO.")

  /** Forum.clean and ForumAccount.clean: an uploaded image (its size in bytes)
      larger than 5 MiB is refused; no image, or exactly 5 MiB, passes. */
  function CleanThumbnail(size: Option<nat>): (r: Outcome)
    ensures r == Pass <==> size.None? || size.value <= MaxThumbnailBytes
    ensures r != Pass ==> r == Fail(ThumbnailTooLarge)
    ensures size == Some(5242880) ==> r == Pass
    ensures size == Some(5242881) ==> r == Fail(ThumbnailTooLarge)
  {
    if size.Some? && size.value > MaxThumbnailBytes then Fail(ThumbnailTooLarge) else Pass
  }

  /** Forum.save: the slug is derived from the name (by `slugify`, whose code is
      not part of this model) only while it is empty. */
  function SavedSlug(slug: string, name: string, slugify: string -> string): (r: string)
    ensures slug != [] ==> r == slug
    ensures slug == [] ==> r == slugify(name)
  {
    if slug == [] then slugify(name) else slug
  }

  /** Once a save has stored a non-empty slug, no later save changes it, whatever
      the forum is renamed to. */
  lemma SlugKept(slug: string, name: string, rename: string, slugify: string -> string)
    requires SavedSlug(slug, name, slugify) != []
    ensures SavedSlug(SavedSlug(slug, name, slugify), rename, slugify) == SavedSlug(slug, name, slugify)
  {
  }

  /** The accounts with account `a`'s active flag set to `flag`. */
  function WithActive(accounts: map<AccountId, Account>, a: AccountId, flag: bool)
    : (r: map<AccountId, Account>)
    requires a in accounts
    ensures r.Keys == accounts.Keys && r[a].active == flag
    ensures r[a] == accounts[a].(active := flag)
    ensures forall b | b in accounts && b != a :: r[b] == accounts[b]
  {
    accounts[a := accounts[a].(active := flag)]
  }

  /** Setting the flag twice is setting it once. */
  lemma WithActiveIdempotent(accounts: map<AccountId, Account>, a: AccountId, flag: bool)
    requires a in accounts
    ensures WithActive(WithActive(accounts, a, flag), a, flag) == WithActive(accounts, a, flag)
  {
  }

  /** ForumAccount.deactivate. */
  method Deactivate(db: Database, a: AccountId)
    requires db.Valid() && a in db.accounts
    modifies db`accounts
    ensures db.Valid() && db.accounts == WithActive(old(db.accounts), a, false)
  {
    db.UpdateAccount(a, db.accounts[a].(active := false));
  }

  /** ForumAccount.activate. */
  method Activate(db: Database, a: AccountId)
    requires db.Valid() && a in db.accounts
    modifies db`accounts
    ensures db.Valid() && db.accounts == WithActive(old(db.accounts), a, true)
  {
    db.UpdateAccount(a, db.accounts[a].(active := true));
  }

  /** The messages written by account `a`. */
  function AuthoredBy(messages: map<MessageId, Message>, a: AccountId): set<MessageId>
  {
    set m | m in messages && messages[m].author == Some(a)
  }

  /** ForumAccount.messages_count: how many messages account `a` wrote. */
  function MessageCount(messages: map<MessageId, Message>, a: AccountId): (r: nat)
    ensures r <= |messages|
    ensures r == 0 <==> forall m | m in messages :: messages[m].author != Some(a)
  {
    var own := AuthoredBy(messages, a);
    assert messages.Keys == own + (messages.Keys - own);
    assert own == {} <==> forall m | m in messages :: messages[m].author != Some(a);
    |own|
  }

  /** The likes given to messages account `a` wrote. */
  function LikesOn(likes: set<Like>, messages: map<MessageId, Message>, a: AccountId): set<Like>
  {
    set l | l in likes && l.message in messages && messages[l.message].author == Some(a)
  }

  /** ForumAccount.likes: how many likes account `a`'s messages received. */
  function LikesReceived(likes: set<Like>, messages: map<MessageId, Message>, a: AccountId): (r: nat)
    ensures r <= |likes|
    ensures r == 0 <==> forall l | l in likes ::
                          !(l.message in messages && messages[l.message].author == Some(a))
  {
    var on := LikesOn(likes, messages, a);
    assert likes == on + (likes - on);
    assert on == {} <==> forall l | l in likes ::
                           !(l.message in messages && messages[l.message].author == Some(a));
    |on|
  }

  /** Storing a new message raises its author's message count by one and leaves
      every other account's count as it was. */
  lemma {:induction false} MessageCountAfterInsert(messages: map<MessageId, Message>, id: MessageId,
                                                   row: Message, a: AccountId)
    requires id !in messages
    ensures MessageCount(messages[id := row], a) ==
            MessageCount(messages, a) + (if row.author == Some(a) then 1 else 0)
  {
    if row.author == Some(a) {
      assert AuthoredBy(messages[id := row], a) == AuthoredBy(messages, a) + {id};
    } else {
      assert AuthoredBy(messages[id := row], a) == AuthoredBy(messages, a);
    }
  }

  /** One condition of `badge_conditions`: a badge description and whether the
      account meets it. */
  datatype BadgeRule = BadgeRule(description: string, holds: bool)

  /** The nine badge descriptions, in the order `badge_conditions` lists them. */
  const Descriptions: seq<string> := ["10 messages", "50 messages", "100 messages", "10 likes",
                                      "50 likes", "100 likes", "Nouveau", "Forum Master", "Noo Badge"]

  /** `badge_conditions`, in its insertion order: the message and like thresholds
      are inclusive, "Nouveau" holds while the account is less than four days old,
      "Forum Master" follows the flag, and "Noo Badge" looks at the number of
      badges held before the evaluation starts. */
  function BadgeRules(messageCount: nat, likeCount: nat, ageInDays: int, forumMaster: bool,
                      heldCount: nat): (r: seq<BadgeRule>)
    ensures |r| == |Descriptions|
    ensures forall k | 0 <= k < |r| :: r[k].description == Descriptions[k]
  {
    [ BadgeRule("10 messages", messageCount >= 10),
      BadgeRule("50 messages", messageCount >= 50),
      BadgeRule("100 messages", messageCount >= 100),
      BadgeRule("10 likes", likeCount >= 10),
      BadgeRule("50 likes", likeCount >= 50),
      BadgeRule("100 likes", likeCount >= 100),
      BadgeRule("Nouveau", ageInDays < 4),
      BadgeRule("Forum Master", forumMaster),
      BadgeRule("Noo Badge", heldCount == 0) ]
  }

  /** The rules for account `a` on day `today`, counted over the stored rows. */
  function AccountRules(accounts: map<AccountId, Account>, messages: map<MessageId, Message>,
                        likes: set<Like>, a: AccountId, today: int): seq<BadgeRule>
    requires a in accounts
  {
    BadgeRules(MessageCount(messages, a), LikesReceived(likes, messages, a),
               today - accounts[a].joined, accounts[a].forumMaster, |accounts[a].badges|)
  }

  /** The catalog rows with description `d`: what `Badge.objects.get(description=d)`
      chooses among. */
  function Described(catalog: map<BadgeId, string>, d: string): set<BadgeId>
  {
    set b | b in catalog && catalog[b] == d
  }

  /** The badges an account ends with, and whether the evaluation completed. */
  datatype Granting = Granting(badges: set<BadgeId>, outcome: Outcome)

  /** The loop of badges_manager over `rules`, starting from the badges `held`:
      each rule that holds looks its badge up and adds it; the first lookup that
      raises stops the loop, and the badges added before it stay. */
  function Grants(held: set<BadgeId>, rules: seq<BadgeRule>, catalog: map<BadgeId, string>)
    : (r: Granting)
    ensures held <= r.badges
    ensures r.badges - held <= catalog.Keys
    decreases |rules|
  {
    if rules == [] then Granting(held, Pass)
    else if !rules[0].holds then Grants(held, rules[1..], catalog)
    else
      match GetUnique(Described(catalog, rules[0].description), DoesNotExist)
      case Ok(b) => Grants(held + {b}, rules[1..], catalog)
      case Err(e) => Granting(held, Fail(e))
  }

  /** Every rule that holds has exactly one catalog row. */
  predicate CatalogCovers(catalog: map<BadgeId, string>, rules: seq<BadgeRule>)
  {
    forall k | 0 <= k < |rules| && rules[k].holds :: |Described(catalog, rules[k].description)| == 1
  }

  /** Badge `b` is the catalog's only row for a rule that holds. */
  ghost predicate EarnedBy(catalog: map<BadgeId, string>, rules: seq<BadgeRule>, b: BadgeId)
  {
    exists k | 0 <= k < |rules| :: rules[k].holds && Described(catalog, rules[k].description) == {b}
  }

  /** With a catalog that covers the rules, the evaluation completes, and the
      badges afterwards are exactly those held before plus the badge of every rule
      that holds: nothing is revoked and nothing unearned is granted. */
  lemma {:induction false} GrantsExact(held: set<BadgeId>, rules: seq<BadgeRule>,
                                       catalog: map<BadgeId, string>)
    requires CatalogCovers(catalog, rules)
    ensures Grants(held, rules, catalog).outcome == Pass
    ensures forall b :: b in Grants(held, rules, catalog).badges <==>
                        b in held || EarnedBy(catalog, rules, b)
    decreases |rules|
  {
    if rules != [] {
      var tail := rules[1..];
      assert CatalogCovers(catalog, tail) by {
        forall k | 0 <= k < |tail| && tail[k].holds
          ensures |Described(catalog, tail[k].description)| == 1
        {
          assert tail[k] == rules[k + 1];
        }
      }
      var next := held;
      if rules[0].holds {
        assert |Described(catalog, rules[0].description)| == 1;
        next := held + {GetUnique(Described(catalog, rules[0].description), DoesNotExist).value};
      }
      GrantsExact(next, tail, catalog);
      forall b: BadgeId
        ensures EarnedBy(catalog, rules, b) <==>
                  (rules[0].holds && Described(catalog, rules[0].description) == {b})
                  || EarnedBy(catalog, tail, b)
      {
        if EarnedBy(catalog, tail, b) {
          var k :| 0 <= k < |tail| && tail[k].holds && Described(catalog, tail[k].description) == {b};
          assert rules[k + 1] == tail[k];
        }
        if EarnedBy(catalog, rules, b) {
          var k :| 0 <= k < |rules| && rules[k].holds && Described(catalog, rules[k].description) == {b};
          if k > 0 {
            assert tail[k - 1] == rules[k];
          }
        }
      }
    }
  }

  /** A rule that holds but has no unique catalog row makes the evaluation fail;
      when no holding rule has several rows, the failure is DoesNotExist. */
  lemma {:induction false} GrantsFailWithoutCatalog(held: set<BadgeId>, rules: seq<BadgeRule>,
                                                    catalog: map<BadgeId, string>, k: nat)
    requires k < |rules| && rules[k].holds && |Described(catalog, rules[k].description)| != 1
    ensures Grants(held, rules, catalog).outcome.Fail?
    ensures (forall j | 0 <= j < |rules| && rules[j].holds ::
               |Described(catalog, rules[j].description)| <= 1) ==>
            Grants(held, rules, catalog).outcome == Fail(DoesNotExist)
    decreases |rules|
  {
    var tail := rules[1..];
    if k == 0 {
      if |Described(catalog, rules[0].description)| == 0 {
        assert Described(catalog, rules[0].description) == {};
      }
    } else {
      assert tail[k - 1] == rules[k];
      if rules[0].holds && |Described(catalog, rules[0].description)| == 1 {
        var b := GetUnique(Described(catalog, rules[0].description), DoesNotExist).value;
        GrantsFailWithoutCatalog(held + {b}, tail, catalog, k - 1);
        assert (forall j | 0 <= j < |rules| && rules[j].holds ::
                  |Described(catalog, rules[j].description)| <= 1) ==>
               (forall j | 0 <= j < |tail| && tail[j].holds ::
                  |Described(catalog, tail[j].description)| <= 1) by {
          forall j | 0 <= j < |tail| ensures tail[j] == rules[j + 1] { }
        }
      } else if !rules[0].holds {
        GrantsFailWithoutCatalog(held, tail, catalog, k - 1);
        assert (forall j | 0 <= j < |rules| && rules[j].holds ::
                  |Described(catalog, rules[j].description)| <= 1) ==>
               (forall j | 0 <= j < |tail| && tail[j].holds ::
                  |Described(catalog, tail[j].description)| <= 1) by {
          forall j | 0 <= j < |tail| ensures tail[j] == rules[j + 1] { }
        }
      } else if |Described(catalog, rules[0].description)| == 0 {
        assert Described(catalog, rules[0].description) == {};
      }
    }
  }

  /** A completed evaluation leaves, for every rule that holds, its unique badge
      among the badges. */
  lemma {:induction false} GrantsPassHolds(held: set<BadgeId>, rules: seq<BadgeRule>,
                                           catalog: map<BadgeId, string>)
    requires Grants(held, rules, catalog).outcome == Pass
    ensures CatalogCovers(catalog, rules)
    ensures forall k | 0 <= k < |rules| && rules[k].holds ::
              Described(catalog, rules[k].description) <= Grants(held, rules, catalog).badges
    decreases |rules|
  {
    if rules != [] {
      var tail := rules[1..];
      var next := held;
      if rules[0].holds {
        var found := GetUnique(Described(catalog, rules[0].description), DoesNotExist);
        assert found.Ok?;
        next := held + {found.value};
      }
      GrantsPassHolds(next, tail, catalog);
      forall k | 0 <= k < |rules| && rules[k].holds
        ensures |Described(catalog, rules[k].description)| == 1
        ensures Described(catalog, rules[k].description) <= Grants(held, rules, catalog).badges
      {
        if k > 0 {
          assert tail[k - 1] == rules[k];
        }
      }
    }
  }

  /** When every rule that holds already has its badge among `held`, the
      evaluation completes and adds nothing. */
  lemma {:induction false} GrantsNothingNew(held: set<BadgeId>, rules: seq<BadgeRule>,
                                            catalog: map<BadgeId, string>)
    requires CatalogCovers(catalog, rules)
    requires forall k | 0 <= k < |rules| && rules[k].holds :: Described(catalog, rules[k].description) <= held
    ensures Grants(held, rules, catalog) == Granting(held, Pass)
    decreases |rules|
  {
    if rules != [] {
      var tail := rules[1..];
      forall k | 0 <= k < |tail| ensures tail[k] == rules[k + 1] { }
      if rules[0].holds {
        var found := GetUnique(Described(catalog, rules[0].description), DoesNotExist);
        assert found.Ok? && found.value in held;
        assert held + {found.value} == held;
      }
      GrantsNothingNew(held, tail, catalog);
    }
  }

  /** Re-running the evaluation with the same counts and date adds nothing: the
      only condition that can change, "Noo Badge", can only turn false. */
  lemma BadgesIdempotent(messageCount: nat, likeCount: nat, ageInDays: int, forumMaster: bool,
                         held: set<BadgeId>, catalog: map<BadgeId, string>)
    requires Grants(held, BadgeRules(messageCount, likeCount, ageInDays, forumMaster, |held|),
                    catalog).outcome == Pass
    ensures var first := Grants(held, BadgeRules(messageCount, likeCount, ageInDays, forumMaster, |held|),
                                catalog).badges;
            Grants(first, BadgeRules(messageCount, likeCount, ageInDays, forumMaster, |first|), catalog)
            == Granting(first, Pass)
  {
    var rules := BadgeRules(messageCount, likeCount, ageInDays, forumMaster, |held|);
    var first := Grants(held, rules, catalog).badges;
    var again := BadgeRules(messageCount, likeCount, ageInDays, forumMaster, |first|);
    GrantsPassHolds(held, rules, catalog);
    assert |first| == 0 ==> |held| == 0 by {
      if |first| == 0 {
        assert held <= first;
      }
    }
    forall k | 0 <= k < |again| && again[k].holds
      ensures rules[k].holds && again[k].description == rules[k].description
    {
    }
    GrantsNothingNew(first, again, catalog);
  }

  /** The catalog holds exactly one row for each of the nine descriptions (the
      badge fixture of forum/tests/conftest.py creates one badge per description). */
  predicate FullCatalog(catalog: map<BadgeId, string>)
  {
    forall d | d in Descriptions :: |Described(catalog, d)| == 1
  }

  /** The badge a full catalog gives for description `d`. */
  function BadgeOf(catalog: map<BadgeId, string>, d: string): (b: BadgeId)
    requires |Described(catalog, d)| == 1
    ensures b in catalog && catalog[b] == d
    ensures Described(catalog, d) == {b}
  {
    var found := GetUnique(Described(catalog, d), DoesNotExist);
    assert found.value in Described(catalog, d);
    found.value
  }

  /** The nine descriptions are pairwise different. */
  lemma DescriptionsDistinct(j: nat, k: nat)
    requires j < k < |Descriptions|
    ensures Descriptions[j] != Descriptions[k]
  {
  }

  /** With a full catalog the evaluation completes, and the badge of the `k`-th
      description is held afterwards exactly when it was held before or the `k`-th
      condition holds. */
  lemma {:induction false} BadgeAwarded(rules: seq<BadgeRule>, held: set<BadgeId>,
                                        catalog: map<BadgeId, string>, k: nat)
    requires FullCatalog(catalog)
    requires |rules| == |Descriptions|
    requires forall i | 0 <= i < |rules| :: rules[i].description == Descriptions[i]
    requires k < |rules|
    ensures Grants(held, rules, catalog).outcome == Pass
    ensures BadgeOf(catalog, Descriptions[k]) in Grants(held, rules, catalog).badges <==>
            BadgeOf(catalog, Descriptions[k]) in held || rules[k].holds
  {
    forall i | 0 <= i < |rules| ensures |Described(catalog, rules[i].description)| == 1 {
      assert rules[i].description in Descriptions;
    }
    GrantsExact(held, rules, catalog);
    var b := BadgeOf(catalog, Descriptions[k]);
    if EarnedBy(catalog, rules, b) {
      var j :| 0 <= j < |rules| && rules[j].holds && Described(catalog, rules[j].description) == {b};
      assert catalog[b] == Descriptions[j];
      if j < k {
        DescriptionsDistinct(j, k);
      } else if k < j {
        DescriptionsDistinct(k, j);
      }
    }
  }

  /** With a full catalog, each badge is held after the evaluation exactly when it
      was held before or its threshold is met: at least 10, 50 or 100 messages or
      likes (inclusive), an account less than four days old, the forum-master flag,
      and no badge at all before the evaluation. */
  lemma BadgeThresholds(messageCount: nat, likeCount: nat, ageInDays: int,
                        forumMaster: bool, held: set<BadgeId>,
                        catalog: map<BadgeId, string>)
    requires FullCatalog(catalog)
    ensures var g := Grants(held, BadgeRules(messageCount, likeCount, ageInDays, forumMaster, |held|),
                            catalog);
            && g.outcome == Pass
            && (BadgeOf(catalog, "10 messages") in g.badges <==>
                  BadgeOf(catalog, "10 messages") in held || messageCount >= 10)
            && (BadgeOf(catalog, "50 messages") in g.badges <==>
                  BadgeOf(catalog, "50 messages") in held || messageCount >= 50)
            && (BadgeOf(catalog, "100 messages") in g.badges <==>
                  BadgeOf(catalog, "100 messages") in held || messageCount >= 100)
            && (BadgeOf(catalog, "10 likes") in g.badges <==>
                  BadgeOf(catalog, "10 likes") in held || likeCount >= 10)
            && (BadgeOf(catalog, "50 likes") in g.badges <==>
                  BadgeOf(catalog, "50 likes") in held || likeCount >= 50)
            && (BadgeOf(catalog, "100 likes") in g.badges <==>
                  BadgeOf(catalog, "100 likes") in held || likeCount >= 100)
            && (BadgeOf(catalog, "Nouveau") in g.badges <==>
                  BadgeOf(catalog, "Nouveau") in held || ageInDays < 4)
            && (BadgeOf(catalog, "Forum Master") in g.badges <==>
                  BadgeOf(catalog, "Forum Master") in held || forumMaster)
            && (BadgeOf(catalog, "Noo Badge") in g.badges <==>
                  BadgeOf(catalog, "Noo Badge") in held || |held| == 0)
  {
    var rules := BadgeRules(messageCount, likeCount, ageInDays, forumMaster, |held|);
    BadgeAwarded(rules, held, catalog, 0);
    BadgeAwarded(rules, held, catalog, 1);
    BadgeAwarded(rules, held, catalog, 2);
    BadgeAwarded(rules, held, catalog, 3);
    BadgeAwarded(rules, held, catalog, 4);
    BadgeAwarded(rules, held, catalog, 5);
    BadgeAwarded(rules, held, catalog, 6);
    BadgeAwarded(rules, held, catalog, 7);
    BadgeAwarded(rules, held, catalog, 8);
  }

  /** One step of the loop: a rule that does not hold is skipped. */
  lemma GrantsSkip(held: set<BadgeId>, rules: seq<BadgeRule>, i: nat, catalog: map<BadgeId, string>)
    requires i < |rules| && !rules[i].holds
    ensures Grants(held, rules[i..], catalog) == Grants(held, rules[i + 1..], catalog)
  {
    assert rules[i..][1..] == rules[i + 1..];
  }

  /** One step of the loop: a rule that holds adds its badge. */
  lemma GrantsAdd(held: set<BadgeId>, rules: seq<BadgeRule>, i: nat, catalog: map<BadgeId, string>)
    requires i < |rules| && rules[i].holds
    requires GetUnique(Described(catalog, rules[i].description), DoesNotExist).Ok?
    ensures Grants(held, rules[i..], catalog) ==
            Grants(held + {GetUnique(Described(catalog, rules[i].description), DoesNotExist).value},
                   rules[i + 1..], catalog)
  {
    assert rules[i..][1..] == rules[i + 1..];
  }

  /** One step of the loop: a rule whose badge is already held adds nothing. */
  lemma GrantsHeld(held: set<BadgeId>, rules: seq<BadgeRule>, i: nat, catalog: map<BadgeId, string>)
    requires i < |rules| && rules[i].holds
    requires GetUnique(Described(catalog, rules[i].description), DoesNotExist).Ok?
    requires GetUnique(Described(catalog, rules[i].description), DoesNotExist).value in held
    ensures Grants(held, rules[i..], catalog) == Grants(held, rules[i + 1..], catalog)
  {
    assert rules[i..][1..] == rules[i + 1..];
    assert held + {GetUnique(Described(catalog, rules[i].description), DoesNotExist).value} == held;
  }

  /** One step of the loop: a failed lookup ends the evaluation. */
  lemma GrantsStop(held: set<BadgeId>, rules: seq<BadgeRule>, i: nat, catalog: map<BadgeId, string>)
    requires i < |rules| && rules[i].holds
    requires GetUnique(Described(catalog, rules[i].description), DoesNotExist).Err?
    ensures Grants(held, rules[i..], catalog) ==
            Granting(held, Fail(GetUnique(Described(catalog, rules[i].description), DoesNotExist).error))
  {
  }

  /** The loop of ForumAccount.badges_manager over the conditions `rules`,
      starting from the badges `held`: each condition that holds has its badge
      looked up and added unless the account held it when the evaluation
      started; a lookup that raises ends the loop with the earlier additions. */
  method GrantBadges(held: set<BadgeId>, rules: seq<BadgeRule>, catalog: map<BadgeId, string>)
    returns (g: Granting)
    ensures g == Grants(held, rules, catalog)
  {
    var current := held;
    var i := 0;
    while i < |rules|
      invariant 0 <= i <= |rules|
      invariant held <= current
      invariant Grants(current, rules[i..], catalog) == Grants(held, rules, catalog)
    {
      if rules[i].holds {
        var found := GetUnique(Described(catalog, rules[i].description), DoesNotExist);
        if found.Err? {
          GrantsStop(current, rules, i, catalog);
          return Granting(current, Fail(found.error));
        }
        if found.value !in held {
          GrantsAdd(current, rules, i, catalog);
          current := current + {found.value};
        } else {
          GrantsHeld(current, rules, i, catalog);
        }
      } else {
        GrantsSkip(current, rules, i, catalog);
      }
      i := i + 1;
    }
    g := Granting(current, Pass);
  }

  /** ForumAccount.badges_manager, for account `a` on day `today`: the conditions
      are computed once, the loop runs over them, and the badges it leaves are
      saved, so a lookup that raises leaves the earlier additions stored. */
  method BadgesManager(db: Database, a: AccountId, today: int) returns (r: Outcome)
    requires db.Valid() && a in db.accounts
    modifies db`accounts
    ensures db.Valid()
    ensures var g := Grants(old(db.accounts)[a].badges,
                            AccountRules(old(db.accounts), db.messages, db.likes, a, today),
                            db.badgeCatalog);
            && r == g.outcome
            && db.accounts == old(db.accounts)[a := old(db.accounts)[a].(badges := g.badges)]
  {
    var account := db.accounts[a];
    var rules := AccountRules(db.accounts, db.messages, db.likes, a, today);
    var g := GrantBadges(account.badges, rules, db.badgeCatalog);
    db.UpdateAccount(a, account.(badges := g.badges));
    r := g.outcome;
  }
}
