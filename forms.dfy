/**
 * The form logic of app/forms.py: tag parsing, the password and e-mail
 * checks of registration and settings, and `QuestionForm.save` with its
 * get-or-create of tags. A Django field that failed its own validation is
 * absent from `cleaned_data`; here that is `None`.
 */
module Forms {
  import opened Wrappers
  import opened QuerySets
  import opened PyText
  import opened Models

  // ---- QuestionForm.clean_tags ----

  /** `[t.strip() for t in ts if t.strip()]`. */
  function StripNonBlank(ts: seq<string>): (r: seq<string>)
    ensures |r| <= |ts|
    ensures forall i :: 0 <= i < |r| ==> r[i] != []
  {
    if ts == [] then []
    else
      var t := Strip(ts[0]);
      (if t != [] then [t] else []) + StripNonBlank(ts[1..])
  }

  lemma {:induction false} StripNonBlankOfWords(ts: seq<string>)
    requires forall i :: 0 <= i < |ts| ==> ts[i] != [] && NoSpace(ts[i])
    ensures StripNonBlank(ts) == ts
  {
    if ts != [] {
      StripNonBlankOfWords(ts[1..]);
    }
  }

  /**
   * `clean_tags`: no tags for an empty field; otherwise the whitespace
   * separated words of the field, in order (stripping and dropping blanks
   * change nothing, since `split()` never yields either).
   */
  function CleanTags(raw: Option<string>): (r: seq<string>)
    ensures raw.None? || raw.value == [] ==> r == []
    ensures raw.Some? ==> r == Split(raw.value)
    ensures forall i :: 0 <= i < |r| ==> r[i] != [] && NoSpace(r[i])
  {
    if raw.None? || raw.value == [] then []
    else
      StripNonBlankOfWords(Split(raw.value));
      StripNonBlank(Split(raw.value))
  }

  /** Tag names typed separated by single spaces come back as typed. */
  lemma CleanTagsOfJoin(names: seq<string>)
    requires forall i :: 0 <= i < |names| ==> names[i] != [] && NoSpace(names[i])
    ensures CleanTags(Some(JoinSpace(names))) == names
  {
    SplitJoinSpace(names);
  }

  // ---- RegisterForm.clean ----

  /** Python truthiness of an optional string. */
  predicate Truthy(s: Option<string>)
  {
    s.Some? && s.value != []
  }

  /**
   * `RegisterForm.clean`: the error it adds to `repeat_password`, if any. Two
   * non-empty passwords that differ are refused; a missing or empty one is
   * left to the field's own required check.
   */
  function RegisterClean(password: Option<string>, repeatPassword: Option<string>): (r: Option<string>)
    ensures r.Some? ==> r.value == "Passwords do not match"
    ensures r.Some? <==> Truthy(password) && Truthy(repeatPassword) && password != repeatPassword
  {
    if Truthy(password) && Truthy(repeatPassword) && password.value != repeatPassword.value then Some("Passwords do not match")
    else None
  }

  /** The mismatch check does not depend on which field holds which password. */
  lemma RegisterCleanSymmetric(a: Option<string>, b: Option<string>)
    ensures RegisterClean(a, b).Some? == RegisterClean(b, a).Some?
  {
  }

  // ---- e-mail uniqueness (email__iexact) ----

  function AsciiLowerChar(c: char): (r: char)
    ensures 'A' <= c <= 'Z' ==> 'a' <= r <= 'z'
    ensures !('A' <= c <= 'Z') ==> r == c
  {
    if 'A' <= c <= 'Z' then (c as int + 32) as char else c
  }

  function AsciiLower(s: string): (r: string)
    ensures |r| == |s| && forall i :: 0 <= i < |s| ==> r[i] == AsciiLowerChar(s[i])
  {
    seq(|s|, i requires 0 <= i < |s| => AsciiLowerChar(s[i]))
  }

  /** The `iexact` comparison. */
  predicate IEquals(a: string, b: string)
  {
    AsciiLower(a) == AsciiLower(b)
  }

  /** An account whose e-mail matches `email` without regard to case. */
  function EmailTaken(users: seq<User>, email: string): (r: Option<nat>)
    ensures r.Some? ==> r.value < |users| && IEquals(users[r.value].email, email)
    ensures r.None? <==> forall i :: 0 <= i < |users| ==> !IEquals(users[i].email, email)
  {
    First(users, (u: User) => IEquals(u.email, email))
  }

  /** `RegisterForm.clean_email`: a non-empty address some account already has, in any case, is refused. */
  function RegisterCleanEmail(email: Option<string>, users: seq<User>): (r: Result<Option<string>, string>)
    ensures r.Err? <==> Truthy(email) && exists i :: 0 <= i < |users| && IEquals(users[i].email, email.value)
    ensures r.Err? ==> r.error == "This email is already registered."
    ensures r.Ok? ==> r.value == email
  {
    if Truthy(email) && EmailTaken(users, email.value).Some? then Err("This email is already registered.")
    else Ok(email)
  }

  /**
   * `SettingsForm.clean_email`: as at registration, but accounts named like
   * the edited account (as stored, before the form's own changes) do not count.
   */
  function SettingsCleanEmail(email: Option<string>, instanceUsername: string, users: seq<User>): (r: Result<Option<string>, string>)
    ensures r.Err? <==> Truthy(email) && exists i :: 0 <= i < |users| && users[i].username != instanceUsername && IEquals(users[i].email, email.value)
    ensures r.Err? ==> r.error == "This email is already in use."
    ensures r.Ok? ==> r.value == email
  {
    var others := Filter(users, (u: User) => u.username != instanceUsername);
    if Truthy(email) && EmailTaken(others, email.value).Some? then
      var k := EmailTaken(others, email.value).value;
      assert others[k] in users;
      Err("This email is already in use.")
    else
      assert Truthy(email) ==> forall i :: 0 <= i < |users| && users[i].username != instanceUsername ==> users[i] in others;
      Ok(email)
  }

  /** Changing the case of letters does not get an address past the registration check. */
  lemma RegisterEmailIgnoresCase(users: seq<User>, a: string, b: string)
    requires AsciiLower(a) == AsciiLower(b)
    ensures RegisterCleanEmail(Some(a), users).Err? == RegisterCleanEmail(Some(b), users).Err?
  {
    assert a == [] <==> b == [];
  }

  /** An address already on file, written in lower case, is refused at registration. */
  lemma RegisterRefusesExisting(users: seq<User>, i: nat)
    requires i < |users| && users[i].email != []
    ensures RegisterCleanEmail(Some(AsciiLower(users[i].email)), users).Err?
  {
    var e := users[i].email;
    assert AsciiLower(AsciiLower(e)) == AsciiLower(e);
    assert IEquals(users[i].email, AsciiLower(e));
  }

  /** The settings check is the registration check over every account but the edited one. */
  lemma SettingsIsRegisterOverOthers(email: Option<string>, me: string, users: seq<User>)
    ensures SettingsCleanEmail(email, me, users).Err?
            == RegisterCleanEmail(email, Filter(users, (u: User) => u.username != me)).Err?
  {
    var others := Filter(users, (u: User) => u.username != me);
    if Truthy(email) && RegisterCleanEmail(email, others).Err? {
      var k :| 0 <= k < |others| && IEquals(others[k].email, email.value);
      assert others[k] in users;
    }
  }

  /** A user may keep their own address as long as no other account has it. */
  lemma SettingsAcceptsOwnEmail(users: seq<User>, i: nat)
    requires i < |users|
    requires forall j :: 0 <= j < |users| && users[j].username != users[i].username ==> !IEquals(users[j].email, users[i].email)
    ensures SettingsCleanEmail(Some(users[i].email), users[i].username, users).Ok?
  {
  }

  // ---- QuestionForm.save ----

  /**
   * `Tag.objects.get_or_create(name=name)`: the id of the tag named `name`,
   * created with a fresh id when there is none.
   */
  method GetOrCreateTag(db: Db, name: string) returns (id: Id)
    requires db.Valid()
    modifies db`tags
    ensures db.Valid()
    ensures FindTagByName(db.tags, name).Some? && db.tags[FindTagByName(db.tags, name).value].id == id
    ensures GotOrCreated(old(db.tags), db.tags, name, id)
    ensures FindTagByName(old(db.tags), name).None? ==> id !in TagIds(old(db.tags))
  {
    var found := FindTagByName(db.tags, name);
    if found.Some? {
      id := db.tags[found.value].id;
    } else {
      id := NextId(TagIds(db.tags));
      db.tags := db.tags + [Tag(id, name)];
      assert db.tags[|db.tags| - 1].name == name;
    }
  }

  /** The ids of the tags whose names are in `names`. */
  function TagIdsNamed(tags: seq<Tag>, names: seq<string>): set<Id>
  {
    set k | 0 <= k < |tags| && tags[k].name in names :: tags[k].id
  }

  /** One get-or-create and `question.tags.add(tag)` adds exactly the tag named `n`. */
  lemma TagIdsNamedStep(tags: seq<Tag>, names: seq<string>, n: string, tags2: seq<Tag>, id: Id)
    requires TagNamesUnique(tags)
    requires forall m :: m in names ==> FindTagByName(tags, m).Some?
    requires GotOrCreated(tags, tags2, n, id)
    ensures TagIdsNamed(tags2, names + [n]) == TagIdsNamed(tags, names) + {id}
  {
    var before := TagIdsNamed(tags, names);
    var after := TagIdsNamed(tags2, names + [n]);
    match FindTagByName(tags, n)
    case Some(k) =>
      assert tags[k].name in names + [n];
      forall x | x in after
        ensures x in before + {id}
      {
        var j :| 0 <= j < |tags| && tags[j].name in names + [n] && tags[j].id == x;
        if tags[j].name !in names {
          assert tags[j].name == n;
          assert j == k;
        }
      }
    case None =>
      assert n !in names;
      assert tags2[|tags|].name in names + [n];
      forall x | x in after
        ensures x in before + {id}
      {
        var j :| 0 <= j < |tags2| && tags2[j].name in names + [n] && tags2[j].id == x;
        if j < |tags| {
          assert tags2[j] == tags[j];
          assert tags[j].name != n;
        }
      }
      forall x | x in before
        ensures x in after
      {
        var j :| 0 <= j < |tags| && tags[j].name in names && tags[j].id == x;
        assert tags2[j] == tags[j];
      }
  }

  /** `TagIdsNamedStep` for the loop of `SaveQuestion`, which handles `names[i]` after `names[..i]`. */
  lemma TagIdsLoopStep(before: seq<Tag>, names: seq<string>, i: nat, after: seq<Tag>, id: Id)
    requires i < |names|
    requires TagNamesUnique(before)
    requires forall m :: m in names[..i] ==> FindTagByName(before, m).Some?
    requires GotOrCreated(before, after, names[i], id)
    ensures TagIdsNamed(after, names[..i + 1]) == TagIdsNamed(before, names[..i]) + {id}
  {
    assert names[..i + 1] == names[..i] + [names[i]];
    TagIdsNamedStep(before, names[..i], names[i], after, id);
  }

  /** One get-or-create as `GetOrCreateTag` performs it: `after` is `before`, or `before` with a new tag named `name`. */
  predicate GotOrCreated(before: seq<Tag>, after: seq<Tag>, name: string, id: Id)
  {
    match FindTagByName(before, name)
    case Some(k) => after == before && id == before[k].id
    case None => after == before + [Tag(id, name)]
  }

  /** Over the loop, the tag table only grows, and only by tags the form names. */
  lemma TagTableGrows(original: seq<Tag>, before: seq<Tag>, after: seq<Tag>, names: seq<string>, i: nat, id: Id)
    requires i < |names|
    requires |original| <= |before| && before[..|original|] == original
    requires forall k :: |original| <= k < |before| ==> before[k].name in names[..i]
    requires GotOrCreated(before, after, names[i], id)
    ensures |original| <= |after| && after[..|original|] == original
    ensures forall k :: |original| <= k < |after| ==> after[k].name in names[..i + 1]
  {
    assert names[..i + 1] == names[..i] + [names[i]];
  }

  /** Over the loop, every name handled so far has a tag. */
  lemma TagsFound(before: seq<Tag>, after: seq<Tag>, names: seq<string>, i: nat, id: Id)
    requires i < |names|
    requires forall n :: n in names[..i] ==> FindTagByName(before, n).Some?
    requires GotOrCreated(before, after, names[i], id)
    ensures forall n :: n in names[..i + 1] ==> FindTagByName(after, n).Some?
  {
    assert names[..i + 1] == names[..i] + [names[i]];
    assert |before| <= |after| && after[..|before|] == before;
    if FindTagByName(before, names[i]).None? {
      assert after[|before|].name == names[i];
    }
    forall n | n in names[..i]
      ensures FindTagByName(after, n).Some?
    {
      var k := FindTagByName(before, n).value;
      assert after[k] == before[k];
    }
  }

  /** What `QuestionForm.save` returns: an unsaved question, the id of the saved one, or the database's refusal. */
  datatype SaveResult = Unsaved(title: string, text: string, user: Option<Id>) | Saved(id: Id) | IntegrityError

  /**
   * `QuestionForm.save(user, commit)`: without `commit` nothing is written;
   * with it the question is saved (refused by the NOT NULL author column when
   * no author is given) and then each tag name is got or created and added.
   * Afterwards the question's tags are exactly the tags named in the form,
   * every such tag exists, and the only new tags are ones the form names.
   */
  method SaveQuestion(db: Db, title: string, text: string, tagNames: seq<string>, user: Option<Id>, commit: bool, now: int)
    returns (r: SaveResult)
    requires db.Valid()
    modifies db`questions, db`tags
    ensures db.Valid()
    ensures !commit ==> r == Unsaved(title, text, user) && db.questions == old(db.questions) && db.tags == old(db.tags)
    ensures commit && user.None? ==> r == IntegrityError && db.questions == old(db.questions) && db.tags == old(db.tags)
    ensures commit && user.Some? ==>
              && r.Saved?
              && r.id !in QuestionIds(old(db.questions))
              && |old(db.tags)| <= |db.tags| && db.tags[..|old(db.tags)|] == old(db.tags)
              && (forall k :: |old(db.tags)| <= k < |db.tags| ==> db.tags[k].name in tagNames)
              && (forall n :: n in tagNames ==> FindTagByName(db.tags, n).Some?)
              && db.questions == old(db.questions) + [Question(r.id, title, text, user.value, TagIdsNamed(db.tags, tagNames), now)]
  {
    if !commit {
      return Unsaved(title, text, user);
    }
    if user.None? {
      return IntegrityError;
    }
    var qid := NextId(QuestionIds(db.questions));
    db.questions := db.questions + [Question(qid, title, text, user.value, {}, now)];
    var last := |db.questions| - 1;
    var i := 0;
    assert TagIdsNamed(db.tags, tagNames[..0]) == {};
    while i < |tagNames|
      invariant 0 <= i <= |tagNames|
      invariant db.Valid()
      invariant |old(db.tags)| <= |db.tags| && db.tags[..|old(db.tags)|] == old(db.tags)
      invariant forall k :: |old(db.tags)| <= k < |db.tags| ==> db.tags[k].name in tagNames[..i]
      invariant forall n :: n in tagNames[..i] ==> FindTagByName(db.tags, n).Some?
      invariant db.questions == old(db.questions) + [Question(qid, title, text, user.value, TagIdsNamed(db.tags, tagNames[..i]), now)]
    {
      ghost var before := db.tags;
      var tagId := GetOrCreateTag(db, tagNames[i]);
      TagTableGrows(old(db.tags), before, db.tags, tagNames, i, tagId);
      TagsFound(before, db.tags, tagNames, i, tagId);
      TagIdsLoopStep(before, tagNames, i, db.tags, tagId);
      var q := db.questions[last];
      var updated := q.(tags := q.tags + {tagId});
      assert updated == Question(qid, title, text, user.value, TagIdsNamed(db.tags, tagNames[..i + 1]), now);
      db.questions := db.questions[last := updated];
      assert db.questions == old(db.questions) + [updated];
      i := i + 1;
    }
    assert tagNames[..i] == tagNames;
    r := Saved(qid);
  }
}
