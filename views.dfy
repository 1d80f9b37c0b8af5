/**
 * The request handlers of app/views.py that carry logic: `paginate`, `vote`,
 * `mark_correct`, the answer-posting branch of the (later, live) `question`
 * view, and the `tag` view. A request's authenticated account is an
 * `Option<Id>` (`None` for an anonymous visitor); HTTP, templates and JSON
 * encoding are not modelled.
 */
module Views {
  import opened Wrappers
  import opened QuerySets
  import opened PyText
  import opened Models
  import opened Ledger
  import opened Forms

  /**
   * How a request ends when it does not succeed: a redirect to the login page
   * (`login_required`), the 400 "Wrong object type" reply, a 404, the 403
   * "Access denied" reply, a form re-rendered with errors, or an uncaught
   * exception (a 500).
   */
  datatype Error = LoginRequired | WrongObjectType | NotFound | AccessDenied | FormInvalid | ServerError

  // ---- paginate (Django's Paginator with orphans = 0 and an allowed empty first page) ----

  datatype Page<T> = Page(number: int, numPages: nat, items: seq<T>)

  /** `Paginator.num_pages`: at least one page, even for no objects. */
  function NumPages(count: nat, perPage: nat): (r: nat)
    requires perPage > 0
    ensures r >= 1
    ensures (r - 1) * perPage < (if count == 0 then 1 else count) <= r * perPage
  {
    var hits := if count == 0 then 1 else count;
    (hits + perPage - 1) / perPage
  }

  function Min(a: int, b: int): int
  {
    if a <= b then a else b
  }

  lemma MulLe(a: nat, b: nat, c: nat)
    requires a <= b
    ensures a * c <= b * c
  {
  }

  /** Where page `number` starts: never past the end of the objects. */
  function PageStart(count: nat, number: nat, perPage: nat): (r: nat)
    requires perPage > 0 && 1 <= number <= NumPages(count, perPage)
    ensures r <= count
    ensures r + perPage == number * perPage
  {
    MulLe(number - 1, NumPages(count, perPage) - 1, perPage);
    (number - 1) * perPage
  }

  /** `Page.object_list` of page `number`. */
  function PageItems<T>(objects: seq<T>, number: nat, perPage: nat): (r: seq<T>)
    requires perPage > 0 && 1 <= number <= NumPages(|objects|, perPage)
    ensures |r| <= perPage
    ensures |objects| > 0 ==> |r| > 0
    ensures PageStart(|objects|, number, perPage) + |r| <= |objects|
    ensures forall k :: 0 <= k < |r| ==> r[k] == objects[PageStart(|objects|, number, perPage) + k]
  {
    var bottom := PageStart(|objects|, number, perPage);
    var top := bottom + perPage;
    objects[bottom..Min(top, |objects|)]
  }

  /**
   * `paginate(request, objects, per_page)`: `int(page)` fails with a
   * ValueError on a non-numeric page (a 500); a page number below 1 or above
   * the last page raises EmptyPage and gives the last page.
   */
  function Paginate<T>(page: Option<string>, objects: seq<T>, perPage: nat): (r: Result<Page<T>, Error>)
    requires perPage > 0
    ensures r.Err? <==> page.Some? && ParseInt(page.value).None?
    ensures r.Err? ==> r.error == ServerError
    ensures r.Ok? ==> r.value.numPages == NumPages(|objects|, perPage) && 1 <= r.value.number <= r.value.numPages
    ensures r.Ok? ==> r.value.items == PageItems(objects, r.value.number, perPage)
    ensures r.Ok? && page.None? ==> r.value.number == 1
    ensures r.Ok? && page.Some? ==>
              var n := ParseInt(page.value).value;
              r.value.number == if 1 <= n <= r.value.numPages then n else r.value.numPages
  {
    var requested := if page.None? then Some(1) else ParseInt(page.value);
    match requested
    case None => Err(ServerError)
    case Some(n) =>
      var pages := NumPages(|objects|, perPage);
      var number := if 1 <= n <= pages then n else pages;
      Ok(Page(number, pages, PageItems(objects, number, perPage)))
  }

  /** Pages 1 to `n`, one after the other. */
  function PagesUpTo<T>(objects: seq<T>, perPage: nat, n: nat): seq<T>
    requires perPage > 0 && n <= NumPages(|objects|, perPage)
  {
    if n == 0 then [] else PagesUpTo(objects, perPage, n - 1) + PageItems(objects, n, perPage)
  }

  lemma {:induction false} PagesUpToPrefix<T>(objects: seq<T>, perPage: nat, n: nat)
    requires perPage > 0 && n <= NumPages(|objects|, perPage)
    ensures PagesUpTo(objects, perPage, n) == objects[..Min(n * perPage, |objects|)]
  {
    if n > 0 {
      PagesUpToPrefix(objects, perPage, n - 1);
      var lo := PageStart(|objects|, n, perPage);
      assert lo == (n - 1) * perPage;
      var hi := Min(n * perPage, |objects|);
      assert objects[..hi] == objects[..lo] + objects[lo..hi];
    }
  }

  /** The pages partition the objects: read in order, they list every object once. */
  lemma PagesCoverObjects<T>(objects: seq<T>, perPage: nat)
    requires perPage > 0
    ensures PagesUpTo(objects, perPage, NumPages(|objects|, perPage)) == objects
  {
    PagesUpToPrefix(objects, perPage, NumPages(|objects|, perPage));
  }

  /** Twelve objects five to a page: page 2 is objects 6 to 10, and page 99 is clamped to page 3 (objects 11 and 12). */
  lemma PaginateTwelve(objects: seq<int>)
    requires |objects| == 12
    ensures Paginate(Some(IntToStr(2)), objects, 5) == Ok(Page(2, 3, objects[5..10]))
    ensures Paginate(Some(IntToStr(99)), objects, 5) == Ok(Page(3, 3, objects[10..12]))
  {
    ParseIntRoundTrip(2);
    ParseIntRoundTrip(99);
    assert NumPages(|objects|, 5) == 3;
    var second := Paginate(Some(IntToStr(2)), objects, 5);
    assert second.value.number == 2;
    assert second.value.items == objects[5..10];
    var clamped := Paginate(Some(IntToStr(99)), objects, 5);
    assert clamped.value.number == 3;
    assert clamped.value.items == objects[10..12];
  }

  /** No objects make one empty page, whatever page is asked for. */
  lemma PaginateEmpty<T>(objects: seq<T>, n: int)
    requires objects == [] && Renderable(n)
    ensures Paginate(Some(IntToStr(n)), objects, 5) == Ok(Page(1, 1, []))
  {
    ParseIntRoundTrip(n);
  }

  // ---- the list views ----

  /** `index`: page `page` of the questions, newest first. */
  function IndexView(qs: seq<Question>, page: Option<string>): (r: Result<Page<Question>, Error>)
    ensures r == Paginate(page, New(qs), 5)
    ensures r.Err? <==> page.Some? && ParseInt(page.value).None?
    ensures r.Ok? ==> r.value.numPages == NumPages(|qs|, 5)
    ensures r.Ok? ==> forall i :: 0 <= i < |r.value.items| ==> r.value.items[i] in qs
    ensures r.Ok? ==> forall i, j :: 0 <= i < j < |r.value.items| ==> r.value.items[i].createdAt >= r.value.items[j].createdAt
  {
    var ordered := New(qs);
    SameMembers(ordered, qs);
    Paginate(page, ordered, 5)
  }

  /** `hot_questions`: page `page` of the questions, most Like rows first. */
  function HotView(qs: seq<Question>, likes: seq<Like>, page: Option<string>): (r: Result<Page<Question>, Error>)
    ensures r == Paginate(page, Popular(qs, likes), 5)
    ensures r.Err? <==> page.Some? && ParseInt(page.value).None?
    ensures r.Ok? ==> r.value.numPages == NumPages(|qs|, 5)
    ensures r.Ok? ==> forall i :: 0 <= i < |r.value.items| ==> r.value.items[i] in qs
    ensures r.Ok? ==> forall i, j :: 0 <= i < j < |r.value.items| ==>
              LikeCount(likes, r.value.items[i].id) >= LikeCount(likes, r.value.items[j].id)
  {
    var ordered := Popular(qs, likes);
    SameMembers(ordered, qs);
    Paginate(page, ordered, 5)
  }

  /** What the `question` page shows: the question, its answer count and a page of its answers. */
  datatype QuestionScreen = QuestionScreen(question: Question, answersCnt: nat, answers: Page<Answer>)

  /**
   * The live `question` view on GET: a missing question raises DoesNotExist
   * (a 500); otherwise page `page` of its answers, oldest first.
   */
  function QuestionPage(qs: seq<Question>, answers: seq<Answer>, pk: int, page: Option<string>): (r: Result<QuestionScreen, Error>)
    ensures FindQuestion(qs, pk).None? ==> r == Err(ServerError)
    ensures FindQuestion(qs, pk).Some? ==> (r.Err? <==> page.Some? && ParseInt(page.value).None?)
    ensures r.Err? ==> r == Err(ServerError)
    ensures r.Ok? ==> r.value.question in qs && r.value.question.id == pk
    ensures r.Ok? ==> r.value.answersCnt == |WithAnswers(answers, pk as nat)|
    ensures r.Ok? ==> Paginate(page, WithAnswers(answers, pk as nat), 5) == Ok(r.value.answers)
    ensures r.Ok? ==> forall i :: 0 <= i < |r.value.answers.items| ==>
              r.value.answers.items[i] in answers && r.value.answers.items[i].question == pk
    ensures r.Ok? ==> forall i, j :: 0 <= i < j < |r.value.answers.items| ==>
              r.value.answers.items[i].createdAt <= r.value.answers.items[j].createdAt
  {
    match GetWithAnswers(qs, answers, pk)
    case None => Err(ServerError)
    case Some(q) =>
      match Paginate(page, q.answersOrdered, 5)
      case Err(e) => Err(e)
      case Ok(p) => Ok(QuestionScreen(q.question, q.answersCnt, p))
  }

  // ---- ask ----

  /** Django's `ProhibitNullCharactersValidator`, which every form `CharField` carries. */
  predicate NoNull(s: string)
  {
    '\0' !in s
  }

  /**
   * The `QuestionForm` field checks: a title of 1 to 255 characters and a
   * text, both after stripping, and no null character in the title, the text
   * or the optional tags field.
   */
  predicate QuestionFormValid(title: string, text: string, tags: Option<string>)
    ensures QuestionFormValid(title, text, tags) ==> 1 <= |Strip(title)| <= 255 && 1 <= |Strip(text)| <= |text|
    ensures AllSpace(title) || AllSpace(text) ==> !QuestionFormValid(title, text, tags)
    ensures '\0' in title || '\0' in text || (tags.Some? && '\0' in tags.value) ==> !QuestionFormValid(title, text, tags)
  {
    StripOfSpace(title);
    StripOfSpace(text);
    && Strip(title) != [] && |Strip(title)| <= 255 && Strip(text) != []
    && NoNull(title) && NoNull(text) && (tags.None? || NoNull(tags.value))
  }

  /** The `AnswerForm` field check: a text that is not blank after stripping and holds no null character. */
  predicate AnswerFormValid(text: string)
    ensures AnswerFormValid(text) ==> 1 <= |Strip(text)| <= |text|
    ensures AllSpace(text) || '\0' in text ==> !AnswerFormValid(text)
  {
    StripOfSpace(text);
    Strip(text) != [] && NoNull(text)
  }

  /**
   * `ask` on POST: an anonymous visitor is sent to the login page; an
   * invalid form is shown again; otherwise `form.save(user=request.user)`
   * stores the question, owned by the actor, with the tags named in the form.
   */
  method Ask(db: Db, actor: Option<Id>, title: string, text: string, tags: Option<string>, now: int) returns (r: Result<Id, Error>)
    requires db.Valid()
    modifies db`questions, db`tags
    ensures db.Valid()
    ensures r.Err? ==> db.questions == old(db.questions) && db.tags == old(db.tags)
    ensures actor.None? ==> r == Err(LoginRequired)
    ensures actor.Some? && !QuestionFormValid(title, text, tags) ==> r == Err(FormInvalid)
    ensures actor.Some? && QuestionFormValid(title, text, tags) ==>
              && r.Ok?
              && r.value !in QuestionIds(old(db.questions))
              && |old(db.tags)| <= |db.tags| && db.tags[..|old(db.tags)|] == old(db.tags)
              && (forall k :: |old(db.tags)| <= k < |db.tags| ==> db.tags[k].name in CleanTags(tags))
              && (forall n :: n in CleanTags(tags) ==> FindTagByName(db.tags, n).Some?)
              && db.questions == old(db.questions) + [Question(r.value, Strip(title), Strip(text), actor.value, TagIdsNamed(db.tags, CleanTags(tags)), now)]
  {
    if actor.None? {
      return Err(LoginRequired);
    }
    if !QuestionFormValid(title, text, tags) {
      return Err(FormInvalid);
    }
    var saved := SaveQuestion(db, Strip(title), Strip(text), CleanTags(tags), actor, true, now);
    r := Ok(saved.id);
  }

  // ---- vote ----

  /** What a successful cast is about to write: the ledger key and the value. */
  datatype Ballot = Ballot(key: LikeKey, value: int)

  /** The JSON reply of a successful cast. */
  datatype VoteResponse = VoteResponse(newRating: int, userVote: int)

  /** `get_object_or_404(Model, pk=data_id)`: a missing id finds nothing; a non-numeric one raises a ValueError. */
  function ParsePk(dataId: Option<string>): (r: Result<int, Error>)
    ensures dataId.None? ==> r == Err(NotFound)
    ensures dataId.Some? ==> (r.Err? <==> ParseInt(dataId.value).None?)
    ensures r.Err? ==> r.error == NotFound || r.error == ServerError
    ensures r.Ok? ==> dataId.Some? && ParseInt(dataId.value) == Some(r.value)
  {
    if dataId.None? then Err(NotFound)
    else match ParseInt(dataId.value)
      case None => Err(ServerError)
      case Some(n) => Ok(n)
  }

  /** The id of the existing row of `kind` with primary key `n`. */
  function FindTarget(questions: seq<Question>, answers: seq<Answer>, kind: Kind, n: int): (r: Option<Id>)
    ensures r.Some? ==> r.value == n
    ensures r.Some? <==> (if kind == QuestionKind then FindQuestion(questions, n).Some? else FindAnswer(answers, n).Some?)
  {
    if kind == QuestionKind then
      (match FindQuestion(questions, n) case Some(i) => Some(questions[i].id) case None => None)
    else
      (match FindAnswer(answers, n) case Some(i) => Some(answers[i].id) case None => None)
  }

  function KindNamed(name: string): Kind
  {
    if name == "question" then QuestionKind else AnswerKind
  }

  /**
   * Everything `vote` decides before it writes (app/views.py:179-195): the
   * login check, the object type (default "question"), the target lookup,
   * the voter's profile and the value, 1 for "like" and -1 for anything else.
   */
  function ResolveVote(actor: Option<Id>, profiles: seq<Profile>, questions: seq<Question>, answers: seq<Answer>,
                       dataId: Option<string>, voteType: Option<string>, objType: Option<string>): (r: Result<Ballot, Error>)
    ensures actor.None? ==> r == Err(LoginRequired)
    ensures actor.Some? && objType.Some? && objType.value != "question" && objType.value != "answer" ==> r == Err(WrongObjectType)
    ensures actor.Some? && objType.GetOr("question") in {"question", "answer"} ==>
              var kind := KindNamed(objType.GetOr("question"));
              match ParsePk(dataId)
              case Err(e) => r == Err(e)
              case Ok(n) => FindTarget(questions, answers, kind, n).None? ==> r == Err(NotFound)
    ensures r.Ok? ==> actor.Some? && ProfileOf(profiles, actor.value).Some?
    ensures r.Ok? ==> r.value.key.user == profiles[ProfileOf(profiles, actor.value).value].id
    ensures r.Ok? ==> r.value.key.kind == KindNamed(objType.GetOr("question"))
    ensures r.Ok? ==> FindTarget(questions, answers, r.value.key.kind, r.value.key.objectId).Some?
    ensures r.Ok? ==> ParsePk(dataId) == Ok(r.value.key.objectId as int)
    ensures r.Ok? ==> (r.value.value == 1 <==> voteType == Some("like")) && (r.value.value == 1 || r.value.value == -1)
    ensures r.Err? && actor.Some? && objType.GetOr("question") in {"question", "answer"} && ParsePk(dataId).Ok?
            && FindTarget(questions, answers, KindNamed(objType.GetOr("question")), ParsePk(dataId).value).Some?
            ==> r == Err(ServerError) && ProfileOf(profiles, actor.value).None?
  {
    if actor.None? then Err(LoginRequired)
    else
      var kindName := objType.GetOr("question");
      if kindName != "question" && kindName != "answer" then Err(WrongObjectType)
      else
        var kind := KindNamed(kindName);
        match ParsePk(dataId)
        case Err(e) => Err(e)
        case Ok(n) =>
          match FindTarget(questions, answers, kind, n)
          case None => Err(NotFound)
          case Some(id) =>
            match ProfileOf(profiles, actor.value)
            case None => Err(ServerError)
            case Some(p) => Ok(Ballot(LikeKey(profiles[p].id, kind, id), if voteType == Some("like") then 1 else -1))
  }

  /**
   * `vote`: on success the ledger is the upsert of the ballot, and the reply
   * carries the target's new rating and the value cast; on every error the
   * ledger is left as it was.
   */
  method Vote(db: Db, actor: Option<Id>, dataId: Option<string>, voteType: Option<string>, objType: Option<string>, now: int)
    returns (r: Result<VoteResponse, Error>)
    requires db.Valid()
    modifies db`likes
    ensures db.Valid()
    ensures match ResolveVote(actor, db.profiles, db.questions, db.answers, dataId, voteType, objType)
            case Err(e) => r == Err(e) && db.likes == old(db.likes)
            case Ok(b) =>
              && db.likes == Upsert(old(db.likes), b.key, b.value, now)
              && r == Ok(VoteResponse(Rating(db.likes, b.key.kind, b.key.objectId), b.value))
  {
    var resolved := ResolveVote(actor, db.profiles, db.questions, db.answers, dataId, voteType, objType);
    match resolved
    case Err(e) =>
      r := Err(e);
    case Ok(b) =>
      UpsertKeepsUnique(db.likes, b.key, b.value, now);
      UpsertKeepsSigned(db.likes, b.key, b.value, now);
      db.likes := Upsert(db.likes, b.key, b.value, now);
      var newRating := Rating(db.likes, b.key.kind, b.key.objectId);
      r := Ok(VoteResponse(newRating, b.value));
  }

  /** A cast answers with the rating that counts the voter's value once, in place of their previous value. */
  lemma VoteRatingCountsOnce(likes: seq<Like>, b: Ballot, now: int)
    ensures Rating(Upsert(likes, b.key, b.value, now), b.key.kind, b.key.objectId)
            == Rating(likes, b.key.kind, b.key.objectId) - UserVote(likes, b.key) + b.value
  {
    RatingAfterUpsert(likes, b.key, b.value, now);
  }

  // ---- mark_correct ----

  function SetFlag(a: Answer, flag: bool): Answer
  {
    a.(isCorrect := Some(flag))
  }

  /** `question.answer_set.update(is_correct=False)`: every answer of the question gets a false flag. */
  function ClearQuestion(answers: seq<Answer>, qid: Id): (r: seq<Answer>)
    ensures |r| == |answers|
    ensures forall j :: 0 <= j < |r| ==> r[j] == if answers[j].question == qid then SetFlag(answers[j], false) else answers[j]
  {
    seq(|answers|, j requires 0 <= j < |answers| => if answers[j].question == qid then SetFlag(answers[j], false) else answers[j])
  }

  /**
   * The flags after a permitted `mark_correct` on answer `i`: a correct answer
   * is unmarked and nothing else changes; otherwise the answer becomes the
   * only correct answer of its question. Answers of other questions and every
   * field other than the flag are untouched.
   */
  function ToggleCorrect(answers: seq<Answer>, i: nat): (r: seq<Answer>)
    requires i < |answers|
    ensures |r| == |answers|
    ensures forall j :: 0 <= j < |r| ==> r[j] == answers[j].(isCorrect := r[j].isCorrect)
    ensures forall j :: 0 <= j < |r| && answers[j].question != answers[i].question ==> r[j] == answers[j]
    ensures IsCorrect(answers[i]) ==> !IsCorrect(r[i]) && forall j :: 0 <= j < |r| && j != i ==> r[j] == answers[j]
    ensures !IsCorrect(answers[i]) ==>
              && IsCorrect(r[i])
              && forall j :: 0 <= j < |r| && j != i && answers[j].question == answers[i].question ==> !IsCorrect(r[j])
  {
    if IsCorrect(answers[i]) then answers[i := SetFlag(answers[i], false)]
    else ClearQuestion(answers, answers[i].question)[i := SetFlag(answers[i], true)]
  }

  /** No question of the table has two correct answers. */
  predicate AtMostOneCorrect(answers: seq<Answer>)
  {
    forall j, k :: 0 <= j < k < |answers| && answers[j].question == answers[k].question ==> !(IsCorrect(answers[j]) && IsCorrect(answers[k]))
  }

  /** Marking or unmarking never creates a second correct answer for any question. */
  lemma ToggleKeepsAtMostOne(answers: seq<Answer>, i: nat)
    requires i < |answers|
    requires AtMostOneCorrect(answers)
    ensures AtMostOneCorrect(ToggleCorrect(answers, i))
  {
    var r := ToggleCorrect(answers, i);
    forall j, k | 0 <= j < k < |r| && r[j].question == r[k].question
      ensures !(IsCorrect(r[j]) && IsCorrect(r[k]))
    {
      assert r[j].question == answers[j].question && r[k].question == answers[k].question;
    }
  }

  /** Marking two answers of one question in turn leaves only the second one correct. */
  lemma MarkTwiceLastWins(answers: seq<Answer>, i: nat, j: nat)
    requires i < |answers| && j < |answers| && i != j
    requires answers[i].question == answers[j].question
    requires !IsCorrect(answers[i])
    ensures var after := ToggleCorrect(answers, i);
            !IsCorrect(after[j]) && var last := ToggleCorrect(after, j); IsCorrect(last[j]) && !IsCorrect(last[i])
  {
  }

  /**
   * Everything `mark_correct` decides before it writes (app/views.py:218-223):
   * the login check, the answer lookup, the question of the answer (a dangling
   * one raises DoesNotExist) and the check that the actor wrote the question.
   * The result is the index of the answer in the table.
   */
  function ResolveMark(actor: Option<Id>, questions: seq<Question>, answers: seq<Answer>, answerId: Option<string>): (r: Result<nat, Error>)
    ensures actor.None? ==> r == Err(LoginRequired)
    ensures actor.Some? ==> match ParsePk(answerId)
              case Err(e) => r == Err(e)
              case Ok(n) => FindAnswer(answers, n).None? ==> r == Err(NotFound)
    ensures r.Ok? ==> r.value < |answers| && ParsePk(answerId) == Ok(answers[r.value].id as int)
    ensures r.Ok? ==> exists q :: 0 <= q < |questions| && questions[q].id == answers[r.value].question && Some(questions[q].user) == actor
    ensures r == Err(AccessDenied) <==>
              && actor.Some? && ParsePk(answerId).Ok? && FindAnswer(answers, ParsePk(answerId).value).Some?
              && var a := answers[FindAnswer(answers, ParsePk(answerId).value).value];
                 FindQuestion(questions, a.question).Some? && questions[FindQuestion(questions, a.question).value].user != actor.value
    ensures actor.Some? && ParsePk(answerId).Ok? && FindAnswer(answers, ParsePk(answerId).value).Some? ==>
              var i := FindAnswer(answers, ParsePk(answerId).value).value;
              match FindQuestion(questions, answers[i].question)
              case None => r == Err(ServerError)
              case Some(q) => questions[q].user == actor.value ==> r == Ok(i)
  {
    if actor.None? then Err(LoginRequired)
    else match ParsePk(answerId)
      case Err(e) => Err(e)
      case Ok(n) =>
        match FindAnswer(answers, n)
        case None => Err(NotFound)
        case Some(i) =>
          match FindQuestion(questions, answers[i].question)
          case None => Err(ServerError)
          case Some(q) => if questions[q].user != actor.value then Err(AccessDenied) else Ok(i)
  }

  /**
   * `mark_correct`: a permitted call toggles the answer as `ToggleCorrect`
   * says and returns the answer's new flag; a refused one changes no flag.
   */
  method MarkCorrect(db: Db, actor: Option<Id>, answerId: Option<string>) returns (r: Result<bool, Error>)
    requires db.Valid()
    modifies db`answers
    ensures db.Valid()
    ensures match ResolveMark(actor, db.questions, old(db.answers), answerId)
            case Err(e) => r == Err(e) && db.answers == old(db.answers)
            case Ok(i) => db.answers == ToggleCorrect(old(db.answers), i) && r == Ok(IsCorrect(db.answers[i]))
  {
    var resolved := ResolveMark(actor, db.questions, db.answers, answerId);
    match resolved
    case Err(e) =>
      r := Err(e);
    case Ok(i) =>
      var answer := db.answers[i];
      if IsCorrect(answer) {
        db.answers := db.answers[i := SetFlag(answer, false)];
        r := Ok(false);
      } else {
        db.answers := ClearQuestion(db.answers, answer.question);
        db.answers := db.answers[i := SetFlag(answer, true)];
        r := Ok(true);
      }
      assert forall j :: 0 <= j < |db.answers| ==> db.answers[j].id == old(db.answers)[j].id;
  }

  // ---- the answer-posting branch of the live `question` view ----

  /**
   * `question(request, pk)` on POST: `get_with_answers(pk)` raises
   * DoesNotExist for a missing question before anything else; an anonymous
   * visitor is sent to the login page; a blank answer, or one holding a null
   * character, falls through to the page rendering, so the form is shown again unless `paginate` fails on a
   * non-numeric `page`; `request.user.profile` raises for an account without a profile. Otherwise
   * the stripped text is saved as a new, not-correct answer of the question by
   * the actor's profile, and the reply redirects to the question.
   */
  method PostAnswer(db: Db, actor: Option<Id>, pk: int, text: string, page: Option<string>, now: int) returns (r: Result<Id, Error>)
    requires db.Valid()
    modifies db`answers
    ensures db.Valid()
    ensures r.Err? ==> db.answers == old(db.answers)
    ensures FindQuestion(db.questions, pk).None? ==> r == Err(ServerError)
    ensures FindQuestion(db.questions, pk).Some? && actor.None? ==> r == Err(LoginRequired)
    ensures FindQuestion(db.questions, pk).Some? && actor.Some? && !AnswerFormValid(text) ==>
              r == if page.Some? && ParseInt(page.value).None? then Err(ServerError) else Err(FormInvalid)
    ensures FindQuestion(db.questions, pk).Some? && actor.Some? && AnswerFormValid(text) ==>
              match ProfileOf(db.profiles, actor.value)
              case None => r == Err(ServerError)
              case Some(p) =>
                && r.Ok?
                && r.value !in AnswerIds(old(db.answers))
                && db.answers == old(db.answers) + [Answer(r.value, pk as nat, Strip(text), Some(false), db.profiles[p].id, now)]
  {
    var found := FindQuestion(db.questions, pk);
    if found.None? {
      return Err(ServerError);
    }
    var q := db.questions[found.value];
    if actor.None? {
      return Err(LoginRequired);
    }
    var cleaned := Strip(text);
    if !AnswerFormValid(text) {
      var shown := Paginate(page, WithAnswers(db.answers, q.id), 5);
      return if shown.Err? then Err(shown.error) else Err(FormInvalid);
    }
    var profile := ProfileOf(db.profiles, actor.value);
    if profile.None? {
      return Err(ServerError);
    }
    var id := NextId(AnswerIds(db.answers));
    db.answers := db.answers + [Answer(id, q.id, cleaned, Some(false), db.profiles[profile.value].id, now)];
    r := Ok(id);
  }

  // ---- the tag view ----

  /**
   * The `tag` view as written: `Tag.objects.get_by_id` is not a method of
   * Django's default manager, so every request raises AttributeError.
   */
  function TagViewAsWritten(tags: seq<Tag>, questions: seq<Question>, pk: int, page: Option<string>): (r: Result<Page<Question>, Error>)
    ensures r == Err(ServerError)
  {
    Err(ServerError)
  }

  /**
   * The `tag` view as its `is None` check intends: look the tag up by id
   * (404 when there is none), then page through the questions carrying it.
   */
  function TagView(tags: seq<Tag>, questions: seq<Question>, pk: int, page: Option<string>): (r: Result<Page<Question>, Error>)
    ensures FindTag(tags, pk).None? ==> r == Err(NotFound)
    ensures FindTag(tags, pk).Some? ==> r == Paginate(page, Tagged(questions, TagInt(pk), tags), 5)
    ensures FindTag(tags, pk).Some? ==> (r.Err? <==> page.Some? && ParseInt(page.value).None?)
    ensures r.Ok? ==> forall i :: 0 <= i < |r.value.items| ==> r.value.items[i] in questions && pk in r.value.items[i].tags
  {
    match FindTag(tags, pk)
    case None => Err(NotFound)
    case Some(t) =>
      var tagged := Tagged(questions, TagObject(tags[t]), tags);
      TaggedObjectIsById(questions, tags[t], tags);
      Paginate(page, tagged, 5)
  }

  /** The discrepancy: for a stored tag the intended view lists its questions, the written one always fails. */
  lemma TagViewAlwaysFails(q: Question, tag: Tag)
    requires tag.id in q.tags
    ensures TagViewAsWritten([tag], [q], tag.id, None).Err?
    ensures TagView([tag], [q], tag.id, None) == Ok(Page(1, 1, [q]))
  {
    var tagged := Tagged([q], TagObject(tag), [tag]);
    assert q in tagged;
    assert tagged == [q];
  }
}
