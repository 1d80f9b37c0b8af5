/**
 * The forum's tables and the QuestionQuerySet queries over them
 * (app/models.py). Rows are values; the store is the class `Db`, whose
 * fields are the tables and whose `Valid()` holds the uniqueness constraints
 * the schema declares.
 */
module Models {
  import opened Wrappers
  import opened QuerySets

  type Id = nat

  /** An account of Django's auth app. */
  datatype User = User(id: Id, username: string, email: string)

  /** The forum identity of an account (one-to-one with `User`). */
  datatype Profile = Profile(id: Id, user: Id)

  datatype Tag = Tag(id: Id, name: string)

  /** `user` is the author's account; `tags` are tag ids (a many-to-many set); `createdAt` is a timestamp. */
  datatype Question = Question(id: Id, title: string, text: string, user: Id, tags: set<Id>, createdAt: int)

  /** `isCorrect` is the nullable flag; `user` is the author's profile. */
  datatype Answer = Answer(id: Id, question: Id, text: string, isCorrect: Option<bool>, user: Id, createdAt: int)

  /** The two content types a Like can point to. */
  datatype Kind = QuestionKind | AnswerKind

  /** A row of the Like table: voter profile, target (content type and object id), signed value, creation time. */
  datatype Like = Like(user: Id, kind: Kind, objectId: Id, vote: int, createdAt: int)

  /** The fields of the `unique_user_like` constraint. */
  datatype LikeKey = LikeKey(user: Id, kind: Kind, objectId: Id)

  function KeyOf(l: Like): LikeKey
  {
    LikeKey(l.user, l.kind, l.objectId)
  }

  /** A null `is_correct` reads as false. */
  predicate IsCorrect(a: Answer)
  {
    a.isCorrect == Some(true)
  }

  // ---- Table constraints ----

  /** `unique_user_like`: at most one Like per (profile, content type, object id). */
  predicate LikesUnique(likes: seq<Like>)
  {
    forall i, j :: 0 <= i < j < |likes| ==> KeyOf(likes[i]) != KeyOf(likes[j])
  }

  /** Every ledger value is a like (+1) or a dislike (-1). */
  predicate VotesSigned(likes: seq<Like>)
  {
    forall i :: 0 <= i < |likes| ==> likes[i].vote == 1 || likes[i].vote == -1
  }

  /** `Tag.name` is declared unique. */
  predicate TagNamesUnique(tags: seq<Tag>)
  {
    forall i, j :: 0 <= i < j < |tags| ==> tags[i].name != tags[j].name
  }

  predicate TagIdsUnique(tags: seq<Tag>)
  {
    forall i, j :: 0 <= i < j < |tags| ==> tags[i].id != tags[j].id
  }

  predicate QuestionIdsUnique(qs: seq<Question>)
  {
    forall i, j :: 0 <= i < j < |qs| ==> qs[i].id != qs[j].id
  }

  predicate AnswerIdsUnique(answers: seq<Answer>)
  {
    forall i, j :: 0 <= i < j < |answers| ==> answers[i].id != answers[j].id
  }

  /** `Profile.user` is a one-to-one field, and profile ids are primary keys. */
  predicate ProfilesUnique(profiles: seq<Profile>)
  {
    forall i, j :: 0 <= i < j < |profiles| ==> profiles[i].user != profiles[j].user && profiles[i].id != profiles[j].id
  }

  // ---- Lookups by key ----

  function FindQuestion(qs: seq<Question>, id: int): (r: Option<nat>)
    ensures r.Some? ==> r.value < |qs| && qs[r.value].id == id
    ensures r.None? <==> forall i :: 0 <= i < |qs| ==> qs[i].id != id
  {
    First(qs, (q: Question) => q.id == id)
  }

  function FindAnswer(answers: seq<Answer>, id: int): (r: Option<nat>)
    ensures r.Some? ==> r.value < |answers| && answers[r.value].id == id
    ensures r.None? <==> forall i :: 0 <= i < |answers| ==> answers[i].id != id
  {
    First(answers, (a: Answer) => a.id == id)
  }

  function FindTag(tags: seq<Tag>, id: int): (r: Option<nat>)
    ensures r.Some? ==> r.value < |tags| && tags[r.value].id == id
    ensures r.None? <==> forall i :: 0 <= i < |tags| ==> tags[i].id != id
  {
    First(tags, (t: Tag) => t.id == id)
  }

  function FindTagByName(tags: seq<Tag>, name: string): (r: Option<nat>)
    ensures r.Some? ==> r.value < |tags| && tags[r.value].name == name
    ensures r.None? <==> forall i :: 0 <= i < |tags| ==> tags[i].name != name
  {
    if tags == [] then None
    else if tags[0].name == name then Some(0)
    else match FindTagByName(tags[1..], name)
      case None => None
      case Some(k) => Some(k + 1)
  }

  /** `user.profile`: the profile of an account, if it has one. */
  function ProfileOf(profiles: seq<Profile>, user: Id): (r: Option<nat>)
    ensures r.Some? ==> r.value < |profiles| && profiles[r.value].user == user
    ensures r.None? <==> forall i :: 0 <= i < |profiles| ==> profiles[i].user != user
  {
    First(profiles, (p: Profile) => p.user == user)
  }

  /** An auto-increment primary key: larger than every key in the table. */
  function NextId(ids: seq<Id>): (r: Id)
    ensures forall i :: 0 <= i < |ids| ==> ids[i] < r
  {
    if ids == [] then 1
    else
      var m := NextId(ids[..|ids| - 1]);
      if ids[|ids| - 1] < m then m else ids[|ids| - 1] + 1
  }

  function TagIds(tags: seq<Tag>): (r: seq<Id>)
    ensures |r| == |tags| && forall i :: 0 <= i < |tags| ==> r[i] == tags[i].id
  {
    seq(|tags|, i requires 0 <= i < |tags| => tags[i].id)
  }

  function QuestionIds(qs: seq<Question>): (r: seq<Id>)
    ensures |r| == |qs| && forall i :: 0 <= i < |qs| ==> r[i] == qs[i].id
  {
    seq(|qs|, i requires 0 <= i < |qs| => qs[i].id)
  }

  function AnswerIds(answers: seq<Answer>): (r: seq<Id>)
    ensures |r| == |answers| && forall i :: 0 <= i < |answers| ==> r[i] == answers[i].id
  {
    seq(|answers|, i requires 0 <= i < |answers| => answers[i].id)
  }

  // ---- QuestionQuerySet ----

  /** `new()`: the same questions, newest first (`order_by('-created_at')`). */
  function New(qs: seq<Question>): (r: seq<Question>)
    ensures multiset(r) == multiset(qs)
    ensures forall i, j :: 0 <= i < j < |r| ==> r[i].createdAt >= r[j].createdAt
  {
    OrderBy(qs, (q: Question) => Key(-q.createdAt, 0))
  }

  /** `Count('likes')` on a question: the number of Like rows on it, whatever their value. */
  function LikeCount(likes: seq<Like>, id: Id): nat
  {
    Count(likes, (l: Like) => l.kind == QuestionKind && l.objectId == id)
  }

  /** `popular()`: the same questions, most Like rows first, newer first among equals. */
  function Popular(qs: seq<Question>, likes: seq<Like>): (r: seq<Question>)
    ensures multiset(r) == multiset(qs)
    ensures forall i, j :: 0 <= i < j < |r| ==>
              LikeCount(likes, r[i].id) > LikeCount(likes, r[j].id)
              || (LikeCount(likes, r[i].id) == LikeCount(likes, r[j].id) && r[i].createdAt >= r[j].createdAt)
  {
    OrderBy(qs, (q: Question) => Key(-(LikeCount(likes, q.id) as int), -q.createdAt))
  }

  /** A dislike is one more Like row: it raises popularity by one, as a like does. */
  lemma {:induction false} LikeCountCountsRows(likes: seq<Like>, l: Like)
    requires l.kind == QuestionKind
    ensures LikeCount(likes + [l], l.objectId) == LikeCount(likes, l.objectId) + 1
  {
    if likes == [] {
      assert [] + [l] == [l];
    } else {
      assert (likes + [l])[1..] == likes[1..] + [l];
      LikeCountCountsRows(likes[1..], l);
    }
  }

  /** The argument of `tagged`: a Tag, an int id, or anything else, matched by `str(t)` against tag names. */
  datatype TagArg = TagObject(tag: Tag) | TagInt(id: int) | TagText(name: string)

  predicate HasTag(q: Question, t: TagArg, tags: seq<Tag>)
  {
    match t
    case TagObject(tag) => tag.id in q.tags
    case TagInt(id) => id in q.tags
    case TagText(name) => exists j :: 0 <= j < |tags| && tags[j].name == name && tags[j].id in q.tags
  }

  /** `tagged(t)`: exactly the questions carrying tag `t`, in their original order. */
  function Tagged(qs: seq<Question>, t: TagArg, tags: seq<Tag>): (r: seq<Question>)
    ensures forall i :: 0 <= i < |r| ==> r[i] in qs && HasTag(r[i], t, tags)
    ensures forall i :: 0 <= i < |qs| && HasTag(qs[i], t, tags) ==> qs[i] in r
    ensures multiset(r) <= multiset(qs)
  {
    FilterSubMultiset(qs, (q: Question) => HasTag(q, t, tags));
    Filter(qs, (q: Question) => HasTag(q, t, tags))
  }

  /** Filtering by a Tag object is filtering by its id. */
  lemma TaggedObjectIsById(qs: seq<Question>, tag: Tag, tags: seq<Tag>)
    ensures Tagged(qs, TagObject(tag), tags) == Tagged(qs, TagInt(tag.id), tags)
  {
    FilterCongruent(qs, (q: Question) => HasTag(q, TagObject(tag), tags), (q: Question) => HasTag(q, TagInt(tag.id), tags));
  }

  /** Since tag names are unique, filtering by a tag's name is filtering by its id. */
  lemma TaggedNameIsById(qs: seq<Question>, tags: seq<Tag>, k: nat)
    requires TagNamesUnique(tags)
    requires k < |tags|
    ensures Tagged(qs, TagText(tags[k].name), tags) == Tagged(qs, TagInt(tags[k].id), tags)
  {
    forall i | 0 <= i < |qs|
      ensures HasTag(qs[i], TagText(tags[k].name), tags) == HasTag(qs[i], TagInt(tags[k].id), tags)
    {
      if HasTag(qs[i], TagText(tags[k].name), tags) {
        var j :| 0 <= j < |tags| && tags[j].name == tags[k].name && tags[j].id in qs[i].tags;
        assert j == k;
      }
    }
    FilterCongruent(qs, (q: Question) => HasTag(q, TagText(tags[k].name), tags), (q: Question) => HasTag(q, TagInt(tags[k].id), tags));
  }

  /** A tag filter composed with `new()` is still newest first. */
  lemma TaggedNewIsNewestFirst(qs: seq<Question>, t: TagArg, tags: seq<Tag>)
    ensures var r := Tagged(New(qs), t, tags);
            forall i, j :: 0 <= i < j < |r| ==> r[i].createdAt >= r[j].createdAt
  {
    var key := (q: Question) => Key(-q.createdAt, 0);
    FilterKeepsOrder(New(qs), (q: Question) => HasTag(q, t, tags), key);
  }

  /** The rows of `question.answer_set`. */
  function AnswersOf(answers: seq<Answer>, qid: Id): seq<Answer>
  {
    Filter(answers, (a: Answer) => a.question == qid)
  }

  /** `with_answers()`: the question's answers, oldest first (`order_by('created_at')`). */
  function WithAnswers(answers: seq<Answer>, qid: Id): (r: seq<Answer>)
    ensures forall a :: a in r <==> a in answers && a.question == qid
    ensures multiset(r) == multiset(AnswersOf(answers, qid))
    ensures forall i, j :: 0 <= i < j < |r| ==> r[i].createdAt <= r[j].createdAt
  {
    var own := AnswersOf(answers, qid);
    var r := OrderBy(own, (a: Answer) => Key(a.createdAt, 0));
    FilterMembers(answers, (a: Answer) => a.question == qid);
    SameMembers(r, own);
    r
  }

  /** `with_answers_count()`: the number of answers of the question, which is the length of its answer list. */
  function AnswersCount(answers: seq<Answer>, qid: Id): (r: nat)
    ensures r == |WithAnswers(answers, qid)|
    ensures r <= |answers|
  {
    CountIsFilterLength(answers, (a: Answer) => a.question == qid);
    Count(answers, (a: Answer) => a.question == qid)
  }

  datatype QuestionWithAnswers = QuestionWithAnswers(question: Question, answersOrdered: seq<Answer>, answersCnt: nat)

  /** `get_with_answers(pk)`: the question with its ordered answers and their count; `None` is DoesNotExist. */
  function GetWithAnswers(qs: seq<Question>, answers: seq<Answer>, pk: int): (r: Option<QuestionWithAnswers>)
    ensures r.None? <==> forall i :: 0 <= i < |qs| ==> qs[i].id != pk
    ensures r.Some? ==> r.value.question in qs && r.value.question.id == pk
    ensures r.Some? ==> r.value.answersCnt == |r.value.answersOrdered|
    ensures r.Some? ==> forall a :: a in r.value.answersOrdered <==> a in answers && a.question == pk
    ensures r.Some? ==> pk >= 0 && r.value.answersOrdered == WithAnswers(answers, pk as nat)
  {
    match FindQuestion(qs, pk)
    case None => None
    case Some(i) =>
      var q := qs[i];
      Some(QuestionWithAnswers(q, WithAnswers(answers, q.id), AnswersCount(answers, q.id)))
  }

  // ---- The store ----

  /** The database: one sequence per table. */
  class Db {
    var users: seq<User>
    var profiles: seq<Profile>
    var tags: seq<Tag>
    var questions: seq<Question>
    var answers: seq<Answer>
    var likes: seq<Like>

    /** The constraints the schema declares: primary keys, `Tag.name` and `unique_user_like`. */
    ghost predicate Valid()
      reads this
    {
      && ProfilesUnique(profiles)
      && TagIdsUnique(tags)
      && TagNamesUnique(tags)
      && QuestionIdsUnique(questions)
      && AnswerIdsUnique(answers)
      && LikesUnique(likes)
      && VotesSigned(likes)
    }

    constructor ()
      ensures Valid()
      ensures users == [] && profiles == [] && tags == [] && questions == [] && answers == [] && likes == []
    {
      users, profiles, tags, questions, answers, likes := [], [], [], [], [], [];
    }
  }
}
