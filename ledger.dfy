/**
 * The Like table used as a vote ledger: the `update_or_create` upsert keyed
 * by (profile, content type, object id) and the `Sum('vote')` aggregate that
 * gives a target's rating.
 */
module Ledger {
  import opened Wrappers
  import opened QuerySets
  import opened Models

  /** The first Like row with key `k` (the row `update_or_create` reads). */
  function FindLike(likes: seq<Like>, k: LikeKey): (r: Option<nat>)
    ensures r.Some? ==> r.value < |likes| && KeyOf(likes[r.value]) == k
    ensures r.Some? ==> forall j :: 0 <= j < r.value ==> KeyOf(likes[j]) != k
    ensures r.None? <==> forall j :: 0 <= j < |likes| ==> KeyOf(likes[j]) != k
  {
    if likes == [] then None
    else if KeyOf(likes[0]) == k then Some(0)
    else match FindLike(likes[1..], k)
      case None => None
      case Some(i) => Some(i + 1)
  }

  /** The value the voter of `k` has cast on its target, or 0 when there is no row. */
  function UserVote(likes: seq<Like>, k: LikeKey): int
  {
    match FindLike(likes, k)
    case Some(i) => likes[i].vote
    case None => 0
  }

  /** The number of rows with key `k`. */
  function KeyCount(likes: seq<Like>, k: LikeKey): nat
  {
    Count(likes, (l: Like) => KeyOf(l) == k)
  }

  /**
   * `Like.objects.update_or_create(key, defaults={'vote': vote})`: an existing
   * row keeps its place and creation time and takes the new value; otherwise
   * a row created at `now` is added.
   */
  function Upsert(likes: seq<Like>, k: LikeKey, vote: int, now: int): (r: seq<Like>)
    ensures FindLike(likes, k).Some? <==> |r| == |likes|
    ensures FindLike(likes, k).None? <==> |r| == |likes| + 1
    ensures FindLike(r, k).Some? && r[FindLike(r, k).value].vote == vote
    ensures forall i :: 0 <= i < |likes| && KeyOf(likes[i]) != k ==> r[i] == likes[i]
    ensures forall i :: 0 <= i < |likes| ==> KeyOf(r[i]) == KeyOf(likes[i]) && r[i].createdAt == likes[i].createdAt
    ensures |r| > |likes| ==> r[|likes|] == Like(k.user, k.kind, k.objectId, vote, now)
  {
    match FindLike(likes, k)
    case Some(i) =>
      var r := likes[i := likes[i].(vote := vote)];
      assert forall j :: 0 <= j < i ==> KeyOf(r[j]) != k;
      assert KeyOf(r[i]) == k;
      assert FindLike(r, k) == Some(i);
      r
    case None =>
      var r := likes + [Like(k.user, k.kind, k.objectId, vote, now)];
      assert forall j :: 0 <= j < |likes| ==> KeyOf(r[j]) != k;
      assert KeyOf(r[|likes|]) == k;
      assert FindLike(r, k) == Some(|likes|);
      r
  }

  /** The upsert never creates a second row for a key: the uniqueness constraint is kept. */
  lemma UpsertKeepsUnique(likes: seq<Like>, k: LikeKey, vote: int, now: int)
    requires LikesUnique(likes)
    ensures LikesUnique(Upsert(likes, k, vote, now))
  {
  }

  /** The upsert records only ±1 when given ±1. */
  lemma UpsertKeepsSigned(likes: seq<Like>, k: LikeKey, vote: int, now: int)
    requires VotesSigned(likes)
    requires vote == 1 || vote == -1
    ensures VotesSigned(Upsert(likes, k, vote, now))
  {
  }

  lemma {:induction false} UniqueKeyCount(likes: seq<Like>, k: LikeKey, i: nat)
    requires LikesUnique(likes)
    requires i < |likes| && KeyOf(likes[i]) == k
    ensures KeyCount(likes, k) == 1
  {
    if i == 0 {
      NoKeyCount(likes[1..], k);
    } else {
      UniqueKeyCount(likes[1..], k, i - 1);
    }
  }

  lemma {:induction false} NoKeyCount(likes: seq<Like>, k: LikeKey)
    requires forall j :: 0 <= j < |likes| ==> KeyOf(likes[j]) != k
    ensures KeyCount(likes, k) == 0
  {
    if likes != [] {
      NoKeyCount(likes[1..], k);
    }
  }

  /** After the upsert the ledger holds exactly one row for the key, and it carries the new value. */
  lemma UpsertSingleEntry(likes: seq<Like>, k: LikeKey, vote: int, now: int)
    requires LikesUnique(likes)
    ensures KeyCount(Upsert(likes, k, vote, now), k) == 1
    ensures UserVote(Upsert(likes, k, vote, now), k) == vote
  {
    var r := Upsert(likes, k, vote, now);
    UniqueKeyCount(r, k, FindLike(r, k).value);
  }

  /** Casting the same value twice leaves the ledger as the first cast left it. */
  lemma UpsertIdempotent(likes: seq<Like>, k: LikeKey, vote: int, now: int, later: int)
    ensures Upsert(Upsert(likes, k, vote, now), k, vote, later) == Upsert(likes, k, vote, now)
  {
    var r := Upsert(likes, k, vote, now);
    var i := FindLike(r, k).value;
    assert r[i := r[i].(vote := vote)] == r;
  }

  /** Another voter's, or another target's, vote is never changed by the upsert. */
  lemma UpsertLeavesOtherVotes(likes: seq<Like>, k: LikeKey, other: LikeKey, vote: int, now: int)
    requires other != k
    ensures UserVote(Upsert(likes, k, vote, now), other) == UserVote(likes, other)
  {
    var r := Upsert(likes, k, vote, now);
    match FindLike(likes, other)
    case Some(i) =>
      assert FindLike(r, other) == Some(i);
    case None =>
      assert FindLike(r, other).None?;
  }

  // ---- Rating ----

  /** The vote of one row towards the target (kind, id). */
  function Contribution(l: Like, kind: Kind, id: Id): int
  {
    if l.kind == kind && l.objectId == id then l.vote else 0
  }

  /** The sum of the values of the target's rows (0 over no rows). */
  function VoteSum(likes: seq<Like>, kind: Kind, id: Id): int
  {
    if likes == [] then 0
    else VoteSum(likes[..|likes| - 1], kind, id) + Contribution(likes[|likes| - 1], kind, id)
  }

  /** Whether the target has any Like row. */
  predicate HasVotes(likes: seq<Like>, kind: Kind, id: Id)
  {
    exists i :: 0 <= i < |likes| && likes[i].kind == kind && likes[i].objectId == id
  }

  /** `obj.likes.aggregate(Sum('vote'))['vote__sum']`: SQL's SUM is NULL over no rows. */
  function AggregateSum(likes: seq<Like>, kind: Kind, id: Id): (r: Option<int>)
    ensures r.None? <==> forall i :: 0 <= i < |likes| ==> likes[i].kind != kind || likes[i].objectId != id
    ensures r.Some? ==> r.value == VoteSum(likes, kind, id)
  {
    if HasVotes(likes, kind, id) then Some(VoteSum(likes, kind, id)) else None
  }

  /** `... or 0`: the rating is the signed sum of the target's votes, and 0 when it has none. */
  function Rating(likes: seq<Like>, kind: Kind, id: Id): (r: int)
    ensures r == VoteSum(likes, kind, id)
    ensures !HasVotes(likes, kind, id) ==> r == 0
  {
    NoVotesSumZero(likes, kind, id);
    AggregateSum(likes, kind, id).GetOr(0)
  }

  lemma {:induction false} NoVotesSumZero(likes: seq<Like>, kind: Kind, id: Id)
    ensures !HasVotes(likes, kind, id) ==> VoteSum(likes, kind, id) == 0
  {
    if likes != [] && !HasVotes(likes, kind, id) {
      var init := likes[..|likes| - 1];
      assert !HasVotes(init, kind, id) by {
        forall i | 0 <= i < |init|
          ensures !(init[i].kind == kind && init[i].objectId == id)
        {
          assert init[i] == likes[i];
        }
      }
      NoVotesSumZero(init, kind, id);
    }
  }

  lemma {:induction false} VoteSumUpdate(likes: seq<Like>, i: nat, l: Like, kind: Kind, id: Id)
    requires i < |likes|
    ensures VoteSum(likes[i := l], kind, id)
            == VoteSum(likes, kind, id) - Contribution(likes[i], kind, id) + Contribution(l, kind, id)
  {
    var n := |likes|;
    var u := likes[i := l];
    if i == n - 1 {
      assert u[..n - 1] == likes[..n - 1];
    } else {
      assert u[..n - 1] == likes[..n - 1][i := l];
      VoteSumUpdate(likes[..n - 1], i, l, kind, id);
    }
  }

  lemma VoteSumAppend(likes: seq<Like>, l: Like, kind: Kind, id: Id)
    ensures VoteSum(likes + [l], kind, id) == VoteSum(likes, kind, id) + Contribution(l, kind, id)
  {
    assert (likes + [l])[..|likes|] == likes;
  }

  /**
   * After a cast, the target's rating counts the voter's new value exactly
   * once in place of the voter's previous value (0 when there was none).
   */
  lemma RatingAfterUpsert(likes: seq<Like>, k: LikeKey, vote: int, now: int)
    ensures Rating(Upsert(likes, k, vote, now), k.kind, k.objectId)
            == Rating(likes, k.kind, k.objectId) - UserVote(likes, k) + vote
  {
    var l := Like(k.user, k.kind, k.objectId, vote, now);
    match FindLike(likes, k)
    case Some(i) =>
      VoteSumUpdate(likes, i, likes[i].(vote := vote), k.kind, k.objectId);
    case None =>
      VoteSumAppend(likes, l, k.kind, k.objectId);
  }

  /** A cast changes no other target's rating; a question and an answer with the same id are separate targets. */
  lemma RatingOfOtherTargets(likes: seq<Like>, k: LikeKey, vote: int, now: int, kind: Kind, id: Id)
    requires kind != k.kind || id != k.objectId
    ensures Rating(Upsert(likes, k, vote, now), kind, id) == Rating(likes, kind, id)
  {
    var l := Like(k.user, k.kind, k.objectId, vote, now);
    match FindLike(likes, k)
    case Some(i) =>
      VoteSumUpdate(likes, i, likes[i].(vote := vote), kind, id);
    case None =>
      VoteSumAppend(likes, l, kind, id);
  }
}
