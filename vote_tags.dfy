/** The `get_user_vote` template tag (app/templatetags/vote_tags.py). */
module VoteTags {
  import opened Wrappers
  import opened Models
  import opened Ledger

  /**
   * The current user's vote on the target (`kind`, `objectId`): 0 for an
   * anonymous visitor (`user == None`) and for an account without a profile,
   * otherwise the value of the profile's Like on the target, or 0 without one.
   */
  function GetUserVote(kind: Kind, objectId: Id, user: Option<Id>, profiles: seq<Profile>, likes: seq<Like>): (r: int)
    ensures user.None? ==> r == 0
    ensures user.Some? && ProfileOf(profiles, user.value).None? ==> r == 0
    ensures user.Some? && ProfileOf(profiles, user.value).Some? ==>
              var k := LikeKey(profiles[ProfileOf(profiles, user.value).value].id, kind, objectId);
              (FindLike(likes, k).None? ==> r == 0) && (FindLike(likes, k).Some? ==> r == likes[FindLike(likes, k).value].vote)
    ensures VotesSigned(likes) ==> r == 1 || r == -1 || r == 0
  {
    if user.None? then 0
    else match ProfileOf(profiles, user.value)
      case None => 0
      case Some(p) => UserVote(likes, LikeKey(profiles[p].id, kind, objectId))
  }

  /**
   * Under the uniqueness constraint the profile's Like on the target is the
   * only one, so `.first()` returns its value whatever the table's order.
   */
  lemma GetUserVoteIsTheLike(kind: Kind, objectId: Id, user: Id, profiles: seq<Profile>, likes: seq<Like>, p: nat, i: nat)
    requires LikesUnique(likes)
    requires ProfileOf(profiles, user) == Some(p)
    requires i < |likes| && KeyOf(likes[i]) == LikeKey(profiles[p].id, kind, objectId)
    ensures GetUserVote(kind, objectId, Some(user), profiles, likes) == likes[i].vote
  {
    var k := LikeKey(profiles[p].id, kind, objectId);
    assert FindLike(likes, k) == Some(i);
  }

  /** The tag shows the value of the voter's latest cast on the target. */
  lemma GetUserVoteAfterCast(kind: Kind, objectId: Id, user: Id, profiles: seq<Profile>, likes: seq<Like>, p: nat, vote: int, now: int)
    requires ProfileOf(profiles, user) == Some(p)
    ensures GetUserVote(kind, objectId, Some(user), profiles,
                        Upsert(likes, LikeKey(profiles[p].id, kind, objectId), vote, now)) == vote
  {
  }
}
