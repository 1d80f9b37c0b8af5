/**
 * The `fill_db` management command (app/management/commands/fill_db.py):
 * the sizes it aims for, the tag sample of each question and the loop that
 * seeds likes while skipping pairs that already have one. Every random
 * choice is a parameter: `picks(n)` is what attempt `n` draws.
 */
module FillDb {
  import opened Wrappers
  import opened Models
  import opened Ledger

  /** How many users, tags, questions, answers and likes to create. */
  datatype Counts = Counts(users: nat, tags: nat, questions: nat, answers: nat, likes: nat)

  /**
   * `handle`'s sizes: a ratio of 0 or less stops the command before it
   * creates anything; otherwise one user and tag, ten questions, a hundred
   * answers and two hundred likes per unit of ratio.
   */
  function Targets(ratio: int): (r: Option<Counts>)
    ensures r.None? <==> ratio <= 0
    ensures r.Some? ==> r.value.users == ratio && r.value.tags == ratio
    ensures r.Some? ==> r.value.questions == 10 * ratio && r.value.answers == 100 * ratio && r.value.likes == 200 * ratio
  {
    if ratio <= 0 then None
    else Some(Counts(ratio, ratio, ratio * 10, ratio * 100, ratio * 200))
  }

  /** `max(1000, num_likes * 10)`, the bound on the like loop. */
  function MaxAttempts(numLikes: int): nat
  {
    if 10 * numLikes > 1000 then 10 * numLikes else 1000
  }

  /** The bound is the larger of the two. */
  lemma MaxAttemptsIsMax(numLikes: int)
    ensures MaxAttempts(numLikes) >= 1000 && MaxAttempts(numLikes) >= 10 * numLikes
    ensures MaxAttempts(numLikes) == 1000 || MaxAttempts(numLikes) == 10 * numLikes
  {
  }

  /** For every ratio the command accepts, ten attempts per like exceed the floor of 1000, so the bound is 2000 per unit of ratio. */
  lemma MaxAttemptsForRatio(ratio: int)
    requires Targets(ratio).Some?
    ensures MaxAttempts(Targets(ratio).value.likes) == 2000 * ratio
  {
  }

  // ---- the tags of a seeded question ----

  /** `random.sample(tags, k)` as a choice of `k` distinct positions, with `k` drawn from 1 to `min(3, len(tags))`. */
  predicate IsSample(count: nat, picked: seq<nat>)
  {
    && 1 <= |picked| <= (if count < 3 then count else 3)
    && (forall i :: 0 <= i < |picked| ==> picked[i] < count)
    && (forall i, j :: 0 <= i < j < |picked| ==> picked[i] != picked[j])
  }

  function IdsAt(tags: seq<Tag>, picked: seq<nat>): set<Id>
    requires forall i :: 0 <= i < |picked| ==> picked[i] < |tags|
  {
    if picked == [] then {} else {tags[picked[0]].id} + IdsAt(tags, picked[1..])
  }

  /** The tags a seeded question gets: none when there are no tags, otherwise the sampled ones. */
  function SeedTags(tags: seq<Tag>, picked: seq<nat>): set<Id>
    requires tags == [] || IsSample(|tags|, picked)
  {
    if tags == [] then {} else IdsAt(tags, picked)
  }

  /** Every sampled id is the id of a sampled tag. */
  lemma {:induction false} IdsAtMembers(tags: seq<Tag>, picked: seq<nat>)
    requires forall i :: 0 <= i < |picked| ==> picked[i] < |tags|
    ensures forall x :: x in IdsAt(tags, picked) ==> exists i :: 0 <= i < |picked| && tags[picked[i]].id == x
  {
    if picked != [] {
      var rest := picked[1..];
      IdsAtMembers(tags, rest);
      forall x | x in IdsAt(tags, picked)
        ensures exists i :: 0 <= i < |picked| && tags[picked[i]].id == x
      {
        if x != tags[picked[0]].id {
          assert x in IdsAt(tags, rest);
          var i :| 0 <= i < |rest| && tags[rest[i]].id == x;
          assert picked[i + 1] == rest[i];
        }
      }
    }
  }

  /** Distinct tags have distinct ids, so a sample of `n` tags gives `n` ids. */
  lemma {:induction false} IdsAtSize(tags: seq<Tag>, picked: seq<nat>)
    requires TagIdsUnique(tags)
    requires forall i :: 0 <= i < |picked| ==> picked[i] < |tags|
    requires forall i, j :: 0 <= i < j < |picked| ==> picked[i] != picked[j]
    ensures |IdsAt(tags, picked)| == |picked|
  {
    if picked != [] {
      var rest := picked[1..];
      IdsAtSize(tags, rest);
      IdsAtMembers(tags, rest);
      forall i | 0 <= i < |rest|
        ensures tags[rest[i]].id != tags[picked[0]].id
      {
        assert rest[i] == picked[i + 1];
      }
      assert tags[picked[0]].id !in IdsAt(tags, rest);
    }
  }

  /** When tags exist, each seeded question gets between 1 and `min(3, #tags)` distinct tags, all of them existing ones. */
  lemma SeedTagsBounds(tags: seq<Tag>, picked: seq<nat>)
    requires TagIdsUnique(tags)
    requires tags != [] && IsSample(|tags|, picked)
    ensures 1 <= |SeedTags(tags, picked)| <= 3 && |SeedTags(tags, picked)| <= |tags|
    ensures forall x :: x in SeedTags(tags, picked) ==> x in TagIds(tags)
  {
    IdsAtSize(tags, picked);
    IdsAtMembers(tags, picked);
    forall x | x in SeedTags(tags, picked)
      ensures x in TagIds(tags)
    {
      var i :| 0 <= i < |picked| && tags[picked[i]].id == x;
      assert TagIds(tags)[picked[i]] == x;
    }
  }

  // ---- the like loop ----

  /** What one attempt draws: a target (content type and id), a profile, and whether the seeded value is a like. */
  datatype Pick = Pick(user: Id, kind: Kind, objectId: Id, like: bool)

  function KeyOfPick(p: Pick): LikeKey
  {
    LikeKey(p.user, p.kind, p.objectId)
  }

  function ValueOf(p: Pick): int
  {
    if p.like then 1 else -1
  }

  /** The ledger and the two counters when the loop stops. */
  datatype SeedState = SeedState(likes: seq<Like>, created: nat, attempts: nat)

  /**
   * The like loop from a given state: while fewer than `numLikes` likes were
   * created and fewer than `maxAttempts` attempts made, draw the next pick and
   * create its like unless the pair it names already has one. Each attempt
   * adds at most one row, the counters never pass their bounds, and the loop
   * stops only when one bound is reached.
   */
  function Seed(likes: seq<Like>, created: nat, attempts: nat, numLikes: int, maxAttempts: nat, picks: nat -> Pick, now: int): (r: SeedState)
    decreases maxAttempts - attempts
    ensures created <= r.created && attempts <= r.attempts
    ensures r.created - created <= r.attempts - attempts
    ensures created <= numLikes ==> r.created <= numLikes
    ensures attempts <= maxAttempts ==> r.attempts <= maxAttempts
    ensures r.created >= numLikes || r.attempts >= maxAttempts
    ensures |r.likes| == |likes| + (r.created - created) && r.likes[..|likes|] == likes
  {
    if created < numLikes && attempts < maxAttempts then
      var p := picks(attempts);
      if FindLike(likes, KeyOfPick(p)).Some? then
        Seed(likes, created, attempts + 1, numLikes, maxAttempts, picks, now)
      else
        var row := Like(p.user, p.kind, p.objectId, ValueOf(p), now);
        var r := Seed(likes + [row], created + 1, attempts + 1, numLikes, maxAttempts, picks, now);
        assert r.likes[..|likes|] == (likes + [row])[..|likes|];
        r
    else
      SeedState(likes, created, attempts)
  }

  /** One attempt of the loop. */
  lemma SeedStep(likes: seq<Like>, created: nat, attempts: nat, numLikes: int, maxAttempts: nat, picks: nat -> Pick, now: int)
    requires created < numLikes && attempts < maxAttempts
    ensures var p := picks(attempts);
            Seed(likes, created, attempts, numLikes, maxAttempts, picks, now)
            == if FindLike(likes, KeyOfPick(p)).Some? then Seed(likes, created, attempts + 1, numLikes, maxAttempts, picks, now)
               else Seed(likes + [Like(p.user, p.kind, p.objectId, ValueOf(p), now)], created + 1, attempts + 1, numLikes, maxAttempts, picks, now)
  {
  }

  /** Once the loop's condition fails, the remaining run is the current state. */
  lemma SeedDone(likes: seq<Like>, created: nat, attempts: nat, numLikes: int, maxAttempts: nat, picks: nat -> Pick, now: int)
    requires !(created < numLikes && attempts < maxAttempts)
    ensures Seed(likes, created, attempts, numLikes, maxAttempts, picks, now) == SeedState(likes, created, attempts)
  {
  }

  /** A row whose pair has no like yet can be added without breaking `unique_user_like`. */
  lemma AppendFreshKeepsLedger(likes: seq<Like>, row: Like)
    requires LikesUnique(likes) && VotesSigned(likes)
    requires FindLike(likes, KeyOf(row)).None?
    requires row.vote == 1 || row.vote == -1
    ensures LikesUnique(likes + [row]) && VotesSigned(likes + [row])
  {
  }

  /** The loop never inserts a second like for a pair that has one (`unique_user_like` holds throughout). */
  lemma {:induction false} SeedKeepsUnique(likes: seq<Like>, created: nat, attempts: nat, numLikes: int, maxAttempts: nat, picks: nat -> Pick, now: int)
    requires LikesUnique(likes)
    decreases maxAttempts - attempts
    ensures LikesUnique(Seed(likes, created, attempts, numLikes, maxAttempts, picks, now).likes)
  {
    if created < numLikes && attempts < maxAttempts {
      var p := picks(attempts);
      if FindLike(likes, KeyOfPick(p)).Some? {
        SeedKeepsUnique(likes, created, attempts + 1, numLikes, maxAttempts, picks, now);
      } else {
        var row := Like(p.user, p.kind, p.objectId, ValueOf(p), now);
        assert KeyOf(row) == KeyOfPick(p);
        SeedKeepsUnique(likes + [row], created + 1, attempts + 1, numLikes, maxAttempts, picks, now);
      }
    }
  }

  /** Every seeded value is a like or a dislike. */
  lemma {:induction false} SeedKeepsSigned(likes: seq<Like>, created: nat, attempts: nat, numLikes: int, maxAttempts: nat, picks: nat -> Pick, now: int)
    requires VotesSigned(likes)
    decreases maxAttempts - attempts
    ensures VotesSigned(Seed(likes, created, attempts, numLikes, maxAttempts, picks, now).likes)
  {
    if created < numLikes && attempts < maxAttempts {
      var p := picks(attempts);
      if FindLike(likes, KeyOfPick(p)).Some? {
        SeedKeepsSigned(likes, created, attempts + 1, numLikes, maxAttempts, picks, now);
      } else {
        var row := Like(p.user, p.kind, p.objectId, ValueOf(p), now);
        SeedKeepsSigned(likes + [row], created + 1, attempts + 1, numLikes, maxAttempts, picks, now);
      }
    }
  }

  /** When every draw names a pair that already has a like, the loop uses up all its attempts and creates nothing. */
  lemma {:induction false} SeedAllDuplicates(likes: seq<Like>, attempts: nat, numLikes: int, maxAttempts: nat, picks: nat -> Pick, now: int)
    requires numLikes > 0 && attempts <= maxAttempts
    requires forall n: nat :: FindLike(likes, KeyOfPick(picks(n))).Some?
    decreases maxAttempts - attempts
    ensures Seed(likes, 0, attempts, numLikes, maxAttempts, picks, now) == SeedState(likes, 0, maxAttempts)
  {
    if attempts < maxAttempts {
      SeedAllDuplicates(likes, attempts + 1, numLikes, maxAttempts, picks, now);
    }
  }

  /**
   * The like loop of `handle` over the Like table `likes`: it ends in the
   * state `Seed` describes from an empty count, and never breaks the table's
   * constraints.
   */
  method SeedLoop(likes: seq<Like>, numLikes: int, maxAttempts: nat, picks: nat -> Pick, now: int)
    returns (table: seq<Like>, created: nat, attempts: nat)
    requires LikesUnique(likes) && VotesSigned(likes)
    ensures LikesUnique(table) && VotesSigned(table)
    ensures Seed(likes, 0, 0, numLikes, maxAttempts, picks, now) == SeedState(table, created, attempts)
  {
    table, created, attempts := likes, 0, 0;
    while created < numLikes && attempts < maxAttempts
      invariant attempts <= maxAttempts
      invariant LikesUnique(table) && VotesSigned(table)
      invariant Seed(table, created, attempts, numLikes, maxAttempts, picks, now)
                == Seed(likes, 0, 0, numLikes, maxAttempts, picks, now)
      decreases maxAttempts - attempts
    {
      SeedStep(table, created, attempts, numLikes, maxAttempts, picks, now);
      var p := picks(attempts);
      attempts := attempts + 1;
      var duplicate := FindLike(table, KeyOfPick(p)).Some?;
      if duplicate {
        continue;
      }
      var row := Like(p.user, p.kind, p.objectId, ValueOf(p), now);
      assert KeyOf(row) == KeyOfPick(p);
      AppendFreshKeepsLedger(table, row);
      table := table + [row];
      created := created + 1;
    }
    SeedDone(table, created, attempts, numLikes, maxAttempts, picks, now);
  }

  /**
   * The like step of `handle` on the database: the loop's rows are written to
   * the Like table, and the warning is printed exactly when fewer likes than
   * asked for were created.
   */
  method SeedLikes(db: Db, numLikes: int, picks: nat -> Pick, now: int) returns (created: nat, attempts: nat, warned: bool)
    requires db.Valid()
    modifies db`likes
    ensures db.Valid()
    ensures Seed(old(db.likes), 0, 0, numLikes, MaxAttempts(numLikes), picks, now) == SeedState(db.likes, created, attempts)
    ensures warned <==> created < numLikes
    ensures attempts <= MaxAttempts(numLikes) && created <= attempts
    ensures numLikes >= 0 ==> created <= numLikes && (created == numLikes || attempts == MaxAttempts(numLikes))
    ensures |db.likes| == |old(db.likes)| + created && db.likes[..|old(db.likes)|] == old(db.likes)
  {
    var table;
    table, created, attempts := SeedLoop(db.likes, numLikes, MaxAttempts(numLikes), picks, now);
    db.likes := table;
    warned := created < numLikes;
  }
}
