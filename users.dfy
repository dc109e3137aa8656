/** User records (src/user/user.service.ts): points, password and verification updates, the
    profile lookup and the leaderboard. */
module Users {
  import opened Wrappers
  import opened Schema
  import Query

  /** `updatePoints`: adds `points` to the user's total; nothing else changes. */
  method UpdatePoints(db: Db, userId: UserId, points: int) returns (r: Result<User>)
    modifies db`users
    ensures userId in old(db.users) ==>
              r.Success? && r.value == old(db.users)[userId].(points := old(db.users)[userId].points + points)
              && db.users == old(db.users)[userId := r.value]
    ensures userId !in old(db.users) ==> r == Failure(RecordNotFound) && db.users == old(db.users)
  {
    if userId !in db.users {
      return Failure(RecordNotFound);
    }
    var user := db.users[userId];
    var updated := user.(points := user.points + points);
    db.users := db.users[userId := updated];
    return Success(updated);
  }

  /** `updatePassword`: stores the given password as it is; nothing else changes. */
  method UpdatePassword(db: Db, userId: UserId, newPassword: string) returns (r: Result<User>)
    modifies db`users
    ensures userId in old(db.users) ==>
              r.Success? && r.value == old(db.users)[userId].(password := newPassword)
              && db.users == old(db.users)[userId := r.value]
    ensures userId !in old(db.users) ==> r == Failure(RecordNotFound) && db.users == old(db.users)
  {
    if userId !in db.users {
      return Failure(RecordNotFound);
    }
    var updated := db.users[userId].(password := newPassword);
    db.users := db.users[userId := updated];
    return Success(updated);
  }

  /** `markVerified`: sets isVerified; nothing else changes. */
  method MarkVerified(db: Db, userId: UserId) returns (r: Result<User>)
    modifies db`users
    ensures userId in old(db.users) ==>
              r.Success? && r.value == old(db.users)[userId].(isVerified := true)
              && db.users == old(db.users)[userId := r.value]
    ensures userId !in old(db.users) ==> r == Failure(RecordNotFound) && db.users == old(db.users)
  {
    if userId !in db.users {
      return Failure(RecordNotFound);
    }
    var updated := db.users[userId].(isVerified := true);
    db.users := db.users[userId := updated];
    return Success(updated);
  }

  /** The columns `getProfile` selects. */
  datatype Profile = Profile(userId: UserId, username: string, email: string, role: Role, points: int, imageUrl: string)

  /** `getProfile`: the user's profile, or NotFound. */
  function GetProfile(users: map<UserId, User>, userId: UserId): (r: Result<Profile>)
    ensures r.Success? <==> userId in users
    ensures r.Success? ==> r.value == Profile(userId, users[userId].username, users[userId].email,
                                              users[userId].role, users[userId].points, users[userId].imageUrl)
    ensures r.Failure? ==> r.error == NotFound("User not found")
  {
    if userId !in users then Failure(NotFound("User not found"))
    else
      var u := users[userId];
      Success(Profile(userId, u.username, u.email, u.role, u.points, u.imageUrl))
  }

  // ---------------------------------------------------------------------------------------
  // Leaderboard

  /** A leaderboard entry: the columns `getTopUsers` selects. */
  datatype Ranked = Ranked(userId: UserId, username: string, imageUrl: string, points: int)

  const DefaultTopLimit := 25

  /** The users the leaderboard ranks: everyone whose role is not PARENT. */
  function Candidates(users: map<UserId, User>): set<Ranked>
  {
    set id | id in users && users[id].role != PARENT ::
      Ranked(id, users[id].username, users[id].imageUrl, users[id].points)
  }

  lemma CandidateShape(users: map<UserId, User>, e: Ranked)
    requires e in Candidates(users)
    ensures e.userId in users && users[e.userId].role != PARENT && users[e.userId].points == e.points
  {
    var id :| id in users && users[id].role != PARENT &&
              e == Ranked(id, users[id].username, users[id].imageUrl, users[id].points);
  }

  /** Ordering key for "points, descending". */
  function NegatedPoints(e: Ranked): int
  {
    -e.points
  }

  /** All candidates ordered by points, highest first (ties in any order). */
  ghost function Ranking(users: map<UserId, User>): (s: seq<Ranked>)
    ensures multiset(s) == multiset(Candidates(users))
    ensures |s| == |Candidates(users)|
    ensures forall i, j :: 0 <= i < j < |s| ==> s[i].points >= s[j].points
  {
    var s := Query.SortBy(Query.SeqOf(Candidates(users)), NegatedPoints);
    assert |s| == |multiset(s)|;
    assert forall i, j :: 0 <= i < j < |s| ==> NegatedPoints(s[i]) <= NegatedPoints(s[j]);
    s
  }

  /** `getTopUsers`: the first `limit` users of the ranking. */
  ghost function TopUsers(users: map<UserId, User>, limit: nat): (r: seq<Ranked>)
    ensures |r| == if limit <= |Candidates(users)| then limit else |Candidates(users)|
    ensures forall i :: 0 <= i < |r| ==> r[i] in Candidates(users)
    ensures forall i, j :: 0 <= i < j < |r| ==> r[i].points >= r[j].points
    ensures r == Ranking(users)[..|r|]
    ensures multiset(r) <= multiset(Candidates(users))
  {
    var s := Ranking(users);
    var r := Query.Take(s, limit);
    forall i | 0 <= i < |r| ensures r[i] in Candidates(users) {
      assert r[i] == s[i] && s[i] in multiset(s);
    }
    assert s == r + s[|r|..];
    assert multiset(s) == multiset(r) + multiset(s[|r|..]);
    r
  }

  /** Without a limit the leaderboard holds at most DefaultTopLimit users, and all of them when
      there are no more candidates than that. */
  lemma DefaultTopUsers(users: map<UserId, User>)
    ensures |TopUsers(users, DefaultTopLimit)| <= 25
    ensures |Candidates(users)| <= 25 ==> multiset(TopUsers(users, DefaultTopLimit)) == multiset(Candidates(users))
  {
    var r := TopUsers(users, DefaultTopLimit);
    if |Candidates(users)| <= 25 {
      assert r == Ranking(users)[..|Ranking(users)|] == Ranking(users);
    }
  }

  /** No parent is ever on the leaderboard. */
  lemma TopUsersExcludeParents(users: map<UserId, User>, limit: nat)
    ensures forall i :: 0 <= i < |TopUsers(users, limit)| ==>
              TopUsers(users, limit)[i].userId in users && users[TopUsers(users, limit)[i].userId].role != PARENT
  {
    var r := TopUsers(users, limit);
    forall i | 0 <= i < |r| ensures r[i].userId in users && users[r[i].userId].role != PARENT {
      CandidateShape(users, r[i]);
    }
  }

  /** Whoever is left off the leaderboard has no more points than anyone on it. */
  lemma TopUsersAreTop(users: map<UserId, User>, limit: nat, e: Ranked)
    requires e in Candidates(users) && e !in TopUsers(users, limit)
    ensures forall i :: 0 <= i < |TopUsers(users, limit)| ==> e.points <= TopUsers(users, limit)[i].points
  {
    var s := Ranking(users);
    var r := TopUsers(users, limit);
    assert e in multiset(s);
    var k :| 0 <= k < |s| && s[k] == e;
    assert r == Query.Take(s, limit);
    assert forall j :: 0 <= j < |r| ==> r[j] == s[j] && r[j] != e;
    assert k >= |r|;
    forall i | 0 <= i < |r| ensures e.points <= r[i].points {
      assert r[i] == s[i];
    }
  }
}
