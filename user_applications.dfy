/** The applications installed on a user's device and whether each is blocked
    (src/user/user-application/user-appllication.service.ts). */
module UserApplications {
  import opened Wrappers
  import opened Schema

  /** An `application` record as a device reports it. */
  datatype Application = Application(packageName: PackageName, appName: string)

  /** One entry of `getByUserId`. */
  datatype AppView = AppView(userId: UserId, packageName: PackageName, isBlocked: bool, appName: string)

  /** Every `user_application` row refers to an existing application (the foreign key). */
  predicate Linked(applications: map<PackageName, string>, userApps: map<(UserId, PackageName), bool>)
  {
    forall k :: k in userApps ==> k.1 in applications
  }

  /** `getByUserId`: one entry per application row of the user, with the joined appName. */
  function GetByUserId(applications: map<PackageName, string>, userApps: map<(UserId, PackageName), bool>,
                       userId: UserId): (r: set<AppView>)
    requires Linked(applications, userApps)
    ensures forall v :: v in r <==>
              (v.userId, v.packageName) in userApps && v.userId == userId &&
              v.isBlocked == userApps[(v.userId, v.packageName)] && v.appName == applications[v.packageName]
  {
    set k | k in userApps && k.0 == userId :: AppView(userId, k.1, userApps[k], applications[k.1])
  }

  /** The package names of a list of applications. */
  function PackageNames(data: seq<Application>): (r: seq<PackageName>)
    ensures |r| == |data| && forall i :: 0 <= i < |data| ==> r[i] == data[i].packageName
  {
    seq(|data|, i requires 0 <= i < |data| => data[i].packageName)
  }

  /** The package names occurring in `data`. */
  function Packages(data: seq<Application>): set<PackageName>
  {
    set a | a in data :: a.packageName
  }

  /** The application registry after registering `data`; an already known package keeps its
      name, and within `data` the first record of a package wins. */
  function Register(applications: map<PackageName, string>, data: seq<Application>): (r: map<PackageName, string>)
    ensures r.Keys == applications.Keys + Packages(data)
    ensures forall p :: p in applications ==> r[p] == applications[p]
    decreases |data|
  {
    if data == [] then applications
    else
      var app := data[0];
      var rest := Register(applications, data[1..]);
      assert Packages(data) == {app.packageName} + Packages(data[1..]) by {
        assert forall a :: a in data <==> a == app || a in data[1..];
      }
      if app.packageName in applications then rest else rest[app.packageName := app.appName]
  }

  /** The rows after `updateByUserId`: the user's rows outside `packages` are deleted (all of
      them when `packages` is empty), and the missing ones are inserted unblocked. */
  function ReplaceApps(userApps: map<(UserId, PackageName), bool>, userId: UserId, packages: seq<PackageName>)
    : (r: map<(UserId, PackageName), bool>)
    ensures forall p :: (userId, p) in r <==> p in packages
    ensures forall k :: k in r && k.0 == userId && k in userApps ==> r[k] == userApps[k]
    ensures forall k :: k in r && k.0 == userId && k !in userApps ==> r[k] == false
    ensures forall k: (UserId, PackageName) :: k.0 != userId ==> (k in r <==> k in userApps) && (k in r ==> r[k] == userApps[k])
    ensures packages == [] ==> forall k :: k in r ==> k.0 != userId
  {
    var kept := map k | k in userApps && (k.0 != userId || (|packages| > 0 && k.1 in packages)) :: userApps[k];
    if |packages| == 0 then kept
    else
      var added := set p | p in packages && (userId, p) !in kept;
      map k | k in kept.Keys + (set p | p in added :: (userId, p)) :: if k in kept then kept[k] else false
  }

  /** `updateByUserId`: registers the applications, replaces the user's rows with `data` in one
      transaction and returns the user's entries. */
  method UpdateByUserId(db: Db, userId: UserId, data: seq<Application>) returns (r: set<AppView>)
    requires Linked(db.applications, db.userApps)
    modifies db`applications, db`userApps
    ensures db.applications == Register(old(db.applications), data)
    ensures db.userApps == ReplaceApps(old(db.userApps), userId, PackageNames(data))
    ensures Linked(db.applications, db.userApps)
    ensures r == GetByUserId(db.applications, db.userApps, userId)
  {
    var packageNames := PackageNames(data);
    db.applications := Register(db.applications, data);
    db.userApps := ReplaceApps(db.userApps, userId, packageNames);
    forall k | k in db.userApps ensures k.1 in db.applications {
      if k.0 == userId && k.1 in packageNames {
        var i :| 0 <= i < |packageNames| && packageNames[i] == k.1;
        assert data[i].packageName == k.1;
      }
    }
    r := GetByUserId(db.applications, db.userApps, userId);
  }

  /** One entry of `updateBlockedStatus`. */
  datatype BlockedUpdate = BlockedUpdate(packageName: PackageName, isBlocked: bool)

  /** Every listed package has a row of the user. */
  predicate AllListed(userApps: map<(UserId, PackageName), bool>, userId: UserId, updates: seq<BlockedUpdate>)
  {
    forall i :: 0 <= i < |updates| ==> (userId, updates[i].packageName) in userApps
  }

  /** No later entry names the same package as entry `i`. */
  predicate LastFor(updates: seq<BlockedUpdate>, i: int)
    requires 0 <= i < |updates|
  {
    forall j :: i < j < |updates| ==> updates[j].packageName != updates[i].packageName
  }

  /** The rows after applying `updates` in order; an entry without a row changes nothing
      here (the service refuses such a list as a whole). */
  function ApplyBlocked(userApps: map<(UserId, PackageName), bool>, userId: UserId, updates: seq<BlockedUpdate>)
    : (r: map<(UserId, PackageName), bool>)
    ensures r.Keys == userApps.Keys
    decreases |updates|
  {
    if updates == [] then userApps
    else
      var n := |updates| - 1;
      var before := ApplyBlocked(userApps, userId, updates[..n]);
      var key := (userId, updates[n].packageName);
      if key in before then before[key := updates[n].isBlocked] else before
  }

  /** For each listed package the last entry naming it wins. */
  lemma {:induction false} ApplyBlockedLastWins(userApps: map<(UserId, PackageName), bool>, userId: UserId,
                                                updates: seq<BlockedUpdate>, i: nat)
    requires i < |updates| && LastFor(updates, i)
    requires (userId, updates[i].packageName) in userApps
    ensures ApplyBlocked(userApps, userId, updates)[(userId, updates[i].packageName)] == updates[i].isBlocked
    decreases |updates|
  {
    var n := |updates| - 1;
    if i < n {
      assert updates[..n][i] == updates[i];
      assert LastFor(updates[..n], i);
      ApplyBlockedLastWins(userApps, userId, updates[..n], i);
    }
  }

  /** Rows of other users, and rows of packages no entry names, keep their value. */
  lemma {:induction false} ApplyBlockedUnlisted(userApps: map<(UserId, PackageName), bool>, userId: UserId,
                                                updates: seq<BlockedUpdate>, k: (UserId, PackageName))
    requires k in userApps
    requires k.0 != userId || forall i :: 0 <= i < |updates| ==> updates[i].packageName != k.1
    ensures ApplyBlocked(userApps, userId, updates)[k] == userApps[k]
    decreases |updates|
  {
    if updates != [] {
      var n := |updates| - 1;
      assert forall i :: 0 <= i < n ==> updates[..n][i] == updates[i];
      ApplyBlockedUnlisted(userApps, userId, updates[..n], k);
    }
  }

  /** `updateBlockedStatus`: applies the entries one by one inside a transaction; a package
      without a row of the user aborts it with NotFound and nothing is written. */
  method UpdateBlockedStatus(db: Db, userId: UserId, updates: seq<BlockedUpdate>) returns (r: Result<set<AppView>>)
    requires Linked(db.applications, db.userApps)
    modifies db`userApps
    ensures !AllListed(old(db.userApps), userId, updates) ==>
              r == Failure(RecordNotFound) && db.userApps == old(db.userApps)
    ensures AllListed(old(db.userApps), userId, updates) ==>
              db.userApps == ApplyBlocked(old(db.userApps), userId, updates) &&
              Linked(db.applications, db.userApps) &&
              r == Success(GetByUserId(db.applications, db.userApps, userId))
  {
    var rows := db.userApps;
    for i := 0 to |updates|
      invariant forall j :: 0 <= j < i ==> (userId, updates[j].packageName) in db.userApps
      invariant rows == ApplyBlocked(db.userApps, userId, updates[..i])
    {
      var key := (userId, updates[i].packageName);
      if key !in rows {
        return Failure(RecordNotFound);
      }
      assert updates[..i + 1][..i] == updates[..i];
      rows := rows[key := updates[i].isBlocked];
    }
    assert updates[..|updates|] == updates;
    db.userApps := rows;
    r := Success(GetByUserId(db.applications, db.userApps, userId));
  }

  /** Replacing the user's applications with the same list again changes nothing. */
  lemma ReplaceAppsIdempotent(userApps: map<(UserId, PackageName), bool>, userId: UserId, packages: seq<PackageName>)
    ensures ReplaceApps(ReplaceApps(userApps, userId, packages), userId, packages) == ReplaceApps(userApps, userId, packages)
  {
    var once := ReplaceApps(userApps, userId, packages);
    var twice := ReplaceApps(once, userId, packages);
    assert twice.Keys == once.Keys;
  }
}
