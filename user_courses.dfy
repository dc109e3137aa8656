/** The enrolment table and its service (src/user/user-course/user-course.service.ts):
    lookup, progress increment, field update and the paginated listing. */
module UserCourses {
  import opened Wrappers
  import opened Schema
  import Query
  import Arith
  import Text

  /** A `user_course` row with its key columns, as the service returns it. */
  datatype UserCourseRow = UserCourseRow(userId: UserId, courseId: CourseId, completedSections: nat, lastAccessed: int)

  function RowOf(key: (UserId, CourseId), uc: UserCourse): UserCourseRow
  {
    UserCourseRow(key.0, key.1, uc.completedSections, uc.lastAccessed)
  }

  /** `get`: the enrolment of the user in the course, or NotFound. */
  function Get(userCourses: map<(UserId, CourseId), UserCourse>, userId: UserId, courseId: CourseId)
    : (r: Result<UserCourseRow>)
    ensures r.Success? <==> (userId, courseId) in userCourses
    ensures r.Success? ==> r.value.userId == userId && r.value.courseId == courseId
                           && r.value.completedSections == userCourses[(userId, courseId)].completedSections
                           && r.value.lastAccessed == userCourses[(userId, courseId)].lastAccessed
    ensures r.Failure? ==> r.error == NotFound("Course not found")
  {
    var key := (userId, courseId);
    if key in userCourses then Success(RowOf(key, userCourses[key])) else Failure(NotFound("Course not found"))
  }

  /** The table after one more completed section on the row `key`. */
  function Bump(userCourses: map<(UserId, CourseId), UserCourse>, key: (UserId, CourseId))
    : (r: map<(UserId, CourseId), UserCourse>)
    requires key in userCourses
    ensures r.Keys == userCourses.Keys
    ensures r[key].completedSections == userCourses[key].completedSections + 1
    ensures r[key].lastAccessed == userCourses[key].lastAccessed
    ensures forall k :: k in userCourses && k != key ==> r[k] == userCourses[k]
  {
    var uc := userCourses[key];
    userCourses[key := uc.(completedSections := uc.completedSections + 1)]
  }

  /** Incrementing never lowers any row's counter. */
  lemma BumpMonotone(userCourses: map<(UserId, CourseId), UserCourse>, key: (UserId, CourseId))
    requires key in userCourses
    ensures forall k :: k in userCourses ==>
              Bump(userCourses, key)[k].completedSections >= userCourses[k].completedSections
  {
  }

  /** `updateProgress`: one more completed section on exactly this enrolment. */
  method UpdateProgress(db: Db, userId: UserId, courseId: CourseId) returns (r: Result<UserCourseRow>)
    modifies db`userCourses
    ensures (userId, courseId) in old(db.userCourses) ==>
              r.Success? && db.userCourses == Bump(old(db.userCourses), (userId, courseId))
              && r.value == RowOf((userId, courseId), db.userCourses[(userId, courseId)])
    ensures (userId, courseId) !in old(db.userCourses) ==>
              r == Failure(RecordNotFound) && db.userCourses == old(db.userCourses)
  {
    var key := (userId, courseId);
    if key !in db.userCourses {
      return Failure(RecordNotFound);
    }
    db.userCourses := Bump(db.userCourses, key);
    return Success(RowOf(key, db.userCourses[key]));
  }

  /** The columns an `update` may set; an absent field is left alone. */
  datatype UserCourseUpdate = UserCourseUpdate(completedSections: Option<nat>, lastAccessed: Option<int>)

  /** A row with the fields present in `dto` overwritten. */
  function Overwrite(uc: UserCourse, dto: UserCourseUpdate): (r: UserCourse)
    ensures r.completedSections == (if dto.completedSections.Some? then dto.completedSections.value else uc.completedSections)
    ensures r.lastAccessed == (if dto.lastAccessed.Some? then dto.lastAccessed.value else uc.lastAccessed)
  {
    var a := match dto.completedSections case Some(n) => uc.(completedSections := n) case None => uc;
    match dto.lastAccessed case Some(t) => a.(lastAccessed := t) case None => a
  }

  /** `update`: overwrites the given fields of exactly this enrolment. */
  method Update(db: Db, userId: UserId, courseId: CourseId, dto: UserCourseUpdate) returns (r: Result<UserCourseRow>)
    modifies db`userCourses
    ensures (userId, courseId) in old(db.userCourses) ==>
              r.Success? && db.userCourses == old(db.userCourses)[(userId, courseId) := Overwrite(old(db.userCourses)[(userId, courseId)], dto)]
              && r.value == RowOf((userId, courseId), db.userCourses[(userId, courseId)])
    ensures (userId, courseId) !in old(db.userCourses) ==>
              r == Failure(RecordNotFound) && db.userCourses == old(db.userCourses)
  {
    var key := (userId, courseId);
    if key !in db.userCourses {
      return Failure(RecordNotFound);
    }
    db.userCourses := db.userCourses[key := Overwrite(db.userCourses[key], dto)];
    return Success(RowOf(key, db.userCourses[key]));
  }

  // ---------------------------------------------------------------------------------------
  // Listing

  /** One page of the listing, with the count of all rows the filter selects. */
  datatype UserCoursePage = UserCoursePage(items: seq<UserCourseRow>, total: nat, page: nat, limit: nat, totalPages: nat)

  const DefaultPage := 1
  const DefaultLimit := 15

  /** The rows `getAll` selects: the user's enrolments with at least one completed section. */
  function ActiveRows(userCourses: map<(UserId, CourseId), UserCourse>, userId: UserId): set<UserCourseRow>
  {
    set k | k in userCourses && k.0 == userId && userCourses[k].completedSections > 0 :: RowOf(k, userCourses[k])
  }

  function CompletedOf(row: UserCourseRow): int
  {
    row.completedSections
  }

  /** An order the store may return the selected rows in for one request: ascending by
      completed sections, rows with equal counts in any order, possibly another one on the
      next request. */
  ghost predicate StoreOrder(s: seq<UserCourseRow>, rows: set<UserCourseRow>)
  {
    multiset(s) == multiset(rows) && Query.SortedBy(s, CompletedOf)
  }

  /** Page `page` (from 1) of `limit` rows of `order`, the number of rows and the number of pages. */
  function Paginate(order: seq<UserCourseRow>, page: nat, limit: nat): (r: UserCoursePage)
    requires page >= 1 && limit >= 1
    ensures r.page == page && r.limit == limit && r.total == |order|
    ensures r.items == Query.Window(order, Query.PageOffset(page, limit), limit)
    ensures |r.items| <= limit
    ensures r.totalPages == Query.CeilDiv(r.total, limit)
    ensures r.total <= r.totalPages * limit && (r.totalPages == 0 || (r.totalPages - 1) * limit < r.total)
  {
    UserCoursePage(Query.Window(order, Query.PageOffset(page, limit), limit), |order|, page, limit,
                   Query.CeilDiv(|order|, limit))
  }

  /** `getAll` as written: `orderBy` on completed sections alone leaves the order of tied rows
      to the store, which chooses `order` for this request. */
  ghost function GetAllAsWritten(userCourses: map<(UserId, CourseId), UserCourse>, userId: UserId,
                                 page: nat, limit: nat, order: seq<UserCourseRow>): (r: UserCoursePage)
    requires page >= 1 && limit >= 1
    requires StoreOrder(order, ActiveRows(userCourses, userId))
    ensures r == Paginate(order, page, limit)
    ensures r.total == |ActiveRows(userCourses, userId)|
    ensures forall i :: 0 <= i < |r.items| ==> r.items[i] in ActiveRows(userCourses, userId)
    ensures Query.SortedBy(r.items, CompletedOf)
  {
    var r := Paginate(order, page, limit);
    assert |order| == |multiset(order)|;
    forall i | 0 <= i < |r.items| ensures r.items[i] in ActiveRows(userCourses, userId) {
      assert r.items[i] in multiset(order);
    }
    Query.WindowSorted(order, Query.PageOffset(page, limit), limit, CompletedOf);
    r
  }

  /** Two requests for pages 1 and 2 of one row each, over two rows with the same number of
      completed sections: the store may order the ties differently each time, and then both
      pages show the same row and the other row is on no page. */
  lemma TiedRowsCanBeMissed()
    ensures var userCourses := map[("u", "a") := UserCourse(1, 0), ("u", "b") := UserCourse(1, 0)];
            var a := UserCourseRow("u", "a", 1, 0);
            var b := UserCourseRow("u", "b", 1, 0);
            StoreOrder([a, b], ActiveRows(userCourses, "u")) && StoreOrder([b, a], ActiveRows(userCourses, "u")) &&
            GetAllAsWritten(userCourses, "u", 1, 1, [a, b]).totalPages == 2 &&
            GetAllAsWritten(userCourses, "u", 1, 1, [a, b]).items == [a] &&
            GetAllAsWritten(userCourses, "u", 2, 1, [b, a]).items == [a]
  {
    var userCourses := map[("u", "a") := UserCourse(1, 0), ("u", "b") := UserCourse(1, 0)];
    var a := UserCourseRow("u", "a", 1, 0);
    var b := UserCourseRow("u", "b", 1, 0);
    assert RowOf(("u", "a"), userCourses[("u", "a")]) == a;
    assert RowOf(("u", "b"), userCourses[("u", "b")]) == b;
    assert ActiveRows(userCourses, "u") == {a, b};
    assert multiset{a, b} == multiset({a, b});
  }

  // ---------------------------------------------------------------------------------------
  // Corrected listing: ties broken by course id

  /** The corrected order: by completed sections, then by course id. */
  predicate RowBefore(x: UserCourseRow, y: UserCourseRow)
  {
    x.completedSections < y.completedSections ||
    (x.completedSections == y.completedSections && Text.LexLess(x.courseId, y.courseId))
  }

  lemma RowBeforeIrreflexive(x: UserCourseRow)
    ensures !RowBefore(x, x)
  {
    Text.LexIrreflexive(x.courseId);
  }

  lemma RowBeforeTransitive(x: UserCourseRow, y: UserCourseRow, z: UserCourseRow)
    requires RowBefore(x, y) && RowBefore(y, z)
    ensures RowBefore(x, z)
  {
    if x.completedSections == y.completedSections == z.completedSections {
      Text.LexTransitive(x.courseId, y.courseId, z.courseId);
    }
  }

  lemma RowBeforeAsymmetric(x: UserCourseRow, y: UserCourseRow)
    ensures !(RowBefore(x, y) && RowBefore(y, x))
  {
    if RowBefore(x, y) && RowBefore(y, x) {
      RowBeforeTransitive(x, y, x);
      RowBeforeIrreflexive(x);
    }
  }

  /** Rows of different courses are ordered one way or the other. */
  lemma RowBeforeTotal(x: UserCourseRow, y: UserCourseRow)
    requires x.courseId != y.courseId
    ensures RowBefore(x, y) || RowBefore(y, x)
  {
    Text.LexTotal(x.courseId, y.courseId);
  }

  /** No two rows share a course. */
  ghost predicate DistinctCourses(rows: set<UserCourseRow>)
  {
    forall x, y :: x in rows && y in rows && x.courseId == y.courseId ==> x == y
  }

  /** The selected rows are rows of one user, so each course appears once. */
  lemma ActiveRowsDistinct(userCourses: map<(UserId, CourseId), UserCourse>, userId: UserId)
    ensures DistinctCourses(ActiveRows(userCourses, userId))
  {
    var rows := ActiveRows(userCourses, userId);
    forall x, y | x in rows && y in rows && x.courseId == y.courseId ensures x == y {
      ActiveRowShape(userCourses, userId, x);
      ActiveRowShape(userCourses, userId, y);
    }
  }

  ghost predicate IsFirst(m: UserCourseRow, rows: set<UserCourseRow>)
  {
    m in rows && forall y :: y in rows && y != m ==> RowBefore(m, y)
  }

  /** A non-empty set of rows of distinct courses has a first row in the corrected order. */
  lemma {:induction false} FirstRowExists(rows: set<UserCourseRow>)
    requires rows != {} && DistinctCourses(rows)
    ensures exists m :: IsFirst(m, rows)
    decreases |rows|
  {
    var x :| x in rows;
    var rest := rows - {x};
    if rest == {} {
      assert rows == {x};
      assert IsFirst(x, rows);
    } else {
      FirstRowExists(rest);
      var m :| IsFirst(m, rest);
      RowBeforeTotal(x, m);
      if RowBefore(x, m) {
        forall y | y in rows && y != x ensures RowBefore(x, y) {
          if y != m {
            RowBeforeTransitive(x, m, y);
          }
        }
        assert IsFirst(x, rows);
      } else {
        assert IsFirst(m, rows);
      }
    }
  }

  /** Every earlier row comes before every later one. */
  ghost predicate StrictlyOrdered(s: seq<UserCourseRow>)
  {
    forall i, j :: 0 <= i < j < |s| ==> RowBefore(s[i], s[j])
  }

  /** The rows in the corrected order. */
  ghost function CorrectedListing(rows: set<UserCourseRow>): (s: seq<UserCourseRow>)
    requires DistinctCourses(rows)
    ensures multiset(s) == multiset(rows)
    ensures StrictlyOrdered(s)
    decreases |rows|
  {
    if rows == {} then []
    else
      FirstRowExists(rows);
      var m :| IsFirst(m, rows);
      var rest := CorrectedListing(rows - {m});
      assert multiset(rows) == multiset{m} + multiset(rows - {m});
      assert forall j :: 0 <= j < |rest| ==> rest[j] in multiset(rows - {m});
      [m] + rest
  }

  lemma TailOrdered(s: seq<UserCourseRow>)
    requires |s| > 0 && StrictlyOrdered(s)
    ensures StrictlyOrdered(s[1..])
  {
    forall i, j | 0 <= i < j < |s[1..]| ensures RowBefore(s[1..][i], s[1..][j]) {
      assert s[1..][i] == s[i + 1] && s[1..][j] == s[j + 1];
    }
  }

  lemma TailMultiset(s: seq<UserCourseRow>, t: seq<UserCourseRow>)
    requires |s| > 0 && |t| > 0 && s[0] == t[0] && multiset(s) == multiset(t)
    ensures multiset(s[1..]) == multiset(t[1..])
  {
    assert s == [s[0]] + s[1..] && t == [t[0]] + t[1..];
    assert multiset(s[1..]) == multiset(s) - multiset{s[0]};
    assert multiset(t[1..]) == multiset(t) - multiset{t[0]};
  }

  /** Two strictly ordered sequences of the same rows start with the same row. */
  lemma SameFirst(s: seq<UserCourseRow>, t: seq<UserCourseRow>)
    requires |s| > 0 && StrictlyOrdered(s) && StrictlyOrdered(t) && multiset(s) == multiset(t)
    ensures |t| > 0 && s[0] == t[0]
  {
    assert |s| == |multiset(s)| == |t|;
    assert t[0] in multiset(s);
    var i :| 0 <= i < |s| && s[i] == t[0];
    assert s[0] in multiset(t);
    var j :| 0 <= j < |t| && t[j] == s[0];
    RowBeforeAsymmetric(s[0], t[0]);
    assert i == 0 || j == 0;
  }

  /** Two strictly ordered sequences of the same rows are the same sequence: the corrected
      order leaves the store no choice. */
  lemma {:induction false} StrictOrderUnique(s: seq<UserCourseRow>, t: seq<UserCourseRow>)
    requires StrictlyOrdered(s) && StrictlyOrdered(t) && multiset(s) == multiset(t)
    ensures s == t
    decreases |s|
  {
    if s == [] {
      assert |t| == |multiset(t)| == 0;
    } else {
      SameFirst(s, t);
      TailMultiset(s, t);
      TailOrdered(s);
      TailOrdered(t);
      StrictOrderUnique(s[1..], t[1..]);
      assert s == [s[0]] + s[1..] && t == [t[0]] + t[1..];
    }
  }

  /** The corrected order is one the as-written query may return. */
  lemma CorrectedIsStoreOrder(rows: set<UserCourseRow>)
    requires DistinctCourses(rows)
    ensures StoreOrder(CorrectedListing(rows), rows)
  {
  }

  /** Whatever order the store returns the rows of the corrected query in, it is
      CorrectedListing: every request sees the same order. */
  lemma CorrectedOrderForced(userCourses: map<(UserId, CourseId), UserCourse>, userId: UserId,
                             order: seq<UserCourseRow>)
    requires multiset(order) == multiset(ActiveRows(userCourses, userId)) && StrictlyOrdered(order)
    ensures DistinctCourses(ActiveRows(userCourses, userId))
    ensures order == CorrectedListing(ActiveRows(userCourses, userId))
  {
    ActiveRowsDistinct(userCourses, userId);
    StrictOrderUnique(order, CorrectedListing(ActiveRows(userCourses, userId)));
  }

  /** All selected rows in the corrected order. */
  ghost function Listing(userCourses: map<(UserId, CourseId), UserCourse>, userId: UserId): (s: seq<UserCourseRow>)
    ensures multiset(s) == multiset(ActiveRows(userCourses, userId))
    ensures |s| == |ActiveRows(userCourses, userId)|
    ensures StrictlyOrdered(s) && Query.SortedBy(s, CompletedOf)
  {
    ActiveRowsDistinct(userCourses, userId);
    var s := CorrectedListing(ActiveRows(userCourses, userId));
    assert |s| == |multiset(s)|;
    s
  }

  /** Where a selected row stands in the listing. */
  lemma ListingIndex(userCourses: map<(UserId, CourseId), UserCourse>, userId: UserId, row: UserCourseRow)
    returns (i: nat)
    requires row in ActiveRows(userCourses, userId)
    ensures i < |Listing(userCourses, userId)| && Listing(userCourses, userId)[i] == row
  {
    var all := Listing(userCourses, userId);
    assert row in multiset(all);
    i :| 0 <= i < |all| && all[i] == row;
  }

  lemma ActiveRowShape(userCourses: map<(UserId, CourseId), UserCourse>, userId: UserId, row: UserCourseRow)
    requires row in ActiveRows(userCourses, userId)
    ensures row.userId == userId && row.completedSections > 0
    ensures (row.userId, row.courseId) in userCourses
    ensures row == RowOf((row.userId, row.courseId), userCourses[(row.userId, row.courseId)])
  {
    var k :| k in userCourses && k.0 == userId && userCourses[k].completedSections > 0 && row == RowOf(k, userCourses[k]);
  }

  /** `getAll` with the tie broken by course id: page `page` (from 1) of `limit` rows of the
      listing, the number of selected rows and the number of pages. */
  ghost function GetAll(userCourses: map<(UserId, CourseId), UserCourse>, userId: UserId, page: nat, limit: nat)
    : (r: UserCoursePage)
    requires page >= 1 && limit >= 1
    ensures r == Paginate(Listing(userCourses, userId), page, limit)
    ensures r.total == |ActiveRows(userCourses, userId)|
    ensures forall i :: 0 <= i < |r.items| ==> r.items[i] in ActiveRows(userCourses, userId)
    ensures Query.SortedBy(r.items, CompletedOf)
  {
    var all := Listing(userCourses, userId);
    var r := Paginate(all, page, limit);
    forall i | 0 <= i < |r.items| ensures r.items[i] in ActiveRows(userCourses, userId) {
      assert r.items[i] in multiset(all);
    }
    Query.WindowSorted(all, Query.PageOffset(page, limit), limit, CompletedOf);
    r
  }

  /** What `getAll` promises of each item: a row of this user with completed sections. */
  lemma GetAllItems(userCourses: map<(UserId, CourseId), UserCourse>, userId: UserId, page: nat, limit: nat)
    requires page >= 1 && limit >= 1
    ensures forall row :: row in GetAll(userCourses, userId, page, limit).items ==>
              row.userId == userId && row.completedSections > 0 && (userId, row.courseId) in userCourses
  {
    var items := GetAll(userCourses, userId, page, limit).items;
    forall row | row in items
      ensures row.userId == userId && row.completedSections > 0 && (userId, row.courseId) in userCourses
    {
      var i :| 0 <= i < |items| && items[i] == row;
      ActiveRowShape(userCourses, userId, row);
    }
  }

  /** With the corrected order, every selected row is on some page between 1 and totalPages. */
  lemma EveryRowOnAPage(userCourses: map<(UserId, CourseId), UserCourse>, userId: UserId, limit: nat, row: UserCourseRow)
    requires limit >= 1
    requires row in ActiveRows(userCourses, userId)
    ensures exists page :: 1 <= page <= GetAll(userCourses, userId, 1, limit).totalPages &&
                           row in GetAll(userCourses, userId, page, limit).items
  {
    var all := Listing(userCourses, userId);
    var i := ListingIndex(userCourses, userId, row);
    Query.WindowCovers(all, limit, i);
    var page := Query.PageOf(i, limit);
    assert row in GetAll(userCourses, userId, page, limit).items;
    assert page <= GetAll(userCourses, userId, 1, limit).totalPages;
  }

  /** A strictly ordered sequence holds each row at one position only. */
  lemma OrderedDistinct(s: seq<UserCourseRow>, i: nat, j: nat)
    requires StrictlyOrdered(s) && i < |s| && j < |s| && s[i] == s[j]
    ensures i == j
  {
    RowBeforeIrreflexive(s[i]);
  }

  /** Where an item of a page stands in the paginated sequence. */
  lemma PageItemIndex(order: seq<UserCourseRow>, page: nat, limit: nat, row: UserCourseRow) returns (k: nat, i: nat)
    requires page >= 1 && limit >= 1
    requires row in Paginate(order, page, limit).items
    ensures k < limit && i == Query.PageOffset(page, limit) + k
    ensures i < |order| && order[i] == row
  {
    var items := Paginate(order, page, limit).items;
    k :| 0 <= k < |items| && items[k] == row;
    i := Query.PageOffset(page, limit) + k;
  }

  /** Pages of a strictly ordered sequence share no row. */
  lemma PagesDisjoint(order: seq<UserCourseRow>, limit: nat, row: UserCourseRow, p1: nat, p2: nat)
    requires limit >= 1 && p1 >= 1 && p2 >= 1 && StrictlyOrdered(order)
    requires row in Paginate(order, p1, limit).items && row in Paginate(order, p2, limit).items
    ensures p1 == p2
  {
    var k1, i1 := PageItemIndex(order, p1, limit, row);
    var k2, i2 := PageItemIndex(order, p2, limit, row);
    OrderedDistinct(order, i1, i2);
    Query.PageUnique(p1, p2, limit, k1, k2);
  }

  /** With the corrected order, a selected row is on one page only. */
  lemma RowOnOnePage(userCourses: map<(UserId, CourseId), UserCourse>, userId: UserId, limit: nat,
                     row: UserCourseRow, p1: nat, p2: nat)
    requires limit >= 1 && p1 >= 1 && p2 >= 1
    requires row in GetAll(userCourses, userId, p1, limit).items
    requires row in GetAll(userCourses, userId, p2, limit).items
    ensures p1 == p2
  {
    PagesDisjoint(Listing(userCourses, userId), limit, row, p1, p2);
  }

  /** Without paging arguments `getAll` shows page 1: the first DefaultLimit rows of the
      listing, or all of them when there are no more. */
  lemma DefaultFirstPage(userCourses: map<(UserId, CourseId), UserCourse>, userId: UserId)
    ensures GetAll(userCourses, userId, DefaultPage, DefaultLimit).items == Query.Take(Listing(userCourses, userId), 15)
    ensures |ActiveRows(userCourses, userId)| <= 15 ==>
              GetAll(userCourses, userId, DefaultPage, DefaultLimit).items == Listing(userCourses, userId)
  {
    var all := Listing(userCourses, userId);
    var items := GetAll(userCourses, userId, DefaultPage, DefaultLimit).items;
    assert Query.PageOffset(DefaultPage, DefaultLimit) == 0;
    assert items == Query.Take(all, 15);
    if |all| <= 15 {
      assert items == all[..|all|] == all;
    }
  }
}
