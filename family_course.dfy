/** Course assignment by parents (src/family/family-course/family-course.service.ts): the
    child's course listing, the children a course can still be given to, and assigning or
    removing a course after the parent and family checks. */
module FamilyCourses {
  import opened Wrappers
  import opened Schema
  import UserCourses
  import Query

  /** The index of the first membership row of the user, as `findFirst` without an order
      returns it (table order). */
  function FirstMembership(members: seq<FamilyMember>, userId: UserId): (r: Option<nat>)
    ensures r.Some? ==> r.value < |members| && members[r.value].userId == userId
    ensures r.Some? ==> forall j :: 0 <= j < r.value ==> members[j].userId != userId
    ensures r.None? ==> forall j :: 0 <= j < |members| ==> members[j].userId != userId
  {
    Query.FirstIndex(members, (m: FamilyMember) => m.userId == userId)
  }

  /** The user belongs to the family. */
  predicate InFamily(members: seq<FamilyMember>, familyId: FamilyId, userId: UserId)
  {
    exists i :: 0 <= i < |members| && members[i] == FamilyMember(familyId, userId)
  }

  const NotAParent := Forbidden("Access denied: not a parent")
  const ChildNotInFamily := NotFound("Child not found in your family")

  /** The checks `create` and `delete` share: the caller's first membership must belong to a
      PARENT, and the child must be a member of that family. The result is the family. */
  function CheckParentAndChild(members: seq<FamilyMember>, users: map<UserId, User>, parentId: UserId, childId: UserId)
    : (r: Result<FamilyId>)
    ensures r == Failure(NotAParent) <==>
              FirstMembership(members, parentId).None? || parentId !in users || users[parentId].role != PARENT
    ensures r.Success? <==>
              FirstMembership(members, parentId).Some? && parentId in users && users[parentId].role == PARENT &&
              InFamily(members, members[FirstMembership(members, parentId).value].familyId, childId)
    ensures r.Success? ==> r.value == members[FirstMembership(members, parentId).value].familyId
    ensures r.Failure? ==> r.error == NotAParent || r.error == ChildNotInFamily
  {
    match FirstMembership(members, parentId)
    case None => Failure(NotAParent)
    case Some(i) =>
      if parentId !in users || users[parentId].role != PARENT then Failure(NotAParent)
      else
        var familyId := members[i].familyId;
        if InFamily(members, familyId, childId) then Success(familyId) else Failure(ChildNotInFamily)
  }

  const AlreadyAssigned := "Course already assigned to child"
  const Assigned := "Course successfully assigned to child"
  const NotAssigned := "Course not assigned to child"
  const Removed := "Course successfully removed from child"

  /** `create`: the enrolment table and the reply after assigning `courseId` to the child. A
      new enrolment starts with no completed section, last accessed `now`. */
  function Assign(members: seq<FamilyMember>, users: map<UserId, User>, courses: map<CourseId, Course>,
                  userCourses: map<(UserId, CourseId), UserCourse>,
                  parentId: UserId, childId: UserId, courseId: CourseId, now: int)
    : (map<(UserId, CourseId), UserCourse>, Result<string>)
  {
    var family := CheckParentAndChild(members, users, parentId, childId);
    if family.Failure? then (userCourses, Failure(family.error))
    else if courseId !in courses then (userCourses, Failure(NotFound("Course not found")))
    else if (childId, courseId) in userCourses then (userCourses, Success(AlreadyAssigned))
    else (userCourses[(childId, courseId) := UserCourse(0, now)], Success(Assigned))
  }

  /** `delete`: the enrolment table and the reply after removing `courseId` from the child. */
  function Unassign(members: seq<FamilyMember>, users: map<UserId, User>,
                    userCourses: map<(UserId, CourseId), UserCourse>,
                    parentId: UserId, childId: UserId, courseId: CourseId)
    : (map<(UserId, CourseId), UserCourse>, Result<string>)
  {
    var family := CheckParentAndChild(members, users, parentId, childId);
    if family.Failure? then (userCourses, Failure(family.error))
    else if (childId, courseId) !in userCourses then (userCourses, Success(NotAssigned))
    else (userCourses - {(childId, courseId)}, Success(Removed))
  }

  method Create(db: Db, parentId: UserId, childId: UserId, courseId: CourseId, now: int) returns (r: Result<string>)
    modifies db`userCourses
    ensures (db.userCourses, r) ==
            Assign(db.familyMembers, db.users, db.courses, old(db.userCourses), parentId, childId, courseId, now)
  {
    var familyId :- CheckParentAndChild(db.familyMembers, db.users, parentId, childId);
    if courseId !in db.courses {
      return Failure(NotFound("Course not found"));
    }
    if (childId, courseId) in db.userCourses {
      return Success(AlreadyAssigned);
    }
    db.userCourses := db.userCourses[(childId, courseId) := UserCourse(0, now)];
    return Success(Assigned);
  }

  method Delete(db: Db, parentId: UserId, childId: UserId, courseId: CourseId) returns (r: Result<string>)
    modifies db`userCourses
    ensures (db.userCourses, r) == Unassign(db.familyMembers, db.users, old(db.userCourses), parentId, childId, courseId)
  {
    var familyId :- CheckParentAndChild(db.familyMembers, db.users, parentId, childId);
    if (childId, courseId) !in db.userCourses {
      return Success(NotAssigned);
    }
    db.userCourses := db.userCourses - {(childId, courseId)};
    return Success(Removed);
  }

  /** What `create` does to the table: a refused request changes nothing; otherwise exactly
      the (child, course) row is present afterwards, a row that was there is kept as it was,
      and no other row changes. */
  lemma AssignEffect(members: seq<FamilyMember>, users: map<UserId, User>, courses: map<CourseId, Course>,
                     userCourses: map<(UserId, CourseId), UserCourse>,
                     parentId: UserId, childId: UserId, courseId: CourseId, now: int)
    ensures var (after, r) := Assign(members, users, courses, userCourses, parentId, childId, courseId, now);
            (r.Failure? ==> after == userCourses) &&
            (r.Success? <==> CheckParentAndChild(members, users, parentId, childId).Success? && courseId in courses) &&
            (r.Success? ==> after.Keys == userCourses.Keys + {(childId, courseId)} &&
                            (forall k :: k in userCourses ==> after[k] == userCourses[k]) &&
                            (r.value == AlreadyAssigned <==> (childId, courseId) in userCourses))
  {
  }

  /** Assigning twice is the same as assigning once. */
  lemma AssignIdempotent(members: seq<FamilyMember>, users: map<UserId, User>, courses: map<CourseId, Course>,
                         userCourses: map<(UserId, CourseId), UserCourse>,
                         parentId: UserId, childId: UserId, courseId: CourseId, now: int, later: int)
    ensures var once := Assign(members, users, courses, userCourses, parentId, childId, courseId, now).0;
            Assign(members, users, courses, once, parentId, childId, courseId, later).0 == once
  {
  }

  /** What `delete` does to the table: a refused request changes nothing; otherwise the
      (child, course) row is absent afterwards and no other row changes. */
  lemma UnassignEffect(members: seq<FamilyMember>, users: map<UserId, User>,
                       userCourses: map<(UserId, CourseId), UserCourse>,
                       parentId: UserId, childId: UserId, courseId: CourseId)
    ensures var (after, r) := Unassign(members, users, userCourses, parentId, childId, courseId);
            (r.Failure? ==> after == userCourses) &&
            (r.Success? <==> CheckParentAndChild(members, users, parentId, childId).Success?) &&
            (r.Success? ==> after.Keys == userCourses.Keys - {(childId, courseId)} &&
                            (forall k :: k in after ==> after[k] == userCourses[k]) &&
                            (r.value == NotAssigned <==> (childId, courseId) !in userCourses))
  {
  }

  /** Starting without the enrolment, `create` followed by `delete` leaves the table as it was. */
  lemma AssignThenUnassign(members: seq<FamilyMember>, users: map<UserId, User>, courses: map<CourseId, Course>,
                           userCourses: map<(UserId, CourseId), UserCourse>,
                           parentId: UserId, childId: UserId, courseId: CourseId, now: int)
    requires (childId, courseId) !in userCourses
    ensures var withCourse := Assign(members, users, courses, userCourses, parentId, childId, courseId, now).0;
            Unassign(members, users, withCourse, parentId, childId, courseId).0 == userCourses
  {
    var key := (childId, courseId);
    var withCourse := Assign(members, users, courses, userCourses, parentId, childId, courseId, now).0;
    if withCourse != userCourses {
      assert withCourse == userCourses[key := UserCourse(0, now)];
      assert withCourse - {key} == userCourses;
    }
  }

  /** `get`: the child's course listing, for a child of the given family only. */
  ghost function ChildCourses(members: seq<FamilyMember>, userCourses: map<(UserId, CourseId), UserCourse>,
                              familyId: FamilyId, childId: UserId, page: nat, limit: nat)
    : (r: Result<UserCourses.UserCoursePage>)
    requires page >= 1 && limit >= 1
    ensures r.Success? <==> InFamily(members, familyId, childId)
    ensures r.Success? ==> r.value == UserCourses.GetAll(userCourses, childId, page, limit)
    ensures r.Failure? ==> r.error == NotFound("Child not found")
  {
    if InFamily(members, familyId, childId) then Success(UserCourses.GetAll(userCourses, childId, page, limit))
    else Failure(NotFound("Child not found"))
  }

  /** A family member as the family lookup returns it. */
  datatype Member = Member(userId: UserId, role: Role)

  predicate Available(m: Member, userCourses: map<(UserId, CourseId), UserCourse>, courseId: CourseId)
  {
    m.role != PARENT && (m.userId, courseId) !in userCourses
  }

  /** `getAvailableChildrenForCourse`: the members who are not parents and are not enrolled in
      the course, in member order. */
  function AvailableChildren(members: seq<Member>, userCourses: map<(UserId, CourseId), UserCourse>, courseId: CourseId)
    : (r: seq<Member>)
    ensures |r| <= |members|
    ensures forall m :: m in r <==> m in members && Available(m, userCourses, courseId)
  {
    if members == [] then []
    else
      var rest := AvailableChildren(members[1..], userCourses, courseId);
      if Available(members[0], userCourses, courseId) then [members[0]] + rest else rest
  }

  /** The filter keeps member order: it distributes over concatenation. */
  lemma {:induction false} AvailableChildrenAppend(a: seq<Member>, b: seq<Member>,
                                                   userCourses: map<(UserId, CourseId), UserCourse>, courseId: CourseId)
    ensures AvailableChildren(a + b, userCourses, courseId) ==
            AvailableChildren(a, userCourses, courseId) + AvailableChildren(b, userCourses, courseId)
    decreases |a|
  {
    if a != [] {
      assert (a + b)[1..] == a[1..] + b;
      AvailableChildrenAppend(a[1..], b, userCourses, courseId);
    } else {
      assert a + b == b;
    }
  }
}
