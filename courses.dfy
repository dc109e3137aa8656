/** Role-dispatched course queries (src/course/course.service.ts). */
module Courses {
  import opened Wrappers
  import opened Schema

  /** Every enrolment refers to an existing course (the foreign key). */
  predicate Linked(courses: map<CourseId, Course>, userCourses: map<(UserId, CourseId), UserCourse>)
  {
    forall k :: k in userCourses ==> k.1 in courses
  }

  /** `getAll`: every course for a parent, the courses of their enrolments for a child, and
      nothing for any other role. */
  function CoursesFor(courses: map<CourseId, Course>, userCourses: map<(UserId, CourseId), UserCourse>,
                      userId: UserId, role: Role): (r: map<CourseId, Course>)
    ensures role == PARENT ==> r == courses
    ensures role == CHILD ==> forall c :: c in r <==> c in courses && (userId, c) in userCourses
    ensures role == Other ==> r == map[]
    ensures forall c :: c in r ==> c in courses && r[c] == courses[c]
  {
    match role
    case PARENT => courses
    case CHILD => map c | c in courses && (userId, c) in userCourses :: courses[c]
    case Other => map[]
  }

  /** A course as `getById` returns it: with the child's progress when asked for by a child. */
  datatype CourseView = CourseView(courseId: CourseId, course: Course, progress: Option<UserCourse>)

  /** `getById`: for a parent the course, if it exists; for a child the course with their
      completed sections and last access, if they are enrolled; nothing for any other role. */
  function CourseById(courses: map<CourseId, Course>, userCourses: map<(UserId, CourseId), UserCourse>,
                      courseId: CourseId, userId: UserId, role: Role): (r: Option<CourseView>)
    ensures role == PARENT ==> (r.Some? <==> courseId in courses)
    ensures role == CHILD ==> (r.Some? <==> (userId, courseId) in userCourses && courseId in courses)
    ensures role == Other ==> r.None?
    ensures r.Some? ==> courseId in courses && r.value.courseId == courseId && r.value.course == courses[courseId]
    ensures r.Some? ==> (r.value.progress.Some? <==> role == CHILD)
    ensures r.Some? && role == CHILD ==> r.value.progress == Some(userCourses[(userId, courseId)])
  {
    match role
    case PARENT =>
      if courseId in courses then Some(CourseView(courseId, courses[courseId], None)) else None
    case CHILD =>
      var key := (userId, courseId);
      if key !in userCourses || courseId !in courses then None
      else Some(CourseView(courseId, courses[courseId], Some(userCourses[key])))
    case Other => None
  }

  /** `get`: the course, or NotFound. */
  function GetCourse(courses: map<CourseId, Course>, courseId: CourseId): (r: Result<Course>)
    ensures r.Success? <==> courseId in courses
    ensures r.Success? ==> r.value == courses[courseId]
    ensures r.Failure? ==> r.error == NotFound("Course not found")
  {
    if courseId in courses then Success(courses[courseId]) else Failure(NotFound("Course not found"))
  }

  /** With enrolments pointing at existing courses, a child's course list holds exactly their
      enrolled courses. */
  lemma ChildListsEnrolments(courses: map<CourseId, Course>, userCourses: map<(UserId, CourseId), UserCourse>,
                             userId: UserId)
    requires Linked(courses, userCourses)
    ensures CoursesFor(courses, userCourses, userId, CHILD).Keys == set k | k in userCourses && k.0 == userId :: k.1
  {
    var listed := CoursesFor(courses, userCourses, userId, CHILD).Keys;
    var enrolled := set k | k in userCourses && k.0 == userId :: k.1;
    forall c | c in enrolled ensures c in listed {
      var k :| k in userCourses && k.0 == userId && k.1 == c;
      assert (userId, c) == k;
    }
  }

  /** The list and the single lookup agree for every role: a course is listed exactly when it
      can be fetched by id, and what is fetched is the listed course. */
  lemma ListAndLookupAgree(courses: map<CourseId, Course>, userCourses: map<(UserId, CourseId), UserCourse>,
                           courseId: CourseId, userId: UserId, role: Role)
    ensures var listed := CoursesFor(courses, userCourses, userId, role);
            var found := CourseById(courses, userCourses, courseId, userId, role);
            (courseId in listed <==> found.Some?) &&
            (found.Some? ==> found.value.course == listed[courseId])
  {
  }

  /** Whatever a role can fetch by id, `get` finds too. */
  lemma LookupImpliesGet(courses: map<CourseId, Course>, userCourses: map<(UserId, CourseId), UserCourse>,
                         courseId: CourseId, userId: UserId, role: Role)
    requires CourseById(courses, userCourses, courseId, userId, role).Some?
    ensures GetCourse(courses, courseId) == Success(CourseById(courses, userCourses, courseId, userId, role).value.course)
  {
  }
}
