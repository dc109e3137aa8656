/** Achievement evaluation (src/achievement/achievement-check.service.ts): threshold rules over
    the store that add grants to the user's achievement set. */
module AchievementCheck {
  import opened Wrappers
  import opened Schema
  import Tests
  import Query

  /** The grant rows that give user `userId` each achievement of `achievements`. */
  function Grants(userId: UserId, achievements: set<Achievement>): (r: set<Grant>)
    ensures forall g :: g in r <==> g.userId == userId && g.achievement in achievements
  {
    set a | a in achievements :: Grant(userId, a)
  }

  /** `grantAchievement`: inserting an existing grant is a no-op (unique (user, achievement)). */
  method GrantAchievement(db: Db, userId: UserId, achievement: Achievement)
    modifies db`granted
    ensures db.granted == old(db.granted) + {Grant(userId, achievement)}
  {
    db.granted := db.granted + {Grant(userId, achievement)};
  }

  // ---------------------------------------------------------------------------------------
  // Test achievements

  /** What `checkTestAchievements` earns for a stored test: PERFECT_SCORE on a score of 100. */
  function TestAchievements(test: Test): (r: set<Achievement>)
    ensures PERFECT_SCORE in r <==> test.score == 100
    ensures r <= {PERFECT_SCORE}
  {
    if test.score == 100 then {PERFECT_SCORE} else {}
  }

  /** The achievement set after `checkTestAchievements` on a stored test. */
  function AfterTestCheck(granted: set<Grant>, test: Test, userId: UserId): set<Grant>
  {
    granted + Grants(userId, TestAchievements(test))
  }

  /** `checkTestAchievements`: a missing test is NotFound (raised by the test lookup, so the
      early return of the source is never reached); otherwise PERFECT_SCORE is granted exactly
      when the stored score is 100. */
  method CheckTestAchievements(db: Db, userId: UserId, testId: TestId) returns (r: Result<()>)
    modifies db`granted
    ensures testId !in db.tests ==> r == Failure(NotFound("Test not found")) && db.granted == old(db.granted)
    ensures testId in db.tests ==> r.Success? && db.granted == AfterTestCheck(old(db.granted), db.tests[testId], userId)
  {
    var test :- Tests.Get(db.tests, testId);
    if test.score == 100 {
      GrantAchievement(db, userId, PERFECT_SCORE);
    }
    return Success(());
  }

  /** PERFECT_SCORE is held after the check exactly when it was held before or the stored score
      is 100; a score of 80, say, adds nothing at all. */
  lemma PerfectScoreIff(granted: set<Grant>, test: Test, userId: UserId)
    ensures Grant(userId, PERFECT_SCORE) in AfterTestCheck(granted, test, userId)
            <==> Grant(userId, PERFECT_SCORE) in granted || test.score == 100
    ensures test.score != 100 ==> AfterTestCheck(granted, test, userId) == granted
  {
    if test.score != 100 {
      assert Grants(userId, TestAchievements(test)) == {};
    }
  }

  // ---------------------------------------------------------------------------------------
  // Course achievements

  /** Some test of the user in the course is PASSED. */
  predicate HasPassedTest(tests: map<TestId, Test>, userId: UserId, courseId: CourseId)
  {
    exists id :: id in tests && tests[id].userId == userId && tests[id].courseId == courseId && tests[id].status == PASSED
  }

  /** The user's enrolments, in any course, with at least three completed sections. */
  function CompletedEnrolments(userCourses: map<(UserId, CourseId), UserCourse>, userId: UserId): set<(UserId, CourseId)>
  {
    set k | k in userCourses && k.0 == userId && userCourses[k].completedSections >= 3
  }

  function CompletedCourseCount(userCourses: map<(UserId, CourseId), UserCourse>, userId: UserId): nat
  {
    |CompletedEnrolments(userCourses, userId)|
  }

  /** What `checkCourseAchievements` earns: nothing without an enrolment in the course;
      otherwise FIRST_STEP for a passed test in the course, READY_FOR_NEXT_LEVEL for three
      completed courses and MARATHON_KNOWLEDGE for five. */
  function CourseAchievements(tests: map<TestId, Test>, userCourses: map<(UserId, CourseId), UserCourse>,
                              userId: UserId, courseId: CourseId): (r: set<Achievement>)
    ensures (userId, courseId) !in userCourses ==> r == {}
    ensures (userId, courseId) in userCourses ==>
              (FIRST_STEP in r <==> HasPassedTest(tests, userId, courseId)) &&
              (READY_FOR_NEXT_LEVEL in r <==> CompletedCourseCount(userCourses, userId) >= 3) &&
              (MARATHON_KNOWLEDGE in r <==> CompletedCourseCount(userCourses, userId) >= 5)
    ensures PERFECT_SCORE !in r
  {
    if (userId, courseId) !in userCourses then {}
    else
      var n := CompletedCourseCount(userCourses, userId);
      (if HasPassedTest(tests, userId, courseId) then {FIRST_STEP} else {}) +
      (if n >= 3 then {READY_FOR_NEXT_LEVEL} else {}) +
      (if n >= 5 then {MARATHON_KNOWLEDGE} else {})
  }

  /** The achievement set after `checkCourseAchievements`. */
  function AfterCourseCheck(granted: set<Grant>, tests: map<TestId, Test>,
                            userCourses: map<(UserId, CourseId), UserCourse>, userId: UserId, courseId: CourseId)
    : set<Grant>
  {
    granted + Grants(userId, CourseAchievements(tests, userCourses, userId, courseId))
  }

  /** `checkCourseAchievements`: reads the enrolment, the passed tests and the completed-course
      count, then grants what they earn. */
  method CheckCourseAchievements(db: Db, userId: UserId, courseId: CourseId)
    modifies db`granted
    ensures db.granted == AfterCourseCheck(old(db.granted), db.tests, db.userCourses, userId, courseId)
  {
    if (userId, courseId) !in db.userCourses {
      return;
    }
    if HasPassedTest(db.tests, userId, courseId) {
      GrantAchievement(db, userId, FIRST_STEP);
    }
    var completedCourses := CompletedCourseCount(db.userCourses, userId);
    if completedCourses >= 3 {
      GrantAchievement(db, userId, READY_FOR_NEXT_LEVEL);
    }
    if completedCourses >= 5 {
      GrantAchievement(db, userId, MARATHON_KNOWLEDGE);
    }
  }

  /** MARATHON_KNOWLEDGE never comes without READY_FOR_NEXT_LEVEL. */
  lemma MarathonImpliesReady(granted: set<Grant>, tests: map<TestId, Test>,
                             userCourses: map<(UserId, CourseId), UserCourse>, userId: UserId, courseId: CourseId)
    requires Grant(userId, MARATHON_KNOWLEDGE) !in granted || Grant(userId, READY_FOR_NEXT_LEVEL) in granted
    ensures Grant(userId, MARATHON_KNOWLEDGE) in AfterCourseCheck(granted, tests, userCourses, userId, courseId)
            ==> Grant(userId, READY_FOR_NEXT_LEVEL) in AfterCourseCheck(granted, tests, userCourses, userId, courseId)
  {
  }

  /** Running the check a second time on the same store changes nothing. */
  lemma CourseCheckIdempotent(granted: set<Grant>, tests: map<TestId, Test>,
                              userCourses: map<(UserId, CourseId), UserCourse>, userId: UserId, courseId: CourseId)
    ensures var once := AfterCourseCheck(granted, tests, userCourses, userId, courseId);
            AfterCourseCheck(once, tests, userCourses, userId, courseId) == once
  {
  }

  /** The checks only add grants, and only grants of the given user. */
  lemma ChecksTouchOnlyTheUser(granted: set<Grant>, tests: map<TestId, Test>,
                               userCourses: map<(UserId, CourseId), UserCourse>, userId: UserId, courseId: CourseId,
                               test: Test)
    ensures granted <= AfterCourseCheck(granted, tests, userCourses, userId, courseId)
    ensures granted <= AfterTestCheck(granted, test, userId)
    ensures forall g: Grant :: g.userId != userId ==>
              (g in AfterCourseCheck(granted, tests, userCourses, userId, courseId) <==> g in granted) &&
              (g in AfterTestCheck(granted, test, userId) <==> g in granted)
  {
  }

  /** The course-count rules look at every course of the user, so two enrolled courses earn
      the same count-based achievements. */
  lemma CountAcrossCourses(tests: map<TestId, Test>, userCourses: map<(UserId, CourseId), UserCourse>,
                           userId: UserId, c1: CourseId, c2: CourseId, a: Achievement)
    requires (userId, c1) in userCourses && (userId, c2) in userCourses
    requires a == READY_FOR_NEXT_LEVEL || a == MARATHON_KNOWLEDGE
    ensures a in CourseAchievements(tests, userCourses, userId, c1) <==> a in CourseAchievements(tests, userCourses, userId, c2)
  {
  }

  /** One more completed section never lowers the completed-course count, and a bump on
      another user's row leaves it unchanged. */
  lemma CountMonotoneUnderProgress(userCourses: map<(UserId, CourseId), UserCourse>, key: (UserId, CourseId), userId: UserId)
    requires key in userCourses
    ensures var after := userCourses[key := userCourses[key].(completedSections := userCourses[key].completedSections + 1)];
            CompletedCourseCount(userCourses, userId) <= CompletedCourseCount(after, userId) &&
            (key.0 != userId ==> CompletedCourseCount(after, userId) == CompletedCourseCount(userCourses, userId))
  {
    var after := userCourses[key := userCourses[key].(completedSections := userCourses[key].completedSections + 1)];
    Query.SubsetCardinality(CompletedEnrolments(userCourses, userId), CompletedEnrolments(after, userId));
    if key.0 != userId {
      assert CompletedEnrolments(after, userId) == CompletedEnrolments(userCourses, userId);
    }
  }

  /** One passed test in a course the user is enrolled in, with fewer than three completed
      sections anywhere: FIRST_STEP and nothing else. */
  lemma FirstStepScenario(userId: UserId, courseId: CourseId, testId: TestId, test: Test, progress: UserCourse)
    requires test.userId == userId && test.courseId == courseId && test.status == PASSED
    requires progress.completedSections < 3
    ensures CourseAchievements(map[testId := test], map[(userId, courseId) := progress], userId, courseId) == {FIRST_STEP}
  {
    var tests := map[testId := test];
    var userCourses := map[(userId, courseId) := progress];
    assert tests[testId].userId == userId;
    assert CompletedEnrolments(userCourses, userId) == {};
  }

  /** A FAILED test does not earn FIRST_STEP. */
  lemma FailedTestScenario(userId: UserId, courseId: CourseId, testId: TestId, test: Test,
                           userCourses: map<(UserId, CourseId), UserCourse>)
    requires test.status == FAILED
    ensures FIRST_STEP !in CourseAchievements(map[testId := test], userCourses, userId, courseId)
  {
  }

  /** Three courses with three completed sections each: READY_FOR_NEXT_LEVEL, but not
      MARATHON_KNOWLEDGE. */
  lemma ThreeCoursesScenario(tests: map<TestId, Test>, userId: UserId, c1: CourseId, c2: CourseId, c3: CourseId)
    requires c1 != c2 && c2 != c3 && c1 != c3
    ensures var done := UserCourse(3, 0);
            var userCourses := map[(userId, c1) := done, (userId, c2) := done, (userId, c3) := done];
            var r := CourseAchievements(tests, userCourses, userId, c3);
            READY_FOR_NEXT_LEVEL in r && MARATHON_KNOWLEDGE !in r
  {
    var done := UserCourse(3, 0);
    var userCourses := map[(userId, c1) := done, (userId, c2) := done, (userId, c3) := done];
    assert CompletedEnrolments(userCourses, userId) == {(userId, c1), (userId, c2), (userId, c3)};
  }

  /** Two completed courses earn neither count-based achievement. */
  lemma TwoCoursesScenario(tests: map<TestId, Test>, userId: UserId, c1: CourseId, c2: CourseId)
    requires c1 != c2
    ensures var done := UserCourse(3, 0);
            var userCourses := map[(userId, c1) := done, (userId, c2) := done];
            var r := CourseAchievements(tests, userCourses, userId, c2);
            READY_FOR_NEXT_LEVEL !in r && MARATHON_KNOWLEDGE !in r
  {
    var done := UserCourse(3, 0);
    var userCourses := map[(userId, c1) := done, (userId, c2) := done];
    assert CompletedEnrolments(userCourses, userId) == {(userId, c1), (userId, c2)};
  }
}
