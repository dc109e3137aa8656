/** Test submission (`submit` in src/test/test.service.ts): grading, the reward side effects of
    a pass and the write of the graded row. */
module TestSubmit {
  import opened Wrappers
  import opened Schema
  import Tests
  import UserCourses
  import Users
  import AchievementCheck

  /** The columns `submit` returns. */
  datatype SubmitOutcome = SubmitOutcome(status: TestStatus, score: int, results: seq<QuestionResult>)

  /** The tables `submit` reads and writes. */
  datatype Store = Store(
    users: map<UserId, User>,
    userCourses: map<(UserId, CourseId), UserCourse>,
    tests: map<TestId, Test>,
    granted: set<Grant>)

  function StoreOf(db: Db): Store
    reads db
  {
    Store(db.users, db.userCourses, db.tests, db.granted)
  }

  const AlreadySubmitted := BadRequest("Test has already been submitted")

  /** A test without questions scores 0/0, which is not a number; the store rejects it for the
      integer score column. */
  const ScoreNotANumber := InvalidData("score: expected Int, got NaN")

  /** `Math.round(score / 10)` for a score between 0 and 100: a tenth of the score, halves up. */
  function PointsFor(score: nat): (points: nat)
    ensures 10 * points <= score + 5 < 10 * points + 10
  {
    (score + 5) / 10
  }

  /** The stored test once its answers are graded. */
  function Graded(test: Test, answers: seq<Answer>): (r: Test)
    requires |test.questions| > 0
    ensures r.userId == test.userId && r.courseId == test.courseId && r.sectionId == test.sectionId
    ensures r.questions == test.questions
    ensures r.results == Tests.Results(test.questions, answers)
    ensures r.score == Tests.Score(test.questions, answers) && 0 <= r.score <= 100
    ensures r.status == Tests.StatusFor(r.score) && r.status != PENDING
  {
    var score := Tests.Score(test.questions, answers);
    test.(status := Tests.StatusFor(score), score := score, results := Tests.Results(test.questions, answers))
  }

  /** The side effects of a pass, in source order: progress +1 on the caller's enrolment,
      points +round(score/10), then the course and test achievement checks, which read the
      test table as given. Each update fails with NotFound on a missing row and leaves the
      effects before it in place. */
  function Rewards(s: Store, testId: TestId, userId: UserId, courseId: CourseId, score: nat): (Store, Result<()>)
    requires testId in s.tests
  {
    var key := (userId, courseId);
    if key !in s.userCourses then (s, Failure(RecordNotFound))
    else
      var userCourses := UserCourses.Bump(s.userCourses, key);
      if userId !in s.users then (s.(userCourses := userCourses), Failure(RecordNotFound))
      else
        var user := s.users[userId];
        var users := s.users[userId := user.(points := user.points + PointsFor(score))];
        var granted := AchievementCheck.AfterCourseCheck(s.granted, s.tests, userCourses, userId, courseId);
        var granted' := AchievementCheck.AfterTestCheck(granted, s.tests[testId], userId);
        (Store(users, userCourses, s.tests, granted'), Success(()))
  }

  /** The final `test.update` where testId and userId match: NotFound unless the caller owns
      the test. */
  function WriteGraded(s: Store, testId: TestId, userId: UserId, graded: Test): (Store, Result<SubmitOutcome>)
  {
    if testId in s.tests && s.tests[testId].userId == userId then
      (s.(tests := s.tests[testId := graded]), Success(SubmitOutcome(graded.status, graded.score, graded.results)))
    else (s, Failure(RecordNotFound))
  }

  /** `submit` as written: the rewards run before the graded row is written. */
  function SubmitAsWritten(s: Store, testId: TestId, userId: UserId, answers: seq<Answer>): (Store, Result<SubmitOutcome>)
  {
    if testId !in s.tests then (s, Failure(NotFound("Test not found")))
    else
      var test := s.tests[testId];
      if test.status != PENDING then (s, Failure(AlreadySubmitted))
      else if |test.questions| == 0 then (s, Failure(ScoreNotANumber))
      else
        var graded := Graded(test, answers);
        if graded.status == PASSED then
          var (s1, rewarded) := Rewards(s, testId, userId, test.courseId, graded.score);
          if rewarded.Failure? then (s1, Failure(rewarded.error))
          else WriteGraded(s1, testId, userId, graded)
        else WriteGraded(s, testId, userId, graded)
  }

  /** `submit`: refuses a test that is missing or no longer PENDING, grades it, rewards a pass
      and writes the graded row. */
  method Submit(db: Db, testId: TestId, userId: UserId, answers: seq<Answer>) returns (r: Result<SubmitOutcome>)
    modifies db`tests, db`userCourses, db`users, db`granted
    ensures (StoreOf(db), r) == SubmitAsWritten(old(StoreOf(db)), testId, userId, answers)
  {
    var test :- Tests.Get(db.tests, testId);
    if test.status != PENDING {
      return Failure(AlreadySubmitted);
    }
    if |test.questions| == 0 {
      return Failure(ScoreNotANumber);
    }
    var results, score, status := Tests.CalculateResults(test.questions, answers);
    ghost var graded := Graded(test, answers);
    assert graded == test.(status := status, score := score, results := results);
    if status == PASSED {
      var rewarded := Reward(db, testId, userId, test.courseId, score);
      if rewarded.Failure? {
        return Failure(rewarded.error);
      }
    }
    r := UpdateTestRow(db, testId, userId, test.(status := status, score := score, results := results));
  }

  /** The side effects of a pass, each through its own service. */
  method Reward(db: Db, testId: TestId, userId: UserId, courseId: CourseId, score: nat) returns (r: Result<()>)
    requires testId in db.tests
    modifies db`userCourses, db`users, db`granted
    ensures (StoreOf(db), r) == Rewards(old(StoreOf(db)), testId, userId, courseId, score)
  {
    var progress := UserCourses.UpdateProgress(db, userId, courseId);
    if progress.Failure? {
      return Failure(progress.error);
    }
    var user := Users.UpdatePoints(db, userId, PointsFor(score));
    if user.Failure? {
      return Failure(user.error);
    }
    AchievementCheck.CheckCourseAchievements(db, userId, courseId);
    var checked := AchievementCheck.CheckTestAchievements(db, userId, testId);
    return Success(());
  }

  /** The graded-row write. */
  method UpdateTestRow(db: Db, testId: TestId, userId: UserId, graded: Test) returns (r: Result<SubmitOutcome>)
    modifies db`tests
    ensures (StoreOf(db), r) == WriteGraded(old(StoreOf(db)), testId, userId, graded)
  {
    if testId in db.tests && db.tests[testId].userId == userId {
      db.tests := db.tests[testId := graded];
      return Success(SubmitOutcome(graded.status, graded.score, graded.results));
    }
    return Failure(RecordNotFound);
  }

  // ---------------------------------------------------------------------------------------
  // Properties of submit as written

  /** A test that is not PENDING is refused with "already submitted" and nothing changes. */
  lemma ResubmissionRefused(s: Store, testId: TestId, userId: UserId, answers: seq<Answer>)
    requires testId in s.tests && s.tests[testId].status != PENDING
    ensures SubmitAsWritten(s, testId, userId, answers) == (s, Failure(AlreadySubmitted))
  {
  }

  /** A successful submission leaves the test PASSED or FAILED with its grade, so a second
      submission of it is refused and changes nothing. */
  lemma SubmitIsOnce(s: Store, testId: TestId, userId: UserId, answers: seq<Answer>, again: seq<Answer>)
    requires SubmitAsWritten(s, testId, userId, answers).1.Success?
    ensures var (s1, r) := SubmitAsWritten(s, testId, userId, answers);
            testId in s.tests && |s.tests[testId].questions| > 0 &&
            testId in s1.tests && s1.tests[testId] == Graded(s.tests[testId], answers) &&
            r.value == SubmitOutcome(s1.tests[testId].status, s1.tests[testId].score, s1.tests[testId].results) &&
            SubmitAsWritten(s1, testId, userId, again) == (s1, Failure(AlreadySubmitted))
  {
    var (s1, r) := SubmitAsWritten(s, testId, userId, answers);
    var graded := Graded(s.tests[testId], answers);
    assert s1.tests[testId] == graded;
  }

  /** A FAILED grade changes only the test row: no progress, no points, no achievements. */
  lemma FailedGradeRewardsNothing(s: Store, testId: TestId, userId: UserId, answers: seq<Answer>)
    requires testId in s.tests && s.tests[testId].status == PENDING && |s.tests[testId].questions| > 0
    requires Graded(s.tests[testId], answers).status == FAILED
    ensures var s1 := SubmitAsWritten(s, testId, userId, answers).0;
            s1.users == s.users && s1.userCourses == s.userCourses && s1.granted == s.granted
  {
  }

  /** A successful PASSED submission adds one completed section to the caller's enrolment in the
      test's course and round(score/10) points to the caller. */
  lemma PassRewards(s: Store, testId: TestId, userId: UserId, answers: seq<Answer>)
    requires SubmitAsWritten(s, testId, userId, answers).1.Success?
    requires SubmitAsWritten(s, testId, userId, answers).1.value.status == PASSED
    ensures var test := s.tests[testId];
            var (s1, r) := SubmitAsWritten(s, testId, userId, answers);
            var key := (userId, test.courseId);
            key in s.userCourses && s1.userCourses == UserCourses.Bump(s.userCourses, key) &&
            userId in s.users && userId in s1.users &&
            s1.users[userId].points == s.users[userId].points + PointsFor(r.value.score) &&
            s.granted <= s1.granted
  {
  }

  /** As written, the achievement checks of a pass see the test table before the graded row is
      written: PERFECT_SCORE follows the stored pre-submission score, and FIRST_STEP needs some
      other test already PASSED. */
  lemma AsWrittenChecksSeeOldRow(s: Store, testId: TestId, userId: UserId, answers: seq<Answer>)
    requires SubmitAsWritten(s, testId, userId, answers).1.Success?
    ensures var s1 := SubmitAsWritten(s, testId, userId, answers).0;
            var test := s.tests[testId];
            (Grant(userId, PERFECT_SCORE) in s1.granted <==>
               Grant(userId, PERFECT_SCORE) in s.granted ||
               (Graded(test, answers).status == PASSED && test.score == 100)) &&
            (Grant(userId, FIRST_STEP) in s1.granted <==>
               Grant(userId, FIRST_STEP) in s.granted ||
               (Graded(test, answers).status == PASSED &&
                AchievementCheck.HasPassedTest(s.tests, userId, test.courseId)))
  {
  }

  /** A fresh test answered perfectly: the submission reports 100 and PASSED, yet neither
      PERFECT_SCORE nor FIRST_STEP is granted. */
  lemma PerfectFirstSubmissionUnrewarded(userId: UserId, courseId: CourseId, testId: TestId, user: User, q: Question)
    ensures var s := FirstTestStore(userId, courseId, testId, user, q);
            var (s1, r) := SubmitAsWritten(s, testId, userId, [Answer(q.instanceId, Some(q.correctAnswer))]);
            r == Success(SubmitOutcome(PASSED, 100, [QuestionResult(q.text, q.correctAnswer, Some(q.correctAnswer))])) &&
            Grant(userId, PERFECT_SCORE) !in s1.granted && Grant(userId, FIRST_STEP) !in s1.granted
  {
    var s := FirstTestStore(userId, courseId, testId, user, q);
    var answers := [Answer(q.instanceId, Some(q.correctAnswer))];
    FirstTestGrade(q, answers);
    assert !AchievementCheck.HasPassedTest(s.tests, userId, courseId);
    AsWrittenChecksSeeOldRow(s, testId, userId, answers);
  }

  /** A user enrolled in a course with no progress and no achievements, who has just been
      given one PENDING one-question test in it. */
  function FirstTestStore(userId: UserId, courseId: CourseId, testId: TestId, user: User, q: Question): Store
  {
    Store(map[userId := user], map[(userId, courseId) := UserCourse(0, 0)],
          map[testId := Test(userId, courseId, "", [q], PENDING, 0, [])], {})
  }

  lemma FirstTestGrade(q: Question, answers: seq<Answer>)
    requires answers == [Answer(q.instanceId, Some(q.correctAnswer))]
    ensures Tests.Results([q], answers) == [QuestionResult(q.text, q.correctAnswer, Some(q.correctAnswer))]
    ensures Tests.Score([q], answers) == 100
  {
    assert Tests.UserAnswer(answers, q.instanceId) == Some(q.correctAnswer);
    Tests.AllCorrectPasses([q], answers);
  }

  /** A submission by someone other than the owner: the caller's progress and points are
      rewarded, and then the write fails with NotFound. */
  lemma ForeignSubmissionRewardsCaller(owner: UserId, caller: UserId, courseId: CourseId, testId: TestId,
                                      user: User, q: Question)
    requires owner != caller
    ensures var s := Store(map[caller := user], map[(caller, courseId) := UserCourse(0, 0)],
                           map[testId := Test(owner, courseId, "", [q], PENDING, 0, [])], {});
            var (s1, r) := SubmitAsWritten(s, testId, caller, [Answer(q.instanceId, Some(q.correctAnswer))]);
            r == Failure(RecordNotFound) &&
            s1.userCourses[(caller, courseId)].completedSections == 1 &&
            s1.users[caller].points == user.points + 10 &&
            s1.tests == s.tests
  {
    var answers := [Answer(q.instanceId, Some(q.correctAnswer))];
    FirstTestGrade(q, answers);
  }

  /** The foreign test stays PENDING, so the same submission can be repeated: a second one
      rewards the caller again. */
  lemma ForeignSubmissionRepeats(owner: UserId, caller: UserId, courseId: CourseId, testId: TestId,
                                 user: User, q: Question)
    requires owner != caller
    ensures var s := Store(map[caller := user], map[(caller, courseId) := UserCourse(0, 0)],
                           map[testId := Test(owner, courseId, "", [q], PENDING, 0, [])], {});
            var answers := [Answer(q.instanceId, Some(q.correctAnswer))];
            var (s1, _) := SubmitAsWritten(s, testId, caller, answers);
            var (s2, r) := SubmitAsWritten(s1, testId, caller, answers);
            r == Failure(RecordNotFound) &&
            s2.userCourses[(caller, courseId)].completedSections == 2 &&
            s2.users[caller].points == user.points + 20
  {
    var answers := [Answer(q.instanceId, Some(q.correctAnswer))];
    FirstTestGrade(q, answers);
    ForeignSubmissionRewardsCaller(owner, caller, courseId, testId, user, q);
  }

  // ---------------------------------------------------------------------------------------
  // Corrected ordering: write the graded row first, then reward

  /** `submit` with the graded row written before the rewards, so an unowned test is refused
      before any side effect and the achievement checks see this submission. */
  function SubmitCorrected(s: Store, testId: TestId, userId: UserId, answers: seq<Answer>): (Store, Result<SubmitOutcome>)
  {
    if testId !in s.tests then (s, Failure(NotFound("Test not found")))
    else
      var test := s.tests[testId];
      if test.status != PENDING then (s, Failure(AlreadySubmitted))
      else if |test.questions| == 0 then (s, Failure(ScoreNotANumber))
      else
        var graded := Graded(test, answers);
        var (s1, written) := WriteGraded(s, testId, userId, graded);
        if written.Failure? || graded.status != PASSED then (s1, written)
        else
          var (s2, rewarded) := Rewards(s1, testId, userId, test.courseId, graded.score);
          if rewarded.Failure? then (s2, Failure(rewarded.error)) else (s2, written)
  }

  method SubmitPersistingFirst(db: Db, testId: TestId, userId: UserId, answers: seq<Answer>)
    returns (r: Result<SubmitOutcome>)
    modifies db`tests, db`userCourses, db`users, db`granted
    ensures (StoreOf(db), r) == SubmitCorrected(old(StoreOf(db)), testId, userId, answers)
  {
    var test :- Tests.Get(db.tests, testId);
    if test.status != PENDING {
      return Failure(AlreadySubmitted);
    }
    if |test.questions| == 0 {
      return Failure(ScoreNotANumber);
    }
    var results, score, status := Tests.CalculateResults(test.questions, answers);
    var graded := test.(status := status, score := score, results := results);
    assert graded == Graded(test, answers);
    r := UpdateTestRow(db, testId, userId, graded);
    if r.Failure? || status != PASSED {
      return;
    }
    var rewarded := Reward(db, testId, userId, test.courseId, score);
    if rewarded.Failure? {
      return Failure(rewarded.error);
    }
  }

  /** With the row written first, a successful PASSED submission earns FIRST_STEP, and
      PERFECT_SCORE exactly when this submission scored 100. */
  lemma CorrectedRewardsThisSubmission(s: Store, testId: TestId, userId: UserId, answers: seq<Answer>)
    requires SubmitCorrected(s, testId, userId, answers).1.Success?
    requires SubmitCorrected(s, testId, userId, answers).1.value.status == PASSED
    ensures var (s1, r) := SubmitCorrected(s, testId, userId, answers);
            Grant(userId, FIRST_STEP) in s1.granted &&
            (Grant(userId, PERFECT_SCORE) in s1.granted <==>
               Grant(userId, PERFECT_SCORE) in s.granted || r.value.score == 100)
  {
    var test := s.tests[testId];
    var graded := Graded(test, answers);
    var s1 := WriteGraded(s, testId, userId, graded).0;
    assert s1.tests[testId] == graded;
    assert AchievementCheck.HasPassedTest(s1.tests, userId, test.courseId);
  }

  /** With the row written first, a failed submission changes nothing unless the test was
      written and only a reward step failed; in particular an unowned test is refused with
      the store untouched. */
  lemma CorrectedRefusesForeignTest(s: Store, testId: TestId, userId: UserId, answers: seq<Answer>)
    requires testId in s.tests && s.tests[testId].userId != userId
    ensures SubmitCorrected(s, testId, userId, answers).0 == s
    ensures SubmitCorrected(s, testId, userId, answers).1.Failure?
  {
  }

  /** On the perfect first submission the corrected order grants both achievements. */
  lemma PerfectFirstSubmissionRewarded(userId: UserId, courseId: CourseId, testId: TestId, user: User, q: Question)
    ensures var s := FirstTestStore(userId, courseId, testId, user, q);
            var (s1, r) := SubmitCorrected(s, testId, userId, [Answer(q.instanceId, Some(q.correctAnswer))]);
            r.Success? && r.value.score == 100 &&
            Grant(userId, PERFECT_SCORE) in s1.granted && Grant(userId, FIRST_STEP) in s1.granted
  {
    var s := FirstTestStore(userId, courseId, testId, user, q);
    var answers := [Answer(q.instanceId, Some(q.correctAnswer))];
    FirstTestGrade(q, answers);
    CorrectedRewardsThisSubmission(s, testId, userId, answers);
  }
}
