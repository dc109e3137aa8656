# Test grading, rewards and enrolments of a family-learning backend, in Dafny

This project models the service layer of a NestJS/Prisma backend for a family-learning
platform. Children take generated tests, and a passed test earns progress, points and
achievements. Parents assign courses to the children of their family.

The model covers these parts of the service layer:

- **Tests** (`tests.dfy`, `submit.dfy`, module `Tests` and `TestSubmit`):
  - Question generation, with literal `{key}` substitution and the random instance given as a choice.
  - Creation of PENDING tests, and the list of submitted tests.
  - Grading, with exact half-up rounding and the pass mark of 85.
  - The submit lifecycle: PENDING becomes PASSED or FAILED, exactly once. A pass triggers progress, points and achievement side effects.
- **Achievements** (`achievements.dfy`, module `AchievementCheck`): PERFECT_SCORE, FIRST_STEP,
  READY_FOR_NEXT_LEVEL and MARATHON_KNOWLEDGE as threshold rules over the store. Each rule
  grants idempotently into the set of (user, achievement) grants.
- **Enrolments** (`user_courses.dfy`, `family_course.dfy`, `courses.dfy`):
  - The (user, course) progress table, its increment and field update.
  - The filtered, sorted and paginated listing, with `totalPages`.
  - Parents assigning and removing courses after permission checks.
  - The "children not yet enrolled" filter.
  - Role-dispatched course queries.
- **Users** (`users.dfy`, `user_applications.dfy`):
  - Points, password and verification updates, the profile lookup and the top-N leaderboard.
  - Replacing a user's application set, and the all-or-nothing batch update of `isBlocked`.

The store is the class `Schema.Db`, with one field per table. Each table is a map from its
primary key to its other columns; the achievement grants are a set. Operations that change
the store are methods that modify only the tables they write. Each such method is specified
by a function of the old tables, and the lemmas about those functions state what the
services promise.

A Prisma update of a missing row is the failure `Schema.RecordNotFound`. A query whose
order Prisma does not fix is a set or a map. A query with `orderBy` returns a sorted sequence.
The database orders rows with equal keys as it likes, and may order them differently on
each request. The enrolment listing as written takes that order as a parameter
(`UserCourses.StoreOrder`, `UserCourses.GetAllAsWritten`), so each page request may get a
different one. The leaderboard is a single request. There `Users.Ranking` is one sorted order
of the candidates, built with `Query.SortBy`, which the model leaves unspecified. Unlike the
database, it is the same order whenever the table is the same; no property here compares two
leaderboard requests.

Helper modules:

- `Wrappers`: `Option`, `Result` and the error kinds (NotFound, BadRequest, Forbidden, InvalidData).
- `Text`: literal replace-all and join.
- `Query`: set to sequence, sort by key, skip/take windows and ceiling division.
- `Arith`: two small facts about division and multiplication.

## Model

| member | source | states |
|---|---|---|
| Tests.Get | src/test/test.service.ts:27-39 | the test with the id, or NotFound("Test not found") exactly when it is absent |
| Tests.ResolveText | src/test/test.service.ts:46-57 | the loop over the variables yields the text with every binding substituted in order; a missing explanation stays missing |
| Tests.GenerateQuestions | src/test/test.service.ts:41-68 | one question per template in template order, built from the chosen instance (templateId, instanceId, answers copied, text substituted); a template without instances is an error |
| Tests.SubstituteWithoutPlaceholders | src/test/test.service.ts:49-56 | a text without `{` is unchanged by any bindings |
| Tests.SubstituteSingle | src/test/test.service.ts:53-55 | for a key without `{`, pieces that do not contain the `{key}` token, joined by it, become the same pieces joined by the value: every placeholder is replaced |
| Tests.TokenSeparated | src/test/test.service.ts:53-54 | a `{key}` token (key without `{`) absent from a piece cannot start inside that piece even when the token follows it |
| Text.ReplaceAllJoin | src/test/test.service.ts:53-55 | global literal replacement turns pieces joined by the pattern, with no occurrence starting inside a piece, into the same pieces joined by the replacement |
| Tests.TokenCopied | src/test/test.service.ts:53-54 | the placeholder of one brace-free name never matches at any position inside the placeholder of a different name |
| Tests.ReplaceRendered | src/test/test.service.ts:53-54 | substituting one binding in the text of a template (literal text without `{`, placeholders with brace-free names) is filling that variable's placeholders with the value |
| Tests.SubstituteTemplate | src/test/test.service.ts:49-56 | substituting all bindings in order in such a template text is filling the template with each binding in turn; the result stays well formed when values hold no `{` |
| Tests.LookupAppend | src/test/test.service.ts:50-52 | the first binding of a name in a longer list is the one among the earlier bindings, else the new one when it has that name |
| Tests.FillAllAt | src/test/test.service.ts:49-56 | each placeholder ends up with the value of the first binding of its name and stays a placeholder when its name is unbound; literal text is kept |
| Tests.NoPlaceholderLeft | src/test/test.service.ts:49-56 | once every placeholder's name is bound, the substituted text holds no `{`, so no placeholder of any binding occurs in it |
| Tests.Generate | src/test/test.service.ts:70-84 | stores a new PENDING test with score 0 and no results for the user, section and course, holding the generated questions; nothing else changes |
| Tests.CompletedTests | src/test/test.service.ts:86-104 | exactly the user's tests whose status is not PENDING, each with its id, results, status, score, section and owner |
| Tests.PendingTestNotListed | src/test/test.service.ts:86-93 | creating a PENDING test leaves every user's list of submitted tests unchanged |
| Tests.FirstAnswer | src/test/test.service.ts:147-149 | the index of the first answer with the instance id, or none when no answer has it |
| Tests.CalculateResults | src/test/test.service.ts:142-162 | one result per question in order, carrying text, correct answer and the first matching user answer; the score is the rounded percentage of correct answers; the status follows the score |
| Tests.RoundedPercent | src/test/test.service.ts:158 | the score is round-half-up of 100·correct/total: 2·total·score ≤ 200·correct + total < 2·total·(score+1), within 0..100 |
| Tests.PassedIff | src/test/test.service.ts:158-159 | a test passes exactly when 200·correct ≥ 169·total (at least 84.5% correct) |
| Tests.AllCorrectPasses | src/test/test.service.ts:151-159 | all answers correct gives score 100 and PASSED |
| Tests.CorrectCountCounts | src/test/test.service.ts:146-151 | the correct count is the number of question positions answered correctly |
| Tests.UnansweredNeverCount | src/test/test.service.ts:147-151 | only a question whose first matching answer carries a value can count as correct, so the count is at most the number of such questions |
| Tests.NothingAnsweredScoresZero | src/test/test.service.ts:147-151 | with no answer for any question's instance the correct count is 0 |
| TestSubmit.PointsFor | src/test/test.service.ts:119 | points are round-half-up of score/10: 10·p ≤ score + 5 < 10·p + 10 |
| TestSubmit.Graded | src/test/test.service.ts:113-115 | the graded test keeps owner, course and questions and takes the results, score and a non-PENDING status of the grading |
| TestSubmit.Submit | src/test/test.service.ts:106-140 | the store and reply after submit are those of SubmitAsWritten: missing test, already submitted, grading, rewards on a pass, then the owner-only row write |
| TestSubmit.Reward | src/test/test.service.ts:117-125 | progress +1, points +round(score/10), course check, test check, stopping at the first missing row |
| TestSubmit.UpdateTestRow | src/test/test.service.ts:127-139 | the graded row is written only when the caller owns the test; otherwise NotFound and no change |
| TestSubmit.ResubmissionRefused | src/test/test.service.ts:109-111 | a test that is not PENDING is refused with "Test has already been submitted" and nothing changes |
| TestSubmit.SubmitIsOnce | src/test/test.service.ts:106-139 | after a successful submit the row holds the grade that was returned, and a second submit is refused without change |
| TestSubmit.FailedGradeRewardsNothing | src/test/test.service.ts:117 | a FAILED grade changes no progress, points or achievements |
| TestSubmit.PassRewards | src/test/test.service.ts:117-125 | a successful pass bumps the caller's enrolment in the course by one, adds round(score/10) points and only adds grants |
| TestSubmit.AsWrittenChecksSeeOldRow | src/test/test.service.ts:117-127 | as written, PERFECT_SCORE follows the stored pre-submission score and FIRST_STEP needs another test already PASSED |
| TestSubmit.PerfectFirstSubmissionUnrewarded | src/test/test.service.ts:117-139 | a fresh test answered perfectly returns 100/PASSED yet grants neither PERFECT_SCORE nor FIRST_STEP |
| TestSubmit.ForeignSubmissionRewardsCaller | src/test/test.service.ts:117-129 | submitting someone else's test rewards the caller's progress and points, then fails with NotFound, leaving the test PENDING |
| TestSubmit.ForeignSubmissionRepeats | src/test/test.service.ts:106-129 | the same foreign submission repeated rewards the caller again: two completed sections and twice the points |
| TestSubmit.SubmitPersistingFirst | src/test/test.service.ts:106-140 | the corrected submit: the graded row is written first, then the rewards (SubmitCorrected) |
| TestSubmit.CorrectedRewardsThisSubmission | src/test/test.service.ts:117-139 | with the row written first, a pass grants FIRST_STEP, and PERFECT_SCORE exactly when this submission scored 100 |
| TestSubmit.CorrectedRefusesForeignTest | src/test/test.service.ts:127-129 | with the row written first, an unowned test is refused with the store untouched |
| TestSubmit.PerfectFirstSubmissionRewarded | src/test/test.service.ts:117-139 | with the row written first, the perfect first submission grants both achievements |
| AchievementCheck.GrantAchievement | src/achievement/achievement-check.service.ts:27-30 | a grant adds the (user, achievement) pair; a held one is not duplicated |
| AchievementCheck.TestAchievements | src/achievement/achievement-check.service.ts:26-31 | PERFECT_SCORE is earned exactly when the stored score is 100, and nothing else is earned |
| AchievementCheck.CheckTestAchievements | src/achievement/achievement-check.service.ts:20-32 | a missing test is NotFound with no change; otherwise the grants earned by the stored test are added |
| AchievementCheck.PerfectScoreIff | src/achievement/achievement-check.service.ts:26-31 | PERFECT_SCORE is held after the check iff held before or the score is 100; any other score adds nothing |
| AchievementCheck.CourseAchievements | src/achievement/achievement-check.service.ts:37-76 | nothing without an enrolment; otherwise FIRST_STEP iff a PASSED test of the course exists, READY iff ≥ 3 and MARATHON iff ≥ 5 enrolments with ≥ 3 completed sections |
| AchievementCheck.CheckCourseAchievements | src/achievement/achievement-check.service.ts:37-76 | the grants earned by the course rules are added, nothing else |
| AchievementCheck.MarathonImpliesReady | src/achievement/achievement-check.service.ts:62-75 | MARATHON_KNOWLEDGE is never held without READY_FOR_NEXT_LEVEL after the check |
| AchievementCheck.CourseCheckIdempotent | src/achievement/achievement-check.service.ts:37-76 | running the course check twice gives the same grants as once |
| AchievementCheck.ChecksTouchOnlyTheUser | src/achievement/achievement-check.service.ts:20-76 | the checks only add grants, and only grants of the given user |
| AchievementCheck.CountAcrossCourses | src/achievement/achievement-check.service.ts:57-59 | the count rules give the same answer whichever enrolled course triggers them |
| AchievementCheck.CountMonotoneUnderProgress | src/achievement/achievement-check.service.ts:57-59 | one more completed section never lowers the completed-course count, and another user's progress leaves it unchanged |
| AchievementCheck.FirstStepScenario | src/achievement/achievement-check.service.ts:44-54 | one passed test in an enrolled course with little progress earns FIRST_STEP and nothing else |
| AchievementCheck.FailedTestScenario | src/achievement/achievement-check.service.ts:45-48 | a FAILED test does not earn FIRST_STEP |
| AchievementCheck.ThreeCoursesScenario | src/achievement/achievement-check.service.ts:57-75 | three completed courses earn READY_FOR_NEXT_LEVEL but not MARATHON_KNOWLEDGE |
| AchievementCheck.TwoCoursesScenario | src/achievement/achievement-check.service.ts:57-75 | two completed courses earn neither count achievement |
| UserCourses.Get | src/user/user-course/user-course.service.ts:9-19 | the (user, course) row, or NotFound("Course not found") exactly when absent |
| UserCourses.Bump | src/user/user-course/user-course.service.ts:71-78 | same keys, the row's completed sections +1, every other row unchanged |
| UserCourses.BumpMonotone | src/user/user-course/user-course.service.ts:71-78 | no row's counter decreases |
| UserCourses.UpdateProgress | src/user/user-course/user-course.service.ts:71-78 | increments exactly the row, or NotFound with no change |
| UserCourses.Overwrite | src/user/user-course/user-course.service.ts:67 | fields present in the update are overwritten, absent ones kept |
| UserCourses.Update | src/user/user-course/user-course.service.ts:64-69 | overwrites the given fields of exactly the row, or NotFound with no change |
| UserCourses.Paginate | src/user/user-course/user-course.service.ts:21-62 | the window of `limit` rows after (page−1)·limit of the ordered rows, their number and totalPages = ⌈total/limit⌉ |
| UserCourses.GetAllAsWritten | src/user/user-course/user-course.service.ts:21-62 | as written: the page (window, count and totalPages of Paginate) of the order the store chose for this request, which may be any order of the user's rows with completed sections > 0 that is ascending by completed sections; the count of those rows |
| UserCourses.TiedRowsCanBeMissed | src/user/user-course/user-course.service.ts:25-36 | two rows tied on completed sections, limit 1: with a different tie order per request, pages 1 and 2 both show the same row and the other is on no page |
| UserCourses.CorrectedListing | src/user/user-course/user-course.service.ts:34-36 | the rows, each once, strictly ordered by completed sections and then course id |
| UserCourses.StrictOrderUnique | src/user/user-course/user-course.service.ts:34-36 | two strictly ordered sequences of the same rows are equal |
| UserCourses.CorrectedOrderForced | src/user/user-course/user-course.service.ts:25-36 | with the course id as tie-breaker, every order the store may return for the query is the same listing |
| UserCourses.CorrectedIsStoreOrder | src/user/user-course/user-course.service.ts:34-36 | the corrected order is one the as-written query may also return |
| UserCourses.Listing | src/user/user-course/user-course.service.ts:25-36 | a permutation of the user's rows with completed sections > 0, strictly ordered by completed sections and then course id |
| UserCourses.GetAll | src/user/user-course/user-course.service.ts:21-62 | corrected `getAll`: the page of the listing with ties broken by course id, the count of the selected rows and totalPages |
| UserCourses.GetAllItems | src/user/user-course/user-course.service.ts:25-31 | every item is a row of the user with completed sections > 0 |
| UserCourses.EveryRowOnAPage | src/user/user-course/user-course.service.ts:22-60 | with the corrected order, every selected row appears on some page between 1 and totalPages |
| UserCourses.RowOnOnePage | src/user/user-course/user-course.service.ts:22-36 | with the corrected order, a selected row appears on no two different pages |
| UserCourses.DefaultFirstPage | src/user/user-course/user-course.service.ts:21-33 | with the default page 1 and limit 15 the items are the first 15 rows of the listing, or all of them when there are no more |
| Query.CeilDiv | src/user/user-course/user-course.service.ts:60 | the least number of pages of the given size covering the total |
| Users.UpdatePoints | src/user/user.service.ts:52-63 | adds exactly the points to the user, nothing else changes; NotFound when absent |
| Users.UpdatePassword | src/user/user.service.ts:65-72 | replaces the password verbatim, nothing else changes; NotFound when absent |
| Users.MarkVerified | src/user/user.service.ts:107-112 | sets isVerified, nothing else changes; NotFound when absent |
| Users.GetProfile | src/user/user.service.ts:74-93 | the user's id, username, email, role, points and image, or NotFound("User not found") exactly when absent |
| Users.Ranking | src/user/user.service.ts:37-47 | a permutation of the non-parent users, by points descending |
| Users.TopUsers | src/user/user.service.ts:36-49 | the first min(limit, candidates) entries of the ranking: candidates, none twice, by points descending |
| Users.DefaultTopUsers | src/user/user.service.ts:36 | without a limit at most 25 users are listed, and every candidate when there are no more than 25 |
| Users.TopUsersExcludeParents | src/user/user.service.ts:38-40 | no PARENT is on the leaderboard |
| Users.TopUsersAreTop | src/user/user.service.ts:47-48 | a candidate left off the leaderboard has no more points than anyone on it |
| FamilyCourses.FirstMembership | src/family/family-course/family-course.service.ts:54-57 | the first membership row of the user, or none when there is none |
| FamilyCourses.CheckParentAndChild | src/family/family-course/family-course.service.ts:53-68 | Forbidden exactly when the caller has no membership or is not a PARENT; success, with the family of the caller's first membership, exactly when the caller is a PARENT and the child is in that family; NotFound otherwise |
| FamilyCourses.Create | src/family/family-course/family-course.service.ts:53-90 | the table and reply are those of Assign |
| FamilyCourses.Delete | src/family/family-course/family-course.service.ts:92-121 | the table and reply are those of Unassign |
| FamilyCourses.AssignEffect | src/family/family-course/family-course.service.ts:53-90 | refusals change nothing; success needs the checks and an existing course; afterwards the row exists, an existing row is kept ("already assigned") and no other row changes |
| FamilyCourses.AssignIdempotent | src/family/family-course/family-course.service.ts:75-80 | assigning twice leaves the table as assigning once |
| FamilyCourses.UnassignEffect | src/family/family-course/family-course.service.ts:92-121 | refusals change nothing; afterwards the row is absent ("not assigned" if it was), no other row changes |
| FamilyCourses.AssignThenUnassign | src/family/family-course/family-course.service.ts:82-118 | from no enrolment, create then delete restores the table |
| FamilyCourses.ChildCourses | src/family/family-course/family-course.service.ts:19-30 | NotFound("Child not found") exactly when the child is not in the family; otherwise the child's page of the corrected `getAll` |
| FamilyCourses.AvailableChildren | src/family/family-course/family-course.service.ts:32-51 | exactly the members who are not parents and have no enrolment in the course |
| FamilyCourses.AvailableChildrenAppend | src/family/family-course/family-course.service.ts:46-48 | the filter keeps member order (it distributes over concatenation) |
| UserApplications.GetByUserId | src/user/user-application/user-appllication.service.ts:14-28 | one entry per application row of the user, with its isBlocked and the joined appName |
| UserApplications.Register | src/user/user-application/user-appllication.service.ts:33 | the registry gains the packages of the data; known packages keep their name |
| UserApplications.ReplaceApps | src/user/user-application/user-appllication.service.ts:30-56 | the user's packages become exactly the given ones; kept rows keep isBlocked; new rows are unblocked; an empty list deletes all; other users untouched |
| UserApplications.UpdateByUserId | src/user/user-application/user-appllication.service.ts:30-59 | registry and rows are replaced as above, the foreign key still holds, and the user's entries are returned |
| UserApplications.ApplyBlockedLastWins | src/user/user-application/user-appllication.service.ts:66-78 | each listed package ends with the value of its last entry |
| UserApplications.ApplyBlockedUnlisted | src/user/user-application/user-appllication.service.ts:66-78 | rows of other users and of unlisted packages keep their value |
| UserApplications.UpdateBlockedStatus | src/user/user-application/user-appllication.service.ts:61-82 | all-or-nothing: a package without a row aborts with NotFound and no change; otherwise the entries are applied in order and the user's entries returned |
| UserApplications.ReplaceAppsIdempotent | src/user/user-application/user-appllication.service.ts:36-55 | replacing with the same list twice is the same as once |
| Courses.CoursesFor | src/course/course.service.ts:8-26 | all courses for a PARENT, the enrolled courses for a CHILD, none otherwise |
| Courses.CourseById | src/course/course.service.ts:28-46 | the course for a PARENT if it exists; for an enrolled CHILD the course with their completed sections and last access; none otherwise |
| Courses.GetCourse | src/course/course.service.ts:50-60 | the course, or NotFound("Course not found") exactly when absent |
| Courses.ChildListsEnrolments | src/course/course.service.ts:11-24 | a child's list holds exactly the courses of their enrolments |
| Courses.ListAndLookupAgree | src/course/course.service.ts:8-46 | for every role, a course is listed exactly when it can be fetched by id, and the two agree |
| Courses.LookupImpliesGet | src/course/course.service.ts:28-60 | whatever a role can fetch by id, `get` returns too |

## Findings

| source | as written | input that shows it | evidently intended | confidence | as-written member | corrected member |
|---|---|---|---|---|---|---|
| src/test/test.service.ts:117-127 | the achievement checks of a pass run before the graded row is written, so they read the PENDING row with its stored score | a user enrolled in a course submits a fresh one-question test of that course (stored score 0) with the correct answer | the submission that scores 100 earns PERFECT_SCORE, and a first passed test earns FIRST_STEP | high; not executed | TestSubmit.PerfectFirstSubmissionUnrewarded | TestSubmit.CorrectedRewardsThisSubmission |
| src/test/test.service.ts:117-129 | progress and points go to the caller before the final update checks that the caller owns the test | user B, enrolled in the course, submits user A's PENDING test with correct answers | a test of another user is refused before any side effect | medium; not executed | TestSubmit.ForeignSubmissionRewardsCaller | TestSubmit.CorrectedRefusesForeignTest |
| src/user/user-course/user-course.service.ts:32-36 | pages are separate skip/take queries ordered by completedSections alone, so rows with equal counts may be ordered differently from one page request to the next | two enrolments of one user with one completed section each, limit 1: page 1 in one tie order and page 2 in the other show the same enrolment twice | every selected row appears on exactly one page, with a tie-breaker such as the course id | medium; not executed | UserCourses.TiedRowsCanBeMissed | UserCourses.EveryRowOnAPage, UserCourses.RowOnOnePage |

## Left out

- Randomness: `Math.random` picks an instance; the model takes the chosen index as a parameter constrained to the instance range.
- Tests.RoundedPercent: rounds the exact quotient half up. The source rounds the double `(correct / total) * 100`, whose two roundings can land just under a half: 23 of 40 gives 57.49999999999999, so 57 in the source and 58 here, and 29 of 200 gives 14 against 15. For totals up to 1000 there are 40 such pairs, and none of them is on different sides of the pass mark of 85.
- TestSubmit.PointsFor: `Math.round(score / 10)` is exact half-up rounding; an integer score divided by 10 is never just under a half in double precision.
- Regular expressions: `{key}` is replaced literally. Keys with regex metacharacters and `$`-patterns in values are not modelled. Variables are an ordered list of string bindings, which stands for the order of `Object.entries`. Absent variables are the empty list, and `String(value)` is the value itself.
- Tests.CalculateResults: requires at least one question. With none, the source divides 0 by 0 and the NaN score is refused by the store; `TestSubmit.Submit` models that as an InvalidData failure before grading, with a message of its own.
- Tests.GenerateQuestions: a template without instances is modelled as an InvalidData failure. In the source it is a TypeError on the undefined instance.
- UserCourses.GetAll: requires page ≥ 1 and limit ≥ 1. The source forwards other values to the store, which refuses a negative skip; a limit of 0 makes totalPages infinite or NaN. Items leave out the joined `course` record.
- UserCourses.Update: the update may set completedSections and lastAccessed only, with completedSections a natural number. The source's `Partial<UserCourse>` also admits the key columns and negative integers.
- Users.GetProfile: the `Settings` relation is not part of this model.
- Users.TopUsers: users with equal points come out in an order the model does not specify, but the same one for the same table, where the database may differ between requests. Only single requests are modelled.
- UserCourses.GetAll: models the corrected query (see Findings), with the course ids compared by character code. The database's collation may order text differently; any total order on course ids gives the same properties.
- `grantAchievement` of the achievement service is not part of this model. It is modelled as insertion into the set of grants, matching the unique (user, achievement) pair.
- FamilyCourses.ChildCourses: `isUserInFamily` of the family service is not part of this model. It is modelled as the existence of a membership row for the family and the child.
- FamilyCourses.AvailableChildren: `getFamilyById` is not part of this model. The family's members, with their roles and in the order it returns them, are a parameter.
- FamilyCourses.CheckParentAndChild: `findFirst` without an order is modelled as the first row in table order. A membership whose user row is missing (impossible under the foreign key) counts as not a parent.
- FamilyCourses.ChildCourses: requires page ≥ 1 and limit ≥ 1, as UserCourses.GetAll, whose listing it returns.
- FamilyCourses.ChildCourses: returns the corrected page, whose tie order is fixed by course id; the source's `getAll` leaves ties to the store (see Findings). The corrected order is one the store may return (UserCourses.CorrectedIsStoreOrder).
- Tests.Generate: the new test's score 0 and empty results stand for the column defaults of the schema, which is not part of this model; the source writes neither.
- FamilyCourses.Create: a new enrolment starts with 0 completed sections and last access `now`, which is a parameter standing for the column defaults.
- UserApplications.Register: `ApplicationService.createMany` is not part of this model. It is modelled as inserting the packages that are not yet known, outside the transaction as in the source.
- UserApplications.ReplaceApps: new rows get isBlocked = false, the column default of the schema, which is not part of this model.
- UserApplications.GetByUserId, UserApplications.UpdateByUserId, UserApplications.UpdateBlockedStatus: require that every row refers to an existing application (the foreign key). UpdateByUserId is proved to preserve it.
- Courses.CourseById: course sections are carried inside the course record. An enrolment whose course is missing (impossible under the foreign key) yields none.
- Timestamps (`updatedAt`, the `orderBy: updatedAt` of the FIRST_STEP query) are left out; the rule only tests existence.
- Concurrency: races between the check and the insert in `create` and in the grants, and interleaved submissions, are outside a sequential model. Transactions are modelled only as the all-or-nothing outcome of `updateBlockedStatus`.
- Controllers, DTO validation, uploads, mail, `UserService.create` with argon2 hashing, and the user lookups outside the core (`getById`, `getByEmail`, `getAll`) are not modelled.
