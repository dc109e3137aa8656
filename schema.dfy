/** The tables the services read and write, as a store object whose fields are the tables.
    Each table is a map from its primary key to the row's remaining columns; columns the core
    never looks at are left out. */
module Schema {

  import opened Wrappers

  type UserId = string
  type CourseId = string
  type SectionId = string
  type TestId = string
  type FamilyId = string
  type PackageName = string

  /** The error the store raises when an update or delete targets a missing row. */
  const RecordNotFound := NotFound("Record to update not found.")

  datatype Role = PARENT | CHILD | Other

  /** A `user` row (keyed by userId). */
  datatype User = User(
    username: string,
    email: string,
    password: string,
    role: Role,
    points: int,
    imageUrl: string,
    isVerified: bool)

  /** A `course` row (keyed by courseId), with its section ids. */
  datatype Course = Course(title: string, sections: seq<SectionId>)

  /** A `user_course` row (keyed by the pair (userId, courseId)): the enrolment's progress. */
  datatype UserCourse = UserCourse(completedSections: nat, lastAccessed: int)

  /** One (name, value) entry of a question instance's variables. */
  datatype Binding = Binding(key: string, value: string)

  /** A concrete variant of a question template. */
  datatype QuestionInstance = QuestionInstance(
    instanceId: string,
    variables: seq<Binding>,
    answerOptions: seq<string>,
    correctAnswer: string)

  /** An authored question shell whose text may hold `{key}` placeholders. */
  datatype QuestionTemplate = QuestionTemplate(
    templateId: string,
    text: string,
    explanation: Option<string>,
    instances: seq<QuestionInstance>)

  /** A section with its ordered question templates. */
  datatype Section = Section(sectionId: SectionId, courseId: CourseId, questionTemplates: seq<QuestionTemplate>)

  /** A question as materialised into a test: a copy, not a reference, of the template and instance. */
  datatype Question = Question(
    templateId: string,
    instanceId: string,
    text: string,
    explanation: Option<string>,
    answerOptions: seq<string>,
    correctAnswer: string)

  /** One submitted answer. */
  datatype Answer = Answer(instanceId: string, userAnswer: Option<string>)

  /** The grading record of one question. */
  datatype QuestionResult = QuestionResult(text: string, correctAnswer: string, userAnswer: Option<string>)

  datatype TestStatus = PENDING | PASSED | FAILED

  /** A `test` row (keyed by testId). */
  datatype Test = Test(
    userId: UserId,
    courseId: CourseId,
    sectionId: SectionId,
    questions: seq<Question>,
    status: TestStatus,
    score: int,
    results: seq<QuestionResult>)

  datatype Achievement = FIRST_STEP | PERFECT_SCORE | READY_FOR_NEXT_LEVEL | MARATHON_KNOWLEDGE

  /** A `user_achievement` row: its existence means the achievement is granted. */
  datatype Grant = Grant(userId: UserId, achievement: Achievement)

  /** A `family_member` row. */
  datatype FamilyMember = FamilyMember(familyId: FamilyId, userId: UserId)

  /** The store: one field per table. */
  class Db {
    var users: map<UserId, User>
    var courses: map<CourseId, Course>
    var userCourses: map<(UserId, CourseId), UserCourse>
    var tests: map<TestId, Test>
    var granted: set<Grant>
    var familyMembers: seq<FamilyMember>
    /** The `application` table: package name to application name. */
    var applications: map<PackageName, string>
    /** The `user_application` table: (userId, packageName) to isBlocked. */
    var userApps: map<(UserId, PackageName), bool>

    constructor ()
      ensures users == map[] && courses == map[] && userCourses == map[] && tests == map[]
      ensures granted == {} && familyMembers == [] && applications == map[] && userApps == map[]
    {
      users, courses, userCourses, tests := map[], map[], map[], map[];
      granted, familyMembers, applications, userApps := {}, [], map[], map[];
    }
  }
}
