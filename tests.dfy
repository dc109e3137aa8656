/** The test service: question generation, test creation and lookup, and grading
    (src/test/test.service.ts). Submission, which also drives progress, points and
    achievements, is in module TestSubmit. */
module Tests {
  import opened Wrappers
  import opened Schema
  import Text
  import Arith
  import Query

  /** A score of at least this many percent passes a test. */
  const PassScore := 85

  /** `get`: the test with this id, or NotFound. */
  function Get(tests: map<TestId, Test>, testId: TestId): (r: Result<Test>)
    ensures r.Success? <==> testId in tests
    ensures r.Success? ==> r.value == tests[testId]
    ensures r.Failure? ==> r.error == NotFound("Test not found")
  {
    if testId in tests then Success(tests[testId]) else Failure(NotFound("Test not found"))
  }

  // ---------------------------------------------------------------------------------------
  // Question generation

  /** The placeholder a variable's value is substituted for. */
  function Token(key: string): (t: string)
    ensures |t| == |key| + 2 && t[0] == '{'
  {
    "{" + key + "}"
  }

  /** The text after substituting each binding in turn, in the order of the bindings. */
  function Substitute(text: string, vars: seq<Binding>): string
    decreases |vars|
  {
    if vars == [] then text
    else
      var last := vars[|vars| - 1];
      Text.ReplaceAll(Substitute(text, vars[..|vars| - 1]), Token(last.key), last.value)
  }

  /** A missing explanation stays missing; a present one gets the same substitution as the text. */
  function SubstituteExplanation(explanation: Option<string>, vars: seq<Binding>): Option<string>
  {
    match explanation
    case None => None
    case Some(e) => Some(Substitute(e, vars))
  }

  /** The question generated from a template with the chosen instance. */
  function Materialize(template: QuestionTemplate, instance: QuestionInstance): Question
  {
    Question(
      template.templateId,
      instance.instanceId,
      Substitute(template.text, instance.variables),
      SubstituteExplanation(template.explanation, instance.variables),
      instance.answerOptions,
      instance.correctAnswer)
  }

  /** The substitution loop of `generateQuestions` for one template and its chosen instance. */
  method ResolveText(template: QuestionTemplate, instance: QuestionInstance)
    returns (text: string, explanation: Option<string>)
    ensures text == Substitute(template.text, instance.variables)
    ensures explanation == SubstituteExplanation(template.explanation, instance.variables)
  {
    var vars := instance.variables;
    text := template.text;
    explanation := template.explanation;
    for i := 0 to |vars|
      invariant text == Substitute(template.text, vars[..i])
      invariant explanation == SubstituteExplanation(template.explanation, vars[..i])
    {
      assert vars[..i + 1][..i] == vars[..i];
      var re := Token(vars[i].key);
      text := Text.ReplaceAll(text, re, vars[i].value);
      // only a non-empty explanation is rewritten; the empty one is unaffected anyway
      if explanation.Some? && explanation.value != "" {
        explanation := Some(Text.ReplaceAll(explanation.value, re, vars[i].value));
      }
    }
    assert vars[..|vars|] == vars;
  }

  /** `generateQuestions`: one question per template, in template order, from the instance
      the random draw picked (`choices[i]` for template i). A template without instances
      makes the source crash on the undefined instance. */
  method GenerateQuestions(templates: seq<QuestionTemplate>, choices: seq<nat>)
    returns (r: Result<seq<Question>>)
    requires |choices| == |templates|
    requires forall i :: 0 <= i < |templates| && |templates[i].instances| > 0 ==>
               choices[i] < |templates[i].instances|
    ensures r.Success? <==> forall i :: 0 <= i < |templates| ==> |templates[i].instances| > 0
    ensures r.Success? ==> |r.value| == |templates|
    ensures r.Success? ==> forall i :: 0 <= i < |templates| ==>
              r.value[i] == Materialize(templates[i], templates[i].instances[choices[i]])
    ensures r.Failure? ==> r.error.InvalidData?
  {
    var questions := [];
    for i := 0 to |templates|
      invariant |questions| == i
      invariant forall k :: 0 <= k < i ==> |templates[k].instances| > 0
      invariant forall k :: 0 <= k < i ==>
                  questions[k] == Materialize(templates[k], templates[k].instances[choices[k]])
    {
      var template := templates[i];
      if |template.instances| == 0 {
        return Failure(InvalidData("Cannot read properties of undefined (reading 'variables')"));
      }
      var instance := template.instances[choices[i]];
      var text, explanation := ResolveText(template, instance);
      questions := questions + [Question(template.templateId, instance.instanceId, text, explanation,
                                         instance.answerOptions, instance.correctAnswer)];
    }
    return Success(questions);
  }

  /** A text without any `{` is left as it is, whatever the bindings. */
  lemma {:induction false} SubstituteWithoutPlaceholders(text: string, vars: seq<Binding>)
    requires '{' !in text
    ensures Substitute(text, vars) == text
    decreases |vars|
  {
    if vars != [] {
      var last := vars[|vars| - 1];
      SubstituteWithoutPlaceholders(text, vars[..|vars| - 1]);
      var p := Token(last.key);
      forall i ensures !Text.OccursAt(text, p, i) {
        if 0 <= i && i + |p| <= |text| {
          assert text[i..i + |p|][0] == text[i];
        }
      }
      Text.ReplaceAllAbsent(text, p, last.value);
    }
  }

  /** A `{key}` token whose key holds no `{` cannot start inside a piece that does not
      contain the token: one reaching into the token after the piece would need a `{`
      inside that token. */
  lemma TokenSeparated(piece: string, key: string)
    requires '{' !in key
    requires forall i :: !Text.OccursAt(piece, Token(key), i)
    ensures Text.Separated(piece, Token(key))
  {
    var p := Token(key);
    forall i | 0 <= i < |piece| ensures !Text.OccursAt(piece + p, p, i) {
      if i + |p| <= |piece| {
        Text.OccursAtPrefix(piece, p, p, i);
      } else if i + |p| <= |piece + p| {
        var j := |piece| - i;
        assert (piece + p)[i..i + |p|][j] == '{';
        assert p[j] != '{' by {
          if j < |p| - 1 {
            assert p[j] == key[j - 1];
          }
        }
      }
    }
  }

  /** Every placeholder of a single-variable text is substituted: pieces that do not contain
      the `{key}` token, joined by it, become the same pieces joined by the value. */
  lemma SubstituteSingle(pieces: seq<string>, key: string, value: string)
    requires |pieces| > 0 && '{' !in key
    requires forall k, i :: 0 <= k < |pieces| ==> !Text.OccursAt(pieces[k], Token(key), i)
    ensures Substitute(Text.Join(pieces, Token(key)), [Binding(key, value)]) == Text.Join(pieces, value)
  {
    var vars := [Binding(key, value)];
    assert vars[..0] == [];
    forall k | 0 <= k < |pieces| ensures Text.Separated(pieces[k], Token(key)) {
      TokenSeparated(pieces[k], key);
    }
    Text.ReplaceAllJoin(pieces, Token(key), value);
  }

  /** A question text seen as a template: literal text and `{key}` placeholders. */
  datatype Segment = Lit(text: string) | Slot(key: string)

  function RenderSegment(s: Segment): string
  {
    match s
    case Lit(text) => text
    case Slot(key) => Token(key)
  }

  /** The text a template spells out. */
  function Render(segs: seq<Segment>): string
  {
    if segs == [] then "" else RenderSegment(segs[0]) + Render(segs[1..])
  }

  /** A variable name without braces. */
  predicate PlainKey(key: string)
  {
    '{' !in key && '}' !in key
  }

  /** Literal text holds no `{` and placeholder names hold no braces. */
  predicate WellFormed(segs: seq<Segment>)
  {
    forall s :: s in segs ==> match s
                               case Lit(text) => '{' !in text
                               case Slot(key) => PlainKey(key)
  }

  /** The value of the first binding of the variable, if any. */
  function Lookup(vars: seq<Binding>, key: string): (r: Option<string>)
    ensures r.None? <==> forall b :: b in vars ==> b.key != key
  {
    match Query.FirstIndex(vars, (b: Binding) => b.key == key)
    case None => None
    case Some(i) => Some(vars[i].value)
  }

  /** The template with every placeholder of the binding's variable filled with its value. */
  function Fill(segs: seq<Segment>, b: Binding): (r: seq<Segment>)
    ensures |r| == |segs|
  {
    seq(|segs|, i requires 0 <= i < |segs| => if segs[i] == Slot(b.key) then Lit(b.value) else segs[i])
  }

  /** The template after filling with each binding in turn. */
  function FillAll(segs: seq<Segment>, vars: seq<Binding>): (r: seq<Segment>)
    ensures |r| == |segs|
    decreases |vars|
  {
    if vars == [] then segs
    else Fill(FillAll(segs, vars[..|vars| - 1]), vars[|vars| - 1])
  }

  /** The first binding of a variable is found among the earlier bindings, if it is there. */
  lemma LookupAppend(init: seq<Binding>, last: Binding, key: string)
    ensures Lookup(init + [last], key) ==
              if Lookup(init, key).Some? then Lookup(init, key)
              else if last.key == key then Some(last.value)
              else None
  {
    var s := init + [last];
    var p := (b: Binding) => b.key == key;
    var r0 := Query.FirstIndex(init, p);
    var r := Query.FirstIndex(s, p);
    assert forall j :: 0 <= j < |init| ==> s[j] == init[j];
    assert s[|init|] == last;
    if r0.Some? {
      assert p(s[r0.value]);
      assert r.Some? && r.value <= r0.value;
      assert r == r0;
    } else if last.key == key {
      assert r == Some(|init|);
    } else {
      assert r.None?;
    }
  }

  /** A placeholder name is never mistaken for another: the token of one plain name does
      not start anywhere inside the token of a different one. */
  lemma TokenCopied(key: string, other: string, rest: string)
    requires PlainKey(key) && PlainKey(other) && key != other
    ensures forall i :: 0 <= i < |Token(key)| ==> !Text.OccursAt(Token(key) + rest, Token(other), i)
  {
    var t := Token(key);
    var p := Token(other);
    var s := t + rest;
    forall i | 0 <= i < |t| ensures !Text.OccursAt(s, p, i) {
      if i + |p| <= |s| {
        if i > 0 {
          assert s[i..i + |p|][0] == t[i];
          if i < |t| - 1 {
            assert t[i] == key[i - 1];
          }
        } else if |other| == |key| {
          assert s[..|p|] == t;
          assert t[1..|t| - 1] == key && p[1..|p| - 1] == other;
        } else if |other| < |key| {
          assert s[..|p|][|p| - 1] == key[|other|];
        } else {
          assert s[..|p|][|t| - 1] == '}';
          assert p[|t| - 1] == other[|key|];
        }
      }
    }
  }

  /** Substituting one binding in the text of a template is filling its placeholders. */
  lemma {:induction false} ReplaceRendered(segs: seq<Segment>, b: Binding)
    requires WellFormed(segs) && PlainKey(b.key)
    ensures Text.ReplaceAll(Render(segs), Token(b.key), b.value) == Render(Fill(segs, b))
    decreases |segs|
  {
    var p := Token(b.key);
    if segs == [] {
      assert Fill(segs, b) == [];
    } else {
      var rest := Render(segs[1..]);
      assert forall s :: s in segs[1..] ==> s in segs;
      ReplaceRendered(segs[1..], b);
      assert Fill(segs, b)[1..] == Fill(segs[1..], b);
      assert Render(segs) == RenderSegment(segs[0]) + rest;
      assert segs[0] in segs;
      match segs[0]
      case Lit(text) =>
        forall i | 0 <= i < |text| ensures !Text.OccursAt(text + rest, p, i) {
          if i + |p| <= |text + rest| {
            assert (text + rest)[i..i + |p|][0] == text[i];
          }
        }
        Text.ReplaceAllCopiesPlain(text, rest, p, b.value);
      case Slot(key) =>
        if key == b.key {
          Text.ReplaceAllLeading(rest, p, b.value);
        } else {
          TokenCopied(key, b.key, rest);
          Text.ReplaceAllCopiesPlain(Token(key), rest, p, b.value);
        }
    }
  }

  /** Filling with a value without `{` keeps a template well formed. */
  lemma FillWellFormed(segs: seq<Segment>, b: Binding)
    requires WellFormed(segs) && '{' !in b.value
    ensures WellFormed(Fill(segs, b))
  {
    var r := Fill(segs, b);
    forall s | s in r ensures match s
                              case Lit(text) => '{' !in text
                              case Slot(key) => PlainKey(key)
    {
      var i :| 0 <= i < |r| && r[i] == s;
      assert segs[i] in segs;
    }
  }

  /** Substituting every binding in the text of a template is filling it with every binding,
      provided variable names hold no braces and values no `{`. */
  lemma {:induction false} SubstituteTemplate(segs: seq<Segment>, vars: seq<Binding>)
    requires WellFormed(segs)
    requires forall b :: b in vars ==> PlainKey(b.key) && '{' !in b.value
    ensures WellFormed(FillAll(segs, vars))
    ensures Substitute(Render(segs), vars) == Render(FillAll(segs, vars))
    decreases |vars|
  {
    if vars != [] {
      var init := vars[..|vars| - 1];
      var last := vars[|vars| - 1];
      assert forall b :: b in init ==> b in vars;
      assert last in vars;
      SubstituteTemplate(segs, init);
      ReplaceRendered(FillAll(segs, init), last);
      FillWellFormed(FillAll(segs, init), last);
    }
  }

  /** Each placeholder ends up holding the value of the first binding of its variable, and
      stays a placeholder when its variable has no binding; literal text is kept. */
  lemma {:induction false} FillAllAt(segs: seq<Segment>, vars: seq<Binding>, i: nat)
    requires i < |segs|
    ensures FillAll(segs, vars)[i] ==
              match segs[i]
              case Lit(_) => segs[i]
              case Slot(key) => if Lookup(vars, key).Some? then Lit(Lookup(vars, key).value) else segs[i]
    decreases |vars|
  {
    if vars != [] {
      var init := vars[..|vars| - 1];
      var last := vars[|vars| - 1];
      FillAllAt(segs, init, i);
      assert vars == init + [last];
      if segs[i].Slot? {
        LookupAppend(init, last, segs[i].key);
      }
    }
  }

  /** A well-formed template with no placeholder left spells a text without `{`. */
  lemma {:induction false} RenderPlain(segs: seq<Segment>)
    requires WellFormed(segs)
    requires forall i :: 0 <= i < |segs| ==> segs[i].Lit?
    ensures '{' !in Render(segs)
    decreases |segs|
  {
    if segs != [] {
      assert segs[0] in segs;
      assert forall s :: s in segs[1..] ==> s in segs;
      RenderPlain(segs[1..]);
    }
  }

  /** Once every variable of a well-formed template is bound, the substituted text holds no
      placeholder of any variable: no `{` is left. */
  lemma NoPlaceholderLeft(segs: seq<Segment>, vars: seq<Binding>)
    requires WellFormed(segs)
    requires forall b :: b in vars ==> PlainKey(b.key) && '{' !in b.value
    requires forall i :: 0 <= i < |segs| && segs[i].Slot? ==> Lookup(vars, segs[i].key).Some?
    ensures '{' !in Substitute(Render(segs), vars)
    ensures forall b, i :: b in vars ==> !Text.OccursAt(Substitute(Render(segs), vars), Token(b.key), i)
  {
    SubstituteTemplate(segs, vars);
    var filled := FillAll(segs, vars);
    forall i | 0 <= i < |filled| ensures filled[i].Lit? {
      FillAllAt(segs, vars, i);
    }
    RenderPlain(filled);
    var text := Substitute(Render(segs), vars);
    forall b, i | b in vars ensures !Text.OccursAt(text, Token(b.key), i) {
      if 0 <= i && i + |Token(b.key)| <= |text| {
        assert text[i..i + |Token(b.key)|][0] == text[i];
      }
    }
  }

  // ---------------------------------------------------------------------------------------
  // Test creation and listing

  /** `generate`: stores a new PENDING test for the section's questions under a fresh id. */
  method Generate(db: Db, section: Section, userId: UserId, testId: TestId, choices: seq<nat>)
    returns (r: Result<Test>)
    requires testId !in db.tests
    requires |choices| == |section.questionTemplates|
    requires forall i :: 0 <= i < |section.questionTemplates| && |section.questionTemplates[i].instances| > 0 ==>
               choices[i] < |section.questionTemplates[i].instances|
    modifies db`tests
    ensures r.Success? <==> forall i :: 0 <= i < |section.questionTemplates| ==> |section.questionTemplates[i].instances| > 0
    ensures r.Success? ==> db.tests == old(db.tests)[testId := r.value]
    ensures r.Success? ==> r.value.status == PENDING && r.value.score == 0 && r.value.results == []
    ensures r.Success? ==> r.value.userId == userId && r.value.courseId == section.courseId
                           && r.value.sectionId == section.sectionId
    ensures r.Success? ==> |r.value.questions| == |section.questionTemplates|
    ensures r.Success? ==> forall i :: 0 <= i < |section.questionTemplates| ==>
              r.value.questions[i] == Materialize(section.questionTemplates[i],
                                                  section.questionTemplates[i].instances[choices[i]])
    ensures r.Failure? ==> db.tests == old(db.tests)
  {
    var questions := GenerateQuestions(section.questionTemplates, choices);
    if questions.Failure? {
      return Failure(questions.error);
    }
    var test := Test(userId, section.courseId, section.sectionId, questions.value, PENDING, 0, []);
    db.tests := db.tests[testId := test];
    return Success(test);
  }

  /** The columns `getAll` selects from a test. */
  datatype TestSummary = TestSummary(
    testId: TestId,
    results: seq<QuestionResult>,
    status: TestStatus,
    score: int,
    sectionId: SectionId,
    userId: UserId)

  /** `getAll`: the user's tests that have been submitted. */
  function CompletedTests(tests: map<TestId, Test>, userId: UserId): (r: map<TestId, TestSummary>)
    ensures forall id :: id in r <==> id in tests && tests[id].userId == userId && tests[id].status != PENDING
    ensures forall id :: id in r ==>
              r[id] == TestSummary(id, tests[id].results, tests[id].status, tests[id].score, tests[id].sectionId, userId)
  {
    map id | id in tests && tests[id].userId == userId && tests[id].status != PENDING ::
      var t := tests[id];
      TestSummary(id, t.results, t.status, t.score, t.sectionId, t.userId)
  }

  /** Creating a PENDING test leaves every user's list of completed tests as it was. */
  lemma PendingTestNotListed(tests: map<TestId, Test>, testId: TestId, t: Test, userId: UserId)
    requires testId !in tests && t.status == PENDING
    ensures CompletedTests(tests[testId := t], userId) == CompletedTests(tests, userId)
  {
    var a, b := CompletedTests(tests[testId := t], userId), CompletedTests(tests, userId);
    assert a.Keys == b.Keys;
  }

  // ---------------------------------------------------------------------------------------
  // Grading

  /** The index of the first answer for this instance, if any. */
  function FirstAnswer(answers: seq<Answer>, instanceId: string): (r: Option<nat>)
    ensures r.Some? ==> r.value < |answers| && answers[r.value].instanceId == instanceId
    ensures r.Some? ==> forall j :: 0 <= j < r.value ==> answers[j].instanceId != instanceId
    ensures r.None? ==> forall j :: 0 <= j < |answers| ==> answers[j].instanceId != instanceId
  {
    Query.FirstIndex(answers, (a: Answer) => a.instanceId == instanceId)
  }

  /** The user's answer to a question: that of the first answer with its instance id, or
      none when no answer has it. */
  function UserAnswer(answers: seq<Answer>, instanceId: string): Option<string>
  {
    match FirstAnswer(answers, instanceId)
    case None => None
    case Some(k) => answers[k].userAnswer
  }

  /** The grading records of a question list, as `calculateResults` builds them. */
  function Results(questions: seq<Question>, answers: seq<Answer>): (r: seq<QuestionResult>)
    ensures |r| == |questions|
  {
    seq(|questions|, i requires 0 <= i < |questions| =>
      QuestionResult(questions[i].text, questions[i].correctAnswer, UserAnswer(answers, questions[i].instanceId)))
  }

  /** The score of a non-empty question list. */
  function Score(questions: seq<Question>, answers: seq<Answer>): (score: nat)
    requires |questions| > 0
    ensures score <= 100
  {
    RoundedPercent(CorrectCount(questions, answers), |questions|)
  }

  predicate IsCorrect(q: Question, answers: seq<Answer>)
  {
    UserAnswer(answers, q.instanceId) == Some(q.correctAnswer)
  }

  /** The number of correctly answered questions. */
  function CorrectCount(questions: seq<Question>, answers: seq<Answer>): (c: nat)
    ensures c <= |questions|
    decreases |questions|
  {
    if questions == [] then 0
    else
      var n := |questions| - 1;
      CorrectCount(questions[..n], answers) + (if IsCorrect(questions[n], answers) then 1 else 0)
  }

  /** `Math.round(correct / total * 100)` in exact arithmetic: the percentage rounded half up. */
  function RoundedPercent(correct: nat, total: nat): (score: nat)
    requires correct <= total && total > 0
    ensures 2 * total * score <= 200 * correct + total < 2 * total * (score + 1)
    ensures score <= 100
    ensures correct == total ==> score == 100
    ensures correct == 0 ==> score == 0
  {
    var n, d := 200 * correct + total, 2 * total;
    var q := n / d;
    Arith.DivBounds(n, d);
    assert d * (q + 1) == d * q + d;
    Arith.CancelLess(d, q, 101);
    Arith.CancelLess(d, 100, q + 1);
    Arith.CancelLess(d, q, 1);
    q
  }

  function StatusFor(score: int): TestStatus
  {
    if score >= PassScore then PASSED else FAILED
  }

  /** `calculateResults`: one grading record per question, in question order, the rounded
      percentage of correct answers, and the status it earns. */
  method CalculateResults(questions: seq<Question>, answers: seq<Answer>)
    returns (results: seq<QuestionResult>, score: int, status: TestStatus)
    requires |questions| > 0
    ensures |results| == |questions|
    ensures forall i :: 0 <= i < |questions| ==>
              results[i] == QuestionResult(questions[i].text, questions[i].correctAnswer,
                                           UserAnswer(answers, questions[i].instanceId))
    ensures results == Results(questions, answers)
    ensures score == RoundedPercent(CorrectCount(questions, answers), |questions|)
    ensures status == StatusFor(score)
  {
    var correctCount := 0;
    var total := |questions|;
    results := [];
    for i := 0 to total
      invariant |results| == i
      invariant forall k :: 0 <= k < i ==>
                  results[k] == QuestionResult(questions[k].text, questions[k].correctAnswer,
                                               UserAnswer(answers, questions[k].instanceId))
      invariant correctCount == CorrectCount(questions[..i], answers)
    {
      var question := questions[i];
      var userAnswer := UserAnswer(answers, question.instanceId);
      if userAnswer == Some(question.correctAnswer) {
        correctCount := correctCount + 1;
      }
      assert questions[..i + 1][..i] == questions[..i];
      results := results + [QuestionResult(question.text, question.correctAnswer, userAnswer)];
    }
    assert questions[..total] == questions;
    score := (200 * correctCount + total) / (2 * total);
    status := if score >= PassScore then PASSED else FAILED;
  }

  /** A test passes exactly when at least 84.5% of its questions are answered correctly. */
  lemma PassedIff(correct: nat, total: nat)
    requires correct <= total && total > 0
    ensures StatusFor(RoundedPercent(correct, total)) == PASSED <==> 200 * correct >= 169 * total
  {
    var score := RoundedPercent(correct, total);
    Arith.CancelLess(2 * total, 84, score);
    Arith.CancelLess(2 * total, score, 85);
  }

  /** All questions answered correctly gives 100 and a pass. */
  lemma {:induction false} AllCorrectPasses(questions: seq<Question>, answers: seq<Answer>)
    requires |questions| > 0
    requires forall i :: 0 <= i < |questions| ==> IsCorrect(questions[i], answers)
    ensures CorrectCount(questions, answers) == |questions|
    ensures RoundedPercent(CorrectCount(questions, answers), |questions|) == 100
    ensures StatusFor(RoundedPercent(CorrectCount(questions, answers), |questions|)) == PASSED
  {
    AllCorrectCount(questions, answers);
  }

  lemma {:induction false} AllCorrectCount(questions: seq<Question>, answers: seq<Answer>)
    requires forall i :: 0 <= i < |questions| ==> IsCorrect(questions[i], answers)
    ensures CorrectCount(questions, answers) == |questions|
    decreases |questions|
  {
    if questions != [] {
      AllCorrectCount(questions[..|questions| - 1], answers);
    }
  }

  /** The positions of the questions answered correctly. */
  function CorrectIndices(questions: seq<Question>, answers: seq<Answer>): set<nat>
  {
    set i: nat | i < |questions| && IsCorrect(questions[i], answers)
  }

  /** The positions of the questions whose first matching answer carries a value. */
  function AnsweredIndices(questions: seq<Question>, answers: seq<Answer>): set<nat>
  {
    set i: nat | i < |questions| && UserAnswer(answers, questions[i].instanceId).Some?
  }

  /** The correctly answered positions of a list are those of the list without its last
      question, plus the last position when that question is answered correctly. */
  lemma CorrectIndicesLast(questions: seq<Question>, answers: seq<Answer>)
    requires |questions| > 0
    ensures var n := |questions| - 1;
            CorrectIndices(questions, answers) ==
              CorrectIndices(questions[..n], answers) + (if IsCorrect(questions[n], answers) then {n} else {})
    ensures |questions| - 1 !in CorrectIndices(questions[..|questions| - 1], answers)
  {
    var n := |questions| - 1;
    forall i: nat | i < n ensures questions[..n][i] == questions[i] {
    }
  }

  /** The correct count is the number of questions answered correctly, each counted once. */
  lemma {:induction false} CorrectCountCounts(questions: seq<Question>, answers: seq<Answer>)
    ensures CorrectCount(questions, answers) == |CorrectIndices(questions, answers)|
    decreases |questions|
  {
    if questions != [] {
      var n := |questions| - 1;
      CorrectCountCounts(questions[..n], answers);
      CorrectIndicesLast(questions, answers);
    }
  }

  /** A question counts as correct only when its first matching answer carries a value: one
      without a matching answer, or whose first match has no value, never counts, so the
      correct count is at most the number of answered questions. */
  lemma UnansweredNeverCount(questions: seq<Question>, answers: seq<Answer>)
    ensures CorrectIndices(questions, answers) <= AnsweredIndices(questions, answers)
    ensures CorrectCount(questions, answers) <= |AnsweredIndices(questions, answers)|
  {
    CorrectCountCounts(questions, answers);
    Query.SubsetCardinality(CorrectIndices(questions, answers), AnsweredIndices(questions, answers));
  }

  /** With no answer for any question's instance the count is 0, so the score is 0 and the
      test fails. */
  lemma {:induction false} NothingAnsweredScoresZero(questions: seq<Question>, answers: seq<Answer>)
    requires forall i, j :: 0 <= i < |questions| && 0 <= j < |answers| ==>
               answers[j].instanceId != questions[i].instanceId
    ensures CorrectCount(questions, answers) == 0
    decreases |questions|
  {
    if questions != [] {
      var n := |questions| - 1;
      assert FirstAnswer(answers, questions[n].instanceId).None?;
      NothingAnsweredScoresZero(questions[..n], answers);
    }
  }
}
