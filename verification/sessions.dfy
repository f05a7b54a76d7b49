/** The game-session routes: starting a session, viewing its progress,
    submitting an answer (the session's state machine) and the game-master
    listing. Each handler is a function from the store and the request to the
    reply and the store it leaves behind. */
module Sessions {
  import opened Wrappers
  import opened Seqs
  import opened Text
  import opened UserHelpers
  import opened Model
  import opened Scoring
  import opened Provider
  import opened Database

  /** `xs[i]` in JavaScript: `undefined` outside the array. */
  function At(xs: seq<string>, i: int): (r: Option<string>)
    ensures r.Some? <==> 0 <= i < |xs|
    ensures r.Some? ==> r.value == xs[i]
  {
    if 0 <= i < |xs| then Some(xs[i]) else None
  }

  // ---------------------------------------------------------------------------
  // Progress, shared by the view and by answer submission

  datatype Progress = Progress(
    questionsAnswered: nat,
    totalQuestions: nat,
    currentScore: int,
    totalPossibleScore: int,
    questionsRemaining: int)

  /** The score loop both handlers run over the session's questions and answers. */
  function Tally(qs: seq<Question>, answers: seq<UserAnswer>): (p: Progress)
    ensures p.questionsAnswered == |answers| && p.totalQuestions == |qs|
    ensures p.currentScore == TotalScore(Filter(qs, (q: Question) => AnsweredCorrectly(answers, q)))
    ensures p.totalPossibleScore == TotalScore(qs)
    ensures p.questionsRemaining == p.totalQuestions - p.questionsAnswered
  {
    EarnedIsScoreOfCorrect(qs, answers);
    Progress(|answers|, |qs|, EarnedScore(qs, answers), TotalScore(qs), |qs| - |answers|)
  }

  // ---------------------------------------------------------------------------
  // POST /sessions

  datatype CreateRequest = CreateRequest(userId: Json, timeLimit: Json)

  datatype CreateError =
    | UserIdRequired
    | InvalidUserIdFormat
    | UserNotFound
    | InvalidTimeLimit
    | UnableToCreate(reason: DrawError)
    | CreateFailed   // the insert threw; the reply's status is assumed to be 500
  {
    function Code(): nat
    {
      match this
      case UserNotFound => 404
      case CreateFailed => 500
      case _ => 400
    }
  }

  /** A selected question as the creation reply lists it: no correct answer. */
  datatype PublicQuestion = PublicQuestion(id: Id, category: string, prompt: string, answers: seq<string>, score: int)

  datatype CreatedSession = CreatedSession(
    sessionId: Id,
    userId: Id,
    status: Status,
    currentScore: int,
    questionsAnswered: int,
    totalQuestions: nat,
    questionsByCategory: map<string, nat>,
    questions: seq<PublicQuestion>,
    startedAt: Timestamp,
    timeLimit: Option<real>)

  function Publish(qs: seq<Question>): (r: seq<PublicQuestion>)
    ensures |r| == |qs|
    ensures forall i :: 0 <= i < |qs| ==>
      r[i] == PublicQuestion(qs[i].id, qs[i].category, qs[i].prompt, qs[i].answers, qs[i].score)
  {
    if qs == [] then []
    else [PublicQuestion(qs[0].id, qs[0].category, qs[0].prompt, qs[0].answers, qs[0].score)] + Publish(qs[1..])
  }

  /** The `reduce` over the drawn questions: how many fall in each category. */
  function CategorySummary(qs: seq<Question>): (m: map<string, nat>)
    ensures forall c :: c in m <==> |InCategory(qs, c)| > 0
    ensures forall c :: c in m ==> m[c] == |InCategory(qs, c)|
  {
    if qs == [] then map[]
    else
      var m := CategorySummary(qs[1..]);
      var c := qs[0].category;
      m[c := (if c in m then m[c] else 0) + 1]
  }

  /** Filtering by category splits over concatenation. */
  lemma {:induction false} InCategoryAppend(a: seq<Question>, b: seq<Question>, c: string)
    ensures InCategory(a + b, c) == InCategory(a, c) + InCategory(b, c)
  {
    if a == [] {
      assert a + b == b;
    } else {
      assert (a + b)[0] == a[0];
      assert (a + b)[1..] == a[1..] + b;
      InCategoryAppend(a[1..], b, c);
    }
  }

  /** The four category blocks of a session draw. */
  predicate SessionBlocks(v: seq<Question>)
  {
    && |v| == 16
    && (forall i :: 0 <= i < 4 ==> v[i].category == "Sports")
    && (forall i :: 4 <= i < 8 ==> v[i].category == "Science")
    && (forall i :: 8 <= i < 12 ==> v[i].category == "Music")
    && (forall i :: 12 <= i < 16 ==> v[i].category == "Technology")
  }

  /** Category `c`'s questions in a session draw are those of its blocks. */
  lemma BlocksCount(v: seq<Question>, c: string)
    requires |v| == 16
    ensures |InCategory(v, c)| ==
      |InCategory(v[..4], c)| + |InCategory(v[4..8], c)| + |InCategory(v[8..12], c)| + |InCategory(v[12..], c)|
  {
    assert v == v[..4] + v[4..8] + v[8..12] + v[12..];
    InCategoryAppend(v[..4] + v[4..8] + v[8..12], v[12..], c);
    InCategoryAppend(v[..4] + v[4..8], v[8..12], c);
    InCategoryAppend(v[..4], v[4..8], c);
  }

  /** How many questions of a session draw have category `c`. */
  lemma SessionCategoryCount(v: seq<Question>, c: string)
    requires SessionBlocks(v)
    ensures |InCategory(v, c)| ==
      if c == "Sports" || c == "Science" || c == "Music" || c == "Technology" then 4 else 0
  {
    BlocksCount(v, c);
    BlockCount(v[..4], "Sports", c);
    BlockCount(v[4..8], "Science", c);
    BlockCount(v[8..12], "Music", c);
    BlockCount(v[12..], "Technology", c);
  }

  /** A block whose questions all have category `x` counts wholly for `x` and
      not at all for any other category. */
  lemma BlockCount(a: seq<Question>, x: string, c: string)
    requires forall i :: 0 <= i < |a| ==> a[i].category == x
    ensures |InCategory(a, c)| == if x == c then |a| else 0
  {
    if x == c {
      FilterAll(a, (q: Question) => q.category == c);
    } else {
      FilterNone(a, (q: Question) => q.category == c);
    }
  }

  /** The summary is determined by the per-category counts. */
  lemma SummaryFromCounts(qs: seq<Question>, want: map<string, nat>)
    requires forall c :: c in want ==> want[c] > 0
    requires forall c :: |InCategory(qs, c)| == if c in want then want[c] else 0
    ensures CategorySummary(qs) == want
  {
    var m := CategorySummary(qs);
    assert m.Keys == want.Keys;
  }

  /** The category summary every session draw has. */
  const SessionCategoryCounts: map<string, nat> :=
    map["Sports" := 4, "Science" := 4, "Music" := 4, "Technology" := 4]

  /** The summary of a session draw reports four questions in each of the four categories. */
  lemma SessionDrawSummary(v: seq<Question>)
    requires SessionBlocks(v)
    ensures CategorySummary(v) == SessionCategoryCounts
  {
    var want := SessionCategoryCounts;
    forall c ensures |InCategory(v, c)| == if c in want then want[c] else 0 {
      SessionCategoryCount(v, c);
    }
    SummaryFromCounts(v, want);
  }

  /** `time_limit` is absent or a positive number. */
  predicate TimeLimitOk(j: Json)
  {
    j.Undefined? || (j.Num? && j.x > 0.0)
  }

  /** `time_limit || undefined` once it has been validated. */
  function TimeLimitOf(j: Json): Option<real>
  {
    if j.Num? && j.x > 0.0 then Some(j.x) else None
  }

  /** The caller names an existing user by a well-formed identifier. */
  predicate UserOk(st: Store, req: CreateRequest)
  {
    IsNonBlankString(req.userId) && IsValidUserId(req.userId.s) && req.userId.s in st.users
  }

  /** Some category of the session quota has too few questions for any draw. */
  predicate BankShort(bank: seq<Question>)
  {
    exists k :: 0 <= k < 4 && Underpopulated(bank, SessionQuota()[k])
  }

  /** The draw and the insert, once the request is valid. */
  function StartSession(st: Store, userId: Id, timeLimit: Option<real>, sessionId: Id, now: Timestamp,
                        shown: (string, nat) -> nat, stored: (string, nat) -> nat)
    : (r: Step<CreatedSession, CreateError>)
    ensures r.reply.Failure? ==> r.store == st
    ensures (r.reply.Failure? && r.reply.error.UnableToCreate?) <==> BankShort(st.questions)
    ensures r.reply == Failure(CreateFailed) <==> !BankShort(st.questions) && FindSession(st.sessions, sessionId).Some?
    ensures r.reply.Success? ==>
      GetRandomQuestionsByCategory(st.questions, SessionQuota(), stored).Success?
      && GetRandomQuestionsForSession(st.questions, shown).Success?
    ensures r.reply.Success? ==>
      var drawn := GetRandomQuestionsByCategory(st.questions, SessionQuota(), stored).value;
      var listed := GetRandomQuestionsForSession(st.questions, shown).value;
      && |drawn| == 16 && |listed| == 16
      && r.store == st.(sessions := [GameSession(sessionId, userId, InProgress, 0, 0, Ids(drawn), now,
                                                 timeLimit, None)] + st.sessions)
      && r.reply.value == CreatedSession(sessionId, userId, InProgress, 0, 0, 16,
                                         SessionCategoryCounts,
                                         Publish(listed), now, timeLimit)
  {
    match GetRandomQuestionsForSession(st.questions, shown)
    case Failure(e) => Step(Failure(UnableToCreate(e)), st)
    case Success(listed) => OpenSession(st, userId, timeLimit, sessionId, now, listed, stored)
  }

  /** `createGameSession` once the listed draw has succeeded: the stored draw
      succeeds too, so only a colliding id can fail. */
  function OpenSession(st: Store, userId: Id, timeLimit: Option<real>, sessionId: Id, now: Timestamp,
                       listed: seq<Question>, stored: (string, nat) -> nat)
    : (r: Step<CreatedSession, CreateError>)
    requires !BankShort(st.questions) && SessionBlocks(listed)
    ensures r.reply.Failure? ==> r.store == st && r.reply.error == CreateFailed
    ensures r.reply.Failure? <==> FindSession(st.sessions, sessionId).Some?
    ensures GetRandomQuestionsByCategory(st.questions, SessionQuota(), stored).Success?
    ensures r.reply.Success? ==>
      var drawn := GetRandomQuestionsByCategory(st.questions, SessionQuota(), stored).value;
      && |drawn| == 16
      && r.store == st.(sessions := [GameSession(sessionId, userId, InProgress, 0, 0, Ids(drawn), now,
                                                 timeLimit, None)] + st.sessions)
      && r.reply.value == CreatedSession(sessionId, userId, InProgress, 0, 0, 16, SessionCategoryCounts,
                                         Publish(listed), now, timeLimit)
  {
    SessionQuotaShape();
    SessionDrawSummary(listed);
    var created := CreateSession(st, userId, timeLimit, sessionId, now, stored);
    match created.reply
    case Failure(_) => Step(Failure(CreateFailed), st)
    case Success(s) =>
      Step(Success(CreatedSession(s.id, s.userId, s.status, s.currentScore, s.questionsAnswered,
                                  |listed|, CategorySummary(listed), Publish(listed),
                                  s.startedAt, s.timeLimit)),
           created.store)
  }

  /** `POST /sessions`. The reply lists the questions of one draw (`shown`);
      `createSession` makes a draw of its own (`stored`) for the session row,
      so the two lists agree in shape but need not be the same questions. */
  function CreateSessionRoute(st: Store, req: CreateRequest, sessionId: Id, now: Timestamp,
                              shown: (string, nat) -> nat, stored: (string, nat) -> nat)
    : (r: Step<CreatedSession, CreateError>)
    ensures r.reply.Failure? ==> r.store == st
    ensures r.reply == Failure(UserIdRequired) <==> !IsNonBlankString(req.userId)
    ensures r.reply == Failure(InvalidUserIdFormat) <==> IsNonBlankString(req.userId) && !IsValidUserId(req.userId.s)
    ensures r.reply == Failure(UserNotFound) <==>
      IsNonBlankString(req.userId) && IsValidUserId(req.userId.s) && req.userId.s !in st.users
    ensures r.reply == Failure(InvalidTimeLimit) <==> UserOk(st, req) && !TimeLimitOk(req.timeLimit)
    ensures (r.reply.Failure? && r.reply.error.UnableToCreate?) <==>
      UserOk(st, req) && TimeLimitOk(req.timeLimit) && BankShort(st.questions)
    ensures r.reply == Failure(CreateFailed) <==>
      UserOk(st, req) && TimeLimitOk(req.timeLimit) && !BankShort(st.questions)
      && FindSession(st.sessions, sessionId).Some?
    ensures r.reply.Success? ==>
      GetRandomQuestionsByCategory(st.questions, SessionQuota(), stored).Success?
      && GetRandomQuestionsForSession(st.questions, shown).Success?
    ensures r.reply.Success? ==>
      var drawn := GetRandomQuestionsByCategory(st.questions, SessionQuota(), stored).value;
      var listed := GetRandomQuestionsForSession(st.questions, shown).value;
      && |drawn| == 16 && |listed| == 16
      && r.store == st.(sessions := [GameSession(sessionId, req.userId.s, InProgress, 0, 0, Ids(drawn), now,
                                                 TimeLimitOf(req.timeLimit), None)] + st.sessions)
      && r.reply.value == CreatedSession(sessionId, req.userId.s, InProgress, 0, 0, 16,
                                         SessionCategoryCounts,
                                         Publish(listed), now, TimeLimitOf(req.timeLimit))
  {
    if !IsNonBlankString(req.userId) then Step(Failure(UserIdRequired), st)
    else if !IsValidUserId(req.userId.s) then Step(Failure(InvalidUserIdFormat), st)
    else if req.userId.s !in st.users then Step(Failure(UserNotFound), st)
    else if !TimeLimitOk(req.timeLimit) then Step(Failure(InvalidTimeLimit), st)
    else
      ValidUserIdIsTrimmed(req.userId.s);
      StartSession(st, Trim(req.userId.s), TimeLimitOf(req.timeLimit), sessionId, now, shown, stored)
  }

  /** Putting a row with an unused id in front keeps ids unique. */
  lemma PrependFreshKeepsUnique(ss: seq<GameSession>, s: GameSession)
    requires SessionIdsUnique(ss) && FindSession(ss, s.id).None?
    ensures SessionIdsUnique([s] + ss)
  {
    var t := [s] + ss;
    forall i, j | 0 <= i < j < |t|
      ensures t[i].id != t[j].id
    {
      assert t[j] == ss[j - 1];
      if i > 0 {
        assert t[i] == ss[i - 1];
      }
    }
  }

  /** Creating a session keeps session ids unique and adds nothing in use
      beyond the new session's own selection. */
  lemma CreateKeepsIdsUnique(st: Store, req: CreateRequest, sessionId: Id, now: Timestamp,
                             shown: (string, nat) -> nat, stored: (string, nat) -> nat)
    requires SessionIdsUnique(st.sessions)
    ensures SessionIdsUnique(CreateSessionRoute(st, req, sessionId, now, shown, stored).store.sessions)
  {
    var r := CreateSessionRoute(st, req, sessionId, now, shown, stored);
    if r.reply.Success? {
      PrependFreshKeepsUnique(st.sessions, r.store.sessions[0]);
    }
  }

  // ---------------------------------------------------------------------------
  // GET /sessions/:id

  /** What an answered question additionally shows. */
  datatype Outcome = Outcome(
    userAnswerIndex: int,
    userAnswer: Option<string>,
    isCorrect: bool,
    correctAnswerIndex: int,
    correctAnswer: Option<string>)

  datatype QuestionView = QuestionView(
    id: Id,
    category: string,
    prompt: string,
    answers: seq<string>,
    score: int,
    outcome: Option<Outcome>)

  datatype SessionView = SessionView(
    id: Id,
    userId: Id,
    status: Status,
    startedAt: Timestamp,
    timeLimit: Option<real>,
    completedAt: Option<Timestamp>,
    progress: Progress,
    questions: seq<QuestionView>)

  datatype ViewError = ViewIdRequired | ViewSessionNotFound
  {
    function Code(): nat
    {
      match this
      case ViewIdRequired => 400
      case ViewSessionNotFound => 404
    }
  }

  /** One question as the view shows it: the correct answer only once the
      session's earliest answer to it exists. */
  function ViewQuestion(q: Question, answers: seq<UserAnswer>): (v: QuestionView)
    ensures v.id == q.id && v.category == q.category && v.prompt == q.prompt
    ensures v.answers == q.answers && v.score == q.score
    ensures v.outcome.None? <==> AnswerFor(answers, q.id).None?
    ensures v.outcome.Some? ==>
      var a := AnswerFor(answers, q.id).value;
      var o := v.outcome.value;
      && o.userAnswerIndex == a.answerIndex && o.isCorrect == a.isCorrect
      && o.correctAnswerIndex == q.correctIndex
      && (o.userAnswer.Some? <==> 0 <= a.answerIndex < |q.answers|)
      && (o.correctAnswer.Some? <==> 0 <= q.correctIndex < |q.answers|)
  {
    var base := QuestionView(q.id, q.category, q.prompt, q.answers, q.score, None);
    match AnswerFor(answers, q.id)
    case None => base
    case Some(a) =>
      base.(outcome := Some(Outcome(a.answerIndex, At(q.answers, a.answerIndex), a.isCorrect,
                                  q.correctIndex, At(q.answers, q.correctIndex))))
  }

  function ViewQuestions(qs: seq<Question>, answers: seq<UserAnswer>): (r: seq<QuestionView>)
    ensures |r| == |qs|
    ensures forall i :: 0 <= i < |qs| ==> r[i] == ViewQuestion(qs[i], answers)
  {
    if qs == [] then [] else [ViewQuestion(qs[0], answers)] + ViewQuestions(qs[1..], answers)
  }

  /** `GET /sessions/:id`. Reading never changes the store. */
  function GetSessionRoute(st: Store, sessionId: string): (r: Result<SessionView, ViewError>)
    ensures r == Failure(ViewIdRequired) <==> IsBlank(sessionId)
    ensures r == Failure(ViewSessionNotFound) <==> !IsBlank(sessionId) && FindSession(st.sessions, sessionId).None?
    ensures r.Success? ==>
      var s := FindSession(st.sessions, sessionId).value;
      var qs := GetSessionQuestions(st, sessionId);
      var answers := AnswersForSession(st.answers, sessionId);
      var v := r.value;
      && v.id == s.id && v.userId == s.userId && v.status == s.status
      && v.startedAt == s.startedAt && v.timeLimit == s.timeLimit && v.completedAt == s.completedAt
      && v.progress == Tally(qs, answers)
      && |v.questions| == |qs|
      && (forall i :: 0 <= i < |qs| ==> v.questions[i].id == qs[i].id)
      && (forall i :: 0 <= i < |qs| ==>
            (v.questions[i].outcome.None? <==> AnswerFor(answers, qs[i].id).None?))
      && (forall i :: 0 <= i < |qs| && v.questions[i].outcome.Some? ==>
            var a := AnswerFor(answers, qs[i].id).value;
            var rv := v.questions[i].outcome.value;
            && rv.userAnswerIndex == a.answerIndex && rv.isCorrect == a.isCorrect
            && rv.correctAnswerIndex == qs[i].correctIndex)
  {
    if IsBlank(sessionId) then Failure(ViewIdRequired)
    else
      match FindSession(st.sessions, sessionId)
      case None => Failure(ViewSessionNotFound)
      case Some(s) =>
        var qs := GetSessionQuestions(st, sessionId);
        var answers := AnswersForSession(st.answers, sessionId);
        Success(SessionView(s.id, s.userId, s.status, s.startedAt, s.timeLimit, s.completedAt,
                            Tally(qs, answers), ViewQuestions(qs, answers)))
  }

  // ---------------------------------------------------------------------------
  // POST /sessions/:id/answer

  datatype AnswerRequest = AnswerRequest(
    sessionId: string,
    userId: Json,
    questionId: Json,
    answerIndex: Json)

  /** The rejections, in the order the handler tries them. */
  datatype SubmitError =
    | SessionIdRequired
    | UserIdMissing
    | QuestionIdMissing
    | BadAnswerIndex
    | SessionNotFound
    | AccessDenied
    | SessionNotActive
    | QuestionNotFound
    | QuestionNotInSession
    | AnswerIndexOutOfRange
    | AlreadyAnswered
  {
    function Code(): nat
    {
      match this
      case SessionNotFound => 404
      case QuestionNotFound => 404
      case AccessDenied => 403
      case AlreadyAnswered => 409
      case _ => 400
    }
  }

  datatype FinalResults = FinalResults(
    finalScore: int,
    totalPossibleScore: int,
    totalQuestions: nat,
    won: bool)

  datatype AnswerResult = AnswerResult(
    questionId: Id,
    yourAnswerIndex: int,
    yourAnswer: string,
    isCorrect: bool,
    correctAnswerIndex: int,
    correctAnswer: Option<string>,
    progress: Progress,
    sessionStatus: Status,
    gameComplete: bool,
    finalResults: Option<FinalResults>)

  /** The four request-shape checks, which need no store access. */
  predicate ShapeOk(req: AnswerRequest)
  {
    && !IsBlank(req.sessionId)
    && IsNonBlankString(req.userId)
    && IsNonBlankString(req.questionId)
    && IsNonNegativeInteger(req.answerIndex)
  }

  /** The requested index, once the shape checks hold. */
  function Index(req: AnswerRequest): int
    requires IsNonNegativeInteger(req.answerIndex)
  {
    req.answerIndex.x.Floor
  }

  /** The session exists, belongs to the caller and is still in progress. */
  predicate SessionOk(st: Store, req: AnswerRequest)
  {
    && ShapeOk(req)
    && FindSession(st.sessions, req.sessionId).Some?
    && FindSession(st.sessions, req.sessionId).value.userId == Trim(req.userId.s)
    && FindSession(st.sessions, req.sessionId).value.status == InProgress
  }

  /** The question exists, was selected for the session and has the answer. */
  predicate QuestionOk(st: Store, req: AnswerRequest)
  {
    && SessionOk(st, req)
    && FindQuestion(st.questions, req.questionId.s).Some?
    && IsQuestionInSession(st, req.sessionId, req.questionId.s)
    && Index(req) < |FindQuestion(st.questions, req.questionId.s).value.answers|
  }

  /** Every check passes, the last one being that the question is unanswered. */
  predicate Accepted(st: Store, req: AnswerRequest)
  {
    QuestionOk(st, req) && GetUserAnswer(st, req.sessionId, req.questionId.s).None?
  }

  /** The session row after an accepted answer. */
  function Settled(s: GameSession, p: Progress, status: Status, completedAt: Option<Timestamp>): GameSession
  {
    s.(status := status, currentScore := p.currentScore, questionsAnswered := p.questionsAnswered,
       completedAt := completedAt)
  }

  /** The status a session takes once an answer leaves it with progress `p`. */
  function StatusAfter(p: Progress): Status
  {
    if p.questionsAnswered < p.totalQuestions then InProgress
    else if Wins(p.currentScore, p.totalPossibleScore) then UserWon
    else UserLost
  }

  /** Row by row, only the rows of session `sid` change: each keeps its id,
      owner and selection and takes `status`. */
  predicate RowsSettled(before: seq<GameSession>, after: seq<GameSession>, sid: Id, status: Status)
  {
    && |after| == |before|
    && (forall i :: 0 <= i < |before| && before[i].id != sid ==> after[i] == before[i])
    && (forall i :: 0 <= i < |before| && before[i].id == sid ==>
          && after[i].id == sid && after[i].userId == before[i].userId
          && after[i].selected == before[i].selected && after[i].status == status)
  }

  /** The status the handler computes for a completed or an unfinished
      session: the score percentage against the 80% threshold. */
  function NewStatus(s: GameSession, p: Progress): (r: Status)
    requires s.status == InProgress
    ensures r == StatusAfter(p)
  {
    PercentageThreshold(p.currentScore, p.totalPossibleScore);
    if p.questionsAnswered >= p.totalQuestions then
      (if ScorePercentage(p.currentScore, p.totalPossibleScore) >= 80.0 then UserWon else UserLost)
    else s.status
  }

  /** `updateGameSession` with the recomputed counters, the new status and,
      on completion, the completion time. */
  function WriteBack(st: Store, s: GameSession, p: Progress, now: Timestamp): (r: (Store, Status))
    requires FindSession(st.sessions, s.id) == Some(s) && s.status == InProgress
    ensures r.0 == st.(sessions := r.0.sessions)
    ensures r.1 == StatusAfter(p)
    ensures FindSession(r.0.sessions, s.id) ==
              Some(Settled(s, p, r.1, if p.questionsAnswered >= p.totalQuestions then Some(now) else s.completedAt))
    ensures forall other :: other != s.id ==> FindSession(r.0.sessions, other) == FindSession(st.sessions, other)
    ensures RowsSettled(st.sessions, r.0.sessions, s.id, r.1)
  {
    var newStatus := NewStatus(s, p);
    var completedAt := if p.questionsAnswered >= p.totalQuestions then Some(now) else s.completedAt;
    var u := SessionUpdate(Some(newStatus), completedAt, Some(p.currentScore), Some(p.questionsAnswered));
    var up := UpdateGameSession(st, s.id, u);
    PatchSettles(s, p, newStatus, completedAt);
    UpdateSettlesRows(st, s.id, u, newStatus);
    (up.0, up.1.value.status)
  }

  /** A patch carrying a status and both counters is the settled row. */
  lemma PatchSettles(s: GameSession, p: Progress, status: Status, completedAt: Option<Timestamp>)
    requires completedAt.Some? || completedAt == s.completedAt
    ensures Patch(s, SessionUpdate(Some(status), completedAt, Some(p.currentScore), Some(p.questionsAnswered)))
            == Settled(s, p, status, completedAt)
  {
  }

  /** An update carrying a status settles exactly the rows of its session. */
  lemma UpdateSettlesRows(st: Store, sid: Id, u: SessionUpdate, status: Status)
    requires u.status == Some(status)
    ensures RowsSettled(st.sessions, UpdateGameSession(st, sid, u).0.sessions, sid, status)
  {
  }

  /** Record an accepted answer, recompute the score from all of the session's
      answers, settle the session when every question has an answer, and write
      the session back. */
  function Record(st: Store, s: GameSession, q: Question, idx: int, answerId: Id, now: Timestamp)
    : (r: Step<AnswerResult, SubmitError>)
    requires FindSession(st.sessions, s.id) == Some(s) && s.status == InProgress
    requires 0 <= idx < |q.answers|
    ensures r.reply.Success?
    ensures r.store.users == st.users && r.store.questions == st.questions
    ensures r.store.answers == st.answers + [UserAnswer(answerId, s.id, q.id, idx, idx == q.correctIndex, now)]
    ensures
      var res := r.reply.value;
      var p := res.progress;
      && res.questionId == q.id && res.yourAnswerIndex == idx && res.yourAnswer == q.answers[idx]
      && res.isCorrect == (idx == q.correctIndex)
      && res.correctAnswerIndex == q.correctIndex && res.correctAnswer == At(q.answers, q.correctIndex)
      && p == Tally(GetSessionQuestions(r.store, s.id), AnswersForSession(r.store.answers, s.id))
      && p.questionsAnswered == |AnswersForSession(st.answers, s.id)| + 1
      && res.gameComplete == (p.questionsAnswered >= p.totalQuestions)
      && res.sessionStatus == StatusAfter(p)
      && (res.finalResults.Some? <==> res.gameComplete)
      && (res.finalResults.Some? ==>
            res.finalResults.value == FinalResults(p.currentScore, p.totalPossibleScore, p.totalQuestions,
                                                   res.sessionStatus == UserWon))
      && FindSession(r.store.sessions, s.id) ==
           Some(Settled(s, p, res.sessionStatus, if res.gameComplete then Some(now) else s.completedAt))
      && (forall other :: other != s.id ==> FindSession(r.store.sessions, other) == FindSession(st.sessions, other))
    ensures RowsSettled(st.sessions, r.store.sessions, s.id, r.reply.value.sessionStatus)
  {
    var isCorrect := idx == q.correctIndex;
    var answer := UserAnswer(answerId, s.id, q.id, idx, isCorrect, now);
    var st1 := st.(answers := st.answers + [answer]);
    FilterAppend(st.answers, [answer], (a: UserAnswer) => a.sessionId == s.id);
    var p := Tally(GetSessionQuestions(st1, s.id), AnswersForSession(st1.answers, s.id));
    var complete := p.questionsAnswered >= p.totalQuestions;
    var wb := WriteBack(st1, s, p, now);
    var result := AnswerResult(
      q.id, idx, q.answers[idx], isCorrect, q.correctIndex, At(q.answers, q.correctIndex), p,
      wb.1, complete,
      if complete then Some(FinalResults(p.currentScore, p.totalPossibleScore, p.totalQuestions, wb.1 == UserWon))
      else None);
    Step(Success(result), wb.0)
  }

  /** `POST /sessions/:id/answer`. */
  function SubmitAnswer(st: Store, req: AnswerRequest, answerId: Id, now: Timestamp)
    : (r: Step<AnswerResult, SubmitError>)
    ensures r.reply.Failure? ==> r.store == st
    ensures r.reply.Success? <==> Accepted(st, req)
    ensures r.reply.Success? ==>
      var sid, qid, idx := req.sessionId, req.questionId.s, Index(req);
      var s := FindSession(st.sessions, sid).value;
      var q := FindQuestion(st.questions, qid).value;
      var res := r.reply.value;
      var p := res.progress;
      && r.store.users == st.users && r.store.questions == st.questions
      && r.store.answers == st.answers + [UserAnswer(answerId, sid, qid, idx, idx == q.correctIndex, now)]
      && res.isCorrect == (idx == q.correctIndex) && res.correctAnswerIndex == q.correctIndex
      && p == Tally(GetSessionQuestions(r.store, sid), AnswersForSession(r.store.answers, sid))
      && p.questionsAnswered == |AnswersForSession(st.answers, sid)| + 1
      && res.gameComplete == (p.questionsAnswered >= p.totalQuestions)
      && res.sessionStatus == StatusAfter(p)
      && (res.finalResults.Some? <==> res.gameComplete)
      && FindSession(r.store.sessions, sid) ==
           Some(Settled(s, p, res.sessionStatus, if res.gameComplete then Some(now) else s.completedAt))
      && (forall other :: other != sid ==> FindSession(r.store.sessions, other) == FindSession(st.sessions, other))
    ensures r.reply.Success? ==> RowsSettled(st.sessions, r.store.sessions, req.sessionId, r.reply.value.sessionStatus)
  {
    if Accepted(st, req) then
      Record(st, FindSession(st.sessions, req.sessionId).value, FindQuestion(st.questions, req.questionId.s).value,
             Index(req), answerId, now)
    else Step(Failure(Rejection(st, req)), st)
  }

  /** The first request-shape check that fails; no store access is needed. */
  function ShapeRejection(req: AnswerRequest): (e: SubmitError)
    requires !ShapeOk(req)
    ensures e in {SessionIdRequired, UserIdMissing, QuestionIdMissing, BadAnswerIndex}
    ensures e == SessionIdRequired <==> IsBlank(req.sessionId)
    ensures e == UserIdMissing <==> !IsBlank(req.sessionId) && !IsNonBlankString(req.userId)
    ensures e == QuestionIdMissing <==>
      !IsBlank(req.sessionId) && IsNonBlankString(req.userId) && !IsNonBlankString(req.questionId)
    ensures e == BadAnswerIndex <==>
      !IsBlank(req.sessionId) && IsNonBlankString(req.userId) && IsNonBlankString(req.questionId)
      && !IsNonNegativeInteger(req.answerIndex)
  {
    if IsBlank(req.sessionId) then SessionIdRequired
    else if !IsNonBlankString(req.userId) then UserIdMissing
    else if !IsNonBlankString(req.questionId) then QuestionIdMissing
    else BadAnswerIndex
  }

  /** The first session check that fails: unknown, someone else's, or over. */
  function SessionRejection(st: Store, req: AnswerRequest): (e: SubmitError)
    requires ShapeOk(req) && !SessionOk(st, req)
    ensures e in {SessionNotFound, AccessDenied, SessionNotActive}
    ensures e == SessionNotFound <==> FindSession(st.sessions, req.sessionId).None?
    ensures e == AccessDenied <==>
      FindSession(st.sessions, req.sessionId).Some?
      && FindSession(st.sessions, req.sessionId).value.userId != Trim(req.userId.s)
    ensures e == SessionNotActive <==>
      FindSession(st.sessions, req.sessionId).Some?
      && FindSession(st.sessions, req.sessionId).value.userId == Trim(req.userId.s)
      && FindSession(st.sessions, req.sessionId).value.status != InProgress
  {
    match FindSession(st.sessions, req.sessionId)
    case None => SessionNotFound
    case Some(s) => if s.userId != Trim(req.userId.s) then AccessDenied else SessionNotActive
  }

  /** The first question check that fails, ending with the duplicate check. */
  function QuestionRejection(st: Store, req: AnswerRequest): (e: SubmitError)
    requires SessionOk(st, req) && !Accepted(st, req)
    ensures e in {QuestionNotFound, QuestionNotInSession, AnswerIndexOutOfRange, AlreadyAnswered}
    ensures e == QuestionNotFound <==> FindQuestion(st.questions, req.questionId.s).None?
    ensures e == QuestionNotInSession <==>
      FindQuestion(st.questions, req.questionId.s).Some?
      && !IsQuestionInSession(st, req.sessionId, req.questionId.s)
    ensures e == AnswerIndexOutOfRange <==>
      FindQuestion(st.questions, req.questionId.s).Some?
      && IsQuestionInSession(st, req.sessionId, req.questionId.s)
      && Index(req) >= |FindQuestion(st.questions, req.questionId.s).value.answers|
    ensures e == AlreadyAnswered <==>
      QuestionOk(st, req) && GetUserAnswer(st, req.sessionId, req.questionId.s).Some?
  {
    match FindQuestion(st.questions, req.questionId.s)
    case None => QuestionNotFound
    case Some(q) =>
      if !IsQuestionInSession(st, req.sessionId, req.questionId.s) then QuestionNotInSession
      else if Index(req) >= |q.answers| then AnswerIndexOutOfRange
      else AlreadyAnswered
  }

  /** The first check a rejected submission fails, in the handler's order:
      the request's shape, then the session, then the question. */
  function Rejection(st: Store, req: AnswerRequest): SubmitError
    requires !Accepted(st, req)
  {
    if !ShapeOk(req) then ShapeRejection(req)
    else if !SessionOk(st, req) then SessionRejection(st, req)
    else QuestionRejection(st, req)
  }

  /** The first failing check decides the reply, in the handler's order;
      every check passing is the only way to be accepted. */
  lemma SubmitCheckOrder(st: Store, req: AnswerRequest, answerId: Id, now: Timestamp)
    ensures
      var r := SubmitAnswer(st, req, answerId, now);
      && (r.reply.Success? <==> Accepted(st, req))
      && (r.reply.Failure? ==> r.store == st)
      && (!ShapeOk(req) ==> r.reply == Failure(ShapeRejection(req)))
      && (ShapeOk(req) && !SessionOk(st, req) ==> r.reply == Failure(SessionRejection(st, req)))
      && (SessionOk(st, req) && !Accepted(st, req) ==> r.reply == Failure(QuestionRejection(st, req)))
  {
  }

  /** A malformed request is rejected before the store is consulted: the
      reply is the same whatever the store holds. */
  lemma ShapeErrorsIgnoreStore(st1: Store, st2: Store, req: AnswerRequest, answerId: Id, now: Timestamp)
    requires !ShapeOk(req)
    ensures SubmitAnswer(st1, req, answerId, now).reply == SubmitAnswer(st2, req, answerId, now).reply
  {
  }

  /** A won, lost or expired session never changes again, whatever is submitted. */
  lemma TerminalSessionsAreFinal(st: Store, req: AnswerRequest, answerId: Id, now: Timestamp, id: Id)
    requires FindSession(st.sessions, id).Some? && FindSession(st.sessions, id).value.status != InProgress
    ensures FindSession(SubmitAnswer(st, req, answerId, now).store.sessions, id) == FindSession(st.sessions, id)
  {
  }

  /** A settled row keeps its identity, never becomes expired, and carries
      the completion time once it leaves `in_progress`. */
  lemma SettledMoves(s: GameSession, p: Progress, done: bool, now: Timestamp)
    requires done == (p.questionsAnswered >= p.totalQuestions)
    ensures
      var t := Settled(s, p, StatusAfter(p), if done then Some(now) else s.completedAt);
      && t.id == s.id && t.userId == s.userId && t.selected == s.selected && t.status != Expired
      && (t.status != InProgress ==> t.completedAt == Some(now))
  {
  }

  /** The only status moves a submission makes are `in_progress` to itself, to
      `user_won` or to `user_lost`; it never creates, removes, re-owns or
      re-selects a session, and a settled session carries its completion time. */
  lemma StatusTransitions(st: Store, req: AnswerRequest, answerId: Id, now: Timestamp, id: Id)
    ensures
      var before := FindSession(st.sessions, id);
      var after := FindSession(SubmitAnswer(st, req, answerId, now).store.sessions, id);
      || after == before
      || (&& before.Some? && after.Some?
          && before.value.status == InProgress && after.value.status != Expired
          && after.value.id == id && after.value.userId == before.value.userId
          && after.value.selected == before.value.selected
          && (after.value.status != InProgress ==> after.value.completedAt == Some(now)))
  {
    var r := SubmitAnswer(st, req, answerId, now);
    if r.reply.Success? {
      if id == req.sessionId {
        var s := FindSession(st.sessions, id).value;
        var p := r.reply.value.progress;
        var done := r.reply.value.gameComplete;
        assert FindSession(r.store.sessions, id) ==
          Some(Settled(s, p, StatusAfter(p), if done then Some(now) else s.completedAt));
        SettledMoves(s, p, done, now);
      } else {
        assert FindSession(r.store.sessions, id) == FindSession(st.sessions, id);
      }
    }
  }

  /** Only one attempt per question: once an answer is accepted, every later
      submission for the same session and question is rejected and changes nothing. */
  lemma SecondSubmissionRejected(st: Store, req: AnswerRequest, answerId: Id, now: Timestamp,
                                 again: AnswerRequest, answerId2: Id, later: Timestamp)
    requires SubmitAnswer(st, req, answerId, now).reply.Success?
    requires again.sessionId == req.sessionId && again.questionId == req.questionId
    ensures
      var st1 := SubmitAnswer(st, req, answerId, now).store;
      var r2 := SubmitAnswer(st1, again, answerId2, later);
      r2.reply.Failure? && r2.store == st1
  {
    var st1 := SubmitAnswer(st, req, answerId, now).store;
    var n := |st.answers|;
    assert st1.answers[n].sessionId == req.sessionId && st1.answers[n].questionId == req.questionId.s;
    AnsweredIsRefused(st1, again, n);
  }

  /** A question the session already has an answer for is never accepted again. */
  lemma AnsweredIsRefused(st: Store, req: AnswerRequest, n: nat)
    requires n < |st.answers| && req.questionId.Str?
    requires st.answers[n].sessionId == req.sessionId && st.answers[n].questionId == req.questionId.s
    ensures !Accepted(st, req)
  {
    assert GetUserAnswer(st, req.sessionId, req.questionId.s).Some?;
  }

  /** No session holds two answers to the same question. */
  predicate OneAnswerPerQuestion(answers: seq<UserAnswer>)
  {
    forall i, j :: 0 <= i < j < |answers| ==>
      !(answers[i].sessionId == answers[j].sessionId && answers[i].questionId == answers[j].questionId)
  }

  /** Appending an answer for a pair with no answer yet keeps one answer per pair. */
  lemma AppendKeepsOneAnswer(answers: seq<UserAnswer>, x: UserAnswer)
    requires OneAnswerPerQuestion(answers)
    requires forall i :: 0 <= i < |answers| ==>
      !(answers[i].sessionId == x.sessionId && answers[i].questionId == x.questionId)
    ensures OneAnswerPerQuestion(answers + [x])
  {
    var a := answers + [x];
    forall i, j | 0 <= i < j < |a|
      ensures !(a[i].sessionId == a[j].sessionId && a[i].questionId == a[j].questionId)
    {
      assert a[i] == answers[i];
      if j < |answers| {
        assert a[j] == answers[j];
      }
    }
  }

  /** The duplicate check keeps the answer table free of repeated attempts. */
  lemma SubmitKeepsOneAnswerPerQuestion(st: Store, req: AnswerRequest, answerId: Id, now: Timestamp)
    requires OneAnswerPerQuestion(st.answers)
    ensures OneAnswerPerQuestion(SubmitAnswer(st, req, answerId, now).store.answers)
  {
    var r := SubmitAnswer(st, req, answerId, now);
    if r.reply.Success? {
      var n := |st.answers|;
      var x := r.store.answers[n];
      assert r.store.answers == st.answers + [x];
      assert x.sessionId == req.sessionId && x.questionId == req.questionId.s;
      assert GetUserAnswer(st, req.sessionId, req.questionId.s).None?;
      AppendKeepsOneAnswer(st.answers, x);
    }
  }

  /** With non-negative question scores the reported score lies between zero
      and the total possible score. */
  lemma SubmitScoreBounds(st: Store, req: AnswerRequest, answerId: Id, now: Timestamp)
    requires ScoresNonNegative(st.questions)
    ensures
      var r := SubmitAnswer(st, req, answerId, now);
      r.reply.Success? ==> 0 <= r.reply.value.progress.currentScore <= r.reply.value.progress.totalPossibleScore
  {
    var r := SubmitAnswer(st, req, answerId, now);
    if r.reply.Success? {
      var qs := GetSessionQuestions(r.store, req.sessionId);
      assert forall i :: 0 <= i < |qs| ==> qs[i] in st.questions;
      EarnedBounds(qs, AnswersForSession(r.store.answers, req.sessionId));
    }
  }

  /** Viewing the session right after an accepted answer shows the same
      progress and status the submission reported. */
  lemma SubmitThenView(st: Store, req: AnswerRequest, answerId: Id, now: Timestamp)
    requires SubmitAnswer(st, req, answerId, now).reply.Success?
    ensures
      var r := SubmitAnswer(st, req, answerId, now);
      var v := GetSessionRoute(r.store, req.sessionId);
      && v.Success?
      && v.value.progress == r.reply.value.progress
      && v.value.status == r.reply.value.sessionStatus
  {
  }

  /** Session ids are primary keys. */
  predicate SessionIdsUnique(ss: seq<GameSession>)
  {
    forall i, j :: 0 <= i < j < |ss| ==> ss[i].id != ss[j].id
  }

  /** Settling the rows of one in-progress session keeps ids unique and makes
      no other row in progress. */
  lemma SettledRowsKeepUse(before: seq<GameSession>, after: seq<GameSession>, s: GameSession, status: Status,
                           questionId: Id)
    requires SessionIdsUnique(before)
    requires FindSession(before, s.id) == Some(s) && s.status == InProgress
    requires RowsSettled(before, after, s.id, status)
    ensures SessionIdsUnique(after)
    ensures forall i :: 0 <= i < |after| && after[i].status == InProgress && questionId in after[i].selected ==>
              before[i].status == InProgress && questionId in before[i].selected
  {
    assert forall i :: 0 <= i < |before| ==> after[i].id == before[i].id;
    var k :| 0 <= k < |before| && before[k] == s;
    forall i | 0 <= i < |after| && after[i].status == InProgress && questionId in after[i].selected
      ensures before[i].status == InProgress && questionId in before[i].selected
    {
      if before[i].id == s.id {
        assert i == k;
      }
    }
  }

  /** Submitting never puts a question into use: a question an in-progress
      session selects afterwards was selected by an in-progress session before. */
  lemma SubmitNeverAddsUse(st: Store, req: AnswerRequest, answerId: Id, now: Timestamp, questionId: Id)
    requires SessionIdsUnique(st.sessions)
    ensures SessionIdsUnique(SubmitAnswer(st, req, answerId, now).store.sessions)
    ensures IsQuestionInUse(SubmitAnswer(st, req, answerId, now).store, questionId) ==> IsQuestionInUse(st, questionId)
  {
    var r := SubmitAnswer(st, req, answerId, now);
    if r.reply.Success? {
      var s := FindSession(st.sessions, req.sessionId).value;
      var before, after := st.sessions, r.store.sessions;
      SettledRowsKeepUse(before, after, s, r.reply.value.sessionStatus, questionId);
      if IsQuestionInUse(r.store, questionId) {
        var i :| 0 <= i < |after| && after[i].status == InProgress && questionId in after[i].selected;
        assert before[i].status == InProgress && questionId in before[i].selected;
      }
    }
  }

  // ---------------------------------------------------------------------------
  // GET /sessions

  datatype ListQuery = ListQuery(status: Json, userId: Json, limit: Json)

  datatype SessionRow = SessionRow(
    sessionId: Id,
    userId: Id,
    username: string,
    status: Status,
    questionsAnswered: int,
    currentScore: int,
    startedAt: Timestamp,
    completedAt: Option<Timestamp>,
    timeLimit: Option<real>,
    gameResult: string)

  datatype Summary = Summary(
    totalSessions: nat,
    activeSessions: nat,
    completedSessions: nat,
    wonSessions: nat,
    lostSessions: nat,
    filteredResults: nat)

  datatype Listing = Listing(summary: Summary, sessions: seq<SessionRow>)

  /** A query parameter that is a non-empty string (`p && typeof p === 'string'`). */
  predicate Given(j: Json)
  {
    j.Str? && j.s != ""
  }

  /** The limit in force: a given parameter that parses to a positive integer. */
  function EffectiveLimit(j: Json): (r: Option<nat>)
    ensures r.Some? <==> Given(j) && ParseInt10(j.s).Some? && ParseInt10(j.s).value > 0
    ensures r.Some? ==> r.value as int == ParseInt10(j.s).value
  {
    if Given(j) then
      match ParseInt10(j.s)
      case Some(n) => if n > 0 then Some(n as nat) else None
      case None => None
    else None
  }

  /** Whether a session passes the status and user filters of `q`. */
  predicate Selected(q: ListQuery, s: GameSession)
  {
    && (Given(q.status) ==> s.status.Name() == q.status.s)
    && (Given(q.userId) ==> s.userId == q.userId.s)
  }

  /** The two filters, applied one after the other, then the limit. */
  function SelectSessions(all: seq<GameSession>, q: ListQuery): (r: seq<GameSession>)
    ensures forall i :: 0 <= i < |r| ==> r[i] in all && Selected(q, r[i])
  {
    var wantStatus := if q.status.Str? then q.status.s else "";
    var wantUser := if q.userId.Str? then q.userId.s else "";
    var byStatus := if Given(q.status) then Filter(all, (s: GameSession) => s.status.Name() == wantStatus) else all;
    var byUser := if Given(q.userId) then Filter(byStatus, (s: GameSession) => s.userId == wantUser) else byStatus;
    match EffectiveLimit(q.limit)
    case Some(n) => Prefix(byUser, n)
    case None => byUser
  }

  /** The filters are one order-preserving conjunction, truncated to the limit
      when there is one. */
  lemma ListingIsOneFilter(all: seq<GameSession>, q: ListQuery)
    ensures SelectSessions(all, q) ==
      match EffectiveLimit(q.limit)
      case Some(n) => Prefix(Filter(all, (s: GameSession) => Selected(q, s)), n)
      case None => Filter(all, (s: GameSession) => Selected(q, s))
  {
    var wantStatus := if q.status.Str? then q.status.s else "";
    var wantUser := if q.userId.Str? then q.userId.s else "";
    var byStatus := if Given(q.status) then Filter(all, (s: GameSession) => s.status.Name() == wantStatus) else all;
    var byUser := if Given(q.userId) then Filter(byStatus, (s: GameSession) => s.userId == wantUser) else byStatus;
    var sel := (s: GameSession) => Selected(q, s);
    if Given(q.status) && Given(q.userId) {
      FilterFilter(all, (s: GameSession) => s.status.Name() == wantStatus, (s: GameSession) => s.userId == wantUser, sel);
    } else if Given(q.status) {
      FilterExt(all, (s: GameSession) => s.status.Name() == wantStatus, sel);
    } else if Given(q.userId) {
      FilterExt(all, (s: GameSession) => s.userId == wantUser, sel);
    } else {
      FilterAll(all, sel);
    }
    assert byUser == Filter(all, sel);
  }

  /** Without a limit nothing that passes both filters is left out. */
  lemma ListingIsComplete(all: seq<GameSession>, q: ListQuery, s: GameSession)
    requires EffectiveLimit(q.limit).None?
    requires s in all && Selected(q, s)
    ensures s in SelectSessions(all, q)
  {
    ListingIsOneFilter(all, q);
    var i :| 0 <= i < |all| && all[i] == s;
  }

  /** The label the listing derives from the status. */
  function GameResult(st: Status): string
  {
    match st
    case UserWon => "WIN"
    case UserLost => "LOSS"
    case Expired => "EXPIRED"
    case InProgress => "IN_PROGRESS"
  }

  /** `user?.username || 'Unknown User'`. */
  function DisplayName(users: map<Id, User>, userId: Id): (r: string)
    ensures r != ""
    ensures userId in users && users[userId].username.Some? && users[userId].username.value != "" ==>
              r == users[userId].username.value
    ensures r == "Unknown User" || (userId in users && Some(r) == users[userId].username)
  {
    if userId in users && users[userId].username.Some? && users[userId].username.value != "" then
      users[userId].username.value
    else "Unknown User"
  }

  function Row(users: map<Id, User>, s: GameSession): SessionRow
  {
    SessionRow(s.id, s.userId, DisplayName(users, s.userId), s.status, s.questionsAnswered, s.currentScore,
               s.startedAt, s.completedAt, s.timeLimit, GameResult(s.status))
  }

  function Rows(users: map<Id, User>, ss: seq<GameSession>): (r: seq<SessionRow>)
    ensures |r| == |ss|
    ensures forall i :: 0 <= i < |ss| ==> r[i] == Row(users, ss[i])
  {
    if ss == [] then [] else [Row(users, ss[0])] + Rows(users, ss[1..])
  }

  predicate IsActive(s: GameSession) { s.status == InProgress }
  predicate IsWon(s: GameSession) { s.status == UserWon }
  predicate IsLost(s: GameSession) { s.status == UserLost }
  predicate IsCompleted(s: GameSession) { s.status == UserWon || s.status == UserLost }

  /** The summary counts, taken over every session whatever the filters. */
  function Summarize(all: seq<GameSession>, filtered: nat): (r: Summary)
    ensures r.totalSessions == |all| && r.filteredResults == filtered
    ensures r.activeSessions == Count(all, IsActive)
    ensures r.wonSessions == Count(all, IsWon) && r.lostSessions == Count(all, IsLost)
    ensures r.completedSessions == r.wonSessions + r.lostSessions
    ensures r.activeSessions + r.completedSessions <= r.totalSessions
  {
    CountDisjoint(all, IsWon, IsLost, IsCompleted);
    CountDisjoint(all, IsActive, IsCompleted, (s: GameSession) => IsActive(s) || IsCompleted(s));
    Summary(|all|, Count(all, IsActive), Count(all, IsCompleted), Count(all, IsWon), Count(all, IsLost), filtered)
  }

  /** `GET /sessions`: the filtered rows in store order, and counts over all sessions. */
  function ListSessions(st: Store, q: ListQuery): (r: Listing)
    ensures var chosen := SelectSessions(st.sessions, q);
      && |r.sessions| == |chosen|
      && (forall i :: 0 <= i < |chosen| ==>
            && r.sessions[i].sessionId == chosen[i].id && r.sessions[i].status == chosen[i].status
            && r.sessions[i].gameResult == GameResult(chosen[i].status)
            && r.sessions[i].username == DisplayName(st.users, chosen[i].userId))
      && r.sessions == Rows(st.users, chosen)
      && (EffectiveLimit(q.limit).Some? ==> |r.sessions| <= EffectiveLimit(q.limit).value)
      && r.summary == Summarize(st.sessions, |chosen|)
  {
    var chosen := SelectSessions(st.sessions, q);
    ListingIsOneFilter(st.sessions, q);
    Listing(Summarize(st.sessions, |chosen|), Rows(st.users, chosen))
  }

  /** Each label names its status, and no two statuses share one. */
  lemma GameResultDistinct(a: Status, b: Status)
    ensures GameResult(a) == GameResult(b) <==> a == b
  {
  }
}
