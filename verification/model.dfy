/** The entities of the trivia back end and the abstract store that holds
    them, together with the primitive store queries every handler uses. */
module Model {
  import opened Wrappers
  import opened Seqs
  import opened Text

  type Id = string

  /** A timestamp whose value is never inspected; only whether one is present matters. */
  type Timestamp = string

  /** A request field as it arrives in a JSON body, query string or path.
      Numbers are exact (JSON has no NaN or Infinity); arrays and objects are
      not inspected by the handlers and share one case. */
  datatype Json = Undefined | Null | Bool(b: bool) | Num(x: real) | Str(s: string) | Composite

  /** `!value || typeof value !== 'string' || value.trim().length === 0` fails. */
  predicate IsNonBlankString(j: Json)
  {
    j.Str? && !IsBlank(j.s)
  }

  /** `typeof v === 'number' && Number.isInteger(v) && v >= 0`. */
  predicate IsNonNegativeInteger(j: Json)
  {
    j.Num? && j.x.Floor as real == j.x && j.x >= 0.0
  }

  datatype Status = InProgress | UserWon | UserLost | Expired
  {
    /** The status as stored and as compared against a `status` query parameter. */
    function Name(): string
    {
      match this
      case InProgress => "in_progress"
      case UserWon => "user_won"
      case UserLost => "user_lost"
      case Expired => "expired"
    }
  }

  datatype User = User(userId: Id, username: Option<string>)

  datatype Question = Question(
    id: Id,
    category: string,
    prompt: string,
    answers: seq<string>,
    correctIndex: int,
    score: int)

  datatype GameSession = GameSession(
    id: Id,
    userId: Id,
    status: Status,
    currentScore: int,
    questionsAnswered: int,
    selected: seq<Id>,
    startedAt: Timestamp,
    timeLimit: Option<real>,
    completedAt: Option<Timestamp>)

  datatype UserAnswer = UserAnswer(
    id: Id,
    sessionId: Id,
    questionId: Id,
    answerIndex: int,
    isCorrect: bool,
    answeredAt: Timestamp)

  /** The persistent state. `questions` is the question table in scan order;
      `sessions` is in the order the store lists them (most recently started
      first); `answers` is in insertion order, which is also `answered_at` order. */
  datatype Store = Store(
    users: map<Id, User>,
    questions: seq<Question>,
    sessions: seq<GameSession>,
    answers: seq<UserAnswer>)

  /** A handler's reply together with the state it leaves behind. */
  datatype Step<+T, +E> = Step(reply: Result<T, E>, store: Store)

  /**
   * `getQuestionById`: the row with this primary key, if any. The answer route
   * calls it by this name. The service's `getTriviaQuestionById` delegates to it
   * unchanged.
   */
  function FindQuestion(qs: seq<Question>, id: Id): (r: Option<Question>)
    ensures r.None? <==> forall i :: 0 <= i < |qs| ==> qs[i].id != id
    ensures r.Some? ==> r.value in qs && r.value.id == id
  {
    FindFirst(qs, (q: Question) => q.id == id)
  }

  /** `getSessionById`: the row with this primary key, if any. */
  function FindSession(ss: seq<GameSession>, id: Id): (r: Option<GameSession>)
    ensures r.None? <==> forall i :: 0 <= i < |ss| ==> ss[i].id != id
    ensures r.Some? ==> r.value in ss && r.value.id == id
  {
    FindFirst(ss, (s: GameSession) => s.id == id)
  }

  /** `getUserAnswersForSession`: the session's answers in `answered_at` order. */
  function AnswersForSession(answers: seq<UserAnswer>, sessionId: Id): (r: seq<UserAnswer>)
    ensures forall i :: 0 <= i < |r| ==> r[i] in answers && r[i].sessionId == sessionId
    ensures forall i :: 0 <= i < |answers| && answers[i].sessionId == sessionId ==> answers[i] in r
    ensures IsSubsequence(r, answers)
  {
    FilterIsSubsequence(answers, (a: UserAnswer) => a.sessionId == sessionId);
    Filter(answers, (a: UserAnswer) => a.sessionId == sessionId)
  }

  /** `answers.find(a => a.question_id === questionId)`: the earliest answer to a question. */
  function AnswerFor(answers: seq<UserAnswer>, questionId: Id): (r: Option<UserAnswer>)
    ensures r.None? <==> forall i :: 0 <= i < |answers| ==> answers[i].questionId != questionId
    ensures r.Some? ==> r.value in answers && r.value.questionId == questionId
    ensures r.Some? ==> exists k :: && 0 <= k < |answers| && answers[k] == r.value
                                    && forall j :: 0 <= j < k ==> answers[j].questionId != questionId
  {
    var r := FindFirst(answers, (a: UserAnswer) => a.questionId == questionId);
    assert r.Some? ==> answers[FirstIndex(answers, (a: UserAnswer) => a.questionId == questionId)] == r.value;
    r
  }

  /** The id of every question, in order. */
  function Ids(qs: seq<Question>): (r: seq<Id>)
    ensures |r| == |qs| && forall i :: 0 <= i < |qs| ==> r[i] == qs[i].id
  {
    if qs == [] then [] else [qs[0].id] + Ids(qs[1..])
  }
}
