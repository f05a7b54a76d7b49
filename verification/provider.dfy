/** The store provider's session operations: the category-quota question
    draw, session creation and the progress summary. */
module Provider {
  import opened Wrappers
  import opened Seqs
  import opened Model
  import opened Shuffle
  import opened Scoring

  /** One entry of a `Record<string, number>` of category counts. */
  datatype Quota = Quota(category: string, count: nat)

  /** The four categories, four questions each, in object-key order. */
  function SessionQuota(): seq<Quota>
  {
    [Quota("Sports", 4), Quota("Science", 4), Quota("Music", 4), Quota("Technology", 4)]
  }

  function SumCounts(quota: seq<Quota>): nat
  {
    if quota == [] then 0 else quota[0].count + SumCounts(quota[1..])
  }

  /** The session quota asks for 16 questions across 4 distinct categories. */
  lemma SessionQuotaShape()
    ensures SumCounts(SessionQuota()) == 16 && |SessionQuota()| == 4
    ensures forall i, j :: 0 <= i < j < 4 ==> SessionQuota()[i].category != SessionQuota()[j].category
    ensures forall i :: 0 <= i < 4 ==> SessionQuota()[i].count == 4
  {
  }

  datatype DrawError = NotEnoughQuestions(category: string, required: nat, available: nat)

  function InCategory(bank: seq<Question>, category: string): seq<Question>
  {
    Filter(bank, (q: Question) => q.category == category)
  }

  /** `select * from trivia_questions where category = c limit n`: the first
      `n` rows of the category in scan order. */
  function FetchCategory(bank: seq<Question>, category: string, n: nat): (r: seq<Question>)
    ensures |r| == if |InCategory(bank, category)| < n then |InCategory(bank, category)| else n
    ensures r == InCategory(bank, category)[..|r|]
    ensures forall i :: 0 <= i < |r| ==> r[i] in bank && r[i].category == category
  {
    Prefix(InCategory(bank, category), n)
  }

  predicate Underpopulated(bank: seq<Question>, q: Quota)
  {
    |InCategory(bank, q.category)| < q.count
  }

  /** `r` is one block per quota entry, in quota order, each block holding
      exactly `count` questions that rearrange the rows fetched for its category. */
  ghost predicate BlocksFit(r: seq<Question>, bank: seq<Question>, quota: seq<Quota>)
    decreases |quota|
  {
    if quota == [] then r == []
    else
      var n := quota[0].count;
      && |r| >= n
      && multiset(r[..n]) == multiset(FetchCategory(bank, quota[0].category, n))
      && (forall i :: 0 <= i < n ==> r[i].category == quota[0].category)
      && BlocksFit(r[n..], bank, quota[1..])
  }

  /** `getRandomQuestionsByCategory`: for each category in order, fetch its rows,
      refuse the whole draw if there are fewer than required, otherwise append
      some permutation of them (`rand` stands for the random comparator). */
  function GetRandomQuestionsByCategory(bank: seq<Question>, quota: seq<Quota>, rand: (string, nat) -> nat)
    : (r: Result<seq<Question>, DrawError>)
    ensures r.Failure? <==> exists k :: 0 <= k < |quota| && Underpopulated(bank, quota[k])
    ensures r.Failure? ==>
      exists k :: (&& 0 <= k < |quota| && Underpopulated(bank, quota[k])
                   && (forall j :: 0 <= j < k ==> !Underpopulated(bank, quota[j]))
                   && r.error == NotEnoughQuestions(quota[k].category, quota[k].count,
                                                    |InCategory(bank, quota[k].category)|))
    ensures r.Success? ==> |r.value| == SumCounts(quota) && BlocksFit(r.value, bank, quota)
    decreases |quota|
  {
    if quota == [] then Success([])
    else
      var c, n := quota[0].category, quota[0].count;
      var rows := FetchCategory(bank, c, n);
      if |rows| < n then
        Failure(NotEnoughQuestions(c, n, |rows|))
      else
        match GetRandomQuestionsByCategory(bank, quota[1..], rand)
        case Failure(e) =>
          DrawFailsLater(bank, quota, e);
          Failure(e)
        case Success(rest) =>
          DrawFitsLater(bank, quota);
          var block := ShuffleArray(rows, (i: nat) => rand(c, i));
          ShuffleBlock(rows, block, c);
          assert (block + rest)[..n] == block;
          assert (block + rest)[n..] == rest;
          Success(block + rest)
  }

  /** A failure further down the quota is the draw's failure: the first short
      category after a category that was not short. */
  lemma DrawFailsLater(bank: seq<Question>, quota: seq<Quota>, e: DrawError)
    requires quota != [] && !Underpopulated(bank, quota[0])
    requires exists k :: (&& 0 <= k < |quota[1..]| && Underpopulated(bank, quota[1..][k])
                          && (forall j :: 0 <= j < k ==> !Underpopulated(bank, quota[1..][j]))
                          && e == NotEnoughQuestions(quota[1..][k].category, quota[1..][k].count,
                                                     |InCategory(bank, quota[1..][k].category)|))
    ensures exists k :: 0 <= k < |quota| && Underpopulated(bank, quota[k])
    ensures exists k :: (&& 0 <= k < |quota| && Underpopulated(bank, quota[k])
                         && (forall j :: 0 <= j < k ==> !Underpopulated(bank, quota[j]))
                         && e == NotEnoughQuestions(quota[k].category, quota[k].count,
                                                    |InCategory(bank, quota[k].category)|))
  {
    var k :| (&& 0 <= k < |quota[1..]| && Underpopulated(bank, quota[1..][k])
              && (forall j :: 0 <= j < k ==> !Underpopulated(bank, quota[1..][j]))
              && e == NotEnoughQuestions(quota[1..][k].category, quota[1..][k].count,
                                         |InCategory(bank, quota[1..][k].category)|));
    assert quota[1..][k] == quota[k + 1];
    assert forall j :: 1 <= j < k + 1 ==> quota[j] == quota[1..][j - 1];
  }

  /** No short category further down and none at the head means none at all. */
  lemma DrawFitsLater(bank: seq<Question>, quota: seq<Quota>)
    requires quota != [] && !Underpopulated(bank, quota[0])
    requires !exists k :: 0 <= k < |quota[1..]| && Underpopulated(bank, quota[1..][k])
    ensures !exists k :: 0 <= k < |quota| && Underpopulated(bank, quota[k])
  {
    forall k | 0 < k < |quota| ensures !Underpopulated(bank, quota[k]) {
      assert quota[k] == quota[1..][k - 1];
    }
  }

  lemma ShuffleBlock(rows: seq<Question>, block: seq<Question>, c: string)
    requires multiset(block) == multiset(rows)
    requires forall i :: 0 <= i < |rows| ==> rows[i].category == c
    ensures forall i :: 0 <= i < |block| ==> block[i].category == c
  {
    forall i | 0 <= i < |block| ensures block[i].category == c {
      assert block[i] in multiset(rows);
    }
  }

  /** A fitting draw holds exactly the quota's total number of questions. */
  lemma {:induction false} BlocksFitLength(r: seq<Question>, bank: seq<Question>, quota: seq<Quota>)
    requires BlocksFit(r, bank, quota)
    ensures |r| == SumCounts(quota)
    decreases |quota|
  {
    if quota != [] {
      BlocksFitLength(r[quota[0].count..], bank, quota[1..]);
    }
  }

  /** The `i`-th question of block `k` of a fitting draw sits after the blocks
      before it and belongs to block `k`'s category. */
  lemma {:induction false} BlockCategory(r: seq<Question>, bank: seq<Question>, quota: seq<Quota>, k: nat, i: nat)
    requires BlocksFit(r, bank, quota) && k < |quota| && i < quota[k].count
    ensures SumCounts(quota[..k]) + i < |r|
    ensures r[SumCounts(quota[..k]) + i].category == quota[k].category
  {
    var n := quota[0].count;
    if k == 0 {
      assert quota[..0] == [];
    } else {
      BlockCategory(r[n..], bank, quota[1..], k - 1, i);
      assert quota[..k][1..] == quota[1..][..k - 1];
      assert SumCounts(quota[..k]) == n + SumCounts(quota[1..][..k - 1]);
    }
  }

  datatype CreateSessionError = DrawFailed(draw: DrawError) | DuplicateSessionId

  /** `createSession`: draws its own questions, then inserts an `in_progress`
      session with zero score and no answers, newest first. */
  function CreateSession(st: Store, userId: Id, timeLimit: Option<real>, id: Id, now: Timestamp,
                         rand: (string, nat) -> nat): (r: Step<GameSession, CreateSessionError>)
    ensures r.reply.Failure? ==> r.store == st
    ensures r.reply.Success? ==>
      var s := r.reply.value;
      && s.status == InProgress && s.currentScore == 0 && s.questionsAnswered == 0
      && s.id == id && s.userId == userId && s.timeLimit == timeLimit && s.completedAt.None?
      && r.store == st.(sessions := [s] + st.sessions)
      && FindSession(st.sessions, id).None?
    ensures r.reply.Success? <==>
      GetRandomQuestionsByCategory(st.questions, SessionQuota(), rand).Success? && FindSession(st.sessions, id).None?
    ensures r.reply.Success? ==>
      var drawn := GetRandomQuestionsByCategory(st.questions, SessionQuota(), rand).value;
      r.reply.value.selected == Ids(drawn) && |r.reply.value.selected| == 16
  {
    SessionQuotaShape();
    match GetRandomQuestionsByCategory(st.questions, SessionQuota(), rand)
    case Failure(e) => Step(Failure(DrawFailed(e)), st)
    case Success(qs) =>
      if FindSession(st.sessions, id).Some? then Step(Failure(DuplicateSessionId), st)
      else
        var s := GameSession(id, userId, InProgress, 0, 0, Ids(qs), now, timeLimit, None);
        Step(Success(s), st.(sessions := [s] + st.sessions))
  }

  datatype SessionProgress = SessionProgress(
    session: GameSession,
    currentQuestion: Option<Question>,
    totalQuestions: nat,
    questionsRemaining: nat,
    answeredQuestions: seq<UserAnswer>,
    totalPossibleScore: int,
    scorePercentage: real,
    nextQuestion: Option<Question>)

  /** The selected questions as `.in('id', selected_questions)` returns them:
      each existing row once. The query fixes no order; the model takes table order. */
  function FetchSelected(bank: seq<Question>, s: GameSession): seq<Question>
  {
    Filter(bank, (q: Question) => q.id in s.selected)
  }

  predicate Unanswered(answers: seq<UserAnswer>, q: Question)
  {
    AnswerFor(answers, q.id).None?
  }

  /** `getSessionProgress`: `None` for an unknown session; otherwise the number
      of fetched questions, how many have no answer yet, the first and second of
      those, and the total possible score. */
  function GetSessionProgress(st: Store, sessionId: Id): (r: Option<SessionProgress>)
    ensures r.None? <==> FindSession(st.sessions, sessionId).None?
    ensures r.Some? ==>
      var p := r.value;
      var fetched := FetchSelected(st.questions, p.session);
      && Some(p.session) == FindSession(st.sessions, sessionId)
      && p.answeredQuestions == AnswersForSession(st.answers, sessionId)
      && p.totalQuestions == |fetched|
      && p.totalPossibleScore == TotalScore(fetched)
      && p.questionsRemaining <= p.totalQuestions
      && p.questionsRemaining == p.totalQuestions - Count(fetched, (q: Question) => !Unanswered(p.answeredQuestions, q))
      && (p.currentQuestion.None? <==> p.questionsRemaining == 0)
      && (p.nextQuestion.Some? <==> p.questionsRemaining >= 2)
      && (p.currentQuestion.Some? ==> var q := p.currentQuestion.value;
            q in st.questions && q.id in p.session.selected && Unanswered(p.answeredQuestions, q))
      && (p.nextQuestion.Some? ==> var q := p.nextQuestion.value;
            q in st.questions && q.id in p.session.selected && Unanswered(p.answeredQuestions, q))
      && p.scorePercentage == ScorePercentage(p.session.currentScore, p.totalPossibleScore)
    ensures r.Some? ==>
      var p := r.value;
      var waiting := Filter(FetchSelected(st.questions, p.session), (q: Question) => Unanswered(p.answeredQuestions, q));
      && p.currentQuestion == FindFirst(FetchSelected(st.questions, p.session), (q: Question) => Unanswered(p.answeredQuestions, q))
      && p.currentQuestion == (if |waiting| > 0 then Some(waiting[0]) else None)
      && p.nextQuestion == (if |waiting| > 1 then Some(waiting[1]) else None)
  {
    match FindSession(st.sessions, sessionId)
    case None => None
    case Some(s) =>
      var answered := AnswersForSession(st.answers, sessionId);
      var fetched := FetchSelected(st.questions, s);
      var total := TotalScore(fetched);
      var unanswered := Filter(fetched, (q: Question) => Unanswered(answered, q));
      FilterPartition(fetched, (q: Question) => Unanswered(answered, q), (q: Question) => !Unanswered(answered, q));
      FilterHead(fetched, (q: Question) => Unanswered(answered, q));
      Some(SessionProgress(
        s,
        if |unanswered| > 0 then Some(unanswered[0]) else None,
        |fetched|,
        |unanswered|,
        answered,
        total,
        ScorePercentage(s.currentScore, total),
        if |unanswered| > 1 then Some(unanswered[1]) else None))
  }
}
