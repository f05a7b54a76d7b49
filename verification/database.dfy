/** The store helpers the session routes call: in-use and membership checks,
    the duplicate-answer lookup, the ordered question fetch and the partial
    session update. */
module Database {
  import opened Wrappers
  import opened Seqs
  import opened Model
  import opened Provider

  /** `getRandomQuestionsForSession`: the category draw with the session quota. */
  function GetRandomQuestionsForSession(bank: seq<Question>, rand: (string, nat) -> nat)
    : (r: Result<seq<Question>, DrawError>)
    ensures r.Success? ==>
      && |r.value| == 16
      && (forall i :: 0 <= i < 4 ==> r.value[i].category == "Sports")
      && (forall i :: 4 <= i < 8 ==> r.value[i].category == "Science")
      && (forall i :: 8 <= i < 12 ==> r.value[i].category == "Music")
      && (forall i :: 12 <= i < 16 ==> r.value[i].category == "Technology")
    ensures r.Failure? <==> exists k :: 0 <= k < 4 && Underpopulated(bank, SessionQuota()[k])
  {
    var r := GetRandomQuestionsByCategory(bank, SessionQuota(), rand);
    if r.Success? then SessionDrawShape(r.value, bank); r else r
  }

  /** A draw fitting the session quota is four blocks of four, by category. */
  lemma SessionDrawShape(v: seq<Question>, bank: seq<Question>)
    requires BlocksFit(v, bank, SessionQuota())
    ensures |v| == 16
    ensures forall i :: 0 <= i < 4 ==> v[i].category == "Sports"
    ensures forall i :: 4 <= i < 8 ==> v[i].category == "Science"
    ensures forall i :: 8 <= i < 12 ==> v[i].category == "Music"
    ensures forall i :: 12 <= i < 16 ==> v[i].category == "Technology"
  {
    var q := SessionQuota();
    BlocksFitLength(v, bank, q);
    SessionQuotaShape();
    assert q[..0] == [] && q[..1] == [q[0]];
    assert q[..2] == [q[0], q[1]] && q[..3] == [q[0], q[1], q[2]];
    assert [q[0], q[1], q[2]][1..] == [q[1], q[2]] && [q[1], q[2]][1..] == [q[2]];
    assert SumCounts([q[2]]) == 4 && SumCounts([q[1], q[2]]) == 8;
    assert SumCounts(q[..1]) == 4 && SumCounts(q[..2]) == 8 && SumCounts(q[..3]) == 12;
    forall i | 0 <= i < 4 ensures v[i].category == "Sports" { BlockCategory(v, bank, q, 0, i); }
    forall i | 4 <= i < 8 ensures v[i].category == "Science" { BlockCategory(v, bank, q, 1, i - 4); }
    forall i | 8 <= i < 12 ensures v[i].category == "Music" { BlockCategory(v, bank, q, 2, i - 8); }
    forall i | 12 <= i < 16 ensures v[i].category == "Technology" { BlockCategory(v, bank, q, 3, i - 12); }
  }

  /** `isQuestionInUse`: some `in_progress` session selected the question. */
  function IsQuestionInUse(st: Store, questionId: Id): (r: bool)
    ensures r <==> exists i :: 0 <= i < |st.sessions| && st.sessions[i].status == InProgress
                                && questionId in st.sessions[i].selected
  {
    FindFirst(st.sessions, (s: GameSession) => s.status == InProgress && questionId in s.selected).Some?
  }

  /** `isQuestionInSession`: false for an unknown session, otherwise membership
      in the session's selected questions. */
  function IsQuestionInSession(st: Store, sessionId: Id, questionId: Id): (r: bool)
    ensures FindSession(st.sessions, sessionId).None? ==> !r
    ensures FindSession(st.sessions, sessionId).Some? ==>
              (r <==> questionId in FindSession(st.sessions, sessionId).value.selected)
    ensures r ==> exists i :: 0 <= i < |st.sessions| && st.sessions[i].id == sessionId
                              && questionId in st.sessions[i].selected
  {
    match FindSession(st.sessions, sessionId)
    case None => false
    case Some(s) => questionId in s.selected
  }

  /** `getUserAnswer`: the earliest answer recorded for this session and
      question, or `None` when the question has not been answered in it. */
  function GetUserAnswer(st: Store, sessionId: Id, questionId: Id): (r: Option<UserAnswer>)
    ensures r.None? <==> forall i :: 0 <= i < |st.answers| ==>
                           !(st.answers[i].sessionId == sessionId && st.answers[i].questionId == questionId)
    ensures r.Some? ==> r.value in st.answers && r.value.sessionId == sessionId && r.value.questionId == questionId
    ensures r.Some? ==> exists k :: && 0 <= k < |st.answers| && st.answers[k] == r.value
                                    && forall j :: 0 <= j < k ==>
                                         !(st.answers[j].sessionId == sessionId && st.answers[j].questionId == questionId)
  {
    var both := (a: UserAnswer) => a.sessionId == sessionId && a.questionId == questionId;
    FindFirstFiltered(st.answers, (a: UserAnswer) => a.sessionId == sessionId,
                      (a: UserAnswer) => a.questionId == questionId, both);
    var r := AnswerFor(AnswersForSession(st.answers, sessionId), questionId);
    assert r == FindFirst(st.answers, both);
    assert r.Some? ==> st.answers[FirstIndex(st.answers, both)] == r.value;
    r
  }

  /** The questions of `ids` that exist in `bank`, in the order of `ids`. */
  function ResolveQuestions(bank: seq<Question>, ids: seq<Id>): (r: seq<Question>)
    ensures |r| <= |ids|
    ensures forall i :: 0 <= i < |r| ==> r[i] in bank && r[i].id in ids
    ensures Ids(r) == Filter(ids, (id: Id) => FindQuestion(bank, id).Some?)
    ensures forall i :: 0 <= i < |r| ==> r[i] == FindQuestion(bank, r[i].id).value
  {
    if ids == [] then []
    else
      var head := match FindQuestion(bank, ids[0]) case Some(q) => [q] case None => [];
      var rest := ResolveQuestions(bank, ids[1..]);
      IdsAppend(head, rest);
      head + rest
  }

  /** The ids of two sequences of questions, one after the other. */
  lemma {:induction false} IdsAppend(a: seq<Question>, b: seq<Question>)
    ensures Ids(a + b) == Ids(a) + Ids(b)
  {
    if a == [] {
      assert a + b == b;
    } else {
      assert (a + b)[1..] == a[1..] + b;
      IdsAppend(a[1..], b);
    }
  }

  /** When every id names a question, the fetch returns one question per id, in order. */
  lemma {:induction false} ResolveAllPresent(bank: seq<Question>, ids: seq<Id>)
    requires forall i :: 0 <= i < |ids| ==> FindQuestion(bank, ids[i]).Some?
    ensures |ResolveQuestions(bank, ids)| == |ids|
    ensures forall i :: 0 <= i < |ids| ==> ResolveQuestions(bank, ids)[i] == FindQuestion(bank, ids[i]).value
  {
    if ids != [] {
      ResolveAllPresent(bank, ids[1..]);
    }
  }

  /** A selected id whose question exists is found by the fetch. */
  lemma {:induction false} ResolveFindsPresent(bank: seq<Question>, ids: seq<Id>, id: Id)
    requires id in ids && FindQuestion(bank, id).Some?
    ensures FindQuestion(bank, id).value in ResolveQuestions(bank, ids)
  {
    if ids[0] != id {
      ResolveFindsPresent(bank, ids[1..], id);
    }
  }

  /** `getSessionQuestions`: `[]` for an unknown session, otherwise the
      selected questions that exist, in selection order. */
  function GetSessionQuestions(st: Store, sessionId: Id): (r: seq<Question>)
    ensures FindSession(st.sessions, sessionId).None? ==> r == []
    ensures FindSession(st.sessions, sessionId).Some? ==>
      var s := FindSession(st.sessions, sessionId).value;
      && |r| <= |s.selected|
      && (forall i :: 0 <= i < |r| ==> r[i] in st.questions && r[i].id in s.selected)
      && Ids(r) == Filter(s.selected, (id: Id) => FindQuestion(st.questions, id).Some?)
      && (forall i :: 0 <= i < |r| ==> r[i] == FindQuestion(st.questions, r[i].id).value)
  {
    match FindSession(st.sessions, sessionId)
    case None => []
    case Some(s) => ResolveQuestions(st.questions, s.selected)
  }

  /** A question that exists and belongs to the session is among its fetched questions. */
  lemma InSessionIsFetched(st: Store, sessionId: Id, questionId: Id)
    requires IsQuestionInSession(st, sessionId, questionId)
    requires FindQuestion(st.questions, questionId).Some?
    ensures FindQuestion(st.questions, questionId).value in GetSessionQuestions(st, sessionId)
  {
    ResolveFindsPresent(st.questions, FindSession(st.sessions, sessionId).value.selected, questionId);
  }

  /** The fields `updateGameSession` may be given; absent ones are `None`. */
  datatype SessionUpdate = SessionUpdate(
    status: Option<Status>,
    completedAt: Option<Timestamp>,
    currentScore: Option<int>,
    questionsAnswered: Option<int>)

  /** One row after `updateSessionStatus` (run only when a status is given; it
      writes `completed_at` only when one is given too) and `updateSessionScore`
      (run only when both counters are given). */
  function Patch(s: GameSession, u: SessionUpdate): (r: GameSession)
    ensures r.id == s.id && r.userId == s.userId && r.selected == s.selected
    ensures r.startedAt == s.startedAt && r.timeLimit == s.timeLimit
    ensures r.status == if u.status.Some? then u.status.value else s.status
    ensures r.completedAt == if u.status.Some? && u.completedAt.Some? then u.completedAt else s.completedAt
    ensures u.currentScore.Some? && u.questionsAnswered.Some? ==>
      r.currentScore == u.currentScore.value && r.questionsAnswered == u.questionsAnswered.value
    ensures u.currentScore.None? || u.questionsAnswered.None? ==>
      r.currentScore == s.currentScore && r.questionsAnswered == s.questionsAnswered
  {
    var s1 :=
      if u.status.None? then s
      else if u.completedAt.Some? then s.(status := u.status.value, completedAt := u.completedAt)
      else s.(status := u.status.value);
    if u.currentScore.Some? && u.questionsAnswered.Some? then
      s1.(currentScore := u.currentScore.value, questionsAnswered := u.questionsAnswered.value)
    else s1
  }

  /** `update game_sessions ... where id = sessionId`. */
  function UpdateRows(ss: seq<GameSession>, sessionId: Id, u: SessionUpdate): (r: seq<GameSession>)
    ensures |r| == |ss|
    ensures forall i :: 0 <= i < |ss| ==> r[i] == if ss[i].id == sessionId then Patch(ss[i], u) else ss[i]
  {
    if ss == [] then []
    else [if ss[0].id == sessionId then Patch(ss[0], u) else ss[0]] + UpdateRows(ss[1..], sessionId, u)
  }

  /** After an update the session is found patched; every other id finds what it found before. */
  lemma {:induction false} FindAfterUpdate(ss: seq<GameSession>, sessionId: Id, u: SessionUpdate, other: Id)
    ensures FindSession(UpdateRows(ss, sessionId, u), sessionId) ==
              match FindSession(ss, sessionId) case None => None case Some(s) => Some(Patch(s, u))
    ensures other != sessionId ==> FindSession(UpdateRows(ss, sessionId, u), other) == FindSession(ss, other)
  {
    if ss != [] {
      FindAfterUpdate(ss[1..], sessionId, u, other);
      var r := UpdateRows(ss, sessionId, u);
      assert r[1..] == UpdateRows(ss[1..], sessionId, u);
      FindFirstCons(ss, sessionId);
      FindFirstCons(r, sessionId);
      FindFirstCons(ss, other);
      FindFirstCons(r, other);
    }
  }

  /** Every id other than the updated one finds what it found before. */
  lemma UpdateKeepsOthers(ss: seq<GameSession>, sessionId: Id, u: SessionUpdate)
    ensures forall other :: other != sessionId ==> FindSession(UpdateRows(ss, sessionId, u), other) == FindSession(ss, other)
  {
    forall other | other != sessionId
      ensures FindSession(UpdateRows(ss, sessionId, u), other) == FindSession(ss, other)
    {
      FindAfterUpdate(ss, sessionId, u, other);
    }
  }

  /** `FindSession` looks at the head, then at the rest. */
  lemma FindFirstCons(ss: seq<GameSession>, id: Id)
    requires ss != []
    ensures FindSession(ss, id) == if ss[0].id == id then Some(ss[0]) else FindSession(ss[1..], id)
  {
    var p := (s: GameSession) => s.id == id;
    if ss[0].id != id {
      assert FirstIndex(ss, p) == 1 + FirstIndex(ss[1..], p);
    }
  }

  /** `updateGameSession`: status and `completed_at` change only when a status
      is given, the two counters only when both are given, nothing else
      changes, and the updated row is returned. */
  function UpdateGameSession(st: Store, sessionId: Id, u: SessionUpdate): (r: (Store, Option<GameSession>))
    ensures r.0 == st.(sessions := r.0.sessions) && |r.0.sessions| == |st.sessions|
    ensures forall i :: 0 <= i < |st.sessions| ==>
      r.0.sessions[i] == if st.sessions[i].id == sessionId then Patch(st.sessions[i], u) else st.sessions[i]
    ensures r.1 == FindSession(r.0.sessions, sessionId)
    ensures r.1 == match FindSession(st.sessions, sessionId) case None => None case Some(s) => Some(Patch(s, u))
    ensures forall other :: other != sessionId ==> FindSession(r.0.sessions, other) == FindSession(st.sessions, other)
  {
    FindAfterUpdate(st.sessions, sessionId, u, sessionId);
    UpdateKeepsOthers(st.sessions, sessionId, u);
    var ss := UpdateRows(st.sessions, sessionId, u);
    (st.(sessions := ss), FindSession(ss, sessionId))
  }
}
