/** The interview flow of app.py: the session keys the request handlers
    read, set and pop (`start_interview`, `interview`, `submit_answer`,
    `complete_interview`, `logout`), and the two tables they write.  The
    model's text, the clock and the outcome of each commit are inputs. */
module Interview {
  import opened Wrappers
  import opened Scoring
  import opened Questions
  import opened Timing

  /** The keys of the session: `user_id`, `username`, `current_role`,
      `interview_start_time`, `questions`, `current_question`, `interview_id`. */
  datatype Key =
    UserIdKey | UsernameKey | CurrentRoleKey | StartTimeKey | QuestionsKey | CurrentQuestionKey | InterviewIdKey

  /** The session keys that `complete_interview` pops. */
  const InterviewKeys: set<Key> :=
    {CurrentRoleKey, StartTimeKey, QuestionsKey, CurrentQuestionKey, InterviewIdKey}

  /** A row of the `interviews` table; `completedAt` is a clock value. */
  datatype InterviewRow = InterviewRow(
    id: int, userId: int, role: string,
    score: Option<int>, duration: Option<int>, completedAt: Option<int>)

  /** A row of the `interview_responses` table. */
  datatype ResponseRow = ResponseRow(interviewId: int, question: string, answer: string, feedback: string)

  /** What `generate_content` gave for the feedback prompt: the call raised,
      the reply has no text (reading `.text` raises), or the text. */
  datatype FeedbackReply = CallFailed | Blocked | Text(text: string)

  /** What a handler answers with.  `error` says whether an error notice is
      flashed with the redirect. */
  datatype Reply =
    | ToLogin
    | ToInterview(error: bool)
    | ToComplete
    | ToDashboard(error: bool)
    | ServerError
    | QuestionPage(question: string, number: int, total: int, timeRemaining: int)
    | ResultPage(score: int, duration: int, responses: seq<ResponseRow>)

  /** `db.query(InterviewResponse).filter(InterviewResponse.interview_id == id).all()`,
      in insertion order. */
  function ResponsesFor(rows: seq<ResponseRow>, id: int): (rs: seq<ResponseRow>)
    ensures |rs| <= |rows|
    ensures forall k :: 0 <= k < |rs| ==> rs[k] in rows && rs[k].interviewId == id
  {
    if rows == [] then []
    else
      var last := rows[|rows| - 1];
      ResponsesFor(rows[..|rows| - 1], id) + if last.interviewId == id then [last] else []
  }

  /** The query misses no row of the interview. */
  lemma ResponsesForComplete(rows: seq<ResponseRow>, id: int)
    ensures forall j :: 0 <= j < |rows| && rows[j].interviewId == id ==> rows[j] in ResponsesFor(rows, id)
  {
    ResponsesForInOrder(rows, id);
    var rs, ix := ResponsesFor(rows, id), TaggedIndices(rows, id);
    forall j | 0 <= j < |rows| && rows[j].interviewId == id
      ensures rows[j] in rs
    {
      var k :| 0 <= k < |ix| && ix[k] == j;
      assert rs[k] == rows[j];
    }
  }

  /** The positions of the rows tagged `id`, in table order: a reference
      description of the filter. */
  function TaggedIndices(rows: seq<ResponseRow>, id: int): (ix: seq<nat>)
    ensures forall k :: 0 <= k < |ix| ==> ix[k] < |rows| && rows[ix[k]].interviewId == id
    ensures forall k, m :: 0 <= k < m < |ix| ==> ix[k] < ix[m]
    ensures forall j :: 0 <= j < |rows| && rows[j].interviewId == id ==> j in ix
  {
    if rows == [] then []
    else
      var n := |rows| - 1;
      var init := TaggedIndices(rows[..n], id);
      assert forall k :: 0 <= k < |init| ==> rows[..n][init[k]] == rows[init[k]];
      init + if rows[n].interviewId == id then [n] else []
  }

  /** The query returns the rows tagged `id` in table order: its k-th row is
      the row at the k-th tagged position. */
  lemma {:induction false} ResponsesForInOrder(rows: seq<ResponseRow>, id: int)
    ensures |ResponsesFor(rows, id)| == |TaggedIndices(rows, id)|
    ensures forall k :: 0 <= k < |ResponsesFor(rows, id)| ==>
      ResponsesFor(rows, id)[k] == rows[TaggedIndices(rows, id)[k]]
  {
    if rows != [] {
      var n := |rows| - 1;
      var prefix := rows[..n];
      ResponsesForInOrder(prefix, id);
      var found, tagged := ResponsesFor(rows, id), TaggedIndices(rows, id);
      var foundBefore, taggedBefore := ResponsesFor(prefix, id), TaggedIndices(prefix, id);
      assert foundBefore <= found && taggedBefore <= tagged;
      forall k | 0 <= k < |found|
        ensures found[k] == rows[tagged[k]]
      {
        if k < |foundBefore| {
          assert found[k] == foundBefore[k] && tagged[k] == taggedBefore[k];
          assert prefix[taggedBefore[k]] == rows[tagged[k]];
        } else {
          assert tagged[k] == n;
        }
      }
    }
  }

  /** The feedback texts of some responses, in order. */
  function Feedbacks(rows: seq<ResponseRow>): (fs: seq<string>)
    ensures |fs| == |rows| && forall k :: 0 <= k < |rows| ==> fs[k] == rows[k].feedback
  {
    seq(|rows|, k requires 0 <= k < |rows| => rows[k].feedback)
  }

  /** An id no stored response refers to has no responses. */
  lemma {:induction false} ResponsesForUnused(rows: seq<ResponseRow>, id: int)
    requires forall j :: 0 <= j < |rows| ==> rows[j].interviewId != id
    ensures ResponsesFor(rows, id) == []
  {
    if rows != [] {
      ResponsesForUnused(rows[..|rows| - 1], id);
    }
  }

  /** When every response belongs to interview `id`, the filter keeps them all. */
  lemma {:induction false} ResponsesForOwn(rows: seq<ResponseRow>, id: int)
    requires forall j :: 0 <= j < |rows| ==> rows[j].interviewId == id
    ensures ResponsesFor(rows, id) == rows
  {
    if rows != [] {
      ResponsesForOwn(rows[..|rows| - 1], id);
    }
  }

  /** The two tables.  Ids are handed out in order from 1, so the row with
      id `i` sits at position `i - 1`, and every response refers to an
      existing interview. */
  class Store {
    var interviews: seq<InterviewRow>
    var responses: seq<ResponseRow>

    ghost predicate Valid()
      reads this
    {
      && (forall i :: 0 <= i < |interviews| ==> interviews[i].id == i + 1)
      && (forall j :: 0 <= j < |responses| ==> 1 <= responses[j].interviewId <= |interviews|)
    }

    constructor ()
      ensures Valid() && interviews == [] && responses == []
    {
      interviews, responses := [], [];
    }

    /** `db.add(Interview(user_id=..., role=...)); db.commit()`: a new row
        with a fresh id and no score, duration or completion time yet. */
    method AddInterview(userId: int, role: string) returns (id: int)
      requires Valid()
      modifies this
      ensures Valid()
      ensures id == |old(interviews)| + 1
      ensures interviews == old(interviews) + [InterviewRow(id, userId, role, None, None, None)]
      ensures responses == old(responses)
      ensures ResponsesFor(responses, id) == []
    {
      id := |interviews| + 1;
      interviews := interviews + [InterviewRow(id, userId, role, None, None, None)];
      ResponsesForUnused(responses, id);
    }

    /** `db.add(InterviewResponse(...)); db.commit()`. */
    method AddResponse(row: ResponseRow)
      requires Valid() && 1 <= row.interviewId <= |interviews|
      modifies this
      ensures Valid()
      ensures responses == old(responses) + [row] && interviews == old(interviews)
    {
      responses := responses + [row];
    }

    /** `db.query(Interview).filter(Interview.id == id).first()`. */
    function Lookup(id: int): (r: Option<InterviewRow>)
      reads this
      requires Valid()
      ensures r.Some? <==> exists i :: 0 <= i < |interviews| && interviews[i].id == id
      ensures r.Some? ==> r.value.id == id && r.value in interviews
    {
      if 1 <= id <= |interviews| then Some(interviews[id - 1]) else None
    }

    /** Setting `score`, `duration` and `completed_at` of interview `id` and
        committing; nothing else changes. */
    method RecordResult(id: int, score: int, duration: int, completedAt: int)
      requires Valid() && 1 <= id <= |interviews|
      modifies this
      ensures Valid()
      ensures interviews == old(interviews)[id - 1 := old(interviews)[id - 1].(score := Some(score),
        duration := Some(duration), completedAt := Some(completedAt))]
      ensures responses == old(responses)
    {
      var row := interviews[id - 1];
      interviews := interviews[id - 1 := row.(score := Some(score), duration := Some(duration), completedAt := Some(completedAt))];
    }
  }

  /** The browser session: each field is one key of Flask's `session`,
      `None` when the key is absent. */
  class Session {
    var userId: Option<int>
    var username: Option<string>
    var currentRole: Option<string>
    var interviewStartTime: Option<int>
    var questions: Option<seq<string>>
    var currentQuestion: Option<nat>
    var interviewId: Option<int>

    constructor ()
      ensures userId.None? && username.None? && currentRole.None? && interviewStartTime.None?
      ensures questions.None? && currentQuestion.None? && interviewId.None?
      ensures forall k :: !Has(k)
    {
      userId, username, currentRole, interviewStartTime := None, None, None, None;
      questions, currentQuestion, interviewId := None, None, None;
    }

    /** Key `k` is present in the session. */
    predicate Has(k: Key)
      reads this
    {
      match k
      case UserIdKey => userId.Some?
      case UsernameKey => username.Some?
      case CurrentRoleKey => currentRole.Some?
      case StartTimeKey => interviewStartTime.Some?
      case QuestionsKey => questions.Some?
      case CurrentQuestionKey => currentQuestion.Some?
      case InterviewIdKey => interviewId.Some?
    }

    /** The invariant the handlers keep: the question index never passes the
        end of the question list, the interview id names a stored interview,
        and once answering has begun that interview holds one response per
        answered question, for those questions in order. */
    ghost predicate Valid(db: Store)
      reads this, db
    {
      && db.Valid()
      && (currentQuestion.Some? ==> questions.Some? && currentQuestion.value <= |questions.value|)
      && (interviewId.Some? ==> 1 <= interviewId.value <= |db.interviews|)
      && (currentQuestion.Some? && currentQuestion.value > 0 ==> interviewId.Some? && InOrder(db))
    }

    /** The interview named in the session holds one response per answered
        question, for those questions in order. */
    ghost predicate InOrder(db: Store)
      reads this, db
      requires currentQuestion.Some? ==> questions.Some? && currentQuestion.value <= |questions.value|
    {
      && currentQuestion.Some? && interviewId.Some?
      && var answered := ResponsesFor(db.responses, interviewId.value);
      && |answered| == currentQuestion.value
      && forall k :: 0 <= k < |answered| ==> answered[k].question == questions.value[k]
    }

    /** A successful `login` (app.py:133-134) stores the user's id and name. */
    method SignIn(db: Store, id: int, name: string)
      requires Valid(db)
      modifies this
      ensures Valid(db)
      ensures userId == Some(id) && username == Some(name)
      ensures currentRole == old(currentRole) && interviewStartTime == old(interviewStartTime)
      ensures questions == old(questions) && currentQuestion == old(currentQuestion)
      ensures interviewId == old(interviewId)
    {
      userId, username := Some(id), Some(name);
    }

    /** `start_interview`: for a signed-in user, records the role (unchecked),
        the start time and the questions cleaned from the model's reply, and
        points at the first question.  `reply` is `None` when the model call
        raises; the exception leaves the handler and the session is not saved. */
    method StartInterview(db: Store, role: string, now: int, reply: Option<string>) returns (r: Reply)
      requires Valid(db)
      modifies this
      ensures Valid(db)
      ensures old(userId).None? ==> r == ToLogin
      ensures r == ToInterview(false) <==> old(userId).Some? && reply.Some?
      ensures old(userId).Some? && reply.None? ==> r == ServerError
      ensures r == ToInterview(false) ==>
        && currentRole == Some(role) && interviewStartTime == Some(now)
        && questions == Some(GenerateQuestions(reply.value)) && currentQuestion == Some(0)
      ensures r != ToInterview(false) ==>
        && currentRole == old(currentRole) && interviewStartTime == old(interviewStartTime)
        && questions == old(questions) && currentQuestion == old(currentQuestion)
      ensures userId == old(userId) && username == old(username) && interviewId == old(interviewId)
    {
      if userId.None? {
        return ToLogin;
      }
      if reply.None? {
        return ServerError;
      }
      var qs := GenerateQuestions(reply.value);
      Begin(db, role, now, qs);
      return ToInterview(false);
    }

    /** The four session writes of `start_interview`. */
    method Begin(db: Store, role: string, now: int, qs: seq<string>)
      requires Valid(db)
      modifies this
      ensures Valid(db)
      ensures currentRole == Some(role) && interviewStartTime == Some(now)
      ensures questions == Some(qs) && currentQuestion == Some(0)
      ensures userId == old(userId) && username == old(username) && interviewId == old(interviewId)
    {
      currentRole := Some(role);
      interviewStartTime := Some(now);
      questions := Some(qs);
      currentQuestion := Some(0);
    }

    /** `interview`: the page for the current question, numbered from 1,
        with the countdown; or the way to the result page once every question
        is answered. */
    function InterviewPage(now: int): (r: Reply)
      reads this
      ensures r.ToLogin? <==> userId.None? || currentRole.None?
      ensures r == ToComplete <==>
        userId.Some? && currentRole.Some? && currentQuestion.GetOr(0) >= |questions.GetOr([])|
      ensures r.QuestionPage? ==>
        && questions.Some? && r.total == |questions.value|
        && 1 <= r.number <= r.total
        && r.question == questions.value[r.number - 1]
        && r.number == currentQuestion.GetOr(0) + 1
        && interviewStartTime.Some?
        && r.timeRemaining == TimeRemaining(now - interviewStartTime.value)
        && 0 <= r.timeRemaining
        && (now - interviewStartTime.value >= SessionLimit ==> r.timeRemaining == 0)
      ensures r.QuestionPage? <==>
        && userId.Some? && currentRole.Some?
        && currentQuestion.GetOr(0) < |questions.GetOr([])|
        && interviewStartTime.Some?
      ensures r.ToLogin? || r == ToComplete || r.QuestionPage? || r == ServerError
    {
      if userId.None? || currentRole.None? then ToLogin
      else
        var qs := questions.GetOr([]);
        var current := currentQuestion.GetOr(0);
        if current >= |qs| then ToComplete
        else if interviewStartTime.None? then ServerError
        else
          var elapsed := now - interviewStartTime.value;
          QuestionPage(qs[current], current + 1, |qs|, TimeRemaining(elapsed))
    }

    /** `submit_answer`.  `feedback` is what the model gave, `createOk` and
        `saveOk` whether the commit of the new interview and of the response
        succeed.  On success exactly one response, tagged with the session's
        interview id, is appended and the index moves on by one; on any
        failure the index and the responses stay as they were.  A new
        interview is created only while the index is 0, and its id is kept in
        the session even if a later step fails.  A failure before `get_db()`
        runs (no question to answer, or the model call raising) leaves `db`
        unbound, so `finally: db.close()` raises and the answer is a server
        error instead of the flashed redirect. */
    method SubmitAnswer(db: Store, answer: string, feedback: FeedbackReply, createOk: bool, saveOk: bool)
      returns (r: Reply)
      requires Valid(db)
      modifies this, db
      ensures Valid(db)
      ensures old(userId).None? ==> r == ToLogin
      ensures r.ToLogin? || r.ToInterview? || r == ServerError
      ensures old(userId).Some? && r != ServerError && r != ToInterview(false) ==> r == ToInterview(true)
      ensures r == ServerError <==>
        && old(userId).Some?
        && (|| old(questions).None? || old(currentQuestion).None?
            || old(currentQuestion).value >= |old(questions).value| || feedback.CallFailed?)
      ensures r == ToInterview(false) <==>
        && old(userId).Some? && old(questions).Some? && old(currentQuestion).Some?
        && old(currentQuestion).value < |old(questions).value|
        && feedback.Text? && saveOk
        && (old(currentQuestion).value == 0 ==> old(currentRole).Some? && createOk)
        && (old(currentQuestion).value != 0 ==> old(interviewId).Some?)
      ensures r == ToInterview(false) ==>
        && interviewId.Some?
        && currentQuestion == Some(old(currentQuestion).value + 1)
        && db.responses == old(db.responses) + [ResponseRow(interviewId.value,
             old(questions).value[old(currentQuestion).value], answer, feedback.text)]
      ensures r != ToInterview(false) ==>
        currentQuestion == old(currentQuestion) && db.responses == old(db.responses)
      ensures db.interviews != old(db.interviews) <==>
        && old(userId).Some? && old(questions).Some? && old(currentQuestion) == Some(0)
        && 0 < |old(questions).value| && !feedback.CallFailed? && old(currentRole).Some? && createOk
      ensures db.interviews != old(db.interviews) ==>
        && interviewId == Some(|old(db.interviews)| + 1)
        && db.interviews == old(db.interviews)
             + [InterviewRow(|old(db.interviews)| + 1, old(userId).value, old(currentRole).value, None, None, None)]
      ensures db.interviews == old(db.interviews) ==> interviewId == old(interviewId)
      ensures userId == old(userId) && username == old(username) && currentRole == old(currentRole)
      ensures interviewStartTime == old(interviewStartTime) && questions == old(questions)
    {
      if userId.None? {
        return ToLogin;
      }
      if questions.None? || currentQuestion.None? || currentQuestion.value >= |questions.value| {
        return ServerError;
      }
      if feedback.CallFailed? {
        return ServerError;
      }
      r := Record(db, answer, feedback, createOk, saveOk);
    }

    /** The part of `submit_answer` after the model has replied: create the
        interview on the first answer, then store the response. */
    method Record(db: Store, answer: string, feedback: FeedbackReply, createOk: bool, saveOk: bool)
      returns (r: Reply)
      requires Valid(db) && userId.Some? && questions.Some? && currentQuestion.Some?
      requires currentQuestion.value < |questions.value| && !feedback.CallFailed?
      modifies this, db
      ensures Valid(db)
      ensures r.ToInterview?
      ensures !r.error <==>
        && feedback.Text? && saveOk
        && (old(currentQuestion).value == 0 ==> old(currentRole).Some? && createOk)
        && (old(currentQuestion).value != 0 ==> old(interviewId).Some?)
      ensures !r.error ==>
        && interviewId.Some?
        && currentQuestion == Some(old(currentQuestion).value + 1)
        && db.responses == old(db.responses) + [ResponseRow(interviewId.value,
             old(questions).value[old(currentQuestion).value], answer, feedback.text)]
      ensures r.error ==> currentQuestion == old(currentQuestion) && db.responses == old(db.responses)
      ensures db.interviews != old(db.interviews) <==>
        old(currentQuestion).value == 0 && old(currentRole).Some? && createOk
      ensures db.interviews != old(db.interviews) ==>
        && interviewId == Some(|old(db.interviews)| + 1)
        && db.interviews == old(db.interviews)
             + [InterviewRow(|old(db.interviews)| + 1, old(userId).value, old(currentRole).value, None, None, None)]
      ensures db.interviews == old(db.interviews) ==> interviewId == old(interviewId)
      ensures userId == old(userId) && username == old(username) && currentRole == old(currentRole)
      ensures interviewStartTime == old(interviewStartTime) && questions == old(questions)
    {
      if currentQuestion.value == 0 {
        if currentRole.None? || !createOk {
          return ToInterview(true);
        }
        Open(db);
      }
      if interviewId.None? || feedback.Blocked? || !saveOk {
        return ToInterview(true);
      }
      Answer(db, answer, feedback.text);
      return ToInterview(false);
    }

    /** Creating the interview row on the first answer and keeping its id in
        the session. */
    method Open(db: Store)
      requires Valid(db) && userId.Some? && currentRole.Some? && currentQuestion == Some(0)
      modifies this, db
      ensures Valid(db) && InOrder(db)
      ensures userId == old(userId) && username == old(username) && currentRole == old(currentRole)
      ensures interviewId == Some(|old(db.interviews)| + 1)
      ensures db.interviews == old(db.interviews)
        + [InterviewRow(|old(db.interviews)| + 1, userId.value, currentRole.value, None, None, None)]
      ensures db.responses == old(db.responses)
      ensures interviewStartTime == old(interviewStartTime) && questions == old(questions)
      ensures currentQuestion == old(currentQuestion)
    {
      var id := db.AddInterview(userId.value, currentRole.value);
      interviewId := Some(id);
    }

    /** Storing the answer to the current question with its feedback and
        moving the session on to the next question. */
    method Answer(db: Store, answer: string, feedback: string)
      requires Valid(db) && interviewId.Some? && questions.Some? && currentQuestion.Some?
      requires currentQuestion.value < |questions.value|
      requires InOrder(db)
      modifies this, db
      ensures Valid(db)
      ensures currentQuestion == Some(old(currentQuestion).value + 1)
      ensures db.responses == old(db.responses)
        + [ResponseRow(interviewId.value, questions.value[old(currentQuestion).value], answer, feedback)]
      ensures db.interviews == old(db.interviews)
      ensures userId == old(userId) && username == old(username) && currentRole == old(currentRole)
      ensures interviewStartTime == old(interviewStartTime) && questions == old(questions)
      ensures interviewId == old(interviewId)
    {
      var index := currentQuestion.value;
      var row := ResponseRow(interviewId.value, questions.value[index], answer, feedback);
      AnsweredGrows(db.responses, row);
      db.AddResponse(row);
      currentQuestion := Some(index + 1);
    }

    /** `complete_interview`: adds up the scores of the responses stored for
        the session's interview, records score, duration and completion time
        on the interview row, pops the five interview keys and shows the
        result.  `saveOk` is whether that commit succeeds; any failure shows
        the dashboard and changes nothing. */
    method Complete(db: Store, now: int, saveOk: bool) returns (r: Reply)
      requires Valid(db)
      modifies this, db
      ensures Valid(db)
      ensures old(userId).None? ==> r == ToLogin
      ensures r.ToLogin? || r.ToDashboard? || r.ResultPage?
      ensures old(userId).Some? && !r.ResultPage? ==> r == ToDashboard(true)
      ensures r.ResultPage? <==>
        old(userId).Some? && old(interviewId).Some? && old(interviewStartTime).Some? && saveOk
      ensures r.ResultPage? ==>
        && r.responses == ResponsesFor(old(db.responses), old(interviewId).value)
        && r.score == SumScores(Feedbacks(r.responses))
        && 0 <= r.score <= 10 * |r.responses|
        && r.duration == now - old(interviewStartTime).value
        && (old(currentQuestion).Some? && old(currentQuestion).value > 0 ==>
              |r.responses| == old(currentQuestion).value)
      ensures r.ResultPage? ==>
        && currentRole.None? && interviewStartTime.None? && questions.None?
        && currentQuestion.None? && interviewId.None?
        && var i := old(interviewId).value - 1;
        && db.interviews == old(db.interviews)[i := old(db.interviews)[i].(score := Some(r.score),
             duration := Some(r.duration), completedAt := Some(now))]
      ensures !r.ResultPage? ==>
        && currentRole == old(currentRole) && interviewStartTime == old(interviewStartTime)
        && questions == old(questions) && currentQuestion == old(currentQuestion)
        && interviewId == old(interviewId) && db.interviews == old(db.interviews)
      ensures userId == old(userId) && username == old(username) && db.responses == old(db.responses)
    {
      if userId.None? {
        return ToLogin;
      }
      if interviewId.None? || interviewStartTime.None? {
        return ToDashboard(true);
      }
      var id := interviewId.value;
      assert db.interviews[id - 1].id == id;
      var found := db.Lookup(id);
      if found.Some? && !saveOk {
        return ToDashboard(true);
      }
      assert currentQuestion.Some? && currentQuestion.value > 0 ==>
        |ResponsesFor(db.responses, id)| == currentQuestion.value;
      r := Conclude(db, now);
    }

    /** The part of `complete_interview` once the commit is known to succeed:
        score the responses, record the result on the interview row, pop the
        interview keys and show the result.  The session's interview id always
        names a stored row, so the `if interview:` test always passes. */
    method Conclude(db: Store, now: int) returns (r: Reply)
      requires Valid(db) && userId.Some? && interviewId.Some? && interviewStartTime.Some?
      modifies this, db
      ensures Valid(db)
      ensures r.ResultPage?
      ensures r.responses == ResponsesFor(old(db.responses), old(interviewId).value)
      ensures r.score == SumScores(Feedbacks(r.responses))
      ensures 0 <= r.score <= 10 * |r.responses|
      ensures r.duration == now - old(interviewStartTime).value
      ensures currentRole.None? && interviewStartTime.None? && questions.None?
      ensures currentQuestion.None? && interviewId.None?
      ensures var i := old(interviewId).value - 1;
        db.interviews == old(db.interviews)[i := old(db.interviews)[i].(score := Some(r.score),
          duration := Some(r.duration), completedAt := Some(now))]
      ensures userId == old(userId) && username == old(username) && db.responses == old(db.responses)
    {
      var id := interviewId.value;
      var rows := ResponsesFor(db.responses, id);
      var total, valid := TotalScore(Feedbacks(rows));
      TotalBounds(Feedbacks(rows));
      var duration := now - interviewStartTime.value;
      db.RecordResult(id, total, duration, now);
      ClearInterview();
      r := ResultPage(total, duration, rows);
    }

    /** The five `session.pop(...)` calls of `complete_interview`. */
    method ClearInterview()
      modifies this
      ensures currentRole.None? && interviewStartTime.None? && questions.None?
      ensures currentQuestion.None? && interviewId.None?
      ensures userId == old(userId) && username == old(username)
      ensures forall k :: Has(k) <==> old(Has(k)) && k !in InterviewKeys
    {
      currentRole, interviewStartTime, questions := None, None, None;
      currentQuestion, interviewId := None, None;
    }

    /** `logout`: `session.clear()`. */
    method Logout()
      modifies this
      ensures userId.None? && username.None? && currentRole.None? && interviewStartTime.None?
      ensures questions.None? && currentQuestion.None? && interviewId.None?
      ensures forall k :: !Has(k)
    {
      userId, username, currentRole, interviewStartTime := None, None, None, None;
      questions, currentQuestion, interviewId := None, None, None;
    }
  }

  /** Appending a response for interview `row.interviewId` extends that
      interview's responses by exactly that row. */
  lemma AnsweredGrows(rows: seq<ResponseRow>, row: ResponseRow)
    ensures ResponsesFor(rows + [row], row.interviewId) == ResponsesFor(rows, row.interviewId) + [row]
  {
    assert (rows + [row])[..|rows|] == rows;
  }

  /** One whole interview: sign in, start with the questions `qs` cleaned
      from the model's `reply` (at least two), answer the first two, complete.  The result shows the two
      responses, tagged with their questions in order, and the sum of the
      scores their feedback carries. */
  method Walkthrough(name: string, role: string, reply: string, qs: seq<string>,
                     a1: string, f1: string, a2: string, f2: string, start: int, elapsed: int)
    returns (page: Reply)
    requires qs == GenerateQuestions(reply) && |qs| >= 2
    ensures page.ResultPage? && page.duration == elapsed
    ensures page.responses == [ResponseRow(1, qs[0], a1, f1), ResponseRow(1, qs[1], a2, f2)]
    ensures page.score == SumScores([f1, f2])
  {
    var db, s := Begun(name, role, reply, start);
    page := Play(db, s, a1, f1, a2, f2, start + elapsed);
  }

  /** The part of `Walkthrough` after the start: two answers, then completion. */
  method Play(db: Store, s: Session, a1: string, f1: string, a2: string, f2: string, now: int)
    returns (page: Reply)
    requires s.Valid(db) && db.interviews == [] && db.responses == []
    requires s.userId.Some? && s.currentRole.Some? && s.currentQuestion == Some(0)
    requires s.questions.Some? && |s.questions.value| >= 2 && s.interviewStartTime.Some?
    modifies db, s
    ensures page.ResultPage? && page.duration == now - old(s.interviewStartTime).value
    ensures page.responses ==
      [ResponseRow(1, old(s.questions).value[0], a1, f1), ResponseRow(1, old(s.questions).value[1], a2, f2)]
    ensures page.score == SumScores([f1, f2])
  {
    AnswerTwo(db, s, a1, f1, a2, f2);
    page := Finish(db, s, now);
    FeedbacksOfTwo(page.responses[0], page.responses[1]);
  }

  /** The feedback texts of two responses. */
  lemma FeedbacksOfTwo(r1: ResponseRow, r2: ResponseRow)
    ensures Feedbacks([r1, r2]) == [r1.feedback, r2.feedback]
  {
  }

  /** A new session signed in on an empty store, with an interview on
      the questions cleaned from `reply`, started at `start` through
      `start_interview`. */
  method Begun(name: string, role: string, reply: string, start: int) returns (db: Store, s: Session)
    ensures fresh(db) && fresh(s) && s.Valid(db)
    ensures db.interviews == [] && db.responses == []
    ensures s.userId.Some? && s.currentRole == Some(role) && s.interviewStartTime == Some(start)
    ensures s.questions == Some(GenerateQuestions(reply)) && s.currentQuestion == Some(0)
  {
    db, s := SignedIn(name);
    var r := s.StartInterview(db, role, start, Some(reply));
  }

  /** A new session signed in on an empty store, before any interview. */
  method SignedIn(name: string) returns (db: Store, s: Session)
    ensures fresh(db) && fresh(s) && s.Valid(db)
    ensures db.interviews == [] && db.responses == []
    ensures s.userId.Some?
  {
    db := new Store();
    s := new Session();
    s.SignIn(db, 7, name);
  }


  /** `complete_interview` on interview 1 when every stored response belongs
      to it and the commit succeeds: the result lists all responses. */
  method Finish(db: Store, s: Session, now: int) returns (page: Reply)
    requires s.Valid(db) && s.userId.Some? && s.interviewId == Some(1) && s.interviewStartTime.Some?
    requires forall j :: 0 <= j < |db.responses| ==> db.responses[j].interviewId == 1
    modifies db, s
    ensures page.ResultPage? && page.duration == now - old(s.interviewStartTime).value
    ensures page.responses == old(db.responses)
    ensures page.score == SumScores(Feedbacks(page.responses))
  {
    ResponsesForOwn(db.responses, 1);
    page := s.Complete(db, now, true);
  }

  /** Answering the first two questions of an interview that has none
      stored yet. */
  method AnswerTwo(db: Store, s: Session, a1: string, f1: string, a2: string, f2: string)
    requires s.Valid(db) && db.interviews == [] && db.responses == []
    requires s.userId.Some? && s.currentRole.Some? && s.currentQuestion == Some(0)
    requires s.questions.Some? && |s.questions.value| >= 2
    modifies db, s
    ensures s.Valid(db) && s.interviewId == Some(1)
    ensures s.userId == old(s.userId) && s.interviewStartTime == old(s.interviewStartTime)
    ensures s.questions == old(s.questions)
    ensures db.responses == [ResponseRow(1, s.questions.value[0], a1, f1), ResponseRow(1, s.questions.value[1], a2, f2)]
  {
    AnswerOne(db, s, a1, f1);
    AnswerSecond(db, s, a2, f2);
  }

  /** Answering the second question of interview 1, whose first answer is stored. */
  method AnswerSecond(db: Store, s: Session, answer: string, feedback: string)
    requires s.Valid(db) && s.userId.Some? && s.interviewId == Some(1) && s.currentQuestion == Some(1)
    requires s.questions.Some? && |s.questions.value| >= 2 && |db.responses| == 1
    modifies db, s
    ensures s.Valid(db) && s.interviewId == Some(1)
    ensures s.userId == old(s.userId) && s.interviewStartTime == old(s.interviewStartTime)
    ensures s.questions == old(s.questions)
    ensures db.responses == old(db.responses) + [ResponseRow(1, s.questions.value[1], answer, feedback)]
  {
    AnswerOne(db, s, answer, feedback);
  }

  /** `submit_answer` when the model replies and every commit succeeds. */
  method AnswerOne(db: Store, s: Session, answer: string, feedback: string)
    requires s.Valid(db) && s.userId.Some? && s.questions.Some? && s.currentQuestion.Some?
    requires s.currentQuestion.value < |s.questions.value|
    requires s.currentQuestion.value == 0 ==> s.currentRole.Some?
    requires s.currentQuestion.value != 0 ==> s.interviewId.Some?
    modifies db, s
    ensures s.Valid(db)
    ensures s.userId == old(s.userId) && s.interviewStartTime == old(s.interviewStartTime)
    ensures s.questions == old(s.questions) && s.currentRole == old(s.currentRole)
    ensures s.currentQuestion == Some(old(s.currentQuestion).value + 1)
    ensures old(s.currentQuestion).value == 0 ==> s.interviewId == Some(|old(db.interviews)| + 1)
    ensures old(s.currentQuestion).value != 0 ==> s.interviewId == old(s.interviewId)
    ensures s.interviewId.Some?
    ensures db.responses == old(db.responses)
      + [ResponseRow(s.interviewId.value, s.questions.value[old(s.currentQuestion).value], answer, feedback)]
  {
    var r := s.SubmitAnswer(db, answer, Text(feedback), true, true);
  }
}
