# AI Interview Assistant: the interview flow

This project models `app.py` of the AI Interview Assistant, a Flask application. A signed-in user picks a role. The app asks a language model for interview questions and walks the user through them one at a time. Each answer is stored with the model's feedback. At the end, the scores found in the feedback are added up and recorded on the interview.

Modules:

- `Wrappers`: the `Option` type.
- `Text`: the parts of Python's `str` the app relies on:
  - `split` on a one-character separator;
  - `split(pat)[0]` and `split(pat)[1]` on a string pattern;
  - `strip()` and `strip(chars)`;
  - `int()` on a decimal literal.
- `Scoring`: extracting the score from one feedback text, and the loop of `complete_interview` that adds the scores up.
- `Questions`: the post-processing of the model's reply in `generate_questions`.
- `Timing`: the countdown of the interview page.
- `Interview`:
  - the two tables, as the class `Store`;
  - Flask's `session`, as the class `Session`, with one `Option` field per key;
  - the request handlers `start_interview`, `interview`, `submit_answer`, `complete_interview` and `logout`, plus the session effect of `login`. They are methods of `Session` that update the session and the store in place.

Calls into the outside world are inputs:

- The language model's replies are parameters. For questions, `Option<string>` is `None` when the call raises. For feedback, `FeedbackReply` is one of: the call raised; the reply has no text; the text.
- The clock is a parameter, in whole seconds.
- Each database commit has a parameter saying whether it succeeds.

Exceptions caught by a handler become the redirect that handler answers with. In `submit_answer` a failure before `db = get_db()` (no question at the index, or the model call raising) makes `finally: db.close()` raise `UnboundLocalError`, so those paths answer a server error. `start_interview` does not catch the exception of its model call. The app runs with `debug=True`, so that exception propagates out of Flask and the session is not saved. The model therefore leaves the session unchanged on that path.

## Model

| member | source | states |
|---|---|---|
| Text.IndexOf | app.py:251 | The result is the leftmost occurrence of the pattern, and `None` exactly when there is none. |
| Text.After | app.py:251 | `split(pat)[1]` fails, giving `None`, exactly when the pattern does not occur. |
| Text.Before | app.py:251 | `split(pat)[0]` is a prefix of the string. |
| Text.BeforeIsFirstCut | app.py:251 | `split(pat)[0]` ends at the leftmost occurrence: it holds no occurrence, and it is either the whole string or followed by an occurrence. |
| Text.BeforeSkips | app.py:251 | A prefix that lacks the pattern's first character passes through `split(pat)[0]` unchanged. |
| Text.Split | app.py:182 | `split('\n')` yields at least one piece, and no piece contains the separator. |
| Text.SplitJoin | app.py:182 | Joining the pieces of a split with the separator gives the original string back. |
| Text.SplitUnique | app.py:182 | Separator-free pieces that join to `s` are exactly the split of `s`. |
| Text.TrimStart | app.py:182-183 | Only characters of the strip set are removed from the front, and the result does not start with one. |
| Text.TrimEnd | app.py:182-183 | Only characters of the strip set are removed from the back, and the result does not end with one. |
| Text.Strip | app.py:182-183 | `strip(chars)` never lengthens a string. |
| Text.StripEnds | app.py:182-183 | A stripped string neither begins nor ends with a stripped character. |
| Text.StripIsSlice | app.py:182-183 | A stripped string is a contiguous slice of the input, and everything cut away on both sides is in the strip set. |
| Text.StripEmptyIff | app.py:183 | `strip` gives the empty string exactly when every character is in the strip set. |
| Text.StripPadding | app.py:182-183 | Padding from the strip set around a word that neither starts nor ends in the set is removed, and the word is kept. |
| Text.ParseInt | app.py:251 | `int()` succeeds exactly on an optionally signed run of digits. A `-` sign gives a value of at most 0, and no sign or `+` gives at least 0. |
| Text.DigitsValueOfNatToString | app.py:251 | Reading back the decimal rendering of a natural number gives that number. |
| Text.ParseIntOfIntToString | app.py:251 | `int(str(v)) == v` for every integer, negative ones included. |
| Scoring.ParseScore | app.py:251 | Feedback without the `Score:` marker yields no score, standing for the caught `IndexError`. |
| Scoring.AcceptedScore | app.py:251-256 | A feedback contributes a score exactly when it parses to a value in 0..10, and then contributes that value. |
| Scoring.AcceptedCount | app.py:246-256 | `valid_responses` never exceeds the number of responses. |
| Scoring.SumScores | app.py:245-261 | `total_score` lies between 0 and 10 times the number of accepted scores. |
| Scoring.TotalScore | app.py:245-258 | The loop's total and count equal the sum and the count of the accepted scores. |
| Scoring.SumScoresAppend | app.py:247-258 | Both total and count over two runs of responses are the sums over each run. |
| Scoring.UnscoredIsExcluded | app.py:249-258 | A feedback without an accepted score changes neither total nor count. It is skipped, not counted as a zero. |
| Scoring.TotalBounds | app.py:245-261 | The total is between 0 and 10 times the number of responses. |
| Scoring.ParseScorePhrase | app.py:251 | With marker-free prose before it, `Score: v out of 10` parses to `v`, whatever follows it. |
| Scoring.NoMarkerNoScore | app.py:251 | Feedback without an `S` has no score. |
| Scoring.ParseScoreLeading | app.py:251 | A feedback that starts with the score phrase parses to its value. |
| Scoring.ParseExamples | app.py:251-253 | "Score: 7 out of 10" inside prose gives 7. "Score: 15" and "Score: -3" parse but are rejected as out of range. |
| Scoring.SumExample | app.py:245-258 | Two in-range scores around an unscored feedback give their sum, and two valid responses. |
| Questions.CleanLines | app.py:183 | The comprehension gives at most one question per line. No question begins or ends with a digit, `.` or space. |
| Questions.KeptIndices | app.py:183 | The kept positions are increasing, each is non-blank, and every non-blank line is kept. |
| Questions.CleanLinesKeepsOrder | app.py:183 | Question k is the stripped form of the k-th non-blank line, in order. |
| Questions.QuestionIsSliceOfLine | app.py:183 | Each question is a slice of its line, and only digits, dots and spaces were cut from it. |
| Questions.BlankIffStripEmpty | app.py:183 | The filter `if q.strip()` drops exactly the whitespace-only lines. |
| Questions.NumberOnlyLineBecomesEmpty | app.py:183 | A line such as "5." passes the filter and yields an empty question. |
| Questions.TrailingNumberIsStripped | app.py:183 | Trailing digits and dots of a question are stripped as well, so "Python 3.10" loses its version. |
| Questions.CleanLinesSnoc | app.py:183 | Cleaning one more line adds its stripped form, unless that line is blank. |
| Questions.NumberedLineCleaned | app.py:183 | A numbered, non-blank line is kept, with its numbering and any trailing dot removed. |
| Questions.TwoNumberedLines | app.py:183 | Two numbered lines give their two texts, in order. |
| Questions.GenerateQuestions | app.py:179-183 | At most one question per line of the stripped reply. No question begins or ends with a digit, `.` or space. |
| Questions.GenerateQuestionsKeepsOrder | app.py:182-183 | Question k is the k-th non-blank line of the stripped reply split at `\n`, stripped of its numbering. |
| Questions.GenerateQuestionsExample | app.py:179-183 | A numbered two-line reply with a trailing newline gives its two questions without numbers or final dot. |
| Timing.TimeRemaining | app.py:170-171 | The countdown is never negative. It is 0 exactly once 1800 seconds have passed, and until then it adds up with the elapsed time to 1800. |
| Timing.TimeRemainingFacts | app.py:170-171 | The countdown never rises as time passes. It starts at 1800 and never exceeds 1800 once started. |
| Interview.ResponsesFor | app.py:240-242 | The query returns only stored responses of the given interview. |
| Interview.ResponsesForComplete | app.py:240-242 | The query returns every stored response of the interview. |
| Interview.TaggedIndices | app.py:240-242 | The positions of the rows tagged with the interview id are increasing, and each tagged row's position is among them. |
| Interview.ResponsesForInOrder | app.py:240-242 | The k-th row the query returns is the row at the k-th tagged position, so the rows come back in table order. |
| Interview.ResponsesForUnused | app.py:240-242 | An interview id no response refers to has no responses. |
| Interview.ResponsesForOwn | app.py:240-242 | When every response belongs to the interview, the query returns them all. |
| Interview.AnsweredGrows | app.py:211-219 | Storing a response extends its interview's responses by exactly that row. |
| Interview.Store.constructor | app.py:46-47 | The tables start empty. |
| Interview.Store.AddInterview | app.py:203-209 | Appends a row with the next id and no score, duration or completion time, and returns that id. The new interview has no responses. |
| Interview.Store.AddResponse | app.py:211-219 | Appends exactly one response, and the interviews are unchanged. |
| Interview.Store.Lookup | app.py:268-270 | Finds the row with the given id exactly when one exists. |
| Interview.Store.RecordResult | app.py:272-276 | Sets score, duration and completion time of that one interview. Every other row and every response is unchanged. |
| Interview.Session.SignIn | app.py:132-135 | Stores the user's id and name, and leaves the interview keys alone. |
| Interview.Session.StartInterview | app.py:146-157 | Signed out: goes to login. Otherwise it sets role, start time, cleaned questions and index 0 exactly when the model replies. If the model raises, the answer is a server error and the session is unchanged. User and interview id are untouched. |
| Interview.Session.Begin | app.py:152-155 | Performs the four session writes of `start_interview` and keeps the invariant. |
| Interview.Session.InterviewPage | app.py:159-177 | Shows question `current+1` of `len(questions)`, which is `questions[current]`, with the countdown `max(1800 - elapsed, 0)` (`TimeRemaining`). Redirects to completion exactly when the index is at or past the end, and to login without user or role. The question page is shown exactly when user, role and start time are present and the index is before the end. |
| Interview.Session.SubmitAnswer | app.py:185-229 | On success it appends one response with the current question, tagged with the session's interview id, and advances the index by exactly 1. On any failure index and responses are unchanged. A missing question or a failing model call, which happen before `get_db()`, answer a server error. For a signed-in user, every other answer is the redirect back to the interview, with the error notice exactly on failure. An interview row is created, and its id stored, exactly when the index was 0 and the creation commit succeeded. The invariant holds throughout: index <= number of questions, and the interview holds one response per answered question, in order. |
| Interview.Session.Record | app.py:198-227 | Once the model has replied: the answer is stored and the index advanced exactly when the reply has text, the commits succeed and an interview exists or is created at index 0. Otherwise index and responses stay. A new interview row appears exactly at index 0 with a role and a successful commit. |
| Interview.Session.Open | app.py:201-209 | Creates the interview on the first answer, stores its id, and establishes the response/index correspondence. |
| Interview.Session.Answer | app.py:211-221 | Stores the answer to the current question and moves the index on by one. |
| Interview.Session.Complete | app.py:231-295 | The result lists the interview's responses. Its score is the sum of accepted scores, between 0 and 10 per response, and there is one response per answered question. Score, duration and completion time are recorded on that interview only, and exactly the five interview keys are popped. For a signed-in user, every failure answers the dashboard with the error notice, and nothing changes. |
| Interview.Session.Conclude | app.py:240-288 | Lists the interview's responses with the summed score, records score, duration and completion time on that row only, and pops the interview keys. |
| Interview.Session.ClearInterview | app.py:278-283 | Removes exactly `current_role`, `interview_start_time`, `questions`, `current_question` and `interview_id`, and keeps `user_id` and `username`. |
| Interview.Session.Logout | app.py:297-300 | `session.clear()` leaves no key at all. |
| Interview.Walkthrough | app.py:146-295 | Sign in, start with questions cleaned from a model reply that yields at least two, answer two questions, complete: the result shows both responses, tagged with their questions in order, the elapsed time, and the sum of the scores in the two feedbacks. |
| Interview.Play | app.py:185-295 | From a started session on an empty store, two answers and completion give a result with both responses in question order, the elapsed time and the sum of the two scores. |
| Interview.Finish | app.py:231-295 | Completing an interview that owns every stored response lists them all, with the score summed from their feedback. |
| Interview.Begun | app.py:146-157 | Signing in and then `start_interview` with a model reply give a session on an empty store that points at the first question cleaned from that reply. |
| Interview.AnswerTwo | app.py:185-229 | Two successful submissions create interview 1 and store both answers in order. |
| Interview.AnswerSecond | app.py:185-229 | A second successful submission appends its answer to interview 1, tagged with the second question. |
| Interview.AnswerOne | app.py:185-229 | A submission whose model call and commits succeed always stores the answer and advances the index. |

## Left out

- Flask routing, templates, `flash` messages and `print` are left out. A handler's answer is a `Reply` value, and a flashed error is its `error` flag.
- `signup`, `home` and `dashboard` are left out, and so is the user table. `login` is modelled only by its effect on the session (`Session.SignIn`). It looks a user up by e-mail only and never checks the password; that is outside this model.
- The Gemini calls are parameters. The prompts sent to the model are not modelled.
- Timestamps are whole seconds. `datetime.now().timestamp()` is a float whose difference `int()` truncates, and that truncation is not modelled. `completed_at` is a clock value, not the `strftime` text.
- Text.ParseInt: does not accept the underscores (`1_0`) or non-ASCII decimal digits that Python's `int()` also reads. Such feedback is modelled as having no score.
- `start_interview` without a `role` form field answers a server error under `debug=True` (400 without it). Nothing is written to the session before app.py:151, so the session is unchanged. The model always has a role.
- The `ROLES` table (app.py:65-70) is only shown by `dashboard`. `start_interview` stores whatever role it is sent, and so does the model.
- Flask's session is a client-side cookie signed with the constant key `"123"` (app.py:50). A replayed or forged cookie can hold any values and break `Session.Valid`, which every handler method requires. The model assumes the session is one the handlers wrote.
- Interview.Session.SubmitAnswer: a request without an `answer` form field is not modelled, because the answer is always a parameter. In the source that request fails before `get_db()` too and also ends in a server error.
- `get_db` closes the SQLAlchemy session before returning it. A closed session stays usable, so the model treats the database as always open.
- Database ids are modelled as autoincrement on a fresh database, so the row with id `i` is at position `i - 1`. Deleted rows and other writers are left out.
- Query results come back in insertion order. The source has no `ORDER BY`.
- Column length limits (`String(500)` and the like) are not modelled.
- Concurrent requests and several browser sessions sharing the database are left out.
- Interview.Walkthrough: covers one run with exactly two answers. The invariant kept by `SubmitAnswer` covers any number of answers.
