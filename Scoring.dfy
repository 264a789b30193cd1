/** Score extraction and aggregation done when an interview is completed
    (app.py:245-261): each stored feedback text is searched for a
    "Score: <n> out of ..." phrase, values in 0..10 are added up, and any
    feedback that does not parse is skipped. */
module Scoring {
  import opened Wrappers
  import opened Text

  const Marker := "Score:"
  const OutOf := "out of"

  /** `int(feedback.split('Score:')[1].split('out of')[0].strip())`.
      `None` stands for the exception the expression raises: the
      `IndexError` when there is no marker and the `ValueError` when the text
      between the marker and "out of" is not an integer literal. */
  function ParseScore(feedback: string): (r: Option<int>)
    ensures (forall i :: 0 <= i ==> !OccursAt(feedback, Marker, i)) ==> r.None?
  {
    match After(feedback, Marker)
    case None => None
    case Some(rest) => ParseInt(Strip(Before(Before(rest, Marker), OutOf), Whitespace))
  }

  /** The score a feedback text adds to the total: a parsed value that lies
      in 0..10, and nothing otherwise. */
  function AcceptedScore(feedback: string): (r: Option<int>)
    ensures r.Some? <==> ParseScore(feedback).Some? && 0 <= ParseScore(feedback).value <= 10
    ensures r.Some? ==> r == ParseScore(feedback)
  {
    match ParseScore(feedback)
    case Some(score) => if 0 <= score <= 10 then Some(score) else None
    case None => None
  }

  /** How many feedback texts carry an accepted score (`valid_responses`). */
  function AcceptedCount(feedbacks: seq<string>): (n: nat)
    ensures n <= |feedbacks|
  {
    if feedbacks == [] then 0
    else
      var init := feedbacks[..|feedbacks| - 1];
      AcceptedCount(init) + if AcceptedScore(feedbacks[|feedbacks| - 1]).Some? then 1 else 0
  }

  /** The plain sum of the accepted scores (`total_score`).  It is not an
      average: it lies between 0 and 10 for every accepted score. */
  function SumScores(feedbacks: seq<string>): (total: int)
    ensures 0 <= total <= 10 * AcceptedCount(feedbacks)
  {
    if feedbacks == [] then 0
    else
      var init := feedbacks[..|feedbacks| - 1];
      SumScores(init) + AcceptedScore(feedbacks[|feedbacks| - 1]).GetOr(0)
  }

  /** The loop of app.py:245-258: it visits every response once, skips a
      feedback whose parse raised (`except: continue`) or whose value lies
      outside 0..10, and adds up the rest. */
  method TotalScore(feedbacks: seq<string>) returns (total: int, valid: nat)
    ensures total == SumScores(feedbacks)
    ensures valid == AcceptedCount(feedbacks)
  {
    total, valid := 0, 0;
    for i := 0 to |feedbacks|
      invariant total == SumScores(feedbacks[..i])
      invariant valid == AcceptedCount(feedbacks[..i])
    {
      assert feedbacks[..i + 1][..i] == feedbacks[..i];
      var parsed := ParseScore(feedbacks[i]);
      if parsed.None? {
        continue;
      }
      var score := parsed.value;
      if 0 <= score <= 10 {
        total := total + score;
        valid := valid + 1;
      }
    }
    assert feedbacks[..|feedbacks|] == feedbacks;
  }

  /** The total over two runs of responses is the sum of their totals, so a
      response only ever affects its own contribution. */
  lemma {:induction false} SumScoresAppend(a: seq<string>, b: seq<string>)
    ensures SumScores(a + b) == SumScores(a) + SumScores(b)
    ensures AcceptedCount(a + b) == AcceptedCount(a) + AcceptedCount(b)
  {
    if b == [] {
      assert a + b == a;
    } else {
      assert (a + b)[..|a + b| - 1] == a + b[..|b| - 1];
      SumScoresAppend(a, b[..|b| - 1]);
    }
  }

  /** A response whose feedback yields no accepted score changes neither the
      total nor the number of valid responses: it is left out, not counted as
      a zero. */
  lemma UnscoredIsExcluded(a: seq<string>, f: string, b: seq<string>)
    requires AcceptedScore(f).None?
    ensures SumScores(a + [f] + b) == SumScores(a + b)
    ensures AcceptedCount(a + [f] + b) == AcceptedCount(a + b)
  {
    SumScoresAppend(a, [f]);
    SumScoresAppend(a + [f], b);
    SumScoresAppend(a, b);
    assert [f][..0] == [];
  }

  /** The total shown and stored never exceeds ten per response. */
  lemma TotalBounds(feedbacks: seq<string>)
    ensures 0 <= SumScores(feedbacks) <= 10 * |feedbacks|
  {
  }

  /** The phrase the parser looks for. */
  function ScorePhrase(v: int): (p: string) {
    "Score: " + IntToString(v) + " out of 10"
  }

  /** Whatever precedes the first "Score:" and whatever follows the phrase,
      `ParseScore` recovers the value written in it, negative ones included. */
  lemma ParseScorePhrase(prose: string, v: int, tail: string)
    requires IndexOf(prose, Marker).None?
    ensures ParseScore(prose + ScorePhrase(v) + tail) == Some(v)
  {
    var digits := IntToString(v);
    calc {
      ParseScore(prose + ScorePhrase(v) + tail);
    == { PhraseSplitsAtMarker(prose, v, tail); }
      ParseScore(prose + Marker + (" " + digits + " out of 10" + tail));
    == { ParseScoreAfterFirstMarker(prose, " " + digits + " out of 10" + tail); }
      ParseInt(Strip(Before(Before(" " + digits + " out of 10" + tail, Marker), OutOf), Whitespace));
    == { NumberSegment(digits, tail); }
      ParseInt(Strip(" " + digits + " ", Whitespace));
    == { StripSpacedNumber(v); }
      ParseInt(digits);
    == { ParseIntOfIntToString(v); }
      Some(v);
    }
  }

  /** The number between single spaces is all that `strip()` keeps. */
  lemma StripSpacedNumber(v: int)
    ensures Strip(" " + IntToString(v) + " ", Whitespace) == IntToString(v)
  {
    var digits := IntToString(v);
    assert digits[0] !in Whitespace;
    assert digits[|digits| - 1] !in Whitespace;
    StripPadding(" ", digits, " ", Whitespace);
  }

  /** The phrase starts with the marker. */
  lemma PhraseSplitsAtMarker(prose: string, v: int, tail: string)
    ensures prose + ScorePhrase(v) + tail == prose + Marker + (" " + IntToString(v) + " out of 10" + tail)
  {
    assert ScorePhrase(v) == Marker + " " + IntToString(v) + " out of 10";
  }

  /** After marker-free prose, the first marker is the one that counts. */
  lemma ParseScoreAfterFirstMarker(prose: string, rest: string)
    requires IndexOf(prose, Marker).None?
    ensures ParseScore(prose + Marker + rest)
         == ParseInt(Strip(Before(Before(rest, Marker), OutOf), Whitespace))
  {
    AfterFirstMarker(prose, rest);
  }

  /** The first marker is the one right after marker-free prose. */
  lemma AfterFirstMarker(prose: string, rest: string)
    requires IndexOf(prose, Marker).None?
    ensures After(prose + Marker + rest, Marker) == Some(rest)
  {
    var f := prose + Marker + rest;
    assert f[|prose|..|prose| + |Marker|] == Marker;
    forall i | 0 <= i < |prose|
      ensures !OccursAt(f, Marker, i)
    {
      if i + |Marker| <= |prose| {
        assert f[i..i + |Marker|] == prose[i..i + |Marker|];
        assert !OccursAt(prose, Marker, i);
      } else {
        assert f[|prose|] == 'S';
        assert f[i..i + |Marker|][|prose| - i] == f[|prose|];
      }
    }
    IndexOfIsFirst(f, Marker, |prose|);
    assert f[|prose| + |Marker|..] == rest;
  }

  /** Between the marker and "out of" stands the number with one space on
      each side, whatever the tail holds. */
  lemma NumberSegment(digits: string, tail: string)
    requires forall i :: 0 <= i < |digits| ==> IsDigit(digits[i]) || digits[i] == '-'
    ensures Before(Before(" " + digits + " out of 10" + tail, Marker), OutOf) == " " + digits + " "
  {
    var head := " " + digits + " out of 10";
    assert 'S' !in head;
    BeforeSkips(head, tail, Marker);
    assert head + Before(tail, Marker) == (" " + digits + " ") + ("out of 10" + Before(tail, Marker));
    CutAtOutOf(" " + digits + " ", "out of 10" + Before(tail, Marker));
  }

  /** Text free of the letter 'o' followed by "out of 10" is cut right there. */
  lemma CutAtOutOf(padded: string, after: string)
    requires 'o' !in padded && |after| >= |OutOf| && after[..|OutOf|] == OutOf
    ensures Before(padded + after, OutOf) == padded
  {
    BeforeSkips(padded, after, OutOf);
    IndexOfIsFirst(after, OutOf, 0);
  }

  /** Feedback without the marker yields no score. */
  lemma NoMarkerNoScore(feedback: string)
    requires 'S' !in feedback
    ensures ParseScore(feedback).None?
  {
    NoOccurrenceWithoutFirstChar(feedback, Marker);
  }

  /** A marker at the very start of the feedback. */
  lemma ParseScoreLeading(v: int)
    ensures ParseScore(ScorePhrase(v)) == Some(v)
  {
    NoOccurrenceWithoutFirstChar("", Marker);
    ParseScorePhrase("", v, "");
    assert "" + ScorePhrase(v) + "" == ScorePhrase(v);
  }

  /** "Score: 7 out of 10" inside prose parses to 7; "Score: 15" and
      "Score: -3" parse but are rejected as out of range. */
  lemma ParseExamples()
    ensures ParseScore("Good answer. " + ScorePhrase(7) + ".") == Some(7)
    ensures ParseScore(ScorePhrase(15)) == Some(15) && AcceptedScore(ScorePhrase(15)).None?
    ensures ParseScore(ScorePhrase(-3)) == Some(-3) && AcceptedScore(ScorePhrase(-3)).None?
  {
    NoOccurrenceWithoutFirstChar("Good answer. ", Marker);
    ParseScorePhrase("Good answer. ", 7, ".");
    ParseScoreLeading(15);
    ParseScoreLeading(-3);
  }

  /** Two phrased scores in range around a feedback without a score: the
      total is the sum of the two and two responses count as valid. */
  lemma SumExample(v1: int, none: string, v2: int)
    requires 0 <= v1 <= 10 && 0 <= v2 <= 10 && 'S' !in none
    ensures SumScores([ScorePhrase(v1), none, ScorePhrase(v2)]) == v1 + v2
    ensures AcceptedCount([ScorePhrase(v1), none, ScorePhrase(v2)]) == 2
  {
    AcceptedPhrase(v1);
    AcceptedPhrase(v2);
    NoMarkerNoScore(none);
    SumOfThree(ScorePhrase(v1), none, ScorePhrase(v2));
  }

  /** A phrased score in 0..10 is accepted as it stands. */
  lemma AcceptedPhrase(v: int)
    requires 0 <= v <= 10
    ensures AcceptedScore(ScorePhrase(v)) == Some(v)
  {
    ParseScoreLeading(v);
  }

  /** The total and the count of three feedback texts, one by one. */
  lemma SumOfThree(a: string, b: string, c: string)
    ensures SumScores([a, b, c]) == AcceptedScore(a).GetOr(0) + AcceptedScore(b).GetOr(0) + AcceptedScore(c).GetOr(0)
    ensures AcceptedCount([a, b, c]) == Counted(a) + Counted(b) + Counted(c)
  {
    SumOfOne(a);
    SumOfOne(b);
    SumOfOne(c);
    SumScoresAppend([a], [b]);
    SumScoresAppend([a, b], [c]);
    assert [a] + [b] == [a, b] && [a, b] + [c] == [a, b, c];
  }

  /** One if the feedback text carries an accepted score, zero otherwise. */
  function Counted(f: string): (n: nat) {
    if AcceptedScore(f).Some? then 1 else 0
  }

  /** A single feedback text contributes its accepted score, if any. */
  lemma SumOfOne(f: string)
    ensures SumScores([f]) == AcceptedScore(f).GetOr(0) && AcceptedCount([f]) == Counted(f)
  {
    assert [f][..0] == [];
  }
}
