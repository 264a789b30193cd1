/** Post-processing of the model's reply in `generate_questions`
    (app.py:182-183): the reply is stripped, cut into lines at '\n', blank
    lines are dropped and every other line loses the digits, dots and spaces
    at both of its ends. */
module Questions {
  import opened Text

  /** The argument of `q.strip('1234567890. ')`. */
  const NumberingChars: set<char> := {'1', '2', '3', '4', '5', '6', '7', '8', '9', '0', '.', ' '}

  /** A line the comprehension filters out, one made of whitespace only:
      `BlankIffStripEmpty` shows that this is when `q.strip()` is empty. */
  predicate IsBlank(line: string) {
    AllIn(line, Whitespace)
  }

  /** A question that neither begins nor ends with a digit, '.' or ' '. */
  predicate Tidy(q: string) {
    q != [] ==> q[0] !in NumberingChars && q[|q| - 1] !in NumberingChars
  }

  /** The list comprehension `[q.strip('1234567890. ') for q in lines if q.strip()]`. */
  function CleanLines(lines: seq<string>): (r: seq<string>)
    ensures |r| <= |lines|
    ensures forall k :: 0 <= k < |r| ==> Tidy(r[k])
  {
    if lines == [] then []
    else
      var last := lines[|lines| - 1];
      CleanLines(lines[..|lines| - 1]) + if IsBlank(last) then [] else [Strip(last, NumberingChars)]
  }

  /** The questions `generate_questions` returns for the model's reply text:
      at most one per line of the stripped reply, none of them beginning or
      ending with a digit, '.' or ' '.  `GenerateQuestionsKeepsOrder` says
      which line each one comes from. */
  function GenerateQuestions(reply: string): (qs: seq<string>)
    ensures |qs| <= |Split(Strip(reply, Whitespace), '\n')|
    ensures forall k :: 0 <= k < |qs| ==> Tidy(qs[k])
  {
    CleanLines(Split(Strip(reply, Whitespace), '\n'))
  }

  /** Question k of a reply is the k-th non-blank line of the stripped reply,
      stripped of its numbering; the questions keep the order of the lines. */
  lemma GenerateQuestionsKeepsOrder(reply: string)
    ensures var lines := Split(Strip(reply, Whitespace), '\n');
      && |GenerateQuestions(reply)| == |KeptIndices(lines)|
      && forall k :: 0 <= k < |GenerateQuestions(reply)| ==>
           GenerateQuestions(reply)[k] == Strip(lines[KeptIndices(lines)[k]], NumberingChars)
  {
    CleanLinesKeepsOrder(Split(Strip(reply, Whitespace), '\n'));
  }

  /** The positions of the lines the comprehension keeps, in order: a
      reference description of the filter, independent of the stripping. */
  function KeptIndices(lines: seq<string>): (ix: seq<nat>)
    ensures forall k :: 0 <= k < |ix| ==> ix[k] < |lines| && !IsBlank(lines[ix[k]])
    ensures forall k, m :: 0 <= k < m < |ix| ==> ix[k] < ix[m]
    ensures forall j :: 0 <= j < |lines| && !IsBlank(lines[j]) ==> j in ix
  {
    if lines == [] then []
    else
      var n := |lines| - 1;
      var init := KeptIndices(lines[..n]);
      assert forall k :: 0 <= k < |init| ==> lines[..n][init[k]] == lines[init[k]];
      init + if IsBlank(lines[n]) then [] else [n]
  }

  /** The comprehension keeps the non-blank lines, in their order, and
      strips each of them: item k is the stripped line `KeptIndices[k]`, a
      slice of that line whose surroundings are all digits, dots or spaces. */
  lemma {:induction false} CleanLinesKeepsOrder(lines: seq<string>)
    ensures |CleanLines(lines)| == |KeptIndices(lines)|
    ensures forall k :: 0 <= k < |CleanLines(lines)| ==>
      CleanLines(lines)[k] == Strip(lines[KeptIndices(lines)[k]], NumberingChars)
  {
    if lines != [] {
      var n := |lines| - 1;
      var prefix := lines[..n];
      CleanLinesKeepsOrder(prefix);
      var cleaned, kept := CleanLines(lines), KeptIndices(lines);
      var cleanedBefore, keptBefore := CleanLines(prefix), KeptIndices(prefix);
      assert cleanedBefore <= cleaned && keptBefore <= kept;
      forall k | 0 <= k < |cleaned|
        ensures cleaned[k] == Strip(lines[kept[k]], NumberingChars)
      {
        if k < |cleanedBefore| {
          assert cleaned[k] == cleanedBefore[k] && kept[k] == keptBefore[k];
          assert prefix[keptBefore[k]] == lines[kept[k]];
        } else {
          assert kept[k] == n;
        }
      }
    }
  }

  /** Each question is a slice of the line it came from, and only digits,
      dots and spaces were cut from either end. */
  lemma QuestionIsSliceOfLine(lines: seq<string>, k: nat)
    requires k < |KeptIndices(lines)|
    ensures k < |CleanLines(lines)| && KeptIndices(lines)[k] < |lines|
    ensures exists i :: StrippedAt(lines[KeptIndices(lines)[k]], CleanLines(lines)[k], i, NumberingChars)
  {
    CleanLinesKeepsOrder(lines);
    StripIsSlice(lines[KeptIndices(lines)[k]], NumberingChars);
  }

  /** A line is blank exactly when `q.strip()` is the empty string, the
      condition of the comprehension's filter. */
  lemma BlankIffStripEmpty(line: string)
    ensures IsBlank(line) <==> Strip(line, Whitespace) == []
  {
    StripEmptyIff(line, Whitespace);
  }

  /** A line of nothing but numbering, such as "5.", passes the blank filter
      and comes out as an empty question. */
  lemma NumberOnlyLineBecomesEmpty()
    ensures !IsBlank("5.")
    ensures CleanLines(["5."]) == [""]
  {
    assert "5."[0] == '5' && '5' !in Whitespace;
    assert AllIn("5.", NumberingChars) by {
      assert "5."[1..] == "." && "."[1..] == [];
    }
    StripEmptyIff("5.", NumberingChars);
    assert ["5."][..0] == [];
  }

  /** Digits and dots at the END of a question are stripped too. */
  lemma TrailingNumberIsStripped()
    ensures Strip("2. What is new in Python 3.10", NumberingChars) == "What is new in Python"
  {
    assert "2. What is new in Python 3.10" == "2. " + "What is new in Python" + " 3.10";
    StripPadding("2. ", "What is new in Python", " 3.10", NumberingChars);
  }

  /** A two-question reply with numbering and a trailing newline. */
  lemma GenerateQuestionsExample()
    ensures GenerateQuestions("1. What is a decorator?\n2. Explain the GIL.\n")
         == ["What is a decorator?", "Explain the GIL"]
  {
    var q1, q2 := "1. What is a decorator?", "2. Explain the GIL.";
    calc {
      GenerateQuestions("1. What is a decorator?\n2. Explain the GIL.\n");
    == { ExampleReplyStripped(); }
      CleanLines(Split(q1 + "\n" + q2, '\n'));
    == { ExampleReplySplit(); }
      CleanLines([q1, q2]);
    == { ExampleLinesCleaned(q1, q2); }
      ["What is a decorator?", "Explain the GIL"];
    }
  }

  /** `strip()` removes the trailing newline of the example reply. */
  lemma ExampleReplyStripped()
    ensures Strip("1. What is a decorator?\n2. Explain the GIL.\n", Whitespace)
         == "1. What is a decorator?" + "\n" + "2. Explain the GIL."
  {
    var body := "1. What is a decorator?" + "\n" + "2. Explain the GIL.";
    assert "1. What is a decorator?\n2. Explain the GIL.\n" == "" + body + "\n";
    StripPadding("", body, "\n", Whitespace);
  }

  /** The stripped example reply splits into its two lines. */
  lemma ExampleReplySplit()
    ensures Split("1. What is a decorator?" + "\n" + "2. Explain the GIL.", '\n')
         == ["1. What is a decorator?", "2. Explain the GIL."]
  {
    var q1, q2 := "1. What is a decorator?", "2. Explain the GIL.";
    assert Join([q1, q2], '\n') == q1 + "\n" + q2;
    SplitUnique(q1 + "\n" + q2, '\n', [q1, q2]);
  }

  /** The two example lines lose their numbering and the final dot. */
  lemma ExampleLinesCleaned(q1: string, q2: string)
    requires q1 == "1. " + "What is a decorator?" + ""
    requires q2 == "2. " + "Explain the GIL" + "."
    ensures CleanLines([q1, q2]) == ["What is a decorator?", "Explain the GIL"]
  {
    TwoNumberedLines("1. ", "What is a decorator?", "", "2. ", "Explain the GIL", ".");
  }

  /** Two numbered lines come out as their two texts, in order. */
  lemma TwoNumberedLines(n1: string, t1: string, e1: string, n2: string, t2: string, e2: string)
    requires n1 != [] && n1[0] !in Whitespace && forall c :: c in n1 + e1 ==> c in NumberingChars
    requires t1 != [] && t1[0] !in NumberingChars && t1[|t1| - 1] !in NumberingChars
    requires n2 != [] && n2[0] !in Whitespace && forall c :: c in n2 + e2 ==> c in NumberingChars
    requires t2 != [] && t2[0] !in NumberingChars && t2[|t2| - 1] !in NumberingChars
    ensures CleanLines([n1 + t1 + e1, n2 + t2 + e2]) == [t1, t2]
  {
    var q1, q2 := n1 + t1 + e1, n2 + t2 + e2;
    NumberedLineCleaned(n1, t1, e1);
    NumberedLineCleaned(n2, t2, e2);
    CleanLinesSnoc([], q1);
    CleanLinesSnoc([q1], q2);
    assert [] + [q1] == [q1] && [q1] + [q2] == [q1, q2];
  }

  /** Cleaning one more line adds its cleaned form, unless it is blank. */
  lemma CleanLinesSnoc(lines: seq<string>, line: string)
    ensures CleanLines(lines + [line])
         == CleanLines(lines) + if IsBlank(line) then [] else [Strip(line, NumberingChars)]
  {
    assert (lines + [line])[..|lines|] == lines;
  }

  /** A numbered line keeps its text and loses its numbering. */
  lemma NumberedLineCleaned(numbering: string, text: string, end: string)
    requires numbering != [] && numbering[0] !in Whitespace
    requires forall c :: c in numbering + end ==> c in NumberingChars
    requires text != [] && text[0] !in NumberingChars && text[|text| - 1] !in NumberingChars
    ensures !IsBlank(numbering + text + end)
    ensures Strip(numbering + text + end, NumberingChars) == text
  {
    assert (numbering + text + end)[0] == numbering[0];
    assert forall c :: c in end ==> c in numbering + end;
    StripPadding(numbering, text, end, NumberingChars);
  }
}
