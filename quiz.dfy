/**
 * The quiz game's logic: CSV records become problems, answers are checked
 * ignoring surrounding white space, and the score is counted. Reading the
 * CSV file and standard input, the timer and the goroutine are outside the
 * model: the records and the answers typed before time ran out are inputs.
 */
module Quiz {
  import opened Wrappers
  import opened Text

  const MinColumns := 2

  datatype Problem = Problem(q: string, a: string)

  /** The message `log.Fatalf` prints for a short line (numbered from 1) before ending the program. */
  function ShortLineMessage(lineNumber: nat): string {
    "Invalid CSV format in line " + NatToString(lineNumber) + ": each line must have at least two columns."
  }

  /** Line `i` is the first line with fewer than two columns. */
  predicate FirstShortLine(lines: seq<seq<string>>, i: int) {
    0 <= i < |lines| && |lines[i]| < MinColumns && forall j :: 0 <= j < i ==> |lines[j]| >= MinColumns
  }

  /**
   * `parseLines`: one problem per record, its question and answer being the
   * trimmed first two columns. The first record with fewer than two columns
   * ends the program, here a `Failure` naming that line.
   */
  method ParseLines(lines: seq<seq<string>>) returns (r: Result<seq<Problem>, string>)
    ensures r.Success? <==> forall i :: 0 <= i < |lines| ==> |lines[i]| >= MinColumns
    ensures r.Success? ==> |r.value| == |lines| && forall i :: 0 <= i < |lines| ==>
      r.value[i] == Problem(TrimSpace(lines[i][0]), TrimSpace(lines[i][1]))
    ensures r.Failure? ==> exists i :: FirstShortLine(lines, i) && r.error == ShortLineMessage(i + 1)
  {
    var ret := new Problem[|lines|](_ => Problem("", ""));
    for i := 0 to |lines|
      invariant forall j :: 0 <= j < i ==> |lines[j]| >= MinColumns
      invariant forall j :: 0 <= j < i ==> ret[j] == Problem(TrimSpace(lines[j][0]), TrimSpace(lines[j][1]))
    {
      var line := lines[i];
      if |line| < MinColumns {
        assert FirstShortLine(lines, i);
        return Failure(ShortLineMessage(i + 1));
      }
      ret[i] := Problem(TrimSpace(line[0]), TrimSpace(line[1]));
    }
    r := Success(ret[..]);
  }

  /**
   * `ParseCSV` on what the CSV reader returned: a reader error or an empty
   * file is an error; otherwise the records are parsed.
   */
  method ParseCSV(records: Result<seq<seq<string>>, string>) returns (r: Result<seq<Problem>, string>)
    ensures records.Failure? ==> r == Failure("failed to parse the provided CSV file: " + records.error)
    ensures records == Success([]) ==> r == Failure("no problems found in the provided CSV file")
    ensures records.Success? && records.value != [] ==>
      (r.Success? <==> forall i :: 0 <= i < |records.value| ==> |records.value[i]| >= MinColumns)
    ensures records.Success? && records.value != [] && r.Failure? ==>
      exists i :: FirstShortLine(records.value, i) && r.error == ShortLineMessage(i + 1)
    ensures r.Success? ==> records.Success? && |r.value| == |records.value| > 0
    ensures r.Success? ==> forall i :: 0 <= i < |r.value| ==>
      r.value[i] == Problem(TrimSpace(records.value[i][0]), TrimSpace(records.value[i][1]))
  {
    if records.Failure? {
      return Failure("failed to parse the provided CSV file: " + records.error);
    }
    var lines := records.value;
    if |lines| == 0 {
      return Failure("no problems found in the provided CSV file");
    }
    r := ParseLines(lines);
  }

  /** `checkAnswer`: the answers agree once surrounding white space is removed. */
  predicate CheckAnswer(a: string, q: string) {
    TrimSpace(a) == TrimSpace(q)
  }

  /** Checking is symmetric, and agreeing with the same answer makes two answers agree. */
  lemma CheckAnswerEquivalence(a: string, b: string, c: string)
    ensures CheckAnswer(a, a)
    ensures CheckAnswer(a, b) <==> CheckAnswer(b, a)
    ensures CheckAnswer(a, b) && CheckAnswer(b, c) ==> CheckAnswer(a, c)
  {
  }

  /**
   * White space around an answer never matters, and nothing else is
   * forgiven: a padded answer is accepted exactly when its core is the
   * trimmed expected answer, letter case included.
   */
  lemma CheckAnswerPadded(pre: string, core: string, post: string, expected: string)
    requires AllSpace(pre) && AllSpace(post) && NoOuterSpace(core)
    ensures CheckAnswer(pre + core + post, expected) <==> core == TrimSpace(expected)
  {
    TrimSpacePadded(pre, core, post);
  }

  /** A checked answer is the same as the expected one with white space removed from both. */
  lemma CheckAnswerOfTrimmed(a: string, q: string)
    requires NoOuterSpace(a) && NoOuterSpace(q)
    ensures CheckAnswer(a, q) <==> a == q
  {
    TrimSpaceOfTrimmed(a);
    TrimSpaceOfTrimmed(q);
  }

  /** A word without outer white space, alone or padded with single spaces, trims to itself. */
  lemma TrimmedWord(w: string)
    requires NoOuterSpace(w)
    ensures TrimSpace(w) == w && TrimSpace(" " + w + " ") == w && TrimSpace(" " + w) == w
  {
    TrimSpaceOfTrimmed(w);
    assert AllSpace(" ") && AllSpace("");
    TrimSpacePadded(" ", w, " ");
    TrimSpacePadded(" ", w, "");
    assert " " + w + "" == " " + w;
  }

  /** Padding is forgiven. */
  lemma PaddedAnswerAccepted()
    ensures CheckAnswer(" answer1 ", "answer1")
  {
    assert " answer1 " == " " + "answer1" + " ";
    TrimmedWord("answer1");
  }

  /** A different word is refused. */
  lemma OtherAnswerRefused()
    ensures !CheckAnswer(" answer2 ", "answer1")
  {
    assert " answer2 " == " " + "answer2" + " ";
    TrimmedWord("answer1");
    TrimmedWord("answer2");
    assert "answer2" != "answer1" by { assert "answer2"[6] != "answer1"[6]; }
  }

  /** Letter case is not forgiven. */
  lemma CapitalisedAnswerRefused()
    ensures !CheckAnswer(" Answer ", "answer1")
  {
    assert " Answer " == " " + "Answer" + " ";
    TrimmedWord("answer1");
    TrimmedWord("Answer");
    assert "Answer" != "answer1" by { assert |"Answer"| != |"answer1"|; }
  }

  /** Padding on the expected answer is forgiven too. */
  lemma PaddedExpectedAccepted()
    ensures CheckAnswer(" answer1 ", " answer1")
  {
    assert " answer1 " == " " + "answer1" + " " && " answer1" == " " + "answer1";
    TrimmedWord("answer1");
  }

  /** The answer-checking table: padding is forgiven, a different word or letter case is not. */
  lemma CheckAnswerExamples()
    ensures CheckAnswer(" answer1 ", "answer1")
    ensures !CheckAnswer(" answer2 ", "answer1")
    ensures !CheckAnswer(" Answer ", "answer1")
    ensures CheckAnswer(" answer1 ", " answer1")
  {
    PaddedAnswerAccepted();
    OtherAnswerRefused();
    CapitalisedAnswerRefused();
    PaddedExpectedAccepted();
  }

  /** The number of the given answers that check against their problems. */
  function CountCorrect(problems: seq<Problem>, answers: seq<string>): (n: nat)
    requires |answers| <= |problems|
    ensures n <= |answers|
    decreases |answers|
  {
    if answers == [] then 0
    else
      var k := |answers| - 1;
      CountCorrect(problems, answers[..k]) + (if CheckAnswer(answers[k], problems[k].a) then 1 else 0)
  }

  /** Every answer counts when every answer is right. */
  lemma {:induction false} CountCorrectAllRight(problems: seq<Problem>, answers: seq<string>)
    requires |answers| <= |problems|
    requires forall i :: 0 <= i < |answers| ==> CheckAnswer(answers[i], problems[i].a)
    ensures CountCorrect(problems, answers) == |answers|
    decreases |answers|
  {
    if answers != [] {
      var k := |answers| - 1;
      var init := answers[..k];
      forall i | 0 <= i < k ensures CheckAnswer(init[i], problems[i].a) {
        assert init[i] == answers[i];
      }
      CountCorrectAllRight(problems, init);
    }
  }

  /** No answer counts when every answer is wrong. */
  lemma {:induction false} CountCorrectAllWrong(problems: seq<Problem>, answers: seq<string>)
    requires |answers| <= |problems|
    requires forall i :: 0 <= i < |answers| ==> !CheckAnswer(answers[i], problems[i].a)
    ensures CountCorrect(problems, answers) == 0
    decreases |answers|
  {
    if answers != [] {
      var k := |answers| - 1;
      var init := answers[..k];
      forall i | 0 <= i < k ensures !CheckAnswer(init[i], problems[i].a) {
        assert init[i] == answers[i];
      }
      CountCorrectAllWrong(problems, init);
    }
  }

  /**
   * `RunQuiz`: `answers` are the answers typed before the timer fired, one
   * per problem asked; fewer answers than problems means the time ran out.
   * The score reported is the number of right answers and the number of
   * problems left over.
   */
  method RunQuiz(problems: seq<Problem>, answers: seq<string>) returns (correct: nat, wrong: int)
    requires |answers| <= |problems|
    ensures correct == CountCorrect(problems, answers)
    ensures 0 <= correct <= |answers| <= |problems|
    ensures wrong == |problems| - correct && wrong >= 0
  {
    correct := 0;
    for i := 0 to |problems|
      invariant i <= |answers| ==> correct == CountCorrect(problems, answers[..i])
      invariant i <= |answers|
    {
      if i == |answers| {
        assert answers[..i] == answers;
        return correct, |problems| - correct;
      }
      assert answers[..i + 1][..i] == answers[..i];
      if CheckAnswer(answers[i], problems[i].a) {
        correct := correct + 1;
      }
    }
    assert answers[..|problems|] == answers;
    wrong := |problems| - correct;
  }
}
