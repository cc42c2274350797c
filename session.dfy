/** The interactive loop of `main`: each input line is stripped, then ends
    the session, is skipped, or is sent on as a question. The input lines are
    given as a sequence, and the loop returns the questions it passes on. */
module Session {
  import opened Text

  /** What one input line makes the console do. */
  datatype Command = Exit | Skip | Ask(question: string)

  /** The exit test comes first, then the blank test. */
  function Dispatch(line: string): (command: Command)
    ensures command == Exit <==> Lower(Strip(line)) == "exit"
    ensures command == Skip <==> Lower(Strip(line)) != "exit" && Strip(line) == []
    ensures command.Ask? ==> command.question == Strip(line) && command.question != []
  {
    var input := Strip(line);
    if Lower(input) == "exit" then Exit
    else if input == [] then Skip
    else Ask(input)
  }

  /** "exit" in any letter case, with any surrounding whitespace, ends the
      session. */
  lemma ExitAnyCase(ws1: string, word: string, ws2: string)
    requires AllSpace(ws1) && AllSpace(ws2) && Lower(word) == "exit"
    ensures Dispatch(ws1 + word + ws2) == Exit
  {
    StripPadded(ws1, word, ws2);
    assert Lower(word)[0] == 'e' && Lower(word)[3] == 't';
    assert word[..0] == [] && word[|word|..] == [];
    StripUnique(word, 0, |word|);
    assert word[0..|word|] == word;
  }

  /** A line of whitespace only is skipped. */
  lemma BlankSkipped(line: string)
    requires AllSpace(line)
    ensures Dispatch(line) == Skip
  {
    assert line[..0] == [] && line[0..] == line;
    StripUnique(line, 0, 0);
  }

  /** A passed-on question is already stripped. */
  lemma QuestionIsStripped(line: string)
    requires Dispatch(line).Ask?
    ensures Strip(Dispatch(line).question) == Dispatch(line).question
  {
    StripIdempotent(line);
  }

  /** The questions a sequence of input lines passes on, in order, up to the
      first line that ends the session: at most one per line, each non-empty
      and already stripped. */
  function Questions(lines: seq<string>): (questions: seq<string>)
    ensures |questions| <= |lines|
    ensures forall k :: 0 <= k < |questions| ==>
      questions[k] != [] && Strip(questions[k]) == questions[k]
    decreases |lines|
  {
    if lines == [] then []
    else
      StripIdempotent(lines[0]);
      match Dispatch(lines[0])
      case Exit => []
      case Skip => Questions(lines[1..])
      case Ask(question) => [question] + Questions(lines[1..])
  }

  /** The `while True` loop: read and strip a line; "exit" breaks, a blank
      line continues, anything else is passed on. */
  method RunConsole(lines: seq<string>) returns (questions: seq<string>)
    ensures questions == Questions(lines)
  {
    questions := [];
    var i := 0;
    while i < |lines|
      invariant 0 <= i <= |lines|
      invariant questions + Questions(lines[i..]) == Questions(lines)
    {
      var userInput := Strip(lines[i]);
      assert lines[i..][1..] == lines[i + 1..];
      if Lower(userInput) == "exit" {
        break;
      }
      i := i + 1;
      if userInput == [] {
        continue;
      }
      questions := questions + [userInput];
    }
  }

  /** Nothing typed after the exit line is passed on. */
  lemma {:induction false} NothingAfterExit(before: seq<string>, exit: string, after: seq<string>)
    requires Dispatch(exit) == Exit
    ensures Questions(before + [exit] + after) == Questions(before)
    decreases |before|
  {
    if before == [] {
      assert (before + [exit] + after)[0] == exit;
    } else {
      assert (before + [exit] + after)[1..] == before[1..] + [exit] + after;
      NothingAfterExit(before[1..], exit, after);
    }
  }

  /** Lines before any exit contribute their questions in order. */
  lemma {:induction false} QuestionsAppend(first: seq<string>, rest: seq<string>)
    requires forall k :: 0 <= k < |first| ==> Dispatch(first[k]) != Exit
    ensures Questions(first + rest) == Questions(first) + Questions(rest)
    decreases |first|
  {
    if first == [] {
      assert first + rest == rest;
    } else {
      assert (first + rest)[1..] == first[1..] + rest;
      QuestionsAppend(first[1..], rest);
    }
  }
}
