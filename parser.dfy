/** The second copy of the question-file parser (lib/quizzinator/parser.py). Its loops
    are those of the parser in questions.py; the method below walks them again and is
    proved to return exactly what the questions.py parser returns on the same contents. */
module Parser {
  import opened Text
  import opened Questions

  /** `parser.parse_questions(path)` on the file's contents. */
  method ParseQuestions(contents: string) returns (r: Result<seq<Question>, ParseError>)
    ensures r == ParseQuestionsOf(contents)
  {
    var raw := Split(contents, "\n---\n");
    var questions: seq<Question> := [];
    for b := 0 to |raw|
      invariant ParseBlocks(raw[..b]) == Ok(questions)
    {
      var lines := SplitLines(Strip(raw[b]));
      var free: seq<string> := [];
      var name: Option<string> := None;
      var opts: seq<QuestionOption> := [];
      var multi := false;
      var mode := "free";
      for i := 0 to |lines|
        invariant WalkLines(lines[..i]) == Ok(BlockState(name, mode, multi, opts, free))
      {
        WalkLinesNext(lines, i);
        var line := lines[i];
        if StartsWith(line, "N:") {
          name := Some(Strip(line[2..]));
        } else if StartsWith(line, "A:") {
          mode := Strip(line[2..]);
        } else if IsOptionLine(line) {
          multi := multi || line[0] == 'M';
          opts := opts + [OptionOf(line)];
        } else if Contains(line, ":") && |line| < 2 {
          ParseStopsAt(raw, b, questions, i, FreeLineTooShort(line));
          return Err(FreeLineTooShort(line));
        } else {
          free := free + [line];
        }
      }
      assert lines[..|lines|] == lines;
      ParseBlocksNext(raw, b, questions, BlockState(name, mode, multi, opts, free));
      if name.None? || name.value == "" {
        continue;
      }
      if |opts| > 0 {
        mode := if multi then "multi" else "single";
      }
      questions := questions + [Question(name.value, Join("\n", free), opts, multi, mode)];
    }
    assert raw[..|raw|] == raw;
    r := Ok(questions);
  }
}
