/** The question-file parser and the prompt builders (lib/quizzinator/questions.py).
    A question file is a list of blocks separated by a line `---`; inside a block,
    `N:` names the question, `A:` sets its answer mode, `A<n>:`/`M<n>:` list its options
    and every other line belongs to the prompt text. */
module Questions {
  import opened Text

  /** `Option` */
  datatype QuestionOption = QuestionOption(code: nat, text: string, isOther: bool)

  /** `Question` */
  datatype Question = Question(name: string, promptText: string, options: seq<QuestionOption>, multi: bool, mode: string)

  /** The IndexError of the debug output of `line[1]` on a free line that holds a colon but
      has only one character, i.e. the line `:`. */
  datatype ParseError = FreeLineTooShort(line: string)

  const BlockSeparator: string := "\n---\n"

  // ---------------------------------------------------------------- one line

  /** The length of the leading run of decimal digits. */
  function DigitRun(s: string): (n: nat)
    ensures n <= |s| && (forall i :: 0 <= i < n ==> IsDigit(s[i])) && (n == |s| || !IsDigit(s[n]))
  {
    if |s| > 0 && IsDigit(s[0]) then 1 + DigitRun(s[1..]) else 0
  }

  /** `re.match(r"[AM]\d+:", line)` */
  predicate IsOptionLine(line: string)
  {
    |line| > 0 && (line[0] == 'A' || line[0] == 'M')
    && var d := DigitRun(line[1..]); d > 0 && d + 1 < |line| && line[d + 1] == ':'
  }

  /** The line `A<n>: text` or `M<n>: text`: code n, the stripped text, and whether
      the (unstripped) text mentions "Other". */
  function OptionOf(line: string): QuestionOption
    requires IsOptionLine(line)
  {
    var d := DigitRun(line[1..]);
    var rest := line[d + 2..];
    QuestionOption(ParseDigits(line[1..d + 1]), Strip(rest), Contains(rest, "Other"))
  }

  /** `kind, rest = line.split(":", 1)` cuts an option line right after its digits, so
      `kind` is the letter and the digits, and `re.findall(r"\d+", kind)[0]` is all of them. */
  lemma OptionSplit(line: string)
    requires IsOptionLine(line)
    ensures var d := DigitRun(line[1..]);
      Find(line, ":") == Some(d + 1) && line[..d + 1] == [line[0]] + line[1..d + 1]
      && (forall i :: 1 <= i < d + 1 ==> IsDigit(line[i]))
  {
    var d := DigitRun(line[1..]);
    assert OccursAt(line, ":", d + 1) by {
      assert line[d + 1..d + 2] == [line[d + 1]];
    }
    forall j | 0 <= j < d + 1 ensures !OccursAt(line, ":", j) && (j > 0 ==> IsDigit(line[j])) {
      if j > 0 {
        assert line[j] == line[1..][j - 1];
      }
      assert line[j..j + 1] == [line[j]];
    }
    FindFirst(line, ":", d + 1);
  }

  /** The parser's variables while it walks one block. */
  datatype BlockState = BlockState(name: Option<string>, mode: string, multi: bool, opts: seq<QuestionOption>, free: seq<string>)

  const StartState: BlockState := BlockState(None, "free", false, [], [])

  /** One iteration of the line loop. */
  function StepLine(st: BlockState, line: string): Result<BlockState, ParseError>
  {
    if StartsWith(line, "N:") then Ok(st.(name := Some(Strip(line[2..]))))
    else if StartsWith(line, "A:") then Ok(st.(mode := Strip(line[2..])))
    else if IsOptionLine(line) then Ok(st.(multi := st.multi || line[0] == 'M', opts := st.opts + [OptionOf(line)]))
    else if Contains(line, ":") && |line| < 2 then Err(FreeLineTooShort(line))
    else Ok(st.(free := st.free + [line]))
  }

  /** Only the line `:` makes the loop raise. */
  lemma StepLineFails(st: BlockState, line: string)
    ensures StepLine(st, line).Err? <==> line == ":"
  {
    if line == ":" {
      assert OccursAt(line, ":", 0);
    }
  }

  /** The line loop over a block's lines, from the start state. */
  function WalkLines(lines: seq<string>): Result<BlockState, ParseError>
  {
    if |lines| == 0 then Ok(StartState)
    else match WalkLines(lines[..|lines| - 1])
      case Err(e) => Err(e)
      case Ok(st) => StepLine(st, lines[|lines| - 1])
  }

  /** Once the walk has raised, the rest of the block does not matter. */
  lemma {:induction false} WalkLinesStops(lines: seq<string>, n: nat)
    requires n <= |lines| && WalkLines(lines[..n]).Err?
    ensures WalkLines(lines) == WalkLines(lines[..n])
  {
    if n < |lines| {
      var init := lines[..|lines| - 1];
      assert init[..n] == lines[..n];
      WalkLinesStops(init, n);
    } else {
      assert lines[..n] == lines;
    }
  }

  // ---------------------------------------------------------------- declarative reading of a block

  predicate IsFreeLine(line: string)
  {
    !StartsWith(line, "N:") && !StartsWith(line, "A:") && !IsOptionLine(line)
  }

  /** The options of the option lines, in file order. */
  function OptionsOf(lines: seq<string>): seq<QuestionOption>
  {
    if |lines| == 0 then []
    else
      var last := lines[|lines| - 1];
      OptionsOf(lines[..|lines| - 1]) + if !StartsWith(last, "N:") && !StartsWith(last, "A:") && IsOptionLine(last) then [OptionOf(last)] else []
  }

  /** The prompt lines, in file order. */
  function FreeLinesOf(lines: seq<string>): seq<string>
  {
    if |lines| == 0 then []
    else FreeLinesOf(lines[..|lines| - 1]) + if IsFreeLine(lines[|lines| - 1]) then [lines[|lines| - 1]] else []
  }

  /** The value of the last line starting with `tag`, stripped. */
  function LastTagged(lines: seq<string>, tag: string): Option<string>
    requires |tag| == 2
  {
    if |lines| == 0 then None
    else if StartsWith(lines[|lines| - 1], tag) then Some(Strip(lines[|lines| - 1][2..]))
    else LastTagged(lines[..|lines| - 1], tag)
  }

  predicate HasMultiOption(lines: seq<string>)
  {
    exists i :: 0 <= i < |lines| && !StartsWith(lines[i], "N:") && IsOptionLine(lines[i]) && lines[i][0] == 'M'
  }

  /** The walk over a block fails exactly when a line is `:`. Otherwise the name is the
      last `N:` value, the mode the last `A:` value (or "free"), the options and prompt
      lines are those lines in file order, and multi is set iff some option line starts
      with `M`. */
  lemma WalkLinesSpec(lines: seq<string>)
    ensures WalkLines(lines).Err? <==> exists i :: 0 <= i < |lines| && lines[i] == ":"
    ensures WalkLines(lines).Ok? ==> var st := WalkLines(lines).value;
      && st.name == LastTagged(lines, "N:")
      && st.mode == (match LastTagged(lines, "A:") case None => "free" case Some(m) => m)
      && st.opts == OptionsOf(lines)
      && st.free == FreeLinesOf(lines)
      && (st.multi <==> HasMultiOption(lines))
  {
    WalkLinesErr(lines);
    if WalkLines(lines).Ok? {
      WalkLinesTags(lines);
      WalkLinesLists(lines);
      WalkLinesMulti(lines);
    }
  }

  lemma {:induction false} WalkLinesErr(lines: seq<string>)
    ensures WalkLines(lines).Err? <==> exists i :: 0 <= i < |lines| && lines[i] == ":"
  {
    if |lines| > 0 {
      var init := lines[..|lines| - 1];
      WalkLinesErr(init);
      assert forall i :: 0 <= i < |init| ==> init[i] == lines[i];
      if WalkLines(init).Ok? {
        StepLineFails(WalkLines(init).value, lines[|lines| - 1]);
      }
    }
  }

  lemma {:induction false} WalkLinesTags(lines: seq<string>)
    requires WalkLines(lines).Ok?
    ensures var st := WalkLines(lines).value;
      && st.name == LastTagged(lines, "N:")
      && st.mode == (match LastTagged(lines, "A:") case None => "free" case Some(m) => m)
  {
    if |lines| > 0 {
      WalkLinesTags(lines[..|lines| - 1]);
    }
  }

  lemma {:induction false} WalkLinesLists(lines: seq<string>)
    requires WalkLines(lines).Ok?
    ensures WalkLines(lines).value.opts == OptionsOf(lines)
    ensures WalkLines(lines).value.free == FreeLinesOf(lines)
  {
    if |lines| > 0 {
      WalkLinesLists(lines[..|lines| - 1]);
    }
  }

  lemma {:induction false} WalkLinesMulti(lines: seq<string>)
    requires WalkLines(lines).Ok?
    ensures WalkLines(lines).value.multi <==> HasMultiOption(lines)
  {
    if |lines| > 0 {
      var init := lines[..|lines| - 1];
      var last := lines[|lines| - 1];
      WalkLinesMulti(init);
      assert forall i :: 0 <= i < |init| ==> init[i] == lines[i];
      if !StartsWith(last, "N:") && !StartsWith(last, "A:") && IsOptionLine(last) && last[0] == 'M' {
        assert HasMultiOption(lines) by {
          assert lines[|lines| - 1] == last;
        }
      }
      if HasMultiOption(lines) && !HasMultiOption(init) {
        var i :| 0 <= i < |lines| && !StartsWith(lines[i], "N:") && IsOptionLine(lines[i]) && lines[i][0] == 'M';
        assert i == |lines| - 1;
        assert !StartsWith(last, "A:");
      }
    }
  }

  // ---------------------------------------------------------------- blocks and files

  /** After the loop: a block without a (non-empty) name is dropped; with options the
      mode becomes "multi" or "single"; the prompt is the free lines joined by newlines. */
  function FinishBlock(st: BlockState): Option<Question>
  {
    match st.name
    case None => None
    case Some(n) =>
      if n == "" then None
      else
        var mode := if |st.opts| == 0 then st.mode else if st.multi then "multi" else "single";
        Some(Question(n, Join("\n", st.free), st.opts, st.multi, mode))
  }

  function BlockLines(block: string): seq<string>
  {
    SplitLines(Strip(block))
  }

  function ParseBlock(block: string): Result<Option<Question>, ParseError>
  {
    match WalkLines(BlockLines(block))
    case Err(e) => Err(e)
    case Ok(st) => Ok(FinishBlock(st))
  }

  /** The blocks in order, the named ones kept; the first failing block raises. */
  function ParseBlocks(blocks: seq<string>): Result<seq<Question>, ParseError>
  {
    if |blocks| == 0 then Ok([])
    else match ParseBlocks(blocks[..|blocks| - 1])
      case Err(e) => Err(e)
      case Ok(qs) =>
        match ParseBlock(blocks[|blocks| - 1])
        case Err(e) => Err(e)
        case Ok(None) => Ok(qs)
        case Ok(Some(q)) => Ok(qs + [q])
  }

  /** Once a block has raised, the later blocks do not matter: the first failure wins. */
  lemma {:induction false} ParseBlocksStops(blocks: seq<string>, n: nat)
    requires n <= |blocks| && ParseBlocks(blocks[..n]).Err?
    ensures ParseBlocks(blocks) == ParseBlocks(blocks[..n])
  {
    if n < |blocks| {
      var init := blocks[..|blocks| - 1];
      assert init[..n] == blocks[..n];
      ParseBlocksStops(init, n);
    } else {
      assert blocks[..n] == blocks;
    }
  }

  /** `parse_questions` on the contents of the file. */
  function ParseQuestionsOf(contents: string): Result<seq<Question>, ParseError>
  {
    ParseBlocks(Split(contents, BlockSeparator))
  }

  /** The mode of a parsed question: "multi" if some option line starts with `M`, else
      "single" if there are options, else the last `A:` value, else "free"; its options
      and prompt come from the block's lines in file order. */
  lemma QuestionOfBlock(block: string, q: Question)
    requires ParseBlock(block) == Ok(Some(q))
    ensures var lines := BlockLines(block);
      && q.name != "" && LastTagged(lines, "N:") == Some(q.name)
      && q.options == OptionsOf(lines)
      && q.promptText == Join("\n", FreeLinesOf(lines))
      && (q.multi <==> HasMultiOption(lines))
      && q.mode == (if HasMultiOption(lines) && |q.options| > 0 then "multi"
                    else if |q.options| > 0 then "single"
                    else match LastTagged(lines, "A:") case None => "free" case Some(m) => m)
  {
    WalkLinesSpec(BlockLines(block));
  }

  /** Every parsed question comes from one block, in block order, and has a non-empty
      name; there are never more questions than blocks. */
  lemma {:induction false} ParseBlocksSpec(blocks: seq<string>)
    ensures ParseBlocks(blocks).Ok? ==> var qs := ParseBlocks(blocks).value;
      && |qs| <= |blocks|
      && forall k :: 0 <= k < |qs| ==> qs[k].name != ""
  {
    if |blocks| > 0 {
      ParseBlocksSpec(blocks[..|blocks| - 1]);
    }
  }

  /** An empty file and a file without names give no questions. */
  lemma ParseEmpty()
    ensures ParseQuestionsOf("") == Ok([])
  {
    assert Find("", BlockSeparator) == None;
    assert Split("", BlockSeparator) == [""];
    assert IsSpace(' ');
    assert Strip("") == "";
    assert BlockLines("") == [];
    assert ParseBlocks([""])  == Ok([]) by {
      assert [""][..0] == [];
    }
  }

  /** One more line of the walk: the step applied to the walk so far. */
  lemma WalkLinesNext(lines: seq<string>, i: nat)
    requires i < |lines|
    ensures WalkLines(lines[..i + 1])
            == match WalkLines(lines[..i]) case Err(e) => Err(e) case Ok(st) => StepLine(st, lines[i])
  {
    assert lines[..i + 1][..i] == lines[..i];
  }

  /** One more block of the file: its parse added to the blocks so far. */
  lemma ParseBlocksNext(raw: seq<string>, b: nat, questions: seq<Question>, st: BlockState)
    requires b < |raw| && ParseBlocks(raw[..b]) == Ok(questions)
    requires WalkLines(BlockLines(raw[b])) == Ok(st)
    ensures FinishBlock(st).None? ==> ParseBlocks(raw[..b + 1]) == Ok(questions)
    ensures FinishBlock(st).Some? ==> ParseBlocks(raw[..b + 1]) == Ok(questions + [FinishBlock(st).value])
  {
    assert raw[..b + 1][..b] == raw[..b];
  }

  /** A line that raises ends the whole parse with its error. */
  lemma ParseStopsAt(raw: seq<string>, b: nat, questions: seq<Question>, i: nat, e: ParseError)
    requires b < |raw| && ParseBlocks(raw[..b]) == Ok(questions)
    requires i < |BlockLines(raw[b])| && WalkLines(BlockLines(raw[b])[..i + 1]) == Err(e)
    ensures ParseBlocks(raw) == Err(e)
  {
    var lines := BlockLines(raw[b]);
    WalkLinesStops(lines, i + 1);
    assert raw[..b + 1][..b] == raw[..b];
    ParseBlocksStops(raw, b + 1);
  }

  /** `parse_questions(path)` on the file's contents: the block loop and, inside it, the
      line loop updating `name`, `mode`, `multi`, `opts` and `free`. */
  method ParseQuestions(contents: string) returns (r: Result<seq<Question>, ParseError>)
    ensures r == ParseQuestionsOf(contents)
  {
    var raw := Split(contents, BlockSeparator);
    var questions: seq<Question> := [];
    var b := 0;
    while b < |raw|
      invariant 0 <= b <= |raw|
      invariant ParseBlocks(raw[..b]) == Ok(questions)
    {
      var lines := SplitLines(Strip(raw[b]));
      var free: seq<string> := [];
      var name: Option<string> := None;
      var opts: seq<QuestionOption> := [];
      var multi := false;
      var mode := "free";
      var i := 0;
      while i < |lines|
        invariant 0 <= i <= |lines|
        invariant WalkLines(lines[..i]) == Ok(BlockState(name, mode, multi, opts, free))
      {
        WalkLinesNext(lines, i);
        var line := lines[i];
        if StartsWith(line, "N:") {
          name := Some(Strip(line[2..]));
        } else if StartsWith(line, "A:") {
          mode := Strip(line[2..]);
        } else if IsOptionLine(line) {
          if line[0] == 'M' {
            multi := true;
          }
          opts := opts + [OptionOf(line)];
        } else {
          if Contains(line, ":") && |line| < 2 {
            ParseStopsAt(raw, b, questions, i, FreeLineTooShort(line));
            return Err(FreeLineTooShort(line));
          }
          free := free + [line];
        }
        i := i + 1;
      }
      assert lines[..i] == lines;
      ParseBlocksNext(raw, b, questions, BlockState(name, mode, multi, opts, free));
      if name.Some? && name.value != "" {
        if |opts| == 0 {
        } else if multi {
          mode := "multi";
        } else {
          mode := "single";
        }
        var prompt := Join("\n", free);
        questions := questions + [Question(name.value, prompt, opts, multi, mode)];
      }
      b := b + 1;
    }
    assert raw[..b] == raw;
    r := Ok(questions);
  }

  // ---------------------------------------------------------------- build_question

  /** Options in ascending order of code. */
  predicate SortedByCode(s: seq<QuestionOption>)
  {
    forall i, j :: 0 <= i < j < |s| ==> s[i].code <= s[j].code
  }

  /** The options of `s` whose code is `c`, in their order in `s`. */
  function WithCode(s: seq<QuestionOption>, c: nat): seq<QuestionOption>
  {
    if |s| == 0 then []
    else WithCode(s[..|s| - 1], c) + (if s[|s| - 1].code == c then [s[|s| - 1]] else [])
  }

  lemma {:induction false} WithCodeAppend(s: seq<QuestionOption>, t: seq<QuestionOption>, c: nat)
    ensures WithCode(s + t, c) == WithCode(s, c) + WithCode(t, c)
    decreases |t|
  {
    if |t| == 0 {
      assert s + t == s;
    } else {
      assert (s + t)[..|s + t| - 1] == s + t[..|t| - 1];
      WithCodeAppend(s, t[..|t| - 1], c);
    }
  }

  lemma {:induction false} WithCodeAbove(s: seq<QuestionOption>, c: nat)
    requires forall i :: 0 <= i < |s| ==> c < s[i].code
    ensures WithCode(s, c) == []
    decreases |s|
  {
    if |s| > 0 {
      WithCodeAbove(s[..|s| - 1], c);
    }
  }

  /** Places `o` after every option whose code is at most its own. */
  function InsertByCode(o: QuestionOption, s: seq<QuestionOption>): (r: seq<QuestionOption>)
    ensures |r| == |s| + 1
  {
    if |s| == 0 then [o]
    else if o.code < s[0].code then [o] + s
    else [s[0]] + InsertByCode(o, s[1..])
  }

  lemma {:induction false} InsertByCodeMultiset(o: QuestionOption, s: seq<QuestionOption>)
    ensures multiset(InsertByCode(o, s)) == multiset(s) + multiset{o}
    decreases |s|
  {
    if |s| > 0 && o.code >= s[0].code {
      InsertByCodeMultiset(o, s[1..]);
      assert s == [s[0]] + s[1..];
    }
  }

  /** Inserting into a sorted list keeps it sorted. */
  lemma {:induction false} InsertByCodeSorted(o: QuestionOption, s: seq<QuestionOption>)
    requires SortedByCode(s)
    ensures SortedByCode(InsertByCode(o, s))
    decreases |s|
  {
    if |s| > 0 && o.code >= s[0].code {
      var tail := InsertByCode(o, s[1..]);
      InsertByCodeSorted(o, s[1..]);
      InsertByCodeMultiset(o, s[1..]);
      forall i | 0 <= i < |tail| ensures s[0].code <= tail[i].code {
        assert tail[i] in multiset(tail);
        assert tail[i] in multiset(s[1..]) + multiset{o};
      }
      assert InsertByCode(o, s) == [s[0]] + tail;
    }
  }

  lemma WithCodeSingle(x: QuestionOption, c: nat)
    ensures WithCode([x], c) == if x.code == c then [x] else []
  {
    assert [x][..0] == [];
  }

  /** Inserting puts `o` behind the options of equal code that were there before it. */
  lemma {:induction false} InsertByCodeStable(o: QuestionOption, s: seq<QuestionOption>, c: nat)
    requires SortedByCode(s)
    ensures WithCode(InsertByCode(o, s), c) == WithCode(s, c) + (if o.code == c then [o] else [])
    decreases |s|
  {
    var r := InsertByCode(o, s);
    var own: seq<QuestionOption> := if o.code == c then [o] else [];
    WithCodeSingle(o, c);
    if |s| == 0 {
      assert r == [o];
    } else if o.code < s[0].code {
      assert WithCode(r, c) == own + WithCode(s, c) by {
        assert r == [o] + s;
        WithCodeAppend([o], s, c);
      }
      if o.code == c {
        assert WithCode(s, c) == [] by {
          WithCodeAbove(s, c);
        }
      }
    } else {
      var tail := InsertByCode(o, s[1..]);
      var head := WithCode([s[0]], c);
      assert WithCode(tail, c) == WithCode(s[1..], c) + own by {
        assert SortedByCode(s[1..]);
        InsertByCodeStable(o, s[1..], c);
      }
      assert WithCode(r, c) == head + WithCode(tail, c) by {
        assert r == [s[0]] + tail;
        WithCodeAppend([s[0]], tail, c);
      }
      assert WithCode(s, c) == head + WithCode(s[1..], c) by {
        assert s == [s[0]] + s[1..];
        WithCodeAppend([s[0]], s[1..], c);
      }
    }
  }

  /** `sorted(options, key=lambda o: o.code)`: an insertion sort, stable like Python's. */
  function SortByCode(os: seq<QuestionOption>): (r: seq<QuestionOption>)
    ensures |r| == |os|
  {
    if |os| == 0 then [] else InsertByCode(os[|os| - 1], SortByCode(os[..|os| - 1]))
  }

  lemma {:induction false} SortByCodeSorted(os: seq<QuestionOption>)
    ensures SortedByCode(SortByCode(os))
    decreases |os|
  {
    if |os| > 0 {
      SortByCodeSorted(os[..|os| - 1]);
      InsertByCodeSorted(os[|os| - 1], SortByCode(os[..|os| - 1]));
    }
  }

  lemma {:induction false} SortByCodeMultiset(os: seq<QuestionOption>)
    ensures multiset(SortByCode(os)) == multiset(os)
    decreases |os|
  {
    if |os| > 0 {
      var init := os[..|os| - 1];
      SortByCodeMultiset(init);
      InsertByCodeMultiset(os[|os| - 1], SortByCode(init));
      assert os == init + [os[|os| - 1]];
    }
  }

  lemma {:induction false} SortByCodeStable(os: seq<QuestionOption>, c: nat)
    ensures WithCode(SortByCode(os), c) == WithCode(os, c)
    decreases |os|
  {
    if |os| > 0 {
      var init := os[..|os| - 1];
      SortByCodeStable(init, c);
      SortByCodeSorted(init);
      InsertByCodeStable(os[|os| - 1], SortByCode(init), c);
    }
  }

  /** The sort orders by code, is a permutation, and keeps the relative order of options
      that share a code. */
  lemma SortByCodeSpec(os: seq<QuestionOption>)
    ensures SortedByCode(SortByCode(os))
    ensures multiset(SortByCode(os)) == multiset(os)
    ensures forall c: nat :: WithCode(SortByCode(os), c) == WithCode(os, c)
  {
    SortByCodeSorted(os);
    SortByCodeMultiset(os);
    forall c: nat ensures WithCode(SortByCode(os), c) == WithCode(os, c) {
      SortByCodeStable(os, c);
    }
  }

  /** `f"({opt.code}) {opt.text}\n"` */
  function OptionLine(o: QuestionOption): string
  {
    "(" + NatToString(o.code) + ") " + o.text + "\n"
  }

  /** The lines of `build_question`: the prompt, a blank line, and one line per option
      in ascending order of code. */
  function QuestionLines(q: Question): (r: seq<string>)
    ensures |r| == |q.options| + 2
  {
    var sorted := SortByCode(q.options);
    [q.promptText, ""] + seq(|sorted|, k requires 0 <= k < |sorted| => OptionLine(sorted[k]))
  }

  /** Every option of the question gets its line. */
  lemma QuestionListsEveryOption(q: Question, o: QuestionOption) returns (k: nat)
    requires o in q.options
    ensures 2 <= k < |QuestionLines(q)| && QuestionLines(q)[k] == OptionLine(o)
    ensures OptionLine(o) in QuestionLines(q)[2..]
  {
    var sorted := SortByCode(q.options);
    SortByCodeSpec(q.options);
    assert o in multiset(sorted);
    var i :| 0 <= i < |sorted| && sorted[i] == o;
    k := 2 + i;
    assert QuestionLines(q)[2..][i] == OptionLine(o);
  }

  /** `build_question` */
  method BuildQuestion(q: Question) returns (lines: seq<string>)
    ensures lines == QuestionLines(q)
  {
    var sorted := SortByCode(q.options);
    lines := [q.promptText, ""];
    for k := 0 to |sorted|
      invariant lines == [q.promptText, ""] + seq(k, i requires 0 <= i < k => OptionLine(sorted[i]))
    {
      lines := lines + [OptionLine(sorted[k])];
    }
  }

  // ---------------------------------------------------------------- build_prompt

  const NumberInstruction: string :=
    "Answer with a number. To make "
    + "sure I am getting your final "
    + "answer correct, say something "
    + "like 'Answer: #' where # is the "
    + "number you'd like to indicate."
  const WordInstruction: string :=
    "Answer with a single word. To "
    + "make sure I am getting your "
    + "final answer correct, say "
    + "something like 'Answer: WORD' "
    + "where WORD is the answer you'd "
    + "like to give."
  const LineInstruction: string :=
    "Answer with a single line. To "
    + "make sure I am getting your "
    + "final answer correct, say "
    + "something like 'Answer: "
    + "RESPONSE' where RESPONSE is the "
    + "answer you'd like to give"
  const DateInstruction: string :=
    "Answer with a single date. To "
    + "make sure I am getting your "
    + "final answer correct, say "
    + "something like 'Answer: DATE' "
    + "where DATE is the answer you'd "
    + "like to give. Make DATE in the "
    + "form YYY-MM-DD"
  const MultiInstruction: string :=
    "To make sure I am getting your "
    + "final answer correct, say "
    + "something like 'Answer: X' "
    + "where X is your choice or "
    + "choices from the list. You can "
    + "select one or more answers from "
    + "the list but limit it to just "
    + "the answers you think are "
    + "important. If you need to "
    + "select more than one answer, "
    + "separate them by dashes (e.g., "
    + "Answer: 20-31-57)"
  const SingleInstruction: string :=
    "To make sure I am getting your "
    + "final answer correct, say "
    + "something like 'Answer: X' "
    + "where X is what you the choice "
    + "you have made. Select only one "
    + "answer. Just type the number "
    + "you want to select."
  const RedoParagraph: string :=
    "I am having trouble figuring "
    + "out which of the options you "
    + "meant. Could you please try "
    + "again, selecting from the "
    + "values given so that I can "
    + "better figure out which one you "
    + "mean. Again, it works best if "
    + "you say something like "
    + "\"Answer: X\". Thanks, that "
    + "will help me understand you!\n\n"

  /** The modes for which `build_prompt` has a sentence of its own. */
  predicate NamedPromptMode(mode: string)
  {
    mode == "free" || mode == "number" || mode == "word" || mode == "line" || mode == "date"
  }

  /** The answer instruction appended after the options: none in free mode, the
      mode's own sentence for number, word, line and date, and otherwise the
      multiple- or single-choice sentence according to the question's `multi` flag
      (not its mode). */
  function Instruction(q: Question): (r: seq<string>)
    ensures |r| <= 1
    ensures r == [] <==> q.mode == "free"
    ensures !NamedPromptMode(q.mode) ==> r == [if q.multi then MultiInstruction else SingleInstruction]
  {
    if q.mode == "free" then []
    else if q.mode == "number" then [NumberInstruction]
    else if q.mode == "word" then [WordInstruction]
    else if q.mode == "line" then [LineInstruction]
    else if q.mode == "date" then [DateInstruction]
    else if q.multi then [MultiInstruction]
    else [SingleInstruction]
  }

  function PromptLines(q: Question, redo: bool): seq<string>
  {
    (if redo then [RedoParagraph] else []) + QuestionLines(q) + ["\n\n"] + Instruction(q)
  }

  /** The text `build_prompt` returns. */
  function PromptOf(q: Question, redo: bool): string
  {
    Join("\n", PromptLines(q, redo))
  }

  /** The branch of `build_prompt` that picks the answer instruction. */
  method InstructionLines(q: Question) returns (r: seq<string>)
    ensures r == Instruction(q)
  {
    if q.mode == "free" {
      r := [];
    } else if q.mode == "number" {
      r := [NumberInstruction];
    } else if q.mode == "word" {
      assert q.mode[0] != "free"[0];
      r := [WordInstruction];
    } else if q.mode == "line" {
      assert q.mode[0] != "free"[0] && q.mode[0] != "word"[0];
      r := [LineInstruction];
    } else if q.mode == "date" {
      assert q.mode[0] != "free"[0] && q.mode[0] != "word"[0] && q.mode[0] != "line"[0];
      r := [DateInstruction];
    } else if q.multi {
      r := [MultiInstruction];
    } else {
      r := [SingleInstruction];
    }
  }

  /** `build_prompt` */
  method BuildPrompt(q: Question, redo: bool) returns (r: string)
    ensures r == PromptOf(q, redo)
  {
    var lines := BuildQuestion(q);
    lines := lines + ["\n\n"];
    var instruction := InstructionLines(q);
    lines := lines + instruction;
    assert lines == QuestionLines(q) + ["\n\n"] + Instruction(q);
    if redo {
      lines := [RedoParagraph] + lines;
    }
    assert lines == PromptLines(q, redo);
    r := Join("\n", lines);
  }

  /** A redo prompt is the plain prompt with the apology paragraph in front of it. */
  lemma PromptRedo(q: Question)
    ensures PromptOf(q, true) == RedoParagraph + "\n" + PromptOf(q, false)
  {
    assert PromptLines(q, true) == [RedoParagraph] + PromptLines(q, false);
    JoinCons("\n", RedoParagraph, PromptLines(q, false));
  }

  /** A plain prompt starts with the question's text and mentions every option. */
  lemma PromptMentions(q: Question, redo: bool)
    ensures !redo ==> StartsWith(PromptOf(q, redo), q.promptText)
    ensures forall o :: o in q.options ==> Contains(PromptOf(q, redo), OptionLine(o))
  {
    if !redo {
      PromptLineAt(q, redo, 0);
      JoinContainsPart("\n", PromptLines(q, redo), 0);
    }
    forall o | o in q.options ensures Contains(PromptOf(q, redo), OptionLine(o)) {
      PromptListsOption(q, redo, o);
    }
  }

  /** The question's lines sit in the prompt's lines behind the optional redo paragraph. */
  lemma PromptLineAt(q: Question, redo: bool, k: nat)
    requires k < |QuestionLines(q)|
    ensures (if redo then 1 else 0) + k < |PromptLines(q, redo)|
    ensures PromptLines(q, redo)[(if redo then 1 else 0) + k] == QuestionLines(q)[k]
  {
  }

  lemma PromptListsOption(q: Question, redo: bool, o: QuestionOption)
    requires o in q.options
    ensures Contains(PromptOf(q, redo), OptionLine(o))
  {
    var k := QuestionListsEveryOption(q, o);
    PromptLineAt(q, redo, k);
    JoinContainsPart("\n", PromptLines(q, redo), (if redo then 1 else 0) + k);
  }

  // ---------------------------------------------------------------- load_hints

  /** The width of the rules around a hint and between its questions. */
  const RuleWidth: nat := 100
  const Banner: string := Repeat('=', RuleWidth)
    + "\nTo give you a sense of who "
    + "you are, in the past you have "
    + "answered some demographics "
    + "questions like this:\n"
  const QuestionRule: string := Repeat('-', RuleWidth) + "\n\n"
  const ClosingRule: string := Repeat('=', RuleWidth) + "\n"
  const Closing: string :=
    "When I ask you questions like "
    + "the above, you should answer in "
    + "similar ways, because this "
    + "reflects who you are. You are "
    + "the person who would answer the "
    + "above questions like this. You "
    + "should reflect that when "
    + "answering similar questions."

  /** One respondent's answers: every requested column, stripped, with `''` for a
      column the CSV row lacks. */
  function HumanRow(row: map<string, string>, columns: seq<string>): (h: map<string, string>)
    ensures forall c :: c in h <==> c in columns
    ensures forall c :: c in columns ==> h[c] == Strip(if c in row then row[c] else "")
  {
    map c | c in columns :: Strip(if c in row then row[c] else "")
  }

  /** The parsed questions whose name is one of the columns, in file order. */
  function SelectQuestions(qs: seq<Question>, columns: seq<string>): (r: seq<Question>)
    ensures forall q :: q in r <==> q in qs && q.name in columns
  {
    if |qs| == 0 then []
    else (if qs[0].name in columns then [qs[0]] else []) + SelectQuestions(qs[1..], columns)
  }

  /** The positions of the selected questions in the parsed list, in increasing order. */
  ghost function Chosen(qs: seq<Question>, columns: seq<string>): seq<nat>
  {
    if |qs| == 0 then []
    else
      var rest := Chosen(qs[1..], columns);
      (if qs[0].name in columns then [0] else []) + seq(|rest|, k requires 0 <= k < |rest| => rest[k] + 1)
  }

  /** The selection keeps file order: it is the subsequence of the parsed questions at
      exactly the positions whose name is a column. */
  lemma SelectPositions(qs: seq<Question>, columns: seq<string>) returns (idx: seq<nat>)
    ensures |idx| == |SelectQuestions(qs, columns)|
    ensures forall k :: 0 <= k < |idx| ==> idx[k] < |qs| && SelectQuestions(qs, columns)[k] == qs[idx[k]]
    ensures forall k, k' :: 0 <= k < k' < |idx| ==> idx[k] < idx[k']
    ensures forall j :: 0 <= j < |qs| && qs[j].name in columns ==> j in idx
  {
    idx := Chosen(qs, columns);
    ChosenLength(qs, columns);
    forall k | 0 <= k < |idx| ensures idx[k] < |qs| && SelectQuestions(qs, columns)[k] == qs[idx[k]] {
      ChosenAt(qs, columns, k);
    }
    ChosenIncreasing(qs, columns);
    ChosenComplete(qs, columns);
  }

  lemma {:induction false} ChosenLength(qs: seq<Question>, columns: seq<string>)
    ensures |Chosen(qs, columns)| == |SelectQuestions(qs, columns)|
  {
    if |qs| > 0 {
      ChosenLength(qs[1..], columns);
    }
  }

  lemma {:induction false} ChosenAt(qs: seq<Question>, columns: seq<string>, k: nat)
    requires k < |Chosen(qs, columns)|
    ensures Chosen(qs, columns)[k] < |qs| && k < |SelectQuestions(qs, columns)|
    ensures SelectQuestions(qs, columns)[k] == qs[Chosen(qs, columns)[k]]
  {
    ChosenLength(qs, columns);
    var tail := qs[1..];
    var n := if qs[0].name in columns then 1 else 0;
    var sel, sel' := SelectQuestions(qs, columns), SelectQuestions(tail, columns);
    assert sel == (if qs[0].name in columns then [qs[0]] else []) + sel';
    if k >= n {
      ChosenAt(tail, columns, k - n);
      assert Chosen(qs, columns)[k] == Chosen(tail, columns)[k - n] + 1;
      assert sel[k] == sel'[k - n];
    }
  }

  lemma {:induction false} ChosenIncreasing(qs: seq<Question>, columns: seq<string>)
    ensures forall k, k' :: 0 <= k < k' < |Chosen(qs, columns)| ==> Chosen(qs, columns)[k] < Chosen(qs, columns)[k']
  {
    if |qs| > 0 {
      ChosenIncreasing(qs[1..], columns);
    }
  }

  lemma {:induction false} ChosenComplete(qs: seq<Question>, columns: seq<string>)
    ensures forall j :: 0 <= j < |qs| && qs[j].name in columns ==> j in Chosen(qs, columns)
  {
    if |qs| > 0 {
      var tail := qs[1..];
      var rest := Chosen(tail, columns);
      ChosenComplete(tail, columns);
      var n := if qs[0].name in columns then 1 else 0;
      forall j | 0 < j < |qs| && qs[j].name in columns ensures j in Chosen(qs, columns) {
        assert tail[j - 1] == qs[j];
        var m :| 0 <= m < |rest| && rest[m] == j - 1;
        assert Chosen(qs, columns)[n + m] == j;
      }
    }
  }

  /** `f"  ({option.code}): {option.text}\n"` */
  function ListingLine(o: QuestionOption): string
  {
    "  (" + NatToString(o.code) + "): " + o.text + "\n"
  }

  /** `next((o for o in options if str(o.code) == code), None)` */
  function FirstWithCode(opts: seq<QuestionOption>, code: string): (r: Option<QuestionOption>)
    ensures r.None? <==> forall o :: o in opts ==> NatToString(o.code) != code
    ensures r.Some? ==> exists i :: 0 <= i < |opts| && opts[i] == r.value && NatToString(opts[i].code) == code
                                      && forall j :: 0 <= j < i ==> NatToString(opts[j].code) != code
  {
    if |opts| == 0 then None
    else if NatToString(opts[0].code) == code then Some(opts[0])
    else
      var rest := FirstWithCode(opts[1..], code);
      assert rest.Some? ==> exists i :: 0 <= i < |opts[1..]| && opts[1..][i] == rest.value && NatToString(opts[1..][i].code) == code
                                 && forall j :: 0 <= j < i ==> NatToString(opts[1..][j].code) != code;
      assert forall o :: o in opts ==> o == opts[0] || o in opts[1..];
      rest
  }

  /** How one answered code is echoed: the first option carrying it, or the code as given. */
  function Response(opts: seq<QuestionOption>, code: string): (r: string)
    ensures (forall o :: o in opts ==> NatToString(o.code) != code) ==> r == code
  {
    match FirstWithCode(opts, code)
    case Some(o) => "(" + NatToString(o.code) + "): " + o.text + "\n"
    case None => code
  }

  /** The line that reports a respondent's answer to a question. */
  function AnswerLine(q: Question, answer: string): string
  {
    if |q.options| == 0 then "Your answer: " + (if answer == "" then "No answer" else answer) + "\n"
    else if answer == "" then "You did not answer\n"
    else
      var codes := StripAll(Split(answer, ","));
      var responses := seq(|codes|, k requires 0 <= k < |codes| => Response(q.options, codes[k]));
      if |responses| > 1 then "You answered " + Join(",", responses) + "\n"
      else "You answered " + responses[0]
  }

  lemma AnswerLineStart(q: Question, answer: string)
    ensures |AnswerLine(q, answer)| > 0 && AnswerLine(q, answer)[0] == 'Y'
  {
    var r := AnswerLine(q, answer);
    if |q.options| == 0 {
      var tail := (if answer == "" then "No answer" else answer) + "\n";
      assert r == "Your answer: " + tail;
    } else if answer != "" {
      var codes := StripAll(Split(answer, ","));
      var responses := seq(|codes|, k requires 0 <= k < |codes| => Response(q.options, codes[k]));
      var tail := if |responses| > 1 then Join(",", responses) + "\n" else responses[0];
      assert r == "You answered " + tail;
    }
  }

  /** A single answered code that names an option is reported with the option's text;
      one that names none is repeated verbatim, and without the closing newline. */
  lemma SingleCodeAnswer(q: Question, answer: string)
    requires |q.options| > 0 && answer != "" && !Contains(answer, ",")
    ensures FirstWithCode(q.options, Strip(answer)).None? ==> AnswerLine(q, answer) == "You answered " + Strip(answer)
    ensures FirstWithCode(q.options, Strip(answer)).Some? ==>
              var o := FirstWithCode(q.options, Strip(answer)).value;
              AnswerLine(q, answer) == "You answered (" + Strip(answer) + "): " + o.text + "\n"
  {
    SplitNoSep(answer, ",");
    assert StripAll([answer]) == [Strip(answer)];
  }

  /** An answer with a comma reports every code, joined by commas, and ends the line. */
  lemma SeveralCodesAnswer(q: Question, answer: string)
    requires |q.options| > 0 && Contains(answer, ",")
    ensures var codes := StripAll(Split(answer, ","));
            AnswerLine(q, answer) == "You answered " + Join(",", seq(|codes|, k requires 0 <= k < |codes| => Response(q.options, codes[k]))) + "\n"
  {
    JoinSplit(answer, ",");
  }

  /** The lines `load_hints` writes for one question. */
  function QuestionBlock(q: Question, human: map<string, string>): (r: seq<string>)
    ensures |r| == |q.options| + 3
  {
    var answer := if q.name in human then human[q.name] else "";
    ["Question: " + q.promptText + "\n"]
      + seq(|q.options|, k requires 0 <= k < |q.options| => ListingLine(q.options[k]))
      + [AnswerLine(q, answer), QuestionRule]
  }

  /** Concatenation of line blocks, built from the end. */
  function Flat(bs: seq<seq<string>>): seq<string>
  {
    if |bs| == 0 then [] else Flat(bs[..|bs| - 1]) + bs[|bs| - 1]
  }

  lemma {:induction false} FlatContains(bs: seq<seq<string>>, k: nat, x: string)
    requires k < |bs| && x in bs[k]
    ensures x in Flat(bs)
    decreases |bs|
  {
    if k < |bs| - 1 {
      FlatContains(bs[..|bs| - 1], k, x);
    }
  }

  function Blocks(human: map<string, string>, qs: seq<Question>): seq<seq<string>>
  {
    seq(|qs|, k requires 0 <= k < |qs| => QuestionBlock(qs[k], human))
  }

  /** The banner and the question blocks, with the separator after the last question
      dropped (`lines[-1].startswith('-')`), then the closing paragraph. */
  function HintLines(human: map<string, string>, qs: seq<Question>): seq<string>
  {
    CloseHint([Banner] + Flat(Blocks(human, qs)))
  }

  /** The closing of a hint: a trailing separator dropped, then the closing rule,
      the closing paragraph and a blank line. */
  function CloseHint(body: seq<string>): seq<string>
    requires |body| > 0
  {
    CloseWith(body, [ClosingRule, Closing, "\n\n"])
  }

  /** A trailing separator dropped, then the given closing lines. */
  function CloseWith(body: seq<string>, tail: seq<string>): seq<string>
    requires |body| > 0
  {
    var trimmed := if StartsWith(body[|body| - 1], "-") then body[..|body| - 1] else body;
    trimmed + tail
  }

  /** One hint: `"\n".join(lines)`. */
  function HintOf(human: map<string, string>, qs: seq<Question>): string
  {
    Join("\n", HintLines(human, qs))
  }

  /** The banner opens with `=`, the separator after a question with `-`. */
  lemma RuleMarks()
    ensures |Banner| > 0 && !StartsWith(Banner, "-")
    ensures StartsWith(QuestionRule, "-")
  {
    assert Banner[0] == '=';
    assert QuestionRule[0] == '-';
  }

  /** The last two lines the question blocks contribute: the last question's answer
      line and its separator. */
  lemma BlocksEnd(human: map<string, string>, qs: seq<Question>)
    requires |qs| > 0
    ensures var f := Flat(Blocks(human, qs));
            var q := qs[|qs| - 1];
            |f| >= 3 && f[|f| - 1] == QuestionRule
            && f[|f| - 2] == AnswerLine(q, if q.name in human then human[q.name] else "")
  {
    var bs := Blocks(human, qs);
    var last := bs[|bs| - 1];
    assert Flat(bs) == Flat(bs[..|bs| - 1]) + last;
    assert last == QuestionBlock(qs[|qs| - 1], human);
  }

  /** Without questions a hint is the banner and the closing paragraph alone; otherwise
      the last question's answer line is followed directly by the closing rule. */
  lemma HintFrame(human: map<string, string>, qs: seq<Question>)
    ensures |qs| == 0 ==> HintLines(human, qs) == [Banner, ClosingRule, Closing, "\n\n"]
    ensures |qs| > 0 ==>
              var lines := HintLines(human, qs);
              var q := qs[|qs| - 1];
              |lines| >= 5 && lines[|lines| - 4] == AnswerLine(q, if q.name in human then human[q.name] else "")
              && lines[|lines| - 3..] == [ClosingRule, Closing, "\n\n"]
  {
    if |qs| == 0 {
      HintWithoutQuestions(human, qs);
    } else {
      HintLastQuestion(human, qs);
    }
  }

  lemma HintWithoutQuestions(human: map<string, string>, qs: seq<Question>)
    requires |qs| == 0
    ensures HintLines(human, qs) == [Banner, ClosingRule, Closing, "\n\n"]
  {
    RuleMarks();
  }

  lemma HintLastQuestion(human: map<string, string>, qs: seq<Question>)
    requires |qs| > 0
    ensures var lines := HintLines(human, qs);
            var q := qs[|qs| - 1];
            |lines| >= 5 && lines[|lines| - 4] == AnswerLine(q, if q.name in human then human[q.name] else "")
            && lines[|lines| - 3..] == [ClosingRule, Closing, "\n\n"]
  {
    var f := Flat(Blocks(human, qs));
    var body := [Banner] + f;
    RuleMarks();
    BlocksEnd(human, qs);
    assert body[|body| - 1] == QuestionRule && body[|body| - 2] == f[|f| - 2];
    CloseAfterRule(body);
  }

  /** After a trailing separator the closing keeps the line before it in front of the
      closing rule. */
  lemma CloseAfterRule(body: seq<string>)
    requires |body| >= 2 && StartsWith(body[|body| - 1], "-")
    ensures var lines := CloseHint(body);
            |lines| == |body| + 2 && lines[|lines| - 4] == body[|body| - 2]
            && lines[|lines| - 3..] == [ClosingRule, Closing, "\n\n"]
  {
  }

  /** Every hint opens with the banner and quotes the prompt of every selected question,
      with the respondent's answer to it. */
  lemma HintMentions(human: map<string, string>, qs: seq<Question>)
    ensures StartsWith(HintOf(human, qs), Banner)
    ensures forall k :: 0 <= k < |qs| ==> Contains(HintOf(human, qs), "Question: " + qs[k].promptText + "\n")
    ensures forall k :: 0 <= k < |qs| ==>
              Contains(HintOf(human, qs), AnswerLine(qs[k], if qs[k].name in human then human[qs[k].name] else ""))
  {
    HintOpens(human, qs);
    forall k | 0 <= k < |qs|
      ensures Contains(HintOf(human, qs), "Question: " + qs[k].promptText + "\n")
      ensures Contains(HintOf(human, qs), AnswerLine(qs[k], if qs[k].name in human then human[qs[k].name] else ""))
    {
      HintMentionsAt(human, qs, k);
    }
  }

  /** The banner is the first line of a hint. */
  lemma HintOpens(human: map<string, string>, qs: seq<Question>)
    ensures StartsWith(HintOf(human, qs), Banner)
  {
    var bs := Blocks(human, qs);
    var body := [Banner] + Flat(bs);
    var lines := HintLines(human, qs);
    assert Banner[0] == '=';
    if |qs| > 0 {
      assert Flat(bs) == Flat(bs[..|bs| - 1]) + bs[|bs| - 1];
      assert body[|body| - 1] == QuestionRule;
    }
    assert lines[0] == Banner;
    JoinContainsPart("\n", lines, 0);
  }

  /** One selected question's `Question:` line and answer line are lines of the hint. */
  lemma HintMentionsAt(human: map<string, string>, qs: seq<Question>, k: nat)
    requires k < |qs|
    ensures Contains(HintOf(human, qs), "Question: " + qs[k].promptText + "\n")
    ensures Contains(HintOf(human, qs), AnswerLine(qs[k], if qs[k].name in human then human[qs[k].name] else ""))
  {
    var bs := Blocks(human, qs);
    var tail := [ClosingRule, Closing, "\n\n"];
    var n := |qs[k].options| + 1;
    BlockEnds(qs[k], human);
    assert bs[k] == QuestionBlock(qs[k], human);
    BodyMentions(Banner, bs, k, n, tail);
  }

  /** In a closed hint, the first line and line `j` of a block are lines of the text. */
  lemma BodyMentions(banner: string, bs: seq<seq<string>>, k: nat, j: nat, tail: seq<string>)
    requires k < |bs| && j + 1 < |bs[k]|
    ensures Contains(Join("\n", CloseWith([banner] + Flat(bs), tail)), bs[k][0])
    ensures Contains(Join("\n", CloseWith([banner] + Flat(bs), tail)), bs[k][j])
  {
    BodyLineAt(banner, bs, k, 0, tail);
    BodyLineAt(banner, bs, k, j, tail);
    JoinContainsPart("\n", CloseWith([banner] + Flat(bs), tail), 1 + |Flat(bs[..k])| + 0);
    JoinContainsPart("\n", CloseWith([banner] + Flat(bs), tail), 1 + |Flat(bs[..k])| + j);
  }

  /** The hint keeps file order: each selected question's `Question:` line comes before
      its answer line, which comes before the `Question:` line of every later question. */
  lemma HintInOrder(human: map<string, string>, qs: seq<Question>, k: nat, k': nat) returns (p: nat, a: nat, p': nat)
    requires k < k' < |qs|
    ensures var hint := HintOf(human, qs);
            && p < a < p'
            && OccursAt(hint, "Question: " + qs[k].promptText + "\n", p)
            && OccursAt(hint, AnswerLine(qs[k], if qs[k].name in human then human[qs[k].name] else ""), a)
            && OccursAt(hint, "Question: " + qs[k'].promptText + "\n", p')
  {
    var bs := Blocks(human, qs);
    BlockEnds(qs[k], human);
    BlockEnds(qs[k'], human);
    assert bs[k] == QuestionBlock(qs[k], human) && bs[k'] == QuestionBlock(qs[k'], human);
    p, a, p' := BodyInOrder(Banner, bs, k, |qs[k].options| + 1, k', [ClosingRule, Closing, "\n\n"]);
  }

  /** In a closed hint, the first line of a block comes before its line `j`, which comes
      before the first line of every later block. */
  lemma BodyInOrder(banner: string, bs: seq<seq<string>>, k: nat, j: nat, k': nat, tail: seq<string>)
    returns (p: nat, a: nat, p': nat)
    requires k < k' < |bs| && 0 < j && j + 1 < |bs[k]| && |bs[k']| > 1
    ensures var t := Join("\n", CloseWith([banner] + Flat(bs), tail));
            && p < a < p'
            && OccursAt(t, bs[k][0], p) && OccursAt(t, bs[k][j], a) && OccursAt(t, bs[k'][0], p')
  {
    var i, m, l := BodyLinesAt(banner, bs, k, j, k', tail);
    p, a, p' := LinesInOrder("\n", CloseWith([banner] + Flat(bs), tail), i, m, l, bs[k][0], bs[k][j], bs[k'][0]);
  }

  /** The line positions behind BodyInOrder. */
  lemma BodyLinesAt(banner: string, bs: seq<seq<string>>, k: nat, j: nat, k': nat, tail: seq<string>)
    returns (i: nat, m: nat, l: nat)
    requires k < k' < |bs| && 0 < j && j + 1 < |bs[k]| && |bs[k']| > 1
    ensures var lines := CloseWith([banner] + Flat(bs), tail);
            && i < m < l < |lines|
            && lines[i] == bs[k][0] && lines[m] == bs[k][j] && lines[l] == bs[k'][0]
  {
    BodyLineAt(banner, bs, k, 0, tail);
    BodyLineAt(banner, bs, k, j, tail);
    BodyLineAt(banner, bs, k', 0, tail);
    FlatGrows(bs, k, k');
    i, m, l := 1 + |Flat(bs[..k])| + 0, 1 + |Flat(bs[..k])| + j, 1 + |Flat(bs[..k'])| + 0;
  }

  /** A question's block opens with its `Question:` line and has its answer line before
      the separator. */
  lemma BlockEnds(q: Question, human: map<string, string>)
    ensures var b := QuestionBlock(q, human);
            |b| == |q.options| + 3 && b[0] == "Question: " + q.promptText + "\n"
            && b[|q.options| + 1] == AnswerLine(q, if q.name in human then human[q.name] else "")
  {
  }

  /** Joined lines appear in the joined text in their order. */
  lemma LinesInOrder(sep: string, lines: seq<string>, i: nat, j: nat, l: nat, x: string, y: string, z: string)
    returns (p: nat, a: nat, p': nat)
    requires |sep| > 0 && i < j < l < |lines|
    requires lines[i] == x && lines[j] == y && lines[l] == z
    ensures p < a < p'
    ensures OccursAt(Join(sep, lines), x, p) && OccursAt(Join(sep, lines), y, a)
    ensures OccursAt(Join(sep, lines), z, p')
  {
    JoinPieceAt(sep, lines, i);
    JoinPieceAt(sep, lines, j);
    JoinPieceAt(sep, lines, l);
    JoinStartGrows(sep, lines, i, j);
    JoinStartGrows(sep, lines, j, l);
    p, a, p' := JoinStart(sep, lines, i), JoinStart(sep, lines, j), JoinStart(sep, lines, l);
  }

  /** Below the banner, every line of a block but the last keeps its place in the closed hint. */
  lemma BodyLineAt(banner: string, bs: seq<seq<string>>, k: nat, j: nat, tail: seq<string>)
    requires k < |bs| && j + 1 < |bs[k]|
    ensures var i := 1 + |Flat(bs[..k])| + j;
            i < |CloseWith([banner] + Flat(bs), tail)| && CloseWith([banner] + Flat(bs), tail)[i] == bs[k][j]
  {
    var f := Flat(bs);
    FlatAt(bs, k, j);
    assert bs[..|bs|] == bs;
    FlatGrows(bs, k, |bs|);
    CloseKeeps([banner] + f, 1 + |Flat(bs[..k])| + j, tail);
  }

  /** The closing drops at most the last line. */
  lemma CloseKeeps(body: seq<string>, i: nat, tail: seq<string>)
    requires i < |body| - 1
    ensures i < |CloseWith(body, tail)| && CloseWith(body, tail)[i] == body[i]
  {
  }

  /** Line `j` of block `k` follows the blocks before it. */
  lemma {:induction false} FlatAt(bs: seq<seq<string>>, k: nat, j: nat)
    requires k < |bs| && j < |bs[k]|
    ensures |Flat(bs[..k])| + j < |Flat(bs)| && Flat(bs)[|Flat(bs[..k])| + j] == bs[k][j]
    decreases |bs|
  {
    var init := bs[..|bs| - 1];
    assert Flat(bs) == Flat(init) + bs[|bs| - 1];
    if k == |bs| - 1 {
      assert init == bs[..k];
    } else {
      FlatAt(init, k, j);
      assert init[..k] == bs[..k] && init[k] == bs[k];
    }
  }

  /** Later blocks start after the end of earlier ones. */
  lemma {:induction false} FlatGrows(bs: seq<seq<string>>, k: nat, k': nat)
    requires k < k' <= |bs|
    ensures |Flat(bs[..k])| + |bs[k]| <= |Flat(bs[..k'])|
    decreases k'
  {
    assert Flat(bs[..k']) == Flat(bs[..k'][..k' - 1]) + bs[..k'][k' - 1];
    assert bs[..k'][..k' - 1] == bs[..k' - 1];
    if k' > k + 1 {
      FlatGrows(bs, k, k' - 1);
    }
  }

  /** The lines one question contributes to a hint. */
  method WriteQuestion(question: Question, human: map<string, string>) returns (block: seq<string>)
    ensures block == QuestionBlock(question, human)
  {
    block := ["Question: " + question.promptText + "\n"];
    var answer := if question.name in human then human[question.name] else "";
    for k := 0 to |question.options|
      invariant block == ["Question: " + question.promptText + "\n"]
                         + seq(k, m requires 0 <= m < k => ListingLine(question.options[m]))
    {
      block := block + [ListingLine(question.options[k])];
    }
    block := block + [AnswerLine(question, answer), QuestionRule];
  }

  /** The banner followed by every question's lines. */
  method WriteBody(human: map<string, string>, questions: seq<Question>) returns (lines: seq<string>)
    ensures lines == [Banner] + Flat(Blocks(human, questions))
  {
    ghost var bs := Blocks(human, questions);
    var written: seq<string> := [];
    for j := 0 to |questions|
      invariant written == Flat(bs[..j])
    {
      var block := WriteQuestion(questions[j], human);
      assert block == bs[j];
      assert bs[..j + 1][..j] == bs[..j];
      written := written + block;
    }
    assert bs[..|questions|] == bs;
    lines := [Banner] + written;
  }

  /** The hint for one respondent. */
  method WriteHint(human: map<string, string>, questions: seq<Question>) returns (hint: string)
    ensures hint == HintOf(human, questions)
  {
    var lines := WriteBody(human, questions);
    if StartsWith(lines[|lines| - 1], "-") {
      lines := lines[..|lines| - 1];
    }
    lines := lines + [ClosingRule, Closing, "\n\n"];
    hint := Join("\n", lines);
  }

  /** `load_hints` on rows already read from the responses CSV and questions already
      parsed from the question file: one hint per respondent, in row order. */
  method LoadHints(rows: seq<map<string, string>>, parsed: seq<Question>, columns: seq<string>) returns (hints: seq<string>)
    ensures |hints| == |rows|
    ensures forall i :: 0 <= i < |rows| ==> hints[i] == HintOf(HumanRow(rows[i], columns), SelectQuestions(parsed, columns))
  {
    var humans: seq<map<string, string>> := [];
    for i := 0 to |rows|
      invariant humans == seq(i, k requires 0 <= k < i => HumanRow(rows[k], columns))
    {
      humans := humans + [HumanRow(rows[i], columns)];
    }
    var questions := SelectQuestions(parsed, columns);
    hints := WriteHints(humans, questions);
  }

  /** One hint per respondent, in order. */
  method WriteHints(humans: seq<map<string, string>>, questions: seq<Question>) returns (hints: seq<string>)
    ensures hints == seq(|humans|, i requires 0 <= i < |humans| => HintOf(humans[i], questions))
  {
    hints := [];
    for h := 0 to |humans|
      invariant hints == seq(h, i requires 0 <= i < h => HintOf(humans[i], questions))
    {
      var hint := WriteHint(humans[h], questions);
      hints := hints + [hint];
    }
  }
}
