# quizzinator, modelled in Dafny

quizzinator gives questionnaires to a language model and scores what comes
back. It turns a question file into prompts, sends each prompt to the model
(or takes the reply from a cache of earlier replies), cleans the terminal
output it gets back and separates the model's "thinking" from its answer. It
then pulls the answer out of free text with an ordered list of answer
templates and records every question it could not resolve. A project
dashboard script tallies the collected answers across experiments.

This project models that core and proves what each part promises:

- `Answers` (`answers.dfy`) covers `lib/quizzinator/answers.py`:
  - the gender and role code tables and the consistency classifiers;
  - `pattern_consensus` and `pattern_all`;
  - `extract_llm_answer` and its template priority;
  - `get_legal_answer` with its mode dispatch. Its failure log is a class whose record list only grows.
- `Questions` (`questions.dfy`) covers `lib/quizzinator/questions.py`: the question-file parser, `build_question`, `build_prompt` and `load_hints`.
- `Parser` (`parser.dfy`) covers `lib/quizzinator/parser.py`. It is proved to return exactly what the `Questions` parser returns.
- `Dialog` (`dialog.dfy`) covers `lib/quizzinator/dialog.py`. A `Dialog` class holds the history and the cache; it also has the think/response splitter.
- `Quiz` (`quiz.dfy`) covers `quiz_truncate` and `quiz_answers` of `lib/quizzinator/quiz.py`.
- `Strings` (`strings.dfy`) covers `lib/quizzinator/string.py`:
  - octal escaping of unusual characters;
  - removal of CSI control sequences as defined in section 5.4 of ECMA-48;
  - `\u` escaping of every character other than `\r`, `\n` and the printable ASCII range 0x20-0x7E (ASCII controls such as `\t` and `\x7f` included).
- `Ollama` (`ollama.dfy`) covers the reply cleaner `Ollama._clean` of `lib/quizzinator/ollama.py`.
- `Utils` (`utils.dfy`):
  - `ngram_repeat`;
  - the integer unit selection of `human_duration`.
- `Report` (`report.dfy`) covers the data helpers of `lib/quizzinator/templates/project/scripts.js`:
  - answer parsing, key clean-up and CSV escaping;
  - the common-question intersection;
  - the two tallies;
  - the ordering of the experiment keys.
- `Text` (`text.dfy`) states the Python string built-ins the code relies on over Dafny strings. Each built-in has the same edge cases as in Python: `strip`, `find`, `split`, `join`, `replace` and `splitlines`.

Calls the model cannot see become parameters:

- Python's regular-expression engine is a caller-supplied `findall` function (`Answers.FindAll`). It returns the matches of one regex in one text as whole strings or group tuples. The regex strings are built exactly as the source builds them.
- The language model is a function from prompt to reply (`Dialog.Model`).
- The four comparator sorts of the dashboard script are caller-supplied permutations (`Report.Sorters`).

## Model

| member | source | states |
|---|---|---|
| Answers.LookupCode | lib/quizzinator/answers.py:10-46 | the stripped code: blank gives None; a code in the table gives its name; any other code gives the unknown-code error |
| Answers.MapCodes | lib/quizzinator/answers.py:49-50 | mapping a code list succeeds iff every code maps. It keeps order and length; on failure it reports the first failing code's error |
| Answers.EvaluateGenderConsistency | lib/quizzinator/answers.py:48-53 | 'exact' iff both mapped lists are equal, otherwise 'discordant' (never 'concordant'); an unknown code raises |
| Answers.LeaningsSpec | lib/quizzinator/answers.py:56-72 | the set of role groups named is defined iff every name belongs to a group, and holds exactly the groups present |
| Answers.RoleKindOfSpec | lib/quizzinator/answers.py:55-77 | `evaluate_role_consistency_which`: '/' iff Switch or both a leading and a following role; 'L' or 'r' for one side only; '' for only Other or nothing; error on an ungrouped name |
| Answers.NonEmptyPositions | lib/quizzinator/answers.py:84-85 | the kept codes are the non-empty codes in their original order: the k-th kept code is the code at the k-th of strictly increasing positions, and every non-empty position is among them |
| Answers.NonEmptyMultiset | lib/quizzinator/answers.py:84-85 | the kept codes are the codes with every empty one removed, each other code kept as often as it occurs |
| Answers.EvaluateRoleConsistency | lib/quizzinator/answers.py:79-94 | 'exact' iff the mapped lists are equal; else 'concordant' iff both sides have the same kind; else 'discordant' |
| Answers.GenderConsistencySymmetric | lib/quizzinator/answers.py:48-53 | swapping hint and response leaves the gender verdict unchanged |
| Answers.RoleConsistencySymmetric | lib/quizzinator/answers.py:79-94 | swapping hint and response leaves the role verdict unchanged |
| Answers.RoleOfSingleCode | lib/quizzinator/answers.py:30-46 | a single table code maps to its role name |
| Answers.LeaningOfOne | lib/quizzinator/answers.py:55-73 | a single grouped name yields exactly its group |
| Answers.RoleConsistencyExamples | lib/quizzinator/answers.py:79-94 | Top against Dominant is concordant; Top against Slave is discordant |
| Answers.TopAgainstDominant | lib/quizzinator/answers.py:79-94 | Top against Dominant (both leading roles) is concordant |
| Answers.TopAgainstSlave | lib/quizzinator/answers.py:79-94 | Top against Slave (leading against following) is discordant |
| Answers.NonEmpty | lib/quizzinator/answers.py:110-111 | a group tuple contributes exactly its non-empty groups (order and multiplicity in NonEmptyPositions and NonEmptyMultiset) |
| Answers.SingletonSet | lib/quizzinator/answers.py:115-117 | a one-element set holding v is {v} |
| Answers.UniformSingleton | lib/quizzinator/answers.py:115-117 | a non-empty list whose items all equal the first has exactly that one value as its set |
| Answers.PatternConsensus | lib/quizzinator/answers.py:97-118 | a value iff the flattened matches are non-empty and all equal; the value is that common one |
| Answers.IndexOf | lib/quizzinator/answers.py:137-142 | the first position of an element |
| Answers.IndexOfAppend | lib/quizzinator/answers.py:137-142 | appending does not move an element's first position |
| Answers.IndexOfExtend | lib/quizzinator/answers.py:137-142 | appending a new value puts its first position at the end and moves no earlier value |
| Answers.PatternAll | lib/quizzinator/answers.py:120-143 | each distinct flattened capture exactly once, in first-seen order |
| Answers.AllCaptures | lib/quizzinator/answers.py:128-135 | the flattening loop keeps whole matches and every group, in order |
| Answers.FirstOccurrences | lib/quizzinator/answers.py:137-143 | the dedup loop keeps each value once, exactly the values seen, in first-seen order |
| Answers.LessIrreflexive | lib/quizzinator/answers.py:216 | Python string order is irreflexive |
| Answers.LessTransitive | lib/quizzinator/answers.py:216 | Python string order is transitive |
| Answers.LessTotal | lib/quizzinator/answers.py:216 | Python string order is total on distinct strings |
| Answers.LessAsymmetric | lib/quizzinator/answers.py:216 | Python string order is asymmetric |
| Answers.InsertSpec | lib/quizzinator/answers.py:216 | inserting into a strictly increasing list keeps it strictly increasing and adds exactly the new element |
| Answers.SortedSetSpec | lib/quizzinator/answers.py:216 | `sorted(list(set(flat)))` is strictly increasing and has the same elements as `flat` |
| Answers.IncreasingUnique | lib/quizzinator/answers.py:216 | two strictly increasing lists with the same elements are equal |
| Answers.WholeTokens | lib/quizzinator/answers.py:206-211 | a whole-string match has `,` turned into `-` and spaces deleted, then is split on `-`; no token holds `,`, space or `-` |
| Answers.TokenSets | lib/quizzinator/answers.py:193-216 | one sorted token list per template, in template order |
| Answers.FlattenMatches | lib/quizzinator/answers.py:202-213 | the flattening loop computes the flattened token list |
| Answers.Extract | lib/quizzinator/answers.py:149-231 | `extract_llm_answer` as a value (no contract of its own; ExtractSound states it, and ExtractLlmAnswer proves the method equal to it) |
| Answers.ExtractLlmAnswer | lib/quizzinator/answers.py:149-231 | the method equals the extraction specification |
| Answers.TryTemplates | lib/quizzinator/answers.py:193-231 | the template loop with its early returns equals the decision over the token lists |
| Answers.DecideAt | lib/quizzinator/answers.py:218-229 | one template step: no tokens, go on; multi returns the tokens; single returns a sole token or goes on |
| Answers.DecideMulti | lib/quizzinator/answers.py:218-231 | multi mode returns the token list of the first template with any tokens, or None if none has tokens |
| Answers.DecideSingle | lib/quizzinator/answers.py:225-231 | single mode returns the sole token of the first template with exactly one token, or None |
| Answers.DecideSingleFirst | lib/quizzinator/answers.py:225-229 | the first one-token template decides single mode |
| Answers.DecideMultiFirst | lib/quizzinator/answers.py:221-223 | the first template with tokens decides multi mode |
| Answers.ExtractSound | lib/quizzinator/answers.py:149-231 | every answer comes from one template's matches; a multi answer is strictly increasing and is exactly that template's token set |
| Answers.DecideManySound | lib/quizzinator/answers.py:218-231 | for any template list, a multi decision is non-empty, strictly increasing and exactly one template's token set; it is never a single token |
| Answers.DecideOneSound | lib/quizzinator/answers.py:225-231 | for any template list, a single decision is a token of one template's matches; it is never a list |
| Answers.AfterMarker | lib/quizzinator/answers.py:237-238 | the text after the first `### Final Answer`, or the whole text without one |
| Answers.FailureLog.constructor | lib/quizzinator/answers.py:335-349 | the log starts empty |
| Answers.FailureLog.LogFailure | lib/quizzinator/answers.py:335-349 | appends exactly one record (mode, prompt, text) |
| Answers.FirstNonBlank | lib/quizzinator/answers.py:246-270 | the first item that is non-blank once stripped, or none iff every item is blank |
| Answers.FirstNonBlankItem | lib/quizzinator/answers.py:246-270 | the fallback loop computes the first non-blank item |
| Answers.ExtractOrFirst | lib/quizzinator/answers.py:246-270 | the extractor's answer when it finds one, else the first non-blank item |
| Answers.CheckedAnswer | lib/quizzinator/answers.py:272-306 | number and single: ok iff the extractor found an answer, and a failure record is appended exactly when it did not |
| Answers.ChosenAnswers | lib/quizzinator/answers.py:309-330 | multi: ok with the stripped tokens iff the extractor returned tokens; otherwise not ok with the text, and one failure record |
| Answers.LegalAnswerOf | lib/quizzinator/answers.py:236-333 | `get_legal_answer` with the records it logs (no contract of its own; the LegalAnswer lemmas state it mode by mode) |
| Answers.LegalAnswerPlain | lib/quizzinator/answers.py:236-245 | a value iff the mode is known; 'ignore' gives [True, ''] and 'free' gives [True, text after the marker]; any other mode raises: the missing-`datetime` error iff the mode is date-like and the word extractor finds an answer, else the unknown-mode error |
| Answers.LegalAnswerFound | lib/quizzinator/answers.py:246-270 | line and word: ok iff an answer was found, and a found answer is a string |
| Answers.LegalAnswerNumber | lib/quizzinator/answers.py:272-276 | number: ok iff the number extractor finds an answer, with that answer |
| Answers.LegalAnswerSingle | lib/quizzinator/answers.py:291-306 | single: ok iff the extractor over the legal values in reverse order finds an answer, with that answer |
| Answers.LegalAnswerMulti | lib/quizzinator/answers.py:309-330 | multi: [True, stripped tokens] iff the extractor returns tokens, otherwise [False, text] |
| Answers.LegalAnswerRecords | lib/quizzinator/answers.py:272-330 | at most one failure record, with the mode, prompt and text; one is logged iff number, single or multi failed, or a date-like mode failed to extract |
| Answers.GetLegalAnswer | lib/quizzinator/answers.py:236-332 | the method returns the specified answer and appends exactly the specified records to the log |
| Questions.DigitRun | lib/quizzinator/questions.py:47-52 | the run of digits after an option letter |
| Questions.OptionSplit | lib/quizzinator/questions.py:47-56 | an option line's first `:` comes straight after its digits |
| Questions.StepLineFails | lib/quizzinator/questions.py:58-59 | a line fails exactly when it is `:` alone |
| Questions.WalkLinesStops | lib/quizzinator/questions.py:42-60 | the first failing line ends the walk |
| Questions.WalkLinesSpec | lib/quizzinator/questions.py:42-60 | the block state: the last `N:` name, the last `A:` mode, the options in file order, the free lines in order, and multi iff an `M` option is present |
| Questions.WalkLinesErr | lib/quizzinator/questions.py:42-60 | a block fails iff one of its lines is `:` alone |
| Questions.WalkLinesTags | lib/quizzinator/questions.py:42-46 | the name is the last `N:` value and the mode the last `A:` value, or 'free' without one |
| Questions.WalkLinesLists | lib/quizzinator/questions.py:47-60 | the options are those of the option lines and the free lines the rest, both in file order |
| Questions.WalkLinesMulti | lib/quizzinator/questions.py:47-49 | multi iff some option line starts with `M` |
| Questions.ParseBlocksStops | lib/quizzinator/questions.py:33-79 | the first failing block ends parsing |
| Questions.ParseStopsAt | lib/quizzinator/questions.py:35-60 | a failing line inside a block ends the whole parse with its error |
| Questions.QuestionOfBlock | lib/quizzinator/questions.py:61-78 | the question of a named block. Its mode is 'multi' for an M option, else 'single' when there are options, else the last `A:` value, else 'free'. Its prompt text is the free lines joined with newlines |
| Questions.ParseBlocksSpec | lib/quizzinator/questions.py:33-79 | at most one question per block, each named |
| Questions.ParseEmpty | lib/quizzinator/questions.py:33-79 | an empty file yields no questions |
| Questions.ParseQuestionsOf | lib/quizzinator/questions.py:28-79 | `parse_questions` on the file contents, block by block (no contract of its own; the parser lemmas state it, and ParseQuestions proves the loop equal to it) |
| Questions.ParseQuestions | lib/quizzinator/questions.py:28-79 | the parsing loop equals the block-wise specification |
| Questions.WithCodeAppend | lib/quizzinator/questions.py:161 | selecting by code distributes over concatenation |
| Questions.WithCodeSingle | lib/quizzinator/questions.py:161 | a one-option list holds that option under its own code only |
| Questions.WithCodeAbove | lib/quizzinator/questions.py:161 | a list of larger codes has none with a smaller code |
| Questions.InsertByCode | lib/quizzinator/questions.py:161 | insertion adds one element |
| Questions.InsertByCodeMultiset | lib/quizzinator/questions.py:161 | insertion adds exactly the new option |
| Questions.InsertByCodeSorted | lib/quizzinator/questions.py:161 | insertion keeps the list sorted by code |
| Questions.InsertByCodeStable | lib/quizzinator/questions.py:161 | insertion places a new option after the equal codes |
| Questions.SortByCode | lib/quizzinator/questions.py:161 | sorting keeps the length |
| Questions.SortByCodeSorted | lib/quizzinator/questions.py:161 | the sort result is ordered by code |
| Questions.SortByCodeMultiset | lib/quizzinator/questions.py:161 | the sort result is a permutation of the options |
| Questions.SortByCodeStable | lib/quizzinator/questions.py:161 | options with equal codes keep their relative order |
| Questions.SortByCodeSpec | lib/quizzinator/questions.py:161 | `sorted(..., key=code)` is sorted, a permutation, and stable |
| Questions.QuestionLines | lib/quizzinator/questions.py:155-163 | the prompt text, a blank line, then one line per option |
| Questions.QuestionListsEveryOption | lib/quizzinator/questions.py:155-163 | every option appears as a `(code) text` line |
| Questions.BuildQuestion | lib/quizzinator/questions.py:155-163 | the method returns the specified lines |
| Questions.Instruction | lib/quizzinator/questions.py:172-210 | no instruction in free mode, otherwise exactly one; option questions get the multi or the single text |
| Questions.InstructionLines | lib/quizzinator/questions.py:172-210 | the mode dispatch returns the specified instruction |
| Questions.BuildPrompt | lib/quizzinator/questions.py:165-222 | the method returns the specified prompt |
| Questions.PromptRedo | lib/quizzinator/questions.py:212-222 | with redo the prompt is the "I am having trouble" paragraph followed by the ordinary prompt |
| Questions.PromptMentions | lib/quizzinator/questions.py:165-222 | the prompt starts with the question text and lists every option |
| Questions.PromptLineAt | lib/quizzinator/questions.py:165-222 | every question line sits in the prompt, one place later with redo |
| Questions.PromptListsOption | lib/quizzinator/questions.py:160-222 | the prompt text contains the `(code) text` line of every option |
| Questions.HumanRow | lib/quizzinator/questions.py:95 | the keys are exactly the question columns; each column holds its stripped cell, or the empty string when the row lacks it |
| Questions.SelectQuestions | lib/quizzinator/questions.py:98-101 | keeps exactly the questions whose name is a column |
| Questions.SelectPositions | lib/quizzinator/questions.py:98-101 | the kept questions are in file order: the k-th kept question sits at the k-th of strictly increasing positions, and every question named by a column is kept |
| Questions.FirstWithCode | lib/quizzinator/questions.py:125 | the first option carrying the code, or none iff no option does |
| Questions.Response | lib/quizzinator/questions.py:124-129 | an unmatched code is echoed verbatim |
| Questions.AnswerLineStart | lib/quizzinator/questions.py:112-134 | every answer line starts with "You" |
| Questions.SingleCodeAnswer | lib/quizzinator/questions.py:119-134 | a single code shows the matching option's text, or is echoed |
| Questions.SeveralCodesAnswer | lib/quizzinator/questions.py:122-132 | comma-separated codes show each code's option text, or the code when unmatched |
| Questions.QuestionBlock | lib/quizzinator/questions.py:110-137 | one hint block per question has the options plus three lines |
| Questions.FlatContains | lib/quizzinator/questions.py:110-151 | a block's line is in the flattened hint |
| Questions.HintFrame | lib/quizzinator/questions.py:103-151 | the hint opens with the banner. The last answer line is followed by the closing rule and text, with the trailing separator gone |
| Questions.HintWithoutQuestions | lib/quizzinator/questions.py:103-151 | with no selected question the hint is the banner, the closing rule, the closing text and a blank line |
| Questions.HintLastQuestion | lib/quizzinator/questions.py:110-151 | the last question's answer line comes straight before the closing rule, the closing text and the blank line |
| Questions.HintMentions | lib/quizzinator/questions.py:103-151 | the hint starts with the banner. It contains "Question: prompt" and the answer line for every selected question |
| Questions.HintInOrder | lib/quizzinator/questions.py:110-137 | file order in the hint: for questions k < k', question k's `Question:` line comes before its answer line, which comes before question k''s `Question:` line |
| Questions.HintOf | lib/quizzinator/questions.py:104-151 | one hint: the banner, the question blocks, the separator after the last one dropped, the closing paragraph, joined by newlines (no contract of its own; HintMentions, HintInOrder and HintFrame state its properties) |
| Questions.WriteQuestion | lib/quizzinator/questions.py:110-137 | the method returns the specified block |
| Questions.WriteBody | lib/quizzinator/questions.py:103-141 | the method returns the banner followed by the blocks |
| Questions.WriteHint | lib/quizzinator/questions.py:103-151 | the method returns the specified hint |
| Questions.LoadHints | lib/quizzinator/questions.py:82-153 | exactly one hint per response row, built from that row and the selected questions |
| Questions.WriteHints | lib/quizzinator/questions.py:103-153 | the row loop builds the specified hint of each row, in row order |
| Parser.ParseQuestions | lib/quizzinator/parser.py:7-58 | the duplicate parser returns exactly what `Questions.ParseQuestions` specifies |
| Dialog.ThinkTagReformed | lib/quizzinator/dialog.py:50 | the single-pass removal of `<think>` leaves `<think>` in the think part of `<<think>think></think>` |
| Dialog.ReformedSplit | lib/quizzinator/dialog.py:47 | the split of that input |
| Dialog.ReformedRemoval | lib/quizzinator/dialog.py:50 | the one-pass replace rebuilds the tag |
| Dialog.TagHasNoSpace | lib/quizzinator/dialog.py:50 | the tag has no whitespace, so stripping keeps it |
| Dialog.RemoveAll | lib/quizzinator/dialog.py:50 | removal to a fixpoint leaves no `<think>` |
| Dialog.ThinkAndResponseAsWritten | lib/quizzinator/dialog.py:43-55 | the code as written: the response is the stripped last piece of the split on `</think>` and holds no `</think>`; the think part is the earlier pieces rejoined with `<think>` after one pass removing `<think>`, stripped |
| Dialog.ThinkAndResponse | lib/quizzinator/dialog.py:43-55 | the corrected splitter: the same response, and the think part with every `<think>` removed, so it holds no `<think>` |
| Dialog.ThinkAfterLastClose | lib/quizzinator/dialog.py:47-53 | for `a + "</think>" + b` with no `</think>` in b, both versions answer the stripped b, and their think part is a with its `</think>` tags turned into `<think>` and the `<think>` tags removed |
| Dialog.TwoSections | lib/quizzinator/dialog.py:47-53 | two think sections x and y and a response z, free of tag characters, give (stripped x + y, stripped z) in both versions |
| Dialog.TwoThinkSections | lib/quizzinator/dialog.py:47-53 | `<think>foo</think><think>bar</think>baz` gives ("foobar", "baz") in both versions |
| Dialog.NoThinkSection | lib/quizzinator/dialog.py:47-55 | text without `</think>` gives ("", stripped text) |
| Dialog.ThinkVersionsAgree | lib/quizzinator/dialog.py:43-55 | when one pass removes every tag, the corrected splitter agrees with the code as written |
| Dialog.Dialog.constructor | lib/quizzinator/dialog.py:7-25 | empty history, cache mode iff a cache was given, and that cache |
| Dialog.Dialog.GetFromCache | lib/quizzinator/dialog.py:35-37 | the cached value of a key, or none iff the key is absent |
| Dialog.Dialog.SetToCache | lib/quizzinator/dialog.py:39-41 | the key reads back the value, every other key is unchanged, and nothing else changes |
| Dialog.Dialog.UserTurn | lib/quizzinator/dialog.py:57-71 | appends exactly one user entry with raw = content = prompt and an empty think |
| Dialog.Dialog.LlmTurn | lib/quizzinator/dialog.py:73-91 | appends exactly one model entry |
| Dialog.Dialog.Query | lib/quizzinator/dialog.py:93-109 | the user entry is appended first. Live mode: an empty reply raises a timeout, otherwise the reply is cached under the prompt. Cache mode: the query succeeds iff the prompt has a non-empty cached reply, and otherwise raises after the user entry. Success appends user then model entries, the model entry split by the code as written (ThinkVersionsAgree says when that matches the corrected splitter), and returns both |
| Quiz.PyPrefix | lib/quizzinator/quiz.py:31 | Python `s[:n]` for any integer n |
| Quiz.QuizTruncate | lib/quizzinator/quiz.py:25-36 | no `[` or newline in the result; the prefix has only those replacements, and `...` is added exactly when the text was cut |
| Quiz.TruncateShort | lib/quizzinator/quiz.py:30-35 | text within the limit only has its characters replaced |
| Quiz.TruncateLong | lib/quizzinator/quiz.py:30-35 | longer text keeps max_len characters plus `...`, max_len + 3 in all |
| Quiz.Names | lib/quizzinator/quiz.py:41-48 | the names in a history (no contract of its own; NamesSpec states it) |
| Quiz.FirstNumber | lib/quizzinator/quiz.py:43-45 | the number of a name's first entry (no contract of its own; FirstNumberSpec states it) |
| Quiz.LastOkAnswer | lib/quizzinator/quiz.py:46-50 | the answer of a name's last ok entry (no contract of its own; LastOkAnswerSpec states it) |
| Quiz.OkCount | lib/quizzinator/quiz.py:49-51 | the number of ok entries (no contract of its own; OkCountSpec states it) |
| Quiz.OkCountSpec | lib/quizzinator/quiz.py:49-51 | the answer count is at most the number of entries, zero iff no entry is ok, and the number of entries iff all are |
| Quiz.NamesSpec | lib/quizzinator/quiz.py:41-48 | the names are exactly those in the history |
| Quiz.FirstNumberSpec | lib/quizzinator/quiz.py:43-45 | the number comes from the name's first history entry |
| Quiz.LastOkAnswerSpec | lib/quizzinator/quiz.py:46-50 | the answer of the last ok entry of the name, or none iff there is none |
| Quiz.NoAnswerUnnamed | lib/quizzinator/quiz.py:41-50 | an unknown name has no answer |
| Quiz.QuizAnswers | lib/quizzinator/quiz.py:38-52 | one entry per distinct name with its first number, its last ok answer and ok never set; the count is the number of ok entries |
| Strings.BaseValue | lib/quizzinator/string.py:9 | a digit's value is below 16 |
| Strings.BaseDigitValue | lib/quizzinator/string.py:9 | digit and value are inverse |
| Strings.Octal | lib/quizzinator/string.py:9 | `oct()` digits: octal, with no leading zero |
| Strings.Hex | lib/quizzinator/string.py:19 | `:x` digits: lowercase hex, with no leading zero |
| Strings.FromOctal | lib/quizzinator/string.py:9 | octal digits read back to the number |
| Strings.FromHex | lib/quizzinator/string.py:19 | hex digits read back to the number |
| Strings.FromBaseZeros | lib/quizzinator/string.py:19 | zero padding does not change the value |
| Strings.ZerosAreZero | lib/quizzinator/string.py:19 | padding zeros read as zero |
| Strings.OctalEscape | lib/quizzinator/string.py:9 | a backslash, `0` and octal digits, all kept characters |
| Strings.PythonifyString | lib/quizzinator/string.py:2-10 | the character loop computes the specified escaping |
| Strings.Pythonified | lib/quizzinator/string.py:2-10 | `pythonify_string`: each character kept or octal-escaped, in order (no contract of its own; PythonifiedAppend and the octal lemmas state it) |
| Strings.PythonifiedAppend | lib/quizzinator/string.py:2-10 | escaping works character by character, in order |
| Strings.PythonifyIdentity | lib/quizzinator/string.py:2-10 | identity on ASCII letters, digits, punctuation and whitespace |
| Strings.PythonifyShape | lib/quizzinator/string.py:2-10 | never shorter, and only kept characters in the output |
| Strings.OctalEscapeDecodes | lib/quizzinator/string.py:9 | the escape's digits read back to the code point |
| Strings.ParameterRun | lib/quizzinator/string.py:13-14 | the parameter bytes stay within the text |
| Strings.IntermediateRun | lib/quizzinator/string.py:13-14 | the intermediate bytes stay within the text |
| Strings.CsiLength | lib/quizzinator/string.py:13-14 | a CSI match at the front has a positive length within the text |
| Strings.ParameterRunFrom | lib/quizzinator/string.py:13-14 | a parameter run ends where the parameter bytes end |
| Strings.IntermediateRunFrom | lib/quizzinator/string.py:13-14 | an intermediate run ends where the intermediate bytes end |
| Strings.RunShift | lib/quizzinator/string.py:13-14 | runs do not depend on the text before them |
| Strings.RunShiftFrom | lib/quizzinator/string.py:13-14 | runs do not depend on the text before them, from any offset |
| Strings.CsiLengthOfCsi | lib/quizzinator/string.py:13-14 | a CSI sequence is matched exactly |
| Strings.CsiParts | lib/quizzinator/string.py:13-14 | introducer, parameters, intermediates and final byte form one match |
| Strings.ParameterRunStops | lib/quizzinator/string.py:13-14 | a stopping character ends a parameter run |
| Strings.IntermediateRunStops | lib/quizzinator/string.py:13-14 | a stopping character ends an intermediate run |
| Strings.CsiLengthStops | lib/quizzinator/string.py:13-14 | text after a stopping character does not change the match |
| Strings.RemoveEscapes | lib/quizzinator/string.py:12-15 | `remove_escape_sequences`: CSI sequences deleted left to right (no contract of its own; RemoveEscapesSplit, RemoveEscapesDeletes, RemoveEscapesPlain and RemoveEscapesOnly state it) |
| Strings.RemoveEscapesSplit | lib/quizzinator/string.py:12-15 | removal splits at a stopping character |
| Strings.RemoveEscapesDeletes | lib/quizzinator/string.py:12-15 | a CSI sequence is deleted and the text around it is kept |
| Strings.RemoveEscapesPlain | lib/quizzinator/string.py:12-15 | text with no ESC `[` or 0x9B is unchanged |
| Strings.RemoveEscapesOnly | lib/quizzinator/string.py:12-15 | text made only of CSI sequences becomes empty |
| Strings.UnicodeReplacement | lib/quizzinator/string.py:18-19 | `\u` and at least four hex digits, all printable ASCII |
| Strings.UnicodeReplacementDecodes | lib/quizzinator/string.py:18-19 | the hex digits read back to the code point |
| Strings.EscapeUnicode | lib/quizzinator/string.py:21-22 | `escape_unicode`: each character outside `\r`, `\n` and 0x20-0x7E replaced by its `\u` escape (no contract of its own; EscapeUnicodeOutput, EscapeUnicodeIdentity and EscapeUnicodeAppend state it) |
| Strings.EscapeUnicodeOutput | lib/quizzinator/string.py:21-22 | only `\r`, `\n` and printable ASCII in the output, never shorter |
| Strings.EscapeUnicodeIdentity | lib/quizzinator/string.py:21-22 | identity on `\r`, `\n` and printable ASCII |
| Strings.EscapeUnicodeAppend | lib/quizzinator/string.py:21-22 | escaping works character by character, in order |
| Ollama.DropBraille | lib/quizzinator/ollama.py:148 | no U+2800 to U+28FF character survives |
| Ollama.CollapseCrlf | lib/quizzinator/ollama.py:151 | replacement to a fixpoint leaves no `\r\n` |
| Ollama.DequoteMap | lib/quizzinator/ollama.py:136-141 | curly quotes become `'` and `"`, character by character |
| Ollama.DedashMap | lib/quizzinator/ollama.py:144-145 | em and en dashes become `-` |
| Ollama.DequoteDedashMap | lib/quizzinator/ollama.py:136-145 | the quote and dash replacements map each character |
| Ollama.DropBrailleNone | lib/quizzinator/ollama.py:148 | text without Braille is kept |
| Ollama.LacksPrefixed | lib/quizzinator/ollama.py:151-158 | text without a pattern's first character lacks the pattern |
| Ollama.PrepareOrdinary | lib/quizzinator/ollama.py:133-148 | ordinary text only has its quotes and dashes mapped |
| Ollama.FinishKept | lib/quizzinator/ollama.py:154-158 | stripped kept text with no `<` is unchanged |
| Ollama.FinishTypographic | lib/quizzinator/ollama.py:151-158 | stripped ordinary text with no `\r` or `<` has its mapped form unchanged by the rest of the cleaner, with no `\r\n` |
| Ollama.CleanOrdinary | lib/quizzinator/ollama.py:128-160 | ordinary text cleans to its quote- and dash-mapped form, and both cleaners agree on it |
| Ollama.CleanOnlyEscapes | lib/quizzinator/ollama.py:133-154 | text made only of escape sequences cleans to '' |
| Ollama.KeptSlice | lib/quizzinator/ollama.py:154-158 | slices of kept text are kept text |
| Ollama.Prepare | lib/quizzinator/ollama.py:133-148 | the steps before the line-ending fix: control sequences removed, quotes and dashes mapped, braille dropped (no contract of its own; PrepareOrdinary states it) |
| Ollama.Finish | lib/quizzinator/ollama.py:153-158 | strip, make visible, and from a `<think>` on keep `<think>` and the text up to the next `<think>` (no contract of its own; FinishShape and FinishKept state it) |
| Ollama.CleanAsWritten | lib/quizzinator/ollama.py:128-160 | `_clean` as written, with one pass of the CRLF replacement (no contract of its own; CleanOrdinary and CrlfSurvives state it) |
| Ollama.Clean | lib/quizzinator/ollama.py:128-160 | `_clean` with the CRLF replacement repeated until none is left (no contract of its own; CleanNoCrlf and CleanOrdinary state it) |
| Ollama.FinishShape | lib/quizzinator/ollama.py:154-158 | every output character is kept, and output containing `<think>` starts with it |
| Ollama.NoCrlfIff | lib/quizzinator/ollama.py:151 | the character-wise and substring views of no `\r\n` agree |
| Ollama.NoCrlfSlice | lib/quizzinator/ollama.py:157-158 | slices keep the absence of `\r\n` |
| Ollama.PythonifiedNoCrlf | lib/quizzinator/ollama.py:154 | escaping creates no `\r\n` |
| Ollama.NoCrlfAppend | lib/quizzinator/ollama.py:157-158 | joining keeps the absence unless a `\r` meets a `\n` |
| Ollama.StripPythonifiedNoCrlf | lib/quizzinator/ollama.py:154 | stripping and escaping create no `\r\n` |
| Ollama.ThinkPieceNoCrlf | lib/quizzinator/ollama.py:157-158 | the think rebuild creates no `\r\n` |
| Ollama.CleanNoCrlf | lib/quizzinator/ollama.py:128-160 | the corrected cleaner's output never contains `\r\n` |
| Ollama.CrlfSurvives | lib/quizzinator/ollama.py:151 | as written, `a\r\r\nb` still contains `\r\n` after cleaning |
| Ollama.CrlfSurvivesIn | lib/quizzinator/ollama.py:151 | the same survival, shown on the parameter |
| Ollama.CrlfReplaced | lib/quizzinator/ollama.py:151 | the one-pass replace of that input |
| Ollama.CrlfPrepared | lib/quizzinator/ollama.py:133-148 | the steps before the newline fix leave `a\r\r\nb` unchanged |
| Ollama.CrlfSplit | lib/quizzinator/ollama.py:151 | the split of that input |
| Utils.Windows | lib/quizzinator/utils.py:26 | every length-L substring, one per start position |
| Utils.FirstIndex | lib/quizzinator/utils.py:26 | the first occurrence of a window |
| Utils.FirstIndexPrefix | lib/quizzinator/utils.py:26 | a prefix keeps first occurrences |
| Utils.FirstSeen | lib/quizzinator/utils.py:26 | the Counter's keys are exactly the windows |
| Utils.FirstSeenOrder | lib/quizzinator/utils.py:26 | the Counter's keys are in first-insertion order |
| Utils.Qualified | lib/quizzinator/utils.py:27-39 | keeps exactly the windows counted at least K times with more than 3 distinct characters |
| Utils.QualifiedOrder | lib/quizzinator/utils.py:27-39 | filtering keeps first-insertion order |
| Utils.BestIndex | lib/quizzinator/utils.py:28-41 | the head of the stable descending sort has the largest count, and every earlier key a strictly smaller one |
| Utils.WinnerNothing | lib/quizzinator/utils.py:26-41 | ('', 0) iff no window qualifies |
| Utils.WinnerFound | lib/quizzinator/utils.py:26-41 | any other result is a window, its count, and qualifies |
| Utils.WinnerMaximal | lib/quizzinator/utils.py:28-41 | no qualifying window has a larger count |
| Utils.WinnerEarliest | lib/quizzinator/utils.py:28-41 | a qualifying window first seen earlier has a strictly smaller count |
| Utils.NgramNothing | lib/quizzinator/utils.py:22-41 | ('', 0) iff no length-L substring occurs K times with more than 3 distinct characters, including when the text is shorter than L |
| Utils.NgramFound | lib/quizzinator/utils.py:22-41 | any other result is a length-L substring of the text whose count is at least K and which has more than 3 distinct characters |
| Utils.NgramMaximal | lib/quizzinator/utils.py:22-41 | the returned count is maximal among qualifying substrings |
| Utils.NgramEarliest | lib/quizzinator/utils.py:22-41 | ties go to the substring that occurs first |
| Utils.SegmentsFrom | lib/quizzinator/utils.py:60-66 | one segment per remaining unit |
| Utils.WeightedSegments | lib/quizzinator/utils.py:60-66 | the unit parts weigh back to the seconds |
| Utils.WeightedFive | lib/quizzinator/utils.py:51-57 | the weights are a week, a day, an hour, a minute and a second |
| Utils.DurationUnits | lib/quizzinator/utils.py:51-66 | w*604800 + d*86400 + h*3600 + m*60 + s is the seconds, with d < 7, h < 24, m < 60, s < 60 |
| Utils.SegmentStep | lib/quizzinator/utils.py:62-65 | one loop step takes the whole part and leaves the remainder |
| Utils.ZeroSegments | lib/quizzinator/utils.py:60-66 | zero seconds gives zero parts |
| Utils.NonZeroFrom | lib/quizzinator/utils.py:69-78 | the units with a non-zero whole part, largest first |
| Utils.SelectFromUnits | lib/quizzinator/utils.py:69-78 | selection emits the non-zero units in order, up to the significance |
| Utils.SelectFromLength | lib/quizzinator/utils.py:69-78 | the number of parts is the number of units taken |
| Utils.SelectFromUnitAt | lib/quizzinator/utils.py:69-78 | the i-th part is the i-th non-zero unit with that unit's whole part |
| Utils.SelectFromSaturated | lib/quizzinator/utils.py:73 | once `significance` parts are taken, no more are added |
| Utils.SelectFromKinds | lib/quizzinator/utils.py:72-77 | only the part that reaches the significance is rounded |
| Utils.WeightedZero | lib/quizzinator/utils.py:60-66 | zero parts weigh zero |
| Utils.DurationSelected | lib/quizzinator/utils.py:69-78 | at most `significance` parts, only non-zero units, largest first, and only the last allowed part rounded |
| Utils.SelectedParts | lib/quizzinator/utils.py:69-78 | for any segments with a non-zero unit: between 1 and `significance` parts, the leading non-zero units with their whole parts, only the last allowed part rounded |
| Utils.DurationFallback | lib/quizzinator/utils.py:80-85 | no parts fall back to the seconds: rounded for significance 1, exact otherwise |
| Utils.SomeUnitNonZero | lib/quizzinator/utils.py:69-78 | positive seconds have a non-zero unit |
| Utils.NoUnitNonZero | lib/quizzinator/utils.py:80-85 | zero seconds have no non-zero unit |
| Utils.DurationExamples | lib/quizzinator/utils.py:43-87 | 0 s gives `0s` by default and the rounded `0.0s` form with significance 1; 65 s with significance 5 gives 1m and 5s |
| Utils.PartTexts | lib/quizzinator/utils.py:74-78 | one text per part |
| Utils.Render | lib/quizzinator/utils.py:74-87 | exact parts render, rounded parts are left out |
| Utils.RenderExamples | lib/quizzinator/utils.py:80-87 | `0s` and `1m 5s` |
| Utils.UnitSegments | lib/quizzinator/utils.py:58-66 | the unit loop computes the specified segments |
| Utils.SelectParts | lib/quizzinator/utils.py:68-78 | the selection loop computes the specified parts |
| Utils.SelectUnit | lib/quizzinator/utils.py:72-78 | one loop step keeps the specified selection: the parts so far plus what the remaining units select |
| Utils.HumanDuration | lib/quizzinator/utils.py:43-87 | the whole method computes the specified parts |
| Report.TrimStart | lib/quizzinator/templates/project/scripts.js:257 | removes exactly the leading JavaScript whitespace |
| Report.TrimEnd | lib/quizzinator/templates/project/scripts.js:257 | removes exactly the trailing JavaScript whitespace |
| Report.TrimSpec | lib/quizzinator/templates/project/scripts.js:257 | `trim` leaves a slice with no whitespace at either end |
| Report.FirstDigit | lib/quizzinator/templates/project/scripts.js:303 | the position of the first digit, or none iff there is no digit |
| Report.StripToNumeric | lib/quizzinator/templates/project/scripts.js:301-310 | the input unchanged when it has no digit, otherwise the suffix from the first digit |
| Report.StripToNumericExamples | lib/quizzinator/templates/project/scripts.js:291-300 | `Humans_66` gives `66`, `7B` and `NoDigitsHere` are unchanged |
| Report.UndoubleDoubled | lib/quizzinator/templates/project/scripts.js:837 | undoubling reverses the doubling of `"` |
| Report.CsvEscape | lib/quizzinator/templates/project/scripts.js:835-839 | `csvEscape`: quotes doubled, the field quoted when it needs it (no contract of its own; CsvEscapeRoundTrip states it) |
| Report.CsvEscapeRoundTrip | lib/quizzinator/templates/project/scripts.js:835-839 | quoted iff the value holds `"`, `,` or a newline; reading the field back gives the value |
| Report.Unwrapped | lib/quizzinator/templates/project/scripts.js:258-260 | one outer `[...]` is removed exactly when present |
| Report.SpaceRun | lib/quizzinator/templates/project/scripts.js:265 | a run of whitespace |
| Report.SeparatorEnd | lib/quizzinator/templates/project/scripts.js:265 | the end of a separator match |
| Report.Unquote | lib/quizzinator/templates/project/scripts.js:266 | one leading and one trailing quote are removed |
| Report.SplitFromFree | lib/quizzinator/templates/project/scripts.js:265 | the split pieces contain no separator match |
| Report.NoSeparatorSlice | lib/quizzinator/templates/project/scripts.js:265 | slices of separator-free text are separator-free |
| Report.CleanPiece | lib/quizzinator/templates/project/scripts.js:266 | a cleaned piece is trimmed and quote-stripped |
| Report.CleanedSpec | lib/quizzinator/templates/project/scripts.js:266-267 | the cleaned pieces are exactly the non-empty ones, each clean |
| Report.CleanEach | lib/quizzinator/templates/project/scripts.js:266 | each piece has one leading and one trailing quote removed and is then trimmed, one result per piece |
| Report.ParseAnswer | lib/quizzinator/templates/project/scripts.js:254-268 | `parseAnswer` (no contract of its own; ParseAnswerClean states it) |
| Report.ParseAnswerClean | lib/quizzinator/templates/project/scripts.js:254-268 | missing gives []; a list gives its items; otherwise no element is empty, and each is trimmed with no separator inside |
| Report.SplitScan | lib/quizzinator/templates/project/scripts.js:265 | splitting text with no separator gives it whole |
| Report.NoMatchInToken | lib/quizzinator/templates/project/scripts.js:265 | a plain token holds no separator |
| Report.TokenTail | lib/quizzinator/templates/project/scripts.js:265 | the suffix of a plain token is plain |
| Report.PlainTokenCleans | lib/quizzinator/templates/project/scripts.js:266 | cleaning a plain token keeps it |
| Report.ParseSingleToken | lib/quizzinator/templates/project/scripts.js:254-268 | a plain token parses to itself |
| Report.TwoTokensSplit | lib/quizzinator/templates/project/scripts.js:265 | `a,b` splits into a and b |
| Report.TwoTokensUnwrap | lib/quizzinator/templates/project/scripts.js:257-260 | `a,b` is neither trimmed nor unwrapped |
| Report.ParseTwoTokens | lib/quizzinator/templates/project/scripts.js:254-268 | `a,b` parses to [a, b] |
| Report.QuestionKeys | lib/quizzinator/templates/project/scripts.js:220-233 | exactly the keys of object responses that are not `number` and do not start with `_` |
| Report.DeleteMissing | lib/quizzinator/templates/project/scripts.js:240-245 | the deletion loop leaves the intersection |
| Report.CommonQuestions | lib/quizzinator/templates/project/scripts.js:217-250 | empty for no selection; otherwise exactly the question keys shared by every selected experiment. Never `number` nor a `_` key |
| Report.TallyQuestionsSpec | lib/quizzinator/templates/project/scripts.js:276-286 | the questions loop fills exactly one cell per question |
| Report.TallyQuestionsAt | lib/quizzinator/templates/project/scripts.js:276-286 | for distinct questions: exactly the old and the new questions have rows; a new question's cell for the experiment gains the parsed answers; other rows are unchanged |
| Report.TallyAll | lib/quizzinator/templates/project/scripts.js:273-289 | the answer tally as a value (no contract of its own; TallyAllSpec states it, and the tally method is proved equal to it) |
| Report.TallyAllSpec | lib/quizzinator/templates/project/scripts.js:273-289 | for lists without repeats, `matrix[q][e]` holds exactly the parsed answers of e's responses to q |
| Report.CountAnswers | lib/quizzinator/templates/project/scripts.js:279-284 | the responses loop adds every parsed answer |
| Report.AddAnswers | lib/quizzinator/templates/project/scripts.js:282-284 | the answers loop adds exactly the answers to the cell |
| Report.TallyExperiment | lib/quizzinator/templates/project/scripts.js:276-286 | the questions loop for one experiment |
| Report.TallyByQuestionAndExperiment | lib/quizzinator/templates/project/scripts.js:273-289 | the method computes the specified tally |
| Report.CountLengths | lib/quizzinator/templates/project/scripts.js:553-556 | the responses loop counts each answer list's length |
| Report.TallyExperimentLengths | lib/quizzinator/templates/project/scripts.js:550-557 | the questions loop for one experiment |
| Report.TallyMultiplicity | lib/quizzinator/templates/project/scripts.js:546-560 | the method computes the specified multiplicity tally |
| Report.AnswerBagSpec | lib/quizzinator/templates/project/scripts.js:279-284 | a value is counted iff some response's parsed answer holds it |
| Report.LengthBagSize | lib/quizzinator/templates/project/scripts.js:553-556 | the buckets count every response once |
| Report.MultiplicitySums | lib/quizzinator/templates/project/scripts.js:546-560 | the bucket counts of each question and experiment sum to that experiment's number of responses |
| Report.FilterMember | lib/quizzinator/templates/project/scripts.js:29-30 | a filter keeps exactly the matching keys |
| Report.FilterSplits | lib/quizzinator/templates/project/scripts.js:29-30 | a filter and its complement hold every key once |
| Report.NumericGroupsPermute | lib/quizzinator/templates/project/scripts.js:37-69 | the three non-human groups hold exactly the non-human keys |
| Report.OrderExperimentKeys | lib/quizzinator/templates/project/scripts.js:25-80 | the grouped key order and where the rule goes (no contract of its own; ExperimentOrderPermutes, ExperimentOrderGrouped, NoRuleWhenAllHuman and RuleAfterLastNonHuman state it) |
| Report.ExperimentOrderPermutes | lib/quizzinator/templates/project/scripts.js:25-75 | the order is a permutation of all keys |
| Report.SortedGroup | lib/quizzinator/templates/project/scripts.js:40-72 | sorting a group keeps its keys in the group |
| Report.GroupsOfNumeric | lib/quizzinator/templates/project/scripts.js:37-69 | "Type_NumB" keys, then number-led keys, then the rest |
| Report.GroupAt | lib/quizzinator/templates/project/scripts.js:69-75 | a position is in the non-human part iff its key is not a human key |
| Report.ExperimentOrderGrouped | lib/quizzinator/templates/project/scripts.js:25-75 | keys come in group order, with every "humans" key after every other key |
| Report.NumericLength | lib/quizzinator/templates/project/scripts.js:69 | the non-human part has one entry per non-human key |
| Report.HumansLast | lib/quizzinator/templates/project/scripts.js:72-75 | the first positions hold the non-human keys and every later one a "humans" key |
| Report.NoRuleWhenAllHuman | lib/quizzinator/templates/project/scripts.js:78-80 | no rule is drawn iff every key is a "humans" key |
| Report.RuleAfterLastNonHuman | lib/quizzinator/templates/project/scripts.js:78-80 | the rule follows the last non-human key |
| Report.GroupExamples | lib/quizzinator/templates/project/scripts.js:29-58 | `llama_7B`, `1.5b-chat`, `gpt` and `Humans_66` fall in the four groups in order |

## Left out

- The regular-expression engine: `re.findall` is the `findall` parameter, and the template regexes are only built, not interpreted.
- `get_legal_answer` date mode: the model keeps the code's behaviour: `mode in ('date')` is a substring test, a failure logs and then raises the unknown-mode error, and a success raises because `datetime` is never imported. The unused `tmap` and the date branch inside single mode are unreachable and are not modelled.
- The failure log file, the path it is written to and the global argument holder: only the appended record is modelled.
- Model process plumbing in `ollama.py` (spawning, pushing, pulling, timeouts, signals): only `Ollama._clean` is modelled.
- Clock readings in `Dialog` (`start`, `elapsed`) and the `llm_time` of entries are not modelled.
- Dialog.Query: the LLM is a total function of the prompt, so a reply that differs between calls is not modelled.
- Dialog.Dialog.constructor: a given cache is taken as a value, so `self.cache = cache or {}` sharing the caller's dict (dialog.py:24) is lost; a caller that later changes its dict does not change the model's cache, and an empty given dict is replaced by a fresh one in the code.
- `quiz_run_one`, `quiz_save`, `quiz_todo` and `quiz_done`: files, wall-clock time and live model calls.
- Quiz.QuizAnswers: Python dict insertion order is not modelled; the result is a map.
- `make_full_questions`, the experiment, concordance, CLI and logging modules: file and console I/O.
- Questions.ParseQuestions: the file read and the `lru_cache` are left out; the parser works on the file contents. The debug `print` for a free line holding `:` is left out; the `IndexError` it raises on a one-character line is modelled.
- Questions.DigitRun: only the ASCII digits `0`-`9` are digits, while Python's `\d` and `int()` also accept every other Unicode decimal digit; the same holds for IsOptionLine and OptionOf.
- Questions.LoadHints: reading the CSV is left out; the rows are given as maps, and a missing column reads as an empty answer.
- `human_duration` rendering of a rounded last part: the one-decimal float text is left out. Utils.Render returns nothing for a rounded part, and the seconds are a natural number.
- Utils.NgramRepeat: returns a pair where the code returns the list `['', 0]` when nothing qualifies.
- `utils.pythonify_string`: it cannot run because `string` is not imported there. `string.py`'s version is modelled instead.
- Report.OrderExperimentKeys: the `localeCompare` and `parseFloat` comparators are abstract permutations, so the order within a group is not modelled. ASCII case folding decides the "humans" prefix.
- Report.ParseAnswer: `raw.map(String)` (scripts.js:255) turns non-string list items into strings; the list is typed as strings, so that conversion is not modelled.
- Report.CommonQuestions: the result is a set; the insertion order of the JavaScript `Set` is not modelled.
- Report.TallyByQuestionAndExperiment: the tally is stated for every input, but its meaning (TallyAllSpec) only for lists without repeats. A repeated experiment or question counts its responses again. Responses that are strings or numbers read every question as missing, though JavaScript would give properties such as `length`. Inherited object properties such as `__proto__` are not modelled. A `null` response or an experiment missing from the data makes JavaScript throw a `TypeError` (scripts.js:276, 281); the `Readable` precondition excludes both instead of modelling the throw.
- Report.TallyMultiplicity: the same limits as the answer tally; bucket keys are numbers rather than their string forms. The `TypeError` on a `null` response or an unknown experiment (scripts.js:549, 554) is excluded by `Readable` rather than modelled.
- Dashboard display code: DOM wiring, charts and the cosine similarity, along with the experiment and dialog templates.
- Tests that expect `2-3-4` and `1-10-11` from single mode contradict the code, which splits these into tokens and rejects them as ambiguous; the model follows the code.

## Findings

| source | as written | input that shows it | evidently intended | confidence | as-written member | corrected member |
|---|---|---|---|---|---|---|
| lib/quizzinator/ollama.py:151 | one pass of `replace('\r\n', '\n')` | `a\r\r\nb` cleans to text still containing `\r\n` | no `\r\n` survives the cleaner | not executed | Ollama.CrlfSurvives | Ollama.CleanNoCrlf |
| lib/quizzinator/dialog.py:50 | one pass of `replace("<think>", "")` | `<<think>think></think>` gives the think part `<think>` | the think part holds no `<think>` | not executed | Dialog.ThinkTagReformed | Dialog.ThinkAndResponse |
