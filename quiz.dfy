/** The quiz helpers that are plain computation (lib/quizzinator/quiz.py): the
    log-line truncation and the per-question summary of a finished quiz. */
module Quiz {
  import opened Text
  import Answers

  // ---------------------------------------------------------------- quiz_truncate

  /** Python's `text[:n]`, where a negative `n` counts from the end. */
  function PyPrefix(text: string, n: int): (r: string)
    ensures |r| <= |text| && r == text[..|r|]
    ensures n >= 0 ==> |r| == if n < |text| then n else |text|
  {
    if n >= 0 then (if n < |text| then text[..n] else text)
    else if -n < |text| then text[..|text| + n] else ""
  }

  /** What a kept character becomes: `[` and newline turn into a space. */
  function Calm(ch: char): char
  {
    if ch == '[' || ch == '\n' then ' ' else ch
  }

  /** `quiz_truncate(msg, max_len)` on `str(msg)`: at most `maxLen` characters and
      `...` when something was cut, with every `[` and newline made a space. */
  function QuizTruncate(text: string, maxLen: int): (r: string)
    ensures Lacks(r, '[') && Lacks(r, '\n')
    ensures var cut := PyPrefix(text, maxLen);
            var dots := |cut| < |text|;
            |r| == |cut| + (if dots then 3 else 0)
            && (forall i :: 0 <= i < |cut| ==> r[i] == Calm(text[i]))
            && (dots ==> r[|cut|..] == "...")
  {
    var cut := PyPrefix(text, maxLen);
    var dotted := if |cut| < |text| then cut + "..." else cut;
    ReplaceCharIsMap(dotted, '[', ' ');
    ReplaceCharIsMap(Replace(dotted, "[", " "), '\n', ' ');
    Replace(Replace(dotted, "[", " "), "\n", " ")
  }

  /** Short text only has its `[` and newlines replaced. */
  lemma TruncateShort(text: string, maxLen: int)
    requires 0 <= |text| <= maxLen
    ensures QuizTruncate(text, maxLen) == seq(|text|, i requires 0 <= i < |text| => Calm(text[i]))
  {
  }

  /** Long text keeps its first `maxLen` characters and gains `...`. */
  lemma TruncateLong(text: string, maxLen: int)
    requires 0 <= maxLen < |text|
    ensures |QuizTruncate(text, maxLen)| == maxLen + 3
    ensures QuizTruncate(text, maxLen) == seq(maxLen, i requires 0 <= i < maxLen => Calm(text[i])) + "..."
  {
  }

  // ---------------------------------------------------------------- quiz_answers

  /** The `answer` record a quiz stores in each history entry. */
  datatype Recorded = Recorded(name: string, number: nat, ok: bool, answer: Answers.Answer)

  /** One entry of the summary `quiz_answers` returns; `ok` is never set to true. */
  datatype Summary = Summary(name: string, number: nat, answer: Option<Answers.Answer>, ok: bool)

  /** The set of names the entries carry. */
  function Names(h: seq<Recorded>): set<string>
  {
    if |h| == 0 then {} else Names(h[..|h| - 1]) + {h[|h| - 1].name}
  }

  /** The number of the first entry for `name`. */
  function FirstNumber(h: seq<Recorded>, name: string): nat
    requires name in Names(h)
  {
    if name in Names(h[..|h| - 1]) then FirstNumber(h[..|h| - 1], name) else h[|h| - 1].number
  }

  /** The answer of the last ok entry for `name`, if any. */
  function LastOkAnswer(h: seq<Recorded>, name: string): Option<Answers.Answer>
  {
    if |h| == 0 then None
    else if h[|h| - 1].name == name && h[|h| - 1].ok then Some(h[|h| - 1].answer)
    else LastOkAnswer(h[..|h| - 1], name)
  }

  /** How many entries are ok. */
  function OkCount(h: seq<Recorded>): nat
  {
    if |h| == 0 then 0 else OkCount(h[..|h| - 1]) + (if h[|h| - 1].ok then 1 else 0)
  }

  lemma {:induction false} NamesSpec(h: seq<Recorded>)
    ensures forall n :: n in Names(h) <==> exists i :: 0 <= i < |h| && h[i].name == n
  {
    if |h| > 0 {
      NamesSpec(h[..|h| - 1]);
      forall n | n in Names(h) ensures exists i :: 0 <= i < |h| && h[i].name == n {
        if n in Names(h[..|h| - 1]) {
          var i :| 0 <= i < |h| - 1 && h[..|h| - 1][i].name == n;
          assert h[i].name == n;
        } else {
          assert h[|h| - 1].name == n;
        }
      }
      forall n | exists i :: 0 <= i < |h| && h[i].name == n ensures n in Names(h) {
        var i :| 0 <= i < |h| && h[i].name == n;
        if i < |h| - 1 {
          assert h[..|h| - 1][i].name == n;
        }
      }
    }
  }

  /** The number comes from the first entry with that name. */
  lemma {:induction false} FirstNumberSpec(h: seq<Recorded>, name: string)
    requires name in Names(h)
    ensures exists i :: 0 <= i < |h| && h[i].name == name && h[i].number == FirstNumber(h, name)
                        && forall j :: 0 <= j < i ==> h[j].name != name
  {
    var init := h[..|h| - 1];
    NamesSpec(init);
    if name in Names(init) {
      FirstNumberSpec(init, name);
      var i :| 0 <= i < |init| && init[i].name == name && init[i].number == FirstNumber(init, name)
               && forall j :: 0 <= j < i ==> init[j].name != name;
      assert h[i] == init[i];
      assert forall j :: 0 <= j < i ==> h[j] == init[j];
    } else {
      assert forall j :: 0 <= j < |h| - 1 ==> h[j] == init[j];
    }
  }

  /** The answer comes from the last ok entry with that name, and is none without one. */
  lemma {:induction false} LastOkAnswerSpec(h: seq<Recorded>, name: string)
    ensures LastOkAnswer(h, name).None? <==> forall i :: 0 <= i < |h| ==> !(h[i].name == name && h[i].ok)
    ensures LastOkAnswer(h, name).Some? ==>
              exists i :: 0 <= i < |h| && h[i].name == name && h[i].ok && LastOkAnswer(h, name) == Some(h[i].answer)
                          && forall j :: i < j < |h| ==> !(h[j].name == name && h[j].ok)
  {
    if |h| > 0 {
      var init := h[..|h| - 1];
      LastOkAnswerSpec(init, name);
      assert forall j :: 0 <= j < |h| - 1 ==> h[j] == init[j];
      if !(h[|h| - 1].name == name && h[|h| - 1].ok) && LastOkAnswer(init, name).Some? {
        var i :| 0 <= i < |init| && init[i].name == name && init[i].ok && LastOkAnswer(init, name) == Some(init[i].answer)
                 && forall j :: i < j < |init| ==> !(init[j].name == name && init[j].ok);
        assert h[i] == init[i];
      }
    }
  }

  /** At most one count per entry: none iff no entry is ok, one each iff all are. */
  lemma {:induction false} OkCountSpec(h: seq<Recorded>)
    ensures OkCount(h) <= |h|
    ensures OkCount(h) == 0 <==> forall i :: 0 <= i < |h| ==> !h[i].ok
    ensures OkCount(h) == |h| <==> forall i :: 0 <= i < |h| ==> h[i].ok
  {
    if |h| > 0 {
      var init := h[..|h| - 1];
      OkCountSpec(init);
      assert forall i :: 0 <= i < |h| - 1 ==> h[i] == init[i];
    }
  }

  lemma {:induction false} NoAnswerUnnamed(h: seq<Recorded>, name: string)
    requires name !in Names(h)
    ensures LastOkAnswer(h, name) == None
  {
    if |h| > 0 {
      NoAnswerUnnamed(h[..|h| - 1], name);
    }
  }

  /** `quiz_answers` over the quiz's history: one summary per question name and the
      number of entries whose answer is ok. */
  method QuizAnswers(history: seq<Recorded>) returns (questions: map<string, Summary>, answers: nat)
    ensures questions.Keys == Names(history)
    ensures forall n :: n in questions ==>
              questions[n] == Summary(n, FirstNumber(history, n), LastOkAnswer(history, n), false)
    ensures answers == OkCount(history)
  {
    questions := map[];
    answers := 0;
    for k := 0 to |history|
      invariant questions.Keys == Names(history[..k])
      invariant forall n :: n in questions ==>
                  questions[n] == Summary(n, FirstNumber(history[..k], n), LastOkAnswer(history[..k], n), false)
      invariant answers == OkCount(history[..k])
    {
      var q := history[k];
      ghost var before := history[..k];
      ghost var after := history[..k + 1];
      assert after[..k] == before && after[k] == q;
      assert forall n :: n != q.name ==> LastOkAnswer(after, n) == LastOkAnswer(before, n);
      assert forall n :: n != q.name && n in Names(before) ==> FirstNumber(after, n) == FirstNumber(before, n);
      var name := q.name;
      var entry := if name in questions then questions[name] else Summary(name, q.number, None, false);
      assert FirstNumber(after, name) == entry.number;
      if name !in questions {
        NoAnswerUnnamed(before, name);
      }
      assert !q.ok ==> LastOkAnswer(after, name) == entry.answer;
      questions := questions[name := entry];
      if !q.ok {
        continue;
      }
      questions := questions[name := questions[name].(answer := Some(q.answer))];
      assert LastOkAnswer(after, name) == Some(q.answer);
      answers := answers + 1;
    }
    assert history[..|history|] == history;
  }
}
