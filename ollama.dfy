/** The response cleaner of the model client (lib/quizzinator/ollama.py, `Ollama._clean`):
    terminal control sequences are removed, typographic quotes and dashes become
    ASCII, braille progress glyphs are dropped, CRLF becomes LF, the text is stripped
    and made visible, and when a `<think>` is present only the text between the first
    `<think>` and the second one (or the end) is kept, behind a `<think>`. */
module Ollama {
  import opened Text
  import opened Strings

  const ThinkTag: string := "<think>"

  /** The six quote replacements; the first two replace a character by itself. */
  function Dequote(s: string): string
  {
    var r := Replace(s, "\"", "\"");
    var r := Replace(r, "'", "'");
    var r := Replace(r, "\U{201C}", "\"");
    var r := Replace(r, "\U{201D}", "\"");
    var r := Replace(r, "\U{2018}", "'");
    Replace(r, "\U{2019}", "'")
  }

  /** Em dash and en dash become `-`. */
  function Dedash(s: string): string
  {
    Replace(Replace(s, "\U{2014}", "-"), "\U{2013}", "-")
  }

  predicate IsBraille(c: char)
  {
    '\U{2800}' <= c <= '\U{28FF}'
  }

  /** The characters outside the braille block, in order. */
  function DropBraille(s: string): (r: string)
    ensures forall i :: 0 <= i < |r| ==> !IsBraille(r[i])
  {
    if |s| == 0 then "" else DropBraille(s[..|s| - 1]) + (if IsBraille(s[|s| - 1]) then "" else [s[|s| - 1]])
  }

  /** Strip and make visible; with a `<think>` present, keep `<think>` followed by the
      text between the first `<think>` and the next one, or the end of the text. */
  function Finish(s: string): string
  {
    var p := Pythonified(Strip(s));
    if Contains(p, ThinkTag) then
      assert |Split(p, ThinkTag)| >= 2;
      ThinkTag + Split(p, ThinkTag)[1]
    else p
  }

  /** The steps before the CRLF fix. */
  function Prepare(response: string): string
  {
    DropBraille(Dedash(Dequote(RemoveEscapes(response))))
  }

  /** `_clean` as written: a single `replace('\r\n', '\n')` pass. */
  function CleanAsWritten(response: string): string
  {
    Finish(Replace(Prepare(response), "\r\n", "\n"))
  }

  /** CRLF turned into LF until none is left. */
  function CollapseCrlf(s: string): (r: string)
    ensures !Contains(r, "\r\n")
    decreases |s|
  {
    if Contains(s, "\r\n") then
      ReplaceShrinks(s, "\r\n", "\n");
      CollapseCrlf(Replace(s, "\r\n", "\n"))
    else s
  }

  /** `_clean` with the line-ending fix it evidently intends. */
  function Clean(response: string): string
  {
    Finish(CollapseCrlf(Prepare(response)))
  }

  // ---------------------------------------------------------------- the character maps

  /** What the quote and dash replacements do to one character. */
  function Typographic(c: char): char
  {
    if c == '\U{201C}' || c == '\U{201D}' then '"'
    else if c == '\U{2018}' || c == '\U{2019}' then '\''
    else if c == '\U{2014}' || c == '\U{2013}' then '-'
    else c
  }

  function QuoteMap(c: char): char
  {
    if c == '\U{201C}' || c == '\U{201D}' then '"'
    else if c == '\U{2018}' || c == '\U{2019}' then '\''
    else c
  }

  lemma DequoteMap(s: string)
    ensures Dequote(s) == seq(|s|, i requires 0 <= i < |s| => QuoteMap(s[i]))
  {
    ReplaceCharIsMap(s, '"', '"');
    var r1 := MapChar(s, '"', '"');
    ReplaceCharIsMap(r1, '\'', '\'');
    var r2 := MapChar(r1, '\'', '\'');
    ReplaceCharIsMap(r2, '\U{201C}', '"');
    var r3 := MapChar(r2, '\U{201C}', '"');
    ReplaceCharIsMap(r3, '\U{201D}', '"');
    var r4 := MapChar(r3, '\U{201D}', '"');
    ReplaceCharIsMap(r4, '\U{2018}', '\'');
    var r5 := MapChar(r4, '\U{2018}', '\'');
    ReplaceCharIsMap(r5, '\U{2019}', '\'');
  }

  lemma DedashMap(s: string)
    ensures Dedash(s) == seq(|s|, i requires 0 <= i < |s| => if s[i] == '\U{2014}' || s[i] == '\U{2013}' then '-' else s[i])
  {
    ReplaceCharIsMap(s, '\U{2014}', '-');
    ReplaceCharIsMap(MapChar(s, '\U{2014}', '-'), '\U{2013}', '-');
  }

  lemma DequoteDedashMap(s: string)
    ensures Dedash(Dequote(s)) == seq(|s|, i requires 0 <= i < |s| => Typographic(s[i]))
  {
    DequoteMap(s);
    DedashMap(Dequote(s));
  }

  lemma {:induction false} DropBrailleNone(s: string)
    requires forall i :: 0 <= i < |s| ==> !IsBraille(s[i])
    ensures DropBraille(s) == s
  {
    if |s| > 0 {
      DropBrailleNone(s[..|s| - 1]);
    }
  }

  /** A character the cleaner leaves alone or maps to ASCII. */
  predicate Ordinary(c: char)
  {
    Kept(c) || c == '\U{201C}' || c == '\U{201D}' || c == '\U{2018}' || c == '\U{2019}'
    || c == '\U{2014}' || c == '\U{2013}'
  }

  lemma LacksPrefixed(s: string, c: char, pat: string)
    requires |pat| > 0 && pat[0] == c && Lacks(s, c)
    ensures !Contains(s, pat)
  {
    forall j: nat ensures !OccursAt(s, pat, j) {
      if j + |pat| <= |s| {
        assert s[j..j + |pat|][0] == s[j];
      }
    }
  }

  /** On ordinary text the steps before the line-ending fix only map quotes and dashes. */
  lemma PrepareOrdinary(s: string)
    requires forall i :: 0 <= i < |s| ==> Ordinary(s[i])
    ensures Prepare(s) == seq(|s|, i requires 0 <= i < |s| => Typographic(s[i]))
  {
    assert Lacks(s, '\U{9B}') && Lacks(s, '\U{1B}');
    LacksPrefixed(s, '\U{1B}', "\U{1B}[");
    RemoveEscapesPlain(s);
    DequoteDedashMap(s);
    DropBrailleNone(seq(|s|, i requires 0 <= i < |s| => Typographic(s[i])));
  }

  /** Text of kept characters without `<` whose ends are not blank passes the last step unchanged. */
  lemma FinishKept(s: string)
    requires forall i :: 0 <= i < |s| ==> Kept(s[i])
    requires Lacks(s, '<')
    requires |s| > 0 ==> !IsSpace(s[0]) && !IsSpace(s[|s| - 1])
    ensures Finish(s) == s
  {
    assert LStrip(s) == s;
    assert RStrip(s) == s;
    PythonifyIdentity(s);
    LacksPrefixed(s, '<', ThinkTag);
  }

  /** The quote and dash map of such text has no CRLF and passes the last step unchanged. */
  lemma FinishTypographic(s: string)
    requires forall i :: 0 <= i < |s| ==> Ordinary(s[i])
    requires Lacks(s, '\r') && Lacks(s, '<')
    requires |s| > 0 ==> !IsSpace(s[0]) && !IsSpace(s[|s| - 1])
    ensures var t := seq(|s|, i requires 0 <= i < |s| => Typographic(s[i]));
      !Contains(t, "\r\n") && Finish(t) == t
  {
    var t := seq(|s|, i requires 0 <= i < |s| => Typographic(s[i]));
    assert Lacks(t, '\r');
    LacksPrefixed(t, '\r', "\r\n");
    FinishKept(t);
  }

  /** Ordinary text without carriage returns or `<`, not blank at its ends, only has its
      typographic quotes and dashes made ASCII, in both versions. */
  lemma CleanOrdinary(s: string)
    requires forall i :: 0 <= i < |s| ==> Ordinary(s[i])
    requires Lacks(s, '\r') && Lacks(s, '<')
    requires |s| > 0 ==> !IsSpace(s[0]) && !IsSpace(s[|s| - 1])
    ensures CleanAsWritten(s) == seq(|s|, i requires 0 <= i < |s| => Typographic(s[i]))
    ensures Clean(s) == CleanAsWritten(s)
  {
    var t := seq(|s|, i requires 0 <= i < |s| => Typographic(s[i]));
    PrepareOrdinary(s);
    FinishTypographic(s);
    ReplaceAbsent(t, "\r\n", "\n");
  }

  /** Text made only of control sequences cleans to nothing. */
  lemma CleanOnlyEscapes(ts: seq<string>)
    requires forall k :: 0 <= k < |ts| ==> IsCsi(ts[k])
    ensures CleanAsWritten(Concat(ts)) == "" && Clean(Concat(ts)) == ""
  {
    RemoveEscapesOnly(ts);
    assert Prepare(Concat(ts)) == "";
    FinishKept("");
  }

  // ---------------------------------------------------------------- output shape

  lemma {:induction false} KeptSlice(s: string, a: nat, b: nat)
    requires a <= b <= |s| && forall i :: 0 <= i < |s| ==> Kept(s[i])
    ensures forall i :: 0 <= i < b - a ==> Kept(s[a..b][i])
  {
  }

  /** The output holds only visible ASCII and whitespace (so no braille glyph), and it
      holds `<think>` only when it starts with it. */
  lemma FinishShape(s: string)
    ensures forall i :: 0 <= i < |Finish(s)| ==> Kept(Finish(s)[i])
    ensures Contains(Finish(s), ThinkTag) ==> StartsWith(Finish(s), ThinkTag)
  {
    var p := Pythonified(Strip(s));
    PythonifyShape(Strip(s));
    if Contains(p, ThinkTag) {
      SplitPieceSlice(p, ThinkTag, 1);
      var a, b :| 0 <= a <= b <= |p| && Split(p, ThinkTag)[1] == p[a..b];
      KeptSlice(p, a, b);
      var r := ThinkTag + p[a..b];
      assert forall i :: 0 <= i < |ThinkTag| ==> Kept(ThinkTag[i]);
      forall i | 0 <= i < |r| ensures Kept(r[i]) {
        if i < |ThinkTag| {
          assert r[i] == ThinkTag[i];
        } else {
          assert r[i] == p[a..b][i - |ThinkTag|];
        }
      }
      assert r[..|ThinkTag|] == ThinkTag;
    }
  }

  // ---------------------------------------------------------------- CRLF

  predicate NoCrlf(s: string)
  {
    forall i :: 0 <= i < |s| - 1 ==> !(s[i] == '\r' && s[i + 1] == '\n')
  }

  lemma NoCrlfIff(s: string)
    ensures NoCrlf(s) <==> !Contains(s, "\r\n")
  {
    if Contains(s, "\r\n") {
      var i := Find(s, "\r\n").value;
      assert s[i..i + 2][0] == s[i] && s[i..i + 2][1] == s[i + 1];
    }
    if !NoCrlf(s) {
      var i :| 0 <= i < |s| - 1 && s[i] == '\r' && s[i + 1] == '\n';
      assert s[i..i + 2] == "\r\n";
      assert OccursAt(s, "\r\n", i);
    }
  }

  lemma NoCrlfSlice(s: string, a: nat, b: nat)
    requires a <= b <= |s| && NoCrlf(s)
    ensures NoCrlf(s[a..b])
  {
    var t := s[a..b];
    forall i | 0 <= i < |t| - 1 ensures !(t[i] == '\r' && t[i + 1] == '\n') {
      assert t[i] == s[a + i] && t[i + 1] == s[a + i + 1];
    }
  }

  /** Making text visible creates no CRLF: escapes hold neither CR nor LF, so a CR
      stays last exactly when it was, and an LF first exactly when it was. */
  lemma {:induction false} PythonifiedNoCrlf(s: string)
    requires NoCrlf(s)
    ensures NoCrlf(Pythonified(s))
    ensures |Pythonified(s)| > 0 && Pythonified(s)[|Pythonified(s)| - 1] == '\r' ==> |s| > 0 && s[|s| - 1] == '\r'
    decreases |s|
  {
    if |s| > 0 {
      var init := s[..|s| - 1];
      var c := s[|s| - 1];
      NoCrlfSlice(s, 0, |s| - 1);
      assert s[..|s| - 1] == init;
      PythonifiedNoCrlf(init);
      var x := Pythonified(init);
      var y := PythonChar(c);
      assert Pythonified(s) == x + y;
      assert |y| > 0;
      assert y[|y| - 1] == '\r' ==> c == '\r';
      assert y[0] == '\n' ==> c == '\n';
      forall i | 0 <= i < |y| - 1 ensures !(y[i] == '\r' && y[i + 1] == '\n') {
        assert !Kept(c) ==> y[i + 1] != '\n';
      }
      assert |x| > 0 && x[|x| - 1] == '\r' ==> init[|init| - 1] == '\r';
      NoCrlfAppend(x, y);
    }
  }

  lemma NoCrlfAppend(a: string, b: string)
    requires NoCrlf(a) && NoCrlf(b)
    requires |a| > 0 && |b| > 0 ==> !(a[|a| - 1] == '\r' && b[0] == '\n')
    ensures NoCrlf(a + b)
  {
    forall i | 0 <= i < |a + b| - 1 ensures !((a + b)[i] == '\r' && (a + b)[i + 1] == '\n') {
      if i < |a| - 1 {
        assert (a + b)[i] == a[i] && (a + b)[i + 1] == a[i + 1];
      } else if i == |a| - 1 {
        assert (a + b)[i] == a[i] && (a + b)[i + 1] == b[0];
      } else {
        assert (a + b)[i] == b[i - |a|] && (a + b)[i + 1] == b[i - |a| + 1];
      }
    }
  }

  lemma StripPythonifiedNoCrlf(c: string)
    requires NoCrlf(c)
    ensures NoCrlf(Pythonified(Strip(c)))
  {
    StripSlice(c);
    var a, b :| 0 <= a <= b <= |c| && Strip(c) == c[a..b];
    NoCrlfSlice(c, a, b);
    PythonifiedNoCrlf(Strip(c));
  }

  lemma ThinkPieceNoCrlf(p: string)
    requires NoCrlf(p) && Contains(p, ThinkTag)
    ensures |Split(p, ThinkTag)| >= 2 && NoCrlf(ThinkTag + Split(p, ThinkTag)[1])
  {
    SplitPieceSlice(p, ThinkTag, 1);
    var u, v :| 0 <= u <= v <= |p| && Split(p, ThinkTag)[1] == p[u..v];
    NoCrlfSlice(p, u, v);
    assert NoCrlf(ThinkTag) by {
      assert forall i :: 0 <= i < |ThinkTag| ==> ThinkTag[i] != '\r';
    }
    NoCrlfAppend(ThinkTag, p[u..v]);
  }

  /** The corrected cleaner leaves no CRLF. */
  lemma CleanNoCrlf(response: string)
    ensures !Contains(Clean(response), "\r\n")
  {
    var c := CollapseCrlf(Prepare(response));
    NoCrlfIff(c);
    StripPythonifiedNoCrlf(c);
    var p := Pythonified(Strip(c));
    if Contains(p, ThinkTag) {
      ThinkPieceNoCrlf(p);
      NoCrlfIff(ThinkTag + Split(p, ThinkTag)[1]);
    } else {
      NoCrlfIff(p);
    }
  }

  /** The single pass of the source leaves a CRLF behind in `a\r\r\nb`. */
  lemma CrlfSurvives()
    ensures Contains(CleanAsWritten("a\r\r\nb"), "\r\n")
  {
    CrlfSurvivesIn("a\r\r\nb");
  }

  lemma CrlfSurvivesIn(s: string)
    requires s == "a\r\r\nb"
    ensures Contains(CleanAsWritten(s), "\r\n")
  {
    var t := CrlfReplaced(s);
    assert Kept(t[0]) && Kept(t[1]) && Kept(t[2]) && Kept(t[3]);
    assert Lacks(t, '<');
    FinishKept(t);
    assert t[1..3] == "\r\n";
    assert OccursAt(t, "\r\n", 1);
  }

  lemma CrlfReplaced(s: string) returns (t: string)
    requires s == "a\r\r\nb"
    ensures Replace(Prepare(s), "\r\n", "\n") == t
    ensures t == ['a', '\r', '\n', 'b']
  {
    CrlfPrepared(s);
    CrlfSplit(s);
    t := s[..2] + "\n" + s[4..];
    JoinCons("\n", s[..2], [s[4..]]);
  }

  lemma CrlfPrepared(s: string)
    requires s == "a\r\r\nb"
    ensures Prepare(s) == s
  {
    assert forall i :: 0 <= i < |s| ==> Ordinary(s[i]) && Typographic(s[i]) == s[i];
    PrepareOrdinary(s);
    assert seq(|s|, i requires 0 <= i < |s| => Typographic(s[i])) == s;
  }

  lemma CrlfSplit(s: string)
    requires s == "a\r\r\nb"
    ensures Split(s, "\r\n") == [s[..2], s[4..]]
  {
    assert Find(s, "\r\n") == Some(2) by {
      assert s[0..2][0] != '\r';
      assert s[1..3][1] != '\n';
      assert s[2..4] == "\r\n";
      FindFirst(s, "\r\n", 2);
    }
    assert Find(s[4..], "\r\n") == None by {
      assert |s[4..]| < 2;
    }
    SplitOnce(s, "\r\n", 2);
  }
}
