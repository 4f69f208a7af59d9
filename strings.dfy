/** Character-level cleaners (lib/quizzinator/string.py): octal escaping of unusual
    characters, removal of terminal control sequences, and `\u` escaping of everything
    outside printable ASCII. */
module Strings {
  import opened Text

  // ---------------------------------------------------------------- digits in a base

  function BaseDigit(d: nat): (c: char)
    requires d < 16
  {
    "0123456789abcdef"[d]
  }

  predicate IsBaseDigit(c: char)
  {
    ('0' <= c <= '9') || ('a' <= c <= 'f')
  }

  function BaseValue(c: char): (d: nat)
    requires IsBaseDigit(c)
    ensures d < 16
  {
    if '0' <= c <= '9' then (c as int - '0' as int) as nat else (c as int - 'a' as int + 10) as nat
  }

  lemma BaseDigitValue(d: nat)
    requires d < 16
    ensures IsBaseDigit(BaseDigit(d)) && BaseValue(BaseDigit(d)) == d
  {
  }

  /** `oct(n)[2:]`: the octal digits of `n`, no leading zero. */
  function Octal(n: nat): (r: string)
    ensures |r| >= 1 && forall i :: 0 <= i < |r| ==> '0' <= r[i] <= '7'
    ensures |r| == 1 || r[0] != '0'
  {
    if n < 8 then [BaseDigit(n)] else Octal(n / 8) + [BaseDigit(n % 8)]
  }

  /** `format(n, 'x')`: the lower-case hexadecimal digits of `n`, no leading zero. */
  function Hex(n: nat): (r: string)
    ensures |r| >= 1 && forall i :: 0 <= i < |r| ==> IsBaseDigit(r[i])
    ensures |r| == 1 || r[0] != '0'
  {
    if n < 16 then [BaseDigit(n)] else Hex(n / 16) + [BaseDigit(n % 16)]
  }

  /** The number a string of digits in base `b` denotes; leading zeros are allowed. */
  function FromBase(s: string, b: nat): nat
    requires forall i :: 0 <= i < |s| ==> IsBaseDigit(s[i])
  {
    if |s| == 0 then 0 else b * FromBase(s[..|s| - 1], b) + BaseValue(s[|s| - 1])
  }

  lemma {:induction false} FromOctal(n: nat)
    ensures forall i :: 0 <= i < |Octal(n)| ==> IsBaseDigit(Octal(n)[i])
    ensures FromBase(Octal(n), 8) == n
  {
    var s := Octal(n);
    BaseDigitValue(n % 8);
    if n >= 8 {
      FromOctal(n / 8);
      assert s[..|s| - 1] == Octal(n / 8);
    }
  }

  lemma {:induction false} FromHex(n: nat)
    ensures FromBase(Hex(n), 16) == n
  {
    var s := Hex(n);
    BaseDigitValue(n % 16);
    if n >= 16 {
      FromHex(n / 16);
      assert s[..|s| - 1] == Hex(n / 16);
    }
  }

  lemma {:induction false} FromBaseZeros(k: nat, s: string, b: nat)
    requires forall i :: 0 <= i < |s| ==> IsBaseDigit(s[i])
    ensures forall i :: 0 <= i < |Repeat('0', k) + s| ==> IsBaseDigit((Repeat('0', k) + s)[i])
    ensures FromBase(Repeat('0', k) + s, b) == FromBase(s, b)
    decreases |s|
  {
    var z := Repeat('0', k);
    assert forall i :: 0 <= i < |z + s| ==> IsBaseDigit((z + s)[i]) by {
      forall i | 0 <= i < |z + s| ensures IsBaseDigit((z + s)[i]) {
        if i >= |z| { assert (z + s)[i] == s[i - |z|]; }
      }
    }
    if |s| == 0 {
      assert z + s == z;
      ZerosAreZero(k, b);
    } else {
      FromBaseZeros(k, s[..|s| - 1], b);
      assert (z + s)[..|z + s| - 1] == z + s[..|s| - 1];
    }
  }

  lemma {:induction false} ZerosAreZero(k: nat, b: nat)
    ensures forall i :: 0 <= i < |Repeat('0', k)| ==> IsBaseDigit(Repeat('0', k)[i])
    ensures FromBase(Repeat('0', k), b) == 0
  {
    if k > 0 {
      var z := Repeat('0', k);
      ZerosAreZero(k - 1, b);
      assert z[..|z| - 1] == Repeat('0', k - 1) by {
        assert z == [z[0]] + z[1..];
        assert z[1..] == Repeat('0', k - 1);
        var t := Repeat('0', k - 1);
        assert forall i :: 0 <= i < |t| ==> z[..|z| - 1][i] == t[i];
      }
    }
  }

  // ---------------------------------------------------------------- pythonify_string

  /** An ASCII letter, digit or punctuation mark, or whitespace. */
  predicate Kept(c: char)
  {
    ('!' <= c <= '~') || IsSpace(c)
  }

  /** The replacement of any other character: a backslash, `0`, and its code point in octal. */
  function OctalEscape(c: char): (r: string)
    ensures |r| >= 3 && r[..2] == "\\0" && forall i :: 0 <= i < |r| ==> Kept(r[i])
  {
    "\\0" + Octal(c as int)
  }

  function PythonChar(c: char): string
  {
    if Kept(c) then [c] else OctalEscape(c)
  }

  /** The text `pythonify_string` builds, one input character at a time. */
  function Pythonified(s: string): string
  {
    MapConcat(s, PythonChar)
  }

  /** `pythonify_string` */
  method PythonifyString(s: string) returns (ret: string)
    ensures ret == Pythonified(s)
  {
    ret := "";
    for i := 0 to |s|
      invariant ret == Pythonified(s[..i])
    {
      assert s[..i + 1][..i] == s[..i];
      if Kept(s[i]) {
        ret := ret + [s[i]];
      } else {
        ret := ret + "\\0" + Octal(s[i] as int);
      }
    }
    assert s[..|s|] == s;
  }

  /** Characters are rewritten independently and stay in order. */
  lemma PythonifiedAppend(a: string, b: string)
    ensures Pythonified(a + b) == Pythonified(a) + Pythonified(b)
  {
    MapConcatAppend(a, b, PythonChar);
  }

  /** Text made only of kept characters comes back unchanged. */
  lemma PythonifyIdentity(s: string)
    requires forall i :: 0 <= i < |s| ==> Kept(s[i])
    ensures Pythonified(s) == s
  {
    MapConcatIdentity(s, PythonChar);
  }

  /** The output is never shorter than the input, and has only kept characters. */
  lemma PythonifyShape(s: string)
    ensures |Pythonified(s)| >= |s|
    ensures forall i :: 0 <= i < |Pythonified(s)| ==> Kept(Pythonified(s)[i])
  {
    MapConcatShape(s, PythonChar, Kept);
  }

  /** An escaped character can be read back from its octal digits. */
  lemma OctalEscapeDecodes(c: char)
    ensures FromBase(OctalEscape(c)[2..], 8) == c as int
  {
    assert OctalEscape(c)[2..] == Octal(c as int);
    FromOctal(c as int);
  }

  // ---------------------------------------------------------------- remove_escape_sequences

  /** The three byte classes of a control sequence (section 5.4 of ECMA-48). */
  predicate IsParameter(c: char) { '0' <= c <= '?' }
  predicate IsIntermediate(c: char) { ' ' <= c <= '/' }
  predicate IsFinal(c: char) { '@' <= c <= '~' }

  /** The length of a control sequence introducer at the start: the single CSI `\x9B`,
      or ESC `[`; zero when there is none. */
  function IntroLength(s: string): nat
  {
    if |s| >= 1 && s[0] == '\U{9B}' then 1
    else if |s| >= 2 && s[0] == '\U{1B}' && s[1] == '[' then 2
    else 0
  }

  /** How many parameter bytes follow position `i`. */
  function ParameterRun(s: string, i: nat): (n: nat)
    requires i <= |s|
    ensures i + n <= |s|
    decreases |s| - i
  {
    if i < |s| && IsParameter(s[i]) then 1 + ParameterRun(s, i + 1) else 0
  }

  /** How many intermediate bytes follow position `i`. */
  function IntermediateRun(s: string, i: nat): (n: nat)
    requires i <= |s|
    ensures i + n <= |s|
    decreases |s| - i
  {
    if i < |s| && IsIntermediate(s[i]) then 1 + IntermediateRun(s, i + 1) else 0
  }

  /** The length of the sequence `(\x9B|\x1B\[)[0-?]*[ -/]*[@-~]` matches at the start.
      No byte of one class belongs to a later class, so the greedy runs never need to
      give anything back. */
  function CsiLength(s: string): (r: Option<nat>)
    ensures r.Some? ==> 0 < r.value <= |s|
  {
    var a := IntroLength(s);
    if a == 0 then None
    else
      var b := a + ParameterRun(s, a);
      var c := b + IntermediateRun(s, b);
      if c < |s| && IsFinal(s[c]) then Some(c + 1) else None
  }

  /** `remove_escape_sequences`: `re.sub` of that pattern with `''`, scanning left to right. */
  function RemoveEscapes(s: string): string
    decreases |s|
  {
    if |s| == 0 then ""
    else match CsiLength(s)
      case Some(n) => RemoveEscapes(s[n..])
      case None => [s[0]] + RemoveEscapes(s[1..])
  }

  /** One complete control sequence. */
  ghost predicate IsCsi(t: string)
  {
    exists intro: string, p: string, m: string, f: char ::
      (intro == "\U{9B}" || intro == "\U{1B}[")
      && (forall i :: 0 <= i < |p| ==> IsParameter(p[i]))
      && (forall i :: 0 <= i < |m| ==> IsIntermediate(m[i]))
      && IsFinal(f) && t == intro + p + m + [f]
  }

  /** A byte that starts an introducer and belongs to no class of the sequence. */
  predicate Stopper(c: char)
  {
    c == '\U{9B}' || c == '\U{1B}'
  }

  lemma {:induction false} ParameterRunFrom(p: string, rest: string, i: nat)
    requires i <= |p| && forall k :: 0 <= k < |p| ==> IsParameter(p[k])
    requires |rest| == 0 || !IsParameter(rest[0])
    ensures ParameterRun(p + rest, i) == |p| - i
    decreases |p| - i
  {
    if i < |p| {
      ParameterRunFrom(p, rest, i + 1);
    }
  }

  lemma {:induction false} IntermediateRunFrom(m: string, rest: string, i: nat)
    requires i <= |m| && forall k :: 0 <= k < |m| ==> IsIntermediate(m[k])
    requires |rest| == 0 || !IsIntermediate(rest[0])
    ensures IntermediateRun(m + rest, i) == |m| - i
    decreases |m| - i
  {
    if i < |m| {
      IntermediateRunFrom(m, rest, i + 1);
    }
  }

  lemma RunShift(pre: string, s: string)
    ensures ParameterRun(pre + s, |pre|) == ParameterRun(s, 0)
    ensures IntermediateRun(pre + s, |pre|) == IntermediateRun(s, 0)
  {
    RunShiftFrom(pre, s, 0);
  }

  lemma {:induction false} RunShiftFrom(pre: string, s: string, i: nat)
    requires i <= |s|
    ensures ParameterRun(pre + s, |pre| + i) == ParameterRun(s, i)
    ensures IntermediateRun(pre + s, |pre| + i) == IntermediateRun(s, i)
    decreases |s| - i
  {
    if i < |s| {
      RunShiftFrom(pre, s, i + 1);
      assert (pre + s)[|pre| + i] == s[i];
    }
  }

  /** A complete sequence at the start is recognised with exactly its length. */
  lemma CsiLengthOfCsi(t: string, rest: string)
    requires IsCsi(t)
    ensures CsiLength(t + rest) == Some(|t|)
  {
    var intro: string, p: string, m: string, f: char :|
      (intro == "\U{9B}" || intro == "\U{1B}[")
      && (forall i :: 0 <= i < |p| ==> IsParameter(p[i]))
      && (forall i :: 0 <= i < |m| ==> IsIntermediate(m[i]))
      && IsFinal(f) && t == intro + p + m + [f];
    CsiParts(intro, p, m, f, rest);
    assert t + rest == intro + p + m + [f] + rest;
  }

  /** Either introducer is recognised in front of any text. */
  lemma IntroPrefix(intro: string, t: string)
    requires intro == "\U{9B}" || intro == "\U{1B}["
    ensures IntroLength(intro + t) == |intro|
  {
    var s := intro + t;
    assert s[0] == intro[0];
    assert |intro| == 2 ==> s[1] == '[';
  }

  lemma CsiParts(intro: string, p: string, m: string, f: char, rest: string)
    requires intro == "\U{9B}" || intro == "\U{1B}["
    requires forall i :: 0 <= i < |p| ==> IsParameter(p[i])
    requires forall i :: 0 <= i < |m| ==> IsIntermediate(m[i])
    requires IsFinal(f)
    ensures CsiLength(intro + p + m + [f] + rest) == Some(|intro| + |p| + |m| + 1)
  {
    var s := intro + p + m + [f] + rest;
    var a := |intro|;
    var tail := m + [f] + rest;
    assert s == intro + (p + tail);
    IntroPrefix(intro, p + tail);
    RunShift(intro, p + tail);
    assert |m| > 0 ==> !IsParameter(tail[0]);
    ParameterRunFrom(p, tail, 0);
    var tail2 := [f] + rest;
    assert s == (intro + p) + (m + tail2);
    RunShift(intro + p, m + tail2);
    IntermediateRunFrom(m, tail2, 0);
    assert s[a + |p| + |m|] == f;
  }

  lemma {:induction false} ParameterRunStops(x: string, y: string, i: nat)
    requires i <= |x| && |y| > 0 && Stopper(y[0])
    ensures ParameterRun(x + y, i) == ParameterRun(x, i)
    decreases |x| - i
  {
    if i < |x| {
      ParameterRunStops(x, y, i + 1);
    }
  }

  lemma {:induction false} IntermediateRunStops(x: string, y: string, i: nat)
    requires i <= |x| && |y| > 0 && Stopper(y[0])
    ensures IntermediateRun(x + y, i) == IntermediateRun(x, i)
    decreases |x| - i
  {
    if i < |x| {
      IntermediateRunStops(x, y, i + 1);
    }
  }

  /** A match that starts before an introducer byte ends before it as well. */
  lemma CsiLengthStops(x: string, y: string)
    requires |x| > 0 && |y| > 0 && Stopper(y[0])
    ensures CsiLength(x + y) == CsiLength(x)
  {
    var s := x + y;
    assert IntroLength(s) == IntroLength(x) by {
      if |x| == 1 { assert s[1] == y[0]; }
    }
    var a := IntroLength(x);
    if a > 0 {
      ParameterRunStops(x, y, a);
      var b := a + ParameterRun(x, a);
      IntermediateRunStops(x, y, b);
      var c := b + IntermediateRun(x, b);
      if c == |x| {
        assert s[c] == y[0];
      }
    }
  }

  /** Text in front of an introducer is cleaned on its own. */
  lemma {:induction false} RemoveEscapesSplit(x: string, y: string)
    requires |y| > 0 && Stopper(y[0])
    ensures RemoveEscapes(x + y) == RemoveEscapes(x) + RemoveEscapes(y)
    decreases |x|
  {
    if |x| == 0 {
      assert x + y == y;
    } else {
      CsiLengthStops(x, y);
      match CsiLength(x)
      case Some(n) =>
        assert (x + y)[n..] == x[n..] + y;
        RemoveEscapesSplit(x[n..], y);
      case None =>
        assert (x + y)[1..] == x[1..] + y;
        RemoveEscapesSplit(x[1..], y);
    }
  }

  /** Every control sequence is deleted and the text around it is kept: removing from
      `a + t + b` is removing from `a` and from `b` separately. */
  lemma RemoveEscapesDeletes(a: string, t: string, b: string)
    requires IsCsi(t)
    ensures RemoveEscapes(a + t + b) == RemoveEscapes(a) + RemoveEscapes(b)
  {
    CsiLengthOfCsi(t, b);
    assert |t| > 0 && Stopper(t[0]);
    assert (t + b)[|t|..] == b;
    assert RemoveEscapes(t + b) == RemoveEscapes(b);
    assert a + t + b == a + (t + b);
    RemoveEscapesSplit(a, t + b);
  }

  /** Text with no introducer is unchanged. */
  lemma {:induction false} RemoveEscapesPlain(s: string)
    requires Lacks(s, '\U{9B}') && !Contains(s, "\U{1B}[")
    ensures RemoveEscapes(s) == s
  {
    if |s| > 0 {
      assert !OccursAt(s, "\U{1B}[", 0);
      assert (|s| >= 2 && s[..2] == "\U{1B}[") <==> (|s| >= 2 && s[0] == '\U{1B}' && s[1] == '[');
      assert IntroLength(s) == 0;
      forall j: nat ensures !OccursAt(s[1..], "\U{1B}[", j) {
        OccursAtShift(s, "\U{1B}[", j);
      }
      RemoveEscapesPlain(s[1..]);
    }
  }

  /** Text made only of control sequences cleans to nothing. */
  lemma {:induction false} RemoveEscapesOnly(ts: seq<string>)
    requires forall k :: 0 <= k < |ts| ==> IsCsi(ts[k])
    ensures RemoveEscapes(Concat(ts)) == ""
  {
    if |ts| > 0 {
      RemoveEscapesOnly(ts[1..]);
      CsiLengthOfCsi(ts[0], Concat(ts[1..]));
      assert Concat(ts) == ts[0] + Concat(ts[1..]);
      assert Concat(ts)[|ts[0]|..] == Concat(ts[1..]);
    }
  }

  function Concat(ts: seq<string>): string
  {
    if |ts| == 0 then "" else ts[0] + Concat(ts[1..])
  }

  // ---------------------------------------------------------------- escape_unicode

  /** Carriage return, newline and printable ASCII. */
  predicate Plain(c: char)
  {
    c == '\r' || c == '\n' || (' ' <= c <= '~')
  }

  /** `'\\u{:04x}'.format(ord(c))`: the code point in lower-case hex, zero-padded to at
      least four digits. */
  function UnicodeReplacement(c: char): (r: string)
    ensures |r| >= 6 && r[..2] == "\\u" && forall i :: 0 <= i < |r| ==> Plain(r[i])
  {
    var h := Hex(c as int);
    "\\u" + (if |h| < 4 then Repeat('0', 4 - |h|) else "") + h
  }

  /** The padded digits read back as the code point. */
  lemma UnicodeReplacementDecodes(c: char)
    ensures forall i :: 2 <= i < |UnicodeReplacement(c)| ==> IsBaseDigit(UnicodeReplacement(c)[i])
    ensures FromBase(UnicodeReplacement(c)[2..], 16) == c as int
  {
    var h := Hex(c as int);
    var k := if |h| < 4 then 4 - |h| else 0;
    assert UnicodeReplacement(c)[2..] == Repeat('0', k) + h;
    FromBaseZeros(k, h, 16);
    FromHex(c as int);
  }

  function EscapeChar(c: char): string
  {
    if Plain(c) then [c] else UnicodeReplacement(c)
  }

  /** `escape_unicode`: every character outside carriage return, newline and printable
      ASCII is replaced by its `\u` escape. */
  function EscapeUnicode(s: string): string
  {
    MapConcat(s, EscapeChar)
  }

  lemma EscapeUnicodeOutput(s: string)
    ensures forall i :: 0 <= i < |EscapeUnicode(s)| ==> Plain(EscapeUnicode(s)[i])
    ensures |EscapeUnicode(s)| >= |s|
  {
    MapConcatShape(s, EscapeChar, Plain);
  }

  lemma EscapeUnicodeIdentity(s: string)
    requires forall i :: 0 <= i < |s| ==> Plain(s[i])
    ensures EscapeUnicode(s) == s
  {
    MapConcatIdentity(s, EscapeChar);
  }

  lemma EscapeUnicodeAppend(a: string, b: string)
    ensures EscapeUnicode(a + b) == EscapeUnicode(a) + EscapeUnicode(b)
  {
    MapConcatAppend(a, b, EscapeChar);
  }
}
