// The pure data helpers of the project dashboard script
// (templates/project/scripts.js): answer parsing, key clean-up, CSV
// escaping, the key intersection, the two tallies and the ordering of the
// experiment keys.

module Report {
  import opened Text

  // ---------------------------------------------------------------- JavaScript whitespace

  /** What `\s` matches in a JavaScript regular expression, and what `trim` removes. */
  predicate IsJsSpace(c: char)
  {
    c == '\t' || c == '\n' || c == '\U{0B}' || c == '\U{0C}' || c == '\r' || c == ' ' ||
    c == '\U{A0}' || c == '\U{1680}' || ('\U{2000}' <= c <= '\U{200A}') ||
    c == '\U{2028}' || c == '\U{2029}' || c == '\U{202F}' || c == '\U{205F}' ||
    c == '\U{3000}' || c == '\U{FEFF}'
  }

  /** The characters `.` does not match. */
  predicate IsLineTerminator(c: char)
  {
    c == '\n' || c == '\r' || c == '\U{2028}' || c == '\U{2029}'
  }

  function TrimStart(s: string): (r: string)
    ensures |r| <= |s| && r == s[|s| - |r|..]
    ensures r != [] ==> !IsJsSpace(r[0])
    ensures forall i :: 0 <= i < |s| - |r| ==> IsJsSpace(s[i])
  {
    if s != [] && IsJsSpace(s[0]) then TrimStart(s[1..]) else s
  }

  function TrimEnd(s: string): (r: string)
    ensures |r| <= |s| && r == s[..|r|]
    ensures r != [] ==> !IsJsSpace(r[|r| - 1])
    ensures forall i :: |r| <= i < |s| ==> IsJsSpace(s[i])
  {
    if s != [] && IsJsSpace(s[|s| - 1]) then TrimEnd(s[..|s| - 1]) else s
  }

  /** `String.prototype.trim`. */
  function Trim(s: string): string
  {
    TrimEnd(TrimStart(s))
  }

  /** The trimmed text is a slice of the original with no surrounding whitespace. */
  lemma TrimSpec(s: string)
    ensures exists a, b :: 0 <= a <= b <= |s| && Trim(s) == s[a..b]
    ensures Trim(s) != [] ==> !IsJsSpace(Trim(s)[0]) && !IsJsSpace(Trim(s)[|Trim(s)| - 1])
  {
    var t := TrimStart(s);
    var a := |s| - |t|;
    var r := TrimEnd(t);
    assert r == s[a..a + |r|] by {
      assert t == s[a..|s|];
      assert r == t[0..|r|];
      SliceOfSlice(s, a, |s|, 0, |r|);
    }
    if r != [] {
      assert r[0] == t[0];
    }
  }

  // ---------------------------------------------------------------- stripToNumeric

  /** `str.search(/\d/)`, with `None` for `-1`. */
  function FirstDigit(s: string): (r: Option<nat>)
    ensures r.None? <==> forall i :: 0 <= i < |s| ==> !IsDigit(s[i])
    ensures r.Some? ==> r.value < |s| && IsDigit(s[r.value]) && forall i :: 0 <= i < r.value ==> !IsDigit(s[i])
  {
    if s == [] then None
    else if IsDigit(s[0]) then Some(0)
    else match FirstDigit(s[1..]) {
      case None => None
      case Some(i) => Some(i + 1)
    }
  }

  /**
   * `stripToNumeric(str)`: the input when it has no digit, otherwise the
   * suffix that starts at its first digit.
   */
  function StripToNumeric(s: string): (r: string)
    ensures |r| <= |s|
    ensures (forall i :: 0 <= i < |s| ==> !IsDigit(s[i])) ==> r == s
    ensures (exists i :: 0 <= i < |s| && IsDigit(s[i])) ==>
      |r| > 0 && IsDigit(r[0]) && r == s[|s| - |r|..] && forall i :: 0 <= i < |s| - |r| ==> !IsDigit(s[i])
  {
    match FirstDigit(s) {
      case None => s
      case Some(k) => s[k..]
    }
  }

  /** The examples in the script's documentation. */
  lemma StripToNumericExamples()
    ensures StripToNumeric("Humans_66") == "66"
    ensures StripToNumeric("7B") == "7B"
    ensures StripToNumeric("NoDigitsHere") == "NoDigitsHere"
  {
    var h := "Humans_66";
    assert IsDigit(h[7]) && forall i :: 0 <= i < 7 ==> !IsDigit(h[i]);
    assert h[7..] == "66";
    var n := "NoDigitsHere";
    assert forall i :: 0 <= i < |n| ==> !IsDigit(n[i]);
  }

  // ---------------------------------------------------------------- csvEscape

  /** `/[",\n]/.test(value)` */
  predicate NeedsQuotes(v: string)
  {
    '"' in v || ',' in v || '\n' in v
  }

  /** What the global `"` replacement does to one character. */
  function QuoteDoubled(c: char): string
  {
    if c == '"' then "\"\"" else [c]
  }

  /** `csvEscape(value)`: every `"` doubled, the whole wrapped in quotes when it holds `"`, `,` or a newline. */
  function CsvEscape(v: string): string
  {
    var escaped := Replace(v, "\"", "\"\"");
    if NeedsQuotes(v) then "\"" + escaped + "\"" else escaped
  }

  /** The reading of a doubled-quote body: `""` stands for one `"`. */
  function Undouble(s: string): string
    decreases |s|
  {
    if s == [] then []
    else if |s| >= 2 && s[0] == '"' && s[1] == '"' then ['"'] + Undouble(s[2..])
    else [s[0]] + Undouble(s[1..])
  }

  /** How a CSV reader recovers a field. */
  function CsvField(r: string): string
  {
    if |r| >= 2 && r[0] == '"' && r[|r| - 1] == '"' then Undouble(r[1..|r| - 1]) else r
  }

  lemma {:induction false} UndoubleDoubled(v: string)
    ensures Undouble(MapConcat(v, QuoteDoubled)) == v
    decreases |v|
  {
    if v != [] {
      MapConcatAppend([v[0]], v[1..], QuoteDoubled);
      assert [v[0]] + v[1..] == v;
      assert MapConcat([v[0]], QuoteDoubled) == MapConcat([], QuoteDoubled) + QuoteDoubled(v[0]);
      UndoubleDoubled(v[1..]);
      var rest := MapConcat(v[1..], QuoteDoubled);
      if v[0] == '"' {
        assert MapConcat(v, QuoteDoubled) == "\"\"" + rest;
        assert ("\"\"" + rest)[2..] == rest;
      } else {
        assert MapConcat(v, QuoteDoubled) == [v[0]] + rest;
        assert ([v[0]] + rest)[1..] == rest;
      }
    }
  }

  /**
   * The escaped field reads back as the value, and it is wrapped in quotes
   * exactly when the value holds `"`, `,` or a newline.
   */
  lemma CsvEscapeRoundTrip(v: string)
    ensures CsvField(CsvEscape(v)) == v
    ensures var r := CsvEscape(v); (|r| >= 2 && r[0] == '"' && r[|r| - 1] == '"') <==> NeedsQuotes(v)
  {
    var escaped := MapConcat(v, QuoteDoubled);
    assert Replace(v, "\"", "\"\"") == escaped by {
      ReplaceCharIsConcat(v, '"', "\"\"", QuoteDoubled);
    }
    if NeedsQuotes(v) {
      var r := "\"" + escaped + "\"";
      assert CsvEscape(v) == r;
      assert r[1..|r| - 1] == escaped;
      UndoubleDoubled(v);
    } else {
      assert escaped == v by {
        assert forall i :: 0 <= i < |v| ==> QuoteDoubled(v[i]) == [v[i]];
        MapConcatIdentity(v, QuoteDoubled);
      }
      assert CsvEscape(v) == v;
      assert |v| > 0 ==> v[0] != '"';
    }
  }

  // ---------------------------------------------------------------- parseAnswer

  /**
   * A raw answer value: `null`/`undefined`, an array (its elements already
   * converted with `String`), or any other value as its `String` form.
   */
  datatype Raw = Missing | List(items: seq<string>) | Scalar(text: string)

  /** `/^\[.*\]$/.test(s) ? s.slice(1, -1) : s` */
  function Unwrapped(s: string): (r: string)
    ensures exists a, b :: 0 <= a <= b <= |s| && r == s[a..b]
  {
    if |s| >= 2 && s[0] == '[' && s[|s| - 1] == ']' && forall i :: 1 <= i < |s| - 1 ==> !IsLineTerminator(s[i]) then
      assert s[1..|s| - 1] == s[1..|s| - 1];
      s[1..|s| - 1]
    else
      assert s == s[0..|s|];
      s
  }

  predicate IsSeparator(c: char)
  {
    c == ',' || c == ';' || c == '-'
  }

  /** The length of the whitespace run at `q`. */
  function SpaceRun(s: string, q: nat): (n: nat)
    requires q <= |s|
    ensures q + n <= |s|
    ensures forall i :: q <= i < q + n ==> IsJsSpace(s[i])
    ensures q + n == |s| || !IsJsSpace(s[q + n])
    decreases |s| - q
  {
    if q < |s| && IsJsSpace(s[q]) then 1 + SpaceRun(s, q + 1) else 0
  }

  /** Where a match of the split pattern `\s*[,;-]\s*` that starts at `q` ends, if one does. */
  function SeparatorEnd(s: string, q: nat): (r: Option<nat>)
    requires q <= |s|
    ensures r.Some? ==> q < r.value <= |s|
    ensures q < |s| && IsSeparator(s[q]) ==> r.Some?
  {
    var w := SpaceRun(s, q);
    if q + w < |s| && IsSeparator(s[q + w]) then Some(q + w + 1 + SpaceRun(s, q + w + 1)) else None
  }

  /** The splitting loop of `String.prototype.split` with that pattern, from piece start `p` and scan position `q`. */
  function SplitFrom(s: string, p: nat, q: nat): (r: seq<string>)
    requires p <= q <= |s|
    decreases |s| - q
  {
    if q == |s| then [s[p..]]
    else match SeparatorEnd(s, q) {
      case None => SplitFrom(s, p, q + 1)
      case Some(e) => [s[p..q]] + SplitFrom(s, e, e)
    }
  }

  /** `s.split` on the pattern `\s*[,;-]\s*`. */
  function SplitAnswer(s: string): seq<string>
  {
    SplitFrom(s, 0, 0)
  }

  predicate IsQuote(c: char)
  {
    c == '\'' || c == '"'
  }

  /** `x.replace(/^['"]|['"]$/g, '')`: one leading and one trailing quote removed. */
  function Unquote(x: string): (r: string)
    ensures exists a, b :: 0 <= a <= b <= |x| && r == x[a..b]
  {
    var a := if |x| > 0 && IsQuote(x[0]) then 1 else 0;
    var b := if |x| > a && IsQuote(x[|x| - 1]) then |x| - 1 else |x|;
    x[a..b]
  }

  /** The `map(x => x.replace(...).trim())` stage. */
  function CleanEach(pieces: seq<string>): (r: seq<string>)
    ensures |r| == |pieces|
    ensures forall k :: 0 <= k < |r| ==> r[k] == Trim(Unquote(pieces[k]))
  {
    if pieces == [] then [] else [Trim(Unquote(pieces[0]))] + CleanEach(pieces[1..])
  }

  /** The `filter(x => x !== '')` stage. */
  function NonEmptyOnly(ys: seq<string>): seq<string>
  {
    if ys == [] then []
    else if ys[0] == "" then NonEmptyOnly(ys[1..])
    else [ys[0]] + NonEmptyOnly(ys[1..])
  }

  /** The clean-up of the split pieces. */
  function Cleaned(pieces: seq<string>): seq<string>
  {
    NonEmptyOnly(CleanEach(pieces))
  }

  /** `parseAnswer(raw)` */
  function ParseAnswer(raw: Raw): seq<string>
  {
    match raw
    case List(items) => items
    case Missing => []
    case Scalar(t) => Cleaned(SplitAnswer(Unwrapped(Trim(t))))
  }

  predicate NoSeparator(s: string)
  {
    forall i :: 0 <= i < |s| ==> !IsSeparator(s[i])
  }

  lemma {:induction false} SplitFromFree(s: string, p: nat, q: nat)
    requires p <= q <= |s| && NoSeparator(s[p..q])
    ensures forall k :: 0 <= k < |SplitFrom(s, p, q)| ==> NoSeparator(SplitFrom(s, p, q)[k])
    decreases |s| - q
  {
    if q < |s| {
      match SeparatorEnd(s, q) {
        case None =>
          assert !IsSeparator(s[q]);
          var t := s[p..q + 1];
          forall i | 0 <= i < |t| ensures !IsSeparator(t[i]) {
            if i < q - p {
              assert t[i] == s[p..q][i];
            } else {
              assert t[i] == s[q];
            }
          }
          SplitFromFree(s, p, q + 1);
        case Some(e) =>
          SplitFromFree(s, e, e);
          var r := SplitFrom(s, p, q);
          assert r == [s[p..q]] + SplitFrom(s, e, e);
          forall k | 0 <= k < |r| ensures NoSeparator(r[k]) {
            if k > 0 {
              assert r[k] == SplitFrom(s, e, e)[k - 1];
            }
          }
      }
    } else {
      assert s[p..] == s[p..q];
      assert SplitFrom(s, p, q) == [s[p..]];
    }
  }

  lemma NoSeparatorSlice(s: string, a: nat, b: nat)
    requires a <= b <= |s| && NoSeparator(s)
    ensures NoSeparator(s[a..b])
  {
    assert forall i :: 0 <= i < b - a ==> s[a..b][i] == s[a + i];
  }

  /** An answer element as the script produces it from text. */
  predicate IsCleanAnswer(y: string)
  {
    y != [] && NoSeparator(y) && !IsJsSpace(y[0]) && !IsJsSpace(y[|y| - 1])
  }

  lemma CleanPiece(x: string)
    requires NoSeparator(x)
    ensures Trim(Unquote(x)) != [] ==> IsCleanAnswer(Trim(Unquote(x)))
  {
    var u := Unquote(x);
    var a, b :| 0 <= a <= b <= |x| && u == x[a..b];
    NoSeparatorSlice(x, a, b);
    TrimSpec(u);
    var c, d :| 0 <= c <= d <= |u| && Trim(u) == u[c..d];
    NoSeparatorSlice(u, c, d);
  }

  /** Every kept entry is a non-empty entry of the input. */
  lemma {:induction false} NonEmptyOnlyFrom(ys: seq<string>, k: nat)
    requires k < |NonEmptyOnly(ys)|
    ensures exists j :: 0 <= j < |ys| && NonEmptyOnly(ys)[k] == ys[j] && ys[j] != ""
    decreases |ys|
  {
    var tail := ys[1..];
    if ys[0] == "" {
      NonEmptyOnlyFrom(tail, k);
      var j :| 0 <= j < |tail| && NonEmptyOnly(tail)[k] == tail[j] && tail[j] != "";
      assert ys[j + 1] == tail[j];
    } else if k > 0 {
      assert NonEmptyOnly(ys)[k] == NonEmptyOnly(tail)[k - 1];
      NonEmptyOnlyFrom(tail, k - 1);
      var j :| 0 <= j < |tail| && NonEmptyOnly(tail)[k - 1] == tail[j] && tail[j] != "";
      assert ys[j + 1] == tail[j];
    } else {
      assert NonEmptyOnly(ys)[0] == ys[0];
    }
  }

  lemma CleanedSpec(pieces: seq<string>)
    requires forall k :: 0 <= k < |pieces| ==> NoSeparator(pieces[k])
    ensures forall k :: 0 <= k < |Cleaned(pieces)| ==> IsCleanAnswer(Cleaned(pieces)[k])
  {
    var ys := CleanEach(pieces);
    forall k | 0 <= k < |Cleaned(pieces)| ensures IsCleanAnswer(Cleaned(pieces)[k]) {
      NonEmptyOnlyFrom(ys, k);
      var j :| 0 <= j < |ys| && NonEmptyOnly(ys)[k] == ys[j] && ys[j] != "";
      CleanPiece(pieces[j]);
    }
  }

  /**
   * Every answer parsed from text is non-empty, has no surrounding
   * whitespace and holds none of the separators `,`, `;` and `-`.
   */
  lemma ParseAnswerClean(t: string)
    ensures forall k :: 0 <= k < |ParseAnswer(Scalar(t))| ==> IsCleanAnswer(ParseAnswer(Scalar(t))[k])
  {
    var s := Unwrapped(Trim(t));
    assert NoSeparator(s[0..0]);
    SplitFromFree(s, 0, 0);
    CleanedSpec(SplitAnswer(s));
  }

  /** A single token that needs no clean-up. */
  predicate IsPlainToken(t: string)
  {
    IsCleanAnswer(t) && t[0] != '[' && !IsQuote(t[0]) && !IsQuote(t[|t| - 1])
  }

  lemma {:induction false} SplitScan(s: string, p: nat, q: nat, m: nat)
    requires p <= q <= m <= |s|
    requires forall i :: q <= i < m ==> SeparatorEnd(s, i).None?
    ensures SplitFrom(s, p, q) == SplitFrom(s, p, m)
    decreases m - q
  {
    if q < m {
      SplitScan(s, p, q + 1, m);
    }
  }

  /** Inside a plain token no match of the split pattern starts. */
  lemma NoMatchInToken(s: string, t: string, i: nat)
    requires IsPlainToken(t) && |t| <= |s| && s[..|t|] == t && i < |t|
    ensures SeparatorEnd(s, i).None?
  {
    var w := SpaceRun(s, i);
    assert s[i + w] == t[i + w];
  }

  lemma {:induction false} TokenTail(s: string, p: nat, q: nat)
    requires p <= q <= |s| && NoSeparator(s[q..]) && (q < |s| ==> !IsJsSpace(s[|s| - 1]))
    ensures SplitFrom(s, p, q) == [s[p..]]
    decreases |s| - q
  {
    if q < |s| {
      var w := SpaceRun(s, q);
      if q + w < |s| {
        assert s[q + w] == s[q..][w];
      }
      assert SeparatorEnd(s, q).None?;
      var u := s[q + 1..];
      forall i | 0 <= i < |u| ensures !IsSeparator(u[i]) {
        assert u[i] == s[q..][i + 1];
      }
      TokenTail(s, p, q + 1);
    } else {
      assert s[p..] == s[p..q];
    }
  }

  lemma PlainTokenCleans(t: string)
    requires IsPlainToken(t)
    ensures Trim(t) == t && Unquote(t) == t && Unwrapped(t) == t
  {
  }

  /** A plain token parses to itself. */
  lemma ParseSingleToken(t: string)
    requires IsPlainToken(t)
    ensures ParseAnswer(Scalar(t)) == [t]
  {
    PlainTokenCleans(t);
    assert t[0..] == t;
    TokenTail(t, 0, 0);
    assert Cleaned([t]) == [t] + Cleaned([]);
  }

  lemma TwoTokensSplit(a: string, b: string)
    requires IsPlainToken(a) && IsPlainToken(b)
    ensures SplitAnswer(a + "," + b) == [a, b]
  {
    var s := a + "," + b;
    assert s[..|a|] == a;
    forall i | 0 <= i < |a| ensures SeparatorEnd(s, i).None? {
      NoMatchInToken(s, a, i);
    }
    SplitScan(s, 0, 0, |a|);
    var e := |a| + 1;
    assert s[e] == b[0];
    assert SeparatorEnd(s, |a|) == Some(e);
    assert s[e..] == b;
    assert s[|s| - 1] == b[|b| - 1];
    TokenTail(s, e, e);
  }

  lemma TwoTokensUnwrap(a: string, b: string)
    requires IsPlainToken(a) && IsPlainToken(b)
    ensures Unwrapped(Trim(a + "," + b)) == a + "," + b
  {
    var s := a + "," + b;
    assert s[0] == a[0] && s[|s| - 1] == b[|b| - 1];
    assert TrimStart(s) == s;
    assert TrimEnd(s) == s;
  }

  /** Two plain tokens separated by a comma parse to the two tokens. */
  lemma ParseTwoTokens(a: string, b: string)
    requires IsPlainToken(a) && IsPlainToken(b)
    ensures ParseAnswer(Scalar(a + "," + b)) == [a, b]
  {
    TwoTokensUnwrap(a, b);
    TwoTokensSplit(a, b);
    PlainTokenCleans(a);
    PlainTokenCleans(b);
    assert [a, b][1..] == [b];
    assert Cleaned([b]) == [b] + Cleaned([]);
  }

  // ---------------------------------------------------------------- the experiment data

  /** One entry of an experiment's `responses`: an object, `null`, or another value. */
  datatype Response = Object(fields: map<string, Raw>) | Null | Primitive

  /** An entry of `document.quizzinator.data`; a missing `responses` reads as `[]`. */
  datatype Experiment = Experiment(responses: Option<seq<Response>>)

  type Data = map<string, Experiment>

  /** `document.quizzinator.data[e].responses || []` */
  function ResponsesOf(data: Data, e: string): seq<Response>
    requires e in data
  {
    match data[e].responses {
      case None => []
      case Some(rs) => rs
    }
  }

  // ---------------------------------------------------------------- getCommonQuestionsBasedOnExperiments

  /** Keys kept by `getQuestionKeysFor`: not starting with `_` and not `number`. */
  predicate IsQuestionKey(k: string)
  {
    !(|k| > 0 && k[0] == '_') && k != "number"
  }

  /** `getQuestionKeysFor(e)`: the question keys of every object response. */
  function QuestionKeys(rs: seq<Response>): (r: set<string>)
    ensures forall k :: k in r ==> IsQuestionKey(k)
  {
    set i, k | 0 <= i < |rs| && rs[i].Object? && k in rs[i].fields && IsQuestionKey(k) :: k
  }

  /** `getQuestionKeysFor(e)` on the data. */
  function KeysOf(data: Data, e: string): set<string>
    requires e in data
  {
    QuestionKeys(ResponsesOf(data, e))
  }

  /** The inner loop: every key of `common` that `expKeys` lacks is deleted. */
  method DeleteMissing(common: set<string>, expKeys: set<string>) returns (r: set<string>)
    ensures r == common * expKeys
  {
    r := common;
    var pending := common;
    while pending != {}
      invariant pending <= common
      invariant r == (common - pending) * expKeys + pending
      decreases |pending|
    {
      var key :| key in pending;
      if key !in expKeys {
        r := r - {key};
      }
      pending := pending - {key};
    }
  }

  /**
   * `getCommonQuestionsBasedOnExperiments(selected)`: the question keys
   * that every selected experiment has, as the set the script builds.
   */
  method CommonQuestions(data: Data, selected: seq<string>) returns (common: set<string>)
    requires forall e :: e in selected ==> e in data
    ensures selected == [] ==> common == {}
    ensures forall k :: k in common ==> IsQuestionKey(k)
    ensures forall e, k :: e in selected && k in common ==> k in KeysOf(data, e)
    ensures selected != [] ==> forall k :: (forall e :: e in selected ==> k in KeysOf(data, e)) ==> k in common
  {
    if |selected| == 0 {
      return {};
    }
    common := KeysOf(data, selected[0]);
    for i := 1 to |selected|
      invariant forall k :: k in common <==> forall j :: 0 <= j < i ==> k in KeysOf(data, selected[j])
    {
      var expKeys := KeysOf(data, selected[i]);
      common := DeleteMissing(common, expKeys);
    }
    forall e, k | e in selected && k in common ensures k in KeysOf(data, e) {
      var j :| 0 <= j < |selected| && selected[j] == e;
    }
    forall k | k in common ensures IsQuestionKey(k) {
      assert k in KeysOf(data, selected[0]);
    }
  }

  // ---------------------------------------------------------------- the tallies

  /** `resp[q]`: a missing field, or a field of anything but an object, reads as `undefined`. */
  function FieldOf(r: Response, q: string): Raw
  {
    match r
    case Object(f) => if q in f then f[q] else Missing
    case _ => Missing
  }

  /** A count object `{value: count}` of the script is the multiset of the counted values. */
  type Matrix<T> = map<string, map<string, multiset<T>>>

  /** Every parsed answer of every response to `q`. */
  function AnswerBag(rs: seq<Response>, q: string): multiset<string>
  {
    if rs == [] then multiset{}
    else AnswerBag(rs[..|rs| - 1], q) + multiset(ParseAnswer(FieldOf(rs[|rs| - 1], q)))
  }

  /** The number of parsed answers of every response to `q`. */
  function LengthBag(rs: seq<Response>, q: string): multiset<nat>
  {
    if rs == [] then multiset{}
    else LengthBag(rs[..|rs| - 1], q) + multiset{|ParseAnswer(FieldOf(rs[|rs| - 1], q))|}
  }

  function RowOf<T>(m: Matrix<T>, q: string): map<string, multiset<T>>
  {
    if q in m then m[q] else map[]
  }

  function CellOf<T>(m: Matrix<T>, q: string, e: string): multiset<T>
  {
    if e in RowOf(m, q) then RowOf(m, q)[e] else multiset{}
  }

  /** `matrix[q] = matrix[q] || {}; matrix[q][e] = matrix[q][e] || {}`, then the counts of `add`. */
  function Bump<T>(m: Matrix<T>, q: string, e: string, add: multiset<T>): Matrix<T>
  {
    m[q := RowOf(m, q)[e := CellOf(m, q, e) + add]]
  }

  /** The `questions.forEach` loop for experiment `e`. */
  function TallyQuestions<T>(m: Matrix<T>, data: Data, e: string, qs: seq<string>, bag: (seq<Response>, string) -> multiset<T>): Matrix<T>
    requires e in data
  {
    if qs == [] then m
    else
      var q := qs[|qs| - 1];
      Bump(TallyQuestions(m, data, e, qs[..|qs| - 1], bag), q, e, bag(ResponsesOf(data, e), q))
  }

  /** The `experiments.forEach` loop. */
  function TallyAll<T>(data: Data, exps: seq<string>, qs: seq<string>, bag: (seq<Response>, string) -> multiset<T>): Matrix<T>
    requires forall e :: e in exps ==> e in data
  {
    if exps == [] then map[]
    else TallyQuestions(TallyAll(data, exps[..|exps| - 1], qs, bag), data, exps[|exps| - 1], qs, bag)
  }

  predicate Distinct(s: seq<string>)
  {
    forall i, j :: 0 <= i < j < |s| ==> s[i] != s[j]
  }

  /** The last entry of a list without repeats is not among the others; every other entry is. */
  lemma DistinctLast(s: seq<string>, x: string)
    requires s != [] && Distinct(s)
    ensures Distinct(s[..|s| - 1]) && s[|s| - 1] !in s[..|s| - 1]
    ensures x in s <==> x == s[|s| - 1] || x in s[..|s| - 1]
  {
    if x in s {
      var i :| 0 <= i < |s| && s[i] == x;
      if i < |s| - 1 {
        assert s[..|s| - 1][i] == x;
      }
    }
  }

  /** The tally of one experiment, at one question. */
  lemma {:induction false} TallyQuestionsAt<T>(m: Matrix<T>, data: Data, e: string, qs: seq<string>, bag: (seq<Response>, string) -> multiset<T>, q: string)
    requires e in data && Distinct(qs)
    ensures q in TallyQuestions(m, data, e, qs, bag) <==> q in m || q in qs
    ensures q in qs ==>
      TallyQuestions(m, data, e, qs, bag)[q] == RowOf(m, q)[e := CellOf(m, q, e) + bag(ResponsesOf(data, e), q)]
    ensures q in m && q !in qs ==> TallyQuestions(m, data, e, qs, bag)[q] == m[q]
    decreases |qs|
  {
    if qs != [] {
      var init := qs[..|qs| - 1];
      DistinctLast(qs, q);
      TallyQuestionsAt(m, data, e, init, bag, q);
      var prev := TallyQuestions(m, data, e, init, bag);
      if q == qs[|qs| - 1] {
        assert RowOf(prev, q) == RowOf(m, q);
      }
    }
  }

  lemma TallyQuestionsSpec<T>(m: Matrix<T>, data: Data, e: string, qs: seq<string>, bag: (seq<Response>, string) -> multiset<T>)
    requires e in data && Distinct(qs)
    ensures forall q :: q in TallyQuestions(m, data, e, qs, bag) <==> q in m || q in qs
    ensures forall q :: q in qs ==>
      TallyQuestions(m, data, e, qs, bag)[q] == RowOf(m, q)[e := CellOf(m, q, e) + bag(ResponsesOf(data, e), q)]
    ensures forall q :: q in m && q !in qs ==> TallyQuestions(m, data, e, qs, bag)[q] == m[q]
  {
    forall q {
      TallyQuestionsAt(m, data, e, qs, bag, q);
    }
  }

  /** One more question of the loop bumps its cell by what `bag` gives. */
  lemma TallyQuestionsStep<T>(m: Matrix<T>, data: Data, e: string, qs: seq<string>, j: nat, bag: (seq<Response>, string) -> multiset<T>)
    requires e in data && j < |qs|
    ensures TallyQuestions(m, data, e, qs[..j + 1], bag) ==
      Bump(TallyQuestions(m, data, e, qs[..j], bag), qs[j], e, bag(ResponsesOf(data, e), qs[j]))
  {
    assert qs[..j + 1][..j] == qs[..j];
  }

  /** Every row's keys are the experiments seen so far. */
  predicate RowsOver<T>(m: Matrix<T>, exps: seq<string>)
  {
    forall q :: q in m ==> m[q].Keys == set e | e in exps
  }

  /**
   * For lists without repeats, `matrix[q][e]` holds exactly what `bag`
   * gives for the responses of `e`, for every listed question and
   * experiment, and nothing else.
   */
  lemma {:induction false} TallyAllSpec<T>(data: Data, exps: seq<string>, qs: seq<string>, bag: (seq<Response>, string) -> multiset<T>)
    requires forall e :: e in exps ==> e in data
    requires Distinct(exps) && Distinct(qs)
    ensures exps == [] ==> TallyAll(data, exps, qs, bag) == map[]
    ensures exps != [] ==> forall q :: q in TallyAll(data, exps, qs, bag) <==> q in qs
    ensures RowsOver(TallyAll(data, exps, qs, bag), exps)
    ensures forall q, e :: q in qs && e in exps ==>
      q in TallyAll(data, exps, qs, bag) && e in TallyAll(data, exps, qs, bag)[q] &&
      TallyAll(data, exps, qs, bag)[q][e] == bag(ResponsesOf(data, e), q)
  {
    if exps != [] {
      var init := exps[..|exps| - 1];
      var e := exps[|exps| - 1];
      assert Distinct(init);
      TallyAllSpec(data, init, qs, bag);
      var prev := TallyAll(data, init, qs, bag);
      TallyQuestionsSpec(prev, data, e, qs, bag);
      assert e !in init;
      forall x | x in exps ensures x == e || x in init {
        var i :| 0 <= i < |exps| && exps[i] == x;
        if i < |exps| - 1 {
          assert init[i] == x;
        }
      }
      forall q | q in qs ensures CellOf(prev, q, e) == multiset{} {
        if q in prev {
          assert e !in prev[q];
        }
      }
    }
  }

  /** The responses, with their answers, as the tally loops read them: no `null` response when a question is asked. */
  predicate Readable(data: Data, exps: seq<string>, qs: seq<string>)
  {
    forall e :: e in exps ==>
      e in data && (qs != [] ==> forall i :: 0 <= i < |ResponsesOf(data, e)| ==> !ResponsesOf(data, e)[i].Null?)
  }

  /** The `answers.forEach` loop: one count more for every answer. */
  method AddAnswers(cell: multiset<string>, answers: seq<string>) returns (c: multiset<string>)
    ensures c == cell + multiset(answers)
  {
    c := cell;
    for a := 0 to |answers|
      invariant c == cell + multiset(answers[..a])
    {
      assert answers[..a + 1] == answers[..a] + [answers[a]];
      c := c + multiset{answers[a]};
    }
    assert answers[..|answers|] == answers;
  }

  lemma AnswerBagStep(rs: seq<Response>, k: nat, q: string)
    requires k < |rs|
    ensures AnswerBag(rs[..k + 1], q) == AnswerBag(rs[..k], q) + multiset(ParseAnswer(FieldOf(rs[k], q)))
  {
    assert rs[..k + 1][..k] == rs[..k];
  }

  /** The `responses.forEach` loop of `tallyByQuestionAndExperiment`. */
  method CountAnswers(cell: multiset<string>, rs: seq<Response>, q: string) returns (c: multiset<string>)
    ensures c == cell + AnswerBag(rs, q)
  {
    c := cell;
    for k := 0 to |rs|
      invariant c == cell + AnswerBag(rs[..k], q)
    {
      AnswerBagStep(rs, k, q);
      c := AddAnswers(c, ParseAnswer(FieldOf(rs[k], q)));
    }
    assert rs[..|rs|] == rs;
  }

  /** The `questions.forEach` loop of `tallyByQuestionAndExperiment` for one experiment. */
  method TallyExperiment(m: Matrix<string>, data: Data, e: string, questions: seq<string>) returns (matrix: Matrix<string>)
    requires e in data
    ensures matrix == TallyQuestions(m, data, e, questions, AnswerBag)
  {
    matrix := m;
    var rs := ResponsesOf(data, e);
    for j := 0 to |questions|
      invariant matrix == TallyQuestions(m, data, e, questions[..j], AnswerBag)
    {
      var q := questions[j];
      TallyQuestionsStep(m, data, e, questions, j, AnswerBag);
      var cell := CountAnswers(CellOf(matrix, q, e), rs, q);
      matrix := matrix[q := RowOf(matrix, q)[e := cell]];
    }
    assert questions[..|questions|] == questions;
  }

  /** `tallyByQuestionAndExperiment(questions, experiments)` */
  method TallyByQuestionAndExperiment(data: Data, questions: seq<string>, experiments: seq<string>) returns (matrix: Matrix<string>)
    requires Readable(data, experiments, questions)
    ensures matrix == TallyAll(data, experiments, questions, AnswerBag)
  {
    matrix := map[];
    for i := 0 to |experiments|
      invariant matrix == TallyAll(data, experiments[..i], questions, AnswerBag)
    {
      matrix := TallyExperiment(matrix, data, experiments[i], questions);
      assert experiments[..i + 1][..i] == experiments[..i];
    }
    assert experiments[..|experiments|] == experiments;
  }

  /** The `responses.forEach` loop of `tallyMultiplicity`. */
  method CountLengths(cell: multiset<nat>, rs: seq<Response>, q: string) returns (c: multiset<nat>)
    ensures c == cell + LengthBag(rs, q)
  {
    c := cell;
    for k := 0 to |rs|
      invariant c == cell + LengthBag(rs[..k], q)
    {
      var n := |ParseAnswer(FieldOf(rs[k], q))|;
      c := c + multiset{n};
      assert rs[..k + 1][..k] == rs[..k];
    }
    assert rs[..|rs|] == rs;
  }

  /** The `questions.forEach` loop of `tallyMultiplicity` for one experiment. */
  method TallyExperimentLengths(m: Matrix<nat>, data: Data, e: string, questions: seq<string>) returns (matrix: Matrix<nat>)
    requires e in data
    ensures matrix == TallyQuestions(m, data, e, questions, LengthBag)
  {
    matrix := m;
    var rs := ResponsesOf(data, e);
    for j := 0 to |questions|
      invariant matrix == TallyQuestions(m, data, e, questions[..j], LengthBag)
    {
      var q := questions[j];
      TallyQuestionsStep(m, data, e, questions, j, LengthBag);
      var cell := CountLengths(CellOf(matrix, q, e), rs, q);
      matrix := matrix[q := RowOf(matrix, q)[e := cell]];
    }
    assert questions[..|questions|] == questions;
  }

  /** `tallyMultiplicity(questions, experiments)` */
  method TallyMultiplicity(data: Data, questions: seq<string>, experiments: seq<string>) returns (matrix: Matrix<nat>)
    requires Readable(data, experiments, questions)
    ensures matrix == TallyAll(data, experiments, questions, LengthBag)
  {
    matrix := map[];
    for i := 0 to |experiments|
      invariant matrix == TallyAll(data, experiments[..i], questions, LengthBag)
    {
      matrix := TallyExperimentLengths(matrix, data, experiments[i], questions);
      assert experiments[..i + 1][..i] == experiments[..i];
    }
    assert experiments[..|experiments|] == experiments;
  }

  /** A value is tallied exactly when some response's parsed answer holds it. */
  lemma {:induction false} AnswerBagSpec(rs: seq<Response>, q: string, v: string)
    ensures v in AnswerBag(rs, q) <==> exists i :: 0 <= i < |rs| && v in ParseAnswer(FieldOf(rs[i], q))
  {
    if rs != [] {
      var init := rs[..|rs| - 1];
      AnswerBagSpec(init, q, v);
      if v in AnswerBag(init, q) {
        var i :| 0 <= i < |init| && v in ParseAnswer(FieldOf(init[i], q));
        assert rs[i] == init[i];
      }
      if exists i :: 0 <= i < |rs| && v in ParseAnswer(FieldOf(rs[i], q)) {
        var i :| 0 <= i < |rs| && v in ParseAnswer(FieldOf(rs[i], q));
        if i < |rs| - 1 {
          assert init[i] == rs[i];
        }
      }
    }
  }

  /** The multiplicity buckets of a question count every response once. */
  lemma {:induction false} LengthBagSize(rs: seq<Response>, q: string)
    ensures |LengthBag(rs, q)| == |rs|
  {
    if rs != [] {
      LengthBagSize(rs[..|rs| - 1], q);
    }
  }

  /** For lists without repeats, the buckets of each question and experiment sum to the number of that experiment's responses. */
  lemma MultiplicitySums(data: Data, questions: seq<string>, experiments: seq<string>, q: string, e: string)
    requires Readable(data, experiments, questions) && Distinct(experiments) && Distinct(questions)
    requires q in questions && e in experiments
    ensures q in TallyAll(data, experiments, questions, LengthBag) && e in TallyAll(data, experiments, questions, LengthBag)[q]
    ensures |TallyAll(data, experiments, questions, LengthBag)[q][e]| == |ResponsesOf(data, e)|
  {
    TallyAllSpec(data, experiments, questions, LengthBag);
    LengthBagSize(ResponsesOf(data, e), q);
  }

  // ---------------------------------------------------------------- experiment order

  function AsciiLower(c: char): char
  {
    if 'A' <= c <= 'Z' then (c as int + 32) as char else c
  }

  /**
   * `k.toLowerCase().startsWith('humans')`. No character outside ASCII
   * lower-cases to one of these six letters, so ASCII folding decides it.
   */
  predicate IsHumanKey(k: string)
  {
    |k| >= 6 && forall i :: 0 <= i < 6 ==> AsciiLower(k[i]) == "humans"[i]
  }

  predicate AllDigits(s: string)
  {
    |s| > 0 && forall i :: 0 <= i < |s| ==> IsDigit(s[i])
  }

  /** A whole match of `\d+(?:\.\d+)?`. */
  predicate IsDecimal(s: string)
  {
    AllDigits(s) || exists p :: 0 < p < |s| - 1 && s[p] == '.' && AllDigits(s[..p]) && AllDigits(s[p + 1..])
  }

  /** `typeNumPattern.test(k)` for `^([^_]+)_(\d+(?:\.\d+)?)B$` with the `i` flag. */
  predicate IsTypeNumKey(k: string)
  {
    exists u :: 0 < u < |k| - 2 && k[u] == '_' && '_' !in k[..u] &&
      (k[|k| - 1] == 'b' || k[|k| - 1] == 'B') && IsDecimal(k[u + 1..|k| - 1])
  }

  /** `leadingFloat.test(k)` for `^(\d+(?:\.\d+)?)[bB]`. */
  predicate LeadsWithFloat(k: string)
  {
    exists p :: 0 < p < |k| && (k[p] == 'b' || k[p] == 'B') && IsDecimal(k[..p])
  }

  /** `s.filter(k => p(k) == keep)` */
  function Filter(s: seq<string>, p: string -> bool, keep: bool): (r: seq<string>)
  {
    if s == [] then []
    else (if p(s[0]) == keep then [s[0]] else []) + Filter(s[1..], p, keep)
  }

  lemma {:induction false} FilterMember(s: seq<string>, p: string -> bool, keep: bool, x: string)
    ensures x in Filter(s, p, keep) <==> x in s && p(x) == keep
  {
    if s != [] {
      FilterMember(s[1..], p, keep, x);
    }
  }

  /** A filter and its complement together hold every element once. */
  lemma {:induction false} FilterSplits(s: seq<string>, p: string -> bool)
    ensures multiset(Filter(s, p, true)) + multiset(Filter(s, p, false)) == multiset(s)
  {
    if s != [] {
      FilterSplits(s[1..], p);
      assert s == [s[0]] + s[1..];
    }
  }

  /**
   * The four `Array.prototype.sort` calls. Their comparators use
   * `localeCompare` and `parseFloat`, which are left abstract; each sort
   * returns a permutation of its argument.
   */
  datatype Sorters = Sorters(
    typeNum: seq<string> -> seq<string>,
    numericOnly: seq<string> -> seq<string>,
    other: seq<string> -> seq<string>,
    humans: seq<string> -> seq<string>)

  ghost predicate Permuting(f: seq<string> -> seq<string>)
  {
    forall s :: multiset(f(s)) == multiset(s)
  }

  ghost predicate SortsPermute(sorts: Sorters)
  {
    Permuting(sorts.typeNum) && Permuting(sorts.numericOnly) && Permuting(sorts.other) && Permuting(sorts.humans)
  }

  /** `sortedExperimentKeys`, and `hrAfter`, the key after which the rule is drawn. */
  datatype KeyOrder = KeyOrder(keys: seq<string>, hrAfter: Option<string>)

  /** The group a key lands in: "<Type>_<Num>B" keys, keys led by a number, the rest, and the humans last. */
  function Group(k: string): nat
  {
    if IsHumanKey(k) then 3
    else if IsTypeNumKey(k) then 0
    else if LeadsWithFloat(k) then 1
    else 2
  }

  function NumericGroups(allKeys: seq<string>, sorts: Sorters): seq<string>
  {
    var numericKeys := Filter(allKeys, IsHumanKey, false);
    var others := Filter(numericKeys, IsTypeNumKey, false);
    sorts.typeNum(Filter(numericKeys, IsTypeNumKey, true))
      + sorts.numericOnly(Filter(others, LeadsWithFloat, true))
      + sorts.other(Filter(others, LeadsWithFloat, false))
  }

  /** `main`: the ordering of the experiment keys. */
  function OrderExperimentKeys(allKeys: seq<string>, sorts: Sorters): KeyOrder
  {
    var numeric := NumericGroups(allKeys, sorts);
    KeyOrder(numeric + sorts.humans(Filter(allKeys, IsHumanKey, true)),
             if |numeric| > 0 then Some(numeric[|numeric| - 1]) else None)
  }

  lemma NumericGroupsPermute(allKeys: seq<string>, sorts: Sorters)
    requires SortsPermute(sorts)
    ensures multiset(NumericGroups(allKeys, sorts)) == multiset(Filter(allKeys, IsHumanKey, false))
  {
    var numericKeys := Filter(allKeys, IsHumanKey, false);
    var others := Filter(numericKeys, IsTypeNumKey, false);
    FilterSplits(numericKeys, IsTypeNumKey);
    FilterSplits(others, LeadsWithFloat);
  }

  /** Every experiment key appears in the order exactly as often as in the data. */
  lemma ExperimentOrderPermutes(allKeys: seq<string>, sorts: Sorters)
    requires SortsPermute(sorts)
    ensures multiset(OrderExperimentKeys(allKeys, sorts).keys) == multiset(allKeys)
  {
    NumericGroupsPermute(allKeys, sorts);
    FilterSplits(allKeys, IsHumanKey);
  }

  /** A sorted group holds only keys of that group. */
  lemma SortedGroup(f: seq<string> -> seq<string>, s: seq<string>, g: nat, x: string)
    requires Permuting(f) && forall y :: y in s ==> Group(y) == g
    requires x in f(s)
    ensures Group(x) == g
  {
    assert x in multiset(f(s));
  }

  lemma GroupsOfNumeric(allKeys: seq<string>, sorts: Sorters, i: nat)
    requires SortsPermute(sorts)
    requires i < |NumericGroups(allKeys, sorts)|
    ensures var numericKeys := Filter(allKeys, IsHumanKey, false);
      var others := Filter(numericKeys, IsTypeNumKey, false);
      var a := |sorts.typeNum(Filter(numericKeys, IsTypeNumKey, true))|;
      var b := a + |sorts.numericOnly(Filter(others, LeadsWithFloat, true))|;
      Group(NumericGroups(allKeys, sorts)[i]) == if i < a then 0 else if i < b then 1 else 2
  {
    var numericKeys := Filter(allKeys, IsHumanKey, false);
    var others := Filter(numericKeys, IsTypeNumKey, false);
    var s0 := Filter(numericKeys, IsTypeNumKey, true);
    var s1 := Filter(others, LeadsWithFloat, true);
    var s2 := Filter(others, LeadsWithFloat, false);
    var t0, t1, t2 := sorts.typeNum(s0), sorts.numericOnly(s1), sorts.other(s2);
    var x := NumericGroups(allKeys, sorts)[i];
    forall y | y in numericKeys ensures !IsHumanKey(y) {
      FilterMember(allKeys, IsHumanKey, false, y);
    }
    forall y | y in others ensures !IsHumanKey(y) && !IsTypeNumKey(y) {
      FilterMember(numericKeys, IsTypeNumKey, false, y);
    }
    if i < |t0| {
      assert x == t0[i];
      forall y | y in s0 ensures Group(y) == 0 {
        FilterMember(numericKeys, IsTypeNumKey, true, y);
      }
      SortedGroup(sorts.typeNum, s0, 0, x);
    } else if i < |t0| + |t1| {
      assert x == t1[i - |t0|];
      forall y | y in s1 ensures Group(y) == 1 {
        FilterMember(others, LeadsWithFloat, true, y);
      }
      SortedGroup(sorts.numericOnly, s1, 1, x);
    } else {
      assert x == t2[i - |t0| - |t1|];
      forall y | y in s2 ensures Group(y) == 2 {
        FilterMember(others, LeadsWithFloat, false, y);
      }
      SortedGroup(sorts.other, s2, 2, x);
    }
  }

  /** The key at each position of the order, by group: the numeric part, then the humans. */
  lemma GroupAt(allKeys: seq<string>, sorts: Sorters, i: nat)
    requires SortsPermute(sorts)
    requires i < |OrderExperimentKeys(allKeys, sorts).keys|
    ensures (i < |NumericGroups(allKeys, sorts)|) <==> (Group(OrderExperimentKeys(allKeys, sorts).keys[i]) < 3)
  {
    var numeric := NumericGroups(allKeys, sorts);
    var humans := Filter(allKeys, IsHumanKey, true);
    var keys := OrderExperimentKeys(allKeys, sorts).keys;
    if i < |numeric| {
      assert keys[i] == numeric[i];
      GroupsOfNumeric(allKeys, sorts, i);
    } else {
      assert keys[i] == sorts.humans(humans)[i - |numeric|];
      forall y | y in humans ensures Group(y) == 3 {
        FilterMember(allKeys, IsHumanKey, true, y);
      }
      SortedGroup(sorts.humans, humans, 3, keys[i]);
    }
  }

  /**
   * The keys come in group order: "<Type>_<Num>B" keys, then keys led by a
   * number, then the rest, and every "Humans" key at the very end.
   */
  lemma ExperimentOrderGrouped(allKeys: seq<string>, sorts: Sorters, i: nat, j: nat)
    requires SortsPermute(sorts)
    requires i < j < |OrderExperimentKeys(allKeys, sorts).keys|
    ensures Group(OrderExperimentKeys(allKeys, sorts).keys[i]) <= Group(OrderExperimentKeys(allKeys, sorts).keys[j])
  {
    var numeric := NumericGroups(allKeys, sorts);
    var keys := OrderExperimentKeys(allKeys, sorts).keys;
    GroupAt(allKeys, sorts, i);
    GroupAt(allKeys, sorts, j);
    if j < |numeric| {
      assert keys[i] == numeric[i] && keys[j] == numeric[j];
      GroupsOfNumeric(allKeys, sorts, i);
      GroupsOfNumeric(allKeys, sorts, j);
    }
  }

  /** How many keys are not "Humans" keys. */
  function NonHumanCount(allKeys: seq<string>): nat
  {
    |Filter(allKeys, IsHumanKey, false)|
  }

  lemma NumericLength(allKeys: seq<string>, sorts: Sorters)
    requires SortsPermute(sorts)
    ensures |NumericGroups(allKeys, sorts)| == NonHumanCount(allKeys)
  {
    NumericGroupsPermute(allKeys, sorts);
    assert |multiset(NumericGroups(allKeys, sorts))| == |multiset(Filter(allKeys, IsHumanKey, false))|;
  }

  /** The first `NonHumanCount` keys are the non-human ones, and every key after them is a "Humans" key. */
  lemma HumansLast(allKeys: seq<string>, sorts: Sorters)
    requires SortsPermute(sorts)
    ensures NonHumanCount(allKeys) <= |OrderExperimentKeys(allKeys, sorts).keys|
    ensures forall i :: 0 <= i < |OrderExperimentKeys(allKeys, sorts).keys| ==>
      (i < NonHumanCount(allKeys) <==> !IsHumanKey(OrderExperimentKeys(allKeys, sorts).keys[i]))
  {
    NumericLength(allKeys, sorts);
    var keys := OrderExperimentKeys(allKeys, sorts).keys;
    forall i | 0 <= i < |keys| ensures (i < NonHumanCount(allKeys)) <==> !IsHumanKey(keys[i]) {
      GroupAt(allKeys, sorts, i);
    }
  }

  /** No rule is drawn exactly when every key is a "Humans" key. */
  lemma NoRuleWhenAllHuman(allKeys: seq<string>, sorts: Sorters)
    requires SortsPermute(sorts)
    ensures OrderExperimentKeys(allKeys, sorts).hrAfter.None? <==> NonHumanCount(allKeys) == 0
    ensures NonHumanCount(allKeys) == 0 <==> forall k :: k in allKeys ==> IsHumanKey(k)
  {
    NumericLength(allKeys, sorts);
    var rest := Filter(allKeys, IsHumanKey, false);
    if rest != [] {
      FilterMember(allKeys, IsHumanKey, false, rest[0]);
    }
    if k :| k in allKeys && !IsHumanKey(k) {
      FilterMember(allKeys, IsHumanKey, false, k);
    }
  }

  /** The rule is drawn after the last key that is not a "Humans" key. */
  lemma RuleAfterLastNonHuman(allKeys: seq<string>, sorts: Sorters)
    requires SortsPermute(sorts)
    requires OrderExperimentKeys(allKeys, sorts).hrAfter.Some?
    ensures 0 < NonHumanCount(allKeys) <= |OrderExperimentKeys(allKeys, sorts).keys|
    ensures OrderExperimentKeys(allKeys, sorts).hrAfter.value == OrderExperimentKeys(allKeys, sorts).keys[NonHumanCount(allKeys) - 1]
  {
    NumericLength(allKeys, sorts);
    var numeric := NumericGroups(allKeys, sorts);
    assert OrderExperimentKeys(allKeys, sorts).keys[|numeric| - 1] == numeric[|numeric| - 1];
  }

  /** Keys of each group: a typed model size, a bare size, a plain name and a human panel. */
  lemma GroupExamples(a: string, b: string, c: string, h: string)
    requires a == "llama_7B" && b == "1.5b-chat" && c == "gpt" && h == "Humans_66"
    ensures Group(a) == 0 && Group(b) == 1 && Group(c) == 2 && Group(h) == 3
  {
    assert AllDigits(a[6..7]);
    assert a[5] == '_' && '_' !in a[..5];
    assert b[1] == '.' && AllDigits(b[..1]) && AllDigits(b[..3][2..]);
    assert IsDecimal(b[..3]);
    assert !IsTypeNumKey(b);
    assert b[3] == 'b';
    assert !IsHumanKey(c) && !IsTypeNumKey(c);
    assert !LeadsWithFloat(c) by {
      forall p | 0 < p < |c| ensures !IsDecimal(c[..p]) {
        assert !IsDigit(c[..p][0]);
      }
    }
  }
}
