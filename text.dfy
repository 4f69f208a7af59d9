/** Python `str` primitives used throughout the package, stated over Dafny strings
    (sequences of Unicode code points). Each function mirrors one built-in method,
    with the same edge cases (empty input, no occurrence, trailing separator). */
module Text {

  datatype Option<T> = None | Some(value: T)

  /** A value or the exception the source raises instead of returning. */
  datatype Result<T, E> = Ok(value: T) | Err(error: E)

  /** `str.isspace()` for one character; `str.strip()`, `str.split()` and the regex class `\s`
      use the same set. */
  predicate IsSpace(c: char)
  {
    ('\t' <= c <= '\r') || ('\U{1C}' <= c <= ' ') || c == '\U{85}' || c == '\U{A0}'
    || c == '\U{1680}' || ('\U{2000}' <= c <= '\U{200A}') || c == '\U{2028}' || c == '\U{2029}'
    || c == '\U{202F}' || c == '\U{205F}' || c == '\U{3000}'
  }

  predicate NoSpace(s: string)
  {
    forall i :: 0 <= i < |s| ==> !IsSpace(s[i])
  }

  predicate IsDigit(c: char)
  {
    '0' <= c <= '9'
  }

  // ---------------------------------------------------------------- strip

  /** `str.lstrip()` */
  function LStrip(s: string): string
  {
    if |s| > 0 && IsSpace(s[0]) then LStrip(s[1..]) else s
  }

  /** The left strip is the suffix that starts at the first non-space character. */
  lemma {:induction false} LStripSpec(s: string)
    ensures var r := LStrip(s);
      && |r| <= |s| && r == s[|s| - |r|..]
      && (forall i :: 0 <= i < |s| - |r| ==> IsSpace(s[i]))
      && (r == [] || !IsSpace(r[0]))
  {
    if |s| > 0 && IsSpace(s[0]) {
      var t := s[1..];
      LStripSpec(t);
      var r := LStrip(t);
      assert t[|t| - |r|..] == s[|s| - |r|..];
      forall i | 1 <= i < |s| - |r|
        ensures IsSpace(s[i])
      {
        assert s[i] == t[i - 1];
      }
    }
  }

  /** `str.rstrip()` */
  function RStrip(s: string): string
  {
    if |s| > 0 && IsSpace(s[|s| - 1]) then RStrip(s[..|s| - 1]) else s
  }

  /** The right strip is the prefix that ends at the last non-space character. */
  lemma {:induction false} RStripSpec(s: string)
    ensures var r := RStrip(s);
      && |r| <= |s| && r == s[..|r|]
      && (forall i :: |r| <= i < |s| ==> IsSpace(s[i]))
      && (r == [] || !IsSpace(r[|r| - 1]))
  {
    if |s| > 0 && IsSpace(s[|s| - 1]) {
      RStripSpec(s[..|s| - 1]);
    }
  }

  /** `str.strip()` */
  function Strip(s: string): string
  {
    RStrip(LStrip(s))
  }

  /** Stripping keeps a contiguous slice whose outer characters are not spaces, and
      everything cut away on either side is space. */
  lemma StripSlice(s: string)
    ensures exists a, b :: (0 <= a <= b <= |s| && Strip(s) == s[a..b]
      && (forall i :: 0 <= i < a ==> IsSpace(s[i]))
      && (forall i :: b <= i < |s| ==> IsSpace(s[i])))
    ensures Strip(s) == [] || (!IsSpace(Strip(s)[0]) && !IsSpace(Strip(s)[|Strip(s)| - 1]))
  {
    var l := LStrip(s);
    LStripSpec(s);
    RStripSpec(l);
    var a := |s| - |l|;
    var b := a + |RStrip(l)|;
    assert Strip(s) == s[a..b];
  }

  lemma StripNoSpace(s: string)
    requires NoSpace(s)
    ensures Strip(s) == s
  {
  }

  // ---------------------------------------------------------------- search

  /** `pat` occurs in `s` starting at index `i`. */
  predicate OccursAt(s: string, pat: string, i: nat)
  {
    i + |pat| <= |s| && s[i..i + |pat|] == pat
  }

  lemma OccursAtShift(s: string, pat: string, j: nat)
    requires |s| > 0
    ensures OccursAt(s, pat, j + 1) <==> OccursAt(s[1..], pat, j)
  {
    if j + 1 + |pat| <= |s| {
      assert s[1..][j..j + |pat|] == s[j + 1..j + 1 + |pat|];
    }
  }

  /** `str.find(pat)`: the leftmost occurrence, or None. */
  function Find(s: string, pat: string): (r: Option<nat>)
    ensures r.Some? ==> OccursAt(s, pat, r.value) && forall j :: 0 <= j < r.value ==> !OccursAt(s, pat, j)
    ensures r.None? ==> forall j: nat :: !OccursAt(s, pat, j)
    decreases |s|
  {
    if |s| < |pat| then None
    else if s[..|pat|] == pat then Some(0)
    else match Find(s[1..], pat)
      case None =>
        assert forall j: nat :: !OccursAt(s, pat, j) by {
          forall j: nat ensures !OccursAt(s, pat, j) {
            if j > 0 { OccursAtShift(s, pat, j - 1); }
          }
        }
        None
      case Some(i) =>
        OccursAtShift(s, pat, i);
        assert forall j :: 0 <= j < i + 1 ==> !OccursAt(s, pat, j) by {
          forall j | 0 <= j < i + 1 ensures !OccursAt(s, pat, j) {
            if j > 0 { OccursAtShift(s, pat, j - 1); }
          }
        }
        Some(i + 1)
  }

  /** The first occurrence is the one `Find` returns. */
  lemma FindFirst(s: string, pat: string, i: nat)
    requires OccursAt(s, pat, i) && forall j :: 0 <= j < i ==> !OccursAt(s, pat, j)
    ensures Find(s, pat) == Some(i)
  {
    var r := Find(s, pat);
    assert r.Some? by {
      assert OccursAt(s, pat, i);
    }
    assert !(r.value < i);
    assert !(i < r.value);
  }

  /** Python's `pat in s`. */
  predicate Contains(s: string, pat: string)
  {
    Find(s, pat).Some?
  }

  lemma ContainsAt(s: string, pat: string, i: nat)
    requires OccursAt(s, pat, i)
    ensures Contains(s, pat)
  {
  }

  lemma OccursInSlice(s: string, pat: string, a: nat, b: nat, j: nat)
    requires a <= b <= |s| && OccursAt(s[a..b], pat, j)
    ensures OccursAt(s, pat, a + j)
  {
    var t := s[a..b];
    forall k | 0 <= k < |pat| ensures s[a + j + k] == pat[k] {
      assert t[j..j + |pat|][k] == t[j + k] == s[a + j + k];
    }
    assert s[a + j..a + j + |pat|] == pat;
  }

  /** The part before the first occurrence does not contain the pattern. */
  lemma PrefixBeforeFirst(s: string, pat: string, i: nat)
    requires |pat| > 0 && Find(s, pat) == Some(i)
    ensures !Contains(s[..i], pat)
  {
    var t := s[..i];
    forall v: nat ensures !OccursAt(t, pat, v) {
      if v + |pat| <= |t| {
        assert t[v..v + |pat|] == s[v..v + |pat|];
        assert !OccursAt(s, pat, v);
      }
    }
  }

  /** A slice of a string that does not contain `pat` does not contain it either. */
  lemma NotContainsSlice(s: string, pat: string, a: nat, b: nat)
    requires a <= b <= |s| && !Contains(s, pat)
    ensures !Contains(s[a..b], pat)
  {
    var t := s[a..b];
    assert Find(s, pat).None?;
    forall j: nat ensures !OccursAt(t, pat, j) {
      if j + |pat| <= |t| {
        SliceOfSlice(s, a, b, j, j + |pat|);
        assert !OccursAt(s, pat, a + j);
      }
    }
  }

  // ---------------------------------------------------------------- split / join / replace

  /** `s.split(sep)` for a non-empty separator: the left-to-right, non-overlapping cut. */
  function Split(s: string, sep: string): (r: seq<string>)
    requires |sep| > 0
    ensures |r| >= 1
    decreases |s|
  {
    match Find(s, sep)
    case None => [s]
    case Some(i) => [s[..i]] + Split(s[i + |sep|..], sep)
  }

  /** A split at exactly one occurrence gives the two sides. */
  lemma SplitOnce(s: string, sep: string, i: nat)
    requires |sep| > 0 && Find(s, sep) == Some(i) && !Contains(s[i + |sep|..], sep)
    ensures Split(s, sep) == [s[..i], s[i + |sep|..]]
  {
  }

  /** `sep.join(parts)` */
  function Join(sep: string, parts: seq<string>): string
  {
    if |parts| == 0 then ""
    else if |parts| == 1 then parts[0]
    else parts[0] + sep + Join(sep, parts[1..])
  }

  /** Joining the pieces with the separator gives back the original string. */
  lemma {:induction false} JoinSplit(s: string, sep: string)
    requires |sep| > 0
    ensures Join(sep, Split(s, sep)) == s
    decreases |s|
  {
    match Find(s, sep)
    case None =>
    case Some(i) =>
      var pre, rest := s[..i], s[i + |sep|..];
      assert Split(s, sep) == [pre] + Split(rest, sep);
      JoinSplit(rest, sep);
      JoinCons(sep, pre, Split(rest, sep));
      assert s[i..i + |sep|] == sep;
      SplitAround(s, i, i + |sep|);
  }

  lemma SplitAround<T>(s: seq<T>, i: nat, j: nat)
    requires i <= j <= |s|
    ensures s == s[..i] + s[i..j] + s[j..]
  {
  }

  /** No piece of a split contains the separator. */
  lemma {:induction false} SplitPiecesFree(s: string, sep: string)
    requires |sep| > 0
    ensures forall k :: 0 <= k < |Split(s, sep)| ==> !Contains(Split(s, sep)[k], sep)
    decreases |s|
  {
    match Find(s, sep)
    case None =>
    case Some(i) =>
      var rest := s[i + |sep|..];
      SplitPiecesFree(rest, sep);
      var r := Split(s, sep);
      assert r == [s[..i]] + Split(rest, sep);
      forall k | 0 <= k < |r| ensures !Contains(r[k], sep) {
        if k == 0 {
          PrefixBeforeFirst(s, sep, i);
        } else {
          assert r[k] == Split(rest, sep)[k - 1];
        }
      }
  }

  lemma SplitNoSep(s: string, sep: string)
    requires |sep| > 0 && !Contains(s, sep)
    ensures Split(s, sep) == [s]
  {
  }

  /** No proper suffix of `sep` is a prefix of it: its first character does not recur, so
      two occurrences of `sep` never overlap. */
  predicate Unbordered(sep: string)
  {
    |sep| > 0 && forall k :: 0 < k < |sep| ==> sep[k] != sep[0]
  }

  /** Text appended after the first occurrence leaves it the first occurrence. */
  lemma FindBeforeAppend(a: string, t: string, pat: string, i: nat)
    requires Find(a, pat) == Some(i)
    ensures Find(a + t, pat) == Some(i)
  {
    var s := a + t;
    assert s[i..i + |pat|] == a[i..i + |pat|];
    forall j | 0 <= j < i ensures !OccursAt(s, pat, j) {
      assert !OccursAt(a, pat, j);
      assert s[j..j + |pat|] == a[j..j + |pat|];
    }
    FindFirst(s, pat, i);
  }

  /** When `a` does not contain an unbordered `sep`, the first `sep` of `a + sep + b` is
      the one right after `a`. */
  lemma FindAtJunction(a: string, sep: string, b: string)
    requires Unbordered(sep) && !Contains(a, sep)
    ensures Find(a + sep + b, sep) == Some(|a|)
  {
    var s := a + sep + b;
    assert s[|a|..|a| + |sep|] == sep;
    forall j | 0 <= j < |a| ensures !OccursAt(s, sep, j) {
      NoOccurrenceBeforeJunction(a, sep, b, j);
    }
    FindFirst(s, sep, |a|);
  }

  lemma NoOccurrenceBeforeJunction(a: string, sep: string, b: string, j: nat)
    requires Unbordered(sep) && !Contains(a, sep) && j < |a|
    ensures !OccursAt(a + sep + b, sep, j)
  {
    var s := a + sep + b;
    if j + |sep| <= |a| {
      assert !OccursAt(a, sep, j);
      assert s[j..j + |sep|] == a[j..j + |sep|];
    } else if j + |sep| <= |s| {
      var k := |a| - j;
      assert s[j..j + |sep|][k] == s[|a|] == sep[0];
      assert sep[k] != sep[0];
    }
  }

  /** Splitting on an unbordered separator: a last separator followed by text free of it
      adds that text as the last piece. */
  lemma {:induction false} SplitLast(a: string, sep: string, b: string)
    requires Unbordered(sep) && !Contains(b, sep)
    ensures Split(a + sep + b, sep) == Split(a, sep) + [b]
    decreases |a|
  {
    if Contains(a, sep) {
      var i := Find(a, sep).value;
      var rest := a[i + |sep|..];
      SplitStep(a, sep, b, i);
      SplitLast(rest, sep, b);
    } else {
      FindAtJunction(a, sep, b);
      SplitFresh(a, sep, b);
      SplitNoSep(b, sep);
    }
  }

  /** The first cut of `a + sep + b` is the first cut of `a`. */
  lemma SplitStep(a: string, sep: string, b: string, i: nat)
    requires |sep| > 0 && Find(a, sep) == Some(i)
    ensures Split(a + sep + b, sep) == [a[..i]] + Split(a[i + |sep|..] + sep + b, sep)
    ensures Split(a, sep) == [a[..i]] + Split(a[i + |sep|..], sep)
  {
    AppendSlices(a, sep, b, i);
    FindBeforeAppend(a, sep + b, sep, i);
    SplitUnfold(a + sep + b, sep, i);
    SplitUnfold(a, sep, i);
  }

  lemma AppendSlices(a: string, sep: string, b: string, i: nat)
    requires i + |sep| <= |a|
    ensures a + (sep + b) == a + sep + b
    ensures (a + sep + b)[..i] == a[..i]
    ensures (a + sep + b)[i + |sep|..] == a[i + |sep|..] + sep + b
  {
  }

  /** One step of `Split`. */
  lemma SplitUnfold(s: string, sep: string, i: nat)
    requires |sep| > 0 && Find(s, sep) == Some(i)
    ensures Split(s, sep) == [s[..i]] + Split(s[i + |sep|..], sep)
  {
  }

  /** The cut right after `a`. */
  lemma SplitFresh(a: string, sep: string, b: string)
    requires |sep| > 0 && Find(a + sep + b, sep) == Some(|a|) && !Contains(a, sep)
    ensures Split(a + sep + b, sep) == [a] + Split(b, sep)
    ensures Split(a, sep) == [a]
  {
    var s := a + sep + b;
    assert s[..|a|] == a && s[|a| + |sep|..] == b;
  }

  lemma LacksConcat(a: string, b: string, c: char)
    requires Lacks(a, c) && Lacks(b, c)
    ensures Lacks(a + b, c)
  {
    forall i | 0 <= i < |a + b| ensures (a + b)[i] != c {
      if i >= |a| {
        assert (a + b)[i] == b[i - |a|];
      }
    }
  }

  /** A string lacking one character of `pat` does not contain `pat`. */
  lemma LackingNotContains(s: string, pat: string, k: nat)
    requires k < |pat| && Lacks(s, pat[k])
    ensures !Contains(s, pat)
  {
  }

  /** `s.replace(target, with)`: one left-to-right pass over non-overlapping occurrences. */
  function Replace(s: string, target: string, with: string): string
    requires |target| > 0
  {
    Join(with, Split(s, target))
  }

  lemma ReplaceAbsent(s: string, target: string, with: string)
    requires |target| > 0 && !Contains(s, target)
    ensures Replace(s, target, with) == s
  {
  }

  /** Replacing a pattern by something shorter never lengthens the text, and
      shortens it when the pattern occurs. */
  lemma {:induction false} ReplaceShrinks(s: string, target: string, with: string)
    requires |with| < |target|
    ensures |Replace(s, target, with)| <= |s|
    ensures Contains(s, target) ==> |Replace(s, target, with)| < |s|
    decreases |s|
  {
    match Find(s, target)
    case None =>
    case Some(i) =>
      var rest := s[i + |target|..];
      ReplaceShrinks(rest, target, with);
      assert Split(s, target) == [s[..i]] + Split(rest, target);
      JoinCons(with, s[..i], Split(rest, target));
      assert Replace(s, target, with) == s[..i] + with + Replace(rest, target, with);
  }

  /** Where part `k` starts in `sep.join(parts)`. */
  function JoinStart(sep: string, parts: seq<string>, k: nat): nat
    requires k < |parts|
  {
    if k == 0 then 0 else |parts[0]| + |sep| + JoinStart(sep, parts[1..], k - 1)
  }

  /** Later parts start after the end of earlier parts and a separator. */
  lemma {:induction false} JoinStartGrows(sep: string, parts: seq<string>, i: nat, j: nat)
    requires i < j < |parts|
    ensures JoinStart(sep, parts, i) + |parts[i]| + |sep| <= JoinStart(sep, parts, j)
  {
    if i > 0 {
      JoinStartGrows(sep, parts[1..], i - 1, j - 1);
      assert parts[1..][i - 1] == parts[i];
    }
  }

  /** Every part is a slice of the joined string, at its start. */
  lemma {:induction false} JoinPieceAt(sep: string, parts: seq<string>, k: nat)
    requires k < |parts|
    ensures JoinStart(sep, parts, k) + |parts[k]| <= |Join(sep, parts)|
    ensures Join(sep, parts)[JoinStart(sep, parts, k)..JoinStart(sep, parts, k) + |parts[k]|] == parts[k]
  {
    var j := Join(sep, parts);
    if |parts| == 1 {
      assert j == parts[0];
    } else {
      var head := parts[0] + sep;
      var tail := Join(sep, parts[1..]);
      assert j == head + tail;
      if k == 0 {
        assert j[..|parts[0]|] == parts[0];
      } else {
        JoinPieceAt(sep, parts[1..], k - 1);
        var a := JoinStart(sep, parts[1..], k - 1);
        var n := |parts[k]|;
        assert parts[1..][k - 1] == parts[k];
        assert j[|head| + a..|head| + a + n] == tail[a..a + n];
      }
    }
  }

  /** Every piece of a split is a slice of the text. */
  lemma SplitPieceSlice(s: string, sep: string, k: nat)
    requires |sep| > 0 && k < |Split(s, sep)|
    ensures exists a, b :: 0 <= a <= b <= |s| && Split(s, sep)[k] == s[a..b]
  {
    JoinSplit(s, sep);
    JoinPieceAt(sep, Split(s, sep), k);
    var a := JoinStart(sep, Split(s, sep), k);
    assert Split(s, sep)[k] == s[a..a + |Split(s, sep)[k]|];
  }

  lemma SliceOfSlice<T>(s: seq<T>, lo: nat, hi: nat, a: nat, b: nat)
    requires lo <= hi <= |s| && a <= b <= hi - lo
    ensures s[lo..hi][a..b] == s[lo + a..lo + b]
  {
    forall i | 0 <= i < b - a
      ensures s[lo..hi][a..b][i] == s[lo + a..lo + b][i]
    {
      assert s[lo..hi][a..b][i] == s[lo..hi][a + i] == s[lo + a + i];
    }
  }

  /** Stripping cannot create an occurrence. */
  lemma StripKeepsAbsence(s: string, pat: string)
    requires !Contains(s, pat)
    ensures !Contains(Strip(s), pat)
  {
    StripSlice(s);
    var a, b :| 0 <= a <= b <= |s| && Strip(s) == s[a..b];
    NotContainsSlice(s, pat, a, b);
  }

  /** Every `c` turned into `d`, character by character. */
  function MapChar(s: string, c: char, d: char): (r: string)
    ensures |r| == |s|
    ensures forall i :: 0 <= i < |s| ==> r[i] == (if s[i] == c then d else s[i])
  {
    seq(|s|, i requires 0 <= i < |s| => if s[i] == c then d else s[i])
  }

  lemma MapCharAppend(a: string, b: string, c: char, d: char)
    ensures MapChar(a + b, c, d) == MapChar(a, c, d) + MapChar(b, c, d)
  {
  }

  lemma MapCharLacking(s: string, c: char, d: char)
    requires Lacks(s, c)
    ensures MapChar(s, c, d) == s
  {
  }

  /** Replacing one character by another is a character-wise map. */
  lemma {:induction false} ReplaceCharIsMap(s: string, c: char, d: char)
    ensures Replace(s, [c], [d]) == MapChar(s, c, d)
    decreases |s|
  {
    match Find(s, [c])
    case None =>
      LacksIffNotContains(s, c);
      MapCharLacking(s, c, d);
    case Some(i) =>
      ReplaceCharIsMap(s[i + 1..], c, d);
      ReplaceCharFirst(s, c, [d], i);
      MapCharFirst(s, c, d, i);
  }

  /** The character map splits at the first occurrence of `c` like the replacement. */
  lemma MapCharFirst(s: string, c: char, d: char, i: nat)
    requires Find(s, [c]) == Some(i)
    ensures MapChar(s, c, d) == s[..i] + [d] + MapChar(s[i + 1..], c, d)
  {
    var pre, rest := s[..i], s[i + 1..];
    assert MapChar(pre, c, d) == pre by {
      PrefixBeforeFirst(s, [c], i);
      LacksIffNotContains(pre, c);
      MapCharLacking(pre, c, d);
    }
    assert s == pre + [c] + rest by {
      assert s[i..i + 1] == [c];
    }
    MapCharAppend(pre + [c], rest, c, d);
    MapCharAppend(pre, [c], c, d);
    assert MapChar([c], c, d) == [d];
  }

  /** Each character rewritten by `f`, the pieces concatenated in order. */
  function MapConcat(s: string, f: char -> string): string
  {
    if |s| == 0 then "" else MapConcat(s[..|s| - 1], f) + f(s[|s| - 1])
  }

  lemma {:induction false} MapConcatAppend(a: string, b: string, f: char -> string)
    ensures MapConcat(a + b, f) == MapConcat(a, f) + MapConcat(b, f)
    decreases |b|
  {
    if |b| == 0 {
      assert a + b == a;
    } else {
      MapConcatAppend(a, b[..|b| - 1], f);
      assert (a + b)[..|a + b| - 1] == a + b[..|b| - 1];
    }
  }

  lemma {:induction false} MapConcatIdentity(s: string, f: char -> string)
    requires forall i :: 0 <= i < |s| ==> f(s[i]) == [s[i]]
    ensures MapConcat(s, f) == s
  {
    if |s| > 0 {
      MapConcatIdentity(s[..|s| - 1], f);
    }
  }

  /** A property every piece has holds of every output character, and pieces that are
      never empty make the output at least as long as the input. */
  lemma {:induction false} MapConcatShape(s: string, f: char -> string, p: char -> bool)
    requires forall i, j :: 0 <= i < |s| && 0 <= j < |f(s[i])| ==> p(f(s[i])[j])
    requires forall i :: 0 <= i < |s| ==> |f(s[i])| >= 1
    ensures forall k :: 0 <= k < |MapConcat(s, f)| ==> p(MapConcat(s, f)[k])
    ensures |MapConcat(s, f)| >= |s|
  {
    if |s| > 0 {
      var init := s[..|s| - 1];
      MapConcatShape(init, f, p);
      var x := MapConcat(init, f);
      var y := f(s[|s| - 1]);
      forall k | 0 <= k < |x + y| ensures p((x + y)[k]) {
        if k >= |x| {
          assert (x + y)[k] == y[k - |x|];
        } else {
          assert (x + y)[k] == x[k];
        }
      }
    }
  }

  /** Replacing one character by a string is a character-wise rewrite. */
  lemma {:induction false} ReplaceCharIsConcat(s: string, c: char, w: string, f: char -> string)
    requires forall x :: f(x) == if x == c then w else [x]
    ensures Replace(s, [c], w) == MapConcat(s, f)
    decreases |s|
  {
    match Find(s, [c])
    case None =>
      LacksIffNotContains(s, c);
      MapConcatIdentity(s, f);
    case Some(i) =>
      var rest := s[i + 1..];
      ReplaceCharIsConcat(rest, c, w, f);
      ReplaceCharFirst(s, c, w, i);
      MapConcatFirst(s, c, w, f, i);
  }

  /** Replacing a character splits at its first occurrence. */
  lemma ReplaceCharFirst(s: string, c: char, w: string, i: nat)
    requires Find(s, [c]) == Some(i)
    ensures Replace(s, [c], w) == s[..i] + w + Replace(s[i + 1..], [c], w)
  {
    var rest := s[i + 1..];
    assert Split(s, [c]) == [s[..i]] + Split(rest, [c]);
    JoinCons(w, s[..i], Split(rest, [c]));
  }

  /** The character-wise map splits at the first occurrence of `c` in the same way. */
  lemma MapConcatFirst(s: string, c: char, w: string, f: char -> string, i: nat)
    requires forall x :: f(x) == if x == c then w else [x]
    requires Find(s, [c]) == Some(i)
    ensures MapConcat(s, f) == s[..i] + w + MapConcat(s[i + 1..], f)
  {
    var pre, rest := s[..i], s[i + 1..];
    assert MapConcat(pre, f) == pre by {
      PrefixBeforeFirst(s, [c], i);
      LacksIffNotContains(pre, c);
      assert forall k :: 0 <= k < |pre| ==> f(pre[k]) == [pre[k]];
      MapConcatIdentity(pre, f);
    }
    assert s == pre + [c] + rest by {
      assert s[i..i + 1] == [c];
    }
    assert f(c) == w;
    MapConcatMiddle(pre, c, rest, f);
  }

  /** The character-wise map of a string around one of its characters. */
  lemma MapConcatMiddle(a: string, x: char, b: string, f: char -> string)
    ensures MapConcat(a + [x] + b, f) == MapConcat(a, f) + f(x) + MapConcat(b, f)
  {
    MapConcatAppend(a + [x], b, f);
    assert (a + [x])[..|a + [x]| - 1] == a;
  }

  /** `c not in s` for a single character. */
  predicate Lacks(s: string, c: char)
  {
    forall i :: 0 <= i < |s| ==> s[i] != c
  }

  lemma LacksIffNotContains(s: string, c: char)
    ensures Lacks(s, c) <==> !Contains(s, [c])
  {
    if Contains(s, [c]) {
      var i := Find(s, [c]).value;
      assert s[i..i + 1][0] == s[i];
    }
    if !Lacks(s, c) {
      var i :| 0 <= i < |s| && s[i] == c;
      assert s[i..i + 1] == [c];
      assert OccursAt(s, [c], i);
    }
  }

  lemma {:induction false} JoinLacks(sep: string, parts: seq<string>, c: char)
    requires Lacks(sep, c) && forall k :: 0 <= k < |parts| ==> Lacks(parts[k], c)
    ensures Lacks(Join(sep, parts), c)
  {
    if |parts| > 1 {
      JoinLacks(sep, parts[1..], c);
    }
  }

  /** Every piece of a split is a slice of the original, so it lacks what the original lacks. */
  lemma {:induction false} SplitKeepsLack(s: string, sep: string, c: char)
    requires |sep| > 0 && Lacks(s, c)
    ensures forall k :: 0 <= k < |Split(s, sep)| ==> Lacks(Split(s, sep)[k], c)
    decreases |s|
  {
    match Find(s, sep)
    case None =>
    case Some(i) =>
      var rest := s[i + |sep|..];
      SplitKeepsLack(rest, sep, c);
      var r := Split(s, sep);
      forall k | 0 <= k < |r| ensures Lacks(r[k], c) {
        if k > 0 {
          assert r[k] == Split(rest, sep)[k - 1];
        }
      }
  }

  /** Replacing a character by text without it leaves no occurrence of the character. */
  lemma ReplaceRemovesChar(s: string, c: char, with: string)
    requires Lacks(with, c)
    ensures Lacks(Replace(s, [c], with), c)
  {
    var parts := Split(s, [c]);
    SplitPiecesFree(s, [c]);
    forall k | 0 <= k < |parts| ensures Lacks(parts[k], c) {
      LacksIffNotContains(parts[k], c);
    }
    JoinLacks(with, parts, c);
  }

  /** A replacement brings in no character that neither the text nor the replacement has. */
  lemma ReplaceKeepsLack(s: string, target: string, with: string, c: char)
    requires |target| > 0 && Lacks(s, c) && Lacks(with, c)
    ensures Lacks(Replace(s, target, with), c)
  {
    SplitKeepsLack(s, target, c);
    JoinLacks(with, Split(s, target), c);
  }

  /** `s.startswith(p)` */
  predicate StartsWith(s: string, p: string)
  {
    |p| <= |s| && s[..|p|] == p
  }

  /** `c * n` for a one-character string `c`. */
  function Repeat(c: char, n: nat): (r: string)
    ensures |r| == n && forall i :: 0 <= i < n ==> r[i] == c
  {
    if n == 0 then "" else [c] + Repeat(c, n - 1)
  }

  /** Joining a non-empty list with a head item in front puts one separator between them. */
  lemma JoinCons(sep: string, x: string, rest: seq<string>)
    requires |rest| > 0
    ensures Join(sep, [x] + rest) == x + sep + Join(sep, rest)
  {
    assert ([x] + rest)[1..] == rest;
  }

  /** An occurrence in the right operand is an occurrence in the concatenation. */
  lemma OccursAfter(a: string, b: string, pat: string, i: nat)
    requires OccursAt(b, pat, i)
    ensures OccursAt(a + b, pat, |a| + i)
  {
    assert (a + b)[|a| + i..|a| + i + |pat|] == b[i..i + |pat|];
  }

  /** An occurrence in the left operand is an occurrence in the concatenation. */
  lemma OccursBefore(a: string, b: string, pat: string, i: nat)
    requires OccursAt(a, pat, i)
    ensures OccursAt(a + b, pat, i)
  {
    assert (a + b)[i..i + |pat|] == a[i..i + |pat|];
  }

  /** Every part occurs in the joined string, and the first part starts it. */
  lemma {:induction false} JoinContainsPart(sep: string, parts: seq<string>, j: nat)
    requires j < |parts|
    ensures Contains(Join(sep, parts), parts[j])
    ensures j == 0 ==> StartsWith(Join(sep, parts), parts[0])
  {
    var s := Join(sep, parts);
    if |parts| == 1 {
      assert OccursAt(s, parts[0], 0);
    } else {
      var rest := Join(sep, parts[1..]);
      assert s == parts[0] + (sep + rest);
      if j == 0 {
        assert OccursAt(parts[0], parts[0], 0);
        OccursBefore(parts[0], sep + rest, parts[0], 0);
      } else {
        JoinContainsPart(sep, parts[1..], j - 1);
        var i := Find(rest, parts[j]).value;
        OccursAfter(sep, rest, parts[j], i);
        OccursAfter(parts[0], sep + rest, parts[j], |sep| + i);
        assert (parts[0] + (sep + rest)) == s;
      }
    }
  }

  /** `[v.strip() for v in vs]` */
  function StripAll(vs: seq<string>): (r: seq<string>)
    ensures |r| == |vs| && forall i :: 0 <= i < |vs| ==> r[i] == Strip(vs[i])
  {
    if |vs| == 0 then [] else [Strip(vs[0])] + StripAll(vs[1..])
  }

  /** What `s.split(sep, 1)[1]` gives: everything after the first occurrence. */
  function AfterFirst(s: string, sep: string): (r: string)
    requires Contains(s, sep)
    ensures |r| <= |s|
  {
    var i := Find(s, sep).value;
    s[i + |sep|..]
  }

  // ---------------------------------------------------------------- lines and words

  /** One of the line boundaries `str.splitlines()` recognises (`\r\n` counts as one). */
  predicate IsLineBreak(c: char)
  {
    c == '\n' || c == '\r' || c == '\U{0B}' || c == '\U{0C}' || ('\U{1C}' <= c <= '\U{1E}')
    || c == '\U{85}' || c == '\U{2028}' || c == '\U{2029}'
  }

  function FirstLineBreak(s: string): (r: Option<nat>)
    ensures r.Some? ==> r.value < |s| && IsLineBreak(s[r.value]) && forall j :: 0 <= j < r.value ==> !IsLineBreak(s[j])
    ensures r.None? ==> forall j :: 0 <= j < |s| ==> !IsLineBreak(s[j])
  {
    if |s| == 0 then None
    else if IsLineBreak(s[0]) then Some(0)
    else match FirstLineBreak(s[1..])
      case None => None
      case Some(i) => Some(i + 1)
  }

  /** `str.splitlines()` without `keepends`: no terminator in any line, and a final
      terminator does not start an extra empty line. */
  function SplitLines(s: string): (r: seq<string>)
    ensures forall k, j :: 0 <= k < |r| && 0 <= j < |r[k]| ==> !IsLineBreak(r[k][j])
    decreases |s|
  {
    if |s| == 0 then []
    else match FirstLineBreak(s)
      case None => [s]
      case Some(i) =>
        var n := if s[i] == '\r' && i + 1 < |s| && s[i + 1] == '\n' then 2 else 1;
        [s[..i]] + SplitLines(s[i + n..])
  }

  function FirstSpace(s: string): (r: Option<nat>)
    ensures r.Some? ==> r.value < |s| && IsSpace(s[r.value]) && forall j :: 0 <= j < r.value ==> !IsSpace(s[j])
    ensures r.None? ==> NoSpace(s)
  {
    if |s| == 0 then None
    else if IsSpace(s[0]) then Some(0)
    else match FirstSpace(s[1..])
      case None => None
      case Some(i) => Some(i + 1)
  }

  /** Drops the leading run of white space. */
  function SkipSpaces(s: string): (r: string)
    ensures |r| <= |s| && r == s[|s| - |r|..]
    ensures r == [] || !IsSpace(r[0])
  {
    if |s| > 0 && IsSpace(s[0]) then SkipSpaces(s[1..]) else s
  }

  /** `re.split(r'\s+', s)`: cut at every maximal run of white space; a leading or
      trailing run yields an empty first or last piece. */
  function SplitOnSpaceRuns(s: string): (r: seq<string>)
    ensures |r| >= 1
    ensures forall k :: 0 <= k < |r| ==> NoSpace(r[k])
    decreases |s|
  {
    match FirstSpace(s)
    case None => [s]
    case Some(i) => [s[..i]] + SplitOnSpaceRuns(SkipSpaces(s[i..]))
  }

  /** `list(reversed(s))` */
  function Reverse<T>(s: seq<T>): (r: seq<T>)
    ensures |r| == |s| && forall i :: 0 <= i < |s| ==> r[i] == s[|s| - 1 - i]
  {
    if |s| == 0 then [] else Reverse(s[1..]) + [s[0]]
  }

  // ---------------------------------------------------------------- numbers

  function DigitChar(d: nat): (c: char)
    requires d < 10
    ensures IsDigit(c)
  {
    ['0', '1', '2', '3', '4', '5', '6', '7', '8', '9'][d]
  }

  /** `str(n)` for a natural number: its decimal digits, no leading zero. */
  function NatToString(n: nat): (r: string)
    ensures |r| >= 1 && forall i :: 0 <= i < |r| ==> IsDigit(r[i])
  {
    if n < 10 then [DigitChar(n)] else NatToString(n / 10) + [DigitChar(n % 10)]
  }

  /** `str(i)` for any integer. */
  function IntToString(i: int): string
  {
    if i < 0 then "-" + NatToString(-i) else NatToString(i)
  }

  function DigitValue(c: char): (d: nat)
    requires IsDigit(c)
    ensures d < 10
  {
    (c as int - '0' as int) as nat
  }

  /** `int(s)` for a string of decimal digits (leading zeros allowed, as in Python). */
  function ParseDigits(s: string): nat
    requires forall i :: 0 <= i < |s| ==> IsDigit(s[i])
  {
    if |s| == 0 then 0 else 10 * ParseDigits(s[..|s| - 1]) + DigitValue(s[|s| - 1])
  }

  /** `int(str(n)) == n` */
  lemma {:induction false} ParseNatToString(n: nat)
    ensures ParseDigits(NatToString(n)) == n
  {
    var s := NatToString(n);
    if n >= 10 {
      ParseNatToString(n / 10);
      assert s[..|s| - 1] == NatToString(n / 10);
    }
  }

  lemma {:induction false} NatToStringInjective(m: nat, n: nat)
    requires NatToString(m) == NatToString(n)
    ensures m == n
  {
    ParseNatToString(m);
    ParseNatToString(n);
  }
}
