// The pure helpers of utils.py: the repeated n-gram finder and the
// integer unit selection of the duration formatter.

module Utils {
  import opened Text

  // ---------------------------------------------------------------- ngram_repeat

  /** Every length-`L` slice of `text`, in order of position. */
  function Windows(text: string, L: nat): (ws: seq<string>)
    ensures |ws| == if |text| >= L then |text| - L + 1 else 0
    ensures forall i :: 0 <= i < |ws| ==> ws[i] == text[i..i + L]
  {
    if |text| < L then []
    else seq(|text| - L + 1, i requires 0 <= i < |text| - L + 1 => text[i..i + L])
  }

  /** How often `s` occurs among the windows (the `Counter` value). */
  function Count(ws: seq<string>, s: string): nat
  {
    multiset(ws)[s]
  }

  /** The distinct characters of `s` (the `set(s)` of the source). */
  function Chars(s: string): set<char>
  {
    set c | c in s
  }

  /** A window worth reporting: repeated at least `K` times, with more than three distinct characters. */
  predicate Qualifies(ws: seq<string>, K: int, s: string)
  {
    Count(ws, s) >= K && |Chars(s)| > 3
  }

  /** The position of the first occurrence of `s`. */
  function FirstIndex(ws: seq<string>, s: string): (i: nat)
    requires s in ws
    ensures i < |ws| && ws[i] == s
    ensures forall j :: 0 <= j < i ==> ws[j] != s
  {
    if ws[0] == s then 0 else 1 + FirstIndex(ws[1..], s)
  }

  lemma FirstIndexPrefix(ws: seq<string>, n: nat, s: string)
    requires n <= |ws| && s in ws[..n]
    ensures s in ws && FirstIndex(ws[..n], s) == FirstIndex(ws, s)
  {
    var a := FirstIndex(ws[..n], s);
    assert ws[a] == s;
  }

  /** First occurrences strictly increase along `ks`. */
  predicate InFirstSeenOrder(ks: seq<string>, ws: seq<string>)
  {
    (forall k :: k in ks ==> k in ws) &&
    forall i, j :: 0 <= i < j < |ks| ==> FirstIndex(ws, ks[i]) < FirstIndex(ws, ks[j])
  }

  /** The keys of the `Counter`: each distinct window once, in order of first occurrence. */
  function FirstSeen(ws: seq<string>): (r: seq<string>)
    ensures forall s :: s in r <==> s in ws
  {
    if ws == [] then []
    else
      var p := FirstSeen(ws[..|ws| - 1]);
      if ws[|ws| - 1] in p then p else p + [ws[|ws| - 1]]
  }

  lemma {:induction false} FirstSeenOrder(ws: seq<string>)
    ensures InFirstSeenOrder(FirstSeen(ws), ws)
  {
    if ws != [] {
      var n := |ws| - 1;
      var pre := ws[..n];
      var p := FirstSeen(pre);
      FirstSeenOrder(pre);
      forall k | k in p ensures FirstIndex(pre, k) == FirstIndex(ws, k) {
        FirstIndexPrefix(ws, n, k);
      }
      if ws[n] !in p {
        assert ws[n] !in pre;
        assert FirstIndex(ws, ws[n]) == n;
        var r := p + [ws[n]];
        assert forall k :: k in r ==> k in ws;
        forall i, j | 0 <= i < j < |r| ensures FirstIndex(ws, r[i]) < FirstIndex(ws, r[j]) {
          assert r[i] == p[i] && r[i] in p;
          if j < |p| {
            assert r[j] == p[j] && r[j] in p;
          }
        }
      }
    }
  }

  /** The keys that survive both filters of the source, in the same order. */
  function Qualified(ks: seq<string>, ws: seq<string>, K: int): (r: seq<string>)
    ensures forall s :: s in r <==> s in ks && Qualifies(ws, K, s)
  {
    if ks == [] then []
    else if Qualifies(ws, K, ks[0]) then [ks[0]] + Qualified(ks[1..], ws, K)
    else Qualified(ks[1..], ws, K)
  }

  lemma {:induction false} QualifiedOrder(ks: seq<string>, ws: seq<string>, K: int)
    requires InFirstSeenOrder(ks, ws)
    ensures InFirstSeenOrder(Qualified(ks, ws, K), ws)
  {
    if ks != [] {
      var rest := ks[1..];
      TailInOrder(ks, ws);
      QualifiedOrder(rest, ws, K);
      if Qualifies(ws, K, ks[0]) {
        var q := Qualified(rest, ws, K);
        var r := [ks[0]] + q;
        forall i, j | 0 <= i < j < |r| ensures FirstIndex(ws, r[i]) < FirstIndex(ws, r[j]) {
          if i == 0 {
            HeadBeforeRest(ks, ws, r[j]);
          } else {
            assert r[i] == q[i - 1] && r[j] == q[j - 1];
          }
        }
      }
    }
  }

  lemma TailInOrder(ks: seq<string>, ws: seq<string>)
    requires InFirstSeenOrder(ks, ws) && ks != []
    ensures InFirstSeenOrder(ks[1..], ws)
  {
    var rest := ks[1..];
    forall i, j | 0 <= i < j < |rest| ensures FirstIndex(ws, rest[i]) < FirstIndex(ws, rest[j]) {
      assert rest[i] == ks[i + 1] && rest[j] == ks[j + 1];
    }
  }

  /** In first-seen order the head occurs before every later key. */
  lemma HeadBeforeRest(ks: seq<string>, ws: seq<string>, x: string)
    requires InFirstSeenOrder(ks, ws) && ks != [] && x in ks[1..]
    ensures FirstIndex(ws, ks[0]) < FirstIndex(ws, x)
  {
    var m :| 0 <= m < |ks[1..]| && ks[1..][m] == x;
    assert ks[m + 1] == x;
  }

  /**
   * The position of the winner of the stable descending sort by count:
   * the first key whose count is maximal.
   */
  function BestIndex(cs: seq<string>, ws: seq<string>): (k: nat)
    requires cs != []
    ensures k < |cs|
    ensures forall i :: 0 <= i < |cs| ==> Count(ws, cs[i]) <= Count(ws, cs[k])
    ensures forall i :: 0 <= i < k ==> Count(ws, cs[i]) < Count(ws, cs[k])
  {
    if |cs| == 1 then 0
    else
      var b := 1 + BestIndex(cs[1..], ws);
      assert cs[b] == cs[1..][b - 1];
      if Count(ws, cs[b]) > Count(ws, cs[0]) then b else 0
  }

  /** The winner among windows `ws`, or `("", 0)`. */
  function Winner(ws: seq<string>, K: int): (string, nat)
  {
    var cs := Qualified(FirstSeen(ws), ws, K);
    if cs == [] then ("", 0)
    else
      var k := BestIndex(cs, ws);
      (cs[k], Count(ws, cs[k]))
  }

  /**
   * `ngram_repeat(text, L, K)`: the most repeated qualifying window and
   * its count, or `("", 0)` when no window qualifies.
   */
  function NgramRepeat(text: string, L: nat, K: int): (string, nat)
  {
    Winner(Windows(text, L), K)
  }

  lemma WinnerNothing(ws: seq<string>, K: int)
    ensures Winner(ws, K) == ("", 0) <==> forall i :: 0 <= i < |ws| ==> !Qualifies(ws, K, ws[i])
  {
    var cs := Qualified(FirstSeen(ws), ws, K);
    if cs != [] {
      var k := BestIndex(cs, ws);
      assert cs[k] in cs;
      assert |Chars(cs[k])| > 3;
      assert cs[k] != "" by {
        assert |Chars("")| == 0;
      }
      assert cs[k] in FirstSeen(ws);
      var i :| 0 <= i < |ws| && ws[i] == cs[k];
    } else {
      forall i | 0 <= i < |ws| ensures !Qualifies(ws, K, ws[i]) {
        assert ws[i] in FirstSeen(ws);
      }
    }
  }

  lemma WinnerFound(ws: seq<string>, K: int)
    requires Winner(ws, K) != ("", 0)
    ensures var (s, n) := Winner(ws, K);
      s in ws && n == Count(ws, s) && Qualifies(ws, K, s)
  {
    var cs := Qualified(FirstSeen(ws), ws, K);
    assert cs != [];
    var k := BestIndex(cs, ws);
    assert cs[k] in cs && cs[k] in FirstSeen(ws);
  }

  lemma WinnerMaximal(ws: seq<string>, K: int, s: string)
    requires s in ws && Qualifies(ws, K, s)
    ensures Count(ws, s) <= Winner(ws, K).1
  {
    var cs := Qualified(FirstSeen(ws), ws, K);
    assert s in cs;
    var m :| 0 <= m < |cs| && cs[m] == s;
  }

  /** In a list in first-seen order, an earlier first occurrence means an earlier position. */
  lemma OrderedPositions(cs: seq<string>, ws: seq<string>, a: nat, b: nat)
    requires InFirstSeenOrder(cs, ws) && a < |cs| && b < |cs|
    requires FirstIndex(ws, cs[a]) < FirstIndex(ws, cs[b])
    ensures a < b
  {
  }

  lemma WinnerEarliest(ws: seq<string>, K: int, i: nat)
    requires i < |ws| && Qualifies(ws, K, ws[i])
    requires Winner(ws, K).0 in ws && i < FirstIndex(ws, Winner(ws, K).0)
    ensures Count(ws, ws[i]) < Winner(ws, K).1
  {
    var cs := Qualified(FirstSeen(ws), ws, K);
    assert ws[i] in cs;
    var k := BestIndex(cs, ws);
    var m :| 0 <= m < |cs| && cs[m] == ws[i];
    assert FirstIndex(ws, cs[m]) <= i;
    FirstSeenOrder(ws);
    QualifiedOrder(FirstSeen(ws), ws, K);
    OrderedPositions(cs, ws, m, k);
  }

  /** Nothing is reported exactly when no window qualifies; in particular for a text shorter than `L`. */
  lemma NgramNothing(text: string, L: nat, K: int)
    ensures var ws := Windows(text, L);
      NgramRepeat(text, L, K) == ("", 0) <==> forall i :: 0 <= i < |ws| ==> !Qualifies(ws, K, ws[i])
    ensures |text| < L ==> NgramRepeat(text, L, K) == ("", 0)
  {
    WinnerNothing(Windows(text, L), K);
  }

  /** A reported window is a length-`L` slice of the text, repeated at least `K` times, with more than three distinct characters. */
  lemma NgramFound(text: string, L: nat, K: int)
    requires NgramRepeat(text, L, K) != ("", 0)
    ensures var (s, n) := NgramRepeat(text, L, K);
      s in Windows(text, L) && |s| == L &&
      n == Count(Windows(text, L), s) && n >= K && |Chars(s)| > 3
  {
    var ws := Windows(text, L);
    WinnerFound(ws, K);
    var i :| 0 <= i < |ws| && ws[i] == Winner(ws, K).0;
  }

  /** No qualifying window is repeated more often than the reported one. */
  lemma NgramMaximal(text: string, L: nat, K: int, s: string)
    requires s in Windows(text, L) && Qualifies(Windows(text, L), K, s)
    ensures Count(Windows(text, L), s) <= NgramRepeat(text, L, K).1
  {
    WinnerMaximal(Windows(text, L), K, s);
  }

  /** Ties go to the window that occurs first. */
  lemma NgramEarliest(text: string, L: nat, K: int, i: nat)
    requires var ws := Windows(text, L);
      i < |ws| && Qualifies(ws, K, ws[i]) &&
      NgramRepeat(text, L, K).0 in ws && i < FirstIndex(ws, NgramRepeat(text, L, K).0)
    ensures Count(Windows(text, L), text[i..i + L]) < NgramRepeat(text, L, K).1
  {
    WinnerEarliest(Windows(text, L), K, i);
  }

  // ---------------------------------------------------------------- human_duration

  /** The unit letters of `human_duration`, largest unit first. */
  const UnitNames: string := "wdhms"

  /** The length of each unit in seconds, in the same order. */
  const UnitSeconds: seq<nat> := [604800, 86400, 3600, 60, 1]

  /**
   * The entry `segments[name]` of the source for integer seconds: the
   * integer part of the remaining time in this unit, and what is left
   * below it (the fractional part is `whole + rest / unit`).
   */
  datatype Segment = Segment(whole: nat, rest: nat)

  /**
   * One rendered part. `Exact` is printed as the integer and the unit
   * letter; `Rounded` is printed with one decimal of `count + rest / unit`.
   * `unit` indexes `UnitNames`.
   */
  datatype Part = Exact(count: nat, unit: nat) | Rounded(count: nat, rest: nat, unit: nat)

  /** The segments of the units from `j` on, starting from the remainder `rem`. */
  function SegmentsFrom(rem: nat, j: nat): (r: seq<Segment>)
    requires j <= 5
    ensures |r| == 5 - j
    decreases 5 - j
  {
    if j == 5 then []
    else [Segment(rem / UnitSeconds[j], rem % UnitSeconds[j])] + SegmentsFrom(rem % UnitSeconds[j], j + 1)
  }

  /** The seconds the segments stand for, the first of them counted in unit `j`. */
  function Weighted(segs: seq<Segment>, j: nat): int
    requires j + |segs| <= 5
  {
    if segs == [] then 0 else segs[0].whole * UnitSeconds[j] + Weighted(segs[1..], j + 1)
  }

  lemma {:induction false} WeightedSegments(rem: nat, j: nat)
    requires j < 5
    ensures Weighted(SegmentsFrom(rem, j), j) == rem
    decreases 5 - j
  {
    var u := UnitSeconds[j];
    var s := SegmentsFrom(rem, j);
    assert s[1..] == SegmentsFrom(rem % u, j + 1);
    if j < 4 {
      WeightedSegments(rem % u, j + 1);
    } else {
      assert u == 1;
    }
  }

  lemma WeightedFive(s: seq<Segment>)
    requires |s| == 5
    ensures Weighted(s, 0) == s[0].whole * 604800 + s[1].whole * 86400 + s[2].whole * 3600 + s[3].whole * 60 + s[4].whole
  {
    assert Weighted(s[4..], 4) == s[4].whole by {
      assert s[4..][1..] == [];
    }
    assert Weighted(s[3..], 3) == s[3].whole * 60 + Weighted(s[4..], 4) by {
      assert s[3..][1..] == s[4..];
    }
    assert Weighted(s[2..], 2) == s[2].whole * 3600 + Weighted(s[3..], 3) by {
      assert s[2..][1..] == s[3..];
    }
    assert Weighted(s[1..], 1) == s[1].whole * 86400 + Weighted(s[2..], 2) by {
      assert s[1..][1..] == s[2..];
    }
  }

  /** The integer parts of the five units add up to the given seconds, and each is below the next larger unit. */
  lemma DurationUnits(seconds: nat)
    ensures var s := SegmentsFrom(seconds, 0);
      s[0].whole * 604800 + s[1].whole * 86400 + s[2].whole * 3600 + s[3].whole * 60 + s[4].whole == seconds &&
      s[1].whole < 7 && s[2].whole < 24 && s[3].whole < 60 && s[4].whole < 60
  {
    var s := SegmentsFrom(seconds, 0);
    WeightedSegments(seconds, 0);
    WeightedFive(s);
    var r0 := seconds % 604800;
    assert s[1] == Segment(r0 / 86400, r0 % 86400);
    var r1 := r0 % 86400;
    assert s[2] == Segment(r1 / 3600, r1 % 3600);
    var r2 := r1 % 3600;
    assert s[3] == Segment(r2 / 60, r2 % 60);
    assert s[4].whole == r2 % 60;
  }

  /** One turn of the first loop: `rem -= int_part * unit_seconds` leaves the remainder. */
  lemma SegmentStep(rem: nat, j: nat)
    requires j < 5
    ensures rem - (rem / UnitSeconds[j]) * UnitSeconds[j] == rem % UnitSeconds[j]
    ensures SegmentsFrom(rem, j) == [Segment(rem / UnitSeconds[j], rem % UnitSeconds[j])] + SegmentsFrom(rem % UnitSeconds[j], j + 1)
  {
  }

  lemma {:induction false} ZeroSegments(j: nat)
    requires j <= 5
    ensures forall i :: 0 <= i < 5 - j ==> SegmentsFrom(0, j)[i].whole == 0
    decreases 5 - j
  {
    if j < 5 {
      ZeroSegments(j + 1);
      assert SegmentsFrom(0, j) == [Segment(0, 0)] + SegmentsFrom(0, j + 1);
    }
  }

  /** The selection loop from unit `j` on, with `count` parts already taken. */
  function SelectFrom(segs: seq<Segment>, j: nat, count: int, significance: int): seq<Part>
    requires |segs| == 5 && j <= 5
    decreases 5 - j
  {
    if j == 5 then []
    else if segs[j].whole > 0 && count < significance then
      var p := if count < significance - 1 then Exact(segs[j].whole, j) else Rounded(segs[j].whole, segs[j].rest, j);
      [p] + SelectFrom(segs, j + 1, count + 1, significance)
    else SelectFrom(segs, j + 1, count, significance)
  }

  /** The parts `human_duration(seconds, significance)` prints, for integer seconds. */
  function DurationParts(seconds: nat, significance: int): seq<Part>
  {
    var p := SelectFrom(SegmentsFrom(seconds, 0), 0, 0, significance);
    if p != [] then p
    else if significance == 1 then [Rounded(seconds, 0, 4)]
    else [Exact(seconds, 4)]
  }

  /** The units, from `j` on, whose integer part is not zero. */
  function NonZeroFrom(segs: seq<Segment>, j: nat): (r: seq<nat>)
    requires |segs| == 5 && j <= 5
    ensures forall i :: 0 <= i < |r| ==> j <= r[i] < 5 && segs[r[i]].whole > 0
    ensures forall i, i' :: 0 <= i < i' < |r| ==> r[i] < r[i']
    ensures forall k :: j <= k < 5 && segs[k].whole > 0 ==> k in r
    decreases 5 - j
  {
    if j == 5 then []
    else if segs[j].whole > 0 then [j] + NonZeroFrom(segs, j + 1)
    else NonZeroFrom(segs, j + 1)
  }

  function Min(a: int, b: int): int
  {
    if a <= b then a else b
  }

  /** How many parts the selection loop takes from unit `j` on, with `count` parts already taken. */
  function Taken(segs: seq<Segment>, j: nat, count: nat, significance: int): int
    requires |segs| == 5 && j <= 5
  {
    if significance <= count then 0 else Min(significance - count, |NonZeroFrom(segs, j)|)
  }

  lemma {:induction false} SelectFromLength(segs: seq<Segment>, j: nat, count: nat, significance: int)
    requires |segs| == 5 && j <= 5
    ensures |SelectFrom(segs, j, count, significance)| == Taken(segs, j, count, significance)
    decreases 5 - j
  {
    if j < 5 {
      if segs[j].whole > 0 && count < significance {
        SelectFromLength(segs, j + 1, count + 1, significance);
        assert NonZeroFrom(segs, j) == [j] + NonZeroFrom(segs, j + 1);
      } else {
        SelectFromLength(segs, j + 1, count, significance);
      }
    }
  }

  /** Once `significance` parts are taken, the loop takes no more. */
  lemma {:induction false} SelectFromSaturated(segs: seq<Segment>, j: nat, count: nat, significance: int)
    requires |segs| == 5 && j <= 5 && significance <= count
    ensures SelectFrom(segs, j, count, significance) == []
    decreases 5 - j
  {
    if j < 5 {
      SelectFromSaturated(segs, j + 1, count, significance);
    }
  }

  lemma {:induction false} SelectFromUnitAt(segs: seq<Segment>, j: nat, count: nat, significance: int, i: nat)
    requires |segs| == 5 && j <= 5 && count < significance && i < |SelectFrom(segs, j, count, significance)|
    ensures i < |NonZeroFrom(segs, j)|
    ensures SelectFrom(segs, j, count, significance)[i].unit == NonZeroFrom(segs, j)[i]
    ensures SelectFrom(segs, j, count, significance)[i].count == segs[NonZeroFrom(segs, j)[i]].whole
    decreases 5 - j
  {
    if segs[j].whole > 0 {
      SelectFromTakes(segs, j, count, significance);
      if i > 0 {
        if significance <= count + 1 {
          SelectFromSaturated(segs, j + 1, count + 1, significance);
        }
        SelectFromUnitAt(segs, j + 1, count + 1, significance, i - 1);
      }
    } else {
      SelectFromSkips(segs, j, count, significance);
      SelectFromUnitAt(segs, j + 1, count, significance, i);
    }
  }

  /** A unit with a non-zero integer part is taken, with its own count, while parts remain. */
  lemma SelectFromTakes(segs: seq<Segment>, j: nat, count: nat, significance: int)
    requires |segs| == 5 && j < 5 && segs[j].whole > 0 && count < significance
    ensures NonZeroFrom(segs, j) == [j] + NonZeroFrom(segs, j + 1)
    ensures var p := SelectFrom(segs, j, count, significance);
      |p| > 0 && p[0].unit == j && p[0].count == segs[j].whole
      && p[1..] == SelectFrom(segs, j + 1, count + 1, significance)
  {
  }

  /** A unit whose integer part is zero is skipped. */
  lemma SelectFromSkips(segs: seq<Segment>, j: nat, count: nat, significance: int)
    requires |segs| == 5 && j < 5 && segs[j].whole == 0
    ensures NonZeroFrom(segs, j) == NonZeroFrom(segs, j + 1)
    ensures SelectFrom(segs, j, count, significance) == SelectFrom(segs, j + 1, count, significance)
  {
  }

  lemma SelectFromUnits(segs: seq<Segment>, j: nat, count: nat, significance: int)
    requires |segs| == 5 && j <= 5
    ensures |SelectFrom(segs, j, count, significance)| == Taken(segs, j, count, significance)
    ensures forall i :: 0 <= i < Taken(segs, j, count, significance) ==>
      SelectFrom(segs, j, count, significance)[i].unit == NonZeroFrom(segs, j)[i] &&
      SelectFrom(segs, j, count, significance)[i].count == segs[NonZeroFrom(segs, j)[i]].whole
  {
    SelectFromLength(segs, j, count, significance);
    forall i | 0 <= i < Taken(segs, j, count, significance)
      ensures SelectFrom(segs, j, count, significance)[i].unit == NonZeroFrom(segs, j)[i]
      ensures SelectFrom(segs, j, count, significance)[i].count == segs[NonZeroFrom(segs, j)[i]].whole
    {
      SelectFromUnitAt(segs, j, count, significance, i);
    }
  }

  lemma {:induction false} SelectFromKinds(segs: seq<Segment>, j: nat, count: nat, significance: int)
    requires |segs| == 5 && j <= 5
    ensures forall i :: 0 <= i < |SelectFrom(segs, j, count, significance)| ==>
      (SelectFrom(segs, j, count, significance)[i].Rounded? <==> count + i == significance - 1)
    decreases 5 - j
  {
    if j < 5 {
      if segs[j].whole > 0 && count < significance {
        SelectFromKinds(segs, j + 1, count + 1, significance);
      } else {
        SelectFromKinds(segs, j + 1, count, significance);
      }
    }
  }

  lemma {:induction false} WeightedZero(segs: seq<Segment>, j: nat)
    requires j + |segs| <= 5
    requires forall i :: 0 <= i < |segs| ==> segs[i].whole == 0
    ensures Weighted(segs, j) == 0
  {
    if segs != [] {
      WeightedZero(segs[1..], j + 1);
    }
  }

  /** The units whose integer part is not zero, largest first. */
  function NonZeroUnits(seconds: nat): seq<nat>
  {
    NonZeroFrom(SegmentsFrom(seconds, 0), 0)
  }

  /**
   * With a positive significance and a positive number of seconds,
   * `human_duration` prints the first `significance` units whose integer
   * part is not zero, largest first, all exact except the one in position
   * `significance`, which is rounded.
   */
  lemma DurationSelected(seconds: nat, significance: int)
    requires seconds > 0 && significance >= 1
    ensures |DurationParts(seconds, significance)| == Min(significance, |NonZeroUnits(seconds)|)
    ensures 1 <= |DurationParts(seconds, significance)| <= significance
    ensures forall i :: 0 <= i < |DurationParts(seconds, significance)| ==>
      DurationParts(seconds, significance)[i].unit == NonZeroUnits(seconds)[i] &&
      DurationParts(seconds, significance)[i].count == SegmentsFrom(seconds, 0)[NonZeroUnits(seconds)[i]].whole > 0
    ensures forall i :: 0 <= i < |DurationParts(seconds, significance)| ==>
      (DurationParts(seconds, significance)[i].Rounded? <==> i == significance - 1)
  {
    SomeUnitNonZero(seconds);
    SelectedParts(SegmentsFrom(seconds, 0), significance);
  }

  /** The selection over any five segments with a non-zero unit. */
  lemma SelectedParts(segs: seq<Segment>, significance: int)
    requires |segs| == 5 && NonZeroFrom(segs, 0) != [] && significance >= 1
    ensures var p := SelectFrom(segs, 0, 0, significance);
      && p != []
      && |p| == Min(significance, |NonZeroFrom(segs, 0)|)
      && |p| <= significance
      && (forall i :: 0 <= i < |p| ==> p[i].unit == NonZeroFrom(segs, 0)[i] && p[i].count == segs[NonZeroFrom(segs, 0)[i]].whole > 0)
      && (forall i :: 0 <= i < |p| ==> (p[i].Rounded? <==> i == significance - 1))
  {
    SelectFromUnits(segs, 0, 0, significance);
    SelectFromKinds(segs, 0, 0, significance);
  }

  /** Zero seconds, or a significance below one, give the single fallback part in seconds. */
  lemma DurationFallback(seconds: nat, significance: int)
    requires seconds == 0 || significance < 1
    ensures DurationParts(seconds, significance) == if significance == 1 then [Rounded(seconds, 0, 4)] else [Exact(seconds, 4)]
  {
    SelectFromUnits(SegmentsFrom(seconds, 0), 0, 0, significance);
    if seconds == 0 {
      NoUnitNonZero();
    }
  }

  lemma SomeUnitNonZero(seconds: nat)
    requires seconds > 0
    ensures NonZeroFrom(SegmentsFrom(seconds, 0), 0) != []
  {
    var segs := SegmentsFrom(seconds, 0);
    WeightedSegments(seconds, 0);
    if forall i :: 0 <= i < |segs| ==> segs[i].whole == 0 {
      WeightedZero(segs, 0);
    }
  }

  lemma NoUnitNonZero()
    ensures NonZeroFrom(SegmentsFrom(0, 0), 0) == []
  {
    ZeroSegments(0);
  }

  /** `human_duration(0)` is `0s`, with significance 1 it is `0.0s`, and 65 seconds are `1m 5s`. */
  lemma DurationExamples()
    ensures DurationParts(0, 2) == [Exact(0, 4)]
    ensures DurationParts(0, 1) == [Rounded(0, 0, 4)]
    ensures DurationParts(65, 5) == [Exact(1, 3), Exact(5, 4)]
  {
    var segs := SegmentsFrom(65, 0);
    assert segs == [Segment(0, 65), Segment(0, 65), Segment(0, 65), Segment(1, 5), Segment(5, 0)];
  }

  /** Every part is exact and names one of the five units. */
  predicate AllExact(parts: seq<Part>)
  {
    forall i :: 0 <= i < |parts| ==> parts[i].Exact? && parts[i].unit < 5
  }

  /** `f"{int_part}{name}"` for each exact part. */
  function PartTexts(parts: seq<Part>): (r: seq<string>)
    requires AllExact(parts)
    ensures |r| == |parts|
  {
    if parts == [] then []
    else [NatToString(parts[0].count) + [UnitNames[parts[0].unit]]] + PartTexts(parts[1..])
  }

  /** The text of the exact parts, joined by spaces; `None` when a part is rounded (its one-decimal float is not modelled). */
  function Render(parts: seq<Part>): (r: Option<string>)
    ensures r.Some? <==> AllExact(parts)
  {
    if AllExact(parts) then Some(Join(" ", PartTexts(parts))) else None
  }

  /** The printed forms `0s` and `1m 5s`. */
  lemma RenderExamples()
    ensures Render([Exact(0, 4)]) == Some("0s")
    ensures Render([Exact(1, 3), Exact(5, 4)]) == Some("1m 5s")
  {
    assert NatToString(0) == "0" && NatToString(1) == "1" && NatToString(5) == "5";
    assert UnitNames[3] == 'm' && UnitNames[4] == 's';
    assert NatToString(1) + [UnitNames[3]] == "1m";
    assert NatToString(5) + [UnitNames[4]] == "5s";
    assert NatToString(0) + [UnitNames[4]] == "0s";
    var two := [Exact(1, 3), Exact(5, 4)];
    var last := [Exact(5, 4)];
    assert two[1..] == last && last[1..] == [];
    assert PartTexts(last) == ["5s"];
    assert PartTexts(two) == ["1m"] + PartTexts(last);
    JoinCons(" ", "1m", ["5s"]);
    assert Join(" ", ["5s"]) == "5s";
    assert "1m" + " " + "5s" == "1m 5s";
    assert Join(" ", PartTexts(two)) == "1m 5s";
    var zero := [Exact(0, 4)];
    assert zero[1..] == [];
    assert PartTexts(zero) == ["0s"];
  }

  /** The first loop of `human_duration`: the segment of every unit. */
  method UnitSegments(seconds: nat) returns (segments: seq<Segment>)
    ensures segments == SegmentsFrom(seconds, 0)
  {
    segments := [];
    var rem: nat := seconds;
    for j := 0 to 5
      invariant |segments| == j
      invariant segments + SegmentsFrom(rem, j) == SegmentsFrom(seconds, 0)
    {
      var u := UnitSeconds[j];
      var intPart := rem / u;
      SegmentStep(rem, j);
      assert segments + SegmentsFrom(rem, j) == (segments + [Segment(intPart, rem % u)]) + SegmentsFrom(rem % u, j + 1);
      segments := segments + [Segment(intPart, rem % u)];
      rem := rem - intPart * u;
    }
  }

  /** One pass of the second loop of `human_duration`, at unit `j`. */
  method SelectUnit(segments: seq<Segment>, j: nat, parts: seq<Part>, count: int, significance: int)
    returns (parts': seq<Part>, count': int)
    requires |segments| == 5 && j < 5
    ensures parts' + SelectFrom(segments, j + 1, count', significance) == parts + SelectFrom(segments, j, count, significance)
  {
    var seg := segments[j];
    parts', count' := parts, count;
    if seg.whole > 0 && count < significance {
      var p;
      if count < significance - 1 {
        p := Exact(seg.whole, j);
      } else {
        p := Rounded(seg.whole, seg.rest, j);
      }
      assert SelectFrom(segments, j, count, significance) == [p] + SelectFrom(segments, j + 1, count + 1, significance);
      assert (parts + [p]) + SelectFrom(segments, j + 1, count + 1, significance)
        == parts + ([p] + SelectFrom(segments, j + 1, count + 1, significance));
      parts' := parts + [p];
      count' := count + 1;
    }
  }

  /** The second loop of `human_duration`: up to `significance` non-zero units. */
  method SelectParts(segments: seq<Segment>, significance: int) returns (parts: seq<Part>)
    requires |segments| == 5
    ensures parts == SelectFrom(segments, 0, 0, significance)
  {
    parts := [];
    var count := 0;
    for j := 0 to 5
      invariant parts + SelectFrom(segments, j, count, significance) == SelectFrom(segments, 0, 0, significance)
    {
      parts, count := SelectUnit(segments, j, parts, count, significance);
    }
  }

  /**
   * `human_duration(seconds, significance)` for integer seconds, with the
   * fallback to seconds when no unit was selected.
   */
  method HumanDuration(seconds: nat, significance: int) returns (parts: seq<Part>)
    ensures parts == DurationParts(seconds, significance)
  {
    var segments := UnitSegments(seconds);
    parts := SelectParts(segments, significance);
    if parts == [] {
      if significance == 1 {
        parts := [Rounded(seconds, 0, 4)];
      } else {
        parts := [Exact(seconds, 4)];
      }
    }
  }
}
