/** The answer-extraction engine (lib/quizzinator/answers.py): the code tables and the
    consistency evaluators, the two pattern folds, the template-priority extractor and the
    per-mode resolver that records failed extractions in a log. */
module Answers {
  import opened Text

  /** The exceptions the module raises. */
  datatype Error =
    | UnknownGender(code: string)   // ValueError, unknown gender code
    | UnknownRole(code: string)     // ValueError, unknown role code
    | IllegalRoleValue              // ValueError, a name outside the role groups
    | UnknownMode(mode: string)     // ValueError, unknown answer mode
    | DatetimeUndefined             // NameError: `datetime` is used but never imported

  // ================================================================ code tables

  const GenderNames: map<string, string> := map[
    "1" := "Man", "2" := "Woman", "3" := "Non Binary", "4" := "Trans woman",
    "5" := "Trans man", "6" := "Gender - nonconforming", "7" := "Genderfluid",
    "8" := "Genderqueer", "9" := "Two - spirit", "10" := "Intersex", "11" := "Agender",
    "12" := "Other"]

  const RoleNames: map<string, string> := map[
    "1" := "Top", "2" := "Bottom", "3" := "Switch", "4" := "Sadist", "5" := "Masochist",
    "6" := "Master", "7" := "Slave", "8" := "Dominant", "9" := "Submissive", "10" := "Other"]

  /** A code is looked up after stripping: blank means "no answer" (None), a code of the
      table gives its name, anything else is an error naming the stripped code. */
  function LookupCode(table: map<string, string>, code: string, unknown: string -> Error): (r: Result<Option<string>, Error>)
    ensures r == Ok(None) <==> Strip(code) == ""
    ensures (r.Ok? && r.value.Some?) <==> (Strip(code) != "" && Strip(code) in table)
    ensures r.Ok? && r.value.Some? ==> r.value.value == table[Strip(code)]
    ensures r.Err? ==> r.error == unknown(Strip(code))
  {
    var c := Strip(code);
    if c == "" then Ok(None)
    else if c in table then Ok(Some(table[c]))
    else Err(unknown(c))
  }

  /** `gender_rule_numbers_to_names` */
  function GenderName(code: string): Result<Option<string>, Error>
  {
    LookupCode(GenderNames, code, c => UnknownGender(c))
  }

  /** `role_rule_numbers_to_names` */
  function RoleName(code: string): Result<Option<string>, Error>
  {
    LookupCode(RoleNames, code, c => UnknownRole(c))
  }

  /** A list comprehension over codes: the first failing code raises. */
  function MapCodes(codes: seq<string>, f: string -> Result<Option<string>, Error>): (r: Result<seq<Option<string>>, Error>)
    ensures r.Ok? ==> |r.value| == |codes| && forall i :: 0 <= i < |codes| ==> f(codes[i]) == Ok(r.value[i])
    ensures r.Err? ==> exists i :: 0 <= i < |codes| && f(codes[i]) == Err(r.error) && forall j :: 0 <= j < i ==> f(codes[j]).Ok?
    ensures r.Ok? <==> forall i :: 0 <= i < |codes| ==> f(codes[i]).Ok?
  {
    if |codes| == 0 then Ok([])
    else match f(codes[0])
      case Err(e) => Err(e)
      case Ok(v) =>
        match MapCodes(codes[1..], f)
        case Err(e) =>
          var i :| 0 <= i < |codes[1..]| && f(codes[1..][i]) == Err(e) && forall j :: 0 <= j < i ==> f(codes[1..][j]).Ok?;
          assert f(codes[i + 1]) == Err(e);
          Err(e)
        case Ok(vs) => Ok([v] + vs)
  }

  datatype Consistency = Exact | Concordant | Discordant

  /** `evaluate_gender_consistency`: exact iff the two mapped sequences (input order,
      blanks kept as None) are equal; there is no concordant tier. */
  function EvaluateGenderConsistency(hint: seq<string>, response: seq<string>): (r: Result<Consistency, Error>)
    ensures r.Ok? <==> MapCodes(hint, GenderName).Ok? && MapCodes(response, GenderName).Ok?
    ensures r == Ok(Exact) <==> (MapCodes(hint, GenderName).Ok? && MapCodes(response, GenderName) == Ok(MapCodes(hint, GenderName).value))
    ensures r.Ok? ==> r.value != Concordant
  {
    match MapCodes(hint, GenderName)
    case Err(e) => Err(e)
    case Ok(h) =>
      match MapCodes(response, GenderName)
      case Err(e) => Err(e)
      case Ok(s) => if h == s then Ok(Exact) else Ok(Discordant)
  }

  /** Where a role name leans: 'L', 'r', '/' and '?' in the source's group table. */
  datatype Leaning = Leader | Follower | Switcher | Unstated

  const RoleGroups: map<string, Leaning> := map[
    "Master" := Leader, "Top" := Leader, "Dominant" := Leader, "Sadist" := Leader,
    "Slave" := Follower, "Bottom" := Follower, "Submissive" := Follower, "Masochist" := Follower,
    "Switch" := Switcher, "Other" := Unstated]

  /** The kind a set of role names reduces to: '/', 'L', 'r' or ''. */
  datatype RoleKind = Both | Leads | Follows | NoKind

  predicate HasLeaning(names: seq<Option<string>>, g: Leaning)
  {
    exists i :: 0 <= i < |names| && names[i].Some? && names[i].value in RoleGroups && RoleGroups[names[i].value] == g
  }

  predicate AllGrouped(names: seq<Option<string>>)
  {
    forall i :: 0 <= i < |names| ==> names[i].Some? && names[i].value in RoleGroups
  }

  /** The set of groups the names fall in, or None when one of them has no group. */
  function Leanings(names: seq<Option<string>>): (r: Option<set<Leaning>>)
  {
    if |names| == 0 then Some({})
    else if names[0].None? || names[0].value !in RoleGroups then None
    else match Leanings(names[1..])
      case None => None
      case Some(t) => Some({RoleGroups[names[0].value]} + t)
  }

  lemma {:induction false} LeaningsSpec(names: seq<Option<string>>)
    ensures Leanings(names).Some? <==> AllGrouped(names)
    ensures Leanings(names).Some? ==> forall g :: g in Leanings(names).value <==> HasLeaning(names, g)
  {
    if |names| > 0 {
      LeaningsSpec(names[1..]);
      if Leanings(names).Some? {
        forall g ensures g in Leanings(names).value <==> HasLeaning(names, g) {
          if HasLeaning(names[1..], g) {
            var i :| 0 <= i < |names[1..]| && names[1..][i].Some? && names[1..][i].value in RoleGroups && RoleGroups[names[1..][i].value] == g;
            assert names[i + 1] == names[1..][i];
          }
          if HasLeaning(names, g) {
            var i :| 0 <= i < |names| && names[i].Some? && names[i].value in RoleGroups && RoleGroups[names[i].value] == g;
            if i > 0 { assert names[1..][i - 1] == names[i]; }
          }
        }
      } else if AllGrouped(names[1..]) {
        assert !AllGrouped(names);
      } else {
        var i :| 0 <= i < |names[1..]| && !(names[1..][i].Some? && names[1..][i].value in RoleGroups);
        assert names[i + 1] == names[1..][i];
      }
    }
  }

  /** `evaluate_role_consistency_which` */
  function RoleKindOf(names: seq<Option<string>>): (r: Result<RoleKind, Error>)
  {
    match Leanings(names)
    case None => Err(IllegalRoleValue)
    case Some(t) =>
      var t' := if Leader in t && Follower in t then t + {Switcher} else t;
      if Switcher in t' then Ok(Both)
      else if Leader in t' then Ok(Leads)
      else if Follower in t' then Ok(Follows)
      else Ok(NoKind)
  }

  /** The kind in terms of the names: a Switch, or a leader together with a follower,
      is "both"; only leaders or only followers give that side; only Other (or nothing)
      gives the empty kind; a name outside the groups (or a blank code) raises. */
  lemma RoleKindOfSpec(names: seq<Option<string>>)
    ensures RoleKindOf(names).Err? <==> !AllGrouped(names)
    ensures RoleKindOf(names) == Ok(Both) <==>
      AllGrouped(names) && (HasLeaning(names, Switcher) || (HasLeaning(names, Leader) && HasLeaning(names, Follower)))
    ensures RoleKindOf(names) == Ok(Leads) <==>
      AllGrouped(names) && HasLeaning(names, Leader) && !HasLeaning(names, Follower) && !HasLeaning(names, Switcher)
    ensures RoleKindOf(names) == Ok(Follows) <==>
      AllGrouped(names) && HasLeaning(names, Follower) && !HasLeaning(names, Leader) && !HasLeaning(names, Switcher)
    ensures RoleKindOf(names) == Ok(NoKind) <==>
      AllGrouped(names) && !HasLeaning(names, Leader) && !HasLeaning(names, Follower) && !HasLeaning(names, Switcher)
  {
    LeaningsSpec(names);
  }

  /** `[role_rule_numbers_to_names(n) for n in codes if n is not '']` */
  function NamedRoles(codes: seq<string>): Result<seq<Option<string>>, Error>
  {
    MapCodes(NonEmpty(codes), RoleName)
  }

  /** `evaluate_role_consistency`: exact iff the mapped name sequences are equal;
      otherwise concordant iff both sides reduce to the same kind and discordant iff they
      reduce to different kinds; a failing lookup or classification raises. */
  function EvaluateRoleConsistency(hint: seq<string>, response: seq<string>): (r: Result<Consistency, Error>)
    ensures var h := NamedRoles(hint);
      var s := NamedRoles(response);
      && (r == Ok(Exact) <==> h.Ok? && s == h)
      && (r == Ok(Concordant) <==> h.Ok? && s.Ok? && s != h && RoleKindOf(h.value).Ok? && RoleKindOf(s.value) == RoleKindOf(h.value))
      && (r == Ok(Discordant) <==> h.Ok? && s.Ok? && s != h && RoleKindOf(h.value).Ok? && RoleKindOf(s.value).Ok? && RoleKindOf(s.value) != RoleKindOf(h.value))
  {
    match NamedRoles(hint)
    case Err(e) => Err(e)
    case Ok(h) =>
      match NamedRoles(response)
      case Err(e) => Err(e)
      case Ok(s) =>
        if h == s then Ok(Exact)
        else match RoleKindOf(h)
          case Err(e) => Err(e)
          case Ok(hk) =>
            match RoleKindOf(s)
            case Err(e) => Err(e)
            case Ok(sk) => if hk == sk then Ok(Concordant) else Ok(Discordant)
  }

  /** Both evaluators are symmetric in their two arguments whenever neither raises. */
  lemma GenderConsistencySymmetric(a: seq<string>, b: seq<string>)
    requires EvaluateGenderConsistency(a, b).Ok?
    ensures EvaluateGenderConsistency(b, a) == EvaluateGenderConsistency(a, b)
  {
    var h, r := MapCodes(a, GenderName), MapCodes(b, GenderName);
    assert h.Ok? && r.Ok?;
    if h.value == r.value {
      assert EvaluateGenderConsistency(b, a) == Ok(Exact);
    } else {
      assert EvaluateGenderConsistency(b, a) == Ok(Discordant);
    }
  }

  lemma RoleConsistencySymmetric(a: seq<string>, b: seq<string>)
    requires EvaluateRoleConsistency(a, b).Ok? && EvaluateRoleConsistency(b, a).Ok?
    ensures EvaluateRoleConsistency(b, a) == EvaluateRoleConsistency(a, b)
  {
  }

  lemma RoleOfSingleCode(c: string, name: string)
    requires |c| > 0 && NoSpace(c) && c in RoleNames && RoleNames[c] == name
    ensures NamedRoles([c]) == Ok([Some(name)])
  {
    StripNoSpace(c);
    assert [c][1..] == [];
    assert NonEmpty([c]) == [c];
    var r := MapCodes([c], RoleName);
    assert RoleName([c][0]) == Ok(Some(name));
    assert r.Ok? && |r.value| == 1 && r.value[0] == Some(name);
    assert r.value == [Some(name)];
  }

  lemma LeaningOfOne(name: string)
    requires name in RoleGroups
    ensures Leanings([Some(name)]) == Some({RoleGroups[name]})
  {
    var n := [Some(name)];
    assert n[1..] == [];
    assert Leanings(n[1..]) == Some({});
    assert {RoleGroups[name]} + {} == {RoleGroups[name]};
  }

  /** Top (1) against Dominant (8) is concordant; Top against Slave (7) is discordant. */
  lemma RoleConsistencyExamples()
    ensures EvaluateRoleConsistency(["1"], ["8"]) == Ok(Concordant)
    ensures EvaluateRoleConsistency(["1"], ["7"]) == Ok(Discordant)
  {
    TopAgainstDominant();
    TopAgainstSlave();
  }

  lemma TopAgainstDominant()
    ensures EvaluateRoleConsistency(["1"], ["8"]) == Ok(Concordant)
  {
    RoleOfSingleCode("1", "Top");
    RoleOfSingleCode("8", "Dominant");
    LeaningOfOne("Top");
    LeaningOfOne("Dominant");
    assert RoleKindOf([Some("Top")]) == Ok(Leads);
    assert RoleKindOf([Some("Dominant")]) == Ok(Leads);
  }

  lemma TopAgainstSlave()
    ensures EvaluateRoleConsistency(["1"], ["7"]) == Ok(Discordant)
  {
    RoleOfSingleCode("1", "Top");
    RoleOfSingleCode("7", "Slave");
    LeaningOfOne("Top");
    LeaningOfOne("Slave");
    assert RoleKindOf([Some("Top")]) == Ok(Leads);
    assert RoleKindOf([Some("Slave")]) == Ok(Follows);
  }

  // ================================================================ pattern folds

  /** One item of `re.findall`: a whole-match string (no or one group), or the tuple of
      groups of a pattern with several groups. */
  datatype Match = Whole(s: string) | Groups(gs: seq<string>)

  /** `re.findall(regex, text, re.IGNORECASE | re.MULTILINE)`, supplied by the caller:
      the regular-expression engine is not modelled. */
  type FindAll = (string, string) -> seq<Match>

  /** `filter(None, m)` / `[g for g in m if g]`: the non-empty groups, in order. */
  function NonEmpty(gs: seq<string>): (r: seq<string>)
    ensures forall i :: 0 <= i < |r| ==> r[i] != "" && r[i] in gs
    ensures forall g :: g in gs && g != "" ==> g in r
  {
    if |gs| == 0 then [] else (if gs[0] == "" then [] else [gs[0]]) + NonEmpty(gs[1..])
  }

  /** The positions of the non-empty items of `gs`, in increasing order. */
  ghost function Kept(gs: seq<string>): seq<nat>
  {
    if |gs| == 0 then []
    else
      var rest := Kept(gs[1..]);
      (if gs[0] == "" then [] else [0]) + seq(|rest|, k requires 0 <= k < |rest| => rest[k] + 1)
  }

  /** The filter keeps the non-empty items in order: it is the subsequence of `gs` at
      exactly the positions that hold a non-empty string. */
  lemma NonEmptyPositions(gs: seq<string>) returns (idx: seq<nat>)
    ensures |idx| == |NonEmpty(gs)|
    ensures forall k :: 0 <= k < |idx| ==> idx[k] < |gs| && NonEmpty(gs)[k] == gs[idx[k]]
    ensures forall k, k' :: 0 <= k < k' < |idx| ==> idx[k] < idx[k']
    ensures forall j :: 0 <= j < |gs| && gs[j] != "" ==> j in idx
  {
    idx := Kept(gs);
    KeptPicks(gs);
    KeptIncreasing(gs);
    KeptComplete(gs);
  }

  lemma {:induction false} KeptLength(gs: seq<string>)
    ensures |Kept(gs)| == |NonEmpty(gs)|
  {
    if |gs| > 0 {
      KeptLength(gs[1..]);
    }
  }

  lemma KeptPicks(gs: seq<string>)
    ensures |Kept(gs)| == |NonEmpty(gs)|
    ensures forall k :: 0 <= k < |Kept(gs)| ==> Kept(gs)[k] < |gs| && NonEmpty(gs)[k] == gs[Kept(gs)[k]]
  {
    KeptLength(gs);
    forall k | 0 <= k < |Kept(gs)| ensures Kept(gs)[k] < |gs| && NonEmpty(gs)[k] == gs[Kept(gs)[k]] {
      KeptAt(gs, k);
    }
  }

  lemma {:induction false} KeptAt(gs: seq<string>, k: nat)
    requires k < |Kept(gs)|
    ensures Kept(gs)[k] < |gs| && k < |NonEmpty(gs)| && NonEmpty(gs)[k] == gs[Kept(gs)[k]]
  {
    KeptLength(gs);
    var tail := gs[1..];
    var n := if gs[0] == "" then 0 else 1;
    var ne, ne' := NonEmpty(gs), NonEmpty(tail);
    assert ne == (if gs[0] == "" then [] else [gs[0]]) + ne';
    if k >= n {
      KeptAt(tail, k - n);
      assert Kept(gs)[k] == Kept(tail)[k - n] + 1;
      assert ne[k] == ne'[k - n];
    }
  }

  lemma {:induction false} KeptIncreasing(gs: seq<string>)
    ensures forall k, k' :: 0 <= k < k' < |Kept(gs)| ==> Kept(gs)[k] < Kept(gs)[k']
  {
    if |gs| > 0 {
      KeptIncreasing(gs[1..]);
    }
  }

  lemma {:induction false} KeptComplete(gs: seq<string>)
    ensures forall j :: 0 <= j < |gs| && gs[j] != "" ==> j in Kept(gs)
  {
    if |gs| > 0 {
      var tail := gs[1..];
      var rest := Kept(tail);
      KeptComplete(tail);
      var n := if gs[0] == "" then 0 else 1;
      forall j | 0 < j < |gs| && gs[j] != "" ensures j in Kept(gs) {
        assert tail[j - 1] == gs[j];
        var m :| 0 <= m < |rest| && rest[m] == j - 1;
        assert Kept(gs)[n + m] == j;
      }
    }
  }

  /** The filter keeps every non-empty string as often as it occurs and drops every `''`. */
  lemma {:induction false} NonEmptyMultiset(gs: seq<string>)
    ensures multiset(NonEmpty(gs)) == multiset(gs)["" := 0]
  {
    if |gs| > 0 {
      NonEmptyMultiset(gs[1..]);
      assert gs == [gs[0]] + gs[1..];
    }
  }

  /** The flat list of `pattern_consensus`: non-empty groups of tuples, whole strings as they are. */
  function ConsensusFlat(ms: seq<Match>): seq<string>
  {
    if |ms| == 0 then []
    else ConsensusFlat(ms[..|ms| - 1]) + match ms[|ms| - 1] { case Whole(s) => [s] case Groups(gs) => NonEmpty(gs) }
  }

  /** The flat list of `pattern_all`: every group of a tuple (none is ever None), whole strings as they are. */
  function AllFlat(ms: seq<Match>): seq<string>
  {
    if |ms| == 0 then []
    else AllFlat(ms[..|ms| - 1]) + match ms[|ms| - 1] { case Whole(s) => [s] case Groups(gs) => gs }
  }

  /** A set with one element is the singleton of any of its members. */
  lemma SingletonSet<T>(u: set<T>, v: T)
    requires |u| == 1 && v in u
    ensures u == {v}
  {
    assert |u - {v}| == 0;
    assert u - {v} == {};
  }

  /** A list whose entries all equal the first has exactly that one value. */
  lemma UniformSingleton(flat: seq<string>)
    ensures (|flat| > 0 && forall j :: 0 <= j < |flat| ==> flat[j] == flat[0]) ==> (set x | x in flat) == {flat[0]}
  {
    if |flat| > 0 && forall j :: 0 <= j < |flat| ==> flat[j] == flat[0] {
      forall x | x in flat ensures x == flat[0] {
        var j :| 0 <= j < |flat| && flat[j] == x;
      }
    }
  }

  /** `pattern_consensus`: the one value every flattened match agrees on, or None
      (Python's False) when there is no value or two different ones. */
  method PatternConsensus(findall: FindAll, pattern: string, text: string) returns (r: Option<string>)
    ensures var flat := ConsensusFlat(findall(pattern, Strip(text)));
      && (r.Some? <==> |flat| > 0 && forall i :: 0 <= i < |flat| ==> flat[i] == flat[0])
      && (r.Some? ==> r.value == flat[0])
  {
    var matches := findall(pattern, Strip(text));
    if |matches| == 0 {
      assert ConsensusFlat(matches) == [];
      return None;
    }
    var flat: seq<string> := [];
    var i := 0;
    while i < |matches|
      invariant 0 <= i <= |matches|
      invariant flat == ConsensusFlat(matches[..i])
    {
      assert matches[..i + 1][..i] == matches[..i];
      match matches[i] {
        case Groups(gs) => flat := flat + NonEmpty(gs);
        case Whole(m) => flat := flat + [m];
      }
      i := i + 1;
    }
    assert matches[..i] == matches;
    var uniq := set x | x in flat;
    if |uniq| == 1 {
      var v :| v in uniq;
      SingletonSet(uniq, v);
      assert v in flat;
      assert forall j :: 0 <= j < |flat| ==> flat[j] in uniq;
      r := Some(v);
    } else {
      UniformSingleton(flat);
      r := None;
    }
  }

  /** The first position of `x` in `s`. */
  function IndexOf<T(==)>(s: seq<T>, x: T): (k: nat)
    requires x in s
    ensures k < |s| && s[k] == x && forall j :: 0 <= j < k ==> s[j] != x
  {
    if s[0] == x then 0 else 1 + IndexOf(s[1..], x)
  }

  lemma {:induction false} IndexOfAppend<T>(s: seq<T>, y: T, x: T)
    requires x in s
    ensures IndexOf(s + [y], x) == IndexOf(s, x)
  {
    if s[0] != x {
      assert (s + [y])[1..] == s[1..] + [y];
      IndexOfAppend(s[1..], y, x);
    }
  }

  /** Appending keeps the first positions of the values already present and puts a new
      value at the end. */
  lemma IndexOfExtend<T>(pre: seq<T>, v: T)
    ensures forall x :: x in pre ==> IndexOf(pre + [v], x) == IndexOf(pre, x)
    ensures v !in pre ==> IndexOf(pre + [v], v) == |pre|
  {
    forall x | x in pre ensures IndexOf(pre + [v], x) == IndexOf(pre, x) {
      IndexOfAppend(pre, v, x);
    }
  }

  predicate Distinct<T(==)>(s: seq<T>)
  {
    forall i, j :: 0 <= i < j < |s| ==> s[i] != s[j]
  }

  /** `pattern_all`: every distinct flattened capture exactly once, in the order of its
      first occurrence. */
  method PatternAll(findall: FindAll, pattern: string, text: string) returns (ordered: seq<string>)
    ensures var flat := AllFlat(findall(pattern, text));
      && Distinct(ordered)
      && (forall x :: x in ordered <==> x in flat)
      && (forall i, j :: 0 <= i < j < |ordered| ==> IndexOf(flat, ordered[i]) < IndexOf(flat, ordered[j]))
  {
    var flat := AllCaptures(findall(pattern, text));
    ordered := FirstOccurrences(flat);
  }

  /** The flattening loop of `pattern_all`: every group of every match, in order. */
  method AllCaptures(raw: seq<Match>) returns (flat: seq<string>)
    ensures flat == AllFlat(raw)
  {
    flat := [];
    var i := 0;
    while i < |raw|
      invariant 0 <= i <= |raw|
      invariant flat == AllFlat(raw[..i])
    {
      assert raw[..i + 1][..i] == raw[..i];
      match raw[i] {
        case Groups(gs) =>
        var k := 0;
        while k < |gs|
          invariant 0 <= k <= |gs|
          invariant flat == AllFlat(raw[..i]) + gs[..k]
        {
          assert gs[..k + 1] == gs[..k] + [gs[k]];
          flat := flat + [gs[k]];
          k := k + 1;
        }
        assert gs[..k] == gs;
        case Whole(m) => flat := flat + [m];
      }
      i := i + 1;
    }
    assert raw[..i] == raw;
  }

  /** The de-duplicating loop of `pattern_all`: each value once, at its first occurrence. */
  method FirstOccurrences(flat: seq<string>) returns (ordered: seq<string>)
    ensures Distinct(ordered)
    ensures forall x :: x in ordered <==> x in flat
    ensures forall i, j :: 0 <= i < j < |ordered| ==> IndexOf(flat, ordered[i]) < IndexOf(flat, ordered[j])
  {
    var seen: set<string> := {};
    ordered := [];
    var n := 0;
    while n < |flat|
      invariant 0 <= n <= |flat|
      invariant seen == set x | x in ordered
      invariant Distinct(ordered)
      invariant forall x :: x in ordered <==> x in flat[..n]
      invariant forall a, b :: 0 <= a < b < |ordered| ==> IndexOf(flat[..n], ordered[a]) < IndexOf(flat[..n], ordered[b])
    {
      var v := flat[n];
      var pre := flat[..n];
      assert flat[..n + 1] == pre + [v];
      IndexOfExtend(pre, v);
      if v !in seen {
        seen := seen + {v};
        ordered := ordered + [v];
      }
      n := n + 1;
    }
    assert flat[..n] == flat;
  }

  // ================================================================ sorted(set(...))

  /** Python's `<` on strings: lexicographic by code point. */
  predicate Less(a: string, b: string)
  {
    (|a| == 0 && |b| > 0) || (|a| > 0 && |b| > 0 && (a[0] < b[0] || (a[0] == b[0] && Less(a[1..], b[1..]))))
  }

  lemma {:induction false} LessIrreflexive(a: string)
    ensures !Less(a, a)
  {
    if |a| > 0 {
      LessIrreflexive(a[1..]);
    }
  }

  lemma {:induction false} LessTransitive(a: string, b: string, c: string)
    requires Less(a, b) && Less(b, c)
    ensures Less(a, c)
  {
    if |a| > 0 && a[0] == b[0] == c[0] {
      LessTransitive(a[1..], b[1..], c[1..]);
    }
  }

  lemma {:induction false} LessTotal(a: string, b: string)
    requires a != b
    ensures Less(a, b) || Less(b, a)
  {
    if |a| > 0 && |b| > 0 && a[0] == b[0] {
      assert a == [a[0]] + a[1..] && b == [b[0]] + b[1..];
      LessTotal(a[1..], b[1..]);
    }
  }

  lemma LessAsymmetric(a: string, b: string)
    requires Less(a, b)
    ensures !Less(b, a)
  {
    if Less(b, a) {
      LessTransitive(a, b, a);
      LessIrreflexive(a);
    }
  }

  predicate StrictlyIncreasing(s: seq<string>)
  {
    forall i, j :: 0 <= i < j < |s| ==> Less(s[i], s[j])
  }

  /** Inserts `x` into a strictly increasing list, unless it is already there. */
  function Insert(x: string, s: seq<string>): seq<string>
  {
    if |s| == 0 then [x]
    else if x == s[0] then s
    else if Less(x, s[0]) then [x] + s
    else [s[0]] + Insert(x, s[1..])
  }

  lemma {:induction false} InsertSpec(x: string, s: seq<string>)
    requires StrictlyIncreasing(s)
    ensures StrictlyIncreasing(Insert(x, s))
    ensures forall y :: y in Insert(x, s) <==> y == x || y in s
  {
    if |s| > 0 && x != s[0] && !Less(x, s[0]) {
      LessTotal(x, s[0]);
      var t := Insert(x, s[1..]);
      InsertSpec(x, s[1..]);
      assert forall y :: y in s[1..] ==> Less(s[0], y);
      assert forall i :: 0 <= i < |t| ==> Less(s[0], t[i]);
      assert s == [s[0]] + s[1..];
    } else if |s| > 0 && Less(x, s[0]) {
      forall j | 0 < j < |s| ensures Less(x, s[j]) {
        LessTransitive(x, s[0], s[j]);
      }
    }
  }

  /** `sorted(list(set(xs)))` */
  function SortedSet(xs: seq<string>): seq<string>
  {
    if |xs| == 0 then [] else Insert(xs[|xs| - 1], SortedSet(xs[..|xs| - 1]))
  }

  /** The result is strictly increasing and has exactly the members of the input. */
  lemma {:induction false} SortedSetSpec(xs: seq<string>)
    ensures StrictlyIncreasing(SortedSet(xs))
    ensures forall y :: y in SortedSet(xs) <==> y in xs
  {
    if |xs| > 0 {
      var init := xs[..|xs| - 1];
      SortedSetSpec(init);
      InsertSpec(xs[|xs| - 1], SortedSet(init));
      assert xs == init + [xs[|xs| - 1]];
    }
  }

  /** A strictly increasing list is determined by its members, so the dedup-sort has no
      freedom left. */
  lemma {:induction false} IncreasingUnique(a: seq<string>, b: seq<string>)
    requires StrictlyIncreasing(a) && StrictlyIncreasing(b)
    requires forall y :: y in a <==> y in b
    ensures a == b
  {
    assert |a| == 0 <==> |b| == 0 by {
      if |a| > 0 { assert a[0] in a; }
      if |b| > 0 { assert b[0] in b; }
    }
    if |a| > 0 && |b| > 0 {
      if a[0] != b[0] {
        assert a[0] in b && b[0] in a;
        var i :| 0 <= i < |b| && b[i] == a[0];
        var j :| 0 <= j < |a| && a[j] == b[0];
        assert Less(b[0], a[0]);
        assert Less(a[0], b[0]);
        LessAsymmetric(a[0], b[0]);
      }
      forall y ensures y in a[1..] <==> y in b[1..] {
        if y in a[1..] {
          var i :| 1 <= i < |a| && a[i] == y;
          assert Less(a[0], y);
          LessIrreflexive(y);
          assert y in a && y in b;
          var k :| 0 <= k < |b| && b[k] == y;
          assert k != 0;
          assert b[1..][k - 1] == y;
        }
        if y in b[1..] {
          var i :| 1 <= i < |b| && b[i] == y;
          assert Less(b[0], y);
          LessIrreflexive(y);
          assert y in b && y in a;
          var k :| 0 <= k < |a| && a[k] == y;
          assert k != 0;
          assert a[1..][k - 1] == y;
        }
      }
      IncreasingUnique(a[1..], b[1..]);
      assert a == [a[0]] + a[1..] && b == [b[0]] + b[1..];
    }
  }

  // ================================================================ extract_llm_answer

  /** The default target, used when the caller gives none (or an empty one). */
  const DefaultTarget: string := @"\d+(?:-\d+)*|[A-Z]"

  /** The capture that stands for `_T_` in every template. */
  function TargetGroup(target: string): string
  {
    @"\#?(" + (if target == "" then DefaultTarget else target) + ")"
  }

  /** The answer templates, most certain first. */
  const Templates: seq<string> := [
    @"\*\*\s*Final Answer\s*:?[\\*\\s]*Answer:\s*_T_",
    @"\\boxed\{([^}]+)\}",
    @"Answer Selected:\s*_T_",
    @"Answer Selected:\s*'_T_'",
    @"Answer Selected:\s*""_T_""",
    @"Answer:\s*_T_",
    @"Answer:\s*\(_T_\)",
    @"Answer:\s*""_T_""",
    @"Answer:\s*'_T_'",
    @"\*\*\s*Answer\s*:?[\\*\\s]*_T_",
    @"<answer>_T_</answer>",
    @"^_T_$",
    @"\*\*_T_\*\*",
    @"\*\*\(_T_\)\*\*",
    @"\(_T_\)"]

  /** `pat.replace('_T_', tgt)` */
  function TemplateRegex(pat: string, target: string): string
  {
    Replace(pat, "_T_", TargetGroup(target))
  }

  /** The tokens one match contributes: the non-empty groups of a tuple; for a string,
      commas become dashes, spaces go, and the result is cut at the dashes. */
  function MatchTokens(m: Match): seq<string>
  {
    match m
    case Groups(gs) => NonEmpty(gs)
    case Whole(s) =>
      var t := Replace(Replace(s, ",", "-"), " ", "");
      if Contains(t, "-") then Split(t, "-") else [t]
  }

  /** A whole-string match yields tokens free of commas, dashes and spaces, and joining
      them with dashes gives back the normalised match. */
  lemma WholeTokens(s: string)
    ensures var t := Replace(Replace(s, ",", "-"), " ", "");
      && Join("-", MatchTokens(Whole(s))) == t
      && forall k :: 0 <= k < |MatchTokens(Whole(s))| ==>
           var tok := MatchTokens(Whole(s))[k]; Lacks(tok, ',') && Lacks(tok, ' ') && Lacks(tok, '-')
  {
    var c := Replace(s, ",", "-");
    var t := Replace(c, " ", "");
    ReplaceRemovesChar(s, ',', "-");
    ReplaceKeepsLack(c, " ", "", ',');
    ReplaceRemovesChar(c, ' ', "");
    if Contains(t, "-") {
      JoinSplit(t, "-");
      SplitPiecesFree(t, "-");
      SplitKeepsLack(t, "-", ',');
      SplitKeepsLack(t, "-", ' ');
      forall k | 0 <= k < |Split(t, "-")| ensures Lacks(Split(t, "-")[k], '-') {
        LacksIffNotContains(Split(t, "-")[k], '-');
      }
    } else {
      LacksIffNotContains(t, '-');
    }
  }

  /** The flat token list of one template's matches, in match order. */
  function Flatten(ms: seq<Match>): seq<string>
  {
    if |ms| == 0 then [] else Flatten(ms[..|ms| - 1]) + MatchTokens(ms[|ms| - 1])
  }

  /** The deduplicated, sorted tokens of template `pat` on the (already stripped) subject. */
  function TemplateTokens(findall: FindAll, subject: string, target: string, pat: string): seq<string>
  {
    SortedSet(Flatten(findall(TemplateRegex(pat, target), subject)))
  }

  /** What the extractor returns: None, one token (single mode) or a token list (multi mode). */
  datatype Extraction = NoAnswer | One(token: string) | Many(tokens: seq<string>)

  /** The per-template token sets, in template order. */
  function TokenSets(findall: FindAll, subject: string, target: string, ts: seq<string>): (us: seq<seq<string>>)
    ensures |us| == |ts| && forall k :: 0 <= k < |ts| ==> us[k] == TemplateTokens(findall, subject, target, ts[k])
  {
    seq(|ts|, k requires 0 <= k < |ts| => TemplateTokens(findall, subject, target, ts[k]))
  }

  /** The decision rule over the per-template token sets: skip an empty set; in multi
      mode take the first non-empty one; in single mode take the first singleton and
      skip sets of two or more. */
  function Decide(us: seq<seq<string>>, multi: bool): Extraction
  {
    if |us| == 0 then NoAnswer
    else if |us[0]| == 0 then Decide(us[1..], multi)
    else if multi then Many(us[0])
    else if |us[0]| == 1 then One(us[0][0])
    else Decide(us[1..], multi)
  }

  /** `extract_llm_answer(text, target, multi=multi)` on the stripped text. */
  function Extract(findall: FindAll, text: string, target: string, multi: bool): Extraction
  {
    Decide(TokenSets(findall, Strip(text), target, Templates), multi)
  }

  /** The flattening loop of `extract_llm_answer`: the tokens of every match, in order. */
  method FlattenMatches(raw: seq<Match>) returns (flat: seq<string>)
    ensures flat == Flatten(raw)
  {
    flat := [];
    var i := 0;
    while i < |raw|
      invariant 0 <= i <= |raw|
      invariant flat == Flatten(raw[..i])
    {
      assert raw[..i + 1][..i] == raw[..i];
      flat := flat + MatchTokens(raw[i]);
      i := i + 1;
    }
    assert raw[..i] == raw;
  }

  /** `extract_llm_answer(text, target, multi=multi)` */
  method ExtractLlmAnswer(findall: FindAll, text: string, target: string, multi: bool) returns (r: Extraction)
    ensures r == Extract(findall, text, target, multi)
  {
    r := TryTemplates(findall, Templates, Strip(text), target, multi);
  }

  /** The loop of `extract_llm_answer` over a template list `ts`, matching against the
      stripped text `subject`. */
  method TryTemplates(findall: FindAll, ts: seq<string>, subject: string, target: string, multi: bool) returns (r: Extraction)
    ensures r == Decide(TokenSets(findall, subject, target, ts), multi)
  {
    ghost var us := TokenSets(findall, subject, target, ts);
    var tgt := TargetGroup(target);
    var k := 0;
    while k < |ts|
      invariant 0 <= k <= |ts|
      invariant Decide(us[k..], multi) == Decide(us, multi)
    {
      var regex := Replace(ts[k], "_T_", tgt);
      assert regex == TemplateRegex(ts[k], target);
      var raw := findall(regex, subject);
      assert us[k] == SortedSet(Flatten(raw));
      var uniq: seq<string> := [];
      if |raw| > 0 {
        var flat := FlattenMatches(raw);
        uniq := SortedSet(flat);
      } else {
        assert Flatten(raw) == [];
      }
      assert uniq == us[k];
      if |uniq| > 0 && multi {
        DecideAt(us, k, multi);
        return Many(uniq);
      }
      if |uniq| == 1 {
        DecideAt(us, k, multi);
        return One(uniq[0]);
      }
      DecideAt(us, k, multi);
      k := k + 1;
    }
    assert us[k..] == [];
    r := NoAnswer;
  }

  /** One step of the decision rule, at position `k`. */
  lemma DecideAt(us: seq<seq<string>>, k: nat, multi: bool)
    requires k < |us|
    ensures Decide(us[k..], multi) ==
      if |us[k]| == 0 then Decide(us[k + 1..], multi)
      else if multi then Many(us[k])
      else if |us[k]| == 1 then One(us[k][0])
      else Decide(us[k + 1..], multi)
  {
    assert us[k..][0] == us[k];
    assert us[k..][1..] == us[k + 1..];
  }

  /** Multi mode: the token set of the first template with any token, or None when no
      template has one; never a single token. */
  lemma {:induction false} DecideMulti(us: seq<seq<string>>)
    ensures var r := Decide(us, true);
      && !r.One?
      && (r == NoAnswer <==> forall j :: 0 <= j < |us| ==> us[j] == [])
      && (r.Many? ==> exists j :: (0 <= j < |us| && r.tokens == us[j] != [] && forall i :: 0 <= i < j ==> us[i] == []))
  {
    if |us| > 0 {
      DecideMulti(us[1..]);
      if us[0] == [] {
        var r := Decide(us[1..], true);
        if r.Many? {
          var j :| 0 <= j < |us[1..]| && r.tokens == us[1..][j] != [] && forall i :: 0 <= i < j ==> us[1..][i] == [];
          assert forall i :: 0 <= i < j + 1 ==> us[i] == [] by {
            forall i | 0 <= i < j + 1 ensures us[i] == [] {
              if i > 0 { assert us[i] == us[1..][i - 1]; }
            }
          }
          assert us[j + 1] == us[1..][j];
        }
        if r == NoAnswer {
          forall j | 0 <= j < |us| ensures us[j] == [] {
            if j > 0 { assert us[j] == us[1..][j - 1]; }
          }
        }
      }
    }
  }

  /** Single mode: the sole token of the first template whose set has exactly one
      element (sets with none or several are skipped), or None; never a list. */
  lemma {:induction false} DecideSingle(us: seq<seq<string>>)
    ensures var r := Decide(us, false);
      && !r.Many?
      && (r == NoAnswer <==> forall j :: 0 <= j < |us| ==> |us[j]| != 1)
      && (r.One? ==> exists j :: (0 <= j < |us| && us[j] == [r.token] && forall i :: 0 <= i < j ==> |us[i]| != 1))
  {
    if |us| > 0 {
      DecideSingle(us[1..]);
      if |us[0]| == 1 {
        assert us[0] == [us[0][0]];
      } else {
        var r := Decide(us[1..], false);
        if r.One? {
          var j :| 0 <= j < |us[1..]| && us[1..][j] == [r.token] && forall i :: 0 <= i < j ==> |us[1..][i]| != 1;
          assert forall i :: 0 <= i < j + 1 ==> |us[i]| != 1 by {
            forall i | 0 <= i < j + 1 ensures |us[i]| != 1 {
              if i > 0 { assert us[i] == us[1..][i - 1]; }
            }
          }
          assert us[j + 1] == us[1..][j];
        }
        if r == NoAnswer {
          forall j | 0 <= j < |us| ensures |us[j]| != 1 {
            if j > 0 { assert us[j] == us[1..][j - 1]; }
          }
        }
      }
    }
  }

  /** Priority read the other way: the first singleton decides a single-mode extraction. */
  lemma {:induction false} DecideSingleFirst(us: seq<seq<string>>, j: nat, t: string)
    requires j < |us| && us[j] == [t]
    requires forall i :: 0 <= i < j ==> |us[i]| != 1
    ensures Decide(us, false) == One(t)
  {
    if j > 0 {
      DecideSingleFirst(us[1..], j - 1, t);
    }
  }

  /** The first non-empty set decides a multi-mode extraction. */
  lemma {:induction false} DecideMultiFirst(us: seq<seq<string>>, j: nat)
    requires j < |us| && us[j] != []
    requires forall i :: 0 <= i < j ==> us[i] == []
    ensures Decide(us, true) == Many(us[j])
  {
    if j > 0 {
      DecideMultiFirst(us[1..], j - 1);
    }
  }

  /** Every answer the extractor gives comes from the matches of one template: a token
      list is strictly increasing and non-empty, and every token is one of that template's
      flattened tokens. */
  lemma ExtractSound(findall: FindAll, text: string, target: string, multi: bool)
    ensures var r := Extract(findall, text, target, multi);
      && (multi ==> !r.One?) && (!multi ==> !r.Many?)
      && (r.Many? ==> |r.tokens| > 0 && StrictlyIncreasing(r.tokens) && exists k :: (0 <= k < |Templates| &&
            forall y :: y in r.tokens <==> y in Flatten(findall(TemplateRegex(Templates[k], target), Strip(text)))))
      && (r.One? ==> exists k :: (0 <= k < |Templates| &&
            r.token in Flatten(findall(TemplateRegex(Templates[k], target), Strip(text)))))
  {
    if multi {
      DecideManySound(findall, Strip(text), target, Templates);
    } else {
      DecideOneSound(findall, Strip(text), target, Templates);
    }
  }

  /** Multi mode over any template list: a non-empty, strictly increasing token list that
      holds exactly the tokens of one template. */
  lemma DecideManySound(findall: FindAll, subject: string, target: string, ts: seq<string>)
    ensures var r := Decide(TokenSets(findall, subject, target, ts), true);
      && !r.One?
      && (r.Many? ==> |r.tokens| > 0 && StrictlyIncreasing(r.tokens) && exists k :: (0 <= k < |ts| &&
            forall y :: y in r.tokens <==> y in Flatten(findall(TemplateRegex(ts[k], target), subject))))
  {
    var us := TokenSets(findall, subject, target, ts);
    DecideMulti(us);
    var r := Decide(us, true);
    if r.Many? {
      var j :| 0 <= j < |us| && r.tokens == us[j] != [] && forall i :: 0 <= i < j ==> us[i] == [];
      SortedSetSpec(Flatten(findall(TemplateRegex(ts[j], target), subject)));
    }
  }

  /** Single mode over any template list: the token is one of some template's tokens. */
  lemma DecideOneSound(findall: FindAll, subject: string, target: string, ts: seq<string>)
    ensures var r := Decide(TokenSets(findall, subject, target, ts), false);
      && !r.Many?
      && (r.One? ==> exists k :: (0 <= k < |ts| &&
            r.token in Flatten(findall(TemplateRegex(ts[k], target), subject))))
  {
    var us := TokenSets(findall, subject, target, ts);
    DecideSingle(us);
    var r := Decide(us, false);
    if r.One? {
      var j :| 0 <= j < |us| && us[j] == [r.token] && forall i :: 0 <= i < j ==> |us[i]| != 1;
      SortedSetSpec(Flatten(findall(TemplateRegex(ts[j], target), subject)));
    }
  }

  // ================================================================ get_legal_answer

  const FinalAnswerMarker: string := "### Final Answer"

  /** Only the text after the first `### Final Answer` heading is kept, when there is one. */
  function AfterMarker(text: string): (r: string)
    ensures !Contains(text, FinalAnswerMarker) ==> r == text
    ensures Contains(text, FinalAnswerMarker) ==> exists i :: (0 <= i <= |text| - |FinalAnswerMarker| &&
      OccursAt(text, FinalAnswerMarker, i) && r == text[i + |FinalAnswerMarker|..] &&
      forall j :: 0 <= j < i ==> !OccursAt(text, FinalAnswerMarker, j))
  {
    if Contains(text, FinalAnswerMarker) then AfterFirst(text, FinalAnswerMarker) else text
  }

  /** The second item of the source's `[ok, value]` pair: None, a string or a list of strings. */
  datatype Answer = Missing | Str(s: string) | List(items: seq<string>)

  datatype LegalAnswer = LegalAnswer(ok: bool, value: Answer)

  /** What `log_failures` writes: the mode, the prompt and the (post-heading) text. */
  datatype FailureRecord = FailureRecord(mode: string, prompt: string, text: string)

  /** The failure log (the `errors.txt` file of the run directory), as an append-only list. */
  class FailureLog {
    var records: seq<FailureRecord>

    constructor()
      ensures records == []
    {
      records := [];
    }

    /** `log_failures(mode, prompt, text)` */
    method LogFailure(mode: string, prompt: string, text: string)
      modifies this
      ensures records == old(records) + [FailureRecord(mode, prompt, text)]
    {
      records := records + [FailureRecord(mode, prompt, text)];
    }
  }

  function AnswerOf(e: Extraction): Answer
  {
    match e
    case NoAnswer => Missing
    case One(t) => Str(t)
    case Many(ts) => List(ts)
  }

  /** The first item that is not blank once stripped, stripped. */
  function FirstNonBlank(xs: seq<string>): (r: Option<string>)
    ensures r.Some? ==> exists i :: (0 <= i < |xs| && r.value == Strip(xs[i]) != "" && forall j :: 0 <= j < i ==> Strip(xs[j]) == "")
    ensures r.None? <==> forall i :: 0 <= i < |xs| ==> Strip(xs[i]) == ""
  {
    if |xs| == 0 then None
    else if Strip(xs[0]) != "" then Some(Strip(xs[0]))
    else
      var r := FirstNonBlank(xs[1..]);
      assert forall i :: 1 <= i < |xs| ==> xs[i] == xs[1..][i - 1];
      r
  }

  const LineTarget: string := ".+"
  const WordTarget: string := @"\S+"
  const NumberTarget: string := @"[\d,]+"
  const MultiSeparator: string := @"(?:\s*[-,]\s*)"

  /** `'|'.join(map(str, reversed(legal_values)))` */
  function LegalAlternation(legal: seq<string>): string
  {
    Join("|", Reverse(legal))
  }

  /** One or more legal values separated by a dash or comma with optional spaces. */
  function MultiTarget(legal: seq<string>): string
  {
    var lv := LegalAlternation(legal);
    "(?:" + lv + ")(?:" + MultiSeparator + "(?:" + lv + "))*"
  }

  /** `mode in ('date')`: the parentheses make a string, so this is a substring test. */
  predicate DateLike(mode: string)
  {
    Contains("date", mode)
  }

  predicate KnownMode(mode: string)
  {
    mode in {"ignore", "free", "line", "word", "number", "single", "multi"}
  }

  /** Line and word modes: the extracted value, or else the first non-blank item. */
  function FoundOrFirst(e: Extraction, items: seq<string>): Answer
  {
    if e != NoAnswer then AnswerOf(e)
    else match FirstNonBlank(items) { case None => Missing case Some(x) => Str(x) }
  }

  /** `get_legal_answer`: the result (or the exception raised) and the failure records it
      appends to the log. */
  function LegalAnswerOf(findall: FindAll, prompt: string, text0: string, mode: string, legal: seq<string>): (Result<LegalAnswer, Error>, seq<FailureRecord>)
  {
    var text := AfterMarker(text0);
    var fail := [FailureRecord(mode, prompt, text)];
    if mode == "ignore" then (Ok(LegalAnswer(true, Str(""))), [])
    else if mode == "free" then (Ok(LegalAnswer(true, Str(text))), [])
    else if mode == "line" then
      var v := FoundOrFirst(Extract(findall, text, LineTarget, false), SplitLines(text));
      (Ok(LegalAnswer(v != Missing, v)), [])
    else if mode == "word" then
      var v := FoundOrFirst(Extract(findall, text, WordTarget, false), SplitOnSpaceRuns(text));
      (Ok(LegalAnswer(v != Missing, v)), [])
    else if mode == "number" then
      var e := Extract(findall, text, NumberTarget, false);
      (Ok(LegalAnswer(e != NoAnswer, AnswerOf(e))), if e != NoAnswer then [] else fail)
    else if DateLike(mode) then
      var e := Extract(findall, text, WordTarget, false);
      if e == NoAnswer then (Err(UnknownMode(mode)), fail) else (Err(DatetimeUndefined), [])
    else if mode == "single" then
      var e := Extract(findall, text, LegalAlternation(legal), false);
      (Ok(LegalAnswer(e != NoAnswer, AnswerOf(e))), if e != NoAnswer then [] else fail)
    else if mode == "multi" then
      var e := Extract(findall, text, MultiTarget(legal), true);
      if e.Many? then (Ok(LegalAnswer(true, List(StripAll(e.tokens)))), [])
      else (Ok(LegalAnswer(false, Str(text))), fail)
    else (Err(UnknownMode(mode)), [])
  }

  /** The failure records `get_legal_answer` writes: at most one, naming this call, and
      one exactly when a logging mode fails. */
  lemma LegalAnswerRecords(findall: FindAll, prompt: string, text0: string, mode: string, legal: seq<string>)
    ensures var (r, records) := LegalAnswerOf(findall, prompt, text0, mode, legal);
      && (records == [] || records == [FailureRecord(mode, prompt, AfterMarker(text0))])
      && (records != [] <==>
            ((mode == "number" || mode == "single" || mode == "multi") && r.Ok? && !r.value.ok)
            || (!KnownMode(mode) && DateLike(mode) && Extract(findall, AfterMarker(text0), WordTarget, false) == NoAnswer))
  {
  }

  /** The modes without extraction: an answer comes back exactly for the known modes;
      `ignore` and `free` always succeed; the date branch never returns a value. */
  lemma LegalAnswerPlain(findall: FindAll, prompt: string, text0: string, mode: string, legal: seq<string>)
    ensures var r := LegalAnswerOf(findall, prompt, text0, mode, legal).0;
      && (r.Ok? <==> KnownMode(mode))
      && (mode == "ignore" ==> r == Ok(LegalAnswer(true, Str(""))))
      && (mode == "free" ==> r == Ok(LegalAnswer(true, Str(AfterMarker(text0)))))
      && (!KnownMode(mode) ==> (r.error == DatetimeUndefined <==> DateLike(mode) && Extract(findall, AfterMarker(text0), WordTarget, false) != NoAnswer))
  {
  }

  /** Line and word: ok iff a value was found, and the value is then a string. */
  lemma LegalAnswerFound(findall: FindAll, prompt: string, text0: string, mode: string, legal: seq<string>)
    requires mode == "line" || mode == "word"
    ensures var r := LegalAnswerOf(findall, prompt, text0, mode, legal).0;
      r.Ok? && (r.value.ok <==> r.value.value != Missing) && (r.value.ok ==> r.value.value.Str?)
  {
    var text := AfterMarker(text0);
    if mode == "line" {
      ExtractSound(findall, text, LineTarget, false);
    } else {
      ExtractSound(findall, text, WordTarget, false);
    }
  }

  /** Number: ok iff the extractor returned a value, and the value is that one. */
  lemma LegalAnswerNumber(findall: FindAll, prompt: string, text0: string, mode: string, legal: seq<string>)
    requires mode == "number"
    ensures var e := Extract(findall, AfterMarker(text0), NumberTarget, false);
      LegalAnswerOf(findall, prompt, text0, mode, legal).0 == Ok(LegalAnswer(e != NoAnswer, AnswerOf(e)))
  {
    assert mode != "ignore" && mode != "free" && mode != "line" && mode != "word";
  }

  /** Single: ok iff the extractor found one of the legal values, and the value is that one. */
  lemma LegalAnswerSingle(findall: FindAll, prompt: string, text0: string, mode: string, legal: seq<string>)
    requires mode == "single"
    ensures var e := Extract(findall, AfterMarker(text0), LegalAlternation(legal), false);
      LegalAnswerOf(findall, prompt, text0, mode, legal).0 == Ok(LegalAnswer(e != NoAnswer, AnswerOf(e)))
  {
    assert mode != "ignore" && mode != "free" && mode != "line" && mode != "word" && mode != "number" && !DateLike(mode);
  }

  /** Multi: the stripped tokens on success, the whole text on failure. */
  lemma LegalAnswerMulti(findall: FindAll, prompt: string, text0: string, mode: string, legal: seq<string>)
    requires mode == "multi"
    ensures var e := Extract(findall, AfterMarker(text0), MultiTarget(legal), true);
      LegalAnswerOf(findall, prompt, text0, mode, legal).0
      == if e.Many? then Ok(LegalAnswer(true, List(StripAll(e.tokens)))) else Ok(LegalAnswer(false, Str(AfterMarker(text0))))
  {
    assert mode != "ignore" && mode != "free" && mode != "line" && mode != "word" && mode != "number" && !DateLike(mode) && mode != "single";
  }

  /** The fallback loops of the line and word modes: the first item that is not blank
      once stripped. */
  method FirstNonBlankItem(xs: seq<string>) returns (r: Option<string>)
    ensures r == FirstNonBlank(xs)
  {
    var i := 0;
    while i < |xs|
      invariant 0 <= i <= |xs|
      invariant FirstNonBlank(xs[i..]) == FirstNonBlank(xs)
    {
      var x := Strip(xs[i]);
      assert xs[i..][0] == xs[i] && xs[i..][1..] == xs[i + 1..];
      if x != "" {
        return Some(x);
      }
      i := i + 1;
    }
    return None;
  }

  /** The line and word branches: the extracted value, or else the first non-blank item. */
  method ExtractOrFirst(findall: FindAll, text: string, target: string, items: seq<string>) returns (extracted: Answer)
    ensures extracted == FoundOrFirst(Extract(findall, text, target, false), items)
  {
    var e := ExtractLlmAnswer(findall, text, target, false);
    extracted := AnswerOf(e);
    if e == NoAnswer {
      var first := FirstNonBlankItem(items);
      if first.Some? {
        extracted := Str(first.value);
      }
    }
  }

  /** The number and single branches: ok iff the extractor returns a value, with the
      failure logged otherwise. */
  method CheckedAnswer(log: FailureLog, findall: FindAll, mode: string, prompt: string, text: string, target: string)
    returns (r: Result<LegalAnswer, Error>)
    modifies log
    ensures var e := Extract(findall, text, target, false);
      && r == Ok(LegalAnswer(e != NoAnswer, AnswerOf(e)))
      && log.records == old(log.records) + (if e != NoAnswer then [] else [FailureRecord(mode, prompt, text)])
  {
    var e := ExtractLlmAnswer(findall, text, target, false);
    var ok := e != NoAnswer;
    if !ok {
      log.LogFailure(mode, prompt, text);
    }
    return Ok(LegalAnswer(ok, AnswerOf(e)));
  }

  /** The multi branch: the stripped token list, or the whole text with the failure logged. */
  method ChosenAnswers(log: FailureLog, findall: FindAll, mode: string, prompt: string, text: string, target: string)
    returns (r: Result<LegalAnswer, Error>)
    modifies log
    ensures var e := Extract(findall, text, target, true);
      && r == (if e.Many? then Ok(LegalAnswer(true, List(StripAll(e.tokens)))) else Ok(LegalAnswer(false, Str(text))))
      && log.records == old(log.records) + (if e.Many? then [] else [FailureRecord(mode, prompt, text)])
  {
    var e := ExtractLlmAnswer(findall, text, target, true);
    if e.Many? {
      return Ok(LegalAnswer(true, List(StripAll(e.tokens))));
    }
    log.LogFailure(mode, prompt, text);
    return Ok(LegalAnswer(false, Str(text)));
  }

  /** `get_legal_answer(prompt, text, mode, legal_values)`, appending to `log` where the
      source calls `log_failures`. */
  method GetLegalAnswer(log: FailureLog, findall: FindAll, prompt: string, text0: string, mode: string, legal: seq<string>)
    returns (r: Result<LegalAnswer, Error>)
    modifies log
    ensures r == LegalAnswerOf(findall, prompt, text0, mode, legal).0
    ensures log.records == old(log.records) + LegalAnswerOf(findall, prompt, text0, mode, legal).1
  {
    var text := text0;
    if Contains(text, FinalAnswerMarker) {
      text := AfterFirst(text, FinalAnswerMarker);
    }
    assert text == AfterMarker(text0);
    if mode == "ignore" {
      return Ok(LegalAnswer(true, Str("")));
    }
    if mode == "free" {
      return Ok(LegalAnswer(true, Str(text)));
    }
    if mode == "line" {
      assert mode != "ignore" && mode != "free";
      var extracted := ExtractOrFirst(findall, text, LineTarget, SplitLines(text));
      return Ok(LegalAnswer(extracted != Missing, extracted));
    }
    if mode == "word" {
      assert mode != "ignore" && mode != "free" && mode != "line";
      var extracted := ExtractOrFirst(findall, text, WordTarget, SplitOnSpaceRuns(text));
      return Ok(LegalAnswer(extracted != Missing, extracted));
    }
    if mode == "number" {
      assert mode != "ignore" && mode != "free" && mode != "line" && mode != "word";
      r := CheckedAnswer(log, findall, mode, prompt, text, NumberTarget);
      return;
    }
    if DateLike(mode) {
      var e := ExtractLlmAnswer(findall, text, WordTarget, false);
      if e == NoAnswer {
        log.LogFailure(mode, prompt, text);
      } else {
        return Err(DatetimeUndefined);
      }
    }
    if mode == "single" {
      assert mode != "ignore" && mode != "free" && mode != "line" && mode != "word" && mode != "number" && !DateLike(mode);
      r := CheckedAnswer(log, findall, mode, prompt, text, LegalAlternation(legal));
      return;
    }
    if mode == "multi" {
      assert mode != "ignore" && mode != "free" && mode != "line" && mode != "word" && mode != "number" && !DateLike(mode);
      r := ChosenAnswers(log, findall, mode, prompt, text, MultiTarget(legal));
      return;
    }
    return Err(UnknownMode(mode));
  }
}
