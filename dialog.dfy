/** The conversation record with the language model (lib/quizzinator/dialog.py): an
    append-only history of entries, a prompt-to-response cache, and the splitter that
    separates a model's `<think>` section from its answer. The model itself is a
    function supplied by the caller; clock readings are not modelled. */
module Dialog {
  import opened Text

  const ThinkOpen: string := "<think>"
  const ThinkClose: string := "</think>"

  // ---------------------------------------------------------------- think_and_response

  /** `think_and_response` as written: split on `</think>`, rejoin all but the last
      segment with `<think>` and remove `<think>` in one pass. */
  function ThinkAndResponseAsWritten(raw: string): (r: (string, string))
    ensures var segments := Split(raw, ThinkClose);
            r.1 == Strip(segments[|segments| - 1]) && !Contains(r.1, ThinkClose)
            && r.0 == Strip(Replace(Join(ThinkOpen, segments[..|segments| - 1]), ThinkOpen, ""))
  {
    SplitPiecesFree(raw, ThinkClose);
    StripKeepsAbsence(Split(raw, ThinkClose)[|Split(raw, ThinkClose)| - 1], ThinkClose);
    var segments := Split(raw, ThinkClose);
    var think := Strip(Replace(Join(ThinkOpen, segments[..|segments| - 1]), ThinkOpen, ""));
    (think, Strip(segments[|segments| - 1]))
  }

  /** The single pass can put a `<think>` back together: removing the inner tag of
      `<<think>think>` leaves `<think>`. */
  lemma ThinkTagReformed()
    ensures ThinkAndResponseAsWritten("<<think>think></think>").0 == ThinkOpen
  {
    var head := "<<think>think>";
    ReformedSplit();
    assert Join(ThinkOpen, [head]) == head;
    ReformedRemoval();
    TagHasNoSpace();
    StripNoSpace(ThinkOpen);
  }

  lemma ReformedSplit()
    ensures Split("<<think>think></think>", ThinkClose) == ["<<think>think>", ""]
  {
    var raw := "<<think>think></think>";
    NoEarlyClose(raw);
    assert OccursAt(raw, ThinkClose, 14);
    assert raw[..14] == "<<think>think>" && raw[22..] == "";
    SplitOnce(raw, ThinkClose, 14);
  }

  /** The closing tag first occurs at position 14 of the example, not before. */
  lemma NoEarlyClose(raw: string)
    requires raw == "<<think>think></think>"
    ensures forall j | 0 <= j < 14 :: !OccursAt(raw, ThinkClose, j)
  {
    forall j | 0 <= j < 14 ensures !OccursAt(raw, ThinkClose, j) {
      assert raw[j..j + 8][1] == raw[j + 1];
    }
  }

  lemma ReformedRemoval()
    ensures Replace("<<think>think>", ThinkOpen, "") == ThinkOpen
  {
    var head := "<<think>think>";
    OpenAtOne(head);
    assert Find("think>", ThinkOpen) == None;
    SplitOnce(head, ThinkOpen, 1);
    JoinCons("", "<", ["think>"]);
  }

  /** The opening tag first occurs at position 1 of the example's think part. */
  lemma OpenAtOne(head: string)
    requires head == "<<think>think>"
    ensures OccursAt(head, ThinkOpen, 1) && !OccursAt(head, ThinkOpen, 0)
    ensures head[..1] == "<" && head[8..] == "think>"
  {
    assert head[0..7][1] != ThinkOpen[1];
  }

  lemma TagHasNoSpace()
    ensures NoSpace(ThinkOpen)
  {
    var t := ThinkOpen;
    assert t == ['<', 't', 'h', 'i', 'n', 'k', '>'];
    forall i | 0 <= i < |t| ensures !IsSpace(t[i]) {
      assert t[i] in "<think>";
    }
  }

  /** Every occurrence of `tag` removed, repeating the pass until none is left. */
  function RemoveAll(s: string, tag: string): (r: string)
    requires |tag| > 0
    ensures !Contains(r, tag)
    decreases |s|
  {
    if Contains(s, tag) then
      ReplaceShrinks(s, tag, "");
      RemoveAll(Replace(s, tag, ""), tag)
    else s
  }

  /** `think_and_response` with the tag removal it evidently intends: the think part is
      the stripped text before the last `</think>` with no `<think>` left in it, and the
      response is the stripped text after it. */
  function ThinkAndResponse(raw: string): (r: (string, string))
    ensures !Contains(r.0, ThinkOpen) && !Contains(r.1, ThinkClose)
    ensures var segments := Split(raw, ThinkClose);
            r.1 == Strip(segments[|segments| - 1])
            && r.0 == Strip(RemoveAll(Join(ThinkOpen, segments[..|segments| - 1]), ThinkOpen))
  {
    var segments := Split(raw, ThinkClose);
    SplitPiecesFree(raw, ThinkClose);
    StripKeepsAbsence(segments[|segments| - 1], ThinkClose);
    var think := RemoveAll(Join(ThinkOpen, segments[..|segments| - 1]), ThinkOpen);
    StripKeepsAbsence(think, ThinkOpen);
    (Strip(think), Strip(segments[|segments| - 1]))
  }

  /** Without a closing tag there is no think part and the whole text is the response,
      in both versions. */
  lemma NoThinkSection(raw: string)
    requires !Contains(raw, ThinkClose)
    ensures ThinkAndResponse(raw) == ("", Strip(raw))
    ensures ThinkAndResponseAsWritten(raw) == ("", Strip(raw))
  {
    SplitNoSep(raw, ThinkClose);
    assert Split(raw, ThinkClose)[..0] == [];
    assert Find("", ThinkOpen) == None;
    ReplaceAbsent("", ThinkOpen, "");
  }

  /** Both tags open with `<`, which does not recur in either. */
  lemma TagsUnbordered()
    ensures Unbordered(ThinkClose) && Unbordered(ThinkOpen)
    ensures ThinkClose[1] == '/' && ThinkOpen[0] == '<' && ThinkClose[0] == '<'
    ensures Lacks(ThinkOpen, '/')
  {
    assert ThinkOpen == ['<', 't', 'h', 'i', 'n', 'k', '>'];
  }

  /** The response is what follows the last `</think>`; the think part is the text before
      it with every earlier `</think>` turned into `<think>` and the `<think>` tags
      removed (all of them in the corrected version, one pass of them as written). */
  lemma ThinkAfterLastClose(a: string, b: string)
    requires !Contains(b, ThinkClose)
    ensures ThinkAndResponse(a + ThinkClose + b)
            == (Strip(RemoveAll(Replace(a, ThinkClose, ThinkOpen), ThinkOpen)), Strip(b))
    ensures ThinkAndResponseAsWritten(a + ThinkClose + b)
            == (Strip(Replace(Replace(a, ThinkClose, ThinkOpen), ThinkOpen, "")), Strip(b))
  {
    TagsUnbordered();
    SplitLast(a, ThinkClose, b);
    var segments := Split(a + ThinkClose + b, ThinkClose);
    assert segments[..|segments| - 1] == Split(a, ThinkClose);
  }

  /** Two think sections and a response: both tags go and the sections run together. */
  lemma TwoThinkSections()
    ensures ThinkAndResponse("<think>foo</think><think>bar</think>baz") == ("foobar", "baz")
    ensures ThinkAndResponseAsWritten("<think>foo</think><think>bar</think>baz") == ("foobar", "baz")
  {
    ExampleText();
    ExampleParts();
    TwoSections("foo", "bar", "baz");
  }

  /** The example is two sections `foo` and `bar` and the response `baz`. */
  lemma ExampleText()
    ensures ThinkOpen + "foo" + ThinkClose + ThinkOpen + "bar" + ThinkClose + "baz"
            == "<think>foo</think><think>bar</think>baz"
  {
  }

  /** The example's sections and response hold no tag characters and no white space. */
  lemma ExampleParts()
    ensures Lacks("foo", '<') && Lacks("foo", '/') && Lacks("bar", '<') && Lacks("bar", '/')
    ensures Lacks("baz", '<')
    ensures Strip("foo" + "bar") == "foobar" && Strip("baz") == "baz"
  {
    Concatenated();
    StripNoSpace("foobar");
    StripNoSpace("baz");
  }

  lemma Concatenated()
    ensures "foo" + "bar" == "foobar"
  {
  }

  /** Two think sections whose texts hold no tag characters, then a response. */
  lemma TwoSections(x: string, y: string, z: string)
    requires Lacks(x, '<') && Lacks(x, '/') && Lacks(y, '<') && Lacks(y, '/') && Lacks(z, '<')
    ensures var raw := ThinkOpen + x + ThinkClose + ThinkOpen + y + ThinkClose + z;
            ThinkAndResponse(raw) == (Strip(x + y), Strip(z))
            && ThinkAndResponseAsWritten(raw) == (Strip(x + y), Strip(z))
  {
    TagsUnbordered();
    LackingNotContains(z, ThinkClose, 0);
    ThinkAfterLastClose(ThinkOpen + x + ThinkClose + ThinkOpen + y, z);
    SectionsRejoined(x, y);
    OpensRemoved(x, y);
  }

  /** The `</think>` between the two sections becomes a `<think>`. */
  lemma SectionsRejoined(x: string, y: string)
    requires Lacks(x, '/') && Lacks(y, '/')
    ensures Replace(ThinkOpen + x + ThinkClose + ThinkOpen + y, ThinkClose, ThinkOpen)
            == ThinkOpen + x + ThinkOpen + ThinkOpen + y
  {
    TagsUnbordered();
    assert ThinkOpen + x + ThinkClose + ThinkOpen + y == (ThinkOpen + x) + ThinkClose + (ThinkOpen + y);
    LacksConcat(ThinkOpen, x, '/');
    LacksConcat(ThinkOpen, y, '/');
    CloseBecomesOpen(ThinkOpen + x, ThinkOpen + y);
    assert (ThinkOpen + x) + ThinkOpen + (ThinkOpen + y) == ThinkOpen + x + ThinkOpen + ThinkOpen + y;
  }

  /** A single `</think>` between two texts without a `/` is turned into `<think>`. */
  lemma CloseBecomesOpen(p: string, q: string)
    requires Lacks(p, '/') && Lacks(q, '/')
    ensures Replace(p + ThinkClose + q, ThinkClose, ThinkOpen) == p + ThinkOpen + q
  {
    TagsUnbordered();
    LackingNotContains(p, ThinkClose, 1);
    LackingNotContains(q, ThinkClose, 1);
    SplitLast(p, ThinkClose, q);
    SplitNoSep(p, ThinkClose);
    JoinCons(ThinkOpen, p, [q]);
  }

  /** The three `<think>` tags around texts without a `<` all go in one pass, and a second
      pass finds none. */
  lemma OpensRemoved(x: string, y: string)
    requires Lacks(x, '<') && Lacks(y, '<')
    ensures var t := ThinkOpen + x + ThinkOpen + ThinkOpen + y;
            Replace(t, ThinkOpen, "") == x + y && RemoveAll(t, ThinkOpen) == x + y
  {
    TagsUnbordered();
    LackingNotContains(x, ThinkOpen, 0);
    LackingNotContains(y, ThinkOpen, 0);
    LackingNotContains("", ThinkOpen, 0);
    LackingNotContains(x + y, ThinkOpen, 0);
    ThreeTagsSplit(ThinkOpen, x, y);
    JoinFour(x, y);
    RemovedTwice(ThinkOpen + x + ThinkOpen + ThinkOpen + y, ThinkOpen, x + y);
  }

  /** `tag + x + tag + tag + y` cut at its three tags. */
  lemma ThreeTagsSplit(tag: string, x: string, y: string)
    requires Unbordered(tag) && !Contains(x, tag) && !Contains(y, tag) && !Contains("", tag)
    ensures Split(tag + x + tag + tag + y, tag) == ["", x, "", y]
  {
    SplitLast(tag + x + tag, tag, y);
    assert tag + x + tag == (tag + x) + tag + "";
    SplitLast(tag + x, tag, "");
    assert tag + x == "" + tag + x;
    SplitLast("", tag, x);
    SplitNoSep("", tag);
  }

  lemma JoinFour(x: string, y: string)
    ensures Join("", ["", x, "", y]) == x + y
  {
    JoinCons("", "", [x, "", y]);
    JoinCons("", x, ["", y]);
    JoinCons("", "", [y]);
  }

  /** A pass that removes every tag leaves nothing for a second pass. */
  lemma RemovedTwice(t: string, tag: string, u: string)
    requires |tag| > 0 && Contains(t, tag) && Replace(t, tag, "") == u && !Contains(u, tag)
    ensures RemoveAll(t, tag) == u
  {
    ReplaceShrinks(t, tag, "");
  }

  /** The two versions differ only where the single pass leaves a tag behind. */
  lemma ThinkVersionsAgree(raw: string)
    requires var segments := Split(raw, ThinkClose);
             !Contains(Replace(Join(ThinkOpen, segments[..|segments| - 1]), ThinkOpen, ""), ThinkOpen)
    ensures ThinkAndResponse(raw) == ThinkAndResponseAsWritten(raw)
  {
    var segments := Split(raw, ThinkClose);
    var joined := Join(ThinkOpen, segments[..|segments| - 1]);
    if Contains(joined, ThinkOpen) {
      ReplaceShrinks(joined, ThinkOpen, "");
      assert RemoveAll(joined, ThinkOpen) == RemoveAll(Replace(joined, ThinkOpen, ""), ThinkOpen);
    } else {
      ReplaceAbsent(joined, ThinkOpen, "");
    }
  }

  // ---------------------------------------------------------------- the dialog

  datatype Role = User | Llm

  /** One history entry; its `start` and `elapsed` clock fields are not modelled. */
  datatype Entry = Entry(role: Role, raw: string, content: string, think: string)

  /** `TimeoutError("Failed to get ollama response")` and
      `Exception("no proper response in cache")`. */
  datatype QueryError = Timeout | NoCachedResponse

  /** The model's reply to a prompt; `""` stands for an empty or missing reply. */
  type Model = string -> string

  class Dialog {
    var history: seq<Entry>
    var cache: map<string, string>
    var useCache: bool

    /** `Dialog(cache=...)`: cache mode iff a cache is given, even an empty one. */
    constructor(given: Option<map<string, string>>)
      ensures history == []
      ensures useCache <==> given.Some?
      ensures cache == (if given.Some? then given.value else map[])
    {
      history := [];
      cache := if given.Some? then given.value else map[];
      useCache := given.Some?;
    }

    /** `get_from_cache`: the stored response, or none for an absent key. */
    function GetFromCache(key: string): (r: Option<string>)
      reads this
      ensures r.Some? <==> key in cache
      ensures r.Some? ==> r.value == cache[key]
    {
      if key in cache then Some(cache[key]) else None
    }

    /** `set_to_cache`: the key now maps to the value and every other key is unchanged. */
    method SetToCache(key: string, value: string)
      modifies this
      ensures cache == old(cache)[key := value]
      ensures GetFromCache(key) == Some(value)
      ensures forall k :: k != key ==> GetFromCache(k) == old(GetFromCache(k))
      ensures history == old(history) && useCache == old(useCache)
    {
      cache := cache[key := value];
    }

    /** `_user`: records the prompt as a user entry with an empty think part. */
    method UserTurn(prompt: string) returns (e: Entry)
      modifies this
      ensures e == Entry(User, prompt, prompt, "")
      ensures history == old(history) + [e]
      ensures cache == old(cache) && useCache == old(useCache)
    {
      e := Entry(User, prompt, prompt, "");
      history := history + [e];
    }

    /** `_llm`: records the model's raw reply with its two parts. */
    method LlmTurn(raw: string, think: string, content: string) returns (e: Entry)
      modifies this
      ensures e == Entry(Llm, raw, content, think)
      ensures history == old(history) + [e]
      ensures cache == old(cache) && useCache == old(useCache)
    {
      e := Entry(Llm, raw, content, think);
      history := history + [e];
    }

    /** `query`: the user entry is recorded first; in live mode the model's reply is
        stored in the cache under the prompt, then the cached reply is split and
        recorded as the model's entry. A query that fails keeps its user entry. */
    method Query(model: Model, prompt: string) returns (r: Result<seq<Entry>, QueryError>)
      modifies this
      ensures useCache == old(useCache)
      ensures |history| >= |old(history)| + 1 && history[..|old(history)|] == old(history)
      ensures history[|old(history)|] == Entry(User, prompt, prompt, "")
      ensures !useCache ==> (r == Err(Timeout) <==> model(prompt) == "")
      ensures !useCache && model(prompt) == "" ==> cache == old(cache)
      ensures !useCache && model(prompt) != "" ==> cache == old(cache)[prompt := model(prompt)] && r.Ok?
      ensures useCache ==> cache == old(cache)
      ensures useCache ==> (r == Err(NoCachedResponse) <==> !(prompt in cache && cache[prompt] != ""))
      ensures useCache ==> (r.Ok? <==> prompt in old(cache) && old(cache)[prompt] != "")
      ensures r.Err? ==> |history| == |old(history)| + 1
      ensures r.Ok? ==>
                var raw := cache[prompt];
                var (think, content) := ThinkAndResponseAsWritten(raw);
                |history| == |old(history)| + 2
                && history[|old(history)| + 1] == Entry(Llm, raw, content, think)
                && r.value == history[|old(history)|..]
    {
      var user := UserTurn(prompt);
      if !useCache {
        var reply := model(prompt);
        if reply == "" {
          return Err(Timeout);
        }
        SetToCache(prompt, reply);
      }
      var cached := GetFromCache(prompt);
      if cached.None? || cached.value == "" {
        return Err(NoCachedResponse);
      }
      var raw := cached.value;
      var (think, content) := ThinkAndResponseAsWritten(raw);
      var llm := LlmTurn(raw, think, content);
      r := Ok([user, llm]);
    }
  }
}
