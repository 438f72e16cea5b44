/**
 * The post-processing half of the word supply (services/wordService.ts): what `generateWords`
 * makes of the provider's reply. The request itself and `JSON.parse` are not modelled: a reply
 * carries its text and the value the parser produced from it (or `None` when the parser threw).
 */
module WordService {
  import opened Types
  import opened Text

  /**
   * A parsed JSON value. Of an object's members only one matters here: an own `toString`.
   * JSON cannot make it a function, so converting such an object to a string throws a
   * `TypeError`; any other object prints as "[object Object]".
   */
  datatype Json =
    | JNull
    | JBool(b: bool)
    | JNumber(repr: string)    // repr: the number's JavaScript `String(n)` form, e.g. "12" or "Infinity"
    | JString(s: string)
    | JArray(items: seq<Json>)
    | JObject(ownToString: bool)

  /** The value holds, at any depth, an object with its own `toString` member. */
  predicate HasOwnToString(v: Json) {
    match v
    case JObject(own) => own
    case JArray(items) => exists i :: 0 <= i < |items| && HasOwnToString(items[i])
    case _ => false
  }

  /** What the provider handed back. */
  datatype Reply =
    | Thrown                                           // the request failed
    | Answered(text: Option<string>, parsed: Option<Json>)

  /** The list returned when the reply has no text. */
  const ErrorWords: seq<string> := ["error", "loading", "failed"]

  /** The list returned when anything throws. */
  const FallbackWords: seq<string> :=
    ["connection", "failed", "retry", "gemini", "offline", "typing", "game", "minimal", "react", "code"]

  /** JavaScript's `Array.prototype.join(",")`. */
  function JoinComma(parts: seq<string>): string
  {
    if |parts| == 0 then ""
    else if |parts| == 1 then parts[0]
    else parts[0] + "," + JoinComma(parts[1..])
  }

  /**
   * JavaScript's `String(v)`, the coercion a regular expression's `test` applies to a
   * non-string argument, or `None` when it throws. Inside an array a `null` element prints
   * as the empty string, and the array throws when an element does.
   */
  function JsString(v: Json): (r: Option<string>)
    ensures r.None? <==> HasOwnToString(v)
    ensures v.JString? ==> r == Some(v.s)
  {
    match v
    case JNull => Some("null")
    case JBool(b) => Some(if b then "true" else "false")
    case JNumber(repr) => Some(repr)
    case JString(s) => Some(s)
    case JObject(own) => if own then None else Some("[object Object]")
    case JArray(items) =>
      var parts := seq(|items|, i requires 0 <= i < |items| =>
        if items[i].JNull? then Some("") else JsString(items[i]));
      assert HasOwnToString(v) ==> exists i :: 0 <= i < |parts| && parts[i].None? by {
        if HasOwnToString(v) {
          var k :| 0 <= k < |items| && HasOwnToString(items[k]);
          assert parts[k].None?;
        }
      }
      if exists i :: 0 <= i < |parts| && parts[i].None? then None
      else Some(JoinComma(seq(|parts|, i requires 0 <= i < |parts| => parts[i].value)))
  }

  /** An element the filter keeps: its string form passes `^[a-zA-Z]+$`. */
  predicate Passes(v: Json) {
    JsString(v).Some? && AllLetters(JsString(v).value)
  }

  /**
   * The filter-then-lower-case step over a list of strings: keep the words made only of
   * ASCII letters, in their order, lower-cased.
   */
  function Sanitize(ws: seq<string>): (r: seq<string>)
    ensures |r| <= |ws|
    ensures forall i :: 0 <= i < |r| ==> IsLowerWord(r[i])
    ensures forall v :: v in r <==> exists w :: w in ws && AllLetters(w) && v == ToLower(w)
  {
    if ws == [] then []
    else
      var rest := Sanitize(ws[1..]);
      assert forall w :: w in ws <==> w == ws[0] || w in ws[1..];
      if AllLetters(ws[0]) then [ToLower(ws[0])] + rest else rest
  }

  /** The value of `words.filter(...).map(w => w.toLowerCase())` on a parsed value, or the fallback when it throws. */
  function FromParsed(v: Json): (r: seq<string>)
    ensures forall i :: 0 <= i < |r| ==> IsLowerWord(r[i])
  {
    if !v.JArray? then
      FallbackWords                  // `filter` is not a function of a non-array
    else if exists i :: 0 <= i < |v.items| && JsString(v.items[i]).None? then
      FallbackWords                  // `test` throws converting the element to a string
    else if exists i :: 0 <= i < |v.items| && Passes(v.items[i]) && !v.items[i].JString? then
      FallbackWords                  // a kept non-string has no `toLowerCase`
    else
      Sanitize(seq(|v.items|, i requires 0 <= i < |v.items| => JsString(v.items[i]).value))
  }

  /** `generateWords` after the request: the word list the game receives for a reply. */
  function GenerateWords(reply: Reply): (r: seq<string>)
    ensures forall i :: 0 <= i < |r| ==> IsLowerWord(r[i])
  {
    match reply
    case Thrown => FallbackWords
    case Answered(text, parsed) =>
      if text == None || text == Some("") then ErrorWords
      else if parsed == None then FallbackWords
      else FromParsed(parsed.value)
  }

  /** An array of strings as the parser produces it. */
  function Strings(ws: seq<string>): (v: Json)
    ensures v.JArray? && |v.items| == |ws|
    ensures forall i :: 0 <= i < |ws| ==> v.items[i] == JString(ws[i])
  {
    JArray(seq(|ws|, i requires 0 <= i < |ws| => JString(ws[i])))
  }

  /** The game's word list for a reply, with the fallback list substituted when the filter leaves nothing. */
  function WordsForGame(reply: Reply): (r: seq<string>)
    ensures |r| > 0
    ensures forall i :: 0 <= i < |r| ==> IsLowerWord(r[i])
    ensures GenerateWords(reply) != [] ==> r == GenerateWords(reply)
    ensures GenerateWords(reply) == [] ==> r == FallbackWords
  {
    var ws := GenerateWords(reply);
    if ws == [] then FallbackWords else ws
  }

  /** Filtering distributes over concatenation, so the kept words stay in their input order. */
  lemma {:induction false} SanitizeAppend(a: seq<string>, b: seq<string>)
    ensures Sanitize(a + b) == Sanitize(a) + Sanitize(b)
    decreases |a|
  {
    if a == [] {
      assert a + b == b;
    } else {
      assert (a + b)[1..] == a[1..] + b;
      SanitizeAppend(a[1..], b);
    }
  }

  /** A word on its own is kept, lower-cased, exactly when it is all letters. */
  lemma SanitizeOne(w: string)
    ensures Sanitize([w]) == (if AllLetters(w) then [ToLower(w)] else [])
  {
    assert [w][1..] == [];
  }

  /** A list of lower-case words passes through unchanged. */
  lemma {:induction false} SanitizeFixesLowerWords(ws: seq<string>)
    requires forall i :: 0 <= i < |ws| ==> IsLowerWord(ws[i])
    ensures Sanitize(ws) == ws
    decreases |ws|
  {
    if ws != [] {
      SanitizeFixesLowerWords(ws[1..]);
    }
  }

  /** Sanitising twice is sanitising once. */
  lemma SanitizeIdempotent(ws: seq<string>)
    ensures Sanitize(Sanitize(ws)) == Sanitize(ws)
  {
    SanitizeFixesLowerWords(Sanitize(ws));
  }

  /** The filter leaves nothing exactly when no input word is all letters. */
  lemma SanitizeEmpty(ws: seq<string>)
    ensures Sanitize(ws) == [] <==> forall i :: 0 <= i < |ws| ==> !AllLetters(ws[i])
  {
    if Sanitize(ws) == [] {
      forall i | 0 <= i < |ws|
        ensures !AllLetters(ws[i])
      {
        assert ws[i] in ws;
      }
    }
  }

  /** A reply whose text parses to an array of strings yields the sanitised array. */
  lemma StringArrayReply(t: string, ws: seq<string>)
    requires t != ""
    ensures GenerateWords(Answered(Some(t), Some(Strings(ws)))) == Sanitize(ws)
  {
    var v := Strings(ws);
    var coerced := seq(|v.items|, i requires 0 <= i < |v.items| => JsString(v.items[i]).value);
    assert coerced == ws;
  }

  /** A missing or empty reply text yields the three-word error list. */
  lemma NoTextReply(p: Option<Json>)
    ensures GenerateWords(Answered(None, p)) == ErrorWords
    ensures GenerateWords(Answered(Some(""), p)) == ErrorWords
  {
  }

  /** A failed request, an unparseable text and a parsed non-array all yield the ten-word fallback list. */
  lemma FailureReplies(t: string, v: Json)
    requires t != "" && !v.JArray?
    ensures GenerateWords(Thrown) == FallbackWords
    ensures GenerateWords(Answered(Some(t), None)) == FallbackWords
    ensures GenerateWords(Answered(Some(t), Some(v))) == FallbackWords
  {
  }

  /** Both fixed lists consist of lower-case words only. */
  lemma FixedListsAreLowerWords()
    ensures |FallbackWords| == 10 && |ErrorWords| == 3
    ensures forall i :: 0 <= i < |FallbackWords| ==> IsLowerWord(FallbackWords[i])
    ensures forall i :: 0 <= i < |ErrorWords| ==> IsLowerWord(ErrorWords[i])
  {
  }

  /**
   * An array element that is not a string but whose string form is all letters (`null`,
   * `true`, `["Go"]`) passes the filter and then has no `toLowerCase`: the whole reply
   * falls back to the fixed list.
   */
  lemma KeptNonStringFallsBack(t: string, items: seq<Json>, k: nat)
    requires t != "" && k < |items| && !items[k].JString? && Passes(items[k])
    ensures GenerateWords(Answered(Some(t), Some(JArray(items)))) == FallbackWords
  {
  }

  /**
   * An element holding an object with its own `toString` member, at any depth, makes `test`
   * throw inside the filter: the whole reply falls back to the fixed list.
   */
  lemma OwnToStringFallsBack(t: string, items: seq<Json>, k: nat)
    requires t != "" && k < |items| && HasOwnToString(items[k])
    ensures GenerateWords(Answered(Some(t), Some(JArray(items)))) == FallbackWords
  {
  }

  /** The replies `[{"toString":"a"},"go"]` and `[[{"toString":"a"}],"go"]` fall back. */
  lemma ToStringMemberFallsBack()
    ensures GenerateWords(Answered(Some("[{\"toString\":\"a\"},\"go\"]"),
      Some(JArray([JObject(true), JString("go")])))) == FallbackWords
    ensures GenerateWords(Answered(Some("[[{\"toString\":\"a\"}],\"go\"]"),
      Some(JArray([JArray([JObject(true)]), JString("go")])))) == FallbackWords
  {
    OwnToStringFallsBack("[{\"toString\":\"a\"},\"go\"]", [JObject(true), JString("go")], 0);
    assert HasOwnToString(JArray([JObject(true)])) by {
      assert HasOwnToString([JObject(true)][0]);
    }
    OwnToStringFallsBack("[[{\"toString\":\"a\"}],\"go\"]", [JArray([JObject(true)]), JString("go")], 0);
  }

  /** An object without its own `toString` prints as "[object Object]", fails the filter and is dropped. */
  lemma PlainObjectDropped(t: string)
    requires t != ""
    ensures GenerateWords(Answered(Some(t), Some(JArray([JObject(false), JString("go")])))) == ["go"]
  {
    var items := [JObject(false), JString("go")];
    assert !IsLetter(JsString(items[0]).value[0]);
    assert !Passes(items[0]);
    var coerced := seq(|items|, i requires 0 <= i < |items| => JsString(items[i]).value);
    assert coerced == ["[object Object]", "go"];
    assert !AllLetters(coerced[0]);
    assert IsLowerWord("go");
    SanitizeOne("go");
    SanitizeAppend(["[object Object]"], ["go"]);
    assert Sanitize(["[object Object]"]) == [] by { SanitizeOne("[object Object]"); }
    assert ["[object Object]"] + ["go"] == coerced;
  }

  /** The null element of `["go", null]` is such an element. */
  lemma NullElementFallsBack()
    ensures GenerateWords(Answered(Some("[\"go\",null]"), Some(JArray([JString("go"), JNull])))) == FallbackWords
  {
    KeptNonStringFallsBack("[\"go\",null]", [JString("go"), JNull], 1);
  }

  /** A one-word array nested in the reply array prints as that word, passes the filter, and so falls back too. */
  lemma NestedArrayFallsBack()
    ensures GenerateWords(Answered(Some("[[\"go\"]]"), Some(JArray([JArray([JString("go")])])))) == FallbackWords
  {
    assert JsString(JArray([JString("go")])) == Some("go");
    KeptNonStringFallsBack("[[\"go\"]]", [JArray([JString("go")])], 0);
  }

  /**
   * As written, a reply with no all-letter word yields the empty list: no fallback is
   * substituted on this path.
   */
  lemma NoLetterWordsYieldEmpty(t: string, ws: seq<string>)
    requires t != ""
    requires forall i :: 0 <= i < |ws| ==> !AllLetters(ws[i])
    ensures GenerateWords(Answered(Some(t), Some(Strings(ws)))) == []
  {
    StringArrayReply(t, ws);
    SanitizeEmpty(ws);
  }

  /** The reply `["c++","x-ray"]` is one: the game receives no words at all. */
  lemma SymbolWordsYieldEmpty()
    ensures GenerateWords(Answered(Some("[\"c++\",\"x-ray\"]"), Some(Strings(["c++", "x-ray"])))) == []
    ensures WordsForGame(Answered(Some("[\"c++\",\"x-ray\"]"), Some(Strings(["c++", "x-ray"])))) == FallbackWords
  {
    var ws := ["c++", "x-ray"];
    assert !IsLetter(ws[0][1]) && !IsLetter(ws[1][1]);
    NoLetterWordsYieldEmpty("[\"c++\",\"x-ray\"]", ws);
  }
}
