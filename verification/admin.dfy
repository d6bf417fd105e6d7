/** The pure logic of the admin page: HTML escaping of values put into table
    cells, the id-to-name lookup in the cached area list, and the validation and
    request building of the record form. */
module Admin {
  import opened Optional
  import Text

  // ===== escapeHtml =====

  /** `s.replace(/target/g, replacement)` for a single-character pattern. */
  function ReplaceAll(s: string, target: char, replacement: string): string {
    if s == [] then []
    else (if s[0] == target then replacement else [s[0]]) + ReplaceAll(s[1..], target, replacement)
  }

  lemma {:induction false} ReplaceAllConcat(a: string, b: string, target: char, replacement: string)
    ensures ReplaceAll(a + b, target, replacement) == ReplaceAll(a, target, replacement) + ReplaceAll(b, target, replacement)
  {
    if a == [] {
      assert a + b == b;
    } else {
      assert (a + b)[1..] == a[1..] + b;
      ReplaceAllConcat(a[1..], b, target, replacement);
    }
  }

  lemma {:induction false} ReplaceAllAbsent(s: string, target: char, replacement: string)
    requires target !in s
    ensures ReplaceAll(s, target, replacement) == s
  {
    if s != [] {
      assert s == [s[0]] + s[1..];
      ReplaceAllAbsent(s[1..], target, replacement);
    }
  }

  lemma ReplaceAllChar(c: char, target: char, replacement: string)
    ensures ReplaceAll([c], target, replacement) == if c == target then replacement else [c]
  {
    assert [c][1..] == [];
  }

  /** The five replacements of `escapeHtml`, `&` first. */
  function ReplaceChain(s: string): string {
    var amp := ReplaceAll(s, '&', "&amp;");
    var lt := ReplaceAll(amp, '<', "&lt;");
    var gt := ReplaceAll(lt, '>', "&gt;");
    var quot := ReplaceAll(gt, '"', "&quot;");
    ReplaceAll(quot, '\'', "&#39;")
  }

  /** The entity each markup character becomes. */
  function EscapeChar(c: char): string {
    match c
    case '&' => "&amp;"
    case '<' => "&lt;"
    case '>' => "&gt;"
    case '"' => "&quot;"
    case '\'' => "&#39;"
    case _ => [c]
  }

  /** Escaping character by character. */
  function EscapeEach(s: string): string {
    if s == [] then [] else EscapeChar(s[0]) + EscapeEach(s[1..])
  }

  lemma ReplaceChainConcat(a: string, b: string)
    ensures ReplaceChain(a + b) == ReplaceChain(a) + ReplaceChain(b)
  {
    var amp := ReplaceAll(a + b, '&', "&amp;");
    ReplaceAllConcat(a, b, '&', "&amp;");
    var a1, b1 := ReplaceAll(a, '&', "&amp;"), ReplaceAll(b, '&', "&amp;");
    ReplaceAllConcat(a1, b1, '<', "&lt;");
    var a2, b2 := ReplaceAll(a1, '<', "&lt;"), ReplaceAll(b1, '<', "&lt;");
    ReplaceAllConcat(a2, b2, '>', "&gt;");
    var a3, b3 := ReplaceAll(a2, '>', "&gt;"), ReplaceAll(b2, '>', "&gt;");
    ReplaceAllConcat(a3, b3, '"', "&quot;");
    var a4, b4 := ReplaceAll(a3, '"', "&quot;"), ReplaceAll(b3, '"', "&quot;");
    ReplaceAllConcat(a4, b4, '\'', "&#39;");
  }

  /** One replacement applied to text that is the single character `c` or does
      not contain the target. */
  lemma ReplaceStep(s: string, target: char, replacement: string, c: char)
    requires s == [c] || target !in s
    ensures ReplaceAll(s, target, replacement) == if s == [c] && c == target then replacement else s
  {
    if s == [c] {
      ReplaceAllChar(c, target, replacement);
    } else {
      ReplaceAllAbsent(s, target, replacement);
    }
  }

  // One lemma per markup character keeps each proof obligation small. Each is
  // stated on a character `c` pinned by its requires rather than on the literal:
  // on literal text the verifier unfolds ReplaceAll eagerly and runs out of
  // resources, while on `[c]` it only takes the steps ReplaceStep gives it.

  /** The replacements after the first leave text without the other four
      markup characters alone. */
  lemma ChainAfterAmp(t: string)
    requires '<' !in t && '>' !in t && '"' !in t && '\'' !in t
    ensures ReplaceAll(ReplaceAll(ReplaceAll(ReplaceAll(t, '<', "&lt;"), '>', "&gt;"), '"', "&quot;"), '\'', "&#39;") == t
  {
    ReplaceAllAbsent(t, '<', "&lt;");
    ReplaceAllAbsent(t, '>', "&gt;");
    ReplaceAllAbsent(t, '"', "&quot;");
    ReplaceAllAbsent(t, '\'', "&#39;");
  }

  lemma ChainOnAmp(c: char)
    requires c == '&'
    ensures ReplaceChain([c]) == "&amp;"
  {
    ReplaceStep([c], '&', "&amp;", c);
    ChainAfterAmp("&amp;");
  }

  lemma ChainOnLt(c: char)
    requires c == '<'
    ensures ReplaceChain([c]) == "&lt;"
  {
    ReplaceStep([c], '&', "&amp;", c);
    ReplaceStep([c], '<', "&lt;", c);
    ReplaceStep("&lt;", '>', "&gt;", c);
  }

  lemma ChainOnGt(c: char)
    requires c == '>'
    ensures ReplaceChain([c]) == "&gt;"
  {
    ReplaceStep([c], '&', "&amp;", c);
    ReplaceStep([c], '<', "&lt;", c);
    ReplaceStep([c], '>', "&gt;", c);
    ReplaceStep("&gt;", '"', "&quot;", c);
  }

  lemma ChainOnQuot(c: char)
    requires c == '"'
    ensures ReplaceChain([c]) == "&quot;"
  {
    ReplaceStep([c], '&', "&amp;", c);
    ReplaceStep([c], '<', "&lt;", c);
    ReplaceStep([c], '>', "&gt;", c);
    ReplaceStep([c], '"', "&quot;", c);
    ReplaceStep("&quot;", '\'', "&#39;", c);
  }

  lemma ChainOnApos(c: char)
    requires c == '\''
    ensures ReplaceChain([c]) == "&#39;"
  {
    ReplaceStep([c], '&', "&amp;", c);
    ReplaceStep([c], '<', "&lt;", c);
    ReplaceStep([c], '>', "&gt;", c);
    ReplaceStep([c], '"', "&quot;", c);
    ReplaceStep([c], '\'', "&#39;", c);
  }

  lemma ChainOnPlain(c: char)
    requires c !in "&<>\"'"
    ensures ReplaceChain([c]) == [c]
  {
    ReplaceStep([c], '&', "&amp;", c);
    ReplaceStep([c], '<', "&lt;", c);
    ReplaceStep([c], '>', "&gt;", c);
    ReplaceStep([c], '"', "&quot;", c);
    ReplaceStep([c], '\'', "&#39;", c);
  }

  /** On a single character the chain produces that character's entity: no later
      replacement touches what an earlier one inserted. */
  lemma ReplaceChainChar(c: char)
    ensures ReplaceChain([c]) == EscapeChar(c)
  {
    if c == '&' {
      ChainOnAmp(c);
    } else if c == '<' {
      ChainOnLt(c);
    } else if c == '>' {
      ChainOnGt(c);
    } else if c == '"' {
      ChainOnQuot(c);
    } else if c == '\'' {
      ChainOnApos(c);
    } else {
      ChainOnPlain(c);
    }
  }

  /** The chain of global replacements equals escaping each character on its own,
      so an `&` of the input is escaped exactly once and no entity is escaped
      again. */
  lemma {:induction false} ReplaceChainIsPerCharacter(s: string)
    ensures ReplaceChain(s) == EscapeEach(s)
  {
    if s != [] {
      assert s == [s[0]] + s[1..];
      ReplaceChainConcat([s[0]], s[1..]);
      ReplaceChainChar(s[0]);
      ReplaceChainIsPerCharacter(s[1..]);
    }
  }

  /** `escapeHtml(str)` on the values it meets: `null` and `undefined` give the
      empty string, anything else is escaped after `String(str)`. */
  function EscapeHtml(str: JsValue): (r: string)
    ensures str.Undefined? || str.Null? ==> r == ""
    ensures str.Str? ==> r == EscapeEach(str.s)
    ensures str.Num? ==> r == Text.ShowInt(str.n)
    ensures forall i :: 0 <= i < |r| ==> r[i] != '<' && r[i] != '>' && r[i] != '"' && r[i] != '\''
  {
    var text := match str
      case Undefined => ""
      case Null => ""
      case Num(n) => Text.ShowInt(n)
      case Str(s) => s;
    ReplaceChainIsPerCharacter(text);
    EscapeEachHasNoMarkup(text);
    assert str.Num? ==> EscapeEach(text) == text by {
      if str.Num? {
        ShowIntIsPlain(str.n);
        EscapeEachPlain(text);
      }
    }
    if str.Undefined? || str.Null? then "" else ReplaceChain(text)
  }

  /** The decimal text of a number holds none of the five markup characters. */
  lemma ShowIntIsPlain(n: int)
    ensures forall i :: 0 <= i < |Text.ShowInt(n)| ==> Text.ShowInt(n)[i] !in "&<>\"'"
  {
    var digits := Text.ShowNat(if n < 0 then -n else n);
    forall i | 0 <= i < |Text.ShowInt(n)| ensures Text.ShowInt(n)[i] !in "&<>\"'" {
      if n < 0 && i > 0 {
        assert Text.ShowInt(n)[i] == digits[i - 1];
        assert Text.IsDigit(digits[i - 1]);
      } else if n >= 0 {
        assert Text.IsDigit(digits[i]);
      }
    }
  }

  lemma {:induction false} EscapeEachHasNoMarkup(s: string)
    ensures forall i :: 0 <= i < |EscapeEach(s)| ==> EscapeEach(s)[i] !in "<>\"'"
  {
    if s != [] {
      EscapeEachHasNoMarkup(s[1..]);
      var e := EscapeChar(s[0]);
      assert forall i :: 0 <= i < |e| ==> e[i] !in "<>\"'";
      var r := EscapeEach(s);
      forall i | 0 <= i < |r| ensures r[i] !in "<>\"'" {
        if i >= |e| {
          assert r[i] == EscapeEach(s[1..])[i - |e|];
        }
      }
    }
  }

  /** A string without any of the five markup characters is returned unchanged. */
  lemma {:induction false} EscapeEachPlain(s: string)
    requires forall i :: 0 <= i < |s| ==> s[i] !in "&<>\"'"
    ensures EscapeEach(s) == s
  {
    if s != [] {
      assert s[0] !in "&<>\"'";
      EscapeEachPlain(s[1..]);
      assert s == [s[0]] + s[1..];
    }
  }

  /** Decoding the five entities `escapeHtml` writes. */
  function Unescape(s: string): string
    decreases |s|
  {
    if s == [] then []
    else if s[0] != '&' then [s[0]] + Unescape(s[1..])
    else if |s| >= 5 && s[..5] == "&amp;" then "&" + Unescape(s[5..])
    else if |s| >= 4 && s[..4] == "&lt;" then "<" + Unescape(s[4..])
    else if |s| >= 4 && s[..4] == "&gt;" then ">" + Unescape(s[4..])
    else if |s| >= 6 && s[..6] == "&quot;" then "\"" + Unescape(s[6..])
    else if |s| >= 5 && s[..5] == "&#39;" then "'" + Unescape(s[5..])
    else [s[0]] + Unescape(s[1..])
  }

  lemma UnescapeEntity(c: char, rest: string)
    ensures Unescape(EscapeChar(c) + rest) == [c] + Unescape(rest)
  {
    var e := EscapeChar(c);
    var t := e + rest;
    assert t[..|e|] == e && t[|e|..] == rest;
    if c == '&' {
      assert t[..5] == "&amp;";
    } else if c == '<' {
      assert t[1] == 'l' && t[..4] == "&lt;";
    } else if c == '>' {
      assert t[1] == 'g' && t[2] == 't' && t[..4] == "&gt;";
    } else if c == '"' {
      assert t[1] == 'q' && t[..6] == "&quot;";
    } else if c == '\'' {
      assert t[1] == '#' && t[..5] == "&#39;";
    } else {
      assert t[0] == c && t[1..] == rest;
    }
  }

  /** Escaping loses nothing: decoding the entities gives the original text back. */
  lemma {:induction false} UnescapeEscapeHtml(s: string)
    ensures Unescape(EscapeHtml(Str(s))) == s
  {
    if s != [] {
      UnescapeEscapeHtml(s[1..]);
      UnescapeEntity(s[0], EscapeEach(s[1..]));
      assert s == [s[0]] + s[1..];
    }
  }

  // ===== areaNameById =====

  /** The JavaScript values the lookup meets. */
  datatype JsValue = Undefined | Null | Num(n: int) | Str(s: string)

  /** `Number(v)`, with `None` for `NaN`. */
  function ToNumber(v: JsValue): Option<int> {
    match v
    case Undefined => None
    case Null => Some(0)
    case Num(n) => Some(n)
    case Str(s) => Text.JsNumber(s)
  }

  /** `Number(a) === Number(b)`: never true when either side is `NaN`. */
  predicate SameNumber(a: JsValue, b: JsValue) {
    ToNumber(a).Some? && ToNumber(a) == ToNumber(b)
  }

  /** An element of the cached `GET areas` result. */
  datatype CachedArea = CachedArea(id: JsValue, name: JsValue)

  /** `cache.find(x => Number(x.id) === Number(id))`, as an index. */
  function FindCached(cache: seq<CachedArea>, id: JsValue): (r: Option<nat>)
    ensures r.Some? ==> r.value < |cache| && SameNumber(cache[r.value].id, id)
    ensures r.Some? ==> forall j :: 0 <= j < r.value ==> !SameNumber(cache[j].id, id)
    ensures r.None? ==> forall j :: 0 <= j < |cache| ==> !SameNumber(cache[j].id, id)
  {
    if cache == [] then None
    else if SameNumber(cache[0].id, id) then Some(0)
    else match FindCached(cache[1..], id)
      case None => None
      case Some(k) => Some(k + 1)
  }

  /** `areaNameById(id)` with the areas cache `cache` (`None` while not loaded):
      the name of the first cached area whose numeric id equals `id`'s, else `id`. */
  function AreaNameById(cache: Option<seq<CachedArea>>, id: JsValue): (r: JsValue)
    ensures cache.None? ==> r == id
    ensures cache.Some? && (forall j :: 0 <= j < |cache.value| ==> !SameNumber(cache.value[j].id, id)) ==> r == id
    ensures cache.Some? ==> forall k ::
              (&& 0 <= k < |cache.value|
               && SameNumber(cache.value[k].id, id)
               && (forall j :: 0 <= j < k ==> !SameNumber(cache.value[j].id, id)))
              ==> r == cache.value[k].name
  {
    match cache
    case None => id
    case Some(areas) =>
      match FindCached(areas, id)
      case None => id
      case Some(k) => areas[k].name
  }

  // ===== submitForm =====

  /** The values of the form's inputs. */
  datatype Form = Form(
    id: string,
    areaId: string,
    commonName: string,
    species: string,
    countEst: string,
    averageAgeYears: string,
    lastSeen: string,
    notes: string)

  /** The JSON object sent; `None` is `null`, or an omitted member for `id`. */
  datatype Payload = Payload(
    id: Option<string>,
    areaId: string,
    commonName: string,
    species: string,
    countEst: int,
    averageAgeYears: Option<string>,
    lastSeen: Option<string>,
    notes: Option<string>)

  /** What submitting the form does: an alert and no request, or one request. */
  datatype Submission = Rejected(alert: string) | Send(verb: string, payload: Payload)

  const SelectAreaAlert: string := "Please select an area."
  const CommonNameAlert: string := "Please enter a common name."

  /** `value || null` on an input's text. */
  function OrNull(value: string): (r: Option<string>)
    ensures r.None? <==> value == ""
    ensures r.Some? ==> r.value == value
  {
    if value == "" then None else Some(value)
  }

  /** `Number(value) || 0`: a number, with `NaN` read as 0. */
  function CountOf(value: string): (n: int)
    ensures Text.JsNumber(value) == Some(n) || (Text.JsNumber(value).None? && n == 0)
  {
    Text.JsNumber(value).GetOr(0)
  }

  /** The object `submitForm` builds: the hidden id is left out when empty, the
      optional inputs become `null` when empty, and the count is a number. */
  function BuildPayload(form: Form): (p: Payload)
    ensures p.id.None? <==> form.id == ""
    ensures p.averageAgeYears.None? <==> form.averageAgeYears == ""
    ensures p.lastSeen.None? <==> form.lastSeen == ""
    ensures p.notes.None? <==> form.notes == ""
    ensures p.id.Some? ==> p.id.value == form.id
    ensures p.averageAgeYears.Some? ==> p.averageAgeYears.value == form.averageAgeYears
    ensures p.lastSeen.Some? ==> p.lastSeen.value == form.lastSeen
    ensures p.notes.Some? ==> p.notes.value == form.notes
    ensures p.areaId == form.areaId && p.commonName == form.commonName && p.species == form.species
    ensures Text.JsNumber(form.countEst) == Some(p.countEst) || (Text.JsNumber(form.countEst).None? && p.countEst == 0)
  {
    Payload(OrNull(form.id), form.areaId, form.commonName, form.species,
            CountOf(form.countEst), OrNull(form.averageAgeYears), OrNull(form.lastSeen), OrNull(form.notes))
  }

  /** `submitForm`: a missing area or a blank common name is refused with an
      alert; otherwise the payload is sent, with PUT when the hidden id is filled
      in and POST when it is empty. */
  function SubmitForm(form: Form): (d: Submission)
    ensures d.Rejected? <==>
              form.areaId == "" || forall i :: 0 <= i < |form.commonName| ==> Text.IsJsSpace(form.commonName[i])
    ensures form.areaId == "" ==> d == Rejected(SelectAreaAlert)
    ensures form.areaId != "" && d.Rejected? ==> d == Rejected(CommonNameAlert)
    ensures d.Send? ==> d.payload == BuildPayload(form)
    ensures d.Send? ==> (d.verb == "PUT" <==> form.id != "") && (d.verb == "POST" <==> form.id == "")
  {
    var payload := BuildPayload(form);
    if payload.areaId == "" then Rejected(SelectAreaAlert)
    else if payload.commonName == "" || Text.Trim(payload.commonName) == "" then Rejected(CommonNameAlert)
    else if form.id != "" then Send("PUT", payload)
    else Send("POST", payload)
  }

  /** A count typed as the decimal text of an integer is sent as that integer. */
  lemma CountOfShowInt(n: int)
    requires -Text.JsExactLimit <= n <= Text.JsExactLimit
    ensures CountOf(Text.ShowInt(n)) == n
  {
    Text.JsNumberShowInt(n);
  }
}
