/** `OllamaClient` (mealie_toolkit/ollama_client.py): the prompt inputs and
    the reply-parsing rules of its two questions to the language model. The
    model itself is an oracle, a function from the generate request to the
    decoded reply; the wording of the prompts is not modelled, only what goes
    into them. */
module Oracle {
  import opened Base
  import Text

  /** The default arguments of `OllamaClient.__init__`. */
  const DefaultUrl: string := "http://localhost:11434"
  const DefaultModel: string := "gemma3:12b"

  /** At most this many ingredient names go into a tag prompt. */
  const MaxIngredients: nat := 15

  const InvalidReply: string := "Invalid response from Ollama"

  datatype OllamaClient = OllamaClient(url: string, model: string)

  /** `OllamaClient.__init__`: the URL loses its trailing slashes. */
  function NewOllamaClient(url: string, model: string): (c: OllamaClient)
    ensures c.model == model
    ensures c.url <= url
    ensures c.url == [] || c.url[|c.url| - 1] != '/'
    ensures forall i :: |c.url| <= i < |url| ==> url[i] == '/'
  {
    OllamaClient(Text.RStrip(url, '/'), model)
  }

  /** `OllamaClient()` with its default arguments: the default URL has no
      trailing slash, so the client keeps both defaults as they are. */
  function NewOllamaClientDefaults(): (c: OllamaClient)
    ensures c.url == DefaultUrl && c.model == DefaultModel
  {
    NewOllamaClient(DefaultUrl, DefaultModel)
  }

  /** What goes into a prompt. */
  datatype Prompt =
    | CategoryPrompt(recipe: string, categoryList: string)
    | TagPrompt(tag: string, recipeName: Json, description: Json, ingredients: Option<string>)

  /** The body POSTed to `<url>/api/generate`. */
  datatype GenerateRequest = GenerateRequest(endpoint: string, model: string, prompt: Prompt, stream: bool)

  /** The decoded reply, or a transport failure / non-2xx status. */
  datatype ModelReply = TransportFailure | Body(data: Object)

  type Generator = GenerateRequest -> ModelReply

  function RequestFor(url: string, model: string, prompt: Prompt): GenerateRequest
  {
    GenerateRequest(url + "/api/generate", model, prompt, false)
  }

  // ---------------------------------------------------------------------
  // Reply parsing

  /** `data["response"].strip()`, with the missing key and the non-string
      value as errors. */
  function ReplyText(data: Object): (r: Result<string>)
    ensures "response" !in data <==> r == Err(ValueError(InvalidReply))
  {
    if "response" !in data then Err(ValueError(InvalidReply))
    else if data["response"].JStr? then Ok(Text.Strip(data["response"].s))
    else Err(AttributeError)
  }

  /** The reply rule of `categorize_recipe`. */
  function ParseCategory(data: Object): Result<string>
  {
    var text :- ReplyText(data);
    if Text.Upper(text) == "NONE" then Ok("") else Ok(text)
  }

  /** The reply rule of `check_tag_applies`. */
  function ParseVerdict(data: Object): Result<bool>
  {
    var text :- ReplyText(data);
    Ok(Text.StartsWith(Text.Upper(text), "YES"))
  }

  predicate IsN(c: char) { c == 'n' || c == 'N' }
  predicate IsO(c: char) { c == 'o' || c == 'O' }
  predicate IsE(c: char) { c == 'e' || c == 'E' }
  predicate IsY(c: char) { c == 'y' || c == 'Y' }
  predicate IsS(c: char) { c == 's' || c == 'S' }

  /** "NONE" written in any mix of cases. */
  predicate IsNoneWord(t: string)
  {
    |t| == 4 && IsN(t[0]) && IsO(t[1]) && IsN(t[2]) && IsE(t[3])
  }

  /** Starts with "YES" written in any mix of cases. */
  predicate StartsWithYes(t: string)
  {
    |t| >= 3 && IsY(t[0]) && IsE(t[1]) && IsS(t[2])
  }

  lemma UpperIsNone(t: string)
    ensures Text.Upper(t) == "NONE" <==> IsNoneWord(t)
  {
    var u := Text.Upper(t);
    if IsNoneWord(t) {
      assert u == "NONE" by {
        assert |u| == 4;
        forall i | 0 <= i < 4 ensures u[i] == "NONE"[i] {
          assert u[i] == Text.UpperChar(t[i]);
        }
      }
    }
    if u == "NONE" {
      assert u[0] == 'N' && u[1] == 'O' && u[2] == 'N' && u[3] == 'E';
      assert Text.UpperChar(t[0]) == 'N' && Text.UpperChar(t[1]) == 'O';
      assert Text.UpperChar(t[2]) == 'N' && Text.UpperChar(t[3]) == 'E';
    }
  }

  lemma UpperStartsWithYes(t: string)
    ensures Text.StartsWith(Text.Upper(t), "YES") <==> StartsWithYes(t)
  {
    var u := Text.Upper(t);
    if StartsWithYes(t) {
      assert u[..3] == "YES" by {
        forall i | 0 <= i < 3 ensures u[..3][i] == "YES"[i] {
          assert u[i] == Text.UpperChar(t[i]);
        }
      }
    }
    if Text.StartsWith(u, "YES") {
      assert u[..3][0] == 'Y' && u[..3][1] == 'E' && u[..3][2] == 'S';
      assert Text.UpperChar(t[0]) == 'Y' && Text.UpperChar(t[1]) == 'E' && Text.UpperChar(t[2]) == 'S';
    }
  }

  /** `categorize_recipe`'s rule: the answer is "" exactly when the trimmed
      reply is empty or is "NONE" in any case; otherwise it is the trimmed
      reply verbatim, with its case kept. A missing `response` is the
      ValueError, a non-string one fails on `.strip()`. */
  lemma ParseCategoryRule(data: Object)
    ensures "response" !in data ==> ParseCategory(data) == Err(ValueError(InvalidReply))
    ensures "response" in data && !data["response"].JStr? ==> ParseCategory(data) == Err(AttributeError)
    ensures "response" in data && data["response"].JStr? ==>
      var t := Text.Strip(data["response"].s);
      && (ParseCategory(data) == Ok("") <==> t == "" || IsNoneWord(t))
      && (ParseCategory(data) != Ok("") ==> ParseCategory(data) == Ok(t))
  {
    if "response" in data && data["response"].JStr? {
      UpperIsNone(Text.Strip(data["response"].s));
    }
  }

  /** `check_tag_applies`'s rule: true exactly when the trimmed reply begins
      with "YES" in any case. */
  lemma ParseVerdictRule(data: Object)
    ensures "response" !in data ==> ParseVerdict(data) == Err(ValueError(InvalidReply))
    ensures "response" in data && !data["response"].JStr? ==> ParseVerdict(data) == Err(AttributeError)
    ensures "response" in data && data["response"].JStr? ==>
      ParseVerdict(data) == Ok(StartsWithYes(Text.Strip(data["response"].s)))
  {
    if "response" in data && data["response"].JStr? {
      UpperStartsWithYes(Text.Strip(data["response"].s));
    }
  }

  function ReplyOf(text: string): Object
  {
    map["response" := JStr(text)]
  }

  /** Whitespace around the reply never changes either answer. */
  lemma {:induction false} SurroundingSpaceIgnored(a: string, t: string, c: string)
    requires Text.AllSpace(a) && Text.AllSpace(c)
    ensures ParseCategory(ReplyOf(a + t + c)) == ParseCategory(ReplyOf(t))
    ensures ParseVerdict(ReplyOf(a + t + c)) == ParseVerdict(ReplyOf(t))
  {
    Text.StripPadded(a, t, c);
  }

  lemma ReplyTextOf(t: string)
    ensures ReplyText(ReplyOf(t)) == Ok(Text.Strip(t))
  {
  }

  lemma CategoryOfStripped(t: string)
    requires Text.Strip(t) == t
    ensures ParseCategory(ReplyOf(t)) == if Text.Upper(t) == "NONE" then Ok("") else Ok(t)
  {
    ReplyTextOf(t);
  }

  lemma VerdictOfStripped(t: string)
    requires Text.Strip(t) == t
    ensures ParseVerdict(ReplyOf(t)) == Ok(Text.StartsWith(Text.Upper(t), "YES"))
  {
    ReplyTextOf(t);
  }

  /** A trimmed reply that is not "NONE" in any case is the answer as it is. */
  lemma PlainCategoryKept(t: string)
    requires t != [] && !Text.IsSpace(t[0]) && !Text.IsSpace(t[|t| - 1])
    requires !IsNoneWord(t)
    ensures ParseCategory(ReplyOf(t)) == Ok(t)
  {
    Text.StripUnchanged(t);
    UpperIsNone(t);
    CategoryOfStripped(t);
  }

  lemma NoneWordNormal(t: string)
    requires IsNoneWord(t)
    ensures Text.Strip(t) == t
  {
    assert !Text.IsSpace(t[0]) && !Text.IsSpace(t[|t| - 1]);
    Text.StripUnchanged(t);
  }

  /** "NONE" in any mix of cases means no suggestion. */
  lemma NoneWordGivesEmpty(t: string)
    requires IsNoneWord(t)
    ensures ParseCategory(ReplyOf(t)) == Ok("")
  {
    NoneWordNormal(t);
    UpperIsNone(t);
    CategoryOfStripped(t);
  }

  /** A trimmed reply is a yes exactly when it begins with "yes" in any case. */
  lemma PlainVerdict(t: string)
    requires t == [] || (!Text.IsSpace(t[0]) && !Text.IsSpace(t[|t| - 1]))
    ensures ParseVerdict(ReplyOf(t)) == Ok(StartsWithYes(t))
  {
    Text.StripUnchanged(t);
    VerdictOfStripped(t);
    UpperStartsWithYes(t);
  }

  // ---------------------------------------------------------------------
  // categorize_recipe

  /** The category list of the prompt: the names joined by ", ". */
  function CategoryList(categories: seq<string>): string
  {
    Text.Join(categories, ", ")
  }

  function CategorizeRequest(client: OllamaClient, recipeName: string, categories: seq<string>): GenerateRequest
  {
    RequestFor(client.url, client.model, CategoryPrompt(recipeName, CategoryList(categories)))
  }

  /** `categorize_recipe`: one non-streaming request; the answer is not
      checked against the offered categories. */
  function CategorizeRecipe(client: OllamaClient, generate: Generator, recipeName: string, categories: seq<string>)
    : (r: Result<string>)
    ensures r == Err(HttpError) <==> generate(CategorizeRequest(client, recipeName, categories)).TransportFailure?
    ensures generate(CategorizeRequest(client, recipeName, categories)).Body? ==>
      r == ParseCategory(generate(CategorizeRequest(client, recipeName, categories)).data)
  {
    match generate(CategorizeRequest(client, recipeName, categories))
    case TransportFailure => Err(HttpError)
    case Body(data) => ParseCategory(data)
  }

  /** The prompt names the recipe and lists the categories joined by ", ";
      the request goes to `<url>/api/generate`, not streamed. */
  lemma CategorizePromptInputs(client: OllamaClient, recipeName: string, a: string, b: string, c: string)
    ensures CategorizeRequest(client, recipeName, [a, b, c])
      == GenerateRequest(client.url + "/api/generate", client.model, CategoryPrompt(recipeName, a + ", " + b + ", " + c), false)
    ensures CategoryList([a]) == a
    ensures CategoryList([]) == ""
  {
    var cs := [a, b, c];
    assert cs[1..] == [b, c];
    assert [b, c][1..] == [c];
    assert Text.Join([c], ", ") == c;
    assert Text.Join([b, c], ", ") == b + ", " + c;
    assert Text.Join(cs, ", ") == a + ", " + (b + ", " + c);
    assert a + ", " + (b + ", " + c) == a + ", " + b + ", " + c;
  }

  /** The answer is not checked against the offered categories: any trimmed
      reply that is not "NONE" comes back as the category, whatever was
      offered. */
  lemma CategorizeDoesNotValidate(client: OllamaClient, generate: Generator, recipeName: string,
                                  categories: seq<string>, t: string)
    requires generate(CategorizeRequest(client, recipeName, categories)) == Body(ReplyOf(t))
    requires t != [] && !Text.IsSpace(t[0]) && !Text.IsSpace(t[|t| - 1]) && !IsNoneWord(t)
    ensures CategorizeRecipe(client, generate, recipeName, categories) == Ok(t)
  {
    PlainCategoryKept(t);
  }

  // ---------------------------------------------------------------------
  // check_tag_applies: ingredient names

  /** The iteration of `recipe.get("recipeIngredient", [])`: a list yields its
      entries; a falsy value is skipped; a string or dict yields characters or
      keys, none of them a dict, so nothing; a truthy number or `true` cannot
      be iterated. */
  function EntriesOf(ingredients: Json): Result<seq<Json>>
  {
    match ingredients
    case JArr(entries) => Ok(entries)
    case JNum(n) => if n == 0 then Ok([]) else Err(TypeError)
    case JBool(b) => if b then Err(TypeError) else Ok([])
    case _ => Ok([])
  }

  /** `ing.get("ingredient", {}).get("name", "")` for one entry, kept when it
      is truthy. A non-dict entry is skipped; a non-dict "ingredient" has no
      `.get`. */
  function NameOf(entry: Json): Result<Option<Json>>
  {
    match entry
    case JObj(f) =>
      var inner := Get(f, "ingredient", JObj(map[]));
      if !inner.JObj? then Err(AttributeError)
      else
        var name := Get(inner.fields, "name", JStr(""));
        if Truthy(name) then Ok(Some(name)) else Ok(None)
    case _ => Ok(None)
  }

  /** The names the extraction loop keeps, in entry order, or the error that
      stops it. */
  function KeptNames(entries: seq<Json>): (r: Result<seq<Json>>)
    ensures r.Ok? ==> |r.value| <= |entries|
  {
    if entries == [] then Ok([])
    else
      var names :- KeptNames(entries[..|entries| - 1]);
      var name :- NameOf(entries[|entries| - 1]);
      match name
      case None => Ok(names)
      case Some(n) => Ok(names + [n])
  }

  /** Every kept name is truthy: empty names are dropped. */
  lemma {:induction false} KeptNamesTruthy(entries: seq<Json>)
    requires KeptNames(entries).Ok?
    ensures forall i :: 0 <= i < |KeptNames(entries).value| ==> Truthy(KeptNames(entries).value[i])
  {
    if entries != [] {
      var init := entries[..|entries| - 1];
      KeptNamesTruthy(init);
      var names := KeptNames(init).value;
      var r := KeptNames(entries).value;
      forall i | 0 <= i < |r| ensures Truthy(r[i]) {
        if i < |names| {
          assert r[i] == names[i];
        }
      }
    }
  }

  function Combine(a: Result<seq<Json>>, b: Result<seq<Json>>): Result<seq<Json>>
  {
    if a.Err? then a else if b.Err? then b else Ok(a.value + b.value)
  }

  /** Extraction works entry by entry in order: the names of x + y are the
      names of x followed by those of y, and the first error wins. */
  lemma {:induction false} KeptNamesAppend(x: seq<Json>, y: seq<Json>)
    ensures KeptNames(x + y) == Combine(KeptNames(x), KeptNames(y))
    decreases |y|
  {
    if y == [] {
      assert x + y == x;
      if KeptNames(x).Ok? {
        assert KeptNames(x).value + [] == KeptNames(x).value;
      }
    } else {
      var y' := y[..|y| - 1];
      assert (x + y)[..|x + y| - 1] == x + y';
      assert (x + y)[|x + y| - 1] == y[|y| - 1];
      KeptNamesAppend(x, y');
      if KeptNames(x).Ok? && KeptNames(y').Ok? && NameOf(y[|y| - 1]).Ok? && NameOf(y[|y| - 1]).value.Some? {
        assert KeptNames(x).value + KeptNames(y').value + [NameOf(y[|y| - 1]).value.value]
          == KeptNames(x).value + (KeptNames(y').value + [NameOf(y[|y| - 1]).value.value]);
      }
    }
  }

  function IngredientEntry(name: string): Json
  {
    JObj(map["ingredient" := JObj(map["name" := JStr(name)])])
  }

  lemma KeptNamesSingle(e: Json)
    ensures KeptNames([e]) == match NameOf(e)
      case Err(x) => Err(x)
      case Ok(None) => Ok([])
      case Ok(Some(n)) => Ok([n])
  {
    assert [e][..0] == [];
    assert KeptNames([]) == Ok([]);
    match NameOf(e)
    case Ok(Some(n)) =>
      assert [] + [n] == [n];
    case _ =>
  }

  /** One more entry after a successful extraction adds its name, if any; an
      error in it stops the extraction. */
  lemma KeptNamesSnoc(x: seq<Json>, e: Json)
    requires KeptNames(x).Ok?
    ensures KeptNames(x + [e]) == match NameOf(e)
      case Err(err) => Err(err)
      case Ok(None) => KeptNames(x)
      case Ok(Some(n)) => Ok(KeptNames(x).value + [n])
  {
    assert (x + [e])[..|x + [e]| - 1] == x;
    assert (x + [e])[|x + [e]| - 1] == e;
  }

  lemma NameOfEntry(name: string)
    ensures NameOf(IngredientEntry(name)) == if name == "" then Ok(None) else Ok(Some(JStr(name)))
  {
  }

  /** Only dict entries with a non-empty ingredient name are kept, in order:
      a bare string, an empty name and an entry without "ingredient" are
      skipped. */
  lemma KeptNamesExample(a: string, b: string, other: Json)
    requires a != "" && b != ""
    ensures KeptNames([IngredientEntry(a), JStr(a), IngredientEntry(""), JObj(map["note" := other]), IngredientEntry(b)])
      == Ok([JStr(a), JStr(b)])
  {
    var e1, e2, e3, e4, e5 := IngredientEntry(a), JStr(a), IngredientEntry(""), JObj(map["note" := other]), IngredientEntry(b);
    NameOfEntry(a);
    NameOfEntry("");
    NameOfEntry(b);
    assert NameOf(e4) == Ok(None);
    KeptNamesSingle(e1);
    var s2, s3, s4, s5 := [e1, e2], [e1, e2, e3], [e1, e2, e3, e4], [e1, e2, e3, e4, e5];
    assert s2 == [e1] + [e2];
    KeptNamesSnoc([e1], e2);
    assert s3 == s2 + [e3];
    KeptNamesSnoc(s2, e3);
    assert s4 == s3 + [e4];
    KeptNamesSnoc(s3, e4);
    assert s5 == s4 + [e5];
    KeptNamesSnoc(s4, e5);
    assert [JStr(a)] + [JStr(b)] == [JStr(a), JStr(b)];
  }

  /** An entry whose "ingredient" is null stops the extraction with the
      error of calling `.get` on it, whatever came before. */
  lemma KeptNamesNullIngredient(before: seq<Json>)
    requires KeptNames(before).Ok?
    ensures KeptNames(before + [JObj(map["ingredient" := JNull])]) == Err(AttributeError)
  {
    KeptNamesSnoc(before, JObj(map["ingredient" := JNull]));
  }

  /** The strings of a list of JSON values, if all are strings. */
  function AllStrings(js: seq<Json>): (r: Option<seq<string>>)
  {
    if js == [] then Some([])
    else if !js[0].JStr? then None
    else match AllStrings(js[1..])
      case None => None
      case Some(rest) => Some([js[0].s] + rest)
  }

  /** The join fails exactly when some value is not a string; otherwise the
      strings are the values' contents, one for one. */
  lemma {:induction false} AllStringsSpec(js: seq<Json>)
    ensures AllStrings(js).Some? <==> forall i :: 0 <= i < |js| ==> js[i].JStr?
    ensures AllStrings(js).Some? ==>
      |AllStrings(js).value| == |js| && forall i :: 0 <= i < |js| ==> js[i] == JStr(AllStrings(js).value[i])
  {
    if js != [] {
      AllStringsSpec(js[1..]);
      if !js[0].JStr? {
      } else if AllStrings(js[1..]).None? {
        var k :| 0 <= k < |js[1..]| && !js[1..][k].JStr?;
        assert !js[k + 1].JStr?;
      } else {
        var rest := AllStrings(js[1..]).value;
        forall i | 0 <= i < |js| ensures js[i] == JStr(AllStrings(js).value[i]) {
          if i > 0 {
            assert js[i] == js[1..][i - 1];
          }
        }
      }
    }
  }

  /** The ingredient part of the tag prompt: absent when no name is kept,
      otherwise the first 15 kept names joined by ", " (a non-string among
      them fails the join). */
  function IngredientLine(kept: seq<Json>): Result<Option<string>>
  {
    if kept == [] then Ok(None)
    else
      var shown := if |kept| <= MaxIngredients then kept else kept[..MaxIngredients];
      match AllStrings(shown)
      case None => Err(TypeError)
      case Some(names) => Ok(Some(Text.Join(names, ", ")))
  }

  /** The cap applies after filtering: only the first 15 kept names matter,
      and there is an ingredient line exactly when some name was kept. */
  lemma IngredientLineCap(kept: seq<Json>)
    ensures |kept| > MaxIngredients ==> IngredientLine(kept) == IngredientLine(kept[..MaxIngredients])
    ensures IngredientLine(kept) == Ok(None) <==> kept == []
    ensures kept != [] && |kept| <= MaxIngredients && AllStrings(kept).Some? ==>
      IngredientLine(kept) == Ok(Some(Text.Join(AllStrings(kept).value, ", ")))
  {
    if |kept| > MaxIngredients {
      assert kept[..MaxIngredients][..MaxIngredients] == kept[..MaxIngredients];
    }
  }

  /** The prompt inputs of `check_tag_applies`: name defaults to "Unknown",
      description to "", ingredients to none. */
  function TagPromptFor(recipe: Object, tag: string): Result<Prompt>
  {
    var entries :- EntriesOf(Get(recipe, "recipeIngredient", JArr([])));
    var kept :- KeptNames(entries);
    var line :- IngredientLine(kept);
    Ok(TagPrompt(tag, Get(recipe, "name", JStr("Unknown")), Get(recipe, "description", JStr("")), line))
  }

  /** The defaults of `check_tag_applies`: a missing name is "Unknown", a
      missing description "", and a missing or falsy ingredient list gives no
      ingredient line (and cannot fail); present values are used as they are. */
  lemma TagPromptDefaults(recipe: Object, tag: string)
    ensures TagPromptFor(recipe, tag).Ok? ==> TagPromptFor(recipe, tag).value.tag == tag
    ensures TagPromptFor(recipe, tag).Ok? && "name" !in recipe ==>
      TagPromptFor(recipe, tag).value.recipeName == JStr("Unknown")
    ensures TagPromptFor(recipe, tag).Ok? && "name" in recipe ==>
      TagPromptFor(recipe, tag).value.recipeName == recipe["name"]
    ensures TagPromptFor(recipe, tag).Ok? && "description" !in recipe ==>
      TagPromptFor(recipe, tag).value.description == JStr("")
    ensures TagPromptFor(recipe, tag).Ok? && "description" in recipe ==>
      TagPromptFor(recipe, tag).value.description == recipe["description"]
    ensures "recipeIngredient" !in recipe || !Truthy(recipe["recipeIngredient"]) ==>
      TagPromptFor(recipe, tag).Ok? && TagPromptFor(recipe, tag).value.ingredients == None
  {
    if "recipeIngredient" !in recipe || !Truthy(recipe["recipeIngredient"]) {
      assert EntriesOf(Get(recipe, "recipeIngredient", JArr([]))) == Ok([]);
    }
  }

  /** `check_tag_applies` as a function of its inputs. */
  function TagCheck(client: OllamaClient, generate: Generator, recipe: Object, tag: string): Result<bool>
  {
    var prompt :- TagPromptFor(recipe, tag);
    match generate(RequestFor(client.url, client.model, prompt))
    case TransportFailure => Err(HttpError)
    case Body(data) => ParseVerdict(data)
  }

  /** The extraction loop of `check_tag_applies`. */
  method IngredientNames(entries: seq<Json>) returns (r: Result<seq<Json>>)
    ensures r == KeptNames(entries)
  {
    var names: seq<Json> := [];
    for i := 0 to |entries|
      invariant KeptNames(entries[..i]) == Ok(names)
    {
      var name := NameOf(entries[i]);
      assert entries[..i + 1][..i] == entries[..i];
      if name.Err? {
        KeptNamesAppend(entries[..i + 1], entries[i + 1..]);
        assert entries[..i + 1] + entries[i + 1..] == entries;
        return Err(name.error);
      }
      if name.value.Some? {
        names := names + [name.value.value];
      }
    }
    assert entries[..|entries|] == entries;
    return Ok(names);
  }

  /** `check_tag_applies`: build the prompt, ask once, parse the verdict. */
  method CheckTagApplies(client: OllamaClient, generate: Generator, recipe: Object, tag: string)
    returns (r: Result<bool>)
    ensures r == TagCheck(client, generate, recipe, tag)
  {
    var entries := EntriesOf(Get(recipe, "recipeIngredient", JArr([])));
    if entries.Err? {
      return Err(entries.error);
    }
    var kept := IngredientNames(entries.value);
    if kept.Err? {
      return Err(kept.error);
    }
    var line := IngredientLine(kept.value);
    if line.Err? {
      return Err(line.error);
    }
    var prompt := TagPrompt(tag, Get(recipe, "name", JStr("Unknown")), Get(recipe, "description", JStr("")), line.value);
    var reply := generate(RequestFor(client.url, client.model, prompt));
    if reply.TransportFailure? {
      return Err(HttpError);
    }
    r := ParseVerdict(reply.data);
  }
}
