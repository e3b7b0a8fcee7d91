# MealieToolkit core, modelled in Dafny

MealieToolkit is a command-line helper for a Mealie recipe server. It
walks the server's paginated category and recipe lists, and it reshapes
category and tag payloads before PATCHing recipes. It also asks an
Ollama language model two questions: which category fits a recipe, and
whether a tag applies to it. Tag suggestions pass through a yes/no
confirmation prompt before they are applied. A separate command creates
categories in bulk from a text file.

This project models the sequential logic underneath that HTTP plumbing,
and proves what it does. The network, the language model, the keyboard
and the file system become values and oracles:

- The Mealie server's replies to page requests are a finite sequence
  `seq<Pager.Reply<T>>`. A page past the end of the sequence is answered
  with an empty `items` page.
- Each PATCH is a function from the request to its decoded reply or an
  error (`Gateway.Patcher`).
- The language model is a function from the generate request to its
  decoded reply or a transport failure (`Oracle.Generator`).
- The user's answers are a finite sequence of input lines. When the
  lines run out, that stands for `input()` raising `EOFError`.
- `add_recipe_tag` seen from `_apply_tags` is a function saying whether
  the call returned normally. `create_category` is a function of the
  call's position and the name, giving one of three outcomes: created,
  HTTP error, or another exception. A name listed twice may fare
  differently on its two calls.
- The Mealie server's handling of a recipe PATCH is assumed to be
  `Gateway.ApplyPatch`: each top-level field of the body replaces the
  stored field of that name, and the other fields stay as they were.
  Gateway.SecondTagReplacesFirst rests on this assumption.
- The category file is its sequence of lines, or `None` when there is no
  such file.

Decoded JSON is the datatype `Base.Json`, and a decoded dict is
`Base.Object`. Python exceptions that change the control flow are
`Base.Error` values inside `Base.Result`.

Modules:

- `Base`: JSON, errors, `Option` and `Result`.
- `Text`: ASCII `strip`, `rstrip`, `upper`, `lower`, `startswith` and `join`.
- `Pager`: the page walker of `fetch_categories` and `fetch_recipes`.
- `Gateway`: the payload and reply shaping of `MealieClient`.
- `Oracle`: `OllamaClient`.
- `Categorizer`: `CategorizerClient`.
- `Tagging`: the auto-tagging workflow.
- `Populate`: `populate_categories`.

Every loop of the source is a Dafny `method` with a loop, proved against a
specification function. The comprehension and the reply rules are
functions.

## Model

| member | source | states |
|---|---|---|
| Text.Strip | mealie_toolkit/ollama_client.py:67 | the stripped text has no whitespace at either end |
| Text.StripSurrounded | mealie_toolkit/ollama_client.py:67 | strip removes exactly the surrounding whitespace: any whitespace around a core without end whitespace strips to that core |
| Text.StripPadded | mealie_toolkit/tagging.py:84 | adding whitespace on either side never changes the stripped text |
| Text.StripEmpty | mealie_toolkit/utils.py:62 | a line strips to "" exactly when it is all whitespace |
| Text.StripIdempotent | mealie_toolkit/utils.py:62 | stripping twice is stripping once |
| Text.Upper | mealie_toolkit/ollama_client.py:70 | same length; each character is upper-cased, and only ASCII letters change |
| Text.Lower | mealie_toolkit/mealie_client.py:278 | same length; each character is lower-cased, and only ASCII letters change |
| Text.StartsWith | mealie_toolkit/ollama_client.py:134 | `s.startswith(p)`: p is no longer than s and is its prefix (used by Oracle.UpperStartsWithYes) |
| Text.Join | mealie_toolkit/ollama_client.py:45 | `sep.join(parts)`: "" for no parts, the part itself for one, and the separator between neighbours otherwise (its general step is Text.JoinSnoc) |
| Text.RStrip | mealie_toolkit/mealie_client.py:19 | the result is a prefix of the input that does not end in the character; everything removed was that character |
| Pager.FetchAll | mealie_toolkit/mealie_client.py:35-67 | the loop's outcome is the walk function's outcome; the requests are pages 1, 2, 3, … in order, each with pageSize 100, one per iteration (`fetch_recipes`, lines 119-151, is the same loop) |
| Pager.WalkFrom | mealie_toolkit/mealie_client.py:41-65 | the page walk from a given page with the items accumulated so far |
| Pager.Walk | mealie_toolkit/mealie_client.py:41-65 | the page walk from page 1 with nothing accumulated |
| Pager.WalkOutcome | mealie_toolkit/mealie_client.py:41-65 | the walk stops at the first page that does not continue it. That page fixes the outcome: a transport error, the endless re-request, or all items of pages 1..k concatenated in order |
| Pager.FirstStopExists | mealie_toolkit/mealie_client.py:41-65 | every finite page supply has a first stopping page, no later than one past the supply, so the walk ends after at most \|pages\|+1 requests |
| Pager.ContinuingPagesGrow | mealie_toolkit/mealie_client.py:51-60 | every continuing page adds at least one item: after k-1 continuing pages at least k-1 items are accumulated |
| Pager.WalkBareFirst | mealie_toolkit/mealie_client.py:63-65 | a bare list on page 1 is the whole result, after one request |
| Pager.WalkEmptyFirst | mealie_toolkit/mealie_client.py:49-53 | an empty first page, or an empty supply, gives [] after one request |
| Pager.WalkMissingTotal | mealie_toolkit/mealie_client.py:57-59 | a missing total counts as 0, so one non-empty first page ends the walk with its items |
| Pager.WalkAllPages | mealie_toolkit/mealie_client.py:36-60 | on a regular paginated collection, the walk returns the in-order concatenation of every page, with one request per page |
| Gateway.NewMealieClient | mealie_toolkit/mealie_client.py:19-20 | the base URL loses exactly its trailing slashes; the token is kept |
| Gateway.CategoryRefProjects | mealie_toolkit/mealie_client.py:171-188 | a dict with id, name and slug becomes exactly those three keys with their values; another dict passes through unchanged; a non-dict x becomes {"id": x} |
| Gateway.CategoryRefIdempotent | mealie_toolkit/mealie_client.py:171-188 | shaping an already shaped payload entry changes nothing |
| Gateway.RecipeUrl | mealie_toolkit/mealie_client.py:168 | the recipe URL `<base_url>/api/recipes/<slug>`, also built at line 288 |
| Gateway.UpdateRecipeCategories | mealie_toolkit/mealie_client.py:168-193 | PATCH to /api/recipes/<slug>; the body has only `recipeCategory`, a list of the same length and order as the input, each entry shaped as above; the reply is the PATCH's |
| Gateway.FetchTags | mealie_toolkit/mealie_client.py:244-257 | an error exactly when the GET fails; otherwise the list of a dict with `items`, the bare list, or [] |
| Gateway.FetchTagsVsWalk | mealie_toolkit/mealie_client.py:251-257 | compared with the page walker on the same reply: they agree on failures, bare lists and `items` pages; `fetch_tags` gives [] where the walker never ends, and never asks for a second page |
| Gateway.CategoryRef | mealie_toolkit/mealie_client.py:172-188 | the payload entry for one category (its properties are in Gateway.CategoryRefProjects and Gateway.CategoryRefIdempotent) |
| Gateway.TagName | mealie_toolkit/mealie_client.py:278 | reads a tag's `name` as line 278 does, "" when absent; the only error it gives is the AttributeError of a non-dict tag or a non-string name |
| Gateway.FindTag | mealie_toolkit/mealie_client.py:277-280 | returns the first tag whose lower-cased name equals the lower-cased request; none exactly when every name differs; the AttributeError exactly when an unreadable tag comes before any match |
| Gateway.FirstMatchUnique | mealie_toolkit/mealie_client.py:277-280 | the first match is unique, and every tag up to it has a readable name |
| Gateway.TagsBody | mealie_toolkit/mealie_client.py:286-289 | the body has only `tags`, holding the one-element list of the found tag |
| Gateway.TagNotFound | mealie_toolkit/mealie_client.py:282-283 | the ValueError "Tag '<name>' not found in Mealie instance" |
| Gateway.AddRecipeTag | mealie_toolkit/mealie_client.py:274-292 | a PATCH is sent exactly when the first case-insensitive match exists and is truthy. It goes to /api/recipes/<slug>, and its body is the tags body of that match. No match, and a match that is the empty dict, give the not-found ValueError with no PATCH; an unreadable tag before any match gives the AttributeError with no PATCH; a failed GET gives the HTTP error; whenever no PATCH is sent the result is an error |
| Gateway.SecondTagReplacesFirst | mealie_toolkit/mealie_client.py:285-289 | replace, not merge: tagging with t1 then t2 leaves only t2, and no other field changes |
| Oracle.NewOllamaClient | mealie_toolkit/ollama_client.py:23-24 | the URL loses exactly its trailing slashes; the model is kept |
| Oracle.NewOllamaClientDefaults | mealie_toolkit/ollama_client.py:13-14 | `OllamaClient()` keeps the default URL http://localhost:11434 and model gemma3:12b unchanged |
| Oracle.RequestFor | mealie_toolkit/ollama_client.py:116-124 | the POST of both questions (here and at lines 52-60): to `<url>/api/generate`, with the client's model, the prompt inputs and stream false |
| Oracle.ReplyText | mealie_toolkit/ollama_client.py:64-67 | the "Invalid response from Ollama" ValueError exactly when `response` is missing |
| Oracle.UpperIsNone | mealie_toolkit/ollama_client.py:70 | a text upper-cases to "NONE" exactly when it is "none" in some mix of cases |
| Oracle.UpperStartsWithYes | mealie_toolkit/ollama_client.py:131-134 | an upper-cased text starts with "YES" exactly when the text starts with "yes" in some mix of cases |
| Oracle.ParseCategory | mealie_toolkit/ollama_client.py:64-73 | the reply rule of `categorize_recipe` (its properties are in the rows below) |
| Oracle.ParseVerdict | mealie_toolkit/ollama_client.py:128-134 | the reply rule of `check_tag_applies` (its properties are in the rows below) |
| Oracle.ParseCategoryRule | mealie_toolkit/ollama_client.py:64-73 | missing `response` is the ValueError. Otherwise the answer is "" exactly when the trimmed reply is empty or "NONE" in any case, and else the trimmed reply with its case kept |
| Oracle.ParseVerdictRule | mealie_toolkit/ollama_client.py:128-134 | missing `response` is the ValueError; otherwise yes exactly when the trimmed reply starts with "yes" in any case |
| Oracle.SurroundingSpaceIgnored | mealie_toolkit/ollama_client.py:67 | whitespace around a reply changes neither answer (so " None " counts as NONE, " yes" as yes) |
| Oracle.PlainCategoryKept | mealie_toolkit/ollama_client.py:73 | a trimmed reply that is not NONE comes back verbatim |
| Oracle.NoneWordGivesEmpty | mealie_toolkit/ollama_client.py:70-71 | "none", "None", "NONE", … all give "" |
| Oracle.PlainVerdict | mealie_toolkit/ollama_client.py:131-134 | a trimmed reply is a yes exactly when it begins with "yes" in any case ("Yes, because…" is yes; "No", "Maybe", "" and "ye" are no) |
| Oracle.CategoryList | mealie_toolkit/ollama_client.py:45 | the category list of the prompt, the names joined by ", " |
| Oracle.CategorizeRequest | mealie_toolkit/ollama_client.py:45-60 | the request of `categorize_recipe`: the recipe name and the category list, POSTed as Oracle.RequestFor does |
| Oracle.CategorizeRecipe | mealie_toolkit/ollama_client.py:45-73 | the HTTP error exactly when the request fails; otherwise the category rule applied to the reply |
| Text.JoinSnoc | mealie_toolkit/ollama_client.py:45 | joining one more part puts the separator between the joined earlier parts and it |
| Oracle.CategorizePromptInputs | mealie_toolkit/ollama_client.py:45-58 | the prompt carries the recipe name and the categories joined by ", " ([a,b,c] gives "a, b, c", [a] gives a, [] gives ""); the request goes to <url>/api/generate with stream false |
| Oracle.CategorizeDoesNotValidate | mealie_toolkit/ollama_client.py:67-73 | the answer is not checked against the offered categories: any non-NONE trimmed reply is returned whatever was offered |
| Oracle.KeptNames | mealie_toolkit/ollama_client.py:98-103 | there are no more names than entries |
| Oracle.KeptNamesTruthy | mealie_toolkit/ollama_client.py:101-103 | every kept name is truthy: an empty name is never kept |
| Oracle.KeptNamesAppend | mealie_toolkit/ollama_client.py:99-103 | extraction goes entry by entry in order: the names of x+y are those of x then those of y, and the first error wins |
| Oracle.KeptNamesSingle | mealie_toolkit/ollama_client.py:100-103 | one entry gives its name when it is a dict with a truthy `ingredient.name`, nothing for a non-dict or an empty name, and an error for a non-dict `ingredient` |
| Oracle.KeptNamesSnoc | mealie_toolkit/ollama_client.py:99-103 | one more entry adds its name when it has one, adds nothing when it has none, and an error in it ends the extraction |
| Oracle.KeptNamesExample | mealie_toolkit/ollama_client.py:97-103 | a bare string, an empty name and an entry without `ingredient` are skipped, the others kept in order |
| Oracle.KeptNamesNullIngredient | mealie_toolkit/ollama_client.py:101 | an entry whose `ingredient` is null stops the extraction with the missing-`.get` error, whatever came before |
| Oracle.AllStrings | mealie_toolkit/ollama_client.py:105 | the texts of the names to join, or none when one is not a string (its properties are in Oracle.AllStringsSpec) |
| Oracle.AllStringsSpec | mealie_toolkit/ollama_client.py:105 | the `", ".join` fails exactly when some kept name is not a string; otherwise it joins the names' own texts, one for one |
| Oracle.IngredientLineCap | mealie_toolkit/ollama_client.py:104-105 | only the first 15 kept names matter; there is an Ingredients line exactly when a name was kept; up to 15 string names are joined by ", " |
| Oracle.EntriesOf | mealie_toolkit/ollama_client.py:93-99 | the entries iterated by the ingredient loop; a falsy list gives none |
| Oracle.NameOf | mealie_toolkit/ollama_client.py:100-103 | the name one entry contributes, or the error its `.get` raises |
| Oracle.IngredientLine | mealie_toolkit/ollama_client.py:104-105 | the Ingredients line from the kept names (its properties are in Oracle.IngredientLineCap) |
| Oracle.TagPromptFor | mealie_toolkit/ollama_client.py:91-105 | what goes into the tag prompt of one recipe |
| Oracle.TagPromptDefaults | mealie_toolkit/ollama_client.py:91-93 | for every recipe: the tag is passed through; a missing name is "Unknown" and a present one is used as it is; a missing description is "" and a present one is used as it is; a missing or falsy ingredient list gives no Ingredients line and cannot fail |
| Oracle.IngredientNames | mealie_toolkit/ollama_client.py:96-103 | the loop keeps exactly the names of the specification, in order, or stops with its error |
| Oracle.TagCheck | mealie_toolkit/ollama_client.py:90-134 | the specification of `check_tag_applies`: prompt, one request, verdict rule |
| Oracle.CheckTagApplies | mealie_toolkit/ollama_client.py:90-134 | builds the prompt from the recipe, makes one request, and returns the verdict rule on the reply, or the error raised on the way |
| Categorizer.NewCategorizerClient | mealie_toolkit/categorizer_client.py:23-24 | the URL loses exactly its trailing slashes; the model is kept |
| Categorizer.CategorizeRequest | mealie_toolkit/categorizer_client.py:45-60 | the request of `CategorizerClient.categorize_recipe`: the same POST to `<url>/api/generate` with the recipe name and the ", "-joined categories |
| Categorizer.CategorizeRecipe | mealie_toolkit/categorizer_client.py:45-73 | the HTTP error exactly when the request fails; a reply without `response` gives the ValueError, and only then; otherwise the "NONE"/strip rule |
| Categorizer.SameAsOllamaClient | mealie_toolkit/categorizer_client.py:45-73 | built from the same URL and model and given the same model answers, it sends the same prompt inputs and returns the same answer as `OllamaClient.categorize_recipe` |
| Tagging.LimitSlice | mealie_toolkit/tagging.py:33 | always a prefix of the recipes. None or 0 means all, and so does a limit at or above the length. A positive limit keeps that many; a negative one drops that many from the end |
| Tagging.MatchOf | mealie_toolkit/tagging.py:42-45 | the record of one matching recipe: its name and slug |
| Tagging.Verdict | mealie_toolkit/tagging.py:41 | `categorizer.check_tag_applies(recipe, tag)` for each recipe, as Oracle.TagCheck specifies it |
| Tagging.Matching | mealie_toolkit/tagging.py:37-51 | no more matches than recipes checked |
| Tagging.MatchingAppend | mealie_toolkit/tagging.py:37-51 | recipes are judged one by one in order: the matches of x+y are those of x followed by those of y |
| Tagging.MatchingSkipsUnconfirmed | mealie_toolkit/tagging.py:40-51 | a recipe answered no, or whose check raised, changes nothing, as if it were absent: one failure neither stops the loop nor loses other matches |
| Tagging.MatchingAllConfirmed | mealie_toolkit/tagging.py:41-45 | when every recipe is confirmed, every recipe is a match at its own position, recorded as its name (default "") and slug |
| Tagging.MatchingSound | mealie_toolkit/tagging.py:41-45 | every match is the record of a recipe the model confirmed |
| Tagging.CollectTagSuggestions | mealie_toolkit/tagging.py:32-53 | every recipe of the limited list is checked exactly once, in order, with no other filter; the matches are exactly the specified ones for the given check |
| Tagging.Answer | mealie_toolkit/tagging.py:84-88 | how one input line is read: yes, no, or undecided |
| Tagging.AnswerRule | mealie_toolkit/tagging.py:84-88 | an input accepts exactly when its trimmed text is "y" or "yes" in any case, and declines exactly when it is "n" or "no" in any case |
| Tagging.AnswerPadded | mealie_toolkit/tagging.py:84 | whitespace around an input does not change how it is read |
| Tagging.FirstAnswerFrom | mealie_toolkit/tagging.py:83-90 | the prompt loop from a given input line on: the first decisive line's verdict and the lines read, or running out of input |
| Tagging.FirstAnswer | mealie_toolkit/tagging.py:83-90 | the prompt loop from the first input line, reading each line with Tagging.Answer |
| Tagging.FirstAnswerFromSpec | mealie_toolkit/tagging.py:83-90 | the prompt stops at the first decisive input with its verdict, having read exactly the inputs up to it, all earlier ones undecided; it runs out of input exactly when no input is decisive |
| Tagging.GetTagConfirmation | mealie_toolkit/tagging.py:83-90 | the loop's outcome is the first decisive input's verdict, or running out of input |
| Tagging.Successes | mealie_toolkit/tagging.py:106-116 | the number of successful tag calls is at most the number of matches |
| Tagging.SuccessesBounds | mealie_toolkit/tagging.py:106-116 | all calls succeeding tags every match; all failing tags none |
| Tagging.ApplyTags | mealie_toolkit/tagging.py:106-116 | one tag call per match, in order, with that match's slug; failures do not stop the loop; the count is the number of calls that succeeded |
| Tagging.AutoTagRecipes | mealie_toolkit/tagging.py:129-153 | a failed fetch stops everything. The matches are those specified for the limited recipe list. No match means no question and no tag call. Running out of input, or a no, means no tag call. A yes tags every match in order and reports successes out of \|matches\|. Any tag call implies an explicit yes |
| Populate.CleanNames | mealie_toolkit/utils.py:62 | there are no more names than lines |
| Populate.CleanNamesStripped | mealie_toolkit/utils.py:62 | every kept name is non-empty and already stripped |
| Populate.CleanNamesAppend | mealie_toolkit/utils.py:61-62 | lines are cleaned one by one in file order: the names of x+y are those of x followed by those of y |
| Populate.CleanNamesLine | mealie_toolkit/utils.py:62 | a blank line gives no name; any other line gives exactly its stripped text |
| Populate.FailedNames | mealie_toolkit/utils.py:67-71 | the failed names are no more than the names tried |
| Populate.FailedNamesSound | mealie_toolkit/utils.py:67-71 | every listed name was the subject of a create call that raised an HTTP error |
| Populate.RepeatedNameMayFailOnce | mealie_toolkit/utils.py:66-71 | the file is not de-duplicated: a name listed twice is tried twice, and can be both created and reported failed |
| Populate.CreateAll | mealie_toolkit/utils.py:66-71 | one create call per name, in order. An HTTP error is recorded and the loop goes on; any other exception stops it right after that name. It finishes exactly when no call raised something else |
| Populate.PopulateCategories | mealie_toolkit/utils.py:57-71 | a missing file is reported and makes no create call; otherwise the calls are the cleaned names in order, and the run finishes with successes plus HTTP failures, or stops at the first other exception |

## Left out

- HTTP transport is not modelled: connections, timeouts, `raise_for_status` and JSON decoding. Every response is a decoded value or an error given by an oracle. The Authorization header built from the token (mealie_client.py:21-23) is not modelled either.
- The error-detail re-raise in `update_recipe_categories` and `add_recipe_tag` (mealie_client.py:196-207, 295-306) becomes a plain error, because its text depends on how the error body parses.
- `fetch_category_by_id`, `fetch_category_by_slug` and `create_category` are single HTTP calls with no logic of their own. `create_category` appears only as the oracle of `Populate`.
- Pager.FetchAll: the two endpoints of `fetch_categories` and `fetch_recipes` are not distinguished. The URL is not part of the page replies.
- Pager.FetchAll: when a reply is neither a dict with `items` nor a list, the source requests the same page again forever. The model stops and reports `Hangs(page)` instead, which is exact for a server that repeats its answer.
- Pager.Reply: an `items` value that is not a list (null, a string) is not modelled; items are always a sequence.
- Pager.Reply: a `total` that is present but not a number (null, a string) is not modelled; the total is missing or an integer. The comparison at mealie_client.py:58 would raise `TypeError` on such a value, and nothing in the core catches it.
- Language-model inference is an arbitrary function of the request. The wording of the prompts is not modelled. The model keeps only what goes into them: recipe name, category list, tag, name, description and ingredient line.
- Categorizer.SameAsOllamaClient: the two `categorize_recipe` bodies are the same text. The lemma assumes only that the language model answers the same request the same way, since inference is a function of the request here.
- A reply body that is not a JSON object is not modelled. With a list or string body, `"response" in data` has other meanings.
- Tagging.CollectTagSuggestions: the categorizer's `check_tag_applies` is passed in as its result function. AutoTagRecipes passes `Tagging.Verdict`, which is what Oracle.CheckTagApplies is proved to compute. The method call itself is not composed into the loop.
- Tagging.ApplyTags: `add_recipe_tag` is an opaque success/failure function here. Its lookup and PATCH are modelled separately as Gateway.AddRecipeTag, and the two are not composed.
- Recipes that are not dicts are not modelled. The source would fail on `.get` outside the `try` of `_collect_tag_suggestions`.
- `mealie_toolkit/main.py` is not part of this model. It holds argument parsing, environment lookup and dispatch.
- The module constants `OLLAMA_URL` and `OLLAMA_MODEL` (tagging.py:10-11) come from the environment. They are parameters of Tagging.AutoTagRecipes.
- Console output is not modelled: progress lines, `_display_tag_suggestions`, `print_recipes` and `print_categories`. The file-not-found outcome and the failed names are kept as results instead of printed text.
- The categorization pipeline `categorize.py` is not part of this model.
- Reading the file in `populate_categories` is modelled only as a sequence of lines. Encoding errors while reading are not modelled.
- Case mapping and whitespace are ASCII only. Python's `strip`, `upper` and `lower` also act on non-ASCII characters.
- Floats in JSON are not modelled. Numbers are integers. This matters for Python truthiness and for the `total` comparison of the page walker, where a float total would be compared as it is.
- The order of keys in the projected category dict is not modelled, since Dafny maps are unordered.
