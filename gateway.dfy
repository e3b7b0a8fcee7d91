/** The shaping logic of `MealieClient` (mealie_toolkit/mealie_client.py):
    the category payload of `update_recipe_categories`, the reply
    normalisation of `fetch_tags`, and the tag lookup and PATCH body of
    `add_recipe_tag`. The HTTP calls themselves are oracles: a PATCH is a
    function from the request to its decoded reply or an error. */
module Gateway {
  import opened Base
  import Text
  import Pager

  datatype MealieClient = MealieClient(baseUrl: string, apiToken: Option<string>)

  /** `MealieClient.__init__`: the base URL loses its trailing slashes. */
  function NewMealieClient(baseUrl: string, apiToken: Option<string>): (c: MealieClient)
    ensures c.apiToken == apiToken
    ensures c.baseUrl <= baseUrl
    ensures c.baseUrl == [] || c.baseUrl[|c.baseUrl| - 1] != '/'
    ensures forall i :: |c.baseUrl| <= i < |baseUrl| ==> baseUrl[i] == '/'
  {
    MealieClient(Text.RStrip(baseUrl, '/'), apiToken)
  }

  /** A PATCH to a recipe, with its JSON body. */
  datatype PatchRequest = PatchRequest(url: string, body: Object)

  type Patcher = PatchRequest -> Result<Json>

  function RecipeUrl(client: MealieClient, slug: string): string
  {
    client.baseUrl + "/api/recipes/" + slug
  }

  // ---------------------------------------------------------------------
  // update_recipe_categories

  /** A dict carrying all three of id, name and slug. */
  predicate IsFullRef(c: Json)
  {
    c.JObj? && "id" in c.fields && "name" in c.fields && "slug" in c.fields
  }

  /** The payload entry built for one input category. */
  function CategoryRef(c: Json): Json
  {
    if IsFullRef(c) then
      JObj(map["id" := c.fields["id"], "name" := c.fields["name"], "slug" := c.fields["slug"]])
    else if c.JObj? then c
    else JObj(map["id" := c])
  }

  /** What the payload entry `out` must be for input `c`: a full reference is
      projected to exactly its id, name and slug; any other dict is passed
      through unchanged; anything else is taken as an id and wrapped. */
  predicate ProjectsCategory(c: Json, out: Json)
  {
    if IsFullRef(c) then
      && out.JObj?
      && out.fields.Keys == {"id", "name", "slug"}
      && forall k :: k in out.fields ==> out.fields[k] == c.fields[k]
    else if c.JObj? then out == c
    else out == JObj(map["id" := c])
  }

  lemma CategoryRefProjects(c: Json)
    ensures ProjectsCategory(c, CategoryRef(c))
  {
  }

  /** Sending the payload back through the same shaping changes nothing:
      projected references stay as they are, and a wrapped id `{"id": x}` is a
      dict without name and slug, which passes through. */
  lemma CategoryRefIdempotent(c: Json)
    ensures CategoryRef(CategoryRef(c)) == CategoryRef(c)
  {
    if IsFullRef(c) {
      var out := CategoryRef(c);
      assert IsFullRef(out);
      assert out.fields.Keys == {"id", "name", "slug"};
      assert CategoryRef(out).fields == out.fields;
    } else if !c.JObj? {
      assert "name" !in CategoryRef(c).fields;
    }
  }

  /** `update_recipe_categories`: builds the category payloads in order and
      sends one PATCH whose body holds nothing but `recipeCategory`, so the
      recipe's category list is replaced. */
  method UpdateRecipeCategories(client: MealieClient, slug: string, categories: seq<Json>, patch: Patcher)
    returns (req: PatchRequest, r: Result<Json>)
    ensures req.url == RecipeUrl(client, slug)
    ensures req.body.Keys == {"recipeCategory"} && req.body["recipeCategory"].JArr?
    ensures |req.body["recipeCategory"].elems| == |categories|
    ensures forall i :: 0 <= i < |categories| ==>
      ProjectsCategory(categories[i], req.body["recipeCategory"].elems[i])
    ensures r == patch(req)
  {
    var payloads: seq<Json> := [];
    for i := 0 to |categories|
      invariant |payloads| == i
      invariant forall j :: 0 <= j < i ==> ProjectsCategory(categories[j], payloads[j])
    {
      CategoryRefProjects(categories[i]);
      payloads := payloads + [CategoryRef(categories[i])];
    }
    req := PatchRequest(RecipeUrl(client, slug), map["recipeCategory" := JArr(payloads)]);
    r := patch(req);
  }

  // ---------------------------------------------------------------------
  // fetch_tags

  /** `fetch_tags`: one unpaged GET whose reply is flattened. */
  function FetchTags(reply: Pager.Reply<Json>): (r: Result<seq<Json>>)
    ensures r.Err? <==> reply.Failed?
  {
    match reply
    case Failed => Err(HttpError)
    case Paged(items, _) => Ok(items)
    case Bare(list) => Ok(list)
    case Other => Ok([])
  }

  /** `fetch_tags` against the page walker on the same single reply: they agree
      on a bare list, on a failure, and on an `items` page whose total is met;
      an `items` page whose total is not met is all `fetch_tags` returns (it
      never asks for page 2); a reply of any other shape gives [] where the
      walker would never end. */
  lemma FetchTagsVsWalk(reply: Pager.Reply<Json>)
    ensures reply.Failed? ==> FetchTags(reply) == Err(HttpError) && Pager.Walk([reply]).TransportError?
    ensures reply.Bare? ==> Pager.Walk([reply]) == Pager.Complete(FetchTags(reply).value, 1)
    ensures reply.Other? ==> FetchTags(reply) == Ok([]) && Pager.Walk([reply]) == Pager.Hangs(1)
    ensures reply.Paged? ==> FetchTags(reply) == Ok(reply.items)
    ensures reply.Paged? ==> Pager.Walk([reply]).Complete? && Pager.Walk([reply]).items == reply.items
  {
    var pages := [reply];
    if reply.Paged? {
      var k := Pager.FirstStopExists(pages);
      assert Pager.Served(pages, 1) == reply;
      assert Pager.Gathered(pages, 1) == reply.items by {
        assert Pager.Gathered(pages, 1) == [] + reply.items;
      }
      if k == 2 {
        assert Pager.Gathered(pages, 2) == reply.items + [];
      }
    } else if reply.Bare? {
      Pager.WalkBareFirst(pages);
    }
  }

  // ---------------------------------------------------------------------
  // add_recipe_tag

  /** `tag.get("name", "")`, and whether `.lower()` can then be applied. */
  function TagName(tag: Json): (r: Result<string>)
    ensures r.Err? ==> r.error == AttributeError
  {
    match tag
    case JObj(f) =>
      if "name" !in f then Ok("")
      else if f["name"].JStr? then Ok(f["name"].s)
      else Err(AttributeError)
    case _ => Err(AttributeError)
  }

  predicate NameMatches(tag: Json, tagName: string)
  {
    TagName(tag).Ok? && Text.Lower(TagName(tag).value) == Text.Lower(tagName)
  }

  predicate NameDiffers(tag: Json, tagName: string)
  {
    TagName(tag).Ok? && Text.Lower(TagName(tag).value) != Text.Lower(tagName)
  }

  /** Tag i is the first whose lower-cased name equals the lower-cased request. */
  predicate FirstMatch(tags: seq<Json>, tagName: string, i: nat)
  {
    i < |tags| && NameMatches(tags[i], tagName) && forall j :: 0 <= j < i ==> NameDiffers(tags[j], tagName)
  }

  /** The search loop of `add_recipe_tag`: the first case-insensitive match,
      none, or the error raised by a tag that is not a dict or whose name is
      not a string, before any match. */
  method FindTag(tags: seq<Json>, tagName: string) returns (r: Result<Option<nat>>)
    ensures r.Ok? && r.value.Some? ==> FirstMatch(tags, tagName, r.value.value)
    ensures r == Ok(None) <==> NoneMatch(tags, tagName)
    ensures r.Err? ==>
      exists i :: 0 <= i < |tags| && TagName(tags[i]) == Err(r.error) && NoneMatch(tags[..i], tagName)
    ensures r.Err? <==> UnreadableFirst(tags, tagName)
  {
    var i := 0;
    while i < |tags|
      invariant 0 <= i <= |tags|
      invariant forall j :: 0 <= j < i ==> NameDiffers(tags[j], tagName)
    {
      var name := TagName(tags[i]);
      if name.Err? {
        assert tags[..i][..i] == tags[..i];
        return Err(name.error);
      }
      if Text.Lower(name.value) == Text.Lower(tagName) {
        if UnreadableFirst(tags, tagName) {
          UnreadableExcludes(tags, tagName);
        }
        return Ok(Some(i));
      }
      i := i + 1;
    }
    if UnreadableFirst(tags, tagName) {
      UnreadableExcludes(tags, tagName);
    }
    return Ok(None);
  }

  /** A tag that cannot be read before any match rules out both a match and
      "no tag matches". */
  lemma UnreadableExcludes(tags: seq<Json>, tagName: string)
    requires UnreadableFirst(tags, tagName)
    ensures !NoneMatch(tags, tagName)
    ensures forall k: nat :: !FirstMatch(tags, tagName, k)
  {
    var i :| 0 <= i < |tags| && TagName(tags[i]).Err? && NoneMatch(tags[..i], tagName);
  }

  function TagNotFound(tagName: string): Error
  {
    ValueError("Tag '" + tagName + "' not found in Mealie instance")
  }

  /** The PATCH body of `add_recipe_tag`: the recipe's tags become exactly
      the one looked-up tag. */
  function TagsBody(tag: Json): (body: Object)
    ensures body.Keys == {"tags"} && body["tags"] == JArr([tag])
  {
    map["tags" := JArr([tag])]
  }

  /** `add_recipe_tag`: fetch the tags, look the name up case-insensitively,
      and PATCH the recipe's tag list to the one found tag. A missing tag, and
      a found tag that is falsy (the empty dict, which only the empty name can
      match), raise the not-found ValueError before any PATCH. */
  method AddRecipeTag(client: MealieClient, tagsReply: Pager.Reply<Json>, slug: string, tagName: string, patch: Patcher)
    returns (sent: Option<PatchRequest>, r: Result<Json>)
    ensures tagsReply.Failed? ==> sent == None && r == Err(HttpError)
    ensures sent.Some? <==> exists i: nat :: FoundTag(tagsReply, tagName, i) && FetchTags(tagsReply).value[i] != JObj(map[])
    ensures sent.Some? ==> r == patch(sent.value) && sent.value.url == RecipeUrl(client, slug)
    ensures sent.Some? ==>
      exists i: nat :: FoundTag(tagsReply, tagName, i) && sent.value.body == TagsBody(FetchTags(tagsReply).value[i])
    ensures FetchTags(tagsReply).Ok? && NoneMatch(FetchTags(tagsReply).value, tagName) ==>
      sent == None && r == Err(TagNotFound(tagName))
    ensures (exists i: nat :: FoundTag(tagsReply, tagName, i) && FetchTags(tagsReply).value[i] == JObj(map[])) ==>
      sent == None && r == Err(TagNotFound(tagName))
    ensures FetchTags(tagsReply).Ok? && UnreadableFirst(FetchTags(tagsReply).value, tagName) ==>
      sent == None && r == Err(AttributeError)
    ensures sent.None? ==> r.Err?
  {
    var tags := FetchTags(tagsReply);
    if tags.Err? {
      return None, Err(tags.error);
    }
    var found := FindTag(tags.value, tagName);
    if found.Err? {
      UnreadableExcludes(tags.value, tagName);
      sent, r := None, Err(found.error);
      return;
    }
    if found.value.None? || tags.value[found.value.value] == JObj(map[]) {
      sent, r := None, Err(TagNotFound(tagName));
      forall i: nat | FirstMatch(tags.value, tagName, i) ensures found.value.Some? && i == found.value.value {
        FirstMatchUnique(tags.value, tagName, i);
      }
      return;
    }
    var tag := tags.value[found.value.value];
    var req := PatchRequest(RecipeUrl(client, slug), TagsBody(tag));
    sent, r := Some(req), patch(req);
  }

  /** Some tag that is not a dict, or whose name is not a string, comes
      before any match: `.get` or `.lower()` raises on it. */
  predicate UnreadableFirst(tags: seq<Json>, tagName: string)
  {
    exists i :: 0 <= i < |tags| && TagName(tags[i]).Err? && NoneMatch(tags[..i], tagName)
  }

  predicate FoundTag(tagsReply: Pager.Reply<Json>, tagName: string, i: nat)
  {
    FetchTags(tagsReply).Ok? && FirstMatch(FetchTags(tagsReply).value, tagName, i)
  }

  predicate NoneMatch(tags: seq<Json>, tagName: string)
  {
    forall j :: 0 <= j < |tags| ==> NameDiffers(tags[j], tagName)
  }

  /** A first match is unique, and it excludes an earlier error. */
  lemma FirstMatchUnique(tags: seq<Json>, tagName: string, i: nat)
    requires FirstMatch(tags, tagName, i)
    ensures forall k: nat :: FirstMatch(tags, tagName, k) ==> k == i
    ensures forall k :: 0 <= k <= i ==> TagName(tags[k]).Ok?
  {
  }

  /** The recipe server's PATCH: each top-level field of the body replaces the
      stored field of the same name; the other fields stay. */
  function ApplyPatch(stored: Object, body: Object): (r: Object)
    ensures r.Keys == stored.Keys + body.Keys
    ensures forall k :: k in body ==> r[k] == body[k]
    ensures forall k :: k in stored && k !in body ==> r[k] == stored[k]
  {
    stored + body
  }

  /** Replace, not merge: tagging a recipe with t1 and then with t2 leaves
      only t2, whatever tags the recipe had; no other field changes. */
  lemma SecondTagReplacesFirst(stored: Object, t1: Json, t2: Json)
    ensures ApplyPatch(ApplyPatch(stored, TagsBody(t1)), TagsBody(t2))["tags"] == JArr([t2])
    ensures t1 != t2 ==> t1 !in ApplyPatch(ApplyPatch(stored, TagsBody(t1)), TagsBody(t2))["tags"].elems
    ensures forall k :: k in stored && k != "tags" ==>
      k in ApplyPatch(ApplyPatch(stored, TagsBody(t1)), TagsBody(t2))
      && ApplyPatch(ApplyPatch(stored, TagsBody(t1)), TagsBody(t2))[k] == stored[k]
  {
  }
}
