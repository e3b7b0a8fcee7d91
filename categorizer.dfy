/** `CategorizerClient` (mealie_toolkit/categorizer_client.py): a second
    client for the category question. Its `__init__` and `categorize_recipe`
    are the same text as those of `OllamaClient`, so what goes into the prompt
    and the reply rule are the ones the model gives `OllamaClient`. */
module Categorizer {
  import opened Base
  import Text
  import Oracle

  datatype CategorizerClient = CategorizerClient(url: string, model: string)

  /** `CategorizerClient.__init__`: the URL loses its trailing slashes. */
  function NewCategorizerClient(url: string, model: string): (c: CategorizerClient)
    ensures c.model == model
    ensures c.url <= url
    ensures c.url == [] || c.url[|c.url| - 1] != '/'
    ensures forall i :: |c.url| <= i < |url| ==> url[i] == '/'
  {
    CategorizerClient(Text.RStrip(url, '/'), model)
  }

  function CategorizeRequest(client: CategorizerClient, recipeName: string, categories: seq<string>): Oracle.GenerateRequest
  {
    Oracle.RequestFor(client.url, client.model, Oracle.CategoryPrompt(recipeName, Oracle.CategoryList(categories)))
  }

  /** `CategorizerClient.categorize_recipe`: one non-streaming request, the
      transport error passed through, then the "NONE"/strip rule. */
  function CategorizeRecipe(client: CategorizerClient, generate: Oracle.Generator, recipeName: string, categories: seq<string>)
    : (r: Result<string>)
    ensures r == Err(HttpError) <==> generate(CategorizeRequest(client, recipeName, categories)).TransportFailure?
    ensures generate(CategorizeRequest(client, recipeName, categories)).Body? ==>
      r == Oracle.ParseCategory(generate(CategorizeRequest(client, recipeName, categories)).data)
    ensures generate(CategorizeRequest(client, recipeName, categories)).Body? ==>
      ("response" !in generate(CategorizeRequest(client, recipeName, categories)).data <==> r == Err(ValueError(Oracle.InvalidReply)))
  {
    match generate(CategorizeRequest(client, recipeName, categories))
    case TransportFailure => Err(HttpError)
    case Body(data) => Oracle.ParseCategory(data)
  }

  /** Built from the same URL and model, the two clients send the same
      request and, the language model answering that request once, return
      the same category. */
  lemma SameAsOllamaClient(url: string, model: string, generate: Oracle.Generator,
                           recipeName: string, categories: seq<string>)
    ensures CategorizeRequest(NewCategorizerClient(url, model), recipeName, categories)
      == Oracle.CategorizeRequest(Oracle.NewOllamaClient(url, model), recipeName, categories)
    ensures CategorizeRecipe(NewCategorizerClient(url, model), generate, recipeName, categories)
      == Oracle.CategorizeRecipe(Oracle.NewOllamaClient(url, model), generate, recipeName, categories)
  {
  }
}
