/** The auto-tagging workflow (mealie_toolkit/tagging.py): fetch every
    recipe, ask the language model about each one (up to an optional limit),
    ask the user once for confirmation, then tag the matches one by one.
    The user's replies are a finite sequence of input lines; the tag call of
    the Mealie client is an oracle saying whether it returned normally. */
module Tagging {
  import opened Base
  import Text
  import Pager
  import Oracle

  // ---------------------------------------------------------------------
  // The recipes to check

  /** `recipes[:limit] if limit else recipes`: no limit or 0 means all; a
      positive limit keeps at most that many from the front; a negative one
      drops that many from the back, as a Python slice does. */
  function LimitSlice<T>(rs: seq<T>, limit: Option<int>): (r: seq<T>)
    ensures r <= rs
    ensures limit == None || limit == Some(0) ==> r == rs
    ensures limit.Some? && limit.value >= |rs| ==> r == rs
    ensures limit.Some? && limit.value > 0 ==> |r| == if limit.value < |rs| then limit.value else |rs|
    ensures limit.Some? && limit.value < 0 ==> |r| == if |rs| + limit.value > 0 then |rs| + limit.value else 0
  {
    match limit
    case None => rs
    case Some(n) =>
      if n == 0 then rs
      else if n > 0 then (if n < |rs| then rs[..n] else rs)
      else (if |rs| + n > 0 then rs[..|rs| + n] else [])
  }

  // ---------------------------------------------------------------------
  // _collect_tag_suggestions

  /** `{"recipe_name": recipe.get("name", ""), "recipe_slug": recipe.get("slug")}` */
  datatype TagMatch = TagMatch(recipeName: Json, recipeSlug: Json)

  function MatchOf(recipe: Object): TagMatch
  {
    TagMatch(Get(recipe, "name", JStr("")), Get(recipe, "slug", JNull))
  }

  /** The language model's verdict on one recipe, or the error it raised. */
  function Verdict(categorizer: Oracle.OllamaClient, generate: Oracle.Generator, tag: string): Object -> Result<bool>
  {
    recipe => Oracle.TagCheck(categorizer, generate, recipe, tag)
  }

  /** The recipes kept by the collection loop, in order: those the model
      answered yes for. A no, and any exception, both skip the recipe. */
  function Matching(rs: seq<Object>, verdict: Object -> Result<bool>): (r: seq<TagMatch>)
    ensures |r| <= |rs|
  {
    if rs == [] then []
    else Matching(rs[..|rs| - 1], verdict) + (if verdict(rs[|rs| - 1]) == Ok(true) then [MatchOf(rs[|rs| - 1])] else [])
  }

  lemma {:induction false} MatchingAppend(x: seq<Object>, y: seq<Object>, verdict: Object -> Result<bool>)
    ensures Matching(x + y, verdict) == Matching(x, verdict) + Matching(y, verdict)
    decreases |y|
  {
    if y == [] {
      assert x + y == x;
    } else {
      var y' := y[..|y| - 1];
      assert (x + y)[..|x + y| - 1] == x + y';
      assert (x + y)[|x + y| - 1] == y[|y| - 1];
      MatchingAppend(x, y', verdict);
    }
  }

  /** A recipe the model did not confirm (a no or an error) contributes
      nothing: the result is as if it were not there. */
  lemma MatchingSkipsUnconfirmed(rs: seq<Object>, verdict: Object -> Result<bool>, k: nat)
    requires k < |rs| && verdict(rs[k]) != Ok(true)
    ensures Matching(rs, verdict) == Matching(rs[..k] + rs[k + 1..], verdict)
  {
    var pre, post := rs[..k], rs[k + 1..];
    assert rs == pre + ([rs[k]] + post);
    assert Matching([rs[k]], verdict) == [] by {
      assert [rs[k]][..0] == [];
    }
    MatchingAppend([rs[k]], post, verdict);
    assert Matching([rs[k]] + post, verdict) == Matching(post, verdict);
    MatchingAppend(pre, [rs[k]] + post, verdict);
    MatchingAppend(pre, post, verdict);
  }

  /** When the model confirms every recipe, every recipe is a match, in order. */
  lemma {:induction false} MatchingAllConfirmed(rs: seq<Object>, verdict: Object -> Result<bool>)
    requires forall i :: 0 <= i < |rs| ==> verdict(rs[i]) == Ok(true)
    ensures |Matching(rs, verdict)| == |rs|
    ensures forall i :: 0 <= i < |rs| ==> Matching(rs, verdict)[i] == MatchOf(rs[i])
  {
    if rs != [] {
      var init := rs[..|rs| - 1];
      assert forall i :: 0 <= i < |init| ==> init[i] == rs[i];
      MatchingAllConfirmed(init, verdict);
      assert verdict(rs[|rs| - 1]) == Ok(true);
      assert Matching(rs, verdict) == Matching(init, verdict) + [MatchOf(rs[|rs| - 1])];
      forall i | 0 <= i < |rs|
        ensures Matching(rs, verdict)[i] == MatchOf(rs[i])
      {
        if i < |init| {
          assert rs[i] == init[i];
        }
      }
    }
  }

  /** m is the match of some recipe of rs that the model confirmed. */
  predicate FromConfirmed(rs: seq<Object>, verdict: Object -> Result<bool>, m: TagMatch)
  {
    exists i :: 0 <= i < |rs| && verdict(rs[i]) == Ok(true) && m == MatchOf(rs[i])
  }

  /** Every match comes from a recipe the model confirmed. */
  lemma {:induction false} MatchingSound(rs: seq<Object>, verdict: Object -> Result<bool>)
    ensures forall j :: 0 <= j < |Matching(rs, verdict)| ==> FromConfirmed(rs, verdict, Matching(rs, verdict)[j])
  {
    if rs != [] {
      var init := rs[..|rs| - 1];
      MatchingSound(init, verdict);
      var last := if verdict(rs[|rs| - 1]) == Ok(true) then [MatchOf(rs[|rs| - 1])] else [];
      assert Matching(rs, verdict) == Matching(init, verdict) + last;
      forall j | 0 <= j < |Matching(rs, verdict)|
        ensures FromConfirmed(rs, verdict, Matching(rs, verdict)[j])
      {
        if j < |Matching(init, verdict)| {
          assert FromConfirmed(init, verdict, Matching(init, verdict)[j]);
          var i :| 0 <= i < |init| && verdict(init[i]) == Ok(true) && Matching(init, verdict)[j] == MatchOf(init[i]);
          assert rs[i] == init[i];
          assert Matching(rs, verdict)[j] == Matching(init, verdict)[j];
        } else {
          assert last != [];
          assert Matching(rs, verdict)[j] == MatchOf(rs[|rs| - 1]);
          assert verdict(rs[|rs| - 1]) == Ok(true);
        }
      }
    }
  }

  /** One more recipe extends the matches by its own match exactly when the
      model confirmed it. */
  lemma MatchingSnoc(rs: seq<Object>, x: Object, verdict: Object -> Result<bool>)
    ensures Matching(rs + [x], verdict) == Matching(rs, verdict) + (if verdict(x) == Ok(true) then [MatchOf(x)] else [])
  {
    assert (rs + [x])[..|rs + [x]| - 1] == rs;
    assert (rs + [x])[|rs + [x]| - 1] == x;
  }

  /** `_collect_tag_suggestions`: one model call per recipe to process, in
      order (`checked` lists the recipes passed to the model); a failing call
      is reported and skipped. The categorizer's `check_tag_applies(recipe,
      tag)` is the function `check`: the workflow passes `Verdict`, which
      `Oracle.CheckTagApplies` computes. */
  method CollectTagSuggestions(check: Object -> Result<bool>, recipes: seq<Object>, limit: Option<int>)
    returns (matches: seq<TagMatch>, checked: seq<Object>)
    ensures checked == LimitSlice(recipes, limit)
    ensures matches == Matching(LimitSlice(recipes, limit), check)
  {
    var todo := LimitSlice(recipes, limit);
    matches, checked := [], [];
    for i := 0 to |todo|
      invariant checked == todo[..i]
      invariant matches == Matching(checked, check)
    {
      var applies := check(todo[i]);
      MatchingSnoc(checked, todo[i], check);
      checked := checked + [todo[i]];
      if applies == Ok(true) {
        matches := matches + [MatchOf(todo[i])];
      }
    }
    assert todo[..|todo|] == todo;
  }

  // ---------------------------------------------------------------------
  // _get_tag_confirmation

  /** One reply to the yes/no question, lower-cased and trimmed: "yes" or
      "y" accepts, "no" or "n" declines, anything else asks again. */
  function Answer(line: string): Option<bool>
  {
    var t := Text.Lower(Text.Strip(line));
    if t == "yes" || t == "y" then Some(true)
    else if t == "no" || t == "n" then Some(false)
    else None
  }

  /** "y" or "yes" in any case. */
  predicate IsYesWord(t: string)
  {
    (|t| == 1 && Oracle.IsY(t[0])) || (|t| == 3 && Oracle.IsY(t[0]) && Oracle.IsE(t[1]) && Oracle.IsS(t[2]))
  }

  /** "n" or "no" in any case. */
  predicate IsNoWord(t: string)
  {
    (|t| == 1 && Oracle.IsN(t[0])) || (|t| == 2 && Oracle.IsN(t[0]) && Oracle.IsO(t[1]))
  }

  /** Lower-casing gives w exactly when it maps t's characters one by one to w's. */
  lemma LowerIs(t: string, w: string)
    ensures Text.Lower(t) == w <==> |t| == |w| && forall i :: 0 <= i < |t| ==> Text.LowerChar(t[i]) == w[i]
  {
    var u := Text.Lower(t);
    if |t| == |w| && forall i :: 0 <= i < |t| ==> Text.LowerChar(t[i]) == w[i] {
      assert forall i :: 0 <= i < |u| ==> u[i] == w[i];
    }
  }

  /** Lower-casing gives the lower-case letter l exactly from l and from its
      upper-case form. */
  lemma LowerCharIs(c: char, l: char)
    requires 'a' <= l <= 'z'
    ensures Text.LowerChar(c) == l <==> c == l || c as int == l as int - 32
  {
  }

  lemma LowerIsYes(t: string)
    ensures Text.Lower(t) == "yes" <==> |t| == 3 && Oracle.IsY(t[0]) && Oracle.IsE(t[1]) && Oracle.IsS(t[2])
  {
    var w := "yes";
    assert |w| == 3 && w[0] == 'y' && w[1] == 'e' && w[2] == 's';
    LowerIs(t, w);
    if |t| == 3 {
      LowerCharIs(t[0], 'y');
      LowerCharIs(t[1], 'e');
      LowerCharIs(t[2], 's');
      var each := Text.LowerChar(t[0]) == 'y' && Text.LowerChar(t[1]) == 'e' && Text.LowerChar(t[2]) == 's';
      assert each <==> Oracle.IsY(t[0]) && Oracle.IsE(t[1]) && Oracle.IsS(t[2]);
      assert each <==> forall i :: 0 <= i < |t| ==> Text.LowerChar(t[i]) == w[i];
    }
  }

  lemma LowerIsNo(t: string)
    ensures Text.Lower(t) == "no" <==> |t| == 2 && Oracle.IsN(t[0]) && Oracle.IsO(t[1])
  {
    var w := "no";
    assert |w| == 2 && w[0] == 'n' && w[1] == 'o';
    LowerIs(t, w);
    if |t| == 2 {
      LowerCharIs(t[0], 'n');
      LowerCharIs(t[1], 'o');
      var each := Text.LowerChar(t[0]) == 'n' && Text.LowerChar(t[1]) == 'o';
      assert each <==> Oracle.IsN(t[0]) && Oracle.IsO(t[1]);
      assert each <==> forall i :: 0 <= i < |t| ==> Text.LowerChar(t[i]) == w[i];
    }
  }

  lemma LowerIsLetter(t: string, c: char)
    requires 'a' <= c <= 'z'
    ensures Text.Lower(t) == [c] <==> |t| == 1 && Text.LowerChar(t[0]) == c
  {
    var u := Text.Lower(t);
    if |t| == 1 && Text.LowerChar(t[0]) == c {
      assert u == [c];
    }
    if u == [c] {
      assert u[0] == c;
    }
  }

  /** The answer depends only on the trimmed reply: a yes exactly for "y" and
      "yes" in any case, a no exactly for "n" and "no" in any case. */
  lemma AnswerRule(line: string)
    ensures Answer(line) == Some(true) <==> IsYesWord(Text.Strip(line))
    ensures Answer(line) == Some(false) <==> IsNoWord(Text.Strip(line))
  {
    var s := Text.Strip(line);
    LowerIsYes(s);
    LowerIsNo(s);
    LowerIsLetter(s, 'y');
    LowerIsLetter(s, 'n');
    assert "y" == ['y'] && "n" == ['n'];
  }

  /** Whitespace around a reply does not change it. */
  lemma AnswerPadded(a: string, line: string, c: string)
    requires Text.AllSpace(a) && Text.AllSpace(c)
    ensures Answer(a + line + c) == Answer(line)
  {
    Text.StripPadded(a, line, c);
  }

  /** How the confirmation prompt ends: the decisive reply and how many lines
      it took, or the input running out (`input()` raising `EOFError`). */
  datatype Confirmation = Confirmed(yes: bool, consumed: nat) | InputExhausted

  /** The prompt loop from line i on, with `answer` reading one line. */
  function FirstAnswerFrom(inputs: seq<string>, answer: string -> Option<bool>, i: nat): Confirmation
    decreases |inputs| - i
  {
    if i >= |inputs| then InputExhausted
    else if answer(inputs[i]).Some? then Confirmed(answer(inputs[i]).value, i + 1)
    else FirstAnswerFrom(inputs, answer, i + 1)
  }

  /** The outcome of the confirmation prompt on these input lines. */
  function FirstAnswer(inputs: seq<string>): Confirmation
  {
    FirstAnswerFrom(inputs, Answer, 0)
  }

  /** From line i on, with no decisive line before i, the prompt returns at
      the first decisive line, with that line's verdict, after reading
      exactly the lines up to it; it runs out of input exactly when no line
      is decisive. `FirstAnswer` is the case i = 0 with the reader `Answer`. */
  lemma {:induction false} FirstAnswerFromSpec(inputs: seq<string>, answer: string -> Option<bool>, i: nat)
    requires i <= |inputs|
    requires forall j :: 0 <= j < i ==> answer(inputs[j]).None?
    ensures FirstAnswerFrom(inputs, answer, i).Confirmed? ==>
      && 1 <= FirstAnswerFrom(inputs, answer, i).consumed <= |inputs|
      && answer(inputs[FirstAnswerFrom(inputs, answer, i).consumed - 1]) == Some(FirstAnswerFrom(inputs, answer, i).yes)
      && forall j :: 0 <= j < FirstAnswerFrom(inputs, answer, i).consumed - 1 ==> answer(inputs[j]).None?
    ensures FirstAnswerFrom(inputs, answer, i).InputExhausted? <==> forall j :: 0 <= j < |inputs| ==> answer(inputs[j]).None?
    decreases |inputs| - i
  {
    if i < |inputs| && answer(inputs[i]).None? {
      FirstAnswerFromSpec(inputs, answer, i + 1);
    }
  }

  /** `_get_tag_confirmation`: read lines until one is decisive. */
  method GetTagConfirmation(inputs: seq<string>) returns (c: Confirmation)
    ensures c == FirstAnswer(inputs)
  {
    var i := 0;
    while i < |inputs|
      invariant i <= |inputs|
      invariant FirstAnswerFrom(inputs, Answer, i) == FirstAnswer(inputs)
    {
      var answer := Answer(inputs[i]);
      if answer.Some? {
        return Confirmed(answer.value, i + 1);
      }
      i := i + 1;
    }
    return InputExhausted;
  }

  // ---------------------------------------------------------------------
  // _apply_tags

  /** The number of matches whose tag call returns normally. */
  function Successes(matches: seq<TagMatch>, addTag: (Json, string) -> bool, tag: string): (n: nat)
    ensures n <= |matches|
  {
    if matches == [] then 0
    else
      var last := matches[|matches| - 1];
      Successes(matches[..|matches| - 1], addTag, tag) + (if addTag(last.recipeSlug, tag) then 1 else 0)
  }

  /** All calls succeeding tags every match; all failing tags none. */
  lemma {:induction false} SuccessesBounds(matches: seq<TagMatch>, addTag: (Json, string) -> bool, tag: string)
    ensures (forall i :: 0 <= i < |matches| ==> addTag(matches[i].recipeSlug, tag)) ==> Successes(matches, addTag, tag) == |matches|
    ensures (forall i :: 0 <= i < |matches| ==> !addTag(matches[i].recipeSlug, tag)) ==> Successes(matches, addTag, tag) == 0
  {
    if matches != [] {
      SuccessesBounds(matches[..|matches| - 1], addTag, tag);
    }
  }

  /** `_apply_tags`: one tag call per match, in order; a failure is reported
      and the loop goes on. Returns the count of successful calls. */
  method ApplyTags(addTag: (Json, string) -> bool, matches: seq<TagMatch>, tag: string)
    returns (tagged: nat, calls: seq<Json>)
    ensures |calls| == |matches|
    ensures forall i :: 0 <= i < |matches| ==> calls[i] == matches[i].recipeSlug
    ensures tagged == Successes(matches, addTag, tag)
  {
    tagged := 0;
    calls := [];
    for i := 0 to |matches|
      invariant |calls| == i
      invariant forall j :: 0 <= j < i ==> calls[j] == matches[j].recipeSlug
      invariant tagged == Successes(matches[..i], addTag, tag)
    {
      assert matches[..i + 1][..i] == matches[..i];
      calls := calls + [matches[i].recipeSlug];
      if addTag(matches[i].recipeSlug, tag) {
        tagged := tagged + 1;
      }
    }
    assert matches[..|matches|] == matches;
  }

  // ---------------------------------------------------------------------
  // auto_tag_recipes

  /** How a run of the workflow ends. */
  datatype TagRun =
    | FetchFailed              // fetch_recipes raised an HTTP error
    | FetchHangs               // fetch_recipes re-requests a page forever
    | NoMatches                // no recipe matched, no question asked
    | InputEnded               // the input ran out before a decisive reply
    | Cancelled                // the user declined
    | Tagged(count: nat, total: nat)

  /** `auto_tag_recipes`: each stage runs only when the one before it allows:
      no matches means no question; no tag call unless the user said yes. */
  method AutoTagRecipes(ollamaUrl: string, ollamaModel: string, generate: Oracle.Generator,
                        pages: seq<Pager.Reply<Object>>, tag: string, limit: Option<int>,
                        inputs: seq<string>, addTag: (Json, string) -> bool)
    returns (run: TagRun, matches: seq<TagMatch>, calls: seq<Json>)
    ensures Pager.Walk(pages).TransportError? ==> run == FetchFailed && matches == [] && calls == []
    ensures Pager.Walk(pages).Hangs? ==> run == FetchHangs && matches == [] && calls == []
    ensures Pager.Walk(pages).Complete? ==>
      matches == Matching(LimitSlice(Pager.Walk(pages).items, limit),
                          Verdict(Oracle.NewOllamaClient(ollamaUrl, ollamaModel), generate, tag))
    ensures Pager.Walk(pages).Complete? && matches == [] ==> run == NoMatches && calls == []
    ensures matches != [] && FirstAnswer(inputs) == InputExhausted ==> run == InputEnded && calls == []
    ensures matches != [] && FirstAnswer(inputs).Confirmed? && !FirstAnswer(inputs).yes ==> run == Cancelled && calls == []
    ensures matches != [] && FirstAnswer(inputs).Confirmed? && FirstAnswer(inputs).yes ==>
      && run == Tagged(Successes(matches, addTag, tag), |matches|)
      && |calls| == |matches|
      && forall i :: 0 <= i < |matches| ==> calls[i] == matches[i].recipeSlug
    ensures calls != [] ==> FirstAnswer(inputs).Confirmed? && FirstAnswer(inputs).yes
  {
    var categorizer := Oracle.NewOllamaClient(ollamaUrl, ollamaModel);
    var fetched, _ := Pager.FetchAll(pages);
    matches, calls := [], [];
    match fetched {
      case TransportError(_) =>
        return FetchFailed, matches, calls;
      case Hangs(_) =>
        return FetchHangs, matches, calls;
      case Complete(recipes, _) =>
        var checked;
        matches, checked := CollectTagSuggestions(Verdict(categorizer, generate, tag), recipes, limit);
    }
    if matches == [] {
      return NoMatches, matches, calls;
    }
    var confirmation := GetTagConfirmation(inputs);
    if confirmation.InputExhausted? {
      return InputEnded, matches, calls;
    }
    if !confirmation.yes {
      return Cancelled, matches, calls;
    }
    var tagged;
    tagged, calls := ApplyTags(addTag, matches, tag);
    run := Tagged(tagged, |matches|);
  }
}
