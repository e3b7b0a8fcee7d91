/** `populate_categories` (mealie_toolkit/utils.py): read a file of category
    names, one per line, and create each non-blank one in Mealie, carrying on
    past HTTP failures. The file is its sequence of lines (`None` when there
    is no such file) and `create_category` is an oracle naming the outcome of
    each call. */
module Populate {
  import Text
  import opened Base

  /** The names the comprehension keeps: each line stripped, the blank ones
      dropped, order kept. */
  function CleanNames(lines: seq<string>): (r: seq<string>)
    ensures |r| <= |lines|
  {
    if lines == [] then []
    else
      var last := lines[|lines| - 1];
      CleanNames(lines[..|lines| - 1]) + (if Text.Strip(last) != "" then [Text.Strip(last)] else [])
  }

  /** Every kept name is non-empty and already stripped: stripping it again
      changes nothing. */
  lemma {:induction false} CleanNamesStripped(lines: seq<string>)
    ensures forall i :: 0 <= i < |CleanNames(lines)| ==> CleanNames(lines)[i] != ""
    ensures forall i :: 0 <= i < |CleanNames(lines)| ==> Text.Strip(CleanNames(lines)[i]) == CleanNames(lines)[i]
  {
    if lines != [] {
      var last := lines[|lines| - 1];
      var init := CleanNames(lines[..|lines| - 1]);
      var tail := if Text.Strip(last) != "" then [Text.Strip(last)] else [];
      var r := CleanNames(lines);
      assert r == init + tail;
      CleanNamesStripped(lines[..|lines| - 1]);
      Text.StripIdempotent(last);
      forall i | 0 <= i < |r|
        ensures r[i] != "" && Text.Strip(r[i]) == r[i]
      {
        if i < |init| {
          assert r[i] == init[i];
        } else {
          assert r[i] == Text.Strip(last);
        }
      }
    }
  }

  /** The file is cleaned line by line. */
  lemma {:induction false} CleanNamesAppend(x: seq<string>, y: seq<string>)
    ensures CleanNames(x + y) == CleanNames(x) + CleanNames(y)
    decreases |y|
  {
    if y == [] {
      assert x + y == x;
    } else {
      var y' := y[..|y| - 1];
      assert (x + y)[..|x + y| - 1] == x + y';
      assert (x + y)[|x + y| - 1] == y[|y| - 1];
      CleanNamesAppend(x, y');
    }
  }

  /** A single line gives no name when it is all whitespace, and otherwise
      exactly its stripped text. */
  lemma CleanNamesLine(line: string)
    ensures CleanNames([line]) == if Text.AllSpace(line) then [] else [Text.Strip(line)]
  {
    assert [line][..0] == [];
    Text.StripEmpty(line);
  }

  /** How one `create_category` call ends: success, an `httpx.HTTPError`
      (reported and skipped), or any other exception (which ends the run). */
  datatype CreateOutcome = Created | HttpFailed | Raised

  /** The server's answer to `create_category`: the outcome of the call made
      at position i (counting from 0) for a name. The file is not
      de-duplicated, so the same name may fare differently on two calls. */
  type Creator = (nat, string) -> CreateOutcome

  datatype PopulateRun =
    | FileNotFound
    | Finished(created: nat, failed: seq<string>)
    | Aborted(name: string)

  /** The names whose creation failed with an HTTP error, in call order. */
  function FailedNames(names: seq<string>, create: Creator): (r: seq<string>)
    ensures |r| <= |names|
  {
    if names == [] then []
    else
      var rest := FailedNames(names[..|names| - 1], create);
      var i := |names| - 1;
      if create(i, names[i]) == HttpFailed then rest + [names[i]] else rest
  }

  /** Some call for `x` failed with an HTTP error. */
  predicate FailedCall(names: seq<string>, create: Creator, x: string)
  {
    exists i :: 0 <= i < |names| && names[i] == x && create(i, names[i]) == HttpFailed
  }

  /** Every listed name was the subject of a call that failed with an HTTP
      error. */
  lemma {:induction false} FailedNamesSound(names: seq<string>, create: Creator)
    ensures forall x :: x in FailedNames(names, create) ==> FailedCall(names, create, x)
  {
    if names != [] {
      var init := names[..|names| - 1];
      FailedNamesSound(init, create);
      forall x | x in FailedNames(names, create)
        ensures FailedCall(names, create, x)
      {
        var i := |names| - 1;
        if x in FailedNames(init, create) {
          var j :| 0 <= j < |init| && init[j] == x && create(j, init[j]) == HttpFailed;
          assert names[j] == init[j];
        } else {
          assert names[i] == x && create(i, names[i]) == HttpFailed;
        }
      }
    }
  }

  /** A server on which only the first call succeeds. */
  function FirstCallOnly(i: nat, name: string): CreateOutcome
  {
    if i == 0 then Created else HttpFailed
  }

  /** A name listed twice is created twice: the first call may succeed and
      the second fail, so the name is both created and reported failed. */
  lemma RepeatedNameMayFailOnce(n: string)
    ensures FailedNames([n, n], FirstCallOnly) == [n]
  {
    assert [n, n][..1] == [n];
    assert [n][..0] == [];
    assert FailedNames([n], FirstCallOnly) == [];
  }

  lemma FailedNamesSnoc(names: seq<string>, x: string, create: Creator)
    ensures FailedNames(names + [x], create)
      == FailedNames(names, create) + (if create(|names|, x) == HttpFailed then [x] else [])
  {
    assert (names + [x])[..|names|] == names;
    assert (names + [x])[|names|] == x;
    if create(|names|, x) != HttpFailed {
      assert FailedNames(names, create) + [] == FailedNames(names, create);
    }
  }

  /** What the creation loop promises about a run over `names` that made
      the calls `calls`: the calls are a prefix of the names; it finishes
      exactly when no call raises, having called for every name and recorded
      the HTTP failures; otherwise it stops at the first call that raised. */
  predicate CreationRun(names: seq<string>, create: Creator, run: PopulateRun, calls: seq<string>)
  {
    && (run.Finished? || run.Aborted?)
    && calls <= names
    && (forall i :: 0 <= i < |calls| - 1 ==> create(i, calls[i]) != Raised)
    && (run.Finished? ==> calls == names && run.failed == FailedNames(names, create) && run.created == |names| - |run.failed|)
    && (run.Aborted? ==> calls != [] && run.name == calls[|calls| - 1] && create(|calls| - 1, run.name) == Raised)
    && ((forall i :: 0 <= i < |names| ==> create(i, names[i]) != Raised) <==> run.Finished?)
  }

  /** A run that stops at the first call that raised is a creation run. */
  lemma AbortedRun(names: seq<string>, create: Creator, i: nat)
    requires i < |names| && create(i, names[i]) == Raised
    requires forall j :: 0 <= j < i ==> create(j, names[j]) != Raised
    ensures CreationRun(names, create, Aborted(names[i]), names[..i + 1])
  {
    var calls := names[..i + 1];
    assert forall j :: 0 <= j < |calls| - 1 ==> calls[j] == names[j];
  }

  /** A run that called for every name without a raise and recorded the
      HTTP failures is a creation run. */
  lemma FinishedRun(names: seq<string>, create: Creator, created: nat, failed: seq<string>)
    requires forall j :: 0 <= j < |names| ==> create(j, names[j]) != Raised
    requires failed == FailedNames(names, create) && created == |names| - |failed|
    ensures CreationRun(names, create, Finished(created, failed), names)
  {
  }

  /** The creation loop over the cleaned names: one `create_category` call
      per name, in order; HTTP failures are recorded and skipped, any other
      exception stops the loop. */
  method CreateAll(names: seq<string>, create: Creator) returns (run: PopulateRun, calls: seq<string>)
    ensures CreationRun(names, create, run, calls)
  {
    calls := [];
    var failed: seq<string> := [];
    var created: nat := 0;
    for i := 0 to |names|
      invariant calls == names[..i]
      invariant forall j :: 0 <= j < i ==> create(j, names[j]) != Raised
      invariant failed == FailedNames(calls, create)
      invariant created + |failed| == i
    {
      var outcome := create(i, names[i]);
      FailedNamesSnoc(calls, names[i], create);
      calls := calls + [names[i]];
      if outcome == Raised {
        AbortedRun(names, create, i);
        return Aborted(names[i]), calls;
      } else if outcome == Created {
        created := created + 1;
      } else {
        failed := failed + [names[i]];
      }
    }
    assert names[..|names|] == names;
    FinishedRun(names, create, created, failed);
    run := Finished(created, failed);
  }

  /** `populate_categories`: a missing file is reported and nothing is
      created; otherwise the creation loop runs over the cleaned names. */
  method PopulateCategories(file: Option<seq<string>>, create: Creator)
    returns (run: PopulateRun, calls: seq<string>)
    ensures file.None? <==> run == FileNotFound
    ensures file.None? ==> calls == []
    ensures file.Some? ==> CreationRun(CleanNames(file.value), create, run, calls)
  {
    if file.None? {
      return FileNotFound, [];
    }
    run, calls := CreateAll(CleanNames(file.value), create);
  }
}
