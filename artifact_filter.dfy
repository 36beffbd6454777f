/**
 * The include/exclude filter-and-delete pass of the action (the loop in `run`): every
 * artifact of the current workflow run whose name passes the filter is deleted, one
 * request at a time and in listing order, and the deleted artifacts are returned.
 *
 * The remote API is not modelled as code: the listing is a parameter, and the outcome of a
 * delete request is given by `reject`, which maps an artifact id to the message of the
 * error that request throws, or to `None` when the request succeeds. The ids the pass asks
 * to delete are recorded in a ghost request log.
 */
module ArtifactFilter {
  import opened Wrappers
  import opened Sequences
  import InputParser

  /** An artifact as the listing call returns it; the name is its only matching key. */
  datatype Artifact = Artifact(id: int, name: string, workflowRunId: Option<int>)

  /** The outcome of the pass together with the ids of the delete requests it issued, in order. */
  datatype Outcome = Outcome(result: Result<seq<Artifact>, string>, requests: seq<int>)

  /** What the action reports back to the runner: the `deleted-artifacts` output, or a failure. */
  datatype Status = Succeeded(deletedArtifacts: seq<Artifact>) | Failed(message: string)

  // ---------------------------------------------------------------------------------------
  // The decision for one artifact
  // ---------------------------------------------------------------------------------------

  /** An empty include list includes every name. */
  predicate MatchInclude(includes: seq<string>, name: string)
  {
    |includes| == 0 || name in includes
  }

  /** The guard on the length of the exclude list changes nothing: this is plain membership. */
  function MatchExclude(excludes: seq<string>, name: string): (matched: bool)
    ensures matched <==> name in excludes
  {
    |excludes| > 0 && name in excludes
  }

  predicate ShouldDelete(includes: seq<string>, excludes: seq<string>, artifact: Artifact)
  {
    MatchInclude(includes, artifact.name) && !MatchExclude(excludes, artifact.name)
  }

  // ---------------------------------------------------------------------------------------
  // The specification of the whole pass
  // ---------------------------------------------------------------------------------------

  /** The filter as a predicate on artifacts. */
  function Keep(includes: seq<string>, excludes: seq<string>): Artifact -> bool
  {
    a => ShouldDelete(includes, excludes, a)
  }

  /** The deletion candidates of a listing, in listing order. */
  function Selected(includes: seq<string>, excludes: seq<string>, artifacts: seq<Artifact>): (candidates: seq<Artifact>)
    ensures forall j :: 0 <= j < |candidates| ==> ShouldDelete(includes, excludes, candidates[j])
  {
    var candidates := Filter(Keep(includes, excludes), artifacts);
    assert forall j :: 0 <= j < |candidates| ==> candidates[j] in candidates;
    candidates
  }

  /** The ids of the artifacts, in order: the request log of deleting them one by one. */
  function Ids(artifacts: seq<Artifact>): seq<int>
  {
    seq(|artifacts|, j requires 0 <= j < |artifacts| => artifacts[j].id)
  }

  /** The position of the first artifact whose delete request fails, or the length if none fails. */
  function FirstRejected(candidates: seq<Artifact>, reject: int -> Option<string>): (k: nat)
    ensures k <= |candidates|
    ensures forall j :: 0 <= j < k ==> reject(candidates[j].id).None?
    ensures k < |candidates| ==> reject(candidates[k].id).Some?
  {
    if candidates == [] || reject(candidates[0].id).Some? then 0
    else 1 + FirstRejected(candidates[1..], reject)
  }

  /**
   * The pass as a whole: the candidates are deleted in order until a delete request fails;
   * the failing request is the last one issued and its error becomes the result.
   */
  function ExpectedRun(includes: seq<string>, excludes: seq<string>, artifacts: seq<Artifact>,
                       reject: int -> Option<string>): Outcome
  {
    var candidates := Selected(includes, excludes, artifacts);
    var k := FirstRejected(candidates, reject);
    if k == |candidates| then Outcome(Success(candidates), Ids(candidates))
    else Outcome(Failure(reject(candidates[k].id).value), Ids(candidates[..k + 1]))
  }

  // ---------------------------------------------------------------------------------------
  // Properties of the specification
  // ---------------------------------------------------------------------------------------

  /**
   * The candidates are the listing restricted to ascending positions, and a position is
   * among them exactly when its artifact passes the filter: listing order is kept and no
   * candidate is missed or repeated.
   */
  lemma {:induction false} SelectedInListingOrder(includes: seq<string>, excludes: seq<string>, artifacts: seq<Artifact>)
    ensures exists idx ::
              && IsRestriction(Selected(includes, excludes, artifacts), artifacts, idx)
              && forall i :: 0 <= i < |artifacts| ==> (i in idx <==> ShouldDelete(includes, excludes, artifacts[i]))
  {
    var keep := Keep(includes, excludes);
    FilterIsOrderedRestriction(keep, artifacts);
    var idx := KeptIndices(keep, artifacts);
    assert IsRestriction(Selected(includes, excludes, artifacts), artifacts, idx);
    forall i | 0 <= i < |artifacts| ensures i in idx <==> ShouldDelete(includes, excludes, artifacts[i]) {
      assert keep(artifacts[i]) == ShouldDelete(includes, excludes, artifacts[i]);
    }
  }

  /** A listed artifact is a candidate exactly when it passes the filter. */
  lemma {:induction false} SelectedMembership(includes: seq<string>, excludes: seq<string>, artifacts: seq<Artifact>, artifact: Artifact)
    ensures artifact in Selected(includes, excludes, artifacts) <==>
              artifact in artifacts && (includes == [] || artifact.name in includes) && artifact.name !in excludes
  {
    FilterMembership(Keep(includes, excludes), artifacts, artifact);
  }

  /** An artifact named in the exclude list is never deleted, even if the include list names it too. */
  lemma {:induction false} ExcludedNeverDeleted(includes: seq<string>, excludes: seq<string>, artifacts: seq<Artifact>, artifact: Artifact)
    requires artifact.name in excludes
    ensures artifact !in Selected(includes, excludes, artifacts)
  {
    SelectedMembership(includes, excludes, artifacts, artifact);
  }

  /** With an empty include list, every listed artifact is deleted unless it is excluded. */
  lemma {:induction false} EmptyIncludesSelectsAllButExcluded(excludes: seq<string>, artifacts: seq<Artifact>, artifact: Artifact)
    requires artifact in artifacts && artifact.name !in excludes
    ensures artifact in Selected([], excludes, artifacts)
  {
    SelectedMembership([], excludes, artifacts, artifact);
  }

  /** With no filter at all, the whole listing is selected, in order. */
  lemma {:induction false} NoFiltersSelectsAll(artifacts: seq<Artifact>)
    ensures Selected([], [], artifacts) == artifacts
  {
    FilterKeepsAll(Keep([], []), artifacts);
  }

  /**
   * One delete request per deleted artifact: a successful pass requested exactly the ids of
   * the artifacts it returns, in that order. A failed pass requested the ids of a prefix of
   * the candidates, all accepted but the last, whose request threw the reported error.
   */
  lemma {:induction false} RequestsMatchDeletions(includes: seq<string>, excludes: seq<string>, artifacts: seq<Artifact>,
                               reject: int -> Option<string>)
    ensures var run := ExpectedRun(includes, excludes, artifacts, reject);
            var candidates := Selected(includes, excludes, artifacts);
            && (run.result.Success? ==> run.result.value == candidates && run.requests == Ids(run.result.value))
            && (run.result.Success? <==> forall j :: 0 <= j < |candidates| ==> reject(candidates[j].id).None?)
            && (run.result.Failure? ==>
                  && 1 <= |run.requests| <= |candidates|
                  && run.requests == Ids(candidates)[..|run.requests|]
                  && reject(run.requests[|run.requests| - 1]) == Some(run.result.error)
                  && forall j :: 0 <= j < |run.requests| - 1 ==> reject(run.requests[j]).None?)
  {
    var candidates := Selected(includes, excludes, artifacts);
    var k := FirstRejected(candidates, reject);
    if k < |candidates| {
      assert Ids(candidates[..k + 1]) == Ids(candidates)[..k + 1];
    }
  }

  /** A delete request that never fails, as the remote API's mock answers in the action's tests. */
  function AcceptAll(id: int): Option<string>
  {
    None
  }

  /** The listing the action's tests use. */
  function TestListing(): seq<Artifact>
  {
    [Artifact(1, "artifact-1", None), Artifact(2, "artifact-2", None), Artifact(3, "artifact-3", None)]
  }

  /** The two-name filter the action's tests write, `['artifact-1', 'artifact-3'].join('\n')`. */
  lemma ParseTestPair(raw: string)
    requires raw == "artifact-1\nartifact-3"
    ensures InputParser.ParseInput(raw) == ["artifact-1", "artifact-3"]
  {
    var first, second := raw[..10], raw[11..];
    assert raw == first + "\n" + second;
    assert first == "artifact-1" && second == "artifact-3";
    InputParser.ParseInputTwoNames(first, second);
  }

  /** The one-name filter the action's tests write. */
  lemma ParseTestSingle(raw: string)
    requires raw == "artifact-3"
    ensures InputParser.ParseInput(raw) == ["artifact-3"]
  {
    assert InputParser.Trim(raw) == raw by {
      InputParser.TrimPadded([], raw, []);
      assert [] + raw + [] == raw;
    }
    InputParser.ParseInputSingleLine(raw);
  }

  /** No filters: the three artifacts are deleted with three requests. */
  lemma {:induction false} DeletesAllWithoutFilters()
    ensures ExpectedRun([], [], TestListing(), AcceptAll) == Outcome(Success(TestListing()), [1, 2, 3])
  {
    NoFiltersSelectsAll(TestListing());
    AllAccepted([], [], TestListing(), AcceptAll);
  }

  /** Including artifact-1 and artifact-3: those two are deleted, in listing order, with two requests. */
  lemma DeletesIncludedOnly()
    ensures var listing := TestListing();
            ExpectedRun(["artifact-1", "artifact-3"], [], listing, AcceptAll) ==
              Outcome(Success([listing[0], listing[2]]), [1, 3])
  {
    var listing := TestListing();
    var keep := Keep(["artifact-1", "artifact-3"], []);
    assert Filter(keep, listing) == [listing[0]] + Filter(keep, listing[1..]);
    assert Filter(keep, listing[1..]) == Filter(keep, listing[2..]);
    assert Filter(keep, listing[2..]) == [listing[2]] + Filter(keep, listing[3..]);
    assert Selected(["artifact-1", "artifact-3"], [], listing) == [listing[0], listing[2]];
    AllAccepted(["artifact-1", "artifact-3"], [], listing, AcceptAll);
  }

  /** Excluding artifact-1 and artifact-3: only artifact-2 is deleted, with one request. */
  lemma KeepsExcluded()
    ensures var listing := TestListing();
            ExpectedRun([], ["artifact-1", "artifact-3"], listing, AcceptAll) == Outcome(Success([listing[1]]), [2])
  {
    var listing := TestListing();
    var keep := Keep([], ["artifact-1", "artifact-3"]);
    assert Filter(keep, listing) == Filter(keep, listing[1..]);
    assert Filter(keep, listing[1..]) == [listing[1]] + Filter(keep, listing[2..]);
    assert Filter(keep, listing[2..]) == Filter(keep, listing[3..]);
    assert Selected([], ["artifact-1", "artifact-3"], listing) == [listing[1]];
    AllAccepted([], ["artifact-1", "artifact-3"], listing, AcceptAll);
  }

  /** Including artifact-1 and artifact-3 but excluding artifact-3: only artifact-1 is deleted. */
  lemma ExcludeOverridesInclude()
    ensures var listing := TestListing();
            ExpectedRun(["artifact-1", "artifact-3"], ["artifact-3"], listing, AcceptAll) ==
              Outcome(Success([listing[0]]), [1])
  {
    var listing := TestListing();
    var keep := Keep(["artifact-1", "artifact-3"], ["artifact-3"]);
    assert Filter(keep, listing) == [listing[0]] + Filter(keep, listing[1..]);
    assert Filter(keep, listing[1..]) == Filter(keep, listing[2..]);
    assert Filter(keep, listing[2..]) == Filter(keep, listing[3..]);
    assert Selected(["artifact-1", "artifact-3"], ["artifact-3"], listing) == [listing[0]];
    AllAccepted(["artifact-1", "artifact-3"], ["artifact-3"], listing, AcceptAll);
  }

  // ---------------------------------------------------------------------------------------
  // The loop of `run`
  // ---------------------------------------------------------------------------------------

  lemma {:induction false} SelectedSnoc(includes: seq<string>, excludes: seq<string>, artifacts: seq<Artifact>, i: nat)
    requires i < |artifacts|
    ensures Selected(includes, excludes, artifacts[..i + 1]) ==
              Selected(includes, excludes, artifacts[..i]) +
              (if ShouldDelete(includes, excludes, artifacts[i]) then [artifacts[i]] else [])
  {
    var keep := Keep(includes, excludes);
    assert artifacts[..i + 1] == artifacts[..i] + [artifacts[i]];
    FilterAppend(keep, artifacts[..i], [artifacts[i]]);
    assert Filter(keep, [artifacts[i]]) == if keep(artifacts[i]) then [artifacts[i]] else [];
  }

  lemma {:induction false} SelectedSplit(includes: seq<string>, excludes: seq<string>, artifacts: seq<Artifact>, i: nat)
    requires i < |artifacts|
    ensures Selected(includes, excludes, artifacts) ==
              Selected(includes, excludes, artifacts[..i + 1]) + Selected(includes, excludes, artifacts[i + 1..])
  {
    assert artifacts == artifacts[..i + 1] + artifacts[i + 1..];
    FilterAppend(Keep(includes, excludes), artifacts[..i + 1], artifacts[i + 1..]);
  }

  lemma IdsSnoc(artifacts: seq<Artifact>, artifact: Artifact)
    ensures Ids(artifacts + [artifact]) == Ids(artifacts) + [artifact.id]
  {
  }

  /** When every candidate's delete request succeeds, the pass returns all of them. */
  lemma {:induction false} AllAccepted(includes: seq<string>, excludes: seq<string>, artifacts: seq<Artifact>,
                    reject: int -> Option<string>)
    requires forall j :: 0 <= j < |Selected(includes, excludes, artifacts)| ==>
               reject(Selected(includes, excludes, artifacts)[j].id).None?
    ensures ExpectedRun(includes, excludes, artifacts, reject) ==
              Outcome(Success(Selected(includes, excludes, artifacts)), Ids(Selected(includes, excludes, artifacts)))
  {
  }

  /**
   * When the candidates before position `i` were all deleted and the request for the
   * candidate at `i` fails, the pass stops there with that error.
   */
  lemma {:induction false} RejectedAt(includes: seq<string>, excludes: seq<string>, artifacts: seq<Artifact>,
                   reject: int -> Option<string>, i: nat)
    requires i < |artifacts| && ShouldDelete(includes, excludes, artifacts[i])
    requires reject(artifacts[i].id).Some?
    requires forall j :: 0 <= j < |Selected(includes, excludes, artifacts[..i])| ==>
               reject(Selected(includes, excludes, artifacts[..i])[j].id).None?
    ensures ExpectedRun(includes, excludes, artifacts, reject) ==
              Outcome(Failure(reject(artifacts[i].id).value),
                      Ids(Selected(includes, excludes, artifacts[..i])) + [artifacts[i].id])
  {
    var done := Selected(includes, excludes, artifacts[..i]);
    SelectedSnoc(includes, excludes, artifacts, i);
    SelectedSplit(includes, excludes, artifacts, i);
    var candidates := Selected(includes, excludes, artifacts);
    assert candidates[..|done| + 1] == done + [artifacts[i]];
    assert candidates[|done|] == artifacts[i];
    assert FirstRejected(candidates, reject) == |done|;
    IdsSnoc(done, artifacts[i]);
  }

  /**
   * The filter-and-delete loop: for each listed artifact, in order, decide whether it is a
   * candidate; if so, request its deletion (recorded in `requests`) and, if the request
   * succeeds, append it to the deleted artifacts. A failing request ends the pass with its error.
   */
  method DeleteWorkflowArtifacts(includes: seq<string>, excludes: seq<string>, artifacts: seq<Artifact>,
                                 reject: int -> Option<string>)
    returns (result: Result<seq<Artifact>, string>, ghost requests: seq<int>)
    ensures result == ExpectedRun(includes, excludes, artifacts, reject).result
    ensures requests == ExpectedRun(includes, excludes, artifacts, reject).requests
  {
    var deleted: seq<Artifact> := [];
    requests := [];
    for i := 0 to |artifacts|
      invariant deleted == Selected(includes, excludes, artifacts[..i])
      invariant requests == Ids(deleted)
      invariant forall j :: 0 <= j < |deleted| ==> reject(deleted[j].id).None?
    {
      var artifact := artifacts[i];
      var matchInclude := MatchInclude(includes, artifact.name);
      var matchExclude := MatchExclude(excludes, artifact.name);
      SelectedSnoc(includes, excludes, artifacts, i);
      if matchInclude && !matchExclude {
        requests := requests + [artifact.id];
        match reject(artifact.id)
        case Some(message) =>
          RejectedAt(includes, excludes, artifacts, reject, i);
          return Failure(message), requests;
        case None =>
          IdsSnoc(deleted, artifact);
          deleted := deleted + [artifact];
      }
    }
    assert artifacts[..|artifacts|] == artifacts;
    AllAccepted(includes, excludes, artifacts, reject);
    result := Success(deleted);
  }

  /** `core.setOutput('deleted-artifacts', ...)` on success, `core.setFailed(message)` on an error. */
  function Report(result: Result<seq<Artifact>, string>): Status
  {
    match result
    case Success(deleted) => Succeeded(deleted)
    case Failure(message) => Failed(message)
  }

  /**
   * The action's entry point after authentication: parse both filters, list the artifacts
   * and run the pass. A failing listing fails the action before any delete request.
   */
  method Run(includesRaw: string, excludesRaw: string, listing: Result<seq<Artifact>, string>,
             reject: int -> Option<string>)
    returns (status: Status, ghost requests: seq<int>)
    ensures listing.Failure? ==> status == Failed(listing.error)
    ensures listing.Failure? ==> requests == []
    ensures listing.Success? ==>
              status == Report(ExpectedRun(InputParser.ParseInput(includesRaw), InputParser.ParseInput(excludesRaw),
                                           listing.value, reject).result)
    ensures listing.Success? ==>
              requests == ExpectedRun(InputParser.ParseInput(includesRaw), InputParser.ParseInput(excludesRaw),
                                      listing.value, reject).requests
  {
    var includes := InputParser.ParseInput(includesRaw);
    var excludes := InputParser.ParseInput(excludesRaw);
    match listing
    case Failure(message) =>
      return Failed(message), [];
    case Success(artifacts) =>
      var result;
      result, requests := DeleteWorkflowArtifacts(includes, excludes, artifacts, reject);
      status := Report(result);
  }

  // ---------------------------------------------------------------------------------------
  // The action's tests, end to end: raw filter values through `Run`
  // ---------------------------------------------------------------------------------------

  /** Unset filters (read as empty strings) delete the whole listing. */
  method RunWithoutFilters() returns (status: Status, ghost requests: seq<int>)
    ensures status == Succeeded(TestListing()) && requests == [1, 2, 3]
  {
    status, requests := Run("", "", Success(TestListing()), AcceptAll);
    InputParser.ParseInputUnset();
    DeletesAllWithoutFilters();
  }

  /** `includes: 'artifact-1\nartifact-3'` deletes the first and the third artifact. */
  method RunWithIncludes() returns (status: Status, ghost requests: seq<int>)
    ensures status == Succeeded([TestListing()[0], TestListing()[2]]) && requests == [1, 3]
  {
    var includes := "artifact-1\nartifact-3";
    status, requests := Run(includes, "", Success(TestListing()), AcceptAll);
    ParseTestPair(includes);
    InputParser.ParseInputUnset();
    DeletesIncludedOnly();
  }

  /** `excludes: 'artifact-1\nartifact-3'` deletes only the second artifact. */
  method RunWithExcludes() returns (status: Status, ghost requests: seq<int>)
    ensures status == Succeeded([TestListing()[1]]) && requests == [2]
  {
    var excludes := "artifact-1\nartifact-3";
    status, requests := Run("", excludes, Success(TestListing()), AcceptAll);
    ParseTestPair(excludes);
    InputParser.ParseInputUnset();
    KeepsExcluded();
  }

  /** Both filters: artifact-3 is included and excluded, and is kept. */
  method RunWithIncludesAndExcludes() returns (status: Status, ghost requests: seq<int>)
    ensures status == Succeeded([TestListing()[0]]) && requests == [1]
  {
    var includes, excludes := "artifact-1\nartifact-3", "artifact-3";
    status, requests := Run(includes, excludes, Success(TestListing()), AcceptAll);
    ParseTestPair(includes);
    ParseTestSingle(excludes);
    ExcludeOverridesInclude();
  }
}
