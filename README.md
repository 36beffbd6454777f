# delete-workflow-artifacts, modelled in Dafny

A GitHub Action that deletes the artifacts of the current workflow run. It reads two
newline-separated lists of artifact names (`includes`, `excludes`) and lists the artifacts of the
run. It deletes every artifact that is included and not excluded, one request at a time and in
listing order. It then publishes the deleted artifacts as the `deleted-artifacts` output. An
empty include list includes everything, and an exclude always wins over an include. Any error
thrown by the listing or by a delete request fails the action.

The project has four modules:

- `Wrappers` (wrappers.dfy): `Option` and `Result`.
- `Sequences` (sequences.dfy): the order-preserving filter used both by the input parser
  (`Array.prototype.filter`) and by the selection of artifacts to delete. Its lemmas say that
  filtering keeps exactly the matching elements, in order.
- `InputParser` (input_parser.dfy): `parseInput` as pure functions. It covers splitting on line
  feeds, trimming with the exact character set of `String.prototype.trim`, and dropping empty
  pieces. `Split` is characterised by `Join`: splitting loses nothing, and it is the only
  separator-free cut of a string. `Trim` is characterised by `TrimUnique`: it returns the
  trimmed middle between a whitespace prefix and a whitespace suffix.
- `ArtifactFilter` (artifact_filter.dfy): the loop of `run` (src/main.ts:28-58). It becomes
  the method `DeleteWorkflowArtifacts`, which the action's tests call by that name; src/main.ts
  has no function of that name, because the loop is inline in `run`. The method is proved equal
  to the pure specification `ExpectedRun`, which is built from the candidate filter `Selected`
  and the first failing request `FirstRejected`. The method `Run` composes the parser, the
  listing and the loop, as `run` does.

The remote API is passed in as parameters:

- The listing is a `Result<seq<Artifact>, string>`.
- The outcome of each delete request is `reject: int -> Option<string>`. It maps an artifact id
  to the message of the error the request throws, or to `None` when the request succeeds.
- The ids the loop asks to delete are recorded in a ghost request log. Its contract says the log
  holds exactly one request per deleted artifact, plus the failing request if there is one.

The action's tests are restated as lemmas and methods. `ParseInputThreeNames` and
`ParseInputOneName` parse the tests' literal input values. The methods `RunWithoutFilters`,
`RunWithIncludes`, `RunWithExcludes` and `RunWithIncludesAndExcludes` feed the tests' raw filter
strings through `Run` and state the output and the delete requests the tests expect.

## Model

| member | source | states |
|---|---|---|
| `InputParser.JoinSplit` | src/main.ts:74 | joining the pieces of `split('\n')` with the separator gives back the raw value |
| `InputParser.SplitJoin` | src/main.ts:74 | `Split` is the only cut into separator-free pieces that joins back to the string |
| `InputParser.SplitPiecesSeparatorFree` | src/main.ts:74 | no piece of a split contains the separator |
| `InputParser.TrimStartRemovesPrefix` | src/main.ts:75 | leading trim removes exactly the longest whitespace prefix |
| `InputParser.TrimEndRemovesSuffix` | src/main.ts:75 | trailing trim removes exactly the longest whitespace suffix |
| `InputParser.Trim` | src/main.ts:75 | a trimmed piece neither starts nor ends with a whitespace character |
| `InputParser.TrimUnique` | src/main.ts:75 | any trimmed middle between whitespace edges is the result of `trim` |
| `InputParser.TrimPadded` | src/main.ts:75 | trimming whitespace-padding around a trimmed name gives the name |
| `InputParser.TrimIgnoresPadding` | src/main.ts:75 | extra whitespace on either side of a piece does not change its trimmed form |
| `InputParser.TrimIdempotent` | src/main.ts:75 | trimming twice is trimming once |
| `InputParser.TrimEmpty` | src/main.ts:75-76 | a piece trims to the empty string exactly when it is whitespace only |
| `InputParser.ParseInput` | src/main.ts:71-77 | every parsed name is non-empty and trimmed |
| `InputParser.ParseInputLines` | src/main.ts:74-76 | the names are the trimmed lines at exactly the non-blank line positions, in line order, duplicates kept |
| `InputParser.ParseInputOfLines` | src/main.ts:74-76 | for a value made of given lines, the result is their trimmed forms without the empty ones |
| `InputParser.ParseInputEmpty` | src/main.ts:74-76 | the result is empty if and only if the raw value is empty or whitespace only |
| `InputParser.ParseInputSingleLine` | src/main.ts:74-76 | a value without a line feed parses to nothing if blank, else to its trimmed self |
| `InputParser.ParseInputTwoNames` | src/main.ts:74-76 | two trimmed names joined by a line feed parse to those two names |
| `InputParser.ParseInputIgnoresPadding` | src/main.ts:74-76 | whitespace, line feeds included, before or after the whole value changes no name |
| `InputParser.ParseInputTrimmed` | src/main.ts:73-76 | parsing the trimmed value gives the same names as parsing the value itself, so the trim `core.getInput` applies first makes no difference |
| `InputParser.ParseInputThreeNames` | __tests__/main.test.ts:172-182 | `'\t test1 \n test2 \n\ntest3\t'` parses to `['test1', 'test2', 'test3']` |
| `InputParser.ParseInputOneName` | __tests__/main.test.ts:160-170 | `' test1 '` parses to `['test1']` |
| `InputParser.ParseInputUnset` | __tests__/main.test.ts:184-193 | an unset (empty) input parses to no names |
| `Sequences.Filter` | src/main.ts:76 | the filtered sequence is no longer than the input and holds only input elements that pass |
| `Sequences.FilterAppend` | src/main.ts:29-58 | filtering a concatenation is filtering each part, so one pass in order equals the whole filter |
| `Sequences.FilterMembership` | src/main.ts:76 | an element is kept iff it occurs in the input and passes |
| `Sequences.FilterKeepsAll` | src/main.ts:76 | nothing is dropped when every element passes |
| `Sequences.FilterEmpty` | src/main.ts:76 | the result is empty iff no element passes |
| `Sequences.FilterIsOrderedRestriction` | src/main.ts:76 | the result is the input at ascending positions, and a position is among them iff its element passes |
| `ArtifactFilter.MatchExclude` | src/main.ts:42-44 | the `excludes.length > 0` guard is redundant: the match is plain membership |
| `ArtifactFilter.Selected` | src/main.ts:47 | every candidate passes the include/exclude rule |
| `ArtifactFilter.SelectedInListingOrder` | src/main.ts:29-54 | the candidates are the listing at ascending positions, exactly those passing the rule |
| `ArtifactFilter.SelectedMembership` | src/main.ts:37-47 | a listed artifact is a candidate iff it is included and not excluded |
| `ArtifactFilter.ExcludedNeverDeleted` | src/main.ts:42-47 | an excluded artifact is never deleted, whatever includes says |
| `ArtifactFilter.EmptyIncludesSelectsAllButExcluded` | src/main.ts:37-39 | with no includes, every listed artifact that is not excluded is deleted |
| `ArtifactFilter.NoFiltersSelectsAll` | src/main.ts:37-47 | with no filters, the whole listing is selected, in order |
| `ArtifactFilter.FirstRejected` | src/main.ts:49-53 | the index of the first candidate whose delete request throws; all before it succeed |
| `ArtifactFilter.RequestsMatchDeletions` | src/main.ts:47-54 | success: one request per deleted artifact, same ids and order; failure: a prefix of the candidates ending at the request that threw the reported error |
| `ArtifactFilter.AllAccepted` | src/main.ts:28-58 | if no delete request fails, the pass returns every candidate and requested each once |
| `ArtifactFilter.RejectedAt` | src/main.ts:49-54 | a failing request for a candidate ends the pass with its error after the earlier deletions |
| `ArtifactFilter.SelectedSnoc` | src/main.ts:47-54 | one more loop iteration appends the artifact iff it passes the rule |
| `ArtifactFilter.DeleteWorkflowArtifacts` | src/main.ts:28-58 | the loop's result and request log equal `ExpectedRun` of its inputs |
| `ArtifactFilter.Run` | src/main.ts:15-67 | a failing listing fails the action with its message and no delete request; otherwise the output or failure is that of the pass over the parsed filters |
| `ArtifactFilter.ParseTestPair` | __tests__/main.test.ts:109-110 | `['artifact-1', 'artifact-3'].join('\n')` parses to those two names |
| `ArtifactFilter.ParseTestSingle` | __tests__/main.test.ts:145-146 | `'artifact-3'` parses to `['artifact-3']` |
| `ArtifactFilter.RunWithoutFilters` | __tests__/main.test.ts:89-103 | `Run` with empty filter values deletes all three artifacts in order with requests 1, 2, 3 |
| `ArtifactFilter.RunWithIncludes` | __tests__/main.test.ts:105-121 | `Run` with includes `'artifact-1\nartifact-3'` deletes artifacts 1 and 3 with two requests |
| `ArtifactFilter.RunWithExcludes` | __tests__/main.test.ts:123-138 | `Run` with excludes `'artifact-1\nartifact-3'` deletes only artifact 2 with one request |
| `ArtifactFilter.RunWithIncludesAndExcludes` | __tests__/main.test.ts:140-156 | `Run` with includes `'artifact-1\nartifact-3'` and excludes `'artifact-3'` deletes only artifact 1 with one request |
| `ArtifactFilter.DeletesAllWithoutFilters` | __tests__/main.test.ts:89-103 | no filters: all three artifacts deleted, three requests |
| `ArtifactFilter.DeletesIncludedOnly` | __tests__/main.test.ts:105-121 | includes artifact-1, artifact-3: those two deleted in order, two requests |
| `ArtifactFilter.KeepsExcluded` | __tests__/main.test.ts:123-138 | excludes artifact-1, artifact-3: only artifact-2 deleted, one request |
| `ArtifactFilter.ExcludeOverridesInclude` | __tests__/main.test.ts:140-156 | includes artifact-1, artifact-3 and excludes artifact-3: only artifact-1 deleted, one request |

Several functions carry the code of src/main.ts and are described by the lemmas above:

- `Split` is `split('\n')` (src/main.ts:74).
- `TrimStart`, `TrimEnd`, `Trim` and `TrimmedLines` are `map(trim)` (src/main.ts:75).
- `MatchInclude` is `matchInclude` (src/main.ts:37-39).
- `ShouldDelete` is the condition at src/main.ts:47.
- `ExpectedRun` specifies the loop of `run` (src/main.ts:28-58).
- `Report` is the `setOutput`/`setFailed` step (src/main.ts:60-67).

## Left out

- Authentication and the API client (`core.getInput('auth-token')`, `github.getOctokit`, src/main.ts:11-12) are not modelled. An error thrown while building the client is not modelled either.
- The HTTP calls `listWorkflowRunArtifacts` and `deleteArtifact` (src/main.ts:22-26, 49-53) are parameters: the listing result and `reject`. Pagination, retries and timeouts do not exist in the source.
- `reject` answers by artifact id. If a listing held the same id twice, both requests would get the same answer.
- `github.context` (owner, repo, run id; src/main.ts:23-25, 50-51) is ambient input to the remote calls only. The request log records artifact ids, not owner and repo.
- Logging through `core.debug` and `core.info`, and the `JSON.stringify` of the printable artifact (src/main.ts:18-19, 30-35, 40, 45, 48, 56), have no effect on decisions and are not modelled.
- `core.setOutput` and `core.setFailed` (src/main.ts:60-67) become the `Status` that `Run` returns. The formatting of a thrown value that is not an `Error` (`JSON.stringify(error)`, src/main.ts:66) is not modelled: every failure carries a message string.
- `async`/`await` is not modelled. The calls are sequential in the source, so the model is a plain sequential loop.
- `core.getInput` (src/main.ts:73) is not modelled as a step. The raw value is a parameter, and an unset input is the empty string. `getInput` trims the value before returning it. `ParseInputTrimmed` proves that this trim changes no name, so the parameter stands for either value.
- Strings are sequences of Unicode scalar values, while JavaScript strings are UTF-16 code units. Every character that `trim` removes, and the line feed, lies in the Basic Multilingual Plane, so splitting and trimming behave the same either way.
- Artifact ids are integers, as the API returns them. The tests' mock uses strings, which makes no difference to matching, since matching is by name.
