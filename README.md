# auto-pr, modelled in Dafny

auto-pr opens the same change as a pull request in many GitHub repositories. A run has three steps.
- It selects repositories: it lists the user's repositories, or it runs a code search, and it applies ordered add/remove rules to them.
- It records them in a persisted table (`db.json`) of `(owner, name)` entries. Each entry has `existing_pr`, `removed` and `done` flags.
- For each pending repository it clones or pulls the repository, resets a work branch and runs the update command. Then it commits, pushes, and creates a pull request or reuses an open one, and marks the repository done.

This project models three source files:
- the selection logic of `autopr/github.py`;
- the repository table of `autopr/database.py`;
- the per-repository pipeline of `autopr/repo.py`.

Modules:
- `Wrappers`: Option, Result and Outcome, used for Python exceptions.
- `Config`: the configuration records and the two rule modes.
- `Database`:
  - `Repository` and `Database` are classes whose flags are updated in place;
  - value snapshots of both (`RepositoryRecord`, `DatabaseRecord`);
  - the merge and reset functions that specify the methods.
- `Environment`: the outside world as an `Env` object.
  - `Env` records every call it receives: git commands, path probes, directory changes, forge requests, checkpoint writes.
  - It answers from three replies fixed at construction. Each is a function of the calls made so far and the new call.
  - `Script` runs a straight-line sequence of commands and stops at the first failure, as an exception from `run_cmd` does.
- `Workdir`: the repository directory and checkpoint file inside a work directory.
- `Github`:
  - rule matching and ordered rule application, where Python's insertion-ordered dict is a sequence with unique keys;
  - code-search deduplication;
  - owner grouping, rule generation, and the guards of `set_pull_request_state`.
  - `re.fullmatch` and `re.escape` are the parameters `fm` and `esc`.
- `Repo`:
  - the command builders;
  - `pull_repository`, `prepare_repository`, `run_update_command`, `commit_and_push_changes`, `push_changes`, `_mark_repository_as_done` and `reset_and_run_script`.
  - Each one is a module-level method that takes the `Env` object and modifies it. Each is proved equal to a function of the call history.
  - The properties are stated as lemmas about those functions.

Notes on the code:
- `Database.merge_into` never sets `removed` back to false, even when a repository is discovered again (`Database.RemovedIsSticky`).
- `merge_into` does not add the keys it appends to `existing_repos`. A discovery with a repeated key therefore appends that key twice (`Database.DuplicateDiscoveryIsAppendedTwice`). Keys stay unique only when the discovery's keys are unique (`Database.MergeKeepsKeysUnique`).
- `push_changes` tests the recorded number by truthiness, while `commit_and_push_changes` forces the push when the number `is not None`. So a recorded number 0 gives a forced push followed by a new pull request that is not looked up first (`Repo.ZeroNumberIsNotLookedUp`).
- `run_update_command` does not restore the working directory when the update command fails (`Repo.UpdateDirectories`).
- `search_code_for_repositories` checks the limit only after an append, so a `max_repos` of 0 or less yields at most one repository, and exactly one when some hit passes the filters (`Github.SearchLimit`, `Github.SearchResultProperties`, `Github.SearchBelowLimit`).

## Model

| member | source | states |
|---|---|---|
| Database.FullNameParts | autopr/database.py:17-19 | the full name is the owner, then `/`, then the name |
| Database.FullNameInjective | autopr/database.py:17-19 | for owners without a slash, equal full names mean equal owner and name, and conversely |
| Database.Repository.constructor | autopr/database.py:7-15 | a new repository has the given identity and clone coordinates, no pull request, and is neither removed nor done |
| Database.Repository.FullName | autopr/database.py:17-19 | the full name of the object is `FullNameOf(owner, name)` |
| Database.Repository.Record | autopr/database.py:7-15 | the snapshot of a repository carries its key |
| Database.Records | autopr/database.py:34-39 | the snapshot of a list has one record per object, and each position keeps its object's key |
| Database.NewRecords | autopr/database.py:57-59 | reference definition of the append loop on snapshots: the incoming records whose key is not known, in incoming order; `NewRecordsProperties`, `NewRecordsInOrder`, `NewRecordsOfKnown` and `DuplicateDiscoveryIsAppendedTwice` state its meaning |
| Database.NewRecordsProperties | autopr/database.py:54-59 | the appended records are exactly the incoming ones whose key is not known, and they keep unique keys |
| Database.NewRecordsInOrder | autopr/database.py:57-59 | the appended records keep discovery order, and each unknown record is appended as often as the discovery lists it |
| Database.MarkGone | autopr/database.py:61-67 | only `removed` can change, and only from false to true; it changes exactly on the records not yet removed whose key the discovery lacks; the key set is unchanged |
| Database.Merge | autopr/database.py:50-67 | the old table is kept as a prefix with only `removed` set where the key is gone, followed by the new records in discovery order |
| Database.MergeKeepsKeysUnique | autopr/database.py:54-67 | keys stay unique when both tables have unique keys |
| Database.DuplicateDiscoveryIsAppendedTwice | autopr/database.py:54-59 | a discovery that repeats one unknown key appends it twice, breaking key uniqueness |
| Database.NewRecordsOfKnown | autopr/database.py:57-59 | nothing is appended when every incoming key is known |
| Database.MergeIdempotent | autopr/database.py:50-67 | merging the same discovery a second time changes nothing |
| Database.RemovedIsSticky | autopr/database.py:61-67 | a removed repository stays removed after any merge |
| Database.MergeKeys | autopr/database.py:50-67 | the keys after a merge are the union of both sides' keys |
| Database.ResetSelected | autopr/database.py:69-76 | only `done` can change, and only from true to false; it changes exactly on the done records whose full name is selected; the key set is unchanged |
| Database.ResetEverything | autopr/database.py:82-84 | no record is done afterwards, every other field is unchanged, and so is the key set |
| Database.Unmatched | autopr/database.py:78-80 | the unmatched names are exactly the selected names without a repository, in selection order |
| Database.UnmatchedDistinct | autopr/database.py:70-80 | each missing name is reported once |
| Database.PendingOf | autopr/database.py:41-45 | the pending repositories are exactly those neither removed nor done, in table order, each as often as it occurs in the table |
| Database.NewRepositories | autopr/database.py:57-59 | the appended objects are exactly the discovered ones with an unknown key, and none when every key is known |
| Database.NewRepositoriesInOrder | autopr/database.py:57-59 | the appended objects keep discovery order, and each object with an unknown key is appended as often as the discovery lists it |
| Database.NewRepositoriesRecords | autopr/database.py:57-59 | appending objects appends exactly the records `NewRecords` specifies |
| Database.Database.constructor | autopr/database.py:34-39 | a table holds the given user and repositories |
| Database.Database.RepositoriesToProcess | autopr/database.py:41-45 | returns exactly the repositories that are neither removed nor done, in table order, each as often as it occurs in the table |
| Database.Database.NeedsPulling | autopr/database.py:47-48 | true exactly when no user is recorded |
| Database.Database.MergeInto | autopr/database.py:50-67 | takes the discovery's user and appends exactly the unknown discovered objects. Only `removed` changes, and only to true, on repositories whose key was not discovered. The new snapshot is `Merge` of the old ones |
| Database.Database.AppendUnknown | autopr/database.py:54-59 | appends, in order, exactly the objects whose key is not known |
| Database.Database.MarkMissing | autopr/database.py:61-67 | sets `removed` exactly where the key is absent and changes nothing else |
| Database.Database.ResetFrom | autopr/database.py:69-80 | clears `done` exactly on the selected full names. It returns each selected name without a repository once, in selection order |
| Database.Database.ClearSelected | autopr/database.py:70-76 | the first loop: clears the selected `done` flags and marks a name found exactly when a repository has it |
| Database.Database.Unclaimed | autopr/database.py:78-80 | the second loop: the names whose flag stayed false, in order |
| Database.Database.ResetAll | autopr/database.py:82-84 | clears every `done` flag and changes nothing else |
| Wrappers.Distinct | autopr/database.py:70 | the keys of a dict built from a list: the same elements, each once, as a subsequence of the list |
| Wrappers.DistinctFirstOrder | autopr/database.py:70 | the keys keep first-occurrence order: wherever a later key occurs in the list, every earlier key has occurred before |
| Environment.Env.Perform | autopr/repo.py:171-187 | a command is recorded and answered from the history before it |
| Environment.Env.Exists | autopr/repo.py:80 | a path probe is recorded and answered from the history before it |
| Environment.Env.Ask | autopr/github.py:81-83 | a forge request is recorded and answered from the history before it |
| Environment.OutcomeOf | autopr/repo.py:171-187 | a command passes exactly when it succeeded, and a failure keeps its message |
| Environment.ScriptStep | autopr/repo.py:171-187 | a command sequence is its first command, then the rest only if the first passed |
| Environment.ScriptAppend | autopr/repo.py:171-187 | running `a + b` is running `a`, then `b` only if `a` passed |
| Environment.ScriptPassTrace | autopr/repo.py:171-187 | a sequence that passes has made every call of the plan, in order |
| Environment.ScriptPasses | autopr/repo.py:171-187 | a sequence passes exactly when every command succeeds on its own history |
| Environment.ScriptFails | autopr/repo.py:171-187 | a sequence that fails stops at the first failing command, with that command's error, after every earlier one succeeded |
| Environment.ScriptMakesPrefix | autopr/repo.py:171-187 | whatever the replies, the calls made are a prefix of the plan |
| Github.NoPatternMatches | autopr/github.py:175-179 | true exactly when no pattern of the list fully matches the text |
| Github.FilterMatches | autopr/github.py:166-185 | a rule matches exactly when every set field agrees and a name pattern and the owner pattern fully match. Unset fields match anything, an empty name list matches nothing, and the empty rule matches everything |
| Github.FindKey | autopr/github.py:139-141 | the position found holds the key, and none is found exactly when the key is absent |
| Github.Put | autopr/github.py:148-153 | reference definition of dict assignment on a sequence with unique keys: a known key is replaced in place, a new key is appended; `PutProperties` states it |
| Github.PutProperties | autopr/github.py:148-153 | dict assignment: the key set gains the key and keys stay unique. With unique keys, a known key's entry takes the new value in its place and every other entry stays where it was; a new key is appended |
| Github.Added | autopr/github.py:148-152 | reference definition of the add comprehension: every matching candidate put in candidate order; `AddedProperties` states it |
| Github.AddedProperties | autopr/github.py:148-152 | holds unique keys, only candidates the rule matches, and the key of every matching candidate |
| Github.Update | autopr/github.py:153 | reference definition of `dict.update`: the entries of the argument put in order; `UpdateProperties` states it |
| Github.UpdateProperties | autopr/github.py:153 | `dict.update`: the keys are the union, uniqueness is kept, and every entry comes from one side |
| Github.Kept | autopr/github.py:155-159 | reference definition: the selection's entries the remove rule does not match, in order; `KeptProperties` states it |
| Github.KeptProperties | autopr/github.py:155-159 | an entry is kept exactly when the rule does not match it |
| Github.Remaining | autopr/github.py:155-159 | reference definition of the remove comprehension: the kept entries rebuilt into a dict; `RemainingProperties` and `StepProperties` state it |
| Github.RemainingProperties | autopr/github.py:155-159 | a remove rule keeps unique keys and only entries it does not match |
| Github.Step | autopr/github.py:146-161 | a rule fails exactly on an unsupported mode, with that mode in the message |
| Github.StepProperties | autopr/github.py:147-159 | an add rule only grows the selection, with candidates, and gains the key of every candidate it matches. A remove rule keeps exactly the entries it does not match, when keys are unique. Keys stay unique |
| Github.ApplyFilters | autopr/github.py:134-163 | `_apply_filters` returns exactly `Select`: every candidate in order with no rule, otherwise the rules applied in order |
| Github.RunFrom | autopr/github.py:146-161 | reference definition of the rule loop: each rule in order is applied to the selection so far, and the first unsupported mode ends it; `RunAppend`, `RunFailureSticks`, `RunFailsAtFirstBadMode` and `RunKeepsCandidates` prove its meaning |
| Github.RunFailureSticks | autopr/github.py:160-161 | once a rule has raised, the result is that error |
| Github.RunSucceedsOnValidModes | autopr/github.py:146-161 | applying the rules succeeds exactly when every mode is `add` or `remove` |
| Github.RunFailsAtFirstBadMode | autopr/github.py:160-161 | a failure names the first rule with an unsupported mode |
| Github.RunKeepsCandidates | autopr/github.py:139-163 | keys stay unique and every selected entry is a candidate |
| Github.RunAppend | autopr/github.py:146 | the rules `a + b` act as `a`, then `b` on its selection |
| Github.LeadingRemovesAreNoops | autopr/github.py:154-159 | remove rules before any add change nothing |
| Github.RemovesFromEmpty | autopr/github.py:154-159 | remove rules on an empty selection leave it empty |
| Github.LastMatchIsAdd | autopr/github.py:146-159 | reference definition: the last rule that matches a candidate, read from the end, is an add rule |
| Github.LastMatchIsAddMeans | autopr/github.py:146-159 | `LastMatchIsAdd` holds exactly when some add rule matches the candidate and no later rule matches it |
| Github.LastMatchingRuleDecides | autopr/github.py:146-159 | a candidate is selected exactly when the last rule matching it is an add rule |
| Github.Select | autopr/github.py:143-163 | reference definition of `_apply_filters`: every candidate with no rule, otherwise the repositories of the rule loop's result; `SelectProperties` and `LastMatchingRuleDecides` state its meaning and `ApplyFilters` is proved equal to it |
| Github.SelectProperties | autopr/github.py:143-163 | with no rules the result is every candidate in order. Otherwise it succeeds exactly on supported modes, and then it holds distinct keys and only candidates |
| Github.Accepted | autopr/github.py:216-246 | the deduplicated hits are at most the hits |
| Github.AcceptOne | autopr/github.py:223-245 | one iteration of the search loop: a hit is appended when its key is unseen and it passes the visibility and archived filters; `AcceptedStep` and `TakeHit` state it |
| Github.AcceptedProperties | autopr/github.py:216-246 | accepted hits have distinct keys and pass the visibility and archived filters, and every passing hit's key is accepted |
| Github.SearchLimit | autopr/github.py:248-250 | reference definition of the cap the loop reaches: `max_repos`, or 1 when `max_repos` is below 1 since the test follows an append; `SearchResultProperties`, `SearchStopsAtLimit` and `SearchBelowLimit` use it |
| Github.SearchResult | autopr/github.py:248-250 | at most `SearchLimit(max_repos)` repositories are kept |
| Github.SearchResultProperties | autopr/github.py:216-252 | results have distinct keys, pass the filters, number at most `max_repos` when that is positive, and short of the limit cover every passing hit |
| Github.AcceptedGrows | autopr/github.py:219-246 | scanning further only appends to what was accepted |
| Github.AcceptedStep | autopr/github.py:224-246 | a hit is accepted exactly when it passes the filters and its key is new |
| Github.SearchStopsAtLimit | autopr/github.py:248-250 | once the limit is reached the result is what was accepted so far |
| Github.SearchBelowLimit | autopr/github.py:252 | a search that ends short of the limit returns every accepted hit |
| Github.TakeHit | autopr/github.py:220-246 | a hit whose key is unseen and that passes the filters is appended as one new repository object, and its key is marked seen; any other hit changes neither the seen keys nor the result |
| Github.SearchEnds | autopr/github.py:248-252 | a search that has run out of hits or reached its limit holds exactly the search result |
| Github.SearchCodeForRepositories | autopr/github.py:216-252 | the loop returns new repository objects, one per search result, with the hit's data and fresh flags |
| Github.Owners | autopr/github.py:282-287 | reference definition: the keys of the grouping dict, in insertion order; `OwnersProperties` states them and `OwnersInFirstAppearanceOrder` their order |
| Github.OwnersInFirstAppearanceOrder | autopr/github.py:282-287 | the grouping dict's keys are `Distinct` of the owner list, so they come in order of first appearance, each once |
| Github.OfOwner | autopr/github.py:284-287 | reference definition: the list under one owner's key; `OfOwnerProperties` and `OfOwnerInOrder` state it |
| Github.OwnersProperties | autopr/github.py:282-289 | the owners are distinct, and they are exactly the input's owners |
| Github.OfOwnerProperties | autopr/github.py:284-287 | an owner's group holds exactly the input repositories of that owner |
| Github.OfOwnerInOrder | autopr/github.py:284-287 | an owner's group keeps input order |
| Github.Grouping | autopr/github.py:282-289 | one group per owner, in the order of `Owners` (first appearance, by `OwnersInFirstAppearanceOrder`), holding that owner's repositories |
| Github.GroupIndex | autopr/github.py:285 | the group found has the owner, and none is found exactly when no group has it |
| Github.GroupingNewOwner | autopr/github.py:285-287 | a repository of a new owner opens a group at the end |
| Github.GroupingKnownOwner | autopr/github.py:287 | a repository of a known owner is appended to that owner's group |
| Github.GroupingStep | autopr/github.py:284-287 | one more repository joins its owner's group or opens a new one |
| Github.GroupByOwner | autopr/github.py:270-289 | `group_repositories_by_owner` returns exactly `Grouping` of its input |
| Github.GroupingCount | autopr/github.py:282-289 | the groups together hold exactly as many repositories as the input |
| Github.GroupingPlacement | autopr/github.py:282-289 | every repository is in its own owner's group, and each owner has one group |
| Github.NatToString | autopr/github.py:337 | the count is written as decimal digits that denote it |
| Github.GenerateFilters | autopr/github.py:292-339 | empty input gives `([], "")`. Otherwise it gives one add rule per owner, with the escaped owner, the escaped names in order and the given visibility, and the search comment |
| Github.GeneratedComment | autopr/github.py:331-337 | the search comment: the description, when non-empty, then the date in parentheses, then the count of repositories on a new line; `GenerateFilters` returns it |
| Github.GeneratedFilterSound | autopr/github.py:317-329 | when escaping is exact, a generated rule matches only a listed repository with the searched visibility |
| Github.GeneratedFilterComplete | autopr/github.py:317-329 | when escaping is exact, every listed repository with the searched visibility is matched by its owner's rule |
| Github.GeneratedFiltersMatchListed | autopr/github.py:317-329 | when escaping is exact, some generated rule matches exactly when the repository is listed and has the searched visibility |
| Github.SetStateEffect | autopr/github.py:86-100 | reference definition of `set_pull_request_state`: an error without a number, a lookup, an error when merged, otherwise one edit; `SetStateGuards` states its guards and `SetPullRequestState` is proved equal to it |
| Github.SetStateGuards | autopr/github.py:86-100 | nothing is asked without a recorded pull request, and a merged one is never edited |
| Github.SetPullRequestState | autopr/github.py:86-100 | the calls and outcome are `SetStateEffect`: an error without a number, a lookup, an error when merged, otherwise one state edit |
| Repo.CloneArgv | autopr/repo.py:198-207 | reference definition of the clone argument list; `CloneRoundTrip` and `ParseCloneExact` show it is exactly `git clone --depth 1 <url> <dir> --branch <branch>` |
| Repo.CloneRoundTrip | autopr/repo.py:194-209 | a clone command reads back as its URL, directory and branch |
| Repo.ParseCloneExact | autopr/repo.py:198-207 | anything that reads back as a clone is exactly `git clone --depth 1 <url> <dir> --branch <branch>` |
| Repo.PushArgv | autopr/repo.py:250-256 | reference definition of the push argument list; `PushForceFlag` states the `--force` rule and `GitPush` runs it |
| Repo.PushForceFlag | autopr/repo.py:250-256 | `--force` is appended exactly when forcing, and the command is otherwise the same |
| Repo.GitPush | autopr/repo.py:250-256 | one push command with the ssh environment is run, and its outcome is returned |
| Repo.PullEffect | autopr/repo.py:71-112 | reference definition of `pull_repository`'s calls and outcome; `PullRepository` is proved equal to it and `PullLeavesExistingAlone`, `PullPassTrace`, `PullFailsAtLastCall` and `PullOfMissingCloneOnlyClones` state its paths |
| Repo.PullRepository | autopr/repo.py:71-112 | `pull_repository` makes exactly the calls of `PullEffect`, with its outcome |
| Repo.PullLeavesExistingAlone | autopr/repo.py:82-84 | an existing clone without update sees only the existence probe |
| Repo.PullPassTrace | autopr/repo.py:89-112 | the exact calls of a pull that succeeds: the probe alone for a clone left as is; otherwise checkout and pull, or checkout, failed pull, deletion and clone, or clone alone, each followed by setting the user name and then the email |
| Repo.PullFailsAtLastCall | autopr/repo.py:89-112 | a failing pull stops at the call that failed, with its error, and that call is never the pull |
| Repo.ScriptFailsAtNonPull | autopr/repo.py:99-112 | a failing command sequence without a pull stops at a call that is not a pull |
| Repo.PullOfMissingCloneOnlyClones | autopr/repo.py:104-108 | a missing clone is cloned with no checkout, pull or deletion |
| Repo.PreparePlan | autopr/repo.py:115-127 | reference definition of the three commands of `prepare_repository`; `PrepareRepository` runs it and `PrepareInOrder` states its order |
| Repo.PrepareRepository | autopr/repo.py:115-127 | `prepare_repository` runs the three-command plan and stops at the first failure |
| Repo.PrepareInOrder | autopr/repo.py:115-127 | preparing passes exactly when hard reset, default checkout and `checkout -B` all succeed, and then they ran in that order |
| Repo.UpdateEffect | autopr/repo.py:130-142 | reference definition of `run_update_command`'s calls and outcome; `RunUpdateCommand` is proved equal to it and `UpdateDirectories` states its directory changes |
| Repo.RunUpdateCommand | autopr/repo.py:130-142 | `run_update_command` makes exactly the calls of `UpdateEffect` |
| Repo.UpdateDirectories | autopr/repo.py:137-142 | success enters the clone, runs the command, returns to the old directory and stages. A failing command ends the calls without a return |
| Repo.CommitPushEffect | autopr/repo.py:150-168 | reference definition of `commit_and_push_changes`'s calls and result; `CommitAndPushChanges` is proved equal to it and `CommitPushOutcomes` states its outcomes |
| Repo.CommitAndPushChanges | autopr/repo.py:150-168 | `commit_and_push_changes` makes exactly the calls of `CommitPushEffect`, forcing when a number is recorded |
| Repo.CommitPushOutcomes | autopr/repo.py:158-168 | false exactly when the staged diff is empty, with no commit or push. True exactly after diff, commit and a successful push forced iff `existing_pr is not None` |
| Repo.PushEffect | autopr/repo.py:291-324 | reference definition of the forge-facing part of `push_changes`: commit and push, stop on an empty diff, look up only a truthy number, reuse an open one, otherwise create; `PushChanges` is proved equal to it and `PushDecisions` and `ZeroNumberIsNotLookedUp` state its decisions |
| Repo.PushDecisions | autopr/repo.py:300-324 | a pull request is created only after a push, when the number is falsy or the pull request is merged or closed. Without a push the verdict is unchanged, and an open, truthy one is reused |
| Repo.ZeroNumberIsNotLookedUp | autopr/repo.py:305-316 | with number 0 the push is forced and no lookup is made |
| Repo.MarkRepositoryAsDone | autopr/repo.py:327-331 | `done` is set and the whole table, as it now is, is written to `db.json` |
| Repo.PushChanges | autopr/repo.py:285-324 | without an exception, `done` is set and the table is written. A created pull request's number is recorded and the result is true; a reused or missing one gives false |
| Repo.ResetRunEffect | autopr/repo.py:259-282 | reference definition of `reset_and_run_script`'s calls and outcome; `ResetAndRunScript` is proved equal to it and `ResetRunOrder` states its order |
| Repo.ResetAndRunScript | autopr/repo.py:259-282 | `reset_and_run_script` makes exactly the calls of `ResetRunEffect` |
| Repo.ResetRunOrder | autopr/repo.py:259-282 | without a user it fails with the report message and makes no call. A success ends with reset, checkout and `checkout -B`, then the update command in the clone, then staging |

## Left out

- Database.Database.MergeInto: requires the merged table to be another object; merging a table into itself is not modelled (aliasing).
- Console output (`click.echo`, `click.secho`, `print`, `util.debug`) and the `out` stream parameter of `pull_repository` are left out. `reset_from` returns the names it would report as missing instead of printing them.
- The parallel pull (`pull_repositories_parallel`, `_pull_repository_task`) is left out: its point is a process pool.
- The PyGithub layer is not modelled: `create_github_client`, `get_user`, `_list_all_repositories`, `gather_repository_list`, and the rate-limit and 422 error mapping of the search. `create_pr` and `get_pull_request` are single forge calls of `Env`.
- Github.SearchCodeForRepositories: takes the search hits as a list instead of querying the forge.
- The `draft` flag of `create_pr` is not modelled: the configuration record in `autopr/config.py` has no such field.
- Regular expressions are not modelled: `re.fullmatch` and `re.escape` are the parameters `fm` and `esc`. The round-trip lemmas assume an escape whose result fully matches exactly its argument.
- Github.GenerateFilters: the date comes in as the parameter `today`; `datetime.now()` is left out.
- Paths are strings joined with `/`, with no normalisation.
- The configuration defaults and the visibility names of `autopr/config.py` are left out: they belong to loading the configuration, which is not modelled.
- Command output, exit codes and error texts are left out. Each operation's reply is an abstract success (with output) or failure (with a message). `run_cmd`'s merging of the process environment is reduced to recording the extra variables.
- `get_diff` is not modelled: it is the same staged-diff command as in `commit_and_push_changes`.
- The `autopr/workdir.py` file I/O is not modelled, apart from the names of the repository directory and the checkpoint file. `write_database` is one recorded call with the table's snapshot as content. The YAML and JSON schemas, `autopr/__init__.py`, `autopr/__main__.py` and `autopr/util.py` are not part of this model.
