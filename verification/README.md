# Release snapshots for Django migrations, modelled in Dafny

The repository adds three management commands to a Django project:

- `migrations_release` records, for every migrated app, the single leaf
  migration of its migration graph. It stores that mapping as the release file
  `<release>.json` in the release storage.
- `migrations_rollback` reads such a release file and validates the plan
  Django computes for reverting to it. It refuses when the file is missing,
  the live graph has conflicts, the plan is empty, or the plan would apply a
  migration instead of reverting it. Only then does it call
  `executor.migrate` for real (not faked) execution. Its progress callback
  turns executor events into output text.
- `release_management` walks the release storage, optionally recursively. It
  keeps only the `.json` files, sorts them stably by creation timestamp, and
  shows the list or the newest file. It can also disable a release file (copy
  it to `<key>.disabled`, then delete it) or delete one.

The model is pure. The storage is a map from key to stored file (content and
integer creation time). The directory listing is a tree of `listdir` results.
Django's migration graph, conflict detection and planner are given as input
values and functions. Every command becomes a function from its inputs to a
result value; for the catalog command that value also carries the storage
afterwards.

Modules, one per source file, plus shared data:

- `Results`: `Option` and `Result`.
- `Text`: Python's string order, `lower()`, `s[-5:]`, `os.path.join`.
- `Migrations`: migration keys, release entries, plan steps.
- `BlobStore`: the release storage (`save` and `delete`).
- `Release`: `migrations_release.py`.
- `Rollback`: `migrations_rollback.py`, including the progress callback.
- `Catalog`: `release_management.py`. It has the command as written
  (`HandleAsWritten`) and the command as evidently intended (`Handle`).

## Model

| member | source | states |
|---|---|---|
| Text.StrLtTotal | migrations_mgmt_cmds/management/commands/migrations_release.py:42 | The string order used by `sorted` is total and asymmetric, so the sorted app list is well defined |
| Text.StrLtTransitive | migrations_mgmt_cmds/management/commands/migrations_release.py:42 | The string order used by `sorted` is transitive |
| Text.StrLtIrreflexive | migrations_mgmt_cmds/management/commands/migrations_release.py:42 | No string sorts strictly before itself |
| Text.LastFive | migrations_mgmt_cmds/management/commands/release_management.py:88 | `f[-5:]` is the last five characters, or the whole name when it is shorter, and it is a suffix of the name |
| Text.JsonNameIff | migrations_mgmt_cmds/management/commands/release_management.py:88 | A name passes the release-file filter exactly when it is at least five characters long and ends in `.json`, ignoring letter case |
| Text.JoinShape | migrations_mgmt_cmds/management/commands/release_management.py:70-73 | `join` replaces the path by an absolute name. Otherwise the name follows the path after exactly one `/`, with none added after an empty path or one that already ends in `/` |
| Text.JoinOntoEmpty | migrations_mgmt_cmds/management/commands/release_management.py:66-73 | At the top of the walk (path `""`) a listed name is kept as it is |
| BlobStore.Save | migrations_mgmt_cmds/management/commands/migrations_release.py:66 | A save writes under exactly one key, with the given content and the save time, and leaves every other key as it was |
| BlobStore.Delete | migrations_mgmt_cmds/management/commands/release_management.py:131 | A delete removes exactly one key and keeps every other file unchanged |
| Release.ReleasePath | migrations_mgmt_cmds/management/commands/migrations_release.py:62 | The artifact key is the release name followed by exactly the five characters `.json`, lower case, and it passes the catalog's release-file filter |
| Release.ReleasePathInjective | migrations_mgmt_cmds/management/commands/migrations_release.py:62 | Two different release names never map to the same artifact key |
| Release.SortedApps | migrations_mgmt_cmds/management/commands/migrations_release.py:42 | The apps are visited in strictly ascending order, each migrated app exactly once, and no other app |
| Release.CollectLeaves | migrations_mgmt_cmds/management/commands/migrations_release.py:44-58 | The loop succeeds exactly when no app has more than one leaf. On success it records every one-leaf app with its leaf's name, records nothing else, and keeps the visiting order. On failure it reports the first app in visiting order that has several leaves, with those leaves |
| Release.BuildRelease | migrations_mgmt_cmds/management/commands/migrations_release.py:42-58 | Over the set of migrated apps: a conflict exactly when some app has several leaves. Otherwise the mapping has exactly the one-leaf apps, each with its leaf's name, in strictly ascending key order |
| Release.BuildReleaseDistinctApps | migrations_mgmt_cmds/management/commands/migrations_release.py:44-60 | The written mapping is a JSON object: no app appears in it twice |
| Release.AppWithoutLeavesHasNoEntry | migrations_mgmt_cmds/management/commands/migrations_release.py:46-48 | An app without leaf nodes gets no entry in the mapping |
| Release.BuildReleaseReportsFirstConflict | migrations_mgmt_cmds/management/commands/migrations_release.py:42-56 | The reported conflict is the smallest app name with several leaves: every smaller app has at most one |
| Release.CreateSnapshot | migrations_mgmt_cmds/management/commands/migrations_release.py:60-66 | On a conflict the storage is unchanged. On success the storage gets exactly one write: the key-sorted mapping under `<release>.json` |
| Release.ConflictMessage | migrations_mgmt_cmds/management/commands/migrations_release.py:50-56 | The conflict error is the fixed opening, then the leaf list, then the advice to run `makemigrations --merge` |
| Release.NodeList | migrations_mgmt_cmds/management/commands/migrations_release.py:51 | The leaf list is empty exactly when there are no leaves |
| Release.NodeListNamesEveryLeaf | migrations_mgmt_cmds/management/commands/migrations_release.py:51 | Every leaf of the conflicting app appears in the list as `<name> in <app>` |
| Release.ConflictMessageNamesEveryLeaf | migrations_mgmt_cmds/management/commands/migrations_release.py:50-56 | The conflict error names every leaf of the conflicting app as `<name> in <app>` |
| Rollback.FirstUnapplied | migrations_mgmt_cmds/management/commands/migrations_rollback.py:82-88 | The result is absent exactly when every step is applied. Otherwise it is the index of a step that is not applied, and every earlier step is applied |
| Rollback.RevertLines | migrations_mgmt_cmds/management/commands/migrations_rollback.py:92-93 | One `  Revert <app> <name>` line per plan step, in plan order |
| Rollback.Preamble | migrations_mgmt_cmds/management/commands/migrations_rollback.py:90-96 | Nothing below verbosity 1. Otherwise a heading, one revert line per step in plan order, and the "Running migrations:" heading |
| Rollback.Rollback | migrations_mgmt_cmds/management/commands/migrations_rollback.py:41-98 | `migrate` is reached exactly when the file exists and decodes, there are no live conflicts, and the plan is non-empty and fully applied. It then gets the release items as targets, the plan for those targets, and `fake=False`, `fake_initial=False`. A missing file is always "No release file". Bytes that do not decode give the decoding error, and JSON that is not an object gives the missing-`items` error, both before the live graph is consulted |
| Rollback.MissingReleaseFirst | migrations_mgmt_cmds/management/commands/migrations_rollback.py:42-45 | When the release file is missing, the outcome does not depend on verbosity, the live graph or the planner |
| Rollback.ConflictsBeforePlan | migrations_mgmt_cmds/management/commands/migrations_rollback.py:66-77 | Live conflicts give the conflict error whatever the planner would return: the plan is never consulted |
| Rollback.EmptyPlanIsNothingToRollback | migrations_mgmt_cmds/management/commands/migrations_rollback.py:79-80 | An empty plan is the "Nothing to rollback" error, not a successful no-op |
| Rollback.ForwardStepIsRefused | migrations_mgmt_cmds/management/commands/migrations_rollback.py:82-88 | When step `k` is the first unapplied step, the command fails naming the migration of step `k` |
| Rollback.SnapshotThenRollback | migrations_mgmt_cmds/management/commands/migrations_rollback.py:42-50 | A release just written by the snapshot command is found and decoded. The plan is computed for exactly its entries, and a non-empty fully-applied plan reaches `migrate` |
| Rollback.ProgressText | migrations_mgmt_cmds/management/commands/migrations_rollback.py:100-132 | Silent below verbosity 1 and for unknown actions. Success events end with ` FAKED` or ` OK` according to `fake`. `render_success` ends with ` DONE`. `apply_start` and `unapply_start` name the migration, and `render_start` announces model states; start events write their line without ending it. Every one of the six actions writes something at verbosity 1 and above |
| Rollback.SilentAtVerbosityZero | migrations_mgmt_cmds/management/commands/migrations_rollback.py:101 | At verbosity 0 the callback writes nothing for any sequence of events |
| Rollback.RevertTranscript | migrations_mgmt_cmds/management/commands/migrations_rollback.py:114-132 | For the events of a real backward migration (states rendered first, then each step unapplied), the callback prints `  Rendering model states... DONE`, then one `  Unapplying app.name... OK` line per step, in plan order |
| Catalog.JoinAll | migrations_mgmt_cmds/management/commands/release_management.py:72-73 | Each listed name is joined onto the directory path, in listing order |
| Catalog.FilesListOwnFilesLast | migrations_mgmt_cmds/management/commands/release_management.py:66-75 | A non-recursive listing is exactly the directory's own files joined with the path, in order. A recursive listing ends with those same files, after the subdirectories' files |
| Catalog.RecursiveListingIsSubtree | migrations_mgmt_cmds/management/commands/release_management.py:68-73 | A path is in the recursive listing exactly when it is the joined path of some file reachable through the subdirectories |
| Catalog.JsonOnlyCounts | migrations_mgmt_cmds/management/commands/release_management.py:88 | Every release-file name is kept as often as it occurs, and every other name is dropped |
| Catalog.JsonOnlyKeepsOrder | migrations_mgmt_cmds/management/commands/release_management.py:88 | The filter keeps the listing order: filtering a concatenation is filtering each part in turn |
| Catalog.JsonOnlyOne | migrations_mgmt_cmds/management/commands/release_management.py:88 | A single name is kept exactly when it passes the release-file filter |
| Catalog.SortIsOrderedPermutation | migrations_mgmt_cmds/management/commands/release_management.py:87-90 | The sort returns a permutation of its input in non-decreasing creation-time order |
| Catalog.SortIsStable | migrations_mgmt_cmds/management/commands/release_management.py:87-90 | For every timestamp, the files with that timestamp appear in the same relative order as in the input |
| Catalog.StableSortIsUnique | migrations_mgmt_cmds/management/commands/release_management.py:87-90 | Any ordering by timestamp that keeps ties in input order equals the sort's result, so the sort is fully determined by those two properties |
| Catalog.CreatedTimes | migrations_mgmt_cmds/management/commands/release_management.py:9-10 | A stored file's sort key is the creation time the storage records for it |
| Catalog.CatalogContents | migrations_mgmt_cmds/management/commands/release_management.py:85-90 | The catalog holds exactly the listed release files, with their multiplicity, in non-decreasing creation-time order |
| Catalog.CatalogTiesInDiscoveryOrder | migrations_mgmt_cmds/management/commands/release_management.py:87-90 | Release files with equal creation times stay in the order the walk found them |
| Catalog.Last | migrations_mgmt_cmds/management/commands/release_management.py:107 | The last file exists exactly when the catalog is non-empty, and it is the catalog's final element. Otherwise the result is "no releases found" |
| Catalog.LastIsNewest | migrations_mgmt_cmds/management/commands/release_management.py:101-107 | The shown file was listed, has the greatest timestamp, and is the last-found of the files with that timestamp |
| Catalog.DisabledKeyIsNotJson | migrations_mgmt_cmds/management/commands/release_management.py:126-128 | A key with `.disabled` appended never passes the release-file filter |
| Catalog.Disable | migrations_mgmt_cmds/management/commands/release_management.py:109-131 | Disable rejects a non-release name first, then a missing key. On success `key` is gone, `key.disabled` holds the original content, and every other key is unchanged |
| Catalog.DisabledLeavesCatalog | migrations_mgmt_cmds/management/commands/release_management.py:123-131 | A disable removes exactly its key from the release-file keys of the storage. The new `key.disabled` is absent from every catalog, even one built from a listing that contains it |
| Catalog.DeleteRelease | migrations_mgmt_cmds/management/commands/release_management.py:142-148 | Delete fails on a missing key. On a present key it removes that key only and leaves every other file as it was |
| Catalog.Displays | migrations_mgmt_cmds/management/commands/release_management.py:92-107 | At verbosity 0, or with neither display option, nothing is shown. The output has one line per catalog file for the list, one for the last file when there is one, and one heading for each at verbosity 2. The list comes first: at verbosity 1 it is the catalog itself, and at verbosity 2 it is the list heading followed by the catalog. The last line shown is the catalog's last file, with its heading just before it at verbosity 2. Asking for the last file at a verbosity other than 0 ends in an error exactly when the catalog is empty |
| Catalog.DisplayedLastIsNewest | migrations_mgmt_cmds/management/commands/release_management.py:85-107 | With `--display-last` at a verbosity other than 0, the line shown is a listed release file with the greatest creation time. Among the files with that time, it is the one found last |
| Catalog.DisabledMessage | migrations_mgmt_cmds/management/commands/release_management.py:133-140 | The success line of a disable names the old key and then `key.disabled` |
| Catalog.DeletedMessage | migrations_mgmt_cmds/management/commands/release_management.py:150-155 | The success line of a delete names the deleted key |
| Catalog.Handle | migrations_mgmt_cmds/management/commands/release_management.py:77-155 | Without disable or delete options the storage is unchanged. A successful run with a delete option has removed that key. A non-release name given to disable fails without touching the storage |
| Catalog.HandleDeletesOnlyTarget | migrations_mgmt_cmds/management/commands/release_management.py:142-148 | Asked to delete and not to disable, with no display error, the command succeeds exactly when the key exists. It then removes that key only; otherwise it fails with the storage untouched |
| Catalog.HandleDisablesOnlyTarget | migrations_mgmt_cmds/management/commands/release_management.py:109-131 | Asked to disable and not to delete, with no display error, the command succeeds exactly for an existing release file and moves its content to `key.disabled`. Otherwise it fails with the storage untouched |
| Catalog.HandleAsWritten | migrations_mgmt_cmds/management/commands/release_management.py:77-155 | As written, the command never changes the storage, whatever the options |
| Catalog.AsWrittenOn | migrations_mgmt_cmds/management/commands/release_management.py:109-148 | Once the catalog is known, the command as written leaves the storage as it found it on every path, including its error paths |
| Catalog.AsWrittenIgnoresDelete | migrations_mgmt_cmds/management/commands/release_management.py:80-81 | As written, the value of `--delete-release` has no effect on the run, whatever the catalog |
| Catalog.DeleteAliasExample | migrations_mgmt_cmds/management/commands/release_management.py:81 | With only `--delete-release r1.json`, the command as written keeps `r1.json`. The corrected command removes it and reports the deletion |
| Catalog.AsWrittenDisableFails | migrations_mgmt_cmds/management/commands/release_management.py:119 | As written, whenever the display step raises nothing, disabling a release-file name ends in an AttributeError for `exist`, with the file still in place. When `--display-last` meets an empty catalog, the IndexError at line 107 comes first |
| Catalog.AsWrittenBadNameIsNameError | migrations_mgmt_cmds/management/commands/release_management.py:111-116 | As written, whenever the display step raises nothing, a non-release name given to disable raises NameError for `CommandError`. The corrected command reports the invalid name |
| Catalog.AsWrittenLastOnEmpty | migrations_mgmt_cmds/management/commands/release_management.py:101-107 | As written, showing the last file of an empty catalog raises IndexError. The corrected command reports that no release was found |

## Left out

- `storage.py` resolves the storage class from Django settings. The model replaces it with a plain key-to-file map.
- Django's `MigrationLoader`, leaf computation, `detect_conflicts`, `migration_plan` and `MigrationExecutor.migrate` are outside this code. Their results are inputs: a leaf function, a conflict map and a planner function. `migrate` is represented by the call it would receive.
- `connection.prepare_database()` is a backend hook with no visible logic. It is not modelled.
- The `--noinput` option is read into `self.interactive` but never used: the rollback command never asks for confirmation, and the model has no prompt either.
- `Storage.save` may pick an alternative name when the key already exists. The model writes under the requested key and overwrites.
- The JSON text of a release file (indentation, separators, escaping) is not modelled. A stored file is one of three things: the decoded object's items in file order, with distinct keys (`Document`, see `Migrations.DistinctApps`), a JSON value that is not an object (`NotAnObject`), or bytes that do not decode (`Opaque`). The last two become the errors `NoItems` and `UndecodableRelease`. In the source they are the AttributeError from `items` and the decoder's exception.
- `Document` does not enforce `Migrations.DistinctApps` by its type. Documents written by the snapshot command satisfy it (`Release.BuildReleaseDistinctApps`). A hand-edited file that repeats a key decodes in Python to one entry, at the first position with the last value; the model does not carry out that merge.
- A JSON object with values that are not strings (`null`, numbers) is not representable: `Document` entries are strings. In the source such a file passes the conflict check and reaches `migration_plan` as it is, and Django reads an `(app, None)` target as "unapply every migration of the app". The model has no such outcome.
- `sort_create_date` truncates a floating-point timestamp to an integer. The model stores the integer creation time directly with each file, and the catalog sorts by it (`Catalog.CreatedTimes`). A listed name the storage does not hold gets time 0 in the model; the source's storage would raise. That happens only if the listing tree disagrees with the storage's keys.
- Elapsed-time suffixes (`time.monotonic`, `%.3f`), output styling, `flush` and argparse declarations are not modelled.
- `release_management` declares `-v/--verbosity` itself (release_management.py:55-64), although Django's base command parser already declares it. With argparse's default conflict handling this would stop parser construction before `handle` runs. The model starts from parsed options, so it describes `handle` as if the parser had been built.
- The order of the progress events comes from Django's executor, which is not part of this model. `Rollback.RevertEvents` takes it as rendering the model states first, then unapplying each step.
- Rollback error messages are kinds with their payloads, not formatted strings. The snapshot conflict text is modelled by `Release.ConflictMessage`.
- A `listdir` of a missing directory, and storage backends whose directory listings disagree with their keys, are not modelled. The listing tree is an input that stands for the storage's own directory view.
- Concurrent commands, and a crash between the copy and the delete of a disable, are not modelled.
- Text.Lower: folds only the ASCII letters `A`–`Z`. Python's `str.lower()` also folds non-ASCII letters. The filter's outcome can differ only if some non-ASCII character lowers to `.`, `j`, `s`, `o` or `n`.
- The help text of `--disable-release` says the extension becomes `.old`, but the code appends `.disabled`. The model follows the code.
- The source does not fall back to the modification time when a backend cannot report a creation time. The model follows the code and uses the creation time only.

## Findings

| source | as written | input that shows it | evidently intended | confidence | as-written member | corrected member |
|---|---|---|---|---|---|---|
| migrations_mgmt_cmds/management/commands/release_management.py:81 | `delete_release_file = options["disable_release"]` | `--delete-release r1.json` with `r1.json` stored: nothing is deleted | read `options["delete_release"]` | high, not executed | Catalog.AsWrittenIgnoresDelete | Catalog.HandleDeletesOnlyTarget |
| migrations_mgmt_cmds/management/commands/release_management.py:119 | `migrations_releases_storage.exist(...)` (also at line 144) | `--disable-release r1.json`: AttributeError, file kept | `exists(...)` | high, not executed | Catalog.AsWrittenDisableFails | Catalog.Disable |
| migrations_mgmt_cmds/management/commands/release_management.py:112 | `CommandError` used, but line 2 imports only `BaseCommand` | `--disable-release notes.txt`: NameError | import `CommandError` and report the bad name | high, not executed | Catalog.AsWrittenBadNameIsNameError | Catalog.Disable |
| migrations_mgmt_cmds/management/commands/release_management.py:107 | `self.sorted_files_by_date[-1]` without an emptiness check | `--display-last` on storage with no `.json` file: IndexError | report that no release file was found | high, not executed | Catalog.AsWrittenLastOnEmpty | Catalog.Last |
