# Commit manager of flask-mirror-app, in Dafny

The application stores uploads as "commits" in named repositories under a data
directory. Each repository directory holds one sub-directory per version, named
after the second the commit was made (`v%Y%m%d%H%M%S`), and a `commits.json` log.
The log lists one record per commit, with the fields `version`, `timestamp`,
`message` and `files`. `save_commit` creates the repository directory if needed. It
then creates the version directory, which must not exist yet, and saves each upload
under its `secure_filename` name. Finally it reads the log (no file reads as no
commits), appends one record and writes the whole log back. `view_repo` returns the
log, or a 404 answer when the repository has no log file.

The model has three modules:

- `VersionIds` (versionid.dfy): clock readings, the `strftime('v%Y%m%d%H%M%S')`
  format as zero-padding, and Python's string order. The main result: for valid
  readings, ids compare as strings exactly as the readings compare in time to the
  second, and two ids are equal exactly when the readings fall in the same second.
- `Commits` (commits.dfy): the store as a value. It is a map from repository name
  to `Repo(versions, log)`, where `versions` maps version ids to directories (file
  name to bytes) and `log` is `None` until the first successful commit. `Commit`
  states what `save_commit` does to a store, with its outcome. `ViewRepo` states what
  `view_repo` reads. The lemmas state the properties of both.
- `RepositoryStore` (store.dfy): the data directory as an object. `Store.SaveCommit`
  updates the store in place, in the order the source does: repository directory,
  version directory, then one file at a time (`Store.WriteUploads`, the `for` loop),
  then the log. Its postcondition is the connection to `Commits.Commit`. The method
  also keeps the store's invariant `Valid`: every log record names a distinct
  version directory that holds exactly the files the record lists.

`secure_filename` belongs to werkzeug and is not part of this model. It is the
uninterpreted parameter `sanitize` (a `const` of the store), so the only thing
assumed about it is that it is deterministic. The two clock readings are
parameters: `now` at line 23 and the ISO `timestamp` string at line 36.

Three behaviours of `save_commit` and `upload` worth knowing:

- A second commit to the same repository within the same second fails and does not
  overwrite the first one's directory. `os.makedirs(version_path)` is called without
  `exist_ok` (app.py:25), so it raises and the directory is left as it was
  (`Commits.SameSecondCollision`).
- The default message `Sem mensagem` is used only when the form has no `message`
  field at all (app.py:63). An empty field is kept as the empty message
  (`Commits.UploadMessageDefault`).
- A commit can also fail while writing files (app.py:27-28). An upload whose
  sanitised name is empty is saved to `os.path.join(version_path, '')`, which is the
  version directory itself, and opening that for writing fails. The version directory
  then holds the uploads saved before it, and the log is not touched
  (`Commits.CommitStopsAtEmptyName`).

## Model

| member | source | states |
|---|---|---|
| VersionIds.Pad | app.py:23 | a `%0wd` field is exactly `w` characters long and every one of them is a decimal digit |
| VersionIds.VersionId | app.py:23 | the definition of `strftime('v%Y%m%d%H%M%S')`; its contract: every id is fixed width, 15 characters, `v` followed by 14 digits. Its order is stated by `VersionIdOrder` |
| VersionIds.PadOrder | app.py:23 | zero-padded numbers that fit their width compare as strings exactly as they compare as numbers, and are equal as strings only when equal as numbers |
| VersionIds.VersionIdOrder | app.py:23 | for valid clock readings, id A sorts before id B as a string exactly when A's reading is in an earlier second, and the ids are equal exactly when the readings are in the same second |
| VersionIds.SameSecondSameId | app.py:23 | two readings in the same second give the same id, whatever their microseconds |
| VersionIds.LexLessTransitive | app.py:23 | string order on ids is transitive, so a log ordered pairwise by id is ordered as a whole |
| Commits.Written | app.py:26-28 | the definition of the version directory the save loop leaves: the uploads saved one after another under their sanitised names. Its properties are stated by `WrittenKeys`, `WrittenLast` and `WrittenEmpty` |
| Commits.Names | app.py:38 | the record's `files` has one entry per upload, in upload order, each the sanitised upload name, duplicates included |
| Commits.FirstEmpty | app.py:26-28 | the index where the save loop stops: every earlier upload has a non-empty sanitised name and the upload at that index (if any) has an empty one |
| Commits.WrittenKeys | app.py:26-28 | the version directory holds exactly the names listed in the record's `files` |
| Commits.WrittenLast | app.py:26-28 | each name in the version directory holds the content of the last upload with that sanitised name, since a later save overwrites an earlier one |
| Commits.WrittenEmpty | app.py:26-28 | no uploads give an empty version directory |
| Commits.Commit | app.py:20-42 | the definition of `save_commit` on a store, step by step in the source's order; its contract: the repository exists afterwards whatever the outcome, and a success returns the version id of the clock reading. Its properties are stated by the `Commit*` lemmas below, `SameSecondCollision` and the `View*` lemmas |
| Commits.CommitSucceedsIff | app.py:20-42 | the commit succeeds exactly when the version directory is new and every upload has a non-empty sanitised name, and it then returns the version id of the clock reading |
| Commits.CommitAppendsOneRecord | app.py:29-41 | after a successful commit the new version directory holds the saved uploads and the log is the earlier log (empty if there was none) followed by exactly one record: the returned version, the timestamp, the message and the sanitised names. No other part of the store changes |
| Commits.CommitVersionExists | app.py:24-25 | the commit fails with the existing-directory error exactly when the version directory already exists, and then the store is unchanged: no file written, log untouched |
| Commits.CommitStopsAtEmptyName | app.py:26-28 | when upload k is the first with an empty sanitised name, the commit fails after creating the version directory and saving the uploads before k, and the log is untouched |
| Commits.CommitFrame | app.py:20-42 | a commit changes only its own repository's entry, which exists afterwards whatever the outcome, and every version directory that existed before keeps its content |
| Commits.CommitCreatesRepo | app.py:21-22 | creating the repository directory is idempotent: committing to a repository that is an empty directory is the same as committing to a name that does not exist yet |
| Commits.CommitNoFiles | app.py:26-39 | with no uploads the commit creates an empty version directory and appends a record with an empty file list |
| Commits.SameSecondCollision | app.py:23-25 | after a successful commit, a second commit to the same repository in the same second fails on the existing directory and leaves the store as the first commit left it |
| Commits.CommitPreservesConsistent | app.py:24-41 | every commit, successful or not, keeps each log record naming a distinct version directory that holds exactly the record's files |
| Commits.CommitKeepsLogSorted | app.py:23-41 | if the clock has moved to a later second since the last record, the log stays sorted by version id after the commit |
| Commits.ViewRepo | app.py:49-57 | the definition of `view_repo`; its contract: NotFound exactly when there is no log, and otherwise the stored records unchanged. `ViewAfterCommit` and `ViewAfterFailedCommit` relate it to commits |
| Commits.ViewNeverCommitted | app.py:53-54 | a repository that was never committed to reads as NotFound, not as an empty log |
| Commits.ViewAfterCommit | app.py:53-57 | reading right after a successful commit gives the earlier log unchanged, followed by the new record, whose version is the id the commit returned |
| Commits.ViewAfterFailedCommit | app.py:53-57 | a failed commit changes what `view_repo` shows for no repository, so a repository whose first commit failed still reads as NotFound |
| Commits.UploadMessage | app.py:63 | the definition of `request.form.get('message', 'Sem mensagem')`; its contract: the message is either the default or the submitted field. `UploadMessageDefault` states when each applies |
| Commits.UploadMessageDefault | app.py:63 | the message is the form's `message` field when present, `Sem mensagem` only when absent, and empty exactly when the submitted field is empty |
| RepositoryStore.Store.SaveCommit | app.py:20-42 | the method returns the outcome `Commits.Commit` gives, leaves the store `Commits.Commit` gives, and keeps the store's invariant |
| RepositoryStore.Store.WriteUploads | app.py:26-28 | the save loop fills the version directory one upload at a time, up to the first empty sanitised name, and returns that index |
| RepositoryStore.Store.constructor | app.py:10-11 | a store over an empty data directory satisfies the invariant `Valid`: every log record names a distinct version directory holding exactly its files |
| RepositoryStore.TwoCommits | app.py:20-57 | two commits to a new repository, a second or more apart, read back as two records in commit order, with ids in ascending string order, and the store keeps its invariant `Valid` throughout |

## Left out

- The `/mirror` route (app.py:79-105). It is a dulwich clone, a directory wipe and a zip of the walked tree: library calls and I/O with no logic of the application's own.
- The Flask routes, the templates, the upload form and the redirect (app.py:44-47, 59-72). Only the message default of `upload` is modelled.
- The repository listing on `/` (`os.listdir` of the data directory). It returns the store's keys and anything else lying in that directory.
- `download_file` (app.py:74-77). It hands one path to `send_from_directory`, which streams the file.
- The JSON encoding of `commits.json` and the failure on a log that is not valid JSON. The log is modelled directly as a sequence of records.
- The internals of `secure_filename`. It is left uninterpreted.
- `datetime.now()` and `isoformat()`. The two readings are independent inputs, and the record's timestamp is an opaque string.
- Storage failures other than the two modelled errors: disk full, permissions, and a repository name that makes an invalid path. Repository names are opaque keys. The data directory's configuration from the environment (app.py:10-18) is also left out.
- Concurrency. Two requests that interleave their read-modify-write of the log can lose a record. The model is sequential.
- VersionIds.VersionId: the year is always padded to four digits. How the platform's `strftime` prints years below 1000 is not modelled. The ordering lemmas hold for every valid `datetime` year (1 to 9999) under that padding.
