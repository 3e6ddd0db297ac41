/** The commit manager's behaviour as functions over an abstract store.

    The data directory is a map from repository name to a `Repo`: the version
    directories under that repository (each a map from file name to content) and its
    commit log, which is absent until the first successful commit writes it. `Commit`
    is what `save_commit` does to such a store, step by step as the source orders the
    steps; `ViewRepo` is what `view_repo` reads back. The sanitiser `secure_filename`
    is a parameter: it is deterministic, and nothing more about it is assumed. */
module Commits {
  import opened VersionIds

  newtype byte = x: int | 0 <= x < 256

  type Bytes = seq<byte>
  type FileName = string
  type RepoName = string

  /** The content of one version directory. */
  type VersionDir = map<FileName, Bytes>

  /** `werkzeug.utils.secure_filename`, left uninterpreted. */
  type Sanitizer = string -> FileName

  datatype Option<T> = None | Some(value: T)

  /** One uploaded file: the name the client sent and the bytes it carried. */
  datatype Upload = Upload(filename: string, content: Bytes)

  /** One entry of `commits.json`. */
  datatype CommitRecord = CommitRecord(version: string, timestamp: string, message: string,
                                       files: seq<FileName>)

  /** A repository directory: its version directories and its commit log, if written. */
  datatype Repo = Repo(versions: map<string, VersionDir>, log: Option<seq<CommitRecord>>)

  /** The ways `save_commit` can fail: `os.makedirs` finds the version directory
      already there, or the sanitised name of the upload at `index` is empty, so
      that the save opens the version directory itself for writing. */
  datatype CommitError = VersionExists(version: string) | IsADirectory(index: nat)

  datatype Result<T> = Ok(value: T) | Err(error: CommitError)

  /** What `save_commit` returns, with the store it leaves behind. */
  datatype Outcome = Outcome(result: Result<string>, repos: map<RepoName, Repo>)

  /** What `view_repo` finds: the stored log, or the 404 answer. */
  datatype View = Found(commits: seq<CommitRecord>) | NotFound

  /** The message `upload` passes on when the form has no `message` field. */
  const DefaultMessage: string := "Sem mensagem"

  /** The records of a repository's log; an absent log reads as no records. */
  function LogOf(repo: Repo): seq<CommitRecord> {
    match repo.log
    case None => []
    case Some(commits) => commits
  }

  /** The `files` field of a new record: each upload's sanitised name, in upload order. */
  function Names(sanitize: Sanitizer, uploads: seq<Upload>): (names: seq<FileName>)
    ensures |names| == |uploads|
    ensures forall i :: 0 <= i < |uploads| ==> names[i] == sanitize(uploads[i].filename)
  {
    seq(|uploads|, i requires 0 <= i < |uploads| => sanitize(uploads[i].filename))
  }

  /** The index of the first upload whose sanitised name is empty, or the number of
      uploads when there is none. */
  function FirstEmpty(sanitize: Sanitizer, uploads: seq<Upload>): (k: nat)
    ensures k <= |uploads|
    ensures forall j :: 0 <= j < k ==> sanitize(uploads[j].filename) != ""
    ensures k < |uploads| ==> sanitize(uploads[k].filename) == ""
  {
    if uploads == [] || sanitize(uploads[0].filename) == "" then 0
    else 1 + FirstEmpty(sanitize, uploads[1..])
  }

  /** The version directory after saving the uploads one after another, each under
      its sanitised name, into an empty directory. */
  function Written(sanitize: Sanitizer, uploads: seq<Upload>): VersionDir {
    if uploads == [] then map[]
    else
      var last := uploads[|uploads| - 1];
      Written(sanitize, uploads[..|uploads| - 1])[sanitize(last.filename) := last.content]
  }

  /** `save_commit(name, uploads, message)` on the store `repos`, where the clock
      reads `now` at the version-id step and the second reading is `timestamp`
      (its `isoformat()`). */
  function Commit(repos: map<RepoName, Repo>, sanitize: Sanitizer, name: RepoName,
                  uploads: seq<Upload>, message: string, now: DateTime, timestamp: string)
    : (o: Outcome)
    ensures name in o.repos
    ensures o.result.Ok? ==> o.result.value == VersionId(now)
  {
    var repo := if name in repos then repos[name] else Repo(map[], None);
    var version := VersionId(now);
    if version in repo.versions then
      Outcome(Err(VersionExists(version)), repos[name := repo])
    else
      var k := FirstEmpty(sanitize, uploads);
      var versions := repo.versions[version := Written(sanitize, uploads[..k])];
      if k < |uploads| then
        Outcome(Err(IsADirectory(k)), repos[name := repo.(versions := versions)])
      else
        var record := CommitRecord(version, timestamp, message, Names(sanitize, uploads));
        Outcome(Ok(version), repos[name := Repo(versions, Some(LogOf(repo) + [record]))])
  }

  /** `view_repo(name)`: the stored log, or NotFound when there is no log file. */
  function ViewRepo(repos: map<RepoName, Repo>, name: RepoName): (v: View)
    ensures v == NotFound <==> name !in repos || repos[name].log.None?
    ensures v.Found? ==> v.commits == LogOf(repos[name])
  {
    if name in repos && repos[name].log.Some? then Found(repos[name].log.value) else NotFound
  }

  /** The message `upload` reads from the submitted form. */
  function UploadMessage(form: map<string, string>): (m: string)
    ensures m == DefaultMessage || ("message" in form && m == form["message"])
  {
    if "message" in form then form["message"] else DefaultMessage
  }

  // ---------------------------------------------------------------------------
  // The version directory a commit writes

  /** The version directory holds exactly the sanitised names of the uploads. */
  lemma {:induction false} WrittenKeys(sanitize: Sanitizer, uploads: seq<Upload>)
    ensures Written(sanitize, uploads).Keys == set n | n in Names(sanitize, uploads)
  {
    if uploads != [] {
      var init := uploads[..|uploads| - 1];
      WrittenKeys(sanitize, init);
      var names := Names(sanitize, uploads);
      assert names == Names(sanitize, init) + [sanitize(uploads[|uploads| - 1].filename)];
    }
  }

  /** Each name holds the content of the last upload with that name: a later upload
      with the same sanitised name overwrites an earlier one. */
  lemma {:induction false} WrittenLast(sanitize: Sanitizer, uploads: seq<Upload>, i: nat)
    requires i < |uploads|
    requires forall j :: i < j < |uploads| ==>
               sanitize(uploads[j].filename) != sanitize(uploads[i].filename)
    ensures sanitize(uploads[i].filename) in Written(sanitize, uploads)
    ensures Written(sanitize, uploads)[sanitize(uploads[i].filename)] == uploads[i].content
  {
    if i < |uploads| - 1 {
      var init := uploads[..|uploads| - 1];
      assert init[i] == uploads[i];
      WrittenLast(sanitize, init, i);
    }
  }

  /** No uploads: an empty version directory. */
  lemma WrittenEmpty(sanitize: Sanitizer)
    ensures Written(sanitize, []) == map[]
  {
  }

  // ---------------------------------------------------------------------------
  // What a commit does to the store

  /** The commit succeeds exactly when the version directory is new and every
      upload has a non-empty sanitised name; it then returns the version id. */
  lemma CommitSucceedsIff(repos: map<RepoName, Repo>, sanitize: Sanitizer, name: RepoName,
                          uploads: seq<Upload>, message: string, now: DateTime,
                          timestamp: string)
    ensures var o := Commit(repos, sanitize, name, uploads, message, now, timestamp);
      o.result.Ok? <==>
        (name !in repos || VersionId(now) !in repos[name].versions) &&
        (forall i :: 0 <= i < |uploads| ==> sanitize(uploads[i].filename) != "")
    ensures var o := Commit(repos, sanitize, name, uploads, message, now, timestamp);
      o.result.Ok? ==> o.result.value == VersionId(now)
  {
  }

  /** A successful commit adds the new version directory, holding the uploads under
      their sanitised names, and extends the log (empty when absent) by exactly one
      record whose version is the returned id and whose files are the sanitised
      names in upload order. Earlier records keep their values and their order. */
  lemma CommitAppendsOneRecord(repos: map<RepoName, Repo>, sanitize: Sanitizer,
                               name: RepoName, uploads: seq<Upload>, message: string,
                               now: DateTime, timestamp: string)
    requires Commit(repos, sanitize, name, uploads, message, now, timestamp).result.Ok?
    ensures var o := Commit(repos, sanitize, name, uploads, message, now, timestamp);
      var before := if name in repos then repos[name] else Repo(map[], None);
      var v := o.result.value;
      v == VersionId(now) && v !in before.versions &&
      o.repos == repos[name := Repo(before.versions[v := Written(sanitize, uploads)],
        Some(LogOf(before) + [CommitRecord(v, timestamp, message, Names(sanitize, uploads))]))]
  {
    assert uploads[..|uploads|] == uploads;
  }

  /** When the version directory already exists the commit fails before writing any
      file or touching the log: the store is left exactly as it was. */
  lemma {:induction false} CommitVersionExists(repos: map<RepoName, Repo>, sanitize: Sanitizer,
                               name: RepoName, uploads: seq<Upload>, message: string,
                               now: DateTime, timestamp: string)
    ensures var o := Commit(repos, sanitize, name, uploads, message, now, timestamp);
      o.result == Err(VersionExists(VersionId(now))) <==>
        name in repos && VersionId(now) in repos[name].versions
    ensures var o := Commit(repos, sanitize, name, uploads, message, now, timestamp);
      o.result.Err? && o.result.error.VersionExists? ==> o.repos == repos
  {
  }

  /** When the sanitised name of upload `k` is empty (and of none before it) the
      commit fails after creating the version directory and writing the uploads
      before `k`; the log is not touched. */
  lemma CommitStopsAtEmptyName(repos: map<RepoName, Repo>, sanitize: Sanitizer,
                               name: RepoName, uploads: seq<Upload>, message: string,
                               now: DateTime, timestamp: string, k: nat)
    requires name !in repos || VersionId(now) !in repos[name].versions
    requires k < |uploads| && sanitize(uploads[k].filename) == ""
    requires forall j :: 0 <= j < k ==> sanitize(uploads[j].filename) != ""
    ensures var o := Commit(repos, sanitize, name, uploads, message, now, timestamp);
      var before := if name in repos then repos[name] else Repo(map[], None);
      o.result == Err(IsADirectory(k)) &&
      o.repos == repos[name := before.(versions :=
                   before.versions[VersionId(now) := Written(sanitize, uploads[..k])])]
  {
  }

  /** A commit changes only the entry of its own repository, which exists afterwards
      whatever the outcome, and every version directory that existed before keeps
      its content. */
  lemma CommitFrame(repos: map<RepoName, Repo>, sanitize: Sanitizer, name: RepoName,
                    uploads: seq<Upload>, message: string, now: DateTime, timestamp: string)
    ensures var o := Commit(repos, sanitize, name, uploads, message, now, timestamp);
      name in o.repos && o.repos.Keys == repos.Keys + {name} &&
      (forall other :: other in repos && other != name ==> o.repos[other] == repos[other])
    ensures var o := Commit(repos, sanitize, name, uploads, message, now, timestamp);
      name in repos ==>
        forall v :: v in repos[name].versions ==>
          v in o.repos[name].versions && o.repos[name].versions[v] == repos[name].versions[v]
  {
  }

  /** Creating the repository directory is idempotent: committing to a repository
      that exists only as an empty directory behaves as committing to a name that
      does not exist yet. */
  lemma CommitCreatesRepo(repos: map<RepoName, Repo>, sanitize: Sanitizer, name: RepoName,
                          uploads: seq<Upload>, message: string, now: DateTime,
                          timestamp: string)
    requires name !in repos
    ensures Commit(repos[name := Repo(map[], None)], sanitize, name, uploads, message, now, timestamp)
         == Commit(repos, sanitize, name, uploads, message, now, timestamp)
  {
  }

  /** With no uploads the commit still creates an (empty) version directory and a
      record whose file list is empty. */
  lemma CommitNoFiles(repos: map<RepoName, Repo>, sanitize: Sanitizer, name: RepoName,
                      message: string, now: DateTime, timestamp: string)
    requires name !in repos || VersionId(now) !in repos[name].versions
    ensures var o := Commit(repos, sanitize, name, [], message, now, timestamp);
      o.result == Ok(VersionId(now)) &&
      o.repos[name].versions[VersionId(now)] == map[] &&
      LogOf(o.repos[name])[|LogOf(o.repos[name])| - 1].files == []
  {
  }

  /** Two commits to the same repository whose clock readings fall in the same
      second: if the first succeeds, the second finds its version directory and
      fails, leaving the store as the first left it. */
  lemma {:induction false} SameSecondCollision(repos: map<RepoName, Repo>, sanitize: Sanitizer,
                               name: RepoName, uploads1: seq<Upload>, message1: string,
                               now1: DateTime, timestamp1: string, uploads2: seq<Upload>,
                               message2: string, now2: DateTime, timestamp2: string)
    requires Commit(repos, sanitize, name, uploads1, message1, now1, timestamp1).result.Ok?
    requires SameSecond(now1, now2)
    ensures var first := Commit(repos, sanitize, name, uploads1, message1, now1, timestamp1);
      var second := Commit(first.repos, sanitize, name, uploads2, message2, now2, timestamp2);
      second.result == Err(VersionExists(VersionId(now1))) && second.repos == first.repos
  {
    var first := Commit(repos, sanitize, name, uploads1, message1, now1, timestamp1);
    SameSecondSameId(now1, now2);
    CommitAppendsOneRecord(repos, sanitize, name, uploads1, message1, now1, timestamp1);
    CommitVersionExists(first.repos, sanitize, name, uploads2, message2, now2, timestamp2);
  }

  // ---------------------------------------------------------------------------
  // Reading the log back

  /** A repository nobody has committed to reads as NotFound, not as an empty log. */
  lemma ViewNeverCommitted(repos: map<RepoName, Repo>, name: RepoName)
    requires name !in repos
    ensures ViewRepo(repos, name) == NotFound
  {
  }

  /** Reading right after a successful commit gives the earlier log followed by the
      new record, whose version is the id the commit returned. */
  lemma ViewAfterCommit(repos: map<RepoName, Repo>, sanitize: Sanitizer, name: RepoName,
                        uploads: seq<Upload>, message: string, now: DateTime,
                        timestamp: string)
    requires Commit(repos, sanitize, name, uploads, message, now, timestamp).result.Ok?
    ensures var o := Commit(repos, sanitize, name, uploads, message, now, timestamp);
      var earlier := if name in repos then LogOf(repos[name]) else [];
      ViewRepo(o.repos, name).Found? &&
      ViewRepo(o.repos, name).commits[..|earlier|] == earlier &&
      |ViewRepo(o.repos, name).commits| == |earlier| + 1 &&
      ViewRepo(o.repos, name).commits[|earlier|] ==
        CommitRecord(o.result.value, timestamp, message, Names(sanitize, uploads))
  {
    CommitAppendsOneRecord(repos, sanitize, name, uploads, message, now, timestamp);
  }

  /** A failed commit leaves what `view_repo` shows unchanged for every repository:
      in particular a repository whose first commit failed still reads as NotFound. */
  lemma ViewAfterFailedCommit(repos: map<RepoName, Repo>, sanitize: Sanitizer, name: RepoName,
                              uploads: seq<Upload>, message: string, now: DateTime,
                              timestamp: string, other: RepoName)
    requires Commit(repos, sanitize, name, uploads, message, now, timestamp).result.Err?
    ensures ViewRepo(Commit(repos, sanitize, name, uploads, message, now, timestamp).repos, other)
         == ViewRepo(repos, other)
  {
  }

  // ---------------------------------------------------------------------------
  // The store's invariant

  /** Every record of the log names a distinct version directory that holds exactly
      the files the record lists. */
  predicate Consistent(repo: Repo) {
    var log := LogOf(repo);
    (forall i :: 0 <= i < |log| ==>
       log[i].version in repo.versions &&
       repo.versions[log[i].version].Keys == set f | f in log[i].files) &&
    (forall i, j :: 0 <= i < j < |log| ==> log[i].version != log[j].version)
  }

  /** Commits, successful or not, keep every repository consistent. */
  lemma CommitPreservesConsistent(repos: map<RepoName, Repo>, sanitize: Sanitizer,
                                  name: RepoName, uploads: seq<Upload>, message: string,
                                  now: DateTime, timestamp: string)
    requires forall n :: n in repos ==> Consistent(repos[n])
    ensures var o := Commit(repos, sanitize, name, uploads, message, now, timestamp);
      forall n :: n in o.repos ==> Consistent(o.repos[n])
  {
    var o := Commit(repos, sanitize, name, uploads, message, now, timestamp);
    var before := if name in repos then repos[name] else Repo(map[], None);
    assert Consistent(before);
    if o.result.Ok? {
      CommitAppendsOneRecord(repos, sanitize, name, uploads, message, now, timestamp);
      WrittenKeys(sanitize, uploads);
      var log := LogOf(o.repos[name]);
      var v := o.result.value;
      assert log == LogOf(before) + [log[|log| - 1]];
      forall i | 0 <= i < |log|
        ensures log[i].version in o.repos[name].versions
        ensures o.repos[name].versions[log[i].version].Keys == set f | f in log[i].files
      {
        if i < |log| - 1 {
          assert log[i] == LogOf(before)[i];
        }
      }
      forall i, j | 0 <= i < j < |log| ensures log[i].version != log[j].version {
        if j == |log| - 1 {
          assert log[i] == LogOf(before)[i];
          assert log[i].version in before.versions;
        } else {
          assert log[i] == LogOf(before)[i] && log[j] == LogOf(before)[j];
        }
      }
    }
  }

  // ---------------------------------------------------------------------------
  // Order of the log

  /** The records' version ids increase as strings along the log. */
  predicate SortedByVersion(log: seq<CommitRecord>) {
    forall i, j :: 0 <= i < j < |log| ==> LexLess(log[i].version, log[j].version)
  }

  /** If the clock has moved on to a later second since the last record was made,
      the new record's version sorts after every earlier one: the log stays sorted. */
  lemma CommitKeepsLogSorted(repos: map<RepoName, Repo>, sanitize: Sanitizer, name: RepoName,
                             uploads: seq<Upload>, message: string, now: DateTime,
                             timestamp: string, last: DateTime)
    requires Commit(repos, sanitize, name, uploads, message, now, timestamp).result.Ok?
    requires name in repos ==> SortedByVersion(LogOf(repos[name]))
    requires name in repos && |LogOf(repos[name])| > 0 ==>
               LogOf(repos[name])[|LogOf(repos[name])| - 1].version == VersionId(last)
    requires last.Valid() && now.Valid() && Earlier(last, now)
    ensures SortedByVersion(LogOf(Commit(repos, sanitize, name, uploads, message, now,
                                         timestamp).repos[name]))
  {
    var o := Commit(repos, sanitize, name, uploads, message, now, timestamp);
    CommitAppendsOneRecord(repos, sanitize, name, uploads, message, now, timestamp);
    var before := if name in repos then LogOf(repos[name]) else [];
    var log := LogOf(o.repos[name]);
    assert log == before + [log[|log| - 1]];
    assert log[|log| - 1].version == VersionId(now);
    VersionIdOrder(last, now);
    forall i, j | 0 <= i < j < |log| ensures LexLess(log[i].version, log[j].version) {
      if j < |log| - 1 {
        assert log[i] == before[i] && log[j] == before[j];
      } else if i == |before| - 1 {
        assert log[i] == before[i];
      } else {
        assert log[i] == before[i];
        assert before[|before| - 1] == log[|before| - 1];
        LexLessTransitive(log[i].version, VersionId(last), VersionId(now));
      }
    }
  }

  // ---------------------------------------------------------------------------
  // The upload form's message

  /** The default message is used only when the form has no `message` field at
      all; a submitted empty field stays the empty message. */
  lemma UploadMessageDefault(form: map<string, string>)
    ensures "message" !in form ==> UploadMessage(form) == DefaultMessage
    ensures "message" in form ==> UploadMessage(form) == form["message"]
    ensures UploadMessage(form) == "" <==> "message" in form && form["message"] == ""
  {
  }
}
