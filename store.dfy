/** The data directory as a mutable object, and `save_commit` as a method on it.

    `SaveCommit` changes the store in the order the source does: it creates the
    repository entry, creates the version directory, writes the uploads one at a
    time, then reads the log, appends one record and writes the whole log back.
    Its postcondition ties the result and the new store to `Commits.Commit`, whose
    properties are proved in the `Commits` module. */
module RepositoryStore {
  import opened VersionIds
  import opened Commits

  class Store {
    /** `secure_filename`: fixed for the life of the store. */
    const sanitize: Sanitizer
    /** One entry per repository directory under the data directory. */
    var repos: map<RepoName, Repo>

    /** Every repository's log agrees with its version directories. */
    ghost predicate Valid()
      reads this
    {
      forall n :: n in repos ==> Consistent(repos[n])
    }

    /** A store over a data directory that already holds `repos`. */
    constructor (sanitize: Sanitizer, repos: map<RepoName, Repo>)
      ensures this.sanitize == sanitize && this.repos == repos
      ensures repos == map[] ==> Valid()
    {
      this.sanitize := sanitize;
      this.repos := repos;
    }

    /** `save_commit(name, uploads, message)`; the clock reads `now` when the version
        id is made and `timestamp` (an ISO string) when the record is made. */
    method SaveCommit(name: RepoName, uploads: seq<Upload>, message: string, now: DateTime,
                      timestamp: string)
      returns (r: Result<string>)
      modifies this
      ensures var o := Commit(old(repos), sanitize, name, uploads, message, now, timestamp);
        r == o.result && repos == o.repos
      ensures old(Valid()) ==> Valid()
    {
      ghost var before := repos;
      if Valid() {
        CommitPreservesConsistent(before, sanitize, name, uploads, message, now, timestamp);
      }
      ghost var start := if name in repos then repos[name] else Repo(map[], None);
      // os.makedirs(repo_path, exist_ok=True)
      if name !in repos {
        repos := repos[name := Repo(map[], None)];
      }
      var version := VersionId(now);
      // os.makedirs(version_path) raises when the directory exists
      if version in repos[name].versions {
        CommitVersionExists(before, sanitize, name, uploads, message, now, timestamp);
        return Err(VersionExists(version));
      }
      var repo := repos[name];
      assert repo == start;
      repos := repos[name := repo.(versions := repo.versions[version := map[]])];
      var failed := WriteUploads(name, version, uploads);
      ghost var written := repo.(versions := repo.versions[version := Written(sanitize, uploads[..failed])]);
      UpdateTwice(repo.versions, version, map[], Written(sanitize, uploads[..failed]));
      UpdateTwice(before, name, Repo(map[], None), written);
      UpdateTwice(before, name, start, written);
      assert repos == before[name := written];
      if failed < |uploads| {
        CommitStopsAtEmptyName(before, sanitize, name, uploads, message, now, timestamp, failed);
        return Err(IsADirectory(failed));
      }
      assert uploads[..failed] == uploads;
      // commits.json: read it (no file reads as no commits), append, write it back
      var commits: seq<CommitRecord>;
      if repos[name].log.Some? {
        commits := repos[name].log.value;
      } else {
        commits := [];
      }
      commits := commits + [CommitRecord(version, timestamp, message, Names(sanitize, uploads))];
      repos := repos[name := repos[name].(log := Some(commits))];
      CommitSucceedsIff(before, sanitize, name, uploads, message, now, timestamp);
      CommitAppendsOneRecord(before, sanitize, name, uploads, message, now, timestamp);
      UpdateTwice(before, name, written, written.(log := Some(commits)));
      return Ok(version);
    }

    /** The `for f in files` loop of `save_commit`: saves each upload under its
        sanitised name into the (empty) version directory `version` of `name`, and
        stops at the first upload whose sanitised name is empty, returning its index
        (or the number of uploads when every save succeeds). */
    method WriteUploads(name: RepoName, version: string, uploads: seq<Upload>)
      returns (failed: nat)
      requires name in repos && version in repos[name].versions
      requires repos[name].versions[version] == map[]
      modifies this
      ensures failed == FirstEmpty(sanitize, uploads)
      ensures repos == old(repos)[name := old(repos)[name].(versions :=
                old(repos)[name].versions[version := Written(sanitize, uploads[..failed])])]
    {
      var repo := repos[name];
      var dir: VersionDir := map[];
      assert repo.versions[version := dir] == repo.versions;
      var i := 0;
      while i < |uploads|
        invariant 0 <= i <= |uploads|
        invariant forall j :: 0 <= j < i ==> sanitize(uploads[j].filename) != ""
        invariant dir == Written(sanitize, uploads[..i])
        invariant repos == old(repos)[name := repo.(versions := repo.versions[version := dir])]
      {
        var filename := sanitize(uploads[i].filename);
        if filename == "" {
          return i;
        }
        // f.save(os.path.join(version_path, filename))
        ghost var done := uploads[..i + 1];
        assert done[..i] == uploads[..i] && done[i] == uploads[i];
        dir := dir[filename := uploads[i].content];
        repos := repos[name := repo.(versions := repo.versions[version := dir])];
        i := i + 1;
      }
      return |uploads|;
    }
  }

  /** A second write to the same key replaces the first. */
  lemma UpdateTwice<K, V>(m: map<K, V>, k: K, a: V, b: V)
    ensures m[k := a][k := b] == m[k := b]
  {
  }

  /** Two uploads in a row to a new repository, the second a second or more after
      the first: the log read back holds the two records in commit order, and their
      version ids sort in that order too. The store, started empty, keeps its
      invariant throughout. */
  method TwoCommits(sanitize: Sanitizer, a: Upload, b: Upload, t1: DateTime, t2: DateTime)
    returns (store: Store, commits: seq<CommitRecord>)
    requires t1.Valid() && t2.Valid() && Earlier(t1, t2)
    requires sanitize(a.filename) != "" && sanitize(b.filename) != ""
    ensures |commits| == 2
    ensures commits[0].version == VersionId(t1) && commits[0].files == [sanitize(a.filename)]
    ensures commits[1].version == VersionId(t2) && commits[1].files == [sanitize(b.filename)]
    ensures LexLess(commits[0].version, commits[1].version)
    ensures store.Valid() && ViewRepo(store.repos, "demo") == Found(commits)
  {
    store := new Store(sanitize, map[]);
    var r1 := store.SaveCommit("demo", [a], "init", t1, "t1");
    assert r1 == Ok(VersionId(t1));
    VersionIdOrder(t1, t2);
    var r2 := store.SaveCommit("demo", [b], DefaultMessage, t2, "t2");
    assert r2 == Ok(VersionId(t2));
    var view := ViewRepo(store.repos, "demo");
    commits := view.commits;
  }
}
