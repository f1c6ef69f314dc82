/** main.go: the older copy of the repository loader, in which MakeRepo
    scans the .git/config itself and LoadReposFromJSON gives up at the first
    repository it cannot create. */
module MainGo {
  import opened Failures
  import opened GoStrings
  import opened GitConfig
  import opened ConfigLookup
  import opened Disk
  import opened Repos

  // ---------------------------------------------------------------------
  // filepath.Base

  /** Where the last '/'-separated element of s[..j] begins. */
  function ElementStart(s: string, j: nat): (r: nat)
    requires j <= |s|
    ensures r <= j
    ensures forall i :: r <= i < j ==> s[i] != '/'
    ensures r == 0 || s[r - 1] == '/'
    decreases j
  {
    if j > 0 && s[j - 1] != '/' then ElementStart(s, j - 1) else j
  }

  /** filepath.Base with '/' as the separator: "." for the empty path, "/"
      for a path of slashes only, and otherwise the last element once
      trailing slashes are removed. */
  function Base(path: string): (r: string)
    ensures path == "" ==> r == "."
    ensures path != "" && TrimRight(path, {'/'}) == "" ==> r == "/"
    ensures var q := TrimRight(path, {'/'});
      q != "" ==>
        && r != "" && '/' !in r
        && |r| <= |q| && r == q[|q| - |r|..]
        && (|r| == |q| || q[|q| - |r| - 1] == '/')
  {
    if path == "" then "."
    else
      var q := TrimRight(path, {'/'});
      if q == "" then "/" else q[ElementStart(q, |q|)..]
  }

  /** The name given to a repository is the last element of its directory. */
  lemma BaseOfChild(parent: string, name: string)
    requires name != "" && '/' !in name
    ensures Base(parent + "/" + name) == name
  {
    var path := parent + "/" + name;
    assert TrimRight(path, {'/'}) == path by {
      assert path[|path| - 1] == name[|name| - 1];
      TrimRightKeeps(path, {'/'});
    }
    assert path[|parent|] == '/';
    assert forall i :: |parent| < i < |path| ==> path[i] == name[i - |parent| - 1];
    var r := Base(path);
    assert |r| == |name|;
    assert path[|path| - |name|..] == name;
  }

  /** A string whose last character is not cut loses nothing on the right. */
  lemma TrimRightKeeps(s: string, cut: set<char>)
    requires s != [] && s[|s| - 1] !in cut
    ensures TrimRight(s, cut) == s
  {
  }

  // ---------------------------------------------------------------------
  // MakeRepo

  /** What MakeRepo (main.go:21-111) produces for `dir`: the repository, or
      the error it returns. filepath.Abs is taken to leave `dir` as it is. */
  function CreateRepo(dir: string, fs: FileSystem): Result<Repo> {
    if dir !in fs.dirs then Err(DirectoryMissing(dir))
    else if GitDir(dir) !in fs.dirs then Err(NotARepository(dir))
    else
      match ReadConfig(fs, ConfigPath(dir))
      case Err(e) => Err(e)
      case Ok(t) =>
        match GetConfigValue(t, RemoteKey)
        case Ok(url) => Ok(Repo(Base(dir), dir, url, Some(t)))
        case Err(e) => Err(RemoteFailure(e))
  }

  /** MakeRepo: the existence checks, then the scanner loop of main.go:52-98
      inlined over the config file's lines, then the remote URL. */
  method MakeRepo(dir: string, fs: FileSystem) returns (r: Result<Repo>)
    ensures r == CreateRepo(dir, fs)
  {
    if dir !in fs.dirs {
      return Err(DirectoryMissing(dir));
    }
    if GitDir(dir) !in fs.dirs {
      return Err(NotARepository(dir));
    }
    var local := dir;
    var name := Base(dir);
    var config: Tree := map[];
    var configFile := ConfigPath(dir);
    if configFile !in fs.files {
      return Err(OpenFailed(configFile));
    }
    var lines := fs.files[configFile];
    var currentSection, currentSubsection := "", "";
    for i := 0 to |lines|
      invariant Fold(Ok(Start), lines[..i]) == Ok(ParseState(currentSection, currentSubsection, config))
    {
      FoldNext(lines, i);
      var next := ScanLine(ParseState(currentSection, currentSubsection, config), lines[i]);
      match next
      case Err(e) =>
        ParseStopsAtLine(lines, i, ParseState(currentSection, currentSubsection, config), e);
        assert ReadConfig(fs, configFile) == Err(e);
        return Err(e);
      case Ok(st) =>
        currentSection, currentSubsection, config := st.section, st.subsection, st.tree;
    }
    TakeAll(lines);
    assert ReadConfig(fs, configFile) == Ok(config);
    var remote := GetConfigValue(config, RemoteKey);
    if remote.Err? {
      return Err(RemoteFailure(remote.error));
    }
    return Ok(Repo(name, local, remote.value, Some(config)));
  }

  /** MakeRepo succeeds exactly when the directory is a repository whose
      config parses and holds remote."origin".url; the repository is then
      named after the last element of the directory, and carries that URL
      and the parsed tree. */
  lemma CreateRepoOutcome(dir: string, fs: FileSystem)
    ensures CreateRepo(dir, fs).Ok? <==>
              && dir in fs.dirs && GitDir(dir) in fs.dirs
              && ReadConfig(fs, ConfigPath(dir)).Ok?
              && Get(ReadConfig(fs, ConfigPath(dir)).value, "remote", "origin", "url").Some?
    ensures CreateRepo(dir, fs).Ok? ==>
              CreateRepo(dir, fs).value ==
                Repo(Base(dir), dir,
                     Get(ReadConfig(fs, ConfigPath(dir)).value, "remote", "origin", "url").value,
                     Some(ReadConfig(fs, ConfigPath(dir)).value))
  {
    if dir in fs.dirs && GitDir(dir) in fs.dirs && ReadConfig(fs, ConfigPath(dir)).Ok? {
      var t := ReadConfig(fs, ConfigPath(dir)).value;
      RemoteKeyParts();
      if Get(t, "remote", "origin", "url").Some? {
        QualifiedLookupExact(t, "remote", "origin", "url", Get(t, "remote", "origin", "url").value);
      } else {
        MissingQualifiedEntryFails(t, "remote", "origin", "url");
      }
    }
  }

  /** The two copies agree: a repository MakeRepo creates is the one
      repos.go's LoadConfig fills in for the same local path, save for the
      name, which MakeRepo derives from the path. */
  lemma CreateRepoAgreesWithLoadConfig(stored: Repo, fs: FileSystem)
    requires CreateRepo(stored.local, fs).Ok?
    ensures LoadConfig(stored, fs) == (CreateRepo(stored.local, fs).value.(name := stored.name), None)
  {
  }

  // ---------------------------------------------------------------------
  // LoadReposFromJSON

  /** The error main.go:257 evidently means to report after entry `local`
      failed; a panic inside MakeRepo has already ended the program. */
  function Reported(local: string, e: Error): Error {
    if e.IsPanic() then e else CreateFailed(local, e)
  }

  /** What MakeRepo gives for each stored entry, in order. */
  function Outcomes(stored: seq<Repo>, fs: FileSystem): (made: seq<Result<Repo>>)
    ensures |made| == |stored|
    decreases |stored|
  {
    if |stored| == 0 then []
    else Outcomes(stored[..|stored| - 1], fs) + [CreateRepo(stored[|stored| - 1].local, fs)]
  }

  /** The outcome of entry `i` is what MakeRepo gives for its local path. */
  lemma {:induction false} OutcomeAt(stored: seq<Repo>, fs: FileSystem, i: nat)
    requires i < |stored|
    ensures Outcomes(stored, fs)[i] == CreateRepo(stored[i].local, fs)
    decreases |stored|
  {
    if i < |stored| - 1 {
      var init := stored[..|stored| - 1];
      OutcomeAt(init, fs, i);
      assert init[i] == stored[i];
    }
  }

  /** One more entry adds its outcome at the end. */
  lemma OutcomesNext(stored: seq<Repo>, fs: FileSystem, i: nat)
    requires i < |stored|
    ensures Outcomes(stored[..i + 1], fs) == Outcomes(stored[..i], fs) + [CreateRepo(stored[i].local, fs)]
  {
    TakeOfTake(stored, i);
  }

  /** The fail-fast loop of main.go:254-260 as the Go code reads, over the
      outcomes of MakeRepo. Inside the loop `repo, err := MakeRepo(repo.Local)`
      declares a new `repo`, which is nil whenever MakeRepo fails, so forming
      the message dereferences nil: the first failure crashes instead of
      being returned. */
  function FailFast(made: seq<Result<Repo>>): Result<seq<Repo>>
    decreases |made|
  {
    if |made| == 0 then Ok([])
    else
      match made[0]
      case Err(e) => Err(if e.IsPanic() then e else NilDereferencePanic)
      case Ok(repo) =>
        match FailFast(made[1..])
        case Ok(rest) => Ok([repo] + rest)
        case Err(e) => Err(e)
  }

  function FailFastAsWritten(stored: seq<Repo>, fs: FileSystem): Result<seq<Repo>> {
    FailFast(Outcomes(stored, fs))
  }

  /** Once the first failure is an ordinary error, the loop crashes. */
  lemma {:induction false} FailFastDereferencesNil(made: seq<Result<Repo>>, i: nat)
    requires i < |made|
    requires forall j :: 0 <= j < i ==> made[j].Ok?
    requires made[i].Err? && !made[i].error.IsPanic()
    ensures FailFast(made) == Err(NilDereferencePanic)
    decreases i
  {
    if i > 0 {
      assert made[0].Ok?;
      assert forall j :: 0 <= j < i - 1 ==> made[1..][j] == made[j + 1];
      FailFastDereferencesNil(made[1..], i - 1);
    }
  }

  /** Whenever the first repository that cannot be created fails with an
      ordinary error, the code as written panics on a nil pointer. */
  lemma AsWrittenDereferencesNil(stored: seq<Repo>, fs: FileSystem, i: nat)
    requires i < |stored|
    requires forall j :: 0 <= j < i ==> CreateRepo(stored[j].local, fs).Ok?
    requires CreateRepo(stored[i].local, fs).Err? && !CreateRepo(stored[i].local, fs).error.IsPanic()
    ensures FailFastAsWritten(stored, fs) == Err(NilDereferencePanic)
  {
    var made := Outcomes(stored, fs);
    forall j | 0 <= j <= i ensures made[j] == CreateRepo(stored[j].local, fs) {
      OutcomeAt(stored, fs, j);
    }
    FailFastDereferencesNil(made, i);
  }

  /** A single stored repository whose directory is gone: the crash. */
  lemma MissingDirectoryCrashes()
    ensures FailFastAsWritten([Repo("gogit", "/src/gogit", "", None)], FileSystem({}, map[]))
              == Err(NilDereferencePanic)
    ensures CreateRepo("/src/gogit", FileSystem({}, map[])) == Err(DirectoryMissing("/src/gogit"))
  {
    AsWrittenDereferencesNil([Repo("gogit", "/src/gogit", "", None)], FileSystem({}, map[]), 0);
  }

  /** The fail-fast load as intended: every stored entry is replaced by the
      repository MakeRepo creates from its local path, in order; the first
      entry that cannot be created ends the load with an error naming its
      path, and no entries are returned. */
  method LoadReposFromJSON(stored: seq<Repo>, fs: FileSystem) returns (r: Result<seq<Repo>>)
    ensures r.Ok? <==> forall i :: 0 <= i < |stored| ==> CreateRepo(stored[i].local, fs).Ok?
    ensures r.Ok? ==>
              |r.value| == |stored| &&
              forall i :: 0 <= i < |stored| ==> CreateRepo(stored[i].local, fs) == Ok(r.value[i])
    ensures r.Err? ==>
              exists i :: 0 <= i < |stored| &&
                (forall j :: 0 <= j < i ==> CreateRepo(stored[j].local, fs).Ok?) &&
                CreateRepo(stored[i].local, fs).Err? &&
                r.error == Reported(stored[i].local, CreateRepo(stored[i].local, fs).error)
  {
    var repos := stored;
    ghost var made: seq<Result<Repo>> := [];
    for i := 0 to |repos|
      invariant |repos| == |stored|
      invariant made == Outcomes(stored[..i], fs)
      invariant forall j :: 0 <= j < i ==> made[j] == Ok(repos[j])
    {
      var repo := MakeRepo(stored[i].local, fs);
      OutcomesNext(stored, fs, i);
      made := made + [repo];
      if repo.Err? {
        r := Err(Reported(stored[i].local, repo.error));
        FirstFailureReported(stored, fs, i, repo.error, r);
        return;
      }
      repos := repos[i := repo.value];
    }
    TakeAll(stored);
    r := Ok(repos);
    AllCreated(stored, fs, repos, r);
  }

  /** The first entry that cannot be created decides the error of the
      fail-fast load. */
  lemma FirstFailureReported(stored: seq<Repo>, fs: FileSystem, i: nat, e: Error, r: Result<seq<Repo>>)
    requires i < |stored|
    requires forall j :: 0 <= j < i ==> Outcomes(stored[..i], fs)[j].Ok?
    requires CreateRepo(stored[i].local, fs) == Err(e)
    requires r == Err(Reported(stored[i].local, e))
    ensures r.Ok? <==> forall i :: 0 <= i < |stored| ==> CreateRepo(stored[i].local, fs).Ok?
    ensures r.Err? ==>
              exists i :: 0 <= i < |stored| &&
                (forall j :: 0 <= j < i ==> CreateRepo(stored[j].local, fs).Ok?) &&
                CreateRepo(stored[i].local, fs).Err? &&
                r.error == Reported(stored[i].local, CreateRepo(stored[i].local, fs).error)
  {
    forall j | 0 <= j < i ensures CreateRepo(stored[j].local, fs).Ok? {
      OutcomeAt(stored[..i], fs, j);
      assert stored[..i][j] == stored[j];
    }
  }

  /** When every outcome is a repository, those are the repositories
      MakeRepo creates for the entries, in order. */
  lemma AllCreated(stored: seq<Repo>, fs: FileSystem, repos: seq<Repo>, r: Result<seq<Repo>>)
    requires |repos| == |stored|
    requires forall j :: 0 <= j < |stored| ==> Outcomes(stored, fs)[j] == Ok(repos[j])
    requires r == Ok(repos)
    ensures r.Ok? <==> forall i :: 0 <= i < |stored| ==> CreateRepo(stored[i].local, fs).Ok?
    ensures r.Ok? ==>
              |r.value| == |stored| &&
              forall i :: 0 <= i < |stored| ==> CreateRepo(stored[i].local, fs) == Ok(r.value[i])
  {
    forall j | 0 <= j < |stored| ensures CreateRepo(stored[j].local, fs) == Ok(repos[j]) {
      OutcomeAt(stored, fs, j);
    }
  }

  /** MakeRepo never reports a nil dereference of its own, so the intended
      load never does either. */
  lemma CreateRepoNeverNil(dir: string, fs: FileSystem)
    ensures CreateRepo(dir, fs).Err? ==> CreateRepo(dir, fs).error != NilDereferencePanic
    ensures CreateRepo(dir, fs).Err? ==> Reported(dir, CreateRepo(dir, fs).error) != NilDereferencePanic
  {
    if ReadConfig(fs, ConfigPath(dir)).Err? {
      ReadConfigNeverNil(fs, ConfigPath(dir));
    }
  }

  lemma ReadConfigNeverNil(fs: FileSystem, configFile: string)
    ensures ReadConfig(fs, configFile).Err? ==>
              ReadConfig(fs, configFile).error == OpenFailed(configFile) ||
              ReadConfig(fs, configFile).error == SliceBoundsPanic ||
              ReadConfig(fs, configFile).error.ShapePanic?
  {
    if configFile in fs.files {
      ParseErrors(fs.files[configFile]);
    }
  }
}
