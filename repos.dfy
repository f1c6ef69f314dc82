/** repos.go: reading a repository's .git/config into the tree, deriving
    its remote URL, loading every stored repository and the Config-less
    projection written back as JSON. */
module Repos {
  import opened Failures
  import opened GoStrings
  import opened GitConfig
  import opened ConfigLookup
  import opened Disk

  /** The Repo struct. `config` is None where Go holds a nil map. */
  datatype Repo = Repo(name: string, local: string, remote: string, config: Option<Tree>)

  /** The path LoadConfig resolves to obtain the remote URL,
      "remote.origin.url". */
  const RemoteKey := "remote" + "." + "origin" + "." + "url"

  // ---------------------------------------------------------------------
  // parseGitConfig

  /** Opening `configFile` and scanning its lines. */
  function ReadConfig(fs: FileSystem, configFile: string): Result<Tree> {
    if configFile in fs.files then Parse(fs.files[configFile]) else Err(OpenFailed(configFile))
  }

  /** The nested insert of repos.go:119-135 (main.go:80-96) on the map
      the scanner fills. */
  method SetValue(config: Tree, section: string, subsection: string, key: string, value: string)
    returns (r: Result<Tree>)
    ensures r == Insert(config, section, subsection, key, value)
  {
    var c := config;
    if subsection != "" {
      if section !in c {
        c := c[section := Qualified(map[])];
      }
      match c[section]
      case Flat(_) =>
        return Err(ShapePanic(section));
      case Qualified(subsectionMap) =>
        var subsectionConfig := if subsection in subsectionMap then subsectionMap[subsection] else map[];
        c := c[section := Qualified(subsectionMap[subsection := subsectionConfig[key := value]])];
        assert c == config[section := Qualified(subsectionMap[subsection := subsectionConfig[key := value]])];
    } else {
      if section !in c {
        c := c[section := Flat(map[])];
      }
      match c[section]
      case Qualified(_) =>
        return Err(ShapePanic(section));
      case Flat(sectionConfig) =>
        c := c[section := Flat(sectionConfig[key := value])];
        assert c == config[section := Flat(sectionConfig[key := value])];
    }
    return Ok(c);
  }

  /** The header branch of the loop body (repos.go:102-110), on a trimmed
      line that starts with '[': the line without its first and last
      character, split on every space. */
  method ScanHeader(st: ParseState, line: string) returns (r: Result<ParseState>)
    requires |line| > 0
    ensures r == Apply(st, HeaderOf(line))
  {
    if |line| == 1 {
      return Err(SliceBoundsPanic);
    }
    var sectionParts := Split(line[1..|line| - 1], ' ');
    var section, subsection := sectionParts[0], "";
    if |sectionParts| > 1 {
      subsection := TrimQuotes(sectionParts[1]);
    }
    return Ok(ParseState(section, subsection, st.tree));
  }

  /** The key/value branch of the loop body (repos.go:111-135), on a
      trimmed line that is neither blank, a comment nor a header, and holds
      '='. */
  method ScanAssignment(st: ParseState, line: string) returns (r: Result<ParseState>)
    requires '=' in line
    ensures r == Apply(st, AssignOf(line))
  {
    var parts := Cut(line, '=');
    var key, value := TrimSpace(parts.0), TrimSpace(parts.1);
    key := TrimQuotes(key);
    assert AssignOf(line) == Assign(key, value);
    var config := SetValue(st.tree, st.section, st.subsection, key, value);
    ApplyAssign(st, key, value);
    match config
    case Err(e) =>
      return Err(e);
    case Ok(c) =>
      return Ok(st.(tree := c));
  }

  /** The body of the scanner loop (repos.go:96-136), updating the loop
      variables and the map. main.go:57-97 is the same code. */
  method ScanLine(st: ParseState, raw: string) returns (r: Result<ParseState>)
    ensures r == Step(st, raw)
  {
    var line := TrimSpace(raw);
    if |line| == 0 || line[0] == ';' || line[0] == '#' {
      return Ok(st);
    }
    if line[0] == '[' {
      r := ScanHeader(st, line);
    } else if '=' in line {
      r := ScanAssignment(st, line);
    } else {
      r := Ok(st);
    }
  }

  /** parseGitConfig (repos.go:82-144): the scanner loop over the file's
      lines, stopping at the first panic. */
  method ParseGitConfig(configFile: string, fs: FileSystem) returns (r: Result<Tree>)
    ensures r == ReadConfig(fs, configFile)
  {
    if configFile !in fs.files {
      return Err(OpenFailed(configFile));
    }
    var lines := fs.files[configFile];
    var currentSection, currentSubsection, config := "", "", map[];
    for i := 0 to |lines|
      invariant Fold(Ok(Start), lines[..i]) == Ok(ParseState(currentSection, currentSubsection, config))
    {
      FoldNext(lines, i);
      var next := ScanLine(ParseState(currentSection, currentSubsection, config), lines[i]);
      match next
      case Err(e) =>
        ParseStopsAtLine(lines, i, ParseState(currentSection, currentSubsection, config), e);
        return Err(e);
      case Ok(st) =>
        currentSection, currentSubsection, config := st.section, st.subsection, st.tree;
    }
    TakeAll(lines);
    return Ok(config);
  }

  // ---------------------------------------------------------------------
  // LoadConfig

  /** The error LoadConfig reports when the remote URL cannot be looked up;
      a panic of the lookup is not wrapped, it ends the program. */
  function RemoteFailure(e: Error): Error {
    if e.IsPanic() then e else RemoteUnavailable(e)
  }

  /** LoadConfig (repos.go:63-79): the repository as the pointer-receiver
      method leaves it, and the error it returns. An unreadable config leaves
      the repository untouched; once the tree is stored, a failed lookup
      still overwrites Remote, with "" (Go's multiple assignment), unless
      the lookup panicked before that assignment could happen. */
  function LoadConfig(r: Repo, fs: FileSystem): (out: (Repo, Option<Error>))
    ensures out.0.name == r.name && out.0.local == r.local
    ensures ReadConfig(fs, ConfigPath(r.local)).Err? ==> out == (r, Some(ReadConfig(fs, ConfigPath(r.local)).error))
    ensures ReadConfig(fs, ConfigPath(r.local)).Ok? ==> out.0.config == Some(ReadConfig(fs, ConfigPath(r.local)).value)
    ensures out.1.None? ==> GetConfigValue(out.0.config.value, RemoteKey) == Ok(out.0.remote)
  {
    match ReadConfig(fs, ConfigPath(r.local))
    case Err(e) => (r, Some(e))
    case Ok(t) =>
      var withConfig := r.(config := Some(t));
      match GetConfigValue(t, RemoteKey)
      case Ok(url) => (withConfig.(remote := url), None)
      case Err(e) =>
        if e.IsPanic() then (withConfig, Some(e))
        else (withConfig.(remote := ""), Some(RemoteFailure(e)))
  }

  /** The remote URL is looked up as section "remote", subsection
      "origin", key "url". */
  lemma RemoteKeyParts()
    ensures Split(RemoteKey, '.') == ["remote", "origin", "url"]
    ensures '.' !in "remote" && '.' !in "origin" && '.' !in "url"
  {
    SplitThree("remote", "origin", "url");
  }

  /** LoadConfig succeeds exactly when the parsed tree holds
      remote."origin".url, and Remote is then that value. */
  lemma LoadConfigSetsRemote(r: Repo, fs: FileSystem)
    requires ReadConfig(fs, ConfigPath(r.local)).Ok?
    ensures var t := ReadConfig(fs, ConfigPath(r.local)).value;
      && (LoadConfig(r, fs).1.None? <==> Get(t, "remote", "origin", "url").Some?)
      && (LoadConfig(r, fs).1.None? ==> Get(t, "remote", "origin", "url") == Some(LoadConfig(r, fs).0.remote))
  {
    var t := ReadConfig(fs, ConfigPath(r.local)).value;
    RemoteKeyParts();
    if Get(t, "remote", "origin", "url").Some? {
      QualifiedLookupExact(t, "remote", "origin", "url", Get(t, "remote", "origin", "url").value);
    } else {
      MissingQualifiedEntryFails(t, "remote", "origin", "url");
    }
  }

  /** Without remote."origin".url the error says why: no [remote] section,
      no "origin" subsection or no url key, and Remote becomes ""; a flat
      [remote] section panics inside the lookup, before Remote is assigned. */
  lemma LoadConfigMissingRemote(r: Repo, fs: FileSystem)
    requires ReadConfig(fs, ConfigPath(r.local)).Ok?
    requires Get(ReadConfig(fs, ConfigPath(r.local)).value, "remote", "origin", "url").None?
    ensures var t := ReadConfig(fs, ConfigPath(r.local)).value;
      LoadConfig(r, fs) ==
        if "remote" in t && t["remote"].Flat? then (r.(config := Some(t)), Some(ShapePanic("remote")))
        else (r.(config := Some(t), remote := ""), Some(
          if "remote" !in t then RemoteUnavailable(SectionNotFound("remote"))
          else if "origin" !in t["remote"].subsections then RemoteUnavailable(SubsectionNotFound("origin", "remote"))
          else RemoteUnavailable(SubsectionKeyNotFound("url", "origin", "remote"))))
  {
    RemoteKeyParts();
    MissingQualifiedEntryFails(ReadConfig(fs, ConfigPath(r.local)).value, "remote", "origin", "url");
  }

  /** A key that trimming leaves as it is and that cannot start a header or
      a comment. */
  ghost predicate PlainKey(key: string) {
    && key != [] && '=' !in key && key[0] !in {'[', ';', '#'}
    && Untrimmable(key, Spaces) && Untrimmable(key, Quotes)
  }

  lemma EntryKeyTrims(key: string)
    requires PlainKey(key)
    ensures '=' !in "\t" + key + " "
    ensures TrimSpace("\t" + key + " ") == key
    ensures TrimQuotes(key) == key
  {
    EntryKeyHasNoEquals(key);
    assert AllIn("\t", Spaces) && AllIn(" ", Spaces);
    TrimRecovers("\t", key, " ", Spaces);
    KeyTrimsQuotes(key);
  }

  lemma EntryKeyHasNoEquals(key: string)
    requires '=' !in key
    ensures '=' !in "\t" + key + " "
  {
    var s := "\t" + key + " ";
    assert forall i :: 0 < i < |s| - 1 ==> s[i] == key[i - 1];
  }

  lemma KeyTrimsQuotes(key: string)
    requires Untrimmable(key, Quotes)
    ensures TrimQuotes(key) == key
  {
    assert key == "" + key + "";
    TrimRecovers("", key, "", Quotes);
  }

  lemma EntryValueTrims(value: string)
    requires Untrimmable(value, Spaces)
    ensures TrimSpace(" " + value) == value
  {
    assert " " + value == " " + value + "";
    TrimRecovers(" ", value, "", Spaces);
  }

  lemma EntryText(key: string, value: string)
    ensures "\t" + key + " = " + value == ("\t" + key + " ") + "=" + (" " + value)
  {
  }

  /** The entry line `<TAB>key = value` as git writes it. */
  lemma EntryLine(key: string, value: string)
    requires PlainKey(key) && Untrimmable(value, Spaces)
    ensures Classify("\t" + key + " = " + value) == Assign(key, value)
  {
    EntryText(key, value);
    EntryKeyTrims(key);
    EntryValueTrims(value);
    AssignFields("\t" + key + " ", " " + value);
  }

  /** An entry line under a fresh qualified section writes that one value. */
  lemma EntryUnderHeader(section: string, subsection: string, raw: string, key: string, value: string)
    requires subsection != "" && Classify(raw) == Assign(key, value)
    ensures Step(ParseState(section, subsection, map[]), raw)
         == Ok(ParseState(section, subsection, map[section := Qualified(map[subsection := map[key := value]])]))
  {
    var st := ParseState(section, subsection, map[]);
    StepAssign(st, raw, key, value);
    assert Apply(st, Assign(key, value)) == Ok(st.(tree := map[section := Qualified(map[subsection := map[key := value]])]));
  }

  /** A block of a qualified section with one entry, as git writes it,
          [section "subsection"]
          <TAB>key = value
      parses to section -> subsection -> key -> value. */
  lemma QualifiedBlock(section: string, subsection: string, key: string, value: string)
    requires ' ' !in section && ' ' !in subsection && '"' !in subsection && subsection != ""
    requires PlainKey(key) && Untrimmable(value, Spaces)
    ensures Parse(["[" + section + " \"" + subsection + "\"]", "\t" + key + " = " + value])
         == Ok(map[section := Qualified(map[subsection := map[key := value]])])
  {
    var header, entry := "[" + section + " \"" + subsection + "\"]", "\t" + key + " = " + value;
    var lines := [header, entry];
    var afterHeader := ParseState(section, subsection, map[]);
    QualifiedHeader(Start, section, subsection);
    EntryLine(key, value);
    EntryUnderHeader(section, subsection, entry, key, value);
    FoldNext(lines, 0);
    FoldNext(lines, 1);
    TakeAll(lines);
    assert Fold(Ok(Start), lines[..1]) == Then(Ok(Start), header) == Ok(afterHeader);
  }

  /** The usual remote block: `[remote "origin"]` then `<TAB>url = <url>`
      gives remote -> origin -> url, and the lookup LoadConfig makes returns
      the URL as written, less its surrounding whitespace. */
  lemma OriginRemoteBlock(url: string)
    requires Untrimmable(url, Spaces)
    ensures Parse(["[" + "remote" + " \"" + "origin" + "\"]", "\t" + "url" + " = " + url])
         == Ok(map["remote" := Qualified(map["origin" := map["url" := url]])])
    ensures GetConfigValue(map["remote" := Qualified(map["origin" := map["url" := url]])], RemoteKey) == Ok(url)
  {
    assert PlainKey("url");
    QualifiedBlock("remote", "origin", "url", url);
    RemoteKeyParts();
    QualifiedLookupExact(map["remote" := Qualified(map["origin" := map["url" := url]])], "remote", "origin", "url", url);
  }

  // ---------------------------------------------------------------------
  // LoadReposFromJSON

  /** LoadConfig ended the program with a panic. */
  predicate Panics(r: Repo, fs: FileSystem) {
    LoadConfig(r, fs).1.Some? && LoadConfig(r, fs).1.value.IsPanic()
  }

  /** One entry after the loop body of repos.go:214-219: LoadConfig, then a
      nil Config if it reported an error. */
  function Loaded(r: Repo, fs: FileSystem): Repo {
    var (updated, err) := LoadConfig(r, fs);
    if err.Some? then updated.(config := None) else updated
  }

  /** A loaded entry keeps its name and local path; its Config is nil exactly
      when loading failed, and otherwise is the parsed tree, whose
      remote."origin".url is the entry's Remote. */
  lemma LoadedEntry(r: Repo, fs: FileSystem)
    ensures Loaded(r, fs).name == r.name && Loaded(r, fs).local == r.local
    ensures Loaded(r, fs).config.None? <==> LoadConfig(r, fs).1.Some?
    ensures Loaded(r, fs).config.Some? ==>
              && ConfigPath(r.local) in fs.files
              && Parse(fs.files[ConfigPath(r.local)]) == Ok(Loaded(r, fs).config.value)
              && Get(Loaded(r, fs).config.value, "remote", "origin", "url") == Some(Loaded(r, fs).remote)
  {
    if ReadConfig(fs, ConfigPath(r.local)).Ok? {
      LoadConfigSetsRemote(r, fs);
    }
  }

  /** The loop of repos.go:213-220 over the entries read from the JSON
      file: every entry is kept, in order, and only those whose config could
      not be loaded lose their Config. A panic in any entry ends the load. */
  method LoadReposFromJSON(stored: seq<Repo>, fs: FileSystem) returns (r: Result<seq<Repo>>)
    ensures r.Err? <==> exists i :: 0 <= i < |stored| && Panics(stored[i], fs)
    ensures r.Err? ==>
              exists i :: 0 <= i < |stored| && Panics(stored[i], fs) &&
                (forall j :: 0 <= j < i ==> !Panics(stored[j], fs)) &&
                r.error == LoadConfig(stored[i], fs).1.value
    ensures r.Ok? ==>
              |r.value| == |stored| && forall i :: 0 <= i < |stored| ==> r.value[i] == Loaded(stored[i], fs)
  {
    var repos := new Repo[|stored|](i requires 0 <= i < |stored| => stored[i]);
    for i := 0 to repos.Length
      invariant forall j :: 0 <= j < i ==> repos[j] == Loaded(stored[j], fs) && !Panics(stored[j], fs)
      invariant forall j :: i <= j < repos.Length ==> repos[j] == stored[j]
    {
      ghost var want := Loaded(stored[i], fs);
      var (updated, err) := LoadConfig(repos[i], fs);
      assert (updated, err) == LoadConfig(stored[i], fs);
      if err.Some? && err.value.IsPanic() {
        return Err(err.value);
      }
      repos[i] := updated;
      if err.Some? {
        repos[i] := repos[i].(config := None);
      }
      assert repos[i] == want && !Panics(stored[i], fs);
    }
    return Ok(repos[..]);
  }

  // ---------------------------------------------------------------------
  // ReposToJSON

  /** The struct ReposToJSON marshals when the Config is not included. */
  datatype RepoWithoutConfig = RepoWithoutConfig(name: string, local: string, remote: string)

  /** The projection loop of repos.go:163-170 (main.go:204-211): same length
      and order, Name, Local and Remote copied. */
  method ReposWithoutConfig(repos: seq<Repo>) returns (out: seq<RepoWithoutConfig>)
    ensures |out| == |repos|
    ensures forall i :: 0 <= i < |repos| ==>
              out[i].name == repos[i].name && out[i].local == repos[i].local && out[i].remote == repos[i].remote
  {
    var projected := new RepoWithoutConfig[|repos|];
    for i := 0 to |repos|
      invariant forall j :: 0 <= j < i ==>
                  projected[j].name == repos[j].name && projected[j].local == repos[j].local &&
                  projected[j].remote == repos[j].remote
    {
      projected[i] := RepoWithoutConfig(repos[i].name, repos[i].local, repos[i].remote);
    }
    return projected[..];
  }
}
