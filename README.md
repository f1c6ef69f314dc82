# gogit: the `.git/config` parser and the repository loader

gogit keeps a list of git repositories (name, local path, remote URL and
the parsed `.git/config` of each). This project models the part of it with
real logic:

- `parseGitConfig` (repos.go), a single pass over the trimmed lines of a
  `.git/config` file. It tracks the current section and subsection and fills
  a two-shape tree: section → key → value for a flat section, and
  section → subsection → key → value for a qualified one. Here the tree is
  `map<string, Section>` with `Section = Flat(map) | Qualified(map of maps)`.
- `GetConfigValue`, which resolves `section.key` or `section.subsection.key`
  against that tree.
- `LoadConfig`, which derives a repository's remote URL from
  `remote.origin.url`, the two `LoadReposFromJSON` loops, and the projection
  that `ReposToJSON` marshals when the config is left out.
- main.go, an older copy of the same code. `MakeRepo` runs the same scanner
  loop inline, and its `LoadReposFromJSON` gives up at the first repository
  it cannot create.

Layout:

- `failures.dfy` (`Failures`): `Option`, `Result` and the error values. Each Go
  panic is an error value too, marked by `Error.IsPanic()`.
- `go_strings.dfy` (`GoStrings`): the `strings` functions the parser uses
  (`TrimSpace`, `Trim`, `Split`, and `SplitN(s, "=", 2)` as `Cut`), with the
  trimming and splitting lemmas.
- `git_config.dfy` (`GitConfig`): the tree, the nested insert, how one line
  is classified, and the scan as a fold of `Step` over the lines (`Parse`).
  It also holds the line-level lemmas.
- `config_lookup.dfy` (`ConfigLookup`): `GetConfigValue` and its exactness
  lemmas.
- `file_system.dfy` (`Disk`): the paths os.Stat finds and the readable files the loader
  consults.
- `repos.dfy` (`Repos`): the imperative scanner loop `ParseGitConfig`, proved
  equal to `Parse`. It also holds `LoadConfig`, the warn-and-continue load
  loop and the projection loop.
- `main_go.dfy` (`MainGo`): `MakeRepo` with its inline scanner loop, proved
  equal to the repos.go parse. It also holds the fail-fast load loop, both as
  written and as intended.
- `config_text.dfy` (`ConfigText`): writes entries as `.git/config` text and
  proves that parsing that text gives back the tree built from the entries.

Where the code's behaviour is surprising, the model follows the code:

- A section name used both flat and qualified makes a type assertion panic
  (`ShapePanic`).
- A header's last character is dropped without checking that it is `]`.
- The header is split on every space, and only the first two tokens are used.
- A repeated section header merges into the existing section. It does not
  replace it.
- Entries before any header go to the flat section `""`.
- The parser fails on the line `[`, a slice-bounds panic, as well as on the
  shape clash. The lookup can panic too: a two-part path on a qualified
  section, or a three-part path on a flat one.

## Model

The specification functions `GitConfig.Step`, `GitConfig.Parse`, `ConfigLookup.GetConfigValue`, `MainGo.CreateRepo` and `MainGo.FailFast` carry no contract of their own. The rows below name the lemmas and methods that state what they do: `Step` (repos.go:96-136) through the GitConfig line lemmas and `Repos.ScanLine`; `Parse` (repos.go:95-137) through `Repos.ParseGitConfig`, `GitConfig.ParseErrors`, `GitConfig.ParseStopsAtLine` and `ConfigText.RoundTrip`; `GetConfigValue` (repos.go:22-58) through the ConfigLookup lemmas; `CreateRepo` (main.go:21-111) through `MainGo.MakeRepo` and `MainGo.CreateRepoOutcome`; and `FailFast` (main.go:254-260 as written) through `MainGo.AsWrittenDereferencesNil`.

| member | source | states |
|---|---|---|
| GitConfig.Insert | repos.go:119-135 | The nested insert writes exactly one entry, at (section, subsection, key) or (section, key) when the subsection is empty. Every other entry and every other section is unchanged. It fails, with the shape panic, exactly when the section already has the other shape. |
| GitConfig.StepInert | repos.go:96-100 | A blank line, a `;` or `#` comment or an unrecognised line leaves the tree, the current section and the current subsection as they were. |
| GitConfig.InertLines | repos.go:96-136 | The lines with no effect are exactly those that, once trimmed, are empty, start with `;` or `#`, or neither start with `[` nor contain `=`. |
| GitConfig.ParseIgnoresInert | repos.go:95-137 | Removing an inert line anywhere in the file does not change the result of the parse. |
| GitConfig.HeaderKeepsTree | repos.go:102-110 | A header only moves the current section and subsection. The tree is kept, so a repeated header merges into its section. |
| GitConfig.LoneBracketPanics | repos.go:104 | A line that trims to `[` fails with the slice-bounds panic of `line[1:0]`. |
| GitConfig.HeaderFields | repos.go:102-110 | For `[` + tokens joined by spaces + any non-space last character, the section is the first token and the subsection is the quote-trimmed second token, or empty without one. Later tokens are dropped, and the last character is never checked to be `]`. |
| GitConfig.QualifiedHeader | repos.go:102-110 | For a section without spaces and a subsection without spaces or `"`, `[section "sub"]` sets the current section to `section` and the subsection to `sub`, keeping the tree. (With a space inside the quotes, `[url "a b"]` gives subsection `a`; `HeaderFields` covers every header.) |
| GitConfig.FlatHeader | repos.go:102-110 | For a section without spaces, `[section]` sets the current section and clears the subsection. (`[a b]` sets subsection `b` instead.) |
| GitConfig.AssignFields | repos.go:111-117 | For `k=v` with no `=` in `k` and a trimmed `k` that is empty or does not start with `[`, `;` or `#` (otherwise the line is a header or a comment), the line splits at the first `=`. The key is space- then quote-trimmed. The value is only space-trimmed, so it keeps any further `=`, its quotes and its inner whitespace. |
| GitConfig.AssignWritesOneEntry | repos.go:119-135 | A successful key/value line writes its value at the current section, subsection and key. A repeated key overwrites. Every other entry and the current section and subsection are unchanged. |
| GitConfig.AssignShapeConflict | repos.go:119-135 | A key/value line fails exactly when the current section already has the other shape (the type assertions at lines 123 and 133). The failure is the shape panic; nothing is merged or overwritten. |
| GitConfig.EntryBeforeHeader | repos.go:91-92 | A key/value line before any header is stored in the flat section `""`. |
| GitConfig.ParseErrors | repos.go:95-143 | Parsing fails only by the slice-bounds panic or the shape panic. |
| GitConfig.ParseStopsAtLine | repos.go:95-137 | The first failing line ends the parse with its error, whatever follows. |
| GitConfig.ParseWellFormed | repos.go:106-135 | A parsed tree never holds the empty subsection inside a qualified section. |
| Repos.SetValue | repos.go:119-135 | The imperative nested insert (create the missing map, assert its type, write the key) gives the same result as `Insert`. |
| Repos.ScanHeader | repos.go:102-110 | The header branch is the Step of a header line: a lone `[` fails with the slice-bounds panic, and any other header moves to the section and subsection that `HeaderFields` describes, keeping the tree. |
| Repos.ScanAssignment | repos.go:111-135 | The key/value branch is the Step of an assignment: the key and value that `AssignFields` describes go through the nested insert, and its shape panic is the branch's failure. |
| Repos.ScanLine | repos.go:96-136 | The loop body is one `Step` of the scan. |
| Repos.ParseGitConfig | repos.go:82-144 | The scanner loop returns `Parse` of the file's lines, or the open error when the file is absent. |
| Repos.LoadConfig | repos.go:63-79 | An unreadable config leaves the repository untouched and returns the error. Otherwise Config is the parsed tree, and without an error Remote is the value at `remote.origin.url`. |
| Repos.LoadConfigSetsRemote | repos.go:72-76 | LoadConfig succeeds exactly when the tree holds remote/origin/url, and Remote is then that value. |
| Repos.LoadConfigMissingRemote | repos.go:72-76 | Without that entry, Remote becomes `""` and the error names the missing section, subsection or key. A flat `[remote]` section instead panics inside the lookup, before Remote is assigned, so Remote keeps its old value. |
| Repos.EntryLine | repos.go:111-117 | For a plain key (non-empty, without `=`, edge whitespace or edge quotes, not starting with `[`, `;` or `#`) and a value without edge whitespace, the line `<TAB>key = value` reads back as exactly that key and value. (`<TAB>[key = value` is a header instead.) |
| Repos.QualifiedBlock | repos.go:95-136 | For a section without spaces, a non-empty subsection without spaces or `"`, a plain key (as in `Repos.EntryLine`) and a value without edge whitespace, `[section "sub"]` followed by `<TAB>key = value` parses to section → sub → key → value. |
| Repos.OriginRemoteBlock | repos.go:63-79 | The usual `[remote "origin"]` / `url = …` block parses, and the lookup LoadConfig makes returns that URL. |
| Repos.LoadedEntry | repos.go:213-220 | After the loop body, an entry keeps its name and local path. Its Config is nil exactly when loading failed; otherwise it is the parsed tree, whose remote/origin/url is the entry's Remote. |
| Repos.LoadReposFromJSON | repos.go:213-222 | Every stored entry is returned, in order, each loaded as above. The load fails only when some entry's LoadConfig panics, and then with the first such panic. |
| Repos.ReposWithoutConfig | repos.go:163-170 | The projection has the same length and order, with Name, Local and Remote copied. main.go:204-211 is the same loop. |
| ConfigLookup.FlatLookupExact | repos.go:34-41 | `s.k` (no `.` in `s` or `k`) returns `v` exactly when `v` is the value stored at flat section `s`, key `k`. |
| ConfigLookup.QualifiedLookupExact | repos.go:42-54 | For a non-empty `sub` and no `.` in `s`, `sub` or `k`, `s.sub.k` returns `v` exactly when `v` is the value stored at section `s`, subsection `sub`, key `k`. |
| ConfigLookup.LookupSound | repos.go:22-58 | Every successful lookup has a path of 2 or 3 parts without `.`, and returns the stored entry those parts name. A subsection whose name contains `.` is therefore unreachable. main.go:114-150 is identical. |
| ConfigLookup.WrongArityFails | repos.go:23-57 | Fewer than 2 or more than 3 parts never resolve and never panic. Fewer than 2 gives the format error; more than 3 with an existing section gives "Invalid key format". |
| ConfigLookup.MissingEntryFails | repos.go:28-41 | A 2-part path `s.k` (no `.` in `s` or `k`) without a stored entry reports the missing section or the missing key, or panics on a qualified section. |
| ConfigLookup.MissingQualifiedEntryFails | repos.go:42-54 | A 3-part path without a stored entry reports the missing section, subsection or key, or panics on a flat section. |
| MainGo.MakeRepo | main.go:21-111 | The existence checks, the inline scanner loop of main.go:52-98 and the remote lookup give exactly `CreateRepo`, whose parse is the repos.go `Parse`. |
| MainGo.CreateRepoOutcome | main.go:21-111 | MakeRepo succeeds exactly when the directory and its `.git` exist, the config parses and it holds remote/origin/url. The repository is then named after the directory and carries that URL and the tree. |
| MainGo.CreateRepoAgreesWithLoadConfig | main.go:52-108 | Whenever MakeRepo succeeds, repos.go's LoadConfig on the same local path gives the same repository (name aside) and no error. |
| MainGo.BaseOfChild | main.go:41 | The name given to a repository at `parent/name` is `name`. |
| MainGo.Base | main.go:41 | `filepath.Base`: `.` for the empty path, `/` for slashes only, otherwise a non-empty suffix without `/` that starts the last element. |
| MainGo.AsWrittenDereferencesNil | main.go:254-258 | As written, when the first repository that cannot be created fails with an ordinary error, the load crashes on a nil pointer instead of returning it. |
| MainGo.MissingDirectoryCrashes | main.go:255-257 | One stored repository whose directory is gone makes the load as written crash. |
| MainGo.LoadReposFromJSON | main.go:254-262 | Intended fail-fast load: it succeeds exactly when every stored entry can be created, and then returns the created repositories in order. Otherwise it returns the first failure's error naming its path, and no entries. |
| MainGo.CreateRepoNeverNil | main.go:21-111 | MakeRepo itself never fails with a nil dereference. |
| ConfigText.RoundTrip | repos.go:95-136 | For writable entries (no space in the section; no space or `"` in the subsection; a non-empty key without `=`, edge whitespace or edge quotes that does not start with `[`, `;` or `#`; a value without edge whitespace), the lines written as a header plus `<TAB>key = value` parse back to the tree built by inserting the entries in order. A value such as ` x` would read back as `x`. |
| ConfigText.BuildFailsOnMixedShapes | repos.go:119-135 | Building, and so parsing the text, fails exactly when some section is written both with and without a subsection, and then with the shape panic. |
| ConfigText.BuildHoldsLastValues | repos.go:119-135 | Every place of a built tree holds the value written there last, and nothing is stored where nothing was written. |
| ConfigText.RenderedLookup | repos.go:22-58 | For writable entries (as in `RoundTrip`) that never write a section both with and without a subsection, and a section, subsection and key without `.`, GetConfigValue on the parsed text returns `v` for that path exactly when `v` was the last value written there. |

## Left out

- Filesystem work is a parameter (`Disk.FileSystem`): `os.Open`, `os.Stat`, the directory checks and a file's lines. `filepath.Abs` is taken to return its argument. `filepath.Join` is modelled as plain concatenation with `/` (`Disk.GitDir`, `Disk.ConfigPath`), so the path cleaning Join does is not: `a/` gives `a//.git` here but `a/.git` in Go, and the empty path gives `/.git/config` here but `.git/config` in Go. This matters for repos.go's LoadConfig, which uses the stored Local as it is. `filepath.Walk` in `MakeReposFromRoot` and `MakeRepoFromLocal` (repos.go:227-301, main.go:153-184) are not modelled.
- `os.Stat` errors other than "does not exist" are not modelled. The source lets such errors through, and so does the model, by treating the directory as present.
- Repos.ParseGitConfig, MainGo.MakeRepo: do not model `scanner.Err()` (repos.go:139-141, main.go:100-102), which covers lines longer than the scanner's 64 KiB buffer and read errors; the file is taken as its sequence of lines.
- Go strings are UTF-8 bytes; the model works on characters. A header whose last character is multi-byte loses one byte in Go and one character here. The `;`, `#`, `[` and `=` tests agree on both.
- `encoding/json` marshalling and unmarshalling (`ReposToJSON`, `ReposFromJSON`, the JSON read in both `LoadReposFromJSON`) are not modelled. The stored entries are the loop's input, and only the projection to Name/Local/Remote is modelled.
- The warning printed by repos.go's load loop (repos.go:217) is console output and is not modelled.
- Error messages are the `Failures.Error` variants, not the formatted strings.
- `ExecGitCommand` and the rest of commands.go (concurrent `git` runs, console output), config.go (TOML/INI through external libraries), util.go (OS config directories), cli.go (colours) and `main()` argument dispatch are not part of this model.

## Findings

| source | as written | input that shows it | evidently intended | confidence | as-written member | corrected member |
|---|---|---|---|---|---|---|
| main.go:255-257 | `repo, err := MakeRepo(repo.Local)` declares a new `repo`, which is nil whenever MakeRepo fails, and the error message then reads `repo.Local` through that nil pointer | one stored repository whose local directory does not exist | return the error "Error creating repo from <local>: …" and no entries | high; not executed | MainGo.AsWrittenDereferencesNil | MainGo.LoadReposFromJSON |
