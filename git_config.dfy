/** The configuration tree that `parseGitConfig` builds from the lines of a
    `.git/config` file, and the line-by-line meaning of that parser.

    The Go code keeps the tree in a `map[string]interface{}` whose values are
    either `map[string]string` (a section without subsection) or
    `map[string]interface{}` of `map[string]string` (a section with
    subsections); here the two shapes are the constructors of Section. */
module GitConfig {
  import opened Failures
  import opened GoStrings

  datatype Section =
    | Flat(keys: map<string, string>)
    | Qualified(subsections: map<string, map<string, string>>)

  type Tree = map<string, Section>

  /** The entry stored for `key` in `section` (and in `subsection` of it when
      that is not empty): the abstract view of a tree as a set of triples. */
  function Get(t: Tree, section: string, subsection: string, key: string): Option<string> {
    if section !in t then None
    else match t[section]
      case Flat(m) =>
        if subsection == "" && key in m then Some(m[key]) else None
      case Qualified(subs) =>
        if subsection != "" && subsection in subs && key in subs[subsection]
        then Some(subs[subsection][key]) else None
  }

  /** What the parser can build: a qualified section never holds the empty
      subsection, because an empty subsection selects the flat shape. */
  ghost predicate WellFormed(t: Tree) {
    forall s :: s in t && t[s].Qualified? ==> "" !in t[s].subsections
  }

  /** The nested insert of repos.go:119-135 (main.go:80-96). A section that
      already has the other shape makes the type assertion fail. */
  function Insert(t: Tree, section: string, subsection: string, key: string, value: string): (r: Result<Tree>)
    ensures r.Err? <==> section in t && (if subsection == "" then t[section].Qualified? else t[section].Flat?)
    ensures r.Err? ==> r.error == ShapePanic(section)
    ensures r.Ok? ==> r.value.Keys == t.Keys + {section}
    ensures r.Ok? ==> forall s, sub, k {:trigger Get(r.value, s, sub, k)} ::
                        Get(r.value, s, sub, k) ==
                          if s == section && sub == subsection && k == key then Some(value)
                          else Get(t, s, sub, k)
    ensures r.Ok? ==> forall s :: s in t && s != section ==> r.value[s] == t[s]
    ensures r.Ok? && WellFormed(t) ==> WellFormed(r.value)
  {
    if subsection != "" then
      var node := if section in t then t[section] else Qualified(map[]);
      match node
      case Flat(_) => Err(ShapePanic(section))
      case Qualified(subs) =>
        var inner := if subsection in subs then subs[subsection] else map[];
        Ok(t[section := Qualified(subs[subsection := inner[key := value]])])
    else
      var node := if section in t then t[section] else Flat(map[]);
      match node
      case Qualified(_) => Err(ShapePanic(section))
      case Flat(m) => Ok(t[section := Flat(m[key := value])])
  }

  /** How one line is understood once it has been whitespace-trimmed. */
  datatype Line =
    | Skip                                      // empty, or a ';' or '#' comment
    | Truncated                                 // the one-character header "["
    | Header(section: string, subsection: string)
    | Assign(key: string, value: string)
    | Unrecognised                              // anything else: no branch is taken

  /** The section header `[...]`: the first and last character are dropped
      whatever they are, the rest is split on every space, the first token is
      the section and the second, quote-trimmed, the subsection. */
  function HeaderOf(line: string): Line
    requires |line| > 0
  {
    if |line| == 1 then Truncated
    else
      var parts := Split(line[1..|line| - 1], ' ');
      Header(parts[0], if |parts| > 1 then TrimQuotes(parts[1]) else "")
  }

  /** The key/value line: split at the first '=', both sides trimmed, the key
      also quote-trimmed. */
  function AssignOf(line: string): Line
    requires '=' in line
  {
    var kv := Cut(line, '=');
    Assign(TrimQuotes(TrimSpace(kv.0)), TrimSpace(kv.1))
  }

  /** The branches of repos.go:96-136 (main.go:57-97). */
  function Classify(raw: string): Line {
    ClassifyTrimmed(TrimSpace(raw))
  }

  /** The same branches, on the line once trimmed. */
  function ClassifyTrimmed(line: string): Line {
    if |line| == 0 || line[0] == ';' || line[0] == '#' then Skip
    else if line[0] == '[' then HeaderOf(line)
    else if '=' in line then AssignOf(line)
    else Unrecognised
  }

  /** The loop variables currentSection, currentSubsection and the map. */
  datatype ParseState = ParseState(section: string, subsection: string, tree: Tree)

  /** Both loop variables start as Go's zero string. */
  const Start := ParseState("", "", map[])

  /** What a classified line does to the scanner state. */
  function Apply(st: ParseState, line: Line): Result<ParseState> {
    match line
    case Skip => Ok(st)
    case Unrecognised => Ok(st)
    case Truncated => Err(SliceBoundsPanic)
    case Header(s, sub) => Ok(ParseState(s, sub, st.tree))
    case Assign(k, v) =>
      match Insert(st.tree, st.section, st.subsection, k, v)
      case Ok(t) => Ok(st.(tree := t))
      case Err(e) => Err(e)
  }

  /** One iteration of the scanner loop. */
  function Step(st: ParseState, raw: string): Result<ParseState> {
    Apply(st, Classify(raw))
  }

  /** Step after an earlier failure: a panic ends the scan. */
  function Then(r: Result<ParseState>, raw: string): Result<ParseState> {
    match r
    case Ok(st) => Step(st, raw)
    case Err(e) => Err(e)
  }

  /** The scan of `lines`, one Step per line, from the state `r`. */
  function Fold(r: Result<ParseState>, lines: seq<string>): Result<ParseState>
    decreases |lines|
  {
    if |lines| == 0 then r else Then(Fold(r, lines[..|lines| - 1]), lines[|lines| - 1])
  }

  /** parseGitConfig over the lines the scanner yields. */
  function Parse(lines: seq<string>): Result<Tree> {
    match Fold(Ok(Start), lines)
    case Ok(st) => Ok(st.tree)
    case Err(e) => Err(e)
  }

  // ---------------------------------------------------------------------
  // Properties of the scan

  lemma {:induction false} FoldFailed(e: Error, lines: seq<string>)
    ensures Fold(Err(e), lines) == Err(e)
    decreases |lines|
  {
    if |lines| > 0 {
      FoldFailed(e, lines[..|lines| - 1]);
    }
  }

  /** Scanning a + b is scanning a, then b from where a left off. */
  lemma {:induction false} FoldAppend(r: Result<ParseState>, a: seq<string>, b: seq<string>)
    ensures Fold(r, a + b) == Fold(Fold(r, a), b)
    decreases |b|
  {
    if |b| == 0 {
      assert a + b == a;
    } else {
      DropLastOfAppend(a, b);
      FoldAppend(r, a, b[..|b| - 1]);
    }
  }

  /** The scan of one more line is one more Step. */
  lemma FoldNext(lines: seq<string>, i: nat)
    requires i < |lines|
    ensures Fold(Ok(Start), lines[..i + 1]) == Then(Fold(Ok(Start), lines[..i]), lines[i])
  {
    TakeOfTake(lines, i);
  }

  /** The scan fails only by panicking: on the line "[", or on a section
      written with both shapes. */
  lemma {:induction false} FoldErrors(lines: seq<string>)
    ensures Fold(Ok(Start), lines).Err? ==>
              Fold(Ok(Start), lines).error == SliceBoundsPanic || Fold(Ok(Start), lines).error.ShapePanic?
    decreases |lines|
  {
    if |lines| > 0 {
      FoldErrors(lines[..|lines| - 1]);
    }
  }

  lemma ParseErrors(lines: seq<string>)
    ensures Parse(lines).Err? ==> Parse(lines).error == SliceBoundsPanic || Parse(lines).error.ShapePanic?
  {
    FoldErrors(lines);
  }

  /** A failing line ends the parse with its error whatever follows. */
  lemma ParseStopsAtLine(lines: seq<string>, i: nat, st: ParseState, e: Error)
    requires i < |lines| && Fold(Ok(Start), lines[..i]) == Ok(st) && Step(st, lines[i]) == Err(e)
    ensures Parse(lines) == Err(e)
  {
    FoldNext(lines, i);
    assert Fold(Ok(Start), lines[..i + 1]) == Err(e);
    FoldAppend(Ok(Start), lines[..i + 1], lines[i + 1..]);
    TakeDrop(lines, i + 1);
    FoldFailed(e, lines[i + 1..]);
  }

  // Sequence identities, stated over any element type so that their proofs
  // see no strings.

  lemma TakeDrop<T>(s: seq<T>, n: nat)
    requires n <= |s|
    ensures s[..n] + s[n..] == s
  {
  }

  lemma TakeAll<T>(s: seq<T>)
    ensures s[..|s|] == s
  {
  }

  lemma TakeOfTake<T>(s: seq<T>, n: nat)
    requires n < |s|
    ensures s[..n + 1][..n] == s[..n]
  {
  }

  lemma DropLastOfAppend<T>(a: seq<T>, b: seq<T>)
    requires |b| > 0
    ensures (a + b)[..|a + b| - 1] == a + b[..|b| - 1]
  {
  }

  lemma DropLastOfSnoc<T>(a: seq<T>, x: T)
    ensures (a + [x])[..|a + [x]| - 1] == a
  {
  }

  /** Lines the scan passes over without any effect. */
  predicate Inert(raw: string) {
    Classify(raw).Skip? || Classify(raw).Unrecognised?
  }

  /** A line is inert exactly when, once trimmed, it is empty, a ';' or '#'
      comment, or neither a header nor a line with '='. */
  lemma InertLines(raw: string)
    ensures var line := TrimSpace(raw);
      Inert(raw) <==> (|line| == 0 || line[0] in {';', '#'} || (line[0] != '[' && '=' !in line))
  {
  }

  /** Blank lines, comments and unrecognised lines change neither the tree
      nor the current section and subsection. */
  lemma StepInert(st: ParseState, raw: string)
    requires Inert(raw)
    ensures Step(st, raw) == Ok(st)
  {
  }

  /** Removing an inert line anywhere does not change the result of the parse. */
  lemma ParseIgnoresInert(a: seq<string>, raw: string, b: seq<string>)
    requires Inert(raw)
    ensures Parse(a + [raw] + b) == Parse(a + b)
  {
    FoldAppend(Ok(Start), a + [raw], b);
    FoldAppend(Ok(Start), a, b);
    DropLastOfSnoc(a, raw);
    var r := Fold(Ok(Start), a);
    match r
    case Ok(st) => StepInert(st, raw);
    case Err(_) =>
  }

  /** Every Step keeps the tree well formed. */
  lemma StepWellFormed(st: ParseState, raw: string)
    requires WellFormed(st.tree)
    ensures Step(st, raw).Ok? ==> WellFormed(Step(st, raw).value.tree)
  {
    ApplyWellFormed(st, Classify(raw));
  }

  lemma ApplyWellFormed(st: ParseState, line: Line)
    requires WellFormed(st.tree)
    ensures Apply(st, line).Ok? ==> WellFormed(Apply(st, line).value.tree)
  {
  }

  /** A line classified as an entry is applied as that entry. */
  lemma StepAssign(st: ParseState, raw: string, key: string, value: string)
    requires Classify(raw) == Assign(key, value)
    ensures Step(st, raw) == Apply(st, Assign(key, value))
  {
  }

  lemma {:induction false} FoldWellFormed(lines: seq<string>)
    ensures Fold(Ok(Start), lines).Ok? ==> WellFormed(Fold(Ok(Start), lines).value.tree)
    decreases |lines|
  {
    if |lines| > 0 {
      var init := lines[..|lines| - 1];
      FoldWellFormed(init);
      var r := Fold(Ok(Start), init);
      if r.Ok? {
        StepWellFormed(r.value, lines[|lines| - 1]);
      }
    }
  }

  /** Whatever the parser returns is well formed. */
  lemma ParseWellFormed(lines: seq<string>)
    ensures Parse(lines).Ok? ==> WellFormed(Parse(lines).value)
  {
    FoldWellFormed(lines);
  }

  // ---------------------------------------------------------------------
  // Section headers

  /** A header only moves the current section and subsection; the tree is
      left as it is, so a repeated header continues (merges into) its section. */
  lemma HeaderKeepsTree(st: ParseState, raw: string)
    requires Classify(raw).Header?
    ensures Step(st, raw) == Ok(ParseState(Classify(raw).section, Classify(raw).subsection, st.tree))
  {
  }

  /** A line that trims to "[" is the slice-bounds panic of `line[1:0]`. */
  lemma LoneBracketPanics(st: ParseState, raw: string)
    requires TrimSpace(raw) == "["
    ensures Step(st, raw) == Err(SliceBoundsPanic)
  {
  }

  /** A line that starts with '[' and has no surrounding whitespace. */
  lemma BracketLineTrims(inner: string, last: char)
    requires last !in Spaces
    ensures TrimSpace(['['] + inner + [last]) == ['['] + inner + [last]
  {
    var m := ['['] + inner + [last];
    assert [] + m + [] == m;
    TrimRecovers([], m, [], Spaces);
  }

  /** `[section]` and `[section "subsection"]`: the section is the text up to
      the first space, the subsection is the second space-separated token with
      its quotes trimmed (empty when there is none), later tokens are dropped,
      and the last character is never checked to be ']'. */
  lemma HeaderFields(section: string, rest: seq<string>, last: char)
    requires last !in Spaces
    requires ' ' !in section
    requires forall i :: 0 <= i < |rest| ==> ' ' !in rest[i]
    ensures Classify(['['] + Join([section] + rest, ' ') + [last])
         == Header(section, if |rest| > 0 then TrimQuotes(rest[0]) else "")
  {
    var parts := [section] + rest;
    var inner := Join(parts, ' ');
    var line := ['['] + inner + [last];
    BracketLineTrims(inner, last);
    TrimmedLine(line);
    ClassifiedAsHeader(line);
    assert line[1..|line| - 1] == inner;
    assert forall i :: 0 < i < |parts| ==> parts[i] == rest[i - 1];
    SplitJoin(parts, ' ');
    assert Split(line[1..|line| - 1], ' ') == parts;
  }

  /** A line that trims to itself is classified as it stands. */
  lemma TrimmedLine(raw: string)
    requires TrimSpace(raw) == raw
    ensures Classify(raw) == ClassifyTrimmed(raw)
  {
  }

  /** A trimmed line that opens with '[' is a header. */
  lemma ClassifiedAsHeader(line: string)
    requires line != [] && line[0] == '['
    ensures ClassifyTrimmed(line) == HeaderOf(line)
  {
  }

  lemma QuotesTrimmed(sub: string)
    requires '"' !in sub
    ensures TrimQuotes("\"" + sub + "\"") == sub
  {
    assert Untrimmable(sub, Quotes);
    TrimRecovers("\"", sub, "\"", Quotes);
  }

  lemma QualifiedHeaderText(section: string, subsection: string)
    ensures "[" + section + " \"" + subsection + "\"]"
         == ['['] + Join([section, "\"" + subsection + "\""], ' ') + [']']
  {
    var quoted := "\"" + subsection + "\"";
    assert Join([section, quoted], ' ') == section + " " + quoted by {
      assert [section, quoted][1..] == [quoted];
    }
  }

  /** `[section "subsection"]` with the usual closing bracket. */
  lemma QualifiedHeader(st: ParseState, section: string, subsection: string)
    requires ' ' !in section && ' ' !in subsection && '"' !in subsection
    ensures Step(st, "[" + section + " \"" + subsection + "\"]")
         == Ok(ParseState(section, subsection, st.tree))
  {
    var quoted := "\"" + subsection + "\"";
    var line := "[" + section + " \"" + subsection + "\"]";
    assert ' ' !in quoted;
    QualifiedHeaderText(section, subsection);
    assert [section] + [quoted] == [section, quoted];
    HeaderFields(section, [quoted], ']');
    QuotesTrimmed(subsection);
    assert Classify(line) == Header(section, subsection);
    HeaderKeepsTree(st, line);
  }

  /** `[section]`: a flat section. */
  lemma FlatHeader(st: ParseState, section: string)
    requires ' ' !in section
    ensures Step(st, "[" + section + "]") == Ok(ParseState(section, "", st.tree))
  {
    var line := "[" + section + "]";
    assert [section] + [] == [section];
    assert Join([section], ' ') == section;
    assert line == ['['] + Join([section] + [], ' ') + [']'];
    HeaderFields(section, [], ']');
    assert Classify(line) == Header(section, "");
    HeaderKeepsTree(st, line);
  }

  // ---------------------------------------------------------------------
  // Key/value lines

  /** `key = value`: split at the first '=', so the value keeps any further
      '=', its quotes and its inner whitespace; only the key loses quotes. */
  lemma AssignFields(k: string, v: string)
    requires '=' !in k
    requires var tk := TrimSpace(k); tk == [] || tk[0] !in {'[', ';', '#'}
    ensures Classify(k + "=" + v) == Assign(TrimQuotes(TrimSpace(k)), TrimSpace(v))
  {
    var kl, vr := TrimLeft(k, Spaces), TrimRight(v, Spaces);
    TrimSpaceAroundEquals(k, v);
    var line := kl + "=" + vr;
    assert line[0] == if kl == [] then '=' else kl[0];
    assert kl != [] ==> TrimSpace(k) != [] && TrimSpace(k)[0] == kl[0];
    assert line[|kl|] == '=';
    ClassifiedAsAssign(k + "=" + v);
    AssignOfParts(k, v);
  }

  /** A trimmed line that is not blank, a comment or a header and holds '='
      is a key/value line. */
  lemma ClassifiedAsAssign(raw: string)
    requires var line := TrimSpace(raw);
      line != [] && line[0] !in {'[', ';', '#'} && '=' in line
    ensures Classify(raw) == AssignOf(TrimSpace(raw))
  {
  }

  /** The two sides of the trimmed `k = v` give back the trimmed key and value. */
  lemma AssignOfParts(k: string, v: string)
    requires '=' !in k
    ensures AssignOf(TrimLeft(k, Spaces) + "=" + TrimRight(v, Spaces))
         == Assign(TrimQuotes(TrimSpace(k)), TrimSpace(v))
  {
    var kl, vr := TrimLeft(k, Spaces), TrimRight(v, Spaces);
    TrimSpaceOfTrimmed(k, v);
    assert '=' !in kl;
    CutUnique(kl + "=" + vr, kl, vr, '=');
  }

  /** Cut is determined by the first occurrence of the separator. */
  lemma {:induction false} CutUnique(s: string, before: string, after: string, sep: char)
    requires sep !in before && s == before + [sep] + after
    ensures sep in s && Cut(s, sep) == (before, after)
    decreases |before|
  {
    assert s[|before|] == sep;
    if |before| > 0 {
      assert s[1..] == before[1..] + [sep] + after;
      CutUnique(s[1..], before[1..], after, sep);
      assert [before[0]] + before[1..] == before;
    } else {
      assert s[1..] == after;
    }
  }

  /** A key/value line writes that one entry under the current section and
      subsection; nothing else in the tree changes, and a repeated key
      overwrites the value written before. */
  lemma AssignWritesOneEntry(st: ParseState, raw: string)
    requires Classify(raw).Assign? && Step(st, raw).Ok?
    ensures var t := Step(st, raw).value.tree;
      forall s, sub, key {:trigger Get(t, s, sub, key)} ::
        Get(t, s, sub, key) ==
          if s == st.section && sub == st.subsection && key == Classify(raw).key
          then Some(Classify(raw).value) else Get(st.tree, s, sub, key)
    ensures Step(st, raw).value.section == st.section
    ensures Step(st, raw).value.subsection == st.subsection
  {
    var line := Classify(raw);
    StepAssign(st, raw, line.key, line.value);
    ApplyAssign(st, line.key, line.value);
  }

  /** A key/value line fails exactly when the current section already has the
      other shape: the type assertion panics, nothing is merged or overwritten. */
  lemma AssignShapeConflict(st: ParseState, raw: string)
    requires Classify(raw).Assign?
    ensures Step(st, raw).Err? <==>
              st.section in st.tree &&
              (if st.subsection == "" then st.tree[st.section].Qualified? else st.tree[st.section].Flat?)
    ensures Step(st, raw).Err? ==> Step(st, raw).error == ShapePanic(st.section)
  {
    var line := Classify(raw);
    StepAssign(st, raw, line.key, line.value);
    ApplyAssign(st, line.key, line.value);
  }

  /** Applying an entry is the nested insert under the current section and
      subsection, which stay as they were. */
  lemma ApplyAssign(st: ParseState, key: string, value: string)
    ensures Apply(st, Assign(key, value)).Err? <==>
              st.section in st.tree &&
              (if st.subsection == "" then st.tree[st.section].Qualified? else st.tree[st.section].Flat?)
    ensures Apply(st, Assign(key, value)).Err? ==> Apply(st, Assign(key, value)).error == ShapePanic(st.section)
    ensures Apply(st, Assign(key, value)).Ok? ==>
              Apply(st, Assign(key, value)).value ==
                st.(tree := Insert(st.tree, st.section, st.subsection, key, value).value)
  {
  }

  /** Before any header, entries go to the flat section "". */
  lemma EntryBeforeHeader(raw: string)
    requires Classify(raw).Assign?
    ensures Parse([raw]) == Ok(map["" := Flat(map[Classify(raw).key := Classify(raw).value])])
  {
    assert [raw][..0] == [];
    assert Fold(Ok(Start), [raw]) == Step(Start, raw);
  }
}
