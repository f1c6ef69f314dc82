/** `GetConfigValue`: resolving a dotted path `section.key` or
    `section.subsection.key` against a parsed configuration tree. */
module ConfigLookup {
  import opened Failures
  import opened GoStrings
  import opened GitConfig

  /** repos.go:22-58 (identical at main.go:114-150). The single-value type
      assertions on the section panic when the path has the other shape. */
  function GetConfigValue(t: Tree, path: string): Result<string> {
    var parts := Split(path, '.');
    if |parts| < 2 then Err(TooFewParts)
    else
      var section := parts[0];
      if section !in t then Err(SectionNotFound(section))
      else if |parts| == 2 then
        match t[section]
        case Qualified(_) => Err(ShapePanic(section))
        case Flat(m) =>
          if parts[1] in m then Ok(m[parts[1]]) else Err(KeyNotFound(parts[1], section))
      else if |parts| == 3 then
        match t[section]
        case Flat(_) => Err(ShapePanic(section))
        case Qualified(subs) =>
          if parts[1] !in subs then Err(SubsectionNotFound(parts[1], section))
          else if parts[2] in subs[parts[1]] then Ok(subs[parts[1]][parts[2]])
          else Err(SubsectionKeyNotFound(parts[2], parts[1], section))
      else Err(TooManyParts)
  }

  /** `section.key` and `section.subsection.key` as dotted paths. */
  lemma SplitTwo(s: string, k: string)
    requires '.' !in s && '.' !in k
    ensures Split(s + "." + k, '.') == [s, k]
  {
    SplitAfterPart(s, '.', k);
    SplitWithoutSeparator(k, '.');
  }

  lemma SplitThree(s: string, sub: string, k: string)
    requires '.' !in s && '.' !in sub && '.' !in k
    ensures Split(s + "." + sub + "." + k, '.') == [s, sub, k]
  {
    var tail := sub + "." + k;
    assert s + "." + sub + "." + k == s + ['.'] + tail;
    SplitAfterPart(s, '.', tail);
    SplitTwo(sub, k);
  }

  /** A two-part path returns exactly the value stored in the flat section,
      and succeeds only for a stored entry. */
  lemma FlatLookupExact(t: Tree, s: string, k: string, v: string)
    requires '.' !in s && '.' !in k
    ensures GetConfigValue(t, s + "." + k) == Ok(v) <==> Get(t, s, "", k) == Some(v)
  {
    SplitTwo(s, k);
  }

  /** A three-part path returns exactly the value stored in the subsection,
      and succeeds only for a stored entry. */
  lemma QualifiedLookupExact(t: Tree, s: string, sub: string, k: string, v: string)
    requires '.' !in s && '.' !in sub && '.' !in k && sub != ""
    ensures GetConfigValue(t, s + "." + sub + "." + k) == Ok(v) <==> Get(t, s, sub, k) == Some(v)
  {
    SplitThree(s, sub, k);
  }

  /** Every successful lookup names a stored entry: the path is the dotted
      join of its section, subsection (if any) and key, none of which holds a
      '.', so an entry under a subsection whose name contains '.' is never
      reachable. */
  lemma LookupSound(t: Tree, path: string)
    requires WellFormed(t)
    requires GetConfigValue(t, path).Ok?
    ensures var parts := Split(path, '.');
      && (|parts| == 2 || |parts| == 3)
      && (forall i :: 0 <= i < |parts| ==> '.' !in parts[i])
      && path == Join(parts, '.')
      && (|parts| == 2 ==> Get(t, parts[0], "", parts[1]) == Some(GetConfigValue(t, path).value))
      && (|parts| == 3 ==> parts[1] != "" && Get(t, parts[0], parts[1], parts[2]) == Some(GetConfigValue(t, path).value))
  {
  }

  /** A path with fewer than two or more than three parts never resolves,
      and is reported as a format error once its section exists. */
  lemma WrongArityFails(t: Tree, path: string)
    requires var n := |Split(path, '.')|; n < 2 || n > 3
    ensures GetConfigValue(t, path).Err?
    ensures !GetConfigValue(t, path).error.IsPanic()
    ensures |Split(path, '.')| < 2 ==> GetConfigValue(t, path) == Err(TooFewParts)
    ensures |Split(path, '.')| > 3 && Split(path, '.')[0] in t ==> GetConfigValue(t, path) == Err(TooManyParts)
  {
  }

  /** A path of the right shape whose entry is absent fails with a typed
      not-found error; it panics only when the section has the other shape. */
  lemma MissingEntryFails(t: Tree, s: string, k: string)
    requires '.' !in s && '.' !in k
    requires Get(t, s, "", k).None?
    ensures GetConfigValue(t, s + "." + k).Err?
    ensures GetConfigValue(t, s + "." + k).error ==
              if s !in t then SectionNotFound(s)
              else if t[s].Qualified? then ShapePanic(s)
              else KeyNotFound(k, s)
  {
    SplitTwo(s, k);
  }

  lemma MissingQualifiedEntryFails(t: Tree, s: string, sub: string, k: string)
    requires '.' !in s && '.' !in sub && '.' !in k && sub != ""
    requires Get(t, s, sub, k).None?
    ensures GetConfigValue(t, s + "." + sub + "." + k).Err?
    ensures GetConfigValue(t, s + "." + sub + "." + k).error ==
              if s !in t then SectionNotFound(s)
              else if t[s].Flat? then ShapePanic(s)
              else if sub !in t[s].subsections then SubsectionNotFound(sub, s)
              else SubsectionKeyNotFound(k, sub, s)
  {
    SplitThree(s, sub, k);
  }
}
