/** Writing entries as `.git/config` text and reading them back with the
    parser: each entry becomes a section header followed by one
    `<TAB>key = value` line, as git writes them. */
module ConfigText {
  import opened Failures
  import opened GoStrings
  import opened GitConfig
  import opened ConfigLookup
  import opened Repos

  /** One stored value with the place it is stored at; an empty subsection
      stands for a flat section. */
  datatype Entry = Entry(section: string, subsection: string, key: string, value: string)

  /** An entry whose text the parser reads back as it was written: names
      without the characters that split or trim a header, a key that
      trimming leaves alone, a value without surrounding whitespace. */
  ghost predicate Writable(e: Entry) {
    && ' ' !in e.section
    && ' ' !in e.subsection && '"' !in e.subsection
    && PlainKey(e.key) && Untrimmable(e.value, Spaces)
  }

  ghost predicate AllWritable(es: seq<Entry>) {
    forall i :: 0 <= i < |es| ==> Writable(es[i])
  }

  /** `[section]` or `[section "subsection"]`. */
  function HeaderText(section: string, subsection: string): string {
    if subsection == "" then "[" + section + "]" else "[" + section + " \"" + subsection + "\"]"
  }

  function EntryLines(e: Entry): seq<string> {
    [HeaderText(e.section, e.subsection), "\t" + e.key + " = " + e.value]
  }

  /** The text of the entries, in order. */
  function Render(es: seq<Entry>): (lines: seq<string>)
    ensures |lines| == 2 * |es|
    decreases |es|
  {
    if |es| == 0 then [] else Render(es[..|es| - 1]) + EntryLines(es[|es| - 1])
  }

  /** The tree the entries describe: each inserted in turn, as the nested
      insert does it. */
  function Build(es: seq<Entry>): Result<Tree>
    decreases |es|
  {
    if |es| == 0 then Ok(map[])
    else
      var e := es[|es| - 1];
      match Build(es[..|es| - 1])
      case Ok(t) => Insert(t, e.section, e.subsection, e.key, e.value)
      case Err(x) => Err(x)
  }

  /** The value written last for a place, if any. */
  function LastValue(es: seq<Entry>, s: string, sub: string, k: string): (r: Option<string>)
    ensures r.Some? ==> exists i :: 0 <= i < |es| && es[i] == Entry(s, sub, k, r.value)
    ensures r.None? ==> forall i :: 0 <= i < |es| ==> !(es[i].section == s && es[i].subsection == sub && es[i].key == k)
    decreases |es|
  {
    if |es| == 0 then None
    else
      var e := es[|es| - 1];
      if e.section == s && e.subsection == sub && e.key == k then Some(e.value)
      else LastValue(es[..|es| - 1], s, sub, k)
  }

  /** No section is written both with and without a subsection. */
  ghost predicate Consistent(es: seq<Entry>) {
    forall i, j :: 0 <= i < |es| && 0 <= j < |es| && es[i].section == es[j].section ==>
      (es[i].subsection == "") == (es[j].subsection == "")
  }

  // ---------------------------------------------------------------------
  // Parsing the text

  /** A header line followed by an entry line: the current section and
      subsection move to the entry's, and the nested insert writes it. */
  lemma EntryLinesParse(st: ParseState, e: Entry)
    requires Writable(e)
    ensures Fold(Ok(st), EntryLines(e)) ==
              match Insert(st.tree, e.section, e.subsection, e.key, e.value)
              case Ok(t) => Ok(ParseState(e.section, e.subsection, t))
              case Err(x) => Err(x)
  {
    HeaderThenEntry(st, e);
  }

  /** The header line moves to the entry's section, and the entry line is
      then an assignment of its key and value. */
  lemma HeaderThenEntry(st: ParseState, e: Entry)
    requires Writable(e)
    ensures Fold(Ok(st), EntryLines(e)) ==
              Apply(ParseState(e.section, e.subsection, st.tree), Assign(e.key, e.value))
  {
    var header, entry := HeaderText(e.section, e.subsection), "\t" + e.key + " = " + e.value;
    var moved := ParseState(e.section, e.subsection, st.tree);
    FoldTwo(st, header, entry);
    assert Step(st, header) == Ok(moved) by {
      if e.subsection == "" {
        FlatHeader(st, e.section);
      } else {
        QualifiedHeader(st, e.section, e.subsection);
      }
    }
    assert Step(moved, entry) == Apply(moved, Assign(e.key, e.value)) by {
      EntryLine(e.key, e.value);
      StepAssign(moved, entry, e.key, e.value);
    }
  }

  /** Two lines are two Steps. */
  lemma FoldTwo(st: ParseState, a: string, b: string)
    ensures Fold(Ok(st), [a, b]) == Then(Step(st, a), b)
  {
    assert [a, b][..1] == [a] && [a][..0] == [];
    assert Fold(Ok(st), [a]) == Then(Ok(st), a);
  }

  /** Parsing the rendered entries builds the tree they describe, or fails
      with the same shape panic. */
  lemma {:induction false} RenderFolds(es: seq<Entry>)
    requires AllWritable(es)
    ensures Build(es).Ok? <==> Fold(Ok(Start), Render(es)).Ok?
    ensures Build(es).Ok? ==> Fold(Ok(Start), Render(es)).value.tree == Build(es).value
    ensures Build(es).Err? ==> Fold(Ok(Start), Render(es)) == Err(Build(es).error)
    decreases |es|
  {
    if |es| > 0 {
      var init, e := es[..|es| - 1], es[|es| - 1];
      assert AllWritable(init);
      RenderFolds(init);
      FoldAppend(Ok(Start), Render(init), EntryLines(e));
      var r := Fold(Ok(Start), Render(init));
      match r
      case Ok(st) =>
        EntryLinesParse(st, e);
      case Err(x) =>
        FoldFailed(x, EntryLines(e));
    }
  }

  /** The round trip: the parse of the rendered entries is the tree built
      from them. */
  lemma RoundTrip(es: seq<Entry>)
    requires AllWritable(es)
    ensures Parse(Render(es)) == Build(es)
  {
    RenderFolds(es);
  }

  // ---------------------------------------------------------------------
  // What the built tree holds

  /** `t` holds exactly the sections written in `es`, each with the shape
      its entries were written with. */
  ghost predicate Describes(t: Tree, es: seq<Entry>) {
    && (forall s :: s in t ==> exists i :: 0 <= i < |es| && es[i].section == s)
    && (forall i :: 0 <= i < |es| ==> es[i].section in t && (t[es[i].section].Flat? <==> es[i].subsection == ""))
  }

  /** A successful insert adds its section with the shape its subsection
      selects, and leaves the other sections as they were. */
  lemma InsertShape(t: Tree, section: string, subsection: string, key: string, value: string)
    requires Insert(t, section, subsection, key, value).Ok?
    ensures var u := Insert(t, section, subsection, key, value).value;
      && u.Keys == t.Keys + {section}
      && (u[section].Flat? <==> subsection == "")
      && (section in t ==> (t[section].Flat? <==> subsection == ""))
      && (forall s :: s in t && s != section ==> u[s] == t[s])
  {
  }

  lemma InsertDescribes(t: Tree, es: seq<Entry>, e: Entry, u: Tree)
    requires Describes(t, es)
    requires Insert(t, e.section, e.subsection, e.key, e.value) == Ok(u)
    ensures Describes(u, es + [e])
  {
    var es' := es + [e];
    InsertShape(t, e.section, e.subsection, e.key, e.value);
    forall s | s in u ensures exists i :: 0 <= i < |es'| && es'[i].section == s {
      if s == e.section {
        assert es'[|es|].section == s;
      } else {
        var i :| 0 <= i < |es| && es[i].section == s;
        assert es'[i].section == s;
      }
    }
    forall i | 0 <= i < |es'|
      ensures es'[i].section in u && (u[es'[i].section].Flat? <==> es'[i].subsection == "")
    {
      if i < |es| {
        var x := es[i];
        assert es'[i] == x && x.section in t;
        if x.section != e.section {
          assert u[x.section] == t[x.section];
        }
      }
    }
  }

  /** The sections of a built tree are the sections written, each with the
      shape of the entries written to it. */
  lemma {:induction false} BuildSections(es: seq<Entry>)
    requires Build(es).Ok?
    ensures Describes(Build(es).value, es)
    decreases |es|
  {
    if |es| > 0 {
      var init, e := es[..|es| - 1], es[|es| - 1];
      var t, u := Build(init).value, Build(es).value;
      assert Insert(t, e.section, e.subsection, e.key, e.value) == Ok(u);
      assert init + [e] == es;
      assert Describes(u, init + [e]) by {
        BuildSections(init);
        InsertDescribes(t, init, e, u);
      }
    }
  }

  /** One more entry keeps the entries consistent exactly when its section
      is new or already has the shape the entry selects. */
  lemma ConsistentStep(t: Tree, es: seq<Entry>, e: Entry)
    requires Describes(t, es) && Consistent(es)
    ensures Consistent(es + [e]) <==>
              (e.section !in t || (t[e.section].Flat? <==> e.subsection == ""))
  {
    var es' := es + [e];
    if e.section in t && (t[e.section].Flat? != (e.subsection == "")) {
      var i :| 0 <= i < |es| && es[i].section == e.section;
      assert es'[i] == es[i] && es'[|es|] == e;
    } else {
      forall i, j | 0 <= i < |es'| && 0 <= j < |es'| && es'[i].section == es'[j].section
        ensures (es'[i].subsection == "") == (es'[j].subsection == "")
      {
        if i < |es| { assert es'[i] == es[i]; }
        if j < |es| { assert es'[j] == es[j]; }
      }
    }
  }

  /** The build fails exactly when some section is written both with and
      without a subsection, and then with the shape panic. */
  lemma {:induction false} BuildFailsOnMixedShapes(es: seq<Entry>)
    ensures Build(es).Ok? <==> Consistent(es)
    ensures Build(es).Err? ==> Build(es).error.ShapePanic?
    decreases |es|
  {
    if |es| > 0 {
      var init, e := es[..|es| - 1], es[|es| - 1];
      BuildFailsOnMixedShapes(init);
      assert init + [e] == es;
      if Build(init).Ok? {
        BuildSections(init);
        ConsistentStep(Build(init).value, init, e);
      } else {
        assert !Consistent(init);
        var i, j :| 0 <= i < |init| && 0 <= j < |init| && init[i].section == init[j].section &&
                    (init[i].subsection == "") != (init[j].subsection == "");
        assert es[i] == init[i] && es[j] == init[j];
      }
    }
  }

  /** Every place of a built tree holds the value written there last, and
      nothing is stored where nothing was written. */
  lemma {:induction false} BuildHoldsLastValues(es: seq<Entry>, s: string, sub: string, k: string)
    requires Build(es).Ok?
    ensures Get(Build(es).value, s, sub, k) == LastValue(es, s, sub, k)
    decreases |es|
  {
    if |es| > 0 {
      BuildHoldsLastValues(es[..|es| - 1], s, sub, k);
    }
  }

  /** Reading rendered text back through GetConfigValue: a path whose parts
      hold no '.' resolves to exactly the value written last for it. */
  lemma RenderedLookup(es: seq<Entry>, s: string, sub: string, k: string, v: string)
    requires AllWritable(es) && Consistent(es)
    requires '.' !in s && '.' !in sub && '.' !in k
    ensures Parse(Render(es)).Ok?
    ensures sub == "" ==>
              (GetConfigValue(Parse(Render(es)).value, s + "." + k) == Ok(v) <==> LastValue(es, s, "", k) == Some(v))
    ensures sub != "" ==>
              (GetConfigValue(Parse(Render(es)).value, s + "." + sub + "." + k) == Ok(v) <==> LastValue(es, s, sub, k) == Some(v))
  {
    RoundTrip(es);
    BuildFailsOnMixedShapes(es);
    var t := Build(es).value;
    BuildHoldsLastValues(es, s, sub, k);
    ParseWellFormed(Render(es));
    if sub == "" {
      FlatLookupExact(t, s, k, v);
    } else {
      QualifiedLookupExact(t, s, sub, k, v);
    }
  }
}
