/** The few functions of Go's `strings` package the config parser relies on,
    over strings as sequences of characters (runes). */
module GoStrings {

  /** unicode.IsSpace: the Latin-1 spaces '\t', '\n', '\v', '\f', '\r', ' ',
      U+0085 and U+00A0, and the other White_Space code points. */
  predicate IsSpace(c: char) {
    || ('\t' <= c <= '\r') || c == ' ' || c == '\U{85}' || c == '\U{A0}' || c == '\U{1680}'
    || ('\U{2000}' <= c <= '\U{200A}') || c == '\U{2028}' || c == '\U{2029}'
    || c == '\U{202F}' || c == '\U{205F}' || c == '\U{3000}'
  }

  /** The characters strings.TrimSpace removes. */
  const Spaces: set<char> := set c: char | '\t' <= c <= '\U{3000}' && IsSpace(c)

  /** The cutset "\"". */
  const Quotes: set<char> := {'"'}

  /** The first index at or after `i` whose character is not in `cut`. */
  function KeptFrom(s: string, cut: set<char>, i: nat): (r: nat)
    requires i <= |s|
    ensures i <= r <= |s|
    ensures forall j :: i <= j < r ==> s[j] in cut
    ensures r == |s| || s[r] !in cut
    decreases |s| - i
  {
    if i < |s| && s[i] in cut then KeptFrom(s, cut, i + 1) else i
  }

  /** The end of the longest prefix of `s[..j]` that does not end in `cut`. */
  function KeptUntil(s: string, cut: set<char>, j: nat): (r: nat)
    requires j <= |s|
    ensures r <= j
    ensures forall i :: r <= i < j ==> s[i] in cut
    ensures r == 0 || s[r - 1] !in cut
    decreases j
  {
    if j > 0 && s[j - 1] in cut then KeptUntil(s, cut, j - 1) else j
  }

  /** strings.TrimLeft(s, cutset) */
  function TrimLeft(s: string, cut: set<char>): (r: string)
    ensures |r| <= |s| && r == s[|s| - |r|..]
    ensures forall i :: 0 <= i < |s| - |r| ==> s[i] in cut
    ensures r == [] || r[0] !in cut
  {
    s[KeptFrom(s, cut, 0)..]
  }

  /** strings.TrimRight(s, cutset) */
  function TrimRight(s: string, cut: set<char>): (r: string)
    ensures |r| <= |s| && r == s[..|r|]
    ensures forall i :: |r| <= i < |s| ==> s[i] in cut
    ensures r == [] || r[|r| - 1] !in cut
  {
    s[..KeptUntil(s, cut, |s|)]
  }

  /** strings.Trim(s, cutset): both ends. */
  function Trim(s: string, cut: set<char>): string {
    TrimRight(TrimLeft(s, cut), cut)
  }

  /** strings.TrimSpace */
  function TrimSpace(s: string): string {
    Trim(s, Spaces)
  }

  /** strings.Trim(s, "\"") */
  function TrimQuotes(s: string): string {
    Trim(s, Quotes)
  }

  /** Every character of `s` is in `cut`. */
  ghost predicate AllIn(s: string, cut: set<char>) {
    forall i :: 0 <= i < |s| ==> s[i] in cut
  }

  /** `m` neither starts nor ends with a character of `cut`. */
  ghost predicate Untrimmable(m: string, cut: set<char>) {
    m == [] || (m[0] !in cut && m[|m| - 1] !in cut)
  }

  /** Trimming recovers the middle of `lead + m + trail` whenever the edges are
      in the cutset and `m` neither starts nor ends with a character of it. */
  lemma TrimRecovers(lead: string, m: string, trail: string, cut: set<char>)
    requires AllIn(lead, cut) && AllIn(trail, cut) && Untrimmable(m, cut)
    ensures Trim(lead + m + trail, cut) == m
  {
    var s := lead + m + trail;
    var l := TrimLeft(s, cut);
    var k := |s| - |l|;
    if m == [] {
      assert AllIn(s, cut) by {
        forall i | 0 <= i < |s| ensures s[i] in cut {
          if i < |lead| { assert s[i] == lead[i]; } else { assert s[i] == trail[i - |lead|]; }
        }
      }
      assert TrimRight(l, cut) == [];
    } else {
      assert s[|lead|] !in cut;
      assert k == |lead|;
      assert l == m + trail;
      var r := TrimRight(l, cut);
      assert l[|m| - 1] !in cut;
      assert |r| == |m|;
      assert r == l[..|m|] == m;
    }
  }

  /** The characters Trim removes from the front of `s`. */
  function Leading(s: string, cut: set<char>): string {
    s[..|s| - |TrimLeft(s, cut)|]
  }

  /** The characters Trim removes from the back of `s`. */
  function Trailing(s: string, cut: set<char>): string {
    var l := TrimLeft(s, cut);
    l[|TrimRight(l, cut)|..]
  }

  lemma TrimmedAwayIsCut(s: string, cut: set<char>)
    ensures AllIn(Leading(s, cut), cut) && AllIn(Trailing(s, cut), cut)
  {
  }

  lemma TrimmedIsUntrimmable(s: string, cut: set<char>)
    ensures Untrimmable(Trim(s, cut), cut)
  {
    var l := TrimLeft(s, cut);
    var m := TrimRight(l, cut);
    assert m != [] ==> m[0] == l[0];
  }

  /** Every string is its trimmed middle with cutset characters around it. */
  lemma TrimSplits(s: string, cut: set<char>)
    ensures AllIn(Leading(s, cut), cut) && AllIn(Trailing(s, cut), cut)
    ensures s == Leading(s, cut) + Trim(s, cut) + Trailing(s, cut)
    ensures Untrimmable(Trim(s, cut), cut)
  {
    TrimmedAwayIsCut(s, cut);
    TrimmedIsUntrimmable(s, cut);
    var l := TrimLeft(s, cut);
    var m := TrimRight(l, cut);
    assert l == m + l[|m|..];
  }

  lemma AllInConcat(a: string, b: string, cut: set<char>)
    requires AllIn(a, cut) && AllIn(b, cut)
    ensures AllIn(a + b, cut)
  {
    forall i | 0 <= i < |a + b| ensures (a + b)[i] in cut {
      if i < |a| { assert (a + b)[i] == a[i]; } else { assert (a + b)[i] == b[i - |a|]; }
    }
  }

  /** Cutset characters added at the end are trimmed away. */
  lemma TrimIgnoresCutSuffix(x: string, y: string, cut: set<char>)
    requires AllIn(y, cut)
    ensures Trim(x + y, cut) == Trim(x, cut)
  {
    var a, m, b := Leading(x, cut), Trim(x, cut), Trailing(x, cut);
    assert AllIn(a, cut) && AllIn(b, cut) && Untrimmable(m, cut) && x == a + m + b by {
      TrimSplits(x, cut);
    }
    Regroup(a, m, b, [], y);
    AllInConcat(b, y, cut);
    TrimRecovers(a, m, b + y, cut);
  }

  /** Cutset characters added at the front are trimmed away. */
  lemma TrimIgnoresCutPrefix(y: string, x: string, cut: set<char>)
    requires AllIn(y, cut)
    ensures Trim(y + x, cut) == Trim(x, cut)
  {
    var a, m, b := Leading(x, cut), Trim(x, cut), Trailing(x, cut);
    assert AllIn(a, cut) && AllIn(b, cut) && Untrimmable(m, cut) && x == a + m + b by {
      TrimSplits(x, cut);
    }
    Regroup(a, m, b, y, []);
    AllInConcat(y, a, cut);
    TrimRecovers(y + a, m, b, cut);
  }

  /** Regrouping `y + (a + m + b) + z` around its middle part. */
  lemma Regroup<T>(a: seq<T>, m: seq<T>, b: seq<T>, y: seq<T>, z: seq<T>)
    ensures y + (a + m + b) + z == (y + a) + m + (b + z)
    ensures (a + m + b) + z == a + m + (b + z)
    ensures y + (a + m + b) == (y + a) + m + b
  {
    assert (y + a) + m + (b + []) == (y + a) + m + b;
  }

  /** A string is its cut front followed by its left-trimmed rest. */
  lemma LeftTrimSplits(k: string, cut: set<char>)
    ensures AllIn(k[..|k| - |TrimLeft(k, cut)|], cut)
    ensures k == k[..|k| - |TrimLeft(k, cut)|] + TrimLeft(k, cut)
  {
  }

  /** A string is its right-trimmed front followed by its cut rest. */
  lemma RightTrimSplits(v: string, cut: set<char>)
    ensures AllIn(v[|TrimRight(v, cut)|..], cut)
    ensures v == TrimRight(v, cut) + v[|TrimRight(v, cut)|..]
  {
  }

  lemma TrimSpaceAroundEqualsParts(ka: string, kl: string, vr: string, vb: string)
    requires AllIn(ka, Spaces) && AllIn(vb, Spaces)
    requires kl == [] || kl[0] !in Spaces
    requires vr == [] || vr[|vr| - 1] !in Spaces
    ensures TrimSpace((ka + kl) + "=" + (vr + vb)) == kl + "=" + vr
  {
    var mid := kl + "=" + vr;
    assert mid[0] == if kl == [] then '=' else kl[0];
    assert mid[|mid| - 1] == if vr == [] then '=' else vr[|vr| - 1];
    assert (ka + kl) + "=" + (vr + vb) == ka + mid + vb;
    TrimRecovers(ka, mid, vb, Spaces);
  }

  /** Trimming `k=v` trims `k` on the left and `v` on the right only. */
  lemma TrimSpaceAroundEquals(k: string, v: string)
    ensures TrimSpace(k + "=" + v) == TrimLeft(k, Spaces) + "=" + TrimRight(v, Spaces)
  {
    LeftTrimSplits(k, Spaces);
    RightTrimSplits(v, Spaces);
    var kl, vr := TrimLeft(k, Spaces), TrimRight(v, Spaces);
    TrimSpaceAroundEqualsParts(k[..|k| - |kl|], kl, vr, v[|vr|..]);
  }

  /** Trimming after a one-sided trim is the same as trimming. */
  lemma TrimSpaceOfTrimmed(k: string, v: string)
    ensures TrimSpace(TrimLeft(k, Spaces)) == TrimSpace(k)
    ensures TrimSpace(TrimRight(v, Spaces)) == TrimSpace(v)
  {
    LeftTrimSplits(k, Spaces);
    RightTrimSplits(v, Spaces);
    var kl, vr := TrimLeft(k, Spaces), TrimRight(v, Spaces);
    TrimIgnoresCutPrefix(k[..|k| - |kl|], kl, Spaces);
    TrimIgnoresCutSuffix(vr, v[|vr|..], Spaces);
  }

  /** strings.SplitN(s, string(sep), 2) when `sep` occurs in `s`: the text before
      the first occurrence and the text after it. */
  function Cut(s: string, sep: char): (r: (string, string))
    requires sep in s
    ensures sep !in r.0 && s == r.0 + [sep] + r.1
  {
    if s[0] == sep then ("", s[1..])
    else
      var rest := Cut(s[1..], sep);
      ([s[0]] + rest.0, rest.1)
  }

  /** strings.Join(parts, string(sep)) */
  function Join(parts: seq<string>, sep: char): string
    decreases |parts|
  {
    if |parts| == 0 then ""
    else if |parts| == 1 then parts[0]
    else parts[0] + [sep] + Join(parts[1..], sep)
  }

  /** strings.Split(s, string(sep)): always at least one part, none of which
      contains `sep`, and joining them back gives `s`. */
  function Split(s: string, sep: char): (parts: seq<string>)
    ensures |parts| >= 1
    ensures forall i :: 0 <= i < |parts| ==> sep !in parts[i]
    ensures Join(parts, sep) == s
    decreases |s|
  {
    if |s| == 0 then [""]
    else
      var rest := Split(s[1..], sep);
      if s[0] == sep then
        assert ([""] + rest)[1..] == rest;
        [""] + rest
      else
        var parts := [[s[0]] + rest[0]] + rest[1..];
        assert parts[1..] == rest[1..];
        assert Join(rest, sep) == if |rest| == 1 then rest[0] else rest[0] + [sep] + Join(rest[1..], sep);
        parts
  }

  lemma {:induction false} SplitWithoutSeparator(p: string, sep: char)
    requires sep !in p
    ensures Split(p, sep) == [p]
    decreases |p|
  {
    if |p| > 0 {
      SplitWithoutSeparator(p[1..], sep);
      assert [p[0]] + p[1..] == p;
    }
  }

  lemma {:induction false} SplitAfterPart(p: string, sep: char, tail: string)
    requires sep !in p
    ensures Split(p + [sep] + tail, sep) == [p] + Split(tail, sep)
    decreases |p|
  {
    var s := p + [sep] + tail;
    if |p| == 0 {
      assert s[1..] == tail;
    } else {
      assert s[1..] == p[1..] + [sep] + tail;
      SplitAfterPart(p[1..], sep, tail);
      assert [p[0]] + p[1..] == p;
    }
  }

  /** Split undoes Join when no part contains the separator. */
  lemma {:induction false} SplitJoin(parts: seq<string>, sep: char)
    requires |parts| >= 1
    requires forall i :: 0 <= i < |parts| ==> sep !in parts[i]
    ensures Split(Join(parts, sep), sep) == parts
    decreases |parts|
  {
    if |parts| == 1 {
      SplitWithoutSeparator(parts[0], sep);
    } else {
      SplitJoin(parts[1..], sep);
      SplitAfterPart(parts[0], sep, Join(parts[1..], sep));
      assert [parts[0]] + parts[1..] == parts;
    }
  }
}
