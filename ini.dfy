/** `BigArchive._patch_ini_content` (big/big.py:331-365): the first line of an
    INI text that matches `^\s*NAME\s*=\s*(\S+)(.*)$` in multi-line mode has its
    value token replaced by the new value, padded with spaces or cut to the
    token's length. The regular expression is modelled as an explicit scan that
    follows the matcher's search order: the leftmost start first, and at one
    start the longest leading run of whitespace first. */
module IniPatch {
  import opened Base
  import opened Text

  /** Where the pattern matched. `start` is where `^` matched, `nameAt` where
      the parameter name begins, `[valueStart, valueEnd)` is the value token
      (group 2) and `lineEnd` is where `(.*)$` stops. Group 1 is
      `[start, valueStart)` and group 3 is `[valueEnd, lineEnd)`. */
  datatype Match = Match(start: nat, nameAt: nat, valueStart: nat, valueEnd: nat, lineEnd: nat)

  /** Where `^` matches in multi-line mode: at the start and after each newline. */
  predicate LineStart(s: string, i: nat)
    requires i <= |s|
  {
    i == 0 || s[i - 1] == '\n'
  }

  predicate NameAt(s: string, name: string, j: nat)
  {
    j + |name| <= |s| && s[j..j + |name|] == name
  }

  /** `\s*=\s*` followed by at least one non-whitespace character, tried just
      after the name at `p`; yields where the value token starts. Neither `\s*`
      can give back characters usefully: what it gives back is whitespace, which
      neither `=` nor `\S` accepts. */
  function AfterName(s: string, p: nat): (v: Option<nat>)
    requires p <= |s|
    ensures v.Some? ==> p < v.value < |s| && !IsSpace(s[v.value])
  {
    var eq := SpanSpace(s, p);
    if eq < |s| && s[eq] == '=' then
      var v := SpanSpace(s, eq + 1);
      if v < |s| then Some(v) else None
    else None
  }

  /** What follows the leading `\s*` when it stops at `j`: the name, then
      `\s*=\s*\S`. */
  predicate RestAt(s: string, name: string, j: nat)
  {
    NameAt(s, name, j) && AfterName(s, j + |name|).Some?
  }

  /** The pattern matches from `i` with its leading `\s*` stopping at `j`:
      `i` is a line start, `[i, j)` is whitespace (`SpanSpace(s, i)` is the
      end of the whitespace run at `i`) and the rest matches at `j`. */
  predicate MatchesAt(s: string, name: string, i: nat, j: nat)
  {
    i <= j <= |s| && LineStart(s, i) && j <= SpanSpace(s, i) && RestAt(s, name, j)
  }

  /** The backtracking of the leading `\s*` at one start: the stopping points
      `j, j - 1, ..., i` in turn; yields the first at which the rest matches. */
  function TryFrom(s: string, name: string, i: nat, j: nat): (r: Option<nat>)
    requires i <= j
    ensures r.Some? ==> i <= r.value <= j && RestAt(s, name, r.value)
    decreases j - i
  {
    if RestAt(s, name, j) then Some(j)
    else if j == i then None
    else TryFrom(s, name, i, j - 1)
  }

  /** The stopping point found is the greatest that works; none works when
      nothing is found. */
  lemma {:induction false} TryFromGreatest(s: string, name: string, i: nat, j: nat)
    requires i <= j
    ensures var r := TryFrom(s, name, i, j);
      && (r.Some? ==> forall j': nat :: r.value < j' <= j ==> !RestAt(s, name, j'))
      && (r.None? ==> forall j': nat :: i <= j' <= j ==> !RestAt(s, name, j'))
    decreases j - i
  {
    if !RestAt(s, name, j) && j > i {
      TryFromGreatest(s, name, i, j - 1);
    }
  }

  /** The search: the starts `i, i + 1, ..., |s|` in turn; yields the start and
      the stopping point of the leading `\s*` of the first match. */
  function Scan(s: string, name: string, i: nat): (r: Option<(nat, nat)>)
    requires i <= |s|
    ensures r.Some? ==> i <= r.value.0 && MatchesAt(s, name, r.value.0, r.value.1)
    decreases |s| - i
  {
    var here := if LineStart(s, i) then TryFrom(s, name, i, SpanSpace(s, i)) else None;
    if here.Some? then Some((i, here.value))
    else if i == |s| then None
    else Scan(s, name, i + 1)
  }

  /** When the search finds nothing from `i`, nothing matches from `i` on. */
  lemma {:induction false} ScanNone(s: string, name: string, i: nat)
    requires i <= |s| && Scan(s, name, i).None?
    ensures forall i': nat, j': nat :: i <= i' ==> !MatchesAt(s, name, i', j')
    decreases |s| - i
  {
    if LineStart(s, i) {
      TryFromGreatest(s, name, i, SpanSpace(s, i));
    }
    if i < |s| {
      ScanNone(s, name, i + 1);
    }
  }

  /** No match starts between `i` and the start the search finds. */
  lemma {:induction false} ScanLeftmost(s: string, name: string, i: nat)
    requires i <= |s| && Scan(s, name, i).Some?
    ensures forall i': nat, j': nat :: i <= i' < Scan(s, name, i).value.0 ==> !MatchesAt(s, name, i', j')
    decreases |s| - i
  {
    if LineStart(s, i) {
      TryFromGreatest(s, name, i, SpanSpace(s, i));
    }
    if Scan(s, name, i).value.0 != i {
      ScanLeftmost(s, name, i + 1);
    }
  }

  /** At the start the search finds, no match keeps more leading whitespace. */
  lemma {:induction false} ScanGreatest(s: string, name: string, i: nat)
    requires i <= |s| && Scan(s, name, i).Some?
    ensures var r := Scan(s, name, i).value;
      forall j': nat :: r.1 < j' ==> !MatchesAt(s, name, r.0, j')
    decreases |s| - i
  {
    var r := Scan(s, name, i).value;
    if r.0 == i {
      TryFromGreatest(s, name, i, SpanSpace(s, i));
    } else {
      ScanGreatest(s, name, i + 1);
    }
  }

  /** The first match of the pattern, as `re.subn(..., count=1)` finds it; its
      groups run as far as the greedy `\s*`, `\S+` and `.*` take them. */
  function FindParameter(s: string, name: string): (r: Option<Match>)
    ensures r.Some? ==> MatchesAt(s, name, r.value.start, r.value.nameAt)
    ensures r.Some? ==> var m := r.value;
      && m.nameAt + |name| <= |s|
      && m.valueStart == AfterName(s, m.nameAt + |name|).value
      && m.valueEnd == SpanNonSpace(s, m.valueStart)
      && m.lineEnd == LineEnd(s, m.valueEnd)
  {
    match Scan(s, name, 0)
    case None => None
    case Some((i, j)) =>
      var v := AfterName(s, j + |name|).value;
      var e := SpanNonSpace(s, v);
      Some(Match(i, j, v, e, LineEnd(s, e)))
  }

  /** No match starts before the one found, and none at the same start keeps
      more leading whitespace; when none is found the pattern matches nowhere. */
  lemma FindParameterFirst(s: string, name: string)
    ensures var r := FindParameter(s, name);
      && (r.None? ==> forall i: nat, j: nat :: !MatchesAt(s, name, i, j))
      && (r.Some? ==> forall i: nat, j: nat :: i < r.value.start ==> !MatchesAt(s, name, i, j))
      && (r.Some? ==> forall j: nat :: r.value.nameAt < j ==> !MatchesAt(s, name, r.value.start, j))
  {
    if Scan(s, name, 0).None? {
      ScanNone(s, name, 0);
    } else {
      ScanLeftmost(s, name, 0);
      ScanGreatest(s, name, 0);
    }
  }

  /** The shape of a match: group 1 is the line's leading whitespace, the name,
      then whitespace and `=` only; the value token is a whole, non-empty run of
      non-whitespace; group 3 runs to the end of its line. */
  lemma MatchShape(s: string, name: string)
    requires FindParameter(s, name).Some?
    ensures var m := FindParameter(s, name).value;
      && m.start <= m.nameAt < m.valueStart < m.valueEnd <= m.lineEnd <= |s|
      && s[m.nameAt..m.nameAt + |name|] == name
      && (forall k :: m.start <= k < m.nameAt ==> IsSpace(s[k]))
      && (forall k :: m.nameAt + |name| <= k < m.valueStart ==> IsSpace(s[k]) || s[k] == '=')
      && (forall k :: m.valueStart <= k < m.valueEnd ==> !IsSpace(s[k]))
      && (m.valueEnd < |s| ==> IsSpace(s[m.valueEnd]))
      && (forall k :: m.valueEnd <= k < m.lineEnd ==> s[k] != '\n')
      && (m.lineEnd < |s| ==> s[m.lineEnd] == '\n')
  {
    var m := FindParameter(s, name).value;
    var p := m.nameAt + |name|;
    var eq := SpanSpace(s, p);
    assert s[eq] == '=' && m.valueStart == SpanSpace(s, eq + 1);
    SpanSpaceRun(s, m.start);
    SpanSpaceRun(s, p);
    SpanSpaceRun(s, eq + 1);
    SpanNonSpaceRun(s, m.valueStart);
    LineEndRun(s, m.valueEnd);
  }

  function Spaces(n: nat): (r: string)
    ensures |r| == n && forall k :: 0 <= k < n ==> r[k] == ' '
  {
    seq(n, k => ' ')
  }

  /** The replacement token of `repl` (big/big.py:353-359): exactly `n`
      characters, starting with as much of `value` as fits, then spaces. */
  function Fit(value: string, n: nat): (r: string)
    ensures |r| == n
    ensures |value| <= n ==> r[..|value|] == value && forall k :: |value| <= k < n ==> r[k] == ' '
    ensures |value| >= n ==> r == value[..n]
  {
    if |value| < n then value + Spaces(n - |value|)
    else if |value| > n then value[..n]
    else value
  }

  /** `_patch_ini_content(content, name, value)`: no match is `ParameterNotFound`;
      otherwise the text keeps its length, and everything but the value token of
      the first match (the start of the text, group 1, group 3 and every later
      line) is kept verbatim. */
  function PatchIni(content: string, name: string, value: string): (r: Result<string>)
    ensures r.Ok? <==> FindParameter(content, name).Some?
    ensures r.Err? ==> r.error == ParameterNotFound
    ensures r.Ok? ==> |r.value| == |content|
    ensures r.Ok? ==> var m := FindParameter(content, name).value;
      && r.value[..m.valueStart] == content[..m.valueStart]
      && r.value[m.valueStart..m.valueEnd] == Fit(value, m.valueEnd - m.valueStart)
      && r.value[m.valueEnd..] == content[m.valueEnd..]
  {
    match FindParameter(content, name)
    case None => Err(ParameterNotFound)
    case Some(m) =>
      var prefix := content[m.start..m.valueStart];
      var fixed := Fit(value, m.valueEnd - m.valueStart);
      var suffix := content[m.valueEnd..m.lineEnd];
      SpliceGroups(content, m.start, m.valueStart, m.valueEnd, m.lineEnd, fixed);
      SpliceParts(content, m.valueStart, m.valueEnd, fixed);
      Ok(content[..m.start] + (prefix + fixed + suffix) + content[m.lineEnd..])
  }

  /** The patch is refused exactly when the pattern matches nowhere in the text. */
  lemma PatchIniRefused(content: string, name: string, value: string)
    ensures PatchIni(content, name, value).Err? <==> forall i: nat, j: nat :: !MatchesAt(content, name, i, j)
  {
    FindParameterFirst(content, name);
    var r := FindParameter(content, name);
    if r.Some? {
      assert MatchesAt(content, name, r.value.start, r.value.nameAt);
    }
  }

  /** Every position of a patched text outside the old value token holds the
      character it held before. */
  lemma PatchIniLocal(content: string, name: string, value: string, k: nat)
    requires PatchIni(content, name, value).Ok? && k < |content|
    requires var m := FindParameter(content, name).value; k < m.valueStart || m.valueEnd <= k
    ensures PatchIni(content, name, value).value[k] == content[k]
  {
    var r := PatchIni(content, name, value).value;
    var m := FindParameter(content, name).value;
    if k < m.valueStart {
      assert r[..m.valueStart][k] == content[..m.valueStart][k];
    } else {
      assert r[m.valueEnd..][k - m.valueEnd] == content[m.valueEnd..][k - m.valueEnd];
    }
  }

  /** The stock camera-height request on a typical line: the shorter value is
      padded, so the line keeps its length. */
  lemma PatchCameraHeight()
    ensures PatchIni("MaxCameraHeight = 1000.0\n", "MaxCameraHeight", "600.0")
         == Ok("MaxCameraHeight = 600.0 \n")
  {
    var s := "MaxCameraHeight = 1000.0\n";
    FindCameraHeight();
    assert Fit("600.0", 6) == "600.0 ";
    SpliceGroups(s, 0, 18, 24, 24, "600.0 ");
    assert s[..18] + "600.0 " + s[24..] == "MaxCameraHeight = 600.0 \n";
  }

  lemma FindCameraHeight()
    ensures FindParameter("MaxCameraHeight = 1000.0\n", "MaxCameraHeight") == Some(Match(0, 0, 18, 24, 24))
  {
    var s := "MaxCameraHeight = 1000.0\n";
    var name := "MaxCameraHeight";
    assert s[0..15] == name;
    assert SpanSpace(s, 16) == 16 && SpanSpace(s, 15) == 16;
    assert SpanSpace(s, 18) == 18 && SpanSpace(s, 17) == 18;
    assert RestAt(s, name, 0);
    assert SpanSpace(s, 0) == 0;
    assert Scan(s, name, 0) == Some((0, 0));
    assert SpanNonSpace(s, 24) == 24 && SpanNonSpace(s, 23) == 24 && SpanNonSpace(s, 22) == 24;
    assert SpanNonSpace(s, 21) == 24 && SpanNonSpace(s, 20) == 24 && SpanNonSpace(s, 19) == 24;
    assert SpanNonSpace(s, 18) == 24;
    assert LineEnd(s, 24) == 24;
  }

  /** `\s` also matches newlines, so the whitespace after `=` may run onto the
      next line and the value found there is the one replaced. */
  lemma PatchAcrossNewline()
    ensures PatchIni("Gravity =\n  10\n", "Gravity", "7") == Ok("Gravity =\n  7 \n")
  {
    var s := "Gravity =\n  10\n";
    FindAcrossNewline();
    assert Fit("7", 2) == "7 ";
    SpliceGroups(s, 0, 12, 14, 14, "7 ");
    assert s[..12] + "7 " + s[14..] == "Gravity =\n  7 \n";
  }

  lemma FindAcrossNewline()
    ensures FindParameter("Gravity =\n  10\n", "Gravity") == Some(Match(0, 0, 12, 14, 14))
  {
    var s := "Gravity =\n  10\n";
    var name := "Gravity";
    assert s[0..7] == name;
    assert SpanSpace(s, 8) == 8 && SpanSpace(s, 7) == 8;
    assert SpanSpace(s, 12) == 12 && SpanSpace(s, 11) == 12 && SpanSpace(s, 10) == 12 && SpanSpace(s, 9) == 12;
    assert RestAt(s, name, 0);
    assert SpanSpace(s, 0) == 0;
    assert Scan(s, name, 0) == Some((0, 0));
    assert SpanNonSpace(s, 14) == 14 && SpanNonSpace(s, 13) == 14 && SpanNonSpace(s, 12) == 14;
    assert LineEnd(s, 14) == 14;
  }

  /** A longer value is cut to the old token's length; the rest of the line
      (here a comment) and the later lines are kept. */
  lemma PatchTruncates()
    ensures PatchIni("A = 1 ; c\nA = 2\n", "A", "33") == Ok("A = 3 ; c\nA = 2\n")
  {
    var s := "A = 1 ; c\nA = 2\n";
    FindTruncates();
    assert Fit("33", 1) == "3";
    SpliceGroups(s, 0, 4, 5, 9, "3");
    assert s[..4] + "3" + s[5..] == "A = 3 ; c\nA = 2\n";
  }

  lemma FindTruncates()
    ensures FindParameter("A = 1 ; c\nA = 2\n", "A") == Some(Match(0, 0, 4, 5, 9))
  {
    var s := "A = 1 ; c\nA = 2\n";
    assert s[0..1] == "A";
    assert SpanSpace(s, 2) == 2 && SpanSpace(s, 1) == 2;
    assert SpanSpace(s, 4) == 4 && SpanSpace(s, 3) == 4;
    assert RestAt(s, "A", 0);
    assert SpanSpace(s, 0) == 0;
    assert Scan(s, "A", 0) == Some((0, 0));
    assert SpanNonSpace(s, 5) == 5 && SpanNonSpace(s, 4) == 5;
    assert LineEnd(s, 9) == 9 && LineEnd(s, 8) == 9 && LineEnd(s, 7) == 9;
    assert LineEnd(s, 6) == 9 && LineEnd(s, 5) == 9;
  }

  /** A text without the parameter is refused. */
  lemma PatchMissing()
    ensures PatchIni("Other = 1\n", "MaxCameraHeight", "600.0") == Err(ParameterNotFound)
  {
    var s := "Other = 1\n";
    forall i: nat, j: nat ensures !MatchesAt(s, "MaxCameraHeight", i, j) {
      assert !NameAt(s, "MaxCameraHeight", j);
    }
  }
}
