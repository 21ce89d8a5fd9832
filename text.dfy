/** The few Python `str` primitives the archive code relies on: `isspace`
    (which is also what the `re` class `\s` matches in a text pattern),
    `strip()`, `lower()` over ASCII letters and `replace`. */
module Text {

  /** `c.isspace()`: the characters Python's `str.isspace` and the regular
      expression class `\s` treat as whitespace. */
  predicate IsSpace(c: char)
  {
    var n := c as int;
    (0x09 <= n <= 0x0D) || (0x1C <= n <= 0x20) || n == 0x85 || n == 0xA0 || n == 0x1680
    || (0x2000 <= n <= 0x200A) || n == 0x2028 || n == 0x2029 || n == 0x202F || n == 0x205F || n == 0x3000
  }

  predicate AllSpace(s: string)
  {
    forall k :: 0 <= k < |s| ==> IsSpace(s[k])
  }

  /** The end of the run of whitespace that starts at `i`: what a greedy `\s*`
      consumes from there. */
  function SpanSpace(s: string, i: nat): (j: nat)
    requires i <= |s|
    ensures i <= j <= |s|
    ensures j < |s| ==> !IsSpace(s[j])
    decreases |s| - i
  {
    if i == |s| || !IsSpace(s[i]) then i else SpanSpace(s, i + 1)
  }

  /** Everything a greedy `\s*` consumes is whitespace. */
  lemma {:induction false} SpanSpaceRun(s: string, i: nat)
    requires i <= |s|
    ensures forall k :: i <= k < SpanSpace(s, i) ==> IsSpace(s[k])
    decreases |s| - i
  {
    if i < |s| && IsSpace(s[i]) {
      SpanSpaceRun(s, i + 1);
    }
  }

  /** The end of the run of non-whitespace that starts at `i`: what a greedy
      `\S*` consumes from there. */
  function SpanNonSpace(s: string, i: nat): (j: nat)
    requires i <= |s|
    ensures i <= j <= |s|
    ensures j < |s| ==> IsSpace(s[j])
    decreases |s| - i
  {
    if i == |s| || IsSpace(s[i]) then i else SpanNonSpace(s, i + 1)
  }

  /** Everything a greedy `\S*` consumes is non-whitespace. */
  lemma {:induction false} SpanNonSpaceRun(s: string, i: nat)
    requires i <= |s|
    ensures forall k :: i <= k < SpanNonSpace(s, i) ==> !IsSpace(s[k])
    decreases |s| - i
  {
    if i < |s| && !IsSpace(s[i]) {
      SpanNonSpaceRun(s, i + 1);
    }
  }

  /** The start of the trailing run of whitespace that ends at `j`. */
  function SpanSpaceBack(s: string, j: nat): (i: nat)
    requires j <= |s|
    ensures i <= j
    ensures i > 0 ==> !IsSpace(s[i - 1])
  {
    if j == 0 || !IsSpace(s[j - 1]) then j else SpanSpaceBack(s, j - 1)
  }

  lemma {:induction false} SpanSpaceBackRun(s: string, j: nat)
    requires j <= |s|
    ensures forall k :: SpanSpaceBack(s, j) <= k < j ==> IsSpace(s[k])
  {
    if j > 0 && IsSpace(s[j - 1]) {
      SpanSpaceBackRun(s, j - 1);
    }
  }

  /** `s.strip()`: the text between the leading and the trailing whitespace. */
  function Strip(s: string): (r: string)
    ensures r == [] || (!IsSpace(r[0]) && !IsSpace(r[|r| - 1]))
    ensures |r| <= |s|
  {
    var lo := SpanSpace(s, 0);
    var hi := SpanSpaceBack(s, |s|);
    if lo < hi then s[lo..hi] else []
  }

  /** `strip()` drops exactly leading and trailing whitespace: the result is a
      slice of the input, everything before it and after it is whitespace, and
      a text of whitespace only strips to nothing. */
  lemma StripSlice(s: string)
    ensures exists lo, hi ::
              (0 <= lo <= hi <= |s| && Strip(s) == s[lo..hi]
               && (forall k :: 0 <= k < lo ==> IsSpace(s[k]))
               && (forall k :: hi <= k < |s| ==> IsSpace(s[k])))
  {
    var lo := SpanSpace(s, 0);
    var hi := SpanSpaceBack(s, |s|);
    SpanSpaceRun(s, 0);
    SpanSpaceBackRun(s, |s|);
    if lo < hi {
      assert Strip(s) == s[lo..hi];
    } else {
      assert lo == |s|;
      assert Strip(s) == s[0..0];
    }
  }

  /** A text with no whitespace at either edge is its own strip. */
  lemma StripFixed(s: string)
    requires s == [] || (!IsSpace(s[0]) && !IsSpace(s[|s| - 1]))
    ensures Strip(s) == s
  {
    if s != [] {
      assert SpanSpace(s, 0) == 0;
      assert SpanSpaceBack(s, |s|) == |s|;
    }
  }

  /** A greedy `\s*` from `i` stops at `j` when only whitespace lies between
      them and `j` is the end or holds a non-space. */
  lemma {:induction false} SpanSpaceAt(s: string, i: nat, j: nat)
    requires i <= j <= |s|
    requires forall k :: i <= k < j ==> IsSpace(s[k])
    requires j < |s| ==> !IsSpace(s[j])
    ensures SpanSpace(s, i) == j
    decreases j - i
  {
    if i < j {
      SpanSpaceAt(s, i + 1, j);
    }
  }

  /** The trailing run that ends at `j` starts at `i` when only whitespace lies
      between them and `i` is the start or follows a non-space. */
  lemma {:induction false} SpanSpaceBackAt(s: string, j: nat, i: nat)
    requires i <= j <= |s|
    requires forall k :: i <= k < j ==> IsSpace(s[k])
    requires i > 0 ==> !IsSpace(s[i - 1])
    ensures SpanSpaceBack(s, j) == i
    decreases j - i
  {
    if i < j {
      SpanSpaceBackAt(s, j - 1, i);
    }
  }

  /** Whitespace added before and after a text is what `strip()` removes: the
      text strips as it did alone. */
  lemma StripSurrounded(a: string, t: string, b: string)
    requires AllSpace(a) && AllSpace(b)
    ensures Strip(a + t + b) == Strip(t)
  {
    if AllSpace(t) {
      var s := a + t + b;
      assert AllSpace(s);
      SpanSpaceAt(s, 0, |s|);
      SpanSpaceAt(t, 0, |t|);
    } else {
      var m :| 0 <= m < |t| && !IsSpace(t[m]);
      StripSurroundedWord(a, t, b, m);
    }
  }

  lemma StripSurroundedWord(a: string, t: string, b: string, m: nat)
    requires AllSpace(a) && AllSpace(b) && m < |t| && !IsSpace(t[m])
    ensures Strip(a + t + b) == Strip(t)
  {
    var lo := SpanSpace(t, 0);
    var hi := SpanSpaceBack(t, |t|);
    SpanSpaceRun(t, 0);
    SpanSpaceBackRun(t, |t|);
    assert lo <= m < hi;
    LeadingSpan(a, t, b);
    TrailingSpan(a, t, b);
    StripAt(t, lo, hi);
    StripAt(a + t + b, |a| + lo, |a| + hi);
    InnerSlice(a, t, b, lo, hi);
  }

  lemma StripAt(s: string, lo: nat, hi: nat)
    requires SpanSpace(s, 0) == lo && hi <= |s| && SpanSpaceBack(s, |s|) == hi && lo < hi
    ensures Strip(s) == s[lo..hi]
  {
  }

  lemma InnerSlice(a: string, t: string, b: string, lo: nat, hi: nat)
    requires lo <= hi <= |t|
    ensures (a + t + b)[|a| + lo..|a| + hi] == t[lo..hi]
  {
    var s := a + t + b;
    assert s[|a|..|a| + |t|] == t;
    SliceOfSlice(s, |a|, |a| + |t|, lo, hi);
  }

  lemma LeadingSpan(a: string, t: string, b: string)
    requires AllSpace(a) && SpanSpace(t, 0) < |t|
    ensures SpanSpace(a + t + b, 0) == |a| + SpanSpace(t, 0)
  {
    var s := a + t + b;
    var lo := SpanSpace(t, 0);
    SpanSpaceRun(t, 0);
    forall k | 0 <= k < |a| + lo ensures IsSpace(s[k]) {
      if k < |a| { assert s[k] == a[k]; } else { assert s[k] == t[k - |a|]; }
    }
    assert s[|a| + lo] == t[lo];
    SpanSpaceAt(s, 0, |a| + lo);
  }

  lemma TrailingSpan(a: string, t: string, b: string)
    requires AllSpace(b) && SpanSpaceBack(t, |t|) > 0
    ensures SpanSpaceBack(a + t + b, |a + t + b|) == |a| + SpanSpaceBack(t, |t|)
  {
    var s := a + t + b;
    var hi := SpanSpaceBack(t, |t|);
    SpanSpaceBackRun(t, |t|);
    forall k | |a| + hi <= k < |s| ensures IsSpace(s[k]) {
      if k < |a| + |t| { assert s[k] == t[k - |a|]; } else { assert s[k] == b[k - |a| - |t|]; }
    }
    assert s[|a| + hi - 1] == t[hi - 1];
    SpanSpaceBackAt(s, |s|, |a| + hi);
  }

  lemma SliceOfSlice(s: string, i: nat, j: nat, lo: nat, hi: nat)
    requires i <= j <= |s| && lo <= hi <= j - i
    ensures s[i..j][lo..hi] == s[i + lo..i + hi]
  {
    forall k | 0 <= k < hi - lo ensures s[i..j][lo..hi][k] == s[i + lo..i + hi][k] {
      assert s[i..j][lo..hi][k] == s[i..j][lo + k] == s[i + lo + k];
    }
  }

  /** The first newline at or after `i`, or the end: where a greedy `.*` stops
      and `$` then matches. */
  function LineEnd(s: string, i: nat): (e: nat)
    requires i <= |s|
    ensures i <= e <= |s|
    ensures e < |s| ==> s[e] == '\n'
    decreases |s| - i
  {
    if i == |s| || s[i] == '\n' then i else LineEnd(s, i + 1)
  }

  /** `.` matches everything but a newline. */
  lemma {:induction false} LineEndRun(s: string, i: nat)
    requires i <= |s|
    ensures forall k :: i <= k < LineEnd(s, i) ==> s[k] != '\n'
    decreases |s| - i
  {
    if i < |s| && s[i] != '\n' {
      LineEndRun(s, i + 1);
    }
  }

  predicate IsUpperAscii(c: char)
  {
    'A' <= c <= 'Z'
  }

  /** `c.lower()` for the ASCII letters; every other character is kept. */
  function LowerChar(c: char): char
  {
    if IsUpperAscii(c) then (c as int + 32) as char else c
  }

  function Lower(s: string): (r: string)
    ensures |r| == |s|
    ensures forall k :: 0 <= k < |s| ==> r[k] == LowerChar(s[k])
  {
    seq(|s|, k requires 0 <= k < |s| => LowerChar(s[k]))
  }

  /** `s.replace(old, new)` for one character replaced by one character. */
  function ReplaceChar(s: string, from: char, to: char): (r: string)
    ensures |r| == |s|
    ensures forall k :: 0 <= k < |s| ==> r[k] == (if s[k] == from then to else s[k])
  {
    seq(|s|, k requires 0 <= k < |s| => if s[k] == from then to else s[k])
  }
}
