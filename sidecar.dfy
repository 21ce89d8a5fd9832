/** The header sidecar `__META.bigheader`: `extract` writes the four header
    values one per line (big/big.py:153-159) and `bundle` reads them back with
    `readline().strip()`, `encode('ascii')` and `int()` (big/big.py:294-298).
    The file is text; its newlines are read in universal-newline mode. */
module Sidecar {
  import opened Base
  import opened Text
  import opened HeaderCodec

  const META_NAME := "__META.bigheader"

  predicate IsDigit(c: char)
  {
    '0' <= c <= '9'
  }

  function DigitChar(d: nat): (c: char)
    requires d < 10
    ensures IsDigit(c)
  {
    ('0' as int + d) as char
  }

  /** `str(n)` for a number that is not negative. */
  function Decimal(n: nat): (r: string)
    ensures |r| >= 1 && forall k :: 0 <= k < |r| ==> IsDigit(r[k])
  {
    if n < 10 then [DigitChar(n)] else Decimal(n / 10) + [DigitChar(n % 10)]
  }

  /** The digit part `int()` accepts: ASCII digits, where one underscore may
      separate two digits. */
  predicate DigitsWellFormed(s: string)
  {
    |s| > 0 && IsDigit(s[0]) && IsDigit(s[|s| - 1])
    && forall k :: 0 <= k < |s| ==> IsDigit(s[k]) || (s[k] == '_' && k + 1 < |s| && IsDigit(s[k + 1]))
  }

  /** The value of the digits, underscores skipped. */
  function DigitsValue(s: string): nat
  {
    if s == [] then 0
    else if IsDigit(s[|s| - 1]) then 10 * DigitsValue(s[..|s| - 1]) + (s[|s| - 1] as int - '0' as int)
    else DigitsValue(s[..|s| - 1])
  }

  /** `int(s)` for base 10 on a text that is already stripped: an optional sign,
      then well-formed digits; anything else is refused. */
  function ParseInt(s: string): (r: Option<int>)
    ensures r.Some? ==> |s| > 0
    ensures r.Some? && s[0] != '-' ==> r.value >= 0
  {
    if |s| > 0 && (s[0] == '+' || s[0] == '-') then
      var digits := s[1..];
      if DigitsWellFormed(digits) then
        var v: int := DigitsValue(digits);
        Some(if s[0] == '-' then -v else v)
      else None
    else if DigitsWellFormed(s) then Some(DigitsValue(s))
    else None
  }

  /** `int(str(n)) == n`. */
  lemma {:induction false} DecimalParses(n: nat)
    ensures DigitsWellFormed(Decimal(n)) && DigitsValue(Decimal(n)) == n
    ensures ParseInt(Decimal(n)) == Some(n)
  {
    var d := Decimal(n);
    if n >= 10 {
      DecimalParses(n / 10);
      assert d[..|d| - 1] == Decimal(n / 10);
    }
  }

  /** Universal-newline reading: `\r\n` and a lone `\r` both become `\n`. */
  function TranslateNewlines(t: string): (r: string)
    decreases |t|
  {
    if t == [] then []
    else if t[0] == '\r' then
      "\n" + (if |t| > 1 && t[1] == '\n' then TranslateNewlines(t[2..]) else TranslateNewlines(t[1..]))
    else [t[0]] + TranslateNewlines(t[1..])
  }

  /** A text without carriage returns reads as it is. */
  lemma {:induction false} TranslateNoCarriageReturn(t: string)
    requires '\r' !in t
    ensures TranslateNewlines(t) == t
    decreases |t|
  {
    if t != [] {
      assert '\r' !in t[1..];
      TranslateNoCarriageReturn(t[1..]);
    }
  }

  /** `readline()`: everything up to and including the next newline, or the
      rest of the text; at the end of the text, the empty line. */
  function ReadLine(t: string): (r: (string, string))
    ensures r.0 + r.1 == t
    ensures forall k :: 0 <= k < |r.0| - 1 ==> r.0[k] != '\n'
    ensures r.1 != [] ==> r.0 != [] && r.0[|r.0| - 1] == '\n'
  {
    var e := LineEnd(t, 0);
    LineEndRun(t, 0);
    if e < |t| then
      assert t[..e + 1][..e] == t[..e];
      assert t[..e + 1] + t[e + 1..] == t;
      (t[..e + 1], t[e + 1..])
    else
      assert t[..e] == t;
      (t, [])
  }

  /** `s.encode('ascii')`: refused as soon as one character is not ASCII. */
  function AsciiEncode(s: string): (r: Option<seq<byte>>)
    ensures r.Some? <==> IsAscii(s)
    ensures r.Some? ==> |r.value| == |s| && forall k :: 0 <= k < |s| ==> r.value[k] == s[k] as int
  {
    if IsAscii(s) then Some(seq(|s|, k requires 0 <= k < |s| => s[k] as int)) else None
  }

  /** `encode('ascii')` of the magic as the archive holds it succeeds exactly
      when every byte is ASCII, and then gives back the bytes read. */
  lemma MagicTextAscii(b: seq<byte>)
    ensures AsciiEncode(MagicText(b)).Some? <==> forall k :: 0 <= k < |b| ==> b[k] < 0x80
    ensures AsciiEncode(MagicText(b)).Some? ==> AsciiEncode(MagicText(b)).value == b
  {
    var m := MagicText(b);
    if forall k :: 0 <= k < |b| ==> b[k] < 0x80 {
      assert AsciiEncode(m).value == b;
    } else {
      var k :| 0 <= k < |b| && b[k] >= 0x80;
      assert m[k] == '\U{FFFD}';
    }
  }

  /** An ASCII magic read from the sidecar is the text the archive shows for
      the bytes `bundle` writes. */
  lemma AsciiDecodes(s: string)
    requires AsciiEncode(s).Some?
    ensures MagicText(AsciiEncode(s).value) == s
  {
    var b := AsciiEncode(s).value;
    forall k | 0 <= k < |s| ensures MagicText(b)[k] == s[k] {
      assert b[k] == s[k] as int;
    }
  }

  /** What `bundle` takes from the sidecar; the numbers are checked only when
      they are packed. */
  datatype Meta = Meta(magic: seq<byte>, archiveSize: int, numFiles: int, headerSize: int)

  /** The sidecar text that `extract` writes for the header it holds. */
  function MetaText(info: HeaderInfo): string
  {
    info.magic + "\n" + (Decimal(info.archiveSize) + "\n" + (Decimal(info.numFiles) + "\n"
      + (Decimal(info.headerSize) + "\n")))
  }

  /** One number line of the sidecar. */
  function ReadNumber(t: string): (r: Result<(int, string)>)
    ensures r.Err? ==> r.error == BadNumber
    ensures r.Ok? <==> ParseInt(Strip(ReadLine(t).0)).Some?
    ensures r.Ok? ==> ParseInt(Strip(ReadLine(t).0)) == Some(r.value.0) && r.value.1 == ReadLine(t).1
    ensures r.Ok? ==> |r.value.1| <= |t| && t[|t| - |r.value.1|..] == r.value.1
  {
    var (line, rest) := ReadLine(t);
    match ParseInt(Strip(line))
    case None => Err(BadNumber)
    case Some(n) => Ok((n, rest))
  }

  /** `bundle`'s reading of the sidecar text, in the source's order: the magic
      line (a non-ASCII magic is `BadMagic`), then three numbers (a line that
      `int()` refuses is `BadNumber`). */
  function ReadMeta(text: string): (r: Result<Meta>)
    ensures r.Err? ==> r.error in {BadMagic, BadNumber}
  {
    var t := TranslateNewlines(text);
    var (first, t1) := ReadLine(t);
    match AsciiEncode(Strip(first))
    case None => Err(BadMagic)
    case Some(magic) =>
      match ReadNumber(t1)
      case Err(e) => Err(e)
      case Ok((archiveSize, t2)) =>
        match ReadNumber(t2)
        case Err(e) => Err(e)
        case Ok((numFiles, t3)) =>
          match ReadNumber(t3)
          case Err(e) => Err(e)
          case Ok((headerSize, _)) => Ok(Meta(magic, archiveSize, numFiles, headerSize))
  }

  /** A line followed by a newline reads back as that line, and strips to it
      when it has no whitespace at its edges. */
  lemma ReadLineOf(a: string, b: string)
    requires '\n' !in a
    ensures ReadLine(a + "\n" + b) == (a + "\n", b)
  {
    var t := a + "\n" + b;
    assert t[|a|] == '\n';
    forall k | 0 <= k < |a| ensures t[k] != '\n' { assert t[k] == a[k]; }
    LineEndAt(t, 0, |a|);
    assert t[..|a| + 1] == a + "\n";
    assert t[|a| + 1..] == b;
  }

  lemma {:induction false} LineEndAt(t: string, i: nat, e: nat)
    requires i <= e < |t| && t[e] == '\n'
    requires forall k :: i <= k < e ==> t[k] != '\n'
    ensures LineEnd(t, i) == e
    decreases e - i
  {
    if i < e {
      LineEndAt(t, i + 1, e);
    }
  }

  lemma StripLine(a: string)
    requires a != [] && !IsSpace(a[0]) && !IsSpace(a[|a| - 1])
    ensures Strip(a + "\n") == a
  {
    var t := a + "\n";
    assert SpanSpace(t, 0) == 0;
    assert IsSpace(t[|a|]);
    assert SpanSpaceBack(t, |a|) == |a|;
    assert t[0..|a|] == a;
  }

  /** A decimal line reads back as its number. */
  lemma ReadNumberOf(n: nat, b: string)
    ensures ReadNumber(Decimal(n) + "\n" + b) == Ok((n, b))
  {
    var d := Decimal(n);
    assert '\n' !in d by {
      forall k | 0 <= k < |d| ensures d[k] != '\n' { assert IsDigit(d[k]); }
    }
    ReadLineOf(d, b);
    StripLine(d);
    DecimalParses(n);
  }

  /** A magic of four printable ASCII characters other than space. */
  predicate PrintableMagic(magic: seq<byte>)
  {
    |magic| == 4 && forall k :: 0 <= k < 4 ==> 0x21 <= magic[k] <= 0x7E
  }

  /** The header an archive was parsed into survives `extract` followed by
      `bundle`: the sidecar text reads back as the same magic and numbers,
      when the magic is printable ASCII. */
  lemma SidecarRoundTrip(h: Header)
    requires PrintableMagic(h.magic)
    ensures ReadMeta(MetaText(Describe(h))) == Ok(Meta(h.magic, h.archiveSize, h.numFiles, h.headerSize))
  {
    var m := MagicText(h.magic);
    PrintableMagicText(h.magic);
    var rest3 := Decimal(h.headerSize) + "\n";
    var rest2 := Decimal(h.numFiles) + "\n" + rest3;
    var rest1 := Decimal(h.archiveSize) + "\n" + rest2;
    var text := m + "\n" + rest1;
    DecimalNoCarriageReturn(h.archiveSize);
    DecimalNoCarriageReturn(h.numFiles);
    DecimalNoCarriageReturn(h.headerSize);
    assert '\r' !in text;
    TranslateNoCarriageReturn(text);
    ReadLineOf(m, rest1);
    StripLine(m);
    ReadNumberOf(h.archiveSize, rest2);
    ReadNumberOf(h.numFiles, rest3);
    assert rest3 == Decimal(h.headerSize) + "\n" + [];
    ReadNumberOf(h.headerSize, []);
  }

  /** A printable magic is written as its own characters, which are neither
      whitespace nor line breaks, and encodes back to its own bytes. */
  lemma PrintableMagicText(b: seq<byte>)
    requires PrintableMagic(b)
    ensures var m := MagicText(b);
      && '\n' !in m && '\r' !in m && !IsSpace(m[0]) && !IsSpace(m[3])
      && AsciiEncode(m) == Some(b)
  {
    var m := MagicText(b);
    forall k | 0 <= k < 4 ensures m[k] as int == b[k] && !IsSpace(m[k]) && m[k] != '\n' && m[k] != '\r' {
      assert m[k] as int == b[k];
    }
    assert AsciiEncode(m).value == b;
  }

  lemma DecimalNoCarriageReturn(n: nat)
    ensures '\r' !in Decimal(n)
  {
    var d := Decimal(n);
    forall k | 0 <= k < |d| ensures d[k] != '\r' { assert IsDigit(d[k]); }
  }

  /** A magic holding a byte of 0x80 or more is written as U+FFFD, which
      `encode('ascii')` refuses: such an archive cannot be rebuilt from its
      own sidecar. */
  lemma SidecarRejectsReplacedMagic(h: Header, k: nat)
    requires |h.magic| == 4 && k < 4 && h.magic[k] >= 0x80
    requires forall j :: 0 <= j < 4 ==> h.magic[j] != 0x0A && h.magic[j] != 0x0D
    ensures ReadMeta(MetaText(Describe(h))).Err?
    ensures ReadMeta(MetaText(Describe(h))).error == BadMagic
  {
    var info := Describe(h);
    var m := info.magic;
    var text := MetaText(info);
    var t := TranslateNewlines(text);
    var first := ReadLine(t).0;
    assert m[k] == '\U{FFFD}';
    assert text[k] == '\U{FFFD}';
    forall j | 0 <= j <= k ensures text[j] != '\r' && text[j] != '\n' {
      assert text[j] == m[j];
    }
    TranslateKeeps(text, k);
    assert t[k] == '\U{FFFD}';
    ReadLineKeeps(t, k);
    assert first[k] == '\U{FFFD}';
    StripKeeps(first, k);
    assert !IsAscii(Strip(first));
  }

  /** Up to the first carriage return, translation keeps the text. */
  lemma {:induction false} TranslateKeeps(t: string, k: nat)
    requires k < |t| && forall j :: 0 <= j <= k ==> t[j] != '\r'
    ensures k < |TranslateNewlines(t)|
    ensures forall j :: 0 <= j <= k ==> TranslateNewlines(t)[j] == t[j]
    decreases k
  {
    if k > 0 {
      TranslateKeeps(t[1..], k - 1);
      var r := TranslateNewlines(t);
      assert r == [t[0]] + TranslateNewlines(t[1..]);
      forall j | 0 < j <= k ensures r[j] == t[j] {
        assert r[j] == TranslateNewlines(t[1..])[j - 1];
      }
    }
  }

  /** A character before the first newline is on the first line. */
  lemma ReadLineKeeps(t: string, k: nat)
    requires k < |t| && forall j :: 0 <= j <= k ==> t[j] != '\n'
    ensures k < |ReadLine(t).0| && ReadLine(t).0[k] == t[k]
  {
    var e := LineEnd(t, 0);
    assert k < e;
  }

  /** Stripping keeps every character that is not whitespace. */
  lemma StripKeeps(s: string, k: nat)
    requires k < |s| && !IsSpace(s[k])
    ensures s[k] in Strip(s)
  {
    StripSlice(s);
    var lo, hi :| 0 <= lo <= hi <= |s| && Strip(s) == s[lo..hi]
          && (forall j :: 0 <= j < lo ==> IsSpace(s[j]))
          && (forall j :: hi <= j < |s| ==> IsSpace(s[j]));
    assert lo <= k < hi;
    assert Strip(s)[k - lo] == s[k];
  }
}
