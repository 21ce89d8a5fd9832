/** Shared vocabulary of the BIG archive model: bytes, unsigned 32-bit words,
    the big-endian packing that `struct` performs with format `>I`, the UTF-8
    encoder that `str.encode('utf-8')` performs, and the error values that the
    archive code raises as exceptions. */
module Base {

  /** One octet of an archive stream. */
  type byte = x: int | 0 <= x < 0x100

  /** A value that `struct.pack('>I', ...)` accepts. */
  type u32 = x: int | 0 <= x < 0x1_0000_0000

  const U32_LIMIT: int := 0x1_0000_0000

  datatype Option<+T> = None | Some(value: T)

  /** The exceptions of the archive code, one constructor per cause. */
  datatype Error =
    | NotFound           // FileNotFoundError: the archive or the sidecar is missing
    | Malformed          // ValueError: fewer than 16 header bytes
    | NoArchive          // ValueError: no archive file path is loaded
    | ParameterNotFound  // ValueError: the INI parameter does not occur
    | BadNumber          // ValueError: int() refuses a sidecar line
    | BadMagic           // UnicodeEncodeError: the sidecar magic is not ASCII
    | OutOfRange         // struct.error: a value does not fit an unsigned 32-bit field

  datatype Result<+T> = Ok(value: T) | Err(error: Error)

  /** `struct.pack('>I', x)`: most significant byte first. */
  function BE32(x: u32): (r: seq<byte>)
    ensures |r| == 4
  {
    [x / 0x100_0000, (x / 0x1_0000) % 0x100, (x / 0x100) % 0x100, x % 0x100]
  }

  /** `struct.unpack('>I', b)`. */
  function FromBE32(b: seq<byte>): (r: u32)
    requires |b| == 4
  {
    b[0] as int * 0x100_0000 + b[1] as int * 0x1_0000 + b[2] as int * 0x100 + b[3] as int
  }

  lemma BE32RoundTrip(x: u32)
    ensures FromBE32(BE32(x)) == x
  {
    var b := BE32(x);
    assert x == (x / 0x100) * 0x100 + x % 0x100;
    assert x / 0x100 == (x / 0x1_0000) * 0x100 + (x / 0x100) % 0x100;
    assert x / 0x1_0000 == (x / 0x100_0000) * 0x100 + (x / 0x1_0000) % 0x100;
  }

  lemma FromBE32RoundTrip(b: seq<byte>)
    requires |b| == 4
    ensures BE32(FromBE32(b)) == b
  {
    var x := FromBE32(b);
    assert x / 0x100 == b[0] as int * 0x1_0000 + b[1] as int * 0x100 + b[2] as int;
    assert x / 0x1_0000 == b[0] as int * 0x100 + b[1] as int;
    assert x / 0x100_0000 == b[0];
  }

  /** The UTF-8 encoding of one Unicode scalar value (RFC 3629, section 3). */
  function Utf8Char(c: char): (r: seq<byte>)
    ensures 1 <= |r| <= 4
    ensures |r| == 1 <==> c as int < 0x80
    ensures |r| == 1 ==> r[0] == c as int
    ensures |r| > 1 ==> forall k :: 0 <= k < |r| ==> r[k] >= 0x80
  {
    var n := c as int;
    if n < 0x80 then [n]
    else if n < 0x800 then [0xC0 + n / 0x40, 0x80 + n % 0x40]
    else if n < 0x1_0000 then [0xE0 + n / 0x1000, 0x80 + (n / 0x40) % 0x40, 0x80 + n % 0x40]
    else [0xF0 + n / 0x4_0000, 0x80 + (n / 0x1000) % 0x40, 0x80 + (n / 0x40) % 0x40, 0x80 + n % 0x40]
  }

  /** `s.encode('utf-8')`. */
  function Utf8Encode(s: string): (r: seq<byte>)
  {
    if s == [] then [] else Utf8Char(s[0]) + Utf8Encode(s[1..])
  }

  predicate IsAscii(s: string)
  {
    forall k :: 0 <= k < |s| ==> s[k] as int < 0x80
  }

  /** UTF-8 never shrinks a text, and keeps its length exactly when the text is ASCII;
      an ASCII text encodes to its own code points. */
  lemma {:induction false} Utf8Length(s: string)
    ensures |Utf8Encode(s)| >= |s|
    ensures |Utf8Encode(s)| == |s| <==> IsAscii(s)
    ensures IsAscii(s) ==> forall k :: 0 <= k < |s| ==> Utf8Encode(s)[k] == s[k] as int
  {
    if s != [] {
      Utf8Length(s[1..]);
      assert IsAscii(s) <==> s[0] as int < 0x80 && IsAscii(s[1..]) by {
        if IsAscii(s[1..]) && s[0] as int < 0x80 {
          forall k | 0 <= k < |s| ensures s[k] as int < 0x80 {
            if k > 0 { assert s[k] == s[1..][k - 1]; }
          }
        }
        if IsAscii(s) {
          forall k | 0 <= k < |s| - 1 ensures s[1..][k] as int < 0x80 {
            assert s[1..][k] == s[k + 1];
          }
        }
      }
      if IsAscii(s) {
        forall k | 0 <= k < |s| ensures Utf8Encode(s)[k] == s[k] as int {
          if k > 0 { assert Utf8Encode(s)[k] == Utf8Encode(s[1..])[k - 1]; }
        }
      }
    }
  }

  /** The encoding holds a zero byte exactly when the text holds U+0000: a zero byte
      never occurs inside a multi-byte sequence. */
  lemma {:induction false} Utf8ZeroByte(s: string)
    ensures 0 in Utf8Encode(s) <==> '\0' in s
  {
    if s != [] {
      Utf8ZeroByte(s[1..]);
      var head := Utf8Char(s[0]);
      assert Utf8Encode(s) == head + Utf8Encode(s[1..]);
      assert 0 in head <==> s[0] == '\0';
      assert '\0' in s <==> s[0] == '\0' || '\0' in s[1..];
    }
  }

  /** Replacing the groups around a token is replacing the token alone:
      `s[..a] + (s[a..b] + t + s[c..d]) + s[d..]` equals `s[..b] + t + s[c..]`. */
  lemma SpliceGroups<T>(s: seq<T>, a: nat, b: nat, c: nat, d: nat, t: seq<T>)
    requires a <= b <= c <= d <= |s|
    ensures s[..a] + (s[a..b] + t + s[c..d]) + s[d..] == s[..b] + t + s[c..]
  {
    assert s[..a] + s[a..b] == s[..b];
    assert s[c..d] + s[d..] == s[c..];
  }

  /** What a splice keeps and what it puts in. */
  lemma SpliceParts<T>(s: seq<T>, b: nat, c: nat, t: seq<T>)
    requires b <= c <= |s|
    ensures var r := s[..b] + t + s[c..];
      && |r| == |s| - (c - b) + |t|
      && r[..b] == s[..b] && r[b..b + |t|] == t && r[b + |t|..] == s[c..]
  {
  }

  /** `data[lo:hi]` for `0 <= lo <= hi`: Python clamps both bounds to the
      length, so a range past the end yields fewer bytes, or none. */
  function SliceClamped<T>(data: seq<T>, lo: nat, hi: nat): (r: seq<T>)
    requires lo <= hi
    ensures hi <= |data| ==> r == data[lo..hi]
    ensures |r| <= hi - lo
  {
    var a := if lo < |data| then lo else |data|;
    var b := if hi < |data| then hi else |data|;
    data[a..b]
  }

  /** The text decoders the archive code calls, taken as given here: strict
      UTF-8 (`None` where Python raises `UnicodeDecodeError`), UTF-8 with
      `errors='replace'`, and cp1252 with `errors='replace'`. The encoder is
      not a parameter: the code always encodes with UTF-8 (`Utf8Encode`). */
  datatype Codec = Codec(utf8: seq<byte> -> Option<string>,
                         utf8Replace: seq<byte> -> string,
                         cp1252Replace: seq<byte> -> string)

  /** The replacing UTF-8 decoder reads the UTF-8 of `s` back as `s`, as
      Python's decoder does for every text. */
  predicate ReadsBack(codec: Codec, s: string)
  {
    codec.utf8Replace(Utf8Encode(s)) == s
  }
}
