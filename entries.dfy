/** The entry table that follows the header: per entry an offset and a length
    (big-endian u32) and a path terminated by one zero byte (big/big.py:76-101,
    written at big/big.py:319-322). */
module EntryTable {
  import opened Base
  import opened HeaderCodec

  /** One table record. The path is kept as the raw bytes read from the table;
      the text the archive code compares is a decoding of them. */
  datatype Entry = Entry(offset: u32, length: u32, path: seq<byte>)

  /** The index of the first zero byte at or after `p`, or the end of the stream. */
  function PathEnd(data: seq<byte>, p: nat): (e: nat)
    requires p <= |data|
    ensures p <= e <= |data|
    ensures forall k :: p <= k < e ==> data[k] != 0
    ensures e < |data| ==> data[e] == 0
    decreases |data| - p
  {
    if p == |data| || data[p] == 0 then p else PathEnd(data, p + 1)
  }

  /** Any position that ends a run of non-zero bytes at a zero byte or at the end is `PathEnd`. */
  lemma PathEndUnique(data: seq<byte>, p: nat, e: nat)
    requires p <= e <= |data|
    requires forall k :: p <= k < e ==> data[k] != 0
    requires e < |data| ==> data[e] == 0
    ensures PathEnd(data, p) == e
  {
  }

  /** The entry at the head of a stream that holds at least its 8 fixed bytes:
      offset, length, then the path up to the first zero byte or the end. */
  function EntryAt(stream: seq<byte>): (e: Entry)
    requires |stream| >= 8
    ensures 0 !in e.path
  {
    Entry(FromBE32(stream[..4]), FromBE32(stream[4..8]), stream[8..PathEnd(stream, 8)])
  }

  /** How many bytes the head entry occupies: through its terminating zero, if any. */
  function EntrySize(stream: seq<byte>): (n: nat)
    requires |stream| >= 8
    ensures 8 <= n <= |stream|
  {
    var e := PathEnd(stream, 8);
    if e < |stream| then e + 1 else e
  }

  /** Decodes at most `count` entries from the head of the remaining stream.
      Decoding stops, without error, as soon as fewer than 8 bytes remain. */
  function DecodeEntries(stream: seq<byte>, count: nat): (r: seq<Entry>)
    ensures |r| <= count
    ensures forall k :: 0 <= k < |r| ==> 0 !in r[k].path
    decreases count
  {
    if count == 0 || |stream| < 8 then []
    else [EntryAt(stream)] + DecodeEntries(stream[EntrySize(stream)..], count - 1)
  }

  /** The parse of a whole archive stream: the header, then up to `numFiles`
      entries from the bytes that follow it. */
  function DecodeArchive(data: seq<byte>): (r: Result<(Header, seq<Entry>)>)
    ensures r.Err? <==> |data| < HEADER_LEN
    ensures r.Ok? ==> DecodeHeader(data) == Ok(r.value.0) && |r.value.1| <= r.value.0.numFiles
  {
    match DecodeHeader(data)
    case Err(e) => Err(e)
    case Ok(h) => Ok((h, DecodeEntries(data[HEADER_LEN..], h.numFiles)))
  }

  /** The bytes the builder writes for one entry. */
  function EncodeEntry(e: Entry): (r: seq<byte>)
    ensures |r| == 9 + |e.path|
  {
    BE32(e.offset) + BE32(e.length) + e.path + [0]
  }

  function EncodeEntries(es: seq<Entry>): seq<byte>
  {
    if es == [] then [] else EncodeEntry(es[0]) + EncodeEntries(es[1..])
  }

  predicate NoZeroInPaths(es: seq<Entry>)
  {
    forall k :: 0 <= k < |es| ==> 0 !in es[k].path
  }

  /** An encoded entry at the head of a stream reads back as that entry and
      occupies exactly its encoding. */
  lemma DecodeOne(e: Entry, rest: seq<byte>)
    requires 0 !in e.path
    ensures |EncodeEntry(e) + rest| >= 8
    ensures EntryAt(EncodeEntry(e) + rest) == e
    ensures EntrySize(EncodeEntry(e) + rest) == |EncodeEntry(e)|
  {
    var enc := EncodeEntry(e);
    var stream := enc + rest;
    var n := |e.path|;
    assert stream[..4] == BE32(e.offset);
    assert stream[4..8] == BE32(e.length);
    BE32RoundTrip(e.offset);
    BE32RoundTrip(e.length);
    assert stream[8..8 + n] == e.path;
    assert stream[8 + n] == 0;
    forall k | 8 <= k < 8 + n ensures stream[k] != 0 {
      assert stream[k] == e.path[k - 8];
    }
    PathEndUnique(stream, 8, 8 + n);
  }

  lemma NoZeroInTail(es: seq<Entry>)
    requires es != [] && NoZeroInPaths(es)
    ensures 0 !in es[0].path && NoZeroInPaths(es[1..])
  {
    forall k | 0 <= k < |es[1..]| ensures 0 !in es[1..][k].path { assert es[1..][k] == es[k + 1]; }
  }

  /** Peels the first entry off an encoded table at the head of a stream. */
  lemma TableStep(es: seq<Entry>, rest: seq<byte>, count: nat)
    requires NoZeroInPaths(es) && es != [] && count > 0
    ensures NoZeroInPaths(es[1..])
    ensures DecodeEntries(EncodeEntries(es) + rest, count)
         == [es[0]] + DecodeEntries(EncodeEntries(es[1..]) + rest, count - 1)
  {
    var enc0 := EncodeEntry(es[0]);
    var tail := EncodeEntries(es[1..]) + rest;
    assert EncodeEntries(es) == enc0 + EncodeEntries(es[1..]);
    Regroup(enc0, EncodeEntries(es[1..]), rest);
    NoZeroInTail(es);
    DecodeOne(es[0], tail);
    var stream := enc0 + tail;
    assert stream[|enc0|..] == tail;
    assert DecodeEntries(stream, count) == [EntryAt(stream)] + DecodeEntries(stream[EntrySize(stream)..], count - 1);
  }

  lemma Regroup<T>(a: seq<T>, b: seq<T>, c: seq<T>)
    ensures a + (b + c) == (a + b) + c
  {
  }

  /** Decoding no more entries than an encoded table holds gives back its first
      entries in order, whatever follows the table. */
  lemma {:induction false} TablePrefixRoundTrip(es: seq<Entry>, rest: seq<byte>, count: nat)
    requires NoZeroInPaths(es) && count <= |es|
    ensures DecodeEntries(EncodeEntries(es) + rest, count) == es[..count]
    decreases es
  {
    if count > 0 {
      TableStep(es, rest, count);
      TablePrefixRoundTrip(es[1..], rest, count - 1);
      assert [es[0]] + es[1..][..count - 1] == es[..count];
    }
  }

  /** Decoding more entries than an encoded table holds gives back all of them,
      then goes on decoding the bytes that follow the table. */
  lemma {:induction false} TableThenRest(es: seq<Entry>, rest: seq<byte>, count: nat)
    requires NoZeroInPaths(es) && count >= |es|
    ensures DecodeEntries(EncodeEntries(es) + rest, count) == es + DecodeEntries(rest, count - |es|)
    decreases es
  {
    if es != [] {
      TableStep(es, rest, count);
      TableThenRest(es[1..], rest, count - 1);
      var after := DecodeEntries(rest, count - |es|);
      assert count - 1 - |es[1..]| == count - |es|;
      Regroup([es[0]], es[1..], after);
      assert [es[0]] + es[1..] == es;
    } else {
      assert EncodeEntries(es) + rest == rest;
    }
  }

  /** The table the builder writes is the table the parser reads back. */
  lemma TableRoundTrip(es: seq<Entry>, rest: seq<byte>)
    requires NoZeroInPaths(es)
    ensures DecodeEntries(EncodeEntries(es) + rest, |es|) == es
  {
    TablePrefixRoundTrip(es, rest, |es|);
  }

  /** The inner loop of the parser: reads one byte at a time until a zero byte,
      which is consumed, or the end of the stream. */
  method ReadPath(data: seq<byte>, p: nat) returns (path: seq<byte>, next: nat)
    requires p <= |data|
    ensures path == data[p..PathEnd(data, p)]
    ensures next == if PathEnd(data, p) < |data| then PathEnd(data, p) + 1 else PathEnd(data, p)
  {
    var pos := p;
    path := [];
    while pos < |data| && data[pos] != 0
      invariant p <= pos <= |data|
      invariant path == data[p..pos]
      invariant forall k :: p <= k < pos ==> data[k] != 0
    {
      path := path + [data[pos]];
      pos := pos + 1;
    }
    PathEndUnique(data, p, pos);
    next := if pos < |data| then pos + 1 else pos;
  }

  /** One read of the cursor loop: the 8 fixed bytes at the head of the
      remaining stream, then the path. It yields the head entry and how many
      bytes the read consumed. */
  method ReadEntry(stream: seq<byte>) returns (entry: Entry, size: nat)
    requires |stream| >= 8
    ensures entry == EntryAt(stream)
    ensures size == EntrySize(stream)
  {
    var offset := FromBE32(stream[..4]);
    var length := FromBE32(stream[4..8]);
    var path, next := ReadPath(stream, 8);
    entry := Entry(offset, length, path);
    size := next;
  }

  /** The cursor loop of the parser: reads 8 bytes, then the path, and appends
      the entry, until `count` entries are read or a read comes back short.
      `rest` is the part of the stream after the cursor. */
  method ReadEntries(stream: seq<byte>, count: nat) returns (entries: seq<Entry>)
    ensures entries == DecodeEntries(stream, count)
  {
    ghost var whole := DecodeEntries(stream, count);
    entries := [];
    var rest := stream;
    var remaining := count;
    while remaining > 0 && |rest| >= 8
      invariant whole == entries + DecodeEntries(rest, remaining)
    {
      var entry, size := ReadEntry(rest);
      ghost var later := DecodeEntries(rest[size..], remaining - 1);
      assert whole == (entries + [entry]) + later by {
        assert DecodeEntries(rest, remaining) == [entry] + later;
        Regroup(entries, [entry], later);
      }
      entries := entries + [entry];
      rest := rest[size..];
      remaining := remaining - 1;
    }
  }

  /** An entry as the archive object keeps it (big/big.py:97-101): the path
      decoded as UTF-8 with `errors='replace'`. */
  datatype Record = Record(offset: u32, length: u32, path: string)

  function ToRecords(es: seq<Entry>, codec: Codec): (r: seq<Record>)
    ensures |r| == |es|
    ensures forall k :: 0 <= k < |es| ==>
      r[k] == Record(es[k].offset, es[k].length, codec.utf8Replace(es[k].path))
  {
    seq(|es|, k requires 0 <= k < |es| => Record(es[k].offset, es[k].length, codec.utf8Replace(es[k].path)))
  }
}
