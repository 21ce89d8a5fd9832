/** `BigArchive.bundle` (big/big.py:275-329): rebuilds an archive from an
    extracted folder. The header values come from the sidecar, the entries
    from the directory walk in the order it yields files; offsets start at the
    sidecar's header size and each file follows the one before it. The walk
    itself is an input here: the order `os.walk` yields is not specified. */
module Builder {
  import opened Base
  import opened HeaderCodec
  import opened EntryTable
  import opened Sidecar

  /** One file of the walk: its base name, its path relative to the folder,
      and its contents. */
  datatype WalkFile = WalkFile(name: string, relPath: string, data: seq<byte>)

  /** One collected file (big/big.py:316): the offset given to it, its length,
      its relative path and its contents. */
  datatype Slot = Slot(offset: int, length: nat, path: string, data: seq<byte>)

  /** The walk without the sidecar files (big/big.py:310-311). */
  function Kept(walk: seq<WalkFile>): (r: seq<WalkFile>)
    ensures |r| <= |walk|
  {
    if walk == [] then []
    else if walk[0].name == META_NAME then Kept(walk[1..])
    else [walk[0]] + Kept(walk[1..])
  }

  /** The kept files are exactly the walked files that are not sidecars. */
  lemma {:induction false} KeptFiles(walk: seq<WalkFile>)
    ensures forall f :: f in Kept(walk) <==> f in walk && f.name != META_NAME
  {
    if walk != [] {
      KeptFiles(walk[1..]);
      assert forall f :: f in walk <==> f == walk[0] || f in walk[1..];
    }
  }

  /** The entries as the loop at big/big.py:308-317 collects them, the first at
      offset `start`. */
  function LayoutFrom(start: int, files: seq<WalkFile>): (r: seq<Slot>)
    ensures |r| == |files|
    decreases files
  {
    if files == [] then []
    else [Slot(start, |files[0].data|, files[0].relPath, files[0].data)]
         + LayoutFrom(start + |files[0].data|, files[1..])
  }

  /** The sum of the lengths of the first `k` files. */
  function LengthBefore(files: seq<WalkFile>, k: nat): nat
    requires k <= |files|
  {
    if k == 0 then 0 else LengthBefore(files, k - 1) + |files[k - 1].data|
  }

  /** The offsets the builder assigns: the first is `start`, each later one is
      the one before plus that file's length, so each is `start` plus the
      lengths of the files before it; every length is its file's size, and the
      order is the walk's. */
  lemma LayoutOffsets(start: int, files: seq<WalkFile>)
    ensures var r := LayoutFrom(start, files);
      && (forall k :: 0 <= k < |r| ==> r[k].offset == start + LengthBefore(files, k))
      && (forall k :: 0 <= k < |r| ==>
            r[k].length == |files[k].data| && r[k].data == files[k].data && r[k].path == files[k].relPath)
      && (forall k :: 0 < k < |r| ==> r[k].offset == r[k - 1].offset + r[k - 1].length)
  {
    var r := LayoutFrom(start, files);
    forall k | 0 <= k < |r|
      ensures r[k] == Slot(start + LengthBefore(files, k), |files[k].data|, files[k].relPath, files[k].data)
    {
      LayoutSlotAt(start, files, k);
    }
  }

  /** The `k`-th slot, by induction on `k`. */
  lemma {:induction false} LayoutSlotAt(start: int, files: seq<WalkFile>, k: nat)
    requires k < |files|
    ensures LayoutFrom(start, files)[k]
            == Slot(start + LengthBefore(files, k), |files[k].data|, files[k].relPath, files[k].data)
    decreases k
  {
    if k > 0 {
      var d0 := |files[0].data|;
      LayoutSlotAt(start + d0, files[1..], k - 1);
      LengthBeforeTail(files, k);
      assert LayoutFrom(start, files)[k] == LayoutFrom(start + d0, files[1..])[k - 1];
    }
  }

  lemma {:induction false} LengthBeforeTail(files: seq<WalkFile>, k: nat)
    requires 0 < k <= |files|
    ensures LengthBefore(files, k) == |files[0].data| + LengthBefore(files[1..], k - 1)
  {
    if k > 1 {
      LengthBeforeTail(files, k - 1);
    }
  }

  /** The payload bytes, written one file after another (big/big.py:325-326). */
  function Payload(slots: seq<Slot>): seq<byte>
  {
    if slots == [] then [] else slots[0].data + Payload(slots[1..])
  }

  /** `struct.pack('>II', offset, length)` accepts the slot. */
  predicate SlotFits(s: Slot)
  {
    0 <= s.offset < U32_LIMIT && s.length < U32_LIMIT
  }

  predicate Fits(slots: seq<Slot>)
  {
    forall k :: 0 <= k < |slots| ==> SlotFits(slots[k])
  }

  /** The entry table the builder writes (big/big.py:320-322): the paths
      encoded as UTF-8. */
  function TableOf(slots: seq<Slot>): (r: seq<Entry>)
    requires Fits(slots)
    ensures |r| == |slots|
    ensures forall k :: 0 <= k < |r| ==> r[k] == Entry(slots[k].offset, slots[k].length, Utf8Encode(slots[k].path))
  {
    seq(|slots|, k requires 0 <= k < |slots| => Entry(slots[k].offset, slots[k].length, Utf8Encode(slots[k].path)))
  }

  predicate InU32(x: int)
  {
    0 <= x < U32_LIMIT
  }

  /** The header `struct.pack('>III', ...)` writes for the sidecar's values, or
      `None` when one of them does not fit 32 bits. */
  function PackHeader(m: Meta): (r: Option<Header>)
    ensures r.Some? <==> InU32(m.archiveSize) && InU32(m.numFiles) && InU32(m.headerSize)
    ensures r.Some? ==> r.value == Header(m.magic, m.archiveSize, m.numFiles, m.headerSize)
  {
    if InU32(m.archiveSize) && InU32(m.numFiles) && InU32(m.headerSize)
    then Some(Header(m.magic, m.archiveSize, m.numFiles, m.headerSize))
    else None
  }

  /** The archive bytes: header, entry table, payloads (big/big.py:301-326). */
  function Image(h: Header, slots: seq<Slot>): seq<byte>
    requires Fits(slots)
  {
    EncodeHeader(h) + EncodeEntries(TableOf(slots)) + Payload(slots)
  }

  /** The bytes `bundle` writes, or the exception it raises: a missing sidecar
      is `NotFound`; a sidecar `ReadMeta` refuses keeps its error; a header
      value or an offset or length that `struct.pack` cannot hold is
      `OutOfRange`. */
  function BundleSpec(sidecar: Option<string>, walk: seq<WalkFile>): (r: Result<seq<byte>>)
  {
    if sidecar.None? then Err(NotFound)
    else
      var meta := ReadMeta(sidecar.value);
      if meta.Err? then Err(meta.error)
      else
        var h := PackHeader(meta.value);
        if h.None? then Err(OutOfRange)
        else
          var slots := LayoutFrom(meta.value.headerSize, Kept(walk));
          if !Fits(slots) then Err(OutOfRange) else Ok(Image(h.value, slots))
  }

  /** The walk loop of `bundle` (big/big.py:304-317): skips the sidecar,
      gives each file the running offset and advances it by the file's length. */
  method Collect(headerSize: int, walk: seq<WalkFile>) returns (slots: seq<Slot>)
    ensures slots == LayoutFrom(headerSize, Kept(walk))
  {
    ghost var whole := LayoutFrom(headerSize, Kept(walk));
    slots := [];
    var current := headerSize;
    var i := 0;
    while i < |walk|
      invariant 0 <= i <= |walk|
      invariant whole == slots + LayoutFrom(current, Kept(walk[i..]))
    {
      var f := walk[i];
      assert walk[i..][1..] == walk[i + 1..];
      if f.name != META_NAME {
        var slot := Slot(current, |f.data|, f.relPath, f.data);
        Regroup(slots, [slot], LayoutFrom(current + |f.data|, Kept(walk[i + 1..])));
        slots := slots + [slot];
        current := current + |f.data|;
      }
      i := i + 1;
    }
  }

  /** The entry-writing loop (big/big.py:320-322); `struct.pack` refuses an
      offset or a length that does not fit 32 bits. */
  method WriteTable(out: seq<byte>, slots: seq<Slot>) returns (r: Result<seq<byte>>)
    ensures Fits(slots) ==> r == Ok(out + EncodeEntries(TableOf(slots)))
    ensures !Fits(slots) ==> r == Err(OutOfRange)
  {
    var written := out;
    var i := 0;
    while i < |slots|
      invariant 0 <= i <= |slots|
      invariant Fits(slots[..i])
      invariant written == out + EncodeEntries(TableOf(slots[..i]))
    {
      var s := slots[i];
      if !SlotFits(s) {
        assert !Fits(slots);
        return Err(OutOfRange);
      }
      var e := Entry(s.offset, s.length, Utf8Encode(s.path));
      TableOfSnoc(slots, i);
      EncodeEntriesSnoc(TableOf(slots[..i]), e);
      Regroup(out, EncodeEntries(TableOf(slots[..i])), EncodeEntry(e));
      written := written + EncodeEntry(e);
      i := i + 1;
    }
    assert slots[..i] == slots;
    r := Ok(written);
  }

  /** The payload-writing loop (big/big.py:325-326). */
  method WritePayloads(out: seq<byte>, slots: seq<Slot>) returns (written: seq<byte>)
    ensures written == out + Payload(slots)
  {
    written := out;
    var i := 0;
    while i < |slots|
      invariant 0 <= i <= |slots|
      invariant written + Payload(slots[i..]) == out + Payload(slots)
    {
      assert slots[i..][1..] == slots[i + 1..];
      Regroup(written, slots[i].data, Payload(slots[i + 1..]));
      written := written + slots[i].data;
      i := i + 1;
    }
  }

  /** `bundle` as the source runs it: read the sidecar, write the header,
      collect the walk, write the table, write the payloads. */
  method Bundle(sidecar: Option<string>, walk: seq<WalkFile>) returns (r: Result<seq<byte>>)
    ensures r == BundleSpec(sidecar, walk)
  {
    if sidecar.None? {
      return Err(NotFound);
    }
    var meta := ReadMeta(sidecar.value);
    if meta.Err? {
      return Err(meta.error);
    }
    var m := meta.value;
    var h := PackHeader(m);
    if h.None? {
      return Err(OutOfRange);
    }
    var out := EncodeHeader(h.value);
    var slots := Collect(m.headerSize, walk);
    var table := WriteTable(out, slots);
    if table.Err? {
      return Err(OutOfRange);
    }
    var written := WritePayloads(table.value, slots);
    r := Ok(written);
  }

  lemma TableOfSnoc(slots: seq<Slot>, i: nat)
    requires i < |slots| && Fits(slots[..i]) && SlotFits(slots[i])
    ensures Fits(slots[..i + 1])
    ensures TableOf(slots[..i + 1])
            == TableOf(slots[..i]) + [Entry(slots[i].offset, slots[i].length, Utf8Encode(slots[i].path))]
  {
    assert slots[..i + 1] == slots[..i] + [slots[i]];
  }

  lemma {:induction false} EncodeEntriesSnoc(es: seq<Entry>, e: Entry)
    ensures EncodeEntries(es + [e]) == EncodeEntries(es) + EncodeEntry(e)
    decreases es
  {
    if es == [] {
      assert [e][1..] == [];
      assert EncodeEntries([e]) == EncodeEntry(e) + EncodeEntries([]);
    } else {
      assert (es + [e])[0] == es[0];
      assert (es + [e])[1..] == es[1..] + [e];
      EncodeEntriesSnoc(es[1..], e);
      Regroup(EncodeEntry(es[0]), EncodeEntries(es[1..]), EncodeEntry(e));
    }
  }

  /** The bytes of `a + b` from `|a| + i` to `|a| + j` are those of `b` from `i` to `j`. */
  lemma SliceAfter<T>(a: seq<T>, b: seq<T>, i: nat, j: nat)
    requires i <= j <= |b|
    ensures (a + b)[|a| + i..|a| + j] == b[i..j]
  {
  }

  /** The walked files' contents, one after another. */
  function Contents(files: seq<WalkFile>): seq<byte>
  {
    if files == [] then [] else files[0].data + Contents(files[1..])
  }

  /** The payloads the builder writes are the files' contents in walk order,
      whatever offset the first one gets. */
  lemma {:induction false} PayloadIsContents(start: int, files: seq<WalkFile>)
    ensures Payload(LayoutFrom(start, files)) == Contents(files)
    decreases files
  {
    if files != [] {
      var r := LayoutFrom(start, files);
      PayloadIsContents(start + |files[0].data|, files[1..]);
      assert r[1..] == LayoutFrom(start + |files[0].data|, files[1..]);
    }
  }

  /** File `k`'s contents follow the contents of the files before it. */
  lemma {:induction false} ContentsSlice(files: seq<WalkFile>, k: nat)
    requires k < |files|
    ensures LengthBefore(files, k) + |files[k].data| <= |Contents(files)|
    ensures Contents(files)[LengthBefore(files, k)..LengthBefore(files, k) + |files[k].data|] == files[k].data
    decreases files
  {
    var d0 := files[0].data;
    if k == 0 {
      assert Contents(files)[..|d0|] == d0;
    } else {
      ContentsSlice(files[1..], k - 1);
      LengthBeforeTail(files, k);
      assert files[1..][k - 1] == files[k];
      var lo := LengthBefore(files[1..], k - 1);
      SliceAfter(d0, Contents(files[1..]), lo, lo + |files[k].data|);
    }
  }

  /** No walked path contains U+0000, so no encoded path has a zero byte. */
  predicate NoNulPaths(files: seq<WalkFile>)
  {
    forall k :: 0 <= k < |files| ==> '\0' !in files[k].relPath
  }

  lemma KeptNoNul(walk: seq<WalkFile>)
    requires NoNulPaths(walk)
    ensures NoNulPaths(Kept(walk))
  {
    KeptFiles(walk);
    forall k | 0 <= k < |Kept(walk)| ensures '\0' !in Kept(walk)[k].relPath {
      assert Kept(walk)[k] in walk;
    }
  }

  /** No slot path contains U+0000. */
  predicate NoNulSlots(slots: seq<Slot>)
  {
    forall k :: 0 <= k < |slots| ==> '\0' !in slots[k].path
  }

  lemma TableHasNoZero(slots: seq<Slot>)
    requires NoNulSlots(slots) && Fits(slots)
    ensures NoZeroInPaths(TableOf(slots))
  {
    var table := TableOf(slots);
    forall k | 0 <= k < |table| ensures 0 !in table[k].path {
      Utf8ZeroByte(slots[k].path);
    }
  }

  lemma LayoutNoNul(start: int, files: seq<WalkFile>)
    requires NoNulPaths(files)
    ensures NoNulSlots(LayoutFrom(start, files))
  {
    LayoutOffsets(start, files);
  }

  /** A successful bundle is the image of the sidecar's header and the laid-out
      kept files. */
  lemma BundleIsImage(text: string, walk: seq<WalkFile>)
    requires BundleSpec(Some(text), walk).Ok?
    ensures ReadMeta(text).Ok? && PackHeader(ReadMeta(text).value).Some?
    ensures var h := PackHeader(ReadMeta(text).value).value;
      && h == Header(ReadMeta(text).value.magic, ReadMeta(text).value.archiveSize,
                     ReadMeta(text).value.numFiles, ReadMeta(text).value.headerSize)
      && Fits(LayoutFrom(h.headerSize, Kept(walk)))
      && BundleSpec(Some(text), walk) == Ok(Image(h, LayoutFrom(h.headerSize, Kept(walk))))
  {
  }

  /** The parser reads the header of an image back and decodes its entries
      from everything after the 16 header bytes. */
  lemma ImageDecodes(h: Header, slots: seq<Slot>)
    requires |h.magic| == 4 && Fits(slots)
    ensures DecodeArchive(Image(h, slots))
            == Ok((h, DecodeEntries(EncodeEntries(TableOf(slots)) + Payload(slots), h.numFiles)))
  {
    var rest := EncodeEntries(TableOf(slots)) + Payload(slots);
    Regroup(EncodeHeader(h), EncodeEntries(TableOf(slots)), Payload(slots));
    HeaderRoundTrip(h, rest);
    assert (EncodeHeader(h) + rest)[HEADER_LEN..] == rest;
  }

  /** What the parser reads back from an archive image whose magic has four
      bytes: that header, then `numFiles` entries. When the count is at most
      the number of entries written those are the first written entries; a
      larger count reads on into the payloads. */
  lemma ImageReadsBack(h: Header, slots: seq<Slot>)
    requires |h.magic| == 4 && Fits(slots) && NoNulSlots(slots)
    ensures h.numFiles <= |slots| ==> DecodeArchive(Image(h, slots)) == Ok((h, TableOf(slots)[..h.numFiles]))
    ensures h.numFiles > |slots| ==>
      DecodeArchive(Image(h, slots)) == Ok((h, TableOf(slots) + DecodeEntries(Payload(slots), h.numFiles - |slots|)))
  {
    if h.numFiles <= |slots| {
      ImageReadsPrefix(h, slots);
    } else {
      ImageReadsOn(h, slots);
    }
  }

  lemma ImageReadsPrefix(h: Header, slots: seq<Slot>)
    requires |h.magic| == 4 && Fits(slots) && NoNulSlots(slots) && h.numFiles <= |slots|
    ensures DecodeArchive(Image(h, slots)) == Ok((h, TableOf(slots)[..h.numFiles]))
  {
    ImageDecodes(h, slots);
    TableHasNoZero(slots);
    TablePrefixRoundTrip(TableOf(slots), Payload(slots), h.numFiles);
  }

  lemma ImageReadsOn(h: Header, slots: seq<Slot>)
    requires |h.magic| == 4 && Fits(slots) && NoNulSlots(slots) && h.numFiles > |slots|
    ensures DecodeArchive(Image(h, slots)) == Ok((h, TableOf(slots) + DecodeEntries(Payload(slots), h.numFiles - |slots|)))
  {
    ImageDecodes(h, slots);
    TableHasNoZero(slots);
    TableThenRest(TableOf(slots), Payload(slots), h.numFiles);
  }

  /** When the header's count matches the table, the parser reads back exactly
      the table that was written. */
  lemma ImageTableRoundTrip(h: Header, slots: seq<Slot>)
    requires |h.magic| == 4 && Fits(slots) && NoNulSlots(slots) && h.numFiles == |slots|
    ensures DecodeArchive(Image(h, slots)) == Ok((h, TableOf(slots)))
  {
    ImageReadsBack(h, slots);
    assert TableOf(slots)[..|slots|] == TableOf(slots);
  }

  /** Payloads laid out from `start` behind `start` bytes of anything: every
      slot's range holds that file's contents. */
  lemma PayloadAt(prefix: seq<byte>, files: seq<WalkFile>, k: nat)
    requires k < |files|
    ensures var slots := LayoutFrom(|prefix|, files);
      var out := prefix + Payload(slots);
      && 0 <= slots[k].offset && slots[k].offset + slots[k].length <= |out|
      && out[slots[k].offset..slots[k].offset + slots[k].length] == files[k].data
  {
    PayloadIsContents(|prefix|, files);
    LayoutSlotAt(|prefix|, files, k);
    ContentsSlice(files, k);
    var lo := LengthBefore(files, k);
    SliceAfter(prefix, Contents(files), lo, lo + |files[k].data|);
  }

  /** When the header size is the length of the header and table actually
      written, every entry's range in the image holds that file's contents. */
  lemma ImagePayloadAt(h: Header, files: seq<WalkFile>, k: nat)
    requires Fits(LayoutFrom(h.headerSize, files))
    requires h.headerSize == |h.magic| + 12 + |EncodeEntries(TableOf(LayoutFrom(h.headerSize, files)))|
    requires k < |files|
    ensures var slots := LayoutFrom(h.headerSize, files);
      var out := Image(h, slots);
      && slots[k].offset + slots[k].length <= |out|
      && out[slots[k].offset..slots[k].offset + slots[k].length] == files[k].data
  {
    var slots := LayoutFrom(h.headerSize, files);
    var prefix := EncodeHeader(h) + EncodeEntries(TableOf(slots));
    assert |prefix| == h.headerSize;
    PayloadAt(prefix, files, k);
  }

  /** The bundle of a folder whose sidecar has a four-byte magic and a count
      equal to the number of kept files parses back to the kept files, in walk
      order, at the offsets the builder gave them. */
  lemma BundleRoundTrip(text: string, walk: seq<WalkFile>)
    requires BundleSpec(Some(text), walk).Ok?
    requires ReadMeta(text).Ok? && |ReadMeta(text).value.magic| == 4
    requires ReadMeta(text).value.numFiles == |Kept(walk)|
    requires NoNulPaths(walk)
    ensures var m := ReadMeta(text).value;
      var slots := LayoutFrom(m.headerSize, Kept(walk));
      var parsed := DecodeArchive(BundleSpec(Some(text), walk).value);
      && parsed.Ok? && |parsed.value.1| == |Kept(walk)|
      && forall k :: 0 <= k < |Kept(walk)| ==>
           && parsed.value.1[k].offset == slots[k].offset
           && parsed.value.1[k].length == |Kept(walk)[k].data|
           && parsed.value.1[k].path == Utf8Encode(Kept(walk)[k].relPath)
  {
    var m := ReadMeta(text).value;
    var files := Kept(walk);
    var slots := LayoutFrom(m.headerSize, files);
    BundleIsImage(text, walk);
    KeptNoNul(walk);
    LayoutNoNul(m.headerSize, files);
    LayoutOffsets(m.headerSize, files);
    ImageTableRoundTrip(PackHeader(m).value, slots);
  }
}
