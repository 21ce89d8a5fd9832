/** The `BigArchive` object of big/big.py: a path, the header and the entry
    list it parsed, and the operations that read, write and patch the archive
    at that path. The file system is a `Disk` passed in and, where the source
    writes, returned. */
module Archive {
  import opened Base
  import opened HeaderCodec
  import opened EntryTable
  import opened Sidecar
  import opened Builder
  import opened Patcher
  import opened Store

  /** `if filepath`: a path is given and is not the empty string. */
  predicate Named(filePath: Option<string>)
  {
    filePath.Some? && filePath.value != []
  }

  /** `filepath and os.path.exists(filepath)`. */
  predicate Present(filePath: Option<string>, disk: Disk)
  {
    Named(filePath) && filePath.value in disk
  }

  /** What `parse` returns for the bytes of an archive (big/big.py:45-106):
      `Malformed` exactly when there are fewer than 16 bytes, and otherwise
      the header and at most `numFiles` entries. */
  function ParseImage(data: seq<byte>, codec: Codec): (r: Result<(HeaderInfo, seq<Record>)>)
    ensures r.Err? <==> |data| < HEADER_LEN
    ensures r.Err? ==> r.error == Malformed
    ensures r.Ok? ==> |r.value.1| <= r.value.0.numFiles
  {
    match DecodeArchive(data)
    case Err(e) => Err(e)
    case Ok((h, es)) => Ok((Describe(h), ToRecords(es, codec)))
  }

  /** The files `extract` writes, in entry order: each entry's path with what
      `seek(offset)` and `read(length)` return, which is cut short at the end
      of the archive. */
  function ExtractFiles(data: seq<byte>, entries: seq<Record>): (r: seq<(string, seq<byte>)>)
    ensures |r| == |entries|
    ensures forall k :: 0 <= k < |entries| ==> r[k].0 == entries[k].path && |r[k].1| <= entries[k].length
    ensures forall k :: 0 <= k < |entries| && entries[k].offset + entries[k].length <= |data| ==>
              r[k].1 == data[entries[k].offset..entries[k].offset + entries[k].length]
  {
    seq(|entries|, k requires 0 <= k < |entries| =>
      (entries[k].path, SliceClamped(data, entries[k].offset, entries[k].offset + entries[k].length)))
  }

  /** The extraction loop (big/big.py:162-173), collecting what it writes. */
  method ExtractPayloads(data: seq<byte>, entries: seq<Record>) returns (files: seq<(string, seq<byte>)>)
    ensures files == ExtractFiles(data, entries)
  {
    files := [];
    var i := 0;
    while i < |entries|
      invariant 0 <= i <= |entries|
      invariant files == ExtractFiles(data, entries[..i])
    {
      var e := entries[i];
      var chunk := SliceClamped(data, e.offset, e.offset + e.length);
      assert entries[..i + 1] == entries[..i] + [e];
      files := files + [(e.path, chunk)];
      i := i + 1;
    }
    assert entries[..i] == entries;
  }

  /** The archive `patch_parameters` writes back: the bytes read from the
      path, patched group by group in the grouping's insertion order. */
  function PatchedImage(data: seq<byte>, entries: seq<Record>, params: seq<ModParameter>, codec: Codec): (r: seq<byte>)
    ensures |r| == |data|
  {
    PatchAll(data, entries, Grouped(params), codec)
  }

  /** The body of `patch_parameters` once the entries are known
      (big/big.py:198-273): group the requests, read the archive into a
      buffer, patch the buffer group by group, and commit it. */
  method PatchAndCommit(disk: Disk, path: string, entries: seq<Record>, params: seq<ModParameter>,
                        codec: Codec, faults: Faults)
    returns (result: Option<string>, after: Disk)
    requires path in disk
    ensures (after, result) == Commit(disk, path, PatchedImage(disk[path], entries, params, codec), faults)
  {
    var order, groups := GroupByInnerFile(params);
    var data := disk[path];
    var buf := new byte[|data|](k requires 0 <= k < |data| => data[k]);
    assert buf[..] == data;
    PatchBuffer(buf, entries, order, groups, codec);
    ItemsGrouped(params, order, groups);
    var committed := Commit(disk, path, buf[..], faults);
    after := committed.0;
    result := committed.1;
  }

  class BigArchive {
    var filePath: Option<string>
    var header: HeaderInfo
    var entries: seq<Record>

    /** `BigArchive(filepath)` up to its optional parse (big/big.py:33-40). */
    constructor Init(filePath: Option<string>)
      ensures this.filePath == filePath && header == EMPTY_INFO && entries == []
    {
      this.filePath := filePath;
      header := EMPTY_INFO;
      entries := [];
    }

    /** `BigArchive(filepath)` (big/big.py:25-43): the archive is parsed when
        the path names a file, and a parse error propagates. */
    static method Open(filePath: Option<string>, disk: Disk, codec: Codec) returns (r: Result<BigArchive>)
      ensures r.Ok? ==> fresh(r.value) && r.value.filePath == filePath
      ensures !Present(filePath, disk) ==> r.Ok? && r.value.header == EMPTY_INFO && r.value.entries == []
      ensures Present(filePath, disk) ==>
        var p := ParseImage(disk[filePath.value], codec);
        && (p.Err? ==> r == Err(p.error))
        && (p.Ok? ==> r.Ok? && r.value.header == p.value.0 && r.value.entries == p.value.1)
    {
      var a := new BigArchive.Init(filePath);
      if Present(filePath, disk) {
        var p := a.Parse(disk, codec);
        if p.Err? {
          return Err(p.error);
        }
      }
      r := Ok(a);
    }

    /** `parse` (big/big.py:45-106): a missing file is `NotFound` and changes
        nothing; otherwise the entries are cleared, a file shorter than the
        header is `Malformed` with the old header kept, and a longer one sets
        the header and the entries read. */
    method Parse(disk: Disk, codec: Codec) returns (r: Result<(HeaderInfo, seq<Record>)>)
      modifies this
      ensures filePath == old(filePath)
      ensures !Present(filePath, disk) ==> r == Err(NotFound) && header == old(header) && entries == old(entries)
      ensures Present(filePath, disk) ==> r == ParseImage(disk[filePath.value], codec)
      ensures Present(filePath, disk) && r.Ok? ==> header == r.value.0 && entries == r.value.1
      ensures Present(filePath, disk) && r.Err? ==> header == old(header) && entries == []
    {
      if !Present(filePath, disk) {
        return Err(NotFound);
      }
      entries := [];
      var data := disk[filePath.value];
      var h := DecodeHeader(data);
      if h.Err? {
        return Err(Malformed);
      }
      header := Describe(h.value);
      var es := ReadEntries(data[HEADER_LEN..], h.value.numFiles);
      entries := ToRecords(es, codec);
      r := Ok((header, entries));
    }

    /** `extract` (big/big.py:131-175): with no path it is `NoArchive`; with no
        entries it parses first; it then writes the sidecar text for the
        header and one file per entry, read from the archive at the path. */
    method Extract(disk: Disk, codec: Codec) returns (r: Result<(string, seq<(string, seq<byte>)>)>)
      modifies this
      ensures filePath == old(filePath)
      ensures !Named(filePath) ==> r == Err(NoArchive) && header == old(header) && entries == old(entries)
      ensures Named(filePath) && filePath.value !in disk ==> r == Err(NotFound)
      ensures old(entries) != [] ==> header == old(header) && entries == old(entries)
      ensures old(entries) == [] && Present(filePath, disk) ==>
        var p := ParseImage(disk[filePath.value], codec);
        && (p.Err? ==> r == Err(Malformed))
        && (p.Ok? ==> header == p.value.0 && entries == p.value.1)
      ensures old(entries) == [] && r.Err? ==> header == old(header) && entries == []
      ensures Present(filePath, disk) && (old(entries) != [] || ParseImage(disk[filePath.value], codec).Ok?) ==>
        r == Ok((MetaText(header), ExtractFiles(disk[filePath.value], entries)))
    {
      if !Named(filePath) {
        return Err(NoArchive);
      }
      if entries == [] {
        var p := Parse(disk, codec);
        if p.Err? {
          return Err(p.error);
        }
      }
      var sidecar := MetaText(header);
      if filePath.value !in disk {
        return Err(NotFound);
      }
      var files := ExtractPayloads(disk[filePath.value], entries);
      r := Ok((sidecar, files));
    }

    /** `patch_parameters` (big/big.py:177-273): no requests do nothing; with
        no path it is `NoArchive`; with no entries it parses first; it then
        reads the archive, patches it group by group and commits it over the
        path with a backup. The result is the path, or `None` when the
        commit failed. */
    method PatchParameters(params: seq<ModParameter>, disk: Disk, codec: Codec, faults: Faults)
      returns (r: Result<Option<string>>, after: Disk)
      modifies this
      ensures filePath == old(filePath)
      ensures params == [] ==> r == Ok(None) && after == disk && header == old(header) && entries == old(entries)
      ensures params != [] && !Named(filePath) ==> r == Err(NoArchive) && after == disk
      ensures params != [] && Named(filePath) && filePath.value !in disk ==> r == Err(NotFound) && after == disk
      ensures old(entries) != [] || params == [] || !Named(filePath) ==> header == old(header) && entries == old(entries)
      ensures params != [] && old(entries) == [] && Present(filePath, disk) ==>
        var p := ParseImage(disk[filePath.value], codec);
        && (p.Err? ==> r == Err(Malformed) && after == disk)
        && (p.Ok? ==> header == p.value.0 && entries == p.value.1)
      ensures old(entries) == [] && r.Err? ==> header == old(header) && entries == []
      ensures params != [] && Present(filePath, disk) && (old(entries) != [] || ParseImage(disk[filePath.value], codec).Ok?) ==>
        var (committed, result) := Commit(disk, filePath.value, PatchedImage(disk[filePath.value], entries, params, codec), faults);
        r == Ok(result) && after == committed
    {
      after := disk;
      if params == [] {
        return Ok(None), after;
      }
      if !Named(filePath) {
        return Err(NoArchive), after;
      }
      if entries == [] {
        var p := Parse(disk, codec);
        if p.Err? {
          return Err(p.error), after;
        }
      }
      var path := filePath.value;
      if path !in disk {
        return Err(NotFound), after;
      }
      var result;
      result, after := PatchAndCommit(disk, path, entries, params, codec, faults);
      r := Ok(result);
    }

    /** `bundle` (big/big.py:275-329): the sidecar and walk are turned into an
        archive image; a sidecar error comes first, then an empty output path
        (which `open` refuses), then a value that does not fit 32 bits. The
        image is written at the output path and opened as a new archive. */
    static method Bundle(sidecar: Option<string>, walk: seq<WalkFile>, outputPath: string, disk: Disk, codec: Codec)
      returns (r: Result<BigArchive>, after: Disk)
      ensures var b := BundleSpec(sidecar, walk);
        && (b.Err? && b.error != OutOfRange ==> r == Err(b.error) && after == disk)
        && (!(b.Err? && b.error != OutOfRange) && outputPath == [] ==> r == Err(NotFound) && after == disk)
        && (b.Err? && b.error == OutOfRange && outputPath != [] ==> r == Err(OutOfRange) && after == disk)
        && (b.Ok? && outputPath != [] ==> after == disk[outputPath := b.value])
      ensures r.Ok? ==> fresh(r.value) && r.value.filePath == Some(outputPath)
      ensures BundleSpec(sidecar, walk).Ok? && outputPath != [] ==>
        var p := ParseImage(BundleSpec(sidecar, walk).value, codec);
        && (p.Err? ==> r == Err(Malformed))
        && (p.Ok? ==> r.Ok? && r.value.header == p.value.0 && r.value.entries == p.value.1)
    {
      after := disk;
      var image := Builder.Bundle(sidecar, walk);
      if image.Err? && image.error != OutOfRange {
        return Err(image.error), after;
      }
      if outputPath == [] {
        return Err(NotFound), after;
      }
      if image.Err? {
        return Err(OutOfRange), after;
      }
      after := disk[outputPath := image.value];
      r := Open(Some(outputPath), after, codec);
    }
  }

  /** Such an image parses back to its header and the records of its table. */
  lemma ParseBuilt(h: Header, files: seq<WalkFile>, codec: Codec)
    requires |h.magic| == 4 && NoNulPaths(files) && h.numFiles == |files|
    requires Fits(LayoutFrom(h.headerSize, files))
    requires h.headerSize == |h.magic| + 12 + |EncodeEntries(TableOf(LayoutFrom(h.headerSize, files)))|
    ensures var slots := LayoutFrom(h.headerSize, files);
      ParseImage(Image(h, slots), codec) == Ok((Describe(h), ToRecords(TableOf(slots), codec)))
  {
    var slots := LayoutFrom(h.headerSize, files);
    LayoutNoNul(h.headerSize, files);
    ImageTableRoundTrip(h, slots);
  }

  /** The record the parser makes of the `k`-th table entry. */
  lemma RecordOfSlot(slots: seq<Slot>, codec: Codec, k: nat)
    requires Fits(slots) && k < |slots|
    ensures ToRecords(TableOf(slots), codec)[k]
            == Record(slots[k].offset, slots[k].length, codec.utf8Replace(Utf8Encode(slots[k].path)))
  {
    assert TableOf(slots)[k] == Entry(slots[k].offset, slots[k].length, Utf8Encode(slots[k].path));
  }

  /** Extracting the `k`-th record of such an image gives the `k`-th file, at
      its path when the decoder reads that path's UTF-8 back. */
  lemma ExtractBuiltAt(h: Header, files: seq<WalkFile>, codec: Codec, k: nat)
    requires Fits(LayoutFrom(h.headerSize, files))
    requires h.headerSize == |h.magic| + 12 + |EncodeEntries(TableOf(LayoutFrom(h.headerSize, files)))|
    requires k < |files|
    requires ReadsBack(codec, files[k].relPath)
    ensures var slots := LayoutFrom(h.headerSize, files);
      ExtractFiles(Image(h, slots), ToRecords(TableOf(slots), codec))[k] == (files[k].relPath, files[k].data)
  {
    var slots := LayoutFrom(h.headerSize, files);
    var out := Image(h, slots);
    var records := ToRecords(TableOf(slots), codec);
    LayoutSlotAt(h.headerSize, files, k);
    RecordOfSlot(slots, codec, k);
    ImagePayloadAt(h, files, k);
    ExtractAt(out, records, k, files[k].relPath, files[k].data);
  }

  lemma ExtractAt(data: seq<byte>, records: seq<Record>, k: nat, path: string, contents: seq<byte>)
    requires k < |records| && records[k].path == path
    requires records[k].offset + records[k].length <= |data|
    requires data[records[k].offset..records[k].offset + records[k].length] == contents
    ensures ExtractFiles(data, records)[k] == (path, contents)
  {
  }

  /** An archive image the builder lays out with a consistent header (a
      four-byte magic, the count of files, and the header size that was
      actually written) parses back to that header, and extracting it gives
      back every file at its path with its contents, when the decoder reads
      the UTF-8 of each path back as that path. */
  lemma BundleThenExtract(h: Header, files: seq<WalkFile>, codec: Codec)
    requires |h.magic| == 4 && NoNulPaths(files) && h.numFiles == |files|
    requires Fits(LayoutFrom(h.headerSize, files))
    requires h.headerSize == |h.magic| + 12 + |EncodeEntries(TableOf(LayoutFrom(h.headerSize, files)))|
    requires forall k :: 0 <= k < |files| ==> ReadsBack(codec, files[k].relPath)
    ensures var out := Image(h, LayoutFrom(h.headerSize, files));
      var p := ParseImage(out, codec);
      && p.Ok? && p.value.0 == Describe(h)
      && |ExtractFiles(out, p.value.1)| == |files|
      && forall k :: 0 <= k < |files| ==> ExtractFiles(out, p.value.1)[k] == (files[k].relPath, files[k].data)
  {
    ParseBuilt(h, files, codec);
    forall k | 0 <= k < |files|
      ensures ExtractFiles(Image(h, LayoutFrom(h.headerSize, files)),
                           ToRecords(TableOf(LayoutFrom(h.headerSize, files)), codec))[k]
              == (files[k].relPath, files[k].data)
    {
      ExtractBuiltAt(h, files, codec, k);
    }
  }

  /** A patch that meets no fault leaves the old archive in the backup and an
      archive of the same length at the path, in which every byte outside the
      matched entries of the requested files is the old one. */
  lemma PatchCommitted(disk: Disk, path: string, entries: seq<Record>, params: seq<ModParameter>, codec: Codec, x: nat)
    requires path in disk
    ensures var (after, result) := Commit(disk, path, PatchedImage(disk[path], entries, params, codec), NO_FAULTS);
      && result == Some(path)
      && after[BackupName(path)] == disk[path]
      && |after[path]| == |disk[path]|
      && (x < |disk[path]| && (forall key :: key in Keys(params) ==> !Covers(entries, key, x)) ==>
            after[path][x] == disk[path][x])
  {
    var data := disk[path];
    var patched := PatchedImage(data, entries, params, codec);
    CommitSucceeds(disk, path, patched);
    if x < |data| && (forall key :: key in Keys(params) ==> !Covers(entries, key, x)) {
      var groups := Grouped(params);
      assert forall g :: 0 <= g < |groups| ==> groups[g].0 == Keys(params)[g];
      PatchAllOutside(data, entries, groups, codec, x);
    }
  }
}
