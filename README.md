# BIG archive codec and patcher, modelled in Dafny

This project models the `BigArchive` class of `big/big.py`. That class reads,
extracts, rebuilds and patches the BIG archives of EA's Command & Conquer
games. It also models the `ModParameter` request record of `big/patch.py`.

A BIG archive has three parts:

- a 16-byte header: a four-byte magic, then the archive size, the file count
  and the header size, each a big-endian 32-bit number;
- an entry table: for each file, its offset and length (big-endian 32-bit)
  and its path as bytes ending in a zero byte;
- the payloads.

The model follows the class part by part:

- `Base` holds bytes, the 32-bit big-endian codec, UTF-8 encoding, Python's
  clamped slices, and the `Codec` parameter that stands for the decoders.
- `HeaderCodec` (`parse`'s header) and `EntryTable` (`parse`'s entry loop,
  and the entry table `bundle` writes) hold the binary format.
- `Text` holds the `str` primitives the code relies on.
- `Paths` is `normalize_path`.
- `IniPatch` is `_patch_ini_content`. Its regular expression
  `^\s*NAME\s*=\s*(\S+)(.*)$` in multi-line mode becomes an explicit scan
  with the backtracking of each `\s*`.
- `Sidecar` is the `__META.bigheader` text that `extract` writes and
  `bundle` reads.
- `Builder` lays out and writes the image that `bundle` builds.
- `Patcher` holds `patch_parameters`' grouping and filtering and its in-place
  buffer patching, done on a Dafny `array<byte>`.
- `Store` is the backup, write and restore sequence, over a map from paths to
  contents.
- `Archive` holds the class itself: `BigArchive` with its `filePath`,
  `header` and `entries` fields, and its methods `Open` (the constructor
  with its optional parse), `Parse`, `Extract`, `PatchParameters` and
  `Bundle`.

The file system is a `Disk`, a map from paths to contents. It is passed in,
and returned where the source writes. The directory walk of `bundle` is a
given list of files.

Where the code's own comments and its behaviour part, the model follows
the behaviour, with one exception, the patch write:

- The class comment (big/big.py:14) describes a 16-byte header. `bundle`
  writes the sidecar's magic as it is, whatever its length, and `Image`
  keeps that. A magic other than four bytes gives an archive that does not
  parse back.
- `extract` reads `length` bytes at each entry's offset only while the range
  lies inside the archive. `f.read` returns fewer bytes at the end, and
  `ExtractFiles` models that.
- The comment at big/big.py:267 says the restore brings back the original
  file. When the first rename fails while an `.OLD` file from an earlier run
  exists, the restoring rename puts that older file over the archive
  (`Store.CommitStaleBackup`).
- The exception is the patch write. The comment at big/big.py:241 says the
  patched content keeps its length, and the checks at big/big.py:242-250
  compare it with the entry's declared length. The clamped slice assignment
  at big/big.py:253 still grows the buffer when an entry runs past its end
  (see Findings). The patch path of the model (`Patcher.PlanGroup` and
  everything built on it) writes only entries that lie inside the buffer.
  The code as written is `Patcher.PatchGroupAsWritten`, and the two are
  proved equal on every entry that does lie inside the buffer
  (`Patcher.AsWrittenAgreesInRange`).

## Model

| member | source | states |
|---|---|---|
| Base.BE32RoundTrip | big/big.py:65 | unpacking a `>I` field gives back the number packed |
| Base.FromBE32RoundTrip | big/big.py:302 | packing the number read from any four bytes gives back those bytes |
| Base.Utf8Char | big/big.py:322 | a character takes one to four bytes, one exactly when it is ASCII, and every byte of a longer sequence is 0x80 or more |
| Base.Utf8Length | big/big.py:322 | UTF-8 takes at least a byte per character, exactly one per character if and only if the text is ASCII, and then each byte is its character's code |
| Base.Utf8ZeroByte | big/big.py:322 | an encoded path holds a zero byte exactly when the path holds U+0000 |
| Base.SliceClamped | big/big.py:224 | `data[lo:hi]` is the exact slice when `hi` is in range, and never longer than `hi - lo` |
| HeaderCodec.EncodeHeader | big/big.py:300-302 | the header written is the magic as given, then twelve bytes for the three numbers |
| HeaderCodec.DecodeHeader | big/big.py:61-66 | fewer than 16 bytes is `Malformed`, and only then; a decoded header has a four-byte magic and re-encodes to the 16 bytes read |
| HeaderCodec.HeaderRoundTrip | big/big.py:61-66 | the header `bundle` writes with a four-byte magic decodes back to the same four values, whatever follows it |
| EntryTable.PathEnd | big/big.py:85-90 | the path stops at the first zero byte, or at the end of the stream |
| EntryTable.PathEndUnique | big/big.py:85-90 | any point with no zero before it and a zero, or the end, at it is that stop |
| EntryTable.DecodeEntries | big/big.py:77-101 | at most `numFiles` entries, none with a zero byte in its path |
| EntryTable.DecodeArchive | big/big.py:58-101 | an error exactly for a stream shorter than the header; otherwise that header and at most `numFiles` entries |
| EntryTable.DecodeOne | big/big.py:82-90 | one written entry decodes back to itself and takes exactly its written size |
| EntryTable.TablePrefixRoundTrip | big/big.py:77-101 | decoding up to the table's count gives back the table's first entries, whatever follows |
| EntryTable.TableThenRest | big/big.py:77-101 | a count past the table gives the table, then what decoding reads from the bytes after it |
| EntryTable.TableRoundTrip | big/big.py:320-322 | for paths without a zero byte, the entry table written decodes to the same offsets, lengths and paths in the same order |
| EntryTable.ReadPath | big/big.py:85-90 | the byte loop reads exactly the path, and steps past its terminator when there is one |
| EntryTable.ReadEntry | big/big.py:78-90 | the loop body reads the entry and its size as `DecodeEntries` defines them |
| EntryTable.ReadEntries | big/big.py:77-101 | the loop returns exactly `DecodeEntries`, including the silent stop on a short stream |
| Text.Strip | big/big.py:295 | `strip()` gives a text no longer than its input, with no whitespace at either edge |
| Text.StripSlice | big/big.py:295 | the stripped text is a slice with only whitespace before and after it |
| Text.LineEnd | big/big.py:347 | `.*` stops at a newline or at the end |
| Text.LineEndRun | big/big.py:347 | no newline lies before that stop, so it is the first |
| Text.SpanSpaceRun | big/big.py:347 | `\s*` consumes only whitespace and stops at a non-space or the end |
| Text.SpanNonSpaceRun | big/big.py:347 | `\S+` consumes only non-space and stops at whitespace or the end |
| Text.StripFixed | big/big.py:380 | a text with no whitespace at its edges strips to itself |
| Text.StripSurrounded | big/big.py:380 | whitespace added before and after a text is removed by `strip()`, which then gives the text's own strip |
| Paths.NormalizePath | big/big.py:380 | the key has no backslash, no ASCII capital, no whitespace at either edge, and is no longer than the path |
| Paths.NormalizeIdempotent | big/big.py:380 | normalising twice is normalising once |
| Paths.NormalizeFoldsCaseAndSlashes | big/big.py:380 | paths that differ only in ASCII case and slash direction have the same key |
| Paths.NormalizeSurroundingSpace | big/big.py:380 | paths that differ only in whitespace around them have the same key |
| Paths.NormalizeGameDataPath | big/patch.py:28 | `Data\INI\GameData.ini` normalises to `data/ini/gamedata.ini` |
| IniPatch.AfterName | big/big.py:347 | `\s*=\s*\S` after the name yields a later, non-whitespace value start |
| IniPatch.TryFrom | big/big.py:347 | a whitespace count that lets the match continue yields a real continuation |
| IniPatch.TryFromGreatest | big/big.py:347 | the backtracking `\s*` keeps the most whitespace that lets the rest match |
| IniPatch.Scan | big/big.py:347 | the search returns a real match at or after its start |
| IniPatch.ScanGreatest | big/big.py:347 | the match found has the greedy, longest leading whitespace at its line start |
| IniPatch.ScanNone | big/big.py:347 | a failed search means no match from that point on |
| IniPatch.ScanLeftmost | big/big.py:347 | no match starts before the one the search finds |
| IniPatch.FindParameter | big/big.py:347 | a match found is a real match, and its groups end where the greedy `\s*`, `\S+` and `.*` stop |
| IniPatch.FindParameterFirst | big/big.py:347 | the match used is the leftmost, and there is none when none is found |
| IniPatch.MatchShape | big/big.py:347-352 | group 1 is leading whitespace, the name, spaces and `=`; the value is a whole run of non-whitespace; group 3 runs to the end of its line |
| IniPatch.Fit | big/big.py:353-359 | the replacement has exactly the old token's length: the value padded with spaces, or cut |
| IniPatch.PatchIni | big/big.py:331-365 | `ParameterNotFound` exactly when nothing matches; otherwise the same length, and only the value token of the first match changes |
| IniPatch.PatchIniRefused | big/big.py:362-364 | refused exactly when the pattern matches nowhere |
| IniPatch.PatchIniLocal | big/big.py:360-362 | every character outside the old value token is unchanged |
| IniPatch.PatchCameraHeight | big/patch.py:26-33 | the stock request pads `600.0` into `1000.0`'s place |
| IniPatch.PatchAcrossNewline | big/big.py:347 | `\s` crosses a newline, so a value on the next line is the one replaced |
| IniPatch.PatchTruncates | big/big.py:356-357 | a longer value is cut; the comment and the later lines stay |
| IniPatch.PatchMissing | big/big.py:362-364 | a text without the name is refused |
| Sidecar.Decimal | big/big.py:157-159 | `str(n)` is a non-empty run of digits |
| Sidecar.DecimalParses | big/big.py:296-298 | `int(str(n))` is `n` |
| Sidecar.ReadLine | big/big.py:295-298 | `readline()` splits the text, ending the line at its first newline |
| Sidecar.MagicTextAscii | big/big.py:66 | `encode('ascii')` of the magic text the archive holds succeeds exactly when every byte is below 0x80, and then gives back the bytes read |
| Sidecar.AsciiDecodes | big/big.py:295 | an ASCII magic read from the sidecar is the text the archive shows for the bytes `bundle` writes |
| Sidecar.TranslateNoCarriageReturn | big/big.py:294-295 | text mode changes nothing in a text without carriage returns |
| Sidecar.ReadNumber | big/big.py:296-298 | a line `int()` refuses is `BadNumber`, and only then; otherwise the value is the integer of the stripped first line and the rest is the text after that line |
| Sidecar.ReadMeta | big/big.py:294-298 | the sidecar reads as a magic and three numbers; a failure is `BadMagic` or `BadNumber` |
| Sidecar.SidecarRoundTrip | big/big.py:154-159 | the sidecar `extract` writes reads back in `bundle` as the same magic and numbers when the magic is printable ASCII |
| Sidecar.SidecarRejectsReplacedMagic | big/big.py:66 | a magic byte of 0x80 or more becomes U+FFFD, which `bundle` refuses as `BadMagic` |
| Builder.Kept | big/big.py:308-311 | the files kept are never more than those walked |
| Builder.KeptFiles | big/big.py:308-311 | a file is kept exactly when it was walked and is not the sidecar |
| Builder.LayoutFrom | big/big.py:304-317 | one slot per kept file |
| Builder.LayoutOffsets | big/big.py:304-317 | the first offset is the header size, each later one the previous offset plus the previous length; each length is its file's size, in walk order |
| Builder.LayoutSlotAt | big/big.py:312-317 | the slot of file `k` starts at the header size plus the sizes of the files before it |
| Builder.Collect | big/big.py:304-317 | the collecting loop yields exactly the layout of the kept files |
| Builder.WriteTable | big/big.py:320-322 | the table loop appends the encoded table, or fails as `OutOfRange` when a slot does not fit 32 bits |
| Builder.WritePayloads | big/big.py:324-326 | the payload loop appends the payloads in table order |
| Builder.Bundle | big/big.py:290-326 | the bytes written are the header, the table and the payloads, with errors in the source's order |
| Builder.PayloadIsContents | big/big.py:324-326 | the payloads are the files' contents one after another |
| Builder.PayloadAt | big/big.py:312-326 | after any prefix of the layout's start size, each file's range holds its bytes |
| Builder.BundleIsImage | big/big.py:290-326 | a successful bundle is the image of the laid-out kept files under a header whose magic and three numbers are the sidecar's |
| Builder.ImageDecodes | big/big.py:61-101 | the parser reads the image's header back and decodes its entries from the bytes after it |
| Builder.ImageReadsBack | big/big.py:77-101 | a count up to the table gives its first entries; a larger count reads on into the payloads |
| Builder.ImageReadsPrefix | big/big.py:77-101 | a count up to the table's size reads that many entries of the table |
| Builder.ImageReadsOn | big/big.py:77-101 | a count past the table's size reads the table and then decodes on into the payloads |
| Builder.ImageTableRoundTrip | big/big.py:297-322 | with a count equal to the table's, the parser reads back exactly the table written |
| Builder.ImagePayloadAt | big/big.py:305-326 | when the header size is the size actually written, each entry's range holds its file |
| Builder.BundleRoundTrip | big/big.py:290-326 | a bundle with a four-byte magic and a matching count parses back to the kept files' offsets, lengths and paths |
| Patcher.KeysDistinct | big/big.py:198-201 | each inner file is grouped once |
| Patcher.KeysOfRequests | big/big.py:198-201 | every request's key is a group, and every group comes from a request |
| Patcher.FilterEmpty | big/big.py:198-201 | a key has requests exactly when it is a group |
| Patcher.FilterExact | big/big.py:198-201 | a group holds exactly the requests with its key |
| Patcher.GroupByInnerFile | big/big.py:198-201 | the dictionary's keys in insertion order are the distinct keys, each with its requests in order |
| Patcher.ItemsGrouped | big/big.py:210 | iterating the dictionary gives the groups in insertion order |
| Patcher.FirstMatch | big/big.py:212-219 | the entry chosen has the key |
| Patcher.FirstMatchLeftmost | big/big.py:212-219 | the first entry with the key is chosen, and none has it when none is chosen |
| Patcher.PatchText | big/big.py:235-240 | applying a group's requests keeps the text's length |
| Patcher.PatchTextAppend | big/big.py:235-240 | requests apply one after another |
| Patcher.PatchTextUnmatched | big/big.py:235-240 | requests whose names do not occur leave the text as it is |
| Patcher.Splice | big/big.py:253 | an in-range overwrite keeps the length and changes only that range |
| Patcher.PlanGroup | big/big.py:212-253 | a planned write always lies inside the buffer |
| Patcher.PlanGroupWrites | big/big.py:242-253 | a range is written exactly when an entry matches, lies inside the buffer and both length checks pass, and then with the re-encoded text at its offset |
| Patcher.PatchGroup | big/big.py:210-253 | one group keeps the buffer's length |
| Patcher.PatchAll | big/big.py:210-253 | all groups together keep the buffer's length |
| Patcher.PatchGroupMissing | big/big.py:216-218 | a missing inner file is skipped |
| Patcher.PatchGroupPastEnd | big/big.py:222-253 | an entry whose range runs past the buffer is never written |
| Patcher.PatchGroupOutside | big/big.py:253 | a byte outside the matched entry's range is unchanged |
| Patcher.PatchAllOutside | big/big.py:210-253 | a byte outside every group's matched range is unchanged |
| Patcher.ApplyRequests | big/big.py:235-240 | the request loop computes `PatchText` |
| Patcher.WriteAt | big/big.py:253 | the buffer's new contents are the splice of its old contents |
| Patcher.PatchGroupInPlace | big/big.py:210-253 | the buffer after one group is `PatchGroup` of the buffer before |
| Patcher.PatchBuffer | big/big.py:206-253 | the buffer after the group loop is `PatchAll` of the buffer before, over the dictionary's items |
| Patcher.SliceAssign | big/big.py:253 | Python's clamped slice assignment can change the length when the range runs past the end |
| Patcher.SliceAssignInRange | big/big.py:253 | a slice assignment of the same length inside the buffer is an overwrite |
| Patcher.EntryTextInRange | big/big.py:224-228 | inside the buffer, the entry's text is the decode of exactly its bytes |
| Patcher.AsWrittenAgreesInRange | big/big.py:222-253 | for a range inside the buffer, the code as written and the corrected model agree |
| Patcher.AsWrittenGrowsBuffer | big/big.py:224-253 | the concrete input under Findings grows the buffer as written, while the corrected model leaves it as it was |
| Store.BackupName | big/big.py:255 | the backup is never the archive's own path |
| Store.Rename | big/big.py:258 | `os.rename` fails exactly when the source is missing |
| Store.CommitSucceeds | big/big.py:255-264 | without faults the backup holds the old archive, the path the new one, and no other file appears |
| Store.CommitMissing | big/big.py:255-273 | a missing archive with no backup leaves the store unchanged and returns `None` |
| Store.CommitRestores | big/big.py:265-273 | a failed write followed by a successful restore puts the old archive back and removes the backup |
| Store.CommitStaleBackup | big/big.py:265-273 | a failed first rename with a stale backup present puts that backup over the archive |
| Store.CommitFrame | big/big.py:255-273 | no file other than the archive and its backup is touched |
| Store.CommitResult | big/big.py:255-273 | the path is returned exactly when the archive existed and neither the rename nor the write failed, and then it holds the new bytes |
| Archive.ParseImage | big/big.py:45-106 | `Malformed` exactly for fewer than 16 bytes; otherwise the header and at most `numFiles` records |
| Archive.ExtractFiles | big/big.py:162-173 | one file per entry at its path, no longer than its length, and exactly its range when that range is inside the archive |
| Archive.ExtractPayloads | big/big.py:162-173 | the extraction loop computes `ExtractFiles` |
| Archive.PatchedImage | big/big.py:198-253 | the patched archive keeps the length of the archive read |
| Archive.PatchAndCommit | big/big.py:198-273 | grouping, patching the buffer in place and committing give `Commit` of `PatchedImage` |
| Archive.BigArchive.Open | big/big.py:26-43 | an absent or empty path gives an empty archive; a present one is parsed, and a parse error propagates |
| Archive.BigArchive.Parse | big/big.py:45-106 | a missing file is `NotFound` and changes nothing; otherwise the entries are cleared, and a short file is `Malformed` with the header kept |
| Archive.BigArchive.Extract | big/big.py:131-175 | no path is `NoArchive`; it parses when there are no entries, and a failed parse (`NotFound` or `Malformed`) keeps the header and leaves the entries empty; it yields the sidecar text of the header and `ExtractFiles` of the archive |
| Archive.BigArchive.PatchParameters | big/big.py:177-273 | no requests return `None` and change nothing; no path is `NoArchive`; a missing file is `NotFound`; a failed parse keeps the header and leaves the entries empty; otherwise the store becomes the commit of the patched archive |
| Archive.BigArchive.Bundle | big/big.py:275-329 | sidecar errors come first, then an empty output path, then values past 32 bits; on success the image is written and opened as a new archive |
| Archive.ParseBuilt | big/big.py:45-106 | a consistently laid-out image parses to its header and the records of its table |
| Archive.ExtractBuiltAt | big/big.py:162-173 | extracting such an image gives back each file at its path |
| Archive.BundleThenExtract | big/big.py:131-175 | `bundle` followed by `extract` gives back the header and every file with its path and contents, when the sidecar's header size and count match what was written |
| Archive.PatchCommitted | big/big.py:177-273 | a patch with no fault leaves the old archive in the backup and a same-length archive whose bytes outside the matched entries are unchanged |

## Left out

- `list_contents` only prints; `scan_and_collect_metadata` walks directories and writes JSON. Neither is modelled.
- The `open`, `seek`, `os.makedirs`, `os.path.join` and `print` calls are not modelled. `Extract` returns the sidecar text and the files it would write rather than writing them, and the output directory's name is not modelled.
- The UTF-8 and cp1252 decoders are the `Codec` parameter: a strict UTF-8 decoder, a replacing UTF-8 decoder and a replacing cp1252 decoder, given by the caller. Encoding is modelled concretely as UTF-8.
- `lower()` is modelled for ASCII letters only. Unicode digits accepted by `int()` are not modelled.
- The sidecar file is written in the locale's encoding; the model treats it as text.
- The order of `os.walk` is the order of the given file list. `os.path.relpath` is taken as given in each `WalkFile`.
- `Builder.Bundle` and `Archive.BigArchive.Bundle`: when `struct.pack` refuses a value, the source leaves a partly written output file; the model leaves the store unchanged.
- `Archive.BigArchive.Bundle`: an output file inside the walked folder is not modelled; the walk is taken as given.
- `Store.Rename` has the POSIX meaning: it replaces an existing destination. On Windows the rename onto an existing `.OLD` fails instead.
- `Store.Commit`: a failed write is a `WriteFailed` fault that may leave a partial file; the bytes or exception of the failing OS call are not modelled.
- Patcher.PlanGroup, Patcher.PlanGroupWrites, Patcher.PatchGroupPastEnd, Patcher.PatchGroup, Patcher.PatchAll, Patcher.PatchBuffer, Archive.PatchedImage, Archive.PatchAndCommit, Archive.BigArchive.PatchParameters, Archive.PatchCommitted: these write an entry only when `offset + length` lies inside the buffer, a guard big/big.py:222-253 lacks. The code as written is Patcher.PatchGroupAsWritten (see Findings). Nothing in the class's methods models the growth of the buffer.
- The diagnostics that `patch_parameters` prints for skipped files and refused requests are not modelled.
- `Archive.BigArchive.Extract`: when the file disappears between the parse and the read, the source has already written the sidecar; the model returns `NotFound` alone.
- cncide/, cnctools/, CnCMods/, cli.py and cnctools.py are not part of this model.

## Findings

| source | as written | input that shows it | evidently intended | confidence | as-written member | corrected member |
|---|---|---|---|---|---|---|
| big/big.py:224 and big/big.py:253 | the entry's text is read with the clamped slice `archive_data[offset:offset+length]`, and the new bytes go back through a clamped slice assignment, with no check that the range lies inside the buffer | an archive buffer `[65, 61, 49]` (`A=1`), an entry `Record(0, 4, "a")` that claims 4 bytes, and a request for parameter `A` of inner file `a` with value `é`. The 3 bytes read decode as `A=1`; the patch gives `A=é`, same character length; its UTF-8 `[65, 61, 0xC3, 0xA9]` has the claimed 4 bytes, so both length checks pass and the assignment grows the buffer to 4 bytes | the patched content keeps the entry's length, as the comment at big/big.py:241 states and the checks at 242-250 aim at, so the archive keeps its length | not executed | Patcher.AsWrittenGrowsBuffer (over Patcher.PatchGroupAsWritten) | Patcher.PatchGroup (with Patcher.PlanGroup and Patcher.PatchGroupPastEnd), which Patcher.PatchBuffer and Archive.BigArchive.PatchParameters use |
