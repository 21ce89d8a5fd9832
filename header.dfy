/** The 16-byte BIG header: a 4-byte tag followed by three big-endian
    unsigned 32-bit fields (big/big.py:61-74, written back at big/big.py:301-302). */
module HeaderCodec {
  import opened Base

  /** The header as the archive stores it. `magic` is the raw tag; the parser
      always yields four bytes, the builder writes whatever the sidecar gives. */
  datatype Header = Header(magic: seq<byte>, archiveSize: u32, numFiles: u32, headerSize: u32)

  const HEADER_LEN: nat := 16

  /** The header bytes written by the builder: the magic verbatim, then `>III`. */
  function EncodeHeader(h: Header): (r: seq<byte>)
    ensures |r| == |h.magic| + 12
    ensures r[..|h.magic|] == h.magic
  {
    h.magic + BE32(h.archiveSize) + BE32(h.numFiles) + BE32(h.headerSize)
  }

  /** Reads the first 16 bytes; a shorter stream is `Malformed`. On success the
      four fields re-encode to exactly the 16 bytes that were read. */
  function DecodeHeader(data: seq<byte>): (r: Result<Header>)
    ensures r.Err? <==> |data| < HEADER_LEN
    ensures r.Err? ==> r.error == Malformed
    ensures r.Ok? ==> |r.value.magic| == 4 && EncodeHeader(r.value) == data[..HEADER_LEN]
  {
    if |data| < HEADER_LEN then Err(Malformed)
    else
      var h := Header(data[..4], FromBE32(data[4..8]), FromBE32(data[8..12]), FromBE32(data[12..16]));
      FromBE32RoundTrip(data[4..8]);
      FromBE32RoundTrip(data[8..12]);
      FromBE32RoundTrip(data[12..16]);
      assert EncodeHeader(h) == data[..16];
      Ok(h)
  }

  /** A header whose magic has four bytes decodes back from what was written,
      whatever follows it. */
  lemma HeaderRoundTrip(h: Header, rest: seq<byte>)
    requires |h.magic| == 4
    ensures DecodeHeader(EncodeHeader(h) + rest) == Ok(h)
  {
    var data := EncodeHeader(h) + rest;
    assert data[..4] == h.magic;
    assert data[4..8] == BE32(h.archiveSize);
    assert data[8..12] == BE32(h.numFiles);
    assert data[12..16] == BE32(h.headerSize);
    BE32RoundTrip(h.archiveSize);
    BE32RoundTrip(h.numFiles);
    BE32RoundTrip(h.headerSize);
  }

  /** `bytes.decode('ascii', errors='replace')`: each byte below 0x80 is its own
      character, every other byte becomes U+FFFD. */
  function MagicText(b: seq<byte>): (r: string)
    ensures |r| == |b|
    ensures forall k :: 0 <= k < |b| ==> (b[k] < 0x80 ==> r[k] as int == b[k]) && (b[k] >= 0x80 ==> r[k] == '\U{FFFD}')
  {
    seq(|b|, k requires 0 <= k < |b| => if b[k] < 0x80 then b[k] as char else '\U{FFFD}')
  }

  /** The header as the archive object keeps it (big/big.py:34-39, 69-74): the
      magic as text, the three numbers as they were read. */
  datatype HeaderInfo = HeaderInfo(magic: string, archiveSize: nat, numFiles: nat, headerSize: nat)

  const EMPTY_INFO := HeaderInfo("", 0, 0, 0)

  function Describe(h: Header): HeaderInfo
  {
    HeaderInfo(MagicText(h.magic), h.archiveSize, h.numFiles, h.headerSize)
  }
}
