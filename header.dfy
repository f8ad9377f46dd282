/**
 * The fixed XAR header and `XarFile.get_toc_shape`: decode the big-endian layout
 * `>4sHHQQI`, validate magic, version and header size in that order, infer the
 * padding that separates the header from the table of contents, and report where
 * the compressed table of contents starts and how long it is.
 */
module Header {
  import opened XarResults
  import opened Bytes

  /** struct.calcsize(">4sHHQQI"). */
  const FixedSize: nat := 28
  /** The number of leading bytes the shape computation insists on. */
  const ShapeInput: nat := 64
  /** The signature "xar!". */
  const Magic: seq<bv8> := [0x78, 0x61, 0x72, 0x21]

  /** The six fields of `>4sHHQQI`, in layout order. */
  datatype ArchiveHeader = ArchiveHeader(
    magic: seq<bv8>,
    headerSize: nat,
    version: nat,
    tocCompressed: nat,
    tocUncompressed: nat,
    checksumAlg: nat)

  /** The field widths of the layout: 4 bytes, two 16-bit, two 64-bit and one 32-bit integer. */
  predicate Representable(h: ArchiveHeader)
  {
    && |h.magic| == 4
    && h.headerSize < Pow256(2)
    && h.version < Pow256(2)
    && h.tocCompressed < Pow256(8)
    && h.tocUncompressed < Pow256(8)
    && h.checksumAlg < Pow256(4)
  }

  /** struct.unpack(">4sHHQQI", b). */
  function Unpack(b: seq<bv8>): (h: ArchiveHeader)
    requires |b| == FixedSize
    ensures Representable(h)
  {
    ArchiveHeader(b[0..4], BeUint(b[4..6]), BeUint(b[6..8]),
                  BeUint(b[8..16]), BeUint(b[16..24]), BeUint(b[24..28]))
  }

  /** struct.pack(">4sHHQQI", ...): the inverse of Unpack. */
  function Pack(h: ArchiveHeader): (b: seq<bv8>)
    requires Representable(h)
    ensures |b| == FixedSize
  {
    h.magic + BeBytes(h.headerSize, 2) + BeBytes(h.version, 2)
      + BeBytes(h.tocCompressed, 8) + BeBytes(h.tocUncompressed, 8) + BeBytes(h.checksumAlg, 4)
  }

  lemma UnpackPack(h: ArchiveHeader)
    requires Representable(h)
    ensures Unpack(Pack(h)) == h
  {
    var p1 := h.magic + BeBytes(h.headerSize, 2);
    var p2 := p1 + BeBytes(h.version, 2);
    var p3 := p2 + BeBytes(h.tocCompressed, 8);
    var p4 := p3 + BeBytes(h.tocUncompressed, 8);
    var b := p4 + BeBytes(h.checksumAlg, 4);
    assert b == Pack(h);
    assert |p1| == 6 && |p2| == 8 && |p3| == 16 && |p4| == 24;
    assert b[24..28] == BeBytes(h.checksumAlg, 4) && b[..24] == p4;
    assert p4[16..24] == BeBytes(h.tocUncompressed, 8) && p4[..16] == p3;
    assert p3[8..16] == BeBytes(h.tocCompressed, 8) && p3[..8] == p2;
    assert p2[6..8] == BeBytes(h.version, 2) && p2[..6] == p1;
    assert p1[4..6] == BeBytes(h.headerSize, 2) && p1[..4] == h.magic;
    assert b[16..24] == p4[16..24] && b[8..16] == p3[8..16];
    assert b[6..8] == p2[6..8] && b[4..6] == p1[4..6] && b[0..4] == h.magic;
  }

  lemma PackUnpack(b: seq<bv8>)
    requires |b| == FixedSize
    ensures Pack(Unpack(b)) == b
  {
    BeBytesOfBeUint(b[4..6]);
    BeBytesOfBeUint(b[6..8]);
    BeBytesOfBeUint(b[8..16]);
    BeBytesOfBeUint(b[16..24]);
    BeBytesOfBeUint(b[24..28]);
    assert b[..6] == b[0..4] + b[4..6];
    assert b[..8] == b[..6] + b[6..8];
    assert b[..16] == b[..8] + b[8..16];
    assert b[..24] == b[..16] + b[16..24];
    assert b == b[..24] + b[24..28];
  }

  /** Where the compressed table of contents starts and how many bytes it has. */
  datatype TocShape = TocShape(start: nat, size: nat)

  /**
   * The padding after the fixed header: 36 when everything from byte 28 on is
   * exactly 36 zero bytes, else 4 when bytes 28..32 are zero, else 0.
   */
  function Padding(header: seq<bv8>): nat
    requires |header| >= ShapeInput
  {
    if header[FixedSize..] == Zeros(36) then 36
    else if header[FixedSize..FixedSize + 4] == Zeros(4) then 4
    else 0
  }

  /** The padding rule, each outcome with its exact condition. */
  lemma PaddingRule(header: seq<bv8>)
    requires |header| >= ShapeInput
    ensures Padding(header) == 36 <==> |header| == 64 && AllZero(header[28..])
    ensures Padding(header) == 4 <==> !(|header| == 64 && AllZero(header[28..])) && AllZero(header[28..32])
    ensures Padding(header) == 0 <==> !AllZero(header[28..32])
  {
    ZerosIffAllZero(header[28..], 36);
    ZerosIffAllZero(header[28..32], 4);
    if AllZero(header[28..]) {
      assert forall i :: 0 <= i < 4 ==> header[28..32][i] == header[28..][i];
    }
  }

  /** `XarFile.get_toc_shape`. The checksum field is decoded and ignored. */
  function GetTocShape(header: seq<bv8>): (r: Result<TocShape>)
    ensures r.Ok? ==> r.value.start in {28, 32, 64} && r.value.size < Pow256(8)
  {
    if |header| < ShapeInput then Err(HeaderTooShort)
    else
      var h := Unpack(header[..FixedSize]);
      if h.magic != Magic then Err(IncorrectMagic(h.magic))
      else if h.version != 1 then Err(UnknownVersion(h.version))
      else if h.headerSize != 28 then Err(UnknownHeaderSize(h.headerSize))
      else Ok(TocShape(FixedSize + Padding(header), h.tocCompressed))
  }

  /**
   * What get_toc_shape decides, stated on byte positions: the length check comes
   * first, then magic (bytes 0..4), then version (bytes 6..8), then header size
   * (bytes 4..6); on success the size is bytes 8..16 and the start is 28 plus the
   * padding. Bytes 16..28 never influence the result.
   */
  lemma ShapeDecision(header: seq<bv8>)
    ensures |header| < 64 ==> GetTocShape(header) == Err(HeaderTooShort)
    ensures |header| >= 64 && header[..4] != Magic ==>
              GetTocShape(header) == Err(IncorrectMagic(header[..4]))
    ensures |header| >= 64 && header[..4] == Magic && BeUint(header[6..8]) != 1 ==>
              GetTocShape(header) == Err(UnknownVersion(BeUint(header[6..8])))
    ensures |header| >= 64 && header[..4] == Magic && BeUint(header[6..8]) == 1
            && BeUint(header[4..6]) != 28 ==>
              GetTocShape(header) == Err(UnknownHeaderSize(BeUint(header[4..6])))
    ensures GetTocShape(header).Ok? <==>
              |header| >= 64 && header[..4] == Magic && BeUint(header[6..8]) == 1 && BeUint(header[4..6]) == 28
    ensures GetTocShape(header).Ok? ==>
              GetTocShape(header).value == TocShape(28 + Padding(header), BeUint(header[8..16]))
  {
    if |header| >= 64 {
      var b := header[..FixedSize];
      assert b[0..4] == header[..4];
      assert b[4..6] == header[4..6];
      assert b[6..8] == header[6..8];
      assert b[8..16] == header[8..16];
    }
  }

  /** The checksum and uncompressed-size fields (bytes 16..28) do not affect the shape. */
  lemma ShapeIgnoresBytes16To28(header: seq<bv8>, other: seq<bv8>)
    requires |header| == |other| >= 64
    requires header[..16] == other[..16] && header[28..] == other[28..]
    ensures GetTocShape(header) == GetTocShape(other)
  {
    ShapeDecision(header);
    ShapeDecision(other);
    assert header[..4] == header[..16][..4] && other[..4] == other[..16][..4];
    assert header[4..6] == header[..16][4..6] && other[4..6] == other[..16][4..6];
    assert header[6..8] == header[..16][6..8] && other[6..8] == other[..16][6..8];
    assert header[8..16] == header[..16][8..16] && other[8..16] == other[..16][8..16];
    assert header[28..32] == header[28..][..4] && other[28..32] == other[28..][..4];
  }

  /**
   * Round trip: the first 64 bytes of a well-formed archive, written with any of the
   * three paddings and followed by a compressed table of contents (whose first byte,
   * the zlib method byte, is never zero), yield the start and size it was written with.
   */
  lemma ShapeRoundTrip(h: ArchiveHeader, padding: nat, toc: seq<bv8>)
    requires Representable(h) && h.magic == Magic && h.version == 1 && h.headerSize == 28
    requires padding == 0 || padding == 4 || padding == 36
    requires |toc| >= 36 && toc[0] != 0
    ensures GetTocShape((Pack(h) + Zeros(padding) + toc)[..64]) == Ok(TocShape(28 + padding, h.tocCompressed))
  {
    var a := (Pack(h) + Zeros(padding) + toc)[..64];
    assert a[..FixedSize] == Pack(h);
    UnpackPack(h);
    ZerosIffAllZero(a[28..], 36);
    ZerosIffAllZero(a[28..32], 4);
    if padding == 0 {
      assert a[28..32][0] == toc[0];
    } else if padding == 4 {
      assert a[28..32] == Zeros(4);
      assert a[28..][4] == toc[0];
    } else {
      assert a[28..] == Zeros(36);
    }
  }
}
