# XAR archive reader, modelled in Dafny

This project models the archive-format logic of a small XAR reader (`xar`, Python). A XAR archive has three parts. First comes a fixed 28-byte big-endian header (`>4sHHQQI`: magic `xar!`, header size, version, compressed and uncompressed table-of-contents sizes, checksum kind). Then come 0, 4 or 36 bytes of zero padding and the zlib-compressed XML table of contents. The member payloads follow, located by offsets that count from the end of the table of contents.

The model covers two readers:

- the local reader `XarFile` (`xarfile.py`): `get_toc_shape`, the constructor that slices out and decompresses the table of contents, and `get_file`;
- the remote reader `PartialXarFile` (`partialxarfile.py`): `load_toc_remote`, which accumulates a streamed prefix chunk by chunk, and `get_package_file_remote`, which looks a member up and issues one range request.

Files and modules:

- `results.dfy` (`XarResults`): `Option`, `Result` and one `Error` constructor per raise site.
- `bytes.dfy` (`Bytes`): big-endian integers with their inverse, Python's clamping slice `s[lo:hi]`, and the concatenation of chunks.
- `decimal.dfy` (`Decimal`): the decimal text an f-string gives an `int`, and its inverse.
- `header.dfy` (`Header`): `struct.unpack`/`struct.pack` of the fixed layout, the padding rule and `get_toc_shape`.
- `toc.dfy` (`Toc`): manifest entries, first-match lookup by name, and the absolute member location.
- `xarfile.dfy` (`XarLocal`): class `XarFile` with const fields `contents`, `toc`, `tocSize` and `table`. `Open` stands for the constructor, which can fail. `GetFile` is `get_file`.
- `partialxarfile.dfy` (`XarRemote`): the `load_toc_remote` loop as a method with invariants, proved against `RemoteTocBytes`. It also holds `get_package_file_remote`.
- `byterange.dfy` (`ByteRange`): the single-range form `bytes=first-last` of section 14.1.2 of RFC 9110, as a reference. The remote request is compared against it (see Findings).

The collaborators are parameters:

- the archive file is its byte sequence;
- the HTTP stream is the sequence of chunks it delivers;
- `zlib.decompress` is a total function `seq<bv8> -> Option<seq<bv8>>`;
- ElementTree parsing plus the XPath query is a function from the decompressed bytes to `Option<seq<Entry>>`, with entries in document order;
- the range request is a function from the `Range` header value to the response body.

Behaviours of the code the model keeps:

- The start offset is `28 + padding` (`xarfile.py:77`).
- Padding 36 needs the header slice from byte 28 on to equal exactly 36 zero bytes, so the header must be exactly 64 bytes long (`xarfile.py:69`).
- A failed version or header-size check calls `.decode()` on an `int`, so Python raises `AttributeError` there rather than the `ValueError` the messages suggest. The model keeps them as the distinct outcomes `UnknownVersion` and `UnknownHeaderSize`.
- `get_file` returns a short read as it is, not as an I/O error (`xarfile.py:37-39`).
- The remote reader does not add `toc + toc_size` to the entry offset, so its range differs from the local location (`partialxarfile.py:40-44`).
- The remote not-found error formats the empty match list, so it reports `"[]"` instead of the name (`partialxarfile.py:38`).
- The stray branch `elif header[28] != b'\x00': pass` (`xarfile.py:73-74`) changes nothing and has no counterpart.

## Model

| member | source | states |
|---|---|---|
| `Bytes.BeUint` | xarfile.py:9 | a big-endian field of w bytes denotes a value below 256^w |
| `Bytes.BeBytes` | xarfile.py:9 | encoding n in w big-endian bytes gives w bytes that decode back to n |
| `Bytes.Slice` | partialxarfile.py:27 | Python slicing with clamped bounds: length is min(hi,len)-lo or 0, element i is s[lo+i] |
| `Bytes.ConcatPrefix` | partialxarfile.py:17-21 | the buffer after k chunks is a prefix of the whole stream |
| `Decimal.ParseDecOfDec` | partialxarfile.py:44 | the decimal rendering of an offset reads back as the same number |
| `Header.UnpackPack` | xarfile.py:50-51 | unpacking a packed `>4sHHQQI` header gives back every field |
| `Header.PackUnpack` | xarfile.py:50-51 | packing the fields unpacked from 28 bytes gives back those bytes |
| `Header.PaddingRule` | xarfile.py:66-74 | padding is 36 iff the header is exactly 64 bytes with bytes 28..64 zero; otherwise 4 iff bytes 28..32 are zero; 0 iff bytes 28..32 are not all zero |
| `Header.GetTocShape` | xarfile.py:42-77 | on success the start is 28, 32 or 64 and the size fits in 64 bits |
| `Header.ShapeDecision` | xarfile.py:46-60 | fewer than 64 bytes fail first; then magic bytes 0..4, then version bytes 6..8, then header size bytes 4..6, each with its own error; success iff all three hold, giving (28 + padding, bytes 8..16) |
| `Header.ShapeIgnoresBytes16To28` | xarfile.py:49-51 | the uncompressed size and the checksum field never influence the result |
| `Header.ShapeRoundTrip` | xarfile.py:50-77 | the first 64 bytes of an archive written with padding 0, 4 or 36 yield exactly the start and compressed size it was written with |
| `Toc.FindFirst` | xarfile.py:28-31 | the result names an entry with that exact name and no earlier entry has it; none iff no entry has it |
| `Toc.FindFirstIgnoresLaterEntries` | partialxarfile.py:36-39 | entries after the first match, duplicates included, never change the lookup |
| `XarLocal.ReadAt` | xarfile.py:37-39 | a seek-and-read returns at most size bytes, byte i being contents[offset+i]; exactly size bytes when the file is long enough, fewer only when the file ends |
| `XarLocal.LocalTocBytes` | xarfile.py:13-17 | a file under 64 bytes fails; a shape error propagates; otherwise the bytes are the file's [toc, toc+toc_size), cut only by the end of the file |
| `XarLocal.XarFile.constructor` | xarfile.py:11-12 | the object records the file and its table-of-contents fields |
| `XarLocal.XarFile.Open` | xarfile.py:11-17 | opening fails as the shape or decompression fails, and succeeds whenever both succeed; then toc and toc_size are the shape of the first 64 bytes and the table is the decompression of the file's [toc, toc+toc_size) |
| `XarLocal.XarFile.GetFile` | xarfile.py:25-39 | an unreadable manifest or a missing name fails; otherwise the first matching entry is read at offset + toc + toc_size, at most size bytes, and exactly the file's bytes [offset + toc + toc_size, + size) when the file holds them |
| `XarLocal.MemberRoundTrip` | xarfile.py:32-39 | a payload stored at a member's absolute location is read back exactly |
| `XarRemote.FirstCover` | partialxarfile.py:18-23 | scanning from chunk k stops at the first chunk whose prefix reaches the threshold, or at the end of the stream |
| `XarRemote.ChunksNeeded` | partialxarfile.py:18-23 | the loop reads at least one chunk and the fewest whose concatenation reaches toc + toc_size; every shorter prefix is below it |
| `XarRemote.NeededPrefixSuffices` | partialxarfile.py:21-27 | the buffered prefix holds the same bytes below the threshold as the whole stream |
| `XarRemote.RemoteTocBytes` | partialxarfile.py:14-27 | an empty stream gives no bytes; the shape comes from the first chunk alone (under 64 bytes fails); the bytes are the stream's [toc, toc+toc_size), shorter only when the stream ends first |
| `XarRemote.LoadTocRemote` | partialxarfile.py:12-28 | the chunk loop decompresses exactly the stream's [toc, toc+toc_size), after reading exactly the minimal number of chunks |
| `XarRemote.BufferHoldsToc` | partialxarfile.py:22-27 | trimming the buffer at the loop's stop gives the stream's table-of-contents bytes |
| `XarRemote.GetPackageFileRemote` | partialxarfile.py:33-46 | manifest failures propagate; a missing name fails reporting "[]"; otherwise the result is the body for `bytes-{offset}-{offset+size}` of the first matching entry |
| `XarRemote.RemoteOffsetOmitsToc` | partialxarfile.py:40-44 | the remote request starts toc + toc_size bytes before the member's absolute location |
| `XarRemote.ScriptsExample` | partialxarfile.py:40-44 | "Scripts" at offset 10, size 20, TOC at 64 of size 100: local reads 20 bytes at 174, remote asks for "bytes-10-30" |
| `ByteRange.ParseFormatRange` | partialxarfile.py:44 | a rendered `bytes=first-last` range reads back as the same span |
| `ByteRange.AsWrittenHeaderRejected` | partialxarfile.py:43-44 | the header sent is not a byte range; with '=' it would name size + 1 bytes |
| `ByteRange.CorrectedRangeHeader` | partialxarfile.py:43-44 | the corrected header reads as the member's absolute span, last byte inclusive |
| `ByteRange.CorrectedRemoteMatchesLocal` | partialxarfile.py:40-46 | the remote TOC bytes equal the local ones, and with the corrected request the server returns what the local reader reads |

## Findings

| source | as written | input that shows it | evidently intended | confidence | as-written member | corrected member |
|---|---|---|---|---|---|---|
| partialxarfile.py:40-44 | the range starts at the entry's `offset` as is | "Scripts", offset 10, size 20, TOC at 64 of size 100: request from 10, member at 174 | start at offset + toc + toc_size, as `get_file` does (xarfile.py:32) | high; not executed | `XarRemote.RemoteOffsetOmitsToc` | `ByteRange.CorrectedRemoteMatchesLocal` |
| partialxarfile.py:43-44 | header `bytes-{offset}-{offset+size}` | any entry, e.g. `bytes-10-30`: not of the `bytes=first-last` form, and its end is exclusive | `bytes={start}-{start+size-1}` per section 14.1.2 of RFC 9110 | high; not executed | `ByteRange.AsWrittenHeaderRejected` | `ByteRange.CorrectedRangeHeader` |

`XarRemote.GetPackageFileRemote` stays as written. The corrected members stand beside it and state what the request should be.

## Left out

- zlib decompression is a function parameter; its algorithm is not modelled.
- XML parsing and the XPath query `toc/file/name[.='…']/../data` are a function parameter that yields the entries in document order. Quoting in `filename` and entries without a `data` child are not modelled.
- An unparsable `offset` or `size` of the matched entry is folded into `MalformedManifest` for the whole manifest. Negative offsets, which `int()` accepts, are not modelled: entry fields are `nat`.
- HTTP transport (`requests.get`, `iter_content(chunk_size=64)`) is replaced by a given chunk sequence and a response function.
- The retry on `ConnectionError`, by unbounded self-recursion, is transport policy and is left out.
- `list_files` and every `print` are output only.
- The `__main__` demonstration, the file writes and the gzip decoding of the payload are not modelled.
- Checksums are never examined by the source, so nothing is modelled for them.
- Positions and sizes are unbounded naturals in the model. The source raises on out-of-range values: `fp.seek` and `fp.read` with a position or count of 2^63 or more raise `OverflowError`, and a very large read count can raise `MemoryError`.
- XarLocal.XarFile.Open: on a table-of-contents start or size of 2^63 or more it returns a short read where the source raises (`xarfile.py:16-17`).
- XarLocal.XarFile.GetFile: on an absolute offset or size of 2^63 or more it returns a short read where the source raises (`xarfile.py:38-39`).
- Re-opening the file in `get_file` is modelled as reading the same `contents` the constructor read. Changes to the file between the two are not modelled.
