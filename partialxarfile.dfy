/**
 * `PartialXarFile`: reading an archive that is only reachable as a stream of
 * chunks (for the table of contents) plus one range request (for a member).
 * The stream is the sequence of chunks the server delivers, in order.
 */
module XarRemote {
  import opened XarResults
  import opened Bytes
  import opened Decimal
  import opened Header
  import opened Toc

  /** The response body a range request with the given `Range` header value returns. */
  type RangeGet = string -> seq<bv8>

  /**
   * The number of chunks consumed, counting from chunk k on, until the buffer holds
   * at least `threshold` bytes; all of them when the stream ends first.
   */
  function FirstCover(chunks: seq<seq<bv8>>, threshold: nat, k: nat): (n: nat)
    requires k <= |chunks|
    ensures k <= n <= |chunks|
    ensures k < |chunks| ==> k < n
    ensures forall j :: k < j < n ==> |Concat(chunks[..j])| < threshold
    ensures n < |chunks| ==> |Concat(chunks[..n])| >= threshold
    decreases |chunks| - k
  {
    if k == |chunks| then k
    else if |Concat(chunks[..k + 1])| >= threshold then k + 1
    else FirstCover(chunks, threshold, k + 1)
  }

  /**
   * How many chunks the fetch loop reads: at least one, and the fewest whose
   * concatenation reaches `threshold`, or the whole stream.
   */
  function ChunksNeeded(chunks: seq<seq<bv8>>, threshold: nat): (n: nat)
    ensures n <= |chunks|
    ensures chunks != [] ==> 1 <= n
    ensures forall j :: 0 < j < n ==> |Concat(chunks[..j])| < threshold
    ensures n < |chunks| ==> |Concat(chunks[..n])| >= threshold
  {
    FirstCover(chunks, threshold, 0)
  }

  /** The prefix the loop buffers holds every byte below the threshold that the whole stream holds. */
  lemma NeededPrefixSuffices(chunks: seq<seq<bv8>>, lo: nat, threshold: nat)
    ensures Slice(Concat(chunks[..ChunksNeeded(chunks, threshold)]), lo, threshold)
            == Slice(Concat(chunks), lo, threshold)
  {
    var n := ChunksNeeded(chunks, threshold);
    ConcatPrefix(chunks, n);
    if n == |chunks| {
      assert chunks[..n] == chunks;
    }
    SliceOfPrefix(Concat(chunks[..n]), Concat(chunks), lo, threshold);
  }

  /**
   * The compressed table of contents as the stream delivers it: the shape is taken
   * from the first chunk alone, and the bytes are the stream's bytes at
   * [toc, toc + toc_size), fewer when the stream ends first. An empty stream leaves
   * both at zero and yields no bytes.
   */
  function RemoteTocBytes(chunks: seq<seq<bv8>>): (r: Result<seq<bv8>>)
    ensures chunks == [] ==> r == Ok([])
    ensures chunks != [] && |chunks[0]| < 64 ==> r == Err(HeaderTooShort)
    ensures chunks != [] && GetTocShape(chunks[0]).Err? ==> r == Err(GetTocShape(chunks[0]).error)
    ensures chunks != [] && GetTocShape(chunks[0]).Ok? ==>
              var s := GetTocShape(chunks[0]).value;
              var stream := Concat(chunks);
              && r.Ok?
              && (forall i :: 0 <= i < |r.value| ==> s.start + i < |stream| && r.value[i] == stream[s.start + i])
              && (|r.value| == s.size || (|r.value| < s.size && |stream| < s.start + s.size))
              && (|r.value| < s.size ==> s.start + |r.value| >= |stream|)
  {
    if chunks == [] then Ok([])
    else
      match GetTocShape(chunks[0])
      case Err(e) => Err(e)
      case Ok(s) => Ok(Slice(Concat(chunks), s.start, s.start + s.size))
  }

  /**
   * `load_toc_remote`: append chunks to a buffer until it holds toc + toc_size
   * bytes, computing the shape from the first chunk only, then decompress the
   * buffer's bytes [toc, toc + toc_size). `used` is the number of chunks read.
   */
  method LoadTocRemote(chunks: seq<seq<bv8>>, inflate: Inflater) returns (r: Result<seq<bv8>>, ghost used: nat)
    ensures r == Inflate(RemoteTocBytes(chunks), inflate)
    ensures used <= |chunks|
    ensures chunks != [] && GetTocShape(chunks[0]).Ok? ==>
              var s := GetTocShape(chunks[0]).value;
              used == ChunksNeeded(chunks, s.start + s.size)
  {
    var toc, tocSize := 0, 0;
    var buffer: seq<bv8> := [];
    var i := 0;
    while i < |chunks|
      invariant i <= |chunks|
      invariant buffer == Concat(chunks[..i])
      invariant i == 0 ==> toc == 0 && tocSize == 0
      invariant i > 0 ==> GetTocShape(chunks[0]) == Ok(TocShape(toc, tocSize))
      invariant i > 0 ==> ChunksNeeded(chunks, toc + tocSize) == FirstCover(chunks, toc + tocSize, i)
    {
      if toc == 0 && tocSize == 0 {
        var shape := GetTocShape(chunks[i]);
        if shape.Err? {
          return Err(shape.error), 1;
        }
        toc, tocSize := shape.value.start, shape.value.size;
      }
      assert ChunksNeeded(chunks, toc + tocSize) == FirstCover(chunks, toc + tocSize, i);
      ConcatSnoc(chunks, i);
      buffer := buffer + chunks[i];
      i := i + 1;
      if |buffer| >= toc + tocSize {
        assert ChunksNeeded(chunks, toc + tocSize) == i;
        break;
      }
    }
    used := i;
    if chunks != [] {
      BufferHoldsToc(chunks, i, toc, tocSize);
    }
    var compressed := Slice(buffer, toc, toc + tocSize);
    r := Inflate(Ok(compressed), inflate);
  }

  /** Once the loop stops, trimming its buffer yields the stream's table-of-contents bytes. */
  lemma BufferHoldsToc(chunks: seq<seq<bv8>>, n: nat, toc: nat, tocSize: nat)
    requires chunks != [] && GetTocShape(chunks[0]) == Ok(TocShape(toc, tocSize))
    requires n == ChunksNeeded(chunks, toc + tocSize)
    ensures RemoteTocBytes(chunks) == Ok(Slice(Concat(chunks[..n]), toc, toc + tocSize))
  {
    NeededPrefixSuffices(chunks, toc, toc + tocSize);
  }

  /** The range request the remote reader issues for a member. */
  datatype RangeRequest = RangeRequest(start: nat, end: nat, header: string)

  /** `bytes-{offset}-{end}` with end = offset + size, the entry's offset taken as is. */
  function RangeFor(e: Entry): RangeRequest
  {
    RangeRequest(e.offset, e.offset + e.size, "bytes-" + Dec(e.offset) + "-" + Dec(e.offset + e.size))
  }

  /** The manifest as the remote reader obtains it. */
  function RemoteManifest(chunks: seq<seq<bv8>>, inflate: Inflater, parse: ManifestParser): Result<Manifest>
  {
    ParseManifest(Inflate(RemoteTocBytes(chunks), inflate), parse)
  }

  /**
   * `get_package_file_remote`: fetch and read the manifest, take the first entry
   * named `filename` (the not-found message shows the empty match list, "[]"),
   * and return the body of one range request for it.
   */
  method GetPackageFileRemote(chunks: seq<seq<bv8>>, inflate: Inflater, parse: ManifestParser,
                              rangeGet: RangeGet, filename: string)
    returns (r: Result<seq<bv8>>)
    ensures RemoteManifest(chunks, inflate, parse).Err? ==> r == Err(RemoteManifest(chunks, inflate, parse).error)
    ensures RemoteManifest(chunks, inflate, parse).Ok? ==>
              var m := RemoteManifest(chunks, inflate, parse).value;
              && (FindFirst(m, filename).None? ==> r == Err(FileNotFound("[]")))
              && (FindFirst(m, filename).Some? ==>
                    var e := m[FindFirst(m, filename).value];
                    r == Ok(rangeGet("bytes-" + Dec(e.offset) + "-" + Dec(e.offset + e.size))))
  {
    var table, _ := LoadTocRemote(chunks, inflate);
    var manifest := ParseManifest(table, parse);
    if manifest.Err? {
      return Err(manifest.error);
    }
    var found := FindFirst(manifest.value, filename);
    if found.None? {
      return Err(FileNotFound("[]"));
    }
    var request := RangeFor(manifest.value[found.value]);
    r := Ok(rangeGet(request.header));
  }

  /**
   * The remote request starts at the entry's offset, while the member lives
   * toc + toc_size bytes further on (at least 28), where the local reader reads it.
   */
  lemma RemoteOffsetOmitsToc(shape: TocShape, e: Entry)
    requires shape.start >= 28
    ensures RangeFor(e).start + shape.start + shape.size == MemberLocation(shape, e).offset
    ensures RangeFor(e).start < MemberLocation(shape, e).offset
  {
  }

  /**
   * The member "Scripts" at offset 10 with size 20 behind a table of contents at 64
   * of compressed size 100: the local reader reads 20 bytes at 174, the remote reader
   * asks for "bytes-10-30".
   */
  lemma ScriptsExample()
    ensures var e := Entry("Scripts", 10, 20);
            && MemberLocation(TocShape(64, 100), e) == Location(174, 20)
            && RangeFor(e) == RangeRequest(10, 30, "bytes-10-30")
  {
    assert Dec(10) == "10" && Dec(30) == "30";
  }
}
