/**
 * `XarFile`: a local archive. Opening reads the first 64 bytes, computes the
 * table-of-contents shape, reads and decompresses the table; `GetFile` looks a
 * member up by name and reads its bytes from the file. The file on disk is its
 * byte sequence `contents`.
 */
module XarLocal {
  import opened XarResults
  import opened Bytes
  import opened Header
  import opened Toc

  /** `fp.seek(offset); fp.read(size)`: at most `size` bytes, fewer when the file ends first. */
  function ReadAt(contents: seq<bv8>, offset: nat, size: nat): (r: seq<bv8>)
    ensures |r| <= size
    ensures forall i :: 0 <= i < |r| ==> offset + i < |contents| && r[i] == contents[offset + i]
    ensures offset + size <= |contents| ==> |r| == size
    ensures |r| < size ==> offset + |r| >= |contents|
  {
    Slice(contents, offset, offset + size)
  }

  /**
   * The compressed table of contents as the constructor reads it: the shape from
   * the first (at most) 64 bytes, then the bytes [toc, toc + toc_size) of the file,
   * cut short at the end of the file.
   */
  function LocalTocBytes(contents: seq<bv8>): (r: Result<seq<bv8>>)
    ensures |contents| < 64 ==> r == Err(HeaderTooShort)
    ensures GetTocShape(ReadAt(contents, 0, 64)).Err? ==> r == Err(GetTocShape(ReadAt(contents, 0, 64)).error)
    ensures GetTocShape(ReadAt(contents, 0, 64)).Ok? ==>
              var s := GetTocShape(ReadAt(contents, 0, 64)).value;
              && r.Ok?
              && |r.value| <= s.size
              && (forall i :: 0 <= i < |r.value| ==> s.start + i < |contents| && r.value[i] == contents[s.start + i])
              && (s.start + s.size <= |contents| ==> |r.value| == s.size)
              && (|r.value| < s.size ==> s.start + |r.value| >= |contents|)
  {
    match GetTocShape(ReadAt(contents, 0, 64))
    case Err(e) => Err(e)
    case Ok(s) => Ok(ReadAt(contents, s.start, s.size))
  }

  class XarFile {
    /** The bytes of the archive file. */
    const contents: seq<bv8>
    /** Where the compressed table of contents starts. */
    const toc: nat
    /** The compressed size of the table of contents. */
    const tocSize: nat
    /** The decompressed table of contents. */
    const table: seq<bv8>

    constructor (contents: seq<bv8>, toc: nat, tocSize: nat, table: seq<bv8>)
      ensures this.contents == contents && this.toc == toc && this.tocSize == tocSize && this.table == table
    {
      this.contents := contents;
      this.toc := toc;
      this.tocSize := tocSize;
      this.table := table;
    }

    /** `XarFile(file)`: fails as get_toc_shape or the decompressor fails. */
    static method Open(contents: seq<bv8>, inflate: Inflater) returns (r: Result<XarFile>)
      ensures LocalTocBytes(contents).Err? ==> r == Err(LocalTocBytes(contents).error)
      ensures LocalTocBytes(contents).Ok? && inflate(LocalTocBytes(contents).value).None? ==> r == Err(CorruptToc)
      ensures LocalTocBytes(contents).Ok? && inflate(LocalTocBytes(contents).value).Some? ==> r.Ok?
      ensures r.Ok? ==>
                && fresh(r.value)
                && r.value.contents == contents
                && GetTocShape(ReadAt(contents, 0, 64)) == Ok(TocShape(r.value.toc, r.value.tocSize))
                && inflate(ReadAt(contents, r.value.toc, r.value.tocSize)) == Some(r.value.table)
    {
      var shape := GetTocShape(ReadAt(contents, 0, 64));
      if shape.Err? {
        return Err(shape.error);
      }
      var compressed := ReadAt(contents, shape.value.start, shape.value.size);
      var table := inflate(compressed);
      if table.None? {
        return Err(CorruptToc);
      }
      var x := new XarFile(contents, shape.value.start, shape.value.size, table.value);
      r := Ok(x);
    }

    /**
     * `get_file`: the first entry named `filename` decides; its bytes are read from
     * offset + toc + toc_size, at most `size` of them.
     */
    method GetFile(filename: string, parse: ManifestParser) returns (r: Result<seq<bv8>>)
      ensures parse(table).None? ==> r == Err(MalformedManifest)
      ensures parse(table).Some? && FindFirst(parse(table).value, filename).None? ==>
                r == Err(FileNotFound(filename))
      ensures parse(table).Some? && FindFirst(parse(table).value, filename).Some? ==>
                var e := parse(table).value[FindFirst(parse(table).value, filename).value];
                var loc := MemberLocation(TocShape(toc, tocSize), e);
                && r.Ok?
                && loc.offset == e.offset + toc + tocSize
                && r.value == ReadAt(contents, loc.offset, loc.length)
                && |r.value| <= e.size
                && (loc.offset + e.size <= |contents| ==> r.value == contents[loc.offset..loc.offset + e.size])
    {
      var manifest := parse(table);
      if manifest.None? {
        return Err(MalformedManifest);
      }
      var found := FindFirst(manifest.value, filename);
      if found.None? {
        return Err(FileNotFound(filename));
      }
      var entry := manifest.value[found.value];
      var offset := entry.offset + toc + tocSize;
      r := Ok(ReadAt(contents, offset, entry.size));
    }
  }

  /**
   * A member written at its recorded place is read back exactly: when the archive
   * holds `payload` at the entry's absolute offset, GetFile's read returns it.
   */
  lemma MemberRoundTrip(contents: seq<bv8>, shape: TocShape, e: Entry, payload: seq<bv8>)
    requires |payload| == e.size
    requires MemberLocation(shape, e).offset + e.size <= |contents|
    requires contents[MemberLocation(shape, e).offset..MemberLocation(shape, e).offset + e.size] == payload
    ensures ReadAt(contents, MemberLocation(shape, e).offset, e.size) == payload
  {
    var loc := MemberLocation(shape, e);
    var r := ReadAt(contents, loc.offset, e.size);
    assert forall i :: 0 <= i < |r| ==> r[i] == payload[i];
  }
}
