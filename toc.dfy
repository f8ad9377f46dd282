/**
 * The table of contents once located: its decompression, the manifest of member
 * entries it describes, the first-match lookup by name that both readers perform
 * through the XPath `toc/file/name[.='…']/../data`, and the absolute position of a
 * member's bytes in the archive.
 */
module Toc {
  import opened XarResults
  import opened Header

  /** zlib.decompress: fails on a stream it cannot inflate. */
  type Inflater = seq<bv8> -> Option<seq<bv8>>

  /** One `file` element: its `name` and the `offset` and `size` of its `data`. */
  datatype Entry = Entry(name: string, offset: nat, size: nat)

  /** The `file` elements in document order. */
  type Manifest = seq<Entry>

  /** ElementTree.parse of the decompressed table, read down to its `file` entries. */
  type ManifestParser = seq<bv8> -> Option<Manifest>

  /** Decompress table-of-contents bytes, passing earlier failures through. */
  function Inflate(compressed: Result<seq<bv8>>, inflate: Inflater): Result<seq<bv8>>
  {
    match compressed
    case Err(e) => Err(e)
    case Ok(bytes) =>
      match inflate(bytes)
      case None => Err(CorruptToc)
      case Some(table) => Ok(table)
  }

  /** Read the manifest out of decompressed table bytes, passing earlier failures through. */
  function ParseManifest(table: Result<seq<bv8>>, parse: ManifestParser): Result<Manifest>
  {
    match table
    case Err(e) => Err(e)
    case Ok(bytes) =>
      match parse(bytes)
      case None => Err(MalformedManifest)
      case Some(m) => Ok(m)
  }

  /** The index of the first entry, in document order, whose name is exactly `name`. */
  function FindFirst(m: Manifest, name: string): (r: Option<nat>)
    ensures r.Some? ==> r.value < |m| && m[r.value].name == name
    ensures r.Some? ==> forall j :: 0 <= j < r.value ==> m[j].name != name
    ensures r.None? <==> forall j :: 0 <= j < |m| ==> m[j].name != name
  {
    if m == [] then None
    else if m[0].name == name then Some(0)
    else
      match FindFirst(m[1..], name)
      case None => None
      case Some(i) => Some(i + 1)
  }

  /** Two manifests that agree up to and including the first match give the same entry. */
  lemma {:induction false} FindFirstIgnoresLaterEntries(m: Manifest, rest: Manifest, name: string)
    requires FindFirst(m, name).Some?
    ensures FindFirst(m + rest, name) == FindFirst(m, name)
  {
    if m[0].name != name {
      assert (m + rest)[1..] == m[1..] + rest;
      FindFirstIgnoresLaterEntries(m[1..], rest, name);
    }
  }

  /** A member's byte range in the archive. */
  datatype Location = Location(offset: nat, length: nat)

  /**
   * The absolute position of a member: entry offsets count from the end of the
   * compressed table of contents.
   */
  function MemberLocation(shape: TocShape, e: Entry): Location
  {
    Location(e.offset + shape.start + shape.size, e.size)
  }
}
