/**
 * HTTP byte ranges (section 14.1.2 of RFC 9110): the single-range form
 * `bytes=first-last`, both positions inclusive, and what a server returns for it.
 * Against this reference the remote reader's request is compared with the member
 * location the local reader uses.
 */
module ByteRange {
  import opened XarResults
  import opened Bytes
  import opened Decimal
  import opened Header
  import opened Toc
  import opened XarLocal
  import opened XarRemote

  /** An inclusive interval of byte positions. */
  datatype Span = Span(first: nat, last: nat)

  /** The position of the first `c` in s. */
  function IndexOf(s: string, c: char): (r: Option<nat>)
    ensures r.Some? ==> r.value < |s| && s[r.value] == c && forall j :: 0 <= j < r.value ==> s[j] != c
    ensures r.None? ==> forall j :: 0 <= j < |s| ==> s[j] != c
  {
    if s == [] then None
    else if s[0] == c then Some(0)
    else
      match IndexOf(s[1..], c)
      case None => None
      case Some(i) => Some(i + 1)
  }

  /** Read a `Range` header value of the form `bytes=first-last` with first <= last. */
  function ParseRange(h: string): (r: Option<Span>)
    ensures r.Some? ==> |h| > 6 && h[..6] == "bytes=" && r.value.first <= r.value.last
  {
    if |h| < 6 || h[..6] != "bytes=" then None
    else
      var spec := h[6..];
      match IndexOf(spec, '-')
      case None => None
      case Some(dash) =>
        var a, b := spec[..dash], spec[dash + 1..];
        if IsDecimal(a) && IsDecimal(b) && ParseDec(a) <= ParseDec(b)
        then Some(Span(ParseDec(a), ParseDec(b)))
        else None
  }

  /** The `bytes=first-last` rendering of a span. */
  function FormatRange(s: Span): string
  {
    "bytes=" + Dec(s.first) + "-" + Dec(s.last)
  }

  /** Reading a rendered span gives it back. */
  lemma ParseFormatRange(s: Span)
    requires s.first <= s.last
    ensures ParseRange(FormatRange(s)) == Some(s)
  {
    var h := FormatRange(s);
    var a, b := Dec(s.first), Dec(s.last);
    assert h[..6] == "bytes=";
    var spec := h[6..];
    assert spec == a + "-" + b;
    assert spec[|a|] == '-';
    assert forall j :: 0 <= j < |a| ==> spec[j] == a[j] && spec[j] != '-';
    assert IndexOf(spec, '-') == Some(|a|);
    assert spec[..|a|] == a && spec[|a| + 1..] == b;
    ParseDecOfDec(s.first);
    ParseDecOfDec(s.last);
  }

  /** The body a server returns for a satisfiable span: the bytes [first, last], cut at the end. */
  function Serve(contents: seq<bv8>, s: Span): seq<bv8>
  {
    Slice(contents, s.first, s.last + 1)
  }

  /**
   * The header the remote reader sends is not a byte range at all (the unit is
   * followed by '-', not '='), and with '=' in its place it would name one byte
   * too many: the end it writes is exclusive, the form's last position inclusive.
   */
  lemma AsWrittenHeaderRejected(e: Entry)
    ensures ParseRange(RangeFor(e).header) == None
    ensures ParseRange("bytes=" + RangeFor(e).header[6..]) == Some(Span(e.offset, e.offset + e.size))
  {
    var h := RangeFor(e).header;
    assert h[5] == '-';
    assert h[..6] != "bytes=" by { assert "bytes="[5] == '='; }
    assert "bytes=" + h[6..] == FormatRange(Span(e.offset, e.offset + e.size));
    ParseFormatRange(Span(e.offset, e.offset + e.size));
  }

  /** The intended request for a non-empty member: its absolute location, last position inclusive. */
  function CorrectedRangeHeader(loc: Location): (h: string)
    requires loc.length > 0
    ensures ParseRange(h) == Some(Span(loc.offset, loc.offset + loc.length - 1))
  {
    ParseFormatRange(Span(loc.offset, loc.offset + loc.length - 1));
    FormatRange(Span(loc.offset, loc.offset + loc.length - 1))
  }

  /**
   * Remote and local agree once the request is corrected: for a stream whose first
   * chunk is the archive's first 64 bytes, the remote table of contents is the local
   * one, and the corrected request for a non-empty member makes the server return
   * exactly the bytes the local reader reads for it.
   */
  lemma CorrectedRemoteMatchesLocal(contents: seq<bv8>, chunks: seq<seq<bv8>>, e: Entry)
    requires Concat(chunks) == contents
    requires chunks != [] && chunks[0] == ReadAt(contents, 0, 64)
    requires GetTocShape(chunks[0]).Ok? && e.size > 0
    ensures RemoteTocBytes(chunks) == LocalTocBytes(contents)
    ensures var loc := MemberLocation(GetTocShape(chunks[0]).value, e);
            Serve(contents, ParseRange(CorrectedRangeHeader(loc)).value) == ReadAt(contents, loc.offset, loc.length)
  {
  }
}
