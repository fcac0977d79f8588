/** The response `streamVideo` gives to a request for a stored video: the
    record lookup, the choice between the original and the compressed file,
    and the header arithmetic for byte ranges (the `bytes=first-last` form of
    section 2.1 of RFC 7233, the 206 answer of section 4.1 with the
    Content-Range field of section 4.2, and the 416 answer of section 4.4).
    Only part of the RFC is implemented: the last byte is not compared with
    the file size, and a suffix range `bytes=-N` has no first byte, which
    `parseInt` reads as NaN. Node's `createReadStream` is opened before the
    206 head is written and refuses a NaN, negative or reversed pair of
    bounds by throwing; the handler's `catch` then sends the 404 redirect. */
module RangeResponder {
  import opened Wrappers
  import opened Text
  import opened Records

  /** The status and headers the service sends. The body of a 200 or 206
      (the piped file stream) is not modelled. */
  datatype Response =
    | NotFoundRedirect
    | Whole(contentLength: nat, contentType: Option<string>)
    | RangeNotSatisfiable(body: string)
    | Partial(start: nat, end: nat, contentRange: string, chunkLength: nat, contentType: Option<string>)

  /** The file to serve and its media type: the compressed file when asked
      for, else the original; `None` where the source reads a missing stage
      or path and ends in its 404 handler. */
  function SelectedFile(r: VideoRecord, compressed: bool): (f: Option<(string, Option<string>)>)
    ensures f.Some? && compressed ==>
      r.compression.Some? && r.compression.value.path == Some(f.value.0) && f.value.1 == r.compression.value.videoType
    ensures f.Some? && !compressed ==> r.video.path == Some(f.value.0) && f.value.1 == r.video.videoType
    ensures f.None? <==> (if compressed then r.compression.None? || r.compression.value.path.None? else r.video.path.None?)
  {
    if compressed then
      match r.compression
      case None => None
      case Some(c) => if c.path.Some? then Some((c.path.value, c.videoType)) else None
    else if r.video.path.Some? then Some((r.video.path.value, r.video.videoType))
    else None
  }

  /** The first and last byte a Range header value asks for: "bytes=" is
      removed once, the rest is split at '-', the first piece is parsed, and
      the second piece is parsed when it is non-empty, otherwise the last byte
      is the file's last byte. Since the pieces hold no '-', neither bound is
      ever a negative number, except the last byte -1 of an empty file. */
  function RangeBounds(range: string, fileSize: nat): (b: (Option<int>, Option<int>))
    ensures b.0.Some? ==> b.0.value >= 0
    ensures b.1.Some? ==> b.1.value >= 0 || (fileSize == 0 && b.1.value == -1)
  {
    var parts := Split(ReplaceFirst(range, "bytes=", ""), '-');
    var start := ParseInt(parts[0]);
    var end := if |parts| > 1 && parts[1] != "" then ParseInt(parts[1]) else Some(fileSize - 1);
    ParseIntWithoutMinus(parts[0]);
    ParseIntWithoutMinus(if |parts| > 1 then parts[1] else "");
    (start, end)
  }

  /** Whether `createReadStream` accepts `{start, end}`: both are numbers,
      neither is negative and the first does not exceed the last. An end
      beyond the file is accepted (the stream stops at the end of file). */
  predicate StreamOpens(start: Option<int>, end: Option<int>) {
    start.Some? && end.Some? && 0 <= start.value <= end.value
  }

  /** The answer to a Range header whose bounds parse to `bounds`, on a file
      of `fileSize` bytes: 416 when the first byte is a number not below the
      size; else the 404 redirect when the stream refuses the bounds; else
      206 with the bounds as parsed. */
  function RangeResponse(bounds: (Option<int>, Option<int>), fileSize: nat, contentType: Option<string>): (r: Response)
    ensures !r.Whole?
    ensures r.Partial? ==> r.start < fileSize && r.start <= r.end && r.chunkLength == r.end - r.start + 1
    ensures r.Partial? ==> r.contentRange == ContentRange(r.start, r.end, fileSize) && r.contentType == contentType
  {
    var (start, end) := bounds;
    if start.Some? && start.value >= fileSize then
      RangeNotSatisfiable("Requested range not satisfiable\n" + NatStr(start.value) + " >= " + NatStr(fileSize))
    else if !StreamOpens(start, end) then
      NotFoundRedirect
    else
      Partial(start.value, end.value, ContentRange(start.value, end.value, fileSize), end.value - start.value + 1, contentType)
  }

  /** The Content-Range value `bytes first-last/size` of section 4.2 of
      RFC 7233. */
  function ContentRange(start: nat, end: nat, fileSize: nat): string {
    "bytes " + NatStr(start) + "-" + NatStr(end) + "/" + NatStr(fileSize)
  }

  /** `streamVideo` for video `id`: `sizes` gives the size of every file that
      exists, `range` the Range header (`None` when absent). */
  function StreamVideo(catalog: map<string, VideoRecord>, sizes: map<string, nat>, id: string,
                       compressed: bool, range: Option<string>): (r: Response)
    ensures !r.NotFoundRedirect? ==>
      id in catalog && SelectedFile(catalog[id], compressed).Some? && SelectedFile(catalog[id], compressed).value.0 in sizes
    ensures r.Whole? <==> !r.NotFoundRedirect? && (range.None? || range.value == "")
    ensures r.Whole? ==> r.contentLength == sizes[SelectedFile(catalog[id], compressed).value.0]
  {
    if id !in catalog then NotFoundRedirect
    else
      match SelectedFile(catalog[id], compressed)
      case None => NotFoundRedirect
      case Some((path, contentType)) =>
        if path !in sizes then NotFoundRedirect
        else if range.Some? && range.value != "" then RangeResponse(RangeBounds(range.value, sizes[path]), sizes[path], contentType)
        else Whole(sizes[path], contentType)
  }

  /** The service answers with its 404 redirect exactly when the id is
      unknown, the selected stage has no path, no file exists at the path, or
      a Range header's bounds pass the 416 test but are refused by the file
      stream. */
  lemma NotFoundIff(catalog: map<string, VideoRecord>, sizes: map<string, nat>, id: string,
                    compressed: bool, range: Option<string>)
    ensures StreamVideo(catalog, sizes, id, compressed, range) == NotFoundRedirect <==>
      id !in catalog || SelectedFile(catalog[id], compressed).None?
      || SelectedFile(catalog[id], compressed).value.0 !in sizes
      || (range.Some? && range.value != ""
          && var size := sizes[SelectedFile(catalog[id], compressed).value.0];
             var bounds := RangeBounds(range.value, size);
             !(bounds.0.Some? && bounds.0.value >= size) && !StreamOpens(bounds.0, bounds.1))
  {
  }

  /** Without a Range header the whole selected file is sent with its size as
      Content-Length and the stage's own media type. */
  lemma WholeFile(catalog: map<string, VideoRecord>, sizes: map<string, nat>, id: string, compressed: bool)
    requires id in catalog && SelectedFile(catalog[id], compressed).Some?
    requires SelectedFile(catalog[id], compressed).value.0 in sizes
    ensures var f := SelectedFile(catalog[id], compressed).value;
      StreamVideo(catalog, sizes, id, compressed, None) == Whole(sizes[f.0], f.1)
      && StreamVideo(catalog, sizes, id, compressed, Some("")) == Whole(sizes[f.0], f.1)
  {
  }

  /** With a Range header the answer is one of three: 416 exactly when the
      first byte parses to a number not below the file size, 206 exactly when
      it does not and the stream accepts the bounds, the 404 redirect
      otherwise. */
  lemma UnsatisfiableIff(catalog: map<string, VideoRecord>, sizes: map<string, nat>, id: string,
                         compressed: bool, range: string)
    requires id in catalog && SelectedFile(catalog[id], compressed).Some?
    requires SelectedFile(catalog[id], compressed).value.0 in sizes && range != ""
    ensures var size := sizes[SelectedFile(catalog[id], compressed).value.0];
      var (start, end) := RangeBounds(range, size);
      var r := StreamVideo(catalog, sizes, id, compressed, Some(range));
      (r.RangeNotSatisfiable? <==> start.Some? && start.value >= size)
      && (r.Partial? <==> !(start.Some? && start.value >= size) && StreamOpens(start, end))
      && (r.RangeNotSatisfiable? || r.Partial? || r.NotFoundRedirect?)
  {
  }

  /** Every 206 the service sends is internally consistent: its first byte is
      inside the file and not after its last byte, Content-Range names both,
      Content-Length counts the bytes from first to last (at least one), and
      the media type is the selected stage's. */
  lemma PartialHeadersAgree(catalog: map<string, VideoRecord>, sizes: map<string, nat>, id: string,
                            compressed: bool, range: Option<string>)
    requires StreamVideo(catalog, sizes, id, compressed, range).Partial?
    ensures id in catalog && SelectedFile(catalog[id], compressed).Some?
    ensures var f := SelectedFile(catalog[id], compressed).value;
      var r := StreamVideo(catalog, sizes, id, compressed, range);
      f.0 in sizes && r.start <= r.end && r.start < sizes[f.0]
      && r.contentRange == ContentRange(r.start, r.end, sizes[f.0])
      && r.chunkLength == r.end - r.start + 1 >= 1 && r.contentType == f.1
  {
  }

  /** The bounds read from "bytes=" followed by two pieces without '-'. */
  lemma BoundsOfPieces(a: string, b: string, fileSize: nat)
    requires '-' !in a && '-' !in b
    ensures RangeBounds("bytes=" + (a + ['-'] + b), fileSize)
      == (ParseInt(a), if b != "" then ParseInt(b) else Some(fileSize - 1))
  {
    var x := a + ['-'] + b;
    ReplaceFirstOfPrefix("bytes=", x);
    SplitPair(a, b, '-');
    assert Split(ReplaceFirst("bytes=" + x, "bytes=", ""), '-') == [a, b];
  }

  lemma NoMinusInNatStr(n: nat)
    ensures '-' !in NatStr(n)
  {
    var a := NatStr(n);
    assert forall i | 0 <= i < |a| :: IsDigit(a[i]);
  }

  /** `bytes=first-last` with decimal numbers is read back as those numbers,
      whatever their order and whatever the file size. */
  lemma ClosedRangeBounds(first: nat, last: nat, fileSize: nat)
    ensures RangeBounds("bytes=" + NatStr(first) + "-" + NatStr(last), fileSize) == (Some(first), Some(last))
  {
    var a, b := NatStr(first), NatStr(last);
    assert "bytes=" + a + "-" + b == "bytes=" + (a + ['-'] + b);
    NoMinusInNatStr(first);
    NoMinusInNatStr(last);
    BoundsOfPieces(a, b, fileSize);
    ParseIntOfNatStr(first);
    ParseIntOfNatStr(last);
  }

  /** `bytes=first-` runs to the file's last byte. */
  lemma OpenRangeBounds(first: nat, fileSize: nat)
    ensures RangeBounds("bytes=" + NatStr(first) + "-", fileSize) == (Some(first), Some(fileSize - 1))
  {
    var a := NatStr(first);
    assert "bytes=" + a + "-" == "bytes=" + (a + ['-'] + "");
    NoMinusInNatStr(first);
    BoundsOfPieces(a, "", fileSize);
    ParseIntOfNatStr(first);
  }

  /** The suffix form `bytes=-n` of section 2.1 of RFC 7233 has no first byte:
      the first byte is NaN and the last byte is read as n. */
  lemma SuffixRangeBounds(n: nat, fileSize: nat)
    ensures RangeBounds("bytes=-" + NatStr(n), fileSize) == (None, Some(n))
  {
    var b := NatStr(n);
    assert "bytes=-" + b == "bytes=" + ("" + ['-'] + b);
    NoMinusInNatStr(n);
    BoundsOfPieces("", b, fileSize);
    ParseIntOfNatStr(n);
  }

  /** With a non-empty Range header the answer is the range answer for the
      selected file. */
  lemma RangeAnswer(catalog: map<string, VideoRecord>, sizes: map<string, nat>, id: string,
                    compressed: bool, range: string)
    requires id in catalog && SelectedFile(catalog[id], compressed).Some?
    requires SelectedFile(catalog[id], compressed).value.0 in sizes && range != ""
    ensures var f := SelectedFile(catalog[id], compressed).value;
      StreamVideo(catalog, sizes, id, compressed, Some(range)) == RangeResponse(RangeBounds(range, sizes[f.0]), sizes[f.0], f.1)
  {
  }

  /** The answer for two numeric bounds, the first inside the file: 206 when
      the last is not before the first, whatever the file size, else the
      404 redirect. */
  lemma NumericRangeAnswer(first: nat, last: int, fileSize: nat, contentType: Option<string>)
    requires first < fileSize
    ensures first <= last ==>
              RangeResponse((Some(first), Some(last)), fileSize, contentType)
              == Partial(first, last, ContentRange(first, last, fileSize), last - first + 1, contentType)
    ensures last < first ==> RangeResponse((Some(first), Some(last)), fileSize, contentType) == NotFoundRedirect
  {
  }

  /** A header whose bounds parse to two numbers, the first inside the file
      (`bytes=first-last`, see `ClosedRangeBounds`), is answered 206 with
      `Content-Range: bytes first-last/size` and Content-Length
      last - first + 1 when last >= first, with no check that last < size;
      a reversed pair is refused by the stream and answered with the 404
      redirect. */
  lemma ClosedRangeResponse(catalog: map<string, VideoRecord>, sizes: map<string, nat>, id: string,
                            compressed: bool, range: string, first: nat, last: nat)
    requires id in catalog && SelectedFile(catalog[id], compressed).Some?
    requires SelectedFile(catalog[id], compressed).value.0 in sizes && range != ""
    requires var size := sizes[SelectedFile(catalog[id], compressed).value.0];
      RangeBounds(range, size) == (Some(first), Some(last)) && first < size
    ensures var f := SelectedFile(catalog[id], compressed).value;
      first <= last ==>
        StreamVideo(catalog, sizes, id, compressed, Some(range))
        == Partial(first, last, ContentRange(first, last, sizes[f.0]), last - first + 1, f.1)
    ensures last < first ==> StreamVideo(catalog, sizes, id, compressed, Some(range)) == NotFoundRedirect
  {
    var f := SelectedFile(catalog[id], compressed).value;
    RangeAnswer(catalog, sizes, id, compressed, range);
    NumericRangeAnswer(first, last, sizes[f.0], f.1);
  }

  /** A range running past the end of the file (section 2.1 of RFC 7233 asks
      for it to be cut at the last byte) keeps its last byte, so the 206
      announces more bytes than the file holds from the first byte on. */
  lemma PastEndLengthOverstated(catalog: map<string, VideoRecord>, sizes: map<string, nat>, id: string,
                                compressed: bool, range: string, first: nat, last: nat)
    requires id in catalog && SelectedFile(catalog[id], compressed).Some?
    requires SelectedFile(catalog[id], compressed).value.0 in sizes && range != ""
    requires var size := sizes[SelectedFile(catalog[id], compressed).value.0];
      RangeBounds(range, size) == (Some(first), Some(last)) && first < size <= last
    ensures var size := sizes[SelectedFile(catalog[id], compressed).value.0];
      var r := StreamVideo(catalog, sizes, id, compressed, Some(range));
      r.Partial? && r.end >= size && r.chunkLength > size - first
  {
    ClosedRangeResponse(catalog, sizes, id, compressed, range, first, last);
  }

  /** A header whose first byte parses to a number at or beyond the end of
      the file gets 416 with the body naming both numbers. */
  lemma PastEndResponse(catalog: map<string, VideoRecord>, sizes: map<string, nat>, id: string,
                        compressed: bool, range: string, first: nat)
    requires id in catalog && SelectedFile(catalog[id], compressed).Some?
    requires SelectedFile(catalog[id], compressed).value.0 in sizes && range != ""
    requires var size := sizes[SelectedFile(catalog[id], compressed).value.0];
      RangeBounds(range, size).0 == Some(first) && first >= size
    ensures var size := sizes[SelectedFile(catalog[id], compressed).value.0];
      StreamVideo(catalog, sizes, id, compressed, Some(range))
      == RangeNotSatisfiable("Requested range not satisfiable\n" + NatStr(first) + " >= " + NatStr(size))
  {
    RangeAnswer(catalog, sizes, id, compressed, range);
  }

  /** A suffix range (`bytes=-n`, see `SuffixRangeBounds`) passes the 416
      test, since NaN compares false, and is then refused by the stream: the
      service answers with its 404 redirect instead of the file's last n
      bytes. */
  lemma SuffixRangeResponse(catalog: map<string, VideoRecord>, sizes: map<string, nat>, id: string,
                            compressed: bool, range: string, n: nat)
    requires id in catalog && SelectedFile(catalog[id], compressed).Some?
    requires SelectedFile(catalog[id], compressed).value.0 in sizes && range != ""
    requires RangeBounds(range, sizes[SelectedFile(catalog[id], compressed).value.0]) == (None, Some(n))
    ensures StreamVideo(catalog, sizes, id, compressed, Some(range)) == NotFoundRedirect
  {
    RangeAnswer(catalog, sizes, id, compressed, range);
  }
}
