/**
 * `read_warc_gz`: the lazy stream of (record id, record) pairs read from one
 * Common Crawl archive. The HTTP transport and the WARC container parser are
 * not modelled; an archive is the sequence of records the parser would hand
 * out, followed by how the underlying stream ends.
 */
module Warc {
  import opened Wrappers
  import opened Text

  /** The only content type whose records are handed on. */
  const ResponseType: string := "application/http; msgtype=response"

  /** The marker that introduces the record id inside a `WARC-Record-ID` header. */
  const UuidMarker: string := "uuid:"

  /** One WARC record as the container parser exposes it: its content type, two headers and the HTML payload. */
  datatype WarcRecord = WarcRecord(contentType: string, recordId: Option<string>, targetUri: Option<string>, payload: string)

  /**
   * How pulling from the stream ends once its records run out: normally, with an
   * exception from the transport or parser (a connection reset, a truncated
   * gzip member, ...), or with a keyboard interrupt.
   */
  datatype StreamEnd = Complete | Broken | Interrupted

  /** One opening of the remote archive: the records it delivers, then how it ends. */
  datatype WarcArchive = WarcArchive(records: seq<WarcRecord>, end: StreamEnd)

  /** One value yielded by the generator. */
  datatype Item = Item(rid: string, record: WarcRecord)

  /** Everything the generator yields, and how pulling past the last yielded item ends. */
  datatype Pulled = Pulled(items: seq<Item>, end: StreamEnd)

  /**
   * The record id taken from a `WARC-Record-ID` header value: the text after the first
   * `uuid:` cut at the next `uuid:` and then at the first `>`. `None` stands for the
   * exception the code raises when the header is missing or holds no `uuid:`.
   */
  function RecordIdOf(header: Option<string>): (r: Option<string>)
    ensures r.Some? <==> header.Some? && Contains(header.value, UuidMarker)
    ensures r.Some? ==> !Contains(r.value, ">")
  {
    match header
    case None => None
    case Some(h) =>
      var parts := Split(h, UuidMarker);
      SplitHasSecond(h, UuidMarker);
      if |parts| < 2 then None
      else
        SplitHead(parts[1], ">");
        Some(Split(parts[1], ">")[0])
  }

  /** `rid` starts `rest`, holds neither delimiter, and is followed by `>`, by `uuid:` or by nothing. */
  predicate DelimitedPrefix(rest: string, rid: string) {
    && |rid| <= |rest| && rest[..|rid|] == rid
    && !Contains(rid, ">") && !Contains(rid, UuidMarker)
    && (|rid| == |rest| || rest[|rid|] == '>' || OccursAt(rest, UuidMarker, |rid|))
  }

  /** `k` is where `UuidMarker` first occurs in `h`. */
  predicate FirstMarkerAt(h: string, k: int) {
    0 <= k <= |h| && OccursAt(h, UuidMarker, k) && forall j :: 0 <= j < k ==> !OccursAt(h, UuidMarker, j)
  }

  /** An id is extracted exactly when the header holds `uuid:`, and it is the delimited text right after the first one. */
  lemma RecordIdBetweenMarkers(h: string)
    ensures RecordIdOf(Some(h)).Some? <==> Contains(h, UuidMarker)
    ensures RecordIdOf(Some(h)).Some? ==>
      exists k :: FirstMarkerAt(h, k) && DelimitedPrefix(h[k + |UuidMarker|..], RecordIdOf(Some(h)).value)
  {
    SplitHasSecond(h, UuidMarker);
    if |Split(h, UuidMarker)| >= 2 {
      var k := SplitSecond(h, UuidMarker);
      var rest := h[k + |UuidMarker|..];
      CutDelimited(rest);
      assert FirstMarkerAt(h, k);
    }
  }

  /** Where a split has a second piece, that piece is the first piece of what follows the first separator. */
  lemma SplitSecond(h: string, sep: string) returns (k: nat)
    requires |sep| > 0 && |Split(h, sep)| >= 2
    ensures FindFrom(h, sep, 0) == Some(k)
    ensures k + |sep| <= |h|
    ensures Split(h, sep)[1] == Split(h[k + |sep|..], sep)[0]
  {
    k := FindFrom(h, sep, 0).value;
  }

  /** Cutting at the next `uuid:` and then at the first `>` leaves a delimited prefix. */
  lemma CutDelimited(rest: string)
    ensures DelimitedPrefix(rest, Split(Split(rest, UuidMarker)[0], ">")[0])
  {
    var q := Split(rest, UuidMarker)[0];
    SplitHead(rest, UuidMarker);
    var rid := Split(q, ">")[0];
    SplitHead(q, ">");
    assert rest[..|rid|] == rid by {
      assert q[..|rid|] == rid;
      assert rest[..|q|] == q;
    }
    if Contains(rid, UuidMarker) {
      ContainsExtends(rid, q, UuidMarker);
    }
    if |rid| < |q| {
      assert OccursAt(q, ">", |rid|);
      assert q[|rid|..|rid| + 1] == ">";
      assert rest[|rid|] == q[|rid|];
    }
  }

  /** The records the generator looks at: those whose content type is `ResponseType`, in archive order. */
  function Responses(rs: seq<WarcRecord>): (out: seq<WarcRecord>)
    ensures |out| <= |rs|
    ensures forall j :: 0 <= j < |out| ==> out[j].contentType == ResponseType && out[j] in rs
    ensures forall r :: r in rs && r.contentType == ResponseType ==> r in out
  {
    if |rs| == 0 then []
    else (if rs[0].contentType == ResponseType then [rs[0]] else []) + Responses(rs[1..])
  }

  /**
   * The generator once non-response records are skipped. It yields the responses in
   * order, each with its extracted id, and raises at the first response whose id
   * cannot be extracted.
   */
  function ReadResponses(rs: seq<WarcRecord>, end: StreamEnd): (p: Pulled)
    ensures |p.items| <= |rs|
    ensures forall j :: 0 <= j < |p.items| ==> p.items[j].record == rs[j] && RecordIdOf(rs[j].recordId) == Some(p.items[j].rid)
    ensures |p.items| < |rs| ==> RecordIdOf(rs[|p.items|].recordId).None? && p.end == Broken
    ensures |p.items| == |rs| ==> p.end == end
  {
    if |rs| == 0 then Pulled([], end)
    else
      match RecordIdOf(rs[0].recordId)
      case None => Pulled([], Broken)
      case Some(rid) =>
        var rest := ReadResponses(rs[1..], end);
        Pulled([Item(rid, rs[0])] + rest.items, rest.end)
  }

  /**
   * The generator over a record sequence: since the stream is consumed lazily, skipping
   * a non-response record and then handling the next one is the same as handling the
   * responses alone.
   */
  function ReadRecords(rs: seq<WarcRecord>, end: StreamEnd): (p: Pulled)
    ensures |p.items| <= |Responses(rs)|
    ensures forall j :: 0 <= j < |p.items| ==>
      p.items[j].record == Responses(rs)[j] && RecordIdOf(Responses(rs)[j].recordId) == Some(p.items[j].rid)
    ensures |p.items| < |Responses(rs)| ==> RecordIdOf(Responses(rs)[|p.items|].recordId).None? && p.end == Broken
    ensures |p.items| == |Responses(rs)| ==> p.end == end
  {
    ReadResponses(Responses(rs), end)
  }

  /** `read_warc_gz(cc_file)` over one opening of the archive. */
  function ReadWarc(a: WarcArchive): Pulled {
    ReadRecords(a.records, a.end)
  }
}
