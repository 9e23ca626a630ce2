/**
 * decodePagination: read the cursor at the end of a "next page" link
 * (base64 of "sessionId,currentRow,maxRow,flag"), then build one link per
 * page of 5000 rows by putting a fresh cursor in place of the last path
 * segment of the query url.
 */
module Pagination {
  import opened Wrappers
  import opened Ascii
  import Base64
  import Decimal
  import Strings

  /** Rows per page: the step of the loop. */
  const STRIDE: int := 5000

  const SLASH: char := '/'

  /** The fields the cursor carries; the fourth (flag) field is never read. */
  datatype Cursor = Cursor(sessionId: seq<byte>, currentRow: int, maxRow: int)

  /** Each way decoding the cursor or writing a new one raises in Python. */
  datatype DecodeError =
    | NonAsciiSegment          // ValueError: b64decode of a str with non-ASCII characters
    | MalformedBase64          // binascii.Error
    | MalformedUtf8            // UnicodeDecodeError from decode('utf-8')
    | MissingField(index: nat) // IndexError: the split has no field at index
    | NotAnInteger(index: nat) // ValueError: int() of the field at index
    | NonAsciiSessionId        // UnicodeEncodeError from encode('ASCII') of a new cursor

  /**
   * The cursor in the decoded text: field 0 is the session id, fields 1 and
   * 2 are read as integers, in this order; later fields are ignored.
   */
  function ParseFields(text: seq<byte>): (r: Result<Cursor, DecodeError>)
    ensures var f := Strings.Split(text, COMMA);
      (r.Ok? <==> |f| >= 3 && Decimal.ParseInt(f[1]).Some? && Decimal.ParseInt(f[2]).Some?)
      && (r == Err(MissingField(1)) <==> |f| < 2)
      && (r == Err(NotAnInteger(1)) <==> |f| >= 2 && Decimal.ParseInt(f[1]).None?)
      && (r == Err(MissingField(2)) <==> |f| == 2 && Decimal.ParseInt(f[1]).Some?)
      && (r == Err(NotAnInteger(2)) <==> |f| >= 3 && Decimal.ParseInt(f[1]).Some? && Decimal.ParseInt(f[2]).None?)
      && (r.Ok? ==> r.value == Cursor(f[0], Decimal.ParseInt(f[1]).value, Decimal.ParseInt(f[2]).value))
    ensures r.Ok? ==> COMMA !in r.value.sessionId && r.value.sessionId <= text
  {
    var f := Strings.Split(text, COMMA);
    if |f| < 2 then Err(MissingField(1))
    else match Decimal.ParseInt(f[1])
      case None => Err(NotAnInteger(1))
      case Some(cur) =>
        if |f| < 3 then Err(MissingField(2))
        else match Decimal.ParseInt(f[2])
          case None => Err(NotAnInteger(2))
          case Some(max) =>
            Strings.JoinCons(f, COMMA);
            Ok(Cursor(f[0], cur, max))
  }

  /** The cursor a link carries in its last path segment. */
  function DecodeCursor(link: string): (r: Result<Cursor, DecodeError>)
    ensures var seg := Strings.LastSegment(link, SLASH);
      (r == Err(NonAsciiSegment) <==> !IsAsciiText(seg))
      && (r == Err(MalformedBase64) <==> IsAsciiText(seg) && !Base64.WellFormed(ToBytes(seg)))
    ensures r.Ok? ==> COMMA !in r.value.sessionId
  {
    DecodeSegment(Strings.LastSegment(link, SLASH))
  }

  /** The cursor in a path segment: base64, then UTF-8, then the fields. */
  function DecodeSegment(seg: string): (r: Result<Cursor, DecodeError>)
    ensures (r == Err(NonAsciiSegment) <==> !IsAsciiText(seg))
      && (r == Err(MalformedBase64) <==> IsAsciiText(seg) && !Base64.WellFormed(ToBytes(seg)))
    ensures r.Ok? ==> COMMA !in r.value.sessionId
  {
    if !IsAsciiText(seg) then Err(NonAsciiSegment)
    else match Base64.Decode(ToBytes(seg))
      case None => Err(MalformedBase64)
      case Some(text) =>
        if !WellFormedUtf8(text) then Err(MalformedUtf8) else ParseFields(text)
  }

  /** The text of a new cursor: session id, row, maximum and flag 0, joined by commas. */
  function CursorText(uid: seq<byte>, row: int, max: int): (t: seq<byte>)
    ensures IsAscii(uid) ==> IsAscii(t)
    ensures uid <= t
  {
    var t := Strings.Join([uid, Decimal.FormatInt(row), Decimal.FormatInt(max), [Decimal.ZERO]], COMMA);
    CursorTextJoin(uid, row, max);
    if IsAscii(uid) then
      CursorTextAscii(uid, row, max);
      t
    else t
  }

  /** The cursor text spelled out: the four fields with a comma between each two. */
  lemma CursorTextJoin(uid: seq<byte>, row: int, max: int)
    ensures Strings.Join([uid, Decimal.FormatInt(row), Decimal.FormatInt(max), [Decimal.ZERO]], COMMA)
         == uid + [COMMA] + Decimal.FormatInt(row) + [COMMA] + Decimal.FormatInt(max) + [COMMA, Decimal.ZERO]
  {
    var f1, f2 := Decimal.FormatInt(row), Decimal.FormatInt(max);
    Strings.JoinFour(uid, f1, f2, [Decimal.ZERO], COMMA);
    assert uid + [COMMA] + f1 + [COMMA] + f2 + [COMMA] + [Decimal.ZERO]
        == uid + [COMMA] + f1 + [COMMA] + f2 + [COMMA, Decimal.ZERO];
  }

  lemma CursorTextAscii(uid: seq<byte>, row: int, max: int)
    requires IsAscii(uid)
    ensures IsAscii(uid + [COMMA] + Decimal.FormatInt(row) + [COMMA] + Decimal.FormatInt(max) + [COMMA, Decimal.ZERO])
  {
    var sep: seq<byte> := [COMMA];
    AsciiConcat(uid, sep);
    AsciiConcat(uid + sep, Decimal.FormatInt(row));
    AsciiConcat(uid + sep + Decimal.FormatInt(row), sep);
    AsciiConcat(uid + sep + Decimal.FormatInt(row) + sep, Decimal.FormatInt(max));
    AsciiConcat(uid + sep + Decimal.FormatInt(row) + sep + Decimal.FormatInt(max), [COMMA, Decimal.ZERO]);
  }

  /** The base64 text of a new cursor. */
  function EncodeCursor(uid: seq<byte>, row: int, max: int): (s: string)
    ensures IsAsciiText(s) && |s| % 4 == 0 && |s| > 0
    ensures ToBytes(s) == Base64.Encode(CursorText(uid, row, max))
  {
    var e := Base64.Encode(CursorText(uid, row, max));
    Base64.WellFormedIsAscii(e);
    ToFromBytes(e);
    FromBytes(e)
  }

  /** The url with cursor put in place of its last path segment (every occurrence of it). */
  function WithCursor(url: string, cursor: string): string {
    Strings.Replace(url, Strings.LastSegment(url, SLASH), cursor)
  }

  /** The link for the page at row of max. */
  function PageLink(url: string, uid: seq<byte>, row: int, max: int): string {
    WithCursor(url, EncodeCursor(uid, row, max))
  }

  /** The rows the loop visits: from cur in steps of STRIDE while not past max. */
  function Offsets(cur: int, max: int): (r: seq<int>)
    ensures r == [] <==> cur > max
    ensures r != [] ==> r[|r| - 1] <= max < r[|r| - 1] + STRIDE
    decreases max - cur
  {
    if cur > max then [] else [cur] + Offsets(cur + STRIDE, max)
  }

  /**
   * What the loop yields from row cur on: the link for each row it visits,
   * or, as soon as one page is due, the error of writing a cursor for a
   * session id that is not ASCII.
   */
  function LinksFrom(url: string, uid: seq<byte>, cur: int, max: int): Result<seq<string>, DecodeError> {
    if cur > max then Ok([])
    else if !IsAscii(uid) then Err(NonAsciiSessionId)
    else Ok(MapRows(LinkFor(url, uid, max), Offsets(cur, max)))
  }

  /** f at each of rows, in order. */
  function MapRows<T>(f: int -> T, rows: seq<int>): seq<T> {
    seq(|rows|, k requires 0 <= k < |rows| => f(rows[k]))
  }

  /** A row in front of the rows puts f at that row in front of the results. */
  lemma MapRowsCons<T>(f: int -> T, row: int, rest: seq<int>)
    ensures MapRows(f, [row] + rest) == [f(row)] + MapRows(f, rest)
  {
    var rows := [row] + rest;
    forall k | 0 <= k < |rows|
      ensures MapRows(f, rows)[k] == ([f(row)] + MapRows(f, rest))[k]
    {
      if k > 0 {
        assert rows[k] == rest[k - 1];
      }
    }
  }

  /** Links already appended, in front of the outcome of the rest of the loop. */
  function Prepend(links: seq<string>, rest: Result<seq<string>, DecodeError>): Result<seq<string>, DecodeError> {
    match rest
    case Ok(more) => Ok(links + more)
    case Err(e) => Err(e)
  }

  /** The links for a decoded cursor. */
  function PageLinks(c: Cursor, url: string): Result<seq<string>, DecodeError> {
    LinksFrom(url, c.sessionId, c.currentRow, c.maxRow)
  }

  /** What decodePagination returns or raises. */
  function Pagination(link: string, url: string): Result<seq<string>, DecodeError> {
    match DecodeCursor(link)
    case Err(e) => Err(e)
    case Ok(c) => PageLinks(c, url)
  }

  lemma PrependNothing(rest: Result<seq<string>, DecodeError>)
    ensures Prepend([], rest) == rest
  {
    if rest.Ok? {
      assert [] + rest.value == rest.value;
    }
  }

  lemma PrependTwice(a: seq<string>, b: seq<string>, rest: Result<seq<string>, DecodeError>)
    ensures Prepend(a, Prepend(b, rest)) == Prepend(a + b, rest)
  {
    if rest.Ok? {
      assert a + (b + rest.value) == (a + b) + rest.value;
    }
  }

  /** One pass of the loop: the link for row cur moves from the rest of the loop to the links written. */
  lemma LinksStep(links: seq<string>, link: string, url: string, uid: seq<byte>, cur: int, max: int)
    requires cur <= max && IsAscii(uid) && link == PageLink(url, uid, cur, max)
    ensures Prepend(links + [link], LinksFrom(url, uid, cur + STRIDE, max))
      == Prepend(links, LinksFrom(url, uid, cur, max))
  {
    var f, rest := LinkFor(url, uid, max), Offsets(cur + STRIDE, max);
    assert Offsets(cur, max) == [cur] + rest;
    MapRowsCons(f, cur, rest);
    assert f(cur) == link;
    assert LinksFrom(url, uid, cur, max) == Prepend([link], LinksFrom(url, uid, cur + STRIDE, max));
    PrependTwice(links, [link], LinksFrom(url, uid, cur + STRIDE, max));
  }

  /** Leaving the loop: past max nothing is left to add to the links written. */
  lemma LinksDone(links: seq<string>, url: string, uid: seq<byte>, cur: int, max: int)
    requires cur > max
    ensures Prepend(links, LinksFrom(url, uid, cur, max)) == Ok(links)
  {
    assert LinksFrom(url, uid, cur, max) == Ok([]);
    assert links + [] == links;
  }

  /** Raising in the loop: a session id that is not ASCII discards the links written. */
  lemma LinksFail(links: seq<string>, url: string, uid: seq<byte>, cur: int, max: int)
    requires cur <= max && !IsAscii(uid)
    ensures Prepend(links, LinksFrom(url, uid, cur, max)) == Err(NonAsciiSessionId)
  {
    assert LinksFrom(url, uid, cur, max) == Err(NonAsciiSessionId);
  }

  /** One pass of the loop body: encode the cursor for this row and splice it into the url. */
  method NextLink(url: string, uid: seq<byte>, row: int, max: int) returns (returnLink: string)
    ensures returnLink == PageLink(url, uid, row, max)
  {
    var encoded := EncodeCursor(uid, row, max);
    returnLink := Strings.Replace(url, Strings.LastSegment(url, SLASH), encoded);
  }

  /** decodePagination, step by step as the loop runs. */
  method DecodePagination(link: string, url: string) returns (r: Result<seq<string>, DecodeError>)
    ensures r == Pagination(link, url)
  {
    var decoded := DecodeCursor(link);
    if decoded.Err? {
      return Err(decoded.error);
    }
    r := WriteLinks(decoded.value, url);
  }

  /** The loop of decodePagination: one link per page, from the decoded cursor. */
  method WriteLinks(c: Cursor, url: string) returns (r: Result<seq<string>, DecodeError>)
    ensures r == PageLinks(c, url)
  {
    var uid := c.sessionId;
    var curRows := c.currentRow;
    var maxRows := c.maxRow;
    var links: seq<string> := [];
    // Each pass only moves one link from the rest of the loop to the links
    // written (LinksStep); the text of a link plays no part in this proof.
    hide PageLink;
    PrependNothing(LinksFrom(url, uid, curRows, maxRows));
    while curRows <= maxRows
      invariant Prepend(links, LinksFrom(url, uid, curRows, maxRows)) == PageLinks(c, url)
      decreases maxRows - curRows
    {
      if !IsAscii(uid) {
        LinksFail(links, url, uid, curRows, maxRows);
        return Err(NonAsciiSessionId);
      }
      var returnLink := NextLink(url, uid, curRows, maxRows);
      LinksStep(links, returnLink, url, uid, curRows, maxRows);
      links := links + [returnLink];
      curRows := curRows + STRIDE;
    }
    LinksDone(links, url, uid, curRows, maxRows);
    return Ok(links);
  }

  // ---------------------------------------------------------------------
  // The pages the loop visits

  /** The loop runs (max - cur) div 5000 + 1 times when cur <= max, else never. */
  lemma {:induction false} OffsetsCount(cur: int, max: int)
    ensures |Offsets(cur, max)| == if cur > max then 0 else (max - cur) / STRIDE + 1
    decreases max - cur
  {
    if cur <= max {
      OffsetsCount(cur + STRIDE, max);
      if cur + STRIDE <= max {
        assert (max - cur) / STRIDE == (max - (cur + STRIDE)) / STRIDE + 1;
      }
    }
  }

  /** The k-th page starts at row cur + 5000 k, which is not past max. */
  lemma {:induction false} OffsetsAt(cur: int, max: int, k: int)
    requires 0 <= k < |Offsets(cur, max)|
    ensures Offsets(cur, max)[k] == cur + STRIDE * k <= max
    decreases max - cur
  {
    if k > 0 {
      OffsetsAt(cur + STRIDE, max, k - 1);
    }
  }

  /** The bound is inclusive: when max is a whole number of strides past cur, max is itself a page. */
  lemma MaxIncluded(cur: int, max: int)
    requires cur <= max && (max - cur) % STRIDE == 0
    ensures max in Offsets(cur, max)
  {
    var r := Offsets(cur, max);
    var k := |r| - 1;
    OffsetsAt(cur, max, k);
    var q := (max - cur) / STRIDE;
    assert max - r[k] == STRIDE * (q - k);
  }

  /** Rows 0 to 12000 take three pages, at 0, 5000 and 10000; a start past the end takes none. */
  lemma OffsetsExamples()
    ensures Offsets(0, 12000) == [0, 5000, 10000]
    ensures Offsets(5000, 4000) == []
  {
    assert Offsets(15000, 12000) == [];
    assert Offsets(10000, 12000) == [10000];
  }

  /**
   * What the loop yields: nothing when cur is past max; the error of the
   * first cursor when the session id is not ASCII; otherwise one link per
   * page, the k-th carrying row cur + 5000 k.
   */
  lemma LinksFromPages(url: string, uid: seq<byte>, cur: int, max: int)
    ensures cur > max ==> LinksFrom(url, uid, cur, max) == Ok([])
    ensures cur <= max && !IsAscii(uid) ==> LinksFrom(url, uid, cur, max) == Err(NonAsciiSessionId)
    ensures IsAscii(uid) ==> LinksFrom(url, uid, cur, max).Ok?
    ensures IsAscii(uid) ==> IsPages(LinksFrom(url, uid, cur, max).value, url, uid, cur, max)
  {
    if IsAscii(uid) {
      AsciiPages(url, uid, cur, max);
    }
  }

  /** links holds one link per page from cur, the k-th for row cur + 5000 k. */
  predicate IsPages(links: seq<string>, url: string, uid: seq<byte>, cur: int, max: int) {
    |links| == |Offsets(cur, max)| && Strided(links, LinkFor(url, uid, max), cur)
  }

  /** The link for each row. */
  function LinkFor(url: string, uid: seq<byte>, max: int): int -> string {
    row => PageLink(url, uid, row, max)
  }

  /** Element k of xs is f at row cur + 5000 k. */
  predicate Strided<T(==)>(xs: seq<T>, f: int -> T, cur: int) {
    forall k | 0 <= k < |xs| :: xs[k] == f(cur + STRIDE * k)
  }

  lemma AsciiPages(url: string, uid: seq<byte>, cur: int, max: int)
    requires IsAscii(uid)
    ensures LinksFrom(url, uid, cur, max).Ok?
    ensures IsPages(LinksFrom(url, uid, cur, max).value, url, uid, cur, max)
  {
    RowsStrided(LinkFor(url, uid, max), cur, max);
  }

  /** f at the rows the loop visits is f at row cur + 5000 k in place k. */
  lemma RowsStrided<T>(f: int -> T, cur: int, max: int)
    ensures Strided(MapRows(f, Offsets(cur, max)), f, cur)
  {
    var xs := MapRows(f, Offsets(cur, max));
    forall k | 0 <= k < |xs|
      ensures xs[k] == f(cur + STRIDE * k)
    {
      OffsetsAt(cur, max, k);
    }
  }

  /**
   * decodePagination on a link whose cursor decodes: an empty list past
   * the maximum, otherwise (max - cur) div 5000 + 1 links, or the ASCII
   * encoding error for a non-ASCII session id.
   */
  lemma PaginationCount(link: string, url: string)
    requires DecodeCursor(link).Ok?
    ensures var c := DecodeCursor(link).value; var r := Pagination(link, url);
      (c.currentRow > c.maxRow ==> r == Ok([]))
      && (c.currentRow <= c.maxRow && !IsAscii(c.sessionId) ==> r == Err(NonAsciiSessionId))
      && (c.currentRow <= c.maxRow && IsAscii(c.sessionId) ==>
            r.Ok? && |r.value| == (c.maxRow - c.currentRow) / STRIDE + 1)
  {
    var c := DecodeCursor(link).value;
    LinksFromPages(url, c.sessionId, c.currentRow, c.maxRow);
    OffsetsCount(c.currentRow, c.maxRow);
  }

  // ---------------------------------------------------------------------
  // Reading a cursor back

  /**
   * Only the first three fields are read: a session id, two integers and
   * anything from a further comma on (or nothing at all) parse to the same
   * cursor, whatever the flag field holds.
   */
  lemma ThreeFieldsSuffice(uid: seq<byte>, row: int, max: int, tail: seq<byte>)
    requires COMMA !in uid
    requires tail == [] || tail[0] == COMMA
    ensures ParseFields(uid + [COMMA] + Decimal.FormatInt(row) + [COMMA] + Decimal.FormatInt(max) + tail)
      == Ok(Cursor(uid, row, max))
  {
    var fr, fm := Decimal.FormatInt(row), Decimal.FormatInt(max);
    Strings.SplitThree(uid, fr, fm, tail, COMMA);
    Decimal.ParseFormat(row);
    Decimal.ParseFormat(max);
  }

  /** The text of a new cursor reads back as the cursor it was written from. */
  lemma ParseCursorText(uid: seq<byte>, row: int, max: int)
    requires COMMA !in uid
    ensures ParseFields(CursorText(uid, row, max)) == Ok(Cursor(uid, row, max))
  {
    CursorTextJoin(uid, row, max);
    ThreeFieldsSuffice(uid, row, max, [COMMA, Decimal.ZERO]);
  }

  /**
   * A link written for row of max reads back as that cursor, provided the
   * base64 text of the cursor holds no '/' (the standard alphabet has one);
   * its last segment decodes to "uid,row,max,0".
   */
  lemma LinkRoundTrip(url: string, uid: seq<byte>, row: int, max: int)
    requires IsAscii(uid) && COMMA !in uid
    requires SLASH !in EncodeCursor(uid, row, max)
    ensures var seg := Strings.LastSegment(PageLink(url, uid, row, max), SLASH);
      seg == EncodeCursor(uid, row, max)
      && IsAsciiText(seg) && Base64.Decode(ToBytes(seg)) == Some(CursorText(uid, row, max))
    ensures DecodeCursor(PageLink(url, uid, row, max)) == Ok(Cursor(uid, row, max))
  {
    var enc := EncodeCursor(uid, row, max);
    var text := CursorText(uid, row, max);
    LinkReadsCursor(url, enc);
    Strings.LastSegmentPlain(enc, SLASH);
    Base64.DecodeEncode(text);
    AsciiIsUtf8(text);
    ParseCursorText(uid, row, max);
  }

  /**
   * The k-th link decodePagination writes reads back as the cursor of row
   * cur + 5000 k, when its base64 text holds no '/'.
   */
  lemma PaginationRoundTrip(link: string, url: string, k: int)
    requires DecodeCursor(link).Ok?
    requires var c := DecodeCursor(link).value;
      IsAscii(c.sessionId) && 0 <= k < |Offsets(c.currentRow, c.maxRow)|
      && SLASH !in EncodeCursor(c.sessionId, c.currentRow + STRIDE * k, c.maxRow)
    ensures var c := DecodeCursor(link).value; var r := Pagination(link, url);
      r.Ok? && k < |r.value|
      && DecodeCursor(r.value[k]) == Ok(Cursor(c.sessionId, c.currentRow + STRIDE * k, c.maxRow))
  {
    var c := DecodeCursor(link).value;
    var uid := c.sessionId;
    assert Pagination(link, url) == LinksFrom(url, uid, c.currentRow, c.maxRow);
    LinksFromPages(url, uid, c.currentRow, c.maxRow);
    PageAtReadsBack(LinksFrom(url, uid, c.currentRow, c.maxRow).value, url, uid, c.currentRow, c.maxRow, k);
  }

  /** The k-th of a list of page links reads back as its cursor when that cursor's base64 text has no '/'. */
  lemma PageAtReadsBack(links: seq<string>, url: string, uid: seq<byte>, cur: int, max: int, k: int)
    requires IsAscii(uid) && COMMA !in uid
    requires IsPages(links, url, uid, cur, max) && 0 <= k < |links|
    requires SLASH !in EncodeCursor(uid, cur + STRIDE * k, max)
    ensures DecodeCursor(links[k]) == Ok(Cursor(uid, cur + STRIDE * k, max))
  {
    var row := cur + STRIDE * k;
    assert links[k] == LinkFor(url, uid, max)(row);
    LinkRoundTrip(url, uid, row, max);
  }

  /**
   * Every link decodePagination writes reads back as its own page's cursor
   * when the session id is ASCII without '?' or DEL, the only bytes that
   * can put a '/' into the base64 text.
   */
  lemma EveryLinkRoundTrip(link: string, url: string)
    requires DecodeCursor(link).Ok?
    requires var uid := DecodeCursor(link).value.sessionId;
      IsAscii(uid) && 63 !in uid && 127 !in uid
    ensures var c := DecodeCursor(link).value; var r := Pagination(link, url);
      r.Ok? && |r.value| == |Offsets(c.currentRow, c.maxRow)| && ReadsBack(r.value, c)
  {
    var c := DecodeCursor(link).value;
    var r := Pagination(link, url);
    assert r == LinksFrom(url, c.sessionId, c.currentRow, c.maxRow);
    LinksRoundTrip(url, c.sessionId, c.currentRow, c.maxRow);
    assert c == Cursor(c.sessionId, c.currentRow, c.maxRow);
  }

  /** Link k of links decodes to the cursor of row c.currentRow + 5000 k. */
  predicate ReadsBack(links: seq<string>, c: Cursor) {
    forall k | 0 <= k < |links| :: DecodeCursor(links[k]) == Ok(Cursor(c.sessionId, c.currentRow + STRIDE * k, c.maxRow))
  }

  /** The loop's links, from row cur on, read back as their pages' cursors. */
  lemma LinksRoundTrip(url: string, uid: seq<byte>, cur: int, max: int)
    requires IsAscii(uid) && COMMA !in uid && 63 !in uid && 127 !in uid
    ensures var r := LinksFrom(url, uid, cur, max);
      r.Ok? && |r.value| == |Offsets(cur, max)| && ReadsBack(r.value, Cursor(uid, cur, max))
  {
    LinksFromPages(url, uid, cur, max);
    PagesReadBack(LinksFrom(url, uid, cur, max).value, url, uid, cur, max);
  }

  /** Every link of a list of page links reads back as its page's cursor. */
  lemma PagesReadBack(links: seq<string>, url: string, uid: seq<byte>, cur: int, max: int)
    requires IsAscii(uid) && COMMA !in uid && 63 !in uid && 127 !in uid
    requires IsPages(links, url, uid, cur, max)
    ensures ReadsBack(links, Cursor(uid, cur, max))
  {
    forall k | 0 <= k < |links|
      ensures DecodeCursor(links[k]) == Ok(Cursor(uid, cur + STRIDE * k, max))
    {
      PageReadsBack(links, url, uid, cur, max, k);
    }
  }

  /** The k-th of a list of page links reads back as its page's cursor. */
  lemma PageReadsBack(links: seq<string>, url: string, uid: seq<byte>, cur: int, max: int, k: int)
    requires IsAscii(uid) && COMMA !in uid && 63 !in uid && 127 !in uid
    requires IsPages(links, url, uid, cur, max) && 0 <= k < |links|
    ensures DecodeCursor(links[k]) == Ok(Cursor(uid, cur + STRIDE * k, max))
  {
    CursorWithoutSlash(uid, cur + STRIDE * k, max);
    PageAtReadsBack(links, url, uid, cur, max, k);
  }

  /** A link for a session id without '?' or DEL reads back as its cursor. */
  lemma SafeLinkRoundTrip(url: string, uid: seq<byte>, row: int, max: int)
    requires IsAscii(uid) && COMMA !in uid && 63 !in uid && 127 !in uid
    ensures DecodeCursor(PageLink(url, uid, row, max)) == Ok(Cursor(uid, row, max))
  {
    CursorWithoutSlash(uid, row, max);
    LinkRoundTrip(url, uid, row, max);
  }

  /**
   * The base64 text of a cursor holds no '/' when the session id is ASCII
   * without '?' or DEL: the digits, '-' and ',' making up the rest of the
   * cursor text never produce one.
   */
  lemma CursorWithoutSlash(uid: seq<byte>, row: int, max: int)
    requires IsAscii(uid) && 63 !in uid && 127 !in uid
    ensures SLASH !in EncodeCursor(uid, row, max)
  {
    var text := CursorText(uid, row, max);
    var f1, f2 := Decimal.FormatInt(row), Decimal.FormatInt(max);
    CursorTextJoin(uid, row, max);
    assert text == uid + [COMMA] + f1 + [COMMA] + f2 + [COMMA, Decimal.ZERO];
    forall x | x in text
      ensures Base64.SlashFreeByte(x)
    {
      if x in uid {
        var j :| 0 <= j < |uid| && uid[j] == x;
      } else if x in f1 {
        var j :| 0 <= j < |f1| && f1[j] == x;
      } else if x in f2 {
        var j :| 0 <= j < |f2| && f2[j] == x;
      }
    }
    forall i | 0 <= i < |text|
      ensures Base64.SlashFreeByte(text[i])
    {
      assert text[i] in text;
    }
    Base64.EncodeWithoutSlash(text);
    var enc := EncodeCursor(uid, row, max);
    forall j | 0 <= j < |enc|
      ensures enc[j] != SLASH
    {
      assert ToBytes(enc)[j] in Base64.Encode(text);
    }
  }

  /**
   * The cursor text splits on commas into exactly the session id, the row,
   * the maximum and the flag 0.
   */
  lemma CursorFields(uid: seq<byte>, row: int, max: int)
    requires COMMA !in uid
    ensures Strings.Split(CursorText(uid, row, max), COMMA)
         == [uid, Decimal.FormatInt(row), Decimal.FormatInt(max), [Decimal.ZERO]]
  {
    var parts := [uid, Decimal.FormatInt(row), Decimal.FormatInt(max), [Decimal.ZERO]];
    Strings.SplitJoin(parts, COMMA);
  }

  /** Only the last path segment of the link is read. */
  lemma OnlyLastSegmentRead(prefix: string, seg: string)
    ensures DecodeCursor(prefix + [SLASH] + seg) == DecodeCursor(seg)
  {
    Strings.LastSegmentAfterSep(prefix, SLASH, seg);
  }

  // ---------------------------------------------------------------------
  // The shape of a written link

  /**
   * The link ends with what the new cursor ends with: its last segment is
   * that of the cursor, which is the whole cursor when it holds no '/'.
   * So reading a written link back reads the cursor alone, whatever url was.
   */
  lemma LinkReadsCursor(url: string, cursor: string)
    ensures Strings.LastSegment(WithCursor(url, cursor), SLASH) == Strings.LastSegment(cursor, SLASH)
    ensures DecodeCursor(WithCursor(url, cursor)) == DecodeCursor(cursor)
  {
    Strings.SpliceLastSegment(url, SLASH, cursor);
  }

  /**
   * When the last segment of url is non-empty and occurs nowhere before it,
   * the link is url with exactly that segment swapped for the cursor.
   */
  lemma LinkSplice(url: string, cursor: string)
    requires Strings.LastSegment(url, SLASH) != []
    requires !Strings.Occurs(url[..|url| - |Strings.LastSegment(url, SLASH)|], Strings.LastSegment(url, SLASH))
    ensures WithCursor(url, cursor) == url[..|url| - |Strings.LastSegment(url, SLASH)|] + cursor
  {
    Strings.SpliceWhenUnique(url, SLASH, cursor);
  }

  /**
   * The '/' of the base64 alphabet breaks the round trip: for session id
   * "???" the cursor "???,0,0,0" encodes to "Pz8/LDAsMCww", and whatever the
   * url, the link written with it reads back as the cursor in "LDAsMCww",
   * that is ",0,0,0": an empty session id.
   */
  lemma SlashBreaksRoundTrip(url: string)
    ensures EncodeCursor([63, 63, 63], 0, 0) == "Pz8/LDAsMCww"
    ensures DecodeCursor(PageLink(url, [63, 63, 63], 0, 0)) == Ok(Cursor([], 0, 0))
  {
    SlashInCursor();
    LinkReadsCursor(url, EncodeCursor([63, 63, 63], 0, 0));
    SlashSplit();
    OnlyLastSegmentRead("Pz8", "LDAsMCww");
    ShortCursor();
  }

  // SlashSplit, ShortCursorBytes and ShortCursorChars are kept apart from the
  // lemmas that use them only so that those lemmas do not evaluate the
  // literals themselves: inside them the same steps run out of resource or
  // come close to it.

  lemma SlashSplit()
    ensures "Pz8/LDAsMCww" == "Pz8" + [SLASH] + "LDAsMCww"
  {
    var x, y := "Pz8/LDAsMCww", "Pz8" + [SLASH] + "LDAsMCww";
    assert |x| == |y| && forall i | 0 <= i < |x| :: x[i] == y[i];
  }

  lemma ShortCursorBytes()
    ensures IsAsciiText("LDAsMCww") && ToBytes("LDAsMCww") == [76, 68, 65, 115, 77, 67, 119, 119]
  {
  }

  lemma SlashInCursor()
    ensures EncodeCursor([63, 63, 63], 0, 0) == "Pz8/LDAsMCww"
  {
    EncodeShortCursor();
    ShortCursorChars();
  }

  lemma ShortCursorChars()
    ensures FromBytes([80, 122, 56, 47, 76, 68, 65, 115, 77, 67, 119, 119]) == "Pz8/LDAsMCww"
  {
    var x, y := FromBytes([80, 122, 56, 47, 76, 68, 65, 115, 77, 67, 119, 119]), "Pz8/LDAsMCww";
    assert |x| == |y| && forall i | 0 <= i < |x| :: x[i] == y[i];
  }

  lemma EncodeShortCursor()
    ensures Base64.Encode(CursorText([63, 63, 63], 0, 0)) == [80, 122, 56, 47, 76, 68, 65, 115, 77, 67, 119, 119]
  {
    var x, y := CursorText([63, 63, 63], 0, 0), [63, 63, 63, 44, 48, 44, 48, 44, 48];
    assert x == y by {
      CursorTextJoin([63, 63, 63], 0, 0);
      assert Decimal.FormatInt(0) == [Decimal.ZERO];
      assert |x| == |y| && forall i | 0 <= i < |x| :: x[i] == y[i];
    }
    Base64.SlashExampleEncode();
  }

  /** The cursor "LDAsMCww" reads as ",0,0,0". */
  lemma ShortCursor()
    ensures DecodeCursor("LDAsMCww") == Ok(Cursor([], 0, 0))
  {
    assert SLASH !in "LDAsMCww";
    Strings.LastSegmentPlain("LDAsMCww", SLASH);
    ShortSegment();
  }

  lemma ShortSegment()
    ensures DecodeSegment("LDAsMCww") == Ok(Cursor([], 0, 0))
  {
    ShortCursorBytes();
    Base64.SlashExampleDecode();
    AsciiIsUtf8([44, 48, 44, 48, 44, 48]);
    ParseShortCursor();
  }

  lemma ParseShortCursor()
    ensures ParseFields([44, 48, 44, 48, 44, 48]) == Ok(Cursor([], 0, 0))
  {
    assert Decimal.FormatInt(0) == [Decimal.ZERO];
    var text: seq<byte> := [44, 48, 44, 48, 44, 48];
    assert text == [] + [COMMA] + Decimal.FormatInt(0) + [COMMA] + Decimal.FormatInt(0) + [COMMA, Decimal.ZERO];
    ThreeFieldsSuffice([], 0, 0, [COMMA, Decimal.ZERO]);
  }
}
