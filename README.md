# Lacework pagination cursor, modelled in Dafny

The Lacework API wrapper answers a large report query with its first page
and a "next page" link. The last path segment of that link is a base64
cursor. In ASCII it reads `sessionId,currentRow,maxRow,flag`.
`decodePagination(link, url)` reads the cursor out of the link and writes
one request URL per page of 5000 rows. It starts at the current row and
stops once the row passes the maximum; the maximum itself is included. For
each page it encodes a fresh cursor `sessionId,row,maxRow,0` and
substitutes it for the last path segment of `url`.

The project models that function and everything it relies on:

- `wrappers.dfy`: `Option` and `Result`.
- `ascii.dfy`: bytes, ASCII text, and strict UTF-8 well-formedness as in RFC 3629.
- `base64.dfy`: the standard base64 alphabet of section 4 of RFC 4648, with `=` padding. It has an encoder and a strict decoder, proved inverse in both directions on canonical text: decoding an encoding gives back the bytes, and encoding what a canonical text decodes to gives back the text.
- `decimal.dfy`: writing an integer in decimal and reading one back.
- `strs.dfy`: splitting on a separator, the last segment after a separator, and first-to-last replacement of every occurrence of a pattern. That replacement includes the empty-pattern case, which inserts at every position.
- `pagination.dfy`: the cursor, decoding it from a link, writing a page link, the loop as a method, and the properties of the page list.

The method `Pagination.DecodePagination` decodes the cursor. Then
`Pagination.WriteLinks` runs the loop, which appends to a list. Both
methods are proved equal to the functions `Pagination.Pagination` and
`Pagination.PageLinks`. Every exception the function can raise is a
`DecodeError` value, except Python's limit on the length of integer text,
which is not modelled (see "## Left out"). Lemmas state the rest: the page count and rows, the
inclusive bound, that only the last segment is read, and the round trip
from a generated link back to its cursor.

Two behaviours of the code worth stating on their own:

- **Cursor fields.** The code reads only fields 0, 1 and 2 (lines 72-74)
  and never the flag, so a three-field cursor is accepted
  (`ThreeFieldsSuffice`). The cursor it writes always has four fields, the
  last being 0 (`CursorFields`).
- **Non-ASCII session id.** The code only encodes the session id as ASCII
  inside the loop. A non-ASCII session id therefore fails only when at
  least one page is due. With no pages due, the result is an empty list.

Two behaviours of the code that the round trip depends on:

- **A `/` in the cursor.** The standard base64 alphabet contains `/`. When
  the encoded cursor contains one, the generated link's last segment is
  only the tail of the cursor.
  - `LinkRoundTrip` and `PaginationRoundTrip` assume the encoded cursor has
    no `/`.
  - That assumption holds whenever the session id is ASCII without `?` or
    DEL: a `/` stands for six one-bits, and only those two bytes can supply
    them (`CursorWithoutSlash`). For such a session id every link
    `decodePagination` writes reads back as its own page's cursor
    (`EveryLinkRoundTrip`).
  - `SlashBreaksRoundTrip` shows the failure on a concrete input. Session id
    `???` at rows 0 of 0 encodes to `Pz8/LDAsMCww`. Reading that link back
    gives the cursor with an empty session id.
- **The replace call.** `url.replace(segment, cursor)` replaces every
  occurrence of the segment, not only the last one.
  - If the segment also appears earlier in the URL, those occurrences change
    too. `LinkSplice` gives the plain "prefix + cursor" result when they do
    not.
  - When the URL ends in `/`, the segment is empty, and the cursor is
    inserted at every one of the n + 1 positions of an n-character URL:
    before the first character, between each two, and after the last
    (`ReplaceEmptyPattern`).
  - In every case, the last segment of the result is the last segment of the
    cursor (`LinkReadsCursor`).

## Model

| member | source | states |
|---|---|---|
| Pagination.DecodePagination | lacework-api-wrapper.py:68-80 | Returns the page links the cursor in `link` calls for, or the error decoding or encoding raises; equal to `Pagination(link, url)` |
| Pagination.WriteLinks | lacework-api-wrapper.py:69-80 | The loop that appends one link per page from the current row while not past the maximum; equal to `PageLinks`, the link for each row visited, proved through the loop invariant that the links so far followed by the rest of the loop give the whole answer |
| Pagination.LinksStep | lacework-api-wrapper.py:75-79 | One loop iteration: appending the current row's link and moving on 5000 rows leaves the overall outcome unchanged |
| Pagination.LinksDone | lacework-api-wrapper.py:75-80 | Once the row is past the maximum the loop ends and returns exactly the links written |
| Pagination.LinksFail | lacework-api-wrapper.py:75-76 | While a page is due, a session id that is not ASCII raises `NonAsciiSessionId` and the links written are lost |
| Pagination.DecodeCursor | lacework-api-wrapper.py:70-74 | Reading the last `/` segment of a link fails with `NonAsciiSegment` exactly when the segment is not ASCII and with `MalformedBase64` exactly when it is not well-formed base64; a decoded session id holds no comma |
| Pagination.DecodeSegment | lacework-api-wrapper.py:71-74 | Same error conditions for a bare segment |
| Pagination.ParseFields | lacework-api-wrapper.py:72-74 | The exact error for each field: field 1 missing, field 1 not an integer, field 2 missing, field 2 not an integer; otherwise the cursor is field 0 with fields 1 and 2 read as integers; the session id is a comma-free prefix of the text |
| Pagination.ThreeFieldsSuffice | lacework-api-wrapper.py:72-74 | Three fields are enough: session id, row and max followed by nothing or by further comma-separated text parse to that cursor |
| Pagination.ParseCursorText | lacework-api-wrapper.py:72-76 | The text a cursor is written as parses back to the same session id, row and max |
| Pagination.CursorText | lacework-api-wrapper.py:76 | The cursor text is ASCII when the session id is, and starts with the session id |
| Pagination.CursorFields | lacework-api-wrapper.py:76 | For a session id without a comma, the cursor text splits on commas into exactly four fields: the session id, the row, the maximum and the flag 0 |
| Pagination.EncodeCursor | lacework-api-wrapper.py:76 | The encoded cursor is ASCII, a non-empty multiple of 4 long, and is the base64 encoding of the cursor text |
| Pagination.Offsets | lacework-api-wrapper.py:75-79 | The rows visited are empty exactly when the current row is past the maximum; the last row visited is within one stride below the maximum |
| Pagination.OffsetsCount | lacework-api-wrapper.py:75-79 | The loop runs (max - cur) div 5000 + 1 times when cur <= max, and not at all otherwise |
| Pagination.OffsetsAt | lacework-api-wrapper.py:75-79 | The k-th page is at row cur + 5000 k, which is not past max |
| Pagination.MaxIncluded | lacework-api-wrapper.py:75 | The bound is inclusive: when max is a whole number of strides past cur, max is itself a page |
| Pagination.OffsetsExamples | lacework-api-wrapper.py:75-79 | Rows 0 to 12000 give pages at 0, 5000 and 10000; a start of 5000 with maximum 4000 gives none |
| Pagination.LinksFromPages | lacework-api-wrapper.py:75-80 | The loop yields nothing when cur is past max, fails with `NonAsciiSessionId` for a non-ASCII session id when a page is due, and otherwise yields one link per page, the k-th being the link for row cur + 5000 k |
| Pagination.AsciiPages | lacework-api-wrapper.py:75-80 | With an ASCII session id the loop succeeds with exactly the links of the rows visited, in order |
| Pagination.PaginationCount | lacework-api-wrapper.py:68-80 | For a decodable link: no links when the current row is past the maximum, the session-id error when it is not ASCII, and otherwise exactly (max - cur) div 5000 + 1 links |
| Pagination.LinkRoundTrip | lacework-api-wrapper.py:70-77 | When the encoded cursor holds no `/`, a generated link's last segment is that cursor and decoding the link gives back the session id, row and max |
| Pagination.PaginationRoundTrip | lacework-api-wrapper.py:68-80 | Each generated link decodes to the original session id and maximum with row cur + 5000 k, given no `/` in its cursor |
| Pagination.CursorWithoutSlash | lacework-api-wrapper.py:76-77 | The base64 text of a cursor holds no `/` when the session id is ASCII without `?` or DEL |
| Pagination.SafeLinkRoundTrip | lacework-api-wrapper.py:70-77 | A link written for a session id that is ASCII without a comma, `?` or DEL decodes back to that session id, row and maximum, whatever the URL |
| Pagination.LinksRoundTrip | lacework-api-wrapper.py:75-80 | For such a session id the loop from row cur succeeds with one link per page, and link k decodes to the cursor of row cur + 5000 k |
| Pagination.EveryLinkRoundTrip | lacework-api-wrapper.py:68-80 | When the decoded session id is ASCII without `?` or DEL, decodePagination succeeds with one link per page, and link k decodes to the original session id and maximum with row cur + 5000 k |
| Pagination.OnlyLastSegmentRead | lacework-api-wrapper.py:70 | Only the last path segment of a link is read: any prefix before a `/` makes no difference |
| Pagination.LinkReadsCursor | lacework-api-wrapper.py:77 | Whatever the URL, the last segment of the spliced link is the last segment of the cursor, so the link decodes as the cursor does |
| Pagination.LinkSplice | lacework-api-wrapper.py:77 | When the URL's last segment occurs nowhere before it, the link is the URL up to that segment followed by the cursor |
| Pagination.SlashBreaksRoundTrip | lacework-api-wrapper.py:70-77 | Session id `???` encodes to a cursor containing `/`, and its link reads back as a cursor with an empty session id |
| Base64.Encode | lacework-api-wrapper.py:76 | The encoding is 4 characters per started group of 3 bytes, well-formed, with (3 - n mod 3) mod 3 padding characters |
| Base64.Decode | lacework-api-wrapper.py:71 | Decoding succeeds exactly on well-formed input and yields 3 bytes per group less the padding |
| Base64.DecodeEncode | lacework-api-wrapper.py:71-76 | Decoding an encoding gives back the bytes |
| Base64.EncodeDecode | lacework-api-wrapper.py:71-76 | A canonical encoding, one whose unused bits are zero, decodes to bytes that encode back to it |
| Base64.StrayBitsDropped | lacework-api-wrapper.py:71 | Non-canonical input whose unused bits are set decodes to the same bytes as the canonical one |
| Base64.GroupRoundTrip | lacework-api-wrapper.py:71-76 | A full group of three bytes survives encoding and decoding |
| Base64.EncodeWithoutSlash | lacework-api-wrapper.py:76 | The encoding of ASCII bytes other than `?` and DEL holds no `/` |
| Decimal.FormatInt | lacework-api-wrapper.py:76 | The decimal form is non-empty, made of ASCII digits except for a leading minus sign, which it has exactly when the number is negative; so it holds no comma |
| Decimal.ParseInt | lacework-api-wrapper.py:73-74 | A string that parses holds no comma |
| Decimal.ParseFormat | lacework-api-wrapper.py:73-76 | Reading back a written integer gives the integer |
| Decimal.LenientDigits | lacework-api-wrapper.py:73-74 | A leading `+` and leading zeros are accepted: `+007` reads as 7 |
| Decimal.NoDigitsRejected | lacework-api-wrapper.py:73-74 | The empty string, a lone `-` and a non-digit are not integers |
| Ascii.AsciiIsUtf8 | lacework-api-wrapper.py:71 | ASCII bytes are well-formed UTF-8, so decoding the base64 output of an ASCII cursor cannot fail |
| Ascii.ToFromBytes | lacework-api-wrapper.py:76 | Converting ASCII bytes to text and back is the identity |
| Strings.Split | lacework-api-wrapper.py:72-74 | Splitting gives at least one part, no part holds the separator, and joining the parts gives back the text |
| Strings.SplitJoin | lacework-api-wrapper.py:72-74 | Splitting separator-free parts joined by the separator gives back the parts |
| Strings.SplitThree | lacework-api-wrapper.py:72-74 | Three separator-free parts, followed by nothing or by text starting with the separator, split into at least three fields that begin with those parts |
| Strings.LastSegment | lacework-api-wrapper.py:70-77 | The last segment holds no separator, is a suffix of the text, and is either the whole text or preceded by a separator |
| Strings.LastSegmentUnique | lacework-api-wrapper.py:70-77 | Those three properties determine the last segment |
| Strings.LastSegmentAfterSep | lacework-api-wrapper.py:70 | Anything before a separator does not affect the last segment |
| Strings.Replace | lacework-api-wrapper.py:77 | With an empty pattern the result of replacing in n elements is n + (n + 1) times the replacement's length long |
| Strings.ReplaceEmptyPattern | lacework-api-wrapper.py:77 | With an empty pattern the empty text becomes the replacement, and every element stays in place with the replacement of what precedes it before it and of what follows it after it: the replacement goes in at all n + 1 positions |
| Strings.ReplaceEmptyExample | lacework-api-wrapper.py:77 | Replacing the empty string by `X` in `ab` gives `XaXbX` |
| Strings.ReplaceLeftmost | lacework-api-wrapper.py:77 | With a non-empty pattern, the leftmost occurrence becomes the replacement, the text before it is kept, and replacement goes on in the text after it |
| Strings.ReplaceEveryOccurrence | lacework-api-wrapper.py:77 | Replacing `a` by `X` in `a/b/a` gives `X/b/X`: every occurrence, not only the last |
| Strings.ReplaceAbsent | lacework-api-wrapper.py:77 | A non-empty pattern that does not occur leaves the text unchanged |
| Strings.SpliceLastSegment | lacework-api-wrapper.py:77 | Replacing a text's last segment everywhere by a new string leaves the result ending in the new string's last segment |
| Strings.SpliceWhenUnique | lacework-api-wrapper.py:77 | When the last segment occurs nowhere before it, replacing it is the prefix followed by the replacement |

## Left out

- HTTP requests, bearer tokens, environment variables, threads, the CSV/pandas output and the command-line entry point (`getCompany`, `getEnvs`, `getToken`, `sendQuery`, `paginationQuery`, `getReport` and `main`) are not part of this model; they are I/O around the pagination logic.
- Base64.Decode: Python's `b64decode` ignores characters outside the alphabet and any text after the padding; the model rejects all input that is not well-formed (`MalformedBase64`), so on such links it is stricter than the code.
- Decimal.ParseInt: Python's `int()` also accepts surrounding whitespace, `_` between digits and non-ASCII Unicode digits; the model accepts an optional sign followed by ASCII digits only.
- Decimal.ParseInt: reads a number of any length. Since the 2022 security releases (3.7.14, 3.8.14, 3.9.14, 3.10.7 and 3.11 on), `int()` by default raises ValueError on more than 4300 digits (`sys.set_int_max_str_digits`, `PYTHONINTMAXSTRDIGITS`). On such a link the code fails at line 73 or 74 with ValueError, while `ParseFields` returns a cursor and the links are written. The limit depends on the interpreter version and on run-time settings, and 0 turns it off, so the model keeps the unlimited reading of older versions. Once both fields are within the limit, every row the loop writes lies between them, so the matching limit of `str()` at line 76 is never reached.
- Ascii.WellFormedUtf8 decides only whether `decode('utf-8')` succeeds; the decoded text stays as bytes, since splitting on the comma byte agrees with splitting the decoded characters for well-formed UTF-8.
- The encoded cursor is a `str` in Python and `seq<char>` here; the Python type distinction between `bytes` and `str` is not modelled beyond ASCII checks.
- Python integers are unbounded like Dafny's `int`, so no width or overflow is modelled (apart from the digit limit on reading and writing them, see `Decimal.ParseInt` above).
