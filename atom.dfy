/**
 * The arXiv API request and the Atom feed it answers with, once the HTTP
 * transport and the XML parser are taken away: a status code and the
 * `atom:entry` elements, each reduced to the child texts the indexers read
 * (RFC 4287: atom:id 4.2.6, atom:title 4.2.14, atom:summary 4.2.13,
 * atom:author 4.2.1 with its atom:name 3.2.1, atom:updated 4.2.15).
 */
module Atom {
  import opened Text

  /** An `atom:author` element; only its `atom:name` child is read. */
  datatype Author = Author(name: string)

  /** An `atom:entry` element. */
  datatype Entry = Entry(id: string, title: string, summary: string, authors: seq<Author>, updated: string)

  /** What comes back from the GET request: the HTTP status and, on 200,
      the entries of the feed in document order. */
  datatype Response = Response(status: int, entries: seq<Entry>)

  const StatusOk: int := 200

  /** The query-string parameters of the arXiv API call. */
  datatype Request = Request(
    baseUrl: string,
    searchQuery: string,
    start: int,
    maxResults: int,
    sortBy: string,
    sortOrder: string)

  const BaseUrl: string := "http://export.arxiv.org/api/query?"

  /** The request both crawlers issue for a query and a page size. */
  function ArxivRequest(query: string, size: int): (r: Request)
    ensures r.baseUrl == BaseUrl && r.searchQuery == query
    ensures r.start == 0 && r.maxResults == size
    ensures r.sortBy == "lastUpdatedDate" && r.sortOrder == "descending"
  {
    Request(BaseUrl, query, 0, size, "lastUpdatedDate", "descending")
  }

  /** The paper id: the text of `atom:id` after its last `/`. */
  function PaperId(atomId: string): (r: string)
    ensures '/' !in r
    ensures |r| <= |atomId| && atomId[|atomId| - |r|..] == r
    ensures |r| < |atomId| ==> atomId[|atomId| - |r| - 1] == '/'
    ensures '/' !in atomId ==> r == atomId
  {
    LastSegment(atomId, '/')
  }

  /** The author list: one name per `atom:author` element, in element order. */
  function AuthorNames(authors: seq<Author>): (names: seq<string>)
    ensures |names| == |authors|
    ensures forall i :: 0 <= i < |authors| ==> names[i] == authors[i].name
  {
    seq(|authors|, i requires 0 <= i < |authors| => authors[i].name)
  }

  /** The text returned for a status other than 200: `f'Error: {status}'`;
      the status can be read back from it. */
  function ErrorMessage(status: int): (r: string)
    ensures |r| > 7 && r[..7] == "Error: "
    ensures status >= 0 ==> AllDigits(r[7..]) && DigitsValue(r[7..]) == status
    ensures status >= 0 ==> r[7..] == NatDigits(status) && (r[7] == '0' ==> r == "Error: 0")
    ensures status < 0 ==> r[7] == '-' && AllDigits(r[8..]) && DigitsValue(r[8..]) == -status
    ensures status < 0 ==> r[8..] == NatDigits(-status) && r[8] != '0'
  {
    var d := DecimalString(status);
    var r := "Error: " + d;
    assert r[7..] == d;
    r
  }
}
