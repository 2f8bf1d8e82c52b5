# arXiv crawling, indexing and search: a Dafny model

This project models the deterministic core of two scripts that fetch paper
metadata from the arXiv API and keep it in an Elasticsearch index named
`papers`:

- `es_arxiv_enhance.py`, in four steps:
  - `crawl_papers` turns one page of the Atom feed into paper records.
  - `index_papers` deletes and re-creates the index, then writes each
    record under its id, with its `updated` timestamp re-rendered through
    `strptime`/`isoformat`.
  - `search_papers` assembles a search from up to four optional arguments.
  - `visualize_papers` assembles the same search plus three aggregations.
- `es_arxiv.py`: its `index_papers` crawls and indexes in one loop. It only
  creates the index, so it accumulates documents. It stores the raw
  timestamp and no `id` field, and it returns the number of entries.

The HTTP GET is a function parameter `get: Request -> Response`. So each
contract is stated against exactly the request the script sends:
`ArxivRequest(query, size)`. A response is a status code and the feed's
entries, already extracted from the XML. The search store is the class
`PaperStore.PaperIndex`, which has two fields:

- `present`: whether the index exists;
- `docs`: its documents, as a `map<string, Doc>`.

Its methods are the three store calls the scripts make: `Delete`, `Create`
(with `ignore=400`) and `Put` (index a document under an id). Each
`index_papers` is a method whose loop invariant ties the store to
`WriteAll`, the pure fold of the writes made so far. In `es_arxiv.py` the
writes are `Arxiv.PlainWrites` and the loop of lines 30-44 is
`Arxiv.WriteEntries`. In `es_arxiv_enhance.py` they are
`ArxivEnhance.EnhancedWrites`, which takes the timestamp conversion as a
function parameter: its lemmas hold for every conversion, and the
indexer uses `Timestamp.Convert`, whose own lemmas say which texts it
accepts. The lemmas about
`WriteAll` state the store-level promises:

- last write wins;
- other ids are untouched;
- the store holds exactly the batch's ids;
- the count bounds the number of distinct documents.

Modules, one per concern:

- `Wrappers`: `Option`.
- `Text`:
  - Python's `split`, `split(sep)[-1]` (`LastSegment`), `str(int)` and ASCII
    `lower()`;
  - the round trip and characterisation lemmas about them.
- `Timestamp`:
  - `datetime.strptime(s, '%Y-%m-%dT%H:%M:%SZ')` (`Parse`) and `isoformat()`
    (`IsoFormat`);
  - their round trips;
  - the canonical texts that the conversion in the enhanced `index_papers`
    accepts.
- `Atom`: entries, responses, the request, the paper id and the error text.
- `PaperStore`: documents, `WriteAll` and `PaperIndex`.
- `ArxivEnhance`: `crawl_papers` and the enhanced `index_papers`.
- `ArxivSearch`: the clause cascade of `search_papers` and `visualize_papers`.
- `Arxiv`: `index_papers` of `es_arxiv.py`.

Python's truthiness for the optional search arguments is `Given(p)`: the
argument is present and is not the empty string. The default `size=10` is
the default value `ArxivSearch.DefaultSize` of `SearchPapers`'s `size`. The cascade is modelled as written:
the filters are nested, so each applies only when every earlier argument
is given. The slice `s[:size]` sits inside the innermost `if`, so it
applies only when all four are given.

Where the datetime library's behaviour matters, the model follows it:

- The year runs from 1 to 9999.
- Days per month follow the proleptic Gregorian calendar.
- Hours are below 24, and minutes and seconds below 60.
- The literal letters `T` and `Z` of the format match in either case.

So a text such as `2023-02-29T00:00:00Z` is refused, and
`2023-01-05t10:00:00z` is accepted and stored as `2023-01-05T10:00:00`.

## Model

| member | source | states |
|---|---|---|
| Text.Split | es_arxiv_enhance.py:32-33 | `split('/')` yields at least one piece and no piece contains the separator |
| Text.JoinSplit | es_arxiv_enhance.py:32-33 | joining the pieces of a split with the separator gives back the original text |
| Text.LastSegment | es_arxiv_enhance.py:32-33 | the id contains no `/`, is a suffix of the `atom:id` text, is preceded by `/` unless it is the whole text, and is the whole text when there is no `/` |
| Text.LastSegmentUnique | es_arxiv_enhance.py:32-33 | those properties determine the id: any suffix with them equals LastSegment |
| Text.LastSegmentOfTail | es_arxiv_enhance.py:32-33 | dropping a leading character keeps the last segment when a separator remains |
| Text.SplitWithoutSeparator | es_arxiv_enhance.py:32-33 | a text without the separator splits into itself alone |
| Text.SeparatorMakesSeveralPieces | es_arxiv_enhance.py:32-33 | a text containing the separator splits into more than one piece |
| Text.SplitLastOfTail | es_arxiv_enhance.py:32-33 | dropping a leading character keeps the last piece of the split when a separator remains |
| Text.SplitLastIsLastSegment | es_arxiv_enhance.py:32-33 | the last piece of the split, `split('/')[-1]`, is LastSegment, the reference definition of the id |
| Text.NatDigits | es_arxiv_enhance.py:53 | `str(n)` of a non-negative integer is a non-empty run of digits with no leading zero |
| Text.NatDigitsValue | es_arxiv_enhance.py:53 | the decimal text of `n` reads back as `n` |
| Text.DecimalString | es_arxiv_enhance.py:53 | `str(n)` is the shortest digit string of `n` (no leading zero), preceded by `-` exactly for negative `n`, and reads back as `n` |
| Text.LowerChar | es_arxiv_enhance.py:110 | an upper-case ASCII letter becomes the lower-case letter at the same place in the alphabet; every other character is unchanged |
| Text.Lower | es_arxiv_enhance.py:110 | `author.lower()` keeps the length and lowers each character in place |
| Text.LowerIdempotent | es_arxiv_enhance.py:110 | a lowered name has no upper-case letters, and lowering it again changes nothing |
| Timestamp.Parse | es_arxiv_enhance.py:94 | `strptime` succeeds only on a 20-character text of the format's shape whose fields form a valid date and time |
| Timestamp.IsoFormat | es_arxiv_enhance.py:94 | `isoformat()` of such a value is 19 characters long |
| Timestamp.Convert | es_arxiv_enhance.py:94 | `strptime(...).isoformat()` fails exactly where parsing fails; a converted timestamp comes from a 20-character text ending in `Z` or `z`, and is that text with a `T` at position 10 and without the trailing letter (which texts convert: ConvertAcceptsExactly) |
| Timestamp.Pad2Num2 | es_arxiv_enhance.py:94 | rendering a parsed two-digit field reproduces its digits |
| Timestamp.Num2Pad2 | es_arxiv_enhance.py:94 | parsing a rendered two-digit field gives back its value |
| Timestamp.IsoFormatOfParse | es_arxiv_enhance.py:94 | `isoformat()` of a parsed value is the parsed text, upper-cased `T`, without `Z` |
| Timestamp.Num2Slice | es_arxiv_enhance.py:94 | a rendered two-digit field inside a text consists of digits and reads back as its value |
| Timestamp.IsoFormatFields | es_arxiv_enhance.py:94 | `isoformat()` plus `Z` is 20 characters with each field rendered at its fixed position and the separators `-`, `-`, `T`, `:`, `:`, `Z` between them |
| Timestamp.ParseOfIsoFormat | es_arxiv_enhance.py:94 | parsing `isoformat()` plus `Z` gives the value back |
| Timestamp.ParseIgnoresLetterCase | es_arxiv_enhance.py:94 | texts that differ only in the case of `T` and `Z` parse alike |
| Timestamp.ConvertAcceptsExactly | es_arxiv_enhance.py:94 | conversion succeeds if and only if the text is the canonical rendering of a valid date and time, up to the case of `T`/`Z`, followed by `Z` |
| Timestamp.ConvertedIsCanonical | es_arxiv_enhance.py:94 | a text that converts has the format's shape and letters, parses to a valid value, and is the rendering of that value |
| Timestamp.CanonicalConverts | es_arxiv_enhance.py:94 | a text of the format's shape and letters that renders a valid value converts |
| Timestamp.ConvertCanonical | es_arxiv_enhance.py:94 | every valid canonical `YYYY-MM-DDTHH:MM:SSZ` text converts to itself without the `Z` |
| Atom.ArxivRequest | es_arxiv_enhance.py:12-20 | the request goes to the arXiv query URL with `start=0`, `max_results=size`, `sortBy=lastUpdatedDate`, `sortOrder=descending` |
| Atom.ErrorMessage | es_arxiv_enhance.py:53 | the error text is `Error: ` followed by the shortest decimal form of the status (a `-` for a negative one, no leading zero), which reads back as the status |
| Atom.PaperId | es_arxiv_enhance.py:32-33 | the paper id contains no `/`, is a suffix of the `atom:id` text preceded by `/` unless it is all of it, and is all of it when there is no `/` |
| Atom.AuthorNames | es_arxiv_enhance.py:37-38 | one name per `atom:author` element, in element order |
| ArxivEnhance.PaperOf | es_arxiv_enhance.py:32-48 | the record of an entry has the last-segment id, the entry's title, summary and raw updated text, and one author name per author element, in order |
| ArxivEnhance.RecordsOf | es_arxiv_enhance.py:28-48 | the loop over the entries yields one record per entry, in document order |
| ArxivEnhance.CrawlPapers | es_arxiv_enhance.py:10-53 | records are returned exactly on status 200, one PaperOf record per entry in document order; otherwise the error text with the status |
| ArxivEnhance.EnhancedWrites | es_arxiv_enhance.py:86-95 | for any conversion, the writes are one per paper in order, each under the paper's id with the converted timestamp, up to the first paper whose timestamp does not convert, which is where they stop |
| ArxivEnhance.EnhancedDoc | es_arxiv_enhance.py:89-95 | the stored body has an `id` field holding the paper's id, the paper's title, summary and authors, and the converted timestamp |
| ArxivEnhance.IndexPapers | es_arxiv_enhance.py:65-95 | after delete, create and the loop, the index holds exactly the writes of EnhancedWrites with Timestamp.Convert applied to an empty index, and the run reports the position of the first bad timestamp, if any |
| ArxivEnhance.AllConvertAllWritten | es_arxiv_enhance.py:86-95 | when every timestamp converts, every paper is written |
| ArxivEnhance.IndexHoldsExactlyBatch | es_arxiv_enhance.py:67-95 | after a run without error, the index's ids are exactly the papers' ids and each holds the document of the last paper with that id; nothing earlier survives |
| ArxivEnhance.IndexStopsAtBadTimestamp | es_arxiv_enhance.py:86-95 | a bad timestamp at position k stops the run: papers before k are indexed, and later papers whose id did not occur before k are not |
| ArxivEnhance.ReindexingChangesNothing | es_arxiv_enhance.py:89-95 | writing the same batch twice leaves the index as writing it once |
| PaperStore.KeysOfSnoc | es_arxiv_enhance.py:89-95 | the ids of a batch are those of its prefix plus that of its last write |
| PaperStore.WriteAll | es_arxiv_enhance.py:89-95 | after a batch of keyed writes the index holds the earlier ids plus the batch's ids |
| PaperStore.WriteAllSnoc | es_arxiv_enhance.py:89-95 | one more write in the loop updates the index at that write's id only |
| PaperStore.WriteAllOverlays | es_arxiv.py:39-44 | a batch overlays the earlier documents: the result is the earlier map updated with what the batch alone would store |
| PaperStore.WriteAllLastWins | es_arxiv.py:30-44 | an id holds the body of the last write with that id |
| PaperStore.WriteAllUntouched | es_arxiv.py:30-44 | ids the batch does not write keep their presence and document |
| PaperStore.WriteAllIdempotent | es_arxiv_enhance.py:89-95 | applying the same batch twice equals applying it once |
| PaperStore.KeysOfBound | es_arxiv.py:46 | a batch writes at most as many ids as it has writes |
| PaperStore.KeysOfDuplicate | es_arxiv.py:46 | two writes under the same id mean fewer ids than writes |
| PaperStore.PaperIndex.Delete | es_arxiv_enhance.py:67 | deleting removes the index and all its documents |
| PaperStore.PaperIndex.Create | es_arxiv.py:12 | creating makes an empty index, or changes nothing when it already exists (error 400 ignored) |
| PaperStore.PaperIndex.Put | es_arxiv.py:39-44 | indexing a document replaces what was under its id, leaves every other id as it was, and brings the index into existence |
| ArxivSearch.Given | es_arxiv_enhance.py:106-115 | the truthiness test of an optional argument: present and not the empty string (used by Cascade's contract) |
| ArxivSearch.GivenPrefix | es_arxiv_enhance.py:106-116 | counts the leading given arguments: all before it are given, the one at it is not |
| ArxivSearch.Cascade | es_arxiv_enhance.py:106-116 | the k-th clause is present if and only if the first k arguments are all given; the clauses are, in fixed order, multi_match on title and summary with `and`, term on authors with the lowercased author, match on summary with `or` and minimum 2, more_like_this on title and summary with min_term_freq 1 |
| ArxivSearch.CascadeCountsGivenPrefix | es_arxiv_enhance.py:106-116 | the number of clauses is the number of leading given arguments |
| ArxivSearch.SearchPapers | es_arxiv_enhance.py:102-120 | the search targets `papers`, carries the cascade's clauses, and has a size limit, equal to `size`, if and only if all four arguments are given |
| ArxivSearch.AuthorNeedsQuery | es_arxiv_enhance.py:106-110 | with no query, or an empty one, no clause at all is added, the author term included |
| ArxivSearch.VisualizePapers | es_arxiv_enhance.py:127-157 | the visualisation searches `papers` with the same clauses as `search_papers`, never limits the size, and asks for papers_over_time (monthly date histogram on updated, `yyyy-MM`), popular_topics (significant terms on summary, 10) and top_authors (terms on authors, 10) |
| Arxiv.PlainWrites | es_arxiv.py:30-44 | one write per entry, in order, under its last-segment id, with a body that has no `id` field and the raw `updated` text |
| Arxiv.PlainDoc | es_arxiv.py:33-44 | the stored body has no `id` field, the entry's title and summary, one name per author element in order, and the raw `updated` text |
| Arxiv.WriteEntries | es_arxiv.py:30-44 | the loop over the entries applies exactly PlainWrites to the existing index, which stays present |
| Arxiv.IndexPapers | es_arxiv.py:10-49 | the index is created first (kept if present); on status 200 every entry is written in order under its last-segment id and the entry count is returned; otherwise nothing is written and the error text is returned |
| Arxiv.StoredUnderDerivedId | es_arxiv.py:30-44 | each entry's document is stored under the text after the last `/` of its `atom:id`, is that of the last entry with this id, has no `id` field and keeps the raw `updated` text |
| Arxiv.EarlierDocsSurvive | es_arxiv.py:12 | the index is never cleared: a document already stored survives when no entry carries its id |
| Arxiv.CountBoundsWrittenDocs | es_arxiv.py:46 | the returned count bounds the number of distinct documents the page writes |
| Arxiv.DuplicateIdsOvercount | es_arxiv.py:46 | two entries with the same derived id make the returned count exceed the number of distinct documents written |

## Left out

- HTTP transport (`requests.get`): the response is the result of a
  function parameter applied to the request the script builds. Query-string
  encoding is not modelled.
- XML parsing (`ET.fromstring`, namespaces): the entries arrive already
  extracted. The crash when an element is missing (`.text` on `None`) is
  not modelled.
- An empty element (`<summary/>`, an empty `atom:name`) has `.text` equal
  to `None` in ElementTree. The model's fields are strings and read such an
  element as the empty string `""`. In the scripts:
  - an empty title, summary or author name is stored as `None` (null);
  - an empty `atom:id` makes `.split('/')` raise AttributeError, which
    ends the crawl or the indexing run, where the model derives the id `""`;
  - an empty `atom:updated` is stored as null by `es_arxiv.py`; in the
    enhanced `index_papers` it makes `strptime` raise TypeError, which stops
    the loop there just as the ValueError of a malformed text does.
- PaperStore.PaperIndex.Put: an empty document id is not a key for the
  Elasticsearch client. It treats `id=''` like a missing id, POSTs the
  body, and the server stores it under a newly generated id, so each such
  write adds a document. The model stores it under the key `""` and
  replaces what is there. An `atom:id` ending in `/` gives the id `""`.
  So the per-id claims of Arxiv.StoredUnderDerivedId,
  Arxiv.DuplicateIdsOvercount, Arxiv.EarlierDocsSurvive,
  Arxiv.CountBoundsWrittenDocs, ArxivEnhance.IndexHoldsExactlyBatch,
  ArxivEnhance.IndexStopsAtBadTimestamp and
  ArxivEnhance.ReindexingChangesNothing describe the scripts only when
  every derived id is non-empty.
- Elasticsearch internals:
  - the mapping and settings body of `indices.create` (analyzers, field
    types, shards, replicas);
  - any create error other than 400;
  - the `NotFoundError` that `indices.delete` raises when the index does
    not exist (the model lets Delete succeed on an absent index);
  - what each query clause matches, scoring, and aggregation results.
- Executing the search and returning hits (`s.execute()`,
  `hit.to_dict()`): the model stops at the search request. Likewise the
  aggregation buckets and every matplotlib call in `visualize_papers`.
- `print` calls and the module-level driver calls of both scripts.
- `es_recommand_movie.py` is not part of this model.
- Timestamp.Parse: `strptime`'s leniency is not modelled. It accepts
  single-digit fields, a day padded with a space instead of a zero (`%d`
  matches `" 5"`), and non-ASCII digits. It accepts no other whitespace,
  and trailing text raises. The model accepts only the canonical two-digit ASCII form and
  refuses everything else.
- Text.LowerChar, Text.Lower: lowers the ASCII letters A-Z only. Python's `str.lower()`
  also lowers other Unicode letters.
- ArxivSearch.SearchPapers: `size` is an integer as passed; Python's slice
  semantics for negative or non-integer sizes are not modelled. The
  `similar_to` argument is modelled as a string; `more_like_this` also
  accepts documents or lists, which are not modelled.
- ArxivEnhance.IndexPapers: the ValueError that stops the loop is an
  outcome value reporting the failing position. Exceptions are not modelled.
