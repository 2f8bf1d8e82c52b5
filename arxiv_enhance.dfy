/**
 * The enhanced pipeline: `crawl_papers` turns one page of the arXiv feed
 * into paper records, and `index_papers` rebuilds the `papers` index from
 * them, converting each timestamp on the way.
 */
module ArxivEnhance {
  import opened Wrappers
  import opened Text
  import opened Atom
  import opened Timestamp
  import opened PaperStore

  /** The record `crawl_papers` builds for one entry. */
  datatype Paper = Paper(id: string, title: string, summary: string, authors: seq<string>, updated: string)

  /** What `crawl_papers` returns: the list of records, or the error text. */
  datatype CrawlResult = Papers(papers: seq<Paper>) | Error(message: string)

  /** What `index_papers` does: finish, or stop with the ValueError that
      strptime raises for the paper at `position`. */
  datatype IndexOutcome = Indexed | TimestampError(position: nat)

  /** The record of one feed entry: the id after the last `/` of
      `atom:id`, the title, summary and `updated` text as they are, and one
      author name per `atom:author` element, in element order. */
  function PaperOf(e: Entry): (p: Paper)
    ensures p.id == LastSegment(e.id, '/')
    ensures p.title == e.title && p.summary == e.summary && p.updated == e.updated
    ensures |p.authors| == |e.authors|
    ensures forall j :: 0 <= j < |p.authors| ==> p.authors[j] == e.authors[j].name
  {
    Paper(PaperId(e.id), e.title, e.summary, AuthorNames(e.authors), e.updated)
  }

  /** The loop of `crawl_papers`: one record per entry, in document order. */
  method RecordsOf(entries: seq<Entry>) returns (papers: seq<Paper>)
    ensures |papers| == |entries|
    ensures forall i :: 0 <= i < |papers| ==> papers[i] == PaperOf(entries[i])
  {
    papers := [];
    for i := 0 to |entries|
      invariant |papers| == i
      invariant forall k :: 0 <= k < i ==> papers[k] == PaperOf(entries[k])
    {
      var p := PaperOf(entries[i]);
      assert forall k :: 0 <= k < i ==> (papers + [p])[k] == papers[k];
      papers := papers + [p];
    }
  }

  /** `crawl_papers(query, size)`, with the HTTP GET supplied as `get`. */
  method CrawlPapers(query: string, size: int, get: Request -> Response) returns (result: CrawlResult)
    ensures var response := get(ArxivRequest(query, size));
      && (result.Papers? <==> response.status == StatusOk)
      && (result.Error? ==> result.message == ErrorMessage(response.status))
      && (result.Papers? ==>
            && |result.papers| == |response.entries|
            && forall i :: 0 <= i < |result.papers| ==> result.papers[i] == PaperOf(response.entries[i]))
  {
    var response := get(ArxivRequest(query, size));
    if response.status != StatusOk {
      return Error(ErrorMessage(response.status));
    }
    var papers := RecordsOf(response.entries);
    return Papers(papers);
  }

  /** The body `index_papers` writes for a paper whose timestamp converted
      to `updated`: an `id` field holding the paper's id, the other fields
      copied, and the converted timestamp. */
  function EnhancedDoc(p: Paper, updated: string): (d: Doc)
    ensures d.id == Some(p.id) && d.updated == updated
    ensures d.title == p.title && d.summary == p.summary && d.authors == p.authors
  {
    Doc(Some(p.id), p.title, p.summary, p.authors, updated)
  }

  /** The writes `index_papers` makes: one per paper, in order, each under
      the paper's id with its timestamp passed through `convert`, up to the
      first paper whose timestamp `convert` refuses. The timestamp conversion
      is a parameter here so that the lemmas below hold for it without
      unfolding it; the indexer itself uses Timestamp.Convert. */
  function EnhancedWrites(papers: seq<Paper>, convert: string -> Option<string>): (ws: seq<Write>)
    ensures |ws| <= |papers|
    ensures forall i :: 0 <= i < |ws| ==>
      convert(papers[i].updated).Some? && ws[i] == (papers[i].id, EnhancedDoc(papers[i], convert(papers[i].updated).value))
    ensures |ws| < |papers| ==> convert(papers[|ws|].updated).None?
    decreases |papers|
  {
    if |papers| == 0 then []
    else
      match convert(papers[0].updated)
      case None => []
      case Some(u) =>
        var rest := EnhancedWrites(papers[1..], convert);
        assert forall i :: 0 < i <= |rest| ==> papers[i] == papers[1..][i - 1];
        [(papers[0].id, EnhancedDoc(papers[0], u))] + rest
  }

  /** `index_papers(papers)`: delete the index, create it afresh, then write
      every paper under its id with its timestamp converted. */
  method IndexPapers(idx: PaperIndex, papers: seq<Paper>) returns (outcome: IndexOutcome)
    requires idx.Valid()
    modifies idx
    ensures idx.Valid() && idx.present
    ensures idx.docs == WriteAll(map[], EnhancedWrites(papers, Convert))
    ensures outcome == if |EnhancedWrites(papers, Convert)| == |papers| then Indexed
                       else TimestampError(|EnhancedWrites(papers, Convert)|)
  {
    idx.Delete();
    idx.Create();
    ghost var ws := EnhancedWrites(papers, Convert);
    var i := 0;
    while i < |papers|
      invariant i <= |ws|
      invariant idx.Valid() && idx.present
      invariant idx.docs == WriteAll(map[], ws[..i])
    {
      var p := papers[i];
      var updated := Convert(p.updated);
      if updated.None? {
        assert ws[..i] == ws;
        return TimestampError(i);
      }
      WriteAllSnoc(map[], ws, i);
      idx.Put(p.id, EnhancedDoc(p, updated.value));
      i := i + 1;
    }
    assert ws[..i] == ws;
    return Indexed;
  }

  /** Every timestamp converts: every paper is written. */
  lemma {:induction false} AllConvertAllWritten(papers: seq<Paper>, convert: string -> Option<string>)
    requires forall i :: 0 <= i < |papers| ==> convert(papers[i].updated).Some?
    ensures |EnhancedWrites(papers, convert)| == |papers|
  {
  }

  /** After an `index_papers` that raised nothing, the index holds exactly
      one document per distinct paper id, the one built from the last paper
      with that id; nothing from before the call survives. */
  lemma {:induction false} IndexHoldsExactlyBatch(papers: seq<Paper>, convert: string -> Option<string>)
    requires forall i :: 0 <= i < |papers| ==> convert(papers[i].updated).Some?
    ensures WriteAll(map[], EnhancedWrites(papers, convert)).Keys == (set i | 0 <= i < |papers| :: papers[i].id)
    ensures forall i :: 0 <= i < |papers| && (forall j :: i < j < |papers| ==> papers[j].id != papers[i].id) ==>
      WriteAll(map[], EnhancedWrites(papers, convert))[papers[i].id]
        == EnhancedDoc(papers[i], convert(papers[i].updated).value)
  {
    var ws := EnhancedWrites(papers, convert);
    AllConvertAllWritten(papers, convert);
    assert forall i :: 0 <= i < |ws| ==> ws[i].0 == papers[i].id;
    assert KeysOf(ws) == (set i | 0 <= i < |papers| :: papers[i].id);
    forall i | 0 <= i < |papers| && (forall j :: i < j < |papers| ==> papers[j].id != papers[i].id)
      ensures WriteAll(map[], ws)[papers[i].id] == EnhancedDoc(papers[i], convert(papers[i].updated).value)
    {
      WriteAllLastWins(map[], ws, i);
    }
  }

  /** A timestamp that does not convert stops the run: the papers before it
      are indexed, it and every later paper are not. */
  lemma {:induction false} IndexStopsAtBadTimestamp(papers: seq<Paper>, convert: string -> Option<string>, k: nat)
    requires k < |papers| && convert(papers[k].updated).None?
    requires forall i :: 0 <= i < k ==> convert(papers[i].updated).Some?
    ensures |EnhancedWrites(papers, convert)| == k
    ensures forall i :: 0 <= i < k ==>
      papers[i].id in WriteAll(map[], EnhancedWrites(papers, convert))
    ensures forall i :: k <= i < |papers| && (forall j :: 0 <= j < k ==> papers[j].id != papers[i].id) ==>
      papers[i].id !in WriteAll(map[], EnhancedWrites(papers, convert))
  {
    var ws := EnhancedWrites(papers, convert);
    assert |ws| == k;
    assert forall i :: 0 <= i < k ==> ws[i].0 == papers[i].id;
  }

  /** Indexing the same list twice leaves the index as one run leaves it. */
  lemma {:induction false} ReindexingChangesNothing(papers: seq<Paper>, convert: string -> Option<string>)
    ensures WriteAll(WriteAll(map[], EnhancedWrites(papers, convert)), EnhancedWrites(papers, convert))
         == WriteAll(map[], EnhancedWrites(papers, convert))
  {
    WriteAllIdempotent(map[], EnhancedWrites(papers, convert));
  }
}
