/**
 * The original pipeline: one `index_papers(query, size)` that fetches a
 * page of the arXiv feed and writes each entry straight into the `papers`
 * index, which it creates but never clears.
 */
module Arxiv {
  import opened Wrappers
  import opened Text
  import opened Atom
  import opened PaperStore

  /** What `index_papers` returns: the number of entries, or the error text. */
  datatype IndexReply = EntryCount(count: nat) | ErrorText(message: string)

  /** The body `index_papers` writes for an entry: no `id` field, the
      entry's texts, one name per author element, and `updated` as the feed
      has it. */
  function PlainDoc(e: Entry): (d: Doc)
    ensures d.id == None && d.updated == e.updated
    ensures d.title == e.title && d.summary == e.summary
    ensures |d.authors| == |e.authors| && forall j :: 0 <= j < |e.authors| ==> d.authors[j] == e.authors[j].name
  {
    Doc(None, e.title, e.summary, AuthorNames(e.authors), e.updated)
  }

  /** The writes of the loop of `index_papers`, in document order. */
  function PlainWrites(entries: seq<Entry>): (ws: seq<Write>)
    ensures |ws| == |entries|
    ensures forall i :: 0 <= i < |entries| ==> ws[i] == (PaperId(entries[i].id), PlainDoc(entries[i]))
  {
    seq(|entries|, i requires 0 <= i < |entries| => (PaperId(entries[i].id), PlainDoc(entries[i])))
  }

  /** The loop of `index_papers`: each entry is written in document order
      under the id derived from its `atom:id`. */
  method WriteEntries(idx: PaperIndex, entries: seq<Entry>)
    requires idx.Valid() && idx.present
    modifies idx
    ensures idx.Valid() && idx.present
    ensures idx.docs == WriteAll(old(idx.docs), PlainWrites(entries))
  {
    ghost var created := idx.docs;
    ghost var ws := PlainWrites(entries);
    for i := 0 to |entries|
      invariant idx.Valid() && idx.present
      invariant idx.docs == WriteAll(created, ws[..i])
    {
      var e := entries[i];
      WriteAllSnoc(created, ws, i);
      idx.Put(PaperId(e.id), PlainDoc(e));
    }
    assert ws[..|ws|] == ws;
  }

  /** `index_papers(query, size)`, with the HTTP GET supplied as `get`. */
  method IndexPapers(idx: PaperIndex, query: string, size: int, get: Request -> Response)
    returns (reply: IndexReply)
    requires idx.Valid()
    modifies idx
    ensures idx.Valid() && idx.present
    ensures var response := get(ArxivRequest(query, size));
      if response.status == StatusOk then
        idx.docs == WriteAll(old(idx.docs), PlainWrites(response.entries)) && reply == EntryCount(|response.entries|)
      else
        idx.docs == old(idx.docs) && reply == ErrorText(ErrorMessage(response.status))
  {
    idx.Create();
    var response := get(ArxivRequest(query, size));
    if response.status != StatusOk {
      return ErrorText(ErrorMessage(response.status));
    }
    WriteEntries(idx, response.entries);
    return EntryCount(|response.entries|);
  }

  /** Each entry is stored under the text after the last `/` of its
      `atom:id`; the document there is that of the last entry with this id,
      with no `id` field and the unconverted `updated` text. */
  lemma {:induction false} StoredUnderDerivedId(m: map<string, Doc>, entries: seq<Entry>, i: nat)
    requires i < |entries|
    requires forall j :: i < j < |entries| ==> PaperId(entries[j].id) != PaperId(entries[i].id)
    ensures LastSegment(entries[i].id, '/') in WriteAll(m, PlainWrites(entries))
    ensures WriteAll(m, PlainWrites(entries))[LastSegment(entries[i].id, '/')]
         == Doc(None, entries[i].title, entries[i].summary, AuthorNames(entries[i].authors), entries[i].updated)
  {
    var ws := PlainWrites(entries);
    assert forall j :: 0 <= j < |ws| ==> ws[j].0 == PaperId(entries[j].id);
    WriteAllLastWins(m, ws, i);
  }

  /** The index is never cleared: a document already there survives unless
      some entry of the page carries its id. */
  lemma {:induction false} EarlierDocsSurvive(m: map<string, Doc>, entries: seq<Entry>, k: string)
    requires forall i :: 0 <= i < |entries| ==> PaperId(entries[i].id) != k
    ensures k in m ==> k in WriteAll(m, PlainWrites(entries)) && WriteAll(m, PlainWrites(entries))[k] == m[k]
  {
    var ws := PlainWrites(entries);
    assert forall j :: 0 <= j < |ws| ==> ws[j].0 == PaperId(entries[j].id);
    WriteAllUntouched(m, ws, k);
  }

  /** The returned count is that of the entries, which bounds the number of
      documents the page writes. */
  lemma {:induction false} CountBoundsWrittenDocs(entries: seq<Entry>)
    ensures |WriteAll(map[], PlainWrites(entries))| <= |entries|
  {
    var ws := PlainWrites(entries);
    assert WriteAll(map[], ws).Keys == KeysOf(ws);
    KeysOfBound(ws);
  }

  /** Two entries whose ids end in the same segment make the returned count
      exceed the number of documents the page writes. */
  lemma {:induction false} DuplicateIdsOvercount(entries: seq<Entry>, i: nat, j: nat)
    requires i < j < |entries|
    requires PaperId(entries[i].id) == PaperId(entries[j].id)
    ensures |WriteAll(map[], PlainWrites(entries))| < |entries|
  {
    var ws := PlainWrites(entries);
    assert WriteAll(map[], ws).Keys == KeysOf(ws);
    assert ws[i].0 == ws[j].0;
    KeysOfDuplicate(ws, i, j);
  }
}
