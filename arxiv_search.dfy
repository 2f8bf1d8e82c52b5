/**
 * The query side of the enhanced script: the search that `search_papers`
 * assembles and the query part of `visualize_papers`. A search is the
 * conjunction of its clauses; executing it and drawing charts from it are
 * the search store's and the plotting library's business.
 */
module ArxivSearch {
  import opened Wrappers
  import opened Text

  const Index: string := "papers"
  const DefaultSize: int := 10

  /** One `s.query(...)` call. */
  datatype Clause =
    | MultiMatch(query: string, fields: seq<string>, operator: string)
    | Term(field: string, value: string)
    | Match(field: string, text: string, operator: string, minimumShouldMatch: nat)
    | MoreLikeThis(fields: seq<string>, like: string, minTermFreq: nat)

  /** A search on the `papers` index; `size` is set by the `s[:size]` slice. */
  datatype Search = Search(index: string, clauses: seq<Clause>, size: Option<int>)

  /** One `s.aggs.bucket(...)` call. */
  datatype Aggregation =
    | DateHistogram(name: string, field: string, calendarInterval: string, format: string)
    | SignificantTerms(name: string, field: string, size: nat)
    | Terms(name: string, field: string, size: nat)

  datatype Visualization = Visualization(search: Search, aggregations: seq<Aggregation>)

  /** Python truthiness of an optional string argument: given and non-empty. */
  predicate Given(p: Option<string>) {
    p.Some? && p.value != ""
  }

  /** How many of the arguments, from the first, are given before the first
      one that is not. */
  function GivenPrefix(ps: seq<Option<string>>): (n: nat)
    ensures n <= |ps|
    ensures forall i :: 0 <= i < n ==> Given(ps[i])
    ensures n < |ps| ==> !Given(ps[n])
  {
    if |ps| == 0 || !Given(ps[0]) then 0
    else
      var n := GivenPrefix(ps[1..]);
      assert forall i :: 1 <= i <= n ==> ps[i] == ps[1..][i - 1];
      1 + n
  }

  /** The nested `if` cascade shared by `search_papers` and
      `visualize_papers`: each
      clause is added only when its argument and every earlier one is given,
      always in the order query, author, topic, similar-to. */
  function Cascade(query: Option<string>, author: Option<string>, topic: Option<string>,
                   similarTo: Option<string>): (cs: seq<Clause>)
    ensures |cs| <= 4
    ensures |cs| > 0 <==> Given(query)
    ensures |cs| > 1 <==> Given(query) && Given(author)
    ensures |cs| > 2 <==> Given(query) && Given(author) && Given(topic)
    ensures |cs| > 3 <==> Given(query) && Given(author) && Given(topic) && Given(similarTo)
    ensures |cs| > 0 ==> cs[0] == MultiMatch(query.value, ["title", "summary"], "and")
    ensures |cs| > 1 ==> cs[1] == Term("authors", Lower(author.value))
    ensures |cs| > 2 ==> cs[2] == Match("summary", topic.value, "or", 2)
    ensures |cs| > 3 ==> cs[3] == MoreLikeThis(["title", "summary"], similarTo.value, 1)
  {
    if !Given(query) then []
    else
      var q := [MultiMatch(query.value, ["title", "summary"], "and")];
      if !Given(author) then q
      else
        var a := q + [Term("authors", Lower(author.value))];
        if !Given(topic) then a
        else
          var t := a + [Match("summary", topic.value, "or", 2)];
          if !Given(similarTo) then t
          else t + [MoreLikeThis(["title", "summary"], similarTo.value, 1)]
  }

  /** The number of clauses is the number of leading arguments given. */
  lemma {:induction false} CascadeCountsGivenPrefix(query: Option<string>, author: Option<string>,
                                                     topic: Option<string>, similarTo: Option<string>)
    ensures |Cascade(query, author, topic, similarTo)| == GivenPrefix([query, author, topic, similarTo])
  {
    var p4: seq<Option<string>> := [];
    var p3, p2, p1, p0 := [similarTo] + p4, [topic, similarTo], [author, topic, similarTo], [query, author, topic, similarTo];
    assert p3[1..] == p4 && p2[1..] == p3 && p1[1..] == p2 && p0[1..] == p1;
    assert GivenPrefix(p3) == if Given(similarTo) then 1 else 0;
    assert GivenPrefix(p2) == if Given(topic) then 1 + GivenPrefix(p3) else 0;
    assert GivenPrefix(p1) == if Given(author) then 1 + GivenPrefix(p2) else 0;
    assert GivenPrefix(p0) == if Given(query) then 1 + GivenPrefix(p1) else 0;
  }

  /** `search_papers(query, author, topic, similar_to, size)`: the search it
      executes. The size limit is set only when all four arguments are given. */
  function SearchPapers(query: Option<string>, author: Option<string>, topic: Option<string>,
                        similarTo: Option<string>, size: int := DefaultSize): (s: Search)
    ensures s.index == Index
    ensures s.clauses == Cascade(query, author, topic, similarTo)
    ensures s.size.Some? <==> Given(query) && Given(author) && Given(topic) && Given(similarTo)
    ensures s.size.Some? ==> s.size.value == size
  {
    var cs := Cascade(query, author, topic, similarTo);
    Search(Index, cs, if |cs| == 4 then Some(size) else None)
  }

  /** The three aggregations `visualize_papers` asks for. */
  const VisualizationAggregations: seq<Aggregation> := [
    DateHistogram("papers_over_time", "updated", "month", "yyyy-MM"),
    SignificantTerms("popular_topics", "summary", 10),
    Terms("top_authors", "authors", 10)
  ]

  /** The search `visualize_papers` executes: the same clauses as
      `search_papers` for the same arguments, never a size limit, and the
      three aggregations. */
  function VisualizePapers(query: Option<string>, author: Option<string>, topic: Option<string>,
                           similarTo: Option<string>): (v: Visualization)
    ensures forall size :: v.search.clauses == SearchPapers(query, author, topic, similarTo, size).clauses
    ensures v.search.index == Index && v.search.size == None
    ensures v.aggregations == VisualizationAggregations
  {
    Visualization(Search(Index, Cascade(query, author, topic, similarTo), None), VisualizationAggregations)
  }

  /** The author filter is lost when no query is given, whatever else is. */
  lemma {:induction false} AuthorNeedsQuery(author: Option<string>, topic: Option<string>, similarTo: Option<string>, size: int)
    ensures SearchPapers(None, author, topic, similarTo, size).clauses == []
    ensures SearchPapers(Some(""), author, topic, similarTo, size).clauses == []
  {
  }
}
