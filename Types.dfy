/** The records the query page passes between its components
    (src/types/index.ts). Numbers are modelled as `real`. */
module Types {

  /** A cited documentation page and how relevant it is to the query. */
  datatype Source = Source(title: string, url: string, relevanceScore: real)

  /** What a query produces: the answer text, the cited pages, a confidence
      and the query it answers. */
  datatype QueryResult = QueryResult(answer: string, sources: seq<Source>, confidence: real, query: string)

  predicate InUnitInterval(x: real) { 0.0 <= x <= 1.0 }

  /** Confidence and every relevance score lie in [0, 1]. */
  predicate WellFormed(r: QueryResult)
  {
    && InUnitInterval(r.confidence)
    && forall i :: 0 <= i < |r.sources| ==> InUnitInterval(r.sources[i].relevanceScore)
  }
}
