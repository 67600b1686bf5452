/** The hit list the retrieval steps edit in place. */
module Hits {
  import opened Options

  /** The fields of a memory hit that the modelled steps read, and its content. */
  datatype Hit = Hit(id: string, key: string, episode: Option<string>, content: string)

  class HitList {
    var items: seq<Hit>

    constructor (hits: seq<Hit>)
      ensures items == hits
    {
      items := hits;
    }
  }

  function HitIds(hits: seq<Hit>): (r: seq<string>)
    ensures |r| == |hits| && forall i :: 0 <= i < |r| ==> r[i] == hits[i].id
  {
    seq(|hits|, i requires 0 <= i < |hits| => hits[i].id)
  }

  function IdSet(ids: seq<string>): set<string>
  {
    set id | id in ids
  }

  ghost predicate DistinctHits(hits: seq<Hit>)
  {
    forall i, j :: 0 <= i < j < |hits| ==> hits[i].id != hits[j].id
  }
}
