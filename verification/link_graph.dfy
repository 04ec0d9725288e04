/** Link-graph extraction (`Pr.url_extractor`): from the crawled records,
    the vertex list (every crawled URL and every link target) and the
    adjacency map (each crawled URL to its distinct outbound links). */
module LinkGraph {
  import opened Seqs

  type Url = string

  /** One crawled page: its `url` and its outbound `url_lists`, which may
      repeat a target or point back at the page itself. */
  datatype Record = Record(url: Url, urlLists: seq<Url>)

  /** The extracted graph. `vertices` fixes the row and column order of the
      transition matrix; `adjacency` holds one entry per crawled URL. */
  datatype Graph = Graph(vertices: seq<Url>, adjacency: map<Url, seq<Url>>) {

    /** Vertices are distinct, every adjacency list is distinct, and every
        source and target is a vertex. */
    predicate Valid() {
      && NoDup(vertices)
      && forall u :: u in adjacency ==>
           && u in vertices
           && NoDup(adjacency[u])
           && forall v :: v in adjacency[u] ==> v in vertices
    }
  }

  /** `u` occurs in some record, as its source URL or in its link list. */
  ghost predicate IsVertex(records: seq<Record>, u: Url) {
    exists i :: 0 <= i < |records| && (records[i].url == u || u in records[i].urlLists)
  }

  /** `u` is the source URL of some record. */
  ghost predicate IsCrawled(records: seq<Record>, u: Url) {
    exists i :: 0 <= i < |records| && records[i].url == u
  }

  /** `list(set(links))`: the distinct links, each once. */
  function Dedup(links: seq<Url>): (r: seq<Url>)
    ensures NoDup(r)
    ensures forall u :: u in r <==> u in links
    ensures |r| == 0 <==> |links| == 0
  {
    var r := Extend([], links);
    assert |links| > 0 ==> links[0] in r;
    r
  }

  /** Index of the last record whose source is `u`, or -1 when `u` was never
      crawled. */
  function LastIndex(records: seq<Record>, u: Url): (i: int)
    ensures -1 <= i < |records|
    ensures i == -1 <==> !IsCrawled(records, u)
    ensures 0 <= i ==> records[i].url == u
    ensures forall j :: i < j < |records| ==> records[j].url != u
  {
    if |records| == 0 then -1
    else if records[|records| - 1].url == u then |records| - 1
    else
      var i := LastIndex(records[..|records| - 1], u);
      assert forall j :: 0 <= j < |records| - 1 ==> records[..|records| - 1][j] == records[j];
      i
  }

  /** The set `all_urls`, as a duplicate-free list: each record adds its own
      URL and then each of its links. */
  function VertexList(records: seq<Record>): (vs: seq<Url>)
    ensures NoDup(vs)
    ensures forall u :: u in vs <==> IsVertex(records, u)
  {
    if |records| == 0 then []
    else
      var init, last := records[..|records| - 1], records[|records| - 1];
      var vs := Extend(VertexList(init), [last.url] + last.urlLists);
      assert forall j :: 0 <= j < |init| ==> init[j] == records[j];
      assert forall u :: IsVertex(records, u) <==>
        IsVertex(init, u) || u == last.url || u in last.urlLists;
      vs
  }

  /** The map `url_maps`: each crawled URL to the distinct links of the last
      record with that URL, since a later record overwrites an earlier one. */
  function Adjacency(records: seq<Record>): (adj: map<Url, seq<Url>>)
    ensures forall u :: u in adj <==> IsCrawled(records, u)
    ensures forall u :: u in adj ==> adj[u] == Dedup(records[LastIndex(records, u)].urlLists)
  {
    if |records| == 0 then map[]
    else
      var init, last := records[..|records| - 1], records[|records| - 1];
      assert forall j :: 0 <= j < |init| ==> init[j] == records[j];
      Adjacency(init)[last.url := Dedup(last.urlLists)]
  }

  /** `Pr.url_extractor` over records already read from the crawl folder. */
  function UrlExtractor(records: seq<Record>): (g: Graph)
    ensures g.Valid()
    ensures forall u :: u in g.vertices <==> IsVertex(records, u)
    ensures forall u :: u in g.adjacency <==> IsCrawled(records, u)
    ensures forall u :: u in g.adjacency ==>
              forall v :: v in g.adjacency[u] <==> v in records[LastIndex(records, u)].urlLists
    ensures |g.vertices| > 0 <==> |records| > 0
  {
    var g := Graph(VertexList(records), Adjacency(records));
    assert |records| > 0 ==> IsVertex(records, records[0].url);
    g
  }
}
