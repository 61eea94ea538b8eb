/** The search-index side: a cluster holding one index per category,
    reached through a client, and the service that decides which client
    requests to issue.  The engine's wildcard matching is not modelled;
    it is a predicate the caller of the model supplies.  Every request
    the service issues is recorded in the client's ghost request log. */
module Elasticsearch {
  import opened Globals

  datatype FieldType = Text | Integer

  /** The field mapping an index is created with. */
  datatype Mapping = Mapping(properties: map<string, FieldType>)

  /** The mapping of a category index: `name` is free text and
      `quantity` an integer. */
  const ItemMapping: Mapping := Mapping(map["name" := Text, "quantity" := Integer])

  /** One index: its mapping and its documents in insertion order. */
  datatype Index = Index(mapping: Mapping, docs: seq<Item>)

  /** A wildcard query on one field. */
  datatype Wildcard = Wildcard(field: string, pattern: string)

  /** The requests the client sends to the cluster. */
  datatype Request =
    | HealthCheck
    | Exists(index: string)
    | Create(index: string, mapping: Mapping)
    | IndexDocument(index: string, body: Item)
    | DeleteByQuery(index: string, query: Wildcard)
    | Search(index: string, query: Wildcard)

  /** One search hit: the index it came from and the stored document. */
  datatype Hit = Hit(index: string, source: Item)

  /** What the cluster answers to a write. */
  datatype Response = Created(index: string) | DeletedByQuery(index: string, deleted: nat)

  /** The index scope that covers every index. */
  const ALL_INDICES: string := "_all"

  /** The pattern a name search sends: the name verbatim, with one `*`
      on each side and nothing escaped. */
  function SearchPattern(name: string): (pattern: string)
    ensures |pattern| == |name| + 2
    ensures pattern[0] == '*' && pattern[|pattern| - 1] == '*'
    ensures pattern[1..|pattern| - 1] == name
  {
    "*" + name + "*"
  }

  /** The search result: the `_source` of each hit, same count, same
      order. */
  function Sources(hits: seq<Hit>): (docs: seq<Item>)
    ensures |docs| == |hits|
    ensures forall i :: 0 <= i < |hits| ==> docs[i] == hits[i].source
  {
    seq(|hits|, i requires 0 <= i < |hits| => hits[i].source)
  }

  /** The documents a delete-by-query leaves: those whose queried field
      the engine does not match against the pattern, in their order. */
  function Keep(docs: seq<Item>, query: Wildcard, matches: (string, Value) -> bool): (kept: seq<Item>)
    ensures |kept| <= |docs|
    ensures forall d :: d in kept <==> d in docs && !matches(query.pattern, Get(d, query.field))
    decreases |docs|
  {
    if docs == [] then []
    else
      (if matches(query.pattern, Get(docs[0], query.field)) then [] else [docs[0]])
      + Keep(docs[1..], query, matches)
  }

  /** Filtering distributes over concatenation, so the documents kept
      stay in their original relative order. */
  lemma {:induction false} KeepDistributes(a: seq<Item>, b: seq<Item>, query: Wildcard, matches: (string, Value) -> bool)
    ensures Keep(a + b, query, matches) == Keep(a, query, matches) + Keep(b, query, matches)
    decreases |a|
  {
    if a != [] {
      var head := if matches(query.pattern, Get(a[0], query.field)) then [] else [a[0]];
      assert (a + b)[0] == a[0] && (a + b)[1..] == a[1..] + b;
      assert Keep(a + b, query, matches) == head + Keep(a[1..] + b, query, matches);
      assert Keep(a, query, matches) == head + Keep(a[1..], query, matches);
      KeepDistributes(a[1..], b, query, matches);
    } else {
      assert a + b == b;
    }
  }

  /** Each matched document is deleted with all its copies, and each
      unmatched one is kept as often as it occurs. */
  lemma {:induction false} KeepCounts(docs: seq<Item>, query: Wildcard, matches: (string, Value) -> bool, d: Item)
    ensures multiset(Keep(docs, query, matches))[d]
            == if matches(query.pattern, Get(d, query.field)) then 0 else multiset(docs)[d]
    decreases |docs|
  {
    if docs != [] {
      KeepCounts(docs[1..], query, matches, d);
      assert docs == [docs[0]] + docs[1..];
    }
  }

  /** The indices after adding `doc` to index `name`: the index is
      created with the item mapping if it was missing, the document is
      appended, and every other index is untouched. */
  function WithDocument(indices: map<string, Index>, name: string, doc: Item): (r: map<string, Index>)
    ensures r.Keys == indices.Keys + {name}
    ensures name in indices ==> r[name] == Index(indices[name].mapping, indices[name].docs + [doc])
    ensures name !in indices ==> r[name] == Index(ItemMapping, [doc])
    ensures forall k :: k in indices && k != name ==> r[k] == indices[k]
  {
    if name in indices then indices[name := Index(indices[name].mapping, indices[name].docs + [doc])]
    else indices[name := Index(ItemMapping, [doc])]
  }

  /** After an add the target index exists and its last document is the
      one added; an existing index keeps its mapping and its documents. */
  lemma AddedDocumentIsStored(indices: map<string, Index>, name: string, doc: Item)
    ensures name in WithDocument(indices, name, doc)
    ensures doc in WithDocument(indices, name, doc)[name].docs
    ensures name in indices ==> indices[name].docs <= WithDocument(indices, name, doc)[name].docs
  {
    var r := WithDocument(indices, name, doc);
    assert r[name].docs[|r[name].docs| - 1] == doc;
  }

  /** The requests an add issues once the cluster is known to be alive:
      an existence check, a create only for a missing index, then the
      document itself. */
  function AddRequests(indices: map<string, Index>, name: string, doc: Item): (rs: seq<Request>)
    ensures 2 <= |rs| <= 3
    ensures rs[0] == Exists(name) && rs[|rs| - 1] == IndexDocument(name, doc)
    ensures Create(name, ItemMapping) in rs <==> name !in indices
    ensures forall i :: 0 <= i < |rs| ==> !rs[i].DeleteByQuery? && !rs[i].Search?
  {
    [Exists(name)] + (if name in indices then [] else [Create(name, ItemMapping)]) + [IndexDocument(name, doc)]
  }

  /** `doc` is a document of some index. */
  ghost predicate IsStored(indices: map<string, Index>, doc: Item) {
    exists k :: k in indices && doc in indices[k].docs
  }

  /** The hits name stored documents. */
  ghost predicate StoredHits(indices: map<string, Index>, hits: seq<Hit>) {
    forall i :: 0 <= i < |hits| ==> hits[i].index in indices && hits[i].source in indices[hits[i].index].docs
  }

  /** What the model knows of the cluster: whether a node answers, the
      indices, and the requests received so far. */
  datatype ClusterState = ClusterState(alive: bool, indices: map<string, Index>, requests: seq<Request>)

  /** The effect of the service's `add`: health check, then (if alive)
      create the item's `type` index when missing and index the item
      body unchanged. */
  function AddEffect(s: ClusterState, item: Item): (ClusterState, Result<Response>)
    requires Get(item, "type").Str?
  {
    var name := Get(item, "type").s;
    if !s.alive then (s.(requests := s.requests + [HealthCheck]), Err(NoAliveNodes))
    else (s.(indices := WithDocument(s.indices, name, item),
             requests := s.requests + [HealthCheck] + AddRequests(s.indices, name, item)),
          Ok(Created(name)))
  }

  /** The effect of the service's `remove`: health check, then (if alive)
      nothing more than an existence check for a missing index, or one
      delete-by-query on the index with the name as the pattern. */
  function RemoveEffect(s: ClusterState, index: string, name: string, matches: (string, Value) -> bool)
    : (ClusterState, Result<Option<Response>>)
  {
    if !s.alive then (s.(requests := s.requests + [HealthCheck]), Err(NoAliveNodes))
    else if index !in s.indices then (s.(requests := s.requests + [HealthCheck, Exists(index)]), Ok(None))
    else
      var query := Wildcard("name", name);
      var docs := s.indices[index].docs;
      var kept := Keep(docs, query, matches);
      (s.(indices := s.indices[index := Index(s.indices[index].mapping, kept)],
          requests := s.requests + [HealthCheck, Exists(index), DeleteByQuery(index, query)]),
       Ok(Some(DeletedByQuery(index, |docs| - |kept|))))
  }

  /** The effect of the service's `searchByName`: health check, then (if
      alive) one wildcard search over every index; `hits` is the
      engine's answer. */
  function SearchEffect(s: ClusterState, name: string, hits: seq<Hit>): (ClusterState, Result<seq<Item>>)
  {
    if !s.alive then (s.(requests := s.requests + [HealthCheck]), Err(NoAliveNodes))
    else (s.(requests := s.requests + [HealthCheck, Search(ALL_INDICES, Wildcard("name", SearchPattern(name)))]),
          Ok(Sources(hits)))
  }

  /** Every operation sends the health check first; when no node answers
      it fails with the no-alive-nodes error and sends nothing else. */
  lemma HealthCheckFirst(s: ClusterState, item: Item, index: string, name: string,
                         matches: (string, Value) -> bool, hits: seq<Hit>)
    requires Get(item, "type").Str?
    ensures AddEffect(s, item).0.requests[|s.requests|] == HealthCheck
    ensures RemoveEffect(s, index, name, matches).0.requests[|s.requests|] == HealthCheck
    ensures SearchEffect(s, name, hits).0.requests[|s.requests|] == HealthCheck
    ensures !s.alive ==>
              && AddEffect(s, item) == (s.(requests := s.requests + [HealthCheck]), Err(NoAliveNodes))
              && RemoveEffect(s, index, name, matches) == (s.(requests := s.requests + [HealthCheck]), Err(NoAliveNodes))
              && SearchEffect(s, name, hits) == (s.(requests := s.requests + [HealthCheck]), Err(NoAliveNodes))
  {
  }

  /** Adding to a live cluster stores the item body, unchanged, as the
      last document of the index named by its `type`; the index is
      created, with the item mapping, exactly when it was missing. */
  lemma AddStoresItem(s: ClusterState, item: Item)
    requires Get(item, "type").Str? && s.alive
    ensures var (t, r) := AddEffect(s, item);
      var name := Get(item, "type").s;
      && r == Ok(Created(name))
      && name in t.indices && t.indices[name].docs[|t.indices[name].docs| - 1] == item
      && (Create(name, ItemMapping) in t.requests[|s.requests|..] <==> name !in s.indices)
      && (name in s.indices ==> t.indices[name].mapping == s.indices[name].mapping)
      && t.indices - {name} == s.indices - {name}
  {
    var name := Get(item, "type").s;
    var t := AddEffect(s, item).0;
    assert t.requests[|s.requests|..] == [HealthCheck] + AddRequests(s.indices, name, item);
  }

  /** Removing from a missing index answers nothing and sends no
      delete-by-query; from an existing index it sends exactly one, on
      that index, with the given name as the `name` pattern verbatim. */
  lemma RemoveRequests(s: ClusterState, index: string, name: string, matches: (string, Value) -> bool)
    requires s.alive
    ensures var (t, r) := RemoveEffect(s, index, name, matches);
      && (index !in s.indices ==>
            r == Ok(None) && t.indices == s.indices
            && forall q :: q in t.requests[|s.requests|..] ==> !q.DeleteByQuery?)
      && (index in s.indices ==>
            r.Ok? && r.value.Some?
            && t.requests[|s.requests|..] == [HealthCheck, Exists(index), DeleteByQuery(index, Wildcard("name", name))])
  {
    var t := RemoveEffect(s, index, name, matches).0;
    if index !in s.indices {
      assert t.requests[|s.requests|..] == [HealthCheck, Exists(index)];
    } else {
      assert t.requests[|s.requests|..] == [HealthCheck, Exists(index), DeleteByQuery(index, Wildcard("name", name))];
    }
  }

  /** A search leaves the indices as they are; when the engine answers
      with hits on stored documents, every document returned is stored,
      and an empty answer gives an empty result. */
  lemma SearchReturnsStoredDocuments(s: ClusterState, name: string, hits: seq<Hit>)
    requires s.alive
    ensures SearchEffect(s, name, hits).0.indices == s.indices
    ensures SearchEffect(s, name, hits).1 == Ok(Sources(hits))
    ensures hits == [] ==> SearchEffect(s, name, hits).1 == Ok([])
    ensures StoredHits(s.indices, hits) ==>
              forall i :: 0 <= i < |hits| ==> IsStored(s.indices, SearchEffect(s, name, hits).1.value[i])
  {
    if StoredHits(s.indices, hits) {
      var docs := SearchEffect(s, name, hits).1.value;
      forall i | 0 <= i < |hits|
        ensures IsStored(s.indices, docs[i])
      {
        var k := hits[i].index;
        assert k in s.indices && docs[i] in s.indices[k].docs;
      }
    }
  }

  /** The cluster as the client sees it. */
  class Cluster {
    var alive: bool
    var indices: map<string, Index>
    ghost var requests: seq<Request>

    constructor (alive: bool, indices: map<string, Index>)
      ensures this.alive == alive && this.indices == indices && requests == []
    {
      this.alive := alive;
      this.indices := indices;
      requests := [];
    }

    ghost function State(): (s: ClusterState)
      reads this
    {
      ClusterState(alive, indices, requests)
    }

    /** The cluster health call; it fails exactly when no node answers. */
    method Health() returns (ok: bool)
      modifies this`requests
      ensures ok == alive
      ensures requests == old(requests) + [HealthCheck]
    {
      requests := requests + [HealthCheck];
      ok := alive;
    }

    method IndexExists(index: string) returns (b: bool)
      modifies this`requests
      ensures b <==> index in indices
      ensures requests == old(requests) + [Exists(index)]
    {
      requests := requests + [Exists(index)];
      b := index in indices;
    }

    method CreateIndex(index: string, mapping: Mapping)
      requires index !in indices
      modifies this`indices, this`requests
      ensures indices == old(indices)[index := Index(mapping, [])]
      ensures requests == old(requests) + [Create(index, mapping)]
    {
      requests := requests + [Create(index, mapping)];
      indices := indices[index := Index(mapping, [])];
    }

    method IndexDoc(index: string, body: Item) returns (resp: Response)
      requires index in indices
      modifies this`indices, this`requests
      ensures indices == old(indices)[index := Index(old(indices)[index].mapping, old(indices)[index].docs + [body])]
      ensures requests == old(requests) + [IndexDocument(index, body)]
      ensures resp == Created(index)
    {
      requests := requests + [IndexDocument(index, body)];
      indices := indices[index := Index(indices[index].mapping, indices[index].docs + [body])];
      resp := Created(index);
    }

    /** Delete the documents of `index` the engine matches against the
        query; `matches` stands for the engine's wildcard semantics. */
    method DeleteBy(index: string, query: Wildcard, matches: (string, Value) -> bool) returns (resp: Response)
      requires index in indices
      modifies this`indices, this`requests
      ensures indices == old(indices)[index := Index(old(indices)[index].mapping, Keep(old(indices)[index].docs, query, matches))]
      ensures requests == old(requests) + [DeleteByQuery(index, query)]
      ensures resp == DeletedByQuery(index, |old(indices)[index].docs| - |Keep(old(indices)[index].docs, query, matches)|)
    {
      requests := requests + [DeleteByQuery(index, query)];
      var kept := Keep(indices[index].docs, query, matches);
      resp := DeletedByQuery(index, |indices[index].docs| - |kept|);
      indices := indices[index := Index(indices[index].mapping, kept)];
    }

    /** A search; `hits` is what the engine returns, in its own order. */
    method SearchFor(index: string, query: Wildcard, hits: seq<Hit>) returns (resp: seq<Hit>)
      modifies this`requests
      ensures resp == hits
      ensures requests == old(requests) + [Search(index, query)]
    {
      requests := requests + [Search(index, query)];
      resp := hits;
    }
  }

  class ElasticsearchService {
    const client: Cluster

    constructor (client: Cluster)
      ensures this.client == client
    {
      this.client := client;
    }

    /** Fails with the no-alive-nodes error when the cluster does not
        answer; otherwise only the health request is issued. */
    method CheckClusterHealth() returns (r: Status)
      modifies client`requests
      ensures r == (if client.alive then Done else Failed(NoAliveNodes))
      ensures client.requests == old(client.requests) + [HealthCheck]
    {
      var ok := client.Health();
      if !ok {
        return Failed(NoAliveNodes);
      }
      r := Done;
    }

    method Add(item: Item) returns (r: Result<Response>)
      requires Get(item, "type").Str?
      modifies client`indices, client`requests
      ensures (client.State(), r) == AddEffect(old(client.State()), item)
    {
      var health := CheckClusterHealth();
      if health.Failed? {
        return Err(health.error);
      }
      var index := Get(item, "type").s;
      var present := client.IndexExists(index);
      if !present {
        client.CreateIndex(index, ItemMapping);
      }
      var response := client.IndexDoc(index, item);
      r := Ok(response);
      assert [] + [item] == [item];
      assert client.indices == WithDocument(old(client.indices), index, item);
      assert client.requests == old(client.requests) + [HealthCheck] + AddRequests(old(client.indices), index, item);
    }

    method Remove(index: string, name: string, matches: (string, Value) -> bool) returns (r: Result<Option<Response>>)
      modifies client`indices, client`requests
      ensures (client.State(), r) == RemoveEffect(old(client.State()), index, name, matches)
    {
      var health := CheckClusterHealth();
      if health.Failed? {
        return Err(health.error);
      }
      var present := client.IndexExists(index);
      if present {
        var response := client.DeleteBy(index, Wildcard("name", name), matches);
        assert client.requests == old(client.requests) + [HealthCheck, Exists(index), DeleteByQuery(index, Wildcard("name", name))];
        return Ok(Some(response));
      }
      r := Ok(None);
      assert client.requests == old(client.requests) + [HealthCheck, Exists(index)];
    }

    method SearchByName(name: string, hits: seq<Hit>) returns (r: Result<seq<Item>>)
      modifies client`requests
      ensures (client.State(), r) == SearchEffect(old(client.State()), name, hits)
    {
      var health := CheckClusterHealth();
      if health.Failed? {
        return Err(health.error);
      }
      var response := client.SearchFor(ALL_INDICES, Wildcard("name", SearchPattern(name)), hits);
      r := Ok(Sources(response));
      assert client.requests == old(client.requests) + [HealthCheck, Search(ALL_INDICES, Wildcard("name", SearchPattern(name)))];
    }
  }
}
