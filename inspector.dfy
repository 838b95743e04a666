/** get_model_layers: the sharded catalog when the whole sharded path succeeds,
    otherwise the catalog of the single file model.safetensors. */
module Inspector {
  import opened Types
  import opened Http
  import opened SingleFile
  import opened Catalog
  import opened ShardedIndex

  /** The catalog the sharded path yields, or None when any step of it raises: the
      index fetch or decode, a shard header, or the walk over the weight map. */
  ghost function ShardedLayers(remote: Remote): Option<seq<TensorRecord>>
  {
    match FetchIndex(remote)
    case Err(_) => None
    case Ok(weightMap) =>
      if !AllShardsParse(remote, weightMap) then None
      else match ShardedCatalog(weightMap, AllHeaders(remote, weightMap))
        case Err(_) => None
        case Ok(records) => Some(records)
  }

  /** The fallback: parse model.safetensors and enumerate its header. */
  function SingleFileLayers(remote: Remote): (t: Traced<seq<TensorRecord>>)
    ensures t.requests == ParseSingleFile(remote, SafetensorsFile).requests
    ensures var parsed := ParseSingleFile(remote, SafetensorsFile).result;
      && (parsed.Err? ==> t.result == Err(parsed.error))
      && (parsed.Ok? ==> t.result == SingleFileCatalog(parsed.value))
  {
    var parsed := ParseSingleFile(remote, SafetensorsFile);
    match parsed.result
    case Err(e) => Traced(Err(e), parsed.requests)
    case Ok(header) => Traced(SingleFileCatalog(header), parsed.requests)
  }

  /** The URLs the sharded path may touch: the index and the shards it names. */
  function ShardedUrls(remote: Remote, weightMap: Dict<string>): set<string>
  {
    {FileUrl(remote.repo, remote.revision, SafetensorsIndexFile)} +
    set f | f in ShardFiles(weightMap) :: FileUrl(remote.repo, remote.revision, f)
  }

  /** The headers the sharded walk looks up cover every shard of the weight map, so
      the lookup headers[filename] never misses. */
  lemma ShardLookupNeverMisses(remote: Remote, weightMap: Dict<string>)
    requires AllShardsParse(remote, weightMap)
    ensures forall i :: 0 <= i < |weightMap| ==> weightMap[i].1 in AllHeaders(remote, weightMap)
  {
    ParsedHeadersCover(ShardParser(remote), ShardFiles(weightMap));
  }

  /** Once every shard parses, the sharded walk can only fail on an entry without
      shape/dtype. */
  lemma ShardedWalkErrors(remote: Remote, weightMap: Dict<string>)
    requires AllShardsParse(remote, weightMap)
    ensures ShardedCatalog(weightMap, AllHeaders(remote, weightMap)).Err? ==>
      ShardedCatalog(weightMap, AllHeaders(remote, weightMap)).error.NotATensorEntry?
  {
    var headers := AllHeaders(remote, weightMap);
    ShardLookupNeverMisses(remote, weightMap);
    ShardedCatalogErrors(weightMap, headers);
  }

  /** The URL of model.safetensors is among the sharded URLs only when it is a shard. */
  lemma ShardedUrlsAvoidSingleFile(remote: Remote, weightMap: Dict<string>)
    ensures FileUrl(remote.repo, remote.revision, SafetensorsFile) in ShardedUrls(remote, weightMap) <==>
      SafetensorsFile in ShardFiles(weightMap)
  {
    forall f | f == SafetensorsIndexFile || f in ShardFiles(weightMap) {
      FileUrlInjective(remote.repo, remote.revision, f, SafetensorsFile);
    }
  }

  /** The requests of a sharded run go to the index and the shards only. */
  lemma ShardedRequestTargets(remote: Remote, weightMap: Dict<string>, order: seq<string>, requests: seq<Request>)
    requires forall k :: 0 <= k < |order| ==> order[k] in ShardFiles(weightMap)
    requires requests == [IndexRequest(remote)] + ShardRequests(ShardParser(remote), order)
    ensures forall q :: q in requests ==> q.url in ShardedUrls(remote, weightMap)
  {
    ShardRequestTargets(remote, order, ShardFiles(weightMap));
    forall q | q in requests ensures q.url in ShardedUrls(remote, weightMap) {
      if q != IndexRequest(remote) {
        assert q in ShardRequests(ShardParser(remote), order);
      }
    }
  }

  /** get_model_layers. The sharded path always runs first: the index request, then
      one parse per distinct shard, none repeated. When it succeeds its catalog is
      returned and nothing else is fetched; on any failure the result, success or
      error, is exactly the single-file fallback's, and its requests are the last ones
      sent. */
  method GetModelLayers(remote: Remote)
    returns (r: Result<seq<TensorRecord>>, requests: seq<Request>, ghost order: seq<string>)
    ensures FetchIndex(remote).Err? ==> order == []
    ensures FetchIndex(remote).Ok? ==>
      && Distinct(order)
      && forall k :: 0 <= k < |order| ==> order[k] in ShardFiles(FetchIndex(remote).value)
    ensures ShardedLayers(remote).Some? ==>
      && r == Ok(ShardedLayers(remote).value)
      && (forall f :: f in ShardFiles(FetchIndex(remote).value) ==> f in order)
      && requests == [IndexRequest(remote)] + ShardRequests(ShardParser(remote), order)
      && forall q :: q in requests ==> q.url in ShardedUrls(remote, FetchIndex(remote).value)
    ensures ShardedLayers(remote).Some? && SafetensorsFile !in ShardFiles(FetchIndex(remote).value) ==>
      forall q :: q in requests ==> q.url != FileUrl(remote.repo, remote.revision, SafetensorsFile)
    ensures ShardedLayers(remote).None? ==>
      && r == SingleFileLayers(remote).result
      && requests == [IndexRequest(remote)] + ShardRequests(ShardParser(remote), order)
                     + SingleFileLayers(remote).requests
  {
    var index, shardedRequests, shardOrder := ParseShardedIndex(remote);
    requests := shardedRequests;
    order := shardOrder;
    if index.Ok? {
      var catalog := BuildShardedCatalog(index.value.weightMap, index.value.headers);
      if catalog.Ok? {
        ShardedRequestTargets(remote, index.value.weightMap, order, requests);
        ShardedUrlsAvoidSingleFile(remote, index.value.weightMap);
        return catalog, requests, order;
      }
    }
    var fallback := SingleFileLayers(remote);
    requests := requests + fallback.requests;
    r := fallback.result;
  }
}
