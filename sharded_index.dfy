/** parse_sharded_index: fetch the index, then the header of every distinct shard. */
module ShardedIndex {
  import opened Types
  import opened Http
  import opened SingleFile

  /** The decoded index and the header of each shard file, keyed by filename. */
  datatype ShardedModel = ShardedModel(weightMap: WeightMap, headers: map<string, Header>)

  /** The index request: the whole file, no Range header. */
  function IndexRequest(remote: Remote): (q: Request)
    ensures q.url == FileUrl(remote.repo, remote.revision, SafetensorsIndexFile)
    ensures q.range == None
  {
    FileRequest(remote, SafetensorsIndexFile, None)
  }

  /** The start of parse_sharded_index: fetch model.safetensors.index.json and decode
      its weight map. */
  function FetchIndex(remote: Remote): (r: Result<WeightMap>)
    ensures var response := GetFileResponse(remote, IndexRequest(remote));
      r.Ok? <==> response.Ok? && remote.decodeIndex(response.value).Some?
    ensures var response := GetFileResponse(remote, IndexRequest(remote));
      && (r.Ok? ==> r.value == remote.decodeIndex(response.value).value)
      && (response.Err? ==> r.error == response.error)
      && (response.Ok? && r.Err? ==> r.error == InvalidIndex)
  {
    match GetFileResponse(remote, IndexRequest(remote))
    case Err(e) => Err(e)
    case Ok(content) =>
      match remote.decodeIndex(content)
      case None => Err(InvalidIndex)
      case Some(weightMap) => Ok(weightMap)
  }

  /** set(weight_map.values()): every shard filename, each once. */
  function ShardFiles(weightMap: Dict<string>): (files: set<string>)
    ensures forall i :: 0 <= i < |weightMap| ==> weightMap[i].1 in files
    ensures forall f :: f in files ==> exists i :: 0 <= i < |weightMap| && weightMap[i].1 == f
  {
    set i | 0 <= i < |weightMap| :: weightMap[i].1
  }

  /** parse_single_file for the shards of `remote`. */
  function ShardParser(remote: Remote): string -> Traced<Header>
  {
    filename => ParseSingleFile(remote, filename)
  }

  ghost predicate AllParse(parse: string -> Traced<Header>, files: set<string>)
  {
    forall f :: f in files ==> parse(f).result.Ok?
  }

  /** The header of every file in `files` that parses, keyed by filename. */
  function ParsedHeaders(parse: string -> Traced<Header>, files: set<string>): (headers: map<string, Header>)
    ensures headers.Keys <= files
    ensures forall f :: f in headers ==> parse(f).result == Ok(headers[f])
  {
    map f | f in files && parse(f).result.Ok? :: parse(f).result.value
  }

  /** Parsing one more file that succeeds adds exactly its header. */
  lemma ParsedHeadersAdd(parse: string -> Traced<Header>, files: set<string>, filename: string)
    requires AllParse(parse, files)
    requires parse(filename).result.Ok?
    ensures AllParse(parse, files + {filename})
    ensures ParsedHeaders(parse, files + {filename}) == ParsedHeaders(parse, files)[filename := parse(filename).result.value]
  {
  }

  /** When every file parses, every file has its header. */
  lemma ParsedHeadersCover(parse: string -> Traced<Header>, files: set<string>)
    requires AllParse(parse, files)
    ensures ParsedHeaders(parse, files).Keys == files
  {
  }

  /** The requests of parsing the files in `order`, one file after the other. */
  function ShardRequests(parse: string -> Traced<Header>, order: seq<string>): seq<Request>
  {
    if |order| == 0 then []
    else ShardRequests(parse, order[..|order| - 1]) + parse(order[|order| - 1]).requests
  }

  /** Parsing one more file appends its requests to the trace. */
  lemma ShardRequestsSnoc(parse: string -> Traced<Header>, requests: seq<Request>, order: seq<string>, filename: string)
    requires requests == ShardRequests(parse, order)
    ensures requests + parse(filename).requests == ShardRequests(parse, order + [filename])
  {
    assert (order + [filename])[..|order|] == order;
  }

  /** Shard requests only ever go to the URLs of the shards in `order`. */
  lemma {:induction false} ShardRequestTargets(remote: Remote, order: seq<string>, files: set<string>)
    requires forall k :: 0 <= k < |order| ==> order[k] in files
    ensures forall q :: q in ShardRequests(ShardParser(remote), order) ==>
      exists f :: f in files && q.url == FileUrl(remote.repo, remote.revision, f)
  {
    if |order| > 0 {
      var last := order[|order| - 1];
      ShardRequestTargets(remote, order[..|order| - 1], files);
      forall q | q in ParseSingleFile(remote, last).requests
        ensures exists f :: f in files && q.url == FileUrl(remote.repo, remote.revision, f)
      {
        assert q.url == FileUrl(remote.repo, remote.revision, last);
      }
    }
  }

  predicate Distinct(order: seq<string>)
  {
    forall k1, k2 :: 0 <= k1 < k2 < |order| ==> order[k1] != order[k2]
  }

  /** What parsing the files in `order` established: each file parsed once, the first
      failure aborting, and on success the header of every file. */
  ghost predicate ShardLoopOutcome(parse: string -> Traced<Header>, files: set<string>,
                                   r: Result<map<string, Header>>, order: seq<string>)
  {
    && Distinct(order)
    && (forall k :: 0 <= k < |order| ==> order[k] in files)
    && (r.Ok? <==> AllParse(parse, files))
    && (r.Ok? ==> r.value == ParsedHeaders(parse, files) && forall f :: f in files ==> f in order)
    && (r.Err? ==>
          && |order| > 0
          && (forall k :: 0 <= k < |order| - 1 ==> parse(order[k]).result.Ok?)
          && parse(order[|order| - 1]).result.Err?
          && r.error == parse(order[|order| - 1]).result.error)
  }

  /** Visiting one more file, not visited before, keeps the visit order free of repeats
      and within the visited files. */
  lemma VisitStep(files: set<string>, done: set<string>, order: seq<string>, filename: string)
    requires done <= files && filename in files - done
    requires Distinct(order) && forall k :: 0 <= k < |order| ==> order[k] in done
    ensures Distinct(order + [filename])
    ensures forall k :: 0 <= k < |order + [filename]| ==> (order + [filename])[k] in done + {filename}
  {
  }

  /** A visit that fails ends the loop with that file's error. */
  lemma VisitFails(parse: string -> Traced<Header>, files: set<string>, done: set<string>,
                   order: seq<string>, filename: string)
    requires done <= files && filename in files - done
    requires AllParse(parse, done)
    requires Distinct(order) && forall k :: 0 <= k < |order| ==> order[k] in done
    requires parse(filename).result.Err?
    ensures ShardLoopOutcome(parse, files, Err(parse(filename).result.error), order + [filename])
  {
    VisitStep(files, done, order, filename);
    var order' := order + [filename];
    forall k | 0 <= k < |order'| - 1 ensures parse(order'[k]).result.Ok? {
      assert order'[k] == order[k];
    }
  }

  /** The loop of parse_sharded_index: parse the header of every file in `files` with `parse`, in an
      unspecified order (Python set iteration); `order` records the one taken. */
  method ParseShardHeaders(parse: string -> Traced<Header>, files: set<string>)
    returns (r: Result<map<string, Header>>, requests: seq<Request>, ghost order: seq<string>)
    ensures requests == ShardRequests(parse, order)
    ensures ShardLoopOutcome(parse, files, r, order)
  {
    requests := [];
    order := [];
    var headers: map<string, Header> := map[];
    var pending := files;
    while pending != {}
      invariant pending <= files
      invariant AllParse(parse, files - pending)
      invariant headers == ParsedHeaders(parse, files - pending)
      invariant Distinct(order)
      invariant forall k :: 0 <= k < |order| ==> order[k] in files - pending
      invariant forall f :: f in files - pending ==> f in order
      invariant requests == ShardRequests(parse, order)
      decreases pending
    {
      var filename :| filename in pending;
      var parsed := parse(filename);
      ShardRequestsSnoc(parse, requests, order, filename);
      requests := requests + parsed.requests;
      if parsed.result.Err? {
        VisitFails(parse, files, files - pending, order, filename);
        return Err(parsed.result.error), requests, order + [filename];
      }
      VisitStep(files, files - pending, order, filename);
      order := order + [filename];
      ParsedHeadersAdd(parse, files - pending, filename);
      assert files - (pending - {filename}) == (files - pending) + {filename};
      headers := headers[filename := parsed.result.value];
      pending := pending - {filename};
    }
    assert files - pending == files;
    r := Ok(headers);
  }

  /** Every shard of the weight map parses. */
  ghost predicate AllShardsParse(remote: Remote, weightMap: Dict<string>)
  {
    AllParse(ShardParser(remote), ShardFiles(weightMap))
  }

  /** The headers of all shards that parse. */
  function AllHeaders(remote: Remote, weightMap: Dict<string>): (headers: map<string, Header>)
    ensures headers.Keys <= ShardFiles(weightMap)
    ensures forall f :: f in headers ==> ParseSingleFile(remote, f).result == Ok(headers[f])
  {
    ParsedHeaders(ShardParser(remote), ShardFiles(weightMap))
  }

  /** parse_sharded_index: the index, then the headers of all its shards. Every
      distinct shard is parsed exactly once, the first failure aborts, and on success
      the headers do not depend on the order the shards were visited in. */
  method ParseShardedIndex(remote: Remote) returns (r: Result<ShardedModel>, requests: seq<Request>, ghost order: seq<string>)
    ensures requests == [IndexRequest(remote)] + ShardRequests(ShardParser(remote), order)
    ensures FetchIndex(remote).Err? ==> r == Err(FetchIndex(remote).error) && order == []
    ensures r.Ok? <==> FetchIndex(remote).Ok? && AllShardsParse(remote, FetchIndex(remote).value)
    ensures FetchIndex(remote).Ok? ==>
      var weightMap := FetchIndex(remote).value;
      && ShardLoopOutcome(ShardParser(remote), ShardFiles(weightMap),
                          if r.Ok? then Ok(r.value.headers) else Err(r.error), order)
      && (r.Ok? ==> r.value == ShardedModel(weightMap, AllHeaders(remote, weightMap)))
  {
    var index := FetchIndex(remote);
    if index.Err? {
      return Err(index.error), [IndexRequest(remote)], [];
    }
    var weightMap := index.value;
    var headers, shardRequests, shardOrder := ParseShardHeaders(ShardParser(remote), ShardFiles(weightMap));
    requests := [IndexRequest(remote)] + shardRequests;
    order := shardOrder;
    r := if headers.Ok? then Ok(ShardedModel(weightMap, headers.value)) else Err(headers.error);
  }
}
