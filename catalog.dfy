/** Turning decoded headers into tensor records: the single-file enumeration and the
    sharded walk over the weight map. */
module Catalog {
  import opened Types
  import opened Dtypes

  /** The header key that holds free-form metadata rather than a tensor. */
  const MetadataKey := "__metadata__"

  datatype TensorRecord = TensorRecord(name: string, shape: seq<nat>, dtype: string, size: nat)

  /** The record built for a tensor description: its fields copied unchanged, with its
      size computed. */
  function MakeRecord(name: string, shape: seq<nat>, dtype: string): (rec: TensorRecord)
    ensures CopiedFrom(rec, name, Tensor(shape, dtype))
    ensures Product(shape) <= rec.size <= 8 * Product(shape)
  {
    TensorRecord(name, shape, dtype, TensorSize(shape, dtype))
  }

  /** `rec` is the header member (name, entry) copied unchanged, with its size
      product(shape) * width(dtype). */
  predicate CopiedFrom(rec: TensorRecord, name: string, entry: Entry)
  {
    && entry == Tensor(rec.shape, rec.dtype)
    && rec.name == name
    && rec.size == TensorSize(rec.shape, rec.dtype)
  }

  predicate StrictlyIncreasing(idx: seq<nat>)
  {
    forall k1, k2 :: 0 <= k1 < k2 < |idx| ==> idx[k1] < idx[k2]
  }

  function Shift(idx: seq<nat>): (r: seq<nat>)
    ensures |r| == |idx| && forall k :: 0 <= k < |idx| ==> r[k] == idx[k] + 1
  {
    seq(|idx|, k requires 0 <= k < |idx| => idx[k] + 1)
  }

  // ---------------------------------------------------------------------------
  // Single-file path

  /** The list comprehension over header.items(): one record per member other than
      "__metadata__", in header order; the first member without shape/dtype raises. */
  function SingleFileCatalog(header: Dict<Entry>): (r: Result<seq<TensorRecord>>)
    ensures r.Ok? <==> forall i :: 0 <= i < |header| && header[i].0 != MetadataKey ==> header[i].1.Tensor?
    ensures r.Err? ==> exists i :: 0 <= i < |header| && header[i].0 != MetadataKey && header[i].1.NotTensor?
                                   && r.error == NotATensorEntry(header[i].0)
    ensures r.Ok? ==> |r.value| <= |header|
    ensures r.Ok? ==> forall k :: 0 <= k < |r.value| ==> r.value[k].name != MetadataKey
  {
    if |header| == 0 then Ok([])
    else
      assert forall i :: 0 < i < |header| ==> header[i] == header[1..][i - 1];
      var (name, entry) := header[0];
      if name == MetadataKey then SingleFileCatalog(header[1..])
      else match entry
        case NotTensor => Err(NotATensorEntry(name))
        case Tensor(shape, dtype) =>
          match SingleFileCatalog(header[1..])
          case Err(e) => Err(e)
          case Ok(rest) => Ok([MakeRecord(name, shape, dtype)] + rest)
  }

  /** Each record comes from its own header member, in header order, copied unchanged;
      and every member other than "__metadata__" gives a record. The witness `idx`
      maps each record to the position of its member. */
  lemma {:induction false} SingleFileCatalogOrigins(header: Dict<Entry>) returns (idx: seq<nat>)
    requires SingleFileCatalog(header).Ok?
    ensures SingleFileOrigins(header, SingleFileCatalog(header).value, idx)
  {
    if |header| == 0 {
      idx := [];
    } else {
      SingleFileCatalogStep(header);
      var rest := SingleFileCatalogOrigins(header[1..]);
      idx := SingleFileOriginsCons(header, rest);
    }
  }

  /** `idx` places each record at the header member it was copied from, in increasing
      order, and holds every member other than "__metadata__". */
  predicate SingleFileOrigins(header: Dict<Entry>, records: seq<TensorRecord>, idx: seq<nat>)
  {
    && |idx| == |records|
    && StrictlyIncreasing(idx)
    && (forall k :: 0 <= k < |idx| ==> SingleFileRecordAt(header, records, idx, k))
    && (forall i :: 0 <= i < |header| && header[i].0 != MetadataKey ==> i in idx)
  }

  /** One step of the enumeration: how a successful catalog is made from its tail's. */
  lemma SingleFileCatalogStep(header: Dict<Entry>)
    requires |header| > 0 && SingleFileCatalog(header).Ok?
    ensures SingleFileCatalog(header[1..]).Ok?
    ensures var records := SingleFileCatalog(header).value;
      var tailRecords := SingleFileCatalog(header[1..]).value;
      if header[0].0 == MetadataKey then records == tailRecords
      else
        header[0].1.Tensor? &&
        records == [MakeRecord(header[0].0, header[0].1.shape, header[0].1.dtype)] + tailRecords
  {
  }

  /** The inductive step of SingleFileCatalogOrigins. */
  lemma SingleFileOriginsCons(header: Dict<Entry>, rest: seq<nat>) returns (idx: seq<nat>)
    requires |header| > 0 && SingleFileCatalog(header).Ok?
    requires SingleFileCatalog(header[1..]).Ok?
    requires SingleFileOrigins(header[1..], SingleFileCatalog(header[1..]).value, rest)
    ensures SingleFileOrigins(header, SingleFileCatalog(header).value, idx)
  {
    var records := SingleFileCatalog(header).value;
    var tail := header[1..];
    var tailRecords := SingleFileCatalog(tail).value;
    var first := header[0].0 != MetadataKey;
    SingleFileCatalogStep(header);
    var shifted := Shift(rest);
    forall k | 0 <= k < |rest|
      ensures shifted[k] < |header| && header[shifted[k]] == tail[rest[k]]
    {
      assert SingleFileRecordAt(tail, tailRecords, rest, k);
    }
    idx := Shifted(rest, first);
    if first {
      forall k | 0 <= k < |idx| ensures SingleFileRecordAt(header, records, idx, k) {
        if k > 0 {
          assert idx[k] == shifted[k - 1];
          assert SingleFileRecordAt(tail, tailRecords, rest, k - 1);
        }
      }
    } else {
      forall k | 0 <= k < |idx| ensures SingleFileRecordAt(header, records, idx, k) {
        assert SingleFileRecordAt(tail, tailRecords, rest, k);
      }
    }
    ShiftMembership(rest, first);
    forall i | 0 <= i < |header| && header[i].0 != MetadataKey
      ensures i in idx
    {
      if i > 0 {
        assert header[i] == tail[i - 1];
      }
    }
  }

  /** Record k of a single-file catalog is the member at idx[k], copied unchanged. */
  predicate SingleFileRecordAt(header: Dict<Entry>, records: seq<TensorRecord>, idx: seq<nat>, k: nat)
    requires k < |idx| && k < |records|
  {
    idx[k] < |header| && header[idx[k]].0 != MetadataKey && CopiedFrom(records[k], header[idx[k]].0, header[idx[k]].1)
  }

  /** The record count is len(H), less one when H has a "__metadata__" member. */
  lemma {:induction false} SingleFileCatalogCount(header: Dict<Entry>)
    requires UniqueKeys(header)
    requires SingleFileCatalog(header).Ok?
    ensures |SingleFileCatalog(header).value| == |header| - (if HasKey(header, MetadataKey) then 1 else 0)
  {
    if |header| > 0 {
      var tail := header[1..];
      assert forall i :: 0 < i < |header| ==> header[i] == tail[i - 1];
      SingleFileCatalogCount(tail);
      if header[0].0 == MetadataKey {
        assert !HasKey(tail, MetadataKey);
      } else {
        assert HasKey(header, MetadataKey) == HasKey(tail, MetadataKey);
      }
    }
  }

  // ---------------------------------------------------------------------------
  // Sharded path

  /** The sharded catalog: weight-map order; a member is emitted when its tensor is a
      key of its shard's header and skipped otherwise. A shard missing from `headers`
      (KeyError) or a member without shape/dtype fails the whole walk. */
  function ShardedCatalog(weightMap: Dict<string>, headers: map<string, Dict<Entry>>): (r: Result<seq<TensorRecord>>)
    ensures r.Ok? ==> |r.value| <= |weightMap|
  {
    if |weightMap| == 0 then Ok([])
    else
      var (name, filename) := weightMap[0];
      if filename !in headers then Err(ShardHeaderMissing(filename))
      else match Lookup(headers[filename], name)
        case None => ShardedCatalog(weightMap[1..], headers)
        case Some(entry) =>
          match entry
          case NotTensor => Err(NotATensorEntry(name))
          case Tensor(shape, dtype) =>
            match ShardedCatalog(weightMap[1..], headers)
            case Err(e) => Err(e)
            case Ok(rest) => Ok([MakeRecord(name, shape, dtype)] + rest)
  }

  /** The walk fails exactly when some member's shard has no header, or its tensor is
      present but is not a tensor description. */
  lemma {:induction false} ShardedCatalogOk(weightMap: Dict<string>, headers: map<string, Dict<Entry>>)
    ensures ShardedCatalog(weightMap, headers).Ok? <==>
      forall i :: 0 <= i < |weightMap| ==>
        weightMap[i].1 in headers && Lookup(headers[weightMap[i].1], weightMap[i].0) != Some(NotTensor)
  {
    if |weightMap| > 0 {
      var tail := weightMap[1..];
      assert forall i :: 0 < i < |weightMap| ==> weightMap[i] == tail[i - 1];
      ShardedCatalogOk(tail, headers);
    }
  }

  /** When every shard named by the weight map has a header, the walk can only fail on
      an entry without shape/dtype. */
  lemma {:induction false} ShardedCatalogErrors(weightMap: Dict<string>, headers: map<string, Dict<Entry>>)
    requires forall i :: 0 <= i < |weightMap| ==> weightMap[i].1 in headers
    ensures ShardedCatalog(weightMap, headers).Err? ==> ShardedCatalog(weightMap, headers).error.NotATensorEntry?
  {
    if |weightMap| > 0 {
      var tail := weightMap[1..];
      assert forall i :: 0 < i < |weightMap| ==> weightMap[i] == tail[i - 1];
      ShardedCatalogErrors(tail, headers);
    }
  }

  /** Records follow weight-map order, each copied from its shard's header; a member
      gives a record if and only if its tensor is a key of its shard's header. */
  lemma {:induction false} ShardedCatalogOrigins(weightMap: Dict<string>, headers: map<string, Dict<Entry>>)
    returns (idx: seq<nat>)
    requires ShardedCatalog(weightMap, headers).Ok?
    ensures forall i :: 0 <= i < |weightMap| ==> weightMap[i].1 in headers
    ensures ShardedOrigins(weightMap, headers, ShardedCatalog(weightMap, headers).value, idx)
  {
    ShardedCatalogOk(weightMap, headers);
    if |weightMap| == 0 {
      idx := [];
    } else {
      var rest := ShardedCatalogOrigins(weightMap[1..], headers);
      idx := ShardedOriginsCons(weightMap, headers, rest);
    }
  }

  /** `idx` places each record at the weight-map member it was copied from, in
      increasing order, and holds exactly the members whose tensor the shard's header has. */
  predicate ShardedOrigins(weightMap: Dict<string>, headers: map<string, Dict<Entry>>,
                           records: seq<TensorRecord>, idx: seq<nat>)
    requires forall i :: 0 <= i < |weightMap| ==> weightMap[i].1 in headers
  {
    && |idx| == |records|
    && StrictlyIncreasing(idx)
    && (forall k :: 0 <= k < |idx| ==> ShardedRecordAt(weightMap, headers, records, idx, k))
    && (forall i :: 0 <= i < |weightMap| ==> (i in idx <==> HasKey(headers[weightMap[i].1], weightMap[i].0)))
  }

  /** The inductive step of ShardedCatalogOrigins. */
  lemma ShardedOriginsCons(weightMap: Dict<string>, headers: map<string, Dict<Entry>>, rest: seq<nat>)
    returns (idx: seq<nat>)
    requires |weightMap| > 0 && ShardedCatalog(weightMap, headers).Ok?
    requires forall i :: 0 <= i < |weightMap| ==> weightMap[i].1 in headers
    requires ShardedOrigins(weightMap[1..], headers, ShardedCatalog(weightMap[1..], headers).value, rest)
    ensures ShardedOrigins(weightMap, headers, ShardedCatalog(weightMap, headers).value, idx)
  {
    var records := ShardedCatalog(weightMap, headers).value;
    var tail := weightMap[1..];
    var tailRecords := ShardedCatalog(tail, headers).value;
    var shifted := Shift(rest);
    var (name, filename) := weightMap[0];
    ShardedCatalogStep(weightMap, headers);
    forall k | 0 <= k < |rest|
      ensures shifted[k] < |weightMap| && weightMap[shifted[k]] == tail[rest[k]]
    {
      assert ShardedRecordAt(tail, headers, tailRecords, rest, k);
    }
    idx := Shifted(rest, HasKey(headers[filename], name));
    if HasKey(headers[filename], name) {
      forall k | 0 <= k < |idx| ensures ShardedRecordAt(weightMap, headers, records, idx, k) {
        if k > 0 {
          assert idx[k] == shifted[k - 1];
          assert ShardedRecordAt(tail, headers, tailRecords, rest, k - 1);
        }
      }
    } else {
      forall k | 0 <= k < |idx| ensures ShardedRecordAt(weightMap, headers, records, idx, k) {
        assert ShardedRecordAt(tail, headers, tailRecords, rest, k);
      }
    }
    ShiftMembership(rest, HasKey(headers[filename], name));
    forall i | 0 <= i < |weightMap|
      ensures i in idx <==> HasKey(headers[weightMap[i].1], weightMap[i].0)
    {
      if i > 0 {
        assert weightMap[i] == tail[i - 1];
      }
    }
  }

  /** The witness of a catalog one member longer: position 0 when that member gives a
      record, then the tail's witness moved up by one. */
  function Shifted(rest: seq<nat>, first: bool): seq<nat>
  {
    if first then [0] + Shift(rest) else Shift(rest)
  }

  /** A positive position is in the shifted witness exactly when its predecessor was
      in the original one. */
  lemma ShiftMembership(rest: seq<nat>, first: bool)
    requires StrictlyIncreasing(rest)
    ensures StrictlyIncreasing(Shifted(rest, first))
    ensures forall i :: i > 0 ==> (i in Shifted(rest, first) <==> i - 1 in rest)
    ensures 0 in Shifted(rest, first) <==> first
  {
    forall i | i > 0 ensures i in Shifted(rest, first) <==> i - 1 in rest {
      ShiftedAt(rest, first, i);
    }
  }

  lemma ShiftedAt(rest: seq<nat>, first: bool, i: nat)
    requires i > 0
    ensures i in Shifted(rest, first) <==> i - 1 in rest
  {
    var shifted := Shift(rest);
    var idx := Shifted(rest, first);
    if i - 1 in rest {
      var k :| 0 <= k < |rest| && rest[k] == i - 1;
      assert shifted[k] == i;
    }
    if i in idx {
      var k :| 0 <= k < |idx| && idx[k] == i;
      if first {
        assert idx[k] == shifted[k - 1];
      }
    }
  }

  /** One step of the walk: how a successful catalog is made from its tail's. */
  lemma ShardedCatalogStep(weightMap: Dict<string>, headers: map<string, Dict<Entry>>)
    requires |weightMap| > 0 && ShardedCatalog(weightMap, headers).Ok?
    ensures weightMap[0].1 in headers
    ensures ShardedCatalog(weightMap[1..], headers).Ok?
    ensures var (name, filename) := weightMap[0];
      var records := ShardedCatalog(weightMap, headers).value;
      var tailRecords := ShardedCatalog(weightMap[1..], headers).value;
      if HasKey(headers[filename], name) then
        var entry := Lookup(headers[filename], name).value;
        entry.Tensor? && records == [MakeRecord(name, entry.shape, entry.dtype)] + tailRecords
      else records == tailRecords
  {
  }

  /** Record k of a sharded catalog is the header entry of the member at idx[k],
      copied unchanged. */
  predicate ShardedRecordAt(weightMap: Dict<string>, headers: map<string, Dict<Entry>>,
                            records: seq<TensorRecord>, idx: seq<nat>, k: nat)
    requires k < |idx| && k < |records|
  {
    && idx[k] < |weightMap|
    && weightMap[idx[k]].1 in headers
    && Lookup(headers[weightMap[idx[k]].1], weightMap[idx[k]].0).Some?
    && CopiedFrom(records[k], weightMap[idx[k]].0, Lookup(headers[weightMap[idx[k]].1], weightMap[idx[k]].0).value)
  }

  /** Prepends records already emitted to the outcome of the rest of the walk. */
  function Prepend(done: seq<TensorRecord>, r: Result<seq<TensorRecord>>): Result<seq<TensorRecord>>
  {
    match r
    case Ok(rest) => Ok(done + rest)
    case Err(e) => Err(e)
  }

  lemma PrependNothing(r: Result<seq<TensorRecord>>)
    ensures Prepend([], r) == r
  {
    if r.Ok? {
      assert [] + r.value == r.value;
    }
  }

  lemma PrependTwice(a: seq<TensorRecord>, b: seq<TensorRecord>, r: Result<seq<TensorRecord>>)
    ensures Prepend(a, Prepend(b, r)) == Prepend(a + b, r)
  {
    if r.Ok? {
      assert a + (b + r.value) == (a + b) + r.value;
    }
  }

  /** The loop of get_model_layers that appends to all_tensors. */
  method BuildShardedCatalog(weightMap: Dict<string>, headers: map<string, Dict<Entry>>)
    returns (r: Result<seq<TensorRecord>>)
    ensures r == ShardedCatalog(weightMap, headers)
  {
    var allTensors: seq<TensorRecord> := [];
    var i := 0;
    assert weightMap[0..] == weightMap;
    PrependNothing(ShardedCatalog(weightMap, headers));
    while i < |weightMap|
      invariant 0 <= i <= |weightMap|
      invariant ShardedCatalog(weightMap, headers) == Prepend(allTensors, ShardedCatalog(weightMap[i..], headers))
    {
      var (tensorName, filename) := weightMap[i];
      assert weightMap[i..][0] == weightMap[i];
      assert weightMap[i..][1..] == weightMap[i + 1..];
      if filename !in headers {
        return Err(ShardHeaderMissing(filename));
      }
      var header := headers[filename];
      var found := Lookup(header, tensorName);
      if found.Some? {
        if found.value.NotTensor? {
          return Err(NotATensorEntry(tensorName));
        }
        var rec := MakeRecord(tensorName, found.value.shape, found.value.dtype);
        PrependTwice(allTensors, [rec], ShardedCatalog(weightMap[i + 1..], headers));
        allTensors := allTensors + [rec];
      }
      i := i + 1;
    }
    assert weightMap[i..] == [];
    assert allTensors + [] == allTensors;
    r := Ok(allTensors);
  }
}
