/** Shared value types: optional values, the errors the inspector can raise,
    bytes, and JSON objects as ordered dictionaries. */
module Types {

  datatype Option<T> = None | Some(value: T)

  /** The exceptions the inspection code can raise, one constructor per cause. */
  datatype Error =
    | ConnectionFailed(url: string)          // requests.get raised before any response
    | HttpStatus(status: nat)                // raise_for_status on a 4xx/5xx response
    | PrefixNotEightBytes(length: nat)       // struct.unpack('<Q', ...) on a body of the wrong length
    | HeaderTooLarge(length: nat)            // the 25,000,000-byte ceiling
    | InvalidJsonHeader                      // json.loads failed on a header body
    | InvalidIndex                           // json.loads or the "weight_map" lookup failed on the index
    | ShardHeaderMissing(filename: string)   // headers[filename] raised KeyError
    | NotATensorEntry(name: string)          // info["shape"] / info["dtype"] raised

  datatype Result<T> = Ok(value: T) | Err(error: Error)

  type Byte = b: int | 0 <= b < 256

  /** A decoded JSON object: its members in document order, as a Python dict keeps them. */
  type Dict<V> = seq<(string, V)>

  predicate UniqueKeys<V>(d: Dict<V>)
  {
    forall i, j :: 0 <= i < j < |d| ==> d[i].0 != d[j].0
  }

  /** What the JSON decoder hands back for an object: a dict never repeats a key. */
  type JsonObject<V> = d: Dict<V> | UniqueKeys(d) witness []

  predicate HasKey<V>(d: Dict<V>, k: string)
  {
    exists i :: 0 <= i < |d| && d[i].0 == k
  }

  /** `k in d` followed by `d[k]`. */
  function Lookup<V>(d: Dict<V>, k: string): (r: Option<V>)
    ensures r.Some? <==> HasKey(d, k)
    ensures r.Some? ==> exists i :: 0 <= i < |d| && d[i] == (k, r.value)
  {
    if |d| == 0 then None
    else if d[0].0 == k then Some(d[0].1)
    else
      var r := Lookup(d[1..], k);
      assert forall i :: 0 < i < |d| ==> d[i] == d[1..][i - 1];
      r
  }

  /** With unique keys, the lookup of a member's key finds that member. */
  lemma {:induction false} LookupMember<V>(d: Dict<V>, i: nat)
    requires UniqueKeys(d) && i < |d|
    ensures Lookup(d, d[i].0) == Some(d[i].1)
  {
    if i > 0 {
      assert d[0].0 != d[i].0;
      assert d[1..][i - 1] == d[i];
      LookupMember(d[1..], i - 1);
    }
  }

  /** One header member: a tensor description, or any value lacking "shape"/"dtype"
      (such as the string map stored under "__metadata__"). */
  datatype Entry = Tensor(shape: seq<nat>, dtype: string) | NotTensor

  /** A decoded safetensors header: tensor name to entry, in document order. */
  type Header = JsonObject<Entry>

  /** The "weight_map" of a shard index: tensor name to shard filename, in document order. */
  type WeightMap = JsonObject<string>
}
