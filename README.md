# model-inspect: remote safetensors header inspection, in Dafny

model-inspect lists the tensors of a model checkpoint stored on the Hugging Face hub
in the safetensors format. It does this without downloading any tensor data: it
fetches only the binary header of each file, using HTTP range requests.

A safetensors file starts with an 8-byte little-endian unsigned length `L`. Then come
`L` bytes of JSON that map each tensor name to its `shape` and `dtype`, plus an
optional `__metadata__` member. The inspector reads the header in two steps:

- it requests `bytes=0-7`, unpacks the length, and refuses anything above
  25,000,000;
- it requests `bytes=8-{8+L-1}` and decodes the JSON.

A sharded checkpoint has an index file, `model.safetensors.index.json`. Its
`weight_map` maps each tensor to the shard file that holds it. The inspector
parses the header of every distinct shard once. It then walks the weight map in
order and emits a record for each tensor that its shard's header describes.

If any part of the sharded path raises, the inspector falls back to the single
file `model.safetensors`. It then enumerates every header member except
`__metadata__`, in header order. Each record's size is the product of the shape
times the dtype's byte width (1 for an unknown dtype).

The network and the JSON decoder are not modelled as code. A `Remote` value stands
for them: `transport` answers a request, or yields `None` when `requests.get`
raises. `decodeHeader` and `decodeIndex` return the decoded value, or `None` when
decoding raises. Every fetching operation also returns the requests it sent, in
order. That makes these statements provable:

- "the body is never requested when the header is too large";
- "every shard is parsed exactly once";
- "when the sharded path succeeds, only the index and its shards are fetched, so
  `model.safetensors` is not fetched unless the index names it as a shard".

Modules follow the structure of `model_inspect/cli.py`:

- `Types`: errors, results, bytes, JSON objects as ordered dictionaries.
- `LittleEndian`: `struct.unpack('<Q', ...)`.
- `Decimal` and `HttpRange`: the `bytes=first-last` range value and its decimal
  numbers (section 2.1 of RFC 7233).
- `Dtypes`: `DTYPE_BYTES` and the size formula.
- `Http`: `HF_URL` and `get_file_response`.
- `SingleFile`: `parse_single_file`.
- `ShardedIndex`: `parse_sharded_index`, with the loop over the shard set as a
  method.
- `Catalog`: the two record builders, with the appending loop as a method.
- `Inspector`: `get_model_layers`.

## Model

| member | source | states |
|---|---|---|
| Dtypes.ByteWidth | model_inspect/cli.py:19-30 | The byte width is 1, 2, 4 or 8, and it is 1 for any tag outside the table. |
| Dtypes.ByteWidthTable | model_inspect/cli.py:19-30 | Row by row, the ten tags have widths 8, 4, 2, 2, 8, 4, 2, 1, 1, 1. Every other tag, lowercase spellings included, has width 1. |
| Dtypes.ProductAppend | model_inspect/cli.py:86 | The element count of a concatenation of shapes is the product of the two element counts. |
| Dtypes.Product | model_inspect/cli.py:86 | `math.prod` of the empty shape of a scalar is 1. A non-zero element count is at least each dimension. |
| Dtypes.ProductZero | model_inspect/cli.py:86 | A shape has no elements exactly when one of its dimensions is 0. |
| Dtypes.TensorSize | model_inspect/cli.py:86 | A record's size is between 1 and 8 bytes per element, and exactly 1 byte per element for a dtype outside the table. |
| Dtypes.TensorSizeZero | model_inspect/cli.py:86 | A record's size is 0 exactly when a dimension is 0. |
| LittleEndian.FromLittleEndian | model_inspect/cli.py:44 | The little-endian value of k bytes is below 256^k. |
| LittleEndian.ToLittleEndian | model_inspect/cli.py:44 | Encoding n < 256^k gives exactly k bytes, and they decode back to n. |
| LittleEndian.ToFromLittleEndian | model_inspect/cli.py:44 | Re-encoding a decoded byte string at its own width gives back the same bytes. |
| SingleFile.DecodeHeaderLength | model_inspect/cli.py:44 | The prefix decodes iff it is exactly 8 bytes. The value is then its little-endian reading, below 2^64. Any other length fails with that length as the error. |
| SingleFile.DecodeHeaderLengthRoundTrip | model_inspect/cli.py:44 | Every length below 2^64, stored as the 8-byte prefix, decodes to itself. |
| SingleFile.PrefixRequest | model_inspect/cli.py:43 | The prefix request goes to the file's URL and carries the Range header `bytes=0-7`. |
| SingleFile.HeaderLength | model_inspect/cli.py:43-44 | The length is read iff the prefix fetch succeeded with exactly 8 bytes. It is then their little-endian value, below 2^64. A failed fetch passes its error through; a body of another length fails with that length. |
| SingleFile.PrefixRangeWindow | model_inspect/cli.py:43 | The prefix range is the range value for bytes 0 to 7, and it names exactly 8 bytes. |
| SingleFile.BodyRange | model_inspect/cli.py:50 | The body range parses to the window from byte 8 through byte 8+L-1. That window is a valid byte range, of exactly L bytes, iff L >= 1; for L = 0 its last position is below its first. |
| SingleFile.BodyRangeWindow | model_inspect/cli.py:50 | The body range is "bytes=8-" followed by the decimal of 8+L-1. |
| SingleFile.BodyRequest | model_inspect/cli.py:50-51 | The body request goes to the file's URL and carries the body range as its Range header. |
| Decimal.NatToString | model_inspect/cli.py:50 | The decimal text is non-empty and all digits, and it starts with 0 only when it is "0", the text of 0. |
| Decimal.ParseNatToString | model_inspect/cli.py:50 | Reading back the decimal text of n gives n. |
| Decimal.NatToStringInjective | model_inspect/cli.py:50 | Distinct numbers have distinct decimal text. |
| HttpRange.RangeHeader | model_inspect/cli.py:50 | The range value is "bytes=" followed by two non-empty digit strings separated by a dash. |
| HttpRange.RangeHeaderRoundTrip | model_inspect/cli.py:50 | A "bytes=first-last" value parses back to exactly the window (first, last). |
| Http.FileUrl | model_inspect/cli.py:15 | The resolved URL ends with the file name. |
| Http.FileUrlInjective | model_inspect/cli.py:15 | Within one repository and revision, two file names have the same URL iff they are equal. |
| Http.FileRequest | model_inspect/cli.py:34-36 | The request goes to the file's URL. A Range header is sent iff the range value is non-empty, and then it carries that value. |
| Http.GetFileResponse | model_inspect/cli.py:32-38 | The body comes back iff the transport answered with a status outside 400-599. Otherwise the error is the connection failure or that status. |
| SingleFile.ParseSingleFile | model_inspect/cli.py:40-57 | One or two requests are sent. The first is always the prefix range. All of them go to the file's own URL. |
| SingleFile.TooLargeSkipsBody | model_inspect/cli.py:46-47 | A length above 25,000,000 fails with HeaderTooLarge, and the prefix request is the only request sent. |
| SingleFile.BodyRequestedIffAccepted | model_inspect/cli.py:46-51 | The body is requested iff the prefix decoded to a length of at most 25,000,000. The second request is then exactly the body request for that length, so its Range header is the literal `bytes=8-{8+L-1}`, and its window starts at offset 8 and spans that many bytes. |
| SingleFile.ParseSingleFileSuccess | model_inspect/cli.py:43-57 | A failed prefix read (a fetch error or a prefix that is not 8 bytes) is the result, unchanged. A header is returned iff the length was read and accepted, the body fetch went through, and the decoder accepted the body; the header is then the decoder's result. Once the length is accepted, a failed body fetch passes its error through and a rejected body gives InvalidJsonHeader. |
| Types.Lookup | model_inspect/cli.py:80-81 | A lookup finds a value iff the key is a member of the object, and the value is that member's. |
| Types.LookupMember | model_inspect/cli.py:80-81 | In an object without repeated keys, looking up a member's key finds that member. |
| Catalog.MakeRecord | model_inspect/cli.py:82-87 | A record copies the tensor's name, shape and dtype unchanged, and its size is product(shape) * width, between 1 and 8 bytes per element. |
| Catalog.SingleFileCatalog | model_inspect/cli.py:91-97 | The enumeration succeeds iff every member other than `__metadata__` is a tensor description. A failure names such a member. There are never more records than members, and no record is named `__metadata__`. |
| Catalog.SingleFileCatalogOrigins | model_inspect/cli.py:92-97 | Each record is a member other than `__metadata__`, copied unchanged: same name, shape and dtype, with size product(shape) * width. Records keep header order, and every such member gives a record. |
| Catalog.SingleFileCatalogCount | model_inspect/cli.py:92-97 | The number of records is the number of members, less one when `__metadata__` is present. |
| Catalog.ShardedCatalog | model_inspect/cli.py:78-88 | The sharded walk yields at most one record per weight-map entry. |
| Catalog.ShardedCatalogOk | model_inspect/cli.py:78-87 | The walk succeeds iff every entry's shard has a header and the entry's tensor, if present there, is a tensor description. |
| Catalog.ShardedCatalogErrors | model_inspect/cli.py:79-85 | When every shard has a header, the walk can fail only on a member without shape/dtype. |
| Catalog.ShardedCatalogOrigins | model_inspect/cli.py:78-87 | Records follow weight-map order, each copied unchanged from its shard's header. An entry gives a record iff its tensor is a key of its shard's header. |
| Catalog.BuildShardedCatalog | model_inspect/cli.py:77-88 | The appending loop returns exactly the sharded walk's result, error or records. |
| ShardedIndex.IndexRequest | model_inspect/cli.py:62 | The index request goes to the URL of `model.safetensors.index.json` and has no Range header. |
| ShardedIndex.FetchIndex | model_inspect/cli.py:62-63 | The weight map is obtained iff the index fetch succeeded and the decoder accepted its body, and it is the decoder's result. A failed fetch passes its error through; a rejected body gives InvalidIndex. |
| ShardedIndex.ShardFiles | model_inspect/cli.py:67 | The shard set holds exactly the file names the weight map mentions. |
| ShardedIndex.ParsedHeaders | model_inspect/cli.py:66-68 | Every collected header is keyed by a file of the set, and it is that file's parse result. |
| ShardedIndex.ParsedHeadersAdd | model_inspect/cli.py:68 | Parsing one more file successfully adds exactly that file's header to the collection. |
| ShardedIndex.ShardRequestTargets | model_inspect/cli.py:67-68 | Every shard request goes to the URL of one of the shard files. |
| ShardedIndex.ParseShardHeaders | model_inspect/cli.py:66-68 | Visit order never repeats a file and stays within the set. The requests are those of the visited files, in visit order. The loop succeeds iff every file parses, and then all files were visited and the map is every file's header. Otherwise the last file visited is the first failure, and its error is returned. |
| ShardedIndex.AllHeaders | model_inspect/cli.py:66-68 | The collected headers are keyed by shard files, each that shard's parse result. |
| ShardedIndex.ParseShardedIndex | model_inspect/cli.py:59-70 | The index request comes first, then the shard requests. An index failure is returned without any shard fetch. Success holds iff the index decodes and every distinct shard parses. On success the headers are those of all shards, whatever the visit order. |
| Inspector.SingleFileLayers | model_inspect/cli.py:91-97 | The fallback sends exactly the requests of parsing `model.safetensors`. A parse error is its result; otherwise its result is the enumeration of that file's header, records or error. |
| Inspector.ShardLookupNeverMisses | model_inspect/cli.py:79 | Once every shard parses, `headers[filename]` finds a header for every weight-map entry. |
| Inspector.ShardedWalkErrors | model_inspect/cli.py:78-88 | Once every shard parses, the walk can fail only on a member without shape/dtype, never on a missing shard. |
| Inspector.ShardedUrlsAvoidSingleFile | model_inspect/cli.py:91 | The URL of `model.safetensors` is among the sharded path's URLs iff `model.safetensors` is itself a shard. |
| Inspector.ShardedRequestTargets | model_inspect/cli.py:59-70 | A sharded run requests only the index and the shards named by its weight map. |
| Inspector.GetModelLayers | model_inspect/cli.py:72-97 | The requests start with the index request, then parses of shard files, none repeated. If the sharded path succeeds, every shard file was parsed exactly once, its catalog is returned, and those are all the requests, so they go only to the index and the shards; `model.safetensors` is not fetched unless it is a shard. If any sharded step fails, the result, success or error, is exactly the single-file fallback's, and the fallback's requests follow the sharded ones. |

## Left out

- HTTP transport and JSON decoding are oracles in `Remote`. Redirects, streaming and
  the real response body come from `requests`, which is not part of this model.
- `main` (argument parsing, the PrettyTable rendering, the total and the float
  megabyte figure, printing and exit) is left out. It only consumes the record list.
- `setup.py` is packaging only.
- The `HEADERS` constant (model_inspect/cli.py line 16) is never used by the code
  and is not modelled. The revision is a field of `Remote`; its default `main` is
  the caller's concern.
- The code has no retries, backoff, timeouts, mirror URL override or concurrent
  shard fetching. The model sends one attempt per request and parses shards one
  after another.
- The code iterates a Python `set` of shard names, whose order is unspecified.
  `ShardedIndex.ParseShardHeaders` picks each next file arbitrarily, and all its
  guarantees hold for every order.
- `DTYPE_BYTES` has only the ten upper-case tags, so a tag such as `float32`
  counts as 1 byte per element, as `Dtypes.ByteWidthTable` states.
- A server that ignores the Range header and answers 200 with the whole file makes
  `struct.unpack('<Q', ...)` fail, because it needs exactly 8 bytes;
  `SingleFile.DecodeHeaderLength` rejects any prefix body of another length.
- SingleFile.BodyRange: for a declared length of 0 the source sends `bytes=8-7`. By
  section 2.1 of RFC 7233 that range is invalid, and a server ignores it and answers
  with the whole file (or with 416). The model states that the range is invalid for
  L = 0, but the decoder oracle does not model what that whole-file answer then
  decodes to.
- Decoded JSON is abstracted. Header members are either a tensor description
  (natural-number shape, string dtype) or something without shape/dtype, and a
  decoded header or index is always a JSON object. The source does not fail on
  everything outside this: a negative dimension gives a record with a negative
  size, and a shard header that is a JSON array lets `tensor_name in header` skip
  that shard's tensors silently, so the sharded path can succeed where the model's
  decoder returns `None` and the model falls back to the single file.
- JSON objects have unique keys, as a Python dict does. Which of several duplicate
  keys `json.loads` keeps is not modelled.
- Inspector.GetModelLayers: when the sharded path fails, the model does not keep
  its exception. In the source, an exception raised by the fallback carries the
  sharded exception as its `__context__`; only the printing in `main` drops it.
- Python exception types are collapsed into the `Error` constructors of `Types`.
  For example, a KeyError and a TypeError on a member without shape/dtype are both
  `NotATensorEntry`.
