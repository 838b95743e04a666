/** The remote repository: URL formatting, the request a fetch sends, and the
    answer a fetch yields. The network and the JSON decoder are oracles. */
module Http {
  import opened Types

  const SafetensorsFile := "model.safetensors"
  const SafetensorsIndexFile := "model.safetensors.index.json"

  /** One GET: the resolved URL and the value of its Range header, if one is sent. */
  datatype Request = Request(url: string, range: Option<string>)

  datatype Response = Response(status: nat, content: seq<Byte>)

  /** A repository at a revision, with what the outside world answers:
      `transport` is requests.get (None when it raises), `decodeHeader` and
      `decodeIndex` are json.loads of a header body and of the index file followed by
      its "weight_map" lookup (None when either raises). */
  datatype Remote = Remote(
    repo: string,
    revision: string,
    transport: Request -> Option<Response>,
    decodeHeader: seq<Byte> -> Option<Header>,
    decodeIndex: seq<Byte> -> Option<WeightMap>)

  /** HF_URL.format(repo=..., revision=..., filename=...). */
  function FileUrl(repo: string, revision: string, filename: string): (url: string)
    ensures |url| >= |filename| && url[|url| - |filename|..] == filename
  {
    var prefix := "https://huggingface.co/" + repo + "/resolve/" + revision + "/";
    var url := prefix + filename;
    assert url[|prefix|..] == filename;
    url
  }

  /** Within one repository and revision, distinct files have distinct URLs. */
  lemma FileUrlInjective(repo: string, revision: string, f: string, g: string)
    ensures FileUrl(repo, revision, f) == FileUrl(repo, revision, g) <==> f == g
  {
    var prefix := "https://huggingface.co/" + repo + "/resolve/" + revision + "/";
    assert FileUrl(repo, revision, f) == prefix + f;
    assert FileUrl(repo, revision, g) == prefix + g;
    assert f == (prefix + f)[|prefix|..];
    assert g == (prefix + g)[|prefix|..];
  }

  /** The request get_file_response sends: a Range header only for a non-empty range value. */
  function FileRequest(remote: Remote, filename: string, rangeHeader: Option<string>): (q: Request)
    ensures q.url == FileUrl(remote.repo, remote.revision, filename)
    ensures q.range.Some? <==> rangeHeader.Some? && rangeHeader.value != ""
    ensures q.range.Some? ==> q.range == rangeHeader
  {
    var range := if rangeHeader.Some? && rangeHeader.value != "" then rangeHeader else None;
    Request(FileUrl(remote.repo, remote.revision, filename), range)
  }

  /** get_file_response(...).content: the body of a response that raise_for_status
      lets through, i.e. one whose status is not in [400, 600). */
  function GetFileResponse(remote: Remote, q: Request): (r: Result<seq<Byte>>)
    ensures r.Ok? <==> remote.transport(q).Some? && !(400 <= remote.transport(q).value.status < 600)
    ensures r.Ok? ==> r.value == remote.transport(q).value.content
    ensures r.Err? && remote.transport(q).Some? ==> r.error == HttpStatus(remote.transport(q).value.status)
    ensures remote.transport(q).None? ==> r == Err(ConnectionFailed(q.url))
  {
    match remote.transport(q)
    case None => Err(ConnectionFailed(q.url))
    case Some(response) =>
      if 400 <= response.status < 600 then Err(HttpStatus(response.status))
      else Ok(response.content)
  }
}
