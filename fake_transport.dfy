/**
 * The deterministic transport of test_github_api.py: canned responses (FakeResponse)
 * served by URL from a fixed map, and a session (FakeSession) that logs every request.
 * Response bodies are the decoded JSON the collector consumes.
 */
module FakeTransport {
  import opened Wrappers

  /** Response headers: a plain map with case-sensitive keys. */
  type Headers = map<string, string>

  /** Query parameters of one request (only integer values such as `per_page` occur). */
  type Params = map<string, int>

  /** The "name" key of a JSON object in a listing array. */
  datatype NameValue = NoNameKey | NullName | StringName(value: string)

  /** A JSON object inside an array body; only its "name" key is modelled. */
  datatype Entry = Entry(name: NameValue)

  /**
   * A decoded JSON body: an array of objects, or an object given by its keys in insertion
   * order. As in a Python dict, the keys of an object are distinct (`DistinctKeys`).
   */
  datatype Json = JsonArray(items: seq<Entry>) | JsonObject(keys: seq<string>)

  /** No key of an object body occurs twice. */
  predicate DistinctKeys(keys: seq<string>)
  {
    forall i, j :: 0 <= i < j < |keys| ==> keys[i] != keys[j]
  }

  /** Python's `len` on a decoded body: array elements, or object keys. */
  function Length(j: Json): nat
  {
    match j
    case JsonArray(items) => |items|
    case JsonObject(keys) => |keys|
  }

  /** Python truthiness of a decoded body: a list or dict is true when it is not empty. */
  predicate Truthy(j: Json)
  {
    Length(j) > 0
  }

  /** A canned response; its fields are set once, when it is made. */
  datatype FakeResponse = FakeResponse(statusCode: int, jsonData: Json, headers: Headers)
  {
    /** `json()` hands back the stored body. */
    function Json(): (j: Json)
      ensures j == jsonData
    {
      jsonData
    }
  }

  /** `FakeResponse(status_code, json_data, headers=None)`: missing headers become an empty map. */
  function NewFakeResponse(statusCode: int, jsonData: Json, headers: Option<Headers>): (r: FakeResponse)
    ensures r.statusCode == statusCode && r.Json() == jsonData
    ensures headers.None? ==> r.headers == map[]
    ensures headers.Some? ==> r.headers == headers.value
  {
    FakeResponse(statusCode, jsonData, if headers.Some? then headers.value else map[])
  }

  /** What the fake answers for an unknown URL: status 404 with body {"message": ...}. */
  const NotFoundResponse: FakeResponse := NewFakeResponse(404, JsonObject(["message"]), None)

  /**
   * The response the fake returns for `url`, looked up by exact URL (parameters play no
   * part): the canned one for a known URL; otherwise status 404, no headers, and a one-key
   * error object, which is truthy and whose `len` is 1.
   */
  function Respond(responsesByUrl: map<string, FakeResponse>, url: string): (r: FakeResponse)
    ensures url in responsesByUrl ==> r == responsesByUrl[url]
    ensures url !in responsesByUrl ==>
      r.statusCode == 404 && r.headers == map[] && r.Json().JsonObject? && DistinctKeys(r.Json().keys)
      && Length(r.Json()) == 1 && Truthy(r.Json())
  {
    if url in responsesByUrl then responsesByUrl[url] else NotFoundResponse
  }

  /** One logged request: the URL and the parameters (an empty map when none were passed). */
  datatype Call = Call(url: string, params: Params)

  class FakeSession {
    const responsesByUrl: map<string, FakeResponse>
    var calls: seq<Call>

    constructor (responsesByUrl: map<string, FakeResponse>)
      ensures this.responsesByUrl == responsesByUrl
      ensures calls == []
    {
      this.responsesByUrl := responsesByUrl;
      calls := [];
    }

    /** `get(url, params)`: logs the request, then answers from the canned map. */
    method Get(url: string, params: Option<Params>) returns (response: FakeResponse)
      modifies this`calls
      ensures calls == old(calls) + [Call(url, if params.Some? then params.value else map[])]
      ensures url in responsesByUrl ==> response == responsesByUrl[url]
      ensures url !in responsesByUrl ==>
        response.statusCode == 404 && response.Json() == JsonObject(["message"]) && response.headers == map[]
      ensures response == Respond(responsesByUrl, url)
    {
      calls := calls + [Call(url, if params.Some? then params.value else map[])];
      if url !in responsesByUrl {
        return NewFakeResponse(404, JsonObject(["message"]), None);
      }
      return responsesByUrl[url];
    }
  }
}
