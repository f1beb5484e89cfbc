/** The http/json metricset: turning a decoded JSON body and the HTTP exchange
    that produced it into an event (the post-decode half of Fetch). */
module HttpJson {
  import opened Values
  import opened Headers

  /** mb.ModuleData: the event key under which a metricset stores module-level
      data. */
  const ModuleData: string := "_module"

  /** The event key that carries the configured namespace. */
  const NamespaceKey: string := "_namespace"

  /** The MetricSet's resolved configuration, as far as Fetch reads it. */
  datatype Config = Config(
    namespace: string,
    body: string,
    requestEnabled: bool,
    responseEnabled: bool)

  /** What Fetch reads from the http.Response: its status code and header, and
      the method and header of the request as it was sent. */
  datatype Response = Response(
    statusCode: int,
    header: Header,
    requestMethod: string,
    requestHeader: Header)

  /** A common.MapStr event. */
  type Event = map<string, Value>

  /** The value stored under ModuleData when request metadata is enabled:
      a request sub-object only, with no response sub-object. */
  function RequestMetadata(headers: map<string, string>, requestMethod: string, body: string): (r: Value)
    ensures r.Object? && r.fields.Keys == {"request"}
    ensures r.fields["request"].Object?
    ensures r.fields["request"].fields.Keys == {"headers", "method", "body"}
  {
    Object(map["request" := Object(map[
      "headers" := StringMap(headers),
      "method" := Str(requestMethod),
      "body" := Str(body)])])
  }

  /** The value stored under ModuleData when response metadata is enabled:
      a response sub-object only, with no request sub-object. */
  function ResponseMetadata(statusCode: int, headers: map<string, string>): (r: Value)
    ensures r.Object? && r.fields.Keys == {"response"}
    ensures r.fields["response"].Object?
    ensures r.fields["response"].fields.Keys == {"status_code", "headers"}
  {
    Object(map["response" := Object(map[
      "status_code" := Int(statusCode),
      "headers" := StringMap(headers)])])
  }

  /** Fetch, from the outcome of json.Unmarshal on. A decode error is returned
      as it is, with no event. Otherwise the decoded object is updated in place:
      request metadata, then response metadata, under the same key (the later
      write wins), and last the namespace, replacing whatever the body held
      under those keys. */
  method Fetch(m: Config, decoded: Result<Event>, response: Response) returns (r: Result<Event>)
    ensures r.Err? <==> decoded.Err?
    ensures decoded.Err? ==> r == Err(decoded.error)
    ensures r.Ok? ==> (r.value.Keys == decoded.value.Keys + {NamespaceKey} +
                        (if m.requestEnabled || m.responseEnabled then {ModuleData} else {}))
    ensures r.Ok? ==> r.value[NamespaceKey] == Str(m.namespace)
    ensures r.Ok? ==> forall k :: k in decoded.value && k != ModuleData && k != NamespaceKey ==>
      r.value[k] == decoded.value[k]
    ensures r.Ok? && m.responseEnabled ==>
      r.value[ModuleData] == ResponseMetadata(response.statusCode, FlattenHeader(response.header))
    ensures r.Ok? && m.requestEnabled && !m.responseEnabled ==>
      r.value[ModuleData] ==
        RequestMetadata(FlattenHeader(response.requestHeader), response.requestMethod, m.body)
    ensures r.Ok? && !m.requestEnabled && !m.responseEnabled && ModuleData in decoded.value ==>
      r.value[ModuleData] == decoded.value[ModuleData]
  {
    if decoded.Err? {
      return Err(decoded.error);
    }
    var event := decoded.value;

    if m.requestEnabled {
      var headers := GetHeaders(response.requestHeader);
      FlattenHeaderDetermined(response.requestHeader, headers);
      event := event[ModuleData := RequestMetadata(headers, response.requestMethod, m.body)];
    }

    if m.responseEnabled {
      var headers := GetHeaders(response.header);
      FlattenHeaderDetermined(response.header, headers);
      event := event[ModuleData := ResponseMetadata(response.statusCode, headers)];
    }

    event := event[NamespaceKey := Str(m.namespace)];
    return Ok(event);
  }

  /** A status-200 response with body {"value": 42}, one Content-Type header
      and response metadata enabled gives the body plus the namespace and the
      response metadata, and nothing else. */
  method ResponseScenario() returns (r: Result<Event>)
    ensures r == Ok(map[
      "value" := Float(0x4045_0000_0000_0000),
      NamespaceKey := Str("test"),
      ModuleData := ResponseMetadata(200, map["Content-Type" := "application/json"])])
  {
    var m := Config("test", "", false, true);
    var header := map["Content-Type" := ["application/json"]];
    var response := Response(200, header, "GET", map[]);
    r := Fetch(m, Ok(map["value" := Float(0x4045_0000_0000_0000)]), response);
    FlattenHeaderSingle("Content-Type", "application/json");
    var expected := map[
      "value" := Float(0x4045_0000_0000_0000),
      NamespaceKey := Str("test"),
      ModuleData := ResponseMetadata(200, map["Content-Type" := "application/json"])];
    assert r.value.Keys == expected.Keys;
    assert r.value["value"] == expected["value"];
    assert r.value[NamespaceKey] == expected[NamespaceKey];
    assert r.value[ModuleData] == expected[ModuleData];
    assert r.value == expected;
  }
}
