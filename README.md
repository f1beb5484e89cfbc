# http/json metricset: event assembly and header flattening

This project models the data-shaping core of Metricbeat's `http/json` metricset
(`metricbeat/module/http/json/json.go`). The metricset polls an HTTP endpoint and
decodes the response body as a JSON object. It turns that object into an event.
Depending on configuration it stores request or response metadata under the
module-data key `_module` (`mb.ModuleData`). It always stamps the configured
namespace under `_namespace`.

The model has four modules:

- `Strings` (`strings.dfy`): Go's `strings.TrimRight`. The model gives it a
  contract that fully characterises its result, and proves that the contract
  determines the result.
- `Values` (`values.dfy`): the values an event holds. These are the JSON values
  `encoding/json` decodes into `interface{}`, plus Go `int`s and
  `map[string]string`s. It also holds the decode error and a `Result` type.
- `Headers` (`headers.dfy`): `getHeaders`. The method `GetHeaders` visits the
  header names of an `http.Header` in an unspecified order, as Go's map `range`
  does. It runs the inner accumulation loop and trims the result. It is proved
  against `Flatten`. `Flatten` is in turn related to an independent reference
  join (`Join`).
- `HttpJson` (`httpjson.dfy`): the configuration, the response record, and
  `Fetch` from `json.Unmarshal` on. `Fetch` updates the decoded map one keyed
  write at a time, as the Go code does.

Two details of the flattening are easy to misread, and the model follows the code in both:

- Values are joined with `" ,"` (space, then comma), not with a comma and a space.
- The trailing separator is removed with `strings.TrimRight(value, " ,")`. That
  call takes a character set, not a suffix. So every trailing space and comma
  goes, including ones that belong to the last value itself: `["a,"]` flattens
  to `"a"`, and `["a", ""]` flattens to `"a"`. A single value therefore flattens
  to exactly itself only when it does not end in a space or a comma.

## Model

| member | source | states |
|---|---|---|
| `Strings.TrimRight` | metricbeat/module/http/json/json.go:146 | the result is a prefix of the input; it does not end in a cutset character; every character removed is in the cutset |
| `Strings.TrimRightUnique` | metricbeat/module/http/json/json.go:146 | any string with those three properties equals `TrimRight`'s result, so the contract pins the result down |
| `Strings.TrimRightAbsorbs` | metricbeat/module/http/json/json.go:144-146 | appending cutset characters to a string does not change what `TrimRight` returns |
| `Headers.Flatten` | metricbeat/module/http/json/json.go:142-146 | a flattened value never ends in a space or a comma; an empty value list flattens to `""` |
| `Headers.FlattenHeader` | metricbeat/module/http/json/json.go:140-148 | exactly one entry per header name; each entry is that name's values joined with `" ,"` and then stripped of all trailing spaces and commas, so no entry ends in either |
| `Headers.GetHeaders` | metricbeat/module/http/json/json.go:138-150 | the returned map has exactly the input's header names as keys, and each maps to the flattened value, whatever order the names are visited in |
| `Headers.FlattenHeaderDetermined` | metricbeat/module/http/json/json.go:138-150 | those two properties of `GetHeaders`' result determine it: it is `FlattenHeader` of the input |
| `Headers.Accumulated` | metricbeat/module/http/json/json.go:142-145 | the inner loop's accumulator; for a non-empty value list it always ends in the separator `" ,"`, which is why the trim is needed |
| `Headers.AccumulatedIsJoin` | metricbeat/module/http/json/json.go:142-145 | for a non-empty list, the inner loop builds the values joined by `" ,"` followed by one trailing `" ,"` |
| `Headers.FlattenIsTrimmedJoin` | metricbeat/module/http/json/json.go:142-146 | flattening equals joining the values with `" ,"` and then trimming all trailing spaces and commas |
| `Headers.FlattenOfCleanValues` | metricbeat/module/http/json/json.go:143-146 | if the last value is non-empty and ends in neither a space nor a comma, the flattened value is exactly the join, with no trailing separator |
| `Headers.FlattenSingle` | metricbeat/module/http/json/json.go:143-146 | a single value flattens to itself with trailing spaces and commas trimmed, and to exactly itself when it ends in neither |
| `Headers.FlattenHeaderSingle` | metricbeat/module/http/json/json.go:140-148 | a header with one value that ends in neither a space nor a comma flattens to that value unchanged |
| `Headers.FlattenExamples` | metricbeat/module/http/json/json.go:140-148 | `["a","b"]` gives `"a ,b"`; `["a,"]` gives `"a"`; `["a",""]` gives `"a"`; `[]` gives `""` |
| `HttpJson.RequestMetadata` | metricbeat/module/http/json/json.go:114-120 | builds the request object literally; its contract states the shape: only a `request` sub-object, holding exactly `headers`, `method` and `body` |
| `HttpJson.ResponseMetadata` | metricbeat/module/http/json/json.go:124-129 | builds the response object literally; its contract states the shape: only a `response` sub-object, holding exactly `status_code` and `headers` |
| `HttpJson.Fetch` | metricbeat/module/http/json/json.go:106-135 | a decode error is returned unchanged with no event. On success, the event's keys are the body's keys, plus `_namespace`, plus `_module` when either flag is set. `_namespace` holds the configured namespace. Every other body key keeps its value. With response metadata on, `_module` is exactly the response object (status code, flattened response headers), whatever the request flag says. With only request metadata on, `_module` is exactly the request object (flattened request headers, request method, configured body). With both off, the body's own `_module` value survives |
| `HttpJson.ResponseScenario` | metricbeat/module/http/json/json.go:111-135 | status 200, body `{"value": 42}`, one `Content-Type` header and response metadata on give exactly the body plus `_namespace` and the response object |

## Left out

- Registration with `mb.Registry` and the host parser (json.go:18-38): global start-up side effects and a foreign URL parser.
- `New` (json.go:57-86): config unpacking, the required-namespace validation, logging and HTTP helper set-up. The model takes the resolved configuration as a `Config` value.
- `FetchResponse`, `ioutil.ReadAll` and closing the body (json.go:93-104): network I/O and resource release. Their error returns are not modelled.
- `json.Unmarshal`: the byte-level JSON parser is foreign. Its outcome is an input to `Fetch`, either a decoded object or a decode error. A top-level non-object value is one of the decode errors.
- A body of literal `null`: Go decodes it without error into a nil map, and the map writes that follow would panic. The model's successful decode is always a non-nil object, so it makes no claim about this case.
- JSON numbers are kept as opaque float64 bit patterns; no floating-point arithmetic is modelled.
- `mb.ModuleData` comes from the metricbeat framework, which is not part of this model; its value `"_module"` is written in as a constant.
- Go map iteration order in `getHeaders` is not modelled beyond being unspecified. The result is a map, so the order does not affect it.
- `Strings.TrimRight` works on characters, whereas Go's works on UTF-8 runes of a byte string. The cutset `" ,"` is ASCII, so this makes no difference here.
