/** The request handler and the start-up address choice of the echo service
    (main.go): flattening the request's form and header multimaps into
    single-valued maps, copying the request line fields, and choosing the
    listen address from the `-env` flag and the `PORT` variable. */
module Echo {
  import Util

  /** A name -> list-of-values collection, as Go's `http.Header` and
      `url.Values` store headers and form fields. */
  type Multimap = map<string, seq<string>>

  /** The parts of an inbound request the handler reads. `encodedQuery`
      stands for `req.URL.Query().Encode()`, computed by `net/url`. */
  datatype Request = Request(
    httpMethod: string,
    requestUri: string,
    host: string,
    encodedQuery: string,
    form: Multimap,
    header: Multimap)

  /** The reflected document `rootHandler` fills in (`echoResponse`). */
  datatype EchoResponse = EchoResponse(
    httpMethod: string,
    uri: string,
    host: string,
    port: string,
    path: string,
    query: string,
    body: string,
    form: map<string, string>,
    headers: map<string, string>)

  /** The names whose value list is non-empty. */
  function NonEmptyNames(multi: Multimap): set<string>
  {
    set name | name in multi && |multi[name]| > 0
  }

  /** `flat` is `multi` with each name's list replaced by its final value;
      names with an empty list are absent. */
  predicate FlattenedFrom(multi: Multimap, flat: map<string, string>)
  {
    && flat.Keys == NonEmptyNames(multi)
    && forall name :: name in flat ==> flat[name] == multi[name][|multi[name]| - 1]
  }

  /** The nested loops of `rootHandler` over `req.Form` and `req.Header`:
      every value of every name is written in turn, so the last one stays.
      Go visits the names in no fixed order; the next name is chosen
      arbitrarily here. */
  method Flatten(multi: Multimap) returns (flat: map<string, string>)
    ensures FlattenedFrom(multi, flat)
  {
    flat := map[];
    var todo := multi.Keys;
    while todo != {}
      invariant todo <= multi.Keys
      invariant flat.Keys == NonEmptyNames(multi) - todo
      invariant forall name :: name in flat ==> flat[name] == multi[name][|multi[name]| - 1]
      decreases todo
    {
      var name :| name in todo;
      var values := multi[name];
      ghost var before := flat;
      for j := 0 to |values|
        invariant flat.Keys == before.Keys + (if j > 0 then {name} else {})
        invariant j > 0 ==> flat[name] == values[j - 1]
        invariant forall other :: other in before && other != name ==> other in flat && flat[other] == before[other]
      {
        flat := flat[name := values[j]];
      }
      todo := todo - {name};
    }
  }

  /** The flattened map does not depend on the order in which the names
      were visited: `FlattenedFrom` admits one map only. */
  lemma FlattenedUnique(multi: Multimap, a: map<string, string>, b: map<string, string>)
    requires FlattenedFrom(multi, a) && FlattenedFrom(multi, b)
    ensures a == b
  {
    forall name | name in a
      ensures name in b && a[name] == b[name]
    {
    }
  }

  /** A header sent twice keeps its second value. */
  lemma FlattenRepeatedHeader(flat: map<string, string>)
    requires FlattenedFrom(map["X-Test" := ["one", "two"]], flat)
    ensures flat == map["X-Test" := "two"]
  {
    var multi := map["X-Test" := ["one", "two"]];
    assert NonEmptyNames(multi) == {"X-Test"};
    assert flat["X-Test"] == "two";
  }

  /** `rootHandler` up to the JSON write: the request line fields are
      copied verbatim, `Host` keeps any `:port`, the form and the headers
      are flattened, and the body is empty because the read goes into a nil
      slice. `Port` and `Path` are never assigned and stay empty. */
  method RootHandler(req: Request) returns (response: EchoResponse)
    ensures response.httpMethod == req.httpMethod
    ensures response.uri == req.requestUri
    ensures response.host == req.host
    ensures response.query == req.encodedQuery
    ensures response.port == "" && response.path == ""
    ensures response.body == ""
    ensures FlattenedFrom(req.form, response.form)
    ensures FlattenedFrom(req.header, response.headers)
  {
    response := EchoResponse(
      httpMethod := req.httpMethod,
      uri := req.requestUri,
      host := req.host,
      port := "",
      path := "",
      query := req.encodedQuery,
      body := "-",
      form := map[],
      headers := map[]);

    // Reading into a nil slice copies no bytes.
    var body: string := [];
    response := response.(body := body);

    var form := Flatten(req.form);
    response := response.(form := form);

    var headers := Flatten(req.header);
    response := response.(headers := headers);
  }

  /** The port used when `PORT` is unset or empty. */
  const DefaultPort := "8080"

  /** The listen address `main` computes from the `-env` flag, the `-port`
      flag and the value of `PORT`. The `-port` flag is parsed but unused. */
  method ListenAddress(envFlag: string, portFlag: int, portValue: string) returns (listen: string)
    ensures var port := if portValue == "" then DefaultPort else portValue;
      listen == (if envFlag == "dev" then "localhost:" else ":") + port
    ensures var port := if portValue == "" then DefaultPort else portValue;
      Util.Split(listen, ":") == (if envFlag == "dev" then "localhost" else "", port)
  {
    var portEnv := portValue;
    if portEnv == "" {
      portEnv := DefaultPort;
    }

    if envFlag == "dev" {
      listen := "localhost:" + portEnv;
    } else {
      listen := ":" + portEnv;
    }
    var host := if envFlag == "dev" then "localhost" else "";
    Util.SplitCharRoundTrip(host, ':', portEnv);
    assert listen == host + [':'] + portEnv;
  }
}
