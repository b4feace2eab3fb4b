/** The HTTP client of the controller: `createRequest` (py_modules/sunshine.py:30-47),
    `request` (120-133) and `isAuthorized` (142-152). The network is a
    parameter: a `Server` maps the request that was built to what came back. */
module Http {
  import opened Basics
  import Utf8

  /** A JSON value as far as this module looks into one. */
  datatype JsonValue = JString(text: string) | JNull | JOther

  /** A Python dict sent as a JSON object, keys in insertion order. */
  type Payload = seq<(string, JsonValue)>

  datatype Request = Request(url: string, headers: seq<(string, string)>, body: Option<Payload>)

  /** What the HTTPS exchange produced: no answer at all (connection, TLS or
      any other error), or a status code and the raw response body. */
  datatype Exchange = Unreachable | Answered(status: int, body: seq<byte>)

  type Server = Request -> Exchange

  const Origin: string := "https://127.0.0.1:47990"

  /** The headers every request carries before the `Authorization` header. */
  const FixedHeaders: seq<(string, string)> := [
    ("User-Agent", "decky-sunshine"),
    ("Connection", "keep-alive"),
    ("Accept", "application/json, */*; q=0.01")
  ]

  /** Python truthiness of the optional `data` argument: `None` and `{}` are false. */
  predicate Truthy(data: Option<Payload>) {
    data.Some? && |data.value| > 0
  }

  /** The value of the first header called `name`. */
  function Lookup(headers: seq<(string, string)>, name: string): (r: Option<string>)
    ensures r.Some? <==> exists i :: 0 <= i < |headers| && headers[i].0 == name
  {
    if headers == [] then None
    else if headers[0].0 == name then Some(headers[0].1)
    else Lookup(headers[1..], name)
  }

  lemma {:induction false} LookupAppend(a: seq<(string, string)>, b: seq<(string, string)>, name: string)
    ensures Lookup(a + b, name) == if Lookup(a, name).Some? then Lookup(a, name) else Lookup(b, name)
  {
    if a != [] {
      assert (a + b)[1..] == a[1..] + b;
      LookupAppend(a[1..], b, name);
    } else {
      assert a + b == b;
    }
  }

  /** `urllib` sends a request that carries data as a POST and any other as a GET. */
  function Method(r: Request): string {
    if r.body.Some? then "POST" else "GET"
  }

  function CreateRequest(path: string, authHeader: string, data: Option<Payload>): (r: Request)
    ensures r.url == Origin + path
    ensures |r.headers| >= |FixedHeaders| && r.headers[..|FixedHeaders|] == FixedHeaders
    ensures |r.headers| == |FixedHeaders| + (if Truthy(data) then 2 else 1)
    ensures Lookup(r.headers, "Authorization") == Some(authHeader)
    ensures Lookup(r.headers, "Content-Type").Some? <==> Truthy(data)
    ensures Truthy(data) ==> Lookup(r.headers, "Content-Type") == Some("application/json")
    ensures r.body.Some? <==> Truthy(data)
    ensures r.body.Some? ==> r.body == data
    ensures Method(r) == (if Truthy(data) then "POST" else "GET")
  {
    var auth := [("Authorization", authHeader)];
    var json := [("Content-Type", "application/json")];
    assert Lookup(FixedHeaders, "Authorization") == None;
    assert Lookup(FixedHeaders, "Content-Type") == None;
    assert Lookup(auth, "Content-Type") == None;
    LookupAppend(FixedHeaders, auth, "Authorization");
    LookupAppend(FixedHeaders, auth, "Content-Type");
    var headers := FixedHeaders + auth;
    assert headers[..|FixedHeaders|] == FixedHeaders;
    if Truthy(data) then
      LookupAppend(headers, json, "Authorization");
      LookupAppend(headers, json, "Content-Type");
      assert (headers + json)[..|FixedHeaders|] == FixedHeaders;
      Request(Origin + path, headers + json, data)
    else
      Request(Origin + path, headers, None)
  }

  /** A 2xx answer; `urlopen` raises for every other status. */
  predicate Succeeded(e: Exchange) {
    e.Answered? && 200 <= e.status < 300
  }

  /** `request(path, data)`: the decoded body of a successful answer, and the
      empty string for every failure, including a body that is not UTF-8. */
  function Fetch(authHeader: string, path: string, data: Option<Payload>, server: Server): (r: string)
    ensures var e := server(CreateRequest(path, authHeader, data));
      r != "" ==> Succeeded(e) && Utf8.Encode(r) == e.body
    ensures var e := server(CreateRequest(path, authHeader, data));
      Succeeded(e) && Utf8.Decode(e.body).Some? ==> Utf8.Encode(r) == e.body
    ensures !Succeeded(server(CreateRequest(path, authHeader, data))) ==> r == ""
  {
    var e := server(CreateRequest(path, authHeader, data));
    if Succeeded(e) then
      match Utf8.Decode(e.body)
      case Some(text) =>
        Utf8.EncodeDecode(e.body, text);
        text
      case None => ""
    else ""
  }

  /** Seen from the wire: `request` returns non-empty text exactly when a 2xx
      answer carries a non-empty UTF-8 body, and the text is that body decoded. */
  lemma FetchReadsBody(authHeader: string, path: string, data: Option<Payload>, server: Server)
    ensures var e := server(CreateRequest(path, authHeader, data));
      var r := Fetch(authHeader, path, data, server);
      && (r != "" <==> Succeeded(e) && Utf8.Decode(e.body).Some? && Utf8.Decode(e.body).value != "")
      && (r != "" ==> Utf8.Decode(e.body) == Some(r))
  {
    var r := Fetch(authHeader, path, data, server);
    Utf8.DecodeEncode(r);
  }

  /** `isAuthorized()`: a GET of the apps listing answered with status 200
      exactly; other 2xx codes and every failure give false. */
  function IsAuthorized(authHeader: string, server: Server): (r: bool)
    ensures var q := CreateRequest("/api/apps", authHeader, None);
      && q.url == Origin + "/api/apps" && Method(q) == "GET"
      && (r <==> server(q).Answered? && server(q).status == 200)
  {
    var q := CreateRequest("/api/apps", authHeader, None);
    match server(q)
    case Answered(status, _) => status == 200
    case Unreachable => false
  }

  /** What `json.loads(text)["status"]` gives: an exception (text that is not
      JSON, or JSON that is not an object), an object without `status`
      (a `KeyError`), or the value of the field. */
  datatype JsonReply = Malformed | NoStatus | WithStatus(value: JsonValue)

  /** The JSON reader, which this model does not implement. */
  type Json = string -> JsonReply
}
