/** The request gate `handler` (src/index.mjs:3-72): pick the API key the
    caller presented, reject a missing or wrong key with 401, reject a
    request without `accounts` with 400, and otherwise run
    `updateInviteLinks` and report its result with status 200.  An
    exception becomes 500. */
module Handler {
  import opened Base
  import opened Js
  import opened Store
  import opened Runner

  /** The environment variables the two source files read. */
  datatype Env = Env(apiKey: Option<string>, tableName: Option<string>)

  /** Every response carries the header `Content-Type: application/json`
      and the body `{"message": ...}`. */
  datatype Response = Response(statusCode: int, contentType: string, message: string)

  datatype Handled = Handled(response: Response, table: Table)

  const Json: string := "application/json"
  const Unauthorized: string := "Unauthorized: Invalid or missing API key"
  const BadRequest: string := "Bad Request: Missing accounts"
  const Succeeded: string := "Groups and invite links updated successfully"
  const Failed: string := "Failed to update groups and invite links"
  const ServerError: string := "Error processing request"

  /** src/index.mjs:8-12: `event.apiKey` when truthy, otherwise
      `event.headers?.["x-api-key"] || event.headers?.["X-Api-Key"]`. */
  function ProvidedKey(event: Value): (r: Value)
    requires !IsNullish(event)
    ensures Truthy(Prop(event, "apiKey").value) ==> r == Prop(event, "apiKey").value
    ensures !Truthy(Prop(event, "apiKey").value) && Truthy(OptionalProp(Prop(event, "headers").value, "x-api-key"))
            ==> r == OptionalProp(Prop(event, "headers").value, "x-api-key")
    ensures !Truthy(Prop(event, "apiKey").value) && !Truthy(OptionalProp(Prop(event, "headers").value, "x-api-key"))
            ==> r == OptionalProp(Prop(event, "headers").value, "X-Api-Key")
  {
    var apiKey := Prop(event, "apiKey").value;
    if Truthy(apiKey) then apiKey
    else
      var headers := Prop(event, "headers").value;
      var lower := OptionalProp(headers, "x-api-key");
      if Truthy(lower) then lower else OptionalProp(headers, "X-Api-Key")
  }

  /** The configured key as a JavaScript value: unset reads as `undefined`. */
  function Expected(apiKey: Option<string>): Value {
    if apiKey.Some? then Str(apiKey.value) else Undefined
  }

  /** The negation of `!providedApiKey || providedApiKey !== expectedApiKey`.
      The expected value is a string or `undefined`, so strict equality is
      equality of the modelled values. */
  predicate Authorized(provided: Value, apiKey: Option<string>) {
    Truthy(provided) && provided == Expected(apiKey)
  }

  function Reply(status: int, message: string): Response {
    Response(status, Json, message)
  }

  /** `handler(event)` with environment `env`, against the main table `t`. */
  function Handle(env: Env, be: Backend, t: Table, event: Value): (r: Handled)
    ensures IsNullish(event) ==> r == Handled(Reply(500, ServerError), t)
    ensures !IsNullish(event) && !Authorized(ProvidedKey(event), env.apiKey)
            ==> r == Handled(Reply(401, Unauthorized), t)
    ensures !IsNullish(event) && Authorized(ProvidedKey(event), env.apiKey) && !Truthy(Prop(event, "accounts").value)
            ==> r == Handled(Reply(400, BadRequest), t)
    ensures !IsNullish(event) && Authorized(ProvidedKey(event), env.apiKey) && Truthy(Prop(event, "accounts").value)
            ==> var run := UpdateInviteLinks(be, env.tableName, t, event);
                r == Handled(Reply(200, if run.ok then Succeeded else Failed), run.table)
  {
    if IsNullish(event) then Handled(Reply(500, ServerError), t)
    else if !Authorized(ProvidedKey(event), env.apiKey) then Handled(Reply(401, Unauthorized), t)
    else if !Truthy(Prop(event, "accounts").value) then Handled(Reply(400, BadRequest), t)
    else
      var run := UpdateInviteLinks(be, env.tableName, t, event);
      Handled(Reply(200, if run.ok then Succeeded else Failed), run.table)
  }

  /** Every response is one of four: 500, 401, 400, or 200 with either result
      message; and only a 200 response follows a change to storage. */
  lemma ResponsesAreFixed(env: Env, be: Backend, t: Table, event: Value)
    ensures var r := Handle(env, be, t, event).response;
      || r == Reply(500, ServerError)
      || r == Reply(401, Unauthorized)
      || r == Reply(400, BadRequest)
      || r == Reply(200, Succeeded)
      || r == Reply(200, Failed)
    ensures Handle(env, be, t, event).table != t ==> Handle(env, be, t, event).response.statusCode == 200
  {
  }

  /** The request gets past the key check exactly when the presented key is a
      non-empty string equal to the configured key. */
  lemma AuthorizedIff(env: Env, be: Backend, t: Table, event: Value)
    requires !IsNullish(event)
    ensures Handle(env, be, t, event).response.statusCode != 401
        <==> exists k :: k != "" && env.apiKey == Some(k) && ProvidedKey(event) == Str(k)
  {
    if Authorized(ProvidedKey(event), env.apiKey) {
      assert env.apiKey.Some?;
      var k := env.apiKey.value;
      assert ProvidedKey(event) == Str(k) && k != "";
    }
  }

  /** With the key unset or empty, every request is refused. */
  lemma UnsetKeyRefusesAll(env: Env, be: Backend, t: Table, event: Value)
    requires env.apiKey == None || env.apiKey == Some("")
    ensures Handle(env, be, t, event).response.statusCode in {401, 500}
    ensures Handle(env, be, t, event).table == t
  {
  }

  /** The message reports success exactly when `updateInviteLinks` returned true. */
  lemma SuccessIffRunOk(env: Env, be: Backend, t: Table, event: Value)
    requires !IsNullish(event) && Authorized(ProvidedKey(event), env.apiKey) && Truthy(Prop(event, "accounts").value)
    ensures Handle(env, be, t, event).response.message == Succeeded
        <==> UpdateInviteLinks(be, env.tableName, t, event).ok
  {
  }

  /** A truthy `accounts` that is not a non-empty array passes the 400 check
      but fails in `updateInviteLinks`: status 200 with the failure message,
      and storage untouched. */
  lemma MalformedAccountsReportFailure(env: Env, be: Backend, t: Table, event: Value)
    requires !IsNullish(event) && Authorized(ProvidedKey(event), env.apiKey)
    requires Truthy(Prop(event, "accounts").value) && !AccountsValid(event)
    ensures Handle(env, be, t, event) == Handled(Reply(200, Failed), t)
  {
  }

  /** A truthy `event.apiKey` is used even when a header carries the right
      key: the event below presents "wrong" and is refused. */
  lemma ApiKeyTakesPrecedence()
    ensures var headers := Obj(Dict(["x-api-key"], map["x-api-key" := Str("secret")]));
      var event := Obj(Dict(["apiKey", "headers"], map["apiKey" := Str("wrong"), "headers" := headers]));
      Handle(Env(Some("secret"), Some("main")), Backend(map[], (_, _) => [], map[], _ => "now"), map[], event).response
        == Reply(401, Unauthorized)
  {
    var headers := Obj(Dict(["x-api-key"], map["x-api-key" := Str("secret")]));
    var event := Obj(Dict(["apiKey", "headers"], map["apiKey" := Str("wrong"), "headers" := headers]));
    assert Prop(event, "apiKey") == Ok(Str("wrong"));
    assert ProvidedKey(event) == Str("wrong");
  }
}
