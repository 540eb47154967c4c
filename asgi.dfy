/**
 The ASGI values the middleware reads: the connection scope, the messages
 the wrapped application sends, and the Python values a state bag can hold.
 */
module Asgi {
  import opened Wrappers
  import opened PyDict
  import opened Text

  /** A Python value as it can sit in the request state or in a message. */
  datatype Value =
    | Null
    | Bool(b: bool)
    | Int(i: int)
    | Str(s: string)
    | Bytes(bs: seq<byte>)
    | List(items: seq<Value>)
    | Object(entries: Dict<Value>)

  /** Python truthiness (`bool(v)`): None, False, 0 and empty containers are falsy. */
  predicate Truthy(v: Value) {
    match v
    case Null => false
    case Bool(b) => b
    case Int(i) => i != 0
    case Str(s) => s != []
    case Bytes(bs) => bs != []
    case List(items) => items != []
    case Object(entries) => entries != []
  }

  /** The scope's `client` pair: the peer's host and port. */
  datatype Client = Client(host: string, port: int)

  /**
   The connection scope. `kind` is `scope["type"]`; `httpMethod` and `path`
   are `scope.get("method")` and `scope.get("path")`; `headers` are the raw
   (name, value) byte pairs, a missing list being the empty one; `client` and
   `state` are absent or present.
   */
  datatype Scope = Scope(
    kind: string,
    httpMethod: Option<string>,
    path: Option<string>,
    headers: seq<(seq<byte>, seq<byte>)>,
    client: Option<Client>,
    state: Option<Dict<Value>>)

  /** The message type that carries the response status. */
  const ResponseStart: string := "http.response.start"

  /** One message sent by the application: its `type`, `message.get("status")`, and every other key. */
  datatype Message = Message(kind: string, status: Option<int>, rest: Dict<Value>)
}
