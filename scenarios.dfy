/**
 The scenarios of the repository's test suite, as lemmas about the model.
 */
module Scenarios {
  import opened Wrappers
  import opened PyDict
  import opened Text
  import opened Asgi
  import opened RequestLog
  import opened Middleware

  /** The success test's forwarding header holds a single address, which is kept. */
  lemma SingleForwardedAddress()
    ensures FirstForwardedAddress("203.0.113.1") == "203.0.113.1"
  {
    StripUnchanged("203.0.113.1");
    FirstHopOfChain("203.0.113.1", "");
  }

  /** A forwarding chain of a client and a proxy yields the client. */
  lemma ForwardedChainFirstHop()
    ensures FirstForwardedAddress("203.0.113.1, 70.41.3.18") == "203.0.113.1"
  {
    StripUnchanged("203.0.113.1");
    ChainSpelling();
    FirstHopOfChain("203.0.113.1", " 70.41.3.18");
  }

  /** The chain written out is the client, a comma and the rest. */
  lemma ChainSpelling()
    ensures "203.0.113.1" + "," + " 70.41.3.18" == "203.0.113.1, 70.41.3.18"
  {
  }

  /** The error test's error info, as the application leaves it in the state bag. */
  function ErrorTestInfo(): Value {
    Object([("code", Str("TEST_ERROR")), ("message", Str("An error occurred")),
            ("stack_trace", List([Str("trace1"), Str("trace2")]))])
  }

  /**
   The error test's projection: the error info under the default name,
   projected through the default table.
   */
  lemma DefaultErrorProjection()
    ensures var error := ErrorField(ErrorInfo(Some([(DefaultErrorInfoName, ErrorTestInfo())]), DefaultErrorInfoName),
                                    ConfigureErrorInfoMapping(None));
            && error.Some?
            && Get(error.value, "error_code") == Some(Str("TEST_ERROR"))
            && Get(error.value, "error_message") == Some(Str("An error occurred"))
            && Get(error.value, "stack_trace") == Some(List([Str("trace1"), Str("trace2")]))
  {
    var table := DefaultErrorInfoMapping;
    var entries := ErrorTestInfo().entries;
    ProjectedValue(table, entries, 0);
    ProjectedValue(table, entries, 1);
    ProjectedValue(table, entries, 2);
  }

  /**
   The error test: a 500 response with error info under the default name is
   an ERROR record of type error carrying the projected error fields.
   */
  method ErrorExchange() returns (record: Option<LogRecord>)
    ensures record.Some?
    ensures record.value.httpMethod == Some("POST") && record.value.path == Some("/error")
    ensures record.value.statusCode == 500
    ensures record.value.logType == "error" && record.value.level == "ERROR"
    ensures record.value.error.Some?
    ensures Get(record.value.error.value, "error_code") == Some(Str("TEST_ERROR"))
    ensures Get(record.value.error.value, "error_message") == Some(Str("An error occurred"))
    ensures Get(record.value.error.value, "stack_trace") == Some(List([Str("trace1"), Str("trace2")]))
  {
    var m := new JsonRequestLoggerMiddleware(DefaultErrorInfoName, None, None, None);
    var scope := Scope("http", Some("POST"), Some("/error"), [(Latin1Encode("user-agent"), Latin1Encode("pytest"))],
                       Some(Client("127.0.0.1", 12345)), Some([(DefaultErrorInfoName, ErrorTestInfo())]));
    var messages := [Message(ResponseStart, Some(500), []), Message("http.response.body", None, [])];
    DefaultErrorProjection();
    CapturedIsLastStart(messages, 0);
    var sent;
    sent, record := m.Call(scope, messages, "2025-01-01T00:00:00.000000Z", "generated-id", 3);
  }

  /** An empty dict under the error-info key counts as no error. */
  lemma EmptyErrorInfoIsNull(table: Dict<string>)
    ensures ErrorField(ErrorInfo(Some([(DefaultErrorInfoName, Object([]))]), DefaultErrorInfoName), table) == None
  {
  }

  /** The byte string a test writes as `b"..."`: the Latin-1 encoding of `s`. */
  function Latin1Encode(s: string): (bs: seq<byte>)
    requires forall i :: 0 <= i < |s| ==> s[i] as int < 0x100
    ensures Latin1Decode(bs) == s
  {
    seq(|s|, i requires 0 <= i < |s| => s[i] as int as byte)
  }

  /** The success test's request headers, as the transport delivers them. */
  function SuccessTestHeaders(): seq<(seq<byte>, seq<byte>)> {
    [(Latin1Encode("x-forwarded-for"), Latin1Encode("203.0.113.1")),
     (Latin1Encode("user-agent"), Latin1Encode("pytest")),
     (Latin1Encode("x-event-id"), Latin1Encode("test-event-id"))]
  }

  /** Each of the success test's headers is stored under its own name with its own value. */
  lemma SuccessTestHeaderLookups()
    ensures var h := NormaliseHeaders(SuccessTestHeaders());
            && Get(h, "x-forwarded-for") == Some("203.0.113.1")
            && Get(h, "user-agent") == Some("pytest")
            && Get(h, "x-event-id") == Some("test-event-id")
  {
    var raw := SuccessTestHeaders();
    LowerOfLowerCase("x-forwarded-for");
    LowerOfLowerCase("user-agent");
    LowerOfLowerCase("x-event-id");
    assert FoldedName(raw[0]) == "x-forwarded-for";
    assert FoldedName(raw[1]) == "user-agent";
    assert FoldedName(raw[2]) == "x-event-id";
    HeadersLastWins(raw, 0);
    HeadersLastWins(raw, 1);
    HeadersLastWins(raw, 2);
  }

  /** The success test's configuration, folded. */
  lemma SuccessTestConfiguration()
    ensures ConfigureEventIdHeader(Some("X-Event-ID")) == Some("x-event-id")
    ensures ConfigureClientIpHeaders(Some(["x-forwarded-for", "x-real-ip"])) == ["x-forwarded-for", "x-real-ip"]
  {
    assert Lower("X-Event-ID") == "x-event-id";
    var names := ["x-forwarded-for", "x-real-ip"];
    LowerOfLowerCase(names[0]);
    LowerOfLowerCase(names[1]);
    assert ConfigureClientIpHeaders(Some(names)) == seq(2, i requires 0 <= i < 2 => Lower(names[i]));
  }

  /** The success test's event id, taken from the differently-cased header. */
  lemma SuccessTestEventId()
    ensures EventId(ConfigureEventIdHeader(Some("X-Event-ID")), NormaliseHeaders(SuccessTestHeaders()), "generated-id")
            == "test-event-id"
  {
    SuccessTestConfiguration();
    SuccessTestHeaderLookups();
  }

  /** The success test's client ip, the single hop of `x-forwarded-for`. */
  lemma SuccessTestClientIp()
    ensures ResolveClientIp(IpFromHeaders(ConfigureClientIpHeaders(Some(["x-forwarded-for", "x-real-ip"])),
                                          NormaliseHeaders(SuccessTestHeaders())),
                            Some(Client("127.0.0.1", 12345)))
            == "203.0.113.1"
  {
    SuccessTestConfiguration();
    SuccessTestHeaderLookups();
    SingleForwardedAddress();
  }

  /**
   The success test: the event id comes from the differently-cased header,
   the client ip from `x-forwarded-for`, and a 200 response is an INFO access
   record without error.
   */
  method SuccessExchange() returns (record: Option<LogRecord>)
    ensures record.Some?
    ensures record.value.httpMethod == Some("GET") && record.value.path == Some("/test")
    ensures record.value.eventId == "test-event-id"
    ensures record.value.clientIp == "203.0.113.1"
    ensures record.value.userAgent == Some("pytest")
    ensures record.value.statusCode == 200
    ensures record.value.logType == "access" && record.value.level == "INFO"
    ensures record.value.error.None?
  {
    var m := new JsonRequestLoggerMiddleware(DefaultErrorInfoName, None, Some("X-Event-ID"),
                                             Some(["x-forwarded-for", "x-real-ip"]));
    var scope := Scope("http", Some("GET"), Some("/test"), SuccessTestHeaders(),
                       Some(Client("127.0.0.1", 12345)), Some([]));
    var messages := [Message(ResponseStart, Some(200), []), Message("http.response.body", None, [])];
    SuccessTestEventId();
    SuccessTestClientIp();
    SuccessTestHeaderLookups();
    CapturedIsLastStart(messages, 0);
    assert ErrorInfo(scope.state, m.errorInfoName) == Null;
    var sent;
    sent, record := m.Call(scope, messages, "2025-01-01T00:00:00.000000Z", "generated-id", 3);
  }
}
