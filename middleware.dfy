/**
 `JsonRequestLoggerMiddleware`: the configured wrapper and one intercepted
 exchange. The clock, the UUID generator and the timestamp are inputs; the
 wrapped application is the sequence of messages it sends.
 */
module Middleware {
  import opened Wrappers
  import opened PyDict
  import opened Asgi
  import opened RequestLog

  class JsonRequestLoggerMiddleware {
    /** The state-bag key holding the error info. */
    const errorInfoName: string
    /** Source key to record key, in the order the `error` map is filled. */
    const errorInfoMapping: Dict<string>
    /** The lower-cased event-id header name, or None when disabled. */
    const eventIdHeader: Option<string>
    /** The lower-cased client-ip header names, in priority order. */
    const clientIpHeaders: seq<string>

    /** `__init__`: stores the configuration with its defaults applied and its header names folded. */
    constructor (errorInfoName: string := DefaultErrorInfoName, errorInfoMapping: Option<Dict<string>>,
                 eventIdHeader: Option<string>, clientIpHeaders: Option<seq<string>>)
      ensures this.errorInfoName == errorInfoName
      ensures this.errorInfoMapping == ConfigureErrorInfoMapping(errorInfoMapping)
      ensures this.eventIdHeader == ConfigureEventIdHeader(eventIdHeader)
      ensures this.clientIpHeaders == ConfigureClientIpHeaders(clientIpHeaders)
    {
      this.errorInfoName := errorInfoName;
      this.errorInfoMapping := ConfigureErrorInfoMapping(errorInfoMapping);
      this.eventIdHeader := ConfigureEventIdHeader(eventIdHeader);
      this.clientIpHeaders := ConfigureClientIpHeaders(clientIpHeaders);
    }

    /**
     `__call__` for one exchange whose application sends `appMessages` and
     returns normally. Returns what reaches the real `send` and the log record;
     a non-HTTP scope is handed on untouched and produces no record.
     */
    method Call(scope: Scope, appMessages: seq<Message>, timestamp: string, generatedId: string, elapsedMs: nat)
      returns (sent: seq<Message>, record: Option<LogRecord>)
      requires scope.kind == "http" ==> ErrorInfoUsable(ErrorInfo(scope.state, errorInfoName))
      ensures sent == appMessages
      ensures record.None? <==> scope.kind != "http"
      ensures scope.kind == "http" ==>
                var headers := NormaliseHeaders(scope.headers);
                var status := RecordedStatus(CapturedStatus(appMessages));
                record == Some(LogRecord(
                  timestamp,
                  EventId(eventIdHeader, headers, generatedId),
                  scope.httpMethod,
                  scope.path,
                  ResolveClientIp(IpFromHeaders(clientIpHeaders, headers), scope.client),
                  Get(headers, "user-agent"),
                  ErrorField(ErrorInfo(scope.state, errorInfoName), errorInfoMapping),
                  elapsedMs,
                  status,
                  LogType(status),
                  LogLevel(status)))
    {
      if scope.kind != "http" {
        sent, record := appMessages, None;
        return;
      }

      var headers := NormaliseHeaders(scope.headers);

      var eventId;
      if eventIdHeader.Some? && Contains(headers, eventIdHeader.value) {
        eventId := Get(headers, eventIdHeader.value).value;
      } else {
        eventId := generatedId;
      }

      var fromHeaders := ScanClientIpHeaders(clientIpHeaders, headers);
      var clientIp;
      if fromHeaders.None? || fromHeaders.value == "" {
        clientIp := ClientHost(scope.client);
      } else {
        clientIp := fromHeaders.value;
      }

      var captured;
      sent, captured := SendWrapper(appMessages);

      var status := if captured.None? then 500 else captured.value;
      var logType := if status < 400 then "access" else "error";
      var level := if status >= 400 then "ERROR" else "INFO";

      var errorInfo := ErrorInfo(scope.state, errorInfoName);
      var error: Option<Dict<Value>>;
      if !Truthy(errorInfo) {
        error := None;
      } else {
        var projected := FillError(errorInfoMapping, errorInfo.entries);
        error := Some(projected);
      }

      record := Some(LogRecord(timestamp, eventId, scope.httpMethod, scope.path, clientIp,
                               Get(headers, "user-agent"), error, elapsedMs, status, logType, level));
    }
  }
}
