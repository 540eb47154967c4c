# asgi-request-logger: a Dafny model of `JsonRequestLoggerMiddleware`

`JsonRequestLoggerMiddleware` is ASGI middleware. It wraps an application
and, for every HTTP exchange, writes one JSON log line. The line holds:

- an event id, taken from a configurable request header or freshly generated;
- the method, the path and the user agent;
- the client ip, taken from the first configured forwarding header present
  (its first comma-separated entry, stripped), else from the transport's peer
  address, else `"unknown"`;
- the response status, captured from the messages the application sends
  (500 when the last response-start message carries none, or there is none);
- `log_type` and `level`, both derived from the status;
- an `error` object, projected from an error-info dict that the application
  leaves in the request's state bag.

Scopes that are not HTTP are passed through untouched.

The model is split into these modules:

- `Wrappers`: `Option`.
- `PyDict`: a Python `dict` with string keys. It is an insertion-ordered list
  of pairs. `Set` is `d[k] = v`: an existing key keeps its place, a new key
  goes last.
- `Text`: Latin-1 decoding of header bytes, `str.lower`, `str.strip` and
  `str.split(",")[0]`. Each is exact on the Latin-1 range.
- `Asgi`: the scope, the messages the application sends, and the Python
  values a state bag may hold, with Python truthiness.
- `RequestLog`: each field the middleware derives, as a specification
  function. The source's three loops are methods proved equal to those
  functions:
  - `ScanClientIpHeaders`: the client-ip header loop with its `break`;
  - `SendWrapper`: the nested `send_wrapper`;
  - `FillError`: the error-projection loop.
  Lemmas then state what each derived field means.
- `Middleware`: the class `JsonRequestLoggerMiddleware`.
  - Its constructor is `__init__`. It stores the configuration with the
    defaults applied and the header names lower-cased.
  - `Call` is `__call__` for one exchange. It follows the source step by
    step. It returns the messages that reach the real `send` and the log
    record, and its contract states every field of that record.
- `Scenarios`: the repository's two test cases, stated as methods and lemmas
  over the model.

The wrapped application is modelled as the sequence of messages it sends
before it returns normally. The clock, the UUID generator and the formatted
timestamp are parameters of `Call`.

On these points the model follows the code as written:

- Every `http.response.start` message overwrites the captured status, so the
  last one decides, not the first. A last start message without `status`
  sets the capture back to None, which becomes 500.
- `__call__` has no `try`/`finally`. An application that raises produces no
  log record.
- The error-info entry is read and never cleared from the state bag.
- Falsy error info (None, `{}`, and any other falsy value) gives
  `"error": null`. The test is truthiness, not only absence.

## Model

| member | source | states |
|---|---|---|
| PyDict.Set | asgi_request_logger/json_request_logger_middleware.py:129 | `d[k] = v`: afterwards `k` maps to `v` and every other key keeps its value. An existing key keeps its position; a new key is appended. A dict without duplicate keys stays without them. |
| PyDict.SetContains | asgi_request_logger/json_request_logger_middleware.py:129 | After `d[k] = v` the keys present are exactly `k` and the keys of `d`. |
| PyDict.Keys | asgi_request_logger/json_request_logger_middleware.py:96-137 | The keys in insertion order, the order `json.dumps` writes them. Set states how an assignment changes it. |
| PyDict.Get | asgi_request_logger/json_request_logger_middleware.py:82-129 | `d.get(k)` and `d[k]`: the value of the first pair with key `k`, or None. In a dict with distinct keys that pair is the only one. Set states how an assignment changes every lookup. |
| PyDict.Contains | asgi_request_logger/json_request_logger_middleware.py:81-89 | `k in d`: some pair has key `k`. SetContains states how an assignment changes it. |
| Text.IsUpper | asgi_request_logger/json_request_logger_middleware.py:48-78 | The characters up to U+00FF that `str.lower` changes: A-Z and U+00C0-U+00DE except U+00D7. LowerChar gives their lower case. |
| Text.IsSpace | asgi_request_logger/json_request_logger_middleware.py:90 | `str.isspace` on U+0000-U+00FF: tab to carriage return, U+001C-U+001F, space, U+0085 and U+00A0. LeadingSpaces, TrailingSpaces and Strip use it. |
| RequestLog.ErrorInfoUsable | asgi_request_logger/json_request_logger_middleware.py:124-129 | The error info values the source handles without raising at line 129: falsy values, and dicts. Call requires it. |
| Text.Latin1Decode | asgi_request_logger/json_request_logger_middleware.py:78 | `decode("latin1")` maps each byte to the character with the same code and keeps the length. |
| Text.Latin1DecodeInjective | asgi_request_logger/json_request_logger_middleware.py:78 | Distinct header byte strings decode to distinct strings. |
| Text.LowerChar | asgi_request_logger/json_request_logger_middleware.py:48-49 | Python's Latin-1 case table: an upper-case character becomes the character 0x20 above it, and every other character is unchanged. The result is never upper case. |
| Text.Lower | asgi_request_logger/json_request_logger_middleware.py:78 | `str.lower` keeps the length and folds character by character. |
| Text.LowerIdempotent | asgi_request_logger/json_request_logger_middleware.py:48-49 | Folding twice is folding once. A folded string has no upper-case character. |
| Text.LowerOfLowerCase | asgi_request_logger/json_request_logger_middleware.py:49 | A string without upper-case characters is its own lower case. |
| Text.LeadingSpaces | asgi_request_logger/json_request_logger_middleware.py:90 | The length of the longest whitespace prefix: every character in it is whitespace, and the next one is not. |
| Text.TrailingSpaces | asgi_request_logger/json_request_logger_middleware.py:90 | The length of the longest whitespace suffix: every character in it is whitespace, and the one before it is not. |
| Text.Strip | asgi_request_logger/json_request_logger_middleware.py:90 | The result is the slice of the input left after removing whitespace at both ends: everything before and after the slice is whitespace, and a non-empty result neither starts nor ends with whitespace. The result is empty exactly when the input is all whitespace. |
| Text.StripUnchanged | asgi_request_logger/json_request_logger_middleware.py:90 | A string that neither starts nor ends with whitespace is its own strip. |
| Text.BeforeFirst | asgi_request_logger/json_request_logger_middleware.py:90 | `split(",")[0]` is a prefix of the input without the separator. When it is shorter than the input, the separator follows it. |
| RequestLog.ConfigurationDefaults | asgi_request_logger/json_request_logger_middleware.py:43-49 | A missing or empty mapping, event-id header or header list gives the documented default: the three-entry table, no event-id header, and `["x-forwarded-for", "x-real-ip"]`. |
| RequestLog.ConfiguredNamesAreFolded | asgi_request_logger/json_request_logger_middleware.py:48-49 | The event-id header is enabled exactly when a non-empty name is given. Every stored header name is lower case. |
| RequestLog.ConfiguredValuesKept | asgi_request_logger/json_request_logger_middleware.py:43-49 | A non-empty caller table is used as given. A non-empty caller header list is kept in its priority order, same length, each name lower-cased. |
| RequestLog.IpFromConfiguredHeader | asgi_request_logger/json_request_logger_middleware.py:49-91 | For a caller's header list: the first listed name that some raw header matches case-insensitively decides, and the last raw header matching it supplies the value whose first hop is taken. |
| RequestLog.EventIdHeaderCaseInsensitive | asgi_request_logger/json_request_logger_middleware.py:48 | Two names configure the same event-id header exactly when they differ at most in the case of their letters (`SameIgnoringCase`, defined position by position from the case pairs, not from `Lower`). |
| RequestLog.NormaliseHeaders | asgi_request_logger/json_request_logger_middleware.py:77-78 | The header dict has distinct keys, and every key is lower case. |
| RequestLog.HeadersLastWins | asgi_request_logger/json_request_logger_middleware.py:78 | Among raw headers whose names fold to the same key, the last one's decoded value is stored. |
| RequestLog.HeadersPresent | asgi_request_logger/json_request_logger_middleware.py:78 | A key is present exactly when some raw header name folds to it. |
| RequestLog.EventIdFromHeader | asgi_request_logger/json_request_logger_middleware.py:80-82 | With a non-empty configured name, the event id is the value of the last request header matching that name case-insensitively. |
| RequestLog.EventIdGenerated | asgi_request_logger/json_request_logger_middleware.py:81-84 | Without a configured name, with an empty one, or when no request header matches it, the generated id is used. |
| RequestLog.FirstForwardedAddress | asgi_request_logger/json_request_logger_middleware.py:90 | A forwarding header yields text without a comma. FirstHopOfChain gives its value on every input. |
| RequestLog.FirstHopOfChain | asgi_request_logger/json_request_logger_middleware.py:90 | For any `first` without a comma, both `first` alone and `first,rest` (whatever `rest` is) yield `first` stripped. Every header value has one of these two forms. |
| RequestLog.ScanClientIpHeaders | asgi_request_logger/json_request_logger_middleware.py:87-91 | The loop with its `break` returns what the ordered header list yields: the first present header's first entry, stripped. |
| RequestLog.IpFirstPresentWins | asgi_request_logger/json_request_logger_middleware.py:88-91 | Only the first listed header that is present is consulted. The headers after it are ignored. |
| RequestLog.IpAbsentWhenNoneListed | asgi_request_logger/json_request_logger_middleware.py:87-91 | The header step yields nothing exactly when none of the listed headers is present. |
| RequestLog.ClientIpResolution | asgi_request_logger/json_request_logger_middleware.py:87-93 | With no listed header present, the client ip is the peer host, or "unknown" without a client. Otherwise it is the first present header's stripped first entry, falling back to the peer when that entry is empty. |
| RequestLog.SendWrapper | asgi_request_logger/json_request_logger_middleware.py:105-111 | Every message is forwarded unchanged and in order. The captured status is the one the specification function `CapturedStatus` assigns to the message sequence. |
| RequestLog.RecordedStatus | asgi_request_logger/json_request_logger_middleware.py:117-118 | No captured status gives 500. Otherwise the captured status is kept. |
| RequestLog.CapturedIsLastStart | asgi_request_logger/json_request_logger_middleware.py:109-110 | The last response-start message decides the status. When that message has no status, 500 is recorded. |
| RequestLog.CapturedNoneWithoutStart | asgi_request_logger/json_request_logger_middleware.py:105-118 | Without a response-start message nothing is captured, and 500 is recorded. |
| RequestLog.LogLevel | asgi_request_logger/json_request_logger_middleware.py:119-120 | The level is INFO exactly when the type is access, and ERROR exactly when the type is error, although the source tests the two separately. |
| RequestLog.Classification | asgi_request_logger/json_request_logger_middleware.py:119-120 | Below 400 the record is access/INFO; from 400 on it is error/ERROR; no other pairing occurs. |
| RequestLog.FillError | asgi_request_logger/json_request_logger_middleware.py:127-129 | The loop builds exactly the projection that the specification function `ProjectError` assigns to the rename table and the error info. |
| RequestLog.ProjectedKeys | asgi_request_logger/json_request_logger_middleware.py:127-129 | The projected keys are exactly the table's destination keys. Every other source key is dropped. |
| RequestLog.ProjectedValue | asgi_request_logger/json_request_logger_middleware.py:129 | Each destination key holds its source key's value, or null when the source key is missing. When two sources share a destination, the last one listed wins. |
| RequestLog.ErrorFieldCases | asgi_request_logger/json_request_logger_middleware.py:123-129 | A missing state bag, a missing entry, None or `{}` all give a null error. The error is null exactly when the info is falsy. Otherwise its keys are the table's destination keys. |
| Asgi.Truthy | asgi_request_logger/json_request_logger_middleware.py:124 | Python truthiness: None, False, 0 and empty strings, byte strings, lists and dicts are falsy. ErrorFieldCases and EmptyErrorInfoIsNull state what it decides for the error field. |
| RequestLog.ConfigureErrorInfoMapping | asgi_request_logger/json_request_logger_middleware.py:43-47 | `error_info_mapping or {...}`. ConfigurationDefaults states the default for None and `{}`; ConfiguredValuesKept states that a non-empty table is used as given. |
| RequestLog.ConfigureEventIdHeader | asgi_request_logger/json_request_logger_middleware.py:48 | `event_id_header.lower() if event_id_header else None`. ConfigurationDefaults, ConfiguredNamesAreFolded and EventIdHeaderCaseInsensitive characterise it. |
| RequestLog.ConfigureClientIpHeaders | asgi_request_logger/json_request_logger_middleware.py:49 | The header list with its default, lower-cased. ConfigurationDefaults gives the default, ConfiguredValuesKept keeps a caller's list in order with each name lower-cased, and IpFromConfiguredHeader follows such a list to the raw headers. |
| RequestLog.FoldedName | asgi_request_logger/json_request_logger_middleware.py:78 | The key of one raw header: its Latin-1 name, lower-cased. HeadersLastWins and HeadersPresent are stated in terms of it. |
| RequestLog.EventId | asgi_request_logger/json_request_logger_middleware.py:81-84 | The configured header's value when present, else the generated id. EventIdFromHeader and EventIdGenerated characterise it. |
| RequestLog.IpFromHeaders | asgi_request_logger/json_request_logger_middleware.py:88-91 | The ordered header scan as a function. ScanClientIpHeaders is proved equal to it; IpFirstPresentWins and IpAbsentWhenNoneListed characterise it. |
| RequestLog.ClientHost | asgi_request_logger/json_request_logger_middleware.py:93 | `scope.get("client", ("unknown",))[0]`. ClientIpResolution states the fallback. |
| RequestLog.ResolveClientIp | asgi_request_logger/json_request_logger_middleware.py:92-93 | `if not client_ip:` falls back to the peer when the header step gives None or an empty string. ClientIpResolution characterises it. |
| RequestLog.CapturedStatus | asgi_request_logger/json_request_logger_middleware.py:105-110 | The status held by the wrapper after a message sequence. SendWrapper is proved equal to it; CapturedIsLastStart and CapturedNoneWithoutStart characterise it. |
| RequestLog.LogType | asgi_request_logger/json_request_logger_middleware.py:119 | `"access"` below 400, `"error"` otherwise. Classification and LogLevel characterise it. |
| RequestLog.ErrorInfo | asgi_request_logger/json_request_logger_middleware.py:123 | `scope.get("state", {}).get(name, None)`. ErrorFieldCases covers the missing bag and the missing entry. |
| RequestLog.ErrorField | asgi_request_logger/json_request_logger_middleware.py:124-129 | Null for falsy error info, else the projection. ErrorFieldCases characterises it. |
| RequestLog.ProjectError | asgi_request_logger/json_request_logger_middleware.py:127-129 | The error projection as a fold of assignments. FillError is proved equal to it; ProjectedKeys and ProjectedValue characterise it. |
| Middleware.JsonRequestLoggerMiddleware.constructor | asgi_request_logger/json_request_logger_middleware.py:17-49 | Stores the error-info name (by default `error_info`), and the mapping, event-id header and client-ip headers with defaults applied and names folded. |
| Middleware.JsonRequestLoggerMiddleware.Call | asgi_request_logger/json_request_logger_middleware.py:72-137 | Messages pass through unchanged. A record exists exactly for HTTP scopes. The contract gives every field of the record: timestamp, event id, method, path, client ip, user agent, error, elapsed time, status, type and level. |
| Scenarios.SingleForwardedAddress | tests/test_json_request_logger_middleware.py:61 | The success test's single forwarded address `203.0.113.1` is kept as it is. |
| Scenarios.ForwardedChainFirstHop | asgi_request_logger/json_request_logger_middleware.py:90 | The chain `"203.0.113.1, 70.41.3.18"` yields its first hop `203.0.113.1`. |
| Scenarios.DefaultErrorProjection | tests/test_json_request_logger_middleware.py:144-177 | The error test's info, projected with the default table, gives `error_code`, `error_message` and `stack_trace` with the test's values. |
| Scenarios.ErrorExchange | tests/test_json_request_logger_middleware.py:126-177 | The error test's exchange gives a POST `/error` record with status 500, type error, level ERROR and the projected error fields. |
| Scenarios.EmptyErrorInfoIsNull | asgi_request_logger/json_request_logger_middleware.py:124-125 | An empty dict under the error-info key gives a null error field, whatever the table. |
| Scenarios.Latin1Encode | tests/test_json_request_logger_middleware.py:60-64 | The byte literals a test writes decode back to their text. |
| Scenarios.SuccessTestHeaderLookups | tests/test_json_request_logger_middleware.py:60-64 | Each of the success test's headers is stored under its own name with its own value. |
| Scenarios.SuccessTestConfiguration | tests/test_json_request_logger_middleware.py:44-49 | `"X-Event-ID"` is stored as `x-event-id`. The already lower-case header list is stored as it is. |
| Scenarios.SuccessTestEventId | tests/test_json_request_logger_middleware.py:46-89 | The success test's event id comes from the differently-cased header. |
| Scenarios.SuccessTestClientIp | tests/test_json_request_logger_middleware.py:47-91 | The success test's client ip is `203.0.113.1`, from `x-forwarded-for`. |
| Scenarios.SuccessExchange | tests/test_json_request_logger_middleware.py:44-100 | The success test's exchange gives a GET `/test` record: the event id from the header, the forwarded client ip, user agent `pytest`, status 200, type access, level INFO and a null error. |

## Left out

- The async plumbing is not modelled. `receive` is never looked at by the middleware, and the awaits are left out. The application is the sequence of messages it sends before it returns normally.
- Middleware.JsonRequestLoggerMiddleware.Call: an application that raises is not modelled. The source then writes no record, because `__call__` has no `try`/`finally`.
- Middleware.JsonRequestLoggerMiddleware.Call: `time_taken_ms` is the parameter `elapsedMs`. The clock reads (lines 75 and 115) and the float-to-int truncation are I/O. `elapsedMs` is a `nat`, but `time.time()` is a wall clock: if it steps backwards during the exchange, the source records a negative `time_taken_ms`, which the model does not cover.
- Middleware.JsonRequestLoggerMiddleware.Call: the timestamp (line 97) is a parameter. `time.strftime` and `time.gmtime` are I/O, and their output format is not modelled.
- Middleware.JsonRequestLoggerMiddleware.Call: the generated event id is a parameter standing for `uuid.uuid4()`.
- Middleware.JsonRequestLoggerMiddleware.Call: the record is a datatype with one field per JSON key, not the `log_data` dict. The key order of the JSON text and `json.dumps(..., ensure_ascii=False)` are not modelled. The lookup of the level number and `self.logger.log` (lines 139-140) are output.
- The logger setup in `__init__` (lines 51-64) and the `logger` argument are not modelled: they configure output only. `asgi_request_logger/logger.py` and `asgi_request_logger/__init__.py` are not part of this model.
- Middleware.JsonRequestLoggerMiddleware.Call: some inputs on which the source raises cannot be written down in the model. These are a `client`, `state` or `headers` entry that is present but None (lines 93, 123 and 78), a status that is not an int, and a message without `type`.
- Middleware.JsonRequestLoggerMiddleware.Call: truthy error info that is not a dict is excluded by the precondition. The source would fail on `.get` at line 129.
- Middleware.JsonRequestLoggerMiddleware.Call: the model returns a record for a projected error value that `json.dumps` cannot serialise, such as bytes (`{"code": b"A"}`). The source raises `TypeError` at line 140 and writes nothing. Serialisation is not modelled.
- Middleware.JsonRequestLoggerMiddleware.Call: the `error_info` entry is never cleared from the state bag, as in the source. The scope is a value, so the call cannot change it.
- Middleware.JsonRequestLoggerMiddleware.Call: `scope.state` stands for the state bag as the application leaves it. The source reads it at line 123, after `await self.app` (line 113), through the scope dict it shares with the application. The headers, method, path and client are read before the application runs. Changes the application makes to those are not modelled.
- Text.Lower: `str.lower` is exact on U+0000-U+00FF, which covers every decoded header name. Configured names beyond Latin-1 keep their characters. Python would fold some of them, for example the Kelvin sign to `k`.
- Text.Strip: whitespace is `str.isspace` on U+0000-U+00FF. Header values are Latin-1 text, so nothing beyond that range can occur in them.
- The other keys of a message sent by the application are kept in the model. They are forwarded but not analysed.
