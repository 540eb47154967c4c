/**
 The derivations `JsonRequestLoggerMiddleware` performs for one HTTP
 exchange, each as a function (or a loop method proved against one), with
 lemmas that state what the derived field means.
 */
module RequestLog {
  import opened Wrappers
  import opened PyDict
  import opened Text
  import opened Asgi

  // ---------------------------------------------------------------------
  // Configuration (the constructor's defaults and case folding)
  // ---------------------------------------------------------------------

  const DefaultErrorInfoName: string := "error_info"

  const DefaultErrorInfoMapping: Dict<string> :=
    [("code", "error_code"), ("message", "error_message"), ("stack_trace", "stack_trace")]

  const DefaultClientIpHeaders: seq<string> := ["x-forwarded-for", "x-real-ip"]

  /** `error_info_mapping or {...}`: a missing or empty table falls back to the default. */
  function ConfigureErrorInfoMapping(given: Option<Dict<string>>): Dict<string> {
    if given.None? || given.value == [] then DefaultErrorInfoMapping else given.value
  }

  /** `event_id_header.lower() if event_id_header else None`. */
  function ConfigureEventIdHeader(given: Option<string>): Option<string> {
    if given.None? || given.value == [] then None else Some(Lower(given.value))
  }

  /** `[h.lower() for h in (client_ip_headers or [...])]`. */
  function ConfigureClientIpHeaders(given: Option<seq<string>>): seq<string> {
    var names := if given.None? || given.value == [] then DefaultClientIpHeaders else given.value;
    seq(|names|, i requires 0 <= i < |names| => Lower(names[i]))
  }

  /** Missing and empty configuration values give the documented defaults. */
  lemma ConfigurationDefaults()
    ensures ConfigureErrorInfoMapping(None) == ConfigureErrorInfoMapping(Some([])) == DefaultErrorInfoMapping
    ensures ConfigureEventIdHeader(None) == ConfigureEventIdHeader(Some("")) == None
    ensures ConfigureClientIpHeaders(None) == ConfigureClientIpHeaders(Some([])) == ["x-forwarded-for", "x-real-ip"]
  {
    LowerOfLowerCase("x-forwarded-for");
    LowerOfLowerCase("x-real-ip");
  }

  /**
   Configured header names are stored lower-cased, a non-empty name stays
   enabled, and names that differ only in case configure the same thing.
   */
  lemma ConfiguredNamesAreFolded(eventIdHeader: Option<string>, clientIpHeaders: Option<seq<string>>)
    ensures ConfigureEventIdHeader(eventIdHeader).Some? <==> eventIdHeader.Some? && eventIdHeader.value != ""
    ensures ConfigureEventIdHeader(eventIdHeader).Some? ==>
              Lower(ConfigureEventIdHeader(eventIdHeader).value) == ConfigureEventIdHeader(eventIdHeader).value
    ensures forall n :: n in ConfigureClientIpHeaders(clientIpHeaders) ==> Lower(n) == n
  {
    if eventIdHeader.Some? {
      LowerIdempotent(eventIdHeader.value);
    }
    var names := ConfigureClientIpHeaders(clientIpHeaders);
    forall n | n in names ensures Lower(n) == n {
      var i :| 0 <= i < |names| && names[i] == n;
      var src := if clientIpHeaders.None? || clientIpHeaders.value == [] then DefaultClientIpHeaders else clientIpHeaders.value;
      LowerIdempotent(src[i]);
    }
  }

  /** `x` and `y` are the same Latin-1 letter in the two cases, or the same character. */
  predicate SameLetter(x: char, y: char) {
    x == y || (IsUpper(x) && y as int == x as int + 0x20) || (IsUpper(y) && x as int == y as int + 0x20)
  }

  /** `a` and `b` differ at most in the case of their Latin-1 letters. */
  predicate SameIgnoringCase(a: string, b: string) {
    |a| == |b| && forall i :: 0 <= i < |a| ==> SameLetter(a[i], b[i])
  }

  /** A non-empty table is used as given, and a non-empty header list is kept in order, each name lower-cased. */
  lemma ConfiguredValuesKept(mapping: Dict<string>, names: seq<string>)
    ensures mapping != [] ==> ConfigureErrorInfoMapping(Some(mapping)) == mapping
    ensures names != [] ==>
              var stored := ConfigureClientIpHeaders(Some(names));
              |stored| == |names| && forall i :: 0 <= i < |names| ==> stored[i] == Lower(names[i])
  {
  }

  /** Two names configure the same event-id header exactly when they differ at most in case. */
  lemma EventIdHeaderCaseInsensitive(a: string, b: string)
    ensures ConfigureEventIdHeader(Some(a)) == ConfigureEventIdHeader(Some(b)) <==> SameIgnoringCase(a, b)
  {
    if SameIgnoringCase(a, b) {
      assert Lower(a) == Lower(b) by {
        forall i | 0 <= i < |a| ensures Lower(a)[i] == Lower(b)[i] {
          assert SameLetter(a[i], b[i]);
        }
      }
    }
    if ConfigureEventIdHeader(Some(a)) == ConfigureEventIdHeader(Some(b)) {
      if a != [] && b != [] {
        assert Lower(a) == Lower(b);
        assert |a| == |b|;
        forall i | 0 <= i < |a| ensures SameLetter(a[i], b[i]) {
          assert LowerChar(a[i]) == Lower(a)[i] == Lower(b)[i] == LowerChar(b[i]);
        }
      }
    }
  }

  // ---------------------------------------------------------------------
  // Header normalisation
  // ---------------------------------------------------------------------

  /** The key a raw header pair is stored under: its Latin-1 name, lower-cased. */
  function FoldedName(h: (seq<byte>, seq<byte>)): string {
    Lower(Latin1Decode(h.0))
  }

  /**
   `{k.decode("latin1").lower(): v.decode("latin1") for k, v in headers}`:
   the pairs are stored left to right, so a later pair overwrites an earlier
   one with the same folded name. Every key is lower-case.
   */
  function NormaliseHeaders(raw: seq<(seq<byte>, seq<byte>)>): (h: Dict<string>)
    ensures Distinct(h)
    ensures forall k :: Contains(h, k) ==> Lower(k) == k
    decreases |raw|
  {
    if raw == [] then []
    else
      var last := raw[|raw| - 1];
      var before := NormaliseHeaders(raw[..|raw| - 1]);
      LowerIdempotent(Latin1Decode(last.0));
      Set(before, FoldedName(last), Latin1Decode(last.1))
  }

  /** Among the pairs whose names fold to the same key, the last one's value is stored, unchanged. */
  lemma {:induction false} HeadersLastWins(raw: seq<(seq<byte>, seq<byte>)>, i: nat)
    requires i < |raw|
    requires forall j :: i < j < |raw| ==> FoldedName(raw[j]) != FoldedName(raw[i])
    ensures Get(NormaliseHeaders(raw), FoldedName(raw[i])) == Some(Latin1Decode(raw[i].1))
  {
    var n := |raw|;
    if i < n - 1 {
      var pre := raw[..n - 1];
      assert pre[i] == raw[i];
      forall j | i < j < |pre| ensures FoldedName(pre[j]) != FoldedName(pre[i]) {
        assert pre[j] == raw[j];
      }
      HeadersLastWins(pre, i);
    }
  }

  /** A key is present exactly when some raw header name folds to it. */
  lemma {:induction false} HeadersPresent(raw: seq<(seq<byte>, seq<byte>)>, k: string)
    ensures Contains(NormaliseHeaders(raw), k) <==> exists j :: 0 <= j < |raw| && FoldedName(raw[j]) == k
  {
    if raw != [] {
      var n := |raw|;
      var pre := raw[..n - 1];
      var key := FoldedName(raw[n - 1]);
      var before := NormaliseHeaders(pre);
      HeadersPresent(pre, k);
      SetContains(before, key, Latin1Decode(raw[n - 1].1), k);
      assert NormaliseHeaders(raw) == Set(before, key, Latin1Decode(raw[n - 1].1));
      if Contains(NormaliseHeaders(raw), k) {
        if k != key {
          var j :| 0 <= j < |pre| && FoldedName(pre[j]) == k;
          assert raw[j] == pre[j];
        }
      } else {
        forall j | 0 <= j < n ensures FoldedName(raw[j]) != k {
          if j < n - 1 {
            assert raw[j] == pre[j];
          }
        }
      }
    }
  }

  // ---------------------------------------------------------------------
  // Event id
  // ---------------------------------------------------------------------

  /** The configured header's value when that header is present, else the generated id. */
  function EventId(configured: Option<string>, headers: Dict<string>, generated: string): string {
    if configured.Some? && Contains(headers, configured.value) then Get(headers, configured.value).value
    else generated
  }

  /**
   With a non-empty configured name, the event id is exactly the value of the
   last request header whose name matches it case-insensitively.
   */
  lemma EventIdFromHeader(name: string, raw: seq<(seq<byte>, seq<byte>)>, generated: string, i: nat)
    requires name != ""
    requires i < |raw| && FoldedName(raw[i]) == Lower(name)
    requires forall j :: i < j < |raw| ==> FoldedName(raw[j]) != Lower(name)
    ensures EventId(ConfigureEventIdHeader(Some(name)), NormaliseHeaders(raw), generated) == Latin1Decode(raw[i].1)
  {
    HeadersLastWins(raw, i);
  }

  /** Without a configured name, or when no request header matches it, the generated id is used. */
  lemma EventIdGenerated(name: Option<string>, raw: seq<(seq<byte>, seq<byte>)>, generated: string)
    requires name.None? || name.value == "" || forall j :: 0 <= j < |raw| ==> FoldedName(raw[j]) != Lower(name.value)
    ensures EventId(ConfigureEventIdHeader(name), NormaliseHeaders(raw), generated) == generated
  {
    if name.Some? && name.value != "" {
      HeadersPresent(raw, Lower(name.value));
    }
  }

  // ---------------------------------------------------------------------
  // Client IP
  // ---------------------------------------------------------------------

  /** What one forwarding header yields: the text before its first comma, stripped. */
  function FirstForwardedAddress(value: string): (ip: string)
    ensures ',' !in ip
  {
    var before := BeforeFirst(value, ',');
    var ip := Strip(before);
    assert forall c :: c in ip ==> c in before;
    ip
  }

  /**
   A forwarding header yields its first hop: a value without commas is
   stripped whole, and a value `first,rest` whose `first` has no comma gives
   `first` stripped, whatever `rest` holds. Every value has one of these forms.
   */
  lemma FirstHopOfChain(first: string, rest: string)
    requires ',' !in first
    ensures FirstForwardedAddress(first) == Strip(first)
    ensures FirstForwardedAddress(first + "," + rest) == Strip(first)
  {
    var chain := first + "," + rest;
    var before := BeforeFirst(chain, ',');
    assert chain[|first|] == ',';
    assert forall i :: 0 <= i < |first| ==> chain[i] == first[i] != ',';
    assert |before| <= |first| ==> before == chain[..|before|];
    assert before == first;
    var alone := BeforeFirst(first, ',');
    assert alone == first;
  }

  /** The `for header in self.client_ip_headers` loop: the first listed header that is present decides. */
  function IpFromHeaders(names: seq<string>, headers: Dict<string>): Option<string> {
    if names == [] then None
    else if Contains(headers, names[0]) then Some(FirstForwardedAddress(Get(headers, names[0]).value))
    else IpFromHeaders(names[1..], headers)
  }

  /**
   The loop with its `break`: returns what the first listed header present in
   `headers` yields, even when that is the empty string.
   */
  method ScanClientIpHeaders(names: seq<string>, headers: Dict<string>) returns (ip: Option<string>)
    ensures ip == IpFromHeaders(names, headers)
  {
    ip := None;
    var k := 0;
    while k < |names|
      invariant 0 <= k <= |names|
      invariant IpFromHeaders(names, headers) == IpFromHeaders(names[k..], headers)
    {
      if Contains(headers, names[k]) {
        ip := Some(FirstForwardedAddress(Get(headers, names[k]).value));
        return;
      }
      assert names[k..][1..] == names[k + 1..];
      k := k + 1;
    }
  }

  /**
   Only the first listed header present is consulted; headers listed later
   are ignored even if its value yields nothing.
   */
  lemma {:induction false} IpFirstPresentWins(names: seq<string>, headers: Dict<string>, i: nat)
    requires i < |names| && Contains(headers, names[i])
    requires forall j :: 0 <= j < i ==> !Contains(headers, names[j])
    ensures IpFromHeaders(names, headers) == Some(FirstForwardedAddress(Get(headers, names[i]).value))
  {
    if i > 0 {
      assert !Contains(headers, names[0]);
      forall j | 0 <= j < i - 1 ensures !Contains(headers, names[1..][j]) {
        assert names[1..][j] == names[j + 1];
      }
      IpFirstPresentWins(names[1..], headers, i - 1);
    }
  }

  /** The header step yields nothing exactly when none of the listed headers is present. */
  lemma {:induction false} IpAbsentWhenNoneListed(names: seq<string>, headers: Dict<string>)
    ensures IpFromHeaders(names, headers).None? <==> forall j :: 0 <= j < |names| ==> !Contains(headers, names[j])
  {
    if names != [] {
      IpAbsentWhenNoneListed(names[1..], headers);
      assert forall j :: 0 < j < |names| ==> names[j] == names[1..][j - 1];
    }
  }

  /**
   With a caller-supplied list, the header step yields the first hop of the
   last raw header matching the first listed name (case-insensitively) that
   any raw header matches.
   */
  lemma IpFromConfiguredHeader(names: seq<string>, raw: seq<(seq<byte>, seq<byte>)>, i: nat, r: nat)
    requires i < |names|
    requires forall j, k :: 0 <= j < i && 0 <= k < |raw| ==> FoldedName(raw[k]) != Lower(names[j])
    requires r < |raw| && FoldedName(raw[r]) == Lower(names[i])
    requires forall k :: r < k < |raw| ==> FoldedName(raw[k]) != Lower(names[i])
    ensures IpFromHeaders(ConfigureClientIpHeaders(Some(names)), NormaliseHeaders(raw))
            == Some(FirstForwardedAddress(Latin1Decode(raw[r].1)))
  {
    var stored := ConfigureClientIpHeaders(Some(names));
    var headers := NormaliseHeaders(raw);
    ConfiguredValuesKept([], names);
    HeadersLastWins(raw, r);
    forall j | 0 <= j < i ensures !Contains(headers, stored[j]) {
      HeadersPresent(raw, stored[j]);
    }
    IpFirstPresentWins(stored, headers, i);
  }

  /** `scope.get("client", ("unknown",))[0]`. */
  function ClientHost(client: Option<Client>): string {
    if client.Some? then client.value.host else "unknown"
  }

  /** `if not client_ip:` falls back to the scope's client when the header step yields none or "". */
  function ResolveClientIp(fromHeaders: Option<string>, client: Option<Client>): string {
    if fromHeaders.None? || fromHeaders.value == "" then ClientHost(client) else fromHeaders.value
  }

  /**
   With `names` listed in order: if none is present, the client ip is the
   scope's client host or "unknown"; otherwise the first present header's
   first comma-separated entry, stripped, unless that is empty.
   */
  lemma ClientIpResolution(names: seq<string>, headers: Dict<string>, client: Option<Client>)
    ensures (forall j :: 0 <= j < |names| ==> !Contains(headers, names[j])) ==>
              ResolveClientIp(IpFromHeaders(names, headers), client) == ClientHost(client)
    ensures forall i :: 0 <= i < |names| && Contains(headers, names[i]) &&
                        (forall j :: 0 <= j < i ==> !Contains(headers, names[j])) ==>
              var s := Strip(BeforeFirst(Get(headers, names[i]).value, ','));
              ResolveClientIp(IpFromHeaders(names, headers), client) == if s == "" then ClientHost(client) else s
  {
    IpAbsentWhenNoneListed(names, headers);
    forall i | 0 <= i < |names| && Contains(headers, names[i]) &&
               (forall j :: 0 <= j < i ==> !Contains(headers, names[j]))
      ensures var s := Strip(BeforeFirst(Get(headers, names[i]).value, ','));
              ResolveClientIp(IpFromHeaders(names, headers), client) == if s == "" then ClientHost(client) else s
    {
      IpFirstPresentWins(names, headers, i);
    }
  }

  // ---------------------------------------------------------------------
  // Response status
  // ---------------------------------------------------------------------

  /** The status the wrapper holds after `msgs`: each response-start message overwrites it with its `status`. */
  function CapturedStatus(msgs: seq<Message>): Option<int> {
    if msgs == [] then None
    else if msgs[|msgs| - 1].kind == ResponseStart then msgs[|msgs| - 1].status
    else CapturedStatus(msgs[..|msgs| - 1])
  }

  /**
   `send_wrapper`: forwards every message unchanged and in order, and records
   the status of each response-start message as it passes.
   */
  method SendWrapper(msgs: seq<Message>) returns (sent: seq<Message>, captured: Option<int>)
    ensures sent == msgs
    ensures captured == CapturedStatus(msgs)
  {
    sent, captured := [], None;
    for i := 0 to |msgs|
      invariant sent == msgs[..i]
      invariant captured == CapturedStatus(msgs[..i])
    {
      if msgs[i].kind == ResponseStart {
        captured := msgs[i].status;
      }
      sent := sent + [msgs[i]];
      assert msgs[..i + 1][..i] == msgs[..i];
    }
    assert msgs[..|msgs|] == msgs;
  }

  /** `if response_status_code is None: response_status_code = 500`. */
  function RecordedStatus(captured: Option<int>): (status: int)
    ensures captured.None? ==> status == 500
    ensures captured.Some? ==> status == captured.value
  {
    captured.GetOr(500)
  }

  /**
   The last response-start message decides the status, not the first; when
   that message carries no status, 500 is recorded.
   */
  lemma {:induction false} CapturedIsLastStart(msgs: seq<Message>, i: nat)
    requires i < |msgs| && msgs[i].kind == ResponseStart
    requires forall j :: i < j < |msgs| ==> msgs[j].kind != ResponseStart
    ensures CapturedStatus(msgs) == msgs[i].status
    ensures RecordedStatus(CapturedStatus(msgs)) == msgs[i].status.GetOr(500)
  {
    if i < |msgs| - 1 {
      var pre := msgs[..|msgs| - 1];
      assert pre[i] == msgs[i];
      CapturedIsLastStart(pre, i);
    }
  }

  /** Without any response-start message nothing is captured, and 500 is recorded. */
  lemma {:induction false} CapturedNoneWithoutStart(msgs: seq<Message>)
    requires forall j :: 0 <= j < |msgs| ==> msgs[j].kind != ResponseStart
    ensures CapturedStatus(msgs).None?
    ensures RecordedStatus(CapturedStatus(msgs)) == 500
  {
    if msgs != [] {
      CapturedNoneWithoutStart(msgs[..|msgs| - 1]);
    }
  }

  // ---------------------------------------------------------------------
  // Classification
  // ---------------------------------------------------------------------

  /** `"access" if status < 400 else "error"`. */
  function LogType(status: int): string {
    if status < 400 then "access" else "error"
  }

  /** `"ERROR" if status >= 400 else "INFO"`: decided by its own test, yet always agreeing with LogType. */
  function LogLevel(status: int): (level: string)
    ensures level == "INFO" <==> LogType(status) == "access"
    ensures level == "ERROR" <==> LogType(status) == "error"
  {
    if status >= 400 then "ERROR" else "INFO"
  }

  /** Every exchange is access/INFO below 400 and error/ERROR from 400 on. */
  lemma Classification(status: int)
    ensures LogType(status) == "access" <==> status < 400
    ensures LogType(status) == "error" <==> status >= 400
    ensures (LogType(status), LogLevel(status)) in {("access", "INFO"), ("error", "ERROR")}
  {
  }

  // ---------------------------------------------------------------------
  // Error projection
  // ---------------------------------------------------------------------

  /** `scope.get("state", {}).get(error_info_name, None)`. */
  function ErrorInfo(state: Option<Dict<Value>>, name: string): Value {
    if state.None? then Null else Get(state.value, name).GetOr(Null)
  }

  /** The error info values the code handles: falsy ones, and dicts. */
  predicate ErrorInfoUsable(info: Value) {
    !Truthy(info) || info.Object?
  }

  /** The key-by-key loop: `error[dest] = error_info.get(src)` for each (src, dest) of the table, in order. */
  function ProjectError(table: Dict<string>, info: Dict<Value>): Dict<Value>
    decreases |table|
  {
    if table == [] then []
    else
      var last := table[|table| - 1];
      Set(ProjectError(table[..|table| - 1], info), last.1, Get(info, last.0).GetOr(Null))
  }

  /** The loop that fills `log_data["error"]`. */
  method FillError(table: Dict<string>, info: Dict<Value>) returns (error: Dict<Value>)
    ensures error == ProjectError(table, info)
  {
    error := [];
    for i := 0 to |table|
      invariant error == ProjectError(table[..i], info)
    {
      assert table[..i + 1][..i] == table[..i];
      error := Set(error, table[i].1, Get(info, table[i].0).GetOr(Null));
    }
    assert table[..|table|] == table;
  }

  /** The projected map's keys are exactly the table's destination keys: every other source key is dropped. */
  lemma {:induction false} ProjectedKeys(table: Dict<string>, info: Dict<Value>, k: string)
    ensures Contains(ProjectError(table, info), k) <==> exists i :: 0 <= i < |table| && table[i].1 == k
  {
    if table != [] {
      var n := |table|;
      var pre := table[..n - 1];
      var before := ProjectError(pre, info);
      var value := Get(info, table[n - 1].0).GetOr(Null);
      ProjectedKeys(pre, info, k);
      SetContains(before, table[n - 1].1, value, k);
      assert ProjectError(table, info) == Set(before, table[n - 1].1, value);
      if Contains(ProjectError(table, info), k) {
        if k != table[n - 1].1 {
          var i :| 0 <= i < |pre| && pre[i].1 == k;
          assert table[i] == pre[i];
        }
      } else {
        forall i | 0 <= i < n ensures table[i].1 != k {
          if i < n - 1 {
            assert table[i] == pre[i];
          }
        }
      }
    }
  }

  /**
   Each destination key holds the value of its source key in the error info,
   or null when the info lacks it; when two sources share a destination, the
   one listed last wins.
   */
  lemma {:induction false} ProjectedValue(table: Dict<string>, info: Dict<Value>, i: nat)
    requires i < |table|
    requires forall j :: i < j < |table| ==> table[j].1 != table[i].1
    ensures Get(ProjectError(table, info), table[i].1) == Some(Get(info, table[i].0).GetOr(Null))
  {
    var n := |table|;
    if i < n - 1 {
      var pre := table[..n - 1];
      assert pre[i] == table[i];
      forall j | i < j < |pre| ensures pre[j].1 != pre[i].1 {
        assert pre[j] == table[j];
      }
      ProjectedValue(pre, info, i);
    }
  }

  /** The record's `error` field: null for falsy error info, else the projection of the dict. */
  function ErrorField(info: Value, table: Dict<string>): Option<Dict<Value>>
    requires ErrorInfoUsable(info)
  {
    if !Truthy(info) then None else Some(ProjectError(table, info.entries))
  }

  /**
   A missing state bag, a missing entry, None and an empty dict all give
   `error: null`; a non-empty dict gives a map whose keys are exactly the
   table's destination keys.
   */
  lemma ErrorFieldCases(state: Option<Dict<Value>>, name: string, table: Dict<string>)
    requires ErrorInfoUsable(ErrorInfo(state, name))
    ensures state.None? ==> ErrorField(ErrorInfo(state, name), table).None?
    ensures state.Some? && !Contains(state.value, name) ==> ErrorField(ErrorInfo(state, name), table).None?
    ensures state.Some? && Get(state.value, name) in {Some(Null), Some(Object([]))} ==>
              ErrorField(ErrorInfo(state, name), table).None?
    ensures ErrorField(ErrorInfo(state, name), table).None? <==> !Truthy(ErrorInfo(state, name))
    ensures ErrorField(ErrorInfo(state, name), table).Some? ==>
              forall k :: Contains(ErrorField(ErrorInfo(state, name), table).value, k) <==>
                          exists i :: 0 <= i < |table| && table[i].1 == k
  {
    var info := ErrorInfo(state, name);
    if Truthy(info) {
      forall k ensures Contains(ProjectError(table, info.entries), k) <==> exists i :: 0 <= i < |table| && table[i].1 == k {
        ProjectedKeys(table, info.entries, k);
      }
    }
  }

  // ---------------------------------------------------------------------
  // The log record
  // ---------------------------------------------------------------------

  /** The fields of the one log line an HTTP exchange produces. */
  datatype LogRecord = LogRecord(
    timestamp: string,
    eventId: string,
    httpMethod: Option<string>,
    path: Option<string>,
    clientIp: string,
    userAgent: Option<string>,
    error: Option<Dict<Value>>,
    timeTakenMs: nat,
    statusCode: int,
    logType: string,
    level: string)
}
