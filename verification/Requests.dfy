/**
 The requests of the console protocol as compact JSON text, and how the firmware's flat key search
 reads them back.
 */
module Requests {
  import opened Common
  import opened Base64
  import opened Sha256Hex
  import opened OtaUpdate
  import opened JsonText
  import opened JsonScalars
  import opened Commands

  // Compact JSON: a quoted string, then the punctuation and numbers up to the next one.
  datatype Piece = Piece(quoted: string, plain: string)

  function Text(ps: seq<Piece>): string {
    if ps == [] then "" else "\"" + ps[0].quoted + "\"" + (ps[0].plain + Text(ps[1..]))
  }

  ghost predicate NoQuote(s: string) {
    forall i :: 0 <= i < |s| ==> s[i] != '"'
  }

  predicate IsPunctuation(c: char) {
    c == ',' || c == ':' || c == '{' || c == '}'
  }

  // No escapes, and punctuation after every quoted string.
  ghost predicate CompactPiece(p: Piece) {
    NoQuote(p.quoted) && NoQuote(p.plain) && p.plain != [] && IsPunctuation(p.plain[0])
  }

  ghost predicate Compact(ps: seq<Piece>) {
    forall i :: 0 <= i < |ps| ==> CompactPiece(ps[i])
  }

  ghost predicate IsKey(key: string) {
    0 < |key| < 38 && NoQuote(key) && !IsPunctuation(key[0])
  }

  // The piece is `key` in key position.
  ghost predicate IsKeyPiece(p: Piece, key: string) {
    p.quoted == key && p.plain != [] && p.plain[0] == ':'
  }

  /* ---- The search, piece by piece ---- */

  lemma {:induction false} SkipPlain(p: string, rest: string, pattern: string)
    requires NoQuote(p) && pattern != [] && pattern[0] == '"'
    ensures Search(p + rest, pattern) == Search(rest, pattern)
  {
    if p == [] {
      assert p + rest == rest;
    } else {
      assert (p + rest)[0] == p[0] && (p + rest)[1..] == p[1..] + rest;
      SkipPlain(p[1..], rest, pattern);
      if |p + rest| < |pattern| {
        assert |rest| < |pattern|;
      } else {
        assert !(pattern <= p + rest);
      }
    }
  }

  // A quoted string that is not the key, or is not followed by a colon, is stepped over whole.
  lemma {:induction false} SkipQuoted(s: string, rest: string, key: string)
    requires NoQuote(s) && IsKey(key) && rest != [] && IsPunctuation(rest[0])
    requires s != key || rest[0] != ':'
    ensures Search("\"" + s + "\"" + rest, "\"" + key + "\"") == Search(rest, "\"" + key + "\"")
  {
    var pattern := "\"" + key + "\"";
    var text := "\"" + s + "\"" + rest;
    var closing := "\"" + rest;
    assert text == "\"" + (s + closing) && text[1..] == s + closing;
    assert Search(closing, pattern) == Search(rest, pattern) by {
      assert closing[1..] == rest;
      assert pattern[1] == key[0] && closing[1] == rest[0];
    }
    if s == key {
      assert pattern <= text && text[|pattern|..] == rest;
      assert SkipSpace(rest) == rest;
    } else {
      if pattern <= text {
        OnlySameQuoted(s, rest, key);
      }
      SkipPlain(s, closing, pattern);
    }
  }

  lemma OnlySameQuoted(s: string, rest: string, key: string)
    requires NoQuote(s) && NoQuote(key) && "\"" + key + "\"" <= "\"" + s + "\"" + rest
    ensures s == key
  {
    QuotedAt(s, rest);
    QuotedAt(key, "");
    assert "\"" + key + "\"" + "" == "\"" + key + "\"";
  }

  lemma QuotedAt(s: string, rest: string)
    ensures var text := "\"" + s + "\"" + rest;
            text[|s| + 1] == '"' && forall i {:trigger s[i]} :: 0 <= i < |s| ==> text[i + 1] == s[i]
  {
  }

  // The flat search finds exactly the first piece that is the key in key position: values that equal
  // a key name, and key names inside longer strings, never mislead it.
  lemma {:induction false} SearchFindsFirstKey(ps: seq<Piece>, i: nat, key: string)
    requires Compact(ps) && IsKey(key) && i < |ps| && IsKeyPiece(ps[i], key)
    requires forall j :: 0 <= j < i ==> !IsKeyPiece(ps[j], key)
    ensures Search(Text(ps), "\"" + key + "\"") == Some(SkipSpace(ps[i].plain[1..] + Text(ps[i + 1..])))
    decreases i
  {
    var pattern := "\"" + key + "\"";
    var rest := ps[1..];
    var after := ps[0].plain + Text(rest);
    assert CompactPiece(ps[0]);
    if i == 0 {
      SearchHere(key, after);
      assert after[1..] == ps[0].plain[1..] + Text(rest);
    } else {
      assert !IsKeyPiece(ps[0], key);
      SkipQuoted(ps[0].quoted, after, key);
      SkipPlain(ps[0].plain, Text(rest), pattern);
      assert forall k :: 0 <= k < |rest| ==> rest[k] == ps[k + 1];
      SearchFindsFirstKey(rest, i - 1, key);
      assert rest[i..] == ps[i + 1..];
    }
  }

  lemma SearchHere(key: string, after: string)
    requires after != [] && after[0] == ':'
    ensures Search("\"" + key + "\"" + after, "\"" + key + "\"") == Some(SkipSpace(after[1..]))
  {
    var pattern := "\"" + key + "\"";
    assert pattern <= pattern + after && (pattern + after)[|pattern|..] == after;
    assert SkipSpace(after) == after;
  }

  // The same for a whole object.
  lemma FindsFirstKey(ps: seq<Piece>, i: nat, key: string)
    requires Compact(ps) && IsKey(key) && i < |ps| && IsKeyPiece(ps[i], key)
    requires forall j :: 0 <= j < i ==> !IsKeyPiece(ps[j], key)
    ensures FindKey("{" + Text(ps), key) == Some(SkipSpace(ps[i].plain[1..] + Text(ps[i + 1..])))
  {
    SkipPlain("{", Text(ps), "\"" + key + "\"");
    SearchFindsFirstKey(ps, i, key);
  }

  // Without the key in key position the search finds nothing.
  lemma {:induction false} SearchFindsNothing(ps: seq<Piece>, key: string)
    requires Compact(ps) && IsKey(key) && forall j :: 0 <= j < |ps| ==> !IsKeyPiece(ps[j], key)
    ensures Search(Text(ps), "\"" + key + "\"") == None
  {
    if ps != [] {
      var rest := ps[1..];
      assert CompactPiece(ps[0]) && !IsKeyPiece(ps[0], key);
      SkipQuoted(ps[0].quoted, ps[0].plain + Text(rest), key);
      SkipPlain(ps[0].plain, Text(rest), "\"" + key + "\"");
      assert forall k :: 0 <= k < |rest| ==> rest[k] == ps[k + 1];
      SearchFindsNothing(rest, key);
    }
  }

  lemma FindsNothing(ps: seq<Piece>, key: string)
    requires Compact(ps) && IsKey(key) && forall j :: 0 <= j < |ps| ==> !IsKeyPiece(ps[j], key)
    ensures FindKey("{" + Text(ps), key) == None
  {
    SkipPlain("{", Text(ps), "\"" + key + "\"");
    SearchFindsNothing(ps, key);
  }

  /* ---- The requests ---- */

  // The device queries that take no parameters.
  datatype Query = Info | Uptime | Restart | CanDiagnostics {
    function Name(): string {
      match this
      case Info => "device.info"
      case Uptime => "device.uptime"
      case Restart => "device.reset"
      case CanDiagnostics => "device.can_diagnostics"
    }
  }

  datatype Request =
    | BeginRequest(size: uint32, digest: Digest)
    | WriteRequest(offset: uint32, data: string)
    | EndRequest
    | CancelRequest
    | StatusRequest
    | RebootRequest
    | HeatingSetRequest(on: bool)
    | HeatingGetRequest
    | SetTimerRequest(minutes: uint32)
    | SetIntervalRequest(ms: uint32)
    | EventsRequest(limit: Option<uint32>)
    | DiagnosticsRequest(limit: Option<uint32>)
    | QueryRequest(query: Query)
  {
    function Method(): string {
      match this
      case BeginRequest(_, _) => "firmware.begin"
      case WriteRequest(_, _) => "firmware.write"
      case EndRequest => "firmware.end"
      case CancelRequest => "firmware.cancel"
      case StatusRequest => "firmware.status"
      case RebootRequest => "firmware.reboot"
      case HeatingSetRequest(_) => "heating.set"
      case HeatingGetRequest => "heating.get"
      case SetTimerRequest(_) => "heating.set_auto_off_timer"
      case SetIntervalRequest(_) => "telemetry.set_interval"
      case EventsRequest(_) => "device.events"
      case DiagnosticsRequest(_) => "device.diagnostics"
      case QueryRequest(query) => query.Name()
    }

    // Everything after the method name.
    function Tail(): seq<Piece> {
      match this
      case BeginRequest(size, digest) =>
        [Piece("params", ":{"), Piece("size", ":" + Dec(size) + ","), Piece("sha256", ":"), Piece(Hex(digest), "}}")]
      case WriteRequest(offset, data) =>
        [Piece("params", ":{"), Piece("offset", ":" + Dec(offset) + ","), Piece("data", ":"), Piece(data, "}}")]
      case HeatingSetRequest(on) => [Piece("params", ":{"), Piece("enabled", if on then ":true}}" else ":false}}")]
      case SetTimerRequest(minutes) => NumberTail("minutes", minutes)
      case SetIntervalRequest(ms) => NumberTail("ms", ms)
      case EventsRequest(Some(limit)) => NumberTail("limit", limit)
      case DiagnosticsRequest(Some(limit)) => NumberTail("limit", limit)
      case _ => []
    }

    function Pieces(id: nat): seq<Piece> {
      [Piece("jsonrpc", ":"), Piece("2.0", ","), Piece("id", ":" + Dec(id) + ","), Piece("method", ":"),
       Piece(Method(), if Tail() == [] then "}" else ",")] + Tail()
    }

    // `json.dumps` with compact separators.
    function Line(id: nat): string {
      "{" + Text(Pieces(id))
    }

    // The command the device should make of it.
    function Meaning(id: nat): Command {
      var echo := Id(Dec(id), true);
      match this
      case BeginRequest(size, digest) => FirmwareBegin(echo, size, Hex(digest))
      case WriteRequest(offset, data) => FirmwareWrite(echo, offset, data)
      case EndRequest => FirmwareEnd(echo)
      case CancelRequest => FirmwareCancel(echo)
      case StatusRequest => FirmwareStatus(echo)
      case RebootRequest => FirmwareReboot(echo)
      case HeatingSetRequest(on) => HeatingSet(echo, on)
      case HeatingGetRequest => HeatingGet(echo)
      case SetTimerRequest(minutes) => HeatingSetTimer(echo, minutes)
      case SetIntervalRequest(ms) => TelemetrySetInterval(echo, ms)
      case EventsRequest(limit) => DeviceEvents(echo, if limit.Some? then limit.value else 8)
      case DiagnosticsRequest(limit) => DeviceDiagnostics(echo, if limit.Some? then limit.value else 5)
      case QueryRequest(query) => DeviceQuery(echo, query.Name())
    }
  }

  // `params` with one number.
  function NumberTail(key: string, n: nat): seq<Piece> {
    [Piece("params", ":{"), Piece(key, ":" + Dec(n) + "}}")]
  }

  // What the updater puts in `data`: base64 text within the device's limit.
  ghost predicate Sendable(r: Request) {
    r.WriteRequest? ==> |r.data| <= MAX_BASE64_CHARS && Base64Text(r.data)
  }

  ghost predicate Base64Text(s: string) {
    forall i :: 0 <= i < |s| ==> Value(s[i]) >= 0 || s[i] == '='
  }

  // What the encoder writes is base64 text.
  lemma {:induction false} EncodeIsBase64Text(bytes: seq<byte>)
    ensures Base64Text(Encode(bytes))
    decreases |bytes|
  {
    if |bytes| == 1 {
      UnpackPack(bytes[0], 0, 0);
    } else if |bytes| == 2 {
      UnpackPack(bytes[0], bytes[1], 0);
    } else if |bytes| >= 3 {
      UnpackPack(bytes[0], bytes[1], bytes[2]);
      EncodeIsBase64Text(bytes[3..]);
    }
  }

  lemma Base64TextIsPlain(s: string)
    requires Base64Text(s)
    ensures NoQuote(s) && '\\' !in s && OneLine(s)
  {
  }

  // No character that ends a line or a C string.
  ghost predicate OneLine(s: string) {
    forall i :: 0 <= i < |s| ==> s[i] != '\n' && s[i] != '\r' && s[i] != '\0'
  }

  lemma CompactNumber(key: string, n: nat)
    requires NoQuote(key)
    ensures CompactPiece(Piece(key, ":" + Dec(n) + ",")) && CompactPiece(Piece(key, ":" + Dec(n) + "}}"))
  {
  }

  lemma CompactNumberTail(key: string, n: nat)
    requires NoQuote(key)
    ensures Compact(NumberTail(key, n))
  {
    CompactNumber(key, n);
  }

  lemma CompactRequest(r: Request, id: nat)
    requires Sendable(r)
    ensures Compact(r.Pieces(id))
  {
    CompactHead(r, id);
    CompactTail(r);
    HeadPieces(r, id);
    hide CompactPiece, Dec, Request.Tail, Request.Method, Request.Pieces;
    var ps := r.Pieces(id);
    forall i | 5 <= i < |ps| ensures CompactPiece(ps[i]) {
      assert ps[i] == ps[5..][i - 5] == r.Tail()[i - 5];
    }
  }

  lemma CompactHead(r: Request, id: nat)
    ensures forall i :: 0 <= i < 5 ==> CompactPiece(r.Pieces(id)[i])
  {
    CompactNumber("id", id);
    NameHasNoQuote(r);
    hide Dec, Request.Tail, Request.Method;
    var ps := r.Pieces(id);
    assert CompactPiece(ps[0]) && CompactPiece(ps[1]) && CompactPiece(ps[2]) && CompactPiece(ps[3]);
    assert CompactPiece(ps[4]);
  }

  lemma NameHasNoQuote(r: Request)
    ensures NoQuote(r.Method())
  {
    hide NoQuote, OneLine;
    MethodIsPlain(r);
  }

  // A method name: no quote, no escape, one line, and short enough for its buffer, but longer than any key.
  ghost predicate PlainName(s: string) {
    NoQuote(s) && '\\' !in s && OneLine(s) && 8 < |s| < METHOD_BUFFER
  }

  lemma MethodIsPlain(r: Request)
    ensures PlainName(r.Method())
  {
    hide PlainName;
    FirmwareNames();
    OtherFirmwareNames();
    HeatingNames();
    DeviceNames();
    QueryNames();
  }

  lemma FirmwareNames()
    ensures PlainName("firmware.begin") && PlainName("firmware.write") && PlainName("firmware.end")
  {
  }

  lemma OtherFirmwareNames()
    ensures PlainName("firmware.cancel") && PlainName("firmware.status") && PlainName("firmware.reboot")
  {
  }

  lemma HeatingNames()
    ensures PlainName("heating.set") && PlainName("heating.get") && PlainName("heating.set_auto_off_timer")
  {
  }

  lemma DeviceNames()
    ensures PlainName("device.events") && PlainName("device.diagnostics") && PlainName("telemetry.set_interval")
  {
  }

  lemma QueryNames()
    ensures PlainName("device.info") && PlainName("device.uptime") && PlainName("device.reset")
    ensures PlainName("device.can_diagnostics")
  {
  }

  lemma CompactTail(r: Request)
    requires Sendable(r)
    ensures Compact(r.Tail())
  {
    hide Compact, NumberTail, IsPunctuation;
    CompactNothing();
    match r
    case BeginRequest(size, digest) => CompactBegin(size, digest);
    case WriteRequest(offset, data) => CompactWrite(offset, data);
    case HeatingSetRequest(on) => CompactEnabled(on);
    case SetTimerRequest(minutes) => CompactNumberTail("minutes", minutes);
    case SetIntervalRequest(ms) => CompactNumberTail("ms", ms);
    case EventsRequest(Some(limit)) => CompactNumberTail("limit", limit);
    case DiagnosticsRequest(Some(limit)) => CompactNumberTail("limit", limit);
    case _ =>
  }

  lemma CompactNothing()
    ensures Compact([])
  {
  }

  lemma CompactBegin(size: uint32, digest: Digest)
    ensures Compact(BeginRequest(size, digest).Tail())
  {
    hide Hex, Dec;
    HexIsPlain(digest);
    CompactNumber("size", size);
  }

  lemma CompactWrite(offset: uint32, data: string)
    requires Sendable(WriteRequest(offset, data))
    ensures Compact(WriteRequest(offset, data).Tail())
  {
    Base64TextIsPlain(data);
    hide Dec, Value, Base64Text;
    CompactNumber("offset", offset);
  }

  lemma CompactEnabled(on: bool)
    ensures Compact(HeatingSetRequest(on).Tail())
  {
    assert NoQuote("params") && NoQuote(":{") && NoQuote("enabled") && NoQuote(":true}}") && NoQuote(":false}}");
    hide NoQuote;
    assert ":{"[0] == ":true}}"[0] == ":false}}"[0] == ':';
  }

  lemma {:induction false} HexIsPlain(bytes: seq<byte>)
    ensures NoQuote(Hex(bytes)) && '\\' !in Hex(bytes) && OneLine(Hex(bytes))
  {
    if bytes != [] { HexIsPlain(bytes[1..]); }
  }

  lemma {:induction false} UnquotePlain(s: string, rest: string, room: nat)
    requires NoQuote(s) && '\\' !in s && |s| <= room
    ensures Unquote(s + "\"" + rest, room) == Some(s)
  {
    var text := s + "\"" + rest;
    if s != [] {
      UnquotePlain(s[1..], rest, room - 1);
      assert text[1..] == s[1..] + "\"" + rest;
      assert s[0] in s;
      assert s == [s[0]] + s[1..];
    }
  }

  lemma ParseQuoted(s: string, rest: string, size: nat)
    requires NoQuote(s) && '\\' !in s && |s| < size
    ensures ParseString(Some("\"" + s + "\"" + rest), size) == Some(s)
  {
    assert ("\"" + s + "\"" + rest)[1..] == s + "\"" + rest;
    UnquotePlain(s, rest, size - 1);
  }

  /* ---- The round trip ---- */

  // What the flat search returns for a key whose value is the next quoted string.
  lemma FindsString(ps: seq<Piece>, i: nat, key: string, size: nat)
    requires Compact(ps) && IsKey(key) && i + 1 < |ps| && ps[i] == Piece(key, ":")
    requires forall j :: 0 <= j < i ==> ps[j].quoted != key
    requires '\\' !in ps[i + 1].quoted && |ps[i + 1].quoted| < size
    ensures ParseString(FindKey("{" + Text(ps), key), size) == Some(ps[i + 1].quoted)
  {
    FindsFirstKey(ps, i, key);
    var q, rest := ps[i + 1].quoted, ps[i + 1].plain + Text(ps[i + 2..]);
    assert CompactPiece(ps[i + 1]);
    assert ps[i + 1..][1..] == ps[i + 2..];
    assert ps[i].plain[1..] + Text(ps[i + 1..]) == "\"" + q + "\"" + rest;
    assert SkipSpace("\"" + q + "\"" + rest) == "\"" + q + "\"" + rest;
    ParseQuoted(q, rest, size);
  }

  // ... and for a key whose value is a number.
  lemma FindsNumber(ps: seq<Piece>, i: nat, key: string, n: nat, after: string) returns (rest: string)
    requires Compact(ps) && IsKey(key) && i < |ps| && ps[i] == Piece(key, ":" + Dec(n) + after)
    requires after != [] && (after[0] == ',' || after[0] == '}')
    requires forall j :: 0 <= j < i ==> ps[j].quoted != key
    ensures FindKey("{" + Text(ps), key) == Some(Dec(n) + rest)
    ensures rest != [] && (rest[0] == ',' || rest[0] == '}')
  {
    hide FindKey, Text, IsKey, Compact, Dec, SkipSpace, AllDigits;
    FindsFirstKey(ps, i, key);
    rest := after + Text(ps[i + 1..]);
    assert ps[i].plain[1..] == Dec(n) + after;
    assert ps[i].plain[1..] + Text(ps[i + 1..]) == Dec(n) + rest;
    NumberIsNoSpace(n, rest);
  }

  lemma NumberIsNoSpace(n: nat, rest: string)
    ensures SkipSpace(Dec(n) + rest) == Dec(n) + rest
  {
    hide Dec;
    assert (Dec(n) + rest)[0] == Dec(n)[0];
  }

  lemma HeadPieces(r: Request, id: nat)
    ensures var ps := r.Pieces(id);
            && |ps| == 5 + |r.Tail()| && ps[5..] == r.Tail() && r.Line(id) == "{" + Text(ps)
            && ps[0] == Piece("jsonrpc", ":") && ps[1].quoted == "2.0" && ps[2] == Piece("id", ":" + Dec(id) + ",")
            && ps[3] == Piece("method", ":") && ps[4].quoted == r.Method()
            && |ps[0].quoted| == 7 && |ps[1].quoted| == 3 && |ps[2].quoted| == 2 && |ps[3].quoted| == 6
  {
    hide Dec, Request.Tail, Request.Method;
  }

  lemma RoundTripHead(r: Request, id: uint32)
    requires Sendable(r)
    ensures r.Line(id) != [] && r.Line(id)[0] == '{' && ParseId(r.Line(id)) == Some(Id(Dec(id), true))
    ensures ParseString(FindKey(r.Line(id), "jsonrpc"), VERSION_BUFFER) == Some("2.0")
    ensures ParseString(FindKey(r.Line(id), "method"), METHOD_BUFFER) == Some(r.Method())
  {
    hide Dec, Request.Tail, Request.Method, Request.Pieces, Request.Line, FindKey, ParseString, Text;
    HeadPieces(r, id);
    CompactRequest(r, id);
    IdIsRead(r, id);
    var ps := r.Pieces(id);
    assert IsKey("jsonrpc") by { hide *; HeadKeys(); }
    assert '\\' !in "2.0";
    FindsString(ps, 0, "jsonrpc", VERSION_BUFFER);
    MethodIsRead(r, id);
  }

  lemma HeadKeys()
    ensures IsKey("jsonrpc") && IsKey("id") && IsKey("method") && IsKey("params")
  {
  }

  lemma IdIsRead(r: Request, id: uint32)
    requires Sendable(r)
    ensures ParseId(r.Line(id)) == Some(Id(Dec(id), true))
  {
    hide Dec, Request.Tail, Request.Method, Request.Pieces, Request.Line, FindKey, Text, IdToken, IsKey, Compact;
    HeadPieces(r, id);
    CompactRequest(r, id);
    HeadKeys();
    var rest := FindsNumber(r.Pieces(id), 2, "id", id, ",");
    DecLength32(id);
    IdTokenDec(id, rest, ID_BUFFER - 1);
  }

  lemma MethodIsRead(r: Request, id: uint32)
    requires Sendable(r)
    ensures ParseString(FindKey(r.Line(id), "method"), METHOD_BUFFER) == Some(r.Method())
  {
    hide Dec, Request.Tail, Request.Method, Request.Pieces, Request.Line, FindKey, Text, ParseString, IsKey, Compact;
    hide NoQuote, OneLine;
    HeadPieces(r, id);
    CompactRequest(r, id);
    HeadKeys();
    MethodIsPlain(r);
    FindsString(r.Pieces(id), 3, "method", METHOD_BUFFER);
  }

  // The members of `params` are found inside it.
  lemma FindsParams(r: Request, id: uint32)
    requires Sendable(r) && r.Tail() != []
    ensures Params(r.Line(id)) == Some("{" + Text(r.Tail()[1..])) && Compact(r.Tail()[1..])
  {
    TailIsParams(r);
    CompactRequest(r, id);
    CompactTail(r);
    HeadPieces(r, id);
    NameIsLong(r);
    assert IsKey("params");
    hide Dec, Request.Pieces, Request.Line, Request.Method, Request.Tail, IsKey, Compact, FindKey;
    var ps := r.Pieces(id);
    assert ps[5] == ps[5..][0];
    assert ps[3].quoted[0] == 'm' && "params"[0] == 'p';
    FindsFirstKey(ps, 5, "params");
    assert ps[6..] == r.Tail()[1..];
    assert ps[5].plain[1..] == "{";
    assert SkipSpace("{" + Text(ps[6..])) == "{" + Text(ps[6..]);
    CompactFrom(r.Tail(), 1);
  }

  lemma CompactFrom(ps: seq<Piece>, k: nat)
    requires Compact(ps) && k <= |ps|
    ensures Compact(ps[k..])
  {
  }

  lemma NameIsLong(r: Request)
    ensures |r.Method()| > 8
  {
    hide NoQuote, OneLine;
    MethodIsPlain(r);
  }

  lemma TailIsParams(r: Request)
    requires r.Tail() != []
    ensures r.Tail()[0] == Piece("params", ":{")
  {
    hide Dec, Hex;
  }

  // Every request of the protocol is understood exactly: id, method and parameters.
  lemma {:induction false} RequestRoundTrip(r: Request, id: uint32)
    requires Sendable(r)
    ensures Dispatch(r.Line(id)) == r.Meaning(id)
  {
    hide *;
    RoundTripHead(r, id);
    var line := r.Line(id);
    Dispatched(line, Id(Dec(id), true), r.Method());
    match r
    case BeginRequest(size, digest) =>
      BeginParams(size, digest, id);
      FirmwareHandled(r, id, line);
    case WriteRequest(offset, data) =>
      WriteParams(offset, data, id);
      FirmwareHandled(r, id, line);
    case HeatingSetRequest(on) =>
      EnabledParam(on, id);
      HeatingHandled(r, id, line);
    case HeatingGetRequest =>
      HeatingHandled(r, id, line);
    case SetTimerRequest(minutes) =>
      TimerParam(minutes, id);
      HeatingHandled(r, id, line);
    case SetIntervalRequest(ms) =>
      IntervalParam(ms, id);
      HeatingHandled(r, id, line);
    case EventsRequest(limit) =>
      LimitParam(r, limit, id);
      DeviceHandled(r, id, line);
    case DiagnosticsRequest(limit) =>
      LimitParam(r, limit, id);
      DeviceHandled(r, id, line);
    case QueryRequest(_) =>
      DeviceHandled(r, id, line);
    case _ =>
      FirmwareHandled(r, id, line);
  }

  lemma Dispatched(cmd: string, id: Id, name: string)
    requires cmd != [] && cmd[0] == '{' && ParseId(cmd) == Some(id)
    requires ParseString(FindKey(cmd, "jsonrpc"), VERSION_BUFFER) == Some("2.0")
    requires ParseString(FindKey(cmd, "method"), METHOD_BUFFER) == Some(name)
    ensures Dispatch(cmd) == Handle(id, name, cmd)
  {
    hide ParseId, FindKey, ParseString, Handle;
    assert SkipSpace(cmd) == cmd;
  }

  lemma FirmwareHandled(r: Request, id: uint32, line: string)
    requires r.BeginRequest? || r.WriteRequest? || r.EndRequest?
             || r.CancelRequest? || r.StatusRequest? || r.RebootRequest?
    requires r.BeginRequest? ==> ParseUint(Param(line, "size")) == Some(r.size)
                                 && ParseString(Param(line, "sha256"), SHA_BUFFER) == Some(Hex(r.digest))
    requires r.WriteRequest? ==> ParseUint(Param(line, "offset")) == Some(r.offset)
                                 && ParseString(Param(line, "data"), DATA_BUFFER) == Some(r.data)
    ensures Handle(Id(Dec(id), true), r.Method(), line) == r.Meaning(id)
  {
    hide ParseString, ParseUint, ParseBool, OptionalLimit, Param, Dec;
    DistinctMethods();
  }

  lemma HeatingHandled(r: Request, id: uint32, line: string)
    requires r.HeatingSetRequest? || r.HeatingGetRequest? || r.SetTimerRequest? || r.SetIntervalRequest?
    requires r.HeatingSetRequest? ==> ParseBool(Param(line, "enabled")) == Some(r.on)
    requires r.SetTimerRequest? ==> ParseUint(Param(line, "minutes")) == Some(r.minutes)
    requires r.SetIntervalRequest? ==> ParseUint(Param(line, "ms")) == Some(r.ms)
    ensures Handle(Id(Dec(id), true), r.Method(), line) == r.Meaning(id)
  {
    hide Handle, ParseUint, ParseBool, Param, Dec, Request.Tail;
    HeatingNamed(Id(Dec(id), true), line);
  }

  lemma HeatingNamed(id: Id, cmd: string)
    ensures Handle(id, "heating.get", cmd) == HeatingGet(id)
    ensures ParseBool(Param(cmd, "enabled")).Some? ==>
              Handle(id, "heating.set", cmd) == HeatingSet(id, ParseBool(Param(cmd, "enabled")).value)
    ensures ParseUint(Param(cmd, "minutes")).Some? ==>
              Handle(id, "heating.set_auto_off_timer", cmd)
              == HeatingSetTimer(id, ParseUint(Param(cmd, "minutes")).value)
    ensures ParseUint(Param(cmd, "ms")).Some? ==>
              Handle(id, "telemetry.set_interval", cmd) == TelemetrySetInterval(id, ParseUint(Param(cmd, "ms")).value)
  {
    hide ParseString, ParseUint, ParseBool, OptionalLimit, Param;
    DistinctMethods();
  }

  lemma DeviceHandled(r: Request, id: uint32, line: string)
    requires r.EventsRequest? || r.DiagnosticsRequest? || r.QueryRequest?
    requires r.EventsRequest? ==> OptionalLimit(line, 8) == Some(if r.limit.Some? then r.limit.value else 8)
    requires r.DiagnosticsRequest? ==> OptionalLimit(line, 5) == Some(if r.limit.Some? then r.limit.value else 5)
    ensures Handle(Id(Dec(id), true), r.Method(), line) == r.Meaning(id)
  {
    hide Handle, OptionalLimit, Dec, Request.Tail;
    EventsNamed(Id(Dec(id), true), line);
    QueryNamed(Id(Dec(id), true), line);
  }

  lemma EventsNamed(id: Id, cmd: string)
    ensures OptionalLimit(cmd, 8).Some? ==>
              Handle(id, "device.events", cmd) == DeviceEvents(id, OptionalLimit(cmd, 8).value)
    ensures OptionalLimit(cmd, 5).Some? ==>
              Handle(id, "device.diagnostics", cmd) == DeviceDiagnostics(id, OptionalLimit(cmd, 5).value)
  {
    hide ParseString, ParseUint, ParseBool, OptionalLimit, Param;
    DistinctMethods();
  }

  lemma QueryNamed(id: Id, cmd: string)
    ensures Handle(id, "device.info", cmd) == DeviceQuery(id, "device.info")
    ensures Handle(id, "device.uptime", cmd) == DeviceQuery(id, "device.uptime")
    ensures Handle(id, "device.reset", cmd) == DeviceQuery(id, "device.reset")
    ensures Handle(id, "device.can_diagnostics", cmd) == DeviceQuery(id, "device.can_diagnostics")
  {
    hide ParseString, ParseUint, ParseBool, OptionalLimit, Param;
    DistinctMethods();
  }

  lemma EnabledParam(on: bool, id: uint32)
    ensures ParseBool(Param(HeatingSetRequest(on).Line(id), "enabled")) == Some(on)
  {
    hide Request.Line, FindKey, ParseBool, SkipSpace, Compact, IsKey, Text;
    var r := HeatingSetRequest(on);
    FindsParams(r, id);
    EnabledValue(on);
    var ps := r.Tail()[1..];
    assert IsKey("enabled") by { EnabledIsKey(); }
    FindsFirstKey(ps, 0, "enabled");
    EmptyText();
    assert ps[1..] == [] && ps[0].plain == ":" + ps[0].plain[1..];
    assert ps[0].plain[1..] + Text([]) == ps[0].plain[1..];
  }

  lemma EnabledIsKey()
    ensures IsKey("enabled")
  {
  }

  lemma EnabledValue(on: bool)
    ensures var value := (if on then ":true}}" else ":false}}")[1..];
            SkipSpace(value) == value && ParseBool(Some(value)) == Some(on)
  {
    assert ":true}}"[1..] == "true" + "}}" && ":false}}"[1..] == "false" + "}}";
    assert ("true" + "}}")[4..] == "}}" && ("false" + "}}")[5..] == "}}";
    assert ("false" + "}}")[0] == 'f' && "true"[0] == 't';
  }

  lemma TimerParam(minutes: uint32, id: uint32)
    ensures ParseUint(Param(SetTimerRequest(minutes).Line(id), "minutes")) == Some(minutes)
  {
    assert IsKey("minutes");
    hide Request.Line, NumberTail;
    NumberParam(SetTimerRequest(minutes), "minutes", minutes, id);
  }

  lemma IntervalParam(ms: uint32, id: uint32)
    ensures ParseUint(Param(SetIntervalRequest(ms).Line(id), "ms")) == Some(ms)
  {
    assert IsKey("ms");
    hide Request.Line, NumberTail;
    NumberParam(SetIntervalRequest(ms), "ms", ms, id);
  }

  lemma NumberParam(r: Request, key: string, n: uint32, id: uint32)
    requires Sendable(r) && r.Tail() == NumberTail(key, n) && IsKey(key)
    ensures Params(r.Line(id)).Some? && Param(r.Line(id), key).Some? && ParseUint(Param(r.Line(id), key)) == Some(n)
  {
    FindsParams(r, id);
    hide Request.Line, Request.Tail, FindKey, Dec;
    var ps := NumberTail(key, n)[1..];
    var rest := FindsNumber(ps, 0, key, n, "}}");
    ParseUintDec(n, rest);
  }

  lemma LimitParam(r: Request, limit: Option<uint32>, id: uint32)
    requires r == EventsRequest(limit) || r == DiagnosticsRequest(limit)
    ensures forall default: uint32 ::
              OptionalLimit(r.Line(id), default) == Some(if limit.Some? then limit.value else default)
  {
    if limit.Some? {
      assert IsKey("limit");
      NumberParam(r, "limit", limit.value, id);
      hide Request.Line, FindKey, ParseUint;
    } else {
      NoParams(r, id);
      hide Request.Line, FindKey, ParseUint;
    }
  }

  lemma NoParams(r: Request, id: uint32)
    requires Sendable(r) && r.Tail() == []
    ensures FindKey(r.Line(id), "params") == None
  {
    CompactRequest(r, id);
    HeadPieces(r, id);
    NameIsLong(r);
    assert IsKey("params");
    hide Dec, Request.Pieces, Request.Line, Request.Method, Request.Tail, FindKey, IsKey, Compact;
    var ps := r.Pieces(id);
    assert ps[3].quoted[0] == 'm' && "params"[0] == 'p';
    FindsNothing(ps, "params");
  }

  lemma BeginParams(size: uint32, digest: Digest, id: uint32)
    ensures var line := BeginRequest(size, digest).Line(id);
            && ParseUint(Param(line, "size")) == Some(size)
            && ParseString(Param(line, "sha256"), SHA_BUFFER) == Some(Hex(digest))
  {
    var r := BeginRequest(size, digest);
    FindsParams(r, id);
    HexIsPlain(digest);
    hide Request.Line;
    var ps := r.Tail()[1..];
    assert |ps[0].quoted| == 4 && |"sha256"| == 6;
    var rest := FindsNumber(ps, 0, "size", size, ",");
    ParseUintDec(size, rest);
    FindsString(ps, 1, "sha256", SHA_BUFFER);
  }

  lemma WriteParams(offset: uint32, data: string, id: uint32)
    requires Sendable(WriteRequest(offset, data))
    ensures var line := WriteRequest(offset, data).Line(id);
            && ParseUint(Param(line, "offset")) == Some(offset)
            && ParseString(Param(line, "data"), DATA_BUFFER) == Some(data)
  {
    var r := WriteRequest(offset, data);
    Base64TextIsPlain(data);
    FindsParams(r, id);
    hide Request.Line;
    var ps := r.Tail()[1..];
    assert |ps[0].quoted| == 6 && |"data"| == 4;
    var rest := FindsNumber(ps, 0, "offset", offset, ",");
    ParseUintDec(offset, rest);
    FindsString(ps, 1, "data", DATA_BUFFER);
  }

  /* ---- Requests as lines ---- */

  lemma {:induction false} TextIsOneLine(ps: seq<Piece>)
    requires forall i :: 0 <= i < |ps| ==> OneLinePiece(ps[i])
    ensures OneLine(Text(ps))
  {
    if ps != [] {
      assert OneLinePiece(ps[0]);
      TextIsOneLine(ps[1..]);
    }
  }

  lemma TextLength(ps: seq<Piece>)
    requires ps != []
    ensures |Text(ps)| == 2 + |ps[0].quoted| + |ps[0].plain| + |Text(ps[1..])|
  {
  }

  ghost predicate OneLinePiece(p: Piece) {
    OneLine(p.quoted) && OneLine(p.plain)
  }

  lemma TailFits(r: Request)
    requires Sendable(r)
    ensures |Text(r.Tail())| <= 850
    ensures forall i :: 0 <= i < |r.Tail()| ==> OneLinePiece(r.Tail()[i])
  {
    match r
    case BeginRequest(size, digest) =>
      BeginTailFits(size, digest);
    case WriteRequest(offset, data) =>
      WriteTailFits(offset, data);
    case HeatingSetRequest(on) =>
      EnabledTailFits(on);
    case SetTimerRequest(minutes) =>
      NumberTailFits("minutes", minutes);
    case SetIntervalRequest(ms) =>
      NumberTailFits("ms", ms);
    case EventsRequest(Some(limit)) =>
      NumberTailFits("limit", limit);
    case DiagnosticsRequest(Some(limit)) =>
      NumberTailFits("limit", limit);
    case _ =>
  }

  lemma EnabledTailFits(on: bool)
    ensures var ps := HeatingSetRequest(on).Tail();
            |Text(ps)| <= 850 && forall i :: 0 <= i < |ps| ==> OneLinePiece(ps[i])
  {
    assert OneLine("params") && OneLine(":{") && OneLine("enabled") && OneLine(":true}}") && OneLine(":false}}");
    hide OneLine, Text;
    var ps := HeatingSetRequest(on).Tail();
    assert ps[1..][1..] == [];
    TextLength(ps);
    TextLength(ps[1..]);
    EmptyText();
    assert |ps[1].plain| <= 8;
  }

  lemma NumberTailFits(key: string, n: uint32)
    requires OneLine(key) && |key| <= 10
    ensures var ps := NumberTail(key, n);
            |Text(ps)| <= 850 && forall i :: 0 <= i < |ps| ==> OneLinePiece(ps[i])
  {
    DecLength32(n);
    NumberIsOneLine(n);
    assert OneLine("params") && OneLine(":{");
    hide Dec, Text;
    var ps := NumberTail(key, n);
    assert ps[1..][1..] == [];
    TextLength(ps);
    TextLength(ps[1..]);
    assert |Text([])| == 0 by { EmptyText(); }
  }

  lemma EmptyText()
    ensures Text([]) == ""
  {
  }

  lemma BeginTailFits(size: uint32, digest: Digest)
    ensures var ps := BeginRequest(size, digest).Tail();
            |Text(ps)| <= 850 && forall i :: 0 <= i < |ps| ==> OneLinePiece(ps[i])
  {
    HexIsPlain(digest);
    DecLength32(size);
    NumberIsOneLine(size);
    hide Hex, Dec, Text;
    TailLength(BeginRequest(size, digest).Tail());
  }

  lemma WriteTailFits(offset: uint32, data: string)
    requires Sendable(WriteRequest(offset, data))
    ensures var ps := WriteRequest(offset, data).Tail();
            |Text(ps)| <= 850 && forall i :: 0 <= i < |ps| ==> OneLinePiece(ps[i])
  {
    Base64TextIsPlain(data);
    DecLength32(offset);
    NumberIsOneLine(offset);
    hide Dec, Text, Value;
    TailLength(WriteRequest(offset, data).Tail());
  }

  lemma TailLength(ps: seq<Piece>)
    requires |ps| == 4
    ensures |Text(ps)| == 8 + |ps[0].quoted| + |ps[0].plain| + |ps[1].quoted| + |ps[1].plain|
                          + |ps[2].quoted| + |ps[2].plain| + |ps[3].quoted| + |ps[3].plain|
  {
    assert ps[1..][1..] == ps[2..] && ps[2..][1..] == ps[3..] && ps[3..][1..] == [];
    TextLength(ps);
    TextLength(ps[1..]);
    TextLength(ps[2..]);
    TextLength(ps[3..]);
  }

  lemma HeadLength(ps: seq<Piece>)
    requires |ps| >= 5
    ensures |Text(ps)| == 10 + |ps[0].quoted| + |ps[0].plain| + |ps[1].quoted| + |ps[1].plain|
                          + |ps[2].quoted| + |ps[2].plain| + |ps[3].quoted| + |ps[3].plain|
                          + |ps[4].quoted| + |ps[4].plain| + |Text(ps[5..])|
  {
    assert ps[1..][1..] == ps[2..] && ps[2..][1..] == ps[3..] && ps[3..][1..] == ps[4..] && ps[4..][1..] == ps[5..];
    TextLength(ps);
    TextLength(ps[1..]);
    TextLength(ps[2..]);
    TextLength(ps[3..]);
    TextLength(ps[4..]);
  }

  // Every request is one line, begins with a brace and fits the device's 1024-byte buffers.
  lemma {:induction false} RequestFits(r: Request, id: uint32)
    requires Sendable(r)
    ensures |r.Line(id)| <= 1000 && r.Line(id)[0] == '{' && OneLine(r.Line(id))
  {
    TailFits(r);
    DecLength32(id);
    HeadPieces(r, id);
    var ps := r.Pieces(id);
    assert |ps[1].plain| == |ps[4].plain| == 1;
    HeadIsOneLine(r, id);
    hide Dec, Request.Tail, Request.Method, Request.Line, Request.Pieces, Text, OneLinePiece;
    MethodIsPlain(r);
    HeadLength(ps);
    forall i | 0 <= i < |ps| ensures OneLinePiece(ps[i]) {
      if i >= 5 { assert ps[i] == ps[5..][i - 5]; }
    }
    TextIsOneLine(ps);
  }

  lemma HeadIsOneLine(r: Request, id: nat)
    ensures forall i :: 0 <= i < 5 ==> OneLinePiece(r.Pieces(id)[i])
  {
    LiteralsAreOneLine();
    MethodIsPlain(r);
    NumberIsOneLine(id);
    assert r.Pieces(id)[1].plain == "," && (r.Pieces(id)[4].plain == "," || r.Pieces(id)[4].plain == "}");
    HeadPieces(r, id);
    hide OneLine, Dec, Request.Tail, Request.Method, Request.Pieces;
    var ps := r.Pieces(id);
    assert OneLinePiece(ps[0]) && OneLinePiece(ps[1]) && OneLinePiece(ps[2]) && OneLinePiece(ps[3]);
    assert OneLinePiece(ps[4]);
  }

  lemma LiteralsAreOneLine()
    ensures OneLine("jsonrpc") && OneLine(":") && OneLine("2.0") && OneLine(",") && OneLine("id")
    ensures OneLine("method") && OneLine("}")
  {
  }

  lemma NumberIsOneLine(n: nat)
    ensures OneLine(":" + Dec(n) + ",") && OneLine(":" + Dec(n) + "}}")
  {
    assert OneLine(Dec(n));
  }
}
