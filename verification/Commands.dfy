/** What the firmware makes of one command line: `meb_serial_console_process_command` and the handlers' parameters. */
module Commands {
  import opened Common
  import opened JsonText
  import opened JsonScalars
  import opened OtaUpdate

  const ID_BUFFER := 64
  const METHOD_BUFFER := 48
  const VERSION_BUFFER := 8
  const SHA_BUFFER := 65
  const DATA_BUFFER := MAX_BASE64_CHARS + 1
  const EVENTS_DEFAULT_LIMIT: uint32 := 8
  const DIAGNOSTICS_DEFAULT_LIMIT: uint32 := 5

  // The id token to echo, and whether the request carried one.
  datatype Id = Id(token: string, present: bool)

  datatype Command =
    | Ignored
    | BadId
    | BadRequest(id: Id)
    | UnknownMethod(id: Id)
    | BadParams(id: Id)
    | FirmwareBegin(id: Id, size: uint32, hex: string)
    | FirmwareWrite(id: Id, offset: uint32, data: string)
    | FirmwareEnd(id: Id)
    | FirmwareCancel(id: Id)
    | FirmwareStatus(id: Id)
    | FirmwareReboot(id: Id)
    | HeatingSet(id: Id, enabled: bool)
    | HeatingGet(id: Id)
    | HeatingSetTimer(id: Id, minutes: uint32)
    | TelemetrySetInterval(id: Id, ms: uint32)
    | DeviceEvents(id: Id, limit: uint32)
    | DeviceDiagnostics(id: Id, limit: uint32)
    | DeviceQuery(id: Id, name: string)

  /* ---- Specification ---- */

  function ParseId(cmd: string): Option<Id> {
    match FindKey(cmd, "id")
    case None => Some(Id("null", false))
    case Some(value) =>
      match IdToken(value, ID_BUFFER - 1)
      case Some(token) => Some(Id(token, true))
      case None => None
  }

  // The text of an object-valued `params`.
  function Params(cmd: string): Option<string> {
    match FindKey(cmd, "params")
    case Some(p) => if p != [] && p[0] == '{' then Some(p) else None
    case None => None
  }

  function Param(cmd: string, key: string): Option<string> {
    match Params(cmd)
    case Some(p) => FindKey(p, key)
    case None => None
  }

  function OptionalLimit(cmd: string, default: uint32): Option<uint32> {
    if FindKey(cmd, "params").None? then Some(default)
    else if Params(cmd).None? then None
    else if Param(cmd, "limit").None? then Some(default)
    else ParseUint(Param(cmd, "limit"))
  }

  function Handle(id: Id, name: string, cmd: string): Command {
    if name == "heating.set" then
      match ParseBool(Param(cmd, "enabled")) case Some(b) => HeatingSet(id, b) case None => BadParams(id)
    else if name == "heating.get" then HeatingGet(id)
    else if name == "heating.set_auto_off_timer" then
      match ParseUint(Param(cmd, "minutes")) case Some(n) => HeatingSetTimer(id, n) case None => BadParams(id)
    else if name == "device.info" || name == "device.uptime" || name == "device.reset"
            || name == "device.can_diagnostics" then DeviceQuery(id, name)
    else if name == "device.diagnostics" then
      match OptionalLimit(cmd, DIAGNOSTICS_DEFAULT_LIMIT)
      case Some(n) => DeviceDiagnostics(id, n)
      case None => BadParams(id)
    else if name == "device.events" then
      match OptionalLimit(cmd, EVENTS_DEFAULT_LIMIT)
      case Some(n) => DeviceEvents(id, n)
      case None => BadParams(id)
    else if name == "telemetry.set_interval" then
      match ParseUint(Param(cmd, "ms")) case Some(n) => TelemetrySetInterval(id, n) case None => BadParams(id)
    else if name == "firmware.begin" then
      match (ParseUint(Param(cmd, "size")), ParseString(Param(cmd, "sha256"), SHA_BUFFER))
      case (Some(size), Some(hex)) => FirmwareBegin(id, size, hex)
      case _ => BadParams(id)
    else if name == "firmware.write" then
      match (ParseUint(Param(cmd, "offset")), ParseString(Param(cmd, "data"), DATA_BUFFER))
      case (Some(offset), Some(data)) => FirmwareWrite(id, offset, data)
      case _ => BadParams(id)
    else if name == "firmware.end" then FirmwareEnd(id)
    else if name == "firmware.cancel" then FirmwareCancel(id)
    else if name == "firmware.status" then FirmwareStatus(id)
    else if name == "firmware.reboot" then FirmwareReboot(id)
    else UnknownMethod(id)
  }

  function Dispatch(cmd: string): Command {
    var text := SkipSpace(cmd);
    if text == [] || text[0] != '{' then Ignored
    else match ParseId(cmd)
      case None => BadId
      case Some(id) =>
        if ParseString(FindKey(cmd, "jsonrpc"), VERSION_BUFFER) != Some("2.0") then BadRequest(id)
        else match ParseString(FindKey(cmd, "method"), METHOD_BUFFER)
          case None => BadRequest(id)
          case Some(name) => Handle(id, name, cmd)
  }

  /* ---- What is understood, what is refused, and why ---- */

  // The method names differ in length or in one character.
  lemma DistinctMethods()
    ensures |"heating.set"| == |"heating.get"| == |"device.info"| == 11 && |"heating.set_auto_off_timer"| == 26
    ensures |"device.reset"| == |"firmware.end"| == 12 && |"device.uptime"| == |"device.events"| == 13
    ensures |"device.diagnostics"| == 18 && |"device.can_diagnostics"| == |"telemetry.set_interval"| == 22
    ensures |"firmware.begin"| == |"firmware.write"| == 14
    ensures |"firmware.cancel"| == |"firmware.status"| == |"firmware.reboot"| == 15
    ensures "heating.set"[8] == 's' && "heating.get"[8] == 'g' && "device.info"[0] == 'd'
    ensures "heating.set"[0] == 'h' && "heating.get"[0] == 'h'
    ensures "device.reset"[0] == 'd' && "firmware.end"[0] == 'f'
    ensures "device.uptime"[7] == 'u' && "device.events"[7] == 'e'
    ensures "device.can_diagnostics"[0] == 'd' && "telemetry.set_interval"[0] == 't'
    ensures "firmware.begin"[9] == 'b' && "firmware.write"[9] == 'w'
    ensures "firmware.cancel"[9] == 'c' && "firmware.status"[9] == 's' && "firmware.reboot"[9] == 'r'
  {
  }

  // The methods there are.
  const METHODS: seq<string> := [
    "heating.set", "heating.get", "heating.set_auto_off_timer",
    "device.info", "device.uptime", "device.reset", "device.diagnostics", "device.can_diagnostics", "device.events",
    "telemetry.set_interval",
    "firmware.begin", "firmware.write", "firmware.end", "firmware.cancel", "firmware.status", "firmware.reboot"
  ]

  // An object with a readable id that calls method `name` by JSON-RPC 2.0.
  ghost predicate Calls(cmd: string, id: Id, name: string) {
    && SkipSpace(cmd) != [] && SkipSpace(cmd)[0] == '{'
    && ParseId(cmd) == Some(id)
    && ParseString(FindKey(cmd, "jsonrpc"), 8) == Some("2.0")
    && ParseString(FindKey(cmd, "method"), 48) == Some(name)
  }

  // A text is ignored unless it is an object, and refused as a request without an id that can be echoed,
  // or without version and method; in all other cases it calls the method it names.
  lemma {:induction false} RefusedExactly(cmd: string)
    ensures var isObject := SkipSpace(cmd) != [] && SkipSpace(cmd)[0] == '{';
            && (Dispatch(cmd) == Ignored <==> !isObject)
            && (Dispatch(cmd) == BadId <==> isObject && ParseId(cmd).None?)
            && (Dispatch(cmd).BadRequest? <==> isObject && ParseId(cmd).Some?
                                               && !exists name: string :: Calls(cmd, ParseId(cmd).value, name))
            && (Dispatch(cmd).BadRequest? ==> ParseId(cmd) == Some(Dispatch(cmd).id))
  {
    var isObject := SkipSpace(cmd) != [] && SkipSpace(cmd)[0] == '{';
    if isObject && ParseId(cmd).Some? {
      var id, name := ParseId(cmd).value, ParseString(FindKey(cmd, "method"), 48);
      hide ParseId, FindKey, ParseString, Handle, SkipSpace;
      if Dispatch(cmd) != BadRequest(id) || ParseString(FindKey(cmd, "jsonrpc"), 8) == Some("2.0") {
        HandleAnswers(id, if name.Some? then name.value else "", cmd);
        assert name.Some? ==> Calls(cmd, id, name.value);
      }
    }
  }

  // The id echoed: `null` for a request without one, and otherwise the text its value starts with.
  lemma {:induction false} IdIsEchoed(cmd: string)
    ensures FindKey(cmd, "id").None? ==> ParseId(cmd) == Some(Id("null", false))
    ensures FindKey(cmd, "id").Some? && ParseId(cmd).Some? ==>
              var id := ParseId(cmd).value;
              id.present && 0 < |id.token| <= 63 && id.token <= FindKey(cmd, "id").value
  {
    hide FindKey;
  }

  lemma HandleAnswers(id: Id, name: string, cmd: string)
    ensures var c := Handle(id, name, cmd); !c.Ignored? && !c.BadId? && !c.BadRequest?
  {
    hide ParseString, ParseUint, ParseBool, OptionalLimit, Param;
  }

  // The only methods are those listed.
  lemma {:induction false} UnknownExactly(cmd: string, id: Id, name: string)
    requires Calls(cmd, id, name)
    ensures Dispatch(cmd) == UnknownMethod(id) <==> name !in METHODS
  {
    hide ParseId, FindKey, ParseString, ParseUint, ParseBool, OptionalLimit, Param, SkipSpace;
    if name in METHODS {
      var k :| 0 <= k < |METHODS| && name == METHODS[k];
    }
  }

  // `params` is present without being an object, or its `limit` is not a number.
  ghost predicate BadLimit(cmd: string) {
    var params := FindKey(cmd, "params");
    && params.Some?
    && (params.value == [] || params.value[0] != '{'
        || (FindKey(params.value, "limit").Some? && ParseUint(FindKey(params.value, "limit")).None?))
  }

  // A call is refused for its parameters exactly when one it needs is missing or malformed.
  lemma {:induction false} BadParamsExactly(cmd: string, id: Id, name: string)
    requires Calls(cmd, id, name)
    ensures Dispatch(cmd) == BadParams(id) <==>
              || (name == "heating.set" && ParseBool(Param(cmd, "enabled")).None?)
              || (name == "heating.set_auto_off_timer" && ParseUint(Param(cmd, "minutes")).None?)
              || (name == "telemetry.set_interval" && ParseUint(Param(cmd, "ms")).None?)
              || (name == "firmware.begin"
                  && (ParseUint(Param(cmd, "size")).None? || ParseString(Param(cmd, "sha256"), 65).None?))
              || (name == "firmware.write"
                  && (ParseUint(Param(cmd, "offset")).None? || ParseString(Param(cmd, "data"), 769).None?))
              || ((name == "device.events" || name == "device.diagnostics") && BadLimit(cmd))
  {
    DistinctMethods();
    LimitIsBad(cmd);
    hide ParseId, FindKey, ParseString, ParseUint, ParseBool, OptionalLimit, Param, SkipSpace, BadLimit;
  }

  lemma LimitIsBad(cmd: string)
    ensures forall default: uint32 :: OptionalLimit(cmd, default).None? <==> BadLimit(cmd)
  {
    hide FindKey, ParseUint;
  }

  // Parameters are looked up in an object-valued `params` only.
  lemma {:induction false} NoParamsNoValue(cmd: string, key: string)
    requires var params := FindKey(cmd, "params"); params.None? || params.value == [] || params.value[0] != '{'
    ensures Param(cmd, key).None? && ParseBool(Param(cmd, key)).None? && ParseUint(Param(cmd, key)).None?
    ensures forall size: nat :: ParseString(Param(cmd, key), size).None?
  {
  }

  // What is understood is what the text says: the method it names, and the parameters it carries.
  lemma {:induction false} ParametersAreRead(cmd: string, id: Id, name: string)
    requires Calls(cmd, id, name)
    ensures var c := Dispatch(cmd);
            && (c.HeatingSet? ==> name == "heating.set" && ParseBool(Param(cmd, "enabled")) == Some(c.enabled))
            && (c.HeatingGet? <==> name == "heating.get")
            && (c.HeatingSetTimer? ==>
                  name == "heating.set_auto_off_timer" && ParseUint(Param(cmd, "minutes")) == Some(c.minutes))
            && (c.TelemetrySetInterval? ==>
                  name == "telemetry.set_interval" && ParseUint(Param(cmd, "ms")) == Some(c.ms))
            && (c.DeviceEvents? ==> name == "device.events" && LimitRead(cmd, 8, c.limit))
            && (c.DeviceDiagnostics? ==> name == "device.diagnostics" && LimitRead(cmd, 5, c.limit))
            && (c.DeviceQuery? <==> name in {"device.info", "device.uptime", "device.reset", "device.can_diagnostics"})
            && (c.DeviceQuery? ==> c.name == name)
            && (c.FirmwareBegin? ==>
                  && name == "firmware.begin" && ParseUint(Param(cmd, "size")) == Some(c.size)
                  && ParseString(Param(cmd, "sha256"), 65) == Some(c.hex))
            && (c.FirmwareWrite? ==>
                  && name == "firmware.write" && ParseUint(Param(cmd, "offset")) == Some(c.offset)
                  && ParseString(Param(cmd, "data"), 769) == Some(c.data))
            && (c.FirmwareEnd? <==> name == "firmware.end") && (c.FirmwareCancel? <==> name == "firmware.cancel")
            && (c.FirmwareStatus? <==> name == "firmware.status") && (c.FirmwareReboot? <==> name == "firmware.reboot")
            && !c.Ignored? && !c.BadId? && c.id == id
  {
    DistinctMethods();
    LimitIsRead(cmd);
    hide ParseId, FindKey, ParseString, ParseUint, ParseBool, OptionalLimit, Param, SkipSpace, LimitRead;
  }

  // The limit in force: the one given, or the default when there is none.
  ghost predicate LimitRead(cmd: string, default: uint32, limit: uint32) {
    if FindKey(cmd, "params").Some? && Param(cmd, "limit").Some? then ParseUint(Param(cmd, "limit")) == Some(limit)
    else limit == default
  }

  lemma LimitIsRead(cmd: string)
    ensures forall default: uint32 :: OptionalLimit(cmd, default).Some? ==>
                                        LimitRead(cmd, default, OptionalLimit(cmd, default).value)
  {
    hide FindKey, ParseUint;
  }

  /* ---- The readers the handlers use, on indices and fixed buffers ---- */

  function From(s: string, i: Option<nat>): Option<string>
    requires i.Some? ==> i.value <= |s|
  {
    if i.Some? then Some(At(s, i.value)) else None
  }

  method FindParam(cmd: string, key: string) returns (at: Option<nat>)
    ensures at.Some? ==> at.value <= |cmd|
    ensures From(cmd, at) == Param(cmd, key)
  {
    assert At(cmd, 0) == cmd;
    var params := FindKeyValue(cmd, 0, "params");
    if params.None? || params.value >= |cmd| || cmd[params.value] != '{' {
      return None;
    }
    at := FindKeyValue(cmd, params.value, key);
  }

  method ReadUint(cmd: string, key: string) returns (v: Option<uint32>)
    ensures v == ParseUint(Param(cmd, key))
  {
    var at := FindParam(cmd, key);
    var ok, n := ParseUintValue(cmd, at);
    v := if ok then Some(n) else None;
  }

  method ReadString(cmd: string, at: Option<nat>, size: nat) returns (v: Option<string>)
    requires at.Some? ==> at.value <= |cmd|
    ensures v == ParseString(From(cmd, at), size)
  {
    var buffer := new char[size];
    var ok, len := ParseStringValue(cmd, at, buffer);
    v := if ok then Some(buffer[..len]) else None;
  }

  method ReadBool(cmd: string, key: string) returns (v: Option<bool>)
    ensures v == ParseBool(Param(cmd, key))
  {
    var at := FindParam(cmd, key);
    if at.None? {
      return None;
    }
    var s := cmd[at.value..];
    if "true" <= s {
      assert s[0] == "true"[0] != "false"[0];
      return if Delimited(s[4..]) then Some(true) else None;
    }
    v := if "false" <= s && Delimited(s[5..]) then Some(false) else None;
  }

  method ReadLimit(cmd: string, default: uint32) returns (v: Option<uint32>)
    ensures v == OptionalLimit(cmd, default)
  {
    assert At(cmd, 0) == cmd;
    var params := FindKeyValue(cmd, 0, "params");
    if params.None? {
      return Some(default);
    }
    if params.value >= |cmd| || cmd[params.value] != '{' {
      return None;
    }
    var limit := FindKeyValue(cmd, params.value, "limit");
    if limit.None? {
      return Some(default);
    }
    var ok, n := ParseUintValue(cmd, limit);
    v := if ok then Some(n) else None;
  }

  method ReadId(cmd: string) returns (id: Option<Id>)
    ensures id == ParseId(cmd)
  {
    assert At(cmd, 0) == cmd;
    var at := FindKeyValue(cmd, 0, "id");
    if at.None? {
      return Some(Id("null", false));
    }
    var buffer := new char[ID_BUFFER];
    var ok, len;
    if at.value < |cmd| && cmd[at.value] == '"' {
      ok, len := ReadStringId(cmd[at.value..], buffer);
    } else {
      ok, len := ReadPlainId(cmd[at.value..], buffer);
    }
    id := if ok then Some(Id(buffer[..len], true)) else None;
  }

  method HandleMethod(id: Id, name: string, cmd: string) returns (c: Command)
    ensures c == Handle(id, name, cmd)
  {
    hide Param, ParseUint, ParseString, ParseBool, OptionalLimit;
    if name == "heating.set" {
      var enabled := ReadBool(cmd, "enabled");
      return if enabled.Some? then HeatingSet(id, enabled.value) else BadParams(id);
    } else if name == "heating.get" {
      return HeatingGet(id);
    } else if name == "heating.set_auto_off_timer" {
      var minutes := ReadUint(cmd, "minutes");
      return if minutes.Some? then HeatingSetTimer(id, minutes.value) else BadParams(id);
    } else if name == "device.info" || name == "device.uptime" || name == "device.reset" {
      return DeviceQuery(id, name);
    } else if name == "device.diagnostics" {
      var limit := ReadLimit(cmd, DIAGNOSTICS_DEFAULT_LIMIT);
      return if limit.Some? then DeviceDiagnostics(id, limit.value) else BadParams(id);
    } else if name == "device.can_diagnostics" {
      return DeviceQuery(id, name);
    } else if name == "device.events" {
      var limit := ReadLimit(cmd, EVENTS_DEFAULT_LIMIT);
      return if limit.Some? then DeviceEvents(id, limit.value) else BadParams(id);
    } else if name == "telemetry.set_interval" {
      var ms := ReadUint(cmd, "ms");
      return if ms.Some? then TelemetrySetInterval(id, ms.value) else BadParams(id);
    } else if name == "firmware.begin" {
      var size := ReadUint(cmd, "size");
      var at := FindParam(cmd, "sha256");
      var hex := ReadString(cmd, at, SHA_BUFFER);
      return if size.Some? && hex.Some? then FirmwareBegin(id, size.value, hex.value) else BadParams(id);
    } else if name == "firmware.write" {
      var offset := ReadUint(cmd, "offset");
      var at := FindParam(cmd, "data");
      var data := ReadString(cmd, at, DATA_BUFFER);
      return if offset.Some? && data.Some? then FirmwareWrite(id, offset.value, data.value) else BadParams(id);
    } else if name == "firmware.end" {
      return FirmwareEnd(id);
    } else if name == "firmware.cancel" {
      return FirmwareCancel(id);
    } else if name == "firmware.status" {
      return FirmwareStatus(id);
    } else if name == "firmware.reboot" {
      return FirmwareReboot(id);
    }
    c := UnknownMethod(id);
  }

  method ParseCommand(cmd: string) returns (c: Command)
    ensures c == Dispatch(cmd)
  {
    assert At(cmd, 0) == cmd;
    var start := SkipWs(cmd, 0);
    if start >= |cmd| || cmd[start] != '{' {
      return Ignored;
    }
    hide ParseId, Handle, FindKey, ParseString;
    var id := ReadId(cmd);
    if id.None? {
      return BadId;
    }
    var at := FindKeyValue(cmd, 0, "jsonrpc");
    var version := ReadString(cmd, at, VERSION_BUFFER);
    if version != Some("2.0") {
      return BadRequest(id.value);
    }
    at := FindKeyValue(cmd, 0, "method");
    var name := ReadString(cmd, at, METHOD_BUFFER);
    if name.None? {
      return BadRequest(id.value);
    }
    c := HandleMethod(id.value, name.value, cmd);
  }
}
