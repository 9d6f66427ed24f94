/**
 * Command-line parsing (`cli_options_parse`). getopt_long is modelled by its
 * output: the recognised options in order (`Token`s) and the positional
 * arguments left after them. inet_aton, uuid_parse and uuid_generate_random
 * are parameters (`Lib`).
 */
module Cli {
  import opened Types
  import Ipv4

  const DefaultSocketGroup: string := "staff"
  const DefaultMask: string := "255.255.255.0"

  /** vmnet operating modes (VMNET_HOST_MODE, VMNET_SHARED_MODE, VMNET_BRIDGED_MODE). */
  datatype Mode = Host | Shared | Bridged

  function ModeName(m: Mode): string {
    match m
    case Host => "host"
    case Shared => "shared"
    case Bridged => "bridged"
  }

  /** The `--vmnet-mode` argument: exactly one of three lower-case names. */
  function ParseMode(s: string): (m: Option<Mode>)
    ensures m.Some? <==> s in {"host", "shared", "bridged"}
  {
    if s == "host" then Some(Host)
    else if s == "shared" then Some(Shared)
    else if s == "bridged" then Some(Bridged)
    else None
  }

  lemma ParseModeName(m: Mode)
    ensures ParseMode(ModeName(m)) == Some(m)
  {
  }

  lemma ParseModeOnlyNames(s: string)
    ensures ParseMode(s).Some? ==> ModeName(ParseMode(s).value) == s
  {
  }

  type Uuid = u: seq<uint8> | |u| == 16
    witness [0, 0, 0, 0, 0, 0, 0, 0, 0, 0, 0, 0, 0, 0, 0, 0]

  predicate IsNull(u: Uuid) {
    forall k :: 0 <= k < |u| ==> u[k] == 0
  }

  const NullUuid: Uuid := [0, 0, 0, 0, 0, 0, 0, 0, 0, 0, 0, 0, 0, 0, 0, 0]

  /** The options that take an argument. */
  datatype Key =
    | SocketGroup | VmnetMode | VmnetInterface | VmnetGateway | VmnetDhcpEnd
    | VmnetMask | VmnetInterfaceId | VmnetNat66Prefix | VmnetNetworkIdentifier | PidFile

  /** One result of getopt_long: an option with its argument, -h, -v, or anything else ('?'). */
  datatype Token = Arg(key: Key, value: string) | HelpFlag | VersionFlag | Unrecognized

  /**
   * Library calls the parser makes. `randomAt(k)` is the UUID generated for
   * the k-th option; `randomInterfaceId` the one generated for a missing
   * interface id.
   */
  datatype Lib = Lib(
    aton: string -> Option<uint32>,
    uuidParse: string -> Option<Uuid>,
    randomAt: nat -> Uuid,
    randomInterfaceId: Uuid)

  /** The `cli_options` record while options are being read; calloc leaves everything absent or null. */
  datatype Raw = Raw(
    group: Option<string>, mode: Option<Mode>, iface: Option<string>,
    gateway: Option<string>, dhcpEnd: Option<string>, mask: Option<string>,
    interfaceId: Uuid, networkId: Uuid, nat66: Option<string>, pidfile: Option<string>)

  const Zeroed: Raw := Raw(None, None, None, None, None, None, NullUuid, NullUuid, None, None)

  /** Where reading the options leaves the parser. */
  datatype Scan = Scanned(raw: Raw) | Rejected | Help | Version

  /** The network identifier an argument yields: "random", "" (null), or a UUID that must parse. */
  function NetworkIdOf(v: string, k: nat, lib: Lib): Option<Uuid> {
    if v == "random" then Some(lib.randomAt(k))
    else if v == "" then Some(NullUuid)
    else lib.uuidParse(v)
  }

  /** How the k-th option is handled. */
  function Apply(raw: Raw, tok: Token, k: nat, lib: Lib): Scan {
    match tok
    case HelpFlag => Help
    case VersionFlag => Version
    case Unrecognized => Rejected
    case Arg(key, v) =>
      match key
      case SocketGroup => Scanned(raw.(group := Some(v)))
      case VmnetMode =>
        (match ParseMode(v)
         case None => Rejected
         case Some(m) => Scanned(raw.(mode := Some(m))))
      case VmnetInterface => Scanned(raw.(iface := Some(v)))
      case VmnetGateway => Scanned(raw.(gateway := Some(v)))
      case VmnetDhcpEnd => Scanned(raw.(dhcpEnd := Some(v)))
      case VmnetMask => Scanned(raw.(mask := Some(v)))
      case VmnetInterfaceId =>
        (match lib.uuidParse(v)
         case None => Rejected
         case Some(u) => Scanned(raw.(interfaceId := u)))
      case VmnetNat66Prefix => Scanned(raw.(nat66 := Some(v)))
      case VmnetNetworkIdentifier =>
        (match NetworkIdOf(v, k, lib)
         case None => Rejected
         case Some(u) => Scanned(raw.(networkId := u)))
      case PidFile => Scanned(raw.(pidfile := Some(v)))
  }

  /** The getopt_long loop from the k-th option on: the first option that does not continue decides. */
  function ScanFrom(tokens: seq<Token>, k: nat, raw: Raw, lib: Lib): Scan
    decreases |tokens| - k
  {
    if k >= |tokens| then Scanned(raw)
    else
      match Apply(raw, tokens[k], k, lib)
      case Scanned(next) => ScanFrom(tokens, k + 1, next, lib)
      case stop => stop
  }

  /** Parsed options. */
  datatype Options = Options(
    socketPath: string, socketGroup: string, mode: Mode, iface: Option<string>,
    gateway: Option<string>, dhcpEnd: Option<string>, mask: Option<string>,
    interfaceId: Uuid, networkId: Uuid, nat66: Option<string>, pidfile: Option<string>)

  /** Ok, or the process exits: failure after usage, success after help or version. */
  datatype Outcome = Ok(opts: Options) | Error | ExitHelp | ExitVersion

  /** What the checks after defaulting accept. */
  predicate Acceptable(raw: Raw, positionals: seq<string>, lib: Lib) {
    && |positionals| == 1
    && (raw.mode == Some(Bridged) ==> raw.iface.Some? && raw.gateway.None?)
    && (raw.gateway.None? ==> raw.dhcpEnd.None? && raw.mask.None?)
    && (raw.gateway.Some? ==> lib.aton(raw.gateway.value).Some?)
  }

  /** The default DHCP end as the text stored in the options. */
  function DefaultDhcpEnd(gw: uint32): string {
    Ipv4.Ntoa(Ipv4.DhcpEndDefault(gw))
  }

  /** Positional check, defaults, then validation, in that order. */
  function Finish(raw: Raw, positionals: seq<string>, lib: Lib): (r: Outcome)
    ensures r.Ok? || r.Error?
    ensures r.Ok? <==> Acceptable(raw, positionals, lib)
    ensures r.Ok? ==>
      && r.opts.socketPath == positionals[0]
      && r.opts.socketGroup == raw.group.GetOr(DefaultSocketGroup)
      && r.opts.mode == raw.mode.GetOr(Shared)
      && r.opts.iface == raw.iface && r.opts.gateway == raw.gateway
      && r.opts.networkId == raw.networkId
      && r.opts.nat66 == raw.nat66 && r.opts.pidfile == raw.pidfile
    ensures r.Ok? && r.opts.gateway.Some? ==>
      && r.opts.mask == Some(raw.mask.GetOr(DefaultMask))
      && r.opts.dhcpEnd == Some(raw.dhcpEnd.GetOr(DefaultDhcpEnd(lib.aton(raw.gateway.value).value)))
    ensures r.Ok? && r.opts.gateway.None? ==> r.opts.dhcpEnd.None? && r.opts.mask.None?
    ensures r.Ok? && r.opts.mode == Bridged ==> r.opts.iface.Some? && r.opts.gateway.None?
    ensures r.Ok? && !IsNull(raw.interfaceId) ==> r.opts.interfaceId == raw.interfaceId
    ensures r.Ok? && IsNull(raw.interfaceId) ==> r.opts.interfaceId == lib.randomInterfaceId
  {
    if |positionals| != 1 then Error
    else if raw.gateway.Some? && raw.dhcpEnd.None? && lib.aton(raw.gateway.value).None? then Error
    else
      var group := raw.group.GetOr(DefaultSocketGroup);
      var mode := raw.mode.GetOr(Shared);
      var dhcpEnd :=
        if raw.gateway.Some? && raw.dhcpEnd.None?
        then Some(DefaultDhcpEnd(lib.aton(raw.gateway.value).value))
        else raw.dhcpEnd;
      var mask := if raw.gateway.Some? && raw.mask.None? then Some(DefaultMask) else raw.mask;
      var interfaceId := if IsNull(raw.interfaceId) then lib.randomInterfaceId else raw.interfaceId;
      if mode == Bridged && raw.iface.None? then Error
      else if raw.gateway.None? && dhcpEnd.Some? then Error
      else if raw.gateway.None? && mask.Some? then Error
      else if raw.gateway.Some? && mode == Bridged then Error
      else if raw.gateway.Some? && lib.aton(raw.gateway.value).None? then Error
      else Ok(Options(positionals[0], group, mode, raw.iface, raw.gateway, dhcpEnd, mask,
                      interfaceId, raw.networkId, raw.nat66, raw.pidfile))
  }

  /** `cli_options_parse`. */
  function Parse(tokens: seq<Token>, positionals: seq<string>, lib: Lib): (r: Outcome) {
    match ScanFrom(tokens, 0, Zeroed, lib)
    case Rejected => Error
    case Help => ExitHelp
    case Version => ExitVersion
    case Scanned(raw) => Finish(raw, positionals, lib)
  }

  // ----- Reference definitions: the options as a whole, independent of the loop -----

  /** Whether an option ends the loop, and how. */
  function Stops(tok: Token, k: nat, lib: Lib): (v: Option<Scan>)
  {
    match tok
    case HelpFlag => Some(Help)
    case VersionFlag => Some(Version)
    case Unrecognized => Some(Rejected)
    case Arg(key, v) =>
      if key == VmnetMode && ParseMode(v).None? then Some(Rejected)
      else if key == VmnetInterfaceId && lib.uuidParse(v).None? then Some(Rejected)
      else if key == VmnetNetworkIdentifier && NetworkIdOf(v, k, lib).None? then Some(Rejected)
      else None
  }

  /** The first option, at or after k, that ends the loop. */
  function FirstStop(tokens: seq<Token>, k: nat, lib: Lib): (r: Option<nat>)
    ensures r.Some? ==> k <= r.value < |tokens| && Stops(tokens[r.value], r.value, lib).Some?
    ensures forall j :: k <= j < |tokens| && (r.None? || j < r.value) ==> Stops(tokens[j], j, lib).None?
    decreases |tokens| - k
  {
    if k >= |tokens| then None
    else if Stops(tokens[k], k, lib).Some? then Some(k)
    else FirstStop(tokens, k + 1, lib)
  }

  /** Position of the last occurrence of an option. */
  function LastIndex(tokens: seq<Token>, key: Key): (r: Option<nat>)
    ensures r.Some? ==> r.value < |tokens| && tokens[r.value].Arg? && tokens[r.value].key == key
  {
    if |tokens| == 0 then None
    else if tokens[|tokens| - 1].Arg? && tokens[|tokens| - 1].key == key then Some(|tokens| - 1)
    else LastIndex(tokens[..|tokens| - 1], key)
  }

  /** LastIndex finds the occurrence with none after it, and finds none only when there is none. */
  lemma {:induction false} LastIndexIsLast(tokens: seq<Token>, key: Key)
    ensures var r := LastIndex(tokens, key);
            && (r.Some? ==> forall j :: r.value < j < |tokens| ==> !(tokens[j].Arg? && tokens[j].key == key))
            && (r.None? ==> forall j :: 0 <= j < |tokens| ==> !(tokens[j].Arg? && tokens[j].key == key))
  {
    if |tokens| > 0 && !(tokens[|tokens| - 1].Arg? && tokens[|tokens| - 1].key == key) {
      var pre := tokens[..|tokens| - 1];
      LastIndexIsLast(pre, key);
      forall j | 0 <= j < |pre| ensures tokens[j] == pre[j] { }
    }
  }

  /** The argument of the last occurrence of an option: later options override earlier ones. */
  function LastValue(tokens: seq<Token>, key: Key): Option<string> {
    match LastIndex(tokens, key)
    case None => None
    case Some(j) => Some(tokens[j].value)
  }

  /** The mode of the last --vmnet-mode, none when absent. */
  function ModeSetting(tokens: seq<Token>): Option<Mode> {
    match LastValue(tokens, VmnetMode)
    case None => None
    case Some(v) => ParseMode(v)
  }

  /** The UUID of the last --vmnet-interface-id, null when absent. */
  function InterfaceIdSetting(tokens: seq<Token>, lib: Lib): Uuid {
    match LastValue(tokens, VmnetInterfaceId)
    case None => NullUuid
    case Some(v) => lib.uuidParse(v).GetOr(NullUuid)
  }

  /** The identifier of the last --vmnet-network-identifier, null when absent. */
  function NetworkIdSetting(tokens: seq<Token>, lib: Lib): Uuid {
    match LastIndex(tokens, VmnetNetworkIdentifier)
    case None => NullUuid
    case Some(j) => NetworkIdOf(tokens[j].value, j, lib).GetOr(NullUuid)
  }

  /** The record the loop should build when no option stops it. */
  function Expected(tokens: seq<Token>, lib: Lib): Raw {
    Raw(
      LastValue(tokens, SocketGroup), ModeSetting(tokens), LastValue(tokens, VmnetInterface),
      LastValue(tokens, VmnetGateway), LastValue(tokens, VmnetDhcpEnd), LastValue(tokens, VmnetMask),
      InterfaceIdSetting(tokens, lib), NetworkIdSetting(tokens, lib),
      LastValue(tokens, VmnetNat66Prefix), LastValue(tokens, PidFile))
  }

  /** Appending an option moves the last occurrence of its key, and no other. */
  lemma LastIndexSnoc(pre: seq<Token>, t: Token, key: Key)
    ensures LastIndex(pre + [t], key) == if t.Arg? && t.key == key then Some(|pre|) else LastIndex(pre, key)
  {
    assert (pre + [t])[..|pre|] == pre;
  }

  lemma LastValueSnoc(pre: seq<Token>, t: Token, key: Key)
    ensures LastValue(pre + [t], key) == if t.Arg? && t.key == key then Some(t.value) else LastValue(pre, key)
  {
    LastIndexSnoc(pre, t, key);
    var n := LastIndex(pre, key);
    if n.Some? {
      assert (pre + [t])[n.value] == pre[n.value];
    }
  }

  lemma NetworkIdSnoc(pre: seq<Token>, t: Token, lib: Lib)
    ensures NetworkIdSetting(pre + [t], lib) ==
      if t.Arg? && t.key == VmnetNetworkIdentifier
      then NetworkIdOf(t.value, |pre|, lib).GetOr(NullUuid)
      else NetworkIdSetting(pre, lib)
  {
    LastIndexSnoc(pre, t, VmnetNetworkIdentifier);
    var n := LastIndex(pre, VmnetNetworkIdentifier);
    if n.Some? {
      assert (pre + [t])[n.value] == pre[n.value];
    }
  }

  /** Handling one more option that does not stop the loop extends the record for the options before it. */
  lemma ApplySnoc(pre: seq<Token>, t: Token, lib: Lib)
    requires Stops(t, |pre|, lib).None?
    ensures Apply(Expected(pre, lib), t, |pre|, lib) == Scanned(Expected(pre + [t], lib))
  {
    LastValueSnoc(pre, t, SocketGroup);
    LastValueSnoc(pre, t, VmnetMode);
    LastValueSnoc(pre, t, VmnetInterface);
    LastValueSnoc(pre, t, VmnetGateway);
    LastValueSnoc(pre, t, VmnetDhcpEnd);
    LastValueSnoc(pre, t, VmnetMask);
    LastValueSnoc(pre, t, VmnetInterfaceId);
    LastValueSnoc(pre, t, VmnetNat66Prefix);
    LastValueSnoc(pre, t, PidFile);
    NetworkIdSnoc(pre, t, lib);
  }

  lemma ApplyExtends(tokens: seq<Token>, k: nat, lib: Lib)
    requires k < |tokens|
    requires Stops(tokens[k], k, lib).None?
    ensures Apply(Expected(tokens[..k], lib), tokens[k], k, lib) == Scanned(Expected(tokens[..k + 1], lib))
  {
    assert tokens[..k + 1] == tokens[..k] + [tokens[k]];
    ApplySnoc(tokens[..k], tokens[k], lib);
  }

  /** The loop from option k on, with the record built so far, when nothing in between stops it. */
  lemma {:induction false} ScanMatches(tokens: seq<Token>, k: nat, lib: Lib)
    requires k <= |tokens|
    requires FirstStop(tokens, k, lib).None?
    ensures ScanFrom(tokens, k, Expected(tokens[..k], lib), lib) == Scanned(Expected(tokens, lib))
    decreases |tokens| - k
  {
    if k == |tokens| {
      assert tokens[..k] == tokens;
    } else {
      ApplyExtends(tokens, k, lib);
      ScanMatches(tokens, k + 1, lib);
    }
  }

  /** The reference verdicts agree with the loop body: an option stops the loop exactly when Stops says so, with that verdict. */
  lemma ApplyAgreesWithStops(raw: Raw, tok: Token, k: nat, lib: Lib)
    ensures Stops(tok, k, lib).None? <==> Apply(raw, tok, k, lib).Scanned?
    ensures Stops(tok, k, lib).Some? ==> Apply(raw, tok, k, lib) == Stops(tok, k, lib).value
  {
  }

  /** When the record for the first k options is in hand, the first stop at or after k decides. */
  lemma {:induction false} ScanStops(tokens: seq<Token>, k: nat, lib: Lib)
    requires k <= |tokens|
    requires FirstStop(tokens, k, lib).Some?
    ensures var j := FirstStop(tokens, k, lib).value;
            ScanFrom(tokens, k, Expected(tokens[..k], lib), lib) == Stops(tokens[j], j, lib).value
    decreases |tokens| - k
  {
    var raw := Expected(tokens[..k], lib);
    ApplyAgreesWithStops(raw, tokens[k], k, lib);
    if Stops(tokens[k], k, lib).None? {
      assert FirstStop(tokens, k, lib) == FirstStop(tokens, k + 1, lib);
      ApplyExtends(tokens, k, lib);
      assert ScanFrom(tokens, k, raw, lib) == ScanFrom(tokens, k + 1, Expected(tokens[..k + 1], lib), lib);
      ScanStops(tokens, k + 1, lib);
    } else {
      assert FirstStop(tokens, k, lib) == Some(k);
    }
  }

  lemma ExpectedEmpty(lib: Lib)
    ensures Expected([], lib) == Zeroed
  {
  }

  /**
   * The first of -h, -v, an unknown option, an unknown mode or an unparsable
   * UUID ends parsing, whatever follows it; the positional count is not
   * looked at.
   */
  lemma ParseStopsAtFirst(tokens: seq<Token>, positionals: seq<string>, lib: Lib)
    requires FirstStop(tokens, 0, lib).Some?
    ensures var j := FirstStop(tokens, 0, lib).value;
            Parse(tokens, positionals, lib) ==
              match Stops(tokens[j], j, lib).value
              case Help => ExitHelp
              case Version => ExitVersion
              case _ => Error
  {
    assert tokens[..0] == [];
    ExpectedEmpty(lib);
    ScanStops(tokens, 0, lib);
  }

  /** Without a stopping option, parsing is the finishing step applied to the last value of each option. */
  lemma ParseUsesLastValues(tokens: seq<Token>, positionals: seq<string>, lib: Lib)
    requires FirstStop(tokens, 0, lib).None?
    ensures Parse(tokens, positionals, lib) == Finish(Expected(tokens, lib), positionals, lib)
  {
    assert tokens[..0] == [];
    ExpectedEmpty(lib);
    ScanMatches(tokens, 0, lib);
  }

  /**
   * Parsing succeeds exactly when no option stops it, there is one
   * positional argument, and the last values of the options pass validation.
   */
  lemma ParseOkIff(tokens: seq<Token>, positionals: seq<string>, lib: Lib)
    ensures Parse(tokens, positionals, lib).Ok? <==>
      FirstStop(tokens, 0, lib).None? && Acceptable(Expected(tokens, lib), positionals, lib)
  {
    if FirstStop(tokens, 0, lib).None? {
      ParseUsesLastValues(tokens, positionals, lib);
    } else {
      ParseStopsAtFirst(tokens, positionals, lib);
    }
  }

  /** A successful parse takes each option from its last occurrence and fills the documented defaults. */
  lemma ParsedOptions(tokens: seq<Token>, positionals: seq<string>, lib: Lib)
    requires Parse(tokens, positionals, lib).Ok?
    ensures var o := Parse(tokens, positionals, lib).opts;
      && |positionals| == 1 && o.socketPath == positionals[0]
      && o.socketGroup == LastValue(tokens, SocketGroup).GetOr(DefaultSocketGroup)
      && (LastValue(tokens, VmnetMode).None? ==> o.mode == Shared)
      && (LastValue(tokens, VmnetMode).Some? ==> ModeName(o.mode) == LastValue(tokens, VmnetMode).value)
      && o.gateway == LastValue(tokens, VmnetGateway)
      && o.iface == LastValue(tokens, VmnetInterface)
      && o.nat66 == LastValue(tokens, VmnetNat66Prefix)
      && o.pidfile == LastValue(tokens, PidFile)
      && (o.gateway.None? ==> o.dhcpEnd.None? && o.mask.None?)
      && (o.gateway.Some? ==> o.mask == Some(LastValue(tokens, VmnetMask).GetOr(DefaultMask)))
      && (o.gateway.Some? && LastValue(tokens, VmnetDhcpEnd).Some? ==> o.dhcpEnd == LastValue(tokens, VmnetDhcpEnd))
      && (o.gateway.Some? && LastValue(tokens, VmnetDhcpEnd).None? ==>
            lib.aton(o.gateway.value).Some? && o.dhcpEnd == Some(DefaultDhcpEnd(lib.aton(o.gateway.value).value)))
      && (o.mode == Bridged ==> o.iface.Some? && o.gateway.None?)
  {
    ParseOkIff(tokens, positionals, lib);
    ParseUsesLastValues(tokens, positionals, lib);
    var m := LastValue(tokens, VmnetMode);
    if m.Some? {
      var j := LastIndex(tokens, VmnetMode).value;
      assert Stops(tokens[j], j, lib).None?;
      ParseModeOnlyNames(m.value);
    }
  }

  /**
   * The network identifier: null when the option is absent or empty, a fresh
   * random UUID for "random", otherwise the UUID the argument parses to.
   */
  lemma NetworkIdentifierChoices(tokens: seq<Token>, positionals: seq<string>, lib: Lib)
    requires Parse(tokens, positionals, lib).Ok?
    ensures var id := Parse(tokens, positionals, lib).opts.networkId;
            var last := LastIndex(tokens, VmnetNetworkIdentifier);
      && (last.None? ==> id == NullUuid)
      && (last.Some? && tokens[last.value].value == "random" ==> id == lib.randomAt(last.value))
      && (last.Some? && tokens[last.value].value == "" ==> id == NullUuid)
      && (last.Some? && tokens[last.value].value !in {"random", ""} ==>
            lib.uuidParse(tokens[last.value].value) == Some(id))
  {
    ParseOkIff(tokens, positionals, lib);
    ParseUsesLastValues(tokens, positionals, lib);
    var last := LastIndex(tokens, VmnetNetworkIdentifier);
    if last.Some? {
      assert Stops(tokens[last.value], last.value, lib).None?;
    }
  }

  /** A successful parse went through the finishing step with the record of last values. */
  lemma ParseOkFinish(tokens: seq<Token>, positionals: seq<string>, lib: Lib)
    requires Parse(tokens, positionals, lib).Ok?
    ensures FirstStop(tokens, 0, lib).None?
    ensures Parse(tokens, positionals, lib) == Finish(Expected(tokens, lib), positionals, lib)
  {
    ParseOkIff(tokens, positionals, lib);
    ParseUsesLastValues(tokens, positionals, lib);
  }

  /** With no stopping option, the last --vmnet-interface-id parsed, and its UUID is the one recorded. */
  lemma InterfaceIdSettingParsed(tokens: seq<Token>, lib: Lib)
    requires FirstStop(tokens, 0, lib).None?
    ensures LastValue(tokens, VmnetInterfaceId).None? ==> InterfaceIdSetting(tokens, lib) == NullUuid
    ensures LastValue(tokens, VmnetInterfaceId).Some? ==>
      lib.uuidParse(LastValue(tokens, VmnetInterfaceId).value) == Some(InterfaceIdSetting(tokens, lib))
  {
    var last := LastIndex(tokens, VmnetInterfaceId);
    if last.Some? {
      assert Stops(tokens[last.value], last.value, lib).None?;
    }
  }

  /** The interface id is the parsed one unless that is null or absent, in which case it is random. */
  lemma InterfaceIdChoice(tokens: seq<Token>, positionals: seq<string>, lib: Lib)
    requires Parse(tokens, positionals, lib).Ok?
    ensures var id := Parse(tokens, positionals, lib).opts.interfaceId;
            var v := LastValue(tokens, VmnetInterfaceId);
      && (v.None? ==> id == lib.randomInterfaceId)
      && (v.Some? ==> lib.uuidParse(v.value).Some?)
      && (v.Some? && IsNull(lib.uuidParse(v.value).value) ==> id == lib.randomInterfaceId)
      && (v.Some? && !IsNull(lib.uuidParse(v.value).value) ==> id == lib.uuidParse(v.value).value)
  {
    ParseOkFinish(tokens, positionals, lib);
    InterfaceIdSettingParsed(tokens, lib);
    assert IsNull(NullUuid);
  }
}
