/** The registrar of section 3.1 of RFC 2812 (`mod_irc2registrar`): commands arrive in any order
    until one completes a registration and the connection is handed to a real protocol.
    A step function over values with a trace of what was accepted, and its safety over whole runs. */
module Registrar {
  import opened Text
  import opened Names

  datatype Kind = Unknown | Iircn | Server | Service | User

  datatype Registrant = Registrant(password: string, name: string, username: string, hostname: string,
                                   description: string, distribution: string, modes: string,
                                   protocol: string, startStamp: int, linkStamp: int)

  const BLANK := Registrant("", "", "", "", "", "", "", "", -1, -1)

  /** What the daemon and its configuration decide; `toNumber` stands for `toInt` and `toLong`. */
  datatype Host = Host(allowNetworks: bool, allowServers: bool, allowServices: bool, allowUsers: bool,
                       maxNickLength: nat, maxRealNameLength: nat, maxDescriptionLength: nat,
                       toNumber: string -> int, hasProtocol: (Kind, string) -> bool)

  /** The rows of the command table, and everything not in it. */
  datatype Command = CAPAB | IIRCN | NICK | PASS | PONG | QUIT | SERVER | SERVICE | USER | OTHER

  function Recognise(command: string): Command {
    match command
    case "CAPAB" => CAPAB
    case "IIRCN" => IIRCN
    case "NICK" => NICK
    case "PASS" => PASS
    case "PONG" => PONG
    case "QUIT" => QUIT
    case "SERVER" => SERVER
    case "SERVICE" => SERVICE
    case "USER" => USER
    case _ => OTHER
  }

  /** One message with what the outside contributes while it is handled: whether its nickname is
      in use, the probe a ping would carry, whether a new protocol object gets created, and what
      reading a missing sixth SERVER parameter would yield. */
  datatype Arrival = Arrival(command: Command, params: seq<string>, nickInUse: bool, probe: string,
                             created: bool, overrun: string)

  datatype Event = NickAccepted(nick: string) | PasswordAccepted(password: string) | KindTaken(kind: Kind)
                 | PingSent(probe: string) | PongAccepted(reply: string) | Refused | Closed
                 | HandedOver(toKind: Kind, registrant: Registrant, whileOpen: bool)

  /** Events in order, the latest outermost. */
  datatype Trace = Nothing | Then(before: Trace, last: Event)

  datatype State = State(data: Registrant, kind: Kind, pongsLeft: nat, pongMatch: string,
                         connected: bool, gone: bool, trace: Trace)

  /** A new registrar that will ask for `probes` pongs. */
  function Start(probes: nat): State {
    State(BLANK, Unknown, probes, "", true, false, Nothing)
  }

  function Prefix(s: string, n: nat): string {
    s[..Min(n, |s|)]
  }

  // ----- steps

  function Log(s: State, e: Event): State {
    s.(trace := Then(s.trace, e))
  }

  /** `connection.goodbye()`. */
  function Close(s: State): State {
    Log(s.(connected := false), Closed)
  }

  function SendPing(s: State, probe: string): State {
    Log(s.(pongMatch := probe), PingSent(probe))
  }

  function Take(s: State, kind: Kind): State {
    Log(s.(kind := kind), KindTaken(kind))
  }

  predicate Allows(h: Host, kind: Kind) {
    match kind
    case Unknown => false
    case Iircn => h.allowNetworks
    case Server => h.allowServers
    case Service => h.allowServices
    case User => h.allowUsers
  }

  function NickStep(s: State, h: Host, a: Arrival): State {
    if a.params == [] || NickValidity(a.params[0], h.maxNickLength) != NoError || a.nickInUse then Log(s, Refused)
    else
      var named := Log(s.(data := s.data.(name := a.params[0])), NickAccepted(a.params[0]));
      if s.pongsLeft > 0 && s.pongMatch == "" then SendPing(named, a.probe) else named
  }

  function PassStep(s: State, a: Arrival): State {
    if s.data.password != "" then Close(s)
    else if a.params == [] then Log(s, Refused)
    else Log(s.(data := s.data.(password := a.params[0])), PasswordAccepted(a.params[0]))
  }

  function PongStep(s: State, a: Arrival): State {
    if s.pongsLeft == 0 || a.params == [] || a.params[0] != s.pongMatch then Close(s)
    else
      var answered := Log(s.(pongsLeft := s.pongsLeft - 1), PongAccepted(a.params[0]));
      if answered.pongsLeft > 0 then SendPing(answered, a.probe) else answered
  }

  function UserStep(s: State, h: Host, a: Arrival): State {
    if !h.allowUsers || s.kind != Unknown then Close(s)
    else if |a.params| < 4 then Log(s, Refused)
    else
      var data := s.data.(username := a.params[0], modes := a.params[1], hostname := a.params[2],
                          description := Prefix(a.params[3], h.maxRealNameLength));
      Take(s.(data := data), User)
  }

  function ServiceStep(s: State, h: Host, a: Arrival): State {
    if !h.allowServices || s.kind != Unknown then Close(s)
    else if |a.params| < 6 then Log(s, Refused)
    else
      var data := s.data.(username := a.params[0], distribution := a.params[2],
                          description := Prefix(a.params[5], h.maxRealNameLength));
      Take(s.(data := data), Service)
  }

  /** The host name is stored before the hop count is checked. */
  function ServerStep(s: State, h: Host, a: Arrival): State {
    if !h.allowServers || s.kind != Unknown then Close(s)
    else if |a.params| < 3 then Log(s, Refused)
    else
      var hosted := s.data.(hostname := a.params[0]);
      if h.toNumber(a.params[1]) != 1 then Close(s.(data := hosted))
      else
        var info := if |a.params| < 5 then a.params[2] else if |a.params| > 5 then a.params[5] else a.overrun;
        var data := if |a.params| < 5 then hosted
                    else hosted.(startStamp := h.toNumber(a.params[2]), linkStamp := h.toNumber(a.params[3]),
                                 protocol := a.params[4]);
        Take(s.(data := data.(description := Prefix(info, h.maxDescriptionLength))), Server)
  }

  /** Names and stamp are stored before the stamp is checked. */
  function IircnStep(s: State, h: Host, a: Arrival): State {
    if !h.allowNetworks || s.kind != Unknown then Close(s)
    else if |a.params| < 6 then Log(s, Refused)
    else if a.params[1] != "*" then Close(s)
    else
      var data := s.data.(name := a.params[0], hostname := a.params[2], protocol := ToUpper(a.params[3]),
                          linkStamp := h.toNumber(a.params[4]));
      if data.linkStamp <= 0 then Close(s.(data := data))
      else Take(s.(data := data.(description := a.params[5])), Iircn)
  }

  function CapabStep(s: State, a: Arrival): State {
    if a.params == [] then Log(s, Refused) else s
  }

  /** The command table; unknown commands fall through to the completion check as well. */
  function Handle(s: State, h: Host, a: Arrival): State {
    match a.command
    case CAPAB => CapabStep(s, a)
    case IIRCN => IircnStep(s, h, a)
    case NICK => NickStep(s, h, a)
    case PASS => PassStep(s, a)
    case PONG => PongStep(s, a)
    case QUIT => Close(s)
    case SERVER => ServerStep(s, h, a)
    case SERVICE => ServiceStep(s, h, a)
    case USER => UserStep(s, h, a)
    case OTHER => s
  }

  /** Every field this kind of registration needs has been given. */
  predicate Complete(s: State) {
    match s.kind
    case Unknown => false
    case User => s.data.name != "" && s.data.username != "" && s.data.hostname != "" && s.pongsLeft == 0
    case Iircn => s.data.password != "" && s.data.name != "" && s.data.hostname != ""
                  && s.data.protocol != "" && s.data.linkStamp > 0
    case Server => s.data.password != "" && s.data.hostname != ""
    case Service => s.data.password != "" && s.data.name != "" && s.data.distribution != ""
  }

  /** A real protocol serves this registration; none does for services. */
  predicate Served(s: State, h: Host) {
    match s.kind
    case User => h.hasProtocol(User, if s.data.protocol == "" then "IRC-2" else ToUpper(s.data.protocol))
    case Iircn => h.hasProtocol(Iircn, ToUpper(s.data.protocol))
    case Server => s.data.protocol != "" && h.hasProtocol(Server, ToUpper(s.data.protocol))
    case _ => false
  }

  function Finish(s: State, h: Host, a: Arrival): State {
    if !Complete(s) then s
    else if !Served(s, h) || !a.created then Close(s)
    else Log(s.(gone := true), HandedOver(s.kind, s.data, s.connected))
  }

  /** One message; once handed over the registrar object no longer exists. */
  function Step(s: State, h: Host, a: Arrival): State {
    if s.gone then s else Finish(Handle(s, h, a), h, a)
  }

  function Run(s: State, h: Host, arrivals: seq<Arrival>): State
    decreases |arrivals|
  {
    if arrivals == [] then s else Run(Step(s, h, arrivals[0]), h, arrivals[1..])
  }
}
