/** The registrar protocol object: handlers that update the registrant data in place,
    each in step with the functions of `Registrar`. */
module RegistrarProtocol {
  import opened Text
  import opened Names
  import opened Registrar

  class Protocol {
    const host: Host
    var registrantData: Registrant
    var registrationType: Kind
    var pongsLeft: nat
    var pongMatch: string
    var connected: bool
    var handedOver: bool
    ghost var trace: Trace

    ghost function Now(): State
      reads this
    {
      State(registrantData, registrationType, pongsLeft, pongMatch, connected, handedOver, trace)
    }

    constructor (host: Host, probes: nat)
      ensures this.host == host && Now() == Start(probes)
    {
      this.host := host;
      registrantData, registrationType := BLANK, Unknown;
      pongsLeft, pongMatch, connected, handedOver, trace := probes, "", true, false, Nothing;
    }

    /** `sendError` or a numeric, followed by `connection.goodbye()`. */
    method Goodbye()
      modifies this`connected, this`trace
      ensures Now() == Close(old(Now()))
    {
      connected := false;
      trace := Then(trace, Closed);
    }

    method Refuse()
      modifies this`trace
      ensures Now() == Log(old(Now()), Refused)
    {
      trace := Then(trace, Refused);
    }

    method DoSendPing(probe: string)
      modifies this`pongMatch, this`trace
      ensures Now() == SendPing(old(Now()), probe)
    {
      pongMatch := probe;
      trace := Then(trace, PingSent(probe));
    }

    method TakeKind(kind: Kind)
      modifies this`registrationType, this`trace
      ensures Now() == Take(old(Now()), kind)
    {
      registrationType := kind;
      trace := Then(trace, KindTaken(kind));
    }

    method ParseNICK(a: Arrival)
      modifies this
      ensures Now() == NickStep(old(Now()), host, a)
    {
      if a.params == [] {
        Refuse();
        return;
      }
      var nick := a.params[0];
      if NickValidity(nick, host.maxNickLength) != NoError {
        Refuse();
        return;
      }
      if a.nickInUse {
        Refuse();
        return;
      }
      registrantData := registrantData.(name := nick);
      trace := Then(trace, NickAccepted(nick));
      if pongsLeft > 0 && pongMatch == "" {
        DoSendPing(a.probe);
      }
    }

    method ParsePASS(a: Arrival)
      modifies this
      ensures Now() == PassStep(old(Now()), a)
    {
      if registrantData.password != "" {
        Goodbye();
        return;
      }
      if a.params == [] {
        Refuse();
        return;
      }
      registrantData := registrantData.(password := a.params[0]);
      trace := Then(trace, PasswordAccepted(a.params[0]));
    }

    method ParsePONG(a: Arrival)
      modifies this
      ensures Now() == PongStep(old(Now()), a)
    {
      if pongsLeft == 0 || a.params == [] {
        Goodbye();
        return;
      }
      if a.params[0] != pongMatch {
        Goodbye();
        return;
      }
      pongsLeft := pongsLeft - 1;
      trace := Then(trace, PongAccepted(a.params[0]));
      if pongsLeft > 0 {
        DoSendPing(a.probe);
      }
    }

    method ParseUSER(a: Arrival)
      modifies this
      ensures Now() == UserStep(old(Now()), host, a)
    {
      if !host.allowUsers {
        Goodbye();
        return;
      }
      if registrationType != Unknown {
        Goodbye();
        return;
      }
      if |a.params| < 4 {
        Refuse();
        return;
      }
      registrantData := registrantData.(username := a.params[0], modes := a.params[1], hostname := a.params[2]);
      registrantData := registrantData.(description := Prefix(a.params[3], host.maxRealNameLength));
      TakeKind(User);
    }

    method ParseSERVICE(a: Arrival)
      modifies this
      ensures Now() == ServiceStep(old(Now()), host, a)
    {
      if !host.allowServices {
        Goodbye();
        return;
      }
      if registrationType != Unknown {
        Goodbye();
        return;
      }
      if |a.params| < 6 {
        Refuse();
        return;
      }
      registrantData := registrantData.(username := a.params[0], distribution := a.params[2]);
      registrantData := registrantData.(description := Prefix(a.params[5], host.maxRealNameLength));
      TakeKind(Service);
    }

    method ParseSERVER(a: Arrival)
      modifies this
      ensures Now() == ServerStep(old(Now()), host, a)
    {
      if !host.allowServers {
        Goodbye();
        return;
      }
      if registrationType != Unknown {
        Goodbye();
        return;
      }
      if |a.params| < 3 {
        Refuse();
        return;
      }
      registrantData := registrantData.(hostname := a.params[0]);
      var hops := host.toNumber(a.params[1]);
      if hops != 1 {
        Goodbye();
        return;
      }
      if |a.params| >= 5 {
        registrantData := registrantData.(startStamp := host.toNumber(a.params[2]));
        registrantData := registrantData.(linkStamp := host.toNumber(a.params[3]));
        registrantData := registrantData.(protocol := a.params[4]);
        var info := if |a.params| > 5 then a.params[5] else a.overrun;
        registrantData := registrantData.(description := Prefix(info, host.maxDescriptionLength));
      } else {
        registrantData := registrantData.(description := Prefix(a.params[2], host.maxDescriptionLength));
      }
      TakeKind(Server);
    }

    method ParseIIRCN(a: Arrival)
      modifies this
      ensures Now() == IircnStep(old(Now()), host, a)
    {
      if !host.allowNetworks {
        Goodbye();
        return;
      }
      if registrationType != Unknown {
        Goodbye();
        return;
      }
      if |a.params| < 6 {
        Refuse();
        return;
      }
      if a.params[1] != "*" {
        Goodbye();
        return;
      }
      registrantData := registrantData.(name := a.params[0], hostname := a.params[2],
                                        protocol := ToUpper(a.params[3]), linkStamp := host.toNumber(a.params[4]));
      if registrantData.linkStamp <= 0 {
        Goodbye();
        return;
      }
      registrantData := registrantData.(description := a.params[5]);
      TakeKind(Iircn);
    }

    method Dispatch(a: Arrival)
      modifies this
      ensures Now() == Handle(old(Now()), host, a)
    {
      match a.command
      case CAPAB => if a.params == [] { Refuse(); }
      case IIRCN => ParseIIRCN(a);
      case NICK => ParseNICK(a);
      case PASS => ParsePASS(a);
      case PONG => ParsePONG(a);
      case QUIT => Goodbye();
      case SERVER => ParseSERVER(a);
      case SERVICE => ParseSERVICE(a);
      case USER => ParseUSER(a);
      case OTHER =>
    }

    method HasAllFields() returns (complete: bool)
      ensures complete == Complete(Now())
    {
      match registrationType
      case Unknown =>
        return false;
      case User =>
        return !(registrantData.name == "" || registrantData.username == "" || registrantData.hostname == ""
                 || pongsLeft > 0);
      case Iircn =>
        return !(registrantData.password == "" || registrantData.name == "" || registrantData.hostname == ""
                 || registrantData.protocol == "" || registrantData.linkStamp <= 0);
      case Server =>
        return !(registrantData.password == "" || registrantData.hostname == "");
      case Service =>
        return !(registrantData.password == "" || registrantData.name == "" || registrantData.distribution == "");
    }

    method FindProtocol() returns (found: bool)
      ensures found == Served(Now(), host)
    {
      match registrationType
      case User =>
        if registrantData.protocol == "" {
          found := host.hasProtocol(User, "IRC-2");
        } else {
          found := host.hasProtocol(User, ToUpper(registrantData.protocol));
        }
      case Iircn =>
        found := host.hasProtocol(Iircn, ToUpper(registrantData.protocol));
      case Server =>
        found := registrantData.protocol != "" && host.hasProtocol(Server, ToUpper(registrantData.protocol));
      case _ =>
        found := false;
    }

    /** `parseMessage`: dispatch, then hand over if that completed the registration. */
    method ParseMessage(command: string, params: seq<string>, nickInUse: bool, probe: string,
                        created: bool, overrun: string)
      requires !handedOver
      modifies this
      ensures Now() == Step(old(Now()), host, Arrival(Recognise(command), params, nickInUse, probe, created, overrun))
    {
      Dispatch(Arrival(Recognise(command), params, nickInUse, probe, created, overrun));
      var complete := HasAllFields();
      if !complete {
        return;
      }
      var found := FindProtocol();
      if !found {
        Goodbye();
        return;
      }
      if created {
        handedOver := true;
        trace := Then(trace, HandedOver(registrationType, registrantData, connected));
        return;
      }
      Goodbye();
    }
  }
}
