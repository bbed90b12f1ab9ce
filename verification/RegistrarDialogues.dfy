/** Whole registrations: the messages that get a user, a network or a server handed over, what every
    command does to an open connection, and the live protocol object read over a stretch of messages. */
module RegistrarDialogues {
  import opened Text
  import opened Names
  import opened Registrar
  import opened RegistrarSafety
  import opened RegistrarRecords
  import opened RegistrarProtocol

  const COMMANDS := ["CAPAB", "IIRCN", "NICK", "PASS", "PONG", "QUIT", "SERVER", "SERVICE", "USER"]

  /** Commands are recognised letter by letter, in upper case only. */
  lemma CommandTable(command: string)
    ensures Recognise("CAPAB") == CAPAB && Recognise("IIRCN") == IIRCN && Recognise("NICK") == NICK
    ensures Recognise("PASS") == PASS && Recognise("PONG") == PONG && Recognise("QUIT") == QUIT
    ensures Recognise("SERVER") == SERVER && Recognise("SERVICE") == SERVICE && Recognise("USER") == USER
    ensures Recognise(command) == OTHER <==> command !in COMMANDS
  {
    assert COMMANDS[0] == "CAPAB" && COMMANDS[1] == "IIRCN" && COMMANDS[2] == "NICK" && COMMANDS[3] == "PASS";
    assert COMMANDS[4] == "PONG" && COMMANDS[5] == "QUIT" && COMMANDS[6] == "SERVER" && COMMANDS[7] == "SERVICE";
    assert COMMANDS[8] == "USER";
  }

  // ----- one message

  /** The protocol asked for at hand-over. */
  function Wanted(kind: Kind, protocol: string): string {
    if kind == User && protocol == "" then "IRC-2" else ToUpper(protocol)
  }

  predicate Ready(kind: Kind, r: Registrant, pongsLeft: nat) {
    || (kind == User && r.name != "" && r.username != "" && r.hostname != "" && pongsLeft == 0)
    || (kind == Iircn && r.password != "" && r.name != "" && r.hostname != "" && r.protocol != "" && r.linkStamp > 0)
    || (kind == Server && r.password != "" && r.hostname != "")
    || (kind == Service && r.password != "" && r.name != "" && r.distribution != "")
  }

  /** After its own effect, a message hands over exactly when the record is ready, a protocol of the
      type's serves it and the new protocol object is created; a ready record not handed over closes. */
  lemma HandOverExactly(s: State, h: Host, a: Arrival)
    requires !s.gone
    ensures var m, r := Handle(s, h, a), Step(s, h, a);
            var ready := Ready(m.kind, m.data, m.pongsLeft);
            && r.data == m.data && r.kind == m.kind && r.pongsLeft == m.pongsLeft
            && (r.gone <==> ready && m.kind != Service && (m.kind == Server ==> m.data.protocol != "")
                            && h.hasProtocol(m.kind, Wanted(m.kind, m.data.protocol)) && a.created)
            && (r.connected <==> m.connected && (ready ==> r.gone))
  {
    FramesFor(s, h, a);
  }

  /** QUIT closes and changes nothing else; CAPAB and unknown commands change nothing. */
  lemma QuitAndTheRest(s: State, h: Host, a: Arrival)
    requires a.command in {QUIT, CAPAB, OTHER}
    ensures var m := Handle(s, h, a);
            && m.data == s.data && m.kind == s.kind && m.pongsLeft == s.pongsLeft && m.pongMatch == s.pongMatch
            && (m.connected <==> s.connected && a.command != QUIT)
  {
  }

  /** A message that is out of turn, not allowed or untrue. */
  predicate Offends(s: State, h: Host, a: Arrival) {
    match a.command
    case PASS => s.data.password != ""
    case PONG => s.pongsLeft == 0 || a.params == [] || a.params[0] != s.pongMatch
    case QUIT => true
    case USER => s.kind != Unknown || !h.allowUsers
    case SERVICE => s.kind != Unknown || !h.allowServices
    case SERVER => s.kind != Unknown || !h.allowServers || (|a.params| >= 3 && h.toNumber(a.params[1]) != 1)
    case IIRCN =>
      s.kind != Unknown || !h.allowNetworks
      || (|a.params| >= 6 && (a.params[1] != "*" || h.toNumber(a.params[4]) <= 0))
    case CAPAB => false
    case NICK => false
    case OTHER => false
  }

  /** Only these messages close an open connection on their own account. */
  lemma ClosesExactly(s: State, h: Host, a: Arrival)
    ensures Handle(s, h, a).connected <==> s.connected && !Offends(s, h, a)
  {
    FramesFor(s, h, a);
  }

  // ----- a user

  /** One reply for each probe, each drawing the next. */
  function Replies(probes: seq<string>): seq<Arrival> {
    if probes == [] then []
    else
      [Arrival(PONG, [probes[0]], false, if |probes| > 1 then probes[1] else "", true, "")] + Replies(probes[1..])
  }

  lemma {:induction false} RunAppend(s: State, h: Host, a: seq<Arrival>, b: seq<Arrival>)
    ensures Run(s, h, a + b) == Run(Run(s, h, a), h, b)
    decreases |a|
  {
    if a == [] {
      assert a + b == b;
    } else {
      assert (a + b)[0] == a[0] && (a + b)[1..] == a[1..] + b;
      RunAppend(Step(s, h, a[0]), h, a[1..], b);
    }
  }

  lemma RunOne(s: State, h: Host, a: Arrival)
    ensures Run(s, h, [a]) == Step(s, h, a)
  {
    assert [a][1..] == [];
  }

  lemma OneReply(s: State, h: Host, reply: string, next: string)
    requires !s.gone && s.kind == Unknown && s.pongsLeft > 0 && s.pongMatch == reply
    ensures var r := Step(s, h, Arrival(PONG, [reply], false, next, true, ""));
            && !r.gone && r.kind == Unknown && r.data == s.data && r.connected == s.connected
            && r.pongsLeft == s.pongsLeft - 1 && (r.pongsLeft > 0 ==> r.pongMatch == next)
  {
  }

  /** Answering every ping brings the pongs owed to nothing and changes nothing else of the record. */
  lemma {:induction false} RepliesCount(s: State, h: Host, probes: seq<string>)
    requires !s.gone && s.kind == Unknown && s.pongsLeft == |probes| && (probes != [] ==> s.pongMatch == probes[0])
    ensures var r := Run(s, h, Replies(probes));
            !r.gone && r.kind == Unknown && r.data == s.data && r.connected == s.connected && r.pongsLeft == 0
    decreases |probes|
  {
    if probes != [] {
      var next := if |probes| > 1 then probes[1] else "";
      OneReply(s, h, probes[0], next);
      var a := Arrival(PONG, [probes[0]], false, next, true, "");
      assert Replies(probes)[0] == a && Replies(probes)[1..] == Replies(probes[1..]);
      RepliesCount(Step(s, h, a), h, probes[1..]);
    }
  }

  lemma FirstNick(h: Host, nick: string, probes: seq<string>)
    requires NickValidity(nick, h.maxNickLength) == NoError
    ensures var r := Step(Start(|probes|), h,
                          Arrival(NICK, [nick], false, if probes == [] then "" else probes[0], true, ""));
            && !r.gone && r.kind == Unknown && r.data == BLANK.(name := nick) && r.connected
            && r.pongsLeft == |probes| && (probes != [] ==> r.pongMatch == probes[0])
  {
  }

  lemma LastUser(s: State, h: Host, user: seq<string>, created: bool)
    requires !s.gone && s.kind == Unknown && s.data == BLANK.(name := s.data.name) && s.connected && s.pongsLeft == 0
    ensures var r := Step(s, h, Arrival(USER, user, false, "", created, ""));
            && (r.gone <==> && h.allowUsers && |user| >= 4 && s.data.name != "" && user[0] != "" && user[2] != ""
                            && h.hasProtocol(User, "IRC-2") && created)
            && (r.gone ==>
                  r.connected && r.kind == User
                  && r.data == Registrant("", s.data.name, user[0], user[2], Cut(user[3], h.maxRealNameLength), "",
                                          user[1], "", -1, -1))
  {
  }

  /** A user who sends a good free nickname, answers every ping and then sends USER is handed over,
      with exactly this record, exactly when users are allowed, nothing needed is empty, a user protocol
      is loaded and its object is created. */
  lemma UserRegistersExactly(h: Host, nick: string, probes: seq<string>, user: seq<string>, created: bool)
    requires NickValidity(nick, h.maxNickLength) == NoError
    ensures var hello := Arrival(NICK, [nick], false, if probes == [] then "" else probes[0], true, "");
            var r := Run(Start(|probes|), h,
                         [hello] + Replies(probes) + [Arrival(USER, user, false, "", created, "")]);
            && (r.gone <==> && h.allowUsers && |user| >= 4 && nick != "" && user[0] != "" && user[2] != ""
                            && h.hasProtocol(User, "IRC-2") && created)
            && (r.gone ==>
                  r.connected && r.kind == User
                  && r.data == Registrant("", nick, user[0], user[2], Cut(user[3], h.maxRealNameLength), "",
                                          user[1], "", -1, -1))
  {
    var hello := Arrival(NICK, [nick], false, if probes == [] then "" else probes[0], true, "");
    var account := Arrival(USER, user, false, "", created, "");
    FirstNick(h, nick, probes);
    RunOne(Start(|probes|), h, hello);
    var named := Step(Start(|probes|), h, hello);
    RepliesCount(named, h, probes);
    RunAppend(Start(|probes|), h, [hello], Replies(probes));
    RunAppend(Start(|probes|), h, [hello] + Replies(probes), [account]);
    var answered := Run(named, h, Replies(probes));
    RunOne(answered, h, account);
    LastUser(answered, h, user, created);
  }

  // ----- a network and a server

  lemma RunTwo(s: State, h: Host, a: Arrival, b: Arrival)
    ensures Run(s, h, [a, b]) == Step(Step(s, h, a), h, b)
  {
    assert [a, b] == [a] + [b];
    RunAppend(s, h, [a], [b]);
    RunOne(s, h, a);
    RunOne(Step(s, h, a), h, b);
  }

  lemma FirstPassword(h: Host, probes: nat, password: string)
    ensures Step(Start(probes), h, Arrival(PASS, [password], false, "", true, ""))
            == Log(Start(probes).(data := BLANK.(password := password)), PasswordAccepted(password))
  {
  }

  /** A network that sends PASS and IIRCN is handed over, with exactly this record, exactly on these terms. */
  lemma NetworkRegistersExactly(h: Host, probes: nat, password: string, link: seq<string>, created: bool)
    ensures var r := Run(Start(probes), h, [Arrival(PASS, [password], false, "", true, ""),
                                            Arrival(IIRCN, link, false, "", created, "")]);
            && (r.gone <==> && h.allowNetworks && |link| >= 6 && link[1] == "*" && h.toNumber(link[4]) > 0
                            && password != "" && link[0] != "" && link[2] != "" && link[3] != ""
                            && h.hasProtocol(Iircn, ToUpper(link[3])) && created)
            && (r.gone ==>
                  r.connected && r.kind == Iircn
                  && r.data == Registrant(password, link[0], "", link[2], link[5], "", "", ToUpper(link[3]),
                                          -1, h.toNumber(link[4])))
  {
    var pass := Arrival(PASS, [password], false, "", true, "");
    var a := Arrival(IIRCN, link, false, "", created, "");
    FirstPassword(h, probes, password);
    RunTwo(Start(probes), h, pass, a);
    if |link| >= 6 {
      UpperTwice(link[3]);
      assert ToUpper(link[3]) == "" <==> link[3] == "";
    }
  }

  /** A server that sends PASS and the long SERVER is handed over, with exactly this record, exactly on
      these terms; the short SERVER never is. */
  lemma ServerRegistersExactly(h: Host, probes: nat, password: string, server: seq<string>, created: bool)
    ensures var r := Run(Start(probes), h, [Arrival(PASS, [password], false, "", true, ""),
                                            Arrival(SERVER, server, false, "", created, "")]);
            && (r.gone ==> |server| >= 5)
            && (|server| > 5 ==>
                  (r.gone <==> && h.allowServers && h.toNumber(server[1]) == 1 && password != "" && server[0] != ""
                               && server[4] != "" && h.hasProtocol(Server, ToUpper(server[4])) && created))
            && (r.gone && |server| > 5 ==>
                  r.connected && r.kind == Server
                  && r.data == Registrant(password, "", "", server[0], Cut(server[5], h.maxDescriptionLength), "", "",
                                          server[4], h.toNumber(server[2]), h.toNumber(server[3])))
  {
    var pass := Arrival(PASS, [password], false, "", true, "");
    var a := Arrival(SERVER, server, false, "", created, "");
    FirstPassword(h, probes, password);
    RunTwo(Start(probes), h, pass, a);
  }

  // ----- the live object

  /** A message as the input side delivers it, with the outside's part. */
  datatype Line = Line(command: string, params: seq<string>, nickInUse: bool, probe: string, created: bool,
                       overrun: string)

  function Arriving(l: Line): Arrival {
    Arrival(Recognise(l.command), l.params, l.nickInUse, l.probe, l.created, l.overrun)
  }

  function AllArriving(lines: seq<Line>): (r: seq<Arrival>)
    ensures |r| == |lines| && forall i | 0 <= i < |lines| :: r[i] == Arriving(lines[i])
  {
    seq(|lines|, i requires 0 <= i < |lines| => Arriving(lines[i]))
  }

  /** Messages are read until one hands over. A user handed over carries the parameters of the one
      USER accepted. */
  method Register(protocol: Protocol, ghost probes: nat, lines: seq<Line>) returns (done: nat, ghost k: nat)
    requires protocol.Now() == Start(probes)
    modifies protocol
    ensures done <= |lines| && (done < |lines| ==> protocol.handedOver)
    ensures protocol.Now() == Run(Start(probes), protocol.host, AllArriving(lines[..done]))
    ensures protocol.handedOver && protocol.registrationType == User ==>
              && k < done && lines[k].command == "USER" && |lines[k].params| >= 4
              && protocol.registrantData.username == lines[k].params[0]
              && protocol.registrantData.modes == lines[k].params[1]
              && protocol.registrantData.hostname == lines[k].params[2]
              && protocol.registrantData.description == Cut(lines[k].params[3], protocol.host.maxRealNameLength)
  {
    done, k := 0, 0;
    while done < |lines| && !protocol.handedOver
      invariant done <= |lines|
      invariant protocol.Now() == Run(Start(probes), protocol.host, AllArriving(lines[..done]))
    {
      var l := lines[done];
      protocol.ParseMessage(l.command, l.params, l.nickInUse, l.probe, l.created, l.overrun);
      assert AllArriving(lines[..done + 1]) == AllArriving(lines[..done]) + [Arriving(l)];
      RunSnoc(Start(probes), protocol.host, AllArriving(lines[..done]), Arriving(l));
      done := done + 1;
    }
    if protocol.handedOver && protocol.registrationType == User {
      k := UserRecord(protocol.host, probes, AllArriving(lines[..done]));
      UserCommand(lines[k].command);
    }
  }

  lemma UserCommand(command: string)
    ensures Recognise(command) == USER <==> command == "USER"
  {
  }
}
