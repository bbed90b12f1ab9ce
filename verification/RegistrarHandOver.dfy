/** What a hand-over of the registrar guarantees over whole runs, and exactly when the name a
    user is handed over under is one a NICK message brought in. */
module RegistrarHandOver {
  import Text
  import opened Names
  import opened Registrar
  import opened RegistrarSafety

  // ----- the name, from the arrivals alone

  /** This NICK is accepted: it carries a name that is valid and not in use. */
  predicate AcceptsNick(s: State, h: Host, a: Arrival) {
    && !s.gone && a.command == NICK && a.params != []
    && NickValidity(a.params[0], h.maxNickLength) == NoError && !a.nickInUse
  }

  /** This IIRCN is rejected for its link stamp, after its name has been stored. */
  predicate RejectedLink(s: State, h: Host, a: Arrival) {
    && !s.gone && a.command == IIRCN && h.allowNetworks && s.kind == Unknown
    && |a.params| >= 6 && a.params[1] == "*" && h.toNumber(a.params[4]) <= 0
  }

  /** Some NICK of these arrivals is accepted with this name. */
  predicate NickTaken(s: State, h: Host, arrivals: seq<Arrival>, nick: string)
    decreases |arrivals|
  {
    arrivals != []
    && ((AcceptsNick(s, h, arrivals[0]) && arrivals[0].params[0] == nick)
        || NickTaken(Step(s, h, arrivals[0]), h, arrivals[1..], nick))
  }

  function LeftAfter(s: State, h: Host, a: Arrival, left: Text.Option<string>): Text.Option<string> {
    if RejectedLink(s, h, a) then Text.Some(a.params[0])
    else if AcceptsNick(s, h, a) then Text.None
    else left
  }

  /** The name left by the last rejected link, unless a later NICK was accepted. */
  function LeftByLink(s: State, h: Host, arrivals: seq<Arrival>, left: Text.Option<string>): Text.Option<string>
    decreases |arrivals|
  {
    if arrivals == [] then left
    else LeftByLink(Step(s, h, arrivals[0]), h, arrivals[1..], LeftAfter(s, h, arrivals[0], left))
  }

  predicate NameIsLeft(s: State, left: Text.Option<string>) {
    s.kind != Iircn ==> s.data.name == left.GetOr(LastNick(s.trace))
  }

  lemma NickNames(s: State, h: Host, a: Arrival, left: Text.Option<string>)
    requires NameIsLeft(s, left) && !s.gone && a.command == NICK
    ensures NameIsLeft(Handle(s, h, a), LeftAfter(s, h, a, left))
  {
  }

  lemma PongNames(s: State, h: Host, a: Arrival, left: Text.Option<string>)
    requires NameIsLeft(s, left)
    ensures NameIsLeft(PongStep(s, a), left)
  {
  }

  lemma LinkNames(s: State, h: Host, a: Arrival, left: Text.Option<string>)
    requires NameIsLeft(s, left) && !s.gone && a.command == IIRCN
    ensures NameIsLeft(Handle(s, h, a), LeftAfter(s, h, a, left))
  {
  }

  lemma HandleNames(s: State, h: Host, a: Arrival, left: Text.Option<string>)
    requires NameIsLeft(s, left) && !s.gone
    ensures NameIsLeft(Handle(s, h, a), LeftAfter(s, h, a, left))
  {
    FramesFor(s, h, a);
    match a.command
    case NICK => NickNames(s, h, a, left);
    case IIRCN => LinkNames(s, h, a, left);
    case PONG => PongNames(s, h, a, left);
    case _ =>
  }

  lemma FinishKeepsNames(s: State, h: Host, a: Arrival, left: Text.Option<string>, nick: string)
    ensures NameIsLeft(Finish(s, h, a), left) <==> NameIsLeft(s, left)
    ensures NickAcceptedIn(Finish(s, h, a).trace, nick) <==> NickAcceptedIn(s.trace, nick)
  {
  }

  lemma {:induction false} RunLeavesName(s: State, h: Host, arrivals: seq<Arrival>, left: Text.Option<string>)
    requires NameIsLeft(s, left)
    ensures NameIsLeft(Run(s, h, arrivals), LeftByLink(s, h, arrivals, left))
    decreases |arrivals|
  {
    if arrivals != [] {
      var a := arrivals[0];
      if !s.gone {
        HandleNames(s, h, a, left);
        FinishKeepsNames(Handle(s, h, a), h, a, LeftAfter(s, h, a, left), "");
      }
      RunLeavesName(Step(s, h, a), h, arrivals[1..], LeftAfter(s, h, a, left));
    }
  }

  lemma NickShows(s: State, h: Host, a: Arrival, nick: string)
    requires !s.gone && a.command == NICK
    ensures NickAcceptedIn(Handle(s, h, a).trace, nick)
        <==> NickAcceptedIn(s.trace, nick) || (AcceptsNick(s, h, a) && a.params[0] == nick)
  {
    if AcceptsNick(s, h, a) {
      var named := Then(s.trace, NickAccepted(a.params[0]));
      assert NickAcceptedIn(named, nick) <==> NickAcceptedIn(s.trace, nick) || a.params[0] == nick;
      assert NickAcceptedIn(Then(named, PingSent(a.probe)), nick) <==> NickAcceptedIn(named, nick);
    }
  }

  lemma StepShows(s: State, h: Host, a: Arrival, nick: string)
    ensures NickAcceptedIn(Step(s, h, a).trace, nick)
        <==> NickAcceptedIn(s.trace, nick) || (AcceptsNick(s, h, a) && a.params[0] == nick)
  {
    if !s.gone {
      FinishKeepsNames(Handle(s, h, a), h, a, Text.None, nick);
      FramesFor(s, h, a);
      match a.command
      case NICK => NickShows(s, h, a, nick);
      case PONG => PongAcceptsNoNick(s, a, nick);
      case _ =>
    }
  }

  /** The trace records exactly the names that accepted NICK messages carried. */
  lemma {:induction false} TraceShowsNicks(s: State, h: Host, arrivals: seq<Arrival>, nick: string)
    ensures NickAcceptedIn(Run(s, h, arrivals).trace, nick)
        <==> NickAcceptedIn(s.trace, nick) || NickTaken(s, h, arrivals, nick)
    decreases |arrivals|
  {
    if arrivals != [] {
      StepShows(s, h, arrivals[0], nick);
      TraceShowsNicks(Step(s, h, arrivals[0]), h, arrivals[1..], nick);
    }
  }

  lemma {:induction false} TakenNickIsValid(s: State, h: Host, arrivals: seq<Arrival>, nick: string)
    requires NickTaken(s, h, arrivals, nick)
    ensures NickValidity(nick, h.maxNickLength) == NoError
    decreases |arrivals|
  {
    if !(AcceptsNick(s, h, arrivals[0]) && arrivals[0].params[0] == nick) {
      TakenNickIsValid(Step(s, h, arrivals[0]), h, arrivals[1..], nick);
    }
  }

  /** The name of a user hand-over comes from an accepted NICK, valid and unused at that moment,
      exactly when no rejected link left its name behind, or left one a NICK had brought in as well. */
  lemma UserNameIsNickExactly(h: Host, probes: nat, arrivals: seq<Arrival>)
    requires Run(Start(probes), h, arrivals).gone && Run(Start(probes), h, arrivals).kind == User
    ensures var name := Run(Start(probes), h, arrivals).data.name;
            var left := LeftByLink(Start(probes), h, arrivals, Text.None);
            NickTaken(Start(probes), h, arrivals, name)
            <==> left.None? || NickTaken(Start(probes), h, arrivals, left.value)
  {
    var s := Run(Start(probes), h, arrivals);
    RunKeepsName(Start(probes), h, arrivals);
    RunHandsOverComplete(Start(probes), h, arrivals);
    RunLeavesName(Start(probes), h, arrivals, Text.None);
    TraceShowsNicks(Start(probes), h, arrivals, s.data.name);
  }

  // ----- the hand-overs

  /** User hand-over: one accepted USER on a listener that allows users, every pong accepted; the
      name is a valid one an accepted NICK brought in, exactly when no rejected link left another;
      and with no free pong, after a NICK and as many pings as pongs. */
  lemma UserHandOver(h: Host, probes: nat, arrivals: seq<Arrival>)
    requires GoodProbes(arrivals)
    requires Run(Start(probes), h, arrivals).gone && Run(Start(probes), h, arrivals).kind == User
    ensures var s := Run(Start(probes), h, arrivals);
            var p := ProbesIn(s.trace);
            var left := LeftByLink(Start(probes), h, arrivals, Text.None);
            var taken := NickTaken(Start(probes), h, arrivals, s.data.name);
            && h.allowUsers && KindsIn(s.trace) == KindTally(1, User)
            && p.pongs == probes && s.data.name != ""
            && (taken <==> left.None? || NickTaken(Start(probes), h, arrivals, left.value))
            && (taken ==> NickValidity(s.data.name, h.maxNickLength) == NoError)
            && (s.connected ==> taken)
            && (!FreePongIn(Start(probes), h, arrivals) ==> p.pings == probes && (probes > 0 ==> p.nicks > 0))
  {
    var s := Run(Start(probes), h, arrivals);
    RunKeepsPongs(Start(probes), h, arrivals, probes);
    RunKeepsKind(Start(probes), h, arrivals);
    RunKeepsName(Start(probes), h, arrivals);
    RunHandsOverComplete(Start(probes), h, arrivals);
    FreePongsCounted(Start(probes), h, arrivals);
    UserNameIsNickExactly(h, probes, arrivals);
    TraceShowsNicks(Start(probes), h, arrivals, s.data.name);
    if NickTaken(Start(probes), h, arrivals, s.data.name) {
      TakenNickIsValid(Start(probes), h, arrivals, s.data.name);
    }
  }

  /** Network hand-over: only if the listener allows networks, with the one password taken and a positive stamp. */
  lemma IircnHandOver(h: Host, probes: nat, arrivals: seq<Arrival>)
    requires Run(Start(probes), h, arrivals).gone && Run(Start(probes), h, arrivals).kind == Iircn
    ensures var s := Run(Start(probes), h, arrivals);
            && h.allowNetworks && KindsIn(s.trace) == KindTally(1, Iircn)
            && s.data.password != "" && PasswordsIn(s.trace) == [s.data.password]
            && s.data.linkStamp > 0
  {
    RunKeepsKind(Start(probes), h, arrivals);
    RunKeepsPassword(Start(probes), h, arrivals);
    RunHandsOverComplete(Start(probes), h, arrivals);
  }

  /** Server hand-over needs the password and a host name; services are never handed over. */
  lemma ServerAndServiceHandOver(h: Host, probes: nat, arrivals: seq<Arrival>)
    requires Run(Start(probes), h, arrivals).gone
    ensures var s := Run(Start(probes), h, arrivals);
            && s.kind != Service && s.kind != Unknown
            && (s.kind == Server ==>
                  h.allowServers && PasswordsIn(s.trace) == [s.data.password] && s.data.hostname != "")
  {
    RunKeepsKind(Start(probes), h, arrivals);
    RunKeepsPassword(Start(probes), h, arrivals);
    RunHandsOverComplete(Start(probes), h, arrivals);
  }

  lemma RunThree(s: State, h: Host, a: Arrival, b: Arrival, c: Arrival)
    ensures Run(s, h, [a, b, c]) == Step(Step(Step(s, h, a), h, b), h, c)
  {
    var s1 := Step(s, h, a);
    var s2 := Step(s1, h, b);
    assert [c][1..] == [] && Run(s2, h, [c]) == Step(s2, h, c);
    assert [b, c][1..] == [c] && Run(s1, h, [b, c]) == Run(s2, h, [c]);
    assert [a, b, c][1..] == [b, c];
  }

  /** The ping challenge can be passed without answering a ping: an empty PONG, then NICK and USER. */
  lemma EmptyPongDefeatsTheChallenge(h: Host, nick: string, user: seq<string>, probe: string)
    requires h.allowUsers && h.hasProtocol(User, "IRC-2")
    requires nick != "" && NickValidity(nick, h.maxNickLength) == NoError
    requires |user| == 4 && user[0] != "" && user[2] != "" && probe != ""
    ensures var s := Run(Start(1), h, [Arrival(PONG, [""], false, probe, true, ""),
                                       Arrival(NICK, [nick], false, probe, true, ""),
                                       Arrival(USER, user, false, probe, true, "")]);
            s.gone && s.kind == User && ProbesIn(s.trace).pings == 0
  {
    var pong := Arrival(PONG, [""], false, probe, true, "");
    var nickname := Arrival(NICK, [nick], false, probe, true, "");
    var account := Arrival(USER, user, false, probe, true, "");
    var s1 := Step(Start(1), h, pong);
    assert s1 == Log(Start(1).(pongsLeft := 0), PongAccepted(""));
    var s2 := Step(s1, h, nickname);
    assert s2 == Log(s1.(data := BLANK.(name := nick)), NickAccepted(nick));
    var s3 := Step(s2, h, account);
    assert s3.gone && s3.kind == User;
    RunThree(Start(1), h, pong, nickname, account);
    assert s2.trace == Then(Then(Nothing, PongAccepted("")), NickAccepted(nick));
    assert ProbesIn(Then(Nothing, PongAccepted(""))).pings == 0;
    assert ProbesIn(s2.trace).pings == 0;
    assert ProbesIn(s3.trace).pings == ProbesIn(s2.trace).pings;
  }

  lemma RunFour(s: State, h: Host, a: Arrival, b: Arrival, c: Arrival, d: Arrival)
    ensures Run(s, h, [a, b, c, d]) == Step(Step(Step(Step(s, h, a), h, b), h, c), h, d)
  {
    var s1 := Step(s, h, a);
    var s2 := Step(s1, h, b);
    var s3 := Step(s2, h, c);
    assert [d][1..] == [] && Run(s3, h, [d]) == Step(s3, h, d);
    assert [c, d][1..] == [d] && Run(s2, h, [c, d]) == Run(s3, h, [d]);
    assert [b, c, d][1..] == [c, d] && Run(s1, h, [b, c, d]) == Run(s2, h, [c, d]);
    assert [a, b, c, d][1..] == [b, c, d];
  }

  lemma OtherNickNotAccepted(nick: string, other: string, probe: string)
    requires nick != other
    ensures !NickAcceptedIn(Then(Then(Then(Then(Nothing, NickAccepted(nick)), PingSent(probe)),
                                      PongAccepted(probe)), Closed), other)
  {
    var first := Then(Nothing, NickAccepted(nick));
    assert !NickAcceptedIn(first, other);
    assert !NickAcceptedIn(Then(first, PingSent(probe)), other);
    assert !NickAcceptedIn(Then(Then(first, PingSent(probe)), PongAccepted(probe)), other);
  }

  lemma RejectedLinkKeepsName(s: State, h: Host, link: Arrival)
    requires !s.gone && s.kind == Unknown && h.allowNetworks && link.command == IIRCN
    requires |link.params| == 6 && link.params[0] != "" && link.params[1] == "*" && h.toNumber(link.params[4]) <= 0
    ensures var r := Step(s, h, link);
            r.trace == Then(s.trace, Closed) && r.data.name == link.params[0] && r.kind == Unknown && !r.gone
            && r.pongsLeft == s.pongsLeft
  {
  }

  lemma LastUserHandsOver(s: State, h: Host, account: Arrival, nick: string)
    requires !s.gone && s.kind == Unknown && s.data.name != "" && s.pongsLeft == 0
    requires h.allowUsers && (forall protocol :: h.hasProtocol(User, protocol)) && account.command == USER
    requires account.created && |account.params| == 4 && account.params[0] != "" && account.params[2] != ""
    ensures var r := Step(s, h, account);
            r.gone && r.kind == User && r.data.name == s.data.name
            && (NickAcceptedIn(r.trace, nick) <==> NickAcceptedIn(s.trace, nick))
  {
  }

  /** A link can leave its name behind: a rejected IIRCN has already replaced the name, and
      messages read in the same block can still complete the registration. */
  lemma RejectedNetworkNameSurvives(h: Host, nick: string, other: string, network: seq<string>, user: seq<string>,
                                    probe: string)
    requires h.allowUsers && h.allowNetworks && (forall protocol :: h.hasProtocol(User, protocol))
    requires nick != "" && nick != other && NickValidity(nick, h.maxNickLength) == NoError
    requires |network| == 6 && network[0] == other != "" && network[1] == "*" && h.toNumber(network[4]) <= 0
    requires |user| == 4 && user[0] != "" && user[2] != "" && probe != ""
    ensures var s := Run(Start(1), h, [Arrival(NICK, [nick], false, probe, true, ""),
                                       Arrival(PONG, [probe], false, probe, true, ""),
                                       Arrival(IIRCN, network, false, probe, true, ""),
                                       Arrival(USER, user, false, probe, true, "")]);
            s.gone && s.kind == User && s.data.name == other && !NickAcceptedIn(s.trace, other)
  {
    var nickname := Arrival(NICK, [nick], false, probe, true, "");
    var pong := Arrival(PONG, [probe], false, probe, true, "");
    var link := Arrival(IIRCN, network, false, probe, true, "");
    var account := Arrival(USER, user, false, probe, true, "");
    var s1 := Step(Start(1), h, nickname);
    assert s1 == SendPing(Log(Start(1).(data := BLANK.(name := nick)), NickAccepted(nick)), probe);
    var s2 := Step(s1, h, pong);
    assert s2 == Log(s1.(pongsLeft := 0), PongAccepted(probe));
    var s3 := Step(s2, h, link);
    RejectedLinkKeepsName(s2, h, link);
    assert s3.trace == Then(s2.trace, Closed) && s3.data.name == other && s3.kind == Unknown && !s3.gone;
    LastUserHandsOver(s3, h, account, other);
    OtherNickNotAccepted(nick, other, probe);
    RunFour(Start(1), h, nickname, pong, link, account);
  }

  /** No NICK is needed at all: an empty PONG, a rejected IIRCN and USER hand over under a name
      that was never checked. */
  lemma NoNickIsNeeded(h: Host, network: seq<string>, user: seq<string>, probe: string, nick: string)
    requires h.allowUsers && h.allowNetworks && (forall protocol :: h.hasProtocol(User, protocol))
    requires |network| == 6 && network[0] != "" && network[1] == "*" && h.toNumber(network[4]) <= 0
    requires |user| == 4 && user[0] != "" && user[2] != "" && probe != ""
    ensures var s := Run(Start(1), h, [Arrival(PONG, [""], false, probe, true, ""),
                                       Arrival(IIRCN, network, false, probe, true, ""),
                                       Arrival(USER, user, false, probe, true, "")]);
            s.gone && s.kind == User && s.data.name == network[0] && !NickAcceptedIn(s.trace, nick)
  {
    var pong := Arrival(PONG, [""], false, probe, true, "");
    var link := Arrival(IIRCN, network, false, probe, true, "");
    var account := Arrival(USER, user, false, probe, true, "");
    var s1 := Step(Start(1), h, pong);
    assert s1 == Log(Start(1).(pongsLeft := 0), PongAccepted(""));
    var s2 := Step(s1, h, link);
    RejectedLinkKeepsName(s1, h, link);
    LastUserHandsOver(s2, h, account, nick);
    assert !NickAcceptedIn(s1.trace, nick);
    assert NickAcceptedIn(s2.trace, nick) <==> NickAcceptedIn(s1.trace, nick);
    RunThree(Start(1), h, pong, link, account);
  }
}
