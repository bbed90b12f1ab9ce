/** What every step of the registrar keeps: probes, registration type, name and password. */
module RegistrarSafety {
  import opened Names
  import opened Registrar

  /** The probes pings carry are never empty. */
  predicate GoodProbes(arrivals: seq<Arrival>) {
    forall i | 0 <= i < |arrivals| :: arrivals[i].probe != ""
  }

  // ----- what one registration command can do

  predicate KindFrame(s: State, r: State, h: Host, kind: Kind) {
    && r.pongsLeft == s.pongsLeft && r.pongMatch == s.pongMatch && r.gone == s.gone
    && r.data.password == s.data.password && (kind != Iircn ==> r.data.name == s.data.name)
    && match r.trace
       case Nothing => false
       case Then(before, last) =>
         && before == s.trace
         && match last
            case Refused => r.kind == s.kind && r.connected == s.connected && r.data.name == s.data.name
            case Closed => r.kind == s.kind && !r.connected
            case KindTaken(taken) =>
              taken == kind == r.kind && s.kind == Unknown && Allows(h, kind) && r.connected == s.connected
            case _ => false
  }

  lemma UserFrame(s: State, h: Host, a: Arrival)
    ensures KindFrame(s, UserStep(s, h, a), h, User)
  {
  }

  lemma ServiceFrame(s: State, h: Host, a: Arrival)
    ensures KindFrame(s, ServiceStep(s, h, a), h, Service)
  {
  }

  lemma ServerFrame(s: State, h: Host, a: Arrival)
    ensures KindFrame(s, ServerStep(s, h, a), h, Server)
  {
  }

  lemma IircnFrame(s: State, h: Host, a: Arrival)
    ensures KindFrame(s, IircnStep(s, h, a), h, Iircn)
  {
  }

  lemma FramesFor(s: State, h: Host, a: Arrival)
    ensures a.command == USER ==> KindFrame(s, Handle(s, h, a), h, User)
    ensures a.command == SERVICE ==> KindFrame(s, Handle(s, h, a), h, Service)
    ensures a.command == SERVER ==> KindFrame(s, Handle(s, h, a), h, Server)
    ensures a.command == IIRCN ==> KindFrame(s, Handle(s, h, a), h, Iircn)
  {
    match a.command
    case USER => UserFrame(s, h, a);
    case SERVICE => ServiceFrame(s, h, a);
    case SERVER => ServerFrame(s, h, a);
    case IIRCN => IircnFrame(s, h, a);
    case _ =>
  }

  // ----- pings and pongs

  datatype Probes = Probes(pings: nat, pongs: nat, freePongs: nat, nicks: nat)

  /** What happened to the ping challenge; a free pong is an empty reply that was accepted. */
  function ProbesIn(trace: Trace): Probes {
    match trace
    case Nothing => Probes(0, 0, 0, 0)
    case Then(before, last) =>
      var p := ProbesIn(before);
      match last
      case PingSent(_) => p.(pings := p.pings + 1)
      case PongAccepted(reply) => p.(pongs := p.pongs + 1, freePongs := p.freePongs + if reply == "" then 1 else 0)
      case NickAccepted(_) => p.(nicks := p.nicks + 1)
      case _ => p
  }

  /** The counts seen so far against the pongs left and whether a challenge is out. */
  predicate Balanced(p: Probes, left: nat, challenged: bool, probes: nat) {
    && left + p.pongs == probes
    && (challenged <==> p.pings > 0)
    && p.pings + p.freePongs == p.pongs + (if challenged && left > 0 then 1 else 0)
    && p.freePongs <= 1
    && (p.freePongs == 1 ==> challenged || left == 0)
    && (p.nicks > 0 && left > 0 ==> challenged)
    && (p.pings > 0 ==> p.nicks > 0 || p.freePongs == 1)
  }

  predicate PongInvariant(s: State, probes: nat) {
    Balanced(ProbesIn(s.trace), s.pongsLeft, s.pongMatch != "", probes)
  }

  /** An accepted reply, free if no challenge was out, and the ping after it if pongs are still owed. */
  lemma AnswerKeepsBalance(p: Probes, left: nat, challenged: bool, probes: nat)
    requires Balanced(p, left, challenged, probes) && left > 0
    ensures var q := Probes(p.pings, p.pongs + 1, p.freePongs + (if challenged then 0 else 1), p.nicks);
            && (left == 1 ==> Balanced(q, 0, challenged, probes))
            && (left > 1 ==> Balanced(q.(pings := q.pings + 1), left - 1, true, probes))
  {
  }

  lemma ProbesAfterPong(trace: Trace, reply: string, probe: string)
    ensures var p := ProbesIn(trace);
            var q := Probes(p.pings, p.pongs + 1, p.freePongs + (if reply == "" then 1 else 0), p.nicks);
            && ProbesIn(Then(trace, PongAccepted(reply))) == q
            && ProbesIn(Then(Then(trace, PongAccepted(reply)), PingSent(probe))) == q.(pings := q.pings + 1)
  {
    assert ProbesIn(Then(Then(trace, PongAccepted(reply)), PingSent(probe))).pings
        == ProbesIn(Then(trace, PongAccepted(reply))).pings + 1;
  }

  lemma ProbesAfterClose(s: State)
    ensures ProbesIn(Close(s).trace) == ProbesIn(s.trace)
  {
  }

  lemma PongStepKeepsPongs(s: State, a: Arrival, probes: nat)
    requires PongInvariant(s, probes) && a.probe != ""
    ensures PongInvariant(PongStep(s, a), probes)
  {
    if s.pongsLeft > 0 && a.params != [] && a.params[0] == s.pongMatch {
      var r := PongStep(s, a);
      ProbesAfterPong(s.trace, s.pongMatch, a.probe);
      AnswerKeepsBalance(ProbesIn(s.trace), s.pongsLeft, s.pongMatch != "", probes);
      assert r.pongsLeft == s.pongsLeft - 1;
      if s.pongsLeft == 1 {
        assert r.trace == Then(s.trace, PongAccepted(s.pongMatch)) && r.pongMatch == s.pongMatch;
      } else {
        assert r.trace == Then(Then(s.trace, PongAccepted(s.pongMatch)), PingSent(a.probe)) && r.pongMatch == a.probe;
      }
    } else {
      ProbesAfterClose(s);
      assert PongStep(s, a) == Close(s);
    }
  }

  lemma NickStepKeepsPongs(s: State, h: Host, a: Arrival, probes: nat)
    requires PongInvariant(s, probes) && a.probe != ""
    ensures PongInvariant(NickStep(s, h, a), probes)
  {
  }

  lemma HandleKeepsPongs(s: State, h: Host, a: Arrival, probes: nat)
    requires PongInvariant(s, probes) && a.probe != ""
    ensures PongInvariant(Handle(s, h, a), probes)
  {
    FramesFor(s, h, a);
    match a.command
    case NICK => NickStepKeepsPongs(s, h, a, probes);
    case PONG => PongStepKeepsPongs(s, a, probes);
    case _ =>
  }

  lemma {:induction false} RunKeepsPongs(s: State, h: Host, arrivals: seq<Arrival>, probes: nat)
    requires PongInvariant(s, probes) && GoodProbes(arrivals)
    ensures PongInvariant(Run(s, h, arrivals), probes)
    decreases |arrivals|
  {
    if arrivals != [] {
      if !s.gone {
        HandleKeepsPongs(s, h, arrivals[0], probes);
      }
      RunKeepsPongs(Step(s, h, arrivals[0]), h, arrivals[1..], probes);
    }
  }

  /** Pongs still owed are the probes asked for less the pongs accepted: the counter never wraps. */
  lemma PongsLeftNeverWraps(h: Host, probes: nat, arrivals: seq<Arrival>)
    requires GoodProbes(arrivals)
    ensures var s := Run(Start(probes), h, arrivals);
            ProbesIn(s.trace).pongs <= probes && s.pongsLeft == probes - ProbesIn(s.trace).pongs
  {
    RunKeepsPongs(Start(probes), h, arrivals, probes);
  }

  /** The intended accounting: silence before the first nickname, then one ping outstanding while pongs are owed. */
  predicate ProperAccounting(s: State) {
    var p := ProbesIn(s.trace);
    if p.nicks == 0 then p.pings == 0 && p.pongs == 0
    else p.pings == p.pongs + if s.pongsLeft > 0 then 1 else 0
  }

  /** This message is an empty PONG that passes because no ping has been sent yet. */
  predicate IsFreePong(s: State, a: Arrival) {
    !s.gone && a.command == PONG && s.pongsLeft > 0 && s.pongMatch == "" && a.params != [] && a.params[0] == ""
  }

  predicate FreePongIn(s: State, h: Host, arrivals: seq<Arrival>)
    decreases |arrivals|
  {
    arrivals != [] && (IsFreePong(s, arrivals[0]) || FreePongIn(Step(s, h, arrivals[0]), h, arrivals[1..]))
  }

  lemma FreePongsByHandle(s: State, h: Host, a: Arrival)
    requires !s.gone
    ensures ProbesIn(Handle(s, h, a).trace).freePongs
            == ProbesIn(s.trace).freePongs + if IsFreePong(s, a) then 1 else 0
  {
    FramesFor(s, h, a);
  }

  lemma FreePongsByStep(s: State, h: Host, a: Arrival)
    ensures ProbesIn(Step(s, h, a).trace).freePongs
            == ProbesIn(s.trace).freePongs + if IsFreePong(s, a) then 1 else 0
  {
    if !s.gone {
      FreePongsByHandle(s, h, a);
      var handled := Handle(s, h, a);
      assert Finish(handled, h, a).trace == handled.trace
             || (Finish(handled, h, a).trace.Then? && Finish(handled, h, a).trace.before == handled.trace
                 && !Finish(handled, h, a).trace.last.PongAccepted?);
    }
  }

  lemma {:induction false} FreePongsCounted(s: State, h: Host, arrivals: seq<Arrival>)
    ensures ProbesIn(Run(s, h, arrivals).trace).freePongs >= ProbesIn(s.trace).freePongs
    ensures ProbesIn(Run(s, h, arrivals).trace).freePongs > ProbesIn(s.trace).freePongs <==> FreePongIn(s, h, arrivals)
    decreases |arrivals|
  {
    if arrivals != [] {
      FreePongsByStep(s, h, arrivals[0]);
      FreePongsCounted(Step(s, h, arrivals[0]), h, arrivals[1..]);
    }
  }

  lemma FreePongsSpoilAccounting(s: State, probes: nat)
    requires PongInvariant(s, probes)
    ensures ProperAccounting(s) <==> ProbesIn(s.trace).freePongs == 0
  {
  }

  /** Ping accounting, exactly: it is as intended at the end of a run iff no empty PONG arrived
      while no ping had been sent. */
  lemma PingAccounting(h: Host, probes: nat, arrivals: seq<Arrival>)
    requires GoodProbes(arrivals)
    ensures ProperAccounting(Run(Start(probes), h, arrivals)) <==> !FreePongIn(Start(probes), h, arrivals)
  {
    RunKeepsPongs(Start(probes), h, arrivals, probes);
    FreePongsCounted(Start(probes), h, arrivals);
    FreePongsSpoilAccounting(Run(Start(probes), h, arrivals), probes);
  }

  // ----- the registration type

  datatype KindTally = KindTally(taken: nat, last: Kind)

  function KindsIn(trace: Trace): KindTally {
    match trace
    case Nothing => KindTally(0, Unknown)
    case Then(before, last) =>
      if last.KindTaken? then KindTally(KindsIn(before).taken + 1, last.kind) else KindsIn(before)
  }

  predicate KindInvariant(s: State, h: Host) {
    var k := KindsIn(s.trace);
    && k.taken == (if s.kind == Unknown then 0 else 1) && k.last == s.kind
    && (s.kind != Unknown ==> Allows(h, s.kind))
  }

  lemma HandleKeepsKind(s: State, h: Host, a: Arrival)
    requires KindInvariant(s, h)
    ensures KindInvariant(Handle(s, h, a), h)
    ensures s.kind != Unknown ==> Handle(s, h, a).kind == s.kind
  {
    FramesFor(s, h, a);
  }

  lemma {:induction false} RunKeepsKind(s: State, h: Host, arrivals: seq<Arrival>)
    requires KindInvariant(s, h)
    ensures KindInvariant(Run(s, h, arrivals), h)
    ensures s.kind != Unknown ==> Run(s, h, arrivals).kind == s.kind
    decreases |arrivals|
  {
    if arrivals != [] {
      if !s.gone {
        HandleKeepsKind(s, h, arrivals[0]);
      }
      RunKeepsKind(Step(s, h, arrivals[0]), h, arrivals[1..]);
    }
  }

  /** The registration type is chosen at most once in any run, only if the listener allows it,
      and never changes afterwards. */
  lemma KindChosenOnce(h: Host, probes: nat, arrivals: seq<Arrival>, more: seq<Arrival>)
    ensures var s := Run(Start(probes), h, arrivals);
            && KindsIn(s.trace).taken <= 1
            && (s.kind != Unknown ==> Allows(h, s.kind) && Run(s, h, more).kind == s.kind)
  {
    RunKeepsKind(Start(probes), h, arrivals);
    RunKeepsKind(Run(Start(probes), h, arrivals), h, more);
  }

  // ----- the nickname

  function LastNick(trace: Trace): string {
    match trace
    case Nothing => ""
    case Then(before, last) => if last.NickAccepted? then last.nick else LastNick(before)
  }

  predicate NickAcceptedIn(trace: Trace, nick: string) {
    match trace
    case Nothing => false
    case Then(before, last) => last == NickAccepted(nick) || NickAcceptedIn(before, nick)
  }

  /** While the connection is open the name is the last nickname accepted, except on an IIRCN link. */
  predicate NameInvariant(s: State, h: Host) {
    && (s.connected && s.kind != Iircn ==> s.data.name == LastNick(s.trace))
    && (LastNick(s.trace) != "" ==> NickAcceptedIn(s.trace, LastNick(s.trace)))
    && NickValidity(LastNick(s.trace), h.maxNickLength) == NoError
  }

  lemma NickKeepsName(s: State, h: Host, a: Arrival)
    requires NameInvariant(s, h)
    ensures NameInvariant(NickStep(s, h, a), h)
  {
  }

  lemma PongKeepsName(s: State, h: Host, a: Arrival)
    requires NameInvariant(s, h)
    ensures NameInvariant(PongStep(s, a), h)
  {
  }

  lemma HandleKeepsName(s: State, h: Host, a: Arrival)
    requires NameInvariant(s, h)
    ensures NameInvariant(Handle(s, h, a), h)
  {
    FramesFor(s, h, a);
    match a.command
    case NICK => NickKeepsName(s, h, a);
    case PONG => PongKeepsName(s, h, a);
    case _ =>
  }

  lemma {:induction false} RunKeepsName(s: State, h: Host, arrivals: seq<Arrival>)
    requires NameInvariant(s, h)
    ensures NameInvariant(Run(s, h, arrivals), h)
    decreases |arrivals|
  {
    if arrivals != [] {
      if !s.gone {
        HandleKeepsName(s, h, arrivals[0]);
      }
      RunKeepsName(Step(s, h, arrivals[0]), h, arrivals[1..]);
    }
  }

  lemma PongAcceptsNoNick(s: State, a: Arrival, nick: string)
    ensures NickAcceptedIn(PongStep(s, a).trace, nick) <==> NickAcceptedIn(s.trace, nick)
  {
    if s.pongsLeft > 0 && a.params != [] {
      var answered := Then(s.trace, PongAccepted(a.params[0]));
      assert NickAcceptedIn(answered, nick) <==> NickAcceptedIn(s.trace, nick);
      assert NickAcceptedIn(Then(answered, PingSent(a.probe)), nick) <==> NickAcceptedIn(answered, nick);
    }
  }

  lemma HandleAcceptsNick(s: State, h: Host, a: Arrival, nick: string)
    requires NickAcceptedIn(Handle(s, h, a).trace, nick) && !NickAcceptedIn(s.trace, nick)
    ensures a.command == NICK && a.params != [] && a.params[0] == nick
    ensures NickValidity(nick, h.maxNickLength) == NoError && !a.nickInUse
  {
    FramesFor(s, h, a);
    match a.command
    case NICK =>
      if a.params != [] {
        var named := Then(s.trace, NickAccepted(a.params[0]));
        assert NickAcceptedIn(named, nick) <==> nick == a.params[0];
      }
    case PONG => PongAcceptsNoNick(s, a, nick);
    case _ =>
  }

  /** A nickname is accepted only by a NICK message that is valid and not in use. */
  lemma NickAcceptedOnlyByNick(s: State, h: Host, a: Arrival, nick: string)
    requires NickAcceptedIn(Step(s, h, a).trace, nick) && !NickAcceptedIn(s.trace, nick)
    ensures a.command == NICK && a.params != [] && a.params[0] == nick
    ensures NickValidity(nick, h.maxNickLength) == NoError && !a.nickInUse
  {
    if !s.gone {
      var handled := Handle(s, h, a);
      assert NickAcceptedIn(Finish(handled, h, a).trace, nick) <==> NickAcceptedIn(handled.trace, nick);
      HandleAcceptsNick(s, h, a, nick);
    }
  }

  // ----- the password

  /** The non-empty passwords accepted, in order. */
  function PasswordsIn(trace: Trace): seq<string> {
    match trace
    case Nothing => []
    case Then(before, last) =>
      if last.PasswordAccepted? && last.password != "" then PasswordsIn(before) + [last.password]
      else PasswordsIn(before)
  }

  predicate PasswordInvariant(s: State) {
    PasswordsIn(s.trace) == if s.data.password == "" then [] else [s.data.password]
  }

  lemma NickPassAndPongKeepPassword(s: State, h: Host, a: Arrival)
    requires PasswordInvariant(s)
    ensures PasswordInvariant(NickStep(s, h, a)) && PasswordInvariant(PassStep(s, a))
    ensures PasswordInvariant(PongStep(s, a))
  {
  }

  lemma HandleKeepsPassword(s: State, h: Host, a: Arrival)
    requires PasswordInvariant(s)
    ensures PasswordInvariant(Handle(s, h, a))
  {
    FramesFor(s, h, a);
    NickPassAndPongKeepPassword(s, h, a);
  }

  /** At most one non-empty password is ever taken, and it stays. */
  lemma {:induction false} RunKeepsPassword(s: State, h: Host, arrivals: seq<Arrival>)
    requires PasswordInvariant(s)
    ensures PasswordInvariant(Run(s, h, arrivals))
    decreases |arrivals|
  {
    if arrivals != [] {
      if !s.gone {
        HandleKeepsPassword(s, h, arrivals[0]);
      }
      RunKeepsPassword(Step(s, h, arrivals[0]), h, arrivals[1..]);
    }
  }

  // ----- hand-over

  /** The hand-over of a run: it can only be the last event. */
  predicate HandOverInvariant(s: State) {
    s.gone <==> s.trace.Then? && s.trace.last.HandedOver?
  }

  lemma HandleKeepsHandOver(s: State, h: Host, a: Arrival)
    requires HandOverInvariant(s) && !s.gone
    ensures HandOverInvariant(Handle(s, h, a)) && !Handle(s, h, a).gone
  {
    FramesFor(s, h, a);
  }

  ghost predicate HandedOverProperly(s: State, h: Host) {
    s.gone ==> s.trace.Then? && s.trace.last == HandedOver(s.kind, s.data, s.connected) && Complete(s) && Served(s, h)
  }

  lemma {:induction false} RunHandsOverComplete(s: State, h: Host, arrivals: seq<Arrival>)
    requires HandOverInvariant(s) && HandedOverProperly(s, h)
    ensures HandOverInvariant(Run(s, h, arrivals)) && HandedOverProperly(Run(s, h, arrivals), h)
    decreases |arrivals|
  {
    if arrivals != [] {
      if !s.gone {
        HandleKeepsHandOver(s, h, arrivals[0]);
      }
      RunHandsOverComplete(Step(s, h, arrivals[0]), h, arrivals[1..]);
    }
  }
}
