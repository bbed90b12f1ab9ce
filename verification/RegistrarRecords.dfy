/** What the record of a hand-over holds, read off the messages of the run: which message each field
    comes from, and which messages choose the registration type. */
module RegistrarRecords {
  import opened Text
  import opened Registrar
  import opened RegistrarSafety
  import opened RegistrarHandOver

  /** The registrar before message `n` of a run. */
  function Before(h: Host, probes: nat, arrivals: seq<Arrival>, n: nat): State
    requires n <= |arrivals|
  {
    Run(Start(probes), h, arrivals[..n])
  }

  lemma {:induction false} RunSnoc(s: State, h: Host, arrivals: seq<Arrival>, a: Arrival)
    ensures Run(s, h, arrivals + [a]) == Step(Run(s, h, arrivals), h, a)
    decreases |arrivals|
  {
    if arrivals == [] {
      assert arrivals + [a] == [a] && [a][1..] == [];
    } else {
      assert (arrivals + [a])[0] == arrivals[0] && (arrivals + [a])[1..] == arrivals[1..] + [a];
      RunSnoc(Step(s, h, arrivals[0]), h, arrivals[1..], a);
    }
  }

  lemma BeforeNext(h: Host, probes: nat, arrivals: seq<Arrival>, n: nat)
    requires n < |arrivals|
    ensures Before(h, probes, arrivals, n + 1) == Step(Before(h, probes, arrivals, n), h, arrivals[n])
  {
    assert arrivals[..n + 1] == arrivals[..n] + [arrivals[n]];
    RunSnoc(Start(probes), h, arrivals[..n], arrivals[n]);
  }

  lemma BeforeEnds(h: Host, probes: nat, arrivals: seq<Arrival>)
    ensures Before(h, probes, arrivals, 0) == Start(probes)
    ensures Before(h, probes, arrivals, |arrivals|) == Run(Start(probes), h, arrivals)
  {
    assert arrivals[..0] == [] && arrivals[..|arrivals|] == arrivals;
  }

  // ----- the messages that choose the type

  predicate Open(s: State) {
    !s.gone && s.kind == Unknown
  }

  predicate AcceptsUser(s: State, h: Host, a: Arrival) {
    Open(s) && a.command == USER && h.allowUsers && |a.params| >= 4
  }

  predicate AcceptsService(s: State, h: Host, a: Arrival) {
    Open(s) && a.command == SERVICE && h.allowServices && |a.params| >= 6
  }

  predicate AcceptsServer(s: State, h: Host, a: Arrival) {
    Open(s) && a.command == SERVER && h.allowServers && |a.params| >= 3 && h.toNumber(a.params[1]) == 1
  }

  predicate AcceptsLink(s: State, h: Host, a: Arrival) {
    && Open(s) && a.command == IIRCN && h.allowNetworks && |a.params| >= 6
    && a.params[1] == "*" && h.toNumber(a.params[4]) > 0
  }

  predicate Accepts(s: State, h: Host, a: Arrival, kind: Kind) {
    match kind
    case User => AcceptsUser(s, h, a)
    case Service => AcceptsService(s, h, a)
    case Server => AcceptsServer(s, h, a)
    case Iircn => AcceptsLink(s, h, a)
    case Unknown => false
  }

  /** Only these choose a type; a chosen one stays. */
  lemma StepChooses(s: State, h: Host, a: Arrival, kind: Kind)
    requires kind != Unknown
    ensures Step(s, h, a).kind == kind <==> s.kind == kind || Accepts(s, h, a, kind)
  {
    FramesFor(s, h, a);
  }

  /** The first `n` characters, or all of them. */
  function Cut(s: string, n: nat): string {
    if |s| < n then s else s[..n]
  }

  /** What the accepted message says about the record, name aside. */
  predicate Filled(r: Registrant, h: Host, a: Arrival, kind: Kind) {
    match kind
    case User =>
      && |a.params| >= 4 && r.username == a.params[0] && r.modes == a.params[1] && r.hostname == a.params[2]
      && r.description == Cut(a.params[3], h.maxRealNameLength)
    case Service =>
      && |a.params| >= 6 && r.username == a.params[0] && r.distribution == a.params[2]
      && r.description == Cut(a.params[5], h.maxRealNameLength)
    case Server =>
      && |a.params| >= 3 && r.hostname == a.params[0]
      && (|a.params| < 5 ==> r.description == Cut(a.params[2], h.maxDescriptionLength))
      && (|a.params| >= 5 ==>
            && r.startStamp == h.toNumber(a.params[2]) && r.linkStamp == h.toNumber(a.params[3])
            && r.protocol == a.params[4]
            && r.description == Cut(if |a.params| == 5 then a.overrun else a.params[5], h.maxDescriptionLength))
    case Iircn =>
      && |a.params| >= 6 && r.hostname == a.params[2] && r.protocol == ToUpper(a.params[3])
      && r.linkStamp == h.toNumber(a.params[4]) && r.description == a.params[5]
    case Unknown => false
  }

  /** Name, password and what the accepted message fills in, and nothing else. */
  predicate FilledAlone(r: Registrant, h: Host, a: Arrival, kind: Kind) {
    && Filled(r, h, a, kind)
    && (kind != User && kind != Service ==> r.username == "")
    && (kind != User ==> r.modes == "")
    && (kind != Service ==> r.distribution == "")
    && (kind == Service ==> r.hostname == "")
    && (kind == User || kind == Service || (kind == Server && |a.params| < 5) ==>
          r.protocol == "" && r.linkStamp == -1)
    && (kind != Server || |a.params| < 5 ==> r.startStamp == -1)
  }

  /** Equal but for the name and the password. */
  predicate SameRecord(r: Registrant, q: Registrant) {
    r == q.(name := r.name, password := r.password)
  }

  lemma AcceptedFills(s: State, h: Host, a: Arrival, kind: Kind)
    requires Accepts(s, h, a, kind)
    ensures Filled(Step(s, h, a).data, h, a, kind)
    ensures kind == Iircn ==> Step(s, h, a).data.name == a.params[0]
    ensures SameRecord(s.data, BLANK) ==> FilledAlone(Step(s, h, a).data, h, a, kind)
  {
  }

  lemma NickPassAndPongKeepRecord(s: State, h: Host, a: Arrival)
    ensures SameRecord(NickStep(s, h, a).data, s.data) && SameRecord(PassStep(s, a).data, s.data)
    ensures SameRecord(PongStep(s, a).data, s.data)
    ensures a.command in {NICK, PASS, PONG} ==> Handle(s, h, a).kind == s.kind
                                                && (Handle(s, h, a).connected ==> s.connected)
  {
  }

  lemma HandleKeepsChosen(s: State, h: Host, a: Arrival)
    requires s.kind != Unknown
    ensures SameRecord(Handle(s, h, a).data, s.data)
  {
    match a.command
    case NICK => NickPassAndPongKeepRecord(s, h, a);
    case PASS => NickPassAndPongKeepRecord(s, h, a);
    case PONG => NickPassAndPongKeepRecord(s, h, a);
    case _ =>
  }

  /** After the type is chosen only the name and the password can change. */
  lemma ChosenRecordStays(s: State, h: Host, a: Arrival)
    requires s.kind != Unknown
    ensures SameRecord(Step(s, h, a).data, s.data)
  {
    HandleKeepsChosen(s, h, a);
  }

  // ----- whole runs

  lemma {:induction false} KindStays(h: Host, probes: nat, arrivals: seq<Arrival>, n: nat, m: nat)
    requires n <= m <= |arrivals| && Before(h, probes, arrivals, n).kind != Unknown
    ensures Before(h, probes, arrivals, m).kind == Before(h, probes, arrivals, n).kind
    ensures SameRecord(Before(h, probes, arrivals, m).data, Before(h, probes, arrivals, n).data)
    decreases m - n
  {
    if n < m {
      KindStays(h, probes, arrivals, n, m - 1);
      BeforeNext(h, probes, arrivals, m - 1);
      var s := Before(h, probes, arrivals, m - 1);
      StepChooses(s, h, arrivals[m - 1], s.kind);
      ChosenRecordStays(s, h, arrivals[m - 1]);
    }
  }

  /** A run that has chosen a type did so at exactly one message. */
  lemma {:induction false} ChosenAt(h: Host, probes: nat, arrivals: seq<Arrival>, n: nat) returns (k: nat)
    requires n <= |arrivals| && Before(h, probes, arrivals, n).kind != Unknown
    ensures k < n && Before(h, probes, arrivals, k).kind == Unknown
    ensures Before(h, probes, arrivals, k + 1).kind == Before(h, probes, arrivals, n).kind
    decreases n
  {
    BeforeEnds(h, probes, arrivals);
    if Before(h, probes, arrivals, n - 1).kind != Unknown {
      k := ChosenAt(h, probes, arrivals, n - 1);
      KindStays(h, probes, arrivals, n - 1, n);
    } else {
      k := n - 1;
    }
  }

  lemma AcceptedOnce(h: Host, probes: nat, arrivals: seq<Arrival>, kind: Kind, k: nat, j: nat)
    requires k < |arrivals| && j < |arrivals| && kind != Unknown
    requires Before(h, probes, arrivals, k).kind == Unknown && Before(h, probes, arrivals, k + 1).kind == kind
    ensures Accepts(Before(h, probes, arrivals, j), h, arrivals[j], kind) <==> j == k
  {
    BeforeNext(h, probes, arrivals, k);
    BeforeNext(h, probes, arrivals, j);
    StepChooses(Before(h, probes, arrivals, k), h, arrivals[k], kind);
    StepChooses(Before(h, probes, arrivals, j), h, arrivals[j], kind);
    if k < j {
      KindStays(h, probes, arrivals, k + 1, j);
    } else if j < k && Accepts(Before(h, probes, arrivals, j), h, arrivals[j], kind) {
      KindStays(h, probes, arrivals, j + 1, k);
    }
  }

  /** While the connection is open and unregistered only the name and the password have been set. */
  predicate Unfilled(s: State) {
    s.connected && s.kind == Unknown ==> SameRecord(s.data, BLANK)
  }

  lemma HandleKeepsUnfilled(s: State, h: Host, a: Arrival)
    requires Unfilled(s)
    ensures Unfilled(Handle(s, h, a)) && (Handle(s, h, a).connected ==> s.connected)
  {
    FramesFor(s, h, a);
    NickPassAndPongKeepRecord(s, h, a);
  }

  lemma StepKeepsUnfilled(s: State, h: Host, a: Arrival)
    requires Unfilled(s)
    ensures Unfilled(Step(s, h, a)) && (Step(s, h, a).connected ==> s.connected)
  {
    HandleKeepsUnfilled(s, h, a);
  }

  lemma {:induction false} RunKeepsUnfilled(h: Host, probes: nat, arrivals: seq<Arrival>, n: nat)
    requires n <= |arrivals|
    ensures Unfilled(Before(h, probes, arrivals, n))
    decreases n
  {
    BeforeEnds(h, probes, arrivals);
    if n > 0 {
      RunKeepsUnfilled(h, probes, arrivals, n - 1);
      BeforeNext(h, probes, arrivals, n - 1);
      StepKeepsUnfilled(Before(h, probes, arrivals, n - 1), h, arrivals[n - 1]);
    }
  }

  lemma {:induction false} ClosedStays(h: Host, probes: nat, arrivals: seq<Arrival>, n: nat, m: nat)
    requires n <= m <= |arrivals| && Before(h, probes, arrivals, m).connected
    ensures Before(h, probes, arrivals, n).connected
    decreases m - n
  {
    if n < m {
      BeforeNext(h, probes, arrivals, m - 1);
      RunKeepsUnfilled(h, probes, arrivals, m - 1);
      StepKeepsUnfilled(Before(h, probes, arrivals, m - 1), h, arrivals[m - 1]);
      ClosedStays(h, probes, arrivals, n, m - 1);
    }
  }

  /** Message `k`, and no other, was accepted as this registration, and its parameters are the record. */
  predicate ChosenBy(h: Host, probes: nat, arrivals: seq<Arrival>, kind: Kind, k: nat)
    requires k < |arrivals|
  {
    var s := Run(Start(probes), h, arrivals);
    && (forall j | 0 <= j < |arrivals| ::
          (Accepts(Before(h, probes, arrivals, j), h, arrivals[j], kind) <==> j == k))
    && Filled(s.data, h, arrivals[k], kind)
    && (s.connected ==> FilledAlone(s.data, h, arrivals[k], kind))
  }

  lemma ChosenRecord(h: Host, probes: nat, arrivals: seq<Arrival>, kind: Kind, k: nat)
    requires k < |arrivals| && Accepts(Before(h, probes, arrivals, k), h, arrivals[k], kind)
    ensures var s := Run(Start(probes), h, arrivals);
            && Filled(s.data, h, arrivals[k], kind)
            && (s.connected ==> FilledAlone(s.data, h, arrivals[k], kind))
  {
    var s, chosen := Before(h, probes, arrivals, k), Before(h, probes, arrivals, k + 1);
    BeforeNext(h, probes, arrivals, k);
    AcceptedFills(s, h, arrivals[k], kind);
    StepChooses(s, h, arrivals[k], kind);
    KindStays(h, probes, arrivals, k + 1, |arrivals|);
    BeforeEnds(h, probes, arrivals);
    RunKeepsUnfilled(h, probes, arrivals, k);
    if Run(Start(probes), h, arrivals).connected {
      ClosedStays(h, probes, arrivals, k, |arrivals|);
    }
  }

  /** Whatever a run registers as, exactly one accepted message did it, and its parameters are the record. */
  lemma RecordComesFromOneMessage(h: Host, probes: nat, arrivals: seq<Arrival>)
    requires Run(Start(probes), h, arrivals).kind != Unknown
    ensures exists k | 0 <= k < |arrivals| ::
              ChosenBy(h, probes, arrivals, Run(Start(probes), h, arrivals).kind, k)
  {
    var kind := Run(Start(probes), h, arrivals).kind;
    BeforeEnds(h, probes, arrivals);
    var k := ChosenAt(h, probes, arrivals, |arrivals|);
    forall j | 0 <= j < |arrivals|
      ensures Accepts(Before(h, probes, arrivals, j), h, arrivals[j], kind) <==> j == k
    {
      AcceptedOnce(h, probes, arrivals, kind, k, j);
    }
    ChosenRecord(h, probes, arrivals, kind, k);
    assert ChosenBy(h, probes, arrivals, kind, k);
  }

  /** A user hand-over: one accepted USER, and the record is that message's. */
  lemma UserRecord(h: Host, probes: nat, arrivals: seq<Arrival>) returns (k: nat)
    requires Run(Start(probes), h, arrivals).gone && Run(Start(probes), h, arrivals).kind == User
    ensures k < |arrivals|
    ensures forall j | 0 <= j < |arrivals| :: AcceptsUser(Before(h, probes, arrivals, j), h, arrivals[j]) <==> j == k
    ensures var s, params := Run(Start(probes), h, arrivals), arrivals[k].params;
            && s.trace.Then? && s.trace.last == HandedOver(User, s.data, s.connected)
            && |params| >= 4
            && s.data.username == params[0] && s.data.modes == params[1] && s.data.hostname == params[2]
            && s.data.description == Cut(params[3], h.maxRealNameLength)
            && (s.connected ==>
                  s.data == Registrant(s.data.password, s.data.name, params[0], params[2],
                                       Cut(params[3], h.maxRealNameLength), "", params[1], "", -1, -1))
  {
    RunHandsOverComplete(Start(probes), h, arrivals);
    RecordComesFromOneMessage(h, probes, arrivals);
    k :| 0 <= k < |arrivals| && ChosenBy(h, probes, arrivals, User, k);
    assert forall j | 0 <= j < |arrivals| ::
        Accepts(Before(h, probes, arrivals, j), h, arrivals[j], User) <==> j == k;
  }

  /** A network hand-over: one accepted IIRCN; the name is that message's or a later accepted NICK's. */
  lemma LinkRecord(h: Host, probes: nat, arrivals: seq<Arrival>) returns (k: nat, named: nat)
    requires Run(Start(probes), h, arrivals).gone && Run(Start(probes), h, arrivals).kind == Iircn
    ensures k <= named < |arrivals|
    ensures forall j | 0 <= j < |arrivals| :: AcceptsLink(Before(h, probes, arrivals, j), h, arrivals[j]) <==> j == k
    ensures named == k || AcceptsNick(Before(h, probes, arrivals, named), h, arrivals[named])
    ensures forall j | named < j < |arrivals| :: !AcceptsNick(Before(h, probes, arrivals, j), h, arrivals[j])
    ensures var s, params := Run(Start(probes), h, arrivals), arrivals[k].params;
            && s.trace.Then? && s.trace.last == HandedOver(Iircn, s.data, s.connected)
            && |params| >= 6 && |arrivals[named].params| > 0 && s.data.name == arrivals[named].params[0]
            && s.data.hostname == params[2] && s.data.protocol == ToUpper(params[3])
            && s.data.linkStamp == h.toNumber(params[4]) && s.data.description == params[5]
            && (s.connected ==>
                  s.data == Registrant(s.data.password, s.data.name, "", params[2], params[5], "", "",
                                       ToUpper(params[3]), -1, h.toNumber(params[4])))
  {
    RunHandsOverComplete(Start(probes), h, arrivals);
    RecordComesFromOneMessage(h, probes, arrivals);
    k :| 0 <= k < |arrivals| && ChosenBy(h, probes, arrivals, Iircn, k);
    assert forall j | 0 <= j < |arrivals| ::
        Accepts(Before(h, probes, arrivals, j), h, arrivals[j], Iircn) <==> j == k;
    LinkNamesFirst(h, probes, arrivals, k);
    named := NamedAfter(h, probes, arrivals, k, |arrivals|);
    BeforeEnds(h, probes, arrivals);
  }

  lemma StepNames(s: State, h: Host, a: Arrival)
    requires s.kind == Iircn
    ensures Step(s, h, a).data.name == if AcceptsNick(s, h, a) then a.params[0] else s.data.name
  {
    FramesFor(s, h, a);
  }

  predicate NamedBy(h: Host, probes: nat, arrivals: seq<Arrival>, k: nat, named: nat, n: nat)
    requires k < n <= |arrivals|
  {
    && k <= named < n && |arrivals[named].params| > 0
    && Before(h, probes, arrivals, n).data.name == arrivals[named].params[0]
    && (named == k || AcceptsNick(Before(h, probes, arrivals, named), h, arrivals[named]))
    && forall j | named < j < n :: !AcceptsNick(Before(h, probes, arrivals, j), h, arrivals[j])
  }

  lemma NamedNext(h: Host, probes: nat, arrivals: seq<Arrival>, k: nat, named: nat, n: nat)
    requires k < n < |arrivals| && NamedBy(h, probes, arrivals, k, named, n)
    requires Before(h, probes, arrivals, n).kind == Iircn
    ensures var next := if AcceptsNick(Before(h, probes, arrivals, n), h, arrivals[n]) then n else named;
            NamedBy(h, probes, arrivals, k, next, n + 1)
  {
    BeforeNext(h, probes, arrivals, n);
    StepNames(Before(h, probes, arrivals, n), h, arrivals[n]);
  }

  lemma {:induction false} NamedAfter(h: Host, probes: nat, arrivals: seq<Arrival>, k: nat, n: nat) returns (named: nat)
    requires k < n <= |arrivals| && Before(h, probes, arrivals, k + 1).kind == Iircn
    requires NamedBy(h, probes, arrivals, k, k, k + 1)
    ensures NamedBy(h, probes, arrivals, k, named, n)
    decreases n
  {
    if n == k + 1 {
      named := k;
    } else {
      named := NamedAfter(h, probes, arrivals, k, n - 1);
      KindStays(h, probes, arrivals, k + 1, n - 1);
      NamedNext(h, probes, arrivals, k, named, n - 1);
      if AcceptsNick(Before(h, probes, arrivals, n - 1), h, arrivals[n - 1]) {
        named := n - 1;
      }
    }
  }

  lemma LinkNamesFirst(h: Host, probes: nat, arrivals: seq<Arrival>, k: nat)
    requires k < |arrivals| && AcceptsLink(Before(h, probes, arrivals, k), h, arrivals[k])
    ensures Before(h, probes, arrivals, k + 1).kind == Iircn && NamedBy(h, probes, arrivals, k, k, k + 1)
  {
    BeforeNext(h, probes, arrivals, k);
    StepChooses(Before(h, probes, arrivals, k), h, arrivals[k], Iircn);
    AcceptedFills(Before(h, probes, arrivals, k), h, arrivals[k], Iircn);
  }

  /** A server hand-over: one accepted SERVER; only its long shape names a protocol, so on a connection
      still open only that one is handed over. */
  lemma ServerRecord(h: Host, probes: nat, arrivals: seq<Arrival>) returns (k: nat)
    requires Run(Start(probes), h, arrivals).gone && Run(Start(probes), h, arrivals).kind == Server
    ensures k < |arrivals|
    ensures forall j | 0 <= j < |arrivals| :: AcceptsServer(Before(h, probes, arrivals, j), h, arrivals[j]) <==> j == k
    ensures var s, params := Run(Start(probes), h, arrivals), arrivals[k].params;
            && s.trace.Then? && s.trace.last == HandedOver(Server, s.data, s.connected)
            && |params| >= 3 && s.data.hostname == params[0]
            && (|params| < 5 ==> !s.connected && s.data.description == Cut(params[2], h.maxDescriptionLength))
            && (|params| >= 5 ==>
                  var info := if |params| == 5 then arrivals[k].overrun else params[5];
                  && s.data.startStamp == h.toNumber(params[2]) && s.data.linkStamp == h.toNumber(params[3])
                  && s.data.protocol == params[4] && s.data.description == Cut(info, h.maxDescriptionLength)
                  && (s.connected ==>
                        s.data == Registrant(s.data.password, s.data.name, "", params[0],
                                             Cut(info, h.maxDescriptionLength), "", "", params[4],
                                             h.toNumber(params[2]), h.toNumber(params[3]))))
  {
    RunHandsOverComplete(Start(probes), h, arrivals);
    RecordComesFromOneMessage(h, probes, arrivals);
    k :| 0 <= k < |arrivals| && ChosenBy(h, probes, arrivals, Server, k);
    assert forall j | 0 <= j < |arrivals| ::
        Accepts(Before(h, probes, arrivals, j), h, arrivals[j], Server) <==> j == k;
  }

  // ----- the password

  predicate CarriesPassword(a: Arrival) {
    a.command == PASS && a.params != [] && a.params[0] != ""
  }

  lemma StepTakesPassword(s: State, h: Host, a: Arrival)
    ensures Step(s, h, a).data.password
            == if !s.gone && s.data.password == "" && CarriesPassword(a) then a.params[0] else s.data.password
    ensures s.gone ==> Step(s, h, a) == s
  {
    FramesFor(s, h, a);
  }

  /** The password held is the first one any PASS carried before the hand-over; later ones are not taken. */
  lemma {:induction false} PasswordIsFirstPass(h: Host, probes: nat, arrivals: seq<Arrival>, n: nat)
    requires n <= |arrivals|
    ensures var held := Before(h, probes, arrivals, n).data.password;
            && (held == "" ==>
                  forall j | 0 <= j < n :: CarriesPassword(arrivals[j]) ==> Before(h, probes, arrivals, j).gone)
            && (held != "" ==>
                  exists j | 0 <= j < n :: CarriesPassword(arrivals[j]) && arrivals[j].params[0] == held
                                           && forall i | 0 <= i < j :: !CarriesPassword(arrivals[i]))
    decreases n
  {
    BeforeEnds(h, probes, arrivals);
    if n > 0 {
      var s := Before(h, probes, arrivals, n - 1);
      BeforeNext(h, probes, arrivals, n - 1);
      PasswordIsFirstPass(h, probes, arrivals, n - 1);
      StepTakesPassword(s, h, arrivals[n - 1]);
      if !s.gone && s.data.password == "" && CarriesPassword(arrivals[n - 1]) {
        forall i | 0 <= i < n - 1 ensures !CarriesPassword(arrivals[i]) {
          if Before(h, probes, arrivals, i).gone {
            GoneStays(h, probes, arrivals, i, n - 1);
          }
        }
      }
    }
  }

  lemma {:induction false} GoneStays(h: Host, probes: nat, arrivals: seq<Arrival>, n: nat, m: nat)
    requires n <= m <= |arrivals| && Before(h, probes, arrivals, n).gone
    ensures Before(h, probes, arrivals, m) == Before(h, probes, arrivals, n)
    decreases m - n
  {
    if n < m {
      GoneStays(h, probes, arrivals, n, m - 1);
      BeforeNext(h, probes, arrivals, m - 1);
    }
  }
}
