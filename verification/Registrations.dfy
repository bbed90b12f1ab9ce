/** Registrars and the directory together: several connections register at once, NICK asks the
    directory whether a name is in use, and a hand-over enters the user. Exactly one of those who
    passed NICK with equivalent names gets in. */
module Registrations {
  import opened Text
  import opened Names
  import opened Registrar
  import opened RegistrarHandOver
  import opened Directory
  import DirectoryRuns

  type Users = Dir<nat, nat>

  /** A user object made at hand-over: its connection and the name it came with. */
  datatype Admission = Admission(conn: nat, name: string)

  /** The directory, the registrar of every connection, and the hand-overs so far. */
  datatype World = World(dir: Users, registrars: map<nat, State>, log: seq<Admission>)

  /** One message on one connection, with what the outside contributes. */
  datatype Message = Message(conn: nat, command: Command, params: seq<string>, probe: string,
                             created: bool, overrun: string)

  /** NICK finds a name in use exactly when the directory finds a user under it. */
  function Arrived(d: Users, m: Message): Arrival {
    Arrival(m.command, m.params, m.params != [] && Find(d, m.params[0]).Some?, m.probe, m.created, m.overrun)
  }

  /** The user protocol's constructor: a user object on the local server, then the attempt to add it. */
  function Admit(d: Users, local: nat, u: nat, name: string, maxLength: nat): Users
    requires Agrees(d) && local in d.counts && u !in d.nick
  {
    var arrived := DirectoryRuns.Apply(d, DirectoryRuns.Arrive(u, name, local), maxLength);
    DirectoryRuns.ApplyKeepsAgreement(d, DirectoryRuns.Arrive(u, name, local), maxLength);
    DirectoryRuns.Apply(arrived, DirectoryRuns.Register(local, u), maxLength)
  }

  lemma AdmitEntry(d: Users, local: nat, u: nat, name: string, maxLength: nat)
    requires Agrees(d) && local in d.counts && u !in d.nick
    ensures var r := Admit(d, local, u, name, maxLength);
            && r.counts.Keys == d.counts.Keys && r.nick == d.nick[u := name]
            && r.users == if NickValidity(name, maxLength) == NoError && Fold(name) !in d.users
                          then d.users[Fold(name) := u] else d.users
  {
  }

  lemma AdmitEffect(d: Users, local: nat, u: nat, name: string, maxLength: nat)
    requires Agrees(d) && Counted(d) && local in d.counts && u !in d.nick
    ensures var r := Admit(d, local, u, name, maxLength);
            && Agrees(r) && Counted(r) && local in r.counts && r.nick == d.nick[u := name]
            && r.users == if NickValidity(name, maxLength) == NoError && Fold(name) !in d.users
                          then d.users[Fold(name) := u] else d.users
  {
    AdmitEntry(d, local, u, name, maxLength);
    var arrive, register := DirectoryRuns.Arrive(u, name, local), DirectoryRuns.Register(local, u);
    var arrived := DirectoryRuns.Apply(d, arrive, maxLength);
    DirectoryRuns.ApplyKeepsAgreement(d, arrive, maxLength);
    DirectoryRuns.ApplyKeepsCountsExactly(d, arrive, maxLength);
    DirectoryRuns.ApplyKeepsAgreement(arrived, register, maxLength);
    DirectoryRuns.ApplyKeepsCountsExactly(arrived, register, maxLength);
  }

  lemma EntryRegisters(before: map<string, nat>, after: map<string, nat>, key: string, u: nat, v: nat)
    requires key !in before && after == before[key := u]
    ensures v in after.Values <==> v == u || v in before.Values
  {
    assert after[key] == u;
    assert forall k | k in before :: k in after && after[k] == before[k];
  }

  lemma AdmitRegisters(d: Users, local: nat, u: nat, name: string, maxLength: nat, v: nat)
    requires Agrees(d) && local in d.counts && u !in d.nick
    ensures var r := Admit(d, local, u, name, maxLength);
            Registered(r, v) <==> if v == u then NickValidity(name, maxLength) == NoError && Fold(name) !in d.users
                                  else Registered(d, v)
  {
    AdmitEntry(d, local, u, name, maxLength);
    assert u !in d.users.Values;
    if NickValidity(name, maxLength) == NoError && Fold(name) !in d.users {
      EntryRegisters(d.users, Admit(d, local, u, name, maxLength).users, Fold(name), u, v);
    }
  }

  // ----- first come, first served

  predicate ValidAt(log: seq<Admission>, maxLength: nat, i: nat)
    requires i < |log|
  {
    NickValidity(log[i].name, maxLength) == NoError
  }

  /** The key was taken from the start, or by a valid hand-over. */
  predicate Claimed(taken: set<string>, log: seq<Admission>, maxLength: nat, key: string) {
    key in taken || exists i | 0 <= i < |log| :: ValidAt(log, maxLength, i) && Fold(log[i].name) == key
  }

  /** This hand-over came with a valid name that nobody had claimed. */
  predicate First(taken: set<string>, log: seq<Admission>, maxLength: nat, i: nat)
    requires i < |log|
  {
    ValidAt(log, maxLength, i) && !Claimed(taken, log[..i], maxLength, Fold(log[i].name))
  }

  ghost predicate LogShows(taken: set<string>, d: Users, log: seq<Admission>, maxLength: nat) {
    && (forall key :: key in d.users <==> Claimed(taken, log, maxLength, key))
    && (forall i | 0 <= i < |log| :: log[i].conn in d.nick)
    && (forall i | 0 <= i < |log| :: Registered(d, log[i].conn) <==> First(taken, log, maxLength, i))
  }

  lemma ClaimedSnoc(taken: set<string>, log: seq<Admission>, last: Admission, maxLength: nat, key: string)
    ensures Claimed(taken, log + [last], maxLength, key)
        <==> Claimed(taken, log, maxLength, key)
             || (NickValidity(last.name, maxLength) == NoError && Fold(last.name) == key)
  {
    var longer := log + [last];
    assert forall i | 0 <= i < |log| ::
             longer[i] == log[i] && ValidAt(longer, maxLength, i) == ValidAt(log, maxLength, i);
    assert longer[|log|] == last;
    assert ValidAt(longer, maxLength, |log|) == (NickValidity(last.name, maxLength) == NoError);
  }

  lemma FirstSnoc(taken: set<string>, log: seq<Admission>, last: Admission, maxLength: nat, i: nat)
    requires i <= |log|
    ensures First(taken, log + [last], maxLength, i)
        <==> if i < |log| then First(taken, log, maxLength, i)
             else NickValidity(last.name, maxLength) == NoError && !Claimed(taken, log, maxLength, Fold(last.name))
  {
    var longer := log + [last];
    assert longer[..|log|] == log;
    assert longer[..i] == log[..i];
  }

  lemma AdmitKeepsLog(taken: set<string>, d: Users, log: seq<Admission>, local: nat, u: nat, name: string,
                      maxLength: nat)
    requires Agrees(d) && Counted(d) && local in d.counts && u !in d.nick && LogShows(taken, d, log, maxLength)
    ensures LogShows(taken, Admit(d, local, u, name, maxLength), log + [Admission(u, name)], maxLength)
  {
    var r, last := Admit(d, local, u, name, maxLength), Admission(u, name);
    var longer := log + [last];
    AdmitEffect(d, local, u, name, maxLength);
    forall key ensures key in r.users <==> Claimed(taken, longer, maxLength, key) {
      ClaimedSnoc(taken, log, last, maxLength, key);
    }
    forall i | 0 <= i < |longer| ensures Registered(r, longer[i].conn) <==> First(taken, longer, maxLength, i) {
      AdmitRegisters(d, local, u, name, maxLength, longer[i].conn);
      FirstSnoc(taken, log, last, maxLength, i);
    }
  }

  // ----- runs of messages

  predicate HandsOver(s: State, r: State) {
    !s.gone && r.gone && r.kind == User
  }

  ghost predicate Sound(w: World, local: nat) {
    && Agrees(w.dir) && Counted(w.dir) && local in w.dir.counts
    && forall c | c in w.registrars :: c in w.dir.nick ==> w.registrars[c].gone
  }

  function Deliver(w: World, h: Host, local: nat, m: Message): World
    requires Agrees(w.dir) && local in w.dir.counts
    requires forall c | c in w.registrars :: c in w.dir.nick ==> w.registrars[c].gone
  {
    if m.conn !in w.registrars then w
    else
      var s := w.registrars[m.conn];
      var r := Step(s, h, Arrived(w.dir, m));
      var registrars := w.registrars[m.conn := r];
      if HandsOver(s, r) then
        World(Admit(w.dir, local, m.conn, r.data.name, h.maxNickLength), registrars,
              w.log + [Admission(m.conn, r.data.name)])
      else w.(registrars := registrars)
  }

  lemma DeliverKeepsSound(w: World, h: Host, local: nat, m: Message)
    requires Sound(w, local)
    ensures Sound(Deliver(w, h, local, m), local)
  {
    if m.conn in w.registrars {
      var s := w.registrars[m.conn];
      var r := Step(s, h, Arrived(w.dir, m));
      assert s.gone ==> r == s;
      if HandsOver(s, r) {
        AdmitEffect(w.dir, local, m.conn, r.data.name, h.maxNickLength);
      }
    }
  }

  lemma DeliverKeepsLog(taken: set<string>, w: World, h: Host, local: nat, m: Message)
    requires Sound(w, local) && LogShows(taken, w.dir, w.log, h.maxNickLength)
    ensures LogShows(taken, Deliver(w, h, local, m).dir, Deliver(w, h, local, m).log, h.maxNickLength)
  {
    if m.conn in w.registrars {
      var s := w.registrars[m.conn];
      var r := Step(s, h, Arrived(w.dir, m));
      if HandsOver(s, r) {
        AdmitKeepsLog(taken, w.dir, w.log, local, m.conn, r.data.name, h.maxNickLength);
      }
    }
  }

  ghost function DeliverAll(w: World, h: Host, local: nat, ms: seq<Message>): (r: World)
    requires Sound(w, local)
    ensures Sound(r, local)
    decreases |ms|
  {
    if ms == [] then w
    else
      DeliverKeepsSound(w, h, local, ms[0]);
      DeliverAll(Deliver(w, h, local, ms[0]), h, local, ms[1..])
  }

  lemma {:induction false} RunKeepsLog(taken: set<string>, w: World, h: Host, local: nat, ms: seq<Message>)
    requires Sound(w, local) && LogShows(taken, w.dir, w.log, h.maxNickLength)
    ensures var r := DeliverAll(w, h, local, ms); LogShows(taken, r.dir, r.log, h.maxNickLength)
    decreases |ms|
  {
    if ms != [] {
      DeliverKeepsSound(w, h, local, ms[0]);
      DeliverKeepsLog(taken, w, h, local, ms[0]);
      RunKeepsLog(taken, Deliver(w, h, local, ms[0]), h, local, ms[1..]);
    }
  }

  // ----- one connection's part of a run

  /** What one registrar sees of the messages. */
  ghost function Seen(w: World, h: Host, local: nat, ms: seq<Message>, c: nat): seq<Arrival>
    requires Sound(w, local)
    decreases |ms|
  {
    if ms == [] then []
    else
      DeliverKeepsSound(w, h, local, ms[0]);
      (if ms[0].conn == c then [Arrived(w.dir, ms[0])] else [])
      + Seen(Deliver(w, h, local, ms[0]), h, local, ms[1..], c)
  }

  lemma DeliverToOne(w: World, h: Host, local: nat, m: Message, c: nat)
    requires Sound(w, local) && c in w.registrars
    ensures var next := Deliver(w, h, local, m);
            c in next.registrars
            && next.registrars[c]
               == if m.conn == c then Step(w.registrars[c], h, Arrived(w.dir, m)) else w.registrars[c]
  {
  }

  lemma RunCons(s: State, h: Host, a: Arrival, rest: seq<Arrival>)
    ensures Run(s, h, [a] + rest) == Run(Step(s, h, a), h, rest)
  {
    assert ([a] + rest)[1..] == rest;
  }

  /** Each connection's registrar has run on exactly what it saw. */
  lemma {:induction false} RegistrarsRun(w: World, h: Host, local: nat, ms: seq<Message>, c: nat)
    requires Sound(w, local) && c in w.registrars
    ensures var r := DeliverAll(w, h, local, ms);
            c in r.registrars && r.registrars[c] == Run(w.registrars[c], h, Seen(w, h, local, ms, c))
    decreases |ms|
  {
    if ms != [] {
      DeliverKeepsSound(w, h, local, ms[0]);
      var next := Deliver(w, h, local, ms[0]);
      DeliverToOne(w, h, local, ms[0], c);
      RegistrarsRun(next, h, local, ms[1..], c);
      var rest := Seen(next, h, local, ms[1..], c);
      if ms[0].conn == c {
        RunCons(w.registrars[c], h, Arrived(w.dir, ms[0]), rest);
      } else {
        assert [] + rest == rest;
      }
    }
  }

  /** The log holds exactly the user hand-overs, each under the name its registrar ended with. */
  ghost predicate LogIsHandOvers(w: World) {
    && (forall i | 0 <= i < |w.log| ::
          && w.log[i].conn in w.registrars
          && var s := w.registrars[w.log[i].conn]; s.gone && s.kind == User && s.data.name == w.log[i].name)
    && forall c | c in w.registrars && w.registrars[c].gone && w.registrars[c].kind == User ::
         exists i | 0 <= i < |w.log| :: w.log[i].conn == c
  }

  lemma DeliverKeepsHandOvers(w: World, h: Host, local: nat, m: Message)
    requires Sound(w, local) && LogIsHandOvers(w)
    ensures LogIsHandOvers(Deliver(w, h, local, m))
  {
    var next := Deliver(w, h, local, m);
    if m.conn in w.registrars {
      var s := w.registrars[m.conn];
      var r := Step(s, h, Arrived(w.dir, m));
      assert s.gone ==> r == s;
      forall c | c in next.registrars && next.registrars[c].gone && next.registrars[c].kind == User
        ensures exists i | 0 <= i < |next.log| :: next.log[i].conn == c
      {
        if c == m.conn && HandsOver(s, r) {
          assert next.log[|w.log|].conn == c;
        } else {
          assert w.registrars[c].gone && w.registrars[c].kind == User;
          var i :| 0 <= i < |w.log| && w.log[i].conn == c;
          assert next.log[i].conn == c;
        }
      }
    }
  }

  lemma {:induction false} RunKeepsHandOvers(w: World, h: Host, local: nat, ms: seq<Message>)
    requires Sound(w, local) && LogIsHandOvers(w)
    ensures LogIsHandOvers(DeliverAll(w, h, local, ms))
    decreases |ms|
  {
    if ms != [] {
      DeliverKeepsSound(w, h, local, ms[0]);
      DeliverKeepsHandOvers(w, h, local, ms[0]);
      RunKeepsHandOvers(Deliver(w, h, local, ms[0]), h, local, ms[1..]);
    }
  }

  // ----- who gets in

  /** Fresh connections beside the users there are. */
  function Opening(d: Users, conns: set<nat>, probes: nat): World {
    World(d, map c | c in conns :: Start(probes), [])
  }

  /** Over any run of messages on fresh connections, the directory and its counters stay right, and a
      handed-over user is registered exactly when the name is valid and was claimed by no user there
      before and by no earlier hand-over with a valid name: what counts is the order of hand-over,
      not who passed NICK first. */
  lemma FirstHandedOverIsRegistered(d: Users, conns: set<nat>, probes: nat, h: Host, local: nat, ms: seq<Message>)
    requires Agrees(d) && Counted(d) && local in d.counts && conns !! d.nick.Keys
    ensures var w := DeliverAll(Opening(d, conns, probes), h, local, ms);
            && Agrees(w.dir) && Counted(w.dir)
            && forall i | 0 <= i < |w.log| ::
                 Registered(w.dir, w.log[i].conn) <==> First(d.users.Keys, w.log, h.maxNickLength, i)
  {
    var w := Opening(d, conns, probes);
    forall key ensures key in d.users <==> Claimed(d.users.Keys, [], h.maxNickLength, key) {
    }
    RunKeepsLog(d.users.Keys, w, h, local, ms);
  }

  /** Seen from one connection that was handed over as a user: with no name left by a rejected link
      the name is valid, so being registered is being first with it. */
  lemma HandedOverUserIsRegisteredExactly(d: Users, conns: set<nat>, probes: nat, h: Host, local: nat,
                                          ms: seq<Message>, c: nat) returns (i: nat)
    requires Agrees(d) && Counted(d) && local in d.counts && conns !! d.nick.Keys && c in conns
    requires var w := Opening(d, conns, probes);
             var s := Run(Start(probes), h, Seen(w, h, local, ms, c)); s.gone && s.kind == User
    ensures var w := Opening(d, conns, probes);
            var r, seen := DeliverAll(w, h, local, ms), Seen(w, h, local, ms, c);
            var name := Run(Start(probes), h, seen).data.name;
            && i < |r.log| && r.log[i] == Admission(c, name)
            && (Registered(r.dir, c) <==> First(d.users.Keys, r.log, h.maxNickLength, i))
            && (LeftByLink(Start(probes), h, seen, None).None? ==>
                  (Registered(r.dir, c) <==> !Claimed(d.users.Keys, r.log[..i], h.maxNickLength, Fold(name))))
  {
    var w := Opening(d, conns, probes);
    var r, seen := DeliverAll(w, h, local, ms), Seen(w, h, local, ms, c);
    RegistrarsRun(w, h, local, ms, c);
    RunKeepsHandOvers(w, h, local, ms);
    i :| 0 <= i < |r.log| && r.log[i].conn == c;
    FirstHandedOverIsRegistered(d, conns, probes, h, local, ms);
    if LeftByLink(Start(probes), h, seen, None).None? {
      UserNameIsNickExactly(h, probes, seen);
      TakenNickIsValid(Start(probes), h, seen, Run(Start(probes), h, seen).data.name);
    }
  }

  /** So of two valid hand-overs under equivalent names the later one is turned away, although both
      names were free when NICK asked. */
  lemma LaterEquivalentIsTurnedAway(d: Users, conns: set<nat>, probes: nat, h: Host, local: nat, ms: seq<Message>)
    requires Agrees(d) && Counted(d) && local in d.counts && conns !! d.nick.Keys
    ensures var w := DeliverAll(Opening(d, conns, probes), h, local, ms);
            forall i, j | 0 <= i < j < |w.log| ::
              ValidAt(w.log, h.maxNickLength, i) && Fold(w.log[i].name) == Fold(w.log[j].name) ==>
                !Registered(w.dir, w.log[j].conn)
  {
    var w := DeliverAll(Opening(d, conns, probes), h, local, ms);
    FirstHandedOverIsRegistered(d, conns, probes, h, local, ms);
    forall i, j | 0 <= i < j < |w.log| && ValidAt(w.log, h.maxNickLength, i)
                  && Fold(w.log[i].name) == Fold(w.log[j].name)
      ensures !Registered(w.dir, w.log[j].conn)
    {
      assert w.log[..j][i] == w.log[i];
      assert ValidAt(w.log[..j], h.maxNickLength, i);
      assert !First(d.users.Keys, w.log, h.maxNickLength, j);
    }
  }

  /** An accepted NICK reserves nothing: another connection's NICK with an equivalent valid name is
      accepted just as well. */
  lemma NickReservesNothing(w: World, h: Host, local: nat, m: Message, other: Message)
    requires Sound(w, local) && m.conn in w.registrars && other.conn in w.registrars && m.conn != other.conn
    ensures var next := Deliver(w, h, local, m);
            && AcceptsNick(w.registrars[m.conn], h, Arrived(w.dir, m)) && w.registrars[m.conn].kind == Unknown
            && other.command == NICK && other.params != [] && Fold(other.params[0]) == Fold(m.params[0])
            && NickValidity(other.params[0], h.maxNickLength) == NoError && !w.registrars[other.conn].gone
            ==> AcceptsNick(next.registrars[other.conn], h, Arrived(next.dir, other))
  {
    if AcceptsNick(w.registrars[m.conn], h, Arrived(w.dir, m)) && w.registrars[m.conn].kind == Unknown {
      assert Deliver(w, h, local, m).dir == w.dir;
    }
  }
}
