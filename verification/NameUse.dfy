/** Who may use which name, and who is found under it, in terms of names being the same letter by
    letter: in the directory, through its live objects, and through registration. */
module NameUse {
  import opened Text
  import opened Names
  import opened NameEquivalence
  import opened Directory
  import opened Registrar
  import opened RegistrarHandOver
  import opened Registrations
  import opened NetworkObjects

  /** A registered user other than `u` whose name is the same. */
  predicate TakenByOther<U(==), S>(d: Dir<U, S>, name: string, u: U)
    requires Agrees(d)
  {
    exists key | key in d.users :: d.users[key] != u && SameName(d.nick[d.users[key]], name)
  }

  lemma FoundMeansSame<U, S>(d: Dir<U, S>, name: string, u: U)
    requires Agrees(d)
    ensures Find(d, name) == Some(u) <==> u in d.nick && Registered(d, u) && SameName(d.nick[u], name)
    ensures Find(d, name).Some? && Find(d, name).value != u <==> TakenByOther(d, name, u)
  {
    if u in d.nick {
      FindMeansRegistered(d, name, u, u);
      FoldsAgreeExactly(d.nick[u], name);
    }
    if Find(d, name).Some? {
      var v := d.users[Fold(name)];
      FoldsAgreeExactly(d.nick[v], name);
    }
    if key :| key in d.users && d.users[key] != u && SameName(d.nick[d.users[key]], name) {
      FoldsAgreeExactly(d.nick[d.users[key]], name);
      FindMeansRegistered(d, name, d.users[key], d.users[key]);
    }
  }

  /** A user is added exactly on the right server, with a valid name no registered user has; it is then
      found under every spelling of that name and no other, and nobody else's name changes hands. */
  lemma AddedUserIsFound<U, S>(d: Dir<U, S>, s: S, u: U, maxLength: nat, name: string)
    requires Agrees(d) && u in d.nick && s in d.counts && !Registered(d, u)
    ensures var (r, status) := AddUser(d, s, u, maxLength);
            && (status == Done <==> && d.home[u] == s && NickValidity(d.nick[u], maxLength) == NoError
                                    && !TakenByOther(d, d.nick[u], u))
            && (status == ServersDontMatch <==> d.home[u] != s)
            && (status == EntityExists ==> TakenByOther(d, d.nick[u], u))
            && (d.home[u] == s && NickValidity(d.nick[u], maxLength) != NoError ==>
                  status == BadName(NickValidity(d.nick[u], maxLength)))
            && (status != Done ==> r == d)
            && (status == Done ==> Find(r, name) == if SameName(d.nick[u], name) then Some(u) else Find(d, name))
  {
    FoundMeansSame(d, d.nick[u], u);
    FoldsAgreeExactly(d.nick[u], name);
  }

  /** A registered user may take a valid name that no other registered user has; a service's name only
      if it is the user's own already. It is then found under the new name, and only there; refused, nothing
      has changed. */
  lemma RenamedUserIsFound<U, S>(d: Dir<U, S>, u: U, newName: string, usedByService: bool, maxLength: nat,
                                       name: string)
    requires Agrees(d) && u in d.nick && Registered(d, u)
    ensures var (r, status) := Rename(d, u, newName, usedByService, maxLength);
            && (status == Done <==> && NickValidity(newName, maxLength) == NoError && !TakenByOther(d, newName, u)
                                    && (usedByService ==> SameName(d.nick[u], newName)))
            && (status == NameInUse <==> NickValidity(newName, maxLength) == NoError && status != Done)
            && (NickValidity(newName, maxLength) != NoError ==> status == BadName(NickValidity(newName, maxLength)))
            && (status != Done ==> r == d)
            && (status == Done ==>
                  && r.nick == d.nick[u := newName]
                  && Find(r, name) == if SameName(newName, name) then Some(u)
                                      else if SameName(d.nick[u], name) then None else Find(d, name))
  {
    FoundMeansSame(d, newName, u);
    FoundMeansSame(d, d.nick[u], u);
    FoldsAgreeExactly(newName, name);
    FoldsAgreeExactly(d.nick[u], name);
    FoldsAgreeExactly(d.nick[u], newName);
    assert d.users[Key(d, u)] == u;
  }

  /** A registered user who quits is found no more; everybody else is found as before. */
  lemma QuitUserIsGone<U, S>(d: Dir<U, S>, u: U, name: string)
    requires Agrees(d) && u in d.nick && Registered(d, u)
    ensures var (r, status) := Quit(d, u);
            status == Done && Find(r, name) == if SameName(d.nick[u], name) then None else Find(d, name)
  {
    FoldsAgreeExactly(d.nick[u], name);
    assert d.users[Key(d, u)] == u;
  }

  // ----- live objects

  /** A user added is found under any spelling of its name; one not added because of its name is kept
      out by a user with the same name. */
  method AddThenFind(network: Network, server: Server, user: User, maxLength: nat, name: string)
    returns (status: Status, found: User?)
    requires user in network.known && server in network.servers && Agrees(network.Now())
    requires !Registered(network.Now(), user)
    modifies network`users, network`userCount, server
    ensures status == Done && SameName(user.nickname, name) ==> found == user
    ensures status == Done && !SameName(user.nickname, name) ==>
              found == if Find(old(network.Now()), name).Some? then Find(old(network.Now()), name).value else null
    ensures status == EntityExists ==> TakenByOther(old(network.Now()), user.nickname, user)
  {
    AddedUserIsFound(network.Now(), server, user, maxLength, name);
    status := network.AddUserTo(server, user, maxLength);
    found := network.FindUser(name);
  }

  // ----- registration

  /** A NICK is taken exactly when its name is valid and no registered user's name is the same. */
  lemma NickAsksDirectory(d: Users, s: State, h: Host, m: Message)
    requires Agrees(d)
    ensures AcceptsNick(s, h, Arrived(d, m))
            <==> && !s.gone && m.command == NICK && m.params != []
                 && NickValidity(m.params[0], h.maxNickLength) == NoError
                 && !exists u :: u in d.nick && Registered(d, u) && SameName(d.nick[u], m.params[0])
  {
    if m.params != [] {
      var found := Find(d, m.params[0]);
      if found.Some? {
        FoundMeansSame(d, m.params[0], found.value);
      }
      if u :| u in d.nick && Registered(d, u) && SameName(d.nick[u], m.params[0]) {
        FoundMeansSame(d, m.params[0], u);
      }
    }
  }

  /** Of two valid hand-overs under the same name, in whatever spelling, the later is not registered. */
  lemma LaterSameNameIsTurnedAway(d: Users, conns: set<nat>, probes: nat, h: Host, local: nat, ms: seq<Message>,
                                  i: nat, j: nat)
    requires Agrees(d) && Counted(d) && local in d.counts && conns !! d.nick.Keys
    requires var w := DeliverAll(Opening(d, conns, probes), h, local, ms);
             && i < j < |w.log| && NickValidity(w.log[i].name, h.maxNickLength) == NoError
             && SameName(w.log[i].name, w.log[j].name)
    ensures !Registered(DeliverAll(Opening(d, conns, probes), h, local, ms).dir,
                        DeliverAll(Opening(d, conns, probes), h, local, ms).log[j].conn)
  {
    var w := DeliverAll(Opening(d, conns, probes), h, local, ms);
    LaterEquivalentIsTurnedAway(d, conns, probes, h, local, ms);
    FoldsAgreeExactly(w.log[i].name, w.log[j].name);
    assert ValidAt(w.log, h.maxNickLength, i);
  }

  /** Nobody who was registered from the start shares a name with anyone registered by a run. */
  lemma NamesStayApart(d: Users, conns: set<nat>, probes: nat, h: Host, local: nat, ms: seq<Message>, u: nat, v: nat)
    requires Agrees(d) && Counted(d) && local in d.counts && conns !! d.nick.Keys
    ensures var r := DeliverAll(Opening(d, conns, probes), h, local, ms).dir;
            && Agrees(r)
            && (u in r.nick && v in r.nick && Registered(r, u) && Registered(r, v) && SameName(r.nick[u], r.nick[v])
                ==> u == v)
  {
    var r := DeliverAll(Opening(d, conns, probes), h, local, ms).dir;
    FirstHandedOverIsRegistered(d, conns, probes, h, local, ms);
    if u in r.nick && v in r.nick {
      FindMeansRegistered(r, r.nick[u], u, v);
      FoldsAgreeExactly(r.nick[u], r.nick[v]);
    }
  }
}
