/** Registered users by folded name, and the user counters of servers and network: what
    `Registry`, `Server::addUser`, `User::quit` and the nickname change do to them, as functions.
    `U` and `S` stand for the identities of user and server objects. */
module Directory {
  import opened Text
  import opened Names

  /** `AIS::Util::PeakCount<unsigned int>` as assumed: incrementing remembers the peak,
      decrementing zero wraps. */
  datatype Counter = Counter(count: nat, peak: nat)

  function Up(c: Counter): Counter {
    Counter(c.count + 1, if c.count + 1 > c.peak then c.count + 1 else c.peak)
  }

  function Down(c: Counter): Counter {
    c.(count := if c.count == 0 then 0xFFFF_FFFF else c.count - 1)
  }

  datatype Status = Done | BadName(why: NameError) | EntityExists | ServersDontMatch
                  | NameInUse | UnregisteredEntity

  /** The registry's user map, every user object's nickname and server, and the counters. */
  datatype Dir<!U(==), !S(==)> = Dir(users: map<string, U>, nick: map<U, string>, home: map<U, S>,
                                     counts: map<S, Counter>, total: Counter)

  function Key<U, S>(d: Dir<U, S>, u: U): string
    requires u in d.nick
  {
    Fold(d.nick[u])
  }

  /** `findEntity`. */
  function Find<U, S>(d: Dir<U, S>, name: string): Option<U> {
    if Fold(name) in d.users then Some(d.users[Fold(name)]) else None
  }

  /** `Server::addUser` on server `s`. */
  function AddUser<U, S>(d: Dir<U, S>, s: S, u: U, maxLength: nat): (Dir<U, S>, Status)
    requires WellFormed(d) && u in d.nick && s in d.counts
  {
    if d.home[u] != s then (d, ServersDontMatch)
    else if NickValidity(d.nick[u], maxLength) != NoError then (d, BadName(NickValidity(d.nick[u], maxLength)))
    else if Find(d, d.nick[u]).Some? then (d, EntityExists)
    else (d.(users := d.users[Key(d, u) := u], counts := d.counts[s := Up(d.counts[s])], total := Up(d.total)), Done)
  }

  /** `User::quit`: both counters go down before the registry is asked to remove the name. */
  function Quit<U, S>(d: Dir<U, S>, u: U): (Dir<U, S>, Status)
    requires WellFormed(d) && u in d.nick
  {
    var s := d.home[u];
    var lowered := d.(counts := d.counts[s := Down(d.counts[s])], total := Down(d.total));
    if Key(d, u) in d.users then (lowered.(users := d.users - {Key(d, u)}), Done) else (lowered, UnregisteredEntity)
  }

  /** `Registry::changeUserNickname`: the new key is not checked, and inserting over a taken key does nothing. */
  function Rekey<U, S>(d: Dir<U, S>, u: U, newName: string, maxLength: nat): (Dir<U, S>, Status)
    requires u in d.nick
  {
    if Fold(newName) == Key(d, u) then (d, Done)
    else if Key(d, u) !in d.users then (d, UnregisteredEntity)
    else if NickValidity(newName, maxLength) != NoError then (d, BadName(NickValidity(newName, maxLength)))
    else
      var erased := d.users - {Key(d, u)};
      (d.(users := if Fold(newName) in erased then erased else erased[Fold(newName) := u]), Done)
  }

  /** The nickname change as drafted in `User::changeNickname`: checks, re-keying, then the assignment. */
  function Rename<U, S>(d: Dir<U, S>, u: U, newName: string, usedByService: bool, maxLength: nat): (Dir<U, S>, Status)
    requires u in d.nick
  {
    var found := Find(d, newName);
    if NickValidity(newName, maxLength) != NoError then (d, BadName(NickValidity(newName, maxLength)))
    else if (found.Some? && found.value != u) || (found.None? && usedByService) then (d, NameInUse)
    else
      var (rekeyed, status) := Rekey(d, u, newName, maxLength);
      (rekeyed.(nick := d.nick[u := newName]), status)
  }

  // ----- the name index

  /** Every user object has a name and a server, every server a counter. */
  predicate WellFormed<U, S>(d: Dir<U, S>) {
    && d.nick.Keys == d.home.Keys
    && (forall u | u in d.home :: d.home[u] in d.counts)
    && (forall key | key in d.users :: d.users[key] in d.nick)
  }

  /** Every key is the folded current name of its user. */
  predicate Agrees<U, S>(d: Dir<U, S>) {
    WellFormed(d) && forall key | key in d.users :: Key(d, d.users[key]) == key
  }

  predicate Registered<U, S>(d: Dir<U, S>, u: U) {
    u in d.users.Values
  }

  /** Under agreement, find returns a user iff that user is registered under an equivalent name,
      and no two registered users have equivalent names. */
  lemma FindMeansRegistered<U, S>(d: Dir<U, S>, name: string, u: U, v: U)
    requires Agrees(d) && u in d.nick && v in d.nick
    ensures Find(d, name) == Some(u) <==> Registered(d, u) && Fold(d.nick[u]) == Fold(name)
    ensures Registered(d, u) && Registered(d, v) && Fold(d.nick[u]) == Fold(d.nick[v]) ==> u == v
  {
  }

  lemma AddKeepsAgreement<U, S>(d: Dir<U, S>, s: S, u: U, maxLength: nat)
    requires Agrees(d) && u in d.nick && s in d.counts
    ensures Agrees(AddUser(d, s, u, maxLength).0)
  {
  }

  lemma QuitKeepsAgreement<U, S>(d: Dir<U, S>, u: U)
    requires Agrees(d) && u in d.nick
    ensures Agrees(Quit(d, u).0)
  {
  }

  lemma RenameKeepsAgreement<U, S>(d: Dir<U, S>, u: U, newName: string, usedByService: bool, maxLength: nat)
    requires Agrees(d) && u in d.nick
    ensures Agrees(Rename(d, u, newName, usedByService, maxLength).0)
  {
    var r := Rename(d, u, newName, usedByService, maxLength).0;
    forall key | key in r.users ensures r.users[key] in r.nick && Key(r, r.users[key]) == key {
      if key in d.users && r.users[key] == d.users[key] && d.users[key] == u {
        assert Key(d, u) == key;
      }
    }
  }

  // ----- the counters

  /** The keys of the users registered on a server. */
  function On<U, S>(d: Dir<U, S>, s: S): set<string>
    requires WellFormed(d)
  {
    set key | key in d.users && d.home[d.users[key]] == s
  }

  /** Every counter agrees with the user map. */
  predicate Counted<U, S>(d: Dir<U, S>) {
    && WellFormed(d)
    && d.total.count == |d.users|
    && forall s | s in d.counts :: d.counts[s].count == |On(d, s)|
  }

  lemma AddKeepsCounts<U, S>(d: Dir<U, S>, s: S, u: U, maxLength: nat)
    requires Counted(d) && u in d.nick && s in d.counts
    ensures Counted(AddUser(d, s, u, maxLength).0)
  {
    var r := AddUser(d, s, u, maxLength).0;
    if r != d {
      forall t | t in r.counts ensures r.counts[t].count == |On(r, t)| {
        OnWith(d, r, Key(d, u), u, t);
      }
    }
  }

  /** Removing one entry changes only its server's share. */
  lemma OnWithout<U, S>(d: Dir<U, S>, r: Dir<U, S>, key: string, s: S)
    requires WellFormed(d) && WellFormed(r) && key in d.users
    requires r.users == d.users - {key} && r.home == d.home
    ensures |On(r, s)| == if d.home[d.users[key]] == s then |On(d, s)| - 1 else |On(d, s)|
  {
    if d.home[d.users[key]] == s {
      assert On(d, s) == On(r, s) + {key};
    } else {
      assert On(d, s) == On(r, s);
    }
  }

  lemma OneMoreKey(before: set<string>, after: set<string>, key: string)
    requires key !in before && forall k :: k in after <==> k in before || k == key
    ensures |after| == |before| + 1
  {
    assert after == before + {key};
  }

  /** Adding one entry changes only its server's share. */
  lemma OnWith<U, S>(d: Dir<U, S>, r: Dir<U, S>, key: string, u: U, s: S)
    requires WellFormed(d) && WellFormed(r) && key !in d.users && u in d.nick
    requires r.users == d.users[key := u] && r.home == d.home
    ensures |On(r, s)| == if d.home[u] == s then |On(d, s)| + 1 else |On(d, s)|
  {
    assert forall k | k in d.users :: r.users[k] == d.users[k];
    if d.home[u] == s {
      OneMoreKey(On(d, s), On(r, s), key);
    } else {
      assert On(r, s) == On(d, s);
    }
  }

  lemma QuitWithEntry<U, S>(d: Dir<U, S>, u: U)
    requires Counted(d) && u in d.nick && Key(d, u) in d.users
    ensures var r := Quit(d, u).0;
            WellFormed(r) && r.total.count == |r.users|
            && forall s | s in d.counts ::
                 |On(r, s)| == if d.home[d.users[Key(d, u)]] == s then |On(d, s)| - 1 else |On(d, s)|
  {
    var r := Quit(d, u).0;
    var key := Key(d, u);
    assert d.users.Keys == r.users.Keys + {key};
    forall s | s in d.counts
      ensures |On(r, s)| == if d.home[d.users[key]] == s then |On(d, s)| - 1 else |On(d, s)|
    {
      OnWithout(d, r, key, s);
    }
  }

  /** Quitting keeps the counters exactly when someone is registered under the quitting user's
      name, on the quitting user's server. */
  lemma QuitKeepsCountsExactly<U, S>(d: Dir<U, S>, u: U)
    requires Counted(d) && u in d.nick
    ensures Counted(Quit(d, u).0) <==> Key(d, u) in d.users && d.home[d.users[Key(d, u)]] == d.home[u]
  {
    var r := Quit(d, u).0;
    var key, s := Key(d, u), d.home[u];
    if key in d.users {
      QuitWithEntry(d, u);
      var t := d.home[d.users[key]];
      assert key in On(d, t);
      if t != s {
        assert r.counts[s].count != |On(r, s)|;
      }
    } else {
      assert r.total.count != |r.users|;
    }
  }

  /** Someone else is registered under this user's name: the user's own registration failed. */
  predicate Shadowed<U, S>(d: Dir<U, S>, u: U)
    requires u in d.nick
  {
    Key(d, u) in d.users && d.users[Key(d, u)] != u
  }

  /** After quitting a user is registered no more, and everyone else is found as before exactly
      when nobody else was registered under the name: removal is by name. */
  lemma QuitRemovesExactly<U, S>(d: Dir<U, S>, u: U)
    requires Agrees(d) && u in d.nick
    ensures var (r, status) := Quit(d, u);
            && !Registered(r, u) && (status == Done <==> Key(d, u) in d.users)
            && ((forall name :: Find(d, name) != Some(u) ==> Find(r, name) == Find(d, name)) <==> !Shadowed(d, u))
  {
    var r := Quit(d, u).0;
    if Shadowed(d, u) {
      assert Find(d, d.nick[u]) == Some(d.users[Key(d, u)]) && Find(r, d.nick[u]) == None;
    } else {
      forall name | Find(d, name) != Some(u) ensures Find(r, name) == Find(d, name) {
      }
    }
  }

  /** The counters cannot tell: with both on one server they stay right while the other user is lost. */
  lemma ShadowedQuitLosesAnother<U, S>(d: Dir<U, S>, u: U)
    requires Agrees(d) && Counted(d) && u in d.nick && Shadowed(d, u)
    requires d.home[d.users[Key(d, u)]] == d.home[u]
    ensures var other := d.users[Key(d, u)];
            Registered(d, other) && !Registered(Quit(d, u).0, other) && Counted(Quit(d, u).0)
  {
    QuitKeepsCountsExactly(d, u);
    var other, r := d.users[Key(d, u)], Quit(d, u).0;
    assert Key(d, other) == Key(d, u);
    assert forall key | key in r.users && r.users[key] == other :: Key(d, other) == key;
  }

  /** Two QUIT messages in one read: the second lowers both counters once more. */
  lemma SecondQuitSpoilsCounts<U, S>(d: Dir<U, S>, u: U)
    requires Agrees(d) && Counted(d) && u in d.nick && Registered(d, u)
    ensures var once := Quit(d, u).0;
            Counted(once) && Agrees(once) && !Counted(Quit(once, u).0)
            && Quit(once, u).0.total.count == if |d.users| == 1 then 0xFFFF_FFFF else |d.users| - 2
  {
    var once := Quit(d, u).0;
    assert d.users[Key(d, u)] == u;
    QuitKeepsAgreement(d, u);
    QuitKeepsCountsExactly(d, u);
    assert d.users.Keys == once.users.Keys + {Key(d, u)};
    QuitKeepsCountsExactly(once, u);
  }

  /** The registry's re-keying alone, followed by the assignment: a registered user stays registered,
      and the counters stay right, exactly when the new key is free or equivalent to the old one. */
  lemma UncheckedRekeyLosesUsers<U, S>(d: Dir<U, S>, u: U, newName: string, maxLength: nat)
    requires Agrees(d) && Counted(d) && u in d.nick && Registered(d, u)
    requires NickValidity(newName, maxLength) == NoError
    ensures var rekeyed := Rekey(d, u, newName, maxLength).0;
            var r := rekeyed.(nick := d.nick[u := newName]);
            var free := Fold(newName) !in d.users || Fold(newName) == Key(d, u);
            && (Find(r, newName) == Some(u) <==> free)
            && (WellFormed(r) && (Counted(r) <==> free))
  {
    var rekeyed := Rekey(d, u, newName, maxLength).0;
    var r := rekeyed.(nick := d.nick[u := newName]);
    var key, newKey := Key(d, u), Fold(newName);
    assert d.users[key] == u;
    if newKey == key {
      SameEntriesSameCounts(d, r);
    } else if newKey in d.users {
      assert Key(d, d.users[newKey]) == newKey;
      assert d.users.Keys == r.users.Keys + {key};
    } else {
      SwapKeepsCounts(d, r, u, key, newKey);
    }
  }

  lemma SwapKeepsCounts<U, S>(d: Dir<U, S>, r: Dir<U, S>, u: U, key: string, newKey: string)
    requires Counted(d) && WellFormed(r)
    requires key in d.users && newKey !in d.users && u in d.nick && d.home[d.users[key]] == d.home[u]
    requires r.users == (d.users - {key})[newKey := u] && r.home == d.home && r.counts == d.counts && r.total == d.total
    ensures Counted(r)
  {
    var erased := d.(users := d.users - {key});
    assert erased.users.Keys == d.users.Keys - {key};
    assert r.users.Keys == erased.users.Keys + {newKey};
    forall s | s in d.counts ensures |On(r, s)| == |On(d, s)| {
      OnWithout(d, erased, key, s);
      OnWith(erased, r, newKey, u, s);
    }
  }

  lemma SameEntriesSameCounts<U, S>(d: Dir<U, S>, r: Dir<U, S>)
    requires Counted(d) && WellFormed(r)
    requires r.users == d.users && r.home == d.home && r.counts == d.counts && r.total == d.total
    ensures Counted(r)
  {
    forall s | s in d.counts ensures On(r, s) == On(d, s) {
    }
  }

  /** The change gets as far as replacing the registry entry under the old name. */
  predicate Replaces<U, S>(d: Dir<U, S>, u: U, newName: string, usedByService: bool, maxLength: nat)
    requires u in d.nick
  {
    && NickValidity(newName, maxLength) == NoError && Fold(newName) !in d.users && !usedByService
    && Key(d, u) in d.users
  }

  lemma RenameEffect<U, S>(d: Dir<U, S>, u: U, newName: string, usedByService: bool, maxLength: nat)
    requires Agrees(d) && u in d.nick
    ensures var r := Rename(d, u, newName, usedByService, maxLength).0;
            && r.home == d.home && r.counts == d.counts && r.total == d.total
            && r.users == if Replaces(d, u, newName, usedByService, maxLength)
                          then (d.users - {Key(d, u)})[Fold(newName) := u] else d.users
  {
  }

  /** The checked nickname change keeps the counters exactly when the entry it replaces, if any,
      belongs to a user on the same server. */
  lemma RenameKeepsCountsExactly<U, S>(d: Dir<U, S>, u: U, newName: string, usedByService: bool, maxLength: nat)
    requires Agrees(d) && Counted(d) && u in d.nick
    ensures Counted(Rename(d, u, newName, usedByService, maxLength).0)
            <==> (Replaces(d, u, newName, usedByService, maxLength) ==> d.home[d.users[Key(d, u)]] == d.home[u])
  {
    var r := Rename(d, u, newName, usedByService, maxLength).0;
    RenameKeepsAgreement(d, u, newName, usedByService, maxLength);
    RenameEffect(d, u, newName, usedByService, maxLength);
    if !Replaces(d, u, newName, usedByService, maxLength) {
      SameEntriesSameCounts(d, r);
    } else if d.home[d.users[Key(d, u)]] == d.home[u] {
      SwapKeepsCounts(d, r, u, Key(d, u), Fold(newName));
    } else {
      var erased := d.(users := d.users - {Key(d, u)});
      OnWithout(d, erased, Key(d, u), d.home[u]);
      OnWith(erased, r, Fold(newName), u, d.home[u]);
    }
  }

  /** A registered user who changes nickname stays registered, everyone else is found as before. */
  lemma RenameKeepsUsers<U, S>(d: Dir<U, S>, u: U, newName: string, usedByService: bool, maxLength: nat, name: string)
    requires Agrees(d) && u in d.nick && Registered(d, u)
    ensures var r := Rename(d, u, newName, usedByService, maxLength).0;
            && Registered(r, u)
            && (Find(d, name).Some? && Find(d, name).value != u ==> Find(r, name) == Find(d, name))
  {
    var r := Rename(d, u, newName, usedByService, maxLength).0;
    RenameEffect(d, u, newName, usedByService, maxLength);
    assert d.users[Key(d, u)] == u;
    if Replaces(d, u, newName, usedByService, maxLength) {
      assert r.users[Fold(newName)] == u;
    }
  }
}
