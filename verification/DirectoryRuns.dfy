/** The directory over whole runs: any interleaving of arrivals, registrations, quits and
    nickname changes. */
module DirectoryRuns {
  import opened Text
  import opened Names
  import opened Directory

  /** `Arrive` makes a user object that is not registered yet. */
  datatype Op<!U, !S> = Arrive(user: U, name: string, server: S) | Register(server: S, user: U)
                      | Leave(user: U) | ChangeNick(user: U, newName: string, usedByService: bool)

  predicate Possible<U, S>(d: Dir<U, S>, op: Op<U, S>) {
    match op
    case Arrive(user, _, server) => user !in d.nick && server in d.counts
    case Register(server, user) => user in d.nick && server in d.counts
    case Leave(user) => user in d.nick
    case ChangeNick(user, _, _) => user in d.nick
  }

  function Apply<U, S>(d: Dir<U, S>, op: Op<U, S>, maxLength: nat): Dir<U, S>
    requires WellFormed(d) && Possible(d, op)
  {
    match op
    case Arrive(user, name, server) => d.(nick := d.nick[user := name], home := d.home[user := server])
    case Register(server, user) => AddUser(d, server, user, maxLength).0
    case Leave(user) => Quit(d, user).0
    case ChangeNick(user, newName, usedByService) => Rename(d, user, newName, usedByService, maxLength).0
  }

  lemma ApplyKeepsAgreement<U, S>(d: Dir<U, S>, op: Op<U, S>, maxLength: nat)
    requires Agrees(d) && Possible(d, op)
    ensures Agrees(Apply(d, op, maxLength))
  {
    match op
    case Arrive(_, _, _) =>
    case Register(server, user) => AddKeepsAgreement(d, server, user, maxLength);
    case Leave(user) => QuitKeepsAgreement(d, user);
    case ChangeNick(user, newName, usedByService) =>
      RenameKeepsAgreement(d, user, newName, usedByService, maxLength);
  }

  predicate PossibleRun<U, S>(d: Dir<U, S>, ops: seq<Op<U, S>>, maxLength: nat)
    requires Agrees(d)
    decreases |ops|
  {
    ops == []
    || (Possible(d, ops[0])
        && (ApplyKeepsAgreement(d, ops[0], maxLength);
            PossibleRun(Apply(d, ops[0], maxLength), ops[1..], maxLength)))
  }

  /** Every key is the fold of its user's current name after any run whatsoever. */
  function Run<U, S>(d: Dir<U, S>, ops: seq<Op<U, S>>, maxLength: nat): (r: Dir<U, S>)
    requires Agrees(d) && PossibleRun(d, ops, maxLength)
    ensures Agrees(r)
    decreases |ops|
  {
    if ops == [] then d
    else
      ApplyKeepsAgreement(d, ops[0], maxLength);
      Run(Apply(d, ops[0], maxLength), ops[1..], maxLength)
  }

  /** Name index agreement over runs: after any run find answers exactly the registered user
      with an equivalent name, and equivalent names are never registered twice. */
  lemma IndexAgreesAfterAnyRun<U, S>(d: Dir<U, S>, ops: seq<Op<U, S>>, maxLength: nat, name: string, u: U, v: U)
    requires Agrees(d) && PossibleRun(d, ops, maxLength)
    requires u in Run(d, ops, maxLength).nick && v in Run(d, ops, maxLength).nick
    ensures var r := Run(d, ops, maxLength);
            && (Find(r, name) == Some(u) <==> Registered(r, u) && Fold(r.nick[u]) == Fold(name))
            && (Registered(r, u) && Registered(r, v) && Fold(r.nick[u]) == Fold(r.nick[v]) ==> u == v)
  {
    FindMeansRegistered(Run(d, ops, maxLength), name, u, v);
  }

  // ----- counters

  /** The operation touches a registry entry only of a user on the acting user's own server. */
  predicate Conserving<U, S>(d: Dir<U, S>, op: Op<U, S>, maxLength: nat)
    requires WellFormed(d) && Possible(d, op)
  {
    match op
    case Leave(user) => Key(d, user) in d.users && d.home[d.users[Key(d, user)]] == d.home[user]
    case ChangeNick(user, newName, usedByService) =>
      Replaces(d, user, newName, usedByService, maxLength) ==> d.home[d.users[Key(d, user)]] == d.home[user]
    case _ => true
  }

  lemma ApplyKeepsCountsExactly<U, S>(d: Dir<U, S>, op: Op<U, S>, maxLength: nat)
    requires Agrees(d) && Counted(d) && Possible(d, op)
    ensures Counted(Apply(d, op, maxLength)) <==> Conserving(d, op, maxLength)
  {
    match op
    case Arrive(user, name, server) =>
      var r := Apply(d, op, maxLength);
      forall s | s in d.counts ensures On(r, s) == On(d, s) {
      }
    case Register(server, user) => AddKeepsCounts(d, server, user, maxLength);
    case Leave(user) => QuitKeepsCountsExactly(d, user);
    case ChangeNick(user, newName, usedByService) =>
      RenameKeepsCountsExactly(d, user, newName, usedByService, maxLength);
  }

  predicate ConservingRun<U, S>(d: Dir<U, S>, ops: seq<Op<U, S>>, maxLength: nat)
    requires Agrees(d) && PossibleRun(d, ops, maxLength)
    decreases |ops|
  {
    ops == []
    || (ApplyKeepsAgreement(d, ops[0], maxLength);
        Conserving(d, ops[0], maxLength) && ConservingRun(Apply(d, ops[0], maxLength), ops[1..], maxLength))
  }

  predicate CountedThroughout<U, S>(d: Dir<U, S>, ops: seq<Op<U, S>>, maxLength: nat)
    requires Agrees(d) && PossibleRun(d, ops, maxLength)
    decreases |ops|
  {
    Counted(d)
    && (ops == []
        || (ApplyKeepsAgreement(d, ops[0], maxLength);
            CountedThroughout(Apply(d, ops[0], maxLength), ops[1..], maxLength)))
  }

  /** Counter conservation, exactly: in every state of a run each server's counter is the number of
      registered users on it and the network's is the size of the user map, iff no quit or nickname
      change in the run touches the entry of a user on another server, or no entry at all. */
  lemma {:induction false} CountsConservedExactly<U, S>(d: Dir<U, S>, ops: seq<Op<U, S>>, maxLength: nat)
    requires Agrees(d) && Counted(d) && PossibleRun(d, ops, maxLength)
    ensures CountedThroughout(d, ops, maxLength) <==> ConservingRun(d, ops, maxLength)
    ensures ConservingRun(d, ops, maxLength) ==> Counted(Run(d, ops, maxLength))
    decreases |ops|
  {
    if ops != [] {
      ApplyKeepsAgreement(d, ops[0], maxLength);
      ApplyKeepsCountsExactly(d, ops[0], maxLength);
      if Conserving(d, ops[0], maxLength) {
        CountsConservedExactly(Apply(d, ops[0], maxLength), ops[1..], maxLength);
      }
    }
  }

  ghost function Pick<T>(s: set<T>): T
    requires s != {}
  {
    var x :| x in s; x
  }

  ghost function Sum<U, S>(d: Dir<U, S>, servers: set<S>): nat
    requires servers <= d.counts.Keys
    decreases |servers|
  {
    if servers == {} then 0
    else
      var s := Pick(servers);
      d.counts[s].count + Sum(d, servers - {s})
  }

  /** The keys of the users registered on any of these servers. */
  function Homed<U, S>(d: Dir<U, S>, servers: set<S>): set<string>
    requires WellFormed(d)
  {
    set key | key in d.users && d.home[d.users[key]] in servers
  }

  lemma HomedSplit<U, S>(d: Dir<U, S>, servers: set<S>, s: S)
    requires WellFormed(d) && s in servers
    ensures |Homed(d, servers)| == |Homed(d, servers - {s})| + |On(d, s)|
  {
    var here, others := Homed(d, servers), Homed(d, servers - {s});
    assert forall key :: key in here <==> key in others || key in On(d, s);
    assert here == others + On(d, s);
    assert others !! On(d, s);
  }

  lemma {:induction false} ServersShareUsers<U, S>(d: Dir<U, S>, servers: set<S>)
    requires Counted(d) && servers <= d.counts.Keys
    ensures Sum(d, servers) == |Homed(d, servers)|
    decreases |servers|
  {
    if servers == {} {
      assert Homed(d, servers) == {};
    } else {
      var s := Pick(servers);
      ServersShareUsers(d, servers - {s});
      HomedSplit(d, servers, s);
    }
  }

  /** The servers' counters add up to the network's. */
  lemma CountersAddUp<U, S>(d: Dir<U, S>)
    requires Counted(d)
    ensures Sum(d, d.counts.Keys) == d.total.count
  {
    ServersShareUsers(d, d.counts.Keys);
    assert Homed(d, d.counts.Keys) == d.users.Keys;
  }

  // ----- peaks

  /** One server's counter, or the network's. */
  function CounterOf<U, S>(d: Dir<U, S>, which: Option<S>): Counter
    requires which.Some? ==> which.value in d.counts
  {
    if which.Some? then d.counts[which.value] else d.total
  }

  /** The largest value the counter ever shows during the run. */
  function HighestCount<U, S>(d: Dir<U, S>, ops: seq<Op<U, S>>, maxLength: nat, which: Option<S>): nat
    requires Agrees(d) && PossibleRun(d, ops, maxLength)
    requires which.Some? ==> which.value in d.counts
    decreases |ops|
  {
    var now := CounterOf(d, which).count;
    if ops == [] then now
    else
      ApplyKeepsAgreement(d, ops[0], maxLength);
      var later := HighestCount(Apply(d, ops[0], maxLength), ops[1..], maxLength, which);
      if now < later then later else now
  }

  /** The operation lowers this counter although it stands at zero. */
  predicate LowersZero<U, S>(d: Dir<U, S>, op: Op<U, S>, which: Option<S>)
    requires WellFormed(d) && Possible(d, op) && (which.Some? ==> which.value in d.counts)
  {
    op.Leave? && (which.Some? ==> d.home[op.user] == which.value) && CounterOf(d, which).count == 0
  }

  predicate NeverLowersZero<U, S>(d: Dir<U, S>, ops: seq<Op<U, S>>, maxLength: nat, which: Option<S>)
    requires Agrees(d) && PossibleRun(d, ops, maxLength)
    requires which.Some? ==> which.value in d.counts
    decreases |ops|
  {
    ops == []
    || (ApplyKeepsAgreement(d, ops[0], maxLength);
        !LowersZero(d, ops[0], which)
        && NeverLowersZero(Apply(d, ops[0], maxLength), ops[1..], maxLength, which))
  }

  lemma ApplyMovesPeak<U, S>(d: Dir<U, S>, op: Op<U, S>, maxLength: nat, which: Option<S>)
    requires Agrees(d) && Possible(d, op)
    requires which.Some? ==> which.value in d.counts
    requires !LowersZero(d, op, which) && CounterOf(d, which).count <= CounterOf(d, which).peak
    ensures var before := CounterOf(d, which);
            var after := CounterOf(Apply(d, op, maxLength), which);
            after.peak == if after.count > before.peak then after.count else before.peak
  {
    match op
    case ChangeNick(user, newName, usedByService) =>
      RenameEffect(d, user, newName, usedByService, maxLength);
    case _ =>
  }

  /** Each peak is the historical maximum: over a run that never lowers the counter at zero it ends
      at the larger of the peak it started with and the highest count shown. */
  lemma {:induction false} PeakIsHistoricalMaximum<U, S>(d: Dir<U, S>, ops: seq<Op<U, S>>, maxLength: nat,
                                                         which: Option<S>)
    requires Agrees(d) && PossibleRun(d, ops, maxLength) && (which.Some? ==> which.value in d.counts)
    requires NeverLowersZero(d, ops, maxLength, which) && CounterOf(d, which).count <= CounterOf(d, which).peak
    ensures which.Some? ==> which.value in Run(d, ops, maxLength).counts
    ensures var highest := HighestCount(d, ops, maxLength, which);
            CounterOf(Run(d, ops, maxLength), which).peak
            == if highest > CounterOf(d, which).peak then highest else CounterOf(d, which).peak
    decreases |ops|
  {
    if ops != [] {
      ApplyKeepsAgreement(d, ops[0], maxLength);
      ApplyMovesPeak(d, ops[0], maxLength, which);
      PeakIsHistoricalMaximum(Apply(d, ops[0], maxLength), ops[1..], maxLength, which);
    }
  }

  /** In every state of the run the peak is the highest count shown so far, starting from `highest`. */
  predicate PeakIsHighest<U, S>(d: Dir<U, S>, ops: seq<Op<U, S>>, maxLength: nat, which: Option<S>, highest: nat)
    requires Agrees(d) && PossibleRun(d, ops, maxLength) && (which.Some? ==> which.value in d.counts)
    decreases |ops|
  {
    CounterOf(d, which).peak == highest
    && (ops == []
        || (ApplyKeepsAgreement(d, ops[0], maxLength);
            var next := Apply(d, ops[0], maxLength);
            var count := CounterOf(next, which).count;
            PeakIsHighest(next, ops[1..], maxLength, which, if count > highest then count else highest)))
  }

  /** Lowered at zero, the counter wraps and its peak stays behind. */
  lemma LoweredAtZeroWraps<U, S>(d: Dir<U, S>, op: Op<U, S>, maxLength: nat, which: Option<S>)
    requires Agrees(d) && Possible(d, op) && (which.Some? ==> which.value in d.counts) && LowersZero(d, op, which)
    ensures which.Some? ==> which.value in Apply(d, op, maxLength).counts
    ensures CounterOf(Apply(d, op, maxLength), which) == Counter(0xFFFF_FFFF, CounterOf(d, which).peak)
  {
  }

  /** An operation raises a peak by one at most. */
  lemma PeakGrowsByOne<U, S>(d: Dir<U, S>, op: Op<U, S>, maxLength: nat, which: Option<S>)
    requires Agrees(d) && Possible(d, op) && (which.Some? ==> which.value in d.counts) && !LowersZero(d, op, which)
    requires CounterOf(d, which).count <= CounterOf(d, which).peak
    ensures which.Some? ==> which.value in Apply(d, op, maxLength).counts
    ensures var after := CounterOf(Apply(d, op, maxLength), which);
            after.count <= after.peak <= CounterOf(d, which).peak + 1
  {
    match op
    case ChangeNick(user, newName, usedByService) =>
      RenameEffect(d, user, newName, usedByService, maxLength);
    case _ =>
  }

  /** The peak is the historical maximum in every state of a run exactly when the run never lowers
      the counter at zero, for runs too short to count up to the wrapped value. */
  lemma {:induction false} PeakIsHighestExactly<U, S>(d: Dir<U, S>, ops: seq<Op<U, S>>, maxLength: nat,
                                                      which: Option<S>)
    requires Agrees(d) && PossibleRun(d, ops, maxLength) && (which.Some? ==> which.value in d.counts)
    requires CounterOf(d, which).count <= CounterOf(d, which).peak
    requires CounterOf(d, which).peak + |ops| < 0xFFFF_FFFF
    ensures PeakIsHighest(d, ops, maxLength, which, CounterOf(d, which).peak)
            <==> NeverLowersZero(d, ops, maxLength, which)
    decreases |ops|
  {
    if ops != [] {
      ApplyKeepsAgreement(d, ops[0], maxLength);
      var next := Apply(d, ops[0], maxLength);
      if LowersZero(d, ops[0], which) {
        LoweredAtZeroWraps(d, ops[0], maxLength, which);
      } else {
        PeakGrowsByOne(d, ops[0], maxLength, which);
        ApplyMovesPeak(d, ops[0], maxLength, which);
        PeakIsHighestExactly(next, ops[1..], maxLength, which);
      }
    }
  }

  /** Two QUIT messages of the only user in one read: the count passes its peak. */
  lemma SecondQuitPassesPeak<U, S>(d: Dir<U, S>, u: U, maxLength: nat)
    requires Agrees(d) && Counted(d) && u in d.nick && Registered(d, u) && |d.users| == 1
    requires d.total.peak < 0xFFFF_FFFF
    ensures var once := Apply(d, Leave(u), maxLength);
            && Agrees(once) && once.total.count == 0 && LowersZero(once, Leave(u), None)
            && Apply(once, Leave(u), maxLength).total == Counter(0xFFFF_FFFF, d.total.peak)
  {
    SecondQuitSpoilsCounts(d, u);
    assert d.users[Key(d, u)] == u;
    assert d.users.Keys == Quit(d, u).0.users.Keys + {Key(d, u)};
  }

  lemma ConservingStepAboveZero<U, S>(d: Dir<U, S>, op: Op<U, S>, maxLength: nat, which: Option<S>)
    requires Agrees(d) && Counted(d) && Possible(d, op) && Conserving(d, op, maxLength)
    requires which.Some? ==> which.value in d.counts
    ensures !LowersZero(d, op, which)
    ensures Agrees(Apply(d, op, maxLength)) && Counted(Apply(d, op, maxLength))
    ensures which.Some? ==> which.value in Apply(d, op, maxLength).counts
  {
    ApplyKeepsAgreement(d, op, maxLength);
    ApplyKeepsCountsExactly(d, op, maxLength);
    if op.Leave? {
      assert Key(d, op.user) in On(d, d.home[op.user]);
    }
  }

  /** Conserving runs never lower a counter at zero. */
  lemma {:induction false} ConservingNeverLowersZero<U, S>(d: Dir<U, S>, ops: seq<Op<U, S>>, maxLength: nat,
                                                           which: Option<S>)
    requires Agrees(d) && Counted(d) && PossibleRun(d, ops, maxLength) && ConservingRun(d, ops, maxLength)
    requires which.Some? ==> which.value in d.counts
    ensures NeverLowersZero(d, ops, maxLength, which)
    decreases |ops|
  {
    if ops != [] {
      ConservingStepAboveZero(d, ops[0], maxLength, which);
      ConservingNeverLowersZero(Apply(d, ops[0], maxLength), ops[1..], maxLength, which);
    }
  }

  // ----- a run that goes wrong

  /** Two registrants with one name on one server: the second is turned away, quits, and takes the
      first one's entry along; every counter stays right. */
  lemma TurnedAwayQuitRemovesAnother<U, S>(d: Dir<U, S>, s: S, first: U, second: U, maxLength: nat)
    requires Agrees(d) && Counted(d) && s in d.counts && first != second && first in d.nick && second in d.nick
    requires d.nick[first] == d.nick[second] && d.home[first] == d.home[second] == s
    requires NickValidity(d.nick[first], maxLength) == NoError && Key(d, first) !in d.users
    ensures var registered := Apply(d, Register(s, first), maxLength);
            && Agrees(registered) && Registered(registered, first)
            && Apply(registered, Register(s, second), maxLength) == registered
            && !Registered(Apply(registered, Leave(second), maxLength), first)
            && Counted(Apply(registered, Leave(second), maxLength))
  {
    var registered := AddUser(d, s, first, maxLength).0;
    AddKeepsAgreement(d, s, first, maxLength);
    AddKeepsCounts(d, s, first, maxLength);
    assert registered.users == d.users[Key(d, first) := first] && Key(registered, second) == Key(d, first);
    ShadowedQuitLosesAnother(registered, second);
  }
}
