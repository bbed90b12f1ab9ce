/** The AWAY flood lock: one time stamp and one grace bit that limit how often a user may set
    an away message. `flood` is FLOODLOCK_AWAY_SET, in seconds. */
module AwayLock {
  datatype Lock = Lock(lastAwaySet: nat, grace: bool, away: string)
  datatype Away = Away(message: string, now: nat)
  datatype Reply = NowAway | UnAway | TryAgain

  const NEW_LOCK := Lock(0, true, "")

  predicate Early(l: Lock, flood: nat, now: nat) {
    l.lastAwaySet + flood > now
  }

  function Answer(l: Lock, flood: nat, e: Away): Reply {
    if e.message == "" then UnAway
    else if Early(l, flood, e.now) && !l.grace then TryAgain
    else NowAway
  }

  function Step(l: Lock, flood: nat, e: Away): Lock {
    match Answer(l, flood, e)
    case UnAway => l.(away := "")
    case TryAgain => l
    case NowAway => Lock(e.now, !Early(l, flood, e.now), e.message)
  }

  function After(l: Lock, flood: nat, es: seq<Away>, k: nat): Lock
    requires k <= |es|
  {
    if k == 0 then l else Step(After(l, flood, es, k - 1), flood, es[k - 1])
  }

  /** The times at which an away message was accepted during the first k commands. */
  function Accepted(l: Lock, flood: nat, es: seq<Away>, k: nat): seq<nat>
    requires k <= |es|
  {
    if k == 0 then []
    else
      Accepted(l, flood, es, k - 1)
      + if Answer(After(l, flood, es, k - 1), flood, es[k - 1]).NowAway? then [es[k - 1].now] else []
  }

  /** The clock never runs backwards. */
  ghost predicate InOrder(l: Lock, es: seq<Away>) {
    && (es != [] ==> l.lastAwaySet <= es[0].now)
    && forall i, j :: 0 <= i <= j < |es| ==> es[i].now <= es[j].now
  }

  lemma {:induction false} LastIsNewestAccepted(l: Lock, flood: nat, es: seq<Away>, k: nat)
    requires k <= |es| && InOrder(l, es)
    ensures var times := Accepted(l, flood, es, k);
            After(l, flood, es, k).lastAwaySet == if times == [] then l.lastAwaySet else times[|times| - 1]
    ensures forall m :: k <= m < |es| ==> After(l, flood, es, k).lastAwaySet <= es[m].now
  {
    if k > 0 {
      LastIsNewestAccepted(l, flood, es, k - 1);
    }
  }

  /** An unspent grace is worth half a step of the bound. */
  function Credit(l: Lock): nat {
    if l.grace then 1 else 0
  }

  /** The seconds that have to pass in this many steps: `flood` for every two. */
  function Due(steps: nat, flood: nat): nat {
    if steps < 2 then 0 else flood + Due(steps - 2, flood)
  }

  lemma {:induction false} DueIsProduct(steps: nat, flood: nat)
    ensures Due(steps, flood) == steps / 2 * flood
  {
    if steps >= 2 {
      DueIsProduct(steps - 2, flood);
      assert steps / 2 == (steps - 2) / 2 + 1;
      assert ((steps - 2) / 2 + 1) * flood == (steps - 2) / 2 * flood + flood;
    }
  }

  lemma {:induction false} DueGrows(a: nat, b: nat, flood: nat)
    requires a <= b
    ensures Due(a, flood) <= Due(b, flood)
  {
    if a >= 2 {
      DueGrows(a - 2, b - 2, flood);
    }
  }

  lemma {:induction false} DueNext(steps: nat, flood: nat)
    ensures Due(steps + 1, flood) == Due(steps, flood) + if steps % 2 == 1 then flood else 0
  {
    if steps >= 2 {
      DueNext(steps - 2, flood);
    }
  }

  /** From every accepted time to the newest one. */
  ghost predicate Spread(times: seq<nat>, flood: nat, credit: nat) {
    forall i :: 0 <= i < |times| ==>
      times[|times| - 1] - times[i] >= Due(|times| - 1 - i + credit, flood)
  }

  lemma SpreadSlow(times: seq<nat>, flood: nat, credit: nat, now: nat)
    requires credit <= 1 && Spread(times, flood, credit)
    requires times != [] ==> now >= times[|times| - 1] + flood
    ensures Spread(times + [now], flood, 1)
  {
    forall i | 0 <= i < |times|
      ensures now - times[i] >= Due(|times| - i + 1, flood)
    {
      DueGrows(|times| - 1 - i, |times| - 1 - i + credit, flood);
    }
  }

  lemma SpreadFast(times: seq<nat>, flood: nat, now: nat)
    requires Spread(times, flood, 1)
    requires times != [] ==> now >= times[|times| - 1]
    ensures Spread(times + [now], flood, 0)
  {
  }

  lemma {:induction false} SpreadHolds(l: Lock, flood: nat, es: seq<Away>, k: nat)
    requires k <= |es| && InOrder(l, es)
    ensures Spread(Accepted(l, flood, es, k), flood, Credit(After(l, flood, es, k)))
  {
    if k > 0 {
      SpreadHolds(l, flood, es, k - 1);
      LastIsNewestAccepted(l, flood, es, k - 1);
      var before, times := After(l, flood, es, k - 1), Accepted(l, flood, es, k - 1);
      var e := es[k - 1];
      if Answer(before, flood, e).NowAway? {
        if Early(before, flood, e.now) {
          SpreadFast(times, flood, e.now);
        } else {
          SpreadSlow(times, flood, Credit(before), e.now);
        }
      } else {
        assert times + [] == times;
      }
    }
  }

  lemma {:induction false} AcceptedPrefix(l: Lock, flood: nat, es: seq<Away>, k: nat, m: nat)
    requires m <= |es| && k <= |Accepted(l, flood, es, m)|
    ensures exists p: nat :: p <= m && Accepted(l, flood, es, p) == Accepted(l, flood, es, m)[..k]
    decreases m
  {
    if k == |Accepted(l, flood, es, m)| {
      assert Accepted(l, flood, es, m)[..k] == Accepted(l, flood, es, m);
    } else {
      assert Accepted(l, flood, es, m)[..k] == Accepted(l, flood, es, m - 1)[..k];
      AcceptedPrefix(l, flood, es, k, m - 1);
    }
  }

  /** The rate bound between any two accepted settings, whatever came in between. */
  lemma RateBound(l: Lock, flood: nat, es: seq<Away>, i: nat, j: nat)
    requires InOrder(l, es) && i <= j < |Accepted(l, flood, es, |es|)|
    ensures Accepted(l, flood, es, |es|)[j] - Accepted(l, flood, es, |es|)[i] >= (j - i) / 2 * flood
  {
    var all := Accepted(l, flood, es, |es|);
    AcceptedPrefix(l, flood, es, j + 1, |es|);
    var p: nat :| p <= |es| && Accepted(l, flood, es, p) == all[..j + 1];
    SpreadHolds(l, flood, es, p);
    DueGrows(j - i, j - i + Credit(After(l, flood, es, p)), flood);
    DueIsProduct(j - i, flood);
    assert all[..j + 1][i] == all[i] && all[..j + 1][j] == all[j];
  }

  /** No half-open window of `flood` seconds holds three accepted settings. */
  lemma AtMostTwoPerWindow(l: Lock, flood: nat, es: seq<Away>, window: int, a: nat, b: nat, c: nat)
    requires InOrder(l, es) && a < b < c < |Accepted(l, flood, es, |es|)|
    ensures !(forall i | i in {a, b, c} :: window <= Accepted(l, flood, es, |es|)[i] < window + flood)
  {
    RateBound(l, flood, es, a, c);
    DueIsProduct(c - a, flood);
    assert Due(c - a, flood) >= flood;
    assert a in {a, b, c} && c in {a, b, c};
  }

  // ----- the bound cannot be improved -----

  /** Two settings at once, then two more every `flood` seconds. */
  function Burst(flood: nat, start: nat, count: nat): seq<Away> {
    seq(count, i requires 0 <= i < count => Away("gone", start + Due(i, flood)))
  }

  lemma {:induction false} BurstIsAccepted(flood: nat, start: nat, count: nat, k: nat)
    requires k <= count && start >= flood > 0
    ensures |Accepted(NEW_LOCK, flood, Burst(flood, start, count), k)| == k
    ensures forall i :: 0 <= i < k ==>
              Accepted(NEW_LOCK, flood, Burst(flood, start, count), k)[i] == start + Due(i, flood)
    ensures k > 0 ==> After(NEW_LOCK, flood, Burst(flood, start, count), k)
                      == Lock(start + Due(k - 1, flood), k % 2 == 1, "gone")
  {
    if k > 0 {
      BurstIsAccepted(flood, start, count, k - 1);
      var es := Burst(flood, start, count);
      assert es[k - 1] == Away("gone", start + Due(k - 1, flood));
      if k > 1 {
        DueNext(k - 2, flood);
      }
    }
  }

  lemma RateBoundIsTight(flood: nat, start: nat, count: nat)
    requires start >= flood > 0 && count > 0
    ensures var times := Accepted(NEW_LOCK, flood, Burst(flood, start, count), count);
            |times| == count && times[count - 1] == times[0] + (count - 1) / 2 * flood
  {
    DueIsProduct(count - 1, flood);
    BurstIsAccepted(flood, start, count, count);
  }

  // ----- the two-field lock against a log of all accepted times -----

  /** A setting at this time would come less than `flood` seconds after the newest entry. */
  predicate Hurried(log: seq<nat>, flood: nat, now: nat) {
    log != [] && now < log[|log| - 1] + flood
  }

  /** A policy that looks at the whole log: refuse the second hurried setting in a row. */
  predicate LogRefuses(log: seq<nat>, flood: nat, now: nat) {
    Hurried(log, flood, now) && |log| >= 2 && Hurried(log[..|log| - 1], flood, log[|log| - 1])
  }

  /** The log of a new lock: its zero time stamp counts as a first, unhurried entry. */
  function Log(flood: nat, es: seq<Away>, k: nat): seq<nat>
    requires k <= |es|
  {
    [0] + Accepted(NEW_LOCK, flood, es, k)
  }

  ghost predicate LockShowsLog(l: Lock, log: seq<nat>, flood: nat) {
    && log != []
    && l.lastAwaySet == log[|log| - 1]
    && (l.grace <==> |log| == 1 || !Hurried(log[..|log| - 1], flood, log[|log| - 1]))
  }

  lemma {:induction false} LockRefinesLog(flood: nat, es: seq<Away>, k: nat)
    requires k <= |es|
    ensures LockShowsLog(After(NEW_LOCK, flood, es, k), Log(flood, es, k), flood)
  {
    if k > 0 {
      LockRefinesLog(flood, es, k - 1);
      var log := Log(flood, es, k - 1);
      var e := es[k - 1];
      if Answer(After(NEW_LOCK, flood, es, k - 1), flood, e).NowAway? {
        assert Log(flood, es, k) == log + [e.now];
        assert (log + [e.now])[..|log|] == log;
      } else {
        assert Log(flood, es, k) == log;
      }
    }
  }

  /** One stamp and one bit decide exactly as the whole log would. */
  lemma LockDecidesLikeLog(flood: nat, es: seq<Away>, k: nat, e: Away)
    requires k <= |es| && e.message != ""
    ensures Answer(After(NEW_LOCK, flood, es, k), flood, e) == TryAgain
            <==> LogRefuses(Log(flood, es, k), flood, e.now)
  {
    LockRefinesLog(flood, es, k);
  }

  // ----- the away text

  predicate Refused(l: Lock, flood: nat, es: seq<Away>, i: nat)
    requires i < |es|
  {
    Answer(After(l, flood, es, i), flood, es[i]) == TryAgain
  }

  /** Of the first `k` commands, `j` is the last one not refused. */
  predicate LastTaken(l: Lock, flood: nat, es: seq<Away>, k: nat, j: nat)
    requires j < k <= |es|
  {
    !Refused(l, flood, es, j) && forall i | j < i < k :: Refused(l, flood, es, i)
  }

  /** The away text is that of the last command not refused: the message set, or none at all if it
      was empty; with every command refused nothing has changed. */
  lemma {:induction false} AwayTextIsLastTaken(l: Lock, flood: nat, es: seq<Away>, k: nat, j: nat)
    requires j < k <= |es| && LastTaken(l, flood, es, k, j)
    ensures After(l, flood, es, k).away == es[j].message
    decreases k
  {
    if j < k - 1 {
      assert Refused(l, flood, es, k - 1);
      AwayTextIsLastTaken(l, flood, es, k - 1, j);
    }
  }

  lemma {:induction false} NothingTaken(l: Lock, flood: nat, es: seq<Away>, k: nat)
    requires k <= |es| && forall i | 0 <= i < k :: Refused(l, flood, es, i)
    ensures After(l, flood, es, k) == l
  {
    if k > 0 {
      NothingTaken(l, flood, es, k - 1);
      assert Refused(l, flood, es, k - 1);
    }
  }

  /** Only messages can be refused: coming back is always possible and spends nothing, neither the
      stamp nor the grace; the first message of a lock long unused, or with its grace, is taken. */
  lemma AnswersExactly(l: Lock, flood: nat, message: string, now: nat)
    ensures var answer, r := Answer(l, flood, Away(message, now)), Step(l, flood, Away(message, now));
            && (answer == UnAway <==> message == "")
            && (answer == NowAway <==> message != "" && (now >= l.lastAwaySet + flood || l.grace))
            && r == match answer
                    case UnAway => Lock(l.lastAwaySet, l.grace, "")
                    case TryAgain => l
                    case NowAway => Lock(now, now >= l.lastAwaySet + flood, message)
  {
  }

  class Handler {
    const flood: nat
    var lastAwaySet: nat
    var lastAwaySetGrace: bool
    /** The user's away message; empty means present. */
    var away: string

    constructor (flood: nat)
      ensures this.flood == flood && State() == NEW_LOCK
    {
      this.flood := flood;
      lastAwaySet, lastAwaySetGrace, away := 0, true, "";
    }

    function State(): Lock
      reads this
    {
      Lock(lastAwaySet, lastAwaySetGrace, away)
    }

    method ParseAWAY(message: string, now: nat) returns (reply: Reply)
      modifies this
      ensures State() == Step(old(State()), flood, Away(message, now))
      ensures reply == Answer(old(State()), flood, Away(message, now))
    {
      if |message| != 0 {
        if lastAwaySet + flood > now {
          if !lastAwaySetGrace {
            return TryAgain;
          } else {
            lastAwaySetGrace := false;
          }
        } else {
          lastAwaySetGrace := true;
        }
        away := message;
        lastAwaySet := now;
        reply := NowAway;
      } else {
        away := message;
        reply := UnAway;
      }
    }
  }
}
