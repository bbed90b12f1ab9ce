/** Mode strings letter by letter: which sign each letter stands under, what each letter can do, and
    which parameters `+s` uses up. */
module UserModeLetters {
  import opened Text
  import opened UserModes

  // ----- what is asked for

  /** The letters, signs not counted, from `a` up to `b`. */
  function LettersIn(modes: string, a: nat, b: nat): nat
    requires a <= b <= |modes|
    decreases b - a
  {
    if a == b then 0 else (if modes[a] in "+-" then 0 else 1) + LettersIn(modes, a + 1, b)
  }

  /** The last sign between `a` and `i` is a minus. */
  predicate UnderMinus(modes: string, a: nat, i: nat)
    requires a <= i <= |modes|
  {
    exists j | a <= j < i :: modes[j] == '-' && forall m | j < m < i :: modes[m] !in "+-"
  }

  /** There is no sign at all between `a` and `i`. */
  predicate NoSign(modes: string, a: nat, i: nat)
    requires a <= i <= |modes|
  {
    forall m | a <= m < i :: modes[m] !in "+-"
  }

  lemma SignsAre(c: char)
    ensures IsSign(c) <==> c in "+-"
  {
  }

  lemma MinusStep(modes: string, a: nat, i: nat)
    requires a < i <= |modes|
    ensures UnderMinus(modes, a, i) <==> UnderMinus(modes, a + 1, i) || (modes[a] == '-' && NoSign(modes, a + 1, i))
    ensures NoSign(modes, a, i) <==> modes[a] !in "+-" && NoSign(modes, a + 1, i)
  {
    if UnderMinus(modes, a + 1, i) {
      var j :| a + 1 <= j < i && modes[j] == '-' && forall m | j < m < i :: modes[m] !in "+-";
      assert a <= j < i;
    }
    if modes[a] == '-' && NoSign(modes, a + 1, i) {
      assert forall m | a < m < i :: modes[m] !in "+-";
    }
  }

  /** The sign in force at `i` for a scan that starts at `a` under `toggle`. */
  predicate InForce(modes: string, toggle: bool, a: nat, i: nat)
    requires a <= i <= |modes|
  {
    if NoSign(modes, a, i) then toggle else !UnderMinus(modes, a, i)
  }

  lemma InForceStep(modes: string, toggle: bool, a: nat, i: nat)
    requires a < i <= |modes|
    ensures var next := if modes[a] == '+' then true else if modes[a] == '-' then false else toggle;
            InForce(modes, toggle, a, i) == InForce(modes, next, a + 1, i)
  {
    MinusStep(modes, a, i);
    if NoSign(modes, a + 1, i) {
      assert !UnderMinus(modes, a + 1, i);
    }
  }

  lemma {:induction false} RequestAt(modes: string, limit: nat, toggle: bool, a: nat, i: nat)
    requires a <= i < |modes| && modes[i] !in "+-" && LettersIn(modes, a, i) < limit
    ensures var rs, n := Requests(modes, limit, toggle, a), LettersIn(modes, a, i);
            n < |rs| && rs[n] == Request(InForce(modes, toggle, a, i), modes[i])
    decreases i - a
  {
    SignsAre(modes[a]);
    if a < i {
      InForceStep(modes, toggle, a, i);
      if modes[a] == '+' {
        RequestAt(modes, limit, true, a + 1, i);
      } else if modes[a] == '-' {
        RequestAt(modes, limit, false, a + 1, i);
      } else {
        RequestAt(modes, limit - 1, toggle, a + 1, i);
      }
    }
  }

  lemma {:induction false} RequestCount(modes: string, limit: nat, toggle: bool, a: nat)
    requires a <= |modes|
    ensures var all := LettersIn(modes, a, |modes|);
            |Requests(modes, limit, toggle, a)| == if all < limit then all else limit
    decreases |modes| - a
  {
    if a < |modes| && limit > 0 {
      SignsAre(modes[a]);
      if modes[a] == '+' {
        RequestCount(modes, limit, true, a + 1);
      } else if modes[a] == '-' {
        RequestCount(modes, limit, false, a + 1);
      } else {
        RequestCount(modes, limit - 1, toggle, a + 1);
      }
    }
  }

  /** Each letter asks for what the nearest sign before it says, plus if there is none; the first
      `limit` letters are looked at, signs not counted. */
  lemma RequestsExactly(modes: string, limit: nat, i: nat)
    requires i < |modes| && modes[i] !in "+-"
    ensures var n, all := LettersIn(modes, 0, i), LettersIn(modes, 0, |modes|);
            && |All(modes, limit)| == (if all < limit then all else limit)
            && (n < limit ==>
                  n < |All(modes, limit)| && All(modes, limit)[n] == Request(!UnderMinus(modes, 0, i), modes[i]))
  {
    RequestCount(modes, limit, true, 0);
    if LettersIn(modes, 0, i) < limit {
      RequestAt(modes, limit, true, 0, i);
    }
  }

  // ----- what a letter can do

  const FREE := "dgiRvw"

  predicate Privileged(modes: set<char>) {
    'h' in modes || 'o' in modes || 'O' in modes
  }

  /** Six letters may be turned on and off; helper and operator status may only be given up, operator
      status both kinds at once; server notices take a privilege to turn on; nothing else changes. */
  lemma LettersExactly(modes: set<char>, c: char)
    ensures var on, off := Toggle(modes, Request(true, c)), Toggle(modes, Request(false, c));
            && on.modes == (if c in FREE || (c == 's' && Privileged(modes)) then modes + {c} else modes)
            && off.modes == (if c in FREE || c == 's' || c == 'h' then modes - {c}
                             else if c == 'o' || c == 'O' then modes - {'o', 'O'} else modes)
            && on.reported == (if (c in FREE && c !in modes) || (c == 's' && Privileged(modes)) then Some(c) else None)
            && off.reported == (if (c in FREE && c in modes) || c == 's' || (c == 'h' && 'h' in modes) then Some(c)
                                else if (c == 'o' || c == 'O') && 'O' in modes then Some('O')
                                else if (c == 'o' || c == 'O') && 'o' in modes then Some('o')
                                else None)
  {
    assert c in FREE <==> Plain(c) by {
      assert FREE == ['d', 'g', 'i', 'R', 'v', 'w'];
    }
  }

  // ----- parameters

  /** How many of the first `k` requests are `+s`. */
  function Notices(rs: seq<Request>, k: nat): nat
    requires k <= |rs|
  {
    if k == 0 then 0 else Notices(rs, k - 1) + if rs[k - 1] == Request(true, 's') then 1 else 0
  }

  /** Every `+s` uses up one parameter, served or not, for as long as there are any. */
  lemma {:induction false} TokensExactly(start: set<char>, tokens: seq<string>, rs: seq<Request>, k: nat)
    requires k <= |rs|
    ensures var n := Notices(rs, k);
            Perform(Start(start, tokens), rs, k).tokens == if n < |tokens| then tokens[n..] else []
  {
    if k > 0 {
      TokensExactly(start, tokens, rs, k - 1);
      var n := Notices(rs, k - 1);
      if n < |tokens| {
        assert tokens[n..][1..] == tokens[n + 1..];
      }
    } else {
      assert tokens[0..] == tokens;
    }
  }

  /** The parameter of a `+s` is sent back behind the letters if the user may set it; an empty one is not. */
  lemma NoticesParameter(start: set<char>, tokens: seq<string>, limit: nat)
    requires limit > 0
    ensures var w := Outcome(start, tokens, "s", limit);
            Word(w.on, w.off) + w.paramsOn
            == if !Privileged(start) then ""
               else if tokens == [] || tokens[0] == "" then "+s"
               else "+s " + tokens[0]
  {
    assert All("s", limit) == [Request(true, 's')] + Requests("s", limit - 1, true, 1) == [Request(true, 's')];
    var w := Outcome(start, tokens, "s", limit);
    assert w == Act(Perform(Start(start, tokens), All("s", limit), 0), Request(true, 's'));
    assert w == Act(Start(start, tokens), Request(true, 's'));
    if Privileged(start) && tokens != [] && tokens[0] != "" {
      assert "+s" + (" " + tokens[0]) == "+s " + tokens[0];
    }
  }
}
