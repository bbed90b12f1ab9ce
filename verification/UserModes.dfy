/** User mode strings: which letters a user may toggle and what toggling does, the requests a
    mode string makes, and the grouped string of changes that is sent back. A user's modes are
    the set of letters of the set flags; 's' stands for a non-empty server notice mask. */
module UserModes {
  import opened Text

  /** Letters of the mode table that a user may toggle and that are one plain flag each. */
  predicate Plain(c: char) {
    c == 'd' || c == 'g' || c == 'i' || c == 'R' || c == 'v' || c == 'w'
  }

  /** Local and global operator: one toggler clears both flags. */
  predicate Oper(c: char) {
    c == 'o' || c == 'O'
  }

  predicate Helper(modes: set<char>) {
    'h' in modes || 'o' in modes || 'O' in modes
  }

  datatype Request = Request(on: bool, letter: char)
  datatype Toggled = Toggled(modes: set<char>, reported: Option<char>)

  /** The togglers of the mode table. Every other letter is unknown or not the user's to change. */
  function Toggle(modes: set<char>, r: Request): Toggled {
    var c := r.letter;
    if Plain(c) then
      if r.on == (c in modes) then Toggled(modes, None)
      else Toggled(if r.on then modes + {c} else modes - {c}, Some(c))
    else if c == 'h' && !r.on && 'h' in modes then
      Toggled(modes - {'h'}, Some('h'))
    else if Oper(c) && !r.on && ('o' in modes || 'O' in modes) then
      Toggled(modes - {'o', 'O'}, Some(if 'O' in modes then 'O' else 'o'))
    else if c == 's' && !r.on then
      Toggled(modes - {'s'}, Some('s'))
    else if c == 's' && Helper(modes) then
      Toggled(modes + {'s'}, Some('s'))
    else
      Toggled(modes, None)
  }

  predicate IsSign(c: char) {
    c == '+' || c == '-'
  }

  /** What a mode string asks for: letters beyond the limit are not looked at, unknown letters
      use it up like any other. */
  function Requests(modes: string, limit: nat, toggle: bool, i: nat): seq<Request>
    decreases |modes| - i
  {
    if i >= |modes| || limit == 0 then []
    else if modes[i] == '+' then Requests(modes, limit, true, i + 1)
    else if modes[i] == '-' then Requests(modes, limit, false, i + 1)
    else [Request(toggle, modes[i])] + Requests(modes, limit - 1, toggle, i + 1)
  }

  lemma {:induction false} RequestsWithinLimit(modes: string, limit: nat, toggle: bool, i: nat)
    ensures |Requests(modes, limit, toggle, i)| <= limit
    decreases |modes| - i
  {
    if i < |modes| && limit > 0 {
      if IsSign(modes[i]) {
        RequestsWithinLimit(modes, limit, modes[i] == '+', i + 1);
      } else {
        RequestsWithinLimit(modes, limit - 1, toggle, i + 1);
      }
    }
  }

  /** The flags so far, the letters reported so far, and the parameters not yet used. */
  datatype Work = Work(modes: set<char>, on: string, off: string, paramsOn: string, tokens: seq<string>)

  function Start(modes: set<char>, tokens: seq<string>): Work {
    Work(modes, "", "", "", tokens)
  }

  predicate TakesParam(r: Request) {
    r.on && r.letter == 's'
  }

  function ParamOf(w: Work, r: Request): string {
    if TakesParam(r) && w.tokens != [] then w.tokens[0] else ""
  }

  function Act(w: Work, r: Request): Work {
    var t := Toggle(w.modes, r);
    var reported := if t.reported.Some? then [t.reported.value] else "";
    var param := ParamOf(w, r);
    Work(t.modes,
         if r.on then w.on + reported else w.on,
         if r.on then w.off else w.off + reported,
         if t.reported.Some? && param != "" then w.paramsOn + (" " + param) else w.paramsOn,
         if TakesParam(r) && w.tokens != [] then w.tokens[1..] else w.tokens)
  }

  function Perform(w: Work, rs: seq<Request>, k: nat): Work
    requires k <= |rs|
  {
    if k == 0 then w else Act(Perform(w, rs, k - 1), rs[k - 1])
  }

  function Word(on: string, off: string): string {
    (if on == "" then "" else "+" + on) + (if off == "" then "" else "-" + off)
  }

  /** All requests of a mode string, and their outcome. */
  function All(modes: string, limit: nat): seq<Request> {
    Requests(modes, limit, true, 0)
  }

  function Outcome(start: set<char>, tokens: seq<string>, modes: string, limit: nat): Work {
    Perform(Start(start, tokens), All(modes, limit), |All(modes, limit)|)
  }

  // ----- what the reported letters say about the flags -----

  predicate OnLetter(c: char) {
    Plain(c) || c == 's'
  }

  predicate OffLetter(c: char) {
    Plain(c) || c == 's' || c == 'h' || Oper(c)
  }

  /** The flags that reporting these letters as turned off clears. */
  predicate Clears(off: string, c: char) {
    c in off || (Oper(c) && ('o' in off || 'O' in off))
  }

  predicate ReportLetters(w: Work) {
    && (forall i :: 0 <= i < |w.on| ==> OnLetter(w.on[i]))
    && (forall i :: 0 <= i < |w.off| ==> OffLetter(w.off[i]))
  }

  ghost predicate FlagsShow(start: set<char>, w: Work) {
    forall c :: !Clears(w.off, c) ==> (c in w.modes <==> c in start || c in w.on)
  }

  /** Helper and operator flags only ever go, and `s` needs one of them. */
  ghost predicate PrivilegesGone(start: set<char>, w: Work) {
    && (Helper(w.modes) || 's' in w.on ==> Helper(start))
    && ('h' in w.off ==> 'h' !in w.modes)
    && ('o' in w.off || 'O' in w.off ==> 'o' !in w.modes && 'O' !in w.modes)
  }

  ghost predicate Reported(start: set<char>, w: Work) {
    ReportLetters(w) && FlagsShow(start, w) && PrivilegesGone(start, w)
  }

  lemma ReportLettersStep(w: Work, r: Request)
    requires ReportLetters(w)
    ensures ReportLetters(Act(w, r))
  {
  }

  lemma FlagsShowStep(start: set<char>, w: Work, r: Request)
    requires FlagsShow(start, w)
    ensures FlagsShow(start, Act(w, r))
  {
  }

  predicate SamePrivileges(a: set<char>, b: set<char>) {
    ('h' in a <==> 'h' in b) && ('o' in a <==> 'o' in b) && ('O' in a <==> 'O' in b)
  }

  lemma PlainKeepsPrivileges(modes: set<char>, r: Request)
    requires Plain(r.letter)
    ensures var t := Toggle(modes, r);
            SamePrivileges(modes, t.modes) && (t.reported.Some? ==> t.reported.value == r.letter)
  {
  }

  lemma NoticesKeepPrivileges(modes: set<char>, r: Request)
    requires r.letter == 's'
    ensures var t := Toggle(modes, r);
            && SamePrivileges(modes, t.modes)
            && (t.reported.Some? ==> t.reported.value == 's' && (r.on ==> Helper(modes)))
  {
  }

  /** Every other letter can only take privileges away, and is reported when it does. */
  lemma PrivilegesOnlyGo(modes: set<char>, r: Request)
    requires !Plain(r.letter) && r.letter != 's'
    ensures var t := Toggle(modes, r);
            && t.modes <= modes && (t.reported.Some? ==> !r.on)
            && (t.reported == Some('h') ==> 'h' !in t.modes)
            && (t.reported.Some? && t.reported.value != 'h' ==>
                  Oper(t.reported.value) && 'o' !in t.modes && 'O' !in t.modes)
  {
  }

  lemma PrivilegesGoneStep(start: set<char>, w: Work, r: Request)
    requires PrivilegesGone(start, w)
    ensures PrivilegesGone(start, Act(w, r))
  {
    if Plain(r.letter) {
      PlainKeepsPrivileges(w.modes, r);
    } else if r.letter == 's' {
      NoticesKeepPrivileges(w.modes, r);
    } else {
      PrivilegesOnlyGo(w.modes, r);
    }
  }

  lemma ReportedStep(start: set<char>, w: Work, r: Request)
    requires Reported(start, w)
    ensures Reported(start, Act(w, r))
  {
    ReportLettersStep(w, r);
    FlagsShowStep(start, w, r);
    PrivilegesGoneStep(start, w, r);
  }

  lemma NothingReported(start: set<char>, tokens: seq<string>)
    ensures Reported(start, Start(start, tokens))
  {
  }

  lemma {:induction false} ReportedHolds(start: set<char>, tokens: seq<string>, rs: seq<Request>, k: nat)
    requires k <= |rs|
    ensures Reported(start, Perform(Start(start, tokens), rs, k))
  {
    var w := Perform(Start(start, tokens), rs, k);
    if k > 0 {
      var before := Perform(Start(start, tokens), rs, k - 1);
      ReportedHolds(start, tokens, rs, k - 1);
      ReportedStep(start, before, rs[k - 1]);
      assert w == Act(before, rs[k - 1]);
    } else {
      NothingReported(start, tokens);
      assert w == Start(start, tokens);
    }
  }

  lemma {:induction false} ReportsAtMostOnePerRequest(w: Work, rs: seq<Request>, k: nat)
    requires k <= |rs|
    ensures |Perform(w, rs, k).on| + |Perform(w, rs, k).off| <= |w.on| + |w.off| + k
  {
    if k > 0 {
      ReportsAtMostOnePerRequest(w, rs, k - 1);
    }
  }

  /** Never more letters than the limit come back. */
  lemma ReportWithinLimit(start: set<char>, tokens: seq<string>, modes: string, limit: nat)
    ensures var w := Outcome(start, tokens, modes, limit); |w.on| + |w.off| <= limit
  {
    RequestsWithinLimit(modes, limit, true, 0);
    ReportsAtMostOnePerRequest(Start(start, tokens), All(modes, limit), |All(modes, limit)|);
  }

  // ----- reading the reported string back -----

  function Grouped(on: string, off: string): seq<Request> {
    seq(|on| + |off|, i requires 0 <= i < |on| + |off| =>
      if i < |on| then Request(true, on[i]) else Request(false, off[i - |on|]))
  }

  function Signed(letters: string, on: bool): seq<Request> {
    seq(|letters|, j requires 0 <= j < |letters| => Request(on, letters[j]))
  }

  /** A stretch of letters under one sign. */
  lemma {:induction false} LettersAreRequests(modes: string, limit: nat, toggle: bool, i: nat, e: nat)
    requires i <= e <= |modes| && e - i <= limit
    requires forall j :: i <= j < e ==> !IsSign(modes[j])
    ensures Requests(modes, limit, toggle, i)
         == Signed(modes[i..e], toggle) + Requests(modes, limit - (e - i), toggle, e)
    decreases e - i
  {
    if i < e {
      LettersAreRequests(modes, limit - 1, toggle, i + 1, e);
      assert modes[i..e] == [modes[i]] + modes[i + 1..e];
      assert Signed(modes[i..e], toggle) == [Request(toggle, modes[i])] + Signed(modes[i + 1..e], toggle);
      ConcatAssoc([Request(toggle, modes[i])], Signed(modes[i + 1..e], toggle),
                  Requests(modes, limit - (e - i), toggle, e));
    } else {
      assert Signed(modes[i..e], toggle) == [];
    }
  }

  predicate Letters(s: string) {
    forall i :: 0 <= i < |s| ==> !IsSign(s[i])
  }

  lemma SignedLetters(modes: string, limit: nat, toggle: bool, i: nat, letters: string, e: nat)
    requires letters != "" && Letters(letters) && |letters| <= limit
    requires e == i + 1 + |letters| <= |modes|
    requires modes[i] == (if toggle then '+' else '-') && modes[i + 1..e] == letters
    ensures forall was ::
              Requests(modes, limit, was, i)
              == Signed(letters, toggle) + Requests(modes, limit - |letters|, toggle, e)
  {
    assert forall j :: i + 1 <= j < e ==> modes[j] == modes[i + 1..e][j - i - 1];
    LettersAreRequests(modes, limit, toggle, i + 1, e);
  }

  /** Read back, the reported word asks for exactly the reported changes, grouped by sign. */
  lemma WordAsksForReport(on: string, off: string, limit: nat)
    requires Letters(on) && Letters(off) && |on| + |off| <= limit
    ensures All(Word(on, off), limit) == Grouped(on, off)
  {
    var word := Word(on, off);
    var onEnd := if on == "" then 0 else 1 + |on|;
    if off != "" {
      assert word[onEnd] == '-' && word[onEnd + 1..|word|] == off;
      SignedLetters(word, limit - |on|, false, onEnd, off, |word|);
    }
    if on != "" {
      assert word[1..onEnd] == on;
      SignedLetters(word, limit, true, 0, on, onEnd);
    }
    assert All(word, limit) == Grouped(on, off);
  }

  lemma TurningOn(modes: set<char>, letter: char, c: char)
    requires OnLetter(letter) && (letter == 's' ==> Helper(modes))
    ensures c in Toggle(modes, Request(true, letter)).modes <==> c in modes || c == letter
  {
  }

  /** One more letter of the first group, or of the second. */
  lemma GroupedStep(w: Work, on: string, off: string, k: nat)
    requires 0 < k <= |on| + |off|
    ensures Perform(w, Grouped(on, off), k).modes
         == Toggle(Perform(w, Grouped(on, off), k - 1).modes,
                   if k <= |on| then Request(true, on[k - 1]) else Request(false, off[k - 1 - |on|])).modes
  {
  }

  lemma PrefixSnoc(s: string, k: nat, c: char)
    requires 0 < k <= |s|
    ensures s[..k] == s[..k - 1] + [s[k - 1]]
    ensures c in s[..k] <==> c in s[..k - 1] || c == s[k - 1]
  {
  }

  /** Turning on everything in one group. */
  lemma {:induction false} GroupOnEffect(start: set<char>, tokens: seq<string>, on: string, off: string, k: nat)
    requires k <= |on|
    requires forall i :: 0 <= i < |on| ==> OnLetter(on[i])
    requires 's' in on ==> Helper(start)
    ensures var modes := Perform(Start(start, tokens), Grouped(on, off), k).modes;
            forall c :: c in modes <==> c in start || c in on[..k]
  {
    if k > 0 {
      var before := Perform(Start(start, tokens), Grouped(on, off), k - 1).modes;
      var after := Perform(Start(start, tokens), Grouped(on, off), k).modes;
      GroupOnEffect(start, tokens, on, off, k - 1);
      GroupedStep(Start(start, tokens), on, off, k);
      forall c ensures c in after <==> c in start || c in on[..k] {
        TurningOn(before, on[k - 1], c);
        PrefixSnoc(on, k, c);
      }
    }
  }

  lemma TurningOff(modes: set<char>, letter: char, c: char)
    requires OffLetter(letter)
    ensures c in Toggle(modes, Request(false, letter)).modes <==> c in modes && !Clears([letter], c)
  {
  }

  lemma ClearsSnoc(off: string, letter: char, c: char)
    ensures Clears(off + [letter], c) <==> Clears(off, c) || Clears([letter], c)
  {
  }

  /** Then turning off everything in the other. */
  lemma {:induction false} GroupOffEffect(start: set<char>, tokens: seq<string>, on: string, off: string, k: nat)
    requires k <= |off|
    requires forall i :: 0 <= i < |on| ==> OnLetter(on[i])
    requires forall i :: 0 <= i < |off| ==> OffLetter(off[i])
    requires 's' in on ==> Helper(start)
    ensures var modes := Perform(Start(start, tokens), Grouped(on, off), |on| + k).modes;
            forall c :: c in modes <==> (c in start || c in on) && !Clears(off[..k], c)
  {
    if k > 0 {
      GroupOffEffect(start, tokens, on, off, k - 1);
      var before := Perform(Start(start, tokens), Grouped(on, off), |on| + k - 1).modes;
      var after := Perform(Start(start, tokens), Grouped(on, off), |on| + k).modes;
      GroupedStep(Start(start, tokens), on, off, |on| + k);
      forall c ensures c in after <==> (c in start || c in on) && !Clears(off[..k], c) {
        PrefixSnoc(off, k, c);
        TurningOff(before, off[k - 1], c);
        ClearsSnoc(off[..k - 1], off[k - 1], c);
      }
    } else {
      GroupOnEffect(start, tokens, on, off, |on|);
      assert on[..|on|] == on;
    }
  }

  lemma ReplayEffect(start: set<char>, tokens: seq<string>, on: string, off: string, limit: nat)
    requires |on| + |off| <= limit
    requires forall i :: 0 <= i < |on| ==> OnLetter(on[i])
    requires forall i :: 0 <= i < |off| ==> OffLetter(off[i])
    requires 's' in on ==> Helper(start)
    ensures forall c :: c in Outcome(start, tokens, Word(on, off), limit).modes
                        <==> (c in start || c in on) && !Clears(off, c)
  {
    WordAsksForReport(on, off, limit);
    GroupOffEffect(start, tokens, on, off, |off|);
    assert off[..|off|] == off;
  }

  /** A letter was reported as turned off, and the flag is set all the same. */
  ghost predicate Misreported(w: Work) {
    exists c :: c in w.off && c in w.modes
  }

  /** Applying the returned string to the original modes leads to the same final modes exactly
      when no letter that was turned off at some point is on at the end. */
  lemma ReplayAgreesExactly(start: set<char>, tokens: seq<string>, again: seq<string>, modes: string, limit: nat)
    ensures var w := Outcome(start, tokens, modes, limit);
            Outcome(start, again, Word(w.on, w.off), limit).modes == w.modes <==> !Misreported(w)
  {
    var w := Outcome(start, tokens, modes, limit);
    ReportedHolds(start, tokens, All(modes, limit), |All(modes, limit)|);
    ReportWithinLimit(start, tokens, modes, limit);
    ReplayEffect(start, again, w.on, w.off, limit);
    var replay := Outcome(start, again, Word(w.on, w.off), limit).modes;
    if Misreported(w) {
      var c :| c in w.off && c in w.modes;
      assert c !in replay;
    } else {
      assert forall c :: c in replay <==> c in w.modes;
    }
  }

  // ----- the same condition on the string itself -----

  ghost predicate Asked(rs: seq<Request>, k: nat, r: Request)
    requires k <= |rs|
  {
    exists i :: 0 <= i < k && rs[i] == r
  }

  /** Whether helper privileges are left after the first k requests: they can only be given up. */
  ghost predicate StillHelper(start: set<char>, rs: seq<Request>, k: nat)
    requires k <= |rs|
  {
    || ('h' in start && !Asked(rs, k, Request(false, 'h')))
    || (('o' in start || 'O' in start)
        && !Asked(rs, k, Request(false, 'o')) && !Asked(rs, k, Request(false, 'O')))
  }

  lemma AskedStep(rs: seq<Request>, k: nat, r: Request)
    requires 0 < k <= |rs|
    ensures Asked(rs, k, r) <==> Asked(rs, k - 1, r) || rs[k - 1] == r
  {
  }

  ghost predicate PrivilegesShow(start: set<char>, rs: seq<Request>, k: nat, modes: set<char>)
    requires k <= |rs|
  {
    && ('h' in modes <==> 'h' in start && !Asked(rs, k, Request(false, 'h')))
    && ('o' in modes || 'O' in modes <==>
         && ('o' in start || 'O' in start)
         && !Asked(rs, k, Request(false, 'o')) && !Asked(rs, k, Request(false, 'O')))
  }

  lemma {:induction false} PrivilegesOnlyShrink(start: set<char>, tokens: seq<string>, rs: seq<Request>, k: nat)
    requires k <= |rs|
    ensures PrivilegesShow(start, rs, k, Perform(Start(start, tokens), rs, k).modes)
    ensures Helper(Perform(Start(start, tokens), rs, k).modes) <==> StillHelper(start, rs, k)
  {
    if k > 0 {
      PrivilegesOnlyShrink(start, tokens, rs, k - 1);
      AskedStep(rs, k, Request(false, 'h'));
      AskedStep(rs, k, Request(false, 'o'));
      AskedStep(rs, k, Request(false, 'O'));
    }
  }

  /** Request i, if it turns c on, does so. */
  ghost predicate SetsAt(start: set<char>, rs: seq<Request>, c: char, i: nat)
    requires i < |rs|
  {
    rs[i] == Request(true, c) && (c == 's' ==> StillHelper(start, rs, i))
  }

  /** Request i turns c off when c may have been on. */
  ghost predicate ClearsAt(start: set<char>, rs: seq<Request>, c: char, i: nat)
    requires i < |rs|
  {
    rs[i] == Request(false, c) && (c == 's' || c in start || Asked(rs, i, Request(true, c)))
  }

  ghost predicate LastSet(start: set<char>, rs: seq<Request>, c: char, k: nat)
    requires k <= |rs|
  {
    exists j :: 0 <= j < k && SetsAt(start, rs, c, j) && forall m :: j < m < k ==> rs[m] != Request(false, c)
  }

  ghost predicate EverCleared(start: set<char>, rs: seq<Request>, c: char, k: nat)
    requires k <= |rs|
  {
    exists i :: 0 <= i < k && ClearsAt(start, rs, c, i)
  }

  lemma LastSetStep(start: set<char>, rs: seq<Request>, c: char, k: nat)
    requires 0 < k <= |rs|
    ensures LastSet(start, rs, c, k)
        <==> SetsAt(start, rs, c, k - 1) || (LastSet(start, rs, c, k - 1) && rs[k - 1] != Request(false, c))
  {
    if LastSet(start, rs, c, k - 1) && rs[k - 1] != Request(false, c) {
      var j :| 0 <= j < k - 1 && SetsAt(start, rs, c, j) && forall m :: j < m < k - 1 ==> rs[m] != Request(false, c);
      assert forall m :: j < m < k ==> rs[m] != Request(false, c);
    }
    if LastSet(start, rs, c, k) {
      var j :| 0 <= j < k && SetsAt(start, rs, c, j) && forall m :: j < m < k ==> rs[m] != Request(false, c);
      assert j < k - 1 ==> rs[k - 1] != Request(false, c);
    }
  }

  lemma EverClearedStep(start: set<char>, rs: seq<Request>, c: char, k: nat)
    requires 0 < k <= |rs|
    ensures EverCleared(start, rs, c, k) <==> EverCleared(start, rs, c, k - 1) || ClearsAt(start, rs, c, k - 1)
  {
  }

  /** What one letter's history says about the flag and about the report. */
  predicate Shows(w: Work, c: char, initially: bool, lastSet: bool, askedOn: bool, askedOff: bool, cleared: bool) {
    && (c in w.modes <==> lastSet || (initially && !askedOff))
    && (c in w.off <==> cleared)
    && (c != 's' && (initially || askedOn) ==> c in w.modes || c in w.off)
  }

  lemma ShowsStep(w: Work, r: Request, c: char, initially: bool, lastSet: bool,
                  askedOn: bool, askedOff: bool, cleared: bool)
    requires OnLetter(c) && Shows(w, c, initially, lastSet, askedOn, askedOff, cleared)
    requires lastSet ==> askedOn
    ensures Shows(Act(w, r), c, initially,
                  (r == Request(true, c) && (c == 's' ==> Helper(w.modes))) || (lastSet && r != Request(false, c)),
                  askedOn || r == Request(true, c),
                  askedOff || r == Request(false, c),
                  cleared || (r == Request(false, c) && (c == 's' || initially || askedOn)))
  {
  }

  ghost predicate LetterShows(start: set<char>, rs: seq<Request>, c: char, k: nat, w: Work)
    requires k <= |rs|
  {
    Shows(w, c, c in start, LastSet(start, rs, c, k), Asked(rs, k, Request(true, c)),
          Asked(rs, k, Request(false, c)), EverCleared(start, rs, c, k))
  }

  lemma {:induction false} LetterShowsHolds(start: set<char>, tokens: seq<string>, rs: seq<Request>, c: char, k: nat)
    requires k <= |rs| && OnLetter(c)
    ensures LetterShows(start, rs, c, k, Perform(Start(start, tokens), rs, k))
  {
    if k > 0 {
      LetterShowsHolds(start, tokens, rs, c, k - 1);
      var w := Perform(Start(start, tokens), rs, k - 1);
      PrivilegesOnlyShrink(start, tokens, rs, k - 1);
      ShowsStep(w, rs[k - 1], c, c in start, LastSet(start, rs, c, k - 1), Asked(rs, k - 1, Request(true, c)),
                Asked(rs, k - 1, Request(false, c)), EverCleared(start, rs, c, k - 1));
      AskedStep(rs, k, Request(true, c));
      AskedStep(rs, k, Request(false, c));
      LastSetStep(start, rs, c, k);
      EverClearedStep(start, rs, c, k);
    }
  }

  /** A letter that is turned off while it may be on, and whose last effective request is on. */
  ghost predicate Restored(start: set<char>, rs: seq<Request>, c: char) {
    OnLetter(c) && EverCleared(start, rs, c, |rs|) && LastSet(start, rs, c, |rs|)
  }

  /** Whether the returned string misreports can be read off the requested string. */
  lemma MisreportedExactly(start: set<char>, tokens: seq<string>, modes: string, limit: nat)
    ensures Misreported(Outcome(start, tokens, modes, limit))
        <==> exists c :: Restored(start, All(modes, limit), c)
  {
    var rs := All(modes, limit);
    var w := Outcome(start, tokens, modes, limit);
    ReportedHolds(start, tokens, rs, |rs|);
    if Misreported(w) {
      var c :| c in w.off && c in w.modes;
      assert Clears(w.off, c);
      LetterShowsHolds(start, tokens, rs, c, |rs|);
      assert Restored(start, rs, c);
    }
    if c :| Restored(start, rs, c) {
      LetterShowsHolds(start, tokens, rs, c, |rs|);
    }
  }

  /** The caller's condition: the returned string reproduces the change exactly when the
      requested string turns no letter back on. */
  lemma ReplayAgreesIffNothingRestored(start: set<char>, tokens: seq<string>, again: seq<string>,
                                       modes: string, limit: nat)
    ensures var w := Outcome(start, tokens, modes, limit);
            Outcome(start, again, Word(w.on, w.off), limit).modes == w.modes
            <==> forall c :: !Restored(start, All(modes, limit), c)
  {
    ReplayAgreesExactly(start, tokens, again, modes, limit);
    MisreportedExactly(start, tokens, modes, limit);
  }

  lemma OnOffOn()
    ensures All("+i-i+i", 3) == [Request(true, 'i'), Request(false, 'i'), Request(true, 'i')]
  {
    SignedLetters("+i-i+i", 3, true, 0, "i", 2);
    SignedLetters("+i-i+i", 2, false, 2, "i", 4);
    SignedLetters("+i-i+i", 1, true, 4, "i", 6);
  }

  /** A string for which it does not: the flag ends up on, and the report turns it off. */
  lemma RestoredFlagIsLost(again: seq<string>)
    ensures var w := Outcome({}, [], "+i-i+i", 3);
            w.modes == {'i'} && w.on == "ii" && w.off == "i"
    ensures Outcome({}, again, Word("ii", "i"), 3).modes == {}
  {
    var rs := All("+i-i+i", 3);
    OnOffOn();
    var w := Start({}, []);
    var w1, w2 := Work({'i'}, "i", "", "", []), Work({}, "i", "i", "", []);
    assert Act(w, rs[0]) == w1;
    assert Act(w1, rs[1]) == w2;
    assert Act(w2, rs[2]) == Work({'i'}, "ii", "i", "", []);
    assert Perform(w, rs, 1) == w1;
    assert Perform(w, rs, 2) == w2;
    assert Perform(w, rs, 3) == Act(w2, rs[2]);
    ReplayEffect({}, again, "ii", "i", 3);
  }

  /** In particular, no letter under both signs is enough. */
  lemma OneSignPerLetterIsEnough(start: set<char>, tokens: seq<string>, again: seq<string>,
                                 modes: string, limit: nat)
    requires forall r :: r in All(modes, limit) ==> Request(!r.on, r.letter) !in All(modes, limit)
    ensures var w := Outcome(start, tokens, modes, limit);
            Outcome(start, again, Word(w.on, w.off), limit).modes == w.modes
  {
    ReplayAgreesIffNothingRestored(start, tokens, again, modes, limit);
    var rs := All(modes, limit);
    if c :| Restored(start, rs, c) {
      var i :| 0 <= i < |rs| && ClearsAt(start, rs, c, i);
      assert rs[i] in rs;
    }
  }

  /** The user object and the handler's mode command. */
  class User {
    var modes: set<char>

    constructor (initial: set<char>)
      ensures modes == initial
    {
      modes := initial;
    }

    /** The togglers of the plain flags. */
    method TogglePlain(setting: bool, letter: char) returns (changed: bool)
      modifies this
      ensures modes == if setting then old(modes) + {letter} else old(modes) - {letter}
      ensures changed <==> modes != old(modes)
    {
      if setting && letter !in modes {
        modes := modes + {letter};
        return true;
      } else if !setting && letter in modes {
        modes := modes - {letter};
        assert letter in old(modes);
        return true;
      }
      return false;
    }

    /** Users cannot make themselves helpers. */
    method ToggleHELPER(setting: bool) returns (changed: bool)
      modifies this
      ensures modes == if setting then old(modes) else old(modes) - {'h'}
      ensures changed <==> modes != old(modes)
    {
      if setting {
        return false;
      }
      if 'h' !in modes {
        return false;
      }
      modes := modes - {'h'};
      assert 'h' in old(modes);
      return true;
    }

    /** Nor operators; both flags go at once, and the letter becomes that of the status lost. */
    method ToggleOPER(setting: bool, letter: char) returns (changed: bool, shown: char)
      modifies this
      ensures modes == if setting then old(modes) else old(modes) - {'o', 'O'}
      ensures changed <==> modes != old(modes)
      ensures changed ==> shown in old(modes) && (shown == 'O' || (shown == 'o' && 'O' !in old(modes)))
    {
      if setting {
        return false, letter;
      }
      if 'O' !in modes && 'o' !in modes {
        return false, letter;
      }
      shown := if 'O' in modes then 'O' else 'o';
      modes := modes - {'O', 'o'};
      assert shown in old(modes);
      return true, shown;
    }

    /** Server notices: privileged users only, and turning them off is always reported. */
    method ToggleSERVNOTICES(setting: bool) returns (reported: bool)
      modifies this
      ensures modes == if !setting then old(modes) - {'s'}
                       else if Helper(old(modes)) then old(modes) + {'s'} else old(modes)
      ensures reported <==> !setting || Helper(old(modes))
    {
      if setting {
        if 'h' in modes || 'O' in modes || 'o' in modes {
          modes := modes + {'s'};
          return true;
        } else {
          return false;
        }
      }
      modes := modes - {'s'};
      return true;
    }

    /** The toggler of the letter's row in the mode table, if the user may toggle it. */
    method ToggleMode(r: Request) returns (reported: Option<char>)
      modifies this
      ensures Toggled(modes, reported) == Toggle(old(modes), r)
    {
      var changed, shown := false, r.letter;
      if Plain(r.letter) {
        changed := TogglePlain(r.on, r.letter);
      } else if r.letter == 'h' {
        changed := ToggleHELPER(r.on);
      } else if Oper(r.letter) {
        changed, shown := ToggleOPER(r.on, r.letter);
      } else if r.letter == 's' {
        changed := ToggleSERVNOTICES(r.on);
      }
      reported := if changed then Some(shown) else None;
    }
  }

  /** A toggler changes its own flags only, as asked; what it reports off is off; and except for
      server notices it reports exactly the changes. */
  lemma TogglersReportChanges(modes: set<char>, r: Request)
    ensures var t := Toggle(modes, r);
            && (forall c :: c in t.modes && c !in modes ==> r == Request(true, c) && OnLetter(c))
            && (forall c :: c in modes && c !in t.modes ==>
                  !r.on && (c == r.letter || (Oper(c) && Oper(r.letter))))
            && (t.reported.Some? ==> if r.on then t.reported.value in t.modes else t.reported.value !in t.modes)
            && (r.letter != 's' ==> (t.reported.Some? <==> t.modes != modes))
  {
    var t := Toggle(modes, r);
    if t.reported.Some? && r.letter != 's' {
      assert t.reported.value in modes <==> !r.on;
    }
  }

  /** The requests left to serve, before and after serving the one at position i. */
  lemma NextRequest(all: seq<Request>, n: nat, modes: string, limit: nat, toggle: bool, i: nat)
    requires n <= |all| && i < |modes| && limit > 0 && !IsSign(modes[i])
    requires all[n..] == Requests(modes, limit, toggle, i)
    ensures n < |all| && all[n] == Request(toggle, modes[i])
    ensures all[n + 1..] == Requests(modes, limit - 1, toggle, i + 1)
  {
    assert all[n] == all[n..][0];
    assert all[n + 1..] == all[n..][1..];
  }

  /** One letter: take its parameter, toggle, and add what is reported to the strings grown so far. */
  method ServeLetter(user: User, r: Request, on: string, off: string, paramsOn: string, tokens: seq<string>)
    returns (newOn: string, newOff: string, newParams: string, left: seq<string>)
    modifies user
    ensures Work(user.modes, newOn, newOff, newParams, left)
            == Act(Work(old(user.modes), on, off, paramsOn, tokens), r)
  {
    newOn, newOff, newParams, left := on, off, paramsOn, tokens;
    var param := "";
    if TakesParam(r) && tokens != [] {
      param, left := tokens[0], tokens[1..];
    }
    var reported := user.ToggleMode(r);
    if reported.Some? {
      if r.on {
        newOn := on + [reported.value];
        if param != "" {
          newParams := paramsOn + (" " + param);
        }
      } else {
        newOff := off + [reported.value];
      }
    }
  }

  method ProcessUserModes(user: User, modes: string, params: seq<string>, limit: nat) returns (modeString: string)
    modifies user
    ensures user.modes == Outcome(old(user.modes), params, modes, limit).modes
    ensures modeString == var w := Outcome(old(user.modes), params, modes, limit); Word(w.on, w.off) + w.paramsOn
  {
    var toggle, numModes := true, 0;
    var toggleOnStr, toggleOffStr, toggleParamsOn, tokens := "", "", "", params;
    ghost var all := All(modes, limit);
    ghost var start := Start(user.modes, params);
    var i := 0;
    while i < |modes| && numModes < limit
      invariant i <= |modes| && numModes <= limit && numModes <= |all|
      invariant all[numModes..] == Requests(modes, limit - numModes, toggle, i)
      invariant Perform(start, all, numModes) == Work(user.modes, toggleOnStr, toggleOffStr, toggleParamsOn, tokens)
    {
      if modes[i] == '+' {
        toggle := true;
      } else if modes[i] == '-' {
        toggle := false;
      } else {
        NextRequest(all, numModes, modes, limit - numModes, toggle, i);
        numModes := numModes + 1;
        toggleOnStr, toggleOffStr, toggleParamsOn, tokens :=
          ServeLetter(user, Request(toggle, modes[i]), toggleOnStr, toggleOffStr, toggleParamsOn, tokens);
      }
      i := i + 1;
    }
    assert numModes == |all|;
    modeString := "";
    if toggleOnStr != "" {
      modeString := "+" + toggleOnStr;
    }
    if toggleOffStr != "" {
      modeString := modeString + ("-" + toggleOffStr);
    }
    modeString := modeString + toggleParamsOn;
  }
}
