/** When two names are the same name (section 2.2 of RFC 2812), and what a nickname may look like,
    written out character by character. */
module NameEquivalence {
  import opened Text
  import opened Names
  import opened Alphabet
  import opened Directory

  const UPPER_NAMES := "ABCDEFGHIJKLMNOPQRSTUVWXYZ[]\\^"
  const LOWER_NAMES := "abcdefghijklmnopqrstuvwxyz{}|~"

  /** The two cases of letter `k`, in either order. */
  predicate Cases(a: char, b: char, k: nat)
    requires k < 30
  {
    (a == UPPER_NAMES[k] && b == LOWER_NAMES[k]) || (b == UPPER_NAMES[k] && a == LOWER_NAMES[k])
  }

  /** Equal, or upper and lower case of one letter. */
  predicate SameLetter(a: char, b: char) {
    a == b || exists k | 0 <= k < 30 :: Cases(a, b, k)
  }

  predicate SameName(a: string, b: string) {
    |a| == |b| && forall i | 0 <= i < |a| :: SameLetter(a[i], b[i])
  }

  lemma NameLetters(k: nat)
    requires k < 30
    ensures UPPER_NAMES[k] == if k < 26 then UPPER[k] else "[]\\^"[k - 26]
    ensures LOWER_NAMES[k] == if k < 26 then LOWER[k] else "{}|~"[k - 26]
  {
    assert UPPER_NAMES == UPPER + "[]\\^";
    assert LOWER_NAMES == LOWER + "{}|~";
  }

  lemma FoldPair(k: nat)
    requires k < 30
    ensures FoldChar(UPPER_NAMES[k]) == LOWER_NAMES[k] == FoldChar(LOWER_NAMES[k])
  {
    NameLetters(k);
    if k < 26 {
      LettersInOrder(k);
      CaseMapping(k, 'a');
    } else {
      assert "[]\\^"[k - 26] in "[]\\^" && "{}|~"[k - 26] in "{}|~";
    }
  }

  /** Folding changes nothing but the letters of the upper row. */
  lemma FoldElsewhere(c: char)
    ensures c !in UPPER_NAMES ==> FoldChar(c) == c
    ensures FoldChar(c) != c ==> exists k | 0 <= k < 30 :: c == UPPER_NAMES[k] && FoldChar(c) == LOWER_NAMES[k]
  {
    if c in UPPER_NAMES {
      var k :| 0 <= k < 30 && UPPER_NAMES[k] == c;
      FoldPair(k);
    } else {
      assert UPPER_NAMES == UPPER + "[]\\^";
      assert forall k | 0 <= k < 26 :: UPPER[k] == UPPER_NAMES[k];
      assert UPPER_NAMES[26] == '[' && UPPER_NAMES[27] == ']' && UPPER_NAMES[28] == '\\' && UPPER_NAMES[29] == '^';
      CaseMapping(0, c);
    }
  }

  lemma SameLetterExactly(a: char, b: char)
    ensures FoldChar(a) == FoldChar(b) <==> SameLetter(a, b)
  {
    FoldElsewhere(a);
    FoldElsewhere(b);
    if k :| 0 <= k < 30 && Cases(a, b, k) {
      FoldPair(k);
    }
    if FoldChar(a) == FoldChar(b) && FoldChar(a) != a {
      var i :| 0 <= i < 30 && a == UPPER_NAMES[i] && FoldChar(a) == LOWER_NAMES[i];
      if FoldChar(b) == b {
        assert Cases(a, b, i);
      } else {
        var j :| 0 <= j < 30 && b == UPPER_NAMES[j] && FoldChar(b) == LOWER_NAMES[j];
        LowerRowDistinct(i, j);
      }
    } else if FoldChar(a) == FoldChar(b) && FoldChar(b) != b {
      var j :| 0 <= j < 30 && b == UPPER_NAMES[j] && FoldChar(b) == LOWER_NAMES[j];
      assert Cases(a, b, j);
    }
  }

  lemma LowerRowDistinct(i: nat, j: nat)
    requires i < 30 && j < 30 && LOWER_NAMES[i] == LOWER_NAMES[j]
    ensures i == j
  {
    NameLetters(i);
    NameLetters(j);
    if i < 26 {
      LettersInOrder(i);
    } else {
      assert LOWER_NAMES[i] in "{}|~" && LOWER_NAMES[i] as int >= 123;
    }
    if j < 26 {
      LettersInOrder(j);
    } else {
      assert LOWER_NAMES[j] in "{}|~" && LOWER_NAMES[j] as int >= 123;
    }
  }

  /** Names fold alike exactly when they are the same name letter by letter. */
  lemma FoldsAgreeExactly(a: string, b: string)
    ensures Fold(a) == Fold(b) <==> SameName(a, b)
  {
    if |a| == |b| {
      forall i | 0 <= i < |a| ensures Fold(a)[i] == Fold(b)[i] <==> SameLetter(a[i], b[i]) {
        SameLetterExactly(a[i], b[i]);
      }
      if SameName(a, b) {
        assert Fold(a) == Fold(b);
      } else {
        var i :| 0 <= i < |a| && !SameLetter(a[i], b[i]);
        assert Fold(a)[i] != Fold(b)[i];
      }
    }
  }

  /** Same names find each other, and only they do; and a user cannot be added under one. */
  lemma SameNamesFindAndExclude<U, S>(d: Dir<U, S>, u: U, v: U, s: S, name: string, maxLength: nat)
    requires Agrees(d) && u in d.nick && v in d.nick && s in d.counts && Registered(d, u)
    ensures Find(d, name) == Some(u) <==> SameName(d.nick[u], name)
    ensures Registered(d, v) && SameName(d.nick[u], d.nick[v]) ==> u == v
    ensures SameName(d.nick[u], d.nick[v]) ==> AddUser(d, s, v, maxLength).0 == d
  {
    FoldsAgreeExactly(d.nick[u], name);
    FoldsAgreeExactly(d.nick[u], d.nick[v]);
    FindMeansRegistered(d, name, u, v);
    assert d.users[Key(d, u)] == u;
  }

  // ----- nicknames

  const NICK_CHARS :=
    "ABCDEFGHIJKLMNOPQRSTUVWXYZ" + "[\\]^_`" + "abcdefghijklmnopqrstuvwxyz" + "{|}" + "0123456789" + "-"

  /** Seven-bit characters of the list, and any whose eighth bit is set. */
  predicate NickLetter(c: char) {
    c in NICK_CHARS || (c as int / 0x80) % 2 == 1
  }

  lemma NickLetters(c: char)
    ensures IsNickChar(c) <==> NickLetter(c)
  {
    Classes(c);
    assert NICK_CHARS == UPPER + "[\\]^_`" + LOWER + "{|}" + DIGITS + "-";
    assert c in "[\\]^_`" <==> 0x5B <= c as int <= 0x60;
    assert c in "{|}" <==> 0x7B <= c as int <= 0x7D;
  }

  /** A nickname is valid exactly when it is not too long, is made of nickname characters and does
      not start with a digit or a hyphen; the first of these to fail names the error. */
  lemma NicknamesExactly(nick: string, maxLength: nat)
    ensures NickValidity(nick, maxLength) == NoError
            <==> && |nick| <= maxLength && (forall i | 0 <= i < |nick| :: NickLetter(nick[i]))
                 && (nick != "" ==> nick[0] !in "0123456789-")
    ensures NickValidity(nick, maxLength) == NameTooLong <==> |nick| > maxLength
    ensures NickValidity(nick, maxLength) == NickBeginsWithDigit
            <==> 0 < |nick| <= maxLength && nick[0] in "0123456789-"
  {
    forall i | 0 <= i < |nick| ensures IsNickChar(nick[i]) <==> NickLetter(nick[i]) {
      NickLetters(nick[i]);
    }
    if nick != "" {
      Classes(nick[0]);
      assert "0123456789-" == DIGITS + "-";
    }
  }
}
