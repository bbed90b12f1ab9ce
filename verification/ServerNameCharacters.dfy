/** Server host names character by character: which strings the scan accepts. */
module ServerNameCharacters {
  import opened Names
  import opened ServerName
  import opened Alphabet

  /** Position `k` starts a label. */
  predicate Starts(name: string, k: nat)
    requires k < |name|
  {
    k == 0 || name[k - 1] == '.'
  }

  /** A dot follows a letter or digit, a label starts with a letter, and goes on with letters, digits
      and hyphens. */
  predicate CharacterFits(name: string, k: nat)
    requires k < |name|
  {
    if name[k] == '.' then k > 0 && name[k - 1] !in ".-"
    else if Starts(name, k) then name[k] in UPPER || name[k] in LOWER
    else name[k] in UPPER || name[k] in LOWER || name[k] in DIGITS || name[k] == '-'
  }

  /** The 64 characters up to `k` hold no dot. */
  predicate TooLongAt(name: string, k: nat)
    requires k < |name|
  {
    k >= 63 && forall j | k - 63 <= j <= k :: name[j] != '.'
  }

  /** `length` characters of the current label are behind `i`. */
  predicate InLabel(name: string, i: nat, length: nat) {
    && length <= i <= |name|
    && (forall j | i - length <= j < i :: name[j] != '.')
    && (i == length || name[i - length - 1] == '.')
  }

  lemma LengthShows(name: string, i: nat, length: nat)
    requires InLabel(name, i, length) && i < |name|
    ensures Starts(name, i) <==> length == 0
    ensures TooLongAt(name, i) <==> length >= 63 && name[i] != '.'
  {
    if length > 0 {
      assert name[i - 1] != '.';
    }
    if length < 63 && i >= 63 {
      assert i - 63 <= i - length - 1 && name[i - length - 1] == '.';
    }
  }

  lemma NextInLabel(name: string, i: nat, length: nat)
    requires InLabel(name, i, length) && i < |name|
    ensures InLabel(name, i + 1, if name[i] == '.' then 0 else length + 1)
  {
  }

  predicate FitsFrom(name: string, i: nat) {
    forall k | i <= k < |name| :: CharacterFits(name, k) && !TooLongAt(name, k)
  }

  predicate DotFrom(name: string, i: nat) {
    exists k | i <= k < |name| :: name[k] == '.'
  }

  lemma FitsStep(name: string, i: nat)
    requires i < |name|
    ensures FitsFrom(name, i) <==> CharacterFits(name, i) && !TooLongAt(name, i) && FitsFrom(name, i + 1)
    ensures DotFrom(name, i) <==> name[i] == '.' || DotFrom(name, i + 1)
  {
  }

  lemma {:induction false} ScanReadsCharacters(name: string, i: nat, dots: nat, length: nat)
    requires InLabel(name, i, length)
    ensures Scan(name, i, dots, length) == NoError <==> (dots > 0 || DotFrom(name, i)) && FitsFrom(name, i)
    decreases |name| - i
  {
    if i < |name| {
      FitsStep(name, i);
      LengthShows(name, i, length);
      NextInLabel(name, i, length);
      Classes(name[i]);
      if name[i] == '.' {
        ScanReadsCharacters(name, i + 1, dots + 1, 0);
      } else {
        ScanReadsCharacters(name, i + 1, dots, length + 1);
      }
    }
  }

  /** A server name is accepted exactly when it has at most 255 characters, at least one of them a dot,
      every character fits where it stands and no 64 in a row are without a dot. */
  lemma ServerNamesExactly(name: string)
    ensures (if |name| > 255 then NameTooLong else Scan(name, 0, 0, 0)) == NoError
            <==> && |name| <= 255 && '.' in name
                 && forall k | 0 <= k < |name| :: CharacterFits(name, k) && !TooLongAt(name, k)
  {
    if |name| <= 255 {
      ScanReadsCharacters(name, 0, 0, 0);
    }
  }

  // ----- which error

  /** What is wrong at a position: a label of 64, a dot after a dot or at the start, or a character out of place. */
  function FaultAt(name: string, k: nat): NameError
    requires k < |name|
  {
    if TooLongAt(name, k) then NameTooLong
    else if name[k] == '.' && Starts(name, k) then ServerNameHasDotDot
    else NameHasBadChars
  }

  predicate FirstFault(name: string, i: nat, k: nat) {
    && i <= k < |name| && (!CharacterFits(name, k) || TooLongAt(name, k))
    && forall j | i <= j < k :: CharacterFits(name, j) && !TooLongAt(name, j)
  }

  lemma {:induction false} ScanStopsAtFirstFault(name: string, i: nat, dots: nat, length: nat, k: nat)
    requires InLabel(name, i, length) && FirstFault(name, i, k)
    ensures Scan(name, i, dots, length) == FaultAt(name, k)
    decreases k - i
  {
    LengthShows(name, i, length);
    NextInLabel(name, i, length);
    Classes(name[i]);
    if i < k {
      assert CharacterFits(name, i) && !TooLongAt(name, i);
      if name[i] == '.' {
        ScanStopsAtFirstFault(name, i + 1, dots + 1, 0, k);
      } else {
        ScanStopsAtFirstFault(name, i + 1, dots, length + 1, k);
      }
    }
  }

  lemma {:induction false} ScanMissesTheDot(name: string, i: nat, length: nat)
    requires InLabel(name, i, length) && FitsFrom(name, i) && !DotFrom(name, i)
    ensures Scan(name, i, 0, length) == ServerNameHasNoDot
    decreases |name| - i
  {
    if i < |name| {
      FitsStep(name, i);
      LengthShows(name, i, length);
      NextInLabel(name, i, length);
      Classes(name[i]);
      ScanMissesTheDot(name, i + 1, length + 1);
    }
  }

  /** The first character out of place decides the error; a name with none is only refused for having no dot. */
  lemma ServerErrorsExactly(name: string, k: nat)
    ensures FirstFault(name, 0, k) ==> Scan(name, 0, 0, 0) == FaultAt(name, k)
    ensures FitsFrom(name, 0) && '.' !in name ==> Scan(name, 0, 0, 0) == ServerNameHasNoDot
  {
    if FirstFault(name, 0, k) {
      ScanStopsAtFirstFault(name, 0, 0, 0, k);
    }
    if FitsFrom(name, 0) && '.' !in name {
      ScanMissesTheDot(name, 0, 0);
    }
  }
}
