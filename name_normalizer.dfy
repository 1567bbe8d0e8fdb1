/**
 * The two name normalisations of the service. Opening a session compares
 * `ComparisonKey(name)` (letters only, lower case) with `StoredNameKey` of
 * each aggregate's stored name (SQL `lower(replace(name, ' ', ''))`).
 * Creating an aggregate stores `CleanedName(name)` (every run of digits
 * deleted, everything else kept).
 */
module NameNormalizer {
  import opened Ascii

  /** `''.join(filter(str.isalpha, s))`. */
  function KeepLetters(s: string): (r: string)
    ensures |r| <= |s|
    ensures forall i :: 0 <= i < |r| ==> IsLetter(r[i])
  {
    if s == [] then []
    else (if IsLetter(s[0]) then [s[0]] else []) + KeepLetters(s[1..])
  }

  /** `s.replace(" ", "")`, and SQL `replace(s, ' ', '')`. */
  function RemoveSpaces(s: string): (r: string)
    ensures |r| <= |s|
    ensures forall i :: 0 <= i < |r| ==> r[i] != ' ' && r[i] in s
  {
    if s == [] then []
    else (if s[0] == ' ' then [] else [s[0]]) + RemoveSpaces(s[1..])
  }

  /** `s.lower()`, and SQL `lower(s)`: the same length, each character lowered in place. */
  function Lower(s: string): (r: string)
    ensures |r| == |s|
    ensures forall i :: 0 <= i < |s| ==> r[i] == ToLower(s[i])
  {
    if s == [] then [] else [ToLower(s[0])] + Lower(s[1..])
  }

  /** The key an incoming detection name is compared with (`cleaned_name_for_comparison`). */
  function ComparisonKey(name: string): (key: string)
    ensures |key| <= |name|
    ensures forall i :: 0 <= i < |key| ==> IsLower(key[i])
  {
    Lower(RemoveSpaces(KeepLetters(name)))
  }

  /** What the open query compares the key with: `lower(replace(name, ' ', ''))`. */
  function StoredNameKey(name: string): (key: string)
    ensures forall i :: 0 <= i < |key| ==> key[i] != ' ' && !IsUpper(key[i])
  {
    Lower(RemoveSpaces(name))
  }

  /** Policy A's first step works on a concatenation part by part, keeping order. */
  lemma {:induction false} KeepLettersAppend(a: string, b: string)
    ensures KeepLetters(a + b) == KeepLetters(a) + KeepLetters(b)
  {
    if a != [] {
      var ab := a + b;
      assert ab[0] == a[0] && ab[1..] == a[1..] + b;
      KeepLettersAppend(a[1..], b);
      assert KeepLetters(ab) == (if IsLetter(a[0]) then [a[0]] else []) + KeepLetters(a[1..] + b);
    } else {
      assert a + b == b;
    }
  }

  /** A letter stays as it is; any other character goes. */
  lemma KeepLettersSingleton(c: char)
    ensures KeepLetters([c]) == if IsLetter(c) then [c] else []
  {
    assert [c][1..] == [];
  }

  /** Removing spaces works on a concatenation part by part, keeping order. */
  lemma {:induction false} RemoveSpacesAppend(a: string, b: string)
    ensures RemoveSpaces(a + b) == RemoveSpaces(a) + RemoveSpaces(b)
  {
    if a != [] {
      var ab := a + b;
      assert ab[0] == a[0] && ab[1..] == a[1..] + b;
      RemoveSpacesAppend(a[1..], b);
      assert RemoveSpaces(ab) == (if a[0] == ' ' then [] else [a[0]]) + RemoveSpaces(a[1..] + b);
    } else {
      assert a + b == b;
    }
  }

  /** A space goes; any other character stays as it is. */
  lemma RemoveSpacesSingleton(c: char)
    ensures RemoveSpaces([c]) == if c == ' ' then [] else [c]
  {
    assert [c][1..] == [];
  }

  lemma LowerAppend(a: string, b: string)
    ensures Lower(a + b) == Lower(a) + Lower(b)
  {
    var l, r := Lower(a + b), Lower(a) + Lower(b);
    assert forall i :: 0 <= i < |l| ==> l[i] == r[i] by {
      forall i | 0 <= i < |l| ensures l[i] == r[i] {
        if i < |a| {
          assert (a + b)[i] == a[i];
        } else {
          assert (a + b)[i] == b[i - |a|];
        }
      }
    }
  }

  /**
   * The comparison key is the name's letters, lowered, in their order: the
   * key of a concatenation is the keys of its parts (with
   * `ComparisonKeySingleton`, this fixes the key of every name).
   */
  lemma ComparisonKeyAppend(a: string, b: string)
    ensures ComparisonKey(a + b) == ComparisonKey(a) + ComparisonKey(b)
  {
    KeepLettersAppend(a, b);
    RemoveSpacesAppend(KeepLetters(a), KeepLetters(b));
    LowerAppend(RemoveSpaces(KeepLetters(a)), RemoveSpaces(KeepLetters(b)));
  }

  /** A letter contributes its lower-case form to the key; any other character contributes nothing. */
  lemma ComparisonKeySingleton(c: char)
    ensures ComparisonKey([c]) == if IsLetter(c) then [ToLower(c)] else []
  {
    KeepLettersSingleton(c);
    RemoveSpacesSingleton(c);
  }

  /**
   * The stored-name key is the name's characters other than spaces, lowered,
   * in their order: the key of a concatenation is the keys of its parts.
   */
  lemma StoredNameKeyAppend(a: string, b: string)
    ensures StoredNameKey(a + b) == StoredNameKey(a) + StoredNameKey(b)
  {
    RemoveSpacesAppend(a, b);
    LowerAppend(RemoveSpaces(a), RemoveSpaces(b));
  }

  /** A space contributes nothing to the stored-name key; any other character its lower-case form. */
  lemma StoredNameKeySingleton(c: char)
    ensures StoredNameKey([c]) == if c == ' ' then [] else [ToLower(c)]
  {
    RemoveSpacesSingleton(c);
  }

  /**
   * The rest of `s` once its leading run of digits is gone: what one match of
   * the pattern `\d+` consumes.
   */
  function DropDigitRun(s: string): (r: string)
    ensures |r| <= |s| && r == s[|s| - |r|..]
    ensures AllDigits(s[..|s| - |r|])
    ensures r == [] || !IsDigit(r[0])
    ensures s != [] && IsDigit(s[0]) ==> |r| < |s|
  {
    if s != [] && IsDigit(s[0]) then DropDigitRun(s[1..]) else s
  }

  /** `re.sub(r'\d+', '', name)`: each maximal run of digits is deleted. */
  function CleanedName(name: string): (r: string)
    ensures |r| <= |name|
    decreases |name|
  {
    if name == [] then []
    else if IsDigit(name[0]) then CleanedName(DropDigitRun(name))
    else [name[0]] + CleanedName(name[1..])
  }

  /** Reference definition: the characters of `s` that are not digits, one at a time. */
  function WithoutDigits(s: string): (r: string)
    ensures |r| <= |s|
    ensures forall i :: 0 <= i < |r| ==> !IsDigit(r[i]) && r[i] in s
  {
    if s == [] then []
    else (if IsDigit(s[0]) then [] else [s[0]]) + WithoutDigits(s[1..])
  }

  lemma {:induction false} WithoutDigitsAppend(a: string, b: string)
    ensures WithoutDigits(a + b) == WithoutDigits(a) + WithoutDigits(b)
  {
    if a != [] {
      var ab := a + b;
      assert ab[0] == a[0] && ab[1..] == a[1..] + b;
      WithoutDigitsAppend(a[1..], b);
      assert WithoutDigits(ab) == (if IsDigit(a[0]) then [] else [a[0]]) + WithoutDigits(a[1..] + b);
    } else {
      assert a + b == b;
    }
  }

  lemma {:induction false} WithoutDigitsOfDigits(s: string)
    requires AllDigits(s)
    ensures WithoutDigits(s) == []
  {
    if s != [] {
      WithoutDigitsOfDigits(s[1..]);
    }
  }

  /** Deleting whole runs of digits is the same as deleting every digit. */
  lemma {:induction false} CleanedNameIsWithoutDigits(name: string)
    ensures CleanedName(name) == WithoutDigits(name)
    decreases |name|
  {
    if name != [] {
      if IsDigit(name[0]) {
        var r := DropDigitRun(name);
        var k := |name| - |r|;
        assert name == name[..k] + r;
        WithoutDigitsAppend(name[..k], r);
        WithoutDigitsOfDigits(name[..k]);
        CleanedNameIsWithoutDigits(r);
      } else {
        CleanedNameIsWithoutDigits(name[1..]);
      }
    }
  }

  /** The cleaned name holds no digit. */
  lemma CleanedNameHasNoDigits(name: string)
    ensures forall i :: 0 <= i < |CleanedName(name)| ==> !IsDigit(CleanedName(name)[i])
  {
    CleanedNameIsWithoutDigits(name);
  }

  /** Cleaning a concatenation cleans each part, keeping order. */
  lemma CleanedNameAppend(a: string, b: string)
    ensures CleanedName(a + b) == CleanedName(a) + CleanedName(b)
  {
    CleanedNameIsWithoutDigits(a + b);
    CleanedNameIsWithoutDigits(a);
    CleanedNameIsWithoutDigits(b);
    WithoutDigitsAppend(a, b);
  }

  /** A digit disappears; any other character stays as it is (letters, case, spaces, punctuation). */
  lemma CleanedNameSingleton(c: char)
    ensures CleanedName([c]) == if IsDigit(c) then [] else [c]
  {
    CleanedNameIsWithoutDigits([c]);
  }

  lemma {:induction false} WithoutDigitsOfDigitFree(s: string)
    requires forall i :: 0 <= i < |s| ==> !IsDigit(s[i])
    ensures WithoutDigits(s) == s
  {
    if s != [] {
      WithoutDigitsOfDigitFree(s[1..]);
    }
  }

  /** A name without digits is already clean, so cleaning twice is cleaning once. */
  lemma CleanedNameIdempotent(name: string)
    ensures CleanedName(CleanedName(name)) == CleanedName(name)
  {
    CleanedNameIsWithoutDigits(name);
    CleanedNameIsWithoutDigits(CleanedName(name));
    WithoutDigitsOfDigitFree(CleanedName(name));
  }

  lemma {:induction false} KeepLettersOfLetters(s: string)
    requires forall i :: 0 <= i < |s| ==> IsLetter(s[i])
    ensures KeepLetters(s) == s
  {
    if s != [] {
      KeepLettersOfLetters(s[1..]);
    }
  }

  lemma {:induction false} RemoveSpacesOfSpaceFree(s: string)
    requires forall i :: 0 <= i < |s| ==> s[i] != ' '
    ensures RemoveSpaces(s) == s
  {
    if s != [] {
      RemoveSpacesOfSpaceFree(s[1..]);
    }
  }

  lemma LowerOfLower(s: string)
    requires forall i :: 0 <= i < |s| ==> IsLower(s[i])
    ensures Lower(s) == s
  {
  }

  /** A comparison key is its own comparison key. */
  lemma ComparisonKeyIdempotent(name: string)
    ensures ComparisonKey(ComparisonKey(name)) == ComparisonKey(name)
  {
    var key := ComparisonKey(name);
    KeepLettersOfLetters(key);
    RemoveSpacesOfSpaceFree(key);
    LowerOfLower(key);
  }

  lemma {:induction false} KeepLettersIgnoresDigits(s: string)
    ensures KeepLetters(WithoutDigits(s)) == KeepLetters(s)
  {
    if s != [] {
      KeepLettersIgnoresDigits(s[1..]);
      var rest := WithoutDigits(s[1..]);
      if IsDigit(s[0]) {
        assert WithoutDigits(s) == rest;
      } else {
        var w := [s[0]] + rest;
        assert WithoutDigits(s) == w;
        assert w[0] == s[0] && w[1..] == rest;
        assert KeepLetters(w) == (if IsLetter(s[0]) then [s[0]] else []) + KeepLetters(rest);
      }
    }
  }

  /** The digits cleaning deletes never reach the comparison key anyway. */
  lemma ComparisonKeyOfCleanedName(name: string)
    ensures ComparisonKey(CleanedName(name)) == ComparisonKey(name)
  {
    CleanedNameIsWithoutDigits(name);
    KeepLettersIgnoresDigits(name);
  }

  lemma {:induction false} KeepLettersOfLettersAndSpaces(s: string)
    requires forall i :: 0 <= i < |s| ==> IsLetter(s[i]) || s[i] == ' '
    ensures KeepLetters(s) == RemoveSpaces(s)
  {
    if s != [] {
      KeepLettersOfLettersAndSpaces(s[1..]);
    }
  }

  lemma {:induction false} WithoutDigitsKeeps(s: string, i: nat)
    requires i < |s| && !IsDigit(s[i])
    ensures s[i] in WithoutDigits(s)
  {
    if i > 0 {
      WithoutDigitsKeeps(s[1..], i - 1);
    }
  }

  lemma {:induction false} RemoveSpacesKeeps(s: string, i: nat)
    requires i < |s| && s[i] != ' '
    ensures s[i] in RemoveSpaces(s)
  {
    if i > 0 {
      RemoveSpacesKeeps(s[1..], i - 1);
    }
  }

  /**
   * For an aggregate created from a raw name, its stored-name key equals the
   * comparison key of an open with the same raw name exactly when that name
   * holds nothing but letters, spaces and digits: any other character
   * survives cleaning into the stored name but never into the comparison
   * key. (The open then takes the first matching aggregate of the day,
   * which need not be this one.)
   */
  lemma CreatedNameMatchesIff(name: string)
    ensures StoredNameKey(CleanedName(name)) == ComparisonKey(name)
        <==> forall i :: 0 <= i < |name| ==> IsLetter(name[i]) || name[i] == ' ' || IsDigit(name[i])
  {
    var cleaned := CleanedName(name);
    CleanedNameIsWithoutDigits(name);
    ComparisonKeyOfCleanedName(name);
    if forall i :: 0 <= i < |name| ==> IsLetter(name[i]) || name[i] == ' ' || IsDigit(name[i]) {
      forall i | 0 <= i < |cleaned| ensures IsLetter(cleaned[i]) || cleaned[i] == ' ' {
        assert cleaned[i] in name;
      }
      KeepLettersOfLettersAndSpaces(cleaned);
      var letters := KeepLetters(cleaned);
      RemoveSpacesOfSpaceFree(letters);
    } else {
      var i :| 0 <= i < |name| && !(IsLetter(name[i]) || name[i] == ' ' || IsDigit(name[i]));
      var c := name[i];
      WithoutDigitsKeeps(name, i);
      var j :| 0 <= j < |cleaned| && cleaned[j] == c;
      RemoveSpacesKeeps(cleaned, j);
      var spaceless := RemoveSpaces(cleaned);
      var k :| 0 <= k < |spaceless| && spaceless[k] == c;
      var stored := StoredNameKey(cleaned);
      assert stored[k] == c && !IsLower(c);
      assert !IsLower(stored[k]);
    }
  }
}
