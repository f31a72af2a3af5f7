/** Character classes of the C locale, the hand-written case-insensitive
    comparison of names, and the whitespace trimming and validation a typed
    name goes through before it reaches the registry. */
module Text {

  /** The terminator of a C string; a Dafny string ends where C would read it. */
  const Nul: char := 0 as char

  /** `isspace` in the C locale. */
  predicate IsSpace(c: char) {
    c == ' ' || c == '\t' || c == '\n' || c == '\r' || c == 0x0B as char || c == 0x0C as char
  }

  /** `isalpha` in the C locale. */
  predicate IsAlpha(c: char) {
    'A' <= c <= 'Z' || 'a' <= c <= 'z'
  }

  /** `tolower` in the C locale: only the 26 upper-case ASCII letters move. */
  function Lower(c: char): (l: char)
    ensures 'A' <= c <= 'Z' ==> 'a' <= l <= 'z' && l as int - c as int == 32
    ensures !('A' <= c <= 'Z') ==> l == c
    ensures l == Nul <==> c == Nul
  {
    if 'A' <= c <= 'Z' then (c as int + 32) as char else c
  }

  /** The character C reads first: the terminator once the text is exhausted. */
  function Head(s: string): char {
    if |s| > 0 then s[0] else Nul
  }

  /** The program's own `strcasecmp`: walks both strings while neither has
      ended and the lower-cased characters agree, then returns the difference
      of the lower-cased characters where it stopped. */
  function CaseCmp(s1: string, s2: string): int
    decreases |s1|
  {
    var c1 := Head(s1);
    var c2 := Head(s2);
    if c1 != Nul && c2 != Nul && Lower(c1) == Lower(c2) then
      CaseCmp(s1[1..], s2[1..])
    else
      Lower(c1) as int - Lower(c2) as int
  }

  /** Same length and the same characters up to ASCII case. */
  predicate EqualIgnoreCase(a: string, b: string) {
    |a| == |b| && forall i :: 0 <= i < |a| ==> Lower(a[i]) == Lower(b[i])
  }

  /** A text C can hold as a string: no embedded terminator. */
  predicate NoNul(s: string) {
    forall i :: 0 <= i < |s| ==> s[i] != Nul
  }

  /** For C strings, the comparison reports "equal" exactly when the two
      names agree up to ASCII case. */
  lemma {:induction false} CaseCmpZeroIff(a: string, b: string)
    requires NoNul(a) && NoNul(b)
    ensures CaseCmp(a, b) == 0 <==> EqualIgnoreCase(a, b)
    decreases |a|
  {
    if |a| > 0 && |b| > 0 && Lower(a[0]) == Lower(b[0]) {
      assert a[0] != Nul && b[0] != Nul;
      assert NoNul(a[1..]) && NoNul(b[1..]) by {
        forall i | 0 <= i < |a| - 1 ensures a[1..][i] != Nul { assert a[1..][i] == a[i + 1]; }
        forall i | 0 <= i < |b| - 1 ensures b[1..][i] != Nul { assert b[1..][i] == b[i + 1]; }
      }
      CaseCmpZeroIff(a[1..], b[1..]);
      if EqualIgnoreCase(a[1..], b[1..]) {
        forall i | 0 <= i < |a| ensures Lower(a[i]) == Lower(b[i]) {
          if i > 0 { assert a[i] == a[1..][i - 1] && b[i] == b[1..][i - 1]; }
        }
      }
      if EqualIgnoreCase(a, b) {
        forall i | 0 <= i < |a| - 1 ensures Lower(a[1..][i]) == Lower(b[1..][i]) {
          assert a[1..][i] == a[i + 1] && b[1..][i] == b[i + 1];
        }
      }
    } else if |a| > 0 && |b| > 0 {
      assert a[0] != Nul && b[0] != Nul;
      assert !EqualIgnoreCase(a, b);
    } else if |a| > 0 {
      assert a[0] != Nul;
    } else if |b| > 0 {
      assert b[0] != Nul;
    }
  }

  /** Swapping the arguments negates the result. */
  lemma {:induction false} CaseCmpAntisymmetric(a: string, b: string)
    ensures CaseCmp(a, b) == -CaseCmp(b, a)
    decreases |a|
  {
    if Head(a) != Nul && Head(b) != Nul && Lower(Head(a)) == Lower(Head(b)) {
      CaseCmpAntisymmetric(a[1..], b[1..]);
    }
  }

  /** Where the input routine's forward scan (`start`) stops: the first
      position at or after `i` that is not whitespace, or the end. */
  function SkipSpaces(s: string, i: nat): (k: nat)
    requires i <= |s|
    ensures i <= k <= |s|
    ensures forall j :: i <= j < k ==> IsSpace(s[j])
    ensures k == |s| || !IsSpace(s[k])
    decreases |s| - i
  {
    if i < |s| && IsSpace(s[i]) then SkipSpaces(s, i + 1) else i
  }

  /** One past where the backward scan (`end`) stops: walking back from
      `hi` over whitespace, never below `lo`. */
  function BackSpaces(s: string, lo: nat, hi: nat): (e: nat)
    requires lo <= hi <= |s|
    ensures lo <= e <= hi
    ensures forall j :: e <= j < hi ==> IsSpace(s[j])
    ensures e == lo || !IsSpace(s[e - 1])
    decreases hi - lo
  {
    if lo < hi && IsSpace(s[hi - 1]) then BackSpaces(s, lo, hi - 1) else hi
  }

  /** `t` is the slice of `s` starting at `k`, and everything of `s` outside
      that slice is whitespace. */
  predicate CutFrom(s: string, t: string, k: int) {
    && 0 <= k <= |s| - |t|
    && t == s[k..k + |t|]
    && (forall i :: 0 <= i < k ==> IsSpace(s[i]))
    && (forall i :: k + |t| <= i < |s| ==> IsSpace(s[i]))
  }

  /** Leading and trailing whitespace removed, as the input routine does in
      place before any check. The result is a slice of the input whose ends
      are not whitespace, and only whitespace was cut away. (The routine
      stops its backward walk one short of `start`; the character there is
      not whitespace, so the result is the same.) */
  function Trim(s: string): (t: string)
    ensures exists k :: CutFrom(s, t, k)
    ensures |t| == 0 || (!IsSpace(t[0]) && !IsSpace(t[|t| - 1]))
  {
    var k := SkipSpaces(s, 0);
    var e := BackSpaces(s, k, |s|);
    assert CutFrom(s, s[k..e], k);
    s[k..e]
  }

  /** A text that neither starts nor ends with whitespace is its own trim. */
  lemma TrimFixed(t: string)
    requires |t| == 0 || (!IsSpace(t[0]) && !IsSpace(t[|t| - 1]))
    ensures Trim(t) == t
  {
    assert SkipSpaces(t, 0) == 0;
    assert BackSpaces(t, 0, |t|) == |t|;
    assert t[0..|t|] == t;
  }

  /** A character a name may contain: a letter, a space, a hyphen or a period. */
  predicate IsNameChar(c: char) {
    IsAlpha(c) || c == ' ' || c == '-' || c == '.'
  }

  predicate HasLetter(s: string) {
    exists i :: 0 <= i < |s| && IsAlpha(s[i])
  }

  /** The verdict on a typed name; each refusal is the first check the
      trimmed text fails, in the order the input routine checks. */
  datatype NameVerdict =
    | NameOk(name: string)
    | EmptyName
    | BadCharacter
    | NoLetter
    | TooShort
    | TooLong

  const MinNameLength: nat := 2
  const MaxNameLength: nat := 48

  /** The name check of the input routine in its letters-and-spaces mode:
      trim, then reject an empty text, a character outside letters, space,
      hyphen and period, a text without a letter, fewer than 2 or more
      than 48 characters. */
  function CheckName(line: string): (v: NameVerdict)
    ensures v.NameOk? <==>
      var t := Trim(line);
      && MinNameLength <= |t| <= MaxNameLength
      && (forall i :: 0 <= i < |t| ==> IsNameChar(t[i]))
      && HasLetter(t)
    ensures v.NameOk? ==> v.name == Trim(line)
    ensures v == EmptyName <==> |Trim(line)| == 0
    ensures v == BadCharacter <==>
      var t := Trim(line);
      |t| > 0 && exists i :: 0 <= i < |t| && !IsNameChar(t[i])
    ensures v == NoLetter <==>
      var t := Trim(line);
      && |t| > 0
      && (forall i :: 0 <= i < |t| ==> IsNameChar(t[i]))
      && !HasLetter(t)
    ensures v == TooShort <==>
      var t := Trim(line);
      && (forall i :: 0 <= i < |t| ==> IsNameChar(t[i]))
      && HasLetter(t)
      && |t| < MinNameLength
    ensures v == TooLong <==>
      var t := Trim(line);
      && (forall i :: 0 <= i < |t| ==> IsNameChar(t[i]))
      && HasLetter(t)
      && |t| > MaxNameLength
  {
    var t := Trim(line);
    if |t| == 0 then EmptyName
    else if exists i :: 0 <= i < |t| && !IsNameChar(t[i]) then BadCharacter
    else if !HasLetter(t) then NoLetter
    else if |t| < MinNameLength then TooShort
    else if |t| > MaxNameLength then TooLong
    else NameOk(t)
  }

  /** An accepted name passes the check again unchanged: cleaning is idempotent. */
  lemma {:induction false} CheckNameIdempotent(line: string)
    requires CheckName(line).NameOk?
    ensures CheckName(CheckName(line).name) == CheckName(line)
  {
    var t := CheckName(line).name;
    TrimFixed(t);
  }

  /** An accepted name is a C string: it has no embedded terminator. */
  lemma AcceptedNameHasNoNul(line: string)
    requires CheckName(line).NameOk?
    ensures NoNul(CheckName(line).name)
  {
  }
}
