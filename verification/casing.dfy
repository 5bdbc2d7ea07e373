/**
 Python's case-mapping string methods (`str.lower`, `str.capitalize`,
 `str.title`) on ASCII text. Letters outside ASCII are treated as caseless.
 */
module Casing {

  predicate IsUpper(c: char) { 'A' <= c <= 'Z' }

  predicate IsLower(c: char) { 'a' <= c <= 'z' }

  /** A cased character in Python's sense: one that has an upper and a lower form. */
  predicate IsCased(c: char) { IsUpper(c) || IsLower(c) }

  function ToLower(c: char): char
  {
    if IsUpper(c) then (c as int + 32) as char else c
  }

  function ToUpper(c: char): char
  {
    if IsLower(c) then (c as int - 32) as char else c
  }

  /** The facts about single-character case mapping that the string lemmas rely on. */
  lemma CharCase(c: char, d: char)
    ensures !IsUpper(ToLower(c)) && !IsLower(ToUpper(c))
    ensures IsCased(ToLower(c)) == IsCased(c) && IsCased(ToUpper(c)) == IsCased(c)
    ensures ToLower(ToUpper(c)) == ToLower(c) && ToLower(ToLower(c)) == ToLower(c)
    ensures ToLower(c) == ToLower(d) ==> ToUpper(c) == ToUpper(d) && IsCased(c) == IsCased(d)
    ensures ToLower(c) == ToLower(d) && !IsUpper(c) && !IsUpper(d) ==> c == d
    ensures ToLower(c) == ToLower(d) && !IsLower(c) && !IsLower(d) ==> c == d
  {
  }

  /** `str.lower` */
  function Lower(s: string): string
  {
    seq(|s|, i requires 0 <= i < |s| => ToLower(s[i]))
  }

  /** Every letter of `s` is lower case. */
  predicate IsLowered(s: string)
  {
    forall i :: 0 <= i < |s| ==> !IsUpper(s[i])
  }

  /** Capitalised in Python's sense: the first character is not lower case, the rest are not upper case. */
  predicate IsCapitalized(s: string)
  {
    && (|s| == 0 || !IsLower(s[0]))
    && forall i :: 1 <= i < |s| ==> !IsUpper(s[i])
  }

  /** Whether the character before position `i` of `s` is a letter. */
  predicate AfterLetter(s: string, i: int)
    requires 0 <= i <= |s|
  {
    i > 0 && IsCased(s[i - 1])
  }

  /** Position `i` of `s` is title-cased: a letter there is upper case exactly when no letter precedes it. */
  predicate TitledAt(s: string, i: int)
    requires 0 <= i < |s|
  {
    IsCased(s[i]) ==> (IsUpper(s[i]) <==> !AfterLetter(s, i))
  }

  /** Title-cased in Python's sense, at every position. */
  predicate IsTitled(s: string)
  {
    forall i :: 0 <= i < |s| ==> TitledAt(s, i)
  }

  /** `str.capitalize`: the first character upper-cased, all others lower-cased. */
  function Capitalize(s: string): (r: string)
    ensures Lower(r) == Lower(s)
    ensures IsCapitalized(r)
  {
    if |s| == 0 then s
    else
      var r := [ToUpper(s[0])] + Lower(s[1..]);
      assert forall i :: 0 <= i < |s| ==> Lower(r)[i] == Lower(s)[i] by {
        forall i | 0 <= i < |s| {
          CharCase(s[i], s[i]);
        }
      }
      CharCase(s[0], s[0]);
      r
  }

  /** `str.title`: each letter is upper-cased after a non-letter and lower-cased after a letter. */
  function Title(s: string): (r: string)
    ensures Lower(r) == Lower(s)
    ensures IsTitled(r)
  {
    var r := seq(|s|, i requires 0 <= i < |s| =>
      if AfterLetter(s, i) then ToLower(s[i]) else ToUpper(s[i]));
    forall i | 0 <= i < |s|
      ensures Lower(r)[i] == Lower(s)[i] && IsCased(r[i]) == IsCased(s[i])
    {
      CharCase(s[i], s[i]);
    }
    assert forall i :: 0 <= i < |s| ==> AfterLetter(r, i) == AfterLetter(s, i);
    r
  }

  /** Two strings that agree up to case and are both title-cased are equal. */
  lemma {:induction false} TitledUnique(a: string, b: string)
    requires Lower(a) == Lower(b)
    requires IsTitled(a) && IsTitled(b)
    ensures a == b
  {
    assert |a| == |Lower(a)| == |b|;
    forall i | 0 <= i < |a|
      ensures a[i] == b[i]
    {
      assert Lower(a)[i] == Lower(b)[i];
      CharCase(a[i], b[i]);
      if i > 0 {
        assert Lower(a)[i - 1] == Lower(b)[i - 1];
        CharCase(a[i - 1], b[i - 1]);
      }
      assert TitledAt(a, i) && TitledAt(b, i);
    }
  }

  /** Two strings that agree up to case and are both capitalised are equal. */
  lemma {:induction false} CapitalizedUnique(a: string, b: string)
    requires Lower(a) == Lower(b)
    requires IsCapitalized(a) && IsCapitalized(b)
    ensures a == b
  {
    assert |a| == |Lower(a)| == |b|;
    forall i | 0 <= i < |a|
      ensures a[i] == b[i]
    {
      assert Lower(a)[i] == Lower(b)[i];
      CharCase(a[i], b[i]);
    }
  }

  /** `title` identifies exactly the strings that differ only in letter case. */
  lemma TitleSameKey(a: string, b: string)
    ensures Title(a) == Title(b) <==> Lower(a) == Lower(b)
  {
    if Lower(a) == Lower(b) {
      TitledUnique(Title(a), Title(b));
    }
  }

  /** `title` is idempotent. */
  lemma TitleIdempotent(s: string)
    ensures Title(Title(s)) == Title(s)
  {
    TitledUnique(Title(Title(s)), Title(s));
  }

  /** `capitalize` identifies exactly the strings that differ only in letter case. */
  lemma CapitalizeSameKey(a: string, b: string)
    ensures Capitalize(a) == Capitalize(b) <==> Lower(a) == Lower(b)
  {
    if Lower(a) == Lower(b) {
      CapitalizedUnique(Capitalize(a), Capitalize(b));
    }
  }

  /** `capitalize` is idempotent. */
  lemma CapitalizeIdempotent(s: string)
    ensures Capitalize(Capitalize(s)) == Capitalize(s)
  {
    CapitalizedUnique(Capitalize(Capitalize(s)), Capitalize(s));
  }

  /** Lower-casing distributes over concatenation. */
  lemma LowerAppend(a: string, b: string)
    ensures Lower(a + b) == Lower(a) + Lower(b)
  {
    assert forall i :: 0 <= i < |a + b| ==> Lower(a + b)[i] == (Lower(a) + Lower(b))[i];
  }

  /** A lower-cased string is lower case, and lower-casing it again changes nothing. */
  lemma LowerIsLowered(s: string)
    ensures IsLowered(Lower(s))
    ensures Lower(Lower(s)) == Lower(s)
  {
    forall i | 0 <= i < |s| {
      CharCase(s[i], s[i]);
    }
  }
}
