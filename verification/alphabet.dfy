/** The fixed alphabet of the cipher: the 33 uppercase Russian letters in
    alphabetical order (`numAlpha`), the letter-to-position lookup
    (`alphaNum`), and the case mapping that stands in for the locale's
    `towupper` on Russian letters.

    Code points: А..Е are U+0410..U+0415, Ё is U+0401, Ж..Я are
    U+0416..U+042F; the lowercase а..я are U+0430..U+044F and ё is U+0451. */
module Alphabet {

  /** numAlpha: the alphabet, position i holds the letter with index i */
  const NumAlpha: string := SpellAlphabet(LetterAt)

  /** The N letters produced by a position-to-letter function */
  function SpellAlphabet(f: int --> char): (s: string)
    requires forall i :: 0 <= i < N ==> f.requires(i)
    ensures |s| == N && forall i :: 0 <= i < N ==> s[i] == f(i)
  {
    seq(N, i requires 0 <= i < N => f(i))
  }

  /** Number of letters in the alphabet (the modulus of the cipher) */
  const N: nat := 33

  /** The letter at position i, computed from its code point */
  function LetterAt(i: int): char
    requires 0 <= i < N
  {
    if i < 6 then (0x410 + i) as char
    else if i == 6 then 0x401 as char
    else (0x410 + i - 1) as char
  }

  /** Spelled out, the alphabet is the 33 uppercase Russian letters in
      alphabetical order, Ё between Е and Ж */
  lemma NumAlphaByCodePoint()
    ensures |NumAlpha| == N
    ensures NumAlpha == "АБВГДЕЁЖЗИЙКЛМНОПРСТУФХЦЧШЩЪЫЬЭЮЯ"
  {
    var lit := "АБВГДЕЁЖЗИЙКЛМНОПРСТУФХЦЧШЩЪЫЬЭЮЯ";
    forall i | 0 <= i < N
      ensures NumAlpha[i] == lit[i]
    {
    }
  }

  /** Membership in the alphabet, decided by code point */
  predicate InAlphabet(c: char) {
    ('А' <= c <= 'Я') || c == 'Ё'
  }

  /** Lowercase Russian letters: а..я and ё */
  predicate IsLower(c: char) {
    ('а' <= c <= 'я') || c == 'ё'
  }

  /** A Russian letter in either case */
  predicate IsRussianLetter(c: char) {
    InAlphabet(c) || IsLower(c)
  }

  /** The code-point test is exactly membership in the string constant */
  lemma InAlphabetIsMembership(c: char)
    ensures InAlphabet(c) <==> c in NumAlpha
  {
    if InAlphabet(c) {
      var i := if c == 'Ё' then 6 else if c <= 'Е' then c as int - 0x410 else c as int - 0x410 + 1;
      assert NumAlpha[i] == c;
    }
  }

  /** Position of a letter in the alphabet. A character outside the alphabet
      yields 0, which is what a lookup with `alphaNum[c]` returns for an
      absent key. */
  function IndexOf(c: char): (i: int)
    ensures InAlphabet(c) ==> 0 <= i < N && NumAlpha[i] == c
    ensures !InAlphabet(c) ==> i == 0
  {
    if 'А' <= c <= 'Е' then c as int - 0x410
    else if c == 'Ё' then 6
    else if 'Ж' <= c <= 'Я' then c as int - 0x410 + 1
    else 0
  }

  /** alphaNum: the map from each letter of the alphabet to its position */
  const AlphaNum: map<char, int> := map c | c in NumAlpha :: IndexOf(c)

  /** The 33 letters are pairwise distinct */
  lemma AlphabetDistinct()
    ensures |NumAlpha| == N
    ensures forall i, j :: 0 <= i < j < N ==> NumAlpha[i] != NumAlpha[j]
  {
  }

  /** alphaNum inverts indexing into numAlpha, in both directions */
  lemma AlphaNumInvertsNumAlpha()
    ensures forall i :: 0 <= i < N ==> NumAlpha[i] in AlphaNum && AlphaNum[NumAlpha[i]] == i
    ensures forall c :: c in AlphaNum ==> InAlphabet(c) && NumAlpha[AlphaNum[c]] == c
  {
    forall c | c in AlphaNum
      ensures InAlphabet(c)
    {
      InAlphabetIsMembership(c);
    }
  }

  /** The set of letters of a sequence without repetitions has as many
      elements as the sequence */
  lemma {:induction false} DistinctCard(s: seq<char>)
    requires forall i, j :: 0 <= i < j < |s| ==> s[i] != s[j]
    ensures |set c | c in s| == |s|
  {
    if s != [] {
      var init := s[..|s| - 1];
      DistinctCard(init);
      assert (set c | c in s) == (set c | c in init) + {s[|s| - 1]};
      assert s[|s| - 1] !in init;
    }
  }

  /** alphaNum has exactly N entries, one per letter */
  lemma AlphaNumSize()
    ensures |AlphaNum| == N
  {
    AlphabetDistinct();
    DistinctCard(NumAlpha);
    assert AlphaNum.Keys == set c | c in NumAlpha;
  }

  /** The lowercase letter at position i, computed from its code point */
  function LowerAt(i: int): char
    requires 0 <= i < N
  {
    if i < 6 then (0x430 + i) as char
    else if i == 6 then 0x451 as char
    else (0x430 + i - 1) as char
  }

  /** Uppercasing restricted to what matters for the alphabet: а..я map to
      А..Я, ё maps to Ё, every other character is left unchanged. */
  function ToUpper(c: char): (u: char)
    ensures IsLower(c) ==> InAlphabet(u)
    ensures !IsLower(c) ==> u == c
    ensures InAlphabet(u) <==> IsRussianLetter(c)
  {
    if 'а' <= c <= 'я' then (c as int - 0x20) as char
    else if c == 'ё' then 'Ё'
    else c
  }

  /** The 33 lowercase Russian letters, in the order of NumAlpha */
  const LowerAlpha: string := SpellAlphabet(LowerAt)

  /** Spelled out, the lowercase alphabet is а..я with ё between е and ж */
  lemma LowerAlphaByCodePoint()
    ensures |LowerAlpha| == N
    ensures LowerAlpha == "абвгдеёжзийклмнопрстуфхцчшщъыьэюя"
  {
    var lit := "абвгдеёжзийклмнопрстуфхцчшщъыьэюя";
    forall i | 0 <= i < N
      ensures LowerAlpha[i] == lit[i]
    {
    }
  }

  /** Uppercasing sends the i-th lowercase letter to the i-th letter of the
      alphabet */
  lemma ToUpperPairsAlphabets()
    ensures |LowerAlpha| == N && |NumAlpha| == N
    ensures forall i :: 0 <= i < N ==> ToUpper(LowerAlpha[i]) == NumAlpha[i]
  {
    forall i | 0 <= i < N
      ensures ToUpper(LowerAt(i)) == LetterAt(i)
    {
    }
  }

  /** The lowercase letters are exactly those of LowerAlpha */
  lemma IsLowerIsMembership(c: char)
    ensures IsLower(c) <==> c in LowerAlpha
  {
    if IsLower(c) {
      var i := if c == 'ё' then 6 else if c <= 'е' then c as int - 0x430 else c as int - 0x430 + 1;
      assert LowerAlpha[i] == c;
    }
  }

  /** Uppercasing is a bijection from the lowercase letters onto the
      alphabet: distinct lowercase letters stay distinct, and every
      alphabet letter is the uppercase of some lowercase letter */
  lemma ToUpperLowerBijection()
    ensures forall a, b :: IsLower(a) && IsLower(b) && ToUpper(a) == ToUpper(b) ==> a == b
    ensures forall u :: InAlphabet(u) ==> exists l :: IsLower(l) && ToUpper(l) == u
  {
    forall u | InAlphabet(u)
      ensures exists l :: IsLower(l) && ToUpper(l) == u
    {
      var l := if u == 'Ё' then 'ё' else (u as int + 0x20) as char;
      assert IsLower(l) && ToUpper(l) == u;
    }
  }
}
