/** Properties of the Gronsfeld cipher model that relate several calls:
    round trips of `convert` and of `encrypt` / `decrypt`, idempotence and
    case insensitivity of the validators, and how the key is cycled. */
module CipherProperties {
  import opened Results
  import opened Alphabet
  import opened ModAlphaCipher

  // ---------------------------------------------------------------- convert

  /** Letters to positions and back is the identity on alphabet text */
  lemma ConvertTextRoundTrip(s: string)
    requires AllLetters(s)
    ensures ConvertToText(ConvertToIndices(s)) == s
  {
    var v := ConvertToIndices(s);
    var t := ConvertToText(v);
    assert forall i :: 0 <= i < |s| ==> t[i] == NumAlpha[v[i]] == s[i];
  }

  /** Positions to letters and back is the identity on in-range vectors */
  lemma ConvertIndicesRoundTrip(v: seq<int>)
    requires InRange(v)
    ensures ConvertToIndices(ConvertToText(v)) == v
  {
  }

  // -------------------------------------------------------------------- key

  /** A validated key is accepted again unchanged */
  lemma GetValidKeyIdempotent(ws: string)
    ensures GetValidKey(ws).Success? ==> GetValidKey(GetValidKey(ws).value) == GetValidKey(ws)
  {
    var r := GetValidKey(ws);
    if r.Success? {
      var r2 := GetValidKey(r.value);
      assert forall i :: 0 <= i < |r.value| ==> ToUpper(r.value[i]) == r.value[i];
      assert r2.value == r.value;
    }
  }

  /** Key validation does not depend on letter case */
  lemma GetValidKeyCaseInsensitive(ws: string)
    ensures GetValidKey(ToUpperString(ws)) == GetValidKey(ws)
  {
    var u := ToUpperString(ws);
    assert forall i :: 0 <= i < |ws| ==> u[i] == ToUpper(ws[i]);
    assert forall i :: 0 <= i < |ws| ==> ToUpper(u[i]) == u[i];
    if GetValidKey(ws).Success? {
      assert GetValidKey(u).value == GetValidKey(ws).value;
    }
  }

  // -------------------------------------------------------------- open text

  /** Stripping distributes over concatenation: each character is handled
      on its own, with no look-ahead or state */
  lemma {:induction false} StripNonLettersAppend(a: string, b: string)
    ensures StripNonLetters(a + b) == StripNonLetters(a) + StripNonLetters(b)
  {
    if a == [] {
      assert a + b == b;
    } else {
      assert (a + b)[0] == a[0];
      assert (a + b)[1..] == a[1..] + b;
      StripNonLettersAppend(a[1..], b);
    }
  }

  /** On one character: a Russian letter is kept, uppercased; anything else
      is dropped */
  lemma StripNonLettersSingle(c: char)
    ensures StripNonLetters([c]) == if IsRussianLetter(c) then [ToUpper(c)] else []
  {
    assert [c][1..] == [];
  }

  /** Text already made of alphabet letters passes through unchanged */
  lemma {:induction false} StripNonLettersKeepsLetters(s: string)
    requires AllLetters(s)
    ensures StripNonLetters(s) == s
  {
    if s != [] {
      assert AllLetters(s[1..]) by {
        assert forall i :: 0 <= i < |s[1..]| ==> s[1..][i] == s[i + 1];
      }
      StripNonLettersKeepsLetters(s[1..]);
      assert s == [s[0]] + s[1..];
    }
  }

  /** Stripping uppercases and removes each character independently, so
      uppercasing first changes nothing */
  lemma {:induction false} StripNonLettersCaseInsensitive(ws: string)
    ensures StripNonLetters(ToUpperString(ws)) == StripNonLetters(ws)
  {
    var u := ToUpperString(ws);
    if ws != [] {
      assert u[0] == ToUpper(ws[0]);
      assert u[1..] == ToUpperString(ws[1..]);
      StripNonLettersCaseInsensitive(ws[1..]);
    }
  }

  /** getValidOpenText accepts its own output unchanged */
  lemma GetValidOpenTextIdempotent(ws: string)
    ensures GetValidOpenText(ws).Success? ==> GetValidOpenText(GetValidOpenText(ws).value) == GetValidOpenText(ws)
  {
    var r := GetValidOpenText(ws);
    if r.Success? {
      StripNonLettersKeepsLetters(r.value);
    }
  }

  /** Open-text validation does not depend on letter case */
  lemma GetValidOpenTextCaseInsensitive(ws: string)
    ensures GetValidOpenText(ToUpperString(ws)) == GetValidOpenText(ws)
  {
    StripNonLettersCaseInsensitive(ws);
  }

  /** On canonical text the two asymmetric validators agree; everything the
      cipher-text validator accepts, the open-text validator accepts as is */
  lemma ValidatorsAgreeOnCanonicalText(ws: string)
    ensures GetValidCipherText(ws).Success? ==> GetValidOpenText(ws) == GetValidCipherText(ws)
  {
    if GetValidCipherText(ws).Success? {
      StripNonLettersKeepsLetters(ws);
    }
  }

  // -------------------------------------------------------------- transform

  /** Shifting a position forward and then back by the same key entry, or
      back and then forward, returns the position */
  lemma ShiftEntryRoundTrip(a: int, k: int)
    requires 0 <= a < N && 0 <= k < N
    ensures ((a + k) % N + N - k) % N == a
    ensures ((a + N - k) % N + k) % N == a
  {
    if a + k < N {
      assert (a + k) % N == a + k;
      assert (a + N) % N == a;
    } else {
      assert (a + k) % N == a + k - N;
      assert (a + k - N + N - k) % N == a;
    }
    if a - k >= 0 {
      assert (a + N - k) % N == a - k;
    } else {
      assert (a + N - k) % N == a + N - k;
      assert (a + N - k + k) % N == a;
    }
  }

  /** The decrypt loop undoes the encrypt loop */
  lemma UnshiftShift(v: seq<int>, key: seq<int>)
    requires |key| > 0 && InRange(key) && InRange(v)
    ensures Unshift(Shift(v, key), key) == v
  {
    var w := Unshift(Shift(v, key), key);
    forall i | 0 <= i < |v|
      ensures w[i] == v[i]
    {
      ShiftEntryRoundTrip(v[i], key[i % |key|]);
    }
  }

  /** The encrypt loop undoes the decrypt loop */
  lemma ShiftUnshift(v: seq<int>, key: seq<int>)
    requires |key| > 0 && InRange(key) && InRange(v)
    ensures Shift(Unshift(v, key), key) == v
  {
    var w := Shift(Unshift(v, key), key);
    forall i | 0 <= i < |v|
      ensures w[i] == v[i]
    {
      ShiftEntryRoundTrip(v[i], key[i % |key|]);
    }
  }

  /** A positive multiple of m is at least m */
  lemma {:induction false} MulAtLeast(m: int, e: int)
    requires m > 0 && e >= 1
    ensures m * e >= m
  {
    if e > 1 {
      MulAtLeast(m, e - 1);
      assert m * e == m * (e - 1) + m;
    }
  }

  /** Division by a positive number has a unique remainder */
  lemma DivModUnique(i: int, m: int, q: int, r: int)
    requires m > 0 && 0 <= r < m && i == m * q + r
    ensures i % m == r
  {
    var d := i / m;
    assert i == m * d + i % m;
    if q > d {
      MulAtLeast(m, q - d);
      assert false;
    } else if q < d {
      MulAtLeast(m, d - q);
      assert false;
    }
  }

  /** A position taken modulo twice the key length and then modulo the key
      length lands on the same key entry as taken modulo the key length */
  lemma ModDoubledLength(i: nat, m: int)
    requires m > 0
    ensures (i % (2 * m)) % m == i % m
  {
    var q := i / (2 * m);
    var r := i % (2 * m);
    assert i == 2 * m * q + r;
    if r < m {
      assert i == m * (2 * q) + r;
      DivModUnique(i, m, 2 * q, r);
      DivModUnique(r, m, 0, r);
    } else {
      assert i == m * (2 * q + 1) + (r - m);
      DivModUnique(i, m, 2 * q + 1, r - m);
      DivModUnique(r, m, 1, r - m);
    }
  }

  /** Position i meets the same entry of the doubled key as of the key */
  lemma DoubledKeyEntry(key: seq<int>, i: nat)
    requires |key| > 0
    ensures (key + key)[i % (2 * |key|)] == key[i % |key|]
  {
    var m := |key|;
    var r := i % (2 * m);
    ModDoubledLength(i, m);
    if r >= m {
      DivModUnique(r, m, 1, r - m);
    } else {
      DivModUnique(r, m, 0, r);
    }
  }

  /** The key is applied cyclically: repeating it twice gives the same shift */
  lemma ShiftDoubledKey(v: seq<int>, key: seq<int>)
    requires |key| > 0 && InRange(key) && InRange(v)
    ensures InRange(key + key) && Shift(v, key + key) == Shift(v, key)
  {
    var kk := key + key;
    assert InRange(kk);
    var a := Shift(v, kk);
    var b := Shift(v, key);
    forall i | 0 <= i < |v|
      ensures a[i] == b[i]
    {
      DoubledKeyEntry(key, i);
    }
  }

  /** Different key entries shift the same position to different letters */
  lemma ShiftEntryInjective(a: int, x: int, y: int)
    requires 0 <= a < N && 0 <= x < N && 0 <= y < N && x != y
    ensures (a + x) % N != (a + y) % N
  {
    assert (a + x) % N == if a + x < N then a + x else a + x - N;
    assert (a + y) % N == if a + y < N then a + y else a + y - N;
  }

  /** Two keys of the same length that differ only at entry j give the same
      output exactly at the positions not congruent to j modulo the key
      length */
  lemma ShiftKeyCycling(v: seq<int>, k1: seq<int>, k2: seq<int>, j: int)
    requires |k1| > 0 && InRange(k1) && InRange(k2) && InRange(v)
    requires |k2| == |k1| && 0 <= j < |k1| && k1[j] != k2[j]
    requires forall i :: 0 <= i < |k1| && i != j ==> k1[i] == k2[i]
    ensures forall i :: 0 <= i < |v| ==> (Shift(v, k1)[i] == Shift(v, k2)[i] <==> i % |k1| != j)
  {
    forall i | 0 <= i < |v| && i % |k1| == j
      ensures Shift(v, k1)[i] != Shift(v, k2)[i]
    {
      ShiftEntryInjective(v[i], k1[j], k2[j]);
    }
  }

  /** A key of zeros (key letters all `А`) leaves every position unchanged */
  lemma ShiftZeroKey(v: seq<int>, key: seq<int>)
    requires |key| > 0 && InRange(v)
    requires forall i :: 0 <= i < |key| ==> key[i] == 0
    ensures Shift(v, key) == v
  {
  }

  // ----------------------------------------------------------------- cipher

  /** Round trip: decrypting the encryption of canonical text with the same
      key gives the text back */
  lemma DecryptEncrypt(c: Cipher, t: string)
    requires c.Valid() && t != [] && AllLetters(t)
    ensures Encrypt(c, t).Success?
    ensures Decrypt(c, Encrypt(c, t).value) == Success(t)
  {
    StripNonLettersKeepsLetters(t);
    var v := ConvertToIndices(t);
    var e := ConvertToText(Shift(v, c.key));
    assert Encrypt(c, t) == Success(e);
    ConvertIndicesRoundTrip(Shift(v, c.key));
    UnshiftShift(v, c.key);
    ConvertTextRoundTrip(t);
  }

  /** For arbitrary open text, the round trip yields the text as normalised
      by open-text validation: uppercased, with non-letters removed */
  lemma DecryptEncryptNormalises(c: Cipher, ws: string)
    requires c.Valid()
    ensures Encrypt(c, ws).Success? ==> Decrypt(c, Encrypt(c, ws).value) == Success(StripNonLetters(ws))
  {
    if Encrypt(c, ws).Success? {
      var t := StripNonLetters(ws);
      EncryptIgnoresNonLetters(c, ws);
      DecryptEncrypt(c, t);
    }
  }

  /** Round trip the other way: encrypting the decryption of a valid cipher
      text gives the cipher text back */
  lemma EncryptDecrypt(c: Cipher, x: string)
    requires c.Valid()
    ensures Decrypt(c, x).Success? ==> Encrypt(c, Decrypt(c, x).value) == Success(x)
  {
    if Decrypt(c, x).Success? {
      var v := ConvertToIndices(x);
      var d := ConvertToText(Unshift(v, c.key));
      assert Decrypt(c, x) == Success(d);
      StripNonLettersKeepsLetters(d);
      ConvertIndicesRoundTrip(Unshift(v, c.key));
      ShiftUnshift(v, c.key);
      ConvertTextRoundTrip(x);
    }
  }

  /** Encryption depends only on the letters of the open text: non-letters
      are dropped before the key is cycled */
  lemma EncryptIgnoresNonLetters(c: Cipher, ws: string)
    requires c.Valid()
    ensures Encrypt(c, StripNonLetters(ws)) == Encrypt(c, ws)
  {
    GetValidOpenTextIdempotent(ws);
    if StripNonLetters(ws) != [] {
      StripNonLettersKeepsLetters(StripNonLetters(ws));
    }
  }

  /** Two open texts with the same letters, in the same order, encrypt
      alike */
  lemma EncryptSameLetters(c: Cipher, a: string, b: string)
    requires c.Valid() && StripNonLetters(a) == StripNonLetters(b)
    ensures Encrypt(c, a) == Encrypt(c, b)
  {
    EncryptIgnoresNonLetters(c, a);
    EncryptIgnoresNonLetters(c, b);
  }

  /** Encryption does not depend on the case of the open text */
  lemma EncryptCaseInsensitive(c: Cipher, ws: string)
    requires c.Valid()
    ensures Encrypt(c, ToUpperString(ws)) == Encrypt(c, ws)
  {
    GetValidOpenTextCaseInsensitive(ws);
  }

  /** Changing one key letter changes exactly the cipher letters at the
      positions that key letter is applied to */
  lemma EncryptKeyCycling(c1: Cipher, c2: Cipher, j: int, ws: string)
    requires c1.Valid() && c2.Valid() && |c1.key| == |c2.key|
    requires 0 <= j < |c1.key| && c1.key[j] != c2.key[j]
    requires forall i :: 0 <= i < |c1.key| && i != j ==> c1.key[i] == c2.key[i]
    requires Encrypt(c1, ws).Success?
    ensures Encrypt(c2, ws).Success?
    ensures forall i :: 0 <= i < |Encrypt(c1, ws).value| ==>
      (Encrypt(c1, ws).value[i] == Encrypt(c2, ws).value[i] <==> i % |c1.key| != j)
  {
    var v := ConvertToIndices(StripNonLetters(ws));
    ShiftKeyCycling(v, c1.key, c2.key, j);
    var e1 := ConvertToText(Shift(v, c1.key));
    var e2 := ConvertToText(Shift(v, c2.key));
    assert Encrypt(c1, ws) == Success(e1);
    assert Encrypt(c2, ws) == Success(e2);
    forall i | 0 <= i < |e1|
      ensures e1[i] == e2[i] <==> Shift(v, c1.key)[i] == Shift(v, c2.key)[i]
    {
      assert IndexOf(e1[i]) == Shift(v, c1.key)[i];
      assert IndexOf(e2[i]) == Shift(v, c2.key)[i];
    }
  }

  /** A key made only of the letter А (either case) shifts nothing and is
      rejected as degenerate */
  lemma AllAKeyRejected(skey: string)
    requires skey != [] && forall i :: 0 <= i < |skey| ==> ToUpper(skey[i]) == 'А'
    ensures New(skey) == Failure(WeakKey)
  {
    var u := ToUpperString(skey);
    assert forall i :: 0 <= i < |skey| ==> IsRussianLetter(skey[i]);
    CountOfConstant(u, 'А');
  }

  /** Uppercasing distributes over concatenation */
  lemma ToUpperStringAppend(a: string, b: string)
    ensures ToUpperString(a + b) == ToUpperString(a) + ToUpperString(b)
  {
  }

  /** Converting to positions distributes over concatenation */
  lemma ConvertToIndicesAppend(a: string, b: string)
    ensures ConvertToIndices(a + b) == ConvertToIndices(a) + ConvertToIndices(b)
  {
  }

  /** A constructed cipher's key vector is the positions of the uppercased key */
  lemma NewKeyVector(skey: string)
    requires New(skey).Success?
    ensures New(skey).value.key == ConvertToIndices(ToUpperString(skey))
  {
    assert GetValidKey(skey).value == ToUpperString(skey);
  }

  /** A key written twice in a row is accepted when the key is, and its
      key vector is the key vector written twice */
  lemma NewDoubledKeyVector(skey: string)
    requires New(skey).Success?
    ensures New(skey + skey).Success?
    ensures New(skey + skey).value.key == New(skey).value.key + New(skey).value.key
  {
    var s2 := skey + skey;
    var u := ToUpperString(skey);
    ToUpperStringAppend(skey, skey);
    assert multiset(u + u)['А'] == 2 * multiset(u)['А'];
    assert forall i :: 0 <= i < |s2| ==> IsRussianLetter(s2[i]) by {
      assert forall i :: 0 <= i < |skey| ==> s2[i] == skey[i] && s2[i + |skey|] == skey[i];
    }
    assert New(s2).Success?;
    NewKeyVector(skey);
    NewKeyVector(s2);
    ConvertToIndicesAppend(u, u);
  }

  /** A key written twice in a row encrypts exactly like the key itself */
  lemma NewDoubledKey(skey: string, ws: string)
    requires New(skey).Success?
    ensures New(skey + skey).Success?
    ensures Encrypt(New(skey + skey).value, ws) == Encrypt(New(skey).value, ws)
  {
    NewDoubledKeyVector(skey);
    var k := New(skey).value.key;
    if Encrypt(New(skey).value, ws).Success? {
      ShiftDoubledKey(ConvertToIndices(StripNonLetters(ws)), k);
    }
  }

  // ------------------------------------------------------ concrete examples

  /** An uppercase key in which at most half of the letters are А is
      accepted unchanged: its key vector is the positions of its letters */
  lemma NewOfUppercaseKey(k: string)
    requires k != [] && AllLetters(k) && 2 * multiset(k)['А'] <= |k|
    ensures New(k) == Success(Cipher(ConvertToIndices(k)))
  {
    assert ToUpperString(k) == k;
    NewKeyVector(k);
  }

  /** Every valid cipher is one the constructor builds: the key spelled by
      its key vector yields exactly that cipher */
  lemma ValidCipherIsConstructed(c: Cipher)
    requires c.Valid()
    ensures New(ConvertToText(c.key)) == Success(c)
  {
    var k := ConvertToText(c.key);
    ConvertIndicesRoundTrip(c.key);
    ZeroEntriesAreLetterA(k);
    NewOfUppercaseKey(k);
  }

  /** The letters of "ГММА" are at positions 3, 13, 13 and 0 */
  lemma KeyWordPositions()
    ensures AllLetters("ГММА")
    ensures ConvertToIndices("ГММА") == [3, 13, 13, 0]
  {
    var k := "ГММА";
    assert InAlphabet(k[0]) && InAlphabet(k[1]) && InAlphabet(k[2]) && InAlphabet(k[3]);
    var v := ConvertToIndices(k);
    assert v[0] == IndexOf('Г') == 3;
    assert v[1] == IndexOf('М') == 13;
    assert v[2] == IndexOf('М') == 13;
    assert v[3] == IndexOf('А') == 0;
  }

  /** Key "ГММА" is the key vector [3, 13, 13, 0] */
  lemma KeyExample()
    ensures New("ГММА") == Success(Cipher([3, 13, 13, 0]))
  {
    var k := "ГММА";
    KeyWordPositions();
    assert multiset(k)['А'] == 1 by {
      assert k == ['Г'] + ['М'] + ['М'] + ['А'];
    }
    NewOfUppercaseKey(k);
  }

  /** The lowercase spelling "гмма" gives the same cipher */
  lemma LowercaseKeyExample()
    ensures New("гмма") == Success(Cipher([3, 13, 13, 0]))
  {
    assert ToUpperString("гмма") == "ГММА";
    GetValidKeyCaseInsensitive("гмма");
    KeyExample();
  }

  /** The empty key and a key holding a digit are rejected */
  lemma BadKeyExample()
    ensures New("") == Failure(EmptyKey)
    ensures New("ГМ1А") == Failure(InvalidKey)
  {
    assert !IsRussianLetter("ГМ1А"[2]);
  }

  /** "А" and "ааБ" are degenerate keys */
  lemma WeakKeyExample()
    ensures New("А") == Failure(WeakKey)
    ensures New("ааБ") == Failure(WeakKey)
  {
    AllAKeyRejected("А");
    var u := ToUpperString("ааБ");
    assert u == ['А', 'А', 'Б'];
    assert multiset(u)['А'] == 2 by {
      assert u == ['А', 'А'] + ['Б'];
      CountOfConstant(['А', 'А'], 'А');
    }
    assert IsRussianLetter("ааБ"[0]) && IsRussianLetter("ааБ"[1]) && IsRussianLetter("ааБ"[2]);
  }

  /** "АБ", with exactly half of its letters А, is not degenerate */
  lemma HalfAKeyExample()
    ensures New("АБ") == Success(Cipher([0, 1]))
  {
    var k := "АБ";
    HalfKeyPositions();
    assert multiset(k)['А'] == 1 by {
      assert k == ['А'] + ['Б'];
    }
    NewOfUppercaseKey(k);
  }

  /** The letters of "АБ" are at positions 0 and 1 */
  lemma HalfKeyPositions()
    ensures AllLetters("АБ")
    ensures ConvertToIndices("АБ") == [0, 1]
  {
    var k := "АБ";
    assert InAlphabet(k[0]) && InAlphabet(k[1]);
    var v := ConvertToIndices(k);
    assert v[0] == IndexOf('А') == 0;
    assert v[1] == IndexOf('Б') == 1;
  }

  /** Non-empty uppercase alphabet text is encrypted as it is, nothing
      stripped */
  lemma EncryptOfLetters(c: Cipher, t: string)
    requires c.Valid() && t != [] && AllLetters(t)
    ensures Encrypt(c, t) == Success(ConvertToText(Shift(ConvertToIndices(t), c.key)))
  {
    StripNonLettersKeepsLetters(t);
  }

  /** The letters of "ШИФР" are at positions 25, 9, 21 and 17 */
  lemma OpenWordPositions()
    ensures AllLetters("ШИФР")
    ensures ConvertToIndices("ШИФР") == [25, 9, 21, 17]
  {
    var t := "ШИФР";
    assert InAlphabet(t[0]) && InAlphabet(t[1]) && InAlphabet(t[2]) && InAlphabet(t[3]);
    var v := ConvertToIndices(t);
    assert v[0] == IndexOf('Ш') == 25;
    assert v[1] == IndexOf('И') == 9;
    assert v[2] == IndexOf('Ф') == 21;
    assert v[3] == IndexOf('Р') == 17;
  }

  /** Shifting [25, 9, 21, 17] by the key [3, 13, 13, 0] wraps 34 round to 1 */
  lemma OpenWordShifted()
    ensures Shift([25, 9, 21, 17], [3, 13, 13, 0]) == [28, 22, 1, 17]
  {
    var w := Shift([25, 9, 21, 17], [3, 13, 13, 0]);
    assert w[0] == (25 + 3) % N;
    assert w[1] == (9 + 13) % N;
    assert w[2] == (21 + 13) % N;
    assert w[3] == (17 + 0) % N;
  }

  /** Positions 28, 22, 1 and 17 spell "ЫХБР" */
  lemma CipherWordLetters()
    ensures ConvertToText([28, 22, 1, 17]) == "ЫХБР"
  {
    var e := ConvertToText([28, 22, 1, 17]);
    assert e[0] == NumAlpha[28] == LetterAt(28);
    assert e[1] == NumAlpha[22] == LetterAt(22);
    assert e[2] == NumAlpha[1] == LetterAt(1);
    assert e[3] == NumAlpha[17] == LetterAt(17);
  }

  /** The cipher of key "ГММА" is a valid instance */
  lemma ExampleCipherValid()
    ensures Cipher([3, 13, 13, 0]).Valid()
  {
    var k := [3, 13, 13, 0];
    assert forall i :: 0 <= i < |k| ==> 0 <= k[i] < N by {
      assert k[0] == 3 && k[1] == 13 && k[2] == 13 && k[3] == 0;
    }
    assert multiset(k)[0] == 1 by {
      assert k == [3, 13, 13] + [0];
    }
  }

  /** "ШИФР" under key "ГММА" encrypts to "ЫХБР" */
  lemma EncryptExample()
    ensures Encrypt(Cipher([3, 13, 13, 0]), "ШИФР") == Success("ЫХБР")
  {
    OpenWordPositions();
    ExampleCipherValid();
    EncryptOfLetters(Cipher([3, 13, 13, 0]), "ШИФР");
    OpenWordShifted();
    CipherWordLetters();
  }

  /** Stripping "шифр" uppercases it */
  lemma StripLettersExample()
    ensures StripNonLetters("шифр") == "ШИФР"
  {
    StripNonLettersCaseInsensitive("шифр");
    assert ToUpperString("шифр") == "ШИФР";
    StripNonLettersKeepsLetters("ШИФР");
  }

  /** Stripping removes spaces, digits and punctuation */
  lemma StripNonLettersExample()
    ensures StripNonLetters(" 123!") == []
  {
    var z := " 123!";
    assert !IsRussianLetter(z[0]) && !IsRussianLetter(z[1]) && !IsRussianLetter(z[2]);
    assert !IsRussianLetter(z[3]) && !IsRussianLetter(z[4]);
  }

  /** Stripping a mixed text keeps only its letters, uppercased */
  lemma StripMixedExample()
    ensures StripNonLetters("шифр 123!") == "ШИФР"
  {
    assert "шифр 123!" == "шифр" + " 123!";
    StripNonLettersAppend("шифр", " 123!");
    StripLettersExample();
    StripNonLettersExample();
  }

  /** Case, spaces, digits and punctuation of the open text do not matter */
  lemma EncryptStripsExample()
    ensures Encrypt(Cipher([3, 13, 13, 0]), "шифр 123!") == Success("ЫХБР")
  {
    var c, ws := Cipher([3, 13, 13, 0]), "шифр 123!";
    StripMixedExample();
    OpenWordPositions();
    StripNonLettersKeepsLetters("ШИФР");
    EncryptExample();
    ExampleCipherValid();
    EncryptSameLetters(c, ws, "ШИФР");
  }

  /** "ЫХБР" under key "ГММА" decrypts to "ШИФР" */
  lemma DecryptExample()
    ensures Decrypt(Cipher([3, 13, 13, 0]), "ЫХБР") == Success("ШИФР")
  {
    EncryptExample();
    ExampleCipherValid();
    OpenWordPositions();
    DecryptEncrypt(Cipher([3, 13, 13, 0]), "ШИФР");
  }

  /** Empty open text, and empty or lowercase cipher text, are rejected */
  lemma BadTextExample()
    ensures Encrypt(Cipher([3, 13, 13, 0]), "") == Failure(EmptyOpenText)
    ensures Decrypt(Cipher([3, 13, 13, 0]), "") == Failure(EmptyCipherText)
    ensures Decrypt(Cipher([3, 13, 13, 0]), "шифр") == Failure(InvalidCipherText)
  {
    assert !InAlphabet("шифр"[0]);
  }
}
