/** The Gronsfeld cipher class `modAlphaCipher`: key validation and the key
    vector, the two `convert` translations between letters and positions,
    the asymmetric validation of open and cipher text, and the shift
    transform of `encrypt` / `decrypt`.

    Text is a sequence of code points (the UTF-32 `wstring` of the class);
    the UTF-8 transcoding around the public operations is not modelled. */
module ModAlphaCipher {
  import opened Results
  import opened Alphabet

  /** The reasons a `cipher_error` is raised */
  datatype CipherError =
    | EmptyKey           // the key string is empty
    | InvalidKey         // a key character is not a letter of the alphabet after uppercasing
    | EmptyOpenText      // nothing is left of the open text after stripping non-letters
    | EmptyCipherText    // the cipher text is empty
    | InvalidCipherText  // the cipher text holds a lowercase letter or a non-letter
    | WeakKey            // the key is degenerate: more than half of its letters are А

  /** Every character is an (uppercase) alphabet letter */
  predicate AllLetters(s: string) {
    forall i :: 0 <= i < |s| ==> InAlphabet(s[i])
  }

  /** Every entry is a valid alphabet position */
  predicate InRange(v: seq<int>) {
    forall i :: 0 <= i < |v| ==> 0 <= v[i] < N
  }

  /** Uppercases every character of a string */
  function ToUpperString(s: string): string {
    seq(|s|, i requires 0 <= i < |s| => ToUpper(s[i]))
  }

  // ---------------------------------------------------------------- convert

  /** convert(wstring): the position of each letter */
  function ConvertToIndices(ws: string): (v: seq<int>)
    ensures |v| == |ws|
    ensures AllLetters(ws) ==> InRange(v) && forall i :: 0 <= i < |v| ==> NumAlpha[v[i]] == ws[i]
  {
    seq(|ws|, i requires 0 <= i < |ws| => IndexOf(ws[i]))
  }

  /** convert(vector): the letter at each position */
  function ConvertToText(v: seq<int>): (s: string)
    requires InRange(v)
    ensures |s| == |v|
    ensures AllLetters(s)
    ensures forall i :: 0 <= i < |s| ==> IndexOf(s[i]) == v[i]
  {
    AlphabetDistinct();
    seq(|v|, i requires 0 <= i < |v| => NumAlpha[v[i]])
  }

  // ------------------------------------------------------------- validation

  /** getValidKey: rejects the empty key and any character that is not a
      Russian letter; lowercase letters are uppercased */
  function GetValidKey(ws: string): (r: Result<string, CipherError>)
    ensures r.Success? <==> ws != [] && forall i :: 0 <= i < |ws| ==> IsRussianLetter(ws[i])
    ensures r.Failure? ==> r.error == (if ws == [] then EmptyKey else InvalidKey)
    ensures r.Success? ==> |r.value| == |ws| && AllLetters(r.value)
    ensures r.Success? ==> forall i :: 0 <= i < |ws| ==> r.value[i] == ToUpper(ws[i])
  {
    if ws == [] then Failure(EmptyKey)
    else
      var u := ToUpperString(ws);
      assert forall i :: 0 <= i < |ws| ==> u[i] == ToUpper(ws[i]);
      if AllLetters(u) then Success(u)
      else
        assert exists i :: 0 <= i < |ws| && !InAlphabet(u[i]);
        Failure(InvalidKey)
  }

  /** The character-by-character loop of getValidOpenText: each Russian
      letter is kept, uppercased; everything else is dropped */
  function StripNonLetters(ws: string): (t: string)
    ensures AllLetters(t)
    ensures |t| <= |ws|
    ensures t == [] <==> forall i :: 0 <= i < |ws| ==> !IsRussianLetter(ws[i])
  {
    if ws == [] then []
    else
      var c := ToUpper(ws[0]);
      var rest := StripNonLetters(ws[1..]);
      assert forall i :: 1 <= i < |ws| ==> ws[i] == ws[1..][i - 1];
      if InAlphabet(c) then [c] + rest else rest
  }

  /** getValidOpenText: uppercases, strips non-letters, and fails when
      nothing remains */
  function GetValidOpenText(ws: string): (r: Result<string, CipherError>)
    ensures r.Failure? <==> forall i :: 0 <= i < |ws| ==> !IsRussianLetter(ws[i])
    ensures r.Failure? ==> r.error == EmptyOpenText
    ensures r.Success? ==> r.value != [] && AllLetters(r.value) && |r.value| <= |ws|
    ensures r.Success? ==> r.value == StripNonLetters(ws)
  {
    var t := StripNonLetters(ws);
    if t == [] then Failure(EmptyOpenText) else Success(t)
  }

  /** getValidCipherText: fails on empty text and on any character that is
      not an uppercase alphabet letter; accepted text is returned unchanged */
  function GetValidCipherText(ws: string): (r: Result<string, CipherError>)
    ensures r.Success? ==> r.value == ws
    ensures ws == [] ==> r == Failure(EmptyCipherText)
    ensures (exists i :: 0 <= i < |ws| && IsLower(ws[i])) ==> r == Failure(InvalidCipherText)
    ensures (exists i :: 0 <= i < |ws| && !IsRussianLetter(ws[i])) ==> r == Failure(InvalidCipherText)
    ensures ws != [] && (forall i :: 0 <= i < |ws| ==> InAlphabet(ws[i])) ==> r == Success(ws)
  {
    if ws == [] then Failure(EmptyCipherText)
    else if AllLetters(ws) then Success(ws)
    else Failure(InvalidCipherText)
  }

  // -------------------------------------------------------------- transform

  /** The loop of encrypt over the position vector */
  function Shift(v: seq<int>, key: seq<int>): (w: seq<int>)
    requires |key| > 0 && InRange(key) && InRange(v)
    ensures |w| == |v| && InRange(w)
  {
    seq(|v|, i requires 0 <= i < |v| => (v[i] + key[i % |key|]) % N)
  }

  /** The loop of decrypt over the position vector: each position x goes
      back by its key entry k as `(x + 33 - k) mod 33`, whose left operand
      is never negative since k < 33 */
  function Unshift(v: seq<int>, key: seq<int>): (w: seq<int>)
    requires |key| > 0 && InRange(key) && InRange(v)
    ensures |w| == |v| && InRange(w)
  {
    seq(|v|, i requires 0 <= i < |v| => (v[i] + N - key[i % |key|]) % N)
  }

  // ----------------------------------------------------------------- cipher

  /** A constructed cipher: the key vector of letter positions */
  datatype Cipher = Cipher(key: seq<int>) {
    /** What every successfully constructed instance satisfies: a
        non-empty vector of alphabet positions that is not degenerate */
    predicate Valid() {
      |key| > 0 && InRange(key) && !IsWeakKey(key)
    }
  }

  /** A sequence whose entries all equal x holds x as often as its length */
  lemma {:induction false} CountOfConstant<T>(s: seq<T>, x: T)
    requires forall i :: 0 <= i < |s| ==> s[i] == x
    ensures multiset(s)[x] == |s|
  {
    if s != [] {
      assert s == [s[0]] + s[1..];
      CountOfConstant(s[1..], x);
    }
  }

  /** The key vector of a non-empty text starts with the position of its
      first character and continues with the vector of the rest */
  lemma ConvertToIndicesCons(k: string)
    requires k != []
    ensures ConvertToIndices(k) == [IndexOf(k[0])] + ConvertToIndices(k[1..])
  {
  }

  /** Among the alphabet letters, only А has position 0 */
  lemma IndexOfIsZero(c: char)
    requires InAlphabet(c)
    ensures IndexOf(c) == 0 <==> c == 'А'
  {
  }

  /** Counting x in a non-empty sequence: the first entry, then the rest */
  lemma CountCons<T>(s: seq<T>, x: T)
    requires s != []
    ensures multiset(s)[x] == (if s[0] == x then 1 else 0) + multiset(s[1..])[x]
  {
    assert s == [s[0]] + s[1..];
  }

  /** In the key vector of alphabet text, the zero entries are exactly the
      letters А */
  lemma {:induction false} ZeroEntriesAreLetterA(k: string)
    requires AllLetters(k)
    ensures multiset(ConvertToIndices(k))[0] == multiset(k)['А']
  {
    if k != [] {
      var c, rest := k[0], k[1..];
      assert AllLetters(rest) by {
        assert forall i :: 0 <= i < |rest| ==> rest[i] == k[i + 1];
      }
      ZeroEntriesAreLetterA(rest);
      ConvertToIndicesCons(k);
      CountCons(ConvertToIndices(k), 0);
      CountCons(k, 'А');
      IndexOfIsZero(c);
    }
  }

  /** A degenerate key vector: more than half of its shifts are zero */
  predicate IsWeakKey(v: seq<int>) {
    2 * multiset(v)[0] > |v|
  }

  /** A non-empty key vector that is not degenerate shifts some position */
  lemma NotWeakKeyShifts(v: seq<int>)
    requires |v| > 0 && !IsWeakKey(v)
    ensures exists i :: 0 <= i < |v| && v[i] != 0
  {
    if forall i :: 0 <= i < |v| ==> v[i] == 0 {
      CountOfConstant(v, 0);
    }
  }

  /** The key-setting constructor: validates the key, forms the key vector
      of letter positions, and rejects a degenerate key, one in which more
      than half of the letters are А (shift 0) */
  function New(skey: string): (r: Result<Cipher, CipherError>)
    ensures r.Success? <==>
      && skey != []
      && (forall i :: 0 <= i < |skey| ==> IsRussianLetter(skey[i]))
      && 2 * multiset(ToUpperString(skey))['А'] <= |skey|
    ensures skey == [] ==> r == Failure(EmptyKey)
    ensures (exists i :: 0 <= i < |skey| && !IsRussianLetter(skey[i])) ==> r == Failure(InvalidKey)
    ensures r.Failure? && skey != [] && (forall i :: 0 <= i < |skey| ==> IsRussianLetter(skey[i])) ==> r == Failure(WeakKey)
    ensures r.Success? ==> r.value.Valid() && |r.value.key| == |skey|
    ensures r.Success? ==> exists i :: 0 <= i < |r.value.key| && r.value.key[i] != 0
    ensures r.Success? ==> forall i :: 0 <= i < |skey| ==> NumAlpha[r.value.key[i]] == ToUpper(skey[i])
  {
    var k :- GetValidKey(skey);
    assert k == ToUpperString(skey);
    var v := ConvertToIndices(k);
    ZeroEntriesAreLetterA(k);
    if IsWeakKey(v) then Failure(WeakKey)
    else
      NotWeakKeyShifts(v);
      Success(Cipher(v))
  }

  /** encrypt: validates the open text, then shifts each letter forward by
      the key entry at its position, cycling the key */
  function Encrypt(c: Cipher, openText: string): (r: Result<string, CipherError>)
    requires c.Valid()
    ensures r.Failure? <==> forall i :: 0 <= i < |openText| ==> !IsRussianLetter(openText[i])
    ensures r.Failure? ==> r.error == EmptyOpenText
    ensures r.Success? ==> |r.value| == |StripNonLetters(openText)|
    ensures r.Success? ==> GetValidCipherText(r.value) == Success(r.value)
  {
    var t :- GetValidOpenText(openText);
    Success(ConvertToText(Shift(ConvertToIndices(t), c.key)))
  }

  /** decrypt: validates the cipher text, then shifts each letter back by
      the key entry at its position, cycling the key */
  function Decrypt(c: Cipher, cipherText: string): (r: Result<string, CipherError>)
    requires c.Valid()
    ensures r.Success? <==> cipherText != [] && AllLetters(cipherText)
    ensures r.Failure? ==> r.error == (if cipherText == [] then EmptyCipherText else InvalidCipherText)
    ensures r.Success? ==> |r.value| == |cipherText| && AllLetters(r.value)
  {
    var t :- GetValidCipherText(cipherText);
    Success(ConvertToText(Unshift(ConvertToIndices(t), c.key)))
  }
}
