# Gronsfeld cipher (`modAlphaCipher`) in Dafny

A model of the class `modAlphaCipher` of `Timp4/modAlphaCipher.h`: a
Gronsfeld (Vigenère-style) cipher over the 33 uppercase Russian letters
`АБВГДЕЁЖЗИЙКЛМНОПРСТУФХЦЧШЩЪЫЬЭЮЯ`.

- The constructor validates the key: it must be non-empty, and every
  character must be a Russian letter. Lowercase letters are uppercased. The
  key becomes a vector of 0-based alphabet positions. A degenerate key is
  rejected: one in which more than half of the letters are А, the letter
  that shifts by 0.
- `encrypt` uppercases the open text and drops every non-letter. It fails
  when nothing remains. It then shifts the letter at position `i` forward by
  `key[i mod |key|]`, modulo 33.
- `decrypt` rejects empty text, lowercase letters and non-letters outright.
  It shifts the letter at position `i` back by `key[i mod |key|]`, computed
  as `(x + 33 - k) mod 33`.
- The two `convert` overloads translate between letters and positions.

The model follows the contracts documented in `modAlphaCipher.h` and the
standard Gronsfeld rule.

Files:

- `results.dfy` (module `Results`): the `Result` type that replaces the
  `cipher_error` exception.
- `alphabet.dfy` (module `Alphabet`): `numAlpha`, the `alphaNum` lookup,
  and the Cyrillic case mapping.
- `mod_alpha_cipher.dfy` (module `ModAlphaCipher`): `convert`, the three
  validators, the constructor, `encrypt` and `decrypt`.
- `cipher_properties.dfy` (module `CipherProperties`): round trips,
  idempotence, case insensitivity, key cycling, and worked examples.

Modelling choices:

- Text is `string`, a sequence of code points. This is the UTF-32
  `wstring` the class works on internally.
- Failures are `Result.Failure` with a `CipherError` tag: `EmptyKey`,
  `InvalidKey`, `WeakKey`, `EmptyOpenText`, `EmptyCipherText` or
  `InvalidCipherText`. Partial results are never returned.
- The header calls a rejected key "degenerate" (`вырожденный`) without
  defining the word. The model chooses a definition: more than half of the
  key letters are А. A key made only of А, which
  would leave every text unchanged, is always rejected
  (`CipherProperties.AllAKeyRejected`).
- `towupper` is replaced by `Alphabet.ToUpper`. It maps the i-th letter of
  `абвгдеёжзийклмнопрстуфхцчшщъыьэюя` to the i-th letter of the alphabet
  (`Alphabet.ToUpperPairsAlphabets`), and leaves every other character
  unchanged.
- Both alphabets are defined letter by letter from code points.
  `Alphabet.NumAlphaByCodePoint` and `Alphabet.LowerAlphaByCodePoint` prove
  that they spell exactly the two strings above.
- A "letter" is a Russian letter, following the warning that the class is
  implemented for Russian only (`modAlphaCipher.h:16`). Letters of other
  scripts are treated as non-letters: stripped from open text, rejected in
  keys and cipher text. This includes letters outside the Russian alphabet
  that a locale uppercases into it. The last section lists what a
  locale-based letter test would do differently.
- Letter tests are decided by code point: А..Я is U+0410..U+042F and Ё is
  U+0401. `Alphabet.InAlphabetIsMembership` proves this test is the same as
  membership in `numAlpha`.
- The cipher instance is the immutable datatype `Cipher(key)`. `Valid()`
  is exactly what the constructor establishes: the key vector is
  non-empty, every entry is in `[0, 33)`, and it is not degenerate.
  `New` yields only valid ciphers, and every valid cipher is the result of
  `New` on the key its vector spells (`CipherProperties.ValidCipherIsConstructed`).
  `encrypt`, `decrypt` and their lemmas are stated for every valid cipher.
- All values fed to `%` are non-negative. Dafny's Euclidean `%` therefore
  agrees with C++'s `%` here.
- With Ё at position 6, the letter М has index 13. So the key "ГММА" is the
  vector `[3, 13, 13, 0]`, and "ШИФР" encrypts to "ЫХБР".

## Model

| member | source | states |
|---|---|---|
| Alphabet.NumAlphaByCodePoint | Timp4/modAlphaCipher.h:21 | the alphabet, defined letter by letter from code points (Ё at position 6, the rest of А..Я in code order), has 33 letters and spells exactly `АБВГДЕЁЖЗИЙКЛМНОПРСТУФХЦЧШЩЪЫЬЭЮЯ` |
| Alphabet.AlphabetDistinct | Timp4/modAlphaCipher.h:21 | the 33 letters of `numAlpha` are pairwise distinct |
| Alphabet.InAlphabetIsMembership | Timp4/modAlphaCipher.h:21 | the code-point letter test holds exactly for the characters of `numAlpha` |
| Alphabet.IndexOf | Timp4/modAlphaCipher.h:22 | for an alphabet letter, returns its position p in [0,33) with `numAlpha[p]` equal to the letter; for any other character, returns 0, the value a `std::map` lookup of an absent key gives |
| Alphabet.AlphaNumInvertsNumAlpha | Timp4/modAlphaCipher.h:21-22 | `alphaNum[numAlpha[i]] == i` for every i in [0,33); every key of `alphaNum` is a letter, and `numAlpha[alphaNum[c]] == c` |
| Alphabet.AlphaNumSize | Timp4/modAlphaCipher.h:22 | `alphaNum` has exactly 33 entries, the modulus used by encrypt and decrypt |
| Alphabet.ToUpper | Timp4/modAlphaCipher.h:38-40 | a lowercase Russian letter becomes an alphabet letter; any other character is unchanged; the result is in the alphabet exactly when the input is a Russian letter of either case |
| Alphabet.LowerAlphaByCodePoint | Timp4/modAlphaCipher.h:38-40 | the lowercase alphabet, defined letter by letter from code points (ё at position 6), has 33 letters and spells exactly `абвгдеёжзийклмнопрстуфхцчшщъыьэюя` |
| Alphabet.ToUpperPairsAlphabets | Timp4/modAlphaCipher.h:38-40 | uppercasing sends the i-th letter of `абвгдеёжзийклмнопрстуфхцчшщъыьэюя` to the i-th letter of `numAlpha`, for every i in [0,33) |
| Alphabet.IsLowerIsMembership | Timp4/modAlphaCipher.h:38-40 | a character is a lowercase Russian letter exactly when it occurs in the lowercase alphabet string |
| Alphabet.ToUpperLowerBijection | Timp4/modAlphaCipher.h:38-40 | uppercasing maps the 33 lowercase letters one-to-one onto the alphabet |
| ModAlphaCipher.ConvertToIndices | Timp4/modAlphaCipher.h:24-29 | one position per character; for alphabet text every position is in [0,33) and names that character in `numAlpha` |
| ModAlphaCipher.ConvertToText | Timp4/modAlphaCipher.h:30-35 | for in-range positions, emits one uppercase alphabet letter per position, and the letter's position is the input entry |
| ModAlphaCipher.GetValidKey | Timp4/modAlphaCipher.h:36-45 | succeeds exactly when the key is non-empty and every character is a Russian letter of either case; fails with EmptyKey on the empty key and InvalidKey otherwise; on success returns the uppercased key, same length, all alphabet letters |
| ModAlphaCipher.StripNonLetters | Timp4/modAlphaCipher.h:46-55 | the result holds only alphabet letters and is no longer than the input; it is empty exactly when the input contains no Russian letter |
| ModAlphaCipher.GetValidOpenText | Timp4/modAlphaCipher.h:46-55 | fails with EmptyOpenText exactly when the text contains no Russian letter; otherwise returns the input's letters, uppercased and in order, with everything else removed (`StripNonLetters`, pinned down by `StripNonLettersAppend` and `StripNonLettersSingle`): non-empty uppercase alphabet text no longer than the input |
| ModAlphaCipher.GetValidCipherText | Timp4/modAlphaCipher.h:56-65 | fails with EmptyCipherText on empty text and with InvalidCipherText when any character is lowercase or a non-letter; accepts non-empty all-uppercase alphabet text and returns it unchanged |
| ModAlphaCipher.Shift | Timp4/modAlphaCipher.h:81-90 | the encrypt loop keeps the vector length and keeps every position in [0,33) |
| ModAlphaCipher.Unshift | Timp4/modAlphaCipher.h:91-99 | the decrypt loop keeps the vector length and keeps every position in [0,33) |
| ModAlphaCipher.CountOfConstant | Timp4/modAlphaCipher.h:72-80 | helper for counting the А letters of a degenerate key: a sequence whose entries all equal x holds x as many times as its length |
| ModAlphaCipher.ZeroEntriesAreLetterA | Timp4/modAlphaCipher.h:72-80 | in the key vector of alphabet text, the number of zero shifts equals the number of letters А |
| ModAlphaCipher.NotWeakKeyShifts | Timp4/modAlphaCipher.h:72-80 | a non-empty key vector that is not degenerate has a non-zero shift |
| ModAlphaCipher.New | Timp4/modAlphaCipher.h:72-80 | construction succeeds exactly when the key is non-empty, all Russian letters, and at most half of its letters are А/а; the error is EmptyKey on the empty key, InvalidKey on a non-letter, WeakKey on a degenerate key; the key vector is non-empty, has the key's length, has entries in [0,33), has a non-zero shift, and entry i names the uppercased key character i |
| CipherProperties.NewKeyVector | Timp4/modAlphaCipher.h:72-80 | a constructed cipher's key vector is the alphabet positions of the uppercased key |
| CipherProperties.ValidCipherIsConstructed | Timp4/modAlphaCipher.h:72-80 | every valid cipher is what the constructor returns for the key its vector spells, so the valid ciphers are exactly the constructed ones |
| ModAlphaCipher.Encrypt | Timp4/modAlphaCipher.h:81-90 | fails with EmptyOpenText exactly when the open text has no Russian letter; the cipher text has the length of the stripped open text and is always accepted by cipher-text validation |
| ModAlphaCipher.Decrypt | Timp4/modAlphaCipher.h:91-99 | succeeds exactly on non-empty all-uppercase alphabet text; fails with EmptyCipherText or InvalidCipherText; the output has the input's length and only alphabet letters |
| CipherProperties.ConvertTextRoundTrip | Timp4/modAlphaCipher.h:24-35 | `convert(convert(s)) == s` for every string of alphabet letters |
| CipherProperties.ConvertIndicesRoundTrip | Timp4/modAlphaCipher.h:24-35 | `convert(convert(v)) == v` for every vector of positions in [0,33) |
| CipherProperties.GetValidKeyIdempotent | Timp4/modAlphaCipher.h:36-45 | a validated key validates again to itself |
| CipherProperties.GetValidKeyCaseInsensitive | Timp4/modAlphaCipher.h:36-45 | validating the uppercased key gives the same result as validating the key |
| CipherProperties.StripNonLettersAppend | Timp4/modAlphaCipher.h:46-55 | stripping a concatenation is the concatenation of the stripped parts |
| CipherProperties.StripNonLettersSingle | Timp4/modAlphaCipher.h:46-55 | one character is kept, uppercased, exactly when it is a Russian letter |
| CipherProperties.StripNonLettersKeepsLetters | Timp4/modAlphaCipher.h:46-55 | text made only of alphabet letters is left unchanged |
| CipherProperties.StripNonLettersCaseInsensitive | Timp4/modAlphaCipher.h:46-55 | uppercasing before stripping changes nothing |
| CipherProperties.GetValidOpenTextIdempotent | Timp4/modAlphaCipher.h:46-55 | open-text validation accepts its own output unchanged |
| CipherProperties.GetValidOpenTextCaseInsensitive | Timp4/modAlphaCipher.h:46-55 | open-text validation gives the same result on the uppercased text |
| CipherProperties.ValidatorsAgreeOnCanonicalText | Timp4/modAlphaCipher.h:46-65 | whatever cipher-text validation accepts, open-text validation accepts with the same result |
| CipherProperties.ShiftEntryRoundTrip | Timp4/modAlphaCipher.h:81-99 | for a position and a key entry in [0,33), shifting forward then back, or back then forward, returns the position |
| CipherProperties.UnshiftShift | Timp4/modAlphaCipher.h:81-99 | the decrypt loop undoes the encrypt loop for every in-range vector and valid key |
| CipherProperties.ShiftUnshift | Timp4/modAlphaCipher.h:81-99 | the encrypt loop undoes the decrypt loop for every in-range vector and valid key |
| CipherProperties.DoubledKeyEntry | Timp4/modAlphaCipher.h:81-90 | position i reads the same entry from the key written twice as from the key itself |
| CipherProperties.ShiftDoubledKey | Timp4/modAlphaCipher.h:81-90 | the key is cycled: shifting with the key written twice equals shifting with the key |
| CipherProperties.ShiftEntryInjective | Timp4/modAlphaCipher.h:81-90 | different key entries shift the same position to different positions |
| CipherProperties.ShiftKeyCycling | Timp4/modAlphaCipher.h:81-90 | take two keys that differ only at entry j; output position i agrees exactly when i mod the key length is not j |
| CipherProperties.ShiftZeroKey | Timp4/modAlphaCipher.h:81-90 | an all-zero key vector leaves the vector unchanged, which is why the constructor rejects such a key |
| CipherProperties.DecryptEncrypt | Timp4/modAlphaCipher.h:81-99 | for a valid cipher and non-empty text of uppercase alphabet letters, encrypt succeeds and decrypt returns the text |
| CipherProperties.DecryptEncryptNormalises | Timp4/modAlphaCipher.h:81-99 | for any open text that encrypts, decrypting gives back the open text uppercased with non-letters removed |
| CipherProperties.EncryptDecrypt | Timp4/modAlphaCipher.h:81-99 | for any cipher text that decrypts, encrypting the result gives back the cipher text |
| CipherProperties.EncryptIgnoresNonLetters | Timp4/modAlphaCipher.h:81-90 | encrypting the stripped open text gives the same result as encrypting the open text |
| CipherProperties.EncryptSameLetters | Timp4/modAlphaCipher.h:81-90 | two open texts whose letters, uppercased and in order, are the same encrypt to the same result |
| CipherProperties.EncryptCaseInsensitive | Timp4/modAlphaCipher.h:81-90 | encrypting the uppercased open text gives the same result as encrypting the open text |
| CipherProperties.EncryptKeyCycling | Timp4/modAlphaCipher.h:81-90 | changing key entry j changes exactly the cipher letters at positions congruent to j modulo the key length |
| CipherProperties.AllAKeyRejected | Timp4/modAlphaCipher.h:72-80 | a non-empty key made only of А/а is rejected with WeakKey |
| CipherProperties.NewDoubledKeyVector | Timp4/modAlphaCipher.h:72-80 | a key written twice is accepted when the key is, and its key vector is the key vector written twice |
| CipherProperties.NewDoubledKey | Timp4/modAlphaCipher.h:72-90 | a key written twice is valid when the key is, and encrypts every text exactly as the key does |
| CipherProperties.KeyExample | Timp4/modAlphaCipher.h:72-80 | the key "ГММА" yields the key vector [3, 13, 13, 0] |
| CipherProperties.LowercaseKeyExample | Timp4/modAlphaCipher.h:72-80 | the key "гмма" yields the same key vector as "ГММА" |
| CipherProperties.BadKeyExample | Timp4/modAlphaCipher.h:72-80 | the empty key fails with EmptyKey, and "ГМ1А" fails with InvalidKey |
| CipherProperties.WeakKeyExample | Timp4/modAlphaCipher.h:72-80 | the keys "А" and "ааБ" fail with WeakKey |
| CipherProperties.HalfAKeyExample | Timp4/modAlphaCipher.h:72-80 | the key "АБ", half of whose letters are А, is accepted with key vector [0, 1] |
| CipherProperties.EncryptExample | Timp4/modAlphaCipher.h:81-90 | "ШИФР" under key [3, 13, 13, 0] encrypts to "ЫХБР" |
| CipherProperties.StripLettersExample | Timp4/modAlphaCipher.h:46-55 | stripping "шифр" gives "ШИФР" |
| CipherProperties.StripNonLettersExample | Timp4/modAlphaCipher.h:46-55 | stripping " 123!" gives the empty text |
| CipherProperties.StripMixedExample | Timp4/modAlphaCipher.h:46-55 | stripping "шифр 123!" gives "ШИФР" |
| CipherProperties.EncryptStripsExample | Timp4/modAlphaCipher.h:81-90 | "шифр 123!" encrypts to "ЫХБР", the same as "ШИФР" |
| CipherProperties.DecryptExample | Timp4/modAlphaCipher.h:91-99 | "ЫХБР" under key [3, 13, 13, 0] decrypts to "ШИФР" |
| CipherProperties.BadTextExample | Timp4/modAlphaCipher.h:81-99 | empty open text fails with EmptyOpenText; empty cipher text fails with EmptyCipherText; lowercase cipher text fails with InvalidCipherText |

## Left out

- `towstr` / `fromwstr` (UTF-8 to UTF-32 and back through `std::codecvt`): library code. Text is modelled directly as code points, and the decoding failure of malformed UTF-8 is not modelled.
- The `cipher_error` exception class and its message strings: failures are `Result.Failure` values with a `CipherError` tag.
- The deleted default constructor: there is no keyless cipher, since a `Cipher` always carries a key vector. The datatype constructor `Cipher(key)` can still build a value `New` never returns, but such a value is not `Valid()`, and every operation on a cipher requires `Valid()`.
- ModAlphaCipher.New: "degenerate" is not defined in the class documentation (`modAlphaCipher.h:78`). The model rejects a key in which more than half of the letters are А. A different threshold would change which keys fail with WeakKey, but never the all-А key.
- ModAlphaCipher.StripNonLetters: keeps Russian letters only. A locale `iswalpha` also counts Latin, Ukrainian and other letters as letters, so a locale-based implementation would keep them in the open text. The model drops them, following the warning that the class is implemented for Russian only (`modAlphaCipher.h:16`).
- ModAlphaCipher.GetValidCipherText: rejects every character outside the Russian alphabet. A locale `iswupper` test would accept an uppercase Latin letter, as the documentation rejects only lowercase letters and non-letters. The model rejects it, for the same Russian-only reason.
- Alphabet.IndexOf: a `std::map` lookup of an absent character also inserts it and grows `alphaNum`, which would change the modulus if the transform takes it from `alphaNum.size()`. This side effect is not modelled. In the model every caller validates the text first, so no character outside the alphabet reaches the lookup. That holds for the model only: a locale-based letter test (the two lines above) could let a non-Russian letter reach it.
- Alphabet.ToUpper: uppercases only а..я and ё. A locale's `towupper` also changes Latin and other letters, and some of them land in the Russian alphabet: the Cyrillic Extended-C letters U+1C80..U+1C86 uppercase to В, Д, О, С, Т, Т and Ъ. The model treats those letters as non-letters.
- ModAlphaCipher.GetValidKey: rejects every key character that is not а..я, ё or an alphabet letter with InvalidKey. A locale letter test would accept Latin letters and the Cyrillic Extended-C letters in a key; the latter would be uppercased into the alphabet, so a key such as "ᲀБ" would become "ВБ" instead of failing.
- ModAlphaCipher.GetValidOpenText: the documented "empty or contains invalid characters" error (`modAlphaCipher.h:52-53`) is modelled only for the empty case. The model follows the documentation of `encrypt` (`modAlphaCipher.h:85-88`): every non-letter is removed, and the only error is text with no letter left. Letters outside the Russian alphabet are removed, not rejected.
- ModAlphaCipher.Shift: its contract states only length and range. Its meaning is stated by the round-trip and key-cycling lemmas about it.
- ModAlphaCipher.Unshift: its contract states only length and range. Its meaning is stated by `UnshiftShift` and `ShiftUnshift`.
- ModAlphaCipher.ConvertToText: requires every position to be in [0,33). The C++ indexing of `numAlpha` outside that range is undefined behaviour, and every caller passes in-range positions.
