# A verified model of the Kryptologi Vigenère toolkit

The toolkit encrypts Swedish text with a Vigenère cipher over the 29-letter
alphabet `a`–`z`, `å`, `ä`, `ö`, and breaks such a ciphertext. Breaking it
takes three steps. First the key length is found with the index of
coincidence. Then the key is found by brute force for short keys, or by a
greedy variational search for long ones. Each candidate plaintext is scored
by how common its quadgrams (four consecutive letters) are. A separate tool
builds the quadgram frequency table from a corpus.

The model has one module per part of the source:

- `Outcomes`, `Tallies` (common.dfy). `Option`, `Result` and the three
  exceptions the core raises:
  - `NotInAlphabet(c)` is the ValueError of `ALPHABET.index(c)`;
  - `ZeroDivision` is `% len(key)` with an empty key, or the IC of a text
    shorter than 2;
  - `EmptyRange` is `randrange(0)`.

  The module also has zero tables and their sums.
- `Alphabet`. The alphabet, `ALPHABET.index` and `ALPHABET[i]`, and the
  first character outside the alphabet.
- `Quadgrams`. The base-29 quadgram number shared by the table builder and
  the fitness lookup.
- `Cleaning`. `clean_text`.
- `Decryption`. `decrypt`.
- `Encryption`. `vigenere_cipher`.
- `Scoring`. `fitness`.
- `Tetragrams`. `tetrafrequencies`.
- `Coincidence`. `index_of_coincidence`.
- `KeyLength`. `find_key_length`.
- `Keys`. The keys `product(ALPHABET, repeat=length)` yields, numbered in
  order.
- `BruteForce`. `brute_force`.
- `Variational`. `variational_key`.

Every loop of the source is a Dafny method. The list and dictionary updates
inside those loops are modelled as follows:

- the count tables of `tetrafrequencies` and `index_of_coincidence` are
  arrays;
- the key copy `k` of `variational_key` is an array.

Each method is proved equal to a specification function defined by
recursion over the input. The properties the source promises are lemmas
about those functions.

Python exceptions are the `Err` outcomes of `Result`. A float is a Dafny
`real`, and `float('-inf')` is `Score.NegInf`. Python's `>` on scores is
`Scoring.Above`.

## Model

| member | source | states |
|---|---|---|
| Alphabet.Index | vigenereSolver.py:9 | `ALPHABET.index(c)`: defined exactly for the 29 letters, and inverse to `ALPHABET[i]` |
| Alphabet.IndexIsStrIndex | vigenereSolver.py:9 | the index is the first position of the character in the alphabet string, and there is none for a character outside it |
| Alphabet.SymbolIsAlphabetLetter | vigenereSolver.py:9 | `ALPHABET[j]` for every j below 29 is the model's letter j |
| Alphabet.FirstNonLetter | vigenereSolver.py:33 | the position of the first character outside the alphabet, the one that raises |
| Quadgrams.QuadIndex | vigenereSolver.py:52-55 | the quadgram number lies below 29^4, the table's size |
| Quadgrams.DigitsOfIndex | tetragram.py:12-15 | the four letters can be read back from the number |
| Quadgrams.IndexOfDigits | tetragram.py:8-9 | every table index below 29^4 is the number of some quadgram |
| Quadgrams.QuadIndexInjective | tetragram.py:12-15 | distinct quadgrams get distinct numbers |
| Quadgrams.QuadgramAt | vigenereSolver.py:50-57 | the quadgram at position i has a number exactly when its four characters are letters |
| Cleaning.KeepLetters | vigenereSolver.py:25 | the kept text is made of letters and is no longer than the input |
| Cleaning.Lowered | vigenereSolver.py:22 | character i of the lowered text is the case mapping of character i |
| Cleaning.CleanText | vigenereSolver.py:20-27 | the cleaned text is made only of alphabet letters |
| Cleaning.KeepLettersIsSubsequence | vigenereSolver.py:25 | the output is obtained from the input by deleting characters, so order is kept |
| Cleaning.KeepLettersAppend | vigenereSolver.py:25 | filtering distributes over concatenation |
| Cleaning.KeepLettersFixed | vigenereSolver.py:25 | a text is left unchanged exactly when it is made only of letters |
| Cleaning.KeepLettersCounts | vigenereSolver.py:25 | each letter occurs as often in the output as in the input, and no other character occurs |
| Cleaning.CleanTextIdempotent | vigenereSolver.py:20-27 | cleaning twice is cleaning once, when lower-casing fixes the alphabet letters |
| Decryption.Decrypt | vigenereSolver.py:29-38 | the loop returns the position-by-position plaintext, or the first exception in the source's evaluation order |
| Decryption.DecipheredOk | vigenereSolver.py:32-35 | decryption succeeds exactly when no position fails: every character is a letter, and for a non-empty text the key is non-empty and every key character used is a letter |
| Decryption.DecipheredLetters | vigenereSolver.py:32-36 | on success plaintext letter i is `(index(c[i]) - index(k[i mod len(k)])) mod 29`, and the plaintext has the ciphertext's length |
| Decryption.DecipheredError | vigenereSolver.py:33-34 | on failure the exception is the one raised at some failing position |
| Decryption.DecipheredPrefixError | vigenereSolver.py:32-34 | an exception on a prefix is the exception of the whole text |
| Decryption.Unshift | vigenereSolver.py:35-36 | the plaintext as a whole has the ciphertext's length and is made of letters |
| Encryption.StripSpaces | vigenere.py:25-27 | the characters that are encrypted: no spaces, and no longer than the text |
| Encryption.KeyIndices | vigenere.py:17 | the key indices exist exactly for a key of letters and spell the key; otherwise the first non-letter of the key raises |
| Encryption.VigenereCipher | vigenere.py:12-40 | the result does not depend on `encrypt`, since line 14 forces encryption, and equals the specification of encryption |
| Encryption.EncipherLoop | vigenere.py:25-38 | the loop skips spaces without advancing `key_pos`, shifts each other character by the key index at `key_pos mod len(key)`, and raises at the first failure |
| Encryption.EncipherLetter | vigenere.py:29-37 | one encrypted letter is `(t + key[j mod len(key)]) mod 29`, with j the number of characters output so far |
| Encryption.EncipheredOk | vigenere.py:17-30 | encryption succeeds exactly when the key and every non-space character are letters, and the key is non-empty unless there is nothing to encrypt |
| Encryption.EncipheredShift | vigenere.py:25-38 | on success the output is the non-space text shifted by the repeating key: its length is the number of non-space characters and it is made of letters |
| Encryption.EncipheredError | vigenere.py:17-30 | which exception is raised: first a non-letter of the key, then for an empty key the first non-space character decides between ValueError and ZeroDivisionError, else the first non-letter of the text |
| Encryption.DecryptUndoesEncrypt | vigenere.py:33 | decrypting an encryption with the same key gives the text with its spaces removed |
| Encryption.EncryptUndoesDecrypt | vigenereSolver.py:35 | encrypting a successful decryption with the same key gives the ciphertext back |
| Encryption.UnshiftShift | vigenere.py:33 | decryption undoes the key shift on letters |
| Encryption.ShiftOfUnshift | vigenereSolver.py:35 | the key shift undoes decryption on letters |
| Scoring.Fitness | vigenereSolver.py:42-65 | the loop returns -inf for fewer than 4 characters, otherwise the sum of the quadgram contributions divided by their number |
| Scoring.FitnessOf | vigenereSolver.py:42-44 | the score is -inf exactly when the text has fewer than 4 characters |
| Scoring.ContributionCases | vigenereSolver.py:51-63 | an unknown quadgram (a non-letter, the KeyError path, or frequency 0) adds -1000; a known one adds the logarithm of its table entry |
| Scoring.FitnessBounds | vigenereSolver.py:65 | the score is an average: it lies between the least and the greatest contribution |
| Scoring.AllUnknown | vigenereSolver.py:57-61 | a text whose every quadgram is unknown scores exactly -1000 |
| Tetragrams.Tetrafrequencies | tetragram.py:7-22 | the function returns the table specification: all zeros and not normalised for fewer than 4 characters, else the counts divided by the number of quadgrams; the first non-letter raises |
| Tetragrams.CountQuadgrams | tetragram.py:11-16 | the counting loop increments the entry of every quadgram, or raises for the first character outside the alphabet |
| Tetragrams.QuadgramNumber | tetragram.py:12-15 | the index expression succeeds exactly for four letters and gives the quadgram's number; otherwise it raises for the first non-letter |
| Tetragrams.TetraTable | tetragram.py:7-22 | the table has 29^4 entries, it succeeds exactly for texts of letters or texts shorter than 4, and a short text gives all zeros |
| Tetragrams.RawCountsOccurrences | tetragram.py:11-16 | before normalisation, entry x is the number of positions whose quadgram has number x |
| Tetragrams.RawCountsSum | tetragram.py:11-16 | over letters the raw counts sum to the number of positions counted |
| Tetragrams.TableFrequencies | tetragram.py:18-20 | entry x is the relative frequency of quadgram x |
| Tetragrams.TableSumsToOne | tetragram.py:18-20 | the normalised entries sum to 1 |
| Tetragrams.ReadBack | vigenereSolver.py:52-56 | the table and the fitness lookup agree: scored against its own table, every quadgram of a text is known and adds the logarithm of its relative frequency |
| Coincidence.IndexOfCoincidence | vigenereSolver.py:68-80 | the loop counts letters in place, sums `c*(c-1)` and the counts, and returns `29*freq/(total*(total-1))` or raises |
| Coincidence.LetterCountsMeaning | vigenereSolver.py:71-72 | count a is the number of occurrences of letter a, and the counts sum to the length of the text |
| Coincidence.IndexOfCoincidenceErrors | vigenereSolver.py:72-80 | the IC raises exactly for a non-letter or a text shorter than 2 (a division by zero); otherwise it is `29 * pairs / (n*(n-1))` |
| Coincidence.RepeatedLetter | vigenereSolver.py:68-80 | a text of one repeated letter has IC exactly 29 |
| Coincidence.DistinctLetters | vigenereSolver.py:68-80 | a text of distinct letters has IC exactly 0 |
| KeyLength.Slices | vigenereSolver.py:89-92 | there are `period` slices |
| KeyLength.SliceContents | vigenereSolver.py:91-92 | slice j holds exactly the characters at positions `j, j+p, j+2p, ...` below the length, in order |
| KeyLength.SliceLengthsSum | vigenereSolver.py:91-92 | the slice lengths sum to the length of the text |
| KeyLength.PeriodAverage | vigenereSolver.py:88-97 | one round of the outer loop builds the slices and averages their ICs, or raises |
| KeyLength.PeriodBound | vigenereSolver.py:95-96 | an average can only be computed for a period below the text length, since a longer period leaves a slice shorter than 2 |
| KeyLength.KeyLengthStep | vigenereSolver.py:87-100 | one round raises, accepts an average above 1.6, or moves on to the next period |
| KeyLength.FindKeyLength | vigenereSolver.py:83-102 | the loop returns the specification of the key-length search |
| KeyLength.KeyLengthLeast | vigenereSolver.py:83-102 | the returned period is the least period whose average IC exceeds 1.6, and it is below the text length |
| KeyLength.KeyLengthError | vigenereSolver.py:83-102 | an exception is raised by the first period that does not compute, and every earlier period was rejected |
| Keys.KeyCount | vigenereSolver.py:110 | there is at least one key of every length (29^length of them) |
| Keys.KeyAt | vigenereSolver.py:110-111 | every key of length `length` is made of letters and has that length |
| Keys.DigitsOfNumber | vigenereSolver.py:110 | every key is produced exactly once: each letter sequence is the key of some number below the key count |
| Keys.NumberOfDigits | vigenereSolver.py:110 | each number's key reads back as that number |
| Keys.DigitsOrder | vigenereSolver.py:110 | keys are produced in lexicographic alphabet order |
| Keys.KeyAtInjective | vigenereSolver.py:110 | distinct numbers give distinct keys |
| BruteForce.Scores | vigenereSolver.py:110-113 | there is one score per key |
| BruteForce.BruteForceSearch | vigenereSolver.py:105-122 | the loop returns the specification of the brute-force search |
| BruteForce.Report | vigenereSolver.py:122 | the return statement decrypts with the best key only when it is a non-empty string |
| BruteForce.SearchRunning | vigenereSolver.py:110-120 | before any break every score so far is Ok and at most -50; the best key is the first key of the strict running maximum, and none means every score was -inf |
| BruteForce.SearchStopped | vigenereSolver.py:115-120 | after the break the best key is the key that stopped the loop, the first key scoring above -50 |
| BruteForce.StopIsBest | vigenereSolver.py:115-120 | a score above -50 beats a best score that is not above -50, so the stopping key is adopted |
| BruteForce.EarlyExit | vigenereSolver.py:105-122 | when key k is the first key scoring above -50, that key and its plaintext are returned |
| BruteForce.FullSearch | vigenereSolver.py:105-122 | without an early exit the result is the first key of the highest score, and no key exactly when every score is -inf |
| BruteForce.AllNegInf | vigenereSolver.py:122 | if every key scores -inf the result is (None, None) |
| BruteForce.ShortCiphertext | vigenereSolver.py:105-122 | a ciphertext of letters shorter than 4 gives (None, None) for every non-zero length |
| Variational.Initial | vigenereSolver.py:126 | the starting key has length `length` and is made of letters |
| Variational.Candidate | vigenereSolver.py:133-134 | a candidate differs from the round's starting key only at the random index, where it holds letter i |
| Variational.Round | vigenereSolver.py:130-140 | one round tries the 29 letters at the random index on the copy `k`, and returns the specification of the round |
| Variational.SweepAdopts | vigenereSolver.py:133-140 | a round keeps the key's length and changes it only at the random index; the best score never decreases; either nothing is adopted, or the best score strictly increases and is the score of the adopted candidate |
| Variational.SweepMaximum | vigenereSolver.py:133-140 | no candidate of a round scores above the round's final best |
| Variational.SweepError | vigenereSolver.py:135 | an exception in a round is the exception of the whole round |
| Variational.RoundsResult | vigenereSolver.py:129-140 | the loop ends with a key of the right length and letters, a best score at least the threshold and the starting score, and the key is either the starting key or one that scores exactly the best |
| Variational.VariationalKey | vigenereSolver.py:125-142 | the method returns the specification of the variational search |
| Variational.VariationalResult | vigenereSolver.py:125-142 | on return the key has length `length` and is made of letters, and the plaintext is its decryption; the plaintext scores at least the threshold, unless the threshold is at most -9999, when the all-`a` key is returned |
| Variational.EmptyKey | vigenereSolver.py:129-142 | with length 0, `randrange(0)` raises if the loop runs; otherwise the final decryption raises for a non-empty ciphertext |
| Variational.DecipheredEmptyKey | vigenereSolver.py:33-34 | decryption with an empty key raises at the first character |

## Left out

- File reading and writing, the `pickle` load and dump, `main` in all three
  files, printing, timing and `sys.argv` handling are not modelled. The
  quadgram table is a parameter, `QuadModel.freq`.
- The choice in `main` between brute force and the variational search for
  keys longer than 4 is left out with `main`.
- `MONOFREQUENCIES` is never used.
- The natural logarithm is a parameter, `QuadModel.log`, whose values are
  not modelled. Floats are Dafny reals, so IEEE rounding is not modelled.
  The threshold 1.6 is the exact real 1.6.
- `Cleaning.Lowered`: Python's Unicode `str.lower` is a parameter that maps
  each character to one character. Case mappings that change the length of
  the string are not modelled.
- `randrange(length)` is the sequence `choices` of the positions it returns,
  each below `length`. `variational_key`'s loop has no bound, so the model
  stops with `None` when the choices run out. A run where the threshold is
  never reached therefore ends with `None` in the model, where the source
  loops for ever.
- `find_key_length` needs no bound. The source calls `index_of_coincidence`
  for every slice, and that divides by zero for a slice shorter than 2. So
  by the time the period reaches the text length the loop has either
  accepted or raised. The model follows the code here. It does not treat
  such a slice as IC 0.
- `Tetragrams.Tetrafrequencies` returns the unnormalised zero table of a
  text shorter than 4 as reals. The source returns a list of integers
  there, so only the number type differs.
- The three files each define `ALPHABET`. In vigenere.py and tetragram.py
  the last three letters of the literal appear in a garbled encoding. The
  model reads all three as `å`, `ä`, `ö`, the literal of vigenereSolver.py.
- The enumeration order of `itertools.product` is modelled by numbering the
  keys (`Keys.KeyAt`). It is not an iterator.
- `Decryption.Decrypt` takes the key as a string both in `brute_force` and
  in `variational_key`. In the latter the source passes the list `k`, and
  the model passes `k[..]`, which indexes identically.
