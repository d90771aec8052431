# Minisculus cipher engine in Dafny

A model of the Minisculus puzzle cipher (a Rust program in one source file, `src/main.rs`).
The model has four parts:

- **Alphabet.** A 69-symbol dial: digits, capitals, small letters, then `.,?!'"` and the space. It comes with the codec between symbols and dial positions.
- **Wheels.** The offset `(wheel1 - 2*wheel2 + 2*wheel3) mod 69` that the wheels add to each symbol's index.
- **Cipher.** The encrypt and decrypt loops. When feedback is on, they move the third wheel to the index of the plaintext symbol just handled. There are also the four machine configurations `encrypt_i`, `encrypt_ii`, `encrypt_iv` and `decrypt_iv`.
- **Cracker.** A known-plaintext attack. It tries all 69×69 wheel pairs in order (wheel1 outer, wheel2 inner) until the feedback decryption contains `BUNKER` or `FURLIN`. It then lists every pair with the same baseline offset, which all decrypt the message identically.

Modules, one per file:

- `Failures`: the `Error`/`Result` types.
- `Alphabet`: `KEYS`, `KeyToInt`, `IntToKey`.
- `Wheels`: `WheelOffset`.
- `Cipher`: encryption and decryption.
- `Cracker`: the attack.

How the source is mapped:

- **Aborts become errors.** The source aborts the process in two places: `key_to_int` on a character off the dial, and `crack_iv_wheels` when no pair reveals a keyword. Here these are results, `Err(InvalidSymbol)` and `Err(NoKeywordMatch)`. Every caller passes them on, so a message with any bad symbol fails just as the source's run would.
- **Loops become methods.** The loops in `encrypt`, `decrypt`, `crack_iv_wheels` and `crack_iv` are methods with loop invariants. `Cipher.Encrypt` and `Cipher.Decrypt` are proved equal to the recursive functions `EncryptFrom` and `DecryptFrom`. `Cracker.CrackIVWheels` is proved to return a pair satisfying the quantified predicate `IsFirstMatch`, and lemma `FirstMatchUnique` shows at most one pair does. `Cracker.CollectOffsetClass` is proved equal to `Partners`, a sequence built by comprehension. The properties are lemmas about these definitions.
- **KEYS is computed.** The dial is built by position arithmetic (`KeyAt`), not spelled out, because a 69-entry literal is very costly for the verifier to index. Lemma `Alphabet.KeysTable` proves that `KEYS` equals the source's table symbol for symbol.
- **Fixed choices of the attack.** The keywords `BUNKER` and `FURLIN` and the feedback configuration are fixed, as in `crack_iv_wheels` (src/main.rs:93-95). The list of pairs is the ordered `Vec` that `crack_iv` builds (src/main.rs:108-116), one pair per wheel1 in ascending order.
- **Feedback in decryption.** Decryption feeds back `key_to_int` of the recovered symbol (src/main.rs:66-68). The contract of `Alphabet.IntToKey` shows this equals the recovered plaintext index, which is what encryption feeds back (src/main.rs:46-48).

## Model

| member | source | states |
|---|---|---|
| Alphabet.KeysTable | src/main.rs:1-6 | the dial is exactly the source's 69-symbol table, in its order |
| Alphabet.KeysDistinct | src/main.rs:1-6 | no symbol occurs at two positions of the dial |
| Alphabet.KeyToInt | src/main.rs:10-24 | an accepted symbol gets a position in [0, 69) that holds that very symbol; any other character is rejected with InvalidSymbol |
| Alphabet.KeyToIntAccepts | src/main.rs:10-24 | the codec accepts exactly the symbols of the dial |
| Alphabet.KeyToIntOfKey | src/main.rs:10-24 | decoding the symbol at any position gives back that position |
| Alphabet.IntToKey | src/main.rs:26-28 | total on all integers; the symbol decodes to n mod 69 (Euclidean, so also for negative n) |
| Alphabet.IntToKeyPeriodic | src/main.rs:26-28 | the symbol depends only on n mod 69 and is unchanged by adding whole turns of the dial |
| Alphabet.IntToKeyOfKeyToInt | src/main.rs:10-28 | encoding the decoded index gives the symbol back |
| Alphabet.KeyToIntOfIntToKey | src/main.rs:10-28 | decoding the encoded index of a position gives the position back |
| Alphabet.ShiftThenUnshift | src/main.rs:41-42 | shifting a symbol forward by some offset and back by the same offset restores it |
| Alphabet.UnshiftThenShift | src/main.rs:61-62 | shifting a symbol back and then forward by the same offset restores it |
| Wheels.WheelOffset | src/main.rs:30-32 | the offset always lies in [0, 69) |
| Wheels.WheelOffsetPeriodic | src/main.rs:30-32 | adding whole turns to any of the three wheels leaves the offset unchanged |
| Wheels.WheelOffsetBaseline | src/main.rs:30-32 | the offset is the baseline offset (third wheel at 0) plus twice the third wheel, mod 69 |
| Wheels.WheelOffsetEquivalent | src/main.rs:30-32 | two wheel pairs with the same baseline offset have the same offset for every third-wheel value |
| Wheels.BaselinePartner | src/main.rs:30-32 | for each wheel1 and baseline offset there is exactly one wheel2 on the dial giving that offset, namely 35·(wheel1 − offset) mod 69 |
| Cipher.Encrypt | src/main.rs:34-52 | the loop's result is the encryption specification: each symbol is shifted by the current offset and, with feedback, the third wheel takes the plaintext index; the first symbol off the dial fails the message |
| Cipher.Decrypt | src/main.rs:54-72 | the loop's result is the decryption specification: each symbol is shifted back by the current offset and, with feedback, the third wheel takes the decoded recovered symbol |
| Cipher.EncryptFromShape | src/main.rs:34-52 | encryption succeeds exactly on texts over the dial, fails otherwise with InvalidSymbol, and yields a text over the dial of the same length |
| Cipher.DecryptFromShape | src/main.rs:54-72 | decryption succeeds exactly on texts over the dial, fails otherwise with InvalidSymbol, and yields a text over the dial of the same length |
| Cipher.DecryptFromEncryptFrom | src/main.rs:34-72 | decryption undoes encryption for any wheels, feedback flag and starting third wheel |
| Cipher.EncryptFromDecryptFrom | src/main.rs:34-72 | encryption undoes decryption for any wheels, feedback flag and starting third wheel |
| Cipher.RoundTrip | src/main.rs:34-72 | for every message, wheels and flag: encryption succeeds iff the message is over the dial, errors are InvalidSymbol, and decrypt∘encrypt and encrypt∘decrypt are the identity |
| Cipher.EncryptFromAt | src/main.rs:38-48 | ciphertext symbol i is plaintext symbol i shifted by the offset whose third wheel holds plaintext index i−1 when feedback is on (else its start value) |
| Cipher.DecryptFromAt | src/main.rs:58-68 | recovered symbol i is cipher symbol i shifted back by the offset whose third wheel holds the index of recovered symbol i−1 when feedback is on |
| Cipher.DecryptFromEquivalent | src/main.rs:30-32 | wheel pairs with equal baseline offset decrypt every text identically |
| Cipher.ConstantShift | src/main.rs:34-52 | without feedback every symbol is shifted by the same amount wheel1 − 2·wheel2 |
| Cipher.EncryptionIsShift | src/main.rs:34-52 | without feedback the ciphertext is the text with each symbol shifted by wheel1 − 2·wheel2 |
| Cipher.EncryptI | src/main.rs:74-76 | single wheel, no feedback: succeeds iff the text is over the dial; every symbol is shifted by wheel1 |
| Cipher.EncryptII | src/main.rs:78-80 | two wheels, no feedback: succeeds iff the text is over the dial; every symbol is shifted by wheel1 − 2·wheel2 |
| Cipher.EncryptIV | src/main.rs:82-84 | feedback configuration: succeeds iff the text is over the dial, keeps the length, and its output decrypts back to the text |
| Cipher.DecryptIV | src/main.rs:86-88 | feedback decryption: succeeds iff the text is over the dial, keeps the length, and its output encrypts back to the ciphertext |
| Cipher.StrongWindsExample | src/main.rs:124-125 | "Strong NE Winds!" under the single wheel at 6 encrypts to "Yzxutm5TK5cotjy2", and that decrypts back |
| Cracker.ContainsAt | src/main.rs:95 | the substring test holds exactly when the word is a prefix of the text from some position |
| Cracker.ContainsNeedsRoom | src/main.rs:95 | a word can only occur in a text at least as long |
| Cracker.CrackIVWheels | src/main.rs:90-102 | returns the first pair in wheel1-major order on the dial whose feedback decryption shows a keyword; fails with InvalidSymbol iff the ciphertext is off the dial, with NoKeywordMatch iff no pair on the dial reveals a keyword |
| Cracker.FirstMatchUnique | src/main.rs:90-102 | the first matching pair is unique |
| Cracker.EncryptedKeywordIsRevealed | src/main.rs:90-102 | a keyword-bearing message encrypted under a pair on the dial is revealed by that pair, so the search cannot fail on it |
| Cracker.ShortTextRevealsNothing | src/main.rs:95 | a ciphertext shorter than six symbols reveals no keyword under any pair, so the search fails |
| Cracker.PartnerWheel | src/main.rs:110-116 | the partner wheel2 is on the dial and gives wheel1 the requested baseline offset |
| Cracker.Partners | src/main.rs:110-116 | the list of partners has one entry per position of wheel1 (69 entries) |
| Cracker.PartnersIsOffsetClass | src/main.rs:110-116 | the partner list holds every pair on the dial with the given baseline offset, no other, in strictly ascending search order |
| Cracker.OffsetClassUnique | src/main.rs:110-116 | only one list meets that description, so the collected list is determined by the offset |
| Cracker.CollectOffsetClass | src/main.rs:108-116 | the nested loop collects exactly the partner list for the offset |
| Cracker.CrackIV | src/main.rs:104-121 | the same two failures as the search; on success, for the first matching pair, the plaintext is its feedback decryption (keeping the length and showing a keyword) and the list is that pair's offset class |
| Cracker.CrackedConsistent | src/main.rs:104-121 | a reported result has 69 listed pairs including the found one, exactly the found pair's offset class, and every listed pair decrypts the ciphertext to the reported plaintext |

## Left out

- `main` (src/main.rs:123-145) only calls the operations on fixed inputs and prints the answers. No expected output appears in the source. The ciphertext stated in `Cipher.StrongWindsExample` for the first input was worked out symbol by symbol from the cipher's definition. The other inputs have no stated outputs.
- The two process aborts are modelled as `Err(InvalidSymbol)` and `Err(NoKeywordMatch)`. Their panic messages and the unwinding are not modelled.
- Wheels.WheelOffset: computed over unbounded integers. With wheel values near the i32 limits, the source's arithmetic overflows: it panics in debug builds and wraps in release builds. The model reproduces neither.
- Alphabet.IntToKey: computed over unbounded integers. The source's i32 addition in front of it, `plain_int + offset`, can only overflow when its inputs have already overflowed.
- `String::with_capacity` and `push` are modelled as sequence concatenation. Allocation is not modelled.
- Text is a sequence of Unicode scalar values, which is what `chars()` yields. UTF-8 encoding is not modelled.
- `str::contains` is modelled by the predicate `Cracker.Contains`. Its characterisation is proved (`Cracker.ContainsAt`). The standard library's search algorithm is not modelled.
