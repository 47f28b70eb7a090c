# RSA from first principles: key generation and the block codec

This project models the three computational windows of a hand-written RSA
tool:

- **Key generation.** It draws random odd candidates with their top two bits
  set and filters them through 20 rounds of Miller–Rabin. It then builds the
  private key (p, q, n = pq, e = 65537, d = e⁻¹ mod (p−1)(q−1)) and copies
  n and e into the public key.
- **Encryption.** It cuts the plaintext into 32-character blocks and reads
  each block as a big-endian number m. It appends `decimal(m^e mod n)` and
  `/` to the ciphertext accumulator.
- **Decryption.** It splits the ciphertext at `/` and computes
  m = c^d mod n for every token. It renders m in binary, left-pads it with
  zeros to whole bytes and regroups the bits into characters, which are
  appended to the plaintext accumulator.

GMP's arbitrary-precision calls become pure functions on unbounded naturals:

| GMP call | Model |
|---|---|
| `mpz_powm` | `ModPow` |
| `mpz_invert` | `ModInverse` |
| `mpz_import` | `BytesToNat` |
| `mpz_get_str` in base 2 and base 10 | `Binary` and `Decimal` |
| `mpz_set_str` in base 10 | `DecimalToNat` on the string's C-string prefix |

The windows' state becomes classes whose methods carry `modifies` clauses.
That state is the key structs, the size settings, the selection flags and
the two string accumulators. The loops of the source become `while`/`for`
loops. Each loop is proved against a specification function.

`rand()`, the Mersenne Twister witnesses and the clock are inputs: a sequence
of `Attempt`s, each holding the raw `rand()` values for one candidate and
the raw draws for its witnesses. The source's unbounded retry loops
therefore run over a finite sequence of attempts. They report exhaustion
when it runs out.

On top of the model the project proves:
- every prime passes every Miller–Rabin round, so a rejection proves n
  composite;
- RSA correctness;
- the round trip of the byte codec;
- that the decryption window splits the encryption window's ciphertext back
  into its tokens;
- end to end, that decrypting an encrypted text without NUL bytes gives
  back exactly the blocks that were encrypted.

Module layout:

| File | Module | Contents |
|---|---|---|
| `options.dfy` | `Options` | the `Option` type |
| `arithmetic.dfy` | `Arithmetic` | powers, modular arithmetic, divisibility, extended Euclid, modular inverse, Euclid's lemma |
| `fermat.dfy` | `Fermat` | binomial theorem, Fermat's little theorem, square roots of one modulo a prime |
| `millerrabin.dfy` | `MillerRabin` | n − 1 = d·2^s, the squaring chain, the acceptance predicate and its soundness |
| `digits.dfy` | `Digits` | bytes, binary and decimal renderings, padding and regrouping |
| `keygeneration.dfy` | `KeyGeneration` | the key structs and the generator window |
| `encryption.dfy` | `Encryption` | the framing and the encryption window |
| `decryption.dfy` | `Decryption` | the split and the decryption window |
| `rsa.dfy` | `Rsa` | RSA correctness and the round trip across the windows |

The model follows the code on these points:
- The block length is the constant 256/8 = 32 (encryption.cpp:22-23); it
  does not depend on the width of the modulus.
- A full block holds 31 characters, and a decrypted text therefore does not
  equal the plaintext plus its padding; see Findings.
- The Miller–Rabin `== 1` test compares only the low machine word of
  a^d mod n (`mpz_get_ui`).
- The Miller–Rabin witness is drawn from [2, n−2], as the code at
  keygeneration.cpp:412-417 computes; the comment at keygeneration.cpp:414
  gives n−1 as the upper bound.

## Model

| member | source | states |
|---|---|---|
| Arithmetic.ModPow | encryption.cpp:425 | mpz_powm: the result is below the modulus |
| Arithmetic.ModInverse | keygeneration.cpp:265 | mpz_invert: a value below m whose product with a is 1 modulo m, or None |
| Arithmetic.NoInverse | keygeneration.cpp:265-268 | when mpz_invert fails, no x at all has x·a = 1 modulo m |
| Arithmetic.ExtGcd | keygeneration.cpp:265 | Bezout: a·x + b·y equals the returned g, and g divides a and b |
| Fermat.FermatCoprime | keygeneration.cpp:337-341 | Fermat's little theorem: a^(p−1) mod p = 1 for a prime p not dividing a |
| Fermat.SquareRootOfOne | keygeneration.cpp:362-376 | modulo a prime, the only square roots of 1 are 1 and p−1 |
| MillerRabin.Valuation | keygeneration.cpp:348-353 | the number of halvings of n−1 is positive exactly when n−1 is even |
| MillerRabin.OddPart | keygeneration.cpp:348-353 | the halving loop leaves d odd with d·2^s = n−1 |
| MillerRabin.LowWord | keygeneration.cpp:356-358 | mpz_get_ui: below 2^64, and the value itself when it fits |
| MillerRabin.ChainTerm | keygeneration.cpp:366 | each term a^(d·2^r) mod n is below n |
| MillerRabin.ChainSquares | keygeneration.cpp:366-373 | doubling the exponent squares the term modulo n |
| MillerRabin.ExponentBelow | keygeneration.cpp:363-375 | d·2^r < n−1 exactly for r < s, so the loop examines terms 0..s−1 |
| MillerRabin.ChainDescent | keygeneration.cpp:362-376 | for a prime, a term equal to 1 is preceded by a term n−1 or starts at the first term |
| MillerRabin.PrimeAcceptsEveryWitness | keygeneration.cpp:337-341 | a prime n accepts every witness it does not divide |
| MillerRabin.WitnessInRangeCoprime | keygeneration.cpp:412-417 | a prime does not divide any witness in [2, n−2] |
| MillerRabin.RejectionProvesComposite | keygeneration.cpp:339-341 | a rejected witness in [2, n−2] proves n composite |
| KeyGeneration.PublicKey.constructor | keygeneration.cpp:105-117 | initializePublicKey: both numbers start at zero |
| KeyGeneration.PrivateKey.constructor | keygeneration.cpp:119-134 | initializePrivateKey: all five numbers start at zero |
| KeyGeneration.RandomBytes | keygeneration.cpp:292-295 | each byte is the rand() value modulo 0xFF, so at most 0xFE |
| KeyGeneration.OrByte | keygeneration.cpp:296-300 | a byte OR a byte is the bitwise or, still a byte |
| KeyGeneration.BytesToNatParity | keygeneration.cpp:299-301 | a big-endian number has the parity of its last byte |
| KeyGeneration.CandidateShape | keygeneration.cpp:280-304 | every candidate is odd, and 3·2^(8B−2) ≤ c < 2^(8B) for a buffer of B bytes |
| KeyGeneration.SinglePrimeCheck | keygeneration.cpp:328-379 | the round returns exactly the acceptance predicate: low word of a^d mod n is 1, or some a^(d·2^r) mod n with r < s is n−1 |
| KeyGeneration.Witness | keygeneration.cpp:412-417 | mpz_urandomm below n−3 plus 2 lies in [2, n−2] |
| KeyGeneration.MillerRabinPrimeCheck | keygeneration.cpp:381-426 | true exactly when all k rounds accept, and always true for a prime |
| KeyGeneration.PrimePassesAllRounds | keygeneration.cpp:386-398 | a prime passes every round whatever the draws |
| KeyGeneration.RejectedRoundProvesComposite | keygeneration.cpp:415-423 | a false result proves the candidate composite |
| KeyGeneration.ToInt | keygeneration.cpp:177 | QString::toInt: the decimal value of the text when it is a number up to INT_MAX, and 0 for any other text |
| KeyGeneration.AcceptedValue | keygeneration.cpp:252-253 | an accepted decimal string parses back to an accepted candidate of at least 3, and is that candidate's rendering |
| KeyGeneration.Totient | keygeneration.cpp:258-262 | phi = (p−1)(q−1), at least 1 |
| KeyGeneration.DeriveComponents | keygeneration.cpp:252-268 | sets the primes, n = pq, and d = e⁻¹ mod phi with d·e = 1 mod phi when the inverse exists |
| KeyGeneration.KeyGenerator.constructor | keygeneration.cpp:19-24 | defaults: 4096-bit key, 2048-bit primes, 256-byte buffer, no filepath |
| KeyGeneration.KeyGenerator.SetGlobalVariables | keygeneration.cpp:173-181 | key size from the drop-down, primes half of it, buffer a sixteenth |
| KeyGeneration.KeyGenerator.CheckUserInput | keygeneration.cpp:146-171 | true exactly when a size is selected and a filepath chosen; only then are the sizes reset |
| KeyGeneration.KeyGenerator.GenerateRandomNumber | keygeneration.cpp:280-304 | the decimal string of the candidate built from the buffer, which parses back to it |
| KeyGeneration.KeyGenerator.GeneratePrimeNumber | keygeneration.cpp:306-326 | returns the first attempt whose candidate passes 20 rounds, every earlier one failed; None only when all attempts fail |
| KeyGeneration.KeyGenerator.GenerateDistinctPrimes | keygeneration.cpp:246-251 | two different decimal strings, each of an accepted candidate |
| KeyGeneration.KeyGenerator.GeneratePrivateKey | keygeneration.cpp:238-269 | e = 65537; on completion distinct accepted primes of at least 3, n = pq and d·e = 1 mod phi when the inverse exists; otherwise n, p, q, d unchanged |
| KeyGeneration.KeyGenerator.GeneratePublicKey | keygeneration.cpp:271-278 | the public key takes the private key's modulus and exponent |
| Digits.BitOr | keygeneration.cpp:297-300 | x OR y is at least each operand and odd exactly when one of them is odd |
| Digits.BytesToNat | keygeneration.cpp:301 | mpz_import big-endian: at least the first byte times 256^(len−1) |
| Digits.BytesToNatBound | encryption.cpp:418-424 | a block of L bytes is below 256^L |
| Digits.ParseBinary | encryption.cpp:424 | mpz_set_str base 2: below 2^len |
| Digits.Bits | encryption.cpp:419 | std::bitset<8>: exactly w binary characters |
| Digits.BitsValue | encryption.cpp:419 | the bits of x read back as x |
| Digits.BytesToBinary | encryption.cpp:418-420 | eight characters per byte |
| Digits.BytesToBinaryValue | encryption.cpp:418-424 | the bit string of a block reads back as the block's big-endian value |
| Digits.Binary | decryption.cpp:396 | mpz_get_str base 2: a non-empty binary string |
| Digits.BinaryValue | decryption.cpp:396 | the binary rendering reads back as the number |
| Digits.Regroup | decryption.cpp:398-409 | one character per 8 bits, the i-th the value of bits [8i, 8i+8) |
| Digits.PaddedBitsShape | decryption.cpp:450-453 | length a multiple of 8, between 0 and 7 zeros prepended, nothing added when already aligned |
| Digits.PaddedBitsIdempotent | decryption.cpp:450-453 | padding twice is padding once |
| Digits.PaddedBitsValue | decryption.cpp:452 | the zeros do not change the binary value |
| Digits.CodecRoundTrip | decryption.cpp:396-409 | bytes → number → binary → padded → regrouped gives a block with a non-zero first byte back |
| Digits.LeadingZeroLost | decryption.cpp:396-409 | a leading zero byte does not come back: [0, 65] gives [65] |
| Digits.Decimal | encryption.cpp:427 | mpz_get_str base 10: a non-empty decimal string |
| Digits.ParseDecimal | decryption.cpp:393 | a value exactly for non-empty all-digit strings |
| Digits.DecimalToNat | decryption.cpp:393 | mpz_set_str on a fresh mpz: the value, or 0 when parsing fails |
| Digits.DecimalRoundTrip | decryption.cpp:393 | a decimal rendering parses back to the same number |
| Digits.CString | decryption.cpp:393 | c_str() as read by mpz_set_str: the prefix before the first NUL |
| Encryption.Spaces | encryption.cpp:396-398 | k padding characters, all spaces |
| Encryption.BlocksCount | encryption.cpp:389-401 | ⌈L/32⌉ blocks; 31 characters give one block |
| Encryption.BlocksFull | encryption.cpp:389-393 | full block k is characters [32k, 32k+31): character 32k+31 is never encrypted |
| Encryption.BlocksTail | encryption.cpp:394-401 | a remainder of r characters becomes one block with exactly 32−r spaces |
| Encryption.BlocksLength | encryption.cpp:389-401 | every block has 31 or 32 characters |
| Encryption.BlocksFirst | encryption.cpp:389-401 | block k starts with character 32k |
| Encryption.BlocksConcatLength | encryption.cpp:389-393 | the blocks hold 31 of every 32 characters, plus 32 for a padded tail |
| Encryption.BlocksDropCharacter | encryption.cpp:390 | thirty-two 'a's are encrypted as thirty-one |
| Encryption.FullBlocks | encryption.cpp:389-401 | intended framing: every block exactly 32 characters |
| Encryption.Padding | encryption.cpp:395 | below 32, and makes the length a multiple of 32 |
| Encryption.FullBlocksConcat | encryption.cpp:389-401 | intended framing: the blocks are the whole text followed by its padding |
| Encryption.FullBlocksFirst | encryption.cpp:389-401 | intended framing: block k starts with character 32k |
| Encryption.EncryptedBlockShape | encryption.cpp:425-428 | one block's output is a decimal number below n followed by a single '/' |
| Encryption.EncryptedTextFront | encryption.cpp:389-393 | with 32 or more characters left, the ciphertext is that of the first 31, then that of the text after the erased 32 |
| Encryption.EncryptedTextLast | encryption.cpp:394-400 | a non-empty remainder under 32 characters is encrypted as one block padded with spaces |
| Encryption.Encryptor.constructor | encryption.cpp:25-34 | empty ciphertext, no selections |
| Encryption.Encryptor.CheckUserInput | encryption.cpp:112-126 | true exactly when a key and an output path are chosen and a file or non-empty text is given |
| Encryption.Encryptor.EncryptBlock | encryption.cpp:404-429 | appends decimal(m^e mod n) and '/' for m the block's big-endian value, nothing else changes |
| Encryption.Encryptor.EncryptString | encryption.cpp:377-402 | appends the ciphertext of every block of the framing, in order |
| Encryption.Encryptor.ResetWindow | encryption.cpp:469-485 | clears the ciphertext and every selection |
| Encryption.Encryptor.GoButton | encryption.cpp:345-375 | on valid input, outputs the ciphertext of the file (or else the text box) and resets; otherwise outputs nothing and changes nothing |
| Decryption.Split | decryption.cpp:365-375 | no token and no pending text contains '/' |
| Decryption.SplitJoinBack | decryption.cpp:365-375 | the tokens, each followed by '/', then the pending text give the input back |
| Decryption.SplitJoin | decryption.cpp:365-375 | joined '/'-free tokens split back into exactly those tokens |
| Decryption.DecryptedBlock | decryption.cpp:390-409 | each token yields at least one character |
| Decryption.DecryptedText | decryption.cpp:366-375 | at least one character per token |
| Decryption.Decryptor.constructor | decryption.cpp:22-30 | empty plaintext, no selections |
| Decryption.Decryptor.CheckUserInput | decryption.cpp:108-119 | true exactly when key, encrypted file and output path are all selected |
| Decryption.Decryptor.AddLeadingZeros | decryption.cpp:437-454 | pads to a multiple of 8 with 0–7 leading zeros, value unchanged |
| Decryption.Decryptor.DecryptBlock | decryption.cpp:378-410 | appends the regrouped, padded binary rendering of c^d mod n |
| Decryption.Decryptor.AppendCharacters | decryption.cpp:398-409 | appends one character per 8 bits; the extra read at the end completes no byte |
| Decryption.Decryptor.DecryptString | decryption.cpp:355-376 | appends the plaintext of every complete token in order; text after the last '/' is not decrypted |
| Decryption.Decryptor.ReadCharacter | decryption.cpp:367-374 | '/' decrypts the gathered characters and starts an empty block, any other character is gathered; the plaintext stays the decryption of the completed tokens |
| Decryption.SplitStep | decryption.cpp:366-374 | one more character: '/' closes the pending token, any other character extends it |
| Decryption.DecryptedTextSnoc | decryption.cpp:370-373 | one more completed token appends exactly its block's plaintext |
| Decryption.DecryptedTextAppend | decryption.cpp:366-375 | the plaintext of two token runs is the plaintext of the first followed by that of the second |
| Decryption.Decryptor.ResetWindow | decryption.cpp:484-499 | clears the plaintext and every selection |
| Decryption.Decryptor.GoButton | decryption.cpp:330-353 | as written: outputs the old plaintext followed by the new, and keeps both |
| Decryption.Decryptor.GoButtonWithReset | decryption.cpp:484-499 | intended: the same run followed by the reset, leaving an empty accumulator |
| Decryption.TwoRuns | decryption.cpp:330-353 | as written, the second run's output starts with the first run's plaintext |
| Decryption.TwoRunsWithReset | decryption.cpp:484-499 | with the reset, the second run's output is its own plaintext alone |
| Decryption.StaleOutput | decryption.cpp:405 | with a token in the first ciphertext, the second output differs from its own plaintext |
| Rsa.RsaCorrect | keygeneration.cpp:255-264 | for distinct primes and d·e = 1 mod phi, (m^e mod n)^d mod n = m for every m < n |
| Rsa.CipherTokens | encryption.cpp:425-428 | one token per block, each '/'-free and parsing to that block's c |
| Rsa.EncryptedTextJoin | encryption.cpp:377-402 | the ciphertext is its tokens, each followed by '/' |
| Rsa.CiphertextSplits | decryption.cpp:365-375 | the split recovers exactly the encryption tokens, with nothing pending |
| Rsa.TokenRoundTrip | decryption.cpp:393 | a written token reads back as the same number |
| Rsa.BlockRoundTrip | decryption.cpp:378-410 | a non-empty block below n with a non-zero first byte decrypts to itself |
| Rsa.TextRoundTrip | decryption.cpp:355-376 | decrypting the tokens of such blocks gives the blocks laid end to end |
| Rsa.BlocksFitModulus | encryption.cpp:389-401 | with a modulus of at least 2^256, every block of a text without NUL bytes is recoverable |
| Rsa.EndToEnd | encryption.cpp:377-402 | as written: for a text without NUL bytes (so no block starts with byte 0), decrypting the encryption gives back exactly the blocks that were encrypted |
| Rsa.FullBlocksFitModulus | encryption.cpp:389-401 | the same for the intended framing |
| Rsa.CorrectedEndToEnd | encryption.cpp:389-401 | intended framing: for a text without NUL bytes, decrypting the encryption gives the text followed by its padding |
| Rsa.AcceptedModulusFitsBlocks | keygeneration.cpp:296-301 | primes accepted for a buffer of at least 17 bytes make a modulus of at least 2^256 |

## Left out

- **Qt presentation:** window setup, toolbars, icons, file dialogs, message
  boxes and menu navigation. This is presentation with no stated behaviour.
  The selection flags are plain fields that the model's callers set.
- **File I/O:** reading the plaintext and ciphertext files and writing the
  ciphertext and plaintext files. The windows' `GoButton` returns the text
  that would be written.
- **PEM key files:** saving and loading keys via Crypto++, including the
  trailing-`.` trimming. These are foreign library calls with no visible
  contract. Keys reach the encryption and decryption windows as the numbers
  e, d and n. Every Encryptor and Decryptor method asks for n > 0: with
  n = 0, `mpz_powm` divides by zero. Only a malformed key file could
  produce such an n, and the key files are not modelled.
- **Base64:** the macaron encoding and decoding of the ciphertext. The
  decryption window is given the decoded text.
- **Randomness and the clock:** `srand(time)`, `rand()` and the Mersenne
  Twister seeded from the clock are inputs, as described above. The 4^(−k)
  error bound of Miller–Rabin is probabilistic and is not stated.
- KeyGeneration.KeyGenerator.GeneratePrimeNumber: runs over a finite
  sequence of attempts and returns None when they run out, where the source
  retries forever.
- KeyGeneration.KeyGenerator.GenerateDistinctPrimes: likewise, its
  `do … while` retry loop stops when the attempts run out.
- KeyGeneration.KeyGenerator.GeneratePrivateKey: when `mpz_invert` fails,
  the source computes a gcd into a temporary that is never used. The private
  exponent is then left unspecified rather than modelled.
- **generateKeys:** this orchestration (check, generate private key, copy to
  public key, save, notify) is not a member of its own. Its steps are
  modelled one by one, and the saving is PEM I/O.
- **Modulus size:** the model keeps `mpz_powm`'s result below n for any n,
  whatever its size. The round-trip lemmas ask for n ≥ 2^256.
  Rsa.AcceptedModulusFitsBlocks proves this for accepted primes from a
  buffer of B ≥ 17 bytes, that is a key size of at least 272 bits. The
  default 4096 (keygeneration.cpp:19-24) is such a size. The other sizes
  offered by the key-size drop-down live in the window's form file, which
  is not part of this model.
- Rsa.EndToEnd: it and Rsa.CorrectedEndToEnd ask for a text without NUL
  bytes. A block whose first byte is 0 loses it: the decoding pads the
  binary form only to the next multiple of 8 (decryption.cpp:450-453), so
  a whole leading zero byte is never restored (Digits.LeadingZeroLost:
  [0, 65] comes back as [65]).
- Rsa.EndToEnd and Rsa.CorrectedEndToEnd assume every key is prime.
  `KeyGeneration.KeyGenerator.GeneratePrivateKey` only guarantees probable
  primes, each accepted by 20 Miller–Rabin rounds.
- KeyGeneration.ToInt: the sign and surrounding whitespace that
  `QString::toInt` accepts are not modelled. A value that is negative or
  non-numeric reads as 0, like an invalid one.
- Digits.DecimalToNat: `mpz_set_str` skips whitespace anywhere in the
  string and accepts a leading '-'; neither is modelled, so a text such as
  "12 3" reads as 0 here where GMP reads 123. Tokens written by the
  encryption window contain neither.
- KeyGeneration.SinglePrimeCheck requires n ≥ 2: for n = 1 the source's
  halving loop (keygeneration.cpp:350-353) never ends, since n − 1 = 0 stays
  even. KeyGeneration.MillerRabinPrimeCheck requires n > 3: for n = 3 the
  bound n − 3 handed to `mpz_urandomm` (keygeneration.cpp:412-416) is zero,
  a division by zero in GMP, and for n < 3 it is negative. Every caller
  passes a candidate of at least 3·2^6 = 192, so these inputs do not arise
  in the program.
- MillerRabin.LowWord: it assumes a 64-bit `unsigned long`, as on LP64
  systems.
- **Character width:** `char` is taken to be 8 bits. Plaintext characters are
  bytes (0–255), whether the platform's `char` is signed or not. The bit
  patterns `std::bitset<8>` and `static_cast<char>` produce are the same
  either way.
- **Globals as fields:** the accumulators and flags are file-level globals in
  the source. Here they are fields of one window object, which changes
  nothing for a single window.
- **Trailing padding:** the spaces added to the last block are not stripped
  after decryption, as in the source.

## Findings

| source | as written | input that shows it | evidently intended | confidence | as-written member | corrected member |
|---|---|---|---|---|---|---|
| encryption.cpp:390 | a full block is `substr(0, 31)` while 32 characters are erased, so character 32k+31 is never encrypted | a plaintext of 32 'a's decrypts to 31 'a's | blocks of all 32 erased characters, so the decryption is the text followed by its padding | not executed | Encryption.BlocksDropCharacter | Rsa.CorrectedEndToEnd |
| decryption.cpp:330-353 | goButton never calls resetWindow, so the plaintext accumulator keeps earlier runs | decrypting ciphertext A and then ciphertext B in one session writes plain(A) + plain(B) as B's output | reset after each run, as the encryption window and goButton's own header comment say | not executed | Decryption.TwoRuns | Decryption.TwoRunsWithReset |
