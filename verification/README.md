# Raaz and Monocypher, modelled and verified

This project models the code of Raaz, a cryptographic library in Haskell and C, and of the copy of Monocypher 3.0.0
that comes with it, and proves what that code computes. `dafny verify dfyconfig.toml` checks everything.

## What is modelled

**Multi-limb arithmetic.** Words are integers with their range as the type, so every store proves that nothing
overflows; `>>` on signed values is division towards minus infinity. Poly1305 on 32-bit limbs (`Poly1305`,
`Poly1305Stream`), reduction modulo the order L of the Ed25519 base point (`ScalarModL`), and the ten-limb field of
2^255 - 19 (`Field25519`, `FieldElement`, `FieldBytes`, `FieldPower`) are each proved to be one line of modular
arithmetic. `Bits` has bitwise operations on integers.

**Scalars and groups.** The sliding windows (`SlidingWindow`), the signed comb (`Comb`) and the Montgomery ladder
(`Ladder`, `X25519`) run over any abelian group (`Groups`). `Signatures` puts them together: what is signed is
accepted. `Argon2i` has the choice of reference blocks, the filling of the memory and the wiping. Its reference area
starts at the next segment, in the code as in section 3.4 of RFC 9106, where comments of the source speak of the next
block.

**Streams.** Each context is a class with a ghost sequence of all bytes seen, and ends in the one-shot function of its
standard for every way to cut the input: Poly1305, BLAKE2b (`Blake2bStream`), SHA-512 (`Sha512Stream`), and the
incremental AEAD (`AeadIncremental`) against the one-shot one (`Aead`, `ChaCha20`). On Raaz's side these are the byte
sources and the generic context (`ByteSource`, `Context`), the padding writers and last blocks of SHA-2 (`Transfer`,
`Sha2Raaz`), BLAKE2b (`Blake2bRaaz`), the keyed hash that delays its key block (`Mac`), and the generator of random
bytes (`RandomState`). `HashStates` has their effect as functions of a state, which the classes are proved to
compute and `Implementations` instantiates the context with, for SHA-512, BLAKE2b and keyed BLAKE2b. Compression functions
are parameters, but for SHA-512: `Sha512Compress` proves both of its compressors against FIPS 180-4.

**What the functions at the bottom mean.** Code is proved against functions, and what those compute is proved without
them: the ladder step as polynomials and as the tangent and chord of the curve (`X25519.StepFormulas`, `Montgomery`);
the rounds of ChaCha20 on bit vectors, undone, and on a test vector (`BitVectors`, `ChaChaRounds`, `ChaChaBlock`);
the tag of Poly1305 as the value of a polynomial (`Poly1305Sum`); SHA-512 bit by bit, as sums, and with its constants
from the primes (`Sha512Words`, `Primes`, `Sha512Constants`); AES byte by byte over whole runs (`AesRuns`); the memory
of Argon2i as a run of blocks (`Argon2iRuns`); Base64 as digits (`Base64Digits`); and signatures written out in the
hash and the order (`SignatureLaws`).

**Inverses.** AES in CBC mode, in place (`AesBytes`, `AesMix`, `AesCbc`), and Base64 (`Base64`).

`Words`, `Bits`, `Blocks` and `Chunks` are shared helpers.

## Where the code does less than its documentation, or less than one might expect

- The keyed hash writes nothing into its key buffer for an empty key, but hashes the buffer all the same
  (`Mac.KeyedExactly`: right for every compression function exactly for non-empty keys).
- A run of the keyed hash, or of BLAKE2b in Raaz, that ends without data after whole blocks compresses a block of zeros
  too many (`Blake2bRaaz.EndsAsDigest`). Contexts never do that (`Context.Cxt.Update`).
- The bound of the loop that wipes Argon2i's memory is a 32-bit product and falls short from 2^25 blocks on
  (`Argon2i.WipesEverything`, `Argon2i.WipesNothing`).
- Blocks between two reseeds stay within `reseedAfter` exactly when it is a positive multiple of the buffer size
  (`RandomState.ReseedBound`); the shipped numbers are (`RandomState.ChaChaBound`).
- The Base64 parser takes the letters of Latin-1 for digits and then calls `error` (`Base64.Outcomes`), and does not
  look at the unused bits of the last group (`Base64.PrintedBack`).

## Model

| member | source | states |
|---|---|---|
| ScalarModL.TableValue | monocypher/monocypher-3.0.0/monocypher.c:1412-1416 | The table L is the number 2^252 + 27742317777372353535851937790883648493, and its twenty low entries, the only ones the folding loop reads, are that number without 2^252 |
| ScalarModL.FoldLimb | monocypher/monocypher-3.0.0/monocypher.c:1420-1429 | One round of the first loop: the value changes by a multiple of L, the top limb becomes 0, the carry dies out in the last four columns, and every intermediate is a 64-bit word |
| ScalarModL.SubtractTopMultiple | monocypher/monocypher-3.0.0/monocypher.c:1430-1435 | The second loop takes off floor(x[31] / 16) * L column by column, with the carry that is still owed |
| ScalarModL.BorrowResolved | monocypher/monocypher-3.0.0/monocypher.c:1430-1438 | After the second loop the carry is 0 or -1, and adding L back for it gives the representative in [0, L) |
| ScalarModL.ModL | monocypher/monocypher-3.0.0/monocypher.c:1418-1443 | For every limb array that reduce or mul_add can pass, no step leaves the range of i64 and the 32 bytes are the unique representative of the input modulo L |
| ScalarModL.Reduce | monocypher/monocypher-3.0.0/monocypher.c:1446-1455 | The first 32 bytes become the 64-byte number modulo L, the others zero |
| ScalarModL.MulAdd | monocypher/monocypher-3.0.0/monocypher.c:1458-1470 | The result is (a * b + c) mod L, for all 32-byte a, b and c |
| Poly1305.Columns | monocypher/monocypher-3.0.0/monocypher.c:336-351 | The five columns are (h + c) * r with everything at 2^130 and above folded down by 2^130 = 5 |
| Poly1305.PartialReduction | monocypher/monocypher-3.0.0/monocypher.c:353-366 | The carry chain of the partial reduction changes the value by a multiple of 2^130 - 5 |
| Poly1305.Block | monocypher/monocypher-3.0.0/monocypher.c:320-367 | h becomes (h + c) * r modulo 2^130 - 5, is again at most 4_ffffffff_ffffffff_ffffffff_ffffffff, and no u32 or u64 overflows on the way |
| Poly1305.FinalCarry | monocypher/monocypher-3.0.0/monocypher.c:452-459 | The trial carry of the final step is 4 or more exactly when h is at least 2^130 - 5 |
| Poly1305.FinalWords | monocypher/monocypher-3.0.0/monocypher.c:452-470 | The tag is ((h mod 2^130 - 5) + pad) mod 2^128 |
| Poly1305.KeyWords | monocypher/monocypher-3.0.0/monocypher.c:398-411 | The masks on the key words are the clamping of section 2.5 of RFC 8439 |
| Poly1305Stream.BufferTake | monocypher/monocypher-3.0.0/monocypher.c:378-396 | A byte that is OR-ed into the message words extends the message, and a sixteenth byte completes a block |
| Poly1305Stream.Ctx.Init | monocypher/monocypher-3.0.0/monocypher.c:398-411 | A context that has seen nothing, under the clamped key |
| Poly1305Stream.Ctx.UpdateByte | monocypher/monocypher-3.0.0/monocypher.c:386-396 | One byte more was seen; the sixteenth one is compressed at once |
| Poly1305Stream.Ctx.Update | monocypher/monocypher-3.0.0/monocypher.c:413-438 | The bytes seen are the old ones followed by the message, however alignment, whole blocks and rest divide it |
| Poly1305Stream.Ctx.Final | monocypher/monocypher-3.0.0/monocypher.c:440-473 | The tag of section 2.5 of RFC 8439 of all bytes seen, an incomplete last block included, whatever updates they came in; the context is wiped. `Poly1305Sum.TagIsPolynomial` says what the tag is |
| Poly1305Sum.TagIsPolynomial | monocypher/monocypher-3.0.0/monocypher.c:320-473 | That tag in closed form, for every key and message: the sum over its q blocks, whole or not, of block i with a byte 1 after it times r^(q - i), modulo 2^130 - 5, plus the second half of the key, modulo 2^128 |
| Poly1305Sum.KeyIsClamped | monocypher/monocypher-3.0.0/monocypher.c:398-411 | r byte by byte: bytes 3, 7, 11 and 15 without their top four bits, bytes 4, 8 and 12 without their bottom two, the others as they are |
| Field25519.ProductIdentity | monocypher/monocypher-3.0.0/monocypher.c:1142-1175 | The ten columns, with their factors 2, 19 and 38, are the product of the two elements up to a multiple of 2^255 - 19 |
| Field25519.SumIsColumn | monocypher/monocypher-3.0.0/monocypher.c:1154-1174 | Each of the ten sums as written is its column: the products of limbs that meet there, doubled for two odd limbs and 19 times for those at or above 2^255 |
| Field25519.MulLimbs | monocypher/monocypher-3.0.0/monocypher.c:1142-1194 | On limbs with one addition of slack no i32 or i64 overflows; the result is the product modulo 2^255 - 19 on limbs within 2^25 and 2^24, up to the last carry |
| Field25519.SqLimbs | monocypher/monocypher-3.0.0/monocypher.c:1197-1228 | The same for the square |
| Field25519.SquareValue | monocypher/monocypher-3.0.0/monocypher.c:1197-1227 | The shortened columns of the square are those of the product of an element with itself |
| Field25519.Carry | monocypher/monocypher-3.0.0/monocypher.c:1176-1194 | The carry chain keeps the value modulo 2^255 - 19, in 64-bit words, and leaves reduced limbs |
| Field25519.FeCarry | monocypher/monocypher-3.0.0/monocypher.c:1100-1112 | The same for the other chain |
| FieldElement.FeMul | monocypher/monocypher-3.0.0/monocypher.c:1142-1194 | In place, and with any aliasing: h stands for f * g and is tight |
| FieldElement.FeSq | monocypher/monocypher-3.0.0/monocypher.c:1197-1228 | h stands for f * f and is tight |
| FieldElement.FeMulSmall | monocypher/monocypher-3.0.0/monocypher.c:1131-1139 | h stands for f * 121666 and is tight |
| FieldElement.FeAdd | monocypher/monocypher-3.0.0/monocypher.c:1078 | The sum of tight elements is loose, and loose elements may be multiplied |
| FieldElement.FeSub | monocypher/monocypher-3.0.0/monocypher.c:1079 | The difference of tight elements is loose |
| FieldElement.FeCswap | monocypher/monocypher-3.0.0/monocypher.c:1081-1089 | The elements change places exactly when b is 1; the mask is built with the wrap-around of 32-bit words |
| FieldBytes.FeFromBytes | monocypher/monocypher-3.0.0/monocypher.c:1115-1128 | Bit 255 is dropped and the value is taken modulo 2^255 - 19; the limbs are tight |
| FieldBytes.QuotientExact | monocypher/monocypher-3.0.0/monocypher.c:1278-1283 | Rounding the top limb predicts floor(h / (2^255 - 19)) exactly, for every element that carries leave behind |
| FieldBytes.Canonical | monocypher/monocypher-3.0.0/monocypher.c:1283-1294 | After adding 19 * q the carries leave canonical limbs, and what is carried out is q |
| FieldBytes.FeToBytes | monocypher/monocypher-3.0.0/monocypher.c:1272-1306 | The 32 bytes are the element as the unique number below 2^255 - 19 |
| FieldPower.FePow22523 | monocypher/monocypher-3.0.0/monocypher.c:1238-1256 | out is z to the 2^252 - 3, also when out and z are the same array |
| FieldPower.FeInvert | monocypher/monocypher-3.0.0/monocypher.c:1261-1270 | out is z to the 2^255 - 21 |
| Scalars.ScalarBitIsBit | monocypher/monocypher-3.0.0/monocypher.c:1336-1339 | scalar_bit reads the bits of the little-endian number, and 0 at position -1 |
| Scalars.TrimScalar | monocypher/monocypher-3.0.0/monocypher.c:1328-1333 | Trimming gives 2^254 plus the low 254 bits with the lowest three cleared |
| Ladder.DeferredSwap | monocypher/monocypher-3.0.0/monocypher.c:1369-1374 | Swapping by the old flag xor the new bit, and stepping, is the plain step with the new bit as the pending swap |
| Ladder.ClimbMultiple | monocypher/monocypher-3.0.0/monocypher.c:1365-1388 | With k the bits seen so far, the pair with its pending swap undone is ([k]P, [k + 1]P) |
| X25519.StepInPlace | monocypher/monocypher-3.0.0/monocypher.c:1376-1383 | The eighteen limb operations, with two temporaries, are the step of section 5 of RFC 7748, whose coordinates are those of `X25519.StepFormulas` |
| X25519.StepFormulas | monocypher/monocypher-3.0.0/monocypher.c:1376-1383 | The four coordinates after a step, as polynomials in those before it modulo 2^255 - 19: (X2^2 - Z2^2)^2, 4 X2 Z2 (X2^2 + 486662 X2 Z2 + Z2^2), 4 (X2 X3 - Z2 Z3)^2 and 4 x1 (X3 Z2 - Z3 X2)^2 |
| Montgomery.StepDoubles | monocypher/monocypher-3.0.0/monocypher.c:1376-1383 | On v^2 = u^3 + 486662 u^2 + u the first point a step gives is twice the point it was given, by the tangent there, with the denominator 4 v^2 Z2^4 |
| Montgomery.StepAdds | monocypher/monocypher-3.0.0/monocypher.c:1376-1383 | The second point is the sum of the two points, by the chord through them, whenever x1 is the first coordinate of their difference |
| X25519.ClimbInPlace | monocypher/monocypher-3.0.0/monocypher.c:1365-1388 | All bits of a scalar below 2^255, on limbs: the pair of points behind the swap flag is that of the plain ladder |
| X25519.CryptoX25519 | monocypher/monocypher-3.0.0/monocypher.c:1345-1399 | The canonical encoding of X25519 of section 5 of RFC 7748, for every 32-byte key and point, including those that RFC 7748 calls non-canonical; its steps are those of `X25519.StepFormulas` |
| Montgomery.SharedWritten | monocypher/monocypher-3.0.0/monocypher.c:1349-1388 | The function over the ladder: the scalar is k with bits 0, 1, 2 and 255 cleared and bit 254 set, and bit 255 of the point is dropped |
| Montgomery.QuotientIs | monocypher/monocypher-3.0.0/monocypher.c:1390-1392 | The last step divides, whenever Fermat has z^(p - 1) = 1, and gives 0 for z = 0 |
| X25519.SharedPoint | monocypher/monocypher-3.0.0/monocypher.c:1345-1399 | In any abelian group on which the step doubles and adds differentially, the ladder ends in the multiple by the trimmed scalar |
| SlidingWindow.WindowOdd | monocypher/monocypher-3.0.0/monocypher.c:1750-1763 | Where two bits differ, the window is its lowest bit times an odd digit whose half indexes the table, and three masks find the exponent |
| SlidingWindow.SlideCtx.Init | monocypher/monocypher-3.0.0/monocypher.c:1723-1742 | The first check position is at or above the highest non-zero digit |
| SlidingWindow.SlideCtx.Step | monocypher/monocypher-3.0.0/monocypher.c:1744-1767 | Digits given so far, weighed by their positions, add up to the recoded part of the scalar; every digit is 0 or odd and inside the table; the check position wraps around only after the last window |
| SlidingWindow.SlideCtx.Done | monocypher/monocypher-3.0.0/monocypher.c:1744-1767 | At the end the digits weigh as much as the scalar |
| SlidingWindow.CacheWindow | monocypher/monocypher-3.0.0/monocypher.c:1779-1789 | The table holds P, 3P, 5P and so on |
| SlidingWindow.Round | monocypher/monocypher-3.0.0/monocypher.c:1796-1813 | One round doubles the sum and adds the digits of both scalars |
| SlidingWindow.DoubleScalarmult | monocypher/monocypher-3.0.0/monocypher.c:1777-1815 | The result is [p]P + [b]B in every abelian group, for all p and b below 2^253 |
| Comb.Constants | monocypher/monocypher-3.0.0/monocypher.c:1926-1937 | The two constants are 1/2 and (2^255 - 1)/2 modulo L |
| Comb.Recode | monocypher/monocypher-3.0.0/monocypher.c:1938-1940 | Read with 1 for set and -1 for clear bits, the recoded scalar is the scalar modulo L |
| Comb.SelectedEntry | monocypher/monocypher-3.0.0/monocypher.c:1953-1970 | The entry that index and high select, negated when the top tooth is clear, is what the five teeth read |
| Comb.SelectEntry | monocypher/monocypher-3.0.0/monocypher.c:1960-1965 | Sixteen conditional copies leave the entry at the index |
| Comb.SumEnd | monocypher/monocypher-3.0.0/monocypher.c:1945-1971 | The sum over 51 positions of five teeth is 2s - (2^255 - 1) |
| Comb.ScalarmultBase | monocypher/monocypher-3.0.0/monocypher.c:1922-1976 | The result is [scalar]B for every 32-byte scalar, for a base point whose order divides L and the given table |
| Signatures.IsAboveL | monocypher/monocypher-3.0.0/monocypher.c:1473-1480 | True exactly for numbers not below L |
| Signatures.SignPublicKey | monocypher/monocypher-3.0.0/monocypher.c:1978-1990 | The encoding of the multiple of the base point by the trimmed hash |
| SignatureLaws.SecretScalarIs | monocypher/monocypher-3.0.0/monocypher.c:1978-2006 | The secret scalar is the number that agrees with the first half of the hash in bits 3 to 253 and has bits 0, 1, 2 and 255 clear and bit 254 set |
| SignatureLaws.PublicKeyWritten | monocypher/monocypher-3.0.0/monocypher.c:1978-1990 | The public key is the encoding of that multiple of the base point |
| Signatures.SignCtx.InitFirstPass | monocypher/monocypher-3.0.0/monocypher.c:1998-2024 | The secret scalar is kept, the prefix is hashed first, and a missing public key is computed |
| Signatures.SignCtx.InitSecondPass | monocypher/monocypher-3.0.0/monocypher.c:2040-2058 | The hash so far modulo L is the nonce, its multiple of the base point the first half, and both halves of the context are hashed next |
| Signatures.SignCtx.Final | monocypher/monocypher-3.0.0/monocypher.c:2060-2074 | The second half is h * a + r modulo L |
| Signatures.Sign | monocypher/monocypher-3.0.0/monocypher.c:2076-2088 | R and s of section 5.1.6 of RFC 8032, over any hash, in the two passes |
| SignatureLaws.SignatureWritten | monocypher/monocypher-3.0.0/monocypher.c:1998-2088 | A signature, written out with the hash, the order 2^252 + 27742317777372353535851937790883648493 and the trimmed scalar: which halves are hashed with what, in which order, and s |
| Signatures.Check | monocypher/monocypher-3.0.0/monocypher.c:2090-2152 | Accepted exactly when the public key is a point, s is below L and [s]B - [h]A encodes to R |
| SignatureLaws.AcceptedWritten | monocypher/monocypher-3.0.0/monocypher.c:2090-2152 | What is accepted, written out in the same way |
| Signatures.SignedIsAccepted | monocypher/monocypher-3.0.0/monocypher.c:2060-2141 | Every signature is accepted, for every secret key and message |
| Signatures.SignAndCheck | monocypher/monocypher-3.0.0/monocypher.c:1978-2152 | Making a key, signing and checking succeeds |
| ChaCha20.StoredXor | monocypher/monocypher-3.0.0/monocypher.c:199-204 | Xoring words that are loaded and stored little-endian is xoring bytes |
| ChaChaRounds.QuarterRoundWords | monocypher/monocypher-3.0.0/monocypher.c:147-151 | The quarter round on bit vectors, for all words: the eight values one after the other, with native addition and exclusive or and rotations by 16, 12, 8 and 7 |
| ChaChaBlock.RoundsUndone | monocypher/monocypher-3.0.0/monocypher.c:153-176 | Ten inverse double rounds take the words after the rounds back to the words before them, for all words |
| ChaChaBlock.StateWords | monocypher/monocypher-3.0.0/monocypher.c:177-188 | The words a block starts from: the four constants, the key, the low and the high half of the counter and the nonce, little-endian |
| ChaChaBlock.BlockWord | monocypher/monocypher-3.0.0/monocypher.c:194-212 | Each word of a block of key stream, little-endian, is the sum of the words after and before the rounds modulo 2^32 |
| ChaChaBlock.TestVector | monocypher/monocypher-3.0.0/monocypher.c:153-212 | The 64 bytes that section 2.3.2 of RFC 8439 gives for its key, count and nonce |
| ChaCha20.NextBlock | monocypher/monocypher-3.0.0/monocypher.c:212-215 | The two counter words are one 64-bit counter |
| ChaCha20.Core | monocypher/monocypher-3.0.0/monocypher.c:190-236 | Whole blocks and an incomplete one are the text xored with the key stream, in place or not, and the counter that is returned counts the incomplete block |
| ChaCha20.CryptoChaCha20Ctr | monocypher/monocypher-3.0.0/monocypher.c:255-268 | The key stream of section 2.4 of RFC 8439 with a 64-bit counter that wraps at 2^64; no plain text gives the bare stream. The rows around this one say what the stream is |
| ChaChaBlock.EncryptBits | monocypher/monocypher-3.0.0/monocypher.c:190-236 | Each bit of byte i of the cipher text is that of the text plus that of byte i % 64 of block i / 64 from the counter on, modulo 2 |
| ChaCha20.EncryptSplit | monocypher/monocypher-3.0.0/deprecated/aead-incr.c:131-150 | A text may be encrypted in two parts at any byte, from anywhere in the key stream |
| ChaCha20.EncryptTwice | monocypher/monocypher-3.0.0/monocypher.c:255-268 | Encryption undoes itself, from anywhere in the key stream |
| Aead.HChaCha20Words | monocypher/monocypher-3.0.0/monocypher.c:238-253 | Words 0 to 3 and 12 to 15 after the rounds are kept, little-endian, and nothing is added to them |
| Aead.AuthDataLayout | monocypher/monocypher-3.0.0/monocypher.c:2168-2183 | Where the additional data, the cipher text, the zeros between them and the two 64-bit lengths are in the authenticated string |
| Aead.LockedByte | monocypher/monocypher-3.0.0/monocypher.c:2185-2201 | Byte i of the text meets byte i % 64 of block 1 + i / 64 under the key that HChaCha20 derives |
| Aead.LockTagIs | monocypher/monocypher-3.0.0/monocypher.c:2185-2201 | The first half of block 0 under that key is the key of the tag |
| Aead.LockAuth | monocypher/monocypher-3.0.0/monocypher.c:2168-2183 | The tag over additional data, cipher text, their paddings and lengths of section 2.8 of RFC 8439 |
| Aead.CryptoLockAead | monocypher/monocypher-3.0.0/monocypher.c:2185-2201 | Cipher text and tag of the AEAD with an extended nonce |
| Aead.CryptoUnlockAead | monocypher/monocypher-3.0.0/monocypher.c:2203-2227 | The plain text is written, and 0 returned, exactly when the tag matches; else -1 and nothing is written |
| Aead.LockThenUnlock | monocypher/monocypher-3.0.0/monocypher.c:2185-2227 | Unlocking what was locked succeeds and gives the plain text |
| AeadIncremental.LockCtx.EncryptByte | monocypher/monocypher-3.0.0/deprecated/aead-incr.c:131-150 | The pool gives the next byte of the key stream, wherever the text was cut |
| AeadIncremental.LockCtx.Init | monocypher/monocypher-3.0.0/deprecated/aead-incr.c:169-180 | The first 64 bytes of the stream are used up by the authentication key |
| AeadIncremental.LockCtx.LockAuthAd | monocypher/monocypher-3.0.0/deprecated/aead-incr.c:182-186 | Authenticated at once, behind everything so far, in any phase; whether that was late is recorded |
| AeadIncremental.LockCtx.InOrder | monocypher/monocypher-3.0.0/deprecated/aead-incr.c:182-213 | What the tag is computed over is the string of section 2.8 of RFC 8439, for every cut, unless additional data came after a message |
| AeadIncremental.LockCtx.LockAuthMessage | monocypher/monocypher-3.0.0/deprecated/aead-incr.c:188-194 | The phase flag pads the additional data exactly once, before the first message byte |
| AeadIncremental.LockCtx.LockUpdate | monocypher/monocypher-3.0.0/deprecated/aead-incr.c:196-201 | The next part of the text is encrypted where the last one ended, and authenticated |
| AeadIncremental.LockCtx.LockFinal | monocypher/monocypher-3.0.0/deprecated/aead-incr.c:203-213 | The tag of everything authenticated, in its order, with paddings and lengths, and a wiped context; also when there was no message at all |
| AeadIncremental.LockCtx.UnlockUpdate | monocypher/monocypher-3.0.0/deprecated/aead-incr.c:215-220 | Authenticated before it is decrypted, so the buffers may be the same |
| AeadIncremental.LockCtx.UnlockFinal | monocypher/monocypher-3.0.0/deprecated/aead-incr.c:222-229 | 0 exactly when the tag is that of everything authenticated |
| AeadIncremental.LockRun | monocypher/monocypher-3.0.0/deprecated/aead-incr.c:122-213 | For every split of the additional data and of the text, cipher text and tag are those of crypto_lock_aead |
| AeadIncremental.UnlockRun | monocypher/monocypher-3.0.0/deprecated/aead-incr.c:122-229 | For every split, plain text and verdict are those of crypto_unlock_aead |
| Argon2i.GidxCtx.Next | monocypher/monocypher-3.0.0/monocypher.c:915-949 | The reference block is that of section 3.4 of RFC 9106 as the reference implementation reads it; nothing overflows 32 or 64 bits |
| Argon2i.ReferenceSafe | monocypher/monocypher-3.0.0/monocypher.c:926-948 | Every reference goes to a block that was computed before the previous one, in this segment or the three before it, and not again since; it is neither the current nor the previous block |
| Argon2iRuns.OldestIs | monocypher/monocypher-3.0.0/monocypher.c:926-948 | The blocks allowed start with the third segment before the current one |
| Argon2iRuns.LastAllowed | monocypher/monocypher-3.0.0/monocypher.c:936-948 | For J1 = 0 the reference is the last block allowed, the one before the previous one |
| Argon2iRuns.NeverLater | monocypher/monocypher-3.0.0/monocypher.c:936-948 | A larger J1 never refers to a later block |
| Argon2i.FillBlock | monocypher/monocypher-3.0.0/monocypher.c:1022-1032 | Each round reads the previous and the reference block as they were computed last |
| Argon2i.Fill | monocypher/monocypher-3.0.0/monocypher.c:1003-1034 | Over all passes, every block ends up as the recurrence of RFC 9106 computes it last |
| Argon2iRuns.FilledMemory | monocypher/monocypher-3.0.0/monocypher.c:1003-1034 | For every sequence of blocks in which each is made from the previous one, the reference, and from the second pass on what was in its place, the memory ends up as the last pass of the sequence |
| Argon2i.WipeWorkArea | monocypher/monocypher-3.0.0/monocypher.c:1042-1046 | The loop sets the first words of the memory to zero, as many as its 32-bit bound says, and changes nothing behind them |
| Argon2i.WipesEverything | monocypher/monocypher-3.0.0/monocypher.c:1042-1046 | Whatever the memory held, all its words are zero afterwards exactly if there are fewer than 2^25 blocks |
| Argon2i.WipesNothing | monocypher/monocypher-3.0.0/monocypher.c:1042-1046 | With 2^25 blocks no word changes |
| Blake2bStream.Blake2bCtx.Incr | monocypher/monocypher-3.0.0/monocypher.c:495-503 | The two counter words count bytes modulo 2^128 |
| Blake2bStream.Blake2bCtx.EndBlock | monocypher/monocypher-3.0.0/monocypher.c:583-590 | A full buffer is compressed only when another byte is about to come |
| Blake2bStream.Blake2bCtx.Update | monocypher/monocypher-3.0.0/monocypher.c:628-650 | The bytes seen are the old ones followed by the message, and a last block is always left |
| Blake2bStream.Blake2bCtx.GeneralInit | monocypher/monocypher-3.0.0/monocypher.c:602-621 | The key block of a non-empty key was seen, under the parameter block of section 2.5 of RFC 7693 |
| Blake2bStream.ParameterWord | monocypher/monocypher-3.0.0/monocypher.c:606-609 | The word that is xored into the initial value has the sizes of hash and key in its two low bytes and ones in the others; the other words stay |
| Blake2bStream.Blake2bCtx.Final | monocypher/monocypher-3.0.0/monocypher.c:652-668 | Every one of 1 to 64 bytes of output is that of the digest, and nothing else is written |
| Blake2bStream.DigestFolds | monocypher/monocypher-3.0.0/monocypher.c:592-668 | The digest is the fold of exactly one call per started block, at least one, with byte counts up to the end of the block and only the last call flagged |
| Blake2bStream.HashChunks | monocypher/monocypher-3.0.0/monocypher.c:602-668 | For every key of 0 to 64 bytes, message, split and output size, the hash of section 3.3 of RFC 7693 |
| Sha512Stream.Sha512Ctx.Incr | monocypher/monocypher-3.0.0/optional/monocypher-ed25519.c:172-178 | The two counter words count bits modulo 2^128 |
| Sha512Stream.Sha512Ctx.Update | monocypher/monocypher-3.0.0/optional/monocypher-ed25519.c:214-236 | The bytes seen are the old ones followed by the message; full blocks are compressed at once |
| Sha512Stream.Sha512Ctx.FinishBlocks | monocypher/monocypher-3.0.0/optional/monocypher-ed25519.c:238-252 | One or two blocks take what is left, the end mark, zeros and the 128-bit length |
| Sha512Stream.Sha512Ctx.Final | monocypher/monocypher-3.0.0/optional/monocypher-ed25519.c:238-261 | The hash of the padded message of section 5.1.2 of FIPS 180-4 |
| Sha512Stream.HashChunks | monocypher/monocypher-3.0.0/optional/monocypher-ed25519.c:199-261 | The same for every message and every split |
| Sha2Padding.Tail512Value | monocypher/monocypher-3.0.0/optional/monocypher-ed25519.c:238-252 | The padding of SHA-512 as a number: one bit 1, zeros, and the number of bits of the message in 128 bits |
| Sha2Padding.TailLeast | monocypher/monocypher-3.0.0/optional/monocypher-ed25519.c:238-252 | No shorter padding, for SHA-512 or SHA-256, fills the last block |
| Sha512Words.BigSigma0Bits | monocypher/monocypher-3.0.0/optional/monocypher-ed25519.c:96 | Bit i of Sigma0 is the sum modulo 2 of bits i + 28, i + 34 and i + 39 modulo 64, for all words |
| Sha512Words.BigSigma1Bits | monocypher/monocypher-3.0.0/optional/monocypher-ed25519.c:97 | Bit i of Sigma1 is that of bits i + 14, i + 18 and i + 41 modulo 64 |
| Sha512Words.Sigma0Bits | monocypher/monocypher-3.0.0/optional/monocypher-ed25519.c:98 | Bit i of sigma0 is that of bits i + 1 and i + 8 modulo 64 and of bit i + 7, which is dropped at the top |
| Sha512Words.Sigma1Bits | monocypher/monocypher-3.0.0/optional/monocypher-ed25519.c:99 | Bit i of sigma1 is that of bits i + 19 and i + 61 modulo 64 and of bit i + 6, which is dropped at the top |
| Sha512Words.ChBits | monocypher/monocypher-3.0.0/optional/monocypher-ed25519.c:94 | Ch takes the bit of y where x has a 1, and the bit of z elsewhere |
| Sha512Words.MajorityBits | monocypher/monocypher-3.0.0/optional/monocypher-ed25519.c:95 | Maj is the majority of three bits |
| Sha512Words.RoundSums | monocypher/monocypher-3.0.0/optional/monocypher-ed25519.c:130-136 | The two sums of a round modulo 2^64, and where the other registers move |
| Sha512Words.CompressSums | monocypher/monocypher-3.0.0/optional/monocypher-ed25519.c:124-157 | For every message schedule of the block and every run of eighty rounds, written out as sums modulo 2^64, the compressor adds the last registers to the hash |
| Sha512Words.RunExists | monocypher/monocypher-3.0.0/optional/monocypher-ed25519.c:124-157 | Every hash and block has such a schedule and run |
| Sha512Constants.KIsCubeRoot | monocypher/monocypher-3.0.0/optional/monocypher-ed25519.c:101-122 | Constant t is the first 64 bits of the fraction of the cube root of the prime that has t primes below it |
| Sha512Constants.IVIsSquareRoot | monocypher/monocypher-3.0.0/optional/monocypher-ed25519.c:199-208 | The initial value is the same for square roots of the first eight primes |
| Sha512Compress.RingStep | monocypher/monocypher-3.0.0/optional/monocypher-ed25519.c:124-157 | Updating a ring of sixteen words in place keeps a window of the eighty-word schedule |
| Sha512Compress.RingCompress | monocypher/monocypher-3.0.0/optional/monocypher-ed25519.c:124-157 | The compression function of section 6.4.2 of FIPS 180-4; the words left behind are the last sixteen of the schedule |
| Sha512Compress.MajBits | implementation/cbits/raaz/hash/sha512/portable.c:128 | The two ways to write the majority of three bits are the same |
| Sha512Compress.Step | implementation/cbits/raaz/hash/sha512/portable.c:152-157 | One step under rotated names is one round |
| Sha512Compress.Schedule | implementation/cbits/raaz/hash/sha512/portable.c:175-193 | Sixteen updates in turn, the later ones from new values of the earlier ones, are the next sixteen words of the schedule |
| Sha512Compress.PortableBlock | implementation/cbits/raaz/hash/sha512/portable.c:243-370 | Eighty unrolled steps on the words that LOAD makes of 128 bytes, most significant byte first, are the compression function |
| Sha512Compress.PortableCompress | implementation/cbits/raaz/hash/sha512/portable.c:205-372 | From any state, the state of section 6.4.2 of FIPS 180-4 after all the blocks of a byte string; the compression function is the one of `RingCompress` |
| Sha512Compress.CryptoSha512 | monocypher/monocypher-3.0.0/optional/monocypher-ed25519.c:199-269 | Monocypher's SHA-512 as a whole, streaming and compression together |
| Transfer.GlueAligned | core/Raaz/Core/Transfer.hs:133-144 | The glue is the least that ends on a boundary, between header and footer |
| Transfer.UnsafeTransfer | core/Raaz/Core/Transfer/Unsafe.hs:119-125 | Skipped bytes of the buffer are left alone, the others are written |
| Transfer.SkipThenWrite | core/Raaz/Core/Transfer.hs:46-48 | Skipping the data and then writing leaves the data followed by what was written |
| Sha2Raaz.BitCount | core/Raaz/Primitive/Sha2/Internal.hs:158-162 | Shifting the two halves of a 128-bit byte count by three bits, with the bits that cross over, is the bit count |
| Sha2Raaz.Padding512Is | core/Raaz/Primitive/Sha2/Internal.hs:154-162 | The writer-built padding is that of section 5.1.2 of FIPS 180-4 for the whole message, placed after the bytes in the buffer, and needs at most one block more than the data |
| Sha2Raaz.Padding256Is | core/Raaz/Primitive/Sha2/Internal.hs:145-151 | The same for SHA-256 |
| Sha2Raaz.Sha512Internals.UpdateLength128 | core/Raaz/Primitive/HashMemory.hs:88-97 | Two length cells add up modulo 2^128; the carry is found by comparing beforehand |
| Sha2Raaz.Sha512Internals.ProcessBlocks | core/Raaz/Primitive/Sha2/Internal.hs:130-142 | Hash and byte count become what `HashStates.Sha512Blocks`, the function that contexts are instantiated with, makes of them |
| Sha2Raaz.Sha512Internals.ProcessLast | core/Raaz/Primitive/Sha2/Internal.hs:130-142 | After any whole blocks, the hash of section 6.4 of FIPS 180-4, which is what `HashStates.Sha512Last` makes of the state and the data |
| ByteSource.FillBytes | core/Raaz/Core/ByteSource.hs:134-163 | Every pure instance, also nested, meets the contract: the requested bytes and Remaining exactly when at least one byte more is left, Exhausted at an exact fit |
| Context.Cxt.FillFrom | indef/buffer/Context.hs:226-236 | The buffer is filled behind what is available; a full buffer with more to come is reported |
| Context.Cxt.ReadBuffer | core/Raaz/Core/ByteSource.hs:107-110 | A full buffer is processed only if the source has at least one byte more |
| Context.Cxt.Continue | indef/buffer/Context.hs:244-252 | Full buffers are processed until the source ends, and what it ends with is left |
| Context.Cxt.Update | indef/buffer/Context.hs:258-266 | Processed buffers and the buffer content are all bytes delivered so far; the buffer is empty only if there are none |
| Context.Cxt.EndResult | indef/buffer/Context.hs:269-275 | The end result is that of one call of processLast on everything |
| Context.ProcessByteSource | indef/Utils.hs:41-47 | The one-shot driver, for every buffer size: one call of processLast on everything |
| Context.UpdateAll | indef/Utils.hs:58-70 | Any list of updates, for every buffer size n >= 1, gives what the one-shot gives |
| HashStates.Sha512Ends | core/Raaz/Primitive/Sha2/Internal.hs:130-142 | From the state after any whole blocks, the last call gives the hash of everything |
| Implementations.Sha512Streams | core/Raaz/Primitive/Sha2/Internal.hs:130-142 | SHA-512, with the functions that `Sha512Internals` is proved to compute, may be fed whole blocks a part at a time |
| Implementations.HashSources | indef/Utils.hs:41-70 | SHA-512 of any sources, through a context of any size, is the hash of section 6.4 of FIPS 180-4 of their concatenation |
| Implementations.Blake2bStreams | implementation/Blake2b/CHandWritten.hs:69-91 | So may BLAKE2b, with the functions of `Blake2bMem`, as long as some byte is left for the end |
| Implementations.KeyedStreams | indef/keyed/hash/Mac/Implementation.hs:128-147 | So may keyed BLAKE2b, with the functions of `MacInternals`, whose key block waits for the first call, whatever the key buffer holds |
| Implementations.KeyedHashSources | indef/keyed/hash/Mac/Implementation.hs:109-147 | Keyed BLAKE2b of any sources, through a context of any size, hashes the key buffer and their concatenation; with a key, that is keyed hashing of section 3.3 of RFC 7693 |
| Blake2bRaaz.HashInitIs | core/Raaz/Primitive/Blake2/Internal.hs:58-75 | Initial value and key length are those of Monocypher and of RFC 7693 for a hash of 64 bytes |
| Blake2bRaaz.Blake2PadIs | core/Raaz/Primitive/Blake2/Internal.hs:111-117 | Zeros up to a block boundary, and one block of them for an empty message |
| Blake2bRaaz.Blake2bMem.ProcessBlocks | implementation/cbits/raaz/hash/blake2/blake2b/portable.c:88-188 | The counters hold the number of bytes processed, no block is flagged, and the state becomes what `HashStates.Blake2bBlocks` makes of it |
| Blake2bRaaz.Blake2bMem.ProcessLast | implementation/Blake2b/CHandWritten.hs:69-91 | All but the last block through the block compressor, then the last one with its own byte count and the flag; that is what `HashStates.Blake2bLast` makes of the state and the data |
| Blake2bRaaz.LastIsEnding | implementation/Blake2b/CHandWritten.hs:69-91 | From the state after any whole blocks, the last call compresses the blocks of the data, the last one flagged, with the counts of everything |
| Blake2bRaaz.EndsAsDigest | implementation/Blake2b/CHandWritten.hs:69-91 | That is the digest of section 3.3 of RFC 7693, for every compression function, exactly when data is left for the last call or nothing was processed before |
| Mac.KeyWritten | indef/keyed/hash/Mac/Implementation.hs:109-120 | The key buffer holds the padded key; an empty key writes nothing |
| Mac.KeyedExactly | indef/keyed/hash/Mac/Implementation.hs:109-120 | Hashing the key buffer first is keyed hashing, for every compression function, exactly for non-empty keys |
| Mac.MacInternals.Initialise | indef/keyed/hash/Mac/Implementation.hs:109-120 | The key is cut to 64 bytes and waits in its buffer |
| Mac.MacInternals.ProcessBlocks | indef/keyed/hash/Mac/Implementation.hs:128-136 | The first call processes the key block before anything else; the state becomes what `Mac.MacBlocks` makes of it |
| Mac.MacInternals.ProcessLast | indef/keyed/hash/Mac/Implementation.hs:139-147 | The key block is the last block exactly when it is the first call and there is no data: what `Mac.MacLast` makes of the state and the data |
| Mac.KeyedHash | indef/keyed/hash/Mac/Implementation.hs:109-147 | For every key, also the empty one, and every run of calls: the hash of key block and message, and with a block of zeros too many if a run of blocks ends without data |
| Mac.KeyedRun | indef/keyed/hash/Mac/Implementation.hs:109-147 | With a key, and unless a run of blocks ends without data, that is keyed hashing of section 3.3 of RFC 7693 |
| RandomState.RandomState.WriteTo | indef/buffer/Context.hs:196-209 | Bytes come from the end of what is available, at most as many as requested, and are wiped; bytes past the mark stay zero; no byte is used twice |
| RandomState.RandomState.InitFromBuffer | api/random/PRGenerator.hs:163-166 | Each region of the seed becomes the next bytes from the end of the buffer |
| RandomState.RandomState.GenerateRandom | api/random/PRGenerator.hs:140-144 | A new buffer, of which the seed takes its share before any random byte is handed out |
| RandomState.RandomState.Reseed | api/random/PRGenerator.hs:129-133 | The entropy pool is the seed of the new buffer, and the count starts again |
| RandomState.RandomState.Sample | api/random/PRGenerator.hs:119-123 | A reseed exactly when the count has reached the limit |
| RandomState.RandomState.FillRandomBytes | api/random/PRGenerator.hs:174-194 | Terminates with exactly n bytes, which extend the random bytes handed out so far; no generated byte is used twice, as a seed or as a random byte |
| RandomState.ReseedBound | api/random/PRGenerator.hs:119-144 | The number of blocks between reseeds never exceeds the limit, over all runs, exactly when the limit is positive and a whole number of buffers |
| RandomState.ChaChaBound | implementation/ChaCha20/CHandWritten.hs:58-65 | It never does for 16 blocks in the buffer and a limit of 2^30 |
| AesBytes.SBoxInverse | implementation/cbits/raaz/cipher/aes/common.c:63-135 | The two tables undo each other |
| AesBytes.SBoxMeaning | implementation/cbits/raaz/cipher/aes/common.c:63-97 | The table is the S-box of section 5.1.1 of FIPS 197: inverse in GF(2^8) and affine map |
| AesBytes.Mult02Bytes | implementation/cbits/raaz/cipher/aes/cportable.c:3-5 | Mult02 multiplies each of four packed bytes by {02} |
| AesMix.MixRowBytes | implementation/cbits/raaz/cipher/aes/cportable.c:68-84 | MixColumns on packed rows gives the bytes of section 5.1.3 of FIPS 197 |
| AesMix.InvMixRowBytes | implementation/cbits/raaz/cipher/aes/cportable.c:87-110 | InvMixColumns on packed rows gives the bytes of section 5.3.3, with factors {0e}, {0b}, {0d} and {09} |
| AesMix.MixInverse | implementation/cbits/raaz/cipher/aes/cportable.c:68-110 | InvMixColumns undoes MixColumns |
| AesCbc.SubShiftBytes | implementation/cbits/raaz/cipher/aes/common.h:93-106 | The byte in row i is the substituted one from i columns further |
| AesCbc.SubShiftInverse | implementation/cbits/raaz/cipher/aes/common.h:93-121 | InvSubBytesAndShift undoes SubBytesAndShift |
| AesCbc.InvMixColumns | implementation/cbits/raaz/cipher/aes/cportable.c:87-110 | The macro, from MixColumns and the doubled rows it leaves behind, is InvMixColumns |
| AesCbc.CipherInverse | implementation/cbits/raaz/cipher/aes/cportable.c:134-166 | DECRYPT undoes ENCRYPT for every key schedule and any number of rounds from 1 |
| AesRuns.CipherBytes | implementation/cbits/raaz/cipher/aes/cportable.c:134-148 | Byte by byte and without packed rows: for every run of states that starts with the block xored with key 0 and goes through SubBytes, ShiftRows, MixColumns and AddRoundKey, the cipher is the last one through SubBytes, ShiftRows and the last key |
| AesRuns.InvCipherBytes | implementation/cbits/raaz/cipher/aes/cportable.c:156-166 | The same for the inverse cipher of section 5.3 of FIPS 197 |
| AesRuns.SomeRun | implementation/cbits/raaz/cipher/aes/cportable.c:134-148 | Every block and key schedule has such a run |
| AesRuns.LoadByte | implementation/cbits/raaz/cipher/aes/cportable.c:168-207 | A block in memory is a matrix by columns |
| AesCbc.CbcEncrypt | implementation/cbits/raaz/cipher/aes/cportable.c:168-207 | In place, block by block: cipher block chaining, the chaining value at the end, and nothing written behind the blocks |
| AesRuns.CbcBlock | implementation/cbits/raaz/cipher/aes/cportable.c:168-207 | Block i of the result is the cipher of block i of the text xored with block i - 1 of the result, or with the initial value |
| AesRuns.CbcEncryptedBytes | implementation/cbits/raaz/cipher/aes/cportable.c:168-207 | Its bytes, from such a run |
| AesCbc.CbcDecrypt | implementation/cbits/raaz/cipher/aes/cportable.c:210-269 | In place, from the last block back to the first: the decryption, and the last cipher block as the chaining value |
| AesRuns.CbcDecryptedBytes | implementation/cbits/raaz/cipher/aes/cportable.c:210-269 | The bytes of block i of the decryption: those of the inverse cipher of block i, xored with block i - 1 or the initial value |
| AesCbc.RoundTrip | implementation/cbits/raaz/cipher/aes/cportable.c:168-269 | Decrypting the encrypted buffer in place restores it, and both directions leave the same chaining value |
| Base64.EncodedLength | core/Raaz/Core/Encode/Base64.hs:114-140 | Four characters for every started group of three bytes |
| Base64Digits.GroupDigits | core/Raaz/Core/Encode/Base64.hs:58-93 | The four characters of a group are the base-64 digits of its 24 bits, most significant first, in the alphabet of section 4 of RFC 4648 |
| Base64Digits.OneLeft | core/Raaz/Core/Encode/Base64.hs:131-134 | One byte left over: the digits of its 8 bits and zeros, and two pad characters |
| Base64Digits.TwoLeft | core/Raaz/Core/Encode/Base64.hs:135-139 | Two bytes left over: the digits of their 16 bits and zeros, and one pad character |
| Base64.OkeyPadIs | core/Raaz/Core/Encode/Base64.hs:33-35 | The padding check accepts at most two padding characters, all at the end |
| Base64.RoundTrip | core/Raaz/Core/Encode/Base64.hs:25-39 | Parsing what was printed gives back the bytes, for every length |
| Base64.Outcomes | core/Raaz/Core/Encode/Base64.hs:28-39 | Nothing is returned exactly for strings that are not whole groups with their padding, and error is called exactly when such a string has a letter outside ASCII |
| Base64.PrintedBack | core/Raaz/Core/Encode/Base64.hs:25-39 | Printing what was parsed gives back the string exactly when the bits that the padding leaves unused are zero |
| Base64.LatinLetter | core/Raaz/Core/Encode/Base64.hs:35 | A capital A with diaeresis passes the check and ends in a call of error |
| Base64.StrayBits | core/Raaz/Core/Encode/Base64.hs:165-173 | The text QR== parses to a letter that is printed as QQ== |

## Left out

- Cryptographic strength, timing, memory locking, and whether a compiler keeps a wipe. A wipe is writing zeros; wipes of local variables are left out.
- The curve: that the Edwards formulas are a group law and that the points of the Montgomery curve are a group, the contents of the comb and window tables, and point compression are contracts (`Signatures.Curve`, `Comb.CombTable`, `SlidingWindow.OddMultiples`, `Ladder.Differential`).
- FieldPower.FeInvert: states the power 2^255 - 21 and not the inverse, because that 2^255 - 19 is prime is not proved here.
- X25519.SharedPoint: assumes that the step doubles and adds differentially in a group. That it doubles by the tangent and adds by the chord is proved (`Montgomery.StepDoubles`, `Montgomery.StepAdds`), for points where the slopes exist; that tangents and chords make a group is not.
- Montgomery.QuotientIs: has Fermat's theorem for z as a condition, because that 2^255 - 19 is prime is not proved here.
- The compression function of BLAKE2b, the block function G of Argon2i and its variable-length hash are parameters; so are the block function of the random generator and the entropy pool.
- RandomState.RandomState.FillRandomBytes: needs a buffer larger than a seed, as the comment on `unsafeInitFromBuffer` demands; with a smaller one the source would not terminate.
- AesCbc.CbcDecrypt: needs at least one block, because the source reads the last block before it looks at the count. The key expansion is not modelled.
- SlidingWindow.DoubleScalarmult: needs scalars below 2^253, as every caller has reduced them.
- AeadIncremental.LockCtx.LockAuthAd: lengths stay below 2^64, where `ad_size` would wrap.
- Argon2i.Fill: needs at least 8 blocks, as the interface demands, and starts from the two blocks that the initial hash gives.
- Sha2Raaz.Sha512Internals.ProcessLast: the length cells are left with the padding counted in, as in the source, and the contract does not speak about them. The driver of SHA-256 is that of SHA-512 with other sizes; only its padding is modelled.
- The stream contexts are modelled with messages as sequences of bytes; pointers, alignment and null messages of length 0 are not. Buffers that functions write to are arrays, and the aliasings that the source allows are proved.
- File handles as byte sources, the IETF and XChaCha20 entry points, HMAC, key exchange by HChaCha20 as a protocol, Base16, Salsa20 and SHA-1 would add nothing hard.
- Entropy sources, CPU detection, the command line, Backpack wiring, tests and benchmarks.
