# Verification of the arithmetic, signing, key derivation and encoding core

This project models the parts of the IoTeX client library on which its signatures, addresses and messages
depend, and proves what they compute: 256-bit arithmetic on nine 29-bit limbs, scalar multiplication, ECDSA,
hierarchical key derivation with its cache, the BLAKE hashes as streams, and the encoders and parsers for
Base58, Bech32, JSON, decimal amounts and the contract ABI. `dafny verify dfyconfig.toml` checks all of it.

How the code is represented:

- A `bignum256` is an `array<uint32>` of nine limbs, updated in place. `Val` is the integer it stands for, `Num`
  says that every limb is normalized. 32-bit and 64-bit accumulators are subset types, so that a proof of a method
  is also a proof that no accumulator overflows or underflows. Aliasing is allowed where the code allows it.
- A curve point is the multiple of the base point that it is, modulo the group order, and 0 is infinity. The
  coordinate formulas are the group operations on multiples. `JacobianPoint.Add` requires both operands to be finite,
  because `point_jacobian_add` has no case for infinity; that it is never called otherwise is proved.
- Objects that the code updates in place are classes (`HdNode`, `CkdCache`, `Item`, `PrintBuffer`, `ParseBuffer`, the
  two hash contexts). A method is tied to a function of the old state, and the theorems are about that function.
- HMAC-SHA512, the public-key hash, the compression functions, `strtod`, the nonce generator and the blinding factors are
  function parameters about which nothing is assumed but the size of their results.
- Character strings are byte sequences. Single-bit masks are conditionals.

The main results, module by module:

- `Multiplication`, `Bignum`, `Inversion`, `AlmostInverse`: `bn_multiply`, `bn_fast_mod`, `bn_power_mod` and
  `bn_inverse_fast` are correct for every modulus that the code admits; the inverse is reached within the fixed 522 iterations.
- `SignedDigits`, `ScalarMultiply`, `TableMultiply`: the 64 signed odd digits represent the scalar, both loops compute the right multiple,
  and no accumulator is ever infinity.
- `Ecdsa`, `EcdsaRecover`: a signature is accepted exactly when the signature equation has a solution with its x; whatever signing
  returns verifies under the matching key, through blinding, the low-s rule and the reduction of x, and recovery from it
  gives that key.
- `Bip32`, `Bip32Cache`: a child is read off an HMAC of data that is given byte by byte; neutering commutes with derivation for any number of retries and along any path; the cache never
  changes what is derived.
- `Base58`, `Bech32`, `AddressEncoder`, `CJsonPrint`/`CJsonParse`/`CJsonParser`, `Format`, `Abi`: round trips, in both
  directions where the format is canonical, and exactly when they hold where they do not always.
- `CJsonList`, `CJsonTree`: every run of list edits keeps the linked list well formed and acts on it as on a sequence; parsing
  builds such lists at every level.
- `Bech32Law`: the checksum is a remainder in GF(32), the decoder accepts exactly what the standards describe.
- `CJsonEscapes`, `CJsonGrammar`: the parser accepts exactly the values of a grammar, and escapes mean the code points they write.
- `Blake256`, `Blake2b`: the digest does not depend on how input is cut up, and is the hash of the padded message with the
  right counter in every block.

Where the code differs from its comments, the model follows the code:

- `bn_fast_mod` asks for normalized low limbs, but `bn_mult_k` and `bn_addmod` pass others; `Bignum.FastMod` is
  proved for arbitrary limbs.
- `bn_subtract` asks for x >= y, but `bn_mod` calls it with smaller x; `Bignum.Subtract` is proved modulo 2^261.
- `inverse_mod_power_two` promises a result below 2^n, but for n = 1 its loop never runs; the bound is proved for n > 1.
- `bn_long_division` documents d <= 61304 but asserts d < 61304; the assertion is used.
- In `bn_inverse_fast`, v and r keep shifting after the end; only s and k are claimed then.
- `parse_hex4` returns 0 where a character is no digit, and its caller does not tell that from the digits 0000
  (`CJsonEscapes.BadDigitsReadZero`).
- `bech32_convertBytesTo5Bit` writes the bits left over into its list of bits instead of its output. Regrouping therefore keeps
  every bit exactly when the number of bytes is a multiple of five (`AddressEncoder.DeterminesExactly`).
- `str2hex` takes a length of zero for the whole string, so an encoded list of byte strings decodes exactly when it is not empty
  and no element but its last one is empty (`Abi.ArrayRoundTrip`). Its size check rounds down, so an odd number of digits can be
  one too many (`Abi.StoresInside`).
- `decodeStaticArrayDynamicBytes` doubles offsets and lengths modulo 2^64 before it compares them with the text, so some that are
  too large pass (`Abi.LengthTest`, `Abi.OffsetTest`), and it reads a length before it tests that one is left.
- `generateBytesForStaticBytes` counts words with a division in single precision, which is exact up to 2^24 bytes and beyond only
  for certain sizes (`Abi.GroupsExact`).

## Model

| member | source | states |
|---|---|---|
| `Bignum.IsZero` | src/extern/crypto/bignum.c:228-236 | true exactly for the number 0 |
| `Bignum.IsOne` | src/extern/crypto/bignum.c:238-246 | true exactly for the number 1 |
| `Bignum.IsLess` | src/extern/crypto/bignum.c:248-258 | the two bit masks compared at the end decide x < y |
| `Bignum.IsEqual` | src/extern/crypto/bignum.c:260-266 | limbs agree exactly when the numbers do |
| `Bignum.Cmov` | src/extern/crypto/bignum.c:272-290 | the result is one of the two operands, even when it aliases one |
| `Bignum.Lshift` | src/extern/crypto/bignum.c:370-380 | doubles modulo 2^261 across limb boundaries |
| `Bignum.Rshift` | src/extern/crypto/bignum.c:383-393 | halves, rounding down, across limb boundaries |
| `Bignum.MultHalf` | src/extern/crypto/bignum.c:437-488 | twice the result is x, or x plus the odd prime |
| `Bignum.MultK` | src/extern/crypto/bignum.c:494-505 | k * x modulo the prime, below twice the prime, through limbs that are not normalized |
| `Bignum.Mod` | src/extern/crypto/bignum.c:512-520 | the full remainder of a partly reduced number |
| `Bignum.FastModBound` | src/extern/crypto/bignum.c:710-750 | one subtraction of coef * prime leaves arbitrary limbs between 0 and twice the prime |
| `Bignum.FastMod` | src/extern/crypto/bignum.c:710-799 | for nine arbitrary 32-bit limbs: normalized, congruent to the input and below twice the prime |
| `Bignum.Add` | src/extern/crypto/bignum.c:1372-1398 | exact addition in place, also of a number to itself |
| `Bignum.AddMod` | src/extern/crypto/bignum.c:1402-1413 | the sum modulo the prime, partly reduced |
| `Bignum.Subtract` | src/extern/crypto/bignum.c:1551-1589 | the difference modulo 2^261, hence exact when x >= y, for any aliasing |
| `Multiplication.ColumnsValue` | src/extern/crypto/bignum.c:526-567 | the columns of the long multiplication add up to the product |
| `Multiplication.MultiplyLong` | src/extern/crypto/bignum.c:526-567 | 18 normalized limbs whose value is k * x, without overflow of the 64-bit accumulator |
| `Multiplication.Coefficient` | src/extern/crypto/bignum.c:598-608 | the coefficient read off two limbs is the window divided by 2^256 |
| `Multiplication.WindowReduced` | src/extern/crypto/bignum.c:579-608 | subtracting coef * prime leaves a window between 0 and twice the prime |
| `Multiplication.MultiplyReduceStep` | src/extern/crypto/bignum.c:577-669 | each step keeps the residue and brings the number below 2 * prime * 2^(29 * d) |
| `Multiplication.MultiplyReduce` | src/extern/crypto/bignum.c:673-690 | from below 2^519 to below twice the prime, same residue |
| `Multiplication.Multiply` | src/extern/crypto/bignum.c:697-704 | for k * x < 2^519: normalized, below twice the prime and congruent to k * x |
| `Multiplication.ExponentStep` | src/extern/crypto/bignum.c:824-837 | squaring and multiplying keeps res * acc^(exponent left) |
| `Multiplication.PowerMod` | src/extern/crypto/bignum.c:808-843 | x^e modulo the prime for x < 2^259 and any e, also in place and with the early break |
| `Inversion.NewtonStep` | src/extern/crypto/bignum.c:878-897 | the error of acc is squared in each iteration: acc * a == 1 - f^2 becomes acc * a == 1 - f^4 modulo the power of two |
| `Inversion.Round` | src/extern/crypto/bignum.c:885-897 | i correct bits become 2 * i, in wrapping 32-bit arithmetic with a mask |
| `Inversion.InverseModPowerTwo` | src/extern/crypto/bignum.c:878-899 | the inverse of an odd number modulo 2^n |
| `Inversion.MontgomeryDigit` | src/extern/crypto/bignum.c:907-930 | the multiple of the prime that makes the lowest limb vanish |
| `Inversion.DivideBase` | src/extern/crypto/bignum.c:907-967 | exact division by 2^29 modulo the prime, keeping both range bounds |
| `AlmostInverse.StepRunning` | src/extern/crypto/bignum.c:1149-1176 | each step keeps u*s + v*r == prime and both congruences with 2^k |
| `AlmostInverse.MeetAtOne` | src/extern/crypto/bignum.c:1149-1165 | for coprime inputs the two registers can only meet at 1 |
| `AlmostInverse.HaltsBefore512` | src/extern/crypto/bignum.c:1148-1177 | u * v at least halves, so that the loop ends before step 512 |
| `AlmostInverse.RunFinishes` | src/extern/crypto/bignum.c:1148-1177 | after 522 steps x * s == 2^k, whatever v and r have become |
| `AlmostInverse.Unscaled` | src/extern/crypto/bignum.c:1179-1193 | removing exactly 2^k from s leaves the inverse |
| `Inversion.InverseStep` | src/extern/crypto/bignum.c:1149-1176 | the masked register update on limbs is one step of the algorithm on integers |
| `Inversion.InverseLoop` | src/extern/crypto/bignum.c:1133-1177 | the fixed number of iterations suffices |
| `Inversion.DivideByLimbs` | src/extern/crypto/bignum.c:1179-1185 | removes 29 * (k / 29) factors of two |
| `Inversion.DivideByBits` | src/extern/crypto/bignum.c:1187-1193 | removes the remaining k % 29 factors of two |
| `Inversion.InverseFast` | src/extern/crypto/bignum.c:1097-1201 | the fully reduced inverse, and 0 for multiples of the prime |
| `ByteOrder.ReadBe` | src/extern/crypto/bignum.c:86-100 | the big-endian number in normalized limbs |
| `ByteOrder.WriteBe` | src/extern/crypto/bignum.c:104-116 | the 32 bytes whose big-endian value is the number, and nothing else changes |
| `ByteOrder.BytesOfValue` | src/extern/crypto/bignum.c:104-116 | words cut across limb boundaries lose no bit |
| `ByteOrder.BigEndianExample` | src/extern/crypto/bignum.c:86-116 | the bytes 1, 2, 3 are the number 0x10203, and it is written as 0, 1, 2, 3 |
| `Division.LimbStep` | src/extern/crypto/bignum.c:1603-1640 | the divided limb and the remainder, with both intermediate sums inside 32 bits |
| `Division.LongDivision` | src/extern/crypto/bignum.c:1595-1646 | exact quotient and remainder for 1 <= d < 61304, also in place |
| `Format.BodyIsRest` | src/extern/crypto/bignum.c:1673-1693 | writing digits from the end and skipping zeros equals the prototype's formatting and its two strips |
| `Format.RestStep` | src/extern/crypto/bignum.c:1744-1759 | what is left to write after one digit |
| `Format.AddChar` | src/extern/crypto/bignum.c:1695-1706 | one more character in front, or a cleared buffer because the text cannot fit |
| `Format.BnFormat` | src/extern/crypto/bignum.c:1671-1797 | the text of the Python prototype when it fits, otherwise 0 and a cleared buffer |
| `Format.FormattedMeaning` | src/extern/crypto/bignum.c:1671-1797 | the text between prefix and suffix reads as amount * 10^exponent, rounded down, in units of 10^decimals, with all decimals or without zeros at the end |
| `SignedDigits.DigitSumValue` | src/extern/crypto/ecdsa.c:406-525 | the first i signed digits sum to a minus the quotient rounded to an odd number |
| `SignedDigits.PartialSumSign` | src/extern/crypto/ecdsa.c:531-614 | a partial sum is nonzero, bounded, and has the sign of its last digit |
| `SignedDigits.UpperSumBound` | src/extern/crypto/ecdsa.c:406-525 | the digits above position i form an odd number between -order and order |
| `SignedDigits.DigitsRepresent` | src/extern/crypto/ecdsa.c:406-525 | all 64 digits represent the scalar modulo the order |
| `ScalarMultiply.OddScalar` | src/extern/crypto/ecdsa.c:427-447 | an odd multiplier below 2^257, congruent to k + 2^256 |
| `ScalarMultiply.OddMultiples` | src/extern/crypto/ecdsa.c:458-469 | the table holds p, 3p, ..., 15p |
| `ScalarMultiply.NextDigit` | src/extern/crypto/ecdsa.c:496-508 | five bits at position 4 * i, also across a limb boundary |
| `ScalarMultiply.AccumulatedStep` | src/extern/crypto/ecdsa.c:486-520 | four doublings, a sign change and an addition append one digit, and the accumulator before the addition is finite |
| `ScalarMultiply.UpperSumNonzero` | src/extern/crypto/ecdsa.c:486-520 | no partial multiplier is 0 modulo the order |
| `ScalarMultiply.PointMultiply` | src/extern/crypto/ecdsa.c:406-525 | k * p for every k below an odd order between 16 and 2^256 and every point coprime to it, without ever adding to infinity |
| `TableMultiply.SummedStep` | src/extern/crypto/ecdsa.c:588-609 | adding table entries from the lowest digit up, with the sign kept in the accumulator, which stays finite while 16^i is below the order |
| `TableMultiply.ShiftFour` | src/extern/crypto/ecdsa.c:591-597 | shifts the multiplier right by four bits across limbs |
| `TableMultiply.ScalarMultiply` | src/extern/crypto/ecdsa.c:531-614 | the table-driven form computes k times the base point for every odd order above 2^252, prime or not |
| `Ecdsa.BlindedSignature` | src/extern/crypto/ecdsa.c:706-715 | the blinding factor cancels: s is k^-1 * (r * priv + z) |
| `Ecdsa.BlindedS` | src/extern/crypto/ecdsa.c:706-715 | the same on limbs, every product inside the range of the multiplication |
| `Ecdsa.NoncePoint` | src/extern/crypto/ecdsa.c:693-700 | r is x modulo the order, and the recovery byte records parity and wrap |
| `Ecdsa.LowS` | src/extern/crypto/ecdsa.c:721-725 | s ends in the lower half and the recovery bit flips with it; `Signs` says what the bit must be |
| `Ecdsa.SignAttempt` | src/extern/crypto/ecdsa.c:680-745 | one pass of the loop returns the signature that its nonce determines, or is skipped exactly when there is none |
| `Ecdsa.AttemptExact` | src/extern/crypto/ecdsa.c:680-745 | an attempt returns a signature if and only if the signature equation, x, the parity of y and s <= order / 2 determine it from the nonce, and it is canonical |
| `Ecdsa.SignDigest` | src/extern/crypto/ecdsa.c:664-755 | the signature of the first usable nonce among 10000, or -1 when all are unusable; the nonce or its negative solves the signature equation, has x = r + (recid / 2) * order, and y of the parity of recid |
| `Ecdsa.Recombine` | src/extern/crypto/ecdsa.c:1055-1063 | u1 = z * s^-1 and u2 = r * s^-1 modulo the order |
| `Ecdsa.VerifyDigest` | src/extern/crypto/ecdsa.c:1026-1090 | every result code, in the order in which the code decides; behind the range checks it is 4, 0 or 5 as the solution of the signature equation is 0, has the x of the signature, or has not |
| `Ecdsa.VerdictLaw` | src/extern/crypto/ecdsa.c:1053-1078 | for the k with s * k = r * d + z: 4 if k is 0, 0 if x(k) modulo the order is r, and 5 otherwise |
| `Ecdsa.VerdictExact` | src/extern/crypto/ecdsa.c:1026-1090 | a signature is accepted if and only if its numbers are in range and some nonzero k solves the equation and has that x |
| `Ecdsa.SignedVerifies` | src/extern/crypto/ecdsa.c:664-755 | for a key in range and a nonzero digest, what a nonce yields has s <= order / 2 and verifies |
| `Ecdsa.NegatedSignature` | src/extern/crypto/ecdsa.c:721-725 | s and order - s get the same verdict, so that the low-s rule loses nothing |
| `Ecdsa.SignThenVerify` | src/extern/crypto/ecdsa.c:1026-1090 | whenever signing returns 0, verification with the matching key returns 0 and s is low |
| `EcdsaRecover.RecoverPub` | src/extern/crypto/ecdsa.c:973-1022 | the one key for which the lifted point solves the signature equation, or none when r or s is out of range or x cannot be lifted |
| `EcdsaRecover.RecoveredKey` | src/extern/crypto/ecdsa.c:973-1022 | from a signature that opens to a point with its r and recovery byte, recovery gives the key it was made for |
| `EcdsaRecover.SignThenRecover` | src/extern/crypto/ecdsa.c:973-1022 | whenever signing returns 0, recovery from the signature and its recovery byte gives the signer's key |
| `Bip32.PublicKey33` | src/extern/crypto/ecdsa.c:757-769 | the compressed encoding of the private key's point |
| `Bip32.HdNode.FillPublicKey` | src/extern/crypto/bip32.c:601-632 | fills in a missing public key and leaves a present one alone |
| `Bip32.HdNode.Fingerprint` | src/extern/crypto/bip32.c:194-204 | the number in the first four bytes of the hash of the public key |
| `Bip32.HdNode.ChildKeyOf` | src/extern/crypto/bip32.c:230-254 | the retry loop ends at the first HMAC output that is accepted, all before it being rejected, and adds its left half to the key |
| `Bip32.AcceptedFirst` | src/extern/crypto/bip32.c:230-254 | the loop has a result exactly when some output is accepted, and it is the first of them |
| `Bip32.HdNode.PrivateCkd` | src/extern/crypto/bip32.c:206-270 | the whole new node, and no change when derivation is refused; `IsPrivateChild` says in terms of bytes what is hashed for it |
| `Bip32.PrivateChildMeaning` | src/extern/crypto/bip32.c:206-270 | what is hashed is 37 bytes that end in the index: a zero and the private key when hardened, otherwise the parity of y and x; a retry hashes 1, the right half of the last output and the index; the child key is the left half of the first output in range plus the parent key, one level deeper |
| `Bip32.HardenedInput` | src/extern/crypto/bip32.c:211-217 | hashed data of a hardened step is never that of another step, and determines the private key and the index |
| `Bip32.CompressedMeaning` | src/extern/crypto/ecdsa.c:757-769 | 2 or 3 by the parity of y, then the number x |
| `Bip32.PublicCkdPoint` | src/extern/crypto/bip32.c:422-459 | the child point and chain code from the first HMAC output that private derivation accepts as well |
| `Bip32.HdNode.PublicCkd` | src/extern/crypto/bip32.c:461-482 | the whole new public node, and no change when derivation is refused |
| `Bip32.PublicChildMeaning` | src/extern/crypto/bip32.c:422-482 | the same for the public child: its key is the compressed sum of the parent point and the left half |
| `Bip32.ChildWellformed` | src/extern/crypto/bip32.c:206-270 | a derived private key is again a nonzero scalar below the order |
| `Bip32.NeuteringCommutes` | src/extern/crypto/bip32.c:461-482 | deriving and then neutering is neutering and then deriving, for every non-hardened index and any number of retries |
| `Bip32.NeuteringCommutesAlong` | src/extern/crypto/bip32.c:461-482 | the same along every path without hardened steps |
| `Bip32Cache.CkdCache.Find` | src/extern/crypto/bip32.c:545-559 | the node of the first slot that matches, which is what derivation along the path gives, and none only if no slot matches |
| `Bip32Cache.CkdCache.Save` | src/extern/crypto/bip32.c:567-576 | changes the oldest slot alone, to this path and node, moves on around the ring, and keeps the cache valid |
| `Bip32Cache.CkdCache.Parent` | src/extern/crypto/bip32.c:535-577 | the parent node, from the ring or derived, across root changes and eviction, and then in the ring |
| `Bip32Cache.CkdCache.PrivateCkdCached` | src/extern/crypto/bip32.c:521-585 | the node and the parent fingerprint of uncached derivation, with the cache left valid |
| `Base58.BufferSuffices` | src/extern/crypto/base58.c:156-157 | (binsz - zcount) * 138 / 100 + 1 digits hold the number, and index 0 stays free until the last byte |
| `Base58.AppendByte` | src/extern/crypto/base58.c:160-170 | multiplies by 256 and adds, in spite of stopping at `high` and at index 0 |
| `Base58.Encode` | src/extern/crypto/base58.c:148-186 | the encoding and its terminator if they fit, and the size needed in either case |
| `Base58.MultiplyAdd` | src/extern/crypto/base58.c:86-91 | multiplies the 32-bit words by 58 and adds a digit, with the carry out |
| `Base58.FitsExactly` | src/extern/crypto/base58.c:92-97 | the carry test and the mask test reject exactly the numbers that need more than binsz bytes |
| `Base58.Decode` | src/extern/crypto/base58.c:52-128 | the decoded bytes at the end of the buffer, or failure exactly when there are none |
| `Base58.DecodeEncode` | src/extern/crypto/base58.c:52-186 | decoding undoes encoding for every byte string and every buffer that is long enough, leading zeros included |
| `Base58.EncodeDecode` | src/extern/crypto/base58.c:52-186 | every string that decodes is the encoding of what it decodes to |
| `Base58.EncodedMeaning` | src/extern/crypto/base58.c:148-186 | an encoding shows digits with the value of the bytes and as many leading zeros |
| `Base58.AlphabetLaw` | src/extern/crypto/base58.c:31-49 | the two tables are inverse: the digits from 1, the capitals without I and O, the small letters without l |
| `Base58.EncodedExample` | src/extern/crypto/base58.c:148-186 | the bytes 0 and 97 are "12g" |
| `Bech32.RemainderLinear` | src/encoder/bech32.cpp:42-111 | the checksum of a sum of symbol lists is the sum of their checksums |
| `Bech32.ReductionIsProduct` | src/encoder/bech32.cpp:93-108 | the five constants multiply the coefficient that leaves by the generator polynomial over GF(32) |
| `Bech32.StepIsPolynomialStep` | src/encoder/bech32.cpp:70-109 | one step is multiplication by x and reduction modulo the generator polynomial, coefficient by coefficient |
| `Bech32.BurstDetected` | src/encoder/bech32.cpp:42-111 | lists of any length that differ only within six neighbouring symbols have different checksums |
| `Bech32.BurstNeverVerifies` | src/encoder/bech32.cpp:136-149 | such an error, and so every single-symbol error, never verifies under the same encoding |
| `Bech32.ChecksumVerifies` | src/encoder/bech32.cpp:152-165 | the created checksum makes the list verify under its encoding |
| `Bech32.ChecksumUnique` | src/encoder/bech32.cpp:152-165 | no other six symbols do |
| `Bech32.ComputePolyMod` | src/encoder/bech32.cpp:42-111 | the loop computes the remainder of the whole list |
| `Bech32.CreateChecksum` | src/encoder/bech32.cpp:152-165 | the six groups of the masked remainder |
| `Bech32.Encode` | src/encoder/bech32.cpp:170-184 | prefix, separator and the characters of values and checksum |
| `Bech32.Decode` | src/encoder/bech32.cpp:187-228 | the parts of a valid string of either case, and failure for every other string |
| `Bech32.DecodeEncode` | src/encoder/bech32.cpp:170-228 | decoding returns what was encoded exactly when the prefix is printable and not empty and the length at most 90 |
| `Bech32.EncodeDecode` | src/encoder/bech32.cpp:170-228 | every string that decodes is, in lower case, the encoding of what it decodes to |
| `Bech32Law.RemainderIsRem` | src/encoder/bech32.cpp:37-111 | the number computed packs the remainder of the polynomial, with 1 in front, modulo the generator over GF(32) |
| `Bech32Law.VerifiedLaw` | src/encoder/bech32.cpp:119-149 | a list verifies as Bech32 exactly when 1, the high halves of the prefix, 0, the low halves and the symbols leave the remainder 1, and as Bech32m when they leave that of its constant; the quotient is exhibited |
| `Bech32Law.EncodedMeaning` | src/encoder/bech32.cpp:152-184 | an encoding spells the prefix, a "1", the values and six symbols that leave this remainder |
| `Bech32Law.DecodedMeaning` | src/encoder/bech32.cpp:187-228 | a string decodes to a prefix and data if and only if it reads, in one case, as their encoding and is printable and at most 90 long |
| `Bech32Law.SymbolLaw` | src/encoder/bech32.cpp:17-26 | the two tables are inverse, and both cases of a character stand for its symbol |
| `Bech32Law.ShortestStrings` | src/encoder/bech32.cpp:29-32 | the prefix "a" without data gives "a12uel5l" and "a1lqfn3a" |
| `AddressEncoder.ConvertBytesTo5Bit` | src/encoder/encoder.cpp:90-138 | the complete groups of five bits, and a zero symbol where bits are left over |
| `AddressEncoder.RegroupedBits` | src/encoder/encoder.cpp:90-138 | bit j of symbol i is bit 5i + j of the bytes, and an incomplete group is 0 |
| `AddressEncoder.DeterminesExactly` | src/encoder/encoder.cpp:90-138 | the symbols determine the bytes if and only if the number of bytes is a multiple of five |
| `AddressEncoder.AddressDecodes` | src/encoder/encoder.cpp:76-87 | an address decodes to its prefix and symbols up to the length limit |
| `AddressEncoder.AddressDetermines` | src/encoder/encoder.cpp:76-87 | two byte strings in groups of five with the same address are equal |
| `AddressEncoder.EncodeAddress` | src/encoder/encoder.cpp:76-87 | the two steps of the code give the address that these results are about |
| `AddressEncoder.AddressMeaning` | src/encoder/encoder.cpp:76-87 | an address is "io1", the characters of the symbols, and a checksum that leaves the remainder 1 |
| `CJsonList.GetArrayItem` | src/extern/cjson/cJSON.c:1844-1861 | the item at an index, or null past the end |
| `CJsonList.AddItemToArray` | src/extern/cjson/cJSON.c:1949-1979 | appends in constant time through head->prev and keeps the list well formed |
| `CJsonList.DetachItemViaPointer` | src/extern/cjson/cJSON.c:2180-2214 | removes the item wherever it is, and leaves it pointing nowhere |
| `CJsonList.InsertItemInArray` | src/extern/cjson/cJSON.c:2256-2283 | inserts before an index, or appends past the end, where a null item is refused |
| `CJsonList.ReplaceItemViaPointer` | src/extern/cjson/cJSON.c:2285-2332 | puts the replacement in the same place, also for the head, the tail and the only item |
| `CJsonList.ChildrenUnique` | src/extern/cjson/cJSON.c:1949-1979 | the pointers determine the sequence of items |
| `CJsonList.Run` | src/extern/cjson/cJSON.c:1949-2343 | every run of append, insert, detach and replace, detached items put back included, refines the same run on sequences of values |
| `CJsonPrint.PrintBuffer.Ensure` | src/extern/cjson/cJSON.c:436-519 | makes room and keeps what was printed, or fails exactly at the size limit |
| `CJsonPrint.PrintBuffer.UpdateOffset` | src/extern/cjson/cJSON.c:522-532 | the offset lands on the terminator of what was printed |
| `CJsonPrint.PrintBuffer.PrintString` | src/extern/cjson/cJSON.c:895-1014 | the quoted and escaped string inside the room that was counted for it |
| `CJsonPrint.PrintBuffer.PrintValue` | src/extern/cjson/cJSON.c:1360-1431 | the text of the tree behind the offset, or failure exactly when it outgrows the largest buffer |
| `CJsonPrint.PrintBuffer.PrintArray` | src/extern/cjson/cJSON.c:1532-1591 | the same for arrays, with every write inside the buffer |
| `CJsonPrint.PrintBuffer.PrintObject` | src/extern/cjson/cJSON.c:1707-1818 | the same for objects |
| `CJsonPrint.Print` | src/extern/cjson/cJSON.c:1180-1253 | the text and its terminator |
| `CJsonEscapes.PrintedCharacter` | src/extern/cjson/cJSON.c:895-1014 | what every character is printed as: itself, a letter escape, or four digits in lower case |
| `CJsonEscapes.PrintedObject` | src/extern/cjson/cJSON.c:1707-1818 | an object with two members of any values, with no blank between its tokens |
| `CJsonEscapes.PrintedArray` | src/extern/cjson/cJSON.c:1532-1591 | the same for an array of any two values |
| `CJsonEscapes.PrintedWords` | src/extern/cjson/cJSON.c:1360-1431 | the words null, true and false, and the empty array and object |
| `CJsonParse.UnescapeEscaped` | src/extern/cjson/cJSON.c:806-864 | unescaping undoes escaping for every byte string |
| `CJsonParse.ParseText` | src/extern/cjson/cJSON.c:1305-1357 | parsing a printed value gives it back wherever the text stands, or fails because it is nested too deeply |
| `CJsonParse.RoundTrip` | src/extern/cjson/cJSON.c:1072-1170 | a printed tree parses to itself, up to its end, if and only if it is nested at most 1000 deep |
| `CJsonParser.CountWindow` | src/extern/cjson/cJSON.c:779-805 | neighbouring characters never both begin an escape, which bounds how many are counted |
| `CJsonParser.WriteUtf8` | src/extern/cjson/cJSON.c:705-758 | the UTF-8 bytes of a code point, written last byte first |
| `CJsonParser.ParseBuffer.DecodeString` | src/extern/cjson/cJSON.c:779-868 | for every input, decoding stays inside the room that was reserved for it, and stops at the first bad escape |
| `CJsonParser.ParseBuffer.ParseString` | src/extern/cjson/cJSON.c:766-892 | the bytes of the string and the offset behind it, or the offset at which it is malformed |
| `CJsonEscapes.PiecesParse` | src/extern/cjson/cJSON.c:766-892 | a quoted sequence of plain characters, letter escapes and code points parses to the bytes that they stand for |
| `CJsonEscapes.CodePointParses` | src/extern/cjson/cJSON.c:608-759 | every code point that is no surrogate, in one escape or a pair, with digits in either case, gives the bytes that a reader of UTF-8 takes for it |
| `CJsonEscapes.MeaninglessRejected` | src/extern/cjson/cJSON.c:643-759 | an unknown letter or a surrogate without its partner makes the string malformed at that escape, wherever it stands |
| `CJsonEscapes.BadDigitsReadZero` | src/extern/cjson/cJSON.c:608-641 | an escape with a character that is no digit is accepted, as code point 0 |
| `CJsonParser.ParseBuffer.SkipWhitespace` | src/extern/cjson/cJSON.c:1031-1054 | past white space, and one back from the end of the buffer |
| `CJsonParser.ParseBuffer.ParseValue` | src/extern/cjson/cJSON.c:1305-1357 | the item is set to a tree of linked items for the value, with the offset behind it and the depth restored, or the offset and depth at which parsing stopped |
| `CJsonParser.ParseBuffer.ParseArray` | src/extern/cjson/cJSON.c:1434-1529 | the same for arrays: new items, linked in both directions, with head->prev at the tail and nothing shared |
| `CJsonParser.ParseBuffer.ParseObject` | src/extern/cjson/cJSON.c:1594-1704 | the same for objects, with the names on the items |
| `CJsonTree.Attach` | src/extern/cjson/cJSON.c:1471-1490 | a new item behind the last one, with the trees that are finished left alone |
| `CJsonTree.Adopt` | src/extern/cjson/cJSON.c:1508-1516 | closing the ring makes the list that of the children |
| `CJsonTree.TreeUnique` | src/extern/cjson/cJSON.c:1434-1529 | the pointers below an item determine its value and its items |
| `CJsonParser.Parse` | src/extern/cjson/cJSON.c:1088-1164 | for every text and length, the tree of new items and its end, or the error position inside the text, with or without the check for trailing garbage |
| `CJsonGrammar.AcceptsExactly` | src/extern/cjson/cJSON.c:1305-1704 | a value is parsed from o to e if and only if it is written there, with blanks between tokens, and nested at most 1000 deep |
| `CJsonGrammar.DocumentExactly` | src/extern/cjson/cJSON.c:1072-1170 | a document parses if and only if it is such a value behind an optional byte order mark and blanks, with blanks and a final zero byte behind it where the end is checked |
| `CJsonParser.PrintThenParse` | src/extern/cjson/cJSON.c:1072-1170 | printing a value and parsing the text gives linked items that stand for the value, if and only if it is nested at most 1000 deep |
| `Blake256.AbsorbConcat` | src/extern/crypto/blake256.c:136-174 | the state does not depend on how data is cut into pieces |
| `Blake256.Context.Update` | src/extern/crypto/blake256.c:136-174 | buffering and compressing in place is absorbing |
| `Blake256.AbsorbMessage` | src/extern/crypto/blake256.c:136-174 | after a message the state, the 64-bit counter and the buffer are determined by it |
| `Blake256.LastMessageBlock` | src/extern/crypto/blake256.c:177-215 | the counter that was run down comes back as the number of message bits |
| `Blake256.FinishIsDigest` | src/extern/crypto/blake256.c:177-225 | finishing hashes exactly the padded message, with no counter on blocks of padding only, for every buffer length |
| `Blake256.Context.Final` | src/extern/crypto/blake256.c:177-225 | the digest of everything taken in |
| `Blake256.Hash` | src/extern/crypto/blake256.c:228-234 | the digest of a message cut into any pieces |
| `Blake256.DigestMeaning` | src/extern/crypto/blake256.c:121-225 | the digest holds, most significant byte first, the last of the states that the message, a one bit, zeros, a one bit and the 64-bit length run through, every block counted up to the last message bit in it |
| `Blake256.InitialWords` | src/extern/crypto/blake256.c:121-133 | the initial words are the first 32 bits of the fractional parts of the square roots of the first eight primes |
| `Blake2b.Context.IncrementCounter` | src/extern/crypto/blake2b.c:81-85 | the carry test keeps the two words equal to the number of bytes modulo 2^128 |
| `Blake2b.Context.Update` | src/extern/crypto/blake2b.c:257-282 | the last block always stays in the buffer, for every way of cutting the input |
| `Blake2b.Context.Final` | src/extern/crypto/blake2b.c:284-306 | the last block is flagged, also as that of the last node, padded with zeros and counted as the whole message; a second call fails |
| `Blake2b.Hash` | src/extern/crypto/blake2b.c:308-315 | the digest of a message cut into any pieces, for lengths from 1 to 64 |
| `Blake2b.DigestMeaning` | src/extern/crypto/blake2b.c:257-306 | the bytes are, least significant first, the last of the states that the message runs through, whole blocks counted up to their end and the last one as the whole message |
| `Abi.GenerateUint` | src/contract/contract.cpp:264-278 | the bytes of a number reversed to the end of a word, or -1 above 32 bytes |
| `Abi.GenerateStaticBytes` | src/contract/contract.cpp:329-347 | the bytes, and zeros up to the end of the last word that the single-precision division counts, for every size |
| `Abi.GroupsExact` | src/contract/contract.cpp:329-347 | the rounded number of words is right if and only if the size passes a check on its remainder, and so for every size up to 2^24 |
| `Abi.StaticBytesPadded` | src/contract/contract.cpp:329-347 | what is stored is the encoding exactly for those sizes |
| `Abi.GenerateBytes` | src/contract/contract.cpp:349-359 | the length word and the padded bytes, for every size that is counted right |
| `Abi.GenerateArray` | src/contract/contract.cpp:407-455 | the heads and then the tails of the list |
| `Abi.HeadsPointToElements` | src/contract/contract.cpp:426-445 | each head word is the position of its element's length word, where the element stands |
| `Abi.EncodedMeaning` | src/contract/contract.cpp:407-455 | the heads are words with the positions of the elements, which stand one behind the other up to the end, each its size, its bytes and zeros up to the end of the word |
| `Abi.StaticBytesZero` | src/contract/contract.cpp:329-347 | what is stored is the bytes, and zero behind them |
| `Abi.DecodeWord` | src/abi/abiDecode.cpp:96-105 | a number written as a word reads back from its last sixteen digits |
| `Abi.StrToHex` | src/signer/signer.cpp:167-219 | what is stored into memory, on success and on failure, with the optional prefix, odd length and the meaning of length zero |
| `Abi.StoresInside` | src/signer/signer.cpp:187-219 | all of it is inside the buffer if and only if the digits are not exactly one too many, an odd number of them and all hexadecimal |
| `Abi.OneDigitOverruns` | src/signer/signer.cpp:187-219 | one digit and a buffer of size zero: accepted, and one byte is stored behind the buffer |
| `Abi.Hex2Str` | src/signer/signer.cpp:142-165 | two digits for every byte, or nothing when the buffer is too small |
| `Abi.Str2HexMeaning` | src/signer/signer.cpp:167-219 | the conversion gives b if and only if the characters behind an optional "0x" are the digits of b in either case, an odd last one for a byte of its own, and pass the size check |
| `Abi.DecodeStaticArrayDynamicBytes` | src/abi/abiDecode.cpp:366-417 | for every text, count, flag and initial content of the buffers: the list in the text, the elements before the first error, or the way in which the code leaves memory, with products modulo 2^64 |
| `Abi.ElementInside` | src/abi/abiDecode.cpp:399-403 | behind the test of the length, an element is stored outside its buffer only if it is empty with a single digit behind it, or its length wrapped around |
| `Abi.LengthTest` | src/abi/abiDecode.cpp:400 | the test of a length means what it says for every text if and only if the length is below 2^63 - 32 |
| `Abi.OffsetTest` | src/abi/abiDecode.cpp:383 | the test of the offset does so if and only if the offset is below 2^63 |
| `Abi.WrappedOffset` | src/abi/abiDecode.cpp:378-384 | an offset of 2^63 passes and the array is read from where the offset stands |
| `Abi.OversizedLength` | src/abi/abiDecode.cpp:399-402 | a length from 2^63 - 32 on gets a buffer of that size exactly when the wrapped test passes |
| `Abi.TwoCharactersOversized` | src/abi/abiDecode.cpp:399-402 | the concrete text: the length 2^63 + 1 and two characters |
| `Abi.EvenTextInside` | src/abi/abiDecode.cpp:366-417 | text of even length never makes the decoder store outside the buffer of an element |
| `Abi.OddTextStoresOutside` | src/abi/abiDecode.cpp:399-403 | the concrete text: an empty element and a single digit |
| `Abi.MissingElement` | src/abi/abiDecode.cpp:396-400 | when an element ends the text too early, the length of the next one is read behind the end |
| `Abi.ArrayRoundTrip` | src/abi/abiDecode.cpp:366-417 | decoding an encoded list gives it back if and only if it is not empty and only its last element may be; otherwise the elements before the first empty one |
| `Abi.OffsetRoundTrip` | src/abi/abiDecode.cpp:366-417 | the same behind a word with the offset of the array, where the empty list comes back too |

## Left out

- Coordinates: `point_add`, `point_double`, `point_jacobian_add`, `point_jacobian_double` and the conversions between forms are the group interface, because that the formulas form a group is a fact about the curve and not about this code. x and y are functions of the multiple, with x(-P) == x(P) and y(-P) == prime - y(P). `ScalarMultiply.JacobianPoint` is that interface (src/extern/crypto/ecdsa.c:218-404), assumed and not proved; what is proved is that its operands are finite.
- Ecdsa.VerifyDigest: takes the point of the public key, or none when it is refused; `ecdsa_read_pubkey` and the validation of the curve equation are part of the coordinates.
- EcdsaRecover.RecoverPub: `uncompress_coords` with the check of the curve equation is a function parameter that finds the point with a given x and parity of y. The code's non-zero results are one failure; where the sum is infinity the model gives 0 and the code stores coordinates of no point.
- Bip32.HdNode.PublicCkd: `ecdsa_read_pubkey` with `uncompress_coords` and `bn_sqrt` is a function parameter that undoes compression, because square roots need the theory of quadratic residues.
- `bn_inverse_slow`, `bn_normalize`, `bn_addi`, `bn_subi`, `bn_subtractmod`, the little-endian readers and writers, and the bit operations on numbers: they would add only easy members.
- Constant-time masks, `memzero` and the blinding as a side-channel defence: conditionals compute the same values.
- Nonce generation (RFC 6979) and randomness: nonces and blinding factors are arbitrary sequences.
- `is_canonical` is a predicate on (r, s, recovery byte) instead of on the 64 signature bytes, which those determine.
- Ecdsa.StoreInt: not in the source; it puts a coordinate or a curve constant into limbs.
- Bip32.HdNode.PrivateCkd: the retry loop of the source has no bound; inputs on which it would not end are excluded.
- Bip32: Cardano and NEM derivation, seeds, serialization and addresses are not modelled; the keys of curves without parameters are a function parameter.
- CJsonParser.ParseBuffer.ParseString: a name that would begin behind the text makes the code read one byte more; the model takes that as a failure, which it is for every such byte.
- CJsonPrint.PrintBuffer.PrintValue: takes a tree as a value instead of linked items. Numbers can be parsed through a parameter for `strtod` but are not printed, because the text of a double is the C library's. Raw nodes and formatted output are not modelled.
- cJSON: allocation failure, preallocated buffers, minifying, duplication, comparison and lookup by name are not modelled. A replaced item, which the source frees, is left on its own.
- CJsonList.InsertItemInArray: the source follows the new item without a check when the index exists, so it is not null in that case.
- Format.BnFormat: lengths are natural numbers, so strings beyond the range of an `int` are not modelled.
- Base58.Encode: the checksummed forms, which only add a hash, are left out.
- Bech32.ComputePolyMod: the five conditional additions are a loop over the bits. That the code detects any four errors within 89 characters is not proved.
- Blake2b.Context.Final: keyed hashing and personalization are not modelled; the initial state is a parameter.
- Abi.GenerateBytes: sizes at which single precision miscounts the words are excluded, because the code does not produce the encoding there; sizes beyond the range of an `int32_t` are excluded as well.
- Abi.DecodeStaticArrayDynamicBytes: the model ends where the code leaves memory. An element that the text holds has fewer than 2^31 bytes, the range of the loop counter that copies it.
- Bip32Cache.CkdCache.PrivateCkdCached: paths of more than nine indices do not fit into a slot; the code copies them without a check, so they are excluded.
- Abi: other types, `generateCallData` and the other array decoders are left out. Offsets behind static inputs and the pointer advance in `decodeStaticArrayStaticBytes` do not follow the format, so there is no round trip to prove there.
- HTTP, RPC, JSON field copying, storage, logging, account bookkeeping, protobuf and Base64: plumbing, or easy members.
