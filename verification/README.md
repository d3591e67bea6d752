# JingDong library: verified model

This project models the self-contained cores of the JingDong library that the firmware links, and proves what
they compute. The code is imperative, and so is the model: word arrays, token arrays and character buffers are
Dafny arrays updated in place, structures with changing fields are classes, and loops are loops with invariants.
Every such method is proved against a function of its old inputs, and the functions are related to an
independent meaning by lemmas.

- **Multi-word integers and elliptic curves** (`Vli`, `VliMult`, `VliMod`, `P256`, `Secp160r1`, `CoZ`, `CurveMath`,
  `Jacobian`, `Group`, `Ladder`, `LadderMath`, `Keys`, `Bytes`, `HashBits`, `Shamir`, `Ecdsa`, `Verify`,
  `VerifyWords`, `Fermat`, `Decompress`; number theory in `Arith`, `Bits`, `Congruence`; curves to compute with in
  `PointTable`, `SmallCurve`, `SevenPoints`). A number is a prefix of an array of 32-bit words with a value. The
  contracts stack: words, modular arithmetic, co-Z and Jacobian formulas, the Montgomery ladder, signing and verifying
  from bytes to bytes, point compression. The abstract group is the curve's own chord and tangent addition.
- **JSON tokens** (`Jsmn`, `JsmnText`, `JsmnForest`, `JsmnParser`, `JsmnRender`, `JsmnAccept`, `JsmnGrammar`) and
  **look-ups in the flat token array** (`JsmnTree`, `JsonWrappers`, `JsonObject`), with JSMN_STRICT and
  JSMN_PARENT_LINKS as the repository defines them.
- **JSON trees** (`Cjson`, `CjsonParse`, `CjsonSteps`, `CjsonGrammar`, `CjsonRoundTrip`, `CjsonMinify`,
  `CjsonBuffers`, `CjsonPrint`, `CjsonDecode`, `CjsonScan`, `CjsonWhole`, `CjsonList`; `Unicode`, `CStrings`): parser,
  printer, minifier, their composition on buffers, and the doubly linked child lists. `Rfc8259` states the grammar of
  JSON and what a text denotes, with character tables of its own; both parsers, the printer and the minifier are
  related to it.
- **AES** (`AesField`, `AesRounds`, `AesKeys`, `AesCipher`, `AesCbc`, `AesDevice`): key schedules, cipher and
  equivalent inverse cipher, chaining in place, padding. `Fips197` states the standard on bytes, independently of the
  words and tables, and that the code computes it.
- **MD5** (`Md5`): the streaming context. **CRC-8 and CRC-16** (`Crc`; `CrcPoly` as remainders of polynomials).
  **SmartConfig receiver** (`Smnt`, `SmntBroadcast`): reassembly of out-of-order multicast fragments and broadcast
  groups.

`dafny verify dfyconfig.toml` checks everything.

## What the proofs found

- The ladder does not compute k·G for every scalar. For the scalars n - 1 and n - 2, and for 1 unless n is
  2^bits - 1, one of its steps adds opposite points and the result is (0, 0); the same happens when the base
  point's abscissa is 0. `LadderMath.MultCorrect` and `Keys.RegularMultCorrect` state this exactly, and
  `Keys.MultiplierOneFails` with `Keys.Secp256r1OrderFits` exhibits it on secp256r1, and `SmallCurve.LadderFails` on a
  curve of five points, where no hypothesis is needed. Signing and key generation notice the zero result and refuse, so
  what they return is still right.
- `bits2int` subtracts the order only when the hash has more bits than the order. For a hash of the same length
  it may leave a value above n, so `uECC_vli_modAdd` is called outside its documented range;
  `Ecdsa.SignatureSteps` shows that the signature is still the right one.
- Not every signature that is produced verifies. The r stored is x(kG) itself, not reduced modulo n, a zero s is not
  refused, and a step of the verification that adds equal or opposite points loses the point; `Verify.SignedIsAccepted`
  says that these are exactly the exceptions, and `SevenPoints.ZeroRefused` and `SevenPoints.CollisionRefused` are two
  of them.
- `jsmn_parse` accepts closing brackets that match nothing once there is a token (`JsmnAccept.StrayBracketAccepted`);
  `JsmnAccept.AcceptedExactly` says exactly which texts it accepts. The wrappers' checks of a child's end against its
  parent's never fire on parsed text (`JsonObject.JsonParser.GetValue`). `json_init` on an empty text looks at whatever
  the caller's first token held before; the contract of `JsonObject.JsonParser.Init` says so.
- `device_aes_encrypt` writes 32 bytes past a plaintext that is a whole number of blocks, while its room check only asks
  for the rounded length: `AesDevice.WrittenWithinRoom` says when the check is enough, and `AesDevice.SixteenWritten`
  is a call for which it is not. `AesDevice.DeviceAesEncrypt` requires a buffer as large as what is written.
- The secp160r1 reduction leaves p for positive multiples of p, and loses a carry for some products whose lower half
  is close to 2^160; `Secp160r1.ExactWhen` says exactly when it is right. Operands below a prime p can only lose a
  carry, and `Secp160r1.CarryLost` names two that do.
- The broadcast receiver ends the last group after two bytes once it knows the length. `SmntBroadcast.ThreeReceived`
  says exactly when a payload whose last group has three bytes is still received: only if that group came before the
  length (`SmntBroadcast.ElevenBytesLost`).
- The two loops of `parse_string` do not agree on what an escape is. A \u escape is stepped over whole only by the second
  one, so that it may step over the quote where the first one stopped, and what it decodes is then longer than what was
  measured, by any number of characters (`CjsonDecode.CutOffDoesNotFit`). `CjsonDecode.BodyFits` and
  `CjsonDecode.FitsExactly` say when it fits.
- `jsmn_parse` lets control characters stand in strings, which section 7 of RFC 8259 forbids; otherwise what it takes
  for a string is just what that section describes (`JsmnGrammar.StringBodyIs`).
- `cJSON_Minify` takes `/*/` for a whole comment
  (`CjsonMinify.ShortComment`), and steps over the terminator behind a quote or a comment that is never closed
  (`CjsonBuffers.UnclosedStepsOver`).
- The SmartConfig check admits the length byte 97, for which 98 bytes are copied into a result of 97
  (`Smnt.NinetySevenAdmitted`); it is the only such length (`Smnt.AdmittedFits`). The lengths of password and name in the
  decrypted text are not checked before the copies; `Smnt.SplitInRange` says when these stay in range.
- A negative index passed to the list functions of cJSON selects the first child.

## Conventions

- The group law is a hypothesis: `Group.GroupLaw` says that chord and tangent addition on the curve is closed and
  associative. It is a mathematical fact about elliptic curves, not about this code; everything else about the
  group is derived from it, including the multiples of a point of odd order. `SmallCurve` and `SevenPoints` prove it of
  two small curves.
- `modMult_fast` and `modSquare_fast` are multiplication followed by `uECC_vli_mmod`, the branch without curve
  optimisation; `P256.MModFast` meets the same contract.
- Methods named after a part of a source function (`SubtractIfLess`, `ReadScalar`, `Lexeme`,
  `PutMember` and the like) are pieces of its body given a contract of their own.
- C strings are sequences of characters without NUL, buffers are arrays of characters; strcpy, strlen, memcpy and
  sprintf("%d", "%04x") are modelled by what they write.
- The S-box and its inverse are parameters of the AES model; the tables Te and Td are their columns in GF(2^8).

## Model

| member | source | states |
|---|---|---|
| Vli.IsZero | thirdpartylib/JingDong/jsmn/joylink_auth_uECC.c:208-215 | true exactly when the number in the words is 0, although it ORs words |
| Vli.TestBit | thirdpartylib/JingDong/jsmn/joylink_auth_uECC.c:218-220 | the bit of the number at that position |
| Vli.NumBits | thirdpartylib/JingDong/jsmn/joylink_auth_uECC.c:223-249 | the bit length: the number is below 2^bits and not below 2^(bits-1) |
| Vli.CmpUnsafe | thirdpartylib/JingDong/jsmn/joylink_auth_uECC.c:262-274 | the sign of the difference of the two numbers |
| Vli.Equal | thirdpartylib/JingDong/jsmn/joylink_auth_uECC.c:278-287 | true exactly when the two numbers are equal |
| Vli.Cmp | thirdpartylib/JingDong/jsmn/joylink_auth_uECC.c:295-302 | the same sign, obtained from a subtraction |
| Vli.Add | thirdpartylib/JingDong/jsmn/joylink_auth_uECC.c:321-335 | result + carry·2^(32n) is the sum, for any overlap of result and operands |
| Vli.Sub | thirdpartylib/JingDong/jsmn/joylink_auth_uECC.c:340-354 | result - borrow·2^(32n) is the difference, for any overlap |
| Vli.RShift1 | thirdpartylib/JingDong/jsmn/joylink_auth_uECC.c:306-316 | the number in the words is halved, also inside a longer buffer |
| VliMult.MulAdd | thirdpartylib/JingDong/jsmn/joylink_auth_uECC.c:360-398 | the three-word accumulator grows by the product of two words; it does not overflow for fewer than 2^32 terms |
| VliMult.Mult | thirdpartylib/JingDong/jsmn/joylink_auth_uECC.c:402-431 | the number in the 2n result words is the product of the operands, for every word count |
| VliMult.ColumnsAreProduct | thirdpartylib/JingDong/jsmn/joylink_auth_uECC.c:402-431 | the column sums the accumulator forms add up to the product of the two numbers |
| VliMult.Mul2Add | thirdpartylib/JingDong/jsmn/joylink_auth_uECC.c:437-482 | the accumulator grows by twice the product, with the carry of the doubling kept |
| VliMult.Square | thirdpartylib/JingDong/jsmn/joylink_auth_uECC.c:484-509 | the doubled cross terms and the diagonal give the same number as multiplying by itself |
| VliMod.ModAdd | thirdpartylib/JingDong/jsmn/joylink_auth_uECC.c:526-536 | left + right less at most one modulus; the carry dropped by the addition is cancelled by the subtraction |
| VliMod.ModSub | thirdpartylib/JingDong/jsmn/joylink_auth_uECC.c:540-551 | (left - right) modulo the modulus; the borrow is cancelled by the carry of adding the modulus |
| VliMod.MMod | thirdpartylib/JingDong/jsmn/joylink_auth_uECC.c:555-595 | product modulo mod, in [0, mod), by shift and subtract, for every modulus whose top word is nonzero |
| VliMod.ModMult | thirdpartylib/JingDong/jsmn/joylink_auth_uECC.c:598-606 | left·right modulo mod |
| VliMod.ModInvUpdate | thirdpartylib/JingDong/jsmn/joylink_auth_uECC.c:667-678 | uv/2 modulo an odd modulus, with the carry of uv + mod put back as the top bit |
| VliMod.ModInvSubtract | thirdpartylib/JingDong/jsmn/joylink_auth_uECC.c:697-722 | the coefficients' difference modulo mod although both carries are discarded |
| VliMod.ModInv | thirdpartylib/JingDong/jsmn/joylink_auth_uECC.c:682-725 | terminates; the result times the input is congruent to gcd(input, mod), so for coprime input it is the inverse, in [0, mod) |
| P256.HighFoldedIsCongruent | thirdpartylib/JingDong/jsmn/joylink_auth_uECC_curve-specific.inc:883-979 | the word sums added and subtracted are congruent to the high half times 2^256 modulo the P-256 prime |
| P256.FoldedIsCongruent | thirdpartylib/JingDong/jsmn/joylink_auth_uECC_curve-specific.inc:883-979 | the nine-term combination is congruent to the 512-bit product (section D.2.3 of FIPS 186-4) |
| P256.MModFast | thirdpartylib/JingDong/jsmn/joylink_auth_uECC_curve-specific.inc:883-979 | the fast reduction returns exactly product modulo p, in [0, p), with its signed carry |
| Secp160r1.OmegaMult | thirdpartylib/JingDong/jsmn/joylink_auth_uECC_curve-specific.inc:257-272 | the shift by one bit a word up and the addition multiply by 2^31 + 1 exactly, for every word count |
| Secp160r1.MModFast | thirdpartylib/JingDong/jsmn/joylink_auth_uECC_curve-specific.inc:215-236 | the words left are Remaining of the folded product, one modulus taken away for each carry modulo 2^160 |
| Secp160r1.FoldedIsCongruent | thirdpartylib/JingDong/jsmn/joylink_auth_uECC_curve-specific.inc:222-227 | the folded value, carries included, is congruent to the product and below 2·2^160 + 2^64 |
| Secp160r1.ExactWhen | thirdpartylib/JingDong/jsmn/joylink_auth_uECC_curve-specific.inc:229-235 | the result is product modulo p if and only if the product is no positive multiple of p and no carry is lost |
| Secp160r1.LostOnlyNearTop | thirdpartylib/JingDong/jsmn/joylink_auth_uECC_curve-specific.inc:229-232 | a carry is lost only when the lower half of the product is within about 2^64 of 2^160 |
| Secp160r1.ReducedOperands | thirdpartylib/JingDong/jsmn/joylink_auth_uECC_curve-specific.inc:215-236 | for operands below a prime p the product is right if and only if no carry is lost |
| Secp160r1.CarryLost | thirdpartylib/JingDong/jsmn/joylink_auth_uECC_curve-specific.inc:215-236 | a failure: two operands below p whose product loses its carry |
| Secp160r1.UnreducedOperand | thirdpartylib/JingDong/jsmn/joylink_auth_uECC_curve-specific.inc:215-236 | a failure: the product of 1 and p, an operand that is not reduced, is left at p |
| CoZ.ApplyZ | thirdpartylib/JingDong/jsmn/joylink_auth_uECC.c:739-749 | (x z^2, y z^3) modulo p, written over x and y |
| CoZ.XYcZAdd | thirdpartylib/JingDong/jsmn/joylink_auth_uECC.c:779-804 | the in-place sequence computes the co-Z addition of its four old coordinates |
| CoZ.XYcZAddC | thirdpartylib/JingDong/jsmn/joylink_auth_uECC.c:810-845 | likewise the conjugate addition |
| CurveMath.CoZAddMeaning | thirdpartylib/JingDong/jsmn/joylink_auth_uECC.c:776-804 | for X1 != X2 at common Z the outputs represent P and P + Q at Z(X2 - X1), as affine points of the chord construction |
| CurveMath.CoZAddCMeaning | thirdpartylib/JingDong/jsmn/joylink_auth_uECC.c:806-845 | likewise P + Q and P - Q, both at Z(X2 - X1) |
| Jacobian.DoubleJacobian | thirdpartylib/JingDong/jsmn/joylink_auth_uECC_curve-specific.inc:50-95 | the in-place doubling equals the doubling function on its old coordinates, with halving modulo p by a carry word |
| Jacobian.DoubleMeaning | thirdpartylib/JingDong/jsmn/joylink_auth_uECC_curve-specific.inc:50-95 | that function represents 2Q (tangent construction, a = -3) whenever Q is finite with nonzero ordinate |
| Jacobian.XYcZInitialDouble | thirdpartylib/JingDong/jsmn/joylink_auth_uECC.c:752-773 | the words left in the two register pairs are those of the initial doubling function |
| Jacobian.InitialDoubleMeaning | thirdpartylib/JingDong/jsmn/joylink_auth_uECC.c:752-773 | the two pairs represent 2P and P at one common denominator |
| Ladder.EccPointMult | thirdpartylib/JingDong/jsmn/joylink_auth_uECC.c:848-891 | the method's result words are MultOf of point, scalar, blinding and bit count, through all register swaps |
| LadderMath.StepMeaning | thirdpartylib/JingDong/jsmn/joylink_auth_uECC.c:867-871 | one addC/add pair takes registers (kP, (k+1)P) to the registers of the next prefix of the scalar |
| LadderMath.RunMeaning | thirdpartylib/JingDong/jsmn/joylink_auth_uECC.c:862-871 | after the bits from i up the registers are prefix·P and (prefix + 1)·P, also when the leading bit is a lost carry |
| LadderMath.FinishMeaning | thirdpartylib/JingDong/jsmn/joylink_auth_uECC.c:873-890 | the z computed from the last difference, the base point and the swapped signs turns the result into the affine k·P |
| LadderMath.CollapseMeaning | thirdpartylib/JingDong/jsmn/joylink_auth_uECC.c:862-890 | when a step adds opposite registers all coordinates become zero and the result is (0, 0) |
| LadderMath.MultCorrect | thirdpartylib/JingDong/jsmn/joylink_auth_uECC.c:848-891 | k·P for every regular multiplier and blinding, except exactly: (0, 0) when P's abscissa is 0 or 2n - 2 <= k <= 2n + 1 |
| Keys.RegularizeK | thirdpartylib/JingDong/jsmn/joylink_auth_uECC.c:893-904 | the carry selects k + n or k + 2n, whichever is one bit longer than n, stored modulo the words |
| Keys.RegularizedIsRegular | thirdpartylib/JingDong/jsmn/joylink_auth_uECC.c:893-904 | the selected multiplier is congruent to k modulo n and has its leading 1 at bit num_n_bits |
| Keys.UnluckyMeaning | thirdpartylib/JingDong/jsmn/joylink_auth_uECC.c:893-904 | the multipliers the ladder cannot handle are, in terms of k, n - 1, n - 2, and 1 when n + 1 < 2^bits |
| Keys.RegularMultCorrect | thirdpartylib/JingDong/jsmn/joylink_auth_uECC.c:848-904 | for 0 < k < n the regularised ladder gives k·G if and only if G's abscissa is nonzero and k is not one of those; otherwise (0, 0) |
| Keys.MultiplierOneFails | thirdpartylib/JingDong/jsmn/joylink_auth_uECC.c:848-904 | a failure: the multiplier 1 gives (0, 0) although 1·G is G, for every order with n + 1 < 2^bits |
| Keys.Secp256r1OrderFits | thirdpartylib/JingDong/jsmn/joylink_auth_uECC_curve-specific.inc:736-747 | the order of secp256r1 is such an order, so 1 and n - 2 are failing multipliers there |
| SmallCurve.LawHolds | thirdpartylib/JingDong/jsmn/joylink_auth_uECC.c:776-845 | the group-law hypothesis is met: on y^2 = x^3 - 3x + 1 modulo 7 the addition the formulas compute is closed and associative, and (4, 2) has order 5 |
| PointTable.LawOf | thirdpartylib/JingDong/jsmn/joylink_auth_uECC.c:776-845 | the hypothesis follows on every curve whose points are listed as multiples of one of them |
| SmallCurve.LadderFails | thirdpartylib/JingDong/jsmn/joylink_auth_uECC.c:848-904 | without any hypothesis: on that curve, of order 5, the ladder gives (0, 0) for the multipliers 1, 3 and 4 and the right point for 2 |
| Keys.EccPointComputePublicKey | thirdpartylib/JingDong/jsmn/joylink_auth_uECC.c:906-924 | succeeds if and only if G's abscissa is nonzero and the key is not one of the failing ones; then the result is d·G |
| Bytes.NativeToBytes | thirdpartylib/JingDong/jsmn/joylink_auth_uECC.c:945-953 | the big-endian bytes of the number modulo 2^(8m); no other byte changes |
| Bytes.BytesToNative | thirdpartylib/JingDong/jsmn/joylink_auth_uECC.c:955-965 | the number whose big-endian bytes were given |
| Bytes.Bits2IntWords | thirdpartylib/JingDong/jsmn/joylink_auth_uECC.c:1144-1171 | the words hold what `HashBits.Bits2IntIs` relates to the bits of the hash |
| HashBits.AllBits | thirdpartylib/JingDong/jsmn/joylink_auth_uECC.c:1144-1158 | big-endian bytes are read bit by bit from the left, the high bit of each octet first |
| HashBits.HashIntegerIs | thirdpartylib/JingDong/jsmn/joylink_auth_uECC.c:1144-1158 | the integer signed, the leftmost bits of the hash written as a number (section 4.1.3 of SEC 1), is the quotient of the hash by a power of two, or a shorter hash as it is |
| HashBits.Bits2IntIs | thirdpartylib/JingDong/jsmn/joylink_auth_uECC.c:1144-1171 | bits2int gives that integer, less n at most once, and only for a hash that is cut inside an octet |
| HashBits.Bits2IntCongruent | thirdpartylib/JingDong/jsmn/joylink_auth_uECC.c:1144-1171 | so it is congruent to it modulo n, for every hash, bit count and n |
| Ecdsa.BlindedInverse | thirdpartylib/JingDong/jsmn/joylink_auth_uECC.c:1195-1207 | the product, inverse, product sequence with a random factor gives k^-1 modulo n |
| Ecdsa.SignatureSteps | thirdpartylib/JingDong/jsmn/joylink_auth_uECC.c:1209-1221 | the modular steps give (e + r d)/k modulo n, also when e is not reduced |
| Ecdsa.SignatureEquation | thirdpartylib/JingDong/jsmn/joylink_auth_uECC.c:1209-1221 | s is the one number below n with s k congruent to e + r d modulo n |
| Ecdsa.SignWithK | thirdpartylib/JingDong/jsmn/joylink_auth_uECC.c:1173-1229 | refuses k = 0, k >= n, a base point or a k·G with zero abscissa, a failing multiplier and an s that does not fit; otherwise stores r = x(kG) and s = (e + r d)/k, with e the leftmost bits of the hash |
| Shamir.TableMeaning | thirdpartylib/JingDong/jsmn/joylink_auth_uECC.c:1440-1453 | the table entries computed are G, Q and, unless Q is G or -G, G + Q |
| Shamir.ShamirMeaning | thirdpartylib/JingDong/jsmn/joylink_auth_uECC.c:1455-1477 | the running point is ((u1>>i) + (u2>>i) d)·G after the bits from i up, when no step adds equal or opposite points |
| Shamir.ShamirXMeaning | thirdpartylib/JingDong/jsmn/joylink_auth_uECC.c:1455-1480 | the final abscissa is that of u1·G + u2·Q |
| Shamir.CollidingX | thirdpartylib/JingDong/jsmn/joylink_auth_uECC.c:1461-1480 | from the first step that adds equal or opposite points on the denominator is zero, and so is the abscissa |
| Verify.VerifyDecides | thirdpartylib/JingDong/jsmn/joylink_auth_uECC.c:1387-1488 | for a public key d·G whose entry G + Q is sound or not used, acceptance is equivalent to r and s in range, no colliding step, and x(u1·G + u2·Q) reduced once by n being r |
| Verify.SignedIsAccepted | thirdpartylib/JingDong/jsmn/joylink_auth_uECC.c:1173-1488 | ECDSA agreement: what SignWithK produces verifies under d·G, when G + Q is sound or not used, if and only if r < n, s != 0 and no step collides (sections 4.1.3 and 4.1.4 of SEC 1) |
| SevenPoints.Accepted | thirdpartylib/JingDong/jsmn/joylink_auth_uECC.c:1173-1488 | without any hypothesis: on y^2 = x^3 - 3x + 1 modulo 5, of order 7, a signature that verifies |
| SevenPoints.ZeroRefused | thirdpartylib/JingDong/jsmn/joylink_auth_uECC.c:1213-1227 | a failure: there a signature that is produced with s = 0 and refused |
| SevenPoints.CollisionRefused | thirdpartylib/JingDong/jsmn/joylink_auth_uECC.c:1461-1477 | a failure: there a signature with r and s in range that is refused because a step adds 4·G to 4·G |
| VerifyWords.ShamirLoop | thirdpartylib/JingDong/jsmn/joylink_auth_uECC.c:1461-1477 | the double-and-add loop on words computes the run on numbers |
| VerifyWords.SimultaneousX | thirdpartylib/JingDong/jsmn/joylink_auth_uECC.c:1446-1480 | the words left in rx are the abscissa computed on numbers |
| VerifyWords.VerifySap | thirdpartylib/JingDong/jsmn/joylink_auth_uECC.c:1387-1488 | accepts bytes exactly when the verification on numbers accepts what they encode, with e the leftmost bits of the hash |
| Fermat.LittleTheorem | thirdpartylib/JingDong/jsmn/joylink_auth_uECC_curve-specific.inc:113-129 | y^(p-1) is 1 modulo a prime p, the fact the square root rests on |
| Decompress.XSide | thirdpartylib/JingDong/jsmn/joylink_auth_uECC_curve-specific.inc:98-106 | x^3 - 3x + b modulo p |
| Decompress.ModSqrt | thirdpartylib/JingDong/jsmn/joylink_auth_uECC_curve-specific.inc:113-129 | a to the power (p + 1)/4 modulo p, in place, for every a below p |
| Decompress.RootOfSquare | thirdpartylib/JingDong/jsmn/joylink_auth_uECC_curve-specific.inc:113-129 | for p = 3 modulo 4 that power of a square is a square root of it |
| Decompress.OrdinateRecovered | thirdpartylib/JingDong/jsmn/joylink_auth_uECC.c:1067-1080 | for every curve point the parity picks its ordinate among the two roots, zero included |
| Decompress.CompressSap | thirdpartylib/JingDong/jsmn/joylink_auth_uECC.c:1059-1065 | first byte 2 plus the ordinate's parity, then the abscissa |
| Decompress.DecompressSap | thirdpartylib/JingDong/jsmn/joylink_auth_uECC.c:1067-1080 | writes the abscissa and the ordinate selected by the first byte |
| Decompress.DecompressUndoes | thirdpartylib/JingDong/jsmn/joylink_auth_uECC.c:1059-1080 | the ordinate decompressed from a compressed point is the original one |
| Jsmn.AdvanceProgress | thirdpartylib/JingDong/jsmn/jsmn.c:160-261 | each lexeme moves the position forward within the length and adds at most one token |
| JsmnText.StringScanIs | thirdpartylib/JingDong/jsmn/jsmn.c:86-148 | the string scan ends at q if and only if q is a quote after a legal body of plain characters and complete escapes |
| JsmnText.PrimitiveScanIs | thirdpartylib/JingDong/jsmn/jsmn.c:37-81 | the primitive scan ends at q if and only if q is a delimiter after printable characters that are none |
| JsmnGrammar.SimpleEscapeIs | thirdpartylib/JingDong/jsmn/jsmn.c:115-121 | the letters taken behind a backslash are those of section 7 of RFC 8259 |
| JsmnGrammar.HexDigitIs | thirdpartylib/JingDong/jsmn/jsmn.c:122-136 | the digits of a \u escape are the sixteen of either case |
| JsmnGrammar.SeparatorIs | thirdpartylib/JingDong/jsmn/jsmn.c:45-238 | what is skipped between values is the white space of section 2 of RFC 8259, commas and colons; what ends a primitive is white space, a comma or a closing bracket; what it may hold is printable |
| JsmnGrammar.PrimitiveStartIs | thirdpartylib/JingDong/jsmn/jsmn.c:239-246 | a primitive begins with a minus sign, a digit or the first letter of null, false or true |
| JsmnGrammar.StringBodyIs | thirdpartylib/JingDong/jsmn/jsmn.c:86-148 | a legal body is exactly what can be written with the escapes of section 7 of RFC 8259 and any characters but NUL, quote and backslash |
| JsmnForest.AdvanceKeepsInvariant | thirdpartylib/JingDong/jsmn/jsmn.c:160-261 | preorder links, stack of open containers, nested spans, child counts and delimiters are kept by every lexeme |
| JsmnForest.RunKeepsInvariant | thirdpartylib/JingDong/jsmn/jsmn.c:153-270 | the same after whole runs, wherever they stop, also at an error |
| JsmnForest.FinishedIsWellFormed | thirdpartylib/JingDong/jsmn/jsmn.c:153-270 | with nothing open the tokens are a preorder forest: parents first, children strictly inside, siblings disjoint and in order, sizes count children, all closed, delimited by their characters |
| JsmnParser.Parser.constructor | thirdpartylib/JingDong/jsmn/jsmn.c:276-280 | a new parser satisfies the invariant for every text and token array |
| JsmnParser.Parser.AllocToken | thirdpartylib/JingDong/jsmn/jsmn.c:8-21 | the next token is cleared and taken, or nothing changes when none is left |
| JsmnParser.Parser.ParsePrimitive | thirdpartylib/JingDong/jsmn/jsmn.c:37-81 | fills one token with the primitive found, or restores the position with the right error |
| JsmnParser.Parser.ParseString | thirdpartylib/JingDong/jsmn/jsmn.c:86-148 | likewise for strings, reading past the length only up to the terminator |
| JsmnParser.Parser.CloseContainer | thirdpartylib/JingDong/jsmn/jsmn.c:184-206 | the walk up the parent links closes the top of the stack of open containers, or reports a mismatch |
| JsmnParser.Parser.Parse | thirdpartylib/JingDong/jsmn/jsmn.c:153-270 | equals the stack tokeniser on position, tokens and result; a nonnegative result is the number of tokens added and leaves a well-formed forest |
| JsmnRender.RenderedIsParsed | thirdpartylib/JingDong/jsmn/jsmn.c:153-270 | the text of any tree of objects, arrays, strings and primitives, with arbitrary separators, is tokenised into exactly that tree in preorder |
| JsmnGrammar.TextIsAccepted | thirdpartylib/JingDong/jsmn/jsmn.c:153-270 | every JSON text of RFC 8259 that is an object or array, with white space anywhere, is accepted, and the tokens are its values and names in preorder |
| JsmnGrammar.PrintedIsAccepted | thirdpartylib/JingDong/jsmn/jsmn.c:153-270 | what cJSON prints for an object or array is accepted, with one token for each value and name |
| JsmnAccept.AcceptedExactly | thirdpartylib/JingDong/jsmn/jsmn.c:153-270 | a text is accepted if and only if it is a sequence of separators, values and closing brackets behind the first value, with room for its tokens; and then exactly those tokens are added |
| JsmnAccept.RestOfContainer | thirdpartylib/JingDong/jsmn/jsmn.c:153-270 | inside an open container that is closed in the end the text goes on with items, a gap and the bracket of its kind |
| JsmnAccept.StrayBracket | thirdpartylib/JingDong/jsmn/jsmn.c:184-206 | with nothing open a closing bracket is an error if and only if there is no token yet |
| JsmnAccept.StrayBracketAccepted | thirdpartylib/JingDong/jsmn/jsmn.c:184-206 | a failure: an object followed by a bracket that closes nothing is accepted, with one token |
| JsmnTree.SubtreeIsInterval | thirdpartylib/JingDong/jsmn/json_wrappers.c:26-38 | the descendants of a token are exactly an interval of the array |
| JsmnTree.NextChild | thirdpartylib/JingDong/jsmn/json_wrappers.c:26-38 | after a child's interval comes the next child, or the end of the parent's interval |
| JsonWrappers.SkipToLast | thirdpartylib/JingDong/jsmn/json_wrappers.c:26-38 | the last descendant of a token, for trees whose nodes have fewer than 256 children |
| JsonWrappers.TokenStreqIs | thirdpartylib/JingDong/jsmn/json_wrappers.c:16-20 | the comparison holds if and only if the token's text is the key |
| JsonWrappers.ValueOfMeaning | thirdpartylib/JingDong/jsmn/json_wrappers.c:130-192 | the value found is that of the first member with the key; FAIL is returned when a key that is not a string comes before it, and NOT_FOUND if and only if there is neither |
| JsonWrappers.ValueIsChild | thirdpartylib/JingDong/jsmn/json_wrappers.c:260-283 | what is found is a child of the searched object, and error codes are negative |
| JsonObject.JsonParser.Init | thirdpartylib/JingDong/jsmn/json_wrappers.c:455-517 | the codes of json_init for every text, and a valid parser on success with a nonempty text |
| JsonObject.JsonParser.GetValue | thirdpartylib/JingDong/jsmn/json_wrappers.c:130-192 | the walk over the flat array returns the tree lookup's answer; its bounds check never fires |
| JsonObject.JsonParser.GetCompositeObject | thirdpartylib/JingDong/jsmn/json_wrappers.c:260-273 | moves to the object found, a child of the old one, or stays with the right code |
| JsonObject.JsonParser.GetArrayObject | thirdpartylib/JingDong/jsmn/json_wrappers.c:286-300 | likewise for arrays, with the number of elements |
| JsonObject.JsonParser.Release | thirdpartylib/JingDong/jsmn/json_wrappers.c:276-305 | moves to the parent, which undoes a successful get |
| JsonObject.JsonParser.GetArrayIndex | thirdpartylib/JingDong/jsmn/json_wrappers.c:318-345 | the element at the index among the array's children, or the right code |
| CjsonRoundTrip.NumberRoundTrip | thirdpartylib/JingDong/json/cJSON.c:99-142 | an integer printed and followed by no digit, point or exponent is read back |
| CjsonRoundTrip.StringRoundTrip | thirdpartylib/JingDong/json/cJSON.c:159-252 | a NUL-free string is read back from its escaped form, control characters included |
| CjsonRoundTrip.ValueRoundTrip | thirdpartylib/JingDong/json/cJSON.c:291-513 | a printed value is read back wherever it stands in a text, formatted or not, at any depth |
| CjsonRoundTrip.ParseUndoesPrint | thirdpartylib/JingDong/json/cJSON.c:284-288 | parsing a printed tree, formatted or not, gives the tree and consumes the whole text |
| CjsonRoundTrip.PrintedIsText | thirdpartylib/JingDong/json/cJSON.c:306-320 | what is printed, formatted or not, is a JSON text of RFC 8259 that denotes the tree |
| CjsonGrammar.UnitDecodes | thirdpartylib/JingDong/json/cJSON.c:144-205 | every \u escape but that of 0 and the surrogates, with digits of either case, is decoded to UTF-8 of its code point |
| CjsonGrammar.PairDecodes | thirdpartylib/JingDong/json/cJSON.c:185-205 | every pair of surrogates is decoded to UTF-8 of the code point it stands for |
| CjsonGrammar.BodyRead | thirdpartylib/JingDong/json/cJSON.c:159-216 | a string is read as the octets it denotes, in whatever way its characters are escaped |
| CjsonGrammar.ValueRead | thirdpartylib/JingDong/json/cJSON.c:291-445 | a JSON text, with white space anywhere, is read as the tree it denotes wherever it stands |
| CjsonGrammar.TextIsParsed | thirdpartylib/JingDong/json/cJSON.c:284-303 | parsing a whole JSON text gives the tree it denotes |
| CjsonMinify.MinifyOfPrint | thirdpartylib/JingDong/json/cJSON.c:587-602 | minifying the formatted print of a tree gives its unformatted print |
| CjsonMinify.WrittenShrinks | thirdpartylib/JingDong/json/cJSON.c:587-602 | of a text made of marks, strings, white space and comments of both kinds the marks and strings are kept, in order, and nothing else |
| CjsonMinify.TextMinified | thirdpartylib/JingDong/json/cJSON.c:587-602 | minifying any JSON text of RFC 8259 leaves the same text without its white space |
| CjsonBuffers.Minify | thirdpartylib/JingDong/json/cJSON.c:587-602 | in place: the minified text, a NUL, and the untouched rest; the write cursor never passes the read cursor |
| CjsonBuffers.LiteralStaysInside | thirdpartylib/JingDong/json/cJSON.c:598 | the reading cursor stays inside the text if and only if a quote ended the literal |
| CjsonBuffers.UnclosedStepsOver | thirdpartylib/JingDong/json/cJSON.c:597-598 | a failure: behind a quote or a comment that is never closed the cursor steps over the terminator |
| CjsonBuffers.EscapedLength | thirdpartylib/JingDong/json/cJSON.c:221-226 | the length counted is the length of the escaped text |
| CjsonBuffers.PrintStringPtr | thirdpartylib/JingDong/json/cJSON.c:219-252 | the buffer holds exactly the quoted, escaped string and its terminator, no byte more |
| CjsonPrint.RoomCovers | thirdpartylib/JingDong/json/cJSON.c:373-384 | the length counted for an array covers its text and terminator |
| CjsonPrint.MemberRoomCovers | thirdpartylib/JingDong/json/cJSON.c:474-485 | the length counted for an object covers its text at every depth |
| CjsonPrint.ComposeArray | thirdpartylib/JingDong/json/cJSON.c:396-407 | joins the entries inside the counted buffer into the printed array |
| CjsonPrint.ComposeObject | thirdpartylib/JingDong/json/cJSON.c:496-512 | joins names and entries into the printed object |
| CjsonPrint.PrintValueText | thirdpartylib/JingDong/json/cJSON.c:306-321 | the buffer returned holds the printed text of the value |
| CjsonPrint.PrintArray | thirdpartylib/JingDong/json/cJSON.c:353-408 | likewise for an array, empty or not |
| CjsonPrint.PrintObject | thirdpartylib/JingDong/json/cJSON.c:448-513 | likewise for an object, empty or not |
| Unicode.Utf8Exactly | thirdpartylib/JingDong/json/cJSON.c:196-204 | the bytes written for a code point are its UTF-8 form and no others are: leading octet, continuing octets, shortest form (section 3 of RFC 3629) |
| CjsonDecode.BodyFits | thirdpartylib/JingDong/json/cJSON.c:164-211 | the decoded string fits in the buffer measured by the first loop whenever no character or escape of the second loop steps over the place where the first one stops |
| CjsonDecode.FitsExactly | thirdpartylib/JingDong/json/cJSON.c:164-211 | otherwise it fits if and only if what is decoded before that place, at it and behind it is together no longer than what was measured |
| CjsonDecode.CutOffDoesNotFit | thirdpartylib/JingDong/json/cJSON.c:164-211 | a failure: behind a \u escape cut off by the closing quote any number of characters may be decoded where one was measured |
| CjsonDecode.FourInsteadOfOne | thirdpartylib/JingDong/json/cJSON.c:164-211 | the same for one text: one character measured, four decoded |
| CjsonDecode.SteppedOverDoesNotFit | thirdpartylib/JingDong/json/cJSON.c:164-211 | a failure: the closing quote taken for the second character of an escape, with the same effect |
| CjsonScan.PutUtf8 | thirdpartylib/JingDong/json/cJSON.c:196-205 | the fall-through switch writes the UTF-8 bytes |
| CjsonScan.ParseString | thirdpartylib/JingDong/json/cJSON.c:159-216 | decodes into the measured buffer the string the grammar function reads, for every string that fits by that condition |
| CjsonScan.ParseNumber | thirdpartylib/JingDong/json/cJSON.c:99-118 | the integer the grammar function reads |
| CjsonScan.ParseValue | thirdpartylib/JingDong/json/cJSON.c:291-303 | the value the grammar function reads, when the strings met on the way are such |
| CjsonScan.ParseArray | thirdpartylib/JingDong/json/cJSON.c:324-350 | the loop that appends children reads what the recursive grammar function reads |
| CjsonScan.ParseObject | thirdpartylib/JingDong/json/cJSON.c:411-445 | likewise for names and values |
| CjsonScan.CompleteIsSafe | thirdpartylib/JingDong/json/cJSON.c:291-445 | they are when every quote of the text begins such a string |
| CjsonWhole.PrintedIsWhole | thirdpartylib/JingDong/json/cJSON.c:159-252 | the text printed for any tree, formatted or not, meets what the in-place minifier and the parser's loops demand |
| CjsonWhole.TextIsWhole | thirdpartylib/JingDong/json/cJSON.c:159-216 | so does every JSON text of RFC 8259 |
| CjsonWhole.LoopsReadText | thirdpartylib/JingDong/json/cJSON.c:291-445 | and the parser's loops read it as the tree it denotes |
| CjsonWhole.PrintMinified | thirdpartylib/JingDong/json/cJSON.c:587-602 | cJSON_Minify run on the buffer of cJSON_Print leaves the unformatted print and its terminator |
| CjsonWhole.PrintThenParse | thirdpartylib/JingDong/json/cJSON.c:284-350 | the parser's loops run on a printed buffer, formatted or not, give the tree back |
| CjsonList.GetArraySize | thirdpartylib/JingDong/json/cJSON.c:516 | the number of children |
| CjsonList.GetArrayItem | thirdpartylib/JingDong/json/cJSON.c:517 | the child at the index, or null; a negative index counts as 0 |
| CjsonList.AddItemToArray | thirdpartylib/JingDong/json/cJSON.c:521-526 | the node is appended; next, prev and child links stay consistent |
| CjsonList.DetachItemFromArray | thirdpartylib/JingDong/json/cJSON.c:531-532 | the node leaves the list with its links cleared; the others keep their order |
| CjsonList.DetachUndoesAdd | thirdpartylib/JingDong/json/cJSON.c:521-532 | detaching what was appended gives the list back |
| CjsonList.ReplaceItemInArray | thirdpartylib/JingDong/json/cJSON.c:538-540 | the new node takes the old one's place |
| CjsonList.WithoutKeeps | thirdpartylib/JingDong/json/cJSON.c:531-532 | detaching keeps every other child exactly once |
| Md5.MD5_CTX.Update | thirdpartylib/JingDong/auth/md5.c:55-78 | the context of a message becomes that of the message with the input appended, however the input is split; the count wraps at 2^64 bits |
| Md5.MD5_CTX.Final | thirdpartylib/JingDong/auth/md5.c:79-89 | the digest is the compression function folded over the padded message (sections 3.1 to 3.5 of RFC 1321) |
| Md5.Md5Encode | thirdpartylib/JingDong/auth/md5.c:90-102 | the words' bytes; each four of them, taken as a number with the least significant byte first, are the word |
| Md5.PaddedExactly | thirdpartylib/JingDong/auth/md5.c:79-89 | the padded message is the one text made of the message, a 1 bit, the fewest 0 bits, and the length in bits as a 64-bit number with the least significant byte first (sections 3.1 and 3.2 of RFC 1321) |
| Md5.DigestWords | thirdpartylib/JingDong/auth/md5.c:79-89 | the digest is the four words of the chaining value after the padded message, each with the least significant byte first (section 3.5) |
| Md5.InitialBytes | thirdpartylib/JingDong/auth/md5.c:46-54 | the chaining value begins as 01 23 45 67 89 ab cd ef fe dc ba 98 76 54 32 10 (section 3.3) |
| Md5.SplitIndependence | thirdpartylib/JingDong/auth/md5.c:55-78 | two contexts of the same message have equal count, chaining state and valid buffer prefix |
| AesField.TwoIsXtime | thirdpartylib/JingDong/auth/aes.c:348-678 | the doubling the tables are made of is multiplication by x in GF(2^8) (section 4.2.1 of FIPS 197) |
| AesField.InvMixUndoes | thirdpartylib/JingDong/auth/aes.c:348-678 | InvMixColumns columns undo MixColumns columns over GF(2^8) |
| Fips197.CoefficientsAre | thirdpartylib/JingDong/auth/aes.c:854-878 | the multiplications of the tables are the products with 2, 3, 9, 11, 13 and 14 in GF(2^8) (section 4.2 of FIPS 197) |
| AesKeys.Expand16 | thirdpartylib/JingDong/auth/aes.c:769-786 | the loop fills the 44 words of the 128-bit key expansion (section 5.2 of FIPS 197) |
| AesKeys.Expand24 | thirdpartylib/JingDong/auth/aes.c:788-807 | likewise the 52 words for 192 bits |
| AesKeys.Expand32 | thirdpartylib/JingDong/auth/aes.c:809-836 | likewise the 60 words for 256 bits |
| Fips197.RconIs | thirdpartylib/JingDong/auth/aes.c:681-686 | the round constants are the powers of x (section 5.2 of FIPS 197) |
| Fips197.ScheduleIs | thirdpartylib/JingDong/auth/aes.c:769-836 | each byte of the words the loops compute is the one section 5.2 of FIPS 197 prescribes, for all three key lengths |
| AesKeys.ReverseRoundKeys | thirdpartylib/JingDong/auth/aes.c:847-853 | the round keys in inverted order, by swaps in place |
| AesKeys.TransformRoundKeys | thirdpartylib/JingDong/auth/aes.c:854-878 | InvMixColumns applied to all round keys but the first and last, through the tables |
| AesKeys.InvertSchedule | thirdpartylib/JingDong/auth/aes.c:842-879 | both together give the schedule of the equivalent inverse cipher (section 5.3.5 of FIPS 197) |
| AesRounds.RoundUndone | thirdpartylib/JingDong/auth/aes.c:931-986 | one inverse round with the transformed key undoes one round up to SubBytes and ShiftRows |
| AesRounds.DecryptUndoes | thirdpartylib/JingDong/auth/aes.c:894-1167 | the equivalent inverse cipher undoes the cipher for every block and any round keys |
| AesCipher.Aes.SetKey | thirdpartylib/JingDong/auth/aes.c:755-892 | the schedule of the direction for 16-, 24- and 32-byte keys; other lengths are refused and change nothing |
| AesCipher.Aes.EncryptState | thirdpartylib/JingDong/auth/aes.c:922-1016 | the table look-ups, two rounds a turn, compute the cipher's rounds |
| AesCipher.Aes.DecryptState | thirdpartylib/JingDong/auth/aes.c:1061-1153 | likewise the inverse cipher's rounds |
| AesCipher.Aes.AesEncrypt | thirdpartylib/JingDong/auth/aes.c:894-1030 | 16 bytes enciphered, in place or not; no other byte changes |
| AesCipher.Aes.AesDecrypt | thirdpartylib/JingDong/auth/aes.c:1033-1167 | 16 bytes deciphered likewise |
| AesCipher.DecBlockUndoes | thirdpartylib/JingDong/auth/aes.c:894-1167 | on bytes: deciphering undoes enciphering for every block and key |
| Fips197.EncBlockIsCipher | thirdpartylib/JingDong/auth/aes.c:894-1030 | enciphering a block under a key is the cipher of section 5.1 of FIPS 197 on rows and columns of bytes, key expansion included |
| Fips197.DecBlockIsInvCipher | thirdpartylib/JingDong/auth/aes.c:1033-1167 | deciphering is its inverse cipher (section 5.3), although computed with the inverted schedule |
| AesCbc.AesCbcEncrypt | thirdpartylib/JingDong/auth/aes.c:1169-1183 | every whole block is chained and enciphered, also in place; the bytes after them are untouched, and the register holds the last block, with which a further call goes on |
| AesCbc.AesCbcDecrypt | thirdpartylib/JingDong/auth/aes.c:1185-1200 | every whole block is deciphered and unchained, also in place |
| AesCbc.CbcUndoes | thirdpartylib/JingDong/auth/aes.c:1169-1200 | CBC decryption undoes CBC encryption |
| Fips197.CbcIsStandard | thirdpartylib/JingDong/auth/aes.c:1169-1183 | the ciphertext is the one whose blocks satisfy the equations of section 6.2 of SP 800-38A with that cipher, and only that one |
| Fips197.InverseCbcIsStandard | thirdpartylib/JingDong/auth/aes.c:1185-1200 | likewise for decryption |
| AesDevice.DeviceAesEncrypt | thirdpartylib/JingDong/auth/aes.c:1205-1235 | returns (plainLength/16 + 1)·16 with the padded text enciphered, 16 more bytes of padding behind a whole number of blocks, and no other byte changed; or -1 and no change when the room given is below the rounded length |
| AesDevice.WrittenWithinRoom | thirdpartylib/JingDong/auth/aes.c:1211-1232 | what is written stays within the room that was checked if and only if the text is no whole number of blocks |
| AesDevice.SixteenWritten | thirdpartylib/JingDong/auth/aes.c:1211-1232 | a failure: 16 bytes with a room of 16 are accepted, and the 32 bytes behind that room are written |
| AesDevice.DeviceAesDecrypt | thirdpartylib/JingDong/auth/aes.c:1237-1249 | the deciphered text and no other byte changed, and its length without as many bytes as its last byte says |
| AesDevice.DeviceRoundTrip | thirdpartylib/JingDong/auth/aes.c:1205-1249 | decrypting what was encrypted returns the plaintext length and the plaintext, for every text and key |
| Crc.JoylinkSmntCrc | thirdpartylib/JingDong/joylink_smnt/joylink_smnt.c:597-616 | the CRC-8 of the bytes, message byte added before the eight shifts |
| Crc.CRC8 | thirdpartylib/JingDong/auth/crc.c:18-45 | the same CRC-8, message bits added one by one after the shifts |
| Crc.CRC16 | thirdpartylib/JingDong/auth/crc.c:2-16 | byte-wise mixing gives bit-by-bit division by 0x1021 from 0xFFFF |
| Crc.ByteIsEightShifts | thirdpartylib/JingDong/auth/crc.c:9-13 | the five register operations for a byte are eight steps of that division |
| Crc.OneByteDetected | thirdpartylib/JingDong/joylink_smnt/joylink_smnt.c:597-616 | changing exactly one byte changes the checksum |
| CrcPoly.Crc8IsRemainder | thirdpartylib/JingDong/joylink_smnt/joylink_smnt.c:597-616 | the CRC-8 is the remainder of the message, bits reversed, times x^8 by x^8 + x^5 + x^4 + 1, and nothing else is |
| CrcPoly.Crc16IsRemainder | thirdpartylib/JingDong/auth/crc.c:2-16 | the CRC-16 is the remainder of the message behind sixteen ones, times x^16, by x^16 + x^12 + x^5 + 1, and nothing else is |
| CrcPoly.RemainderUnique | thirdpartylib/JingDong/auth/crc.c:2-45 | a polynomial over the field of two elements has one remainder of lower degree than the divisor |
| Smnt.Receiver.PayLoadCheck | thirdpartylib/JingDong/joylink_smnt/joylink_smnt.c:579-594 | succeeds exactly for a length byte in range and a matching checksum, refusing 98 to 126 and unset ones; the result then holds the length and the decrypted data, and the receiver is finished or, for an impossible padding, locking again |
| Smnt.AdmittedIs | thirdpartylib/JingDong/joylink_smnt/joylink_smnt.c:579-594 | the check admits the length bytes 7 to 97 with the checksum of what they count and themselves |
| Smnt.AdmittedFits | thirdpartylib/JingDong/joylink_smnt/joylink_smnt.c:579-594 | of the lengths the check admits, 97 is the only one whose payload does not fit in the result |
| Smnt.NinetySevenAdmitted | thirdpartylib/JingDong/joylink_smnt/joylink_smnt.c:579-594 | a failure: every payload with that length byte and the right first byte is admitted, and 98 bytes are copied |
| Smnt.Receiver.Finish | thirdpartylib/JingDong/joylink_smnt/joylink_smnt.c:129-155 | in the finished state the result is decrypted in place by its own length, and the state is reset exactly when no text of 1 to 96 bytes is left |
| Smnt.Receiver.SplitText | thirdpartylib/JingDong/joylink_smnt/joylink_smnt.c:143-147 | password and name are copied out of the decrypted text into cleared buffers |
| Smnt.SplitInRange | thirdpartylib/JingDong/joylink_smnt/joylink_smnt.c:143-147 | the copies stay inside their buffers, of 65 and 33 bytes, if and only if the password's length byte is at most 65 and what is left behind it is a name of 0 to 33 bytes |
| Smnt.Receiver.MuticastAdd | thirdpartylib/JingDong/joylink_smnt/joylink_smnt.c:295-323 | stores the two bytes of an accepted address at its index, holds the channel, and hands the payload on exactly when the check succeeds; all indices are in range |
| Smnt.AcceptedIs | thirdpartylib/JingDong/joylink_smnt/joylink_smnt.c:295-309 | the addresses accepted are exactly those a sender makes: an index from 1 to 48, and 64 when the two bytes differ in parity |
| Smnt.IndexIs | thirdpartylib/JingDong/joylink_smnt/joylink_smnt.c:295-318 | and they are stored at the sender's index |
| Smnt.ArrivedInPlace | thirdpartylib/JingDong/joylink_smnt/joylink_smnt.c:295-323 | after any run the buffer holds the bytes of the fragments that arrived and 0xFF elsewhere |
| Smnt.Reassembled | thirdpartylib/JingDong/joylink_smnt/joylink_smnt.c:295-323 | once all fragments have arrived, in any order and number, the buffer begins with the payload and the check succeeds |
| Smnt.RunIsSane | thirdpartylib/JingDong/joylink_smnt/joylink_smnt.c:579-594 | throughout such a run the length byte is unset or right, and nothing is accepted before the first fragment |
| Smnt.FinishesWithLastFragment | thirdpartylib/JingDong/joylink_smnt/joylink_smnt.c:295-323 | the address completing the set is accepted and passes the check |
| Smnt.TextDelivered | thirdpartylib/JingDong/joylink_smnt/joylink_smnt.c:129-323 | a text that was padded, enciphered and sent in fragments is what the result decrypts to |
| Smnt.NameDelivered | thirdpartylib/JingDong/joylink_smnt/joylink_smnt.c:143-147 | the text made of a password and a name is split into just these |
| Smnt.Receiver.BroadcastAdd | thirdpartylib/JingDong/joylink_smnt/joylink_smnt.c:224-289 | what has been collected becomes Received of it, the channel is held longer after each group, the version announced in group 0 is taken over, and the payload is handed on exactly when a group is stored and the check succeeds; all indices are in range |
| Smnt.SymbolIs | thirdpartylib/JingDong/joylink_smnt/joylink_smnt.c:224-235 | a packet length of 256 for the flag and the byte is received as that flag and byte |
| SmntBroadcast.HeaderIs | thirdpartylib/JingDong/joylink_smnt/joylink_smnt.c:249-252 | a header is eight times the number of its group and three bits of the checksum |
| SmntBroadcast.LongFrame | thirdpartylib/JingDong/joylink_smnt/joylink_smnt.c:229-256 | a header and four bytes, in whatever state they come, store the group |
| SmntBroadcast.ShortFrame | thirdpartylib/JingDong/joylink_smnt/joylink_smnt.c:237-256 | a header and two bytes store the last group, filled up with zeros, once the length is known |
| SmntBroadcast.LateFrame | thirdpartylib/JingDong/joylink_smnt/joylink_smnt.c:237-256 | a four-byte group taken to end early: each half is stored, filled up with zeros, exactly when its checksum is the header's |
| SmntBroadcast.ArrivedInPlace | thirdpartylib/JingDong/joylink_smnt/joylink_smnt.c:224-289 | after any run of frames each byte is as the order of the frames of its group and of group 0 says, for every payload length |
| SmntBroadcast.Reassembled | thirdpartylib/JingDong/joylink_smnt/joylink_smnt.c:224-289 | for every payload length the buffer begins with the payload if and only if every group came as it must, and then the check succeeds |
| SmntBroadcast.ThreeReceived | thirdpartylib/JingDong/joylink_smnt/joylink_smnt.c:237-256 | a payload whose last group has three bytes, the third not 0, is received if and only if all other groups came, the last one came before the length, and no later frame of it stored one of its halves |
| SmntBroadcast.InOrderNeverReceived | thirdpartylib/JingDong/joylink_smnt/joylink_smnt.c:237-256 | a failure: such a payload is never received by a run that begins with its first group |
| SmntBroadcast.ElevenBytesLost | thirdpartylib/JingDong/joylink_smnt/joylink_smnt.c:237-256 | the same for one payload of eleven bytes |
| SmntBroadcast.FinishesWithLastFrame | thirdpartylib/JingDong/joylink_smnt/joylink_smnt.c:249-260 | for every payload length the frame completing the payload stores its group, behind its second or fourth byte, and with that symbol the check succeeds |
| SmntBroadcast.RunIsSane | thirdpartylib/JingDong/joylink_smnt/joylink_smnt.c:579-594 | at every symbol of such a run the length byte is unset or right, so that the check stays in range |
| SmntBroadcast.ThirdByteLost | thirdpartylib/JingDong/joylink_smnt/joylink_smnt.c:237-244 | whatever is received while the length byte stays the same, the third byte of the last group is zero from the first time that group is stored and unchanged before |

## Left out

- Random numbers, timing and side channels, and the HMAC-based signer, which the source disables. The blinding
  factors are parameters.
- secp192r1, secp224r1 and secp256k1 reductions, and the formulas of secp256k1. Only a = -3 curves and 32-bit words are
  modelled.
- Key generation, shared secrets and point validation, which only combine modelled operations.
- VliMod.ModInv: for input and modulus with a common factor the result times the input is congruent to that
  factor; the contract says so instead of excluding the case. Even moduli, for which halving is not defined, are
  excluded.
- Ecdsa.SignWithK: the order of the base point is required to be prime, as it is on every curve of the library.
- VerifyWords.VerifySap: the public key's coordinates must be below p, which uECC_valid_public_key checks for the
  caller; the abscissa is kept in num_words words and widened for the final comparison.
- Verify.VerifyDecides: for the public keys G and -G, for which the entry G + Q is (0, 0), scalars with a bit in common
  are excluded. Their private keys are among those for which `Keys.EccPointComputePublicKey` fails, except 1 for an
  order 2^bits - 1.
- Decompress.DecompressSap: abscissas of p or more are excluded, as field elements are below p.
- JsmnParser.Parser.Parse: buffers longer than 32768 characters, where the 16-bit position would wrap, are excluded;
  the 8-bit child count does wrap in the model, and the look-ups require fewer than 256 children per token.
- Parsing without a token array (tokens == NULL), and the conversions of token text to numbers and booleans.
- CjsonParse.NumberAt: fractions and exponents are not modelled and read as malformed; integers are exact, as
  doubles are up to 2^53.
- CjsonScan.ParseString: strings for which the second loop steps over the end of the first are excluded, whether or not
  what it decodes would fit, and so are texts whose terminator the first loop steps over. `CjsonWhole.TextIsWhole`
  shows that every JSON text qualifies.
- CjsonBuffers.Minify: strings and comments that are never closed are excluded, as the source steps over the terminator.
- CjsonPrint.PrintValueText: trees are values there, with children in a chain; the links of the nodes are modelled
  only in `CjsonList`, and malloc failure, hooks, references and duplication are not.
- MD5Transform and the values of the AES tables are not part of this model.
- Md5.MD5_CTX.Update: inputs within 64 bytes of 2^32 are excluded, where the loop's index would wrap.
- AesDevice.DeviceAesEncrypt: key lengths other than 16, 24 and 32 are excluded, because the source ignores the
  error and uses an unset schedule.
- AesDevice.DeviceAesDecrypt: the same key lengths, and empty input, whose last byte the source reads.
- Smnt.Receiver.PayLoadCheck: a length byte of 97 with a matching checksum, for which the copy leaves the result, and
  127 to 254, for which the checksum leaves the buffer, are excluded.
- Smnt.Receiver.Finish: ends before the decrypted text is split, which `Smnt.Receiver.SplitText` does for texts that
  fit; the callback, channel locking and the timer are not part of this model.
- SmntBroadcast.Reassembled: frames arrive whole, a last group of one or two bytes with two and any other with four; a
  frame cut off by another one is covered only by `Smnt.Receiver.BroadcastAdd`.
- protocol.c, custom_util.c, json_generator.c, jutils.c, jdota.c and everything under src/: field copying, text
  formatting and device plumbing that would only add easy members.
