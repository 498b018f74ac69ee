# Threshold encryption engine of libBLS, modelled in Dafny

This project models the engine `encryption::TE` of libBLS
(`threshold_encryption/threshold_encryption.cpp`). It is a pairing-based
threshold encryption scheme:

- `Encrypt` masks a message with the hash of r·Y, where Y is the common public key.
  It binds the masked payload V to the ciphertext through W = r·H(U, V).
- Each party calls `Decrypt` to check e(g, W) = e(U, H(U, V)) and return its share s·U.
- `Verify` checks a share against the party's public key.
- `CombineShares` repeats the ciphertext check, interpolates the first t shares with
  `LagrangeCoeffs` and unmasks V.

The model, module by module:

- `Zr` (`zr.dfy`): the scalar field, the integers modulo the group order R.
  It holds the inverse `element_invert` (by extended Euclid) and the facts about
  products modulo a prime that interpolation relies on.
- `Lagrange` (`lagrange.dfy`): `TE::LagrangeCoeffs`, kept imperative.
  - The product loop, the per-row denominator loop and the outer loop are methods
    with loop invariants. The result is filled into an array of size t.
  - Each method is proved equal to a specification function: `IndexProduct` to
    `Prod` mod R, `Denominator` to `Denom`, `CoefficientRow` to `Coefficient` and
    `LagrangeCoeffs` to `Coeffs`.
  - `Coeffs` is built from `Prod`, `DiffProd`, `Denom` and the recursive `Coefficient`.
  - The indexes are C `int`s, modelled by the `Int32` newtype.
- `Masking` (`masking.dfy`): the byte-wise XOR of a digest with the message.
  The `valarray` `^` is `Xor`, and the loops that build the result string are `Mask`.
  `CStr(s)` is what `std::string(s.c_str())` holds: building a string from a C pointer
  keeps only the bytes before the first NUL.
- `ThresholdEncryption` (`threshold_encryption.dfy`): `Encrypt`, `Decrypt`,
  `Verify` and `CombineShares`, with the two `Hash` adapters.
  - A group element is written as its discrete logarithm with respect to the generator g,
    so g is 1 and the identity is 0. An integer stands for the element it is congruent
    to modulo R; the hash adapters reduce an element before printing it, so every
    check and result depends on the element only.
  - k·P is k·p mod R, and P + Q is p + q mod R.
  - The pairing e(a·g, b·g) is represented by its exponent a·b mod R.
  - The hash function, the decimal printing of an element and the hexadecimal parsing into
    an element are the fields of an `Oracle` value, left uninterpreted.
  - A well-formed oracle (`Oracle.Valid`) returns digests of one fixed length with no NUL
    byte, like SHA-256 hex text, and decimal text with no NUL byte.
  - Errors the source throws become `Err` values of `Result`.

The engine members follow the code as written, including the three defects listed
under "## Findings". For each defect the corrected definition stands beside the
as-written one, and the intended property is proved about it. Nothing in the
as-written engine depends on the corrected members. A caller that wants the
intended behaviour uses `TextbookCoeffs`, `VerifyIntended` and `HashToG1Intended`.

## Model

| member | source | states |
|---|---|---|
| Zr.Inv | threshold_encryption/threshold_encryption.cpp:395-400 | `element_invert` on Zr yields a value in [0, R), and 0 for the zero element |
| Zr.InvCorrect | threshold_encryption/threshold_encryption.cpp:395-400 | modulo a prime R, a·Inv(a) ≡ 1 for every a ≢ 0 |
| Lagrange.IndexProduct | threshold_encryption/threshold_encryption.cpp:349-362 | the first loop leaves w = x_0·…·x_{t-1} mod R, starting from w = 1 |
| Lagrange.Denominator | threshold_encryption/threshold_encryption.cpp:366-393 | the inner loop fails with the duplicate-index error iff some other j < t has idx[j] = idx[i]; otherwise it returns v_i = x_i·∏_{j≠i}(x_j − x_i) mod R |
| Lagrange.CoefficientRow | threshold_encryption/threshold_encryption.cpp:366-416 | one outer pass fails iff row i has a duplicate; otherwise it yields the running value w·v_i^-1, which is coefficient i |
| Lagrange.LagrangeCoeffs | threshold_encryption/threshold_encryption.cpp:342-424 | the routine returns exactly `Coeffs`: not enough participants iff fewer than t indexes, then a duplicate error iff two of the first t indexes are equal, else t coefficients |
| Lagrange.Coeffs | threshold_encryption/threshold_encryption.cpp:342-424 | the error cases are characterised both ways; an Ok result has length t and values in [0, R) |
| Lagrange.CoeffsReadPrefixOnly | threshold_encryption/threshold_encryption.cpp:356-419 | only idx[0..t) is read: index lists that agree there get the same result |
| Lagrange.CoefficientIsAccumulatedProduct | threshold_encryption/threshold_encryption.cpp:405-416 | because w is never reset, coefficient i is P·v_0^-1·…·v_i^-1 mod R |
| Lagrange.FirstCoefficientIsLagrange | threshold_encryption/threshold_encryption.cpp:349-416 | for a prime R and nonzero distinct indexes, the result is Ok and coefficient 0 is the Lagrange coefficient at zero: λ_0·∏_{j≠0}(x_j − x_0) ≡ ∏_{j≠0} x_j |
| Lagrange.SingleCoefficient | threshold_encryption/threshold_encryption.cpp:342-424 | with t = 1 and an index nonzero modulo a prime R, the only coefficient is 1 |
| Lagrange.AccumulatedCoefficientCounterexample | threshold_encryption/threshold_encryption.cpp:405-416 | for R = 7 and indexes [2, 3] the routine returns [3, 6] where the Lagrange coefficients are [3, 5], and its coefficients sum to 2 instead of 1 |
| Lagrange.TextbookCoeffs | threshold_encryption/threshold_encryption.cpp:342-424 | the corrected routine fails in exactly the same cases as the original, with the same error, and otherwise returns t values |
| Lagrange.TextbookCoeffsCorrect | threshold_encryption/threshold_encryption.cpp:366-416 | every corrected coefficient λ_i satisfies λ_i·∏_{j≠i}(x_j − x_i) ≡ ∏_{j≠i} x_j, and λ_0 agrees with the routine |
| Masking.CStr | threshold_encryption/threshold_encryption.cpp:63-65 | a string rebuilt from its `c_str()` pointer is a prefix without NUL bytes that stops at the first NUL |
| Masking.CStrOfNulFree | threshold_encryption/threshold_encryption.cpp:63-65 | a NUL-free string survives being rebuilt from its `c_str()` pointer unchanged |
| Masking.CStrStopsAtNul | threshold_encryption/threshold_encryption.cpp:79 | bytes after a NUL never reach the view |
| Masking.Xor | threshold_encryption/threshold_encryption.cpp:128 | the `valarray` `^` of equal-size operands has the data's length and byte i is pad[i] XOR data[i]; `XorInvolution` is its inverse |
| Masking.Mask | threshold_encryption/threshold_encryption.cpp:117-133 | the XOR loops produce a string of the data's length whose byte i is pad[i] XOR data[i] |
| Masking.XorInvolution | threshold_encryption/threshold_encryption.cpp:312-327 | unmasking with the same pad returns the masked data: Xor(p, Xor(p, m)) = m |
| Masking.XorInjective | threshold_encryption/threshold_encryption.cpp:128 | XOR with one pad maps different messages to different payloads, and conversely |
| ThresholdEncryption.HashPad | threshold_encryption/threshold_encryption.cpp:53-66 | `Hash(Y)` returns exactly the digest of Y's decimal text: rebuilding it from `c_str()` loses nothing; it has the fixed digest length and no NUL byte |
| ThresholdEncryption.HashToG1 | threshold_encryption/threshold_encryption.cpp:68-90 | `Hash(U, V)` yields a G1 element read from hash(decimal U) ++ hash(V.c_str()) |
| ThresholdEncryption.IntegrityOk | threshold_encryption/threshold_encryption.cpp:174-181 | the pairing check e(g, W) = e(U, H(U, V)) holds iff W is the same multiple of H(U, V) as U is of g |
| ThresholdEncryption.IntegrityOnElements | threshold_encryption/threshold_encryption.cpp:68-90 | the check depends on U and W only modulo R, as the pairing library sees elements |
| ThresholdEncryption.Encryption | threshold_encryption/threshold_encryption.cpp:92-148 | the ciphertext's V is as long as the message and unmasks to it under the pad Hash(r·Y) |
| ThresholdEncryption.Encrypt | threshold_encryption/threshold_encryption.cpp:92-148 | the ciphertext is (r·g, Hash(r·Y) XOR message, r·H(U, V)), byte by byte; it always passes the integrity check |
| ThresholdEncryption.EncryptionPassesCheck | threshold_encryption/threshold_encryption.cpp:139-140 | e(g, r·H) = e(r·g, H), so every encryption passes the check of `Decrypt`, `Verify` and `CombineShares` |
| ThresholdEncryption.TamperedWRejected | threshold_encryption/threshold_encryption.cpp:174-181 | a ciphertext whose W was replaced by a different element fails the check |
| ThresholdEncryption.Decrypt | threshold_encryption/threshold_encryption.cpp:150-192 | the "cannot decrypt data" error is returned iff e(g, W) ≠ e(U, H(U, V)); otherwise the share d satisfies e(d, g) = e(U, s·g) |
| ThresholdEncryption.DecryptOnElements | threshold_encryption/threshold_encryption.cpp:150-192 | `Decrypt` gives the same result for any representatives of U and W |
| ThresholdEncryption.DecryptEncryption | threshold_encryption/threshold_encryption.cpp:92-192 | decrypting an encryption under s·g with the secret key s gives r·(s·g) |
| ThresholdEncryption.Verify | threshold_encryption/threshold_encryption.cpp:194-254 | as written, a ciphertext that fails the check makes `Verify` accept, and the identity share of a passing ciphertext is rejected |
| ThresholdEncryption.VerifyOnElements | threshold_encryption/threshold_encryption.cpp:194-254 | `Verify` gives the same answer for any representatives of U, W, the share and the public key |
| ThresholdEncryption.VerifyFalseExactly | threshold_encryption/threshold_encryption.cpp:194-254 | `Verify` returns false iff the ciphertext passes its check and the share is the identity or e(d, g) ≠ e(U, pk) |
| ThresholdEncryption.VerifyAcceptsDecryptedShare | threshold_encryption/threshold_encryption.cpp:224-238 | a non-identity share made by `Decrypt` with key s is accepted against s·g |
| ThresholdEncryption.VerifyRejectsForgedShare | threshold_encryption/threshold_encryption.cpp:224-238 | for a ciphertext that passes the check, a share other than s·U is rejected against s·g |
| ThresholdEncryption.VerifyAcceptsTamperedCiphertext | threshold_encryption/threshold_encryption.cpp:220-224 | a ciphertext whose W was altered fails the check, yet `Verify` accepts every share for it |
| ThresholdEncryption.VerifyIntended | threshold_encryption/threshold_encryption.cpp:194-254 | the corrected `Verify` accepts only ciphertexts that pass the check, and on those it answers as the original does |
| ThresholdEncryption.VerifyIntendedExactly | threshold_encryption/threshold_encryption.cpp:194-254 | the corrected `Verify` accepts exactly the non-identity share s·U of a ciphertext that passes its check |
| ThresholdEncryption.ToInt32 | threshold_encryption/threshold_encryption.cpp:291 | the `size_t` → `int` conversion keeps the value modulo 2^32 and leaves values below 2^31 unchanged |
| ThresholdEncryption.Indexes | threshold_encryption/threshold_encryption.cpp:289-292 | the index vector holds t entries |
| ThresholdEncryption.ShareIndexes | threshold_encryption/threshold_encryption.cpp:289-292 | the loop fills the vector with the converted indexes of the first t shares |
| ThresholdEncryption.WeightedSum | threshold_encryption/threshold_encryption.cpp:297-308 | the accumulation loop starts from the identity and yields λ_0·d_0 + … + λ_{t-1}·d_{t-1} in G1 |
| ThresholdEncryption.Combination | threshold_encryption/threshold_encryption.cpp:256-340 | "error during share combining" is returned iff the check fails, whatever the length of V; the routine never reports too few participants; an Ok message is as long as V |
| ThresholdEncryption.CombineShares | threshold_encryption/threshold_encryption.cpp:256-340 | the method returns exactly `Combination`: the check, the interpolation errors, then Hash(Σ λ_i·d_i) XOR V |
| ThresholdEncryption.AnyPayloadPasses | threshold_encryption/threshold_encryption.cpp:280-287 | the check does not bind the length of V: U = r·g and W = r·H(U, V) pass it for a payload of any length |
| ThresholdEncryption.CombinationOnElements | threshold_encryption/threshold_encryption.cpp:256-340 | the check and `CombineShares` give the same result for any representatives of U and W |
| ThresholdEncryption.CombinationRecoversMessage | threshold_encryption/threshold_encryption.cpp:310-327 | unmasking the V of a ciphertext from `Encrypt` (:92-148) returns the message whenever the weighted sum hashes to the pad of r·Y |
| ThresholdEncryption.SingleShareRoundTrip | threshold_encryption/threshold_encryption.cpp:150-340 | with t = 1 and a prime R, a share from `Decrypt` under a nonzero index combines back to the encrypted message |
| ThresholdEncryption.CombinationUsesFirstTShares | threshold_encryption/threshold_encryption.cpp:289-308 | only the first t shares matter: lists that agree on them give the same result |
| ThresholdEncryption.CombinationRejectsDuplicateIndexes | threshold_encryption/threshold_encryption.cpp:371-375 | two of the first t shares with the same index make the combination fail with the duplicate-index error |
| ThresholdEncryption.NulTailCounterexample | threshold_encryption/threshold_encryption.cpp:79 | H(U, [0, 1]) = H(U, [0, 2]) for every hash function |
| ThresholdEncryption.NulTailTamperingUndetected | threshold_encryption/threshold_encryption.cpp:79 | replacing the bytes of V after a NUL keeps the check passing and the partial decryptions unchanged |
| ThresholdEncryption.HashToG1Intended | threshold_encryption/threshold_encryption.cpp:68-90 | the corrected H(U, V) hashes all of V and yields an element of G1 |
| ThresholdEncryption.HashToG1IntendedBindsV | threshold_encryption/threshold_encryption.cpp:68-90 | for any two different payloads, some well-formed hash function makes the corrected H tell them apart |

## Left out

- Pairing setup: `TE(t, n)`, the type-A parameters, `pairing_init_set_str` and the destructor are not modelled. The order R is a parameter. `n` is carried but unused, as in the source.
- Randomness: `element_random` for the generator and for the nonce r is not modelled. The generator is the fixed element 1, and r is a parameter of `Encrypt` that is nonzero modulo R, which is what the sampling loop guarantees.
- Hashing: SHA-256 and the decimal and hexadecimal conversions of GMP are uninterpreted fields of `Oracle`. Their collision resistance is not modelled.
- Memory handling: `element_init` and `element_clear`, and the GMP strings, are left out.
- Lagrange.Denominator: the C `int` difference `idx[j] - idx[i]` is taken over the unbounded integers. An overflow there is undefined in C and is not modelled.
- Zr.Inv: GMP leaves the inverse of a non-invertible element unspecified. The model returns Euclid's coefficient, which is 0 for 0.
- ThresholdEncryption.CombineShares: the source reads `decrypted[i]` for i < t without a bounds check. The model requires at least t shares.
- ThresholdEncryption.CombineShares: the source leaves the XOR of a digest and a V of different lengths undefined (:322). The model requires a V that passes the check to be as long as the digest; a V that fails the check may have any length and gets the defined error. The check does not enforce this length, so a ciphertext built as in `AnyPayloadPasses` with a V of another length reaches the undefined XOR in the source. `Encrypt` requires a message as long as the digest.
- The general t-party round trip is not stated, because it does not hold as written: coefficients 1 … t-1 are wrong (see Findings). It is proved for t = 1 (`SingleShareRoundTrip`). `TextbookCoeffsCorrect` proves the interpolation identity for the corrected coefficients.

## Findings

| source | as written | input that shows it | evidently intended | confidence | as-written member | corrected member |
|---|---|---|---|---|---|---|
| threshold_encryption/threshold_encryption.cpp:220-224 | `Verify` sets `ret_val = true` and changes it only when the ciphertext check passes, so a ciphertext that fails the check is accepted | a valid ciphertext with W replaced by any other element, with any share | return false for a ciphertext that fails its check | high (proved; not executed) | ThresholdEncryption.VerifyAcceptsTamperedCiphertext | ThresholdEncryption.VerifyIntendedExactly |
| threshold_encryption/threshold_encryption.cpp:405-416 | w is multiplied by v_i^-1 in every row and never reset to the product P, so coefficient i ≥ 1 is P·v_0^-1·…·v_i^-1 | R = 7, t = 2, indexes [2, 3]: result [3, 6], Lagrange coefficients [3, 5] | coefficient i = P·v_i^-1, the Lagrange coefficient at zero | high (proved; not executed) | Lagrange.AccumulatedCoefficientCounterexample | Lagrange.TextbookCoeffsCorrect |
| threshold_encryption/threshold_encryption.cpp:79 | H(U, V) hashes `V.c_str()`, which drops every byte of V from the first NUL on | V = [0, 1] and V = [0, 2] give the same H(U, V); a NUL occurs in V whenever a message byte equals its pad byte | hash all of V, so that W binds the whole payload | medium (proved; not executed) | ThresholdEncryption.NulTailTamperingUndetected | ThresholdEncryption.HashToG1IntendedBindsV |
