# SEAL threshold encryption, verified

This project models the SEAL stack of pysui-crypto (`src/seal`) and proves what it promises: that
arithmetic by tables is the arithmetic of a field, that secret sharing reconstructs and hides, that
the pairing equations make key-server shares decrypt, and that decryption undoes encryption and
agrees across users. It is one tower; each layer uses the theorems of the one below.

| layer | source | files |
|---|---|---|
| bytes and errors | all of `src/seal` | `Bytes.dfy`, `Results.dfy` |
| the field of 256 elements | `gf256.rs` | `GF256.dfy`, `GF256Tables.dfy`; proofs in `GF256Sums.dfy`, `GF256TableProofs.dfy`, `GF256Laws.dfy`, `GF256Reference.dfy` |
| polynomials | `polynomial.rs` | `Polynomial.dfy`; proofs in `PolynomialLaws.dfy`, `Interpolation.dfy` |
| secret sharing | `tss.rs`, `utils.rs` | `Utils.dfy`, `Randomness.dfy`, `TSS.dfy`; proofs in `TSSLaws.dfy` |
| groups and encryption to identities | `elgamal.rs`, `ibe.rs` | `ModArithmetic.dfy`, `Groups.dfy`, `Primitives.dfy`, `Dependence.dfy`, `ElGamal.dfy`, `IBE.dfy`; proofs in `IBELaws.dfy` |
| data encapsulation | `dem.rs` | `DEM.dfy`; proofs in `DEMLaws.dfy` |
| the protocol | `core.rs` | `Core.dfy`; proofs in `CoreLaws.dfy`, `RoundTrip.dfy`, `KeyInputs.dfy`, `KeyDelivery.dfy` |

## How the program is modelled

- A `u8` is a `bv8` where it is a byte or a field element and a number below 256 where it is a
  count; `Bytes.Byte` and `Bytes.Value` convert. Exponents of the tables are a bounded integer type, so the verifier checks that no `u16`
  operation wraps and no table index is out of range.
- `GF256Tables` holds the two tables and the multiplication and division that use them. The layers
  above multiply with `GF256.Mul`, the product of section 4.2 of FIPS 197, and divide with
  `GF256.Div`. `GF256Laws.TableMulIsMul` and `GF256Laws.TableDivIsDiv` prove that the two are
  the same on all inputs, errors included.
- Code that only builds values is a function. The loop of `strip_trailing_zeros`, the incremental
  hashes of `kdf` and `derive_key`, the buffer that is filled with random bytes, and everything that
  draws from a generator (`split_byte`, `split`, `seal_encrypt`) are methods, each proved equal to
  a function of its inputs and of what it draws.
- A random generator is a tape. Its draws appear as arguments of the functions (`draws`,
  `coefficients`, `Draw`), so every theorem holds for every draw.
- Group elements are their exponents to the base of the generator, modulo an arbitrary order `q > 1`.
  The pairing multiplies exponents, and its bilinearity is a lemma. A statement about a group
  element supplied from outside asks that its exponent is reduced, as every element of the group is.
- SHA3, HMAC, hashing to the group, AES-GCM and serialization are arbitrary total functions, the
  fields of `Primitives`. Two laws are required where they are needed: authenticated decryption
  undoes encryption (`AesLawful`) and scalars survive serialization (`ScalarLawful`).
- What a hashed or keyed value depends on is stated by quantifying over the primitive: two values are
  the same under every hash function if and only if all their fields are the same. No hash function
  has to be injective for that. Where group elements are hashed, their serializations must have a
  fixed length per group and determine the element (`IBELaws.SerializationLawful`).
- `assert`, `expect` and `unwrap` in the program become preconditions or proofs: `Log` requires a
  nonzero byte, `MulPoly` requires nonempty operands, and `CombineByte` proves its quotients exist.

## Model

| member | source | states |
|---|---|---|
| GF256Laws.TableMulIsMul | src/seal/gf256.rs:99-109 | multiplication through the EXP and LOG tables is the field product, for all pairs of bytes |
| GF256Laws.TableDivIsDiv | src/seal/gf256.rs:112-123 | division through the tables fails exactly on a zero divisor and otherwise multiplies by the inverse |
| GF256Reference.MulRefinesReference | src/seal/gf256.rs:13-15 | the field product is the carry-less product of FIPS 197 reduced modulo x^8 + x^4 + x^3 + x + 1 by long division |
| GF256TableProofs.ExpIsRepeatedTimes3 | src/seal/gf256.rs:17-64 | entry n mod 255 of EXP is the n-th power of 3, for every u16 n |
| GF256TableProofs.ExpOfLogIsIdentity | src/seal/gf256.rs:37-64 | every logarithm is below 255, and EXP of the logarithm of a nonzero byte is that byte |
| GF256TableProofs.MulIsTimes3Repeated | src/seal/gf256.rs:99-109 | the table product by a nonzero a multiplies by 3 as often as LOG of a says, zero operands included |
| GF256Laws.MulCommutes | src/seal/gf256.rs:99-109 | multiplication commutes |
| GF256Laws.MulAssociates | src/seal/gf256.rs:99-109 | multiplication associates |
| GF256Laws.MulDistributes | src/seal/gf256.rs:67-109 | multiplication distributes over addition on both sides |
| GF256Laws.InverseWorks | src/seal/gf256.rs:112-123 | every nonzero element times its inverse is one |
| GF256Laws.NoZeroDivisors | src/seal/gf256.rs:99-109 | a product is zero exactly when a factor is |
| GF256Laws.DivUndoesMul | src/seal/gf256.rs:112-123 | dividing a product by a nonzero factor gives the other factor |
| Polynomial.StripTrailingZeros | src/seal/polynomial.rs:41-47 | the popping loop computes the stripped coefficient vector |
| PolynomialLaws.StrippedIsTheCanonicalForm | src/seal/polynomial.rs:41-47 | stripping gives the one representation of a polynomial without a trailing zero |
| PolynomialLaws.EvaluateStripped | src/seal/polynomial.rs:22-47 | stripping does not change any value |
| PolynomialLaws.EvaluateAddPoly | src/seal/polynomial.rs:80-98 | the value of a sum is the sum of the values |
| PolynomialLaws.EvaluateSumPoly | src/seal/polynomial.rs:100-104 | the value of a sum of a list is the sum of the values |
| PolynomialLaws.EvaluateScale | src/seal/polynomial.rs:106-112 | the value of a scaled polynomial is the scaled value |
| PolynomialLaws.EvaluateDivScalar | src/seal/polynomial.rs:134-141 | division by a scalar fails exactly for zero, and divides the value |
| PolynomialLaws.MulPolyIsConvolution | src/seal/polynomial.rs:115-131 | the filtered double sum is the product obtained by unrolling the first operand |
| PolynomialLaws.EvaluateMulPoly | src/seal/polynomial.rs:115-131 | the value of a product is the product of the values |
| PolynomialLaws.EvaluateProductPoly | src/seal/polynomial.rs:143-147 | the value of the product of a list is the product of the values |
| PolynomialLaws.MulPolyStaysCanonical | src/seal/polynomial.rs:115-131 | the product of nonzero polynomials without trailing zeros has none, so it need not be stripped |
| Interpolation.BasisPolynomialWorks | src/seal/polynomial.rs:57-71 | a basis polynomial exists exactly when no other x-value equals its own, has as many coefficients as there are points, and is 1 at its own point and 0 at the others |
| Interpolation.InterpolateWorks | src/seal/polynomial.rs:54-77 | interpolation fails exactly when two x-values coincide; its result passes through every point, has at most as many coefficients as points, and no trailing zero |
| Interpolation.RootBound | src/seal/polynomial.rs:22-29 | a polynomial with as many distinct roots as coefficients is zero |
| Interpolation.InterpolateIsUnique | src/seal/polynomial.rs:57-77 | interpolating enough samples of a polynomial returns exactly that polynomial, stripped |
| Utils.XorCancels | src/seal/utils.rs:9-19 | masking twice with a long enough key gives the text back, on either side |
| Utils.TransposeWorks | src/seal/utils.rs:27-50 | transposition succeeds exactly on n >= 1 rows of equal length, and entry (j, i) of the result is entry (i, j) |
| Utils.TransposeTwice | src/seal/utils.rs:27-50 | transposing back gives the matrix |
| Randomness.Rng.FillBytes | src/seal/utils.rs:21-25 | the buffer receives the next bytes of the generator, in order |
| TSS.SplitByte | src/seal/tss.rs:120-145 | the loop draws threshold - 1 bytes and evaluates the polynomial that they and the secret form, or rejects its arguments before drawing |
| TSS.Split | src/seal/tss.rs:39-65 | splitting threads the generator through the bytes of the secret and transposes, exactly as the function on the drawn coefficients, and consumes threshold - 1 bytes for each byte of the secret |
| TSSLaws.ByteSharesWork | src/seal/tss.rs:120-145 | a byte is split exactly when 1 <= threshold <= number of indices and the indices are distinct and nonzero, so truncating their number to a u8 is harmless |
| TSSLaws.SharingWorks | src/seal/tss.rs:39-65 | splitting succeeds exactly for 1 <= threshold <= shares and a nonempty secret; byte i of share j is the value at j + 1 of the polynomial of byte i |
| TSSLaws.CombineByteIsValueAtZero | src/seal/tss.rs:148-170 | the closed formula is the interpolated polynomial at 0, and it fails exactly on empty, repeated or zero indices |
| TSS.DenominatorNonzero | src/seal/tss.rs:155-166 | no denominator is zero, so the unwrap is safe |
| TSSLaws.CombineIsValueAtZero | src/seal/tss.rs:70-117 | combining byte strings is interpolating them and evaluating at 0, and both reject the same shares for a nonempty secret |
| TSSLaws.ReconstructionsRejectAlike | src/seal/tss.rs:70-117 | the two reconstructions accept the same shares if and only if the secret is nonempty or the shares are well-formed |
| TSSLaws.SharesDeterminePolynomials | src/seal/tss.rs:67-99 | enough shares on given polynomials make interpolation return those polynomials and combination their values at 0 |
| TSSLaws.ThresholdReconstruction | src/seal/tss.rs:38-117 | any list of at least threshold distinct shares, in any order, combines to the secret, for every draw |
| TSSLaws.PerfectThreshold | src/seal/tss.rs:38-145 | for any threshold - 1 share values and any candidate secret byte, exactly one choice of coefficients produces them |
| Groups.Bilinear | src/seal/ibe.rs:76-157 | the pairing of the exponent model is linear in both arguments |
| Groups.PairingAdditive | src/seal/ibe.rs:105-109 | the pairing turns sums of its first argument into sums |
| ElGamal.DecryptUndoesEncrypt | src/seal/elgamal.rs:28-50 | decryption with the matching secret key recovers every message |
| ElGamal.EncryptionIsMasked | src/seal/elgamal.rs:28-46 | the first component is the generator times the drawn scalar and the second is the message plus the scalar times the public key |
| IBE.ComputeKdf | src/seal/ibe.rs:193-207 | the incremental hash is the hash of the concatenated fields |
| IBE.VerifiedMeansExtracted | src/seal/ibe.rs:70-86 | a key passes verification exactly when it is the key that the master key extracts, and is invalid input otherwise |
| IBE.BatchSucceeds | src/seal/ibe.rs:116-144 | batch encryption succeeds exactly for equally many plaintexts, public keys and infos, with the generator times the randomness as nonce |
| IBE.VerifiedKeyDecrypts | src/seal/ibe.rs:116-160 | a verified key recovers every plaintext encrypted to its public key, identity and info |
| IBE.VerifiedKeyDecryptsDeterministically | src/seal/ibe.rs:146-186 | for every ciphertext, a verified key decrypts to what the randomness of the nonce recovers |
| IBE.EncryptedSignatureMeansVerifiedKey | src/seal/ibe.rs:88-114 | the check on an encrypted key accepts exactly when no element is the identity and the decrypted key passes verification |
| IBELaws.PointDependsOnIdentity | src/seal/ibe.rs:188-190 | two identities have the same point under every hash to the group if and only if they are equal |
| IBELaws.PointDependsOnPackageAndId | src/seal/core.rs:274-277 | the same for full identities: package and inner identity both count |
| IBELaws.KeyForAnotherIdentity | src/seal/ibe.rs:70-86 | a key extracted for one identity verifies for another if and only if the master key times the difference of the points is 0 modulo q |
| IBELaws.MaskDependsOnEveryField | src/seal/ibe.rs:192-207 | two masks are the same under every hash if and only if pairing value, nonce, point, object id and index are |
| IBELaws.PlaintextDependsOnPairing | src/seal/ibe.rs:146-160 | two keys decrypt to the same plaintext under every hash if and only if they pair alike with the nonce |
| IBELaws.RandomnessDependsOnKey | src/seal/ibe.rs:209-220 | a key opens the encrypted randomness, for every decoding of scalars, if and only if it is the key it was encrypted under |
| DEMLaws.CtrModeByBytes | src/seal/dem.rs:81-88 | counter mode by chunks masks byte at with byte at mod 32 of block at / 32 |
| DEMLaws.CtrModeIsItsOwnInverse | src/seal/dem.rs:81-88 | encrypting twice gives the message |
| DEMLaws.CtrModeMapsPrefixes | src/seal/dem.rs:81-88 | the encryption of a prefix is the prefix of the encryption |
| DEMLaws.HmacCtrRoundTrip | src/seal/dem.rs:58-78 | decryption returns the message under the computed MAC and fails under any other |
| DEMLaws.RoundTrip | src/seal/dem.rs:128-156 | all three modes decrypt to the data, or to the key in plain mode |
| DEMLaws.ToBytesRoundTrip | src/seal/dem.rs:123-126 | the eight bytes of a u64 decode, least significant first, to that u64 |
| DEMLaws.ToBytesInjective | src/seal/dem.rs:123-126 | the encoding of a u64 determines it |
| DEMLaws.HmacDependsOnEveryField | src/seal/dem.rs:114-121 | two HMAC values are the same under every HMAC function if and only if purpose, key and data are |
| DEMLaws.KeyStreamDependsOnKeyAndPosition | src/seal/dem.rs:81-88 | two key-stream bytes are the same under every HMAC function if and only if key and position are |
| DEMLaws.MacDependsOnEveryField | src/seal/dem.rs:90-97 | two MACs are the same under every HMAC function if and only if key, additional data and ciphertext are |
| DEMLaws.AlteredCiphertextRejected | src/seal/dem.rs:65-78 | a MAC is accepted for another key, additional data and ciphertext under every HMAC function if and only if nothing was altered |
| DEMLaws.AadMeaning | src/seal/dem.rs:130-151 | absent additional data is used as empty, and present data as itself |
| DEMLaws.AesDependsOnEveryField | src/seal/dem.rs:27-35 | AES decryption gives the same under every decryption function if and only if key, additional data and ciphertext are the same |
| DEMLaws.MacInputInjective | src/seal/dem.rs:90-97 | the MAC input determines the additional data and the ciphertext |
| DEMLaws.HmacInputInjective | src/seal/dem.rs:99-121 | an HMAC input determines its purpose and data, so key-stream and MAC inputs never collide |
| Core.ComputeDerivedKey | src/seal/core.rs:296-317 | the two hashing loops compute the hash of the concatenated fields |
| KeyInputs.DeriveKeyInputInjective | src/seal/core.rs:296-317 | with as many shares as servers, the hash input determines purpose, base key, shares, threshold and servers, even when the numbers differ |
| KeyInputs.DerivedKeyDependsOnEveryField | src/seal/core.rs:296-317 | two derived keys are the same under every hash if and only if purpose, base key, shares, threshold and servers are |
| KeyInputs.BothSidesHashTheSame | src/seal/core.rs:110-177 | encryption and decryption derive keys from the same hash input if and only if there are at most 255 servers |
| Core.SealEncrypt | src/seal/core.rs:102-177 | encryption draws the base key, the coefficients and the scalar in this order, computes the object of that draw, and on success consumes 32 times threshold bytes and one scalar |
| RoundTrip.DrawReadsTape | src/seal/core.rs:115-133 | the base key, the coefficients and the scalar are consecutive draws of the generator, none used twice |
| RoundTrip.DrawsFit | src/seal/core.rs:115-133 | whatever the generator supplies is a draw that the end-to-end theorem covers |
| RoundTrip.EncryptionSucceeds | src/seal/core.rs:102-135 | encryption succeeds exactly for 1 <= threshold <= n with n public keys, n being the truncated number of servers |
| CoreLaws.CoveredWorks | src/seal/core.rs:221-226 | the covered positions are exactly those whose server has released a key, in increasing order |
| CoreLaws.UncheckedRecoversExactly | src/seal/core.rs:348-373 | without public keys a base key is returned if and only if the shares combine to it and the scalar decoded under its key gives the nonce; each failure is reported as itself |
| CoreLaws.UncheckedDecryptsExactly | src/seal/core.rs:185-272 | decryption without public keys returns m if and only if version, lengths and threshold are right and the shares combine to a key that unlocks the randomness and opens the data to m |
| CoreLaws.DecryptionFailure | src/seal/core.rs:250-271 | an admissible decryption that fails reports the failure of the base key or, if it was recovered, of the data |
| CoreLaws.CheckedIsUncheckedAndConsistent | src/seal/core.rs:320-420 | with public keys a base key is returned if and only if it is returned without them, there is a public key per service, and every recovered share lies on the polynomials |
| CoreLaws.CheckedFailure | src/seal/core.rs:320-420 | the checked path fails with the error of the unchecked one if that fails, else as invalid input for a wrong number of public keys, else as inconsistent shares |
| CoreLaws.CheckedDecryptsExactly | src/seal/core.rs:185-272 | decryption with public keys returns m if and only if decryption without them would, for a key whose recovered shares are all consistent |
| CoreLaws.CheckAccepts | src/seal/core.rs:320-346 | an accepted consistency check means that the polynomials through the given shares pass through every recovered share |
| CoreLaws.CheckIsConsistency | src/seal/core.rs:250-257 | with verified keys for k positions, the check accepts a base key if and only if the shares of all services, decrypted or not, lie on polynomials of degree below k with that value at 0, and the base key unlocks the randomness of the nonce |
| CoreLaws.CheckedRefinesUnchecked | src/seal/core.rs:250-271 | whatever decryption with public keys returns, decryption without them returns |
| CoreLaws.ConsistencyGuarantee | src/seal/core.rs:320-420 | after an accepted check of k shares, any k or more recovered shares combine to the same base key |
| CoreLaws.AgreementAcrossUsers | src/seal/core.rs:185-272 | if one user decrypts with the check, every user whose verified keys cover at least as many positions gets the same plaintext, with or without public keys |
| RoundTrip.BaseKeyIsRecovered | src/seal/core.rs:185-260 | enough verified keys recover the base key of the draw on both paths |
| RoundTrip.EndToEnd | src/seal/core.rs:102-272 | for every draw, mode, threshold and number of servers up to 255, verified keys for threshold positions decrypt to the plaintext or the DEM key, with and without public keys; fewer positions are refused |
| KeyDelivery.AcceptedResponsesVerify | src/seal/ibe.rs:88-114 | keys decrypted from accepted server responses are verified keys |
| KeyDelivery.HonestResponse | src/seal/ibe.rs:70-114 | an honest response decrypts to the extracted key, which verifies, and is accepted exactly when no element is the identity |
| KeyDelivery.ExtractedKeysVerify | src/seal/ibe.rs:70-86 | keys extracted for the identity of an object verify for its positions |

## Left out

- RoundTrip.EndToEnd: speaks of at most 255 key servers, the limit that `src/seal/bindings.rs` enforces at
  line 132. `KeyInputs.BothSidesHashTheSame` shows that this limit is exactly what keeps `seal_encrypt`
  and `seal_decrypt` on the same hash input.
- CoreLaws.ConsistencyGuarantee: speaks of k or more shares, not of threshold many, because the check
  interpolates through all k shares it is given. The version for the threshold is the case k = threshold.
- DEMLaws.MacInputInjective: like the other statements about MACs, speaks of additional data shorter than 2^64 bytes, as every buffer of the
  program is.
- `src/lib.rs` (zkLogin) and the rest of `src/seal/bindings.rs` (Python glue, key generation, message
  formatting) are not part of this model.
- Nothing is claimed about computational hardness, forgery or side channels. `TSSLaws.PerfectThreshold` is
  a counting statement.
- The internals of SHA3, HMAC, AES-GCM, hashing to the curve and BLS12-381 are arbitrary functions here,
  and the BCS encoding of the encrypted object is a datatype.
- `generate_seed`, `derive_master_key`, `create_proof_of_possession`, zeroizing and the parsing of
  object identifiers would add only easy members.
- The closure that `interpolate` in `src/seal/tss.rs` returns is modelled as the list of polynomials it
  captures, and calling it as `TSS.ValueAt`.
- The in-place `add_assign` of `src/seal/gf256.rs` has no caller in the modelled code and no member.
- The debug assertion on lengths in `derive_key` is not modelled; the release behaviour is.
