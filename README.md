# mini-cryptography in Dafny

This project models the two computational parts of mini-cryptography and
proves properties of them.

- **ECDSA signing and verification** (`Ecdsa`, following SEC 1 v2.0,
  sections 4.1.3 and 4.1.4). Signing computes `r = (k·G).x mod n` and
  `s = k⁻¹(hash + d·r) mod n`. It returns the integer code 0 when `r` is 0 and
  the code 1 when `s` is 0. Verification first checks that `r` and `s` lie in
  [1, n-1], then computes `w = s⁻¹`, `u1 = hash·w` and `u2 = r·w`. It accepts
  when `(u1·G + u2·Q).x mod n == r`.
- **The Bitcoin-style Merkle root** (`Merkle`). Leaves are hexadecimal strings.
  Every hash is a double SHA-256 of decoded bytes. Levels are reduced pairwise,
  and the last node of an odd level is paired with itself. The root is shown
  with its byte order reversed. Optionally, the caller's leaf list is first
  overwritten in place with the leaf hashes.

The modules:

- `ModArith`: Python's `%` for a positive modulus; Euclid's algorithm; the
  modular inverse `pow(x, -1, n)` computed by the extended algorithm, with its
  `ValueError` as the outcome `NotInvertible`.
- `Ecdsa`: points and domain parameters as immutable records, signing,
  verification, the random generators, and the sign-then-verify round trip.
  Scalar multiplication and point addition are abstract functions carried in
  the engine (`PointArithmetic`).
  - The round trip needs one property of them, `LinearInG`: the multiples of G
    combine linearly mod n, so a point is identified by its discrete logarithm.
    It is a hypothesis of `Ecdsa.SignThenVerify`.
  - `Ecdsa.LogModel` is a concrete engine that satisfies it.
- `Hex`: `binascii.hexlify` and `binascii.unhexlify`, that is Base16 as in
  section 8 of RFC 4648. `hexlify` writes lower-case digits. `unhexlify`
  accepts either case and fails on an odd length or a non-digit.
- `Merkle`: the hash helpers, the level reduction and the root.
  - SHA-256 is the parameter `H`, an arbitrary function from bytes to 32 bytes.
  - The reduction is stated generically over `combine`, the function that
    merges two nodes. The model instantiates it with `Merkle.Combiner(H)`, which
    is the source's `__hashIteration__`.
  - `__merkleCalculation__` is a method with the source's loop, and it is proved
    equal to the functional reduction `ReduceLevels`.
  - `merkle_root` is a method over an `array`, which it rewrites in place. It is
    proved to leave the array and return the result that `MerkleRootSpec`
    describes.

The source's exceptions are modelled as values:

- Signing: `NonInvertibleNonce` for a nonce with no inverse mod n.
- Verification: `NotInvertible`.
- Merkle root:
  - `Err(MalformedHex)` for the `binascii.Error` of a string that is not hex;
  - `Err(EmptyTransactionList)` for the unbounded recursion on an empty list.

## Model

| member | source | states |
|---|---|---|
| Ecdsa.NewFieldKeepsParameters | src/mini_cryptography/ecdsa.py:4-37 | A field record keeps a, b, n and p unchanged, and its stored coordinate list `[x, y]` reads back as the base point it was built from. |
| Ecdsa.KGenerator | src/mini_cryptography/ecdsa.py:101-107 | The nonce lies in [1, n-1]. |
| Ecdsa.PrivateKeyGenerator | src/mini_cryptography/ecdsa.py:109-115 | The private key lies in [1, n-1]. |
| Ecdsa.SignMessage | src/mini_cryptography/ecdsa.py:117-138 | Code 0 exactly when (k·G).x mod n is 0. A non-invertible nonce is an error exactly when r is not 0 and gcd(k, n) is not 1. Code 1 exactly when r is not 0, k is invertible and k⁻¹(hash + d·r) mod n is 0. No other code occurs. A signature has r = (k·G).x mod n, and both r and s lie in [1, n-1]. |
| Ecdsa.SignatureEquation | src/mini_cryptography/ecdsa.py:134 | Every signature satisfies s·k ≡ hash + d·r (mod n). |
| Ecdsa.VerifySignature | src/mini_cryptography/ecdsa.py:140-165 | Defined for every order n. False whenever r or s is outside [1, n-1], before any inverse or point operation. The inverse error happens exactly when both are in range and s is not invertible. True exactly when both are in range, s is invertible and (u1·G + u2·Q).x mod n == r with u1 = hash·s⁻¹ and u2 = r·s⁻¹. |
| Ecdsa.VerifyDefinedForPrimeOrder | src/mini_cryptography/ecdsa.py:152-155 | For a prime order n, the inverse of s never fails, so verification always reaches a verdict. |
| Ecdsa.VerifyRejectsSmallOrder | src/mini_cryptography/ecdsa.py:152-153 | With an order n ≤ 1, the range [1, n-1] is empty and every signature is rejected with `False`, before any `%` or inverse. |
| Ecdsa.VerifyRejects | src/mini_cryptography/ecdsa.py:155-165 | An in-range signature with invertible s, whose verification point's x mod n differs from r, is rejected with `False`. |
| Ecdsa.ExponentsCombine | src/mini_cryptography/ecdsa.py:155-157 | From s·k ≡ hash + d·r and s·w ≡ 1 (mod n), the exponents satisfy u1 + d·u2 ≡ k (mod n). |
| Ecdsa.SignThenVerify | src/mini_cryptography/ecdsa.py:129-162 | For a prime order, in the linear group model and with a nonce in [1, n-1], a signature made with private key d verifies against the public key d·G. |
| Ecdsa.LogModelIsLinear | src/mini_cryptography/ecdsa.py:58-99 | Point operations that act on discrete logarithms mod n satisfy the linearity hypothesis, so `Ecdsa.SignThenVerify` applies to a real engine. |
| Ecdsa.LogModelRoundTrip | src/mini_cryptography/ecdsa.py:117-165 | Over the order-5 log model, private key 2, nonce 1 and hash 1 sign to (1, 3), and this signature verifies against 2·G. |
| Ecdsa.LogModelAlteredSignatureMisses | src/mini_cryptography/ecdsa.py:155-162 | In the same model the altered signature (1, 4) has an invertible s, but its verification point has x mod 5 equal to 2, not r = 1. |
| Ecdsa.LogModelRejectsAltered | src/mini_cryptography/ecdsa.py:152-165 | In the same model, verification of the altered signature (1, 4) against 2·G returns `False`. |
| ModArith.ExtGcd | src/mini_cryptography/ecdsa.py:134 | The extended algorithm returns gcd(a, b), Bezout coefficients s, t with a·s + b·t = gcd, and cofactors showing the gcd divides both a and b. |
| ModArith.ModInverse | src/mini_cryptography/ecdsa.py:134 | `pow(x, -1, n)` succeeds exactly when gcd(x mod n, n) = 1. Its value lies in [0, n) and satisfies x·inv ≡ 1 (mod n). |
| ModArith.NotCoprimeHasNoInverse | src/mini_cryptography/ecdsa.py:155 | When x and n share a factor, no y satisfies x·y ≡ 1 (mod n), so raising is the only correct outcome. |
| ModArith.InverseUnique | src/mini_cryptography/ecdsa.py:155 | Any y in [0, n) with x·y ≡ 1 (mod n) is the value `pow(x, -1, n)` returns. |
| ModArith.PrimeCoprime | src/mini_cryptography/ecdsa.py:134 | Modulo a prime, every value that is not a multiple of it is invertible. |
| Hex.Hexlify | src/mini_cryptography/merkle.py:34 | The encoding has two characters per byte, all of them lower-case hex digits. |
| Hex.Unhexlify | src/mini_cryptography/merkle.py:27-28 | Decoding succeeds exactly on an even number of hex digits, in either case, and yields half as many bytes. |
| Hex.HexlifyAt | src/mini_cryptography/merkle.py:34 | Characters 2i and 2i+1 of the encoding are byte i's high and low nibble. |
| Hex.UnhexlifyAt | src/mini_cryptography/merkle.py:78 | Byte i of the decoding is the value of digits 2i and 2i+1, high nibble first. |
| Hex.UnhexlifyHexlify | src/mini_cryptography/merkle.py:82 | Decoding an encoding gives the bytes back. |
| Hex.HexlifyUnhexlify | src/mini_cryptography/merkle.py:67 | Encoding the decoding of a lower-case hex string gives the string back. |
| Hex.UnhexlifyRejectsOddLength | src/mini_cryptography/merkle.py:27 | Decoding fails on every odd-length string. |
| Hex.UnhexlifyRejectsNonDigit | src/mini_cryptography/merkle.py:28 | Decoding fails on every string that holds a non-digit. |
| Merkle.HashIteration | src/mini_cryptography/merkle.py:17-34 | The combination succeeds exactly when both inputs are hex. Its result is 64 lower-case hex characters that decode to H(H(first's bytes ++ second's bytes)), first one first. |
| Merkle.TransactionHash | src/mini_cryptography/merkle.py:69-82 | The leaf hash succeeds exactly on hex. It is 64 lower-case hex characters that decode to H(H(the leaf's bytes)). |
| Merkle.Reverse | src/mini_cryptography/merkle.py:67 | `[::-1]` keeps the length and puts byte i at position len-1-i. |
| Merkle.ShiftHash | src/mini_cryptography/merkle.py:57-67 | Succeeds exactly on hex. The result has the same length, is lower-case hex, and decodes to the input's bytes in reverse order. |
| Merkle.ShiftHashInvolution | src/mini_cryptography/merkle.py:67 | Shifting twice gives back any lower-case hex string. |
| Merkle.ShiftHashSwapsPairs | src/mini_cryptography/merkle.py:67 | Bytes are reversed, not characters: digit pair i of the result is digit pair m-1-i of the input, in its original order. |
| Merkle.NextLevel | src/mini_cryptography/merkle.py:48-53 | A round that succeeds turns a level of L nodes into one of ⌈L/2⌉ nodes. |
| Merkle.NextLevelAt | src/mini_cryptography/merkle.py:50-53 | Node i of the next level is combine(h[2i], h[2i+1]) when 2i+1 < L. When L is odd, the last node is combine(h[L-1], h[L-1]). |
| Merkle.NextLevelCons | src/mini_cryptography/merkle.py:50-51 | The first pair leads the next level, followed by the round on the remaining nodes. |
| Merkle.NextLevelDefined | src/mini_cryptography/merkle.py:50-53 | With the source's combination, a round succeeds exactly when every node is hex. |
| Merkle.NextLevelDigests | src/mini_cryptography/merkle.py:50-53 | Every node of a next level is a 64-character lower-case hex digest. |
| Merkle.NextLevelOfEmpty | src/mini_cryptography/merkle.py:45-55 | An empty level reduces to an empty level, so the source's recursion makes no progress on it. |
| Merkle.PairsFormNextLevel | src/mini_cryptography/merkle.py:48-53 | The list that the pairing loop builds, with the pairs in order and then the doubled last node on an odd level, is the next level. |
| Merkle.ReduceLevelsShape | src/mini_cryptography/merkle.py:45-55 | The reduction fails exactly when a list of two or more nodes holds a non-hex node. Otherwise its result is a 64-character lower-case hex digest. |
| Merkle.MerkleCalculation | src/mini_cryptography/merkle.py:36-55 | The loop-and-recurse computation returns `ReduceLevels` of its input, and it terminates on every non-empty list. |
| Merkle.SingleNodeIsRoot | src/mini_cryptography/merkle.py:45-46 | A one-node list reduces to that node unchanged. |
| Merkle.MerkleRootSpec | src/mini_cryptography/merkle.py:84-100 | The list keeps its length. Without hashing it is untouched. With hashing and all leaves hex, every entry is the transaction hash of its original value. A non-hex leaf under hashing gives `MalformedHex`. The empty-list error happens exactly on the empty list. |
| Merkle.HashedRootShape | src/mini_cryptography/merkle.py:92-99 | With hashing, the root exists exactly when the list is non-empty and every leaf is hex. The root is then a 64-character lower-case hex string. |
| Merkle.UnhashedRootShape | src/mini_cryptography/merkle.py:92-99 | Without hashing, the root exists exactly for one hex leaf, or for two or more leaves that are all hex. It is lower-case hex: as long as the leaf in the first case, 64 characters in the second. |
| Merkle.MerkleRoot | src/mini_cryptography/merkle.py:84-100 | The rewritten array and the result are exactly those of `MerkleRootSpec` on the original contents. |
| Merkle.SingleLeafRoot | src/mini-cryptography/merkle.py:45-46 | A single hashed leaf has root hex(reverse(H(H(leaf bytes)))): one double hash, not two. |
| Merkle.ThreeLeaves | src/mini-cryptography/merkle.py:50-55 | [A, B, C] reduces to combine(combine(A, B), combine(C, C)). |
| Merkle.FiveLeaves | src/mini-cryptography/merkle.py:50-55 | [A, B, C, D, E] reduces through [AB, CD, EE] and [ABCD, EEEE]: the duplicate-last rule applies again at the second level. |
| Merkle.TwoEqualLeavesWithoutHashing | src/mini-cryptography/merkle.py:27-34 | Two leaves "aa", "aa" without hashing give the reversed encoding of H(H([0xaa, 0xaa])). |

The two Merkle source files are identical, so the one `Merkle` module models
both. The citations use either path.

## Left out

- Elliptic-curve point arithmetic from tinyec (`G_multiplication`, `sum_points`, `multiply_points`, the `ec.Curve` construction). It is a foreign library. The model takes these operations as arbitrary functions and does not model the group law or the point at infinity. When a multiple is the point at infinity, its coordinates are `None` and the source fails with a `TypeError`; that case is outside the model. In signing this happens for a nonce k with k·G at infinity. In verification it happens when hash ≡ 0 (mod n): then u1 = 0, and `sum_points` is handed the point at infinity 0·G. There `Ecdsa.SignThenVerify` concludes acceptance, while the source raises.
- Ecdsa.SignThenVerify: it takes the linearity of scalar multiples of G as a hypothesis (`LinearInG`) instead of deriving it from a curve.
- Python's `random` module. The generators are nondeterministic choices, with only their range stated.
- Ecdsa.KGenerator: it requires n >= 2. For smaller n, `random.randint(1, n-1)` raises `ValueError`, and the model does not cover that error.
- Ecdsa.PrivateKeyGenerator: it requires n >= 2, for the same reason as `KGenerator`.
- Ecdsa.SignMessage: it requires n > 0. With n = 0 the source raises `ZeroDivisionError`. A negative n follows Python's floored `%`, which the model does not capture.
- SHA-256 (`hashlib.sha256`). It is the parameter `H`, which returns 32 bytes.
- `Ecdsa.name`. It returns the bound method and carries no logic.
- The curve name that the engine's constructor passes to tinyec.
- The conversion of a message to the integer `hash`. The source takes `hash` already computed.
- The str/bytes distinction and the final `str(..., 'utf-8')` conversion. Hex is a sequence of characters throughout.
- `binascii.Error` and the `ValueError` that `unhexlify` raises on a non-ASCII string are both the single error `MalformedHex`.
- The empty leaf list. The source recurses on it without end and ends in `RecursionError`; the model returns `EmptyTransactionList` instead.
- Merkle.MerkleCalculation: it requires a non-empty list, because the source does not terminate on an empty one.
- Determinism of `merkle_root`. It needs no separate lemma: its result and the new array contents are functions of the inputs, and the `modifies` clause says only the list changes.
- Timing side channels. The model cannot express them.

Three behaviours of the program that the model keeps as they are:

- Signing reports its failures as the integer codes 0 and 1.
- An empty leaf list is not rejected up front. The model gives the resulting failure its own error.
- A single hashed leaf's root is one double hash (`transaction_hash`), and the one-node reduction returns it unchanged (`Merkle.SingleLeafRoot`).
