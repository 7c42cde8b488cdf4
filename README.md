# A model of the spark-ectf subscription and decoding scheme

The system is a satellite-TV design for the eCTF 2025 competition. A host tool
(`design/ectf25_design`) creates subscriptions and encodes frames. An embedded
decoder (`decoder/src`) loads those subscriptions from flash and decodes each
frame. Keys are time-limited by a *power tower*:
- Each timestamp `t` picks a tower of modular powers over the primes above 1025, one prime per set bit of `t`.
- A subscription for `[start, end]` stores the intermediate towers at the positions `start`, `start + lowbit(start)`, and so on.
- That is enough to finish the tower of any timestamp in the window.
- A second tower over the mirrored time `2^64 - 1 - t` bounds the window from the other side.
- The xor of the two towers is the frame's *guard*.

The prototypes under `proofofconcept` try variants of the tower and exponentiation tricks.

The Dafny modules follow that structure:

| module | models |
|---|---|
| `PowMod` (powmod.dfy) | `powmod_impl` of `proofofconcept/powmod/powmod.c`: exponent splitting `b = x*x + y` with a depth-indexed split cache (a class over two sequences) |
| `Primes` (primes.dfy) | `get_primes_starting_with`, the prime table of the generator and the encoder |
| `Tower` (tower.dfy) | the high-to-low bitwise tower of `gen_subscription.py` and `proof3.py`: encoder, successor, intermediates, decoder and the decoding theorem |
| `TowerLow` (towerlow.dfy) | the commutative low-to-high variant of `proof2.py` |
| `TowerNibble` (towernibble.dfy) | the nibble-section variant of `proof4.py` |
| `Stones` (stones.dfy) | `stone`, `wind_totient`, the `stones` table and `wind_stones` of `proof.py` |
| `Crt` (crt.dfy) | the CRT (Garner) `powmod` of `exp.py` |
| `Encoder` (encoder.dfy) | `extended_gcd`, `modular_inverse`, `fletcher32`, the nested `wind_encoder` and `encode` of `encoder.py` |
| `GenSubscription` (gensub.dfy) | the hashed intermediates, the `pack_*` serialisers and the layout of `gen_subscription` |
| `Flash` (flash.dfy) | `flash::read_bytes`, copying whole 16-byte lines of a flash image |
| `Subscriptions` (subscription.dfy) | `subscription.rs`: listings, the `Subscription` class, intermediate addressing, `decode_side`, `decode` |
| `DecoderMain` (decoder.dfy) | `main.rs`: the channel table, channel slots, RSA-wrapped moduli and record loading |
| `Arith`, `Bits`, `Bytes`, `Dict`, `Wrappers` | powers and residues, bits of naturals, big/little-endian bytes, Python dicts as insertion-ordered entry lists, `Option` |

## Modelling conventions

- **Integers.**
  - Integers are unbounded naturals.
  - Timestamps are 64-bit, so every tower is stated for values below `2^64`.
  - Rust's `!t` on a `u64` is `Tower.Mirror(t) = 2^64 - 1 - t`.
- **Python.**
  - A `dict` is a sequence of entries in insertion order.
  - A Python exception (an `IndexError`, an `OverflowError` of `to_bytes`, a missing inverse) is `None`.
- **Rust.**
  - A panic (a failed `unwrap`, a slice out of range, reduction by a zero divisor) is `None` or `false`.
  - The dashu `ConstDivisor` is a positive natural modulus. `ConstDivisor::new` of 0 panics (`Subscriptions.NewDivisor` gives None), so a `Subscription`'s modulus is never 0.
- **Inputs.**
  - The flash image and the embedded `emergency.bin`, `moduli.bin` and `privates.bin` are byte-sequence parameters.
  - So is the `CHANNELS` build-time text.
  - `blake3` (`compress`) and `sha3_512` are parameters.
  - Primality is the trial-division predicate `Primes.IsPrime`.
- **Imperative code.**
  - The source's loops stay loops, and each method's `ensures` ties its result to a specification function.
  - The decoder's position tables are `array`s in a `Subscription` class that the load methods modify.
  - The split cache of `powmod_impl` is a class whose `Push` appends to both vectors.
- **The cache rule of `powmod_impl`.**
  - The cache test at `powmod.c:34` reuses an entry when `sqrts->size <= depth`, which reads an entry that was never stored.
  - The model uses the intended rule: reuse the entry at `depth` when there is one, otherwise compute the split and append it at index `depth`.
- **Where the prose and the code differ**, the model follows the code:
  - the encoder's nested `wind_encoder` returns inside its loop, so only bit 0 of the timestamp is used (`Encoder.WindEncoder`, `Encoder.EncoderIgnoresHigherBits`);
  - the decoder's layouts are incompatible with the generator's:
    - the generator's metadata page puts the channel at bytes 2..6 and positions at 6 and 518;
    - `get_subscriptions` reads start and end at 6..22;
    - `load_subscription` reads channel, start and end at 0..20 and positions at 22 and 534.
    - Each side is modelled with its own offsets, and `GenSubscription.SubscriptionHeader` states where the generator puts each field.
- **The check of `proof4.py`.** Line 86 overwrites the decoder's result with the value for `2^64 - target - 1` before the comparison at line 90. Here the model departs from the code: `TowerNibble.DecoderMatchesEncoder` proves the comparison the script evidently intends, using the result of line 85.

## Model

| member | source | states |
|---|---|---|
| PowMod.BitLengthBounds | proofofconcept/powmod/powmod.c:16-18 | the bit length of n is at least 1 (one digit for 0) and n lies in [2^(len-1), 2^len) |
| PowMod.BaseCaseIff | proofofconcept/powmod/powmod.c:30 | the primitive branch is taken exactly when b < 2^48 |
| PowMod.IsqrtCorrect | proofofconcept/powmod/powmod.c:38 | the square root used for the split is the floor of the square root |
| PowMod.SplitBounds | proofofconcept/powmod/powmod.c:38-40 | every split has x*x + y = b, b < (x+1)^2 and 0 <= y <= 2x |
| PowMod.SplitShrinks | proofofconcept/powmod/powmod.c:45-54 | above the threshold both sub-exponents x and y are strictly below b, so the recursion terminates |
| PowMod.Recombine | proofofconcept/powmod/powmod.c:60-61 | (a^x mod m)^x mod m times a^y mod m, reduced, is a^(x*x+y) mod m |
| PowMod.SplitCache.constructor | proofofconcept/powmod/powmod.c:51-52 | a fresh branch cache is empty and belongs to its top exponent |
| PowMod.SplitCache.Push | proofofconcept/powmod/powmod.c:41-42 | both vectors grow by exactly the new split |
| PowMod.CachedSplit | proofofconcept/powmod/powmod.c:34-43 | the returned split is the split of b; an existing entry at depth is reused unchanged, otherwise the split is appended at index depth; the cache stays valid |
| PowMod.PowModImpl | proofofconcept/powmod/powmod.c:29-73 | the result is exactly a^b mod m whatever valid cache it is given, and the cache only grows and stays valid; above the threshold the cache holds an entry at depth, and at or below it the cache is unchanged |
| PowMod.HighCalls | proofofconcept/powmod/powmod.c:45-46 | the two high calls at the depth below give (a^x mod m)^x mod m, keep the cache valid and only extend it |
| PowMod.PowModPlus | proofofconcept/powmod/powmod.c:29-73 | the top-level call of `powmod_impl` at depth 0 with an empty cache gives Some(a^b mod m), below m, and None exactly for a zero modulus (the division by zero of `mpz_powm`/`mpz_mod`) |
| Primes.GetPrimesStartingWith | design/ectf25_design/gen_subscription.py:15-22 | from an odd start the result is `amount` odd primes above start, strictly increasing, with no prime between start and the last one missing |
| Primes.OddPrimesAboveUnique | design/ectf25_design/gen_subscription.py:15-22 | two such lists of the same length are equal, so the result is the first `amount` primes above start |
| Primes.OddPrimeAbove | design/ectf25_design/gen_subscription.py:18-21 | above every n there is an odd prime, so the search loop ends |
| Tower.Mirror | design/ectf25_design/gen_subscription.py:107-109 | the mirrored time lies in 64-bit time and adds up with t to 2^64 - 1 |
| Tower.WindEncoder | design/ectf25_design/gen_subscription.py:24-29 | the result is the tower of target over root, from bit 63 down to bit 0, or None when a set bit has no exponent |
| Tower.WindRange | design/ectf25_design/gen_subscription.py:24-29 | with no set bit below 64 the root comes back unchanged; otherwise the tower is below the modulus |
| Tower.NextRequiredIntermediate | design/ectf25_design/gen_subscription.py:32-37 | the result is s plus its lowest set bit among bits 0..63, or s + 2^64 when there is none |
| Tower.SuccessorFacts | design/ectf25_design/gen_subscription.py:32-37 | the successor is above s, is 2^64 for s = 0, and for 0 < s < 2^64 has a strictly higher lowest set bit |
| Tower.ChainShape | design/ectf25_design/gen_subscription.py:40-47 | the keys start with start even past end, later keys are at most end, each key is the successor of the one before, and the successor of the last exceeds end |
| Tower.GetIntermediates | design/ectf25_design/gen_subscription.py:40-47 | the dict holds the chain's keys in insertion order, each with its tower, or None when a key has a set bit without an exponent |
| Tower.ClosestBelow | proofofconcept/proof3.py:56-66 | the chosen position is at most the target, is the initial one or strictly above it (so key 0 is never chosen), and is at least every entry scanned before the first position above target |
| Tower.WindDecoder | proofofconcept/proof3.py:56-73 | the result finishes the closest intermediate's tower with the bits set in target and clear in the closest position, from bit 63 down |
| Tower.ChainClosest | proofofconcept/proof3.py:56-66 | over a chain with 0 < start <= t <= end, the chosen key c is stored and c <= t < c + lowbit(c) |
| Tower.DecodeFromCarry | proofofconcept/proof3.py:68-73 | for c <= t < c + lowbit(c), finishing the tower of c with the bits of t outside c gives the tower of t |
| Tower.DecoderMatchesEncoder | proofofconcept/proof3.py:76-80 | for every 0 < start <= t <= end < 2^64, decoding from the stored intermediates reproduces the encoder's tower of t |
| Tower.ZeroStartIgnored | proofofconcept/proof3.py:58-66 | from start 0 the only key is 0 and the scan never takes it, which is why the theorem needs start > 0 |
| TowerLow.RiseClosedForm | proofofconcept/proof2.py:27-32 | the low-to-high tower is the root raised to the product of the selected exponents, modulo m |
| TowerLow.RiseBelow | proofofconcept/proof2.py:27-32 | once any selected bit is applied the tower is reduced below the modulus |
| TowerLow.WindEncoder | proofofconcept/proof2.py:27-32 | the result is the low-to-high tower of target, or None when a set bit has no exponent |
| TowerLow.SubsetDecode | proofofconcept/proof2.py:67-72 | when the bits of c are among those of t, the tower of c raised by the remaining exponents of t is the tower of t |
| TowerLow.GetIntermediates | proofofconcept/proof2.py:44-51 | the dict holds the same chain of keys as the bitwise generator, each with its low-to-high tower |
| TowerLow.WindDecoder | proofofconcept/proof2.py:55-72 | the result finishes the closest intermediate with the bits of target outside the closest position, from bit 0 up |
| TowerLow.DecoderMatchesEncoder | proofofconcept/proof2.py:74-79 | for every 0 < start <= t <= end < 2^64 the decoder reproduces the encoder's tower of t |
| TowerLow.PowersOfTwoChain | proofofconcept/proof2.py:24-25 | for the script's range [1, 2^64 - 1] the stored keys are exactly 2^0, ..., 2^63 |
| TowerNibble.Nibble | proofofconcept/proof4.py:31-32 | the masked and shifted section is a value below 16, the digit of n in base 16 |
| TowerNibble.WindEncoder | proofofconcept/proof4.py:28-35 | per section from 15 down to 0 the section's exponent is applied nibble-many times, or None when a nonzero section has no exponent |
| TowerNibble.NextRequiredIntermediate | proofofconcept/proof4.py:40-49 | the result is the input with its lowest nonzero section rounded up, and the input itself when all 16 sections are zero |
| TowerNibble.NibbleSuccessorRounds | proofofconcept/proof4.py:40-49 | for 0 < n < 2^64 the successor is strictly larger and a multiple of 16^(L+1), L the lowest nonzero section |
| TowerNibble.NibbleSuccessorStuck | proofofconcept/proof4.py:52-59 | with all sections zero, as for start 0, the successor is the position itself, so the loop would never end |
| TowerNibble.GetIntermediates | proofofconcept/proof4.py:52-59 | on the inputs where its loop ends, the dict holds the nibble chain's keys, each with its tower |
| TowerNibble.Distances | proofofconcept/proof4.py:79-81 | each section's repeat count is how far the target's nibble is above the closest position's, and none when it is not above |
| TowerNibble.WindDecoder | proofofconcept/proof4.py:63-82 | the result continues the closest intermediate by the per-section distances, from section 15 down |
| TowerNibble.NibbleChainClosest | proofofconcept/proof4.py:63-73 | over a nibble chain, the chosen key c is stored and c <= t < successor(c) |
| TowerNibble.NibbleDecode | proofofconcept/proof4.py:76-82 | for c <= t < successor(c), continuing the tower of c by the distances gives the tower of t |
| TowerNibble.DecoderMatchesEncoder | proofofconcept/proof4.py:84-90 | for every 0 < start <= t <= end < 2^64 decoding from the closest intermediate reproduces the encoder |
| Stones.Stone | proofofconcept/proof.py:22-27 | base unreduced for location 0, otherwise base^(2^location) mod t |
| Stones.WindTotient | proofofconcept/proof.py:29-41 | for distance > 0 the key raised to e^distance mod t, modulo the modulus; for distance 0 the key mod modulus |
| Stones.StonesTable | proofofconcept/proof.py:43-45 | 16 entries: the exponent itself, then e^(2^(4s)) mod t for s = 1..15 |
| Stones.WindStones | proofofconcept/proof.py:57-79 | the key raised to the product over set bits b < 64 of stones[b/4]^(2^(b%4)), or None for a table of fewer than 16 stones |
| Stones.WoundRange | proofofconcept/proof.py:61-79 | distance 0 gives the key back unreduced; otherwise the result is below the modulus |
| Stones.ProductMod | proofofconcept/proof.py:57-79 | the decoder's exponent over bits below hi is congruent modulo t to e^(d mod 2^hi) |
| Stones.StonesMatchTotient | proofofconcept/proof.py:51-85 | for 0 < d < 2^64 the decoder's exponent is congruent to the encoder's e^d mod t, so both give the same key when key^t = 1 modulo the modulus |
| Crt.PowModCrt | proofofconcept/exp.py:5-14 | the result is below the modulus, and None exactly for the gmpy2 failures (zero moduli, no inverse of q modulo p) |
| Crt.CrtResidues | proofofconcept/exp.py:9-14 | with modulus p*q the result agrees with a^(b mod (q-1)) modulo q and, when q is invertible modulo p, with a^(b mod (p-1)) modulo p |
| Crt.GarnerBound | proofofconcept/exp.py:12-14 | m2 + sub*q stays below p*q for residues m2 < q and sub < p |
| Crt.CrtUnique | proofofconcept/exp.py:8-14 | numbers that agree modulo p and modulo q agree modulo p*q when q is invertible modulo p |
| Crt.CrtCorrect | proofofconcept/exp.py:5-14 | under Fermat's little theorem for both primes, the CRT power is a^b mod p*q (section 5.1.2 of RFC 8017) |
| Encoder.ExtendedGcd | design/ectf25_design/encoder.py:15-32 | g divides a and b, and a*x + b*y = g |
| Encoder.EgcdStep | design/ectf25_design/encoder.py:29-32 | the recursive step's back-substitution keeps the Bezout identity and the common divisor |
| Encoder.GcdIsGreatest | design/ectf25_design/encoder.py:15-32 | every common divisor of a and b divides g, so g is the gcd |
| Encoder.ModularInverse | design/ectf25_design/encoder.py:34-49 | Some(r) with r < m and a*r = 1 mod m when gcd(a, m) = 1; None exactly when no inverse exists |
| Encoder.NoInverse | design/ectf25_design/encoder.py:45-47 | a gcd other than 1 leaves a without any inverse modulo m |
| Encoder.PrefixSums | design/ectf25_design/encoder.py:53 | len + 1 entries, entry i the sum of the first i code points modulo 65535 |
| Encoder.Fletcher32 | design/ectf25_design/encoder.py:51-54 | with b the running sums mod 65535, the low 16 bits are max(b) and the bits above are sum(b) |
| Encoder.ChecksumOverflow | design/ectf25_design/encoder.py:51-54 | a frame of 64 digits '9', which `int(frame)` accepts, gives a checksum of 2^32 or more, so the `to_bytes(4)` at line 125 raises |
| Encoder.WindEncoder | design/ectf25_design/encoder.py:106-111 | only bit 0 of target is looked at: root^exponents[0] mod m for odd target, root for even target, None for odd target without exponents |
| Encoder.EncoderIgnoresHigherBits | design/ectf25_design/encoder.py:106-111 | for target 2 the generator's tower differs from the encoder's step, which leaves the root unchanged |
| Encoder.Encode | design/ectf25_design/encoder.py:113-126 | None exactly when an exception is raised: no exponent for the odd one of t and 2^64-1-t, no inverse of the guard, a ciphertext of 2^512 or more, or a checksum of 2^32 or more; otherwise an 80-byte packet carrying channel and timestamp, then the frame value raised to the guard's inverse, then the checksum |
| Encoder.OddComplement | design/ectf25_design/encoder.py:116-118 | exactly one of t and 2^64-1-t is odd |
| Encoder.Packet | design/ectf25_design/encoder.py:126 | 80 bytes: LE channel in 0..4, LE timestamp in 4..12, ciphertext in 12..76, checksum in 76..80 |
| GenSubscription.Sort | design/ectf25_design/gen_subscription.py:57 | `sorted()` gives a sorted permutation |
| GenSubscription.SortedKeys | design/ectf25_design/gen_subscription.py:57 | the dict's keys in ascending order, the same multiset of keys |
| GenSubscription.ValuesInOrder | design/ectf25_design/gen_subscription.py:55-59 | for increasing keys, sorting changes nothing and the values come out in insertion order |
| GenSubscription.Hashed | design/ectf25_design/gen_subscription.py:49-53 | the same keys, each value v replaced by (v xor h) mod m |
| GenSubscription.HashUndone | design/ectf25_design/gen_subscription.py:52 | a second xor with h recovers v whenever v xor h is already below m |
| GenSubscription.HashedIncreasing | design/ectf25_design/gen_subscription.py:49-53 | hashing the values keeps the keys strictly increasing |
| GenSubscription.GetIntermediatesHashed | design/ectf25_design/gen_subscription.py:49-53 | the intermediates of the window with every value replaced in place by the hashed one, or None when a key lacks an exponent |
| GenSubscription.BlockAt | design/ectf25_design/gen_subscription.py:58-59 | block i of the packed values decodes to value i |
| GenSubscription.Padded | design/ectf25_design/gen_subscription.py:60-62 | the input followed by zeros up to n bytes, and the input alone when it is already that long |
| GenSubscription.PadWithZeros | design/ectf25_design/gen_subscription.py:60-62 | the padding loop appends zeros up to n bytes and nothing when the input is already that long |
| GenSubscription.PackIntermediates | design/ectf25_design/gen_subscription.py:55-63 | 128-byte big-endian values in ascending key order, zero-padded to 8192 bytes, or None when a value does not fit |
| GenSubscription.PackInterPositions | design/ectf25_design/gen_subscription.py:65-73 | 8-byte big-endian keys in ascending order, zero-padded to 512 bytes, or None for a key of 2^64 or more |
| GenSubscription.PackMetadata | design/ectf25_design/gen_subscription.py:75-84 | the metadata fields padded to 8192 bytes, or None when a field does not fit |
| GenSubscription.MetadataLayout | design/ectf25_design/gen_subscription.py:75-84 | counts in bytes 0 and 1, channel in 2..6, forward position i at 6+8i, backward at 518+8i, modulus in 1030..1158, start and end in 1158..1174 |
| GenSubscription.BuildSubscription | design/ectf25_design/gen_subscription.py:99-114 | for a given exponent list, the 24576 subscription bytes exactly when every step succeeds, otherwise None |
| GenSubscription.NotIndexed | design/ectf25_design/gen_subscription.py:26-28 | a position with a set bit in [n, 64) indexes past a list of n exponents |
| GenSubscription.GenSubscription | design/ectf25_design/gen_subscription.py:86-114 | with the first 16 odd primes above 1025 as exponents, the bytes or None exactly as for BuildSubscription; every window starting at 2^16 or later, or ending at least 2^16 before the end of time, gives None |
| GenSubscription.SixteenTooFew | design/ectf25_design/gen_subscription.py:102 | with 16 exponents one of the two chains of such a window has a position without an exponent |
| GenSubscription.ChainLength | design/ectf25_design/gen_subscription.py:40-47 | below 2^64 a chain has at most 64 positions, all below 2^64 |
| GenSubscription.ChainIncreasing | design/ectf25_design/gen_subscription.py:40-47 | the chain's dict has strictly increasing keys |
| GenSubscription.ForwardFacts | design/ectf25_design/gen_subscription.py:108 | the forward dict's sorted keys are the chain and its values are the towers of the chain |
| GenSubscription.BackwardFacts | design/ectf25_design/gen_subscription.py:109 | the backward dict's sorted keys are the mirrored chain and its values the hashed towers |
| GenSubscription.SubscriptionHeader | design/ectf25_design/gen_subscription.py:113-114 | where the metadata fields of a generated subscription lie, 24576 bytes in all |
| GenSubscription.SubscriptionValues | design/ectf25_design/gen_subscription.py:113-114 | forward tower i at 8192 + 128i and hashed backward tower i at 16384 + 128i |
| GenSubscription.BytesLayout | design/ectf25_design/gen_subscription.py:113-114 | the layout of the subscription bytes for any two dicts of at most 64 entries whose fields fit |
| GenSubscription.GeneratesWith64 | design/ectf25_design/gen_subscription.py:107-114 | with one exponent per bit, every window within 64-bit time, with a modulus and a channel that fit, is generated; from start 0 the stored forward root must also fit 128 bytes |
| GenSubscription.GenSubscriptionCorrected | design/ectf25_design/gen_subscription.py:86-114 | with the first 64 odd primes above 1025, the same result as BuildSubscription, and Some for every window within 64-bit time whose modulus and channel fit (and, from start 0, whose forward root fits 128 bytes) |
| Flash.ReadBytes | decoder/src/flash.rs:29-54 | the destination keeps its length, and stays unchanged when it is shorter than the requested length |
| Flash.ReadBytesReadable | decoder/src/flash.rs:35-51 | with every line readable, the first 16*(len/16) bytes become the flash bytes at frm and the rest is kept |
| Flash.ReadBytesUnreadable | decoder/src/flash.rs:44-47 | a read starting past the image copies nothing |
| Subscriptions.SlotHeader | decoder/src/subscription.rs:40-41 | the slot's 22-byte header buffer |
| Subscriptions.SlotStat | decoder/src/subscription.rs:42-47 | None when byte 0 is 0 or 0xFF, else a present listing with 32-bit channel and 64-bit start and end from their byte ranges |
| Subscriptions.GetSubscriptions | decoder/src/subscription.rs:37-50 | the listings of the used slots among 0..7, in slot order, at most 8, all present |
| Subscriptions.ListedSound | decoder/src/subscription.rs:39-48 | every listing is the listing of a used slot, at most one per slot |
| Subscriptions.ListedComplete | decoder/src/subscription.rs:39-48 | every used slot is listed, and listings keep slot order |
| Subscriptions.ListedPrefix | decoder/src/subscription.rs:39-48 | the listing of the first m slots is a prefix of the listing of the first n |
| Subscriptions.SlotStatAsRead | decoder/src/subscription.rs:41-47 | as written, only one 16-byte line is copied, so end keeps bytes 14..16 and its six low bytes are zero |
| Subscriptions.SlotStatCorrectedReads | decoder/src/subscription.rs:41-47 | reading two whole lines, the listing holds channel, start and end exactly as stored |
| Subscriptions.TrailingZeroesSpecial | decoder/src/subscription.rs:163-166 | 0 for 0; otherwise bit r is set and every bit below r is clear |
| Subscriptions.StepsFromZero | decoder/src/subscription.rs:127-139 | the tower loop ends with the compressed step of the lowest set bit, or 1 for target 0 |
| Subscriptions.ScanLength | decoder/src/subscription.rs:108-111 | the scanned prefix is at most target and the next position is above it |
| Subscriptions.ScanStops | decoder/src/subscription.rs:108-111 | the scan stops at the first position above target and not before |
| Subscriptions.FindClosest | decoder/src/subscription.rs:103-116 | the largest scanned position, at its first index, at most target, or position 0 at index 0 |
| Subscriptions.Subscription.constructor | decoder/src/subscription.rs:65-76 | modulus 1 and every position and field 0 |
| Subscriptions.Subscription.SetModulus | decoder/src/subscription.rs:78-80 | a positive modulus replaces the old one; 0 panics in `ConstDivisor::new` (false) and leaves it; nothing else changes, and the modulus stays positive |
| Subscriptions.Subscription.IntermediateOffset | decoder/src/subscription.rs:85-92 | 1280 + 16*pos for FORWARD and 1024 more for any other direction |
| Subscriptions.Subscription.GetIntermediate | decoder/src/subscription.rs:82-99 | 16 big-endian bytes from the emergency record when location is 0, otherwise from flash at the 32-bit address, None when the emergency slice panics |
| Subscriptions.Subscription.FlashIntermediate | decoder/src/subscription.rs:89-97 | a readable flash line gives the big-endian value of those 16 bytes |
| Subscriptions.Subscription.DecodeSide | decoder/src/subscription.rs:101-140 | 0 for a direction that is neither FORWARD nor BACKWARD, otherwise compress(target^PRIMES[i] mod n, i) for the lowest set bit i, or 1 for target 0; n is the subscription's modulus, positive by the class invariant |
| Subscriptions.Subscription.Decode | decoder/src/subscription.rs:153-161 | target^65537 mod n xor the guard, the xor of the two sides at t and !t; the modulus n is positive by the class invariant, so the reduction at line 160 never panics |
| Subscriptions.GuardCancels | decoder/src/subscription.rs:158-160 | xoring the guard again gives target^65537 mod n back |
| Subscriptions.DecodeRoundTrip | decoder/src/subscription.rs:153-161 | a frame value masked with the guard and raised to d decodes back to itself when x^(d*65537) = x mod n; this masking encoder is the one `decode` inverts, not `encoder.py`'s, which applies no xor and raises int(frame) to the guard's inverse |
| Subscriptions.OneSideOdd | decoder/src/subscription.rs:156 | exactly one of t and !t is odd |
| DecoderMain.Split | decoder/src/main.rs:310 | at least one field, none containing a comma |
| DecoderMain.JoinSplit | decoder/src/main.rs:310 | joining the fields with commas gives the text back |
| DecoderMain.SplitJoin | decoder/src/main.rs:310 | splitting comma-free fields joined with commas gives the fields back |
| DecoderMain.ParseU32 | decoder/src/main.rs:311 | a parsed value is below 2^32 and comes from an optional '+' and digits only |
| DecoderMain.ParseDecimal | decoder/src/main.rs:311 | every 32-bit value printed in decimal parses back to itself |
| DecoderMain.ChannelTable | decoder/src/main.rs:305-316 | None exactly for more than 9 fields or a field that does not parse; otherwise slot k holds field k and later slots 0 |
| DecoderMain.GetChannels | decoder/src/main.rs:305-316 | the loop over a 9-slot array computes the channel table |
| DecoderMain.FirstSlotOf | decoder/src/main.rs:324-330 | the first index holding x, or 0 when x does not occur |
| DecoderMain.LocInTable | decoder/src/main.rs:324-330 | the loop returns the first slot holding the channel, or 0 |
| DecoderMain.ChannelSlot | decoder/src/main.rs:322-331 | None exactly when the table panics, otherwise a slot below 9 |
| DecoderMain.GetLocForChannel | decoder/src/main.rs:322-331 | the smallest slot holding the channel, 0 when none does, None when the table panics |
| DecoderMain.EmergencySlot | decoder/src/main.rs:322-331 | with fewer than 9 channels, none of them 0, channel 0 maps to the first unused slot |
| DecoderMain.DecryptChannelModulus | decoder/src/main.rs:238-253 | c^d mod N, in (0, N), with N and d the 160-byte slices at 160*pos; None exactly when a slice is out of range, N is 0 or c^d mod N is 0 (the two `ConstDivisor::new` panics) |
| DecoderMain.DecryptEncrypted | decoder/src/main.rs:238-253 | decrypting m^e mod N returns m given the RSA key relation (section 5.1.2 of RFC 8017), and panics (None) for m = 0 |
| DecoderMain.ModulusAddress | decoder/src/main.rs:135 | slot i's wrapped modulus lies at 8192*i + 534 |
| DecoderMain.ModulusBufferReadable | decoder/src/main.rs:135-137 | for a readable slot, the shared buffer holds exactly that slot's 160 flash bytes |
| DecoderMain.LoadModuliFilled | decoder/src/main.rs:130-141 | after a fill with `ConstDivisor::new(fill)`: None for fill 0 or when one decryption panics; otherwise slots 0..7 hold the decrypted modulus of their buffer, slot 8 the fill, all positive |
| DecoderMain.LoadModuli | decoder/src/main.rs:131 | as written the table is filled with `ConstDivisor::new(0)`, which panics, so every load is None |
| DecoderMain.LoadModuliCorrected | decoder/src/main.rs:130-141 | filled with modulus 1: slots 0..7 hold the decrypted modulus of their buffer and slot 8 is 1; None exactly when one decryption panics |
| DecoderMain.PosAt | decoder/src/main.rs:212 | the 8-byte big-endian position fits 64 bits |
| DecoderMain.TableLength | decoder/src/main.rs:211-217 | the copied prefix is 1..64 entries long, with no zero after entry 0, and the entry after it is zero |
| DecoderMain.LoadPositions | decoder/src/main.rs:211-217 | entries before the first zero after entry 0 come from the buffer, later entries keep their values |
| DecoderMain.LoadSubscription | decoder/src/main.rs:193-233 | Some(false) and nothing changed for an uninitialised byte 20; otherwise location, channel, start, end and both tables come from the record, and the modulus is decrypted or None |
| DecoderMain.LoadEmergencySubscription | decoder/src/main.rs:254-296 | location 0 and the channel; a non-zero channel changes nothing else; channel 0 loads the fields and decrypts with channel 0's slot; false on a panic |
| DecoderMain.FlashRecordAsWritten | decoder/src/main.rs:191-196 | as written, the 2048-byte buffer is shorter than SUB_SIZE, so it stays zero and the record is never accepted |
| DecoderMain.LoadSubscriptionFromFlash | decoder/src/main.rs:172-196 | as written, every flash load gives false and changes nothing |
| DecoderMain.FlashRecordCorrected | decoder/src/main.rs:191 | the intended read of the channel's own record, in whole 16-byte lines |
| DecoderMain.FlashRecordCorrectedReads | decoder/src/main.rs:191-196 | the corrected buffer holds the record's bytes, accepted exactly when its byte 20 is initialised |
| DecoderMain.LoadSubscriptionCorrected | decoder/src/main.rs:191-207 | with the corrected read, acceptance follows the record's byte 20 and channel, start and end come from the record |

## Left out

- The Python glue of powmod.c (lines 77-153) is not part of this model: it does not compile. `PowMod.PowModPlus` stands for the top-level call that glue would make. So is GMP and vector memory management, including the shallow copies cleared at lines 64-68.
- PowMod.PowModImpl: follows the intended cache rule, not the literal `sqrts->size <= depth` test of line 34, which reads an entry that was never stored.
- `mpz_sqrt`, `mpz_powm`, `mpz_mod`, `gmpy2.powmod` and dashu's modular power are mathematical functions: `Isqrt` and `Pow(a, b) % m`.
- Primality (sympy `isprime`) is the trial-division predicate `Primes.IsPrime`. There is no proof that the 64 literals of `PRIMES` are the first 64 primes above 1025: checking 64 numbers by trial division is beyond the verifier's budget here.
- `blake3` in `compress` and `sha3_512` of the device id are function or value parameters.
- Encoder.Encode: the frame is a str of code points and `frameValue` stands for `int(frame)`; the channel's forward root, backward root and modulus are given. The program as written raises on paths this does not model. `int(frame)` raises ValueError for a frame that is not a decimal literal. For the bytes frame the framework passes (line 96, line 147), `fletcher32`'s `ord` raises TypeError on every non-empty frame. `self.secrets[channel]` (lines 113-115) looks up an int in a JSON object, whose keys are strings, and raises KeyError.
- Subscriptions.DecodeRoundTrip: the encoder it assumes (xor with the guard, then raise to d) is the one `decode` inverts. The program's `encode` (encoder.py:123) applies no xor and raises `int(frame)` to the guard's inverse, so no lemma relates the program's own encode and decode.
- Crt.CrtCorrect: Fermat's little theorem for the two primes is a hypothesis, not proved.
- Subscriptions.DecodeRoundTrip and DecoderMain.DecryptEncrypted: the RSA key relation `x^(e*d) = x mod N` is a hypothesis.
- Console output (`write_console`, `print`), timing, and the command-line `main`/`parse_args` functions are left out.
- Key generation in `gen_secrets.py`, `build.py`, `anti-piracy.py`, `setup.py` and JSON parsing of the secrets file are left out.
- The decoder's `fn main`, `test`, the panic handler and `load_subscriptions` (a loop over `load_subscription`) are left out. So are hardware initialisation, the TRNG and delays.
- `flash.check_address` is the boolean parameter `addressOk`. The pointer-alignment check inside `read_bytes` is left out.
- Subscriptions.Subscription.DecodeSide: the intermediate fetched at line 119 is never used by the result, so the model does not fetch it. This also drops that fetch's panic: for location 0 the emergency slice at line 86 panics when the record is shorter than the intermediate's offset plus 16, and the model returns the side's value there instead.
- The dashu crate is not part of this model. Its `ConstDivisor::new` is taken to panic on a zero value, as its documentation states; every other operation on it is arithmetic modulo a positive natural.
- Rust integer widths: timestamps below 2^64 are required where the source's type is `u64`. The 32-bit `u32` cast of a flash address is written out as `% 2^32`.
- `spark-decoder` is not part of this model: it is a diverged copy that does not build. Nor are the `examples/*.rs` board demos.
- TowerNibble.GetIntermediates: modelled only for the inputs on which its loop ends, `start > end` or `0 < start` with `end < 2^64`. NibbleSuccessorStuck shows why start 0 never ends.

## Findings

| source | as written | input that shows it | evidently intended | confidence | as-written member | corrected member |
|---|---|---|---|---|---|---|
| design/ectf25_design/gen_subscription.py:102 | the tower is built over `get_primes_starting_with(1025, 16)`, 16 exponents for 64 timestamp bits | any window with start >= 2^16, e.g. start = 2^16, end = 2^16: position 2^16 has bit 16 set and `exponents[16]` raises IndexError | 64 exponents, as encoder.py line 77 and the decoder's `PRIMES` use | not executed | GenSubscription.GenSubscription | GenSubscription.GenSubscriptionCorrected |
| decoder/src/main.rs:191 | `read_bytes` of SUB_SIZE = 2326 bytes into a 2048-byte cache, always at the first slot | any flash image: `dst.len() < len` returns LowSpace, the cache stays zero, byte 20 is 0 and `load_subscription` returns false | read the channel's own record into a buffer of at least SUB_SIZE bytes | not executed | DecoderMain.FlashRecordAsWritten | DecoderMain.FlashRecordCorrectedReads |
| decoder/src/main.rs:131 | `load_moduli` fills its table with `ConstDivisor::new(UBig::from(0))` before reading anything, and `main` calls it at line 106 | every call: `ConstDivisor::new` panics on a zero divisor | a fill that is a valid divisor (modulus 1, as `Subscription::new` uses at subscription.rs:67), then the eight decrypted moduli | not executed; depends on dashu's documented panic for a zero divisor | DecoderMain.LoadModuli | DecoderMain.LoadModuliCorrected |
| decoder/src/subscription.rs:41 | `read_bytes(..., &mut data, 22)` copies `22 / 16` = 1 whole line | a slot whose end timestamp is 1: bytes 16..22 stay zero and the listing's end reads 0 | read two whole lines so that all 22 header bytes arrive | not executed | Subscriptions.SlotStatAsRead | Subscriptions.SlotStatCorrectedReads |
