# LCSAS recovery core in Dafny

LCSAS keeps backups on optical discs and ships a recovery toolchain that has to work decades later:
C89 programs that repair damaged disc images, rebuild a password from printed share cards, and restore
a restic repository from packs spread over many discs, plus a Python packer that decides what goes on
which disc. This project models the parts of that code where a mistake would lose data, and proves
what they promise.

Verify everything with `dafny verify dfyconfig.toml` (Dafny 4.11).

The main results, by component:

- **Reed-Solomon repair** (`Bits` to `Rs03Repair`). The log tables are the field GF(2^8) modulo 0x187,
  the code is MDS, and the decoder (Horner syndromes, erasure-seeded Berlekamp-Massey, Chien search,
  Forney) returns exactly the codeword whenever erasures + 2 * errors <= nroots. On images: unflagged
  sectors are never touched, flagged damage is undone byte for byte, augmented images parse and verify
  back, and verify followed by fix restores any damage the checksums see. For words out of reach, too,
  result and symbols are decided: success means a codeword exactly when the locator's degree is its
  register length. The augmented image of given data is unique.
- **Key shares** (`Gf1024`, `Rs1024*`, `Radix`, `Slip39*`). RS1024 catches every error inside three
  consecutive words, and any three wrong words among up to 1023; mnemonics and valid shares are in
  bijection; log-table interpolation is Lagrange interpolation; recovery gives a secret exactly when the
  cards lie on a sharing whose digests match; and it returns the dealt secret for every hand of cards
  that is enough, in any order, with repeats and surplus.
- **Poly1305** (`Poly1305`). Radix-2^26 limbs compute the polynomial MAC of section 2.5 of RFC 8439 for
  every message, within 32- and 64-bit words.
- **JSON** (`Json*`). The tokenizer writes the pre-order token forest of the recognized tree, is stable
  in the buffer size, accepts exactly the spelled-out values of at most 64 levels, and `obj_get` finds the
  first equal key.
- **Restore, cache, index** (`RestoreFile`, `RestoreRuns`, `PackCache`, `BlobIndex`). Over any history of
  killed, failed and resumed runs a file of the right size has the right content, exactly when nodes of
  one inode number are compatible; a cached pack is always whole; the sorted index agrees with a scan of
  the live index files.
- **scrypt and packing** (`Scrypt`, `ScryptMix`, `BinPack`). The cost limits are exact and overflow-free,
  SMix computes RFC 7914's ROMix inside its buffers; first-fit-decreasing conserves and fills.

Conventions. A byte is a natural number below 256 and exclusive-or is defined on its bits. Code that
updates arrays or structures is a method proved against a function; error returns are `Option` values
or the original's negative codes. HMAC, PBKDF2, the Salsa20/8 core and the padding-sector text are
parameters of which only lengths are assumed. A device is a function that says which of its requests fail,
and a ghost trail records every intermediate state. Where a promise holds only under a
condition, the condition is proved to be exact and failing inputs are given (`ResumeSound`, `ProgressKept`,
`ParseRoundTrip`, `FullLoadExact`, `DecodedCodeword`, `PartSafeExactly`, `DrainDisc`).

Where comments and code differ the code is modelled: rs03.c:17 speaks of first root 0, the code uses 112;
`rs03_fix` counts a failed column only when its first byte fails; `rs03_verify` flags data layers only.
rs03.h:128-136 promises that result 0 of `rs03_fix` means every codeword was corrected. That is not so:
`ZeroImageSpoiled` gives an image whose flagged bytes come back wrong, `FailureNotCounted` one whose repair
stops early, `SuccessWithoutCodeword` one that is accepted with two or more roots to spare, all with result
0; `Fix`, `FullLoadExact` and `DecodedCodeword` say exactly when this happens.

## Model

| member | source | states |
|---|---|---|
| GfTables.GfInit | recovery/src/lcsas-ecc/gf256.c:15-44 | The table loop yields exactly the powers of 2 modulo 0x187, every nonzero byte once, index 255 for zero |
| GfOrder.OrderExact | recovery/src/lcsas-ecc/gf256.c:24-34 | No positive power below 255 of the generator (2 modulo 0x187, 3 modulo 0x11B) is 1 |
| GfOrder.ExpPeriod | recovery/src/lcsas-ecc/gf256.c:24-34 | Powers of the generator depend on the exponent modulo 255 only, so its order is exactly 255 |
| GfOrder.ExpInjective | recovery/src/lcsas-ecc/gf256.c:24-34 | Different exponents below 255 give different field elements |
| GfOrder.NoZeroDivisors | recovery/src/lcsas-ecc/gf256.c:56-67 | A product of bytes is zero only if a factor is |
| Gf256.MulAssoc | recovery/src/lcsas-ecc/gf256.c:56-67 | The carry-less product is associative, for every modulus x^8 + m |
| Gf256.MulComm | recovery/src/lcsas-ecc/gf256.c:56-67 | The carry-less product is commutative, for every modulus |
| Gf256.MulAddRight | recovery/src/lcsas-ecc/gf256.c:56-67 | The carry-less product distributes over exclusive-or, for every modulus |
| GfTables.GfMul | recovery/src/lcsas-ecc/gf256.c:56-67 | The log-table product is the carry-less product modulo 0x187, zeros included |
| GfTables.GfDiv | recovery/src/lcsas-ecc/gf256.c:69-80 | The log-table quotient times the divisor is the dividend; zero operands give zero |
| GfTables.GfInv | recovery/src/lcsas-ecc/gf256.c:82-93 | The log-table inverse times its argument is 1; zero gives zero |
| GfTables.ModFm | recovery/src/lcsas-ecc/rs03.c:324-330 | Repeated subtraction is the remainder modulo 255 |
| RsCode.CodewordUnique | recovery/src/lcsas-ecc/rs03.c:355-381 | Two 255-symbol words with vanishing syndromes that agree outside at most nroots places are equal (MDS) |
| RsCode.WrongInside | recovery/src/lcsas-ecc/rs03.c:870-888 | Different codewords that agree outside nroots places and at most nroots others differ in one of the former |
| RsCode.WrongEverywhere | recovery/src/lcsas-ecc/rs03.c:870-888 | Codewords that differ in exactly one place outside nroots others differ in all of those |
| RsCode.ParityExists | recovery/src/lcsas-ecc/rs03.c:805-824 | Any values outside nroots places extend to a codeword |
| RsCode.SyndromeOfDamage | recovery/src/lcsas-ecc/rs03.c:355-371 | Syndromes of a damaged codeword are the power sums of its error values |
| RsDecode.Syndromes | recovery/src/lcsas-ecc/rs03.c:355-371 | Horner on log tables computes the syndromes with first root 112 and primitive element 11 |
| RsDecode.ErasureLocator | recovery/src/lcsas-ecc/rs03.c:383-400 | The in-place loop builds the product of (1 + X x) over the erased layers |
| BerlekampMassey.StepZero | recovery/src/lcsas-ecc/rs03.c:421-426 | For any syndromes, a zero discrepancy keeps the register invariant when B is shifted |
| BerlekampMassey.StepKeepLength | recovery/src/lcsas-ecc/rs03.c:427-436 | For any syndromes, a correction without growth keeps the register invariant |
| BerlekampMassey.StepGrow | recovery/src/lcsas-ecc/rs03.c:437-443 | For any syndromes, a correction with growth keeps the register invariant, for the new length r + nerased - el |
| BerlekampMassey.Finished | recovery/src/lcsas-ecc/rs03.c:406-454 | For damage within reach the final polynomial is the locator of all erased and erroneous layers |
| BerlekampMassey.RunKeeps | recovery/src/lcsas-ecc/rs03.c:408-454 | After any number of rounds on any syndromes the locator vanishes on the erasures and annihilates the syndromes from the register length on |
| BerlekampMassey.ShortestRegister | recovery/src/lcsas-ecc/rs03.c:408-454 | If the syndromes come from damage on some places that include the erasures, the register is never longer than there are places |
| RsDecode.ExtendLocator | recovery/src/lcsas-ecc/rs03.c:402-454 | The Berlekamp-Massey loop on index tables ends, for any syndromes, with the locator of the rounds run on values |
| RsDecode.ChienSearch | recovery/src/lcsas-ecc/rs03.c:465-487 | Lists exactly the roots found before deg(lambda) of them, each with the layer stepped by 116 = 11^-1 mod 255 |
| RsCorrect.SearchExact | recovery/src/lcsas-ecc/rs03.c:465-492 | If the locator is that of some layers, the roots found are exactly these layers |
| RsCorrect.SearchDecides | recovery/src/lcsas-ecc/rs03.c:465-492 | The search finds as many roots as the degree if and only if the polynomial is the locator of distinct layers |
| RsDecode.Evaluator | recovery/src/lcsas-ecc/rs03.c:494-504 | Computes the low coefficients of syndrome times locator |
| RsAlgebra.KeyEquation | recovery/src/lcsas-ecc/rs03.c:494-504 | Syndrome series times locator is the evaluator polynomial of degree below the number of damaged places |
| RsCorrect.ForneyExact | recovery/src/lcsas-ecc/rs03.c:506-534 | At every layer of the locator the denominator is not zero and the quotient is the difference of the symbol received and the one to come, whatever the word |
| RsSpare.SpareValue | recovery/src/lcsas-ecc/rs03.c:410-419 | With one root to spare the discrepancy is the error outside the erased layers times a nonzero factor of its layer |
| RsSpare.SpareZero | recovery/src/lcsas-ecc/rs03.c:410-426 | The discrepancy vanishes exactly on words that agree with a codeword outside the erased layers |
| RsSpare.RepeatedRoot | recovery/src/lcsas-ecc/rs03.c:489-492 | A discrepancy at an erased place gives a polynomial that is the locator of no layers |
| RsSpare.SpareDecides | recovery/src/lcsas-ecc/rs03.c:332-537 | With one root to spare, for every word: -1 and no change if the discrepancy is at an erased place, otherwise 0 and a codeword that agrees outside the erased layers and the one layer it points to |
| RsRegister.DecodedExact | recovery/src/lcsas-ecc/rs03.c:465-536 | If the locator found is that of layers p, the decoded word is the only one that agrees outside p and has as many vanishing syndromes as there are layers |
| RsRegister.DecodedCodeword | recovery/src/lcsas-ecc/rs03.c:408-536 | For every word: the decoded word is a codeword if and only if the degree of the locator found is its register length |
| RsRegister.WithinReach | recovery/src/lcsas-ecc/rs03.c:332-537 | Every word within erasures + 2 * errors <= nroots of a codeword is decoded to it |
| RsBeyond.AcceptedUncorrected | recovery/src/lcsas-ecc/rs03.c:437-449 | With two or more roots to spare, a word whose erasure locator misses the first spare syndrome and no other is accepted without becoming a codeword |
| RsBeyond.UncorrectedExists | recovery/src/lcsas-ecc/rs03.c:437-449 | Such words exist for every set of erased layers that leaves two or more roots |
| RsBeyond.LoneSyndrome | recovery/src/lcsas-ecc/rs03.c:437-449 | The concrete case: one erased layer and only the first syndrome not zero end with 0 and no codeword |
| RsCorrect.BuildLocator | recovery/src/lcsas-ecc/rs03.c:383-463 | Erasure locator, iteration and degree scan give the register locator of the word and its degree |
| RsCorrect.DecodeCodeword | recovery/src/lcsas-ecc/rs03.c:332-537 | For every word: 0 exactly when the locator found is that of distinct layers, and then the symbols are the decoded word; otherwise -1 and no change; after 0 the symbols are a codeword if and only if the locator degree is the register length; words within reach give exactly their codeword; nothing erased gives 0 and more erased than roots -1, without change |
| Rs03Layout.SectorIndexInjective | recovery/src/lcsas-ecc/rs03.c:112-123 | Different (layer, position) pairs have different sectors |
| Rs03Layout.SectorIndexOnto | recovery/src/lcsas-ecc/rs03.c:112-123 | Every sector has a (layer, position) pair |
| Rs03Fix.Fix | recovery/src/lcsas-ecc/rs03.c:832-893 | A short image gives -1 unchanged. For any other image every byte and the result are decided: positions without flags or with more than nroots stay; others are rewritten in their flagged sectors by the decoded codewords up to the first byte offset that fails; the result counts the overloaded positions and those that fail at offset 0. Positions within reach of an augmented image get its bytes back |
| Rs03Fix.FullLoadExact | recovery/src/lcsas-ecc/rs03.c:862-888 | At a position with nroots flags and at most nroots wrong unflagged layers, the flagged bytes come back if and only if no unflagged byte is wrong; with exactly one wrong, every flagged byte comes back wrong |
| Rs03Limits.SilentErrorSpreads | recovery/src/lcsas-ecc/rs03.h:128-136 | One wrong unflagged byte under full flags: the repair reports 0 and every flagged byte of that codeword is wrong |
| Rs03Limits.ZeroImageSpoiled | recovery/src/lcsas-ecc/rs03.h:128-136 | The concrete case in every layout: zeros, first byte 1, all parity flagged |
| Rs03Limits.FailureNotCounted | recovery/src/lcsas-ecc/rs03.c:877-883 | In every layout with two or more roots, a concrete image with a failing codeword at byte offset 1: the repair reports 0 and leaves a flagged byte at offset 2 damaged that alone was within reach |
| Rs03Limits.SuccessWithoutCodeword | recovery/src/lcsas-ecc/rs03.h:128-136 | With two or more roots to spare at the first position: an image for which the repair reports 0 and the flagged codeword is none |
| Rs03Limits.MissInputExists | recovery/src/lcsas-ecc/rs03.h:128-136 | Such an image exists for all such flags in every layout |
| Rs03Fix.FixRestoresImage | recovery/src/lcsas-ecc/rs03.c:844-892 | Damage confined to flagged sectors, at most nroots per position, is undone byte for byte with result 0 |
| Crc32.CrcInit | recovery/src/lcsas-ecc/rs03.c:76-95 | Table entry n is eight bit-serial CRC steps on n |
| Crc32.Checksum | recovery/src/lcsas-ecc/rs03.c:97-108 | The table-driven loop equals the bit-serial CRC-32 register without final inversion |
| Rs03Image.Parse | recovery/src/lcsas-ecc/rs03.c:125-188 | Takes the first sector with cookie and method, and only a consistent layout that puts the header there |
| Rs03Image.SlotsDisjoint | recovery/src/lcsas-ecc/rs03.c:212-222 | Chain-back checksum slots of different data sectors never overlap |
| Rs03Image.SlotInCrcLayer | recovery/src/lcsas-ecc/rs03.c:212-222 | Every checksum slot lies in the CRC layer |
| Rs03Image.ChecksumElsewhere | recovery/src/lcsas-ecc/rs03.c:196-222 | A checksum is the word of its layer in the checksum sector one position back, another codeword than its sector when there is more than one position |
| Rs03Image.Verify | recovery/src/lcsas-ecc/rs03.c:224-287 | Flags exactly the data-layer sectors that are cut off, have no readable checksum or disagree with it, and counts them |
| Rs03Medium.CalcLayoutSound | recovery/src/lcsas-ecc/rs03.c:605-658 | A chosen layout is consistent, has at least 8 roots, and both header sectors fit before the CRC layer |
| Rs03Medium.CalcLayoutExactly | recovery/src/lcsas-ecc/rs03.c:605-658 | A layout exists exactly for 1 to 246 * 236877 - 2 data sectors |
| Rs03Medium.CapacitySmallest | recovery/src/lcsas-ecc/rs03.c:614-633 | The ladder picks the smallest medium with at least 8 roots |
| Rs03Medium.FewestLayers | recovery/src/lcsas-ecc/rs03.c:635-646 | Layers are as long as the medium allows, and ndata is the least count from 85 whose data layers hold the data and both header sectors |
| Rs03Augment.HeaderParses | recovery/src/lcsas-ecc/rs03.c:673-699 | An image with the written header at its data end parses there to the layout it was written from |
| Rs03Augment.HeaderChecksum | recovery/src/lcsas-ecc/rs03.c:689-698 | Bytes 96 to 99 of the header are the checksum of the header with the placeholder in them |
| Rs03Augment.ParityImageAugmented | recovery/src/lcsas-ecc/rs03.c:805-824 | Filling the parity layers makes every column a codeword and changes nothing else |
| Rs03Augment.Augment | recovery/src/lcsas-ecc/rs03.c:752-830 | Fails with -1 exactly when the ladder has no room; otherwise all bytes before the checksum layer are the data filled up with zeros, the header and the padding sectors, every checksum is right, the rest of the checksum layer is zero, and every column is a codeword |
| Rs03Unique.CompleteUnique | recovery/src/lcsas-ecc/rs03.c:778-820 | These statements leave one image only: two of the same data are equal byte for byte |
| Rs03Augment.ParseRoundTrip | recovery/src/lcsas-ecc/rs03.c:125-188 | An augmented image parses back to the layout chosen if and only if no sector of the data, filled up with zeros, begins like a header |
| Rs03Augment.OwnHeaderBreaks | recovery/src/lcsas-ecc/rs03.c:138-160 | A data sector that carries cookie and method, and the image augmented from it does not parse back |
| Rs03Augment.VerifyRoundTrip | recovery/src/lcsas-ecc/rs03.c:224-287 | An augmented image verifies with zero damage |
| Rs03Repair.FlagsAreDamage | recovery/src/lcsas-ecc/rs03.c:238-281 | When damage changes checksums and stays in data layers, the flags are exactly the damaged sectors |
| Rs03Repair.DataRestored | recovery/src/lcsas-ecc/rs03.c:844-892 | When every damaged data sector is flagged and every position is within reach, all data sectors come back, whatever happened to the checksum and parity layers |
| Rs03Repair.VerifyAndFix | recovery/src/lcsas-ecc/rs03.c:224-287 | Verify then repair: the data comes back under that condition; damage to data sectors alone, each with another checksum and in at most nroots layers per position, is undone byte for byte with result 0 |
| Poly1305.Mac | recovery/src/lcsas-restore/poly1305.c:30-190 | The limb code returns the 16 bytes of ((Horner over padded blocks mod 2^130 - 5) + s) mod 2^128, for every key and message |
| Poly1305.EvaluateIsSum | recovery/src/lcsas-restore/poly1305.c:76-125 | Horner over the blocks is the sum of padded blocks times powers of r, modulo 2^130 - 5 |
| Poly1305.TagIsPolynomial | recovery/src/lcsas-restore/poly1305.c:30-172 | The tag is that block sum plus s, modulo 2^128 |
| Poly1305.KeyLimbsAreClamped | recovery/src/lcsas-restore/poly1305.c:57-67 | Masking the five key limbs is clamping the key words and splitting them |
| Poly1305.KeyValue | recovery/src/lcsas-restore/poly1305.c:57-67 | The masked limbs have the value of the clamped key |
| Poly1305.BuildBlock | recovery/src/lcsas-restore/poly1305.c:78-85 | The padded block is the value of the message bytes with the length bit appended |
| Poly1305.ColumnsValue | recovery/src/lcsas-restore/poly1305.c:103-108 | The five product columns are the product modulo 2^130 - 5 |
| Poly1305.ColumnBounds | recovery/src/lcsas-restore/poly1305.c:103-108 | Every product column fits 64 bits |
| Poly1305.CarryColumns | recovery/src/lcsas-restore/poly1305.c:110-121 | The carry chain keeps the value up to a multiple of 2^130 - 5 and leaves limbs small enough for the next block; assertions in its body bound every carry by 32 bits and every sum by 64 |
| Poly1305.MulReduce | recovery/src/lcsas-restore/poly1305.c:103-121 | One block step multiplies by r modulo 2^130 - 5 |
| Poly1305.FinalCarry | recovery/src/lcsas-restore/poly1305.c:127-132 | After the final carries the value is unchanged modulo 2^130 - 5 and all limbs are below 2^26 |
| Poly1305.Subtract | recovery/src/lcsas-restore/poly1305.c:134-151 | One conditional subtraction gives the least residue |
| Poly1305.Pack | recovery/src/lcsas-restore/poly1305.c:153-162 | The four words are the low 128 bits of the limbs |
| Poly1305.AddKey | recovery/src/lcsas-restore/poly1305.c:164-172 | The word-wise addition of s is addition modulo 2^128 |
| Rs1024.Polymod | recovery/src/lcsas-keyshare/slip39.c:81-96 | The shift, mask and generator loop is the checksum step folded over the words |
| Rs1024.StepLinear | recovery/src/lcsas-keyshare/slip39.c:87-94 | A checksum step is linear over exclusive-or |
| Rs1024.StepInjective | recovery/src/lcsas-keyshare/slip39.c:87-94 | A checksum step is injective on 30-bit states |
| Rs1024.GenBit | recovery/src/lcsas-keyshare/slip39.c:71-74 | The low ten bits of the generators are x^6 times the powers of x in GF(1024) |
| Rs1024.RunConcat | recovery/src/lcsas-keyshare/slip39.c:118-136 | Folding the customization string first equals folding the concatenation |
| Rs1024.BurstDetected | recovery/src/lcsas-keyshare/slip39.c:81-96 | Mnemonics of any length that differ only inside three consecutive words end in different states |
| Rs1024.DamageRefused | recovery/src/lcsas-keyshare/slip39.c:104-138 | A valid mnemonic damaged inside three consecutive words is refused, for one customization string |
| Gf1024.OrderExact | recovery/src/lcsas-keyshare/slip39.c:67-74 | No positive power of x below 1023 is 1 in GF(1024) modulo x^10 + x^3 + 1 |
| Gf1024.NoZeroDivisors | recovery/src/lcsas-keyshare/slip39.c:67-74 | A product in GF(1024) is zero only if a factor is |
| Rs1024Distance.GenTriple | recovery/src/lcsas-keyshare/slip39.c:71-74 | All thirty bits of each generator: x^i times the coefficients 14, 56 and 64 |
| Rs1024Distance.Roots | recovery/src/lcsas-keyshare/slip39.c:71-74 | The polynomial with these coefficients has the roots x, x^2 and x^3 |
| Rs1024Distance.StepAt | recovery/src/lcsas-keyshare/slip39.c:87-94 | A checksum step multiplies the value of the state at a root by the root and adds the word |
| Rs1024Distance.ThreeWrongWords | recovery/src/lcsas-keyshare/slip39.c:81-96 | Up to 1023 words that differ in at most three places, anywhere, end in different states |
| Rs1024Distance.WrongWordsRefused | recovery/src/lcsas-keyshare/slip39.c:104-138 | A valid mnemonic with up to three wrong words anywhere is refused, for one customization string |
| Rs1024.ChecksumExact | src/lcsas/keyshare/slip39.py:147-150 | Appended words make a valid mnemonic if and only if they are the created checksum |
| Rs1024.Rs1024Verify | recovery/src/lcsas-keyshare/slip39.c:104-138 | Accepts exactly when customization string and words fold to 1 |
| Slip39Share.Unpack | recovery/src/lcsas-keyshare/slip39.c:618-648 | The bit loop succeeds exactly on words with at most eight zero padding bits, and the bytes are the same big-endian number; the leftover check cannot fail |
| Slip39Share.PackUnpacked | src/lcsas/keyshare/slip39.py:466-474 | Packing the bytes gives back the words; their number is even and at least 16 |
| Slip39Share.PackWellPadded | src/lcsas/keyshare/slip39.py:466-474 | Packing an even number of bytes gives words the parser accepts, with the same number |
| Slip39Share.MetadataExact | recovery/src/lcsas-keyshare/slip39.c:585-603 | The bit fields of the first four words are the share parameters if and only if those words encode them |
| Slip39Share.ParseShare | recovery/src/lcsas-keyshare/slip39.c:551-659 | Succeeds exactly on the mnemonics of valid shares, with that share |
| Slip39Share.CardUnique | recovery/src/lcsas-keyshare/slip39.c:551-659 | A mnemonic determines its share |
| Slip39Gf.ShareGfInit | recovery/src/lcsas-keyshare/slip39.c:289-303 | The table loop yields exactly the powers of 3 modulo 0x11B and their logarithms |
| Slip39Gf.BasisExponent | recovery/src/lcsas-keyshare/slip39.c:342-358 | The normalized exponent is the logarithm of the Lagrange coefficient |
| Slip39Gf.InterpolantPasses | recovery/src/lcsas-keyshare/slip39.c:318-368 | The interpolating polynomial passes through every share |
| Slip39Gf.InterpolantUnique | recovery/src/lcsas-keyshare/slip39.c:318-368 | Shares of a polynomial of degree below their number determine that polynomial |
| Slip39Gf.Interpolate | recovery/src/lcsas-keyshare/slip39.c:318-368 | Fails exactly on unequal lengths or repeated points; otherwise every byte is the value of the interpolating polynomial at x |
| Slip39Secret.SplitShares | src/lcsas/keyshare/slip39.py:283-314 | Random shares, digest and secret determine a sharing of the secret that the random shares belong to |
| Slip39Secret.LevelShares | src/lcsas/keyshare/slip39.py:283-314 | Every split of one level is a sharing; at threshold 1 every share is the secret itself |
| Slip39Secret.RecoverSecret | recovery/src/lcsas-keyshare/slip39.c:386-425 | Threshold 1 gives the first share; otherwise x if and only if the shares lie at different points on polynomials with as many coefficients, of value x at 255 and with the digest of x at 254 |
| Slip39Secret.AnyThresholdShares | recovery/src/lcsas-keyshare/slip39.c:386-429 | Any threshold-sized set of distinct shares of a sharing gives its secret |
| Slip39Feistel.FeistelDecrypt | recovery/src/lcsas-keyshare/slip39.c:480-528 | Refuses odd and empty lengths; otherwise runs rounds 3, 2, 1, 0 |
| Slip39Feistel.RoundsUndone | src/lcsas/keyshare/slip39.py:360-389 | Any schedule of rounds is undone by the reversed schedule on swapped halves, for every round function |
| Slip39Feistel.DecryptInverts | src/lcsas/keyshare/slip39.py:360-389 | Decryption and encryption are inverse to each other for every round function |
| Slip39Encrypt.EncryptMaster | src/lcsas/keyshare/slip39.py:340-373 | The maker's four rounds, with its own salt, round password and iteration count, give what the recovery tool decrypts to the master secret |
| Slip39Recover.AddShare | recovery/src/lcsas-keyshare/slip39.c:720-788 | Files a share exactly when it agrees with all earlier ones; a repeated card changes nothing; the 16-group and 16-member guards cannot fire |
| Slip39Recover.GroupRoom | recovery/src/lcsas-keyshare/slip39.c:744-754 | Fewer than 16 groups are filed when a new group index appears |
| Slip39Recover.MemberRoom | recovery/src/lcsas-keyshare/slip39.c:783-787 | Fewer than 16 members are filed when a new member index appears |
| Slip39Recover.CombineGroups | recovery/src/lcsas-keyshare/slip39.c:791-855 | m if and only if there are exactly the threshold of groups, the first members of each yield a group secret, and these yield the encryption of m |
| Slip39Scheme.SplitValid | src/lcsas/keyshare/slip39.py:709-737 | Every two-level split of an encrypted master secret, threshold 1 included, is a scheme the recovery theorems speak of |
| Slip39Scheme.HandRecovers | recovery/src/lcsas-keyshare/slip39.c:672-877 | However the cards of one split are grouped, they decrypt to its master secret exactly when there are enough |
| Slip39Scheme.Recover | recovery/src/lcsas-keyshare/slip39.c:672-877 | For any cards: m if and only if all are readable and agree and their groups hold m in that sense. For all cards of one split, in any order, repeated or surplus: the master secret exactly when the threshold of groups is present, each with its threshold of different members |
| Slip39Password.FrameRoundTrip | src/lcsas/keyshare/codec.py:33-78 | Every password of at most 65535 bytes comes back from its frame |
| Slip39Password.RecoverPassword | recovery/src/lcsas-keyshare/slip39.c:901-919 | The framed password comes back from every hand of cards that is enough |
| JsonParser.Parser.AllocTok | recovery/src/lcsas-restore/json_q.c:39-47 | Appends a blank token, or gives -2 on a full buffer |
| JsonParser.Parser.ParseString | recovery/src/lcsas-restore/json_q.c:59-84 | The string token up to the first unescaped quote, or -1, or -2 |
| JsonParser.Parser.ParseNumber | recovery/src/lcsas-restore/json_q.c:86-104 | The longest run of number characters as one token |
| JsonParser.Parser.ParseLiteral | recovery/src/lcsas-restore/json_q.c:106-120 | The literal as one token, or -1 on any other text |
| JsonParser.Parser.ParseContainer | recovery/src/lcsas-restore/json_q.c:122-213 | Writes the tokens of the recognized object or array in pre-order, -1 on bad syntax, -2 exactly when the tokens begun exceed the buffer |
| JsonParser.Parser.ParseValue | recovery/src/lcsas-restore/json_q.c:215-237 | The same for any value, nesting capped at 64 |
| JsonSyntax.ValueProper | recovery/src/lcsas-restore/json_q.c:215-237 | A recognized value is a proper tree inside its text and costs at most one token per byte |
| JsonSyntax.DocumentProper | recovery/src/lcsas-restore/json_q.c:239-254 | A document begins at most one token per byte; a recognized one is a proper tree |
| JsonQuery.Parse | recovery/src/lcsas-restore/json_q.c:239-254 | The token count and the flattened tree; -1 on bad syntax, -2 exactly when the buffer is too short |
| JsonQuery.TokensForest | recovery/src/lcsas-restore/json_q.c:122-213 | Tokens form a pre-order forest: earlier parents that span their children, disjoint siblings, size fields that count direct children, and in objects string keys at even places, each with its value right behind it |
| JsonForest.FlatChild | recovery/src/lcsas-restore/json_q.c:122-213 | Each token is the head of a subtree, and its parent field leads to the subtree it is a child of |
| JsonQuery.CapacityStable | recovery/src/lcsas-restore/json_q.c:239-254 | Results are stable under larger capacity, and one token per byte is always enough |
| JsonQuery.ParseAlloc | recovery/src/lcsas-restore/json_q.c:256-305 | Whatever the first guess, the result is that of one parse at the ceiling; -2 only when the byte ceiling is below one token per byte |
| JsonQuery.ObjGet | recovery/src/lcsas-restore/json_q.c:315-359 | Never reads past the tokens; the value of the first byte-equal key, or -1 exactly when there is none or the token is no object |
| JsonDecode.DecodeInt | recovery/src/lcsas-restore/json_q.c:423-448 | Succeeds exactly on signed decimal numerals of magnitude up to 2^63 - 1, with their value |
| JsonDecode.IntRoundTrip | recovery/src/lcsas-restore/json_q.c:423-448 | Every number of magnitude up to 2^63 - 1 is read back from its digits |
| JsonDecode.DecodeString | recovery/src/lcsas-restore/json_q.c:361-421 | Succeeds exactly when the escapes are valid and the result with its terminator fits the buffer |
| JsonDecode.Utf8RoundTrip | recovery/src/lcsas-restore/json_q.c:396-409 | The one to three bytes written for a \\u escape decode to its code point |
| JsonDecode.EscapeRoundTrip | recovery/src/lcsas-restore/json_q.c:361-421 | Escaped text decodes to what was escaped |
| JsonDecode.ShortEscape | recovery/src/lcsas-restore/json_q.c:375-383 | Each of the eight short escapes decodes like its four-digit form |
| JsonDecode.NoOtherEscape | recovery/src/lcsas-restore/json_q.c:375-410 | A backslash before any other character than those and u makes the text undecodable |
| JsonRender.EscapeIsOneString | recovery/src/lcsas-restore/json_q.c:65-74 | The scan for the closing quote takes escaped text as one string |
| JsonRender.RenderReadsBack | recovery/src/lcsas-restore/json_q.c:49-254 | Every value of at most 64 levels, written out with any white space between tokens, tokenizes to its own tree |
| JsonRender.SpacingIrrelevant | recovery/src/lcsas-restore/json_q.c:49-56 | Whatever white space is used, the tree read back stands for the value written |
| JsonExact.DocumentExact | recovery/src/lcsas-restore/json_q.c:49-254 | A text is accepted if and only if it spells a value of at most 64 levels: its tokens with white space of the four kinds between them |
| RestoreFile.WriteBehind | recovery/src/lcsas-restore/tree.c:289-297 | A write behind the end of the file reads as zeros up to its position, then the chunk |
| RestoreFile.OpenFile.WriteExact | recovery/src/lcsas-restore/lcsas_io.c:41-54 | Piecewise writing appends the chunk and fails only with the device; every state of the file is a beginning of the result |
| RestoreFile.OpenFile.WriteBlobSparse | recovery/src/lcsas-restore/tree.c:268-300 | Hole-seeking writes equal dense writes and fail only with the device; every state of the file is a beginning of the dense result |
| RestoreFile.OpenFile.RestoreContent | recovery/src/lcsas-restore/tree.c:644-735 | Without a device failure the file is the content at the declared size; at every moment it is a beginning of the content or that file |
| RestoreFile.SizeDecides | recovery/src/lcsas-restore/tree.c:521-547 | A file in such a state that has the declared size holds exactly the content at that size |
| RestoreRuns.InvNext | recovery/src/lcsas-restore/tree.c:521-735 | For every plan, each step of a run (skip, unlink, link, create, write at the position, seek, finish, kill) keeps the invariant over names, files and hard-link map |
| RestoreRuns.WriteKeeps | recovery/src/lcsas-restore/tree.c:268-300 | A write at the position after holes leaves exactly the beginning of the content |
| RestoreRuns.ResumeSound | recovery/src/lcsas-restore/tree.c:521-547 | In every state of every history of killed, failed and resumed runs a file of its node's size holds the node's content, if and only if nodes that share an inode number are harmless to each other |
| RestoreRuns.CompatibleSound | recovery/src/lcsas-restore/tree.c:521-547 | The sufficient half, for one state and one file |
| RestoreRuns.InodeClash | recovery/src/lcsas-restore/tree.c:136-144 | Any two nodes of one inode number that are not harmless have a history that ends with a wrong file of the right size |
| RestoreRuns.ProgressKept | recovery/src/lcsas-restore/tree.c:521-547 | A finished file stays finished in every later state of every history if and only if nodes that share an inode number are stable: equal sizes that cover the content, or an empty node without size beside size 0 |
| PackCache.Cache.CopyFile | recovery/src/lcsas-restore/disc_locator.c:809-844 | In every state, including inside a copy, a file under a pack's own name is complete; the copy succeeds if and only if no device request fails, and adds exactly that pack |
| PackCache.PartSafeExactly | recovery/src/lcsas-restore/disc_locator.c:819-820 | The temporary name does no harm exactly when no other pack has it, or both are empty |
| PackCache.Cache.Measure | recovery/src/lcsas-restore/disc_locator.c:1011-1017 | Adds up the bytes of packs not cached |
| PackCache.Cache.Walk | recovery/src/lcsas-restore/disc_locator.c:957-1031 | Each copy takes one pack off what is lacking, none twice; bytes done plus bytes left stay the total; it counts failures exactly when a request fails, and without them stops only at the limit or when nothing is lacking |
| PackCache.Cache.DrainDisc | recovery/src/lcsas-restore/disc_locator.c:1044-1115 | Without failures a drain strictly reduces what is lacking if and only if bytes are lacking (packs of no bytes alone are left) |
| BlobIndex.CompareTransitive | recovery/src/lcsas-restore/repo.c:403-417 | The byte order of ids is transitive |
| BlobIndex.Index.Sort | recovery/src/lcsas-restore/repo.c:424-431 | Sorting by id keeps every entry |
| BlobIndex.Index.Find | recovery/src/lcsas-restore/repo.c:433-442 | Search by halves finds an entry with the id if and only if there is one |
| BlobIndex.Entry | recovery/src/lcsas-restore/repo.c:536-584 | Yields an entry if and only if its pack and fields are those described, with an offset from 0, a length of 1 to 512 MiB and an end up to 2^63 - 1 |
| BlobIndex.CollectSupersedes | recovery/src/lcsas-restore/repo.c:641-724 | All superseded names of all readable files; fails exactly on an unusable file or more than 8192 names |
| BlobIndex.LoadIndex | recovery/src/lcsas-restore/repo.c:587-838 | Fails exactly on unloadable directories; otherwise sorted, with exactly the in-range entries whose pack id and blob fields a readable, not superseded file describes |
| BlobIndex.LoadAndFind | recovery/src/lcsas-restore/repo.c:433-442 | After a load, an id is found if and only if such a file describes a valid entry for it, and the entry is in range |
| BlobIndex.OrderIrrelevant | recovery/src/lcsas-restore/repo.c:617-638 | Loading and what is described do not depend on directory order |
| Scrypt.LowestBit | recovery/src/lcsas-restore/scrypt.c:161 | N & (N - 1) vanishes exactly on powers of two |
| Scrypt.ParamsOk | recovery/src/lcsas-restore/scrypt.c:155-180 | Accepts exactly N a power of two from 2, r and p from 1, N r p <= 2^25 and 128 r (N + p + 3) <= 2^31; no intermediate exceeds 32 bits |
| Scrypt.SizesFit | recovery/src/lcsas-restore/scrypt.c:197-204 | All buffer sizes together stay within 2^31 |
| Scrypt.MaskIsMod | recovery/src/lcsas-restore/scrypt.c:146 | Masking with 2^k - 1 is the remainder modulo 2^k |
| ScryptMix.TableIndex | recovery/src/lcsas-restore/scrypt.c:145-146 | The masked first word of the last block is the whole block modulo N |
| ScryptMix.BlockMixInPlace | recovery/src/lcsas-restore/scrypt.c:94-117 | The in-place loops compute BlockMix of section 4 of RFC 7914, for every 64-byte core |
| ScryptMix.IdentityMix | recovery/src/lcsas-restore/scrypt.c:94-117 | With a core that does nothing, block k of BlockMix is the last block combined with the first 2k + 1, or 2(k - r) + 2, blocks |
| ScryptMix.IdentityTwo | recovery/src/lcsas-restore/scrypt.c:94-117 | For two blocks x and y that is x xor y followed by x |
| ScryptMix.IdentitySMix | recovery/src/lcsas-restore/scrypt.c:127-153 | ROMix in closed form for two blocks, two table entries and a core that does nothing, for all blocks |
| ScryptMix.SMixInPlace | recovery/src/lcsas-restore/scrypt.c:127-153 | The in-place loops compute ROMix of section 5 of RFC 7914; every index stays inside its buffer, and nothing else changes |
| ScryptMix.LaneAt | recovery/src/lcsas-restore/scrypt.c:213-216 | Lane k of the mixed buffer is lane k of the input, mixed |
| ScryptMix.DeriveKey | recovery/src/lcsas-restore/scrypt.c:182-224 | Gives a key exactly within the limits: PBKDF2 over independently mixed lanes |
| BinPack.FirstFitDecreasing | src/lcsas/binpack/algorithm.py:29-91 | Selected and remaining partition the items and each is non-increasing in size with equal sizes in dictionary order of ids; the fill stays within usable; every item left out finds no room after the selected items ahead of it; without usable capacity all remain as given |
| BinPack.DictionaryOrder | src/lcsas/binpack/algorithm.py:38-40 | The tie-break comparison is dictionary order: after the common beginning one id ends or goes on with a smaller character |
| BinPack.InputOrderIrrelevant | src/lcsas/binpack/algorithm.py:38-40 | Any order of the same items is sorted to the same sequence |
| BinPack.FillVolumes | src/lcsas/binpack/algorithm.py:80-91 | Repeating on the remaining items ends, exactly when no item is oversized; any two consecutive volumes together exceed usable |
| BinPack.EstimateVolumesNeeded | src/lcsas/binpack/algorithm.py:94-122 | The least number of volumes that hold the total; an error exactly without usable capacity |
| BinPack.EstimateBounds | src/lcsas/binpack/algorithm.py:111-122 | Without error correction the estimate never exceeds the volumes filled, which are at most twice the estimate |

## Left out

- Rs03Augment.Augment: the text of padding sectors is a parameter, and allocation failure is not modelled.
- Rs03Image.Parse: `unsigned long` is unbounded here, so 255 * sectors_per_layer does not wrap on 32-bit hosts.
- Rs03Repair.VerifyAndFix: a damaged data sector whose CRC-32 is unchanged is not flagged, so its position may not come back; no detection rate of CRC-32 is claimed. Damaged checksum and parity sectors are not flagged by the source and stay as they are.
- Rs03Repair.FlagsAreDamage: speaks of damage to data sectors alone, because the source flags no others.
- Rs1024Distance.WrongWordsRefused: at least three words are assumed, as every mnemonic has.
- Rs1024.DamageRefused: both mnemonics are read with the same customization string; a change of the extendable bit itself selects another string.
- Slip39Scheme.Recover: wrong passphrases and forged shares with a matching digest are not excluded; HMAC and PBKDF2 are arbitrary functions.
- Slip39Share.ParseShare: starts from word indices; the word list, prefix matching and tokenizing of text are not modelled.
- Slip39Feistel.FeistelDecrypt: allocation failure is not modelled; the round function is any function that keeps lengths.
- JsonParser.Parser.ParseContainer: one method with a flag stands for the separate object and array functions; the token buffer after a failure is unspecified.
- JsonQuery.ParseAlloc: allocation failure (-3) is not modelled, and doubling does not wrap.
- JsonQuery.ObjGet: keys are compared as raw source bytes, as in the source; escapes in keys are not decoded.
- RestoreRuns.ResumeSound: target paths are distinct and the target starts empty; ownership, modes, times, extended attributes, directories and symbolic links are not modelled.
- RestoreFile.OpenFile.RestoreContent: reading a blob is a step that succeeds or fails; decryption and decompression are not modelled.
- PackCache.Cache.Walk: the two directory levels are one listing; discs agree on what a pack name holds; free-space checks and progress text are left out.
- BlobIndex.LoadIndex: an index file is modelled by what it decodes to; the token walk that reads it and the count of skipped files are left out, and the library sort is any sort by id.
- ScryptMix.SMixInPlace: the scratch buffer T is a value, and Salsa20/8 is any function on 64-byte blocks.
- BinPack.EstimateVolumesNeeded: Python's float division is taken as exact, which it is for ECC 0 and capacities up to 2^53.
- BinPack.FirstFitDecreasing: log messages and the multi-extent warning are left out.
- Command-line drivers, disc prompts and polling, the SQLite catalog, zstd, AES, SHA-256, hex, base64 and ISO 9660 helpers are not part of this model.
- The Python burn, build and catalog code apart from the share splitter, its codec and the packer is not part of this model.
