# Verified models of the firmware's hard parts

A Dafny project about the pieces of this repository where a mistake is expensive and a test can miss
it: a power-fail-safe boot loader, the ECDSA verification it trusts, two tickless clocks that race
with interrupts, two I2C engines that must agree, and the stack report that decides whether a build
fits its RAM. Each piece is modelled after the code, branch for branch, and its promises are proved
for every input and every run. `dafny verify dfyconfig.toml` checks everything.

That the hypotheses of the two largest results can be met is proved too: `ImageBuilder.OneLostUpgrade`
builds a flash that `BootSafety.PowerFailSafety` speaks about, and `P256.DomainIsValid` shows that the
constants are a valid domain.

## How the pieces fit

**Boot loader** (`NorFlash`, `BootImage`, `ImageScan`, `BootLoader`, `BootCut`, `BootProgram`,
`BootSteps`, `BootSafety`, `BootWork`, `BootHistory`, `ImageFormat`, `ImageBuilder`, `BootFirmware`,
`ImageSignature`, `BootAuthentic`).
`NorFlash` is a byte array with NOR semantics, reads that may fail, and a power supply that may fail after any byte of
work. `ImageScan` and `BootProgram` are the code; their methods are proved equal to `Validate` (a
declarative reading of the TLV list) and `BootRun` (one boot as a function of flash and supply), and a
failed read to leave what some power loss leaves. The run theorems are about `BootRun`: power-fail
safety, releases that never go down, what a boot may touch, and that the address it answers with is where the
firmware begins. `ImageFormat` has the format from the writing side, and acceptance as an equivalence over it.
`BootAuthentic` joins them to P-256: whatever
boots carries a signature that section 4.1.4 of SEC 1 accepts.

The header comment of `mcuboot-image/src/boot.rs` (lines 16-21) says that an interrupted install
simply runs again. The code keeps that promise except in one window, and the model follows the code.
If power fails while the header is programmed, after its magic and before the end of the release
number, the unwritten release bytes still read 0xFF. The primary then shows a header with a higher
release, the downgrade rule refuses the candidate and drops the request, and nothing boots any more.
`PowerFailSafety` states the exact condition, in both directions, `SafetyByLosses` puts it in terms of
the initial flash and the losses, and `OneLostUpgrade` is a concrete case.
The mock flash of the repository's own tests cuts every write in half, which never lands in the window.

**P-256** (`Limbs`, `Bits`, `ModArith`, `Montgomery`, `MontField`, `Fermat`, `MontInverse`, `Curve`,
`CurveAgreement`, `CurveClosure`, `CurveGroup`, `CurvePoints`, `Ecdsa`, `EcdsaSigning`, `P256`,
`DerSignature`). The
limb loops are proved with their 32-bit words and 64-bit intermediates. On top of them come the field,
Fermat inversion, the Jacobian formulas against affine addition, the ladder, and verification against
section 4.1.4 of SEC 1 version 2.0. Hypotheses of the last step: n is prime, p is prime, and addition
on the curve is associative. What section 4.1.4 accepts is, for a key with a private key, exactly what section
4.1.3 can sign with it (`EcdsaSigning`), if n is the order of the base point. Closure and commutativity are proved, and so is everything about the
constants. The radix 2^256 is kept symbolic in all modular arguments; numerals of that size appear only
in `P256`, where they are evaluated.

**Clocks** (`RtccTime`, `RtccAlarm`, `TimerQueue`, `SystimDriver`). The EFR32 sample is a step machine of
a thread, an interrupt handler and a counter that may tick between any two reads. The EFR32 alarm and
the CC2340 driver are classes whose hardware clock advances between any two register accesses; the alarm
makes its own five reads of `now64`, and `SampleIsTime` shows from `RtccTime` that they give the true time.

**I2C** (`I2cWire`, `Bl702I2c`, `Cc2340I2c`, `Cc2340Replies`, `I2cAgreement`, `I2cTarget`). A transaction's bytes, with the borders
between operations forgotten, determine a reference sequence of bus conditions; both engines are
proved to produce it, a target that follows the protocol hears exactly the bytes in it, and what the engines
do under faults is stated for every sequence of answers.

**Stack report** (`CallGraph`, `CallGraphSearch`, `CallGraphPrefix`, `CallGraphRun`, `CallGraphHistory`,
`StackReport`, `Roots`, `MergedRoots`, `MergedChains`, `ChainBudget`, `SecondRoot`, `ThreeFunctions`). The
depth-first search, the pass that follows it, the tables of many searches on one graph, their merging, and
the two walks that turn tables back into paths. `CallGraphRun` is the search as a function of the calls and
the root, so that what any list of roots leaves is a function too (`After`).

The docstring of `analyze_roots` promises the deepest caller prefix over all roots. The code does not keep
that promise: `recursive_edges` is kept from root to root, and the pass of a later root skips calls that its
own search kept. `DeepestExactly` gives the condition, on the calls and the list of roots alone, under which
the depths are right whatever the frames, and shows that without it some frames make them wrong;
`OneRootExactly` reads it call by call for one root, and `UndisturbedHidesNothing` is a simple test to make
before a root is added. `TwoRoots` and `ThirdRoot` are the tool's own calls on graphs where it fails: a
function is lost, or none is lost and a depth is still too small. `ThirdRoot` shows too that the chain printed
for a function can weigh more than the depth printed for it.

**Loader record** (`Crc`, `CrcPolynomial`, `LoaderInfo`). The CRC as a bijection on register states, and as a
remainder of polynomials.

## Model

| member | source | states |
|---|---|---|
| `BootSafety.PowerFailSafety` | mcuboot-image/src/boot.rs:16-21 | For every flash with a valid, requested candidate that is not a downgrade and every finite list of power losses at any byte of any erase or write: the first uninterrupted boot leaves the primary byte for byte equal to the candidate, bootable, with no request pending and the vector table at the candidate's firmware, if and only if no boot lost power inside the header in a way that reads as a higher release |
| `BootFirmware.UpgradeRunsFirmware` | mcuboot-image/src/boot.rs:16-21 | Power-fail safety up to the code that runs: when the candidate is an image of given parts and no loss tears its header, the vector table returned is the address of its firmware in the primary |
| `BootFirmware.BootsFirmware` | mcuboot-image/src/boot.rs:98-115 | From any flash and with any supply: a boot that succeeds has an accepted image of some parts in the primary, and returns the address of its firmware |
| `BootSafety.UpgradeRun` | mcuboot-image/src/boot.rs:98-199 | The same equivalence from every state an upgrade can be in (still pending, or completed) |
| `BootWork.SafetyByLosses` | mcuboot-image/src/boot.rs:16-21 | The same in closed form, from the flash before the first boot and the list of losses alone: the upgrade survives if and only if no loss falls into the header window before one was long enough to drop the request |
| `BootWork.SurvivesIsNeverTears` | mcuboot-image/src/boot.rs:98-199 | The closed form and the condition that runs the boots agree, from every pending state |
| `BootWork.WindowIsTear` | mcuboot-image/src/boot.rs:159-191 | Whether a boot tears the header shows in the initial flash: the loss falls between the erase and the last byte of the release that is not 0xFF |
| `BootWork.PendingSpends` | mcuboot-image/src/boot.rs:117-199 | An interrupted boot that does not tear the header completes the upgrade exactly when its work reached the first byte of the request, and leaves it pending otherwise |
| `BootWork.InstallSpends` | mcuboot-image/src/boot.rs:159-199 | An install succeeds exactly when the supply lasts for the erase and the chunks that are not blank, and spends that |
| `BootWork.CopySpends` | mcuboot-image/src/boot.rs:173-191 | The same for the copy loop |
| `BootSafety.PendingBoot` | mcuboot-image/src/boot.rs:117-199 | One boot of a pending upgrade with any supply: it stays pending, is completed and booted, or tears the header; with a stable supply it completes |
| `BootSafety.CompletedBoot` | mcuboot-image/src/boot.rs:98-115 | A completed upgrade boots the candidate whatever the supply |
| `BootSafety.TornHeader` | mcuboot-image/src/image.rs:91-112 | A header cut at byte k parses exactly when k is at least 4, and then reads as a higher release exactly when a release byte other than 0xFF was cut off |
| `BootSafety.TearPoisons` | mcuboot-image/src/boot.rs:159-191 | A power loss in that window leaves a primary that holds k header bytes and erased flash behind them |
| `BootSafety.PoisonedBoot` | mcuboot-image/src/boot.rs:133-143 | From there every boot fails and stays there, whatever the supply: the candidate is refused as a downgrade and the primary is not bootable |
| `BootSafety.OneTearIsFatal` | mcuboot-image/src/boot.rs:133-143 | One such loss makes every later boot fail, over any further run of losses |
| `BootSafety.FourBytesIn` | mcuboot-image/src/boot.rs:185-189 | Losing power four bytes into the header write is such a loss, for every candidate with a release byte other than 0xFF |
| `ImageBuilder.LostUpgrade` | mcuboot-image/src/boot.rs:98-199 | Every valid image with such a release gives a flash on which the upgrade succeeds if left alone and is lost for good after one power loss |
| `ImageBuilder.OneLostUpgrade` | mcuboot-image/src/boot.rs:98-199 | A concrete flash, layout and image on which that happens |
| `BootHistory.ReleasesNeverGoDown` | mcuboot-image/src/boot.rs:133-143 | Over every history of boots, power losses and rewrites of the secondary slot by running firmware: the release number in the header that boots, major, minor and revision from the most significant byte down, never decreases |
| `BootImage.BelowIsNumber` | mcuboot-image/src/image.rs:71-76 | The release order is the order of the numbers that the release bytes spell |
| `BootHistory.DowngradeIsNumber` | mcuboot-image/src/boot.rs:133-143 | Against a valid primary, the downgrade rule compares these numbers |
| `BootHistory.ReportIsTrue` | mcuboot-image/src/boot.rs:117-157 | What a boot reports about the request is true: no request, nothing touched; a rejection with the verdict on the candidate; a downgrade below the primary's number; an install whose candidate is now the primary |
| `BootAuthentic.BootsOnlySigned` | mcuboot-image/src/boot.rs:98-115 | From any flash and with any supply: a boot that succeeds has a primary with a header, the bytes it announces, their digest as the last SHA-256 entry, and a signature over that digest which section 4.1.4 of SEC 1 accepts for the selected key |
| `BootAuthentic.ValidIsAuthentic` | mcuboot-image/src/image.rs:160-254 | An accepting verdict with the P-256 check means all of that |
| `BootHistory.HistoryOrdered` | mcuboot-image/src/boot.rs:98-157 | The invariant behind it holds over every history, from every world where it holds |
| `BootHistory.NextOrdered` | mcuboot-image/src/boot.rs:98-157 | and is kept by every boot (with any supply) and every staging |
| `BootHistory.RefusalKeeps` | mcuboot-image/src/boot.rs:127-157 | A missing, rejected or downgrade request never changes a byte outside the secondary slot; the request goes before the image does |
| `BootHistory.InstallKeeps` | mcuboot-image/src/boot.rs:159-199 | An install cut short leaves request and candidate; otherwise the primary is the candidate |
| `BootHistory.BootTouches` | mcuboot-image/src/boot.rs:43-53 | A boot, however it ends, changes nothing but primary bytes below the trailer boundary and the first and last sector of the secondary slot |
| `BootHistory.CopyNeverCorrupt` | mcuboot-image/src/boot.rs:193-198 | On flash with NOR semantics `CopyCorrupt` is never returned |
| `BootProgram.Boot` | mcuboot-image/src/boot.rs:98-115 | The program on a flash device leaves the bytes, supply and result that `BootRun` says, for every supply, when no read fails; when one does, it returns the flash error and leaves exactly what some power loss would have left |
| `BootProgram.ProcessRequest` | mcuboot-image/src/boot.rs:117-157 | The same for the request step: magic, validation, downgrade rule, install, the two erases, and every error path, failed reads included |
| `BootProgram.Decide` | mcuboot-image/src/boot.rs:123-143 | The reads before any change: no request, rejected, downgrade or install, or a failed read |
| `BootProgram.Install` | mcuboot-image/src/boot.rs:159-199 | The same for erase, copy and re-validation |
| `BootProgram.Copy` | mcuboot-image/src/boot.rs:173-191 | The copy loop with its chunk buffer equals the recursive copy, for every supply; a failed read stops it between two chunks |
| `BootProgram.CopyChunk` | mcuboot-image/src/boot.rs:180-190 | One chunk: read, skipped when all 0xFF, else programmed; a failed read changes nothing |
| `BootProgram.IsBlank` | mcuboot-image/src/boot.rs:185-185 | True exactly when every byte is 0xFF |
| `BootProgram.Drop` | mcuboot-image/src/boot.rs:149-156 | Trailer sector first, then header sector |
| `BootProgram.WriteAt` | mcuboot-image/src/boot.rs:186-188 | A write that may stop at any byte |
| `BootProgram.EraseRange` | mcuboot-image/src/boot.rs:201-205 | An erase that may stop at any byte |
| `BootCut.CopyStops` | mcuboot-image/src/boot.rs:173-191 | Where the copy stands after some work is where a power loss after that work leaves it |
| `BootCut.CopyTears` | mcuboot-image/src/boot.rs:186-188 | The same inside a chunk |
| `BootCut.RequestCut` | mcuboot-image/src/boot.rs:144-144 | An install that stops early is a request that power loss ends there |
| `BootCut.RequestInstalled` | mcuboot-image/src/boot.rs:144-156 | After an install, a drop that stops early is a request that power loss ends there |
| `BootLoader.LengthsFit` | mcuboot-image/src/boot.rs:43-53 | The rounded copy and erase lengths of an accepted image stay below the trailer boundary |
| `BootSteps.CopyProgress` | mcuboot-image/src/boot.rs:173-191 | However the copy ends, the primary holds some prefix of the candidate over erased flash; a copy that succeeds holds all of it |
| `BootSteps.FirstChunk` | mcuboot-image/src/boot.rs:173-191 | Where exactly a copy that fails inside the first chunk stops |
| `BootSteps.InstallProgress` | mcuboot-image/src/boot.rs:159-199 | What an install leaves for every supply: a partly erased primary, or a candidate prefix over erased flash |
| `BootSteps.DropProgress` | mcuboot-image/src/boot.rs:149-156 | What dropping leaves for every supply |
| `BootSteps.DroppedKeeps` | mcuboot-image/src/boot.rs:149-156 | A drop that stops anywhere keeps all but the first and last secondary sector; the request stands exactly until its first byte is erased, and as long as it stands its image does |
| `BootSteps.VerdictCopied` | mcuboot-image/src/image.rs:160-254 | An accepting verdict carries over to equal bytes in any slot |
| `NorFlashModel.NorFlash.Read` | mcuboot-image/src/tests.rs:92-100 | Reads return the stored bytes, or fail outside the device or when the device fails them; every read is recorded |
| `NorFlashModel.NorFlash.Erase` | mcuboot-image/src/tests.rs:111-130 | Erasing sets a prefix of the range to 0xFF, all of it unless power fails |
| `NorFlashModel.NorFlash.Write` | mcuboot-image/src/tests.rs:132-147 | Programming clears bits in a prefix of the range, all of it unless power fails |
| `ImageScan.ValidateSlot` | mcuboot-image/src/image.rs:160-254 | The TLV walk returns exactly the verdict of the declarative reading of the TLV list; no byte outside the slot limit is read; a flash error is returned when a read fails, and else only if the slot reaches past the device |
| `ImageScan.Pass` | mcuboot-image/src/image.rs:199-243 | The loop over the TLV area computes the declarative flags, or the same error |
| `ImageScan.Consider` | mcuboot-image/src/image.rs:213-241 | One TLV updates the three flags as the declarative predicates change |
| `ImageScan.HashOkSnoc` | mcuboot-image/src/image.rs:214-220 | The last SHA-256 TLV decides |
| `ImageScan.SelectedSnoc` | mcuboot-image/src/image.rs:221-224 | A key stays selected until the next KEYHASH or signature |
| `ImageScan.SignedSnoc` | mcuboot-image/src/image.rs:225-239 | A signature counts when it verifies under a still selected key |
| `ImageScan.ReadFrame` | mcuboot-image/src/image.rs:160-194 | Header and TLV framing equal the declarative frame, with every error |
| `ImageScan.ReadArray` | mcuboot-image/src/image.rs:257-271 | No read passes the limit |
| `ImageScan.HashRange` | mcuboot-image/src/image.rs:273-286 | The chunked loop hashes exactly the range |
| `BootImage.ValidateIsLocal` | mcuboot-image/src/image.rs:160-254 | An accepting verdict depends only on the bytes up to the image end |
| `ImageFormat.HeaderRoundTrip` | mcuboot-image/src/image.rs:91-112 | Every header reads back, whatever follows it |
| `ImageFormat.TlvsRoundTrip` | mcuboot-image/src/image.rs:204-247 | Every TLV list reads back |
| `ImageBuilder.BuiltIsValid` | mcuboot-image/src/image.rs:160-254 | Every image built from a header, firmware, digest, key hash and verifying signature is accepted, with its header, length and digest, whatever follows it in the slot |
| `ImageFormat.AcceptedExactly` | mcuboot-image/src/image.rs:160-254 | Acceptance as an equivalence over any slot contents: they begin with the encodings of a header without flags, of any size from 32 bytes on, the parts of the sizes it tells, a protected area that announces itself if there is one, and a TLV list with the digest of all before it and a signature over that digest |
| `ImageFormat.HeaderOfParse` | mcuboot-image/src/image.rs:91-112 | What reads as a header is the encoding of it |
| `ImageFormat.TlvsOfParse` | mcuboot-image/src/image.rs:204-247 | What reads as a TLV list is the encoding of it |
| `ImageFormat.HeaderRefusals` | mcuboot-image/src/image.rs:166-169 | No image exactly without the magic; unsupported exactly with the magic and a flag |
| `ImageFormat.TlvRefusals` | mcuboot-image/src/image.rs:204-254 | Which of the three refusals a TLV list gets, for an image that is otherwise in order |
| `ImageBuilder.EndorsedStandalone` | mcuboot-image/src/image.rs:160-254 | An image whose TLV list endorses it is accepted whatever follows it |
| `ImageSignature.CheckSignature` | mcuboot-image/src/image.rs:225-239 | The signature arm accepts exactly when the key is on the curve, the DER is canonical and section 4.1.4 of SEC 1 accepts |
| `DerSignature.ParseOfEncode` | mcuboot-image/src/p256.rs:395-431 | Every pair of 32-byte scalars parses back from its minimal DER form |
| `DerSignature.EncodeOfParse` | mcuboot-image/src/p256.rs:395-431 | Every accepted byte string is that form of its result, so the parser and the encoder are inverse |
| `ImageSignature.ContentIsShortest` | mcuboot-image/src/p256.rs:392-412 | An encoded integer is the number, not negative, in as few bytes as that takes |
| `Limbs.Less` | mcuboot-image/src/p256.rs:118-126 | Comparison of values |
| `Limbs.IsZero` | mcuboot-image/src/p256.rs:113-115 | True exactly for the value zero |
| `Limbs.SubInPlace` | mcuboot-image/src/p256.rs:128-138 | Difference modulo 2^256 with the borrow, for all inputs |
| `Limbs.AddInPlace` | mcuboot-image/src/p256.rs:141-149 | Sum modulo 2^256 with the carry, for all inputs |
| `Limbs.FromBe` | mcuboot-image/src/p256.rs:104-111 | The limbs are worth the big-endian number |
| `Limbs.ValInjective` | mcuboot-image/src/p256.rs:13-13 | Equal values have equal limbs, so limb comparison decides equality |
| `Montgomery.MulMont` | mcuboot-image/src/p256.rs:172-203 | For all a, b below m: the result r is below m and r times 2^256 is congruent to a times b; the running value stays below 2m and no word overflows |
| `Montgomery.AddRow` | mcuboot-image/src/p256.rs:175-183 | The first inner loop adds a times word to the running value, exactly |
| `Montgomery.Reduce` | mcuboot-image/src/p256.rs:185-195 | The second inner loop adds the multiple of m that clears the low word, and shifts down one word |
| `Montgomery.Round` | mcuboot-image/src/p256.rs:174-196 | One round, with the bound below 2m |
| `Montgomery.FinalSubtract` | mcuboot-image/src/p256.rs:197-202 | One conditional subtraction brings a value below 2m below m |
| `MontField.AddMod` | mcuboot-image/src/p256.rs:153-159 | Sum modulo m of reduced numbers |
| `MontField.SubMod` | mcuboot-image/src/p256.rs:162-168 | Difference modulo m of reduced numbers |
| `MontField.MulMod` | mcuboot-image/src/p256.rs:172-203 | The product, on the residues that the representatives stand for |
| `MontField.MulPlain` | mcuboot-image/src/p256.rs:350-353 | A plain number times a representative is the plain product of the residues |
| `MontField.EnterMont` | mcuboot-image/src/p256.rs:205-207 | The representative of a residue |
| `MontField.LeaveMont` | mcuboot-image/src/p256.rs:209-211 | The residue of a representative |
| `MontField.RadixInvertible` | mcuboot-image/src/p256.rs:17-20 | The constant `m_inv` alone makes 2^256 invertible modulo m |
| `MontField.DecZero` | mcuboot-image/src/p256.rs:231-231 | Only zero represents zero, so `is_zero` decides infinity |
| `Bits.HighIsVal` | mcuboot-image/src/p256.rs:220-225 | The 256 bits, read from the top as both loops read them, make up the number |
| `MontInverse.Invert` | mcuboot-image/src/p256.rs:215-227 | Square and multiply returns the representative of the power m - 2 |
| `MontInverse.InverseIsInverse` | mcuboot-image/src/p256.rs:213-227 | For prime m, that power of a non-zero value times the value is 1 |
| `Fermat.LittleTheorem` | mcuboot-image/src/p256.rs:213-213 | Fermat's little theorem, proved from Euclid's lemma |
| `CurvePoints.Double` | mcuboot-image/src/p256.rs:246-268 | Doubling limbs computes the Jacobian formula on residues |
| `CurvePoints.AddPoints` | mcuboot-image/src/p256.rs:271-301 | Adding limbs does too, with every special case |
| `CurveAgreement.DoubleAgrees` | mcuboot-image/src/p256.rs:246-268 | On every triple, infinity and order-two points included, the doubling formula is tangent addition |
| `CurveAgreement.AddAgrees` | mcuboot-image/src/p256.rs:271-301 | On every pair, equal, opposite and at infinity included, the addition formula is chord-and-tangent addition |
| `CurveAgreement.OverUnique` | mcuboot-image/src/p256.rs:230-236 | A triple stands for one affine point only |
| `CurveClosure.AddCloses` | mcuboot-image/src/p256.rs:245-301 | Sums of points of y^2 = x^3 - 3x + b are points of it |
| `CurveClosure.SumOnChord` | mcuboot-image/src/p256.rs:271-302 | A sum is the reflected third point of the chord |
| `CurveClosure.SumOnTangent` | mcuboot-image/src/p256.rs:246-268 | and of the tangent, when a point is added to itself |
| `CurveGroup.AddCommutes` | mcuboot-image/src/p256.rs:271-301 | The order of the points does not matter |
| `CurveGroup.CombinationDouble` | mcuboot-image/src/p256.rs:370-370 | Doubling iG + jQ gives 2iG + 2jQ |
| `CurveGroup.CombinationStep` | mcuboot-image/src/p256.rs:371-378 | Adding what a pair of bits selects adds the bits to the scalars |
| `CurvePoints.LadderStep` | mcuboot-image/src/p256.rs:370-378 | One iteration takes iG + jQ to (2i + b1)G + (2j + b2)Q, for all four bit pairs |
| `CurvePoints.Ladder` | mcuboot-image/src/p256.rs:367-379 | The 256 iterations compute u1 G + u2 Q, for all scalars |
| `Ecdsa.FromXY` | mcuboot-image/src/p256.rs:315-334 | A key is accepted exactly when both coordinates are reduced and on the curve, and is the encoded point |
| `Ecdsa.ReduceOnce` | mcuboot-image/src/p256.rs:346-349 | One conditional subtraction reduces any number below 2n |
| `Ecdsa.Scalars` | mcuboot-image/src/p256.rs:351-353 | u1 and u2 are e/s and r/s modulo n |
| `Ecdsa.Abscissa` | mcuboot-image/src/p256.rs:383-384 | The affine abscissa of the ladder's point |
| `Ecdsa.VerifyPrehash` | mcuboot-image/src/p256.rs:339-389 | Accepts exactly when section 4.1.4 of SEC 1 version 2.0 does |
| `EcdsaSigning.AcceptsWhatIsSigned` | mcuboot-image/src/p256.rs:339-389 | For the key d G with G of order n, exactly those signatures are accepted that section 4.1.3 of SEC 1 can make with d and some nonce k: r is the abscissa of k G, and k s = e + r d modulo n |
| `EcdsaSigning.AcceptsExactly` | mcuboot-image/src/p256.rs:351-379 | For any k with k s = e + r d modulo n: accepted exactly when r is the abscissa of k G |
| `EcdsaSigning.TimesMod` | mcuboot-image/src/p256.rs:367-379 | Multiples of G depend on the multiplier modulo n only |
| `EcdsaSigning.CombinationIsMultiple` | mcuboot-image/src/p256.rs:367-379 | The ladder's result for the key d G is a multiple of G |
| `P256.Verify` | mcuboot-image/src/p256.rs:339-389 | The same with the constants of P-256; primality of n and the group law over the prime p are the only hypotheses |
| `ImageSignature.AcceptsWhatKeySigns` | mcuboot-image/src/image.rs:225-239 | With the constants of P-256: the signature arm accepts exactly what the key's owner can sign |
| `P256.DomainIsValid` | mcuboot-image/src/p256.rs:23-100 | The constants are right: -1/m modulo 2^32 and R^2 modulo m for both moduli, G on the curve, 2^256 and p below 2n |
| `LoaderRecord.RoundTrip` | mcuboot-image/src/loader_info.rs:42-84 | Every record decodes to what it was encoded from |
| `LoaderRecord.BurstRejected` | mcuboot-image/src/loader_info.rs:70-84 | Damage confined to any four consecutive bytes of the record, its checksum included, is rejected |
| `LoaderRecord.Encode` | mcuboot-image/src/loader_info.rs:42-68 | The array filled byte by byte is the record |
| `LoaderRecord.RecordLayout` | mcuboot-image/src/loader_info.rs:42-68 | Where each field of the record is |
| `LoaderRecord.DecodesRecords` | mcuboot-image/src/loader_info.rs:70-85 | Exactly the records decode, whatever their reserved bytes, with a checksum over all before it |
| `Crc.Crc32` | mcuboot-image/src/loader_info.rs:95-112 | The nested loops compute the checksum |
| `Crc.FourBytes` | mcuboot-image/src/loader_info.rs:98-110 | Four bytes absorbed one by one are one word absorbed by 32 steps |
| `Crc.RegisterInjective` | mcuboot-image/src/loader_info.rs:101-108 | Absorbing a message is injective in the register |
| `Crc.BurstShows` | mcuboot-image/src/loader_info.rs:95-112 | Messages that differ in four consecutive bytes have different registers |
| `Crc.ChecksumIsResidue` | mcuboot-image/src/loader_info.rs:73-73 | Checking the stored checksum is checking one fixed register value over the whole record |
| `CrcPolynomial.ChecksumIsCrc32` | mcuboot-image/src/loader_info.rs:94-112 | The checksum, with all bits turned, is the remainder of the message moved up by 32, with ones above its first 32 bits, modulo the CRC-32 generator |
| `CrcPolynomial.RegisterIsRemainder` | mcuboot-image/src/loader_info.rs:95-110 | The register is the remainder for any generator and initial state |
| `CrcPolynomial.GeneratorIsCrc32` | mcuboot-image/src/loader_info.rs:103-103 | The constant is the CRC-32 generator, exponent by exponent |
| `RtccTime.SamplesAreTrueTime` | efr32s2-hal/src/rtcc.rs:286-297 | In every interleaving of ticks, wraps, handler steps and reads, a value `now64` returns is the true 64-bit time at its second counter read if and only if the sample saw the flag or took less than a wrap; otherwise it is one wrap early |
| `RtccTime.NeverBackwards` | efr32s2-hal/src/rtcc.rs:165-177 | A call that begins after another returned does not return less, whichever of thread and handler makes them, provided its own sample saw the flag or took less than a wrap |
| `RtccTime.SuccessiveResults` | efr32s2-hal/src/rtcc.rs:286-297 | In particular the results of one context do not decrease, under the same proviso on the later one |
| `RtccTime.StepKeeps` | efr32s2-hal/src/time_driver.rs:90-98 | The invariant of epoch, flag, handler and calls in flight is kept by every step |
| `RtccTime.RunKeeps` | efr32s2-hal/src/time_driver.rs:90-98 | and over every run |
| `RtccAlarm.Alarm.Elapse` | efr32s2-hal/src/time_driver.rs:30-54 | The invariant of the alarm is kept as time passes: a queued deadline four or more ticks overdue always shows as a raised, enabled interrupt, so none is missed; and none is raised before a queued deadline has come or the longest alarm has run out |
| `RtccAlarm.Alarm.Rearm` | efr32s2-hal/src/time_driver.rs:46-54 | Terminates with nothing due left queued, and the compare armed at most four ticks past every deadline and not before the first, unless that is beyond the longest alarm |
| `RtccAlarm.Alarm.Round` | efr32s2-hal/src/time_driver.rs:49-51 | One round: armed, or a deadline is due again |
| `RtccAlarm.Alarm.SetAlarm` | efr32s2-hal/src/time_driver.rs:32-44 | False only for a deadline that has passed; otherwise armed at most four ticks late, although the reading is old when it is used, and not early, unless as far ahead as the compare goes; off for a deadline that 64 bits cannot reach |
| `RtccAlarm.Alarm.Arm` | efr32s2-hal/src/rtcc.rs:306-314 | The flag rises exactly the asked ticks after the reading of the counter, which is the time at that access |
| `RtccAlarm.Alarm.Now64` | efr32s2-hal/src/rtcc.rs:286-297 | The five reads, with time passing before each, give the time at one of them |
| `RtccAlarm.SampleIsTime` | efr32s2-hal/src/rtcc.rs:165-177 | Epoch, counter and flag read so extend to the true time of the second counter read |
| `RtccAlarm.Alarm.ScheduleWake` | efr32s2-hal/src/time_driver.rs:62-69 | Keeps the invariant, with the handler taking a pending interrupt between queueing and arming |
| `RtccAlarm.Alarm.OnInterrupt` | efr32s2-hal/src/time_driver.rs:90-98 | Whatever was due on entry is woken; without alarm or overflow nothing changes |
| `RtccAlarm.Alarm.constructor` | efr32s2-hal/src/time_driver.rs:72-86 | The invariant holds with an empty queue |
| `RtccAlarm.LateClearLosesAlarm` | efr32s2-hal/src/rtcc.rs:82-87 | A second reason for the minimum distance, besides the one given there: a target that comes before the flag is cleared waits for the counter to wrap |
| `RtccAlarm.TicksUntil` | efr32s2-hal/src/rtcc.rs:147-159 | None exactly for a deadline that has passed; else within the limits, at most two ticks past the deadline, and not before it unless it is beyond the upper limit |
| `RtccAlarm.CompareValue` | efr32s2-hal/src/rtcc.rs:134-136 | One below the deadline, modulo the counter's range |
| `RtccAlarm.ReachedDecides` | efr32s2-hal/src/rtcc.rs:140-142 | On low words, `reached` decides every deadline less than half the range away |
| `TimerQueues.TimerQueue.ScheduleWake` | cc2340r5-hal/src/timebase.rs:59-92 | Merge, insert and evict, each with the whole new queue; false exactly when a later time was asked for, and then nothing changes; no request is ever lost |
| `TimerQueues.TimerQueue.NextExpiration` | cc2340r5-hal/src/timebase.rs:96-109 | Wakes exactly the due entries, each once; returns the earliest that remains |
| `TimerQueues.TimerQueue.Sweep` | cc2340r5-hal/src/timebase.rs:97-108 | The loop, slot by slot |
| `TimerQueues.TimerQueue.IndexOf` | cc2340r5-hal/src/timebase.rs:60-68 | Finds the waker's entry exactly when there is one |
| `TimerQueues.TimerQueue.IndexOfEmpty` | cc2340r5-hal/src/timebase.rs:70-76 | Finds an empty slot exactly when the queue is not full |
| `TimerQueues.TimerQueue.IndexOfLatest` | cc2340r5-hal/src/timebase.rs:80-84 | Finds an entry that no other is later than |
| `TimerQueues.TimerQueue.constructor` | cc2340r5-hal/src/timebase.rs:52-56 | An empty queue of any capacity |
| `TimerQueues.HistoryGrows` | cc2340r5-hal/src/timebase.rs:59-109 | When every earlier entry is woken or still covered, no request of the longer history is lost |
| `TimerQueues.ExpiryLosesNone` | cc2340r5-hal/src/timebase.rs:98-107 | Expiry loses no request |
| `TimerQueues.DueIsExpired` | cc2340r5-hal/src/timebase.rs:98-103 | The slots swept are the wakers due, each once |
| `TimerQueues.FullMeansFull` | cc2340r5-hal/src/timebase.rs:70-76 | There is no empty slot exactly when there are as many wakers as slots |
| `SystimDriver.ExtendIsExact` | cc2340r5-hal/src/timebase.rs:24-32 | Less than a wrap after the last reading, the extension is the true time |
| `SystimDriver.MatchIsTarget` | cc2340r5-hal/src/time.rs:101-107 | The low 32 bits of a target at most a wrap ahead first match at the target |
| `SystimDriver.Driver.constructor` | cc2340r5-hal/src/time.rs:64-80 | Initialisation establishes the invariant |
| `SystimDriver.Driver.Elapse` | cc2340r5-hal/src/time.rs:83-115 | Between operations the invariant is kept as time passes: the compare fires exactly at the target, a due deadline always shows as a raised interrupt, and none is raised before a deadline has come or 30 minutes have passed |
| `SystimDriver.Driver.Now` | cc2340r5-hal/src/time.rs:46-48 | The result is the true time |
| `SystimDriver.Driver.NowLocked` | cc2340r5-hal/src/time.rs:88-91 | The reading is the true time |
| `SystimDriver.Driver.Program` | cc2340r5-hal/src/time.rs:97-113 | One round, with time passing between any two register accesses: either armed for a moment still ahead, or a deadline is due |
| `SystimDriver.Driver.Rearm` | cc2340r5-hal/src/time.rs:95-115 | Terminates with nothing due left queued, armed for the earliest deadline, or for 30 minutes past the reading if that comes first |
| `SystimDriver.Driver.ScheduleWake` | cc2340r5-hal/src/time.rs:50-57 | Keeps the invariant and records the request |
| `SystimDriver.Driver.OnInterrupt` | cc2340r5-hal/src/time.rs:83-86 | Keeps the invariant; every deadline due at entry has been taken off the queue |
| `I2cAgreement.EnginesAgree` | bl702-hal/src/i2c.rs:431-482 | The two engines produce the same bus conditions exactly on the lists both take: not empty, and without empty operations |
| `I2cTarget.TargetHears` | cc2340r5-hal/src/i2c.rs:116-208 | A target that follows the I2C protocol is not confused by either engine and hears exactly the bytes of the operations |
| `I2cTarget.WireHeard` | bl702-hal/src/i2c.rs:431-482 | The same for the reference sequence: starts, address, acknowledgement of all but the last byte of a run of reads, stop |
| `I2cAgreement.BitBangIsWire` | bl702-hal/src/i2c.rs:431-482 | Without empty operations the bit-bang engine produces the reference sequence |
| `I2cAgreement.ControllerIsWire` | cc2340r5-hal/src/i2c.rs:137-207 | So do the controller engine's register accesses, interpreted on the bus |
| `I2cAgreement.SplitOnBothBuses` | cc2340r5-hal/src/i2c.rs:158-164 | Splitting or joining neighbours of one direction changes the sequence of neither |
| `I2cWire.SplitInvisible` | bl702-hal/src/i2c.rs:439-445 | nor the reference, empty operations included |
| `I2cWire.FillAt` | cc2340r5-hal/src/i2c.rs:201-203 | Received bytes go to the read buffers in order, and nothing else changes |
| `Bl702I2c.ExecuteTransaction` | bl702-hal/src/i2c.rs:431-482 | For every bus: the calls are the transaction's calls up to the first that fails, and exactly the bytes received before it are stored, in order |
| `Bl702I2c.OpenRun` | bl702-hal/src/i2c.rs:447-449 | Start or repeated start, then the address |
| `Bl702I2c.ReadRun` | bl702-hal/src/i2c.rs:451-468 | Acknowledges all but the last byte of the run and stores each byte |
| `Bl702I2c.WriteRun` | bl702-hal/src/i2c.rs:469-478 | Writes the bytes of the run |
| `Bl702I2c.FindRunEnd` | bl702-hal/src/i2c.rs:439-445 | The end of the longest run of one direction |
| `Bl702I2c.TotalOf` | bl702-hal/src/i2c.rs:452-458 | The bytes a run of reads asks for |
| `Cc2340I2c.RunTransaction` | cc2340r5-hal/src/i2c.rs:137-207 | For every start status and every sequence of replies: which accesses are made, which error is returned, and which bytes are stored; all early exits leave everything untouched |
| `Cc2340Replies.RepliesDecide` | cc2340r5-hal/src/i2c.rs:120-134 | On status bits, over whole runs: success exactly when no wait reports a fault, lost arbitration, or an error that is a NACK of the address or of a sent byte; otherwise the first such names the error, arbitration before address before data |
| `Cc2340Replies.QuietRuns` | cc2340r5-hal/src/i2c.rs:120-134 | Without fault, lost arbitration and address NACK, only a sent byte fails, with `DataNack`; reads succeed although the last byte is NACKed |
| `Cc2340Replies.EveryByteStored` | cc2340r5-hal/src/i2c.rs:201-203 | After success each byte of each read buffer is the next one received |
| `Cc2340Replies.CleanRuns` | cc2340r5-hal/src/i2c.rs:116-208 | With statuses free of errors, the accesses of the transaction put the reference sequence on the bus |
| `Cc2340I2c.MoveOperation` | cc2340r5-hal/src/i2c.rs:166-204 | The bytes of one operation, up to the first that fails |
| `Cc2340I2c.MoveByte` | cc2340r5-hal/src/i2c.rs:171-203 | One byte: target, data, command, wait, check, store |
| `Cc2340I2c.StoreByte` | cc2340r5-hal/src/i2c.rs:201-203 | Each received byte goes to the next free place in the read buffers, in order |
| `Cc2340I2c.AnyEmpty` | cc2340r5-hal/src/i2c.rs:145-150 | True exactly when some operation moves no byte |
| `Cc2340I2c.FailureIsPrefixAndStop` | cc2340r5-hal/src/i2c.rs:187-200 | The accesses of a failing run are a prefix of the successful run's and one bare STOP |
| `Cc2340I2c.LogOnBus` | cc2340r5-hal/src/i2c.rs:170-187 | What the accesses for the first n bytes put on the bus is the reference sequence for n bytes, with the stop after the last |
| `Cc2340I2c.CommandBits` | cc2340r5-hal/src/i2c.rs:173-187 | The command word carries the flags it was built from |
| `StackReport.Graph.Analyze` | tools/tlsr8258-stack-report.py:329-363 | For every graph and root, after any earlier analyses: the edges cut by this search lie on cycles, and leave none; `subtree` is the true maximum path weight below every function the root reaches; `prefix` is the true maximum above, over the calls not recorded as recursive by this or an earlier search, for exactly the functions so reached; on a graph not analysed before these are all that the root reaches; and the three tables left are those of all the searches, one over the other |
| `StackReport.Graph.Visit` | tools/tlsr8258-stack-report.py:334-348 | The depth-first search finishes on any graph and does what the recursive search over values does; entries of earlier searches stay unless rewritten |
| `StackReport.Graph.Finish` | tools/tlsr8258-stack-report.py:345-348 | The end of a visit writes the entries of the function and marks it finished |
| `StackReport.Graph.TryCallee` | tools/tlsr8258-stack-report.py:337-344 | One callee: cut when active, visited when new, then compared, as in the search over values |
| `StackReport.Graph.PrefixPass` | tools/tlsr8258-stack-report.py:351-363 | The pass over the reversed order accounts for every kept call |
| `StackReport.Graph.ReachCallees` | tools/tlsr8258-stack-report.py:356-362 | One function of the pass |
| `StackReport.Graph.WorstPath` | tools/tlsr8258-stack-report.py:365-370 | From any name and after any searches the walk along `next` ends, although its entries may come from different searches; a name without entry gives itself |
| `StackReport.Graph.constructor` | tools/tlsr8258-stack-report.py:314-318 | A fresh graph has the tables of no search |
| `CallGraphRun.VisitKeeps` | tools/tlsr8258-stack-report.py:334-348 | The search over values keeps the invariant of colours, stack, cuts and tables, and what was finished before it |
| `CallGraphRun.SearchReaches` | tools/tlsr8258-stack-report.py:334-348 | A search has entries for exactly the functions that its root reaches |
| `CallGraphRun.CutsIgnoreFrames` | tools/tlsr8258-stack-report.py:334-340 | Which edges are cut depends on the calls alone, not on the frames |
| `CallGraphHistory.SubtreesAfter` | tools/tlsr8258-stack-report.py:345-346 | After any searches on one graph: a function has a subtree exactly when some root reached it, and it is the heaviest path below by the calls that the last such search keeps |
| `CallGraphHistory.NextEntry` | tools/tlsr8258-stack-report.py:346-346 | The entry that `next` leads to was written by the same search, earlier, or by a later one, which is why the walk ends |
| `CallGraphHistory.WalkIsPath` | tools/tlsr8258-stack-report.py:365-370 | After any searches, the walk along `next` follows calls |
| `CallGraphHistory.WalkIsWorst` | tools/tlsr8258-stack-report.py:365-370 | It weighs exactly `subtree` for a function below which no later root reaches, in particular for all that the last root reaches |
| `Roots.DeepestExactly` | tools/tlsr8258-stack-report.py:435-450 | Exactly when the docstring holds: if every chain that a root's own search keeps is covered by a counted chain with the same end, the merged depths are the deepest for all frames; if not, there are frames for which no merged table has them |
| `Roots.DepthsExactly` | tools/tlsr8258-stack-report.py:435-450 | The same on chains: covering, which speaks of the calls and the roots alone, is equivalent to outweighing under all frames |
| `Roots.DeepestIsDominated` | tools/tlsr8258-stack-report.py:445-448 | A merged table has the deepest prefixes exactly when every chain of every root is outweighed by a counted one |
| `Roots.OneRootExactly` | tools/tlsr8258-stack-report.py:351-363 | For one root after any others: nothing is hidden exactly when every call that its search keeps, from a function it reaches, can be made by calls that no search recorded |
| `Roots.UndisturbedHidesNothing` | tools/tlsr8258-stack-report.py:358-359 | A test to make beforehand: if no edge recorded so far leaves a function that the next root reaches, every chain is counted |
| `MergedRoots.AnalyzeRoots` | tools/tlsr8258-stack-report.py:435-450 | For any graph, roots and earlier analyses: the merged table holds the heaviest chains counted for any root, of exactly the functions that have one; every root has its tables; the depths are those of the docstring if nothing is hidden |
| `MergedRoots.MergeInto` | tools/tlsr8258-stack-report.py:445-448 | Merging one table, in any order: the larger entry with its parent, the earlier one of equals |
| `MergedRoots.MergeDepth` | tools/tlsr8258-stack-report.py:445-448 | The larger of the two entries is the heaviest over one root more |
| `MergedRoots.MergeClimbs` | tools/tlsr8258-stack-report.py:447-448 | Every merged entry has its parent by a call counted for the root it came from, and is no more than the parent's depth and frame |
| `MergedChains.NoLoop` | tools/tlsr8258-stack-report.py:417-422 | Walking along the merged parents never returns, although the entries come from different roots: the first of these roots has cut a call of every loop, and no later pass uses that call |
| `MergedChains.ChainWeighs` | tools/tlsr8258-stack-report.py:417-422 | The chain of a merged entry starts at a root, follows calls, meets no function twice and weighs at least the depth kept |
| `MergedChains.ChainIsExact` | tools/tlsr8258-stack-report.py:417-422 | When the roots do not disturb each other, it is a chain counted for its root and weighs exactly the depth kept |
| `MergedChains.ChainTo` | tools/tlsr8258-stack-report.py:417-422 | The walk along the merged parents ends at a function without parent; a name without entry gives itself |
| `StackReport.TablesAreExact` | tools/tlsr8258-stack-report.py:329-363 | A finished search and pass give exact tables |
| `SecondRoot.SecondRootLoses` | tools/tlsr8258-stack-report.py:351-363 | Of two functions that call each other, the root analysed second has no prefix for the function it calls, because the first search recorded that call as recursive |
| `SecondRoot.TwoRoots` | tools/tlsr8258-stack-report.py:435-450 | `analyze_roots` on these two: the merged depth of the first is 0, which is not the deepest once the second has a frame |
| `SecondRoot.MergedLoses` | tools/tlsr8258-stack-report.py:445-448 | The merged table on these two, and the chain of the second root that it misses |
| `SecondRoot.VisitBoth` | tools/tlsr8258-stack-report.py:334-348 | Visiting one of two functions that call each other cuts exactly the call back |
| `ThreeFunctions.ThirdRoot` | tools/tlsr8258-stack-report.py:435-450 | `analyze_roots` and `chain_to` on two such functions and a third that calls both: no function is lost, a depth is too small, and a chain is heavier than the depth kept |
| `ThreeFunctions.NothingLostYetTooSmall` | tools/tlsr8258-stack-report.py:445-448 | The depth too small, and the chain of the third function that it misses |
| `ThreeFunctions.ShownChain` | tools/tlsr8258-stack-report.py:417-422 | The chain for one of the two runs through all three, and exceeds the depth kept by the third one's frame |
| `SecondRoot.LosesNothing` | tools/tlsr8258-stack-report.py:353-362 | After a search and its pass, every finished function has some prefix exactly when each but the root is called by another with a call not recorded; whether that prefix is deep enough is the matter of `Roots.DeepestExactly` |
| `SecondRoot.RootCuts` | tools/tlsr8258-stack-report.py:338-340 | What a search from either cuts: the call back to the root |
| `CallGraphSearch.CutStep` | tools/tlsr8258-stack-report.py:338-340 | Cutting an edge to an active function closes a cycle and keeps the invariant |
| `CallGraphSearch.CompareStep` | tools/tlsr8258-stack-report.py:343-344 | Comparing a finished callee keeps the best so far |
| `CallGraphSearch.LeaveKeeps` | tools/tlsr8258-stack-report.py:345-348 | Finishing a function keeps the invariant |
| `CallGraph.NoCycle` | tools/tlsr8258-stack-report.py:338-340 | Kept calls never return to a function |
| `CallGraph.SubtreeBounds` | tools/tlsr8258-stack-report.py:343-345 | No path below a function weighs more than its `subtree` |
| `CallGraph.PrefixBounds` | tools/tlsr8258-stack-report.py:353-362 | No path from the root weighs more than `prefix` and the frame of its last function |
| `CallGraphPrefix.SubtreeExact` | tools/tlsr8258-stack-report.py:345-346 | and some path weighs as much |
| `CallGraphPrefix.PrefixExact` | tools/tlsr8258-stack-report.py:360-362 | and some path weighs as much |
| `CallGraphPrefix.PrefixMeansReached` | tools/tlsr8258-stack-report.py:353-362 | A function has a prefix exactly when the root reaches it by calls not recorded as recursive |
| `CallGraphPrefix.PassReachesAll` | tools/tlsr8258-stack-report.py:353-362 | When only the search's own edges are recorded, the pass reaches every finished function |
| `CallGraphPrefix.FinishedMeansReachable` | tools/tlsr8258-stack-report.py:334-348 | The search finishes exactly the functions that the root reaches, through cut edges or not |
| `ChainBudget.Check` | tools/tlsr8258-stack-report.py:511-538 | For prefixes merged over any roots, subtrees of any searches, with or without parents: nothing that the tables see through a matching function uses more than `worst_through`; the path runs by calls from a root through the entry (from the entry, without parents) along the parents and `next`, and its bytes are summed exactly; these are `worst_through` when the roots do not disturb each other and one root settled the entry; the entry is the first of the worst; the match count, terminal, largest frame and failure are the right ones |
| `ChainBudget.PassesMeansWithin` | tools/tlsr8258-stack-report.py:534-538 | A budget passes exactly when a matching function has a prefix and nothing that the tables see through one exceeds it |
| `ChainBudget.ThroughExact` | tools/tlsr8258-stack-report.py:517-517 | `prefix` plus `subtree` is the weight of the heaviest chain that the tables see through a function |
| `ChainBudget.SeenFromOne` | tools/tlsr8258-stack-report.py:517-517 | With one root, that means all paths from the root through the function by calls that its search keeps |
| `ChainBudget.OneRootShows` | tools/tlsr8258-stack-report.py:523-532 | With one root, the path reported uses exactly `worst_through` |
| `ChainBudget.EntryOf` | tools/tlsr8258-stack-report.py:521-522 | The worst match closest to the root and then least by name, and of equals the first in the symbol table |
| `ChainBudget.BeforeExactly` | tools/tlsr8258-stack-report.py:521-522 | Names compare as strings do: by the first place where they differ, or where one ends |
| `ChainBudget.WorstOf` | tools/tlsr8258-stack-report.py:517-517 | The maximum over the matches |
| `ChainBudget.PathThrough` | tools/tlsr8258-stack-report.py:523-524 | The path up to the entry and on from it, as described for `Check` |
| `ChainBudget.LargestOf` | tools/tlsr8258-stack-report.py:525-525 | The first function on the path whose frame no other exceeds |
| `ChainBudget.SelectHas` | tools/tlsr8258-stack-report.py:515-516 | The matches are the symbols that match and have a prefix |
| `ChainBudget.PathBytes` | tools/tlsr8258-stack-report.py:531-531 | The sum of the frames on the path |

## Left out

- The firmware writer (`mcuboot-image/src/writer.rs`) and the protocol stack; staging is modelled as an arbitrary rewrite of the secondary slot by running firmware.
- SHA-256 itself: an arbitrary function from bytes to digests. The signature check is a parameter of image validation; `ImageSignature.CheckSignature` shows what it is for P-256.
- Progress callbacks of the boot loader, which do not influence it.
- Addresses that overflow 32 bits, and overlapping or misaligned slots: excluded by the layout predicate `Fits`.
- A torn erase or write has done a prefix of its work, at byte granularity; bits left between states by a torn operation are not modelled.
- BootSafety.PowerFailSafety: the exception it states is the code's, described above.
- P256.Verify: primality of p and n and associativity of curve addition are hypotheses, not proved.
- EcdsaSigning.AcceptsWhatIsSigned: that n times the base point is infinity is a hypothesis, not proved; and a key without a private key is not covered.
- Timing and side channels of the curve arithmetic, which the source disclaims.
- RtccTime.SamplesAreTrueTime: assumes that the overflow interrupt is serviced before the next wrap and that 64 bits of ticks do not run out, as the source does.
- RtccAlarm.Alarm.Elapse: assumes that at most one tick passes between two register accesses made with interrupts masked, and that the overflow interrupt is serviced before the next wrap; the queue, a library type, is taken to be the timer queue of the CC2340 driver, which follows the same interface.
- RtccAlarm.LateClearLosesAlarm: that a write of the compare value takes effect late in the low-frequency clock domain, the reason given in the source, is not modelled; the write takes effect at once.
- RtccAlarm.Alarm.constructor: a queue of no slots is excluded, since scheduling on it would panic.
- SystimDriver.Driver.Elapse: assumes that a raised compare interrupt is serviced within 2^31 microseconds, that less than a minute passes between two register accesses of one operation, and that the 64-bit clock does not run out.
- TimerQueues.TimerQueue.ScheduleWake: wakers are identifiers compared for equality; what waking does is outside, and so is the panic of a full queue of no slots.
- The hardware packet path of the BL702 I2C driver (`transfer_packet`) and bit-level timing on both buses. The bus semantics of a CC2340 command word is part of the model, since the peripheral itself is hardware.
- Bl702I2c.ExecuteTransaction: the stop condition its caller issues after an error is not modelled.
- MergedChains.ChainIsExact: one way only; that the chain of an entry weighs exactly its depth is proved for roots that do not disturb each other, and shown to fail in `ThreeFunctions.ShownChain`.
- Disassembly parsing, demangling and pattern matching of the stack report; a pattern is an arbitrary predicate on names.
- Register-level drivers, packaging tools and build scripts.
