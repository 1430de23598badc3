# Verification of the LED/telemetry firmware's core

A Dafny 4.11 model of the parts of the firmware whose correctness is hardest to see from the code, with proofs
about every input, every run and every reachable state. Check it with `dafny verify dfyconfig.toml`.

The project follows the firmware's files. Code that works in place is modelled as classes and methods over arrays
and fields, each proved against a function of the old state; what the firmware promises is then proved about those
functions. The four cores are:

* **Encryption with generated vectors** (`src/app_crypto.c`, `src/simple_aes.c`): `Lcg`, `Entropy`, `EntropyThreads`,
  `Gf256`, `AesTables`, `SboxMeaning`, `SimpleAes`, `AesBytes`, `AesContext`, `AppCrypto`. The generator has full period, so the
  vectors of a boot are distinct (also when threads race for draws, of which one always succeeds); the cipher is a permutation; so
  no keystream block is used twice, and decrypting undoes encrypting. The S-box is proved to be inversion in the field followed by
  the affine map of section 5.1.1 of FIPS 197, and `gf_mul` to be multiplication modulo x^8 + x^4 + x^3 + x + 1; in these terms
  `AesBytes` says byte by byte what the rounds and the key schedule compute, and that two rounds spread every byte over the block.
* **Arithmetic modulo 2^255 - 19** (`src/curve25519_ref10.c`): `FieldValue`, `FieldElement`, `Fermat`, `FieldInvert`.
  `fe_mul` never leaves 64 bits, is right modulo the prime and delivers limbs small enough for the next
  addition and multiplication; `fe_invert` computes the inverse.
* **The watchdog** (`src/watchdog_ctrl.c`, `src/supervisor.c`, `src/persist_state.c`, `src/main.c`): `WatchdogCtrl`,
  `Supervisor`, `SupervisorRuns`, `RetuneRuns`, `RetuneRace`, `PersistState`, `PersistStore`, `Device`. A pass of the supervisor, its
  runs against wall-clock time and the hardware counter, by when a wanted timeout is in force, what a request that races with a
  pass may lose, and runs of the whole device that span reboots, through records that are written to flash plain or encrypted.
* **Provisioning over the console** (`src/uart_commands.c` and the hexadecimal coders of all files): `Hex`, `CurveKeys`,
  `CommandLine`, `UartCommands`, `TimeoutRuns`. From the bytes a host sends to the key records in flash, or to the timeout in force
  and the override that the next boot finds.

`Arith`, `Bytes` and `Results` hold what the others share. Clocks, the answers of drivers, and whether a flash write succeeds are
parameters of the calls; the flash is a map from record ids to byte strings in which a refused write changes nothing.
The configuration numbers (periods, limits, thresholds, clock frequency, buffer length) are parameters too.

Where the code and its documentation differ, the model follows the code: `docs/simple_aes.md` speaks of AES-128 only,
but the code expands 16, 24 and 32-byte keys; `docs/supervisor.md` and `docs/persist_state.md` name a
`persist_state_clear_watchdog_history` that does not exist, and have safe mode's count cleared once the system proves
healthy, whereas `main` clears it on entry.

Facts about the code that a reader may not expect, each proved:

* at a 32 kHz clock the console accepts and persists timeouts of 32768 to 60000 ms that the hardware cannot be given: the supervisor
  retries for ever, the old timeout stays, and the count of watchdog resets is not cleared again (`OutOfReachForEver`);
* a target requested while a pass of the supervisor is retuning to another one is forgotten: the pass then declares retuning over
  (src/supervisor.c:165-169), and no later pass puts the target in force (`RequestIsLost`, `LostForEver`); in every interleaving
  without such an overtaking the bookkeeping stays right (`SettledUnlessOvertaken`);
* `stm32_iwdg_compute` by itself wraps from 2^27 ms on, so that 134217729 ms would be programmed as 1 ms (`LongTimeoutWraps`); the
  firmware never asks for that, since `Kconfig` and `apply_timeout` bound every timeout to 60000 ms;
* `wdg -4294967196` is accepted as a timeout of 100 ms, since `strtoul` negates modulo 2^32 (`ParseShown`);
* a peer token of fewer than 64 characters keeps the scalar before it from being stored, while a longer or misspelt one
  does not (`WordsDecide`);
* with a provisioning buffer (`CONFIG_APP_PROVISION_CMD_BUFFER`, which has no lower limit) of 140 bytes or fewer the line that
  carries a scalar and a peer does not store both (`ProvisioningStores`);
* a heartbeat notified in the one millisecond in which the 32-bit clock reads 0 counts as never seen (`FreshExactly`);
* a blob that was stored encrypted is replaced by defaults when it is loaded with encryption off (`StoreThenLoad`).

## Model

| member | source | states |
|---|---|---|
| Lcg.Displacement | src/app_crypto.c:86 | n steps of the generator, unreduced, move x by (1 + a + ... + a^(n-1)) * ((a - 1) * x + c) |
| Lcg.SumValuation | src/app_crypto.c:86 | that geometric sum is divisible by 2^k exactly when n is |
| Lcg.OrbitPositions | src/app_crypto.c:79-95 | two points of an orbit are equal exactly when their positions agree modulo the modulus, for every multiplier that is 1 modulo 4 and every odd increment |
| Entropy.MixUndone | src/app_crypto.c:89-92 | the xorshift mix of a draw is a bijection on 32-bit values, with an explicit inverse |
| Entropy.StatePositions | src/app_crypto.c:84-87 | the firmware's generator has period exactly 2^32 from every state |
| Entropy.FirstWordTells | src/app_crypto.c:110-118 | neither the seed nor the call counter hides the first draw: equal vectors have equal first draws |
| Entropy.SeedIsXored | src/app_crypto.c:110-112 | with equal draws and counters, two seeds give vectors whose exclusive or is that of the seeds |
| Entropy.CounterIsXored | src/app_crypto.c:114-118 | with equal draws and seeds, two counters give vectors with equal first eight bytes, whose last four differ by the exclusive or of the big-endian counters |
| Entropy.ZeroSeedGivesDraws | src/app_crypto.c:99-118 | with a zero seed the first vector is the three draws as they lie in memory |
| Entropy.FirstVector | src/app_crypto.c:79-119 | the first vector of a boot with the default seed 000102...0B is f52cc944ce7ea104a99fddd8 |
| Entropy.IvsRepeatExactly | src/app_crypto.c:97-119 | two calls of `generate_iv` in one boot give equal vectors exactly when their numbers agree modulo 2^32, from every start |
| Entropy.IvOfLaterCall | src/app_crypto.c:97-119 | numbering the calls again from a later state gives the same vectors |
| EntropyThreads.NextKeepsInv | src/app_crypto.c:84-87 | every atomic step of any thread keeps: all draws, finished or in hand, are points of one orbit at pairwise distinct positions, within a vector as between vectors |
| EntropyThreads.VectorsStayDistinct | src/app_crypto.c:79-119 | under every interleaving the n-th successful swap installs the n-th point of the orbit, the k-th vector comes of three of these draws and the k-th counter value, no draw serves twice, and while at most 2^32 draws are made no two vectors are equal |
| EntropyThreads.SomebodyDraws | src/app_crypto.c:84-87 | lock freedom: between a load and the swap that follows it, or with that swap, some thread's draw succeeds |
| EntropyThreads.UninterruptedCall | src/app_crypto.c:97-119 | from any state a call without interruption issues the vector of `generate_iv` and leaves its state and counter |
| Gf256.MultiplyBytes | src/simple_aes.c:33-44 | the loop of `gf_mul` ends and gives the field product |
| Gf256.GfMulIsProductModulo | src/simple_aes.c:28-44 | the polynomial product of two bytes is `gf_mul` of them plus a multiple of x^8 + x^4 + x^3 + x + 1 (section 4.2 of FIPS 197) |
| Gf256.RemainderIsUnique | src/simple_aes.c:28-44 | no other byte differs from the product by such a multiple |
| Gf256.GfMulXor | src/simple_aes.c:33-44 | `gf_mul` distributes over exclusive or in its first factor |
| Gf256.GfMulXorRight | src/simple_aes.c:33-44 | and in its second |
| Gf256.ProductsCommute | src/simple_aes.c:33-44 | a product of three bytes does not depend on the order in which two of them are applied |
| SboxMeaning.SboxIsAffineInverse | src/simple_aes.c:5-22 | every entry of the S-box is the affine map of the multiplicative inverse of its index, with 0 standing for its own inverse |
| AesTables.InvSboxUndone | src/simple_aes.c:5-22 | the S-box is a permutation: its inverse table undoes it |
| SimpleAes.MixUndone | src/simple_aes.c:131-145 | the inverse matrix undoes the mixing of a column, and mixing undoes it |
| SimpleAes.RoundUndone | src/simple_aes.c:163-168 | a round is undone by the inverse round, for every round key |
| SimpleAes.CipherIsPermutation | src/simple_aes.c:154-176 | for every key schedule and every number of rounds the cipher is a permutation of blocks, both ways round |
| AesBytes.CipherByByte | src/simple_aes.c:98-176 | the rounds byte by byte: after each full round byte r of column c is a key byte xor 2, 3, 1, 1 times the S-box values of rows r to r + 3, row q taken from column c + q; after the last round without products (section 5.1 of FIPS 197), S being the affine map of the field inverse |
| AesBytes.OneByteSpreadsToAColumn | src/simple_aes.c:105-145 | blocks that differ in exactly one byte differ after a full round in exactly the four bytes of one column |
| AesBytes.TwoRoundsSpreadToTheBlock | src/simple_aes.c:105-168 | and after two full rounds in all sixteen, for all round keys |
| AesContext.RotateRows | src/simple_aes.c:105-129 | the sixteen assignments rotate row r left by r columns |
| AesContext.MixStateColumns | src/simple_aes.c:131-145 | mixes every column of the state |
| AesContext.Context.EncryptBlock | src/simple_aes.c:154-176 | leaves the cipher of the old input in the output, which may be the input buffer; there are states from input to output in which each round is as `AesBytes` says byte by byte |
| AesContext.Context.SetKeyEnc | src/simple_aes.c:63-96 | for 16, 24 and 32 bytes the key and then words whose bytes are as `ScheduleByByte` says, inside the 240-byte buffer; any other length is refused and changes nothing |
| AesContext.ScheduleByByte | src/simple_aes.c:78-93 | byte t of word i xor that of word i - Nk is, at multiples of Nk, the S-box of byte t + 1 of word i - 1, in byte 0 xor x^(i/Nk - 1); for Nk = 8 and i mod 8 = 4 the S-box of byte t; otherwise byte t of word i - 1 (section 5.2 of FIPS 197) |
| AesContext.ScheduleIsReversible | src/simple_aes.c:78-93 | any Nk consecutive words of the schedule determine the key |
| AppCrypto.CtrUndone | src/app_crypto.c:131-152 | counter mode applied twice under one key and vector gives the data back |
| AppCrypto.CtrByByte | src/app_crypto.c:131-152 | byte k of the result is byte k of the data xor byte k mod 16 of the cipher of the block that holds the vector and the big-endian number k / 16 (section 6.5 of NIST SP 800-38A) |
| AppCrypto.CarryValue | src/app_crypto.c:121-129 | bytes that overflow up to one that absorbs the carry add one to the big-endian number |
| AppCrypto.IncrementCounter | src/app_crypto.c:121-129 | big-endian plus one modulo 2^32 on the last four bytes; the vector is never touched |
| AppCrypto.CounterBlocksDiffer | src/app_crypto.c:134-137 | two cipher input blocks are equal exactly for the same vector and the same block number modulo 2^32 |
| AppCrypto.KeystreamBlocksDiffer | src/app_crypto.c:139-151 | so are two keystream blocks, for every key |
| AppCrypto.KeystreamNeverReused | src/app_crypto.c:97-152 | keystream blocks of the m-th and m'-th vector of a boot are equal exactly when the vector numbers and the block numbers agree modulo 2^32 |
| AppCrypto.SealAll | src/app_crypto.c:292-319 | of messages encrypted one after another the m-th accepted one is encrypted under the m-th vector of the boot, and while there are at most 2^32 of at most 2^32 blocks no keystream block serves two of all their blocks |
| AppCrypto.InterleavedKeystreamNeverReused | src/app_crypto.c:79-152 | the same for the vectors that threads draw under any interleaving, while at most 2^32 draws are made |
| AppCrypto.Crypto.Init | src/app_crypto.c:204-290 | every error, those of the seed before those of the key; success exactly for a 12-byte seed and a key of 16, 24 or 32 bytes in hexadecimal, and then that key's schedule |
| AppCrypto.Crypto.GenerateIv | src/app_crypto.c:97-119 | delivers the next vector, to which the seed, the counter and three draws contribute as the rows of `Entropy` say, and moves the generator by three draws |
| AppCrypto.Crypto.CtrProcess | src/app_crypto.c:131-152 | byte k becomes byte k of the input xor byte k mod 16 of keystream block k / 16, also for a partial last block and in place |
| AppCrypto.Crypto.EncryptBuffer | src/app_crypto.c:292-319 | the three refusals, in order and without effect; otherwise the counter-mode text under a fresh vector, and nothing behind it |
| AppCrypto.Crypto.DecryptBuffer | src/app_crypto.c:321-345 | the same for decryption |
| AppCrypto.SealAndOpen | src/app_crypto.c:292-345 | decrypting what was encrypted gives the plaintext |
| FieldValue.ProductValue | src/curve25519_ref10.c:76-112 | the ten sums of ten products stand for the product of the two values modulo 2^255 - 19 |
| FieldElement.SumOfProductsIsLegal | src/curve25519_ref10.c:33-45 | one addition or subtraction of outputs of `fe_mul` is again a legal input of it |
| FieldElement.Dot | src/curve25519_ref10.c:93-112 | no product and no partial sum leaves 64 bits |
| FieldElement.CarryLow | src/curve25519_ref10.c:114-131 | the first six carries leave the value alone and reduce six limbs |
| FieldElement.CarryHigh | src/curve25519_ref10.c:132-149 | of the last six carries the wrapping one changes the value by a multiple of 2^255 - 19 only, and all limbs end within 1.01 * 2^25 and 1.01 * 2^24 |
| FieldElement.FeMul | src/curve25519_ref10.c:53-161 | the product modulo 2^255 - 19, for limbs up to 1.65 * 2^26 and 1.65 * 2^25, without overflow and under every aliasing of the three buffers |
| FieldElement.FeAdd | src/curve25519_ref10.c:33-38 | limb-wise sum under every aliasing |
| FieldElement.FeSub | src/curve25519_ref10.c:40-45 | limb-wise difference under every aliasing |
| FieldElement.FeSq | src/curve25519_ref10.c:48-51 | the square modulo 2^255 - 19 |
| FieldInvert.SquareRepeatedly | src/curve25519_ref10.c:183-222 | n squarings raise to the power 2^n |
| FieldInvert.FeInvert | src/curve25519_ref10.c:170-224 | the addition chain computes z to the power 2^255 - 21 with every intermediate a legal input, also when the result overwrites z; if 2^255 - 19 is prime and does not divide z, the result is the inverse of z |
| Fermat.LittleTheorem | src/curve25519_ref10.c:170-224 | a^(p-1) is 1 modulo p for every prime p that does not divide a |
| FieldInvert.PowerIsInverse | src/curve25519_ref10.c:170-224 | whatever is congruent to that power of z is the inverse of z, for z not divisible by the prime |
| WatchdogCtrl.Compute | src/watchdog_ctrl.c:36-64 | the search ends with the least workable prescaler and its reload value, or refuses when there is none; the clamp is never taken |
| WatchdogCtrl.ChosenIsTight | src/watchdog_ctrl.c:43-63 | the programmed time never exceeds the one asked for and misses it by less than one divider; no smaller prescaler fits; with a prescaler above 0 the reload value is at least 2047 |
| WatchdogCtrl.TicksOfTimeout | src/watchdog_ctrl.c:38-41 | for every clock the tick count is the timeout times the clock exactly while that fits in 32 bits |
| WatchdogCtrl.SteadyDefault | src/watchdog_ctrl.c:36-64 | 2000 ms at 32 kHz are prescaler code 2 and reload value 3999, 64000 ticks |
| WatchdogCtrl.Programmable | src/watchdog_ctrl.c:36-64 | at 32 kHz the tick count wraps exactly from 2^27 ms on, and exactly the timeouts that are 1 to 32767 ms modulo 2^27 can be programmed |
| WatchdogCtrl.LongTimeoutWraps | src/watchdog_ctrl.c:41 | 2^27 + 1 ms is programmed as 1 ms |
| WatchdogCtrl.Controller.RetuneTo | src/watchdog_ctrl.c:157-181 | which refusal has which answer; after 0 the timeout asked for is the current one, and if it changed, the counter has just been reloaded and its period does not exceed the timeout and misses it by less than the divider; any other answer leaves the current timeout and the last reload |
| WatchdogCtrl.RetuneMeaning | src/watchdog_ctrl.c:66-88 | the same with the period in every case: it changes to one that fits the new timeout also when the registers then do not update in time, and in no other case |
| WatchdogCtrl.Controller.FeedNow | src/watchdog_ctrl.c:127-138 | the answers of `watchdog_ctrl_feed`, and a reload exactly when the driver took the feed |
| Supervisor.Thread.Pass | src/supervisor.c:204-256 | one pass of the loop over the file's statics |
| Supervisor.Thread.TryRetune | src/supervisor.c:156-192 | retune when due: done, given up as unsupported, or put off by one period, as the rows of `RetuneRuns` say |
| Supervisor.Thread.Begin | src/supervisor.c:262-287 | the state that `supervisor_start` leaves |
| SupervisorRuns.RetuneStaysSettled | src/supervisor.c:156-192 | in every run after start: retuning is done exactly when it is not pending, and then the wanted timeout is the current one unless retuning was reported unsupported |
| SupervisorRuns.PassClears | src/supervisor.c:164-219 | the persisted count is cleared only by a pass that has put the wanted timeout in force, or that finds retuning over, the grace past and both heartbeats fresh |
| SupervisorRuns.ClearedOncePerTarget | src/supervisor.c:156-219 | in every run it is cleared at most once for each target, that of the boot and those requested later |
| SupervisorRuns.CounterRefinesHistory | src/supervisor.c:202-256 | at every loop head the failure counter is the number of failing passes since the last clearing one, modulo three, and a request was made at exactly every third failure |
| SupervisorRuns.FreshExactly | src/supervisor.c:117-141 | across wrap-around of the 32-bit clock a heartbeat is fresh exactly when it is at most the limit old and not stamped 0 |
| SupervisorRuns.Detected | src/supervisor.c:108-256 | once a monitored heartbeat stops, recovery is requested within three sample gaps of the later of its staleness limit and the end of the grace |
| SupervisorRuns.NoFalseAlarm | src/supervisor.c:194-256 | while all post-grace passes see both heartbeats fresh and feeds are not refused by the driver, recovery is never requested |
| SupervisorRuns.HardwareNeverExpires | src/supervisor.c:194-256 | while heartbeats stay fresh, feeds succeed and the gap is shorter than every programmed timeout, the hardware counter never runs down, through retunings, new targets and renewed enablings |
| SupervisorRuns.OverdueRunLeavesHardware | src/supervisor.c:194-256 | once a heartbeat is overdue for good after the grace with no retune pending, nothing reloads the counter |
| SupervisorRuns.HardwareExpires | src/supervisor.c:194-256 | from the moment a heartbeat stops with no retune pending: the last reload comes no later than when the heartbeat falls due, and the counter has run down at every time from then plus one programmed timeout |
| SupervisorRuns.OutOfReachForEver | src/supervisor.c:156-219 | a target that cannot be programmed is retried for ever: the old timeout stays in force and the persisted count is never cleared, however healthy the system |
| SupervisorRuns.LongTargetsAreOutOfReach | src/uart_commands.c:154-169 | at 32 kHz these are exactly the targets of 32768 to 60000 ms among those the console accepts |
| RetuneRuns.PassRetunes | src/supervisor.c:156-173 | a pass at or after the scheduled time, with a target that can be set and ready registers: the target is in force and the counter fits it, retuning is over, the persisted count is cleared once |
| RetuneRuns.PassWaits | src/supervisor.c:156-192 | every other pass leaves the timeout in force; before the scheduled time the schedule stays, later it is given up in a build without registers and put off by one period otherwise |
| RetuneRuns.PassClearsExactly | src/supervisor.c:164-219 | a pass clears the persisted count exactly when it retunes, or when the count is not yet cleared for this target, retuning was over, the grace is past and both heartbeats are fresh |
| RetuneRuns.TargetInForceBy | src/supervisor.c:156-256 | with passes at most gap apart the wanted timeout is in force by the scheduled time plus gap, the count cleared once with it, and it stays in force for the rest of every run without a new request |
| RetuneRuns.TargetNotBefore | src/supervisor.c:156-160 | in no run before the scheduled time is the timeout touched |
| RetuneRuns.SteadyInForceBy | src/supervisor.c:262-287 | after `supervisor_start` the steady timeout is in force by the retune delay plus gap |
| RetuneRuns.RequestInForceBy | src/supervisor.c:289-298 | after `supervisor_request_watchdog_target` the target is in force by gap, or by the retune delay plus gap |
| RetuneRuns.PeriodFitsTimeout | src/watchdog_ctrl.c:66-88 | in every run that sets no unready registers the counter is as the driver set it at boot, or its period fits the timeout reported as in force |
| RetuneRuns.DisabledLeavesHardware | src/supervisor.c:223-256 | while feeding is disabled and no retune is pending nothing reloads the counter |
| RetuneRace.UndisturbedPass | src/supervisor.c:204-256 | the snapshot, the retune, the write-back and the rest of a pass in a row are the pass as one step |
| RetuneRace.ActKeeps | src/supervisor.c:156-192 | every atomic action of any thread keeps the retune bookkeeping right, exactly unless it writes a success back over a target other than the one just put in force |
| RetuneRace.SettledUnlessOvertaken | src/supervisor.c:156-256 | so in every interleaving in which that does not happen, retuning counts as over only when the wanted timeout is in force or cannot be |
| RetuneRace.RequestIsLost | src/supervisor.c:163-173 | a request between the retune and the write-back is forgotten exactly when its target is another one, and the persisted count is cleared all the same |
| RetuneRace.LostForEver | src/supervisor.c:156-160 | a forgotten target is not in force after any interleaving until there is another request |
| PersistState.BlobRoundTrip | src/persist_state.c:319-330 | the blob's 20 bytes decode to the blob |
| PersistState.BlobLayout | src/persist_state_priv.h:10-16 | the five fields in their order, four bytes each, least significant first |
| PersistState.LoadExactly | src/persist_state.c:145-197 | a record loads exactly when it has 20 bytes, or 32 and encryption is on; otherwise the answer is -ENOENT |
| PersistState.StoreThenLoad | src/persist_state.c:145-223 | for all blobs, vectors and the four pairs of encryption on and off: the same blob with the same key or from a plain record, defaults from an encrypted record without encryption |
| PersistState.MountLands | src/persist_state.c:319-330 | mounting takes a valid blob as it is and otherwise starts from zeros; it leaves the flash decoding to RAM exactly when it held a valid blob or took the zeros |
| PersistState.ApplyLands | src/persist_state.c:225-236 | after any operation the flash decodes to RAM if the operation wrote and the flash took it, and to what it did before otherwise |
| PersistState.FlashHoldsLastCommitted | src/persist_state.c:319-448 | whatever writes are refused in a run, the flash decodes to exactly the blob of the last write it took, which is the one in RAM while none was refused |
| PersistState.RamFollowsHistory | src/persist_state.c:351-448 | in every run that loses no write, or never reloads: the counts, the override and the session counter in RAM are the watchdog resets of the running series and of all, the override set last, and the sessions opened, modulo 2^32 |
| PersistStore.Persist.ReadEncrypted | src/persist_state.c:145-172 | by the stored record's length: decrypts it, takes it as plain, or reports the length |
| PersistStore.Persist.LoadBlob | src/persist_state.c:175-197 | the two attempts in order, and which errors end the first |
| PersistStore.Persist.CommitLocked | src/persist_state.c:199-236 | replaces the record or leaves it on failure; other records stay; with encryption on the record is the next vector and bytes that counter mode under it turns into the encoded blob, otherwise the encoded blob |
| PersistStore.Persist.InitFsIfNeeded | src/persist_state.c:238-338 | three tries to open and to mount with the error each failure gives; then loads a valid blob or commits defaults, once |
| PersistStore.Persist.RecordBootNow | src/persist_state.c:351-369 | mounts if need be; counts up on a watchdog reset, clears otherwise, and commits; nothing on flash that does not mount |
| PersistStore.Persist.ClearWatchdogCounter | src/persist_state.c:371-382 | mounts if need be; clears and commits only when there is something to clear |
| PersistStore.Persist.SetWatchdogOverride | src/persist_state.c:414-432 | mounts if need be; commits a changed override, and reports success for an unchanged one without writing |
| PersistStore.Persist.NextSessionCounter | src/persist_state.c:434-448 | the next count, committed, or 0 on flash that does not mount |
| PersistStore.Persist.SetSecret | src/persist_state.c:491-520 | mounts if need be and writes the clamped scalar behind its magic number; which error a failure gives |
| PersistStore.Persist.SetPeer | src/persist_state.c:547-574 | the same for the peer, unclamped |
| PersistStore.KeyRecordRoundTrip | src/persist_state.c:451-545 | a stored key is found under its own magic number and under no other |
| PersistStore.KeyRecordExactly | src/persist_state.c:451-545 | a record yields a key exactly when it is the record of that key |
| PersistStore.KeyRecordLayout | src/persist_state.c:34-42 | four bytes of magic number, least significant first, and the key |
| Device.BootPersist | src/main.c:110-134 | the boot's effect on the persisted state and its decision for safe mode, each call trying again to mount flash that is not |
| Device.BootMountsAtOnce | src/main.c:110-134 | on flash that mounts at the first attempt this is the boot that the runs below consist of |
| Device.UnmountedBootIsNotCounted | src/persist_state.c:355-358 | a boot on which the flash does not mount changes nothing on it and does not enter safe mode |
| Device.BootWatchdog | src/main.c:141-168 | the timeouts and the supervisor that a boot starts with, in and out of safe mode; which refusal of the driver gives which error, and that nothing starts then |
| Device.AdvanceCounts | src/main.c:119-134 | every step of the device, boots included, keeps the correspondence between persisted counters and history |
| Device.ResetsAreCounted | src/main.c:119-134 | over every run of boots with successful writes: the persisted count is the number of watchdog-reset boots since the last clearing event and stays below the threshold after boot; safe mode is entered exactly when a series reaches the threshold; the total counts all of them modulo 2^32 |
| Device.FreshFlashCounts | src/persist_state.c:319-369 | a first boot on flash without a valid blob starts the correspondence, with no override and no session |
| CurveKeys.ClampScalar | src/curve25519_ref10.c:408-413 | the three assignments clamp in place |
| CurveKeys.ClampMeaning | src/curve25519_ref10.c:408-413 | clamping is idempotent, keeps bytes 1 to 30, and gives a multiple of 8 from 2^254 up to 2^255 (section 5 of RFC 7748) |
| CurveKeys.ClampedNumber | src/curve25519_ref10.c:408-413 | as a number the clamped scalar is 2^254 plus the given one modulo 2^254, rounded down to a multiple of 8 |
| Hex.DecodeMeaning | src/app_crypto.c:37-73 | exactly the characters of the two alphabets are digits; of the two digits of a byte the first counts sixteenfold |
| Hex.DecodeEncode | src/app_crypto.c:347-363 | decoding undoes encoding, in upper and lower case |
| Hex.DecodePairs | src/app_crypto.c:65-74 | the decoding loop succeeds exactly on digits and then gives the bytes they spell |
| Hex.ParseHexString | src/app_crypto.c:51-77 | which length gives which error, and the decoded bytes |
| Hex.DecodeHexToken | src/uart_commands.c:199-218 | the decoder of the console, of `main` and of the configured secret: exactly twice the digits, or an error |
| Hex.BytesToHex | src/app_crypto.c:347-363 | refuses a short buffer untouched; otherwise writes text that decodes to the source, and a terminator |
| CommandLine.WordsDecide | src/uart_commands.c:228-293 | for every line whose words begin `prov`, `curve`, however spaced, the next two words alone decide what is stored |
| CommandLine.ParsePrinted | tools/provision_curve.py:370-373 | the line a host prints for a scalar and an optional peer, in either case, parses to just these |
| CommandLine.ParseShown | src/uart_commands.c:337-351 | for every natural number whether its decimal is accepted as a timeout, bare and with a plus or a minus sign |
| CommandLine.TimeoutWordDecides | src/uart_commands.c:321-351 | for every line whose first word is `wdg`, however spaced, the next word alone decides what it means |
| CommandLine.TrailingTextRefused | src/uart_commands.c:345-348 | a number with other text behind it is refused |
| CommandLine.OtherLinesIgnored | src/uart_commands.c:315-375 | a line whose first word begins with neither `wdg` nor `prov` does nothing |
| UartCommands.ProvisionMeaning | src/uart_commands.c:93-134 | checking a line for completeness and then reading its keys is what the line means |
| UartCommands.CommandComplete | src/uart_commands.c:93-134 | walking along the line decides whether both tokens are complete |
| UartCommands.Console.AccumAppend | src/uart_commands.c:65-91 | joins with a space, cuts to the buffer, empties a full one; never writes outside |
| UartCommands.AppendedWords | src/uart_commands.c:65-91 | text that fits keeps its words, and the new ones follow |
| UartCommands.Console.HandleProvision | src/uart_commands.c:228-293 | the records that result, for every outcome of the two writes |
| UartCommands.Console.HandleLine | src/uart_commands.c:296-376 | the effect of a line on keys, persisted override and supervisor; it does not depend on earlier lines, and the continuation branch is dead |
| UartCommands.Console.Receive | src/uart_commands.c:392-414 | a byte is buffered, dropped when the buffer is full, or ends the line |
| UartCommands.Console.Listen | src/uart_commands.c:378-415 | a stretch of input byte by byte: pending text, key records, persisted state and supervisor |
| CommandLine.CutLineNeedsRoom | src/uart_commands.c:411-413 | no proper prefix of a printed line that cuts a key's digits means that key |
| UartCommands.LineIsObeyed | src/uart_commands.c:392-414 | of a line followed by CR LF, as much as the buffer holds is parsed, once |
| UartCommands.ProvisioningStores | src/uart_commands.c:296-415 | after any earlier input up to a line end, the host's line stores exactly the clamped scalar and the peer if it fits the buffer, and on an empty store only then |
| UartCommands.BadScalarChangesNothing | src/uart_commands.c:262-266 | a line whose scalar is not 64 hexadecimal digits changes no key record |
| UartCommands.RefusedWrites | src/uart_commands.c:262-290 | the scalar is written first: refused, it changes nothing; if only the peer is refused, the scalar alone is new |
| TimeoutRuns.BootTargetInForceBy | src/main.c:141-168 | a boot starts with the boot timeout, both heartbeats monitored and that of the system notified, keeps the timeout for the delay, and has the override, or without one the steady timeout, in force by the delay plus gap; in safe mode the larger of that and the boot timeout, without delay |
| TimeoutRuns.NoRequestAfterBoot | src/supervisor.c:223-227 | until the grace after the boot is over no recovery is requested, whatever the heartbeats and the driver do |
| TimeoutRuns.TimeoutLine | src/uart_commands.c:154-169 | `wdg` and a number in range: flash and RAM hold the override and the supervisor has the target, to be tuned to at once; a refused write leaves the flash and the supervisor as they were |
| TimeoutRuns.ClearLine | src/uart_commands.c:171-182 | `wdg clear`: the same with no override and the steady timeout of the build |
| TimeoutRuns.RefusedLine | src/uart_commands.c:154-159 | `wdg` and a number out of range does nothing |
| TimeoutRuns.LineIsServed | src/uart_commands.c:392-414 | of a line followed by CR LF, as much as the buffer holds is served, once |
| TimeoutRuns.TypedTimeoutInForceBy | src/uart_commands.c:154-415 | a number in range typed on an idle console: the flash decodes to the override, and the supervisor has it in force at most gap after the line end |
| TimeoutRuns.PassForgivesResets | src/supervisor.c:164-219 | a pass that retunes, or proves the system healthy, sets the persisted count of watchdog resets to zero, on flash and in RAM |
| TimeoutRuns.BootKeepsSettings | src/main.c:110-134 | a boot finds the override and the session counter that the flash holds, whatever becomes of its own writes |
| TimeoutRuns.OverrideFollowsRun | src/uart_commands.c:154-182 | in every run across reboots that loses no write the override is the one set last |

## Left out

- FieldInvert.PowerIsInverse: takes the primality of 2^255 - 19 as a hypothesis; everything else, Fermat's little theorem for every prime included, is proved.
- The X25519 ladder and its encodings (`montgomery_ladder`, `fe_frombytes`, `fe_tobytes`, `fe_mul121666`): the code does not compute section 5 of RFC 7748 (wrong masks at src/curve25519_ref10.c:327-335, values overwritten before use at 382-390, an unconditional swap at 394-401, 32-bit overflow at 166).
- Cross-boot claims with the Curve25519 backend: its `app_crypto_init` loads the blob before encryption is ready, and by `StoreThenLoad` an encrypted record then reverts to defaults; runs over several boots use the AES backend, and `derive_session_material` is not modelled.
- Vectors across boots: the generator restarts from a constant, so distinctness is claimed within one boot.
- AppCrypto.Crypto.GenerateIv: models one thread, for which the compare-and-swap succeeds at once; other threads are in `EntropyThreads`, where a call without interruption issues the same vector (`UninterruptedCall`).
- SupervisorRuns.Detected: a pass and a request by another thread are atomic steps; requests between the steps of a pass are in `RetuneRace`; a notification between the sampling of the clock and the reading of a heartbeat is not modelled.
- RetuneRuns.TargetInForceBy: assumes passes whose registers update in time; `PassWaits` says how long a pass that does not puts the retune off, and the statement holds again from there.
- SupervisorRuns.NoFalseAlarm: the first LED notification is assumed to come before the grace ends, as a hypothesis on the passes; in safe mode the LED's interval is longer than the grace.
- SupervisorRuns.HardwareNeverExpires: a retune whose registers do not update in time is taken to change the counter's length at once.
- PersistStore.Persist.ReadEncrypted: an item of the file system is never empty (writing an empty one deletes it), and the only read error is a missing item.
- PersistStore.Persist.SetWatchdogOverride: after a failed write RAM is ahead of the flash and a retry with the same value reports success without writing; `Device` assumes successful writes where it matters.
- PersistStore.Persist.GetKey: the scalar that is generated from the device id when no record is found.
- Device.BootWatchdog: the recovery request of a boot whose watchdog fails to start is left to the returned error.
- Device.AdvanceAll: the boots of a run are those on which the flash mounts at the first attempt and the watchdog starts.
- UartCommands.Console.Valid: the console runs on flash that mounted at boot, and that a character buffer is no byte buffer has to be said, since the verifier does not conclude it from the types.
- CommandLine.Strtoul: the C library's `strtoul`, with a 32-bit result, is a function of the text; the library code is not part of this model.
- Continuation of a provisioning command on a second line: the branch at src/uart_commands.c:365-372 is unreachable, which `Dispatch` proves.
- The recovery thread of src/recovery.c: a request is counted, its delivery is not modelled.
- The tag over samples (`app_crypto_compute_sample_mac`), sensor and LED work, logging, and the host tools beyond the line they send.
