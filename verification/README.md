# Verified models of the PBX firmware's decidable cores

The firmware runs a small telephone exchange on a microcontroller. Most of it drives hardware; six parts
are pure logic that must simply be right. Each is modelled here in the form it has in the source - arrays
and objects written in place, recursive descent, atomic steps of concurrent tasks - and proved against a
definition that does not mention the code.

- **QR symbols** (`BitBuckets`, `Segments`, `Gf256`, `Polynomials`, `ReedSolomon`, `Strided`, `Interleaving`,
  `Zigzag`, `Masking`, `FormatInfo`, `Patterns`, `FreeModules`, `Capacity`, `QrFigures`, `QrCode`): the encoder from the
  text to the finished grid, with its capacity tables. The specification is a reader: it gets the text back, and every
  block is a Reed-Solomon codeword. What a reader alone would not fix - the order of the scan, the figures of the masks,
  the places and examples of the standard - is stated on its own.
- **Login protocol** (`Lockouts`, `LoginSteps`, `LoginRuns`, `BucketRuns`, `LoginChecks`, `AuthStore`): the mutex is
  released while a password is hashed. `LoginSteps` gives each locked section as a function on states, `LoginRuns` interleaves them with
  setters, clears and the clock, `BucketRuns` counts what each client is charged, `LoginChecks` says who can log in, and
  the class in `AuthStore` carries them out on its fields and arrays.
- **Cryptographic modes** (`Sha256`, `Pbkdf2`, `Gf128`, `Ghash`, `Gcm`, `CryptoLayouts`, over `BinaryField` and
  `ByteOrder`): streaming, mid-states, shift loops and counters against the formulas of the standards.
- **JSON** (`JsonReader`, `JsonParser`, `JsonSpans`, `JsonEscape`, `JsonGrammar`, `JsonAccepts`, `JsonAcceptsOnly`,
  `JsonWritten`): the bounded recursive parser with exact source spans, the grammar it accepts exactly, and the printer it
  inverts. The grammar is that of RFC 8259, except that the whole part of a number may begin with zeros and that each
  `\u` escape stands alone, so a surrogate becomes a sequence of three bytes.
- **Dashboard generator** (`Guards`, `Manifest`, `PageTree`, `PageSite`, `PageParts`, `PageUtf8`,
  `PageHeader`, `PageGenerate`): a compiler from guarded files to `#if` parts. Its meaning is taken over every macro assignment.
- **Shared resources and stored state** (`FramePool`, `HostPool`, `PublishOnce`, `FlashWriter`, `DramAccount`,
  `DramMarks`, `SchemaWalk`, `LeakProbe`): step systems with invariants over every interleaving, the migration walk over every
  table and every failure, and the leak report.

Three promises turn out to have exceptions. Each has a lemma with a concrete failing input and one with the exact
condition:

- `pbkdf2Sha256` counts blocks in 32 bits. It ends with the whole key exactly when the key has fewer than 2^32 - 1
  blocks (`Pbkdf2.WritesWholeKey`); a key of 2^32 blocks succeeds and writes nothing
  (`Pbkdf2.TooLongWritesNothing`), and one of 2^32 - 1 blocks never ends (`Pbkdf2.NeverPasses`).
- `getMinAvailable` on the mutex path is not always the minimum since the last reset, because `resetStats` loads and
  stores without the mutex. It is exact exactly when the last reset stored the count then in use, or when since then as
  many frames have been out at once as the larger of that count and the stored one (`HostPool.MinimumIsExact`). A caller
  that lets nobody acquire or release during its reset gets the exact value from then on (`HostPool.QuietResetIsExact`);
  otherwise a lend can be missed (`HostPool.ResetCanMissALend`).
- A string round-trips through escaping and parsing exactly when its quoted text is within the parser's size limit
  (`JsonEscape.EscapeParseRoundTrip`, `JsonEscape.LongStringIsRefused`).

Conventions: a byte is its eight bits, bit i of weight 2^i (`Bytes`), so that shifts, masks and XOR read directly off
the code; polynomials over GF(2) are bit strings, lowest coefficient first (`BinaryField`). Machine words are bounded
numbers with every wrap written out. The block cipher, the SHA-256 compression function, the password hash of the
login protocol and the QR penalty score are function parameters: the theorems hold for any of them.

To verify: `dafny verify dfyconfig.toml`, with Dafny 4.11.

## Model

| member | source | states |
|---|---|---|
| QrCode.InitBytes | main/ui/qrcode.c:779-853 | For every version, level and text that fits, with the tables of the source: the symbol reads back as the text in its mode; under the mask it carries, in exactly its free modules in the order of the scan (`Zigzag.ScanNeverJumps`), a message all of whose blocks are Reed-Solomon codewords; that one mask is the first of least penalty over the grid the codewords were drawn into; and every function pattern shows |
| QrCode.CandidateReads | main/ui/qrcode.c:779-853 | Whatever mask is chosen and whatever was on the grid before, the symbol of that mask reads back as the text |
| QrCode.FormatReadsBack | main/ui/qrcode.c:314-351 | The mask never touches the format information, so the first copy names the mask that was applied |
| QrCode.MessageReads | main/ui/qrcode.c:260-281 | Undoing the mask a reader found leaves the message, in scan order, in the free modules |
| QrCode.DataReadsBack | main/ui/qrcode.c:693-765 | De-interleaving any stream that starts with the message gives the data codewords |
| QrCode.Pad | main/ui/qrcode.c:807-816 | Terminator, zeros to a byte and alternating 0xEC/0x11 fill the capacity exactly, behind the unchanged segment |
| QrCode.PaddedLooks | main/ui/qrcode.c:807-816 | What stands there, bit by bit: four zeros or as many as fit, fewer than eight more, and from that byte on the numbers 0xEC and 0x11 in turn |
| QrCode.FindMask | main/ui/qrcode.c:830-844 | The trial of eight patterns leaves the symbol as it was and returns the first pattern of least penalty |
| QrCode.ChooseMask | main/ui/qrcode.c:830-850 | The final symbol is the one candidate of that pattern: one mask, its format information, no trace of the trials |
| QrCode.PatternsPrepare | main/ui/qrcode.c:385-440 | The function patterns leave the grid as the scan needs it: column 6 and both format copies reserved, and exactly as many free modules as the table of raw modules counts |
| QrCode.PatternsStay | main/ui/qrcode.c:445-473 | Neither the codewords nor the mask change a timing, finder, alignment or version module |
| QrCode.MessageIsCodewords | main/ui/qrcode.c:693-765 | What the error correction step leaves is, block by block as a reader takes it out, divisible by the generator and zero at 2^0 to 2^(d-1) |
| QrCode.AllShown | main/ui/qrcode.c:445-473 | The message fills the free modules, before the mask and after removing it from the finished symbol |
| Capacity.EntriesDivide | main/ui/qrcode.c:45-60 | For all 40 versions and 4 levels the ECC total divides into the blocks, and every block fits its C types |
| Capacity.RawModulesAreFree | main/ui/qrcode.c:62-70 | For all 40 versions the table of raw modules is exactly the number of modules the function patterns leave free |
| Capacity.CountFits | main/ui/qrcode.c:150-167 | Text that fits the data codewords of its version and level also fits the character count |
| FreeModules.SpacesCounted | main/ui/qrcode.c:385-440 | The free modules of a symbol counted: the square less corners, timing, format information, version copies and alignment patterns, overlaps counted once |
| FreeModules.ReservedIs | main/ui/qrcode.c:385-440 | Those parts together are the function modules, no more and no fewer |
| Patterns.DrawFunctionPatterns | main/ui/qrcode.c:385-440 | Marks exactly the reserved cells and paints each with its pattern, alignment over finder over timing, whatever the overlaps |
| Patterns.DrawSquare | main/ui/qrcode.c:289-310 | A finder (with separator) or alignment pattern shows rings by Chebyshev distance, clipped at the edge, and nothing else changes |
| QrFigures.PatternsLook | main/ui/qrcode.c:289-310 | Finder pattern with separator and alignment pattern are the pictures of section 6.3 of ISO/IEC 18004:2015 |
| Patterns.DrawTiming | main/ui/qrcode.c:389-393 | Row 6 and column 6 alternate from dark, and nothing else changes |
| Patterns.DrawVersion | main/ui/qrcode.c:356-383 | From version 7 both 6 by 3 copies show the 18-bit version word; below, nothing is drawn |
| Patterns.VersionBitsAreRemainder | main/ui/qrcode.c:366-372 | The twelve check bits are the remainder of x^12 times the version by 0x1F25 (section 7.10 of ISO/IEC 18004:2015) |
| QrFigures.VersionIsNumber | main/ui/qrcode.c:366-372 | The eighteen bits are the number version << 12 | rem with rem from twelve steps of the shift register on integers |
| QrFigures.VersionExample | main/ui/qrcode.c:366-372 | Version 7 gives 000111110010010100, the example of section 7.10 |
| QrFigures.VersionPlaces | main/ui/qrcode.c:373-382 | Which bit stands in which module of the two version blocks |
| Patterns.CentersRise | main/ui/qrcode.c:404-424 | For every version alignment centers rise by at least 12 from 6 and stay inside the grid, the exception of version 32 included |
| QrFigures.CentersAre | main/ui/qrcode.c:404-424 | For all versions the computed centers are those listed in Annex E of ISO/IEC 18004:2015 |
| Patterns.AlignmentsApart | main/ui/qrcode.c:426-434 | No two alignment patterns share a cell |
| Patterns.AlignPositions | main/ui/qrcode.c:415-424 | The loop that counts down from size - 7 fills the table with exactly those centers |
| Patterns.DrawAlignment | main/ui/qrcode.c:426-434 | Every center but the three under finder patterns is drawn, whatever the order |
| BitBuckets.BitBucket.AppendBits | main/ui/qrcode.c:213-219 | Appends exactly the low bits of the value, most significant first, behind what is there |
| BitBuckets.BitBucket.SetBit | main/ui/qrcode.c:227-235 | Sets or clears one module and no other |
| BitBuckets.BitBucket.InvertBit | main/ui/qrcode.c:237-246 | Flips one module or leaves it, and no other |
| BitBuckets.BitBucket.GetBit | main/ui/qrcode.c:248-251 | Reads the module that SetBit writes |
| QrFigures.RowByRow | main/ui/qrcode.c:227-251 | A module is at offset y * size + x of the grid |
| Gf256.RsMultiply | main/ui/qrcode.c:579-588 | Russian peasant multiplication is the product in GF(2^8)/0x11D |
| Gf256.MulIsModular | main/ui/qrcode.c:579-588 | That product is the remainder of the polynomial product by 0x11D |
| QrFigures.FieldIs | main/ui/qrcode.c:579-588 | The low part of the modulus spells 0x1D |
| QrFigures.ByteSpells | main/ui/qrcode.c:445-473 | The eight bits of a codeword in the symbol, most significant first, spell the number whose bits are its coefficients in the field |
| BinaryField.MulIsRemainder | main/ui/qrcode.c:579-588 | For any degree, Horner multiplication by x with reduction is multiplication modulo the polynomial |
| BinaryField.RemainderUnique | main/ui/qrcode.c:579-588 | At most one residue is the remainder, so the product is pinned down |
| BinaryField.MulAssociates | src/Helpers/AdminAuth.cpp:431-457 | Multiplication of residues is associative, for both fields of the firmware |
| BinaryField.MulDistributes | src/Helpers/AdminAuth.cpp:431-457 | Multiplication of residues distributes over addition on both sides |
| ReedSolomon.RsInit | main/ui/qrcode.c:590-608 | Leaves the product of (x - 2^i), i below the degree, without its leading one |
| ReedSolomon.GeneratorsAre | main/ui/qrcode.c:590-608 | The generators of one and two codewords are x + 1 and x^2 + 3 x + 2, as Annex A of ISO/IEC 18004:2015 lists them |
| ReedSolomon.RsGetRemainder | main/ui/qrcode.c:610-627 | The strided slots, zero before, hold the remainder of the division; no other byte changes |
| ReedSolomon.BlockIsCodeword | main/ui/qrcode.c:610-627 | Data followed by its remainder is a multiple of the generator and vanishes at 2^0 to 2^(d-1) (section 7.5 of ISO/IEC 18004:2015) |
| Polynomials.RemainderCompletes | main/ui/qrcode.c:610-627 | Over any field the shift register completes the dividend to a multiple of the divisor, with the quotient as witness |
| Polynomials.MultipleVanishes | main/ui/qrcode.c:590-627 | A multiple of a product of (x - r) is zero at every r |
| Polynomials.FromRootsVanishes | main/ui/qrcode.c:590-608 | The product of (x - r) is zero at every r |
| Polynomials.CoefLinear | main/ui/qrcode.c:597-606 | The coefficients of p times (x - r), which justify the in-place inner loop of the generator |
| Polynomials.EvalTimes | main/ui/qrcode.c:590-627 | Evaluation is multiplicative: the value of a product is the product of the values |
| Interleaving.PerformErrorCorrection | main/ui/qrcode.c:693-765 | Every data codeword goes to its interleaved place, every block gets its remainder in its own lane, the tail is zero, and the length becomes the raw modules |
| Interleaving.PosIsBijection | main/ui/qrcode.c:720-750 | The places of short and long blocks are a bijection onto the data part, with explicit inverse |
| Interleaving.PosIsOrder | main/ui/qrcode.c:720-750 | The order of the standard: codeword 1 of every block in turn, then codeword 2, and so on; the blocks that run out are the first ones, by one codeword (section 7.6 of ISO/IEC 18004:2015) |
| Interleaving.EccAt | main/ui/qrcode.c:752-761 | Error correction byte j of block b stands at DataLen + j * numBlocks + b |
| Interleaving.CollectInverts | main/ui/qrcode.c:720-750 | De-interleaving block by block returns the data that went in |
| Interleaving.BlocksAreCodewords | main/ui/qrcode.c:752-761 | Each de-interleaved block with its error correction bytes is divisible by the generator and zero at 2^0 to 2^(d-1) |
| Interleaving.LayoutAddsUp | main/ui/qrcode.c:697-711 | Short and long blocks and their error correction bytes fill the whole codewords exactly |
| Zigzag.ScanVisitsOnce | main/ui/qrcode.c:445-473 | For every symbol size the scan visits each cell outside column 6 once and nothing else |
| Zigzag.ScanAt | main/ui/qrcode.c:445-473 | The place of every cell of the scan in closed form, for every side that is 1 more than a multiple of 4: pairs of columns from the right, column 6 left out, the first pair upwards and then in turn, the right column of a pair first |
| Zigzag.ScanNeverJumps | main/ui/qrcode.c:445-473 | The scan starts at (size-1, size-1) and (size-2, size-1), and no two cells that follow one another are more than one row or two columns apart: where a pair ends the next begins in the same row, across column 6 too |
| Zigzag.DrawCodewords | main/ui/qrcode.c:445-473 | The nested loops put message bit t into the t-th free module of the scan, the order `Zigzag.ScanAt` gives cell by cell, and stop with the message |
| Zigzag.MessageReadsBack | main/ui/qrcode.c:445-473 | With column 6 reserved, every free module is visited exactly once, function modules keep their color, and reading in scan order returns the message |
| Segments.EncodeDataCodewords | main/ui/qrcode.c:633-691 | Writes the mode indicator, the count and the body of the most compact mode |
| Segments.ModeIsShortest | main/ui/qrcode.c:633-691 | The mode that is taken can hold the text, and takes no more bits than any other mode that can |
| Segments.SegmentReads | main/ui/qrcode.c:633-691 | Whatever follows it, a segment decodes to the text in any of the three modes |
| Segments.NumericReads | main/ui/qrcode.c:636-657 | Groups of three digits, and a last group of one or two, decode to the digits |
| Segments.AlphanumericReads | main/ui/qrcode.c:658-679 | Pairs in base 45, and a last single, decode to the text |
| Segments.BytesRead | main/ui/qrcode.c:680-686 | Byte mode decodes to the bytes |
| Segments.ModeBitsTable | main/ui/qrcode.c:150-167 | The packed three-bit fields give the widths of table 3 of ISO/IEC 18004:2015 |
| Segments.AlphabetRoundTrip | main/ui/qrcode.c:106-124 | Every accepted character has a value below 45 that stands for it alone |
| Segments.AlphabetIs | main/ui/qrcode.c:106-124 | The values are the places among digits, letters and the nine signs in the order of table 5 of ISO/IEC 18004:2015 |
| Segments.SignExtendKeepsByte | main/ui/qrcode.c:683-685 | A negative char, widened to 32 bits, still appends as its byte |
| Masking.ApplyMask | main/ui/qrcode.c:260-281 | Flips exactly the non-function modules the pattern selects |
| Masking.MaskTwice | main/ui/qrcode.c:260-281 | Applying a mask twice restores every grid |
| QrFigures.MaskLooks | main/ui/qrcode.c:260-281 | Each of the eight masks inverts exactly the dark modules of its figure, repeated (section 7.8.2 of ISO/IEC 18004:2015) |
| FormatInfo.DrawFormatBits | main/ui/qrcode.c:314-351 | Both copies and the dark module show the fifteen bits; nothing else changes |
| FormatInfo.WordReads | main/ui/qrcode.c:318-327 | The fifteen bits decode to the mask and the level |
| QrFigures.WordIsNumber | main/ui/qrcode.c:318-327 | The fifteen bits are the number (data << 10 | rem) ^ 0x5412 with rem from ten steps of the shift register on integers |
| QrFigures.FormatExample | main/ui/qrcode.c:318-327 | Level M with mask 101 gives 100000011001110, the example of section 7.9 |
| QrFigures.FormatPlaces | main/ui/qrcode.c:328-350 | Where each of the fifteen bits of both copies stands, as a list of places that moves with the size, and the dark module |
| FormatInfo.CheckBitsAreRemainder | main/ui/qrcode.c:318-326 | The ten check bits are the remainder of x^10 times the data by 0x537 (section 7.9 of ISO/IEC 18004:2015) |
| FormatInfo.Redrawn | main/ui/qrcode.c:830-847 | Drawing the format information over another leaves only the later one |
| Lockouts.AcquireKeeps | src/Helpers/AdminAuth.cpp:1030-1070 | The table keeps one slot per key; only one slot changes and it ends with the key; a recycled slot was free or, in a full table, the keyed one seen least recently, never the unkeyed one |
| Lockouts.HistorySurvives | src/Helpers/AdminAuth.cpp:1024-1070 | A client keeps its history through attempts under any other key unless it was the least recently seen keyed one in a full table |
| Lockouts.MissedKeeps | src/Helpers/AdminAuth.cpp:1108-1147 | A counted failure keeps counter and log in agreement, whatever the limit: that many failures a trip, each trip after the cooldown of the one before |
| Lockouts.ChargeMeters | src/Helpers/AdminAuth.cpp:1084-1102 | A charge of a client bucket is the counted failure of `Lockouts.MissedKeeps` with a limit of five, and a hit empties it |
| Lockouts.CooldownsDouble | src/Helpers/AdminAuth.cpp:1094-1101 | The cooldowns are 60, 120, 240 and 480 seconds after the first four trips and 960 after every later one |
| Lockouts.GuessesAreSpread | src/Helpers/AdminAuth.cpp:1120-1134 | n trips since a reset span at least the sum of the escalating cooldowns between them |
| Lockouts.WaitingGrows | src/Helpers/AdminAuth.cpp:1128-1132 | That sum is 15 lockouts for the first five trips and 16 lockouts for each further one |
| LoginRuns.StepKeeps | src/Helpers/AdminAuth.cpp:1209-1362 | Any step of any client, setter, clear or clock keeps the invariant: distinguishable principals, known salts, one slot per key, metered backstops |
| LoginRuns.RunKeeps | src/Helpers/AdminAuth.cpp:1209-1362 | So does every run, in any interleaving |
| LoginRuns.GuessBound | src/Helpers/AdminAuth.cpp:1108-1147 | In every reachable state, for the shared backstop and each of the two principals, the failures counted since the last reset are 20 times the trips plus fewer than 20, and trip k+1 comes at least kLockoutMs << min(k-1,4) after trip k |
| BucketRuns.StepTouches | src/Helpers/AdminAuth.cpp:1209-1362 | What every step does to the table of buckets: nothing, one attempt under one key that counts only while no lockout of that key runs, or a fresh start for all |
| BucketRuns.RunCounts | src/Helpers/AdminAuth.cpp:1084-1102 | Over every run each bucket agrees with the times of the misses charged since its key got the slot or last logged in |
| BucketRuns.BucketBound | src/Helpers/AdminAuth.cpp:1084-1102 | In every reachable state, for every bucket: those misses are five times the trips plus fewer than five, and trip k+1 comes at least the cooldown of trip k after it; so n misses take at least the sum of the cooldowns between them |
| BucketRuns.BucketLocks | src/Helpers/AdminAuth.cpp:1094-1101 | A bucket that has tripped is locked exactly until the cooldown of its last trip is over |
| BucketRuns.LockedIsRefused | src/Helpers/AdminAuth.cpp:1152-1164 | Until then every begin and every finish of every check under that key is refused, the right password included |
| Lockouts.MeteredBounds | src/Helpers/AdminAuth.cpp:1120-1134 | The metering invariant gives that bound for any log |
| LoginRuns.RunDescends | src/Helpers/AdminAuth.cpp:843-862 | Whatever runs in between, a stored salt the snapshot knew still goes with the hash it went with |
| LoginRuns.AuthenticateSound | src/Helpers/AdminAuth.cpp:1443-1526 | authenticate succeeds only if the same check in one locked step at the finish would, with the same role; a replaced credential or an engaged lockout refuses and records no attempt |
| LoginRuns.VerifySound | src/Helpers/AdminAuth.cpp:1304-1362 | verifyCredential equals the one-step check at the finish, unless the credential was replaced: then it refuses and changes nothing |
| LoginRuns.DtmfSound | src/Helpers/AdminAuth.cpp:1654-1708 | Begin, match and finish equal the one-step PIN check at the finish, unless the PIN was replaced: then nothing changes |
| LoginChecks.SetLoginDone | src/Helpers/AdminAuth.cpp:1209-1284 | When setLoginCredential succeeds, exactly; without success nothing changes, with it all buckets and the shared backstop start afresh and no other secret changes |
| LoginChecks.SetLoginLogsIn | src/Helpers/AdminAuth.cpp:1209-1284 | After it the password that was set logs in at once under the name that was set, from any client, through both checks; every other name or password is a miss |
| LoginChecks.SetOwnerDone | src/Helpers/AdminAuth.cpp:1374-1441 | When setOwnerCredential succeeds, exactly, and what else it changes |
| LoginChecks.SetOwnerLogsIn | src/Helpers/AdminAuth.cpp:1374-1441 | After it the password that was set, and no other, logs in with the role of the owner |
| LoginChecks.SetPinDone | src/Helpers/AdminAuth.cpp:1594-1643 | When setDtmfPin succeeds, exactly, and what else it changes |
| LoginChecks.SetPinLogsIn | src/Helpers/AdminAuth.cpp:1594-1643 | After it the digits that were set, and no others, pass the PIN check |
| LoginChecks.ClearedLogsIn | src/Helpers/AdminAuth.cpp:1824-1860 | After a clear only the default pair logs in, as sysop, and no PIN does |
| LoginChecks.VerifyOpens | src/Helpers/AdminAuth.cpp:1304-1362 | From the end of the lockout of a client on, with no shared lockout, the right password is a hit and forgives bucket and backstop; a wrong one is a miss |
| LoginChecks.AuthenticateOpens | src/Helpers/AdminAuth.cpp:1443-1526 | The same for authenticate and the principal it names |
| LoginChecks.DtmfOpens | src/Helpers/AdminAuth.cpp:1654-1708 | The same for the PIN |
| LoginChecks.KeysApart | src/Helpers/AdminAuth.cpp:1443-1481 | Keys of different clients or different principals never meet, nor with the unkeyed bucket or a key of verifyCredential for the same client |
| LoginChecks.AuthenticateKeepsApart | src/Helpers/AdminAuth.cpp:1443-1526 | A login spray leaves the shared backstop, the other principal and every credential as they were |
| LoginChecks.SharedKeepsApart | src/Helpers/AdminAuth.cpp:1304-1362 | And the checks that share a backstop leave the principals and every credential as they were |
| AuthStore.AuthState.FindBucket | src/Helpers/AdminAuth.cpp:1012-1022 | Finds the slot of a key, if there is one |
| AuthStore.AuthState.PickVictim | src/Helpers/AdminAuth.cpp:1038-1064 | Picks the slot to recycle as the specification says |
| AuthStore.AuthState.AcquireBucket | src/Helpers/AdminAuth.cpp:1030-1070 | The table becomes exactly the one AcquireKeeps speaks of |
| AuthStore.AuthState.RecordBucketAttempt | src/Helpers/AdminAuth.cpp:1084-1102 | Charges one bucket with the step `Lockouts.ChargeMeters` speaks of, and leaves every other |
| AuthStore.AuthState.RecordAttempt | src/Helpers/AdminAuth.cpp:1108-1147 | Charges one bucket in the same way, and the shared backstop |
| AuthStore.AuthState.RecordPrincipal | src/Helpers/AdminAuth.cpp:1505-1523 | Charges one principal and never the other |
| AuthStore.AuthState.StartAuthenticate | src/Helpers/AdminAuth.cpp:1443-1481 | The first locked section does to the object what the begin step says |
| AuthStore.AuthState.EndAuthenticate | src/Helpers/AdminAuth.cpp:1483-1526 | The second locked section does what the finish step says |
| AuthStore.AuthState.StartVerify | src/Helpers/AdminAuth.cpp:1304-1339 | The first locked section of verifyCredential |
| AuthStore.AuthState.EndVerify | src/Helpers/AdminAuth.cpp:1341-1362 | The second one |
| AuthStore.AuthState.BeginDtmfPinVerify | src/Helpers/AdminAuth.cpp:1654-1678 | The first locked section of the PIN check |
| AuthStore.AuthState.FinishDtmfPinVerify | src/Helpers/AdminAuth.cpp:1689-1708 | The second one |
| AuthStore.AuthState.SetLoginCredential | src/Helpers/AdminAuth.cpp:1209-1284 | A set that is refused or not persisted changes nothing; one that succeeds stores the hash of the password, which then logs in (`LoginChecks.SetLoginLogsIn`), and forgives |
| AuthStore.AuthState.SetOwnerCredential | src/Helpers/AdminAuth.cpp:1374-1441 | The same for the owner, refused for the name of the sysop |
| AuthStore.AuthState.SetDtmfPin | src/Helpers/AdminAuth.cpp:1594-1643 | The same for the PIN |
| AuthStore.AuthState.ClearCredential | src/Helpers/AdminAuth.cpp:1824-1860 | Leaves the state of a first boot |
| Sha256.Stream.Update | src/Helpers/AdminAuth.cpp:57-69 | The stream depends on the bytes absorbed, however they are cut into calls |
| Sha256.Stream.Finalize | src/Helpers/AdminAuth.cpp:77-109 | The digest is the compression chain over the padded message of section 5.1.1 of FIPS 180-4, in both tail cases and with the length modulo 2^64 |
| CryptoLayouts.EmittedAt | src/Helpers/AdminAuth.cpp:101-108 | Bytes 4 i to 4 i + 3 of the digest spell word i of the state, most significant byte first |
| CryptoLayouts.StartIs | src/Helpers/AdminAuth.cpp:112-121 | The start state is the fractional parts of the square roots of the first eight primes, to 32 bits (section 5.3.3 of FIPS 180-4) |
| CryptoLayouts.PaddedAt | src/Helpers/AdminAuth.cpp:77-109 | Byte by byte what is hashed: the message, 0x80, zeros, and the length in bits as eight bytes, in as few blocks as hold them |
| Sha256.Stream.Copy | src/Helpers/AdminAuth.cpp:1981-2019 | A copied stream is independent of the one it was copied from |
| Sha256.HashSecretDigest | src/Helpers/AdminAuth.cpp:538-560 | The iterated password hash is the salted chain it should be |
| CryptoLayouts.StretchedIs | src/Helpers/AdminAuth.cpp:538-560 | As a list of digests: the first of salt and secret, each other one of the salt and the digest before |
| Pbkdf2.HmacSha256 | src/Helpers/AdminAuth.cpp:243-279 | HMAC of RFC 2104 for keys of any length |
| CryptoLayouts.PadsAre | src/Helpers/AdminAuth.cpp:261-265 | The pads are 0x36 and 0x5c |
| CryptoLayouts.KeyBlockAt | src/Helpers/AdminAuth.cpp:243-279 | Byte by byte the block the pads are applied to: the key, or its digest if it is longer than a block, then zeros |
| Pbkdf2.HmacFromBase | src/Helpers/AdminAuth.cpp:2009-2019 | From copies of the two mid-states comes the same HMAC as from the password |
| Pbkdf2.OneBlock | src/Helpers/AdminAuth.cpp:2021-2058 | One block is U_1 xor ... xor U_c of section 5.2 of RFC 8018 |
| CryptoLayouts.MixedIs | src/Helpers/AdminAuth.cpp:2021-2058 | As a list: U_1 is the HMAC of salt and block number, each other U the HMAC of the one before, and a bit of the block is set where an odd number of them has it |
| Pbkdf2.Pbkdf2Sha256 | src/Helpers/AdminAuth.cpp:1965-2064 | Refuses zero iterations and zero length without writing; otherwise writes the blocks of the definition as far as its 32-bit count reaches, and nothing else |
| Pbkdf2.ExactKey | src/Helpers/AdminAuth.cpp:1965-2064 | Within that count what is written is exactly the first dkLen bytes of the definition |
| CryptoLayouts.DerivedAt | src/Helpers/AdminAuth.cpp:2021-2058 | Bytes 32 i to 32 i + 31 of the key are block number i + 1, whatever follows |
| Pbkdf2.WritesWholeKey | src/Helpers/AdminAuth.cpp:1975-2025 | The call ends with the whole key written if and only if the key has fewer than 2^32 - 1 blocks |
| Pbkdf2.TooLongWritesNothing | src/Helpers/AdminAuth.cpp:1975-2025 | A key of 2^32 blocks: success with nothing written |
| Pbkdf2.NeverPasses | src/Helpers/AdminAuth.cpp:1975-2025 | The block loop stops after some number of turns of its 32-bit counter if and only if its bound is not 2^32 - 1, and then after as many turns as blocks |
| Gf128.Gf128Mul | src/Helpers/AdminAuth.cpp:431-457 | The byte-shift loop is the product in GF(2^128), even when the output is one of the inputs |
| Gf128.MulIsField | src/Helpers/AdminAuth.cpp:431-457 | That product is the remainder modulo x^128+x^7+x^2+x+1 in the bit order of section 6.3 of NIST SP 800-38D, linear in its first argument, commutative and associative |
| CryptoLayouts.ModulusIs | src/Helpers/AdminAuth.cpp:431-457 | The low part of the modulus is the byte 0x87 and nothing above it |
| Gf128.ShiftIsTimes | src/Helpers/AdminAuth.cpp:441-454 | The right shift with the conditional 0xE1 multiplies by x |
| Ghash.GhashState.UpdateBlock | src/Helpers/AdminAuth.cpp:465-470 | One block: the state plus the block, times H |
| Ghash.GhashState.UpdateBytes | src/Helpers/AdminAuth.cpp:475-489 | A byte string of any length is absorbed block by block, the last one padded with zeros |
| Ghash.FoldIsSum | src/Helpers/AdminAuth.cpp:459-489 | From any state the fold adds the powers of H |
| Ghash.GhashIsSum | src/Helpers/AdminAuth.cpp:459-489 | From zero the fold is the sum of X_i times H^(n-i+1) (section 6.4 of NIST SP 800-38D) |
| Gcm.IncCounter | src/Helpers/AdminAuth.cpp:501-507 | The carry runs through four bytes and no further: inc32 |
| Gcm.CounterWraps | src/Helpers/AdminAuth.cpp:501-507 | Counter n is the first plus n modulo 2^32 under the same 96 bits |
| Gcm.CtrXor | src/Helpers/AdminAuth.cpp:512-528 | Counter mode over data of any length |
| Gcm.CtrTwice | src/Helpers/AdminAuth.cpp:512-528 | Enciphering twice from the same counter returns the data, across the wrap |
| Gcm.ComputeTag | src/Helpers/AdminAuth.cpp:2087-2099 | The tag is GHASH, written as the sum, of both inputs and their lengths, under E(J0) |
| Gcm.Seal | src/Helpers/AdminAuth.cpp:2066-2103 | The output is the cipher text from inc32(J0) followed by its tag |
| CryptoLayouts.SealedAt | src/Helpers/AdminAuth.cpp:2066-2103 | Byte k of a sealed message is byte k of the plaintext XOR byte k % 16 of the enciphered block that holds the nonce and the number k / 16 + 2 (section 7.1 of NIST SP 800-38D) |
| CryptoLayouts.AbsorbedAt | src/Helpers/AdminAuth.cpp:2087-2099 | Bit by bit what the tag covers: the additional data in zero-padded blocks, then the cipher text, then both lengths in bits |
| CryptoLayouts.TagAt | src/Helpers/AdminAuth.cpp:2087-2099 | Bit by bit the tag: GHASH under the enciphered zero block, XOR the enciphered block of the nonce and the number 1 |
| Gcm.Open | src/Helpers/AdminAuth.cpp:2105-2161 | True exactly when the tag is the one of the cipher text, and then the plaintext; otherwise the output is untouched |
| Gcm.SealedOpens | src/Helpers/AdminAuth.cpp:2066-2161 | For every cipher, nonce, additional data and plaintext, opening a sealed message returns the plaintext |
| Gcm.OneTagOpens | src/Helpers/AdminAuth.cpp:2125-2150 | For a cipher text at most one tag opens |
| Gcm.TagsEqual | src/Helpers/AdminAuth.cpp:2140-2150 | The accumulated difference is zero exactly when all sixteen bytes agree |
| JsonParser.ParseText | src/Helpers/JsonReader.hpp:375-399 | Returns what `JsonReader.Parse` says for every text: which texts those are, `JsonAcceptsOnly.AcceptsExactly` says, and which values, `JsonAccepts.GrammarReads` |
| JsonParser.Parser.ParseValue | src/Helpers/JsonReader.hpp:267-280 | Moves the cursor over exactly one value, the one the grammar gives it, or sets error; the depth comes back either way |
| JsonParser.Parser.ParseString | src/Helpers/JsonReader.hpp:180-231 | The bytes of one string with its escapes, or error |
| JsonParser.Parser.ParseNumber | src/Helpers/JsonReader.hpp:233-254 | The lexeme of one number, or error |
| JsonParser.Parser.ParseHex4 | src/Helpers/JsonReader.hpp:140-155 | Four hex digits, most significant first, or error |
| JsonParser.Parser.ParseObject | src/Helpers/JsonReader.hpp:322-346 | Members in order up to the brace, no comma before it |
| JsonParser.Parser.ParseArray | src/Helpers/JsonReader.hpp:348-367 | Items in order up to the bracket, no comma before it |
| JsonAccepts.GrammarReads | src/Helpers/JsonReader.hpp:256-399 | Whatever a syntax tree of the grammar looks like, with any white space, escapes and digits in either case, is accepted within size and depth and read as what the tree stands for: literals, number lexemes, decoded strings, items and members in order, repeated keys kept; over the size it is refused |
| JsonAcceptsOnly.AcceptedIs | src/Helpers/JsonReader.hpp:256-399 | Whatever is accepted is what some syntax tree of the grammar looks like, and is read as what that tree stands for |
| JsonAcceptsOnly.AcceptsExactly | src/Helpers/JsonReader.hpp:375-399 | So the parser accepts a text if and only if it is within the size limit and is white space, the text of a tree of depth at most kMaxDepth, and white space |
| JsonAcceptsOnly.OneMeaning | src/Helpers/JsonReader.hpp:375-399 | Two trees with the same text stand for the same value: the grammar is not ambiguous |
| JsonGrammar.EscapeIsUtf8 | src/Helpers/JsonReader.hpp:161-178 | The bytes of a \u escape, decoded by a UTF-8 decoder, give back its code point, for all 65536 |
| JsonWritten.WrittenReads | src/Helpers/JsonReader.hpp:375-399 | Every value whose numbers are lexemes of the grammar, printed with its strings through jsonEscapeString and parsed, comes back whole and consumes the whole text, within size and depth; over the size it is refused |
| JsonSpans.SliceValue | src/Helpers/JsonReader.hpp:267-320 | A value that ends inside a slice parses there to the same value, moved, at no greater depth |
| JsonSpans.ChildrenStand | src/Helpers/JsonReader.hpp:322-367 | Child spans are ordered, disjoint and strictly inside their parent |
| JsonSpans.AcceptedNests | src/Helpers/JsonReader.hpp:375-399 | In an accepted text this holds of every value, and none is deeper than kMaxDepth |
| JsonSpans.WithinParsed | src/Helpers/JsonReader.hpp:267-320 | Every value of the tree was parsed at its own start |
| JsonSpans.SpanReparses | src/Helpers/JsonReader.hpp:375-399 | The bytes of any span, parsed on their own, give the same value with spans counted from there |
| JsonEscape.JsonEscapeString | src/Helpers/JsonEscape.hpp:21-53 | The loop appends the escape of each byte in order |
| JsonEscape.EscapedReads | src/Helpers/JsonReader.hpp:180-231 | In any surroundings the reader consumes an escaped string and its quote and returns the string |
| JsonEscape.EscapeParseRoundTrip | src/Helpers/JsonEscape.hpp:21-53 | For every byte string, parsing its quoted escape consumes exactly that text and returns it, except when the text exceeds the size limit |
| JsonEscape.LongStringIsRefused | src/Helpers/JsonReader.hpp:375-385 | A string as long as the size limit is refused once quoted |
| JsonEscape.EscapedLength | src/Helpers/JsonEscape.hpp:21-53 | Escaping never shortens a string and at most multiplies its length by six |
| Guards.WrapCondMeansKept | tools/gen_index_html.py:182-199 | On every build the condition around a part holds exactly when its file is kept, strict guards included |
| Guards.LinesMean | tools/gen_index_html.py:182-199 | When a guard keeps its file: a plain clause when the macro is defined, one with a value when it is defined and not zero, a negated one when it is not, each of them also on the host; a strict one only when it is defined; several when each does |
| Guards.GuestImpliesHost | tools/gen_index_html.py:363-364 | Where a guest may go into a host, every build that keeps the guest keeps the host |
| Guards.SubsetIsNeeded | tools/gen_index_html.py:363-364 | Without the subset rule that fails: a build without a strict host that keeps the guest |
| Manifest.ReadManifest | tools/gen_index_html.py:202-244 | Reads the lines as the specification does, with the same rejections |
| Manifest.AcceptsExactlyValid | tools/gen_index_html.py:202-244 | Accepts exactly the manifests that write out valid entries, and returns those entries |
| Manifest.RelativeIs | tools/gen_index_html.py:231-232 | The paths that are relative: no slash in front, no backslash, and no part between slashes is two dots, for a splitter of its own |
| Manifest.GuardableIs | tools/gen_index_html.py:171 | The files that may be guarded: app/NAME.js with a NAME of one part that does not begin with 00-, or sections/NAME.html |
| Manifest.BlanksDoNotMatter | tools/gen_index_html.py:211-214 | Blank lines and comments change nothing |
| PageTree.Segments.Unfold | tools/gen_index_html.py:452-464 | The recursive flattening appends exactly the runs of the specification |
| PageTree.UnfoldedMeans | tools/gen_index_html.py:452-464 | On every build the runs that survive join to the tree assembled from the kept files only |
| PageSite.TreeNests | tools/gen_index_html.py:354-376 | The placeholders form a well-founded tree in which every guard implies that of its host |
| PageSite.RunsShowThePage | tools/gen_index_html.py:320-476 | For every macro assignment, on a device or on the host, joining the surviving runs is the page of only the files whose guard holds |
| PageSite.AssembleSegments | tools/gen_index_html.py:320-476 | The search for each guest its one host and slot, and the check of the sections, accept exactly the sites the rules allow; the runs are the flattened tree |
| PageSite.FindHosts | tools/gen_index_html.py:366-368 | The loop finds exactly the fragments that may take a guest |
| PageSite.GuestsHaveHosts | tools/gen_index_html.py:366-376 | The loop over the fragments without a section stops exactly where one has not one host with one slot |
| PageSite.SectionsMatch | tools/gen_index_html.py:422-431 | The loop over the shell stops exactly at a section without a fragment or a name seen before |
| PageParts.SplitParts | tools/gen_index_html.py:485-510 | Parts join to the text, none empty or over the cap, UTF-8 stays whole, no cut inside a marker; UTF-8 text never fails for a cap of 14 or more |
| PageParts.NextCut | tools/gen_index_html.py:491-509 | Every cut makes progress under the cap, after the last newline that fits, else outside a sequence and outside a marker |
| PageParts.CutIsWhole | tools/gen_index_html.py:500-502 | Cut where no continuation byte follows, both halves are UTF-8 |
| PageParts.FewContinue | tools/gen_index_html.py:500-502 | UTF-8 has at most three continuation bytes in a row, so backing out ends |
| PageParts.OneMarkerIsSpared | tools/gen_index_html.py:488-505 | The only marker of a text lies whole in one part |
| PageParts.CutDividesSpans | tools/gen_index_html.py:488-505 | A cut outside the markers divides them: as many are found on both sides as before |
| PageParts.PartsKeepMarkers | tools/gen_index_html.py:485-510 | Splitting neither loses nor makes a marker, however many there are and however they overlap |
| PageParts.FindSpans | tools/gen_index_html.py:488 | Finds the leftmost non-overlapping markers |
| PageParts.SpansLeftmost | tools/gen_index_html.py:488 | No marker begins between the end of one that is found and the start of the next, before the first or behind the last |
| PageHeader.Render | tools/gen_index_html.py:563-588 | Writes the header line by line: belts, definitions, entries; on every build the two standalone pages stand under their own ids |
| PageHeader.HeaderServes | tools/gen_index_html.py:552-588 | A build of the header stops exactly on a device that leaves undefined a macro some guard compares with zero; every other build serves the kept parts in order and keeps each standalone page under its own id |
| PageHeader.BrokenIff | tools/gen_index_html.py:568-574 | The builds the belts stop are exactly the device builds that leave a macro undefined whose value some guard tests |
| PageHeader.ReservedAreFree | tools/gen_index_html.py:513-520 | No part takes the ids of the two standalone pages |
| PageGenerate.SplitSegments | tools/gen_index_html.py:546-549 | On every build the parts survive exactly as the runs did, none over the cap |
| PageGenerate.Generate | tools/gen_index_html.py:591-605 | End to end: on every build the generated header serves the page of the kept files and the two standalone pages as they were, or stops the compiler as it should; and from UTF-8 sources it is generated if and only if the site is accepted and one unguarded run holds the marker once |
| PageGenerate.HeldMeansOnce | tools/gen_index_html.py:602-604 | The check on the parts is a count: the marker once in all, and not in a guarded part |
| PageUtf8.RunsAreUtf8 | tools/gen_index_html.py:153-167 | From files that are UTF-8, as reading them checks, every run is UTF-8 and none is empty |
| FramePool.StepKeeps | src/Helpers/DmaFramePool.cpp:92-155 | Every atomic step by any thread keeps each frame in exactly one place and the counter within the frames lent |
| FramePool.FramesAreSafe | src/Helpers/DmaFramePool.cpp:92-155 | In every interleaving each frame is queued once or with one owner, and in-use never exceeds the frames outside the queue |
| FramePool.NoFrameIsShared | src/Helpers/DmaFramePool.hpp:71-109 | No two handles, moved ones included, have the same frame, and none has a queued one |
| FramePool.StepMarks | src/Helpers/DmaFramePool.cpp:26-30 | The compare-exchange loop misses no peak, spurious failures included |
| FramePool.MarkIsPeakAtRest | src/Helpers/DmaFramePool.cpp:26-30 | At rest, with no reset in the run, the mark is the peak in use or the whole pool, and in-use is exact |
| FramePool.MarkIsTold | src/Helpers/DmaFramePool.cpp:26-30 | From rest to rest with no reset the mark is exactly the largest of what it was, every count made, and the whole pool if a caller found the queue empty |
| FramePool.StepCovers | src/Helpers/DmaFramePool.cpp:26-30 | No step, a reset at any moment included, loses a count the mark has been told since the last reset, a starvation included |
| FramePool.MarkSinceReset | src/Helpers/DmaFramePool.cpp:189-194 | At rest after any run, resets included, the mark is at least the count the last reset stored and every count since, and at most the peak or the whole pool |
| FramePool.FullPoolIsValid | src/Helpers/DmaFramePool.cpp:38-58 | The filled queue starts the invariant |
| HostPool.Pool.Acquire | src/Helpers/DmaFramePool.cpp:112-128 | Lends the frame on top, or notes the starvation; the mark becomes what it should |
| HostPool.Pool.Release | src/Helpers/DmaFramePool.cpp:131-155 | Exactly that frame is free again, on top of the stack |
| HostPool.Pool.GetMinAvailable | src/Helpers/DmaFramePool.cpp:182-187 | The pool size less the mark, never negative |
| HostPool.StarvationShows | src/Helpers/DmaFramePool.cpp:125-127 | A caller that finds no frame leaves a minimum of zero |
| HostPool.Pool.ResetStats | src/Helpers/DmaFramePool.cpp:189-194 | The two halves with nothing between them leave the mark exact |
| HostPool.Pool.LoadInUse | src/Helpers/DmaFramePool.cpp:193 | The first half: the count in use at that moment |
| HostPool.Pool.StoreMaxInUse | src/Helpers/DmaFramePool.cpp:191-193 | The second half: the mark becomes a count loaded earlier, whatever the count is by now |
| HostPool.ResetIsExactIff | src/Helpers/DmaFramePool.cpp:189-194 | Right after a reset the mark is exact if and only if the count it loaded is still the count |
| HostPool.MinimumIsExact | src/Helpers/DmaFramePool.cpp:182-194 | After every run, whatever resets race whatever acquires and releases: what getMinAvailable returns, what the true minimum since the last reset is, and that they agree if and only if that reset stored the count in use or at least as many frames as the larger of the two were out at once since |
| HostPool.QuietResetIsExact | src/Helpers/DmaFramePool.cpp:189-194 | A reset between whose halves nobody acquires or releases makes the minimum exact until the next reset, whatever went before or raced it |
| HostPool.ResetCanMissALend | src/Helpers/DmaFramePool.cpp:189-194 | A concrete run on which they differ, a lend between the two halves of the reset, and on which one more lend makes them agree again |
| PublishOnce.StepKeeps | src/Helpers/DmaFramePool.hpp:48-61 | Every step by any caller keeps the invariant |
| PublishOnce.OneResource | src/Helpers/DmaFramePool.hpp:48-61 | In every interleaving all callers that get a resource get the published one, not destroyed; at the end it is the only one left undestroyed, even if destroyed values come again |
| PublishOnce.SlotIsForever | src/Helpers/DmaFramePool.hpp:48-61 | A published resource is never replaced |
| FlashWriter.PassOnce | src/Helpers/FlashWriter.hpp:41-47 | Each ready queue gives its unit once, in order, and the count is theirs |
| FlashWriter.PendingIs | src/Helpers/FlashWriter.hpp:41-47 | Those units: one of each queue that is ready and not empty, the queues in rising order |
| FlashWriter.StepKeeps | src/Helpers/FlashWriter.cpp:25-38 | Every step of start, a producer or the task keeps the invariant |
| FlashWriter.NoUnitIsLost | src/Helpers/FlashWriter.hpp:8-22 | In every run a non-empty queue has a pending notification, a pass still to reach it or a producer yet to wake, and the newest value is queued, being written or written |
| FlashWriter.WaitIsBounded | src/Helpers/FlashWriter.hpp:12-17 | Before a unit is taken at most the unit in progress and one unit of every other queue are written |
| FlashWriter.StepComesNearer | src/Helpers/FlashWriter.hpp:12-17 | Every finished write and every step of the task brings a waiting unit nearer, and no producer sets it back |
| FlashWriter.NeverStuck | src/Helpers/FlashWriter.cpp:25-62 | The task is never blocked with a unit waiting that nobody will wake it for |
| FlashWriter.WaitsAtMost | src/Helpers/FlashWriter.hpp:8-22 | Over every run that does not take it, a unit waits for at most so many writes and task steps |
| DramAccount.StepKeeps | src/Helpers/HttpDramAccount.hpp:74-94 | Every atomic operation of any holder keeps the counters equal to what the holders put there |
| DramAccount.NothingWraps | src/Helpers/HttpDramAccount.hpp:77-94 | No counter wraps in either direction |
| DramAccount.TotalIsExact | src/Helpers/HttpDramAccount.hpp:77-94 | In every reachable account the total is the sum of the slots up to the operations in flight; at rest exactly, and totalHwm is the peak |
| DramMarks.MarksAreExact | src/Helpers/HttpDramAccount.hpp:77-94 | Whenever nobody is in an operation, the mark of each slot is the largest value that slot showed in any state of the run, and totalHwm the largest value of the total |
| DramMarks.StepMark | src/Helpers/HttpDramAccount.hpp:77-94 | Every step of any holder keeps a slot mark covered: it is the most the slot held, or somebody is still raising it there |
| DramAccount.Held.Set | src/Helpers/HttpDramAccount.hpp:179-184 | Moves the account by the difference, so releases never exceed what the hold added |
| DramAccount.Held.Release | src/Helpers/HttpDramAccount.hpp:178 | The destructor returns exactly what is still held |
| DramAccount.HoldIsServed | src/Helpers/HttpDramAccount.hpp:172-189 | What a hold asks is always an enabled add or sub of its holder in the account, and whatever others do meanwhile, at rest again the account credits it with just those bytes |
| SchemaWalk.PlanIsSafe | src/Helpers/DeviceConfig.cpp:1016-1086 | An unreadable store is never taken for blank, unstamped data starts from version 1, a newer stamp is left alone, an up-to-date boot writes nothing |
| SchemaWalk.BootLeavesAlone | src/Helpers/DeviceConfig.cpp:1016-1086 | A boot with an unreadable store reports just that, one with a newer stamp a downgrade, one with the current stamp up to date, and each leaves the stamp as it was |
| SchemaWalk.BootWalks | src/Helpers/DeviceConfig.cpp:1234-1266 | A boot with an older stamp walks from it and reports migrated or failed; with data and no stamp it walks from version 1 and reports adopted or failed; with neither it stamps the current version; the stamp left is the version reached |
| SchemaWalk.RunSchemaMigrations | src/Helpers/DeviceConfig.cpp:1103-1156 | For every table, cyclic or with gaps, the guarded loop ends as the unguarded walk does: same result, same version reached, same stamps and conversions |
| SchemaWalk.WalkRises | src/Helpers/DeviceConfig.cpp:1103-1156 | Stamped versions rise strictly and the version reached is the last one stamped |
| SchemaWalk.WalkSteps | src/Helpers/DeviceConfig.cpp:1103-1156 | Every step of the walk takes the first row from where the step before ended, and stamps where that row leads |
| SchemaWalk.FirstRowLeads | src/Helpers/DeviceConfig.cpp:1108-1127 | The row taken is the first in the table that starts there, if it can run and leads up |
| SchemaWalk.RowsAreUsedOnce | src/Helpers/DeviceConfig.cpp:1108-1127 | No row of the table is used twice |
| SchemaWalk.StepsFitTable | src/Helpers/DeviceConfig.cpp:1108-1127 | So a walk takes no more steps than the table has rows, and the guard never bites |
| SchemaWalk.RerunContinues | src/Helpers/DeviceConfig.cpp:1103-1156 | After any failure, what was stamped followed by what a rerun has to do is the whole chain |
| SchemaWalk.RerunRunsOnlyUnstamped | src/Helpers/DeviceConfig.cpp:1130-1150 | A rerun starts no conversion whose version was stamped |
| SchemaWalk.EnsureSchemaVersion | src/Helpers/DeviceConfig.cpp:1234-1266 | The act part leaves the stamp and the outcome of the specified boot |
| SchemaWalk.BootsMakeProgress | src/Helpers/DeviceConfig.cpp:1234-1266 | Over any number of interrupted boots the stamp never falls, and what is left is a suffix of the chain |
| SchemaWalk.SettledBootStamps | src/Helpers/DeviceConfig.cpp:1234-1266 | A boot on which everything succeeds leaves the current version stamped |
| SchemaWalk.StampedIsUpToDate | src/Helpers/DeviceConfig.cpp:1234-1266 | A device with the current stamp is left alone |
| SchemaWalk.NeverPast | src/Helpers/DeviceConfig.cpp:1103-1156 | Rows that do not jump past the current version cannot carry a walk past it |
| LeakProbe.Aggregate | main/HeapLeakProbe.cpp:479-526 | For a list no longer than the table, the sites are different stacks with the bytes and counts of their internal records, nothing is left out and overflow is 0 |
| LeakProbe.TotalsAddUp | main/HeapLeakProbe.cpp:484-525 | The 32-bit site totals add up to internalBytes if and only if no site reaches 2^32 |
| LeakProbe.SitesShareAllBytes | main/HeapLeakProbe.cpp:484-525 | Every internal byte belongs to exactly one site |
| LeakProbe.SortSites | main/HeapLeakProbe.cpp:544-557 | The selection sort is a descending permutation and touches nothing behind the sites |
| LeakProbe.SortKeepsGroups | main/HeapLeakProbe.cpp:544-557 | The sorted sites are still the grouping |
| LeakProbe.Census | main/HeapLeakProbe.cpp:651-673 | Counts the different prefixes of the sites |
| LeakProbe.PrefixIs | main/HeapLeakProbe.cpp:651-673 | Two stacks are one prefix at a depth if and only if their first frames agree so far |
| LeakProbe.CensusIsOfRecords | main/HeapLeakProbe.cpp:651-673 | Those are the different prefixes of the internal records themselves |
| LeakProbe.DepthsAre | main/HeapLeakProbe.cpp:651-653 | The reported depths are 1, 2 and 4 as far as they are below the traced depth, in this order |
| LeakProbe.DumpInternalRecords | main/HeapLeakProbe.cpp:468-673 | The whole dump: exact groups, sorted, and at each depth the number of distinct prefixes |

## Left out

QR symbols
- Text that does not fit: the source does not check it and overruns its buffer, so fitting is a precondition.
- The penalty rules: the mask search is proved for every score.
- A caller's own module buffer: `QrCode.InitBytes` returns a new grid instead of filling one it was handed.
- The compile-time variants for one locked version.

Login and cryptography
- AES rounds and key schedule, the SHA-256 compression function, and the constant time of comparisons.
- Random numbers: a salt is a parameter of the step that draws it, and fresh salts are an assumption of the runs.
- Sessions, CSRF tokens and audit lines, which setters and clears also touch.
- Flash storage: loading at boot, and what a failed write leaves behind; a set has one flag for whether it was persisted.
- The clock moving within a locked section: each section reads it once.
- Overflow of the trip and failure counters and of the 64-bit clock.
- Pbkdf2.Pbkdf2Sha256: a call that gets as far as the block loop must have a length for which the loop ends; for 2^32 - 1 blocks the source loops forever, which `Pbkdf2.NeverPasses` states instead.
- AuthStore.AuthState.ClearCredential: leaves out the sessions it ends and what it returns for the erase.

JSON
- JsonParser.Parser.ParseNumber: gives the text of a number; its value (`strtod`) is not modelled.
- Looking up members in a parsed value, and parsing into a value that already has content.

Dashboard generator
- Manifest.ReadManifest: lines arrive classified; the regular expressions that classify them are not modelled.
- PageSite.AssembleSegments: fragments and the shell arrive with their slots and sections found, and slots are replaced by position; the tag patterns, the minifiers and CSS linking are not modelled.
- Two fragments whose names differ only in their number.
- Extracting the preserved regions of the old header, and the check for a raw-string terminator inside the page.
- PageTree.UnfoldedMeans: placeholders stand for every spliced file, guarded or not, where the tool uses them for guests and guarded files only; the text is the same.

Shared resources and stored state
- Wrap-around of the allocation and exhaustion counters.
- HostPool.Pool.ResetStats: is the case with nothing in between; its halves and everything that can come between them are in the runs of `HostPool.MinimumIsExact`.
- FramePool.MarkIsPeakAtRest: is for runs without a reset; `FramePool.MarkSinceReset` gives the bounds for the others.
- DramAccount.Held.Set: returns what it asks of the account, as a step of another thread may come before it is done; `DramAccount.HoldIsServed` connects the two.
- DramAccount.Held.Release: likewise.
- The slots at the peak and the connection counters of the account, and its JSON output.
- Memory order weaker than sequential consistency: every atomic operation is one step.
- A queue or task that cannot be created: publishing covers a failed construction, the writer's start is one success.
- The null arguments `runSchemaMigrations` refuses.
- A stamp that fails after changing the store: a failed stamp leaves the stored version as it was.
- Converting the data itself: a migration step succeeds or fails, and what it writes is not modelled.
- Records that the tracer loses, and printing the dump.
