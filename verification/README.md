# Open Enclave SDK: a Dafny model of its measurement, attestation and syscall core

The Open Enclave SDK lets an application place code in a hardware-protected enclave, prove to a
remote party what was loaded, and reach files and the host from inside. This project models the
parts of it where a small mistake changes what is attested or which object is reached, and proves
properties of them over all inputs and over every sequence of operations.

| modules | what they model |
|---|---|
| `Bytes`, `Results` | bytes, machine words as integers in range, result codes |
| `Measure`, `EeidReplay`, `EeidLayout`, `EeidPages` | the measurement log, and the replay of an extended (EEID) image |
| `EeidCodec`, `EeidImage`, `EeidFields` | the EEID structure in network form and in memory |
| `Paths`, `PathLaws`, `MountSpec`, `MountTable`, `NamespaceLaws` | path resolution, the mount table, the working directory |
| `TcbJson`, `TcbLevels`, `TcbInfo` | the TCB information document and the choice of a platform's level |
| `TcbText`, `TcbSkip`, `TcbDocument`, `TcbVerdict`, `TcbRefusals`, `TcbPrint`, `TcbSamples` | the texts of such documents, what the readers make of them, and a printer |
| `TcbGrammar`, `TcbExact` | the grammar of all texts that the parser accepts, and what it reports of each |
| `SgxExtensions`, `SgxAccepted` | the DER-encoded SGX extensions of a certificate |
| `Datetime`, `Verdict`, `VerdictWindows`, `EvidenceVerdict` | dates, validity windows, and the result of quote verification |
| `EcallIds`, `EcallRuns` | the global table of ecall names and the ids that callers cache |
| `FdTable` | the file-descriptor table |
| `CustomClaims`, `Iov`, `Argv`, `Kdf` | claim, vector and argument codecs, and key derivation |

Code that changes state is modelled in place: classes and arrays with `modifies` clauses, loops
with invariants. Each such method is proved equal to a function of its inputs or of the old state,
and the lemmas are about those functions. Machine integers are mathematical integers; where the C
code lets one wrap around, the `%` is written out, except where "Left out" says that it is not.
Bit masks and shifts are written as arithmetic.
Cryptography, certificates, devices and clocks enter as parameters or as arbitrary recorded results.

## Main results

- The measurement log is uniquely decodable: two enclaves have the same log if and only if they
  have the same parameters and the same page loads (`Measure.EnclaveLogUniquelyDecodable`). What
  stands where in it is stated byte by byte (`Measure.EnclaveRecords`).
- The EEID replay measures exactly the pages its settings describe, in increasing order, around the
  guard pages, with every byte of every page given (`EeidPages.StackPages`, `EeidPages.TcsPages`,
  `EeidPages.StructurePages`). Its log fixes an EEID structure, among all supported ones, if and only if the
  structure does not fill its pages exactly (`EeidLayout.BoundIff`).
- What a name resolves to is fixed by laws on strings: ".." takes back the component before it, "."
  and repeated slashes do nothing, relative names stand behind the working directory
  (`PathLaws.DotDotCancels`, `PathLaws.RelativeToCwd`).
- Over every sequence of chdir, mount and unmount the mount table and the working directory stay
  canonical, and resolution finds the unique longest mounted prefix, whatever the table's order
  (`MountSpec.RunWellFormed`, `MountSpec.ResolveInMeaning`).
- The version 1 reader looks at every level; the version 2 reader stops at the first hit and skips
  the rest by counting brackets. On the texts of the same levels they agree, and the second comes
  to the end of its list if and only if the brackets behind the hit are balanced
  (`TcbSkip.VersionsAgree`). Every whole document of either version, with any white space, is
  parsed to its fields, its signed part and the verdict of its levels if and only if that holds
  (`TcbDocument.DocumentParsed`), and every document can be printed (`TcbPrint.PrintedAndParsed`).
  The result is OK if and only if the first level that applies to the platform says "UpToDate" or
  "SWHardeningNeeded" (`TcbVerdict.VerdictOfDocument`). The level that is reported beside it is the
  last one read: the last of the list, or in version 2 the one that settled the platform, if any
  (`TcbVerdict.ReportedLevel`).
- Over all byte strings, the parser accepts exactly the texts of one grammar, and whatever it accepts
  is reported as those texts say (`TcbExact.AcceptedIff`, `TcbGrammar.AcceptedIsText`,
  `TcbExact.TextAccepted`).
- Parsing the DER encoding of any SGX extension values returns those values
  (`SgxExtensions.ParseUndoesEncode`), and in any input that is accepted each value stands behind its
  own object identifier (`SgxAccepted.AcceptedHolds`).
- A quote is accepted if and only if every step succeeds and the time lies in every window that is
  folded in (`Verdict.AcceptsIff`), and the "inconsistent TCB status" branch is unreachable
  (`Verdict.VerifyQuote`, `Verdict.VerifyRemoteEvidence`). Evidence comes out OK only if its claims
  could be extracted too, and a failure there is the result. What else fails first is the result as
  well, layer by layer (`Verdict.RevocationResult`, `Verdict.QeResult`, `Verdict.QuoteResult`).
- After any sequence of registrations and lookups, a lookup with a fresh or correctly cached id is
  a plain search by name, and the id that it hands out to be cached is the name's place in the
  global table (`EcallRuns.LookupIsSearch`).
- Over every sequence of descriptor operations a descriptor keeps naming the same file until it is
  itself closed or replaced (`FdTable.OpenUntilTouched`).

## Where the code differs from what one would expect

The model follows the code. Each difference is stated with an input where it shows and, where a
property fails, with the exact condition under which it holds.

- Integers from 18446744073709551610 to 18446744073709551615 fit in 64 bits but are refused
  (`TcbText.LargestIntegersRefused`); all smaller ones are read (`TcbText.IntegerAt`).
- `oe_remeasure_memory_pages` returns OE_OK even when a step failed. The hash covers the whole
  replay if and only if every load fits above the base; it is missing if and only if a load does
  not fit whose failure is noticed (`EeidReplay.RemeasureMemoryPages`, `EeidReplay.HashMissing`,
  `EeidReplay.HashIncomplete`).
- The last page of an EEID structure whose size is a whole number of pages is measured as zeros, so
  that page is not bound (`EeidLayout.ExactPageNotBound`, `EeidLayout.EeidPagesBindImage`). Each
  such structure has another with the same replay (`EeidLayout.ExactPagesNotBound`,
  `EeidLayout.BoundIff`).
- `oe_umount2` removes the entry even when the device refuses (`MountSpec.UmountRemovesMounted`,
  `MountSpec.RefusedUmountRemoves`).
- Of a document's version only 32 bits are kept, so that 4294967297 is read as 1
  (`TcbDocument.HeaderAt`); it is refused if and only if what is kept is neither 1 nor 2
  (`TcbRefusals.VersionRefused`).
- The version 2 reader counts brackets inside quotes. A document with the status "]" behind the
  level that settles the platform is refused in version 2 and accepted in version 1
  (`TcbSamples.StrayBracketPrinted`); the exact condition is `TcbSkip.Skippable`, in
  `TcbSkip.ArrayV2At` for lists and in `TcbDocument.DocumentParsed` for documents.
- An advisory list ends at its first closing bracket, also inside quotes. It is read whole if and
  only if it contains none (`TcbText.IdsAt`, `TcbSamples.StrayAdvisoryRefused`).
- A long-form DER length that is cut off by the end is accepted with the value of the bytes that
  are there. An accepted length was read whole if and only if its bytes end before the end
  (`SgxExtensions.AcceptedWhole`, `SgxExtensions.CutLengthAccepted`).
- A DER length is tested on addresses. A length that runs past the end is accepted if and only if
  the address behind it wraps around (`SgxExtensions.AddressedIff`,
  `SgxExtensions.WrappedLengthAccepted`).
- The date parser does not require digits. Printing what was parsed gives the same text back if and
  only if every field consists of digits (`Datetime.PrintUndoesParse`,
  `Datetime.ParseAcceptsNonDigits`). Printing keeps four digits of the year, so parsing undoes it
  if and only if the year is at most 9999 (`Datetime.ParseUndoesPrint`).
- Descriptor INT_MAX can never be reassigned (`FdTable.ReassignReplaces`).
- The dates of the first CRL are used for all of them. Every date in the first CRL's window lies in
  every CRL's window if and only if that window is empty or nested in each
  (`Verdict.FirstCrlStandsForAll`, `Verdict.SecondCrlIgnored`). The other windows may still keep
  accepted times inside: the times in a quote's overall window lie in the second CRL's if and only
  if the overall window is empty or nested in it (`VerdictWindows.UnfoldedHeldIff`). A quote is
  accepted at a time when they do not (`VerdictWindows.AcceptedAfterSecondCrl`).
- The dates of the TCB information are overwritten by those of the CRL before anything is compared
  (common/sgx/collateral.c:142-145), so they are only logged. The next update of the QE identity is
  compared with a minimum date, but not folded into the validity window
  (common/sgx/qeidentity.c:102-118 and 193-195). The times in a quote's overall window respect
  either if and only if that window is empty or ends in time, and for the TCB information also
  begins in time (`VerdictWindows.UnfoldedHeldIff`, and over accepted times
  `VerdictWindows.AcceptedHeldIffNested`). Quotes are accepted after either has expired
  (`VerdictWindows.AcceptedAfterTcbInfo`, `VerdictWindows.AcceptedAfterNextUpdate`).
- `oe_iov_pack` adds up sizes without a test. The headers lie inside the allocation if and only if
  its size did not wrap (`Iov.HeadersInside`, `Iov.HeaderOutside`).
- `oe_iov_sync` does not compare the buffer's size with the number of headers before it reads them.
  A header is read outside if and only if the buffer is too short for them and none that it holds
  is refused (`Iov.OutsideIff`, `Iov.OutsideEmptyBuffer`); a buffer with room for all headers is
  never read outside (`Iov.SyncedOk`).
- `oe_argv_to_buffer` adds up lengths without a test. The size it reports is what a fill needs if
  and only if the total is below 2^64 (`Argv.ArgvToBuffer`, `Argv.TotalWraps`).
- A custom claim with a name of size zero is accepted; a stored name ends in its terminator if and
  only if its size is not zero (`CustomClaims.NameEnds`, `CustomClaims.EmptyNameAccepted`).
- In the KDF's fixed data two different labels can stand for each other if and only if one begins
  with the other and a zero byte (`Kdf.LabelsCollide`, `Kdf.NulInLabelNotBound`).

## Model

| member | source | states |
|---|---|---|
| Measure.MeasureZeros | common/sgx/sgxmeasure.c:10-27 | the chunked loop appends exactly `count` zero bytes to the hashed log, for every count |
| Measure.MeasureEextend | common/sgx/sgxmeasure.c:29-49 | the loop appends the sixteen EEXTEND records of a page; in the log it leaves, record k has its tag, the offset of chunk k modulo 2^64, 48 zeros and the 256 bytes of chunk k |
| Measure.MeasureCreateEnclave | common/sgx/sgxmeasure.c:51-73 | restarts the log with the ECREATE record, with tag, frame size, size and zeros in their places; a missing argument leaves it alone |
| Measure.MeasureLoadEnclaveData | common/sgx/sgxmeasure.c:75-104 | refuses exactly a zero address, a missing page, zero flags or an address below the base; otherwise appends the EADD record and, when extending, the page's EEXTEND records, field by field |
| Measure.EnclaveRecords | common/sgx/sgxmeasure.c:10-104 | in the log of any enclave the ECREATE record and the records of each load stand in their places, field by field |
| Measure.ChunkRecords | common/sgx/sgxmeasure.c:36-48 | the sixteen EEXTEND records read back from the log, each with its own offset and contents |
| Measure.WholeBlocks | common/sgx/sgxmeasure.c:51-104 | after every operation the log is a whole number of 64-byte SHA-256 blocks |
| Measure.ExtendLogInjective | common/sgx/sgxmeasure.c:29-49 | equal EEXTEND records come from equal page contents |
| Measure.LoadsLogInjective | common/sgx/sgxmeasure.c:75-104 | equal logs of loads have equal offsets, flags and extend bits, and equal contents where extended |
| Measure.EnclaveLogUniquelyDecodable | common/sgx/sgxmeasure.c:10-104 | two enclave logs are equal if and only if parameters and measured loads are |
| EeidReplay.MeasurePage | common/sgx/eeid.c:66-88 | succeeds exactly when the address fits, measures one page, and advances by a page |
| EeidReplay.MeasureHeap | common/sgx/eeid.c:104-112 | succeeds exactly when every heap load fits above the base, and appends the log of the loads before the first that does not |
| EeidReplay.MeasureStack | common/sgx/eeid.c:116-120 | the same for the stack pages behind a guard page, from any address modulo 2^64 |
| EeidReplay.MeasureControlPages | common/sgx/eeid.c:122-155 | succeeds exactly when the TCS fits; the blank pages that fit are appended, and where one fails all later ones fail and the address stays out of range |
| EeidReplay.MeasureThread | common/sgx/eeid.c:114-156 | succeeds exactly when stack and TCS fit, and appends the log of the thread's loads before the first misfit |
| EeidReplay.MeasureThreads | common/sgx/eeid.c:114-156 | the same for all threads: a blank page skipped in one thread is noticed in the next |
| EeidReplay.FillEeidPage | common/sgx/eeid.c:167-174 | zero fill and copy: byte for byte the structure's bytes as far as they are bound, zeros behind, although the last page copies the remainder |
| EeidReplay.MeasureEeidPages | common/sgx/eeid.c:158-176 | succeeds exactly when every page of the structure fits, and appends the log before the first misfit |
| EeidReplay.RemeasureMemoryPages | common/sgx/eeid.c:90-182 | always OK; there is a hash exactly when every load fits whose failure is noticed, and it covers the whole replay exactly when every load fits |
| EeidReplay.HashMissing | common/sgx/eeid.c:111-112 | a structure with one heap page at the top of the address space: OK and no hash |
| EeidReplay.HashIncomplete | common/sgx/eeid.c:149-155 | a structure whose hash leaves out the blank pages of its thread |
| EeidImage.ImageLength | include/openenclave/bits/eeid.h:26-64 | the computed byte size is the size of the packed structure in memory |
| EeidImage.ImageInjective | include/openenclave/bits/eeid.h:26-64 | two structures have the same memory image if and only if they are equal |
| EeidFields.ImageFields | include/openenclave/bits/eeid.h:26-64 | every field of the structure in memory at its offset, least significant byte first |
| EeidFields.EncodedFields | common/sgx/eeid.c:464-507 | every field of the network form at its offset, most significant byte first |
| EeidLayout.ReplayCount | common/sgx/eeid.c:112-176 | heap + tcs * (stack + 5) pages, plus the rounded-up EEID pages |
| EeidPages.HeapPages | common/sgx/eeid.c:100-112 | heap loads: one page after the other from the start address, writable, not extended, all zeros |
| EeidPages.StackPages | common/sgx/eeid.c:102-120 | the stack loads of every thread: behind the guard page, writable, extended, 0xcc in every byte |
| EeidPages.TcsPages | common/sgx/eeid.c:122-148 | every thread's TCS: its offset and flags, ossa, nssa 2, oentry, fsbase and gsbase equal, both limits 0xFFFFFFFF, zeros elsewhere |
| EeidPages.BlankPages | common/sgx/eeid.c:149-155 | the four blank loads of every thread: their slots, writable, extended, all zeros |
| EeidPages.StructurePages | common/sgx/eeid.c:158-176 | the EEID pages: behind everything else, read-only, extended, and byte for byte the structure, but for a page filled to its end |
| EeidLayout.ThreadStartClosedForm | common/sgx/eeid.c:110-156 | the part before the EEID pages ends at vaddr + 4096 * (heap + tcs * (stack + 8)) |
| EeidLayout.ReplayAscending | common/sgx/eeid.c:110-176 | where the span does not wrap, loads lie at strictly increasing offsets, whole pages above the start and inside the span |
| EeidLayout.SpanFits | common/sgx/eeid.c:66-88 | a span that ends below 2^64 above the base has no load that does not fit |
| EeidLayout.GuardPagesSkipped | common/sgx/eeid.c:117-151 | no load falls on any of the three guard pages of any thread |
| EeidLayout.TcsOssa | common/sgx/eeid.c:125-148 | the `ossa` field of each thread's TCS is the offset of the next load |
| EeidLayout.LoadKinds | common/sgx/eeid.c:112-176 | exactly the heap is unextended and exactly the EEID pages are read-only |
| EeidLayout.ReplayFixesSettings | common/sgx/eeid.c:90-182 | for all structures, equal replay logs have equal heap, thread and EEID page counts and, given a thread, equal stack, address, entry point and TLS span |
| EeidLayout.EeidPagesBindImage | common/sgx/eeid.c:158-174 | the measured pages of two supported structures of any sizes are equal if and only if the sizes are and the bytes that are copied are |
| EeidLayout.ReplayBindsImage | common/sgx/eeid.c:90-182 | two supported structures replay to one log if and only if their sizes and copied bytes are equal and, where they fill one page and so nothing is copied, the settings that the loads show |
| EeidLayout.ReplayFixesEeid | common/sgx/eeid.c:90-182 | where the size is not a whole number of pages, two structures replay to one log if and only if they are equal |
| EeidLayout.ExactPagesNotBound | common/sgx/eeid.c:167-174 | every supported structure that fills its pages exactly has the same replay as itself with another last byte |
| EeidLayout.BoundIff | common/sgx/eeid.c:90-182 | the replay's log fixes a supported structure if and only if its size is not a whole number of pages |
| EeidLayout.ExactPageNotBound | common/sgx/eeid.c:169-173 | two different supported structures of one page with the same replay |
| EeidCodec.ByteSizeIsLength | common/sgx/eeid.c:455-462 | the computed size is the length of the encoding, even when the two variable sizes wrap around in their sum |
| EeidCodec.Hton | common/sgx/eeid.c:351-366 | writes an integer big-endian exactly when it fits, and nothing behind it (the 64-bit helper is the same at width 8) |
| EeidCodec.Ntoh | common/sgx/eeid.c:368-384 | reads back the big-endian value exactly when enough bytes remain (likewise at width 8) |
| EeidCodec.HtonEeid | common/sgx/eeid.c:464-507 | succeeds exactly for a supported version and a buffer of the computed size; either way the buffer then begins with as many whole fields of the encoding as fit, and the rest is untouched |
| EeidCodec.WrittenFields | common/sgx/eeid.c:464-507 | what is written of an encoding that does not fit ends at the last place between two fields that the buffer reaches |
| EeidCodec.NtohEeid | common/sgx/eeid.c:509-554 | succeeds exactly when the buffer begins with the supported version, holds the 108 fixed bytes and behind them as many as two size fields say; then every field is the decoded one, and any other buffer is an invalid parameter |
| EeidCodec.DecodedIff | common/sgx/eeid.c:509-554 | which buffers hold a structure, on their bytes |
| EeidCodec.DecodeUndoesEncode | common/sgx/eeid.c:464-554 | reading any buffer that begins with a written structure returns that structure |
| EeidCodec.EncodeUndoesDecode | common/sgx/eeid.c:509-554 | whatever is read is a well-formed structure whose encoding the buffer begins with |
| Paths.CopyIn | syscall/stdlib.c:34-54 | the absolute or cwd-prefixed name, refused exactly when it does not fit |
| Paths.NextToken | syscall/stdlib.c:56-68 | one tokenizer step peels exactly the first component off the rest |
| Paths.Split | syscall/stdlib.c:56-68 | the array receives "/" and the components, within half its capacity |
| Paths.Keep | syscall/stdlib.c:70-86 | the surviving elements are the component stack after "." and ".." |
| Paths.Build | syscall/stdlib.c:88-103 | writes the rendered path and never runs out of room |
| Paths.RealPath | syscall/stdlib.c:13-131 | equals the component-stack fold, is canonical, and fits |
| Paths.RenderCanonical | syscall/stdlib.c:88-103 | rendered components form a canonical path |
| Paths.ResolvedCanonical | syscall/stdlib.c:13-131 | every resolved path is canonical: absolute, no empty, "." or ".." component, no trailing slash but the root's |
| Paths.ResolvedIdempotent | syscall/stdlib.c:13-131 | resolving a canonical path returns it |
| Paths.ResolvedLength | syscall/stdlib.c:88-103 | resolution never lengthens a name, so nothing overflows after the initial copy |
| PathLaws.DotDotCancels | syscall/stdlib.c:70-86 | in any path, a component and the ".." behind it can be taken out |
| PathLaws.RootDotDot | syscall/stdlib.c:77-83 | ".." at the root can be taken out |
| PathLaws.DotIgnored | syscall/stdlib.c:72-75 | "." can be taken out anywhere |
| PathLaws.SlashIgnored | syscall/stdlib.c:56-68 | another slash, between components or at the end, changes nothing |
| PathLaws.RelativeToCwd | syscall/stdlib.c:34-54 | a relative name stands behind the working directory; an absolute one does not depend on it |
| PathLaws.RefusedIff | syscall/stdlib.c:29-54 | a name is refused exactly when it is missing or, completed, has 4096 characters or more |
| PathLaws.ParentOf | syscall/stdlib.c:70-103 | the parent of a component is the canonical path before it |
| MountSpec.StepWellFormed | syscall/mount.c:129-306 | chdir, mount and unmount keep mount paths canonical, distinct and at most 64, and the cwd canonical |
| MountSpec.RunWellFormed | syscall/mount.c:129-306 | the same after every sequence of operations |
| MountSpec.MatchesIffPrefix | syscall/mount.c:80-110 | the string test on a mount path is exactly the component-prefix relation |
| MountSpec.SuffixCompletes | syscall/mount.c:97-107 | mount components followed by suffix components are the path's components |
| MountSpec.ResolveInMeaning | syscall/mount.c:80-110 | resolution returns the device of the unique longest mounted prefix with the completing suffix, and fails, with ENOENT, exactly when there is none |
| MountSpec.ResolveOrderIndependent | syscall/mount.c:80-110 | tables with the same entries in any order resolve alike |
| MountSpec.UnmountAffectsOnlyCovered | syscall/mount.c:283-296 | swap-with-last removal changes only paths whose longest match was removed |
| MountSpec.MountAffectsOnlyCovered | syscall/mount.c:192-227 | mounting changes only paths at or below the new mount |
| MountSpec.UmountRemovesMounted | syscall/mount.c:243-306 | exactly the resolved mounted path is removed, also when the device refuses |
| MountSpec.RefusedUmountRemoves | syscall/mount.c:283-300 | a mounted path whose device refuses: the call fails and the mount is gone |
| MountSpec.UmountUndoesMount | syscall/mount.c:129-306 | unmounting right after a successful mount restores the namespace |
| NamespaceLaws.ChdirOutcome | syscall/unistd.c:99-139 | a change of directory succeeds exactly for a name that resolves to a directory, with the error of the step that fails otherwise and nothing else changed |
| NamespaceLaws.ChdirThenRelative | syscall/unistd.c:99-139 | after it, a relative name means what it meant behind that directory |
| NamespaceLaws.BoundThread | syscall/mount.c:53-76 | a thread with its own device sees names as they are; one whose device is missing sees none; any other resolves the name, which is refused when it is too long, and looks it up |
| NamespaceLaws.MountOutcome | syscall/mount.c:129-241 | a mount succeeds exactly when all its conditions hold, and then adds one entry with the resolved path, its size, the flags and the cloned device |
| NamespaceLaws.MountErrors | syscall/mount.c:129-241 | each error comes exactly under its condition |
| NamespaceLaws.MountThenResolve | syscall/mount.c:80-227 | below a new mount, and above any other, lookups reach its device with the rest of the path |
| NamespaceLaws.UmountThread | syscall/mount.c:243-306 | a thread's own device does not matter to unmounting, unless it is missing |
| MountTable.FileNamespace.constructor | syscall/mount.c:21-38 | an empty table and the root as working directory |
| MountTable.FileNamespace.GetCwd | syscall/unistd.c:55-97 | the stored directory, with the size errors |
| MountTable.FileNamespace.ChangeDir | syscall/unistd.c:99-139 | the chdir step in place |
| MountTable.FileNamespace.MountResolve | syscall/mount.c:40-127 | the lookup loop equals resolution over the table |
| MountTable.FileNamespace.MountAt | syscall/mount.c:129-241 | the mount step in place |
| MountTable.FileNamespace.UmountAt | syscall/mount.c:243-306 | the unmount step in place |
| TcbJson.SkipWs | common/sgx/tcbinfo.c:37-42 | stops at the first byte that is not one of the seven that count as white space, inside the document |
| TcbJson.ReadChar | common/sgx/tcbinfo.c:51-61 | succeeds exactly on that character, and advances inside the document |
| TcbJson.ScanInteger | common/sgx/tcbinfo.c:68-96 | accepts exactly digit runs whose value is below the limit, and returns that value |
| TcbJson.ScanString | common/sgx/tcbinfo.c:101-132 | the span of the literal, or the error |
| TcbJson.NameRead | common/sgx/tcbinfo.c:176-196 | a name is accepted only where that very name stands in quotes before a colon, white space aside |
| TcbJson.ScanHexString | common/sgx/tcbinfo.c:146-174 | the decoded bytes, exactly as many as asked for |
| TcbJson.HexDigitMeaning | common/sgx/tcbinfo.c:134-143 | the digits of either case have their values, and no other character has one |
| TcbJson.HexByteOr | common/sgx/tcbinfo.c:155-168 | two hex digits make their byte; a second character that is no digit sets the bit of weight 16 and is not noticed |
| TcbJson.DepthNonNegative | common/sgx/tcbinfo.c:433-446 | the skipper's bracket counter never goes below zero |
| TcbJson.MoveToEndOfTcbLevels | common/sgx/tcbinfo.c:433-446 | stops exactly at the closing bracket of depth zero, or at the end |
| TcbLevels.StatusNameRoundTrip | common/sgx/tcbinfo.c:234-328 | naming the status of a text gives that text back, or "Invalid" exactly for unknown texts |
| TcbLevels.StatusFlags | common/sgx/tcbinfo.c:234-280 | for every text, exactly which flags it sets; only "UpToDate" and "SWHardeningNeeded" make a platform up to date |
| TcbLevels.StatusOfName | common/sgx/tcbinfo.c:234-328 | reading the name of a status gives that status back |
| TcbLevels.DeterminePlatformTcbLevel | common/sgx/tcbinfo.c:406-430 | the loop over sixteen components and pcesvn takes a level over exactly when the platform is undecided, the level known, and every version covered |
| TcbLevels.ScanAllChoosesFirst | common/sgx/tcbinfo.c:471-497 | the full scan takes the status of the first recognised covered level |
| TcbLevels.ScanUntilKnownChoosesFirst | common/sgx/tcbinfo.c:537-603 | the early-exit scan takes status and date of the same level |
| TcbLevels.ScansAgree | common/sgx/tcbinfo.c:457-609 | both scans settle on the same status for every list of levels |
| TcbLevels.RestIrrelevant | common/sgx/tcbinfo.c:582-603 | levels behind the chosen one do not matter |
| TcbLevels.RaisingVersionsChoosesNoLater | common/sgx/tcbinfo.c:406-430 | higher platform versions never move the choice to a later level |
| TcbInfo.ScanToClose | common/sgx/tcbinfo.c:570-574 | stops at the next closing bracket or at the end, with the size in between |
| TcbInfo.ScanLevelsV1 | common/sgx/tcbinfo.c:457-503 | the version 1 loop equals its recursive reading |
| TcbInfo.ReadLevelsV1Meaning | common/sgx/tcbinfo.c:457-503 | reading the array is reading its levels and scanning all of them, and fails exactly when a level cannot be read |
| TcbInfo.ScanLevelsV2 | common/sgx/tcbinfo.c:520-609 | the version 2 loop equals its recursive reading |
| TcbInfo.ReadLevelsV2Meaning | common/sgx/tcbinfo.c:520-609 | reading the array is reading levels up to the chosen one and scanning those |
| TcbInfo.ReadLevelsChoosesFirst | common/sgx/tcbinfo.c:457-609 | whichever version was read, the status is that of the first recognised covered level in the text |
| TcbInfo.ReadTcbInfo | common/sgx/tcbinfo.c:635-755 | a complete object's signed part lies in the document, from '{' to '}' |
| TcbInfo.ParseTcbInfoJson | common/sgx/tcbinfo.c:764-839 | a verdict comes exactly with a complete parse, is OK only for an up-to-date platform and TCB_LEVEL_INVALID only for another, and the signed part lies in the document; without a complete parse the result is a parse error, or an invalid parameter for no document |
| TcbText.IntegerAt | common/sgx/tcbinfo.c:68-96 | every integer below the limit, printed in decimal before any token that is not a digit, is read back exactly |
| TcbText.NameAt | common/sgx/tcbinfo.c:176-196 | where a name stands with its colon, reading succeeds for that name and for no other |
| TcbText.TcbAt | common/sgx/tcbinfo.c:341-396 | the text of any sixteen versions and PCE version is read back if and only if the latter has 16 bits |
| TcbText.LargestIntegersRefused | common/sgx/tcbinfo.c:62-96 | the last six 64-bit integers are refused |
| TcbText.IdsAt | common/sgx/tcbinfo.c:560-577 | the advisory list is always accepted, and read whole if and only if there is no closing bracket in it |
| TcbText.LevelV2At | common/sgx/tcbinfo.c:537-581 | the text of any version 2 level is read back, with the stretch of the document that holds its advisory identifiers, or the stretch of the level before it when it has none |
| TcbText.Spelling | common/sgx/tcbinfo.c:341-370 | the quote, the backslash and the brackets, and the names of the component versions, spelled out |
| TcbText.AsciiCodes | common/sgx/tcbinfo.c:176-196 | the seven-bit characters of names stand for themselves |
| TcbText.ArrayV1At | common/sgx/tcbinfo.c:457-503 | the version 1 text of any levels, with any white space and any brackets in the statuses, is read completely, as the full scan of those levels, and the level reported is the last |
| TcbSkip.SkipsToBalanced | common/sgx/tcbinfo.c:433-446 | the skipper ends at a given closing bracket if and only if the text up to it is balanced |
| TcbSkip.SpelledNesting | common/sgx/tcbinfo.c:433-446 | white space between tokens changes no bracket depth |
| TcbSkip.ArrayV2At | common/sgx/tcbinfo.c:520-609 | the version 2 text of any levels is read to its end if and only if the brackets behind the chosen level are balanced, and gives the early-exit scan of those levels and the last level read |
| TcbSkip.VersionsAgree | common/sgx/tcbinfo.c:457-609 | version 1 gives the status of the first recognised covered level; version 2, when it succeeds, gives the same and that level's date, and ends with its list if and only if the list is skippable |
| TcbSkip.TidySkippable | common/sgx/tcbinfo.c:433-446 | levels whose statuses are balanced and whose advisories have no brackets are skippable for every platform |
| TcbDocument.InfoAt | common/sgx/tcbinfo.c:635-755 | for the "tcbInfo" object of any document: if its levels can be skipped it is read completely, its fields and the last level read are returned and the signed part is exactly its text; otherwise it is refused or the signed part is another |
| TcbDocument.DocumentParsed | common/sgx/tcbinfo.c:764-839 | for every document of either version, on any text of it, the parser returns its fields, the last level read, its signed part and the verdict of its levels if and only if the levels can be skipped, and never other fields or another verdict |
| TcbDocument.DocumentsAgree | common/sgx/tcbinfo.c:457-839 | a version 1 document gives the verdict of the first recognised covered level; a version 2 document with the same levels gives the same or none, and gives it when its levels can be skipped |
| TcbDocument.HeaderAt | common/sgx/tcbinfo.c:646-680 | the fields before the PCE id are read back; of the version 32 bits are kept |
| TcbVerdict.VerdictOfDocument | common/sgx/tcbinfo.c:406-839 | for every document that is parsed, on any text of it, the result is OK if and only if the first level with a known status text and no version above the platform's says "UpToDate" or "SWHardeningNeeded" |
| TcbVerdict.ReportedLevel | common/sgx/tcbinfo.c:457-609 | whenever a document is parsed, the level reported has the versions, the flags and, in version 2, the date of the last level read, and the advisory identifiers of the last level read that has any |
| TcbVerdict.RevokedIsInvalid | common/sgx/tcbinfo.c:246-247 | a document whose deciding level is revoked gives TCB_LEVEL_INVALID and the revoked flag |
| TcbRefusals.AcceptedEnds | common/sgx/tcbinfo.c:800-839 | whatever is accepted ends in a closing brace and white space |
| TcbRefusals.VersionRefused | common/sgx/tcbinfo.c:724-742 | another version than 1 and 2, modulo 2^32, is refused |
| TcbRefusals.TcbTypeRefused | common/sgx/tcbinfo.c:701-716 | a version 2 object with another "tcbType" than 0 is refused |
| TcbRefusals.ComponentRefused | common/sgx/tcbinfo.c:370-381 | a component version above 255 is refused |
| TcbRefusals.EscapeRefused | common/sgx/tcbinfo.c:101-132 | a string with a backslash in it is refused |
| TcbGrammar.AcceptedIsText | common/sgx/tcbinfo.c:764-839 | whatever is accepted is, token by token, a text of the grammar, and the fields, the signed part, the signature, the level and the verdict reported are what its texts say |
| TcbExact.TextAccepted | common/sgx/tcbinfo.c:764-839 | every text of the grammar is accepted, and reported as it says |
| TcbExact.AcceptedIff | common/sgx/tcbinfo.c:764-839 | over all byte strings, the parser accepts exactly the texts of the grammar |
| TcbExact.RawIntegerAt | common/sgx/tcbinfo.c:68-96 | a number with any digits, leading zeros included, is read if and only if its value is below the limit |
| TcbPrint.WrittenIsText | common/sgx/tcbinfo.c:612-634 | what the printer writes is a text of the document |
| TcbPrint.PrintedAndParsed | common/sgx/tcbinfo.c:764-839 | every document is read back from its printed form if and only if its levels can be skipped |
| TcbPrint.HexRoundTrip | common/sgx/tcbinfo.c:134-174 | all bytes are read back from their hex text |
| TcbSamples.StrayBracketRefused | common/sgx/tcbinfo.c:433-446 | every text of a version 2 document with the status "]" behind its chosen level is a parse error |
| TcbSamples.StrayBracketPrinted | common/sgx/tcbinfo.c:433-503 | a printed document that is accepted in version 1 and refused in version 2, for every platform |
| TcbSamples.StrayAdvisoryRefused | common/sgx/tcbinfo.c:560-577 | every text of a version 2 level with the advisory identifier "]" is refused |
| SgxExtensions.ReadAsn1Length | common/sgx/sgxcertextensions.c:79-126 | the length loop equals the short or long form's value, tested on addresses, wrap-around of both included |
| SgxExtensions.AddressedIff | common/sgx/sgxcertextensions.c:119-121 | the test on addresses is the test on indices if and only if the address behind the length does not wrap; if it does, the length is accepted |
| SgxExtensions.WrappedLengthAccepted | common/sgx/sgxcertextensions.c:102-121 | a length of 2^64 - 1 that is accepted at every address |
| SgxExtensions.AcceptedWhole | common/sgx/sgxcertextensions.c:102-121 | an accepted length was read whole, with the cursor behind it, if and only if its bytes end before the end |
| SgxExtensions.CutLengthAccepted | common/sgx/sgxcertextensions.c:102-121 | a two-byte length with one byte there is accepted and the cursor stays |
| SgxExtensions.ReadExtension | common/sgx/sgxcertextensions.c:150-202 | on any input where no address wraps the data found is non-empty and inside the enclosing range, and ends where the cursor goes on |
| SgxExtensions.ReadOctets | common/sgx/sgxcertextensions.c:216-238 | exactly the demanded number of bytes, cursor inside |
| SgxExtensions.ReadIntegerExtension | common/sgx/sgxcertextensions.c:244-286 | the digit loop equals the big-endian value after an optional zero byte |
| SgxExtensions.IntegerFits | common/sgx/sgxcertextensions.c:288-333 | an accepted integer fits the width asked for, so the narrowing casts lose nothing |
| SgxExtensions.ScanComps | common/sgx/sgxcertextensions.c:460-468 | the loop over sixteen components equals reading them in order |
| SgxExtensions.LengthUndone | common/sgx/sgxcertextensions.c:79-126 | every DER length, short or long, is read back |
| SgxExtensions.ExtensionUndone | common/sgx/sgxcertextensions.c:150-202 | every encoded identifier and value is read back, and the cursor ends behind it |
| SgxExtensions.ParseUndoesEncode | common/sgx/sgxcertextensions.c:409-564 | for all field values, with or without the optional part, parsing the DER encoding returns them |
| SgxAccepted.RootArcs | common/sgx/sgxcertextensions.c:12-67 | the root of the identifiers is 1.2.840.113741.1.13.1 |
| SgxAccepted.AcceptedHolds | common/sgx/sgxcertextensions.c:409-564 | on any input that is accepted, every value stands in a sequence behind its own identifier, with its own tag and size, and the nested sequences behind theirs |
| SgxAccepted.TrailingRefused | common/sgx/sgxcertextensions.c:436-444 | bytes behind the outermost sequence are refused |
| SgxAccepted.TcbUsedUp | common/sgx/sgxcertextensions.c:455-490 | bytes behind the last extension of the TCB sequence are refused |
| SgxAccepted.ConfigurationUsedUp | common/sgx/sgxcertextensions.c:520-555 | bytes behind the booleans of the configuration are refused |
| SgxAccepted.OptionalUsedUp | common/sgx/sgxcertextensions.c:510-560 | bytes behind the optional part are refused |
| SgxAccepted.BooleanSkipped | common/sgx/sgxcertextensions.c:366-395 | a boolean of another length than one is passed over and leaves the value alone |
| SgxAccepted.BooleanMissing | common/sgx/sgxcertextensions.c:366-395 | where another extension stands, the boolean and the cursor stay |
| SgxAccepted.LongFormRead | common/sgx/sgxcertextensions.c:79-126 | a long-form length is read back with any number of bytes, also more than it needs |
| SgxAccepted.OtherRefused | common/sgx/sgxcertextensions.c:150-202 | an extension with another identifier or another tag is refused, each with its error |
| SgxAccepted.SizesRefused | common/sgx/sgxcertextensions.c:216-360 | octets, integers and enumerations of another size than asked for are refused, each with its error |
| SgxAccepted.TypeRefused | common/sgx/sgxcertextensions.c:486-507 | an SGX type above 1 is refused |
| Datetime.CompareIsRankOrder | common/datetime.c:204-227 | comparison is the order of one integer rank, hence total, and zero exactly on equal dates |
| Datetime.Calendar | common/datetime.c:16-94 | a date is valid exactly when it is one of the Gregorian calendar from 1970 on, with a time of day |
| Datetime.CharValue | common/datetime.c:108-116 | what one character counts for, those from 128 on as negative numbers |
| Datetime.ParseOutcome | common/datetime.c:162-202 | parsing succeeds exactly on twenty or more characters with six marks in place whose fields are a valid date |
| Datetime.PrintedLayout | common/datetime.c:118-160 | the six marks and the six numbers of a printed date, each in its place |
| Datetime.NumToStr | common/datetime.c:96-106 | the loop writes the zero-padded decimal and nothing else |
| Datetime.ToString | common/datetime.c:118-160 | valid dates are printed with a terminator; short buffers report the size and change nothing |
| Datetime.StrToNum | common/datetime.c:108-116 | the loop computes the decimal value modulo 2^32, whatever the characters |
| Datetime.FromString | common/datetime.c:162-202 | parsing; the out parameter is the date returned, and after a refusal holds the fields up to the first wrong mark, field by field, the others as they were |
| Datetime.ParseUndoesPrint | common/datetime.c:96-202 | for valid dates, parsing the printed text returns the date if and only if the year is at most 9999 |
| Datetime.PrintUndoesParse | common/datetime.c:108-202 | printing a parsed date gives the text back if and only if its fields are digits |
| Datetime.ParseAcceptsNonDigits | common/datetime.c:108-116 | a text with a non-digit that is accepted |
| Datetime.PrintedOrder | common/datetime.c:118-227 | lexicographic order of printed dates is the order of dates |
| Verdict.UpdateValidity | common/sgx/quote.c:425-440 | the new window holds exactly the dates that both windows hold |
| Verdict.WithinBoth | common/sgx/quote.c:425-440 | a time lies in the folded window if and only if it lies in both |
| Verdict.GetCrlValidity | common/sgx/collateral.c:73-113 | the loop returns the first CRL's window |
| Verdict.HeldIffNested | common/sgx/quote.c:425-440 | every date in one window lies in another if and only if the first is empty or nested in it |
| Verdict.FirstCrlStandsForAll | common/sgx/collateral.c:88-106 | every date in the first CRL's window lies in every CRL's window if and only if that window is empty or nested in each |
| Verdict.SecondCrlIgnored | common/sgx/collateral.c:88-106 | a date inside the first CRL's window and outside the second's |
| Verdict.ValidateRevocationList | common/sgx/collateral.c:233-499 | when every step succeeds, the document's verdict, platform and folded window; otherwise the result of the first step that fails, and the outputs untouched |
| Verdict.RevocationResult | common/sgx/collateral.c:233-499 | what the revocation layer returns: the first failing step's result or its own error for another platform, old dates or an empty window, else the verdict of the document |
| Verdict.ChainsResult | common/sgx/collateral.c:262-370 | the same for its steps on chains, CRLs and certificates |
| Verdict.ValidateQeIdentity | common/sgx/qeidentity.c:25-218 | OK exactly when every step is, with the window of the identity; otherwise the result of the first step that fails |
| Verdict.QeResult | common/sgx/qeidentity.c:25-218 | what the QE identity layer returns: the first failing step's result, its own error for old dates or an empty window, or OK |
| Verdict.GetSgxQuoteValidity | common/sgx/quote.c:677-806 | on acceptance the window written is the fold of all windows; the platform is the document's as soon as the revocation layer passes; the result is that of the first layer that fails; from a platform not yet up to date, OK exactly when the platform comes out up to date |
| Verdict.CertsResult | common/sgx/quote.c:677-770 | the first failing certificate step of a quote, or OK |
| Verdict.QuoteResult | common/sgx/quote.c:677-806 | the result of the first failing layer, the error for an empty overall window, or the verdict of the document |
| Verdict.VerifyQuote | common/sgx/quote.c:502-675 | when foreign calls never return TCB_LEVEL_INVALID, passes exactly when every step does and the time is inside the folded window; otherwise the first failure is the result and the window stays; from a platform not yet up to date, OK exactly when it comes out up to date |
| Verdict.EarlyResult | common/sgx/quote.c:530-620 | what stops a verification before its windows are asked for: no time, an invalid one, or the quote's own verification |
| Verdict.AcceptedInEveryWindow | common/sgx/quote.c:677-797 | a time is inside the folded window if and only if it is inside every single one |
| Verdict.AcceptsIff | common/sgx/quote.c:502-806 | acceptance, spelled out: every single step is OK, the document is about this platform, no date is before the minimum, and the time lies in every window |
| EvidenceVerdict.PlatformVerdict | common/sgx/collateral.c:340-420 | the result is OK if and only if the first level that applies to the versions in the certificate has a status that is good enough |
| EvidenceVerdict.AcceptedVerdict | common/sgx/quote.c:502-806 | what an accepted quote comes out as, on the texts that were signed |
| Verdict.VerifyRemoteEvidence | common/sgx/verifier.c:828-887 | the inconsistency branch is never taken; OK means accepted, up to date and claims extracted; a failure to extract claims from accepted evidence is the result, and so is the first failure before that |
| VerdictWindows.AcceptedHeldIffNested | common/sgx/quote.c:631-666 | all times at which a quote is accepted lie in a given window if and only if the quote's overall window is nested in it |
| VerdictWindows.UnfoldedHeldIff | common/sgx/collateral.c:142-145 | when the times of a quote's overall window lie in the second CRL's window, in the TCB information's, and before the QE identity's next update |
| VerdictWindows.AcceptedAfterSecondCrl | common/sgx/collateral.c:88-106 | a quote and a time after the second CRL's next update at which it is accepted |
| VerdictWindows.AcceptedAfterTcbInfo | common/sgx/collateral.c:142-145 | a quote and a time after the next update in its TCB information at which it is accepted |
| VerdictWindows.AcceptedAfterNextUpdate | common/sgx/qeidentity.c:191-195 | a quote and a time after the QE identity's next update at which it is accepted |
| EcallIds.Registry.GetGlobalId | host/ecall_ids.c:30-75 | an existing name keeps its id; a new one is appended exactly when no id was cached |
| EcallIds.Registry.AssignIds | host/ecall_ids.c:162-173 | the first pass enters all names and finds the greatest id, which is in range |
| EcallIds.Registry.FillIds | host/ecall_ids.c:185-194 | the second pass indexes in bounds, adds no name, and builds the table of last positions |
| EcallIds.Registry.RegisterEcalls | host/ecall_ids.c:143-206 | the registration step: the names and the enclave's table afterwards |
| EcallIds.Registry.GetEcallIds | host/ecall_ids.c:92-141 | the lookup step: the names, the id to cache, the id found, and NOT_FOUND exactly when there is none; a cached id is handed back as it is |
| EcallIds.IdStable | host/ecall_ids.c:30-75 | a name's id does not change as the table grows |
| EcallIds.InternAllDistinct | host/ecall_ids.c:30-75 | ids stay injective on names |
| EcallIds.InternAllNames | host/ecall_ids.c:162-173 | a registration adds the names of its ecalls and no others |
| EcallIds.NewNameNextId | host/ecall_ids.c:30-75 | new names get the next ids in the order in which they first occur |
| EcallRuns.StepKeepsInvariant | host/ecall_ids.c:92-206 | every registration and lookup keeps names distinct and all tables consistent, and only adds names |
| EcallRuns.RunInvariant | host/ecall_ids.c:92-206 | the invariant after every sequence of operations |
| EcallRuns.NamesOnlyGrow | host/ecall_ids.c:30-75 | over every sequence the name table only grows at its end |
| EcallRuns.CacheStaysCorrect | host/ecall_ids.c:92-141 | a correctly cached id stays correct |
| EcallRuns.LookupIsSearch | host/ecall_ids.c:92-206 | after any sequence of these steps, a lookup in a registered enclave returns the last index carrying the name, or none; the id to cache is the name's place in the table, which holds the names of before and at most this one more |
| FdTable.AssignTakesLeast | syscall/fdtable.c:216-258 | assign opens the least unopened descriptor and changes nothing else, growing only when it must; it fails only when all below INT_MAX are open |
| FdTable.ReleaseCloses | syscall/fdtable.c:260-286 | release works exactly on open descriptors and closes only that one |
| FdTable.ReassignReplaces | syscall/fdtable.c:288-327 | reassign works exactly from 0 up to INT_MAX - 1, returns the old file and replaces only it, growing as far as it must; otherwise EBADF |
| FdTable.StandardFiles | syscall/fdtable.c:93-146 | before the first operation exactly 0, 1 and 2 are open, on the standard files |
| FdTable.StandardFilesStay | syscall/fdtable.c:93-351 | over every sequence they stay open there until touched |
| FdTable.GetFinds | syscall/fdtable.c:329-371 | a lookup finds exactly the open file of the right kind, with the error otherwise |
| FdTable.GrowsInChunks | syscall/fdtable.c:52-91 | room is made in whole chunks of 1024 up to INT_MAX, and only when needed |
| FdTable.ReleaseUndoesAssign | syscall/fdtable.c:216-286 | releasing an assigned descriptor restores the open files |
| FdTable.RunCapacity | syscall/fdtable.c:52-91 | over every sequence the capacity never shrinks and never exceeds INT_MAX |
| FdTable.OpenUntilTouched | syscall/fdtable.c:216-351 | over every sequence an open descriptor names the same file until released or reassigned itself |
| FdTable.FileTable.ResizeTable | syscall/fdtable.c:52-91 | growing keeps all cells, fills with empty ones, and succeeds exactly up to INT_MAX |
| FdTable.FileTable.Initialize | syscall/fdtable.c:93-146 | the three standard files, entered once |
| FdTable.FileTable.Assign | syscall/fdtable.c:216-258 | the assign step in place |
| FdTable.FileTable.Release | syscall/fdtable.c:260-286 | the release step in place |
| FdTable.FileTable.Reassign | syscall/fdtable.c:288-327 | the reassign step in place |
| FdTable.FileTable.Get | syscall/fdtable.c:329-371 | the file, EBADF when not open, EINVAL for another type |
| CustomClaims.GetClaimsSize | common/custom_claims.c:193-216 | the size of the encoding, or overflow exactly when it needs more than 64 bits |
| CustomClaims.FillBuffer | common/custom_claims.c:218-254 | the bytes written are exactly the encoding and fill the computed size |
| CustomClaims.Serialize | common/custom_claims.c:256-286 | the encoding, or overflow |
| CustomClaims.EncodedLayout | common/custom_claims.c:218-254 | the version, the number of claims and each claim's sizes, name, terminator and value in their places |
| CustomClaims.EntryRefused | common/custom_claims.c:57-83 | when an entry is refused, with which error, and what an accepted one holds, on the bytes |
| CustomClaims.HeaderRefused | common/custom_claims.c:142-175 | which buffers are refused before any claim is read, and with which error |
| CustomClaims.FirstRefusedDecides | common/custom_claims.c:85-140 | behind a good header the first entry that is refused decides the error |
| CustomClaims.ReadEntry | common/custom_claims.c:104-128 | on any buffer the cursor moves on and stays inside |
| CustomClaims.NameEnds | common/custom_claims.c:57-83 | a name that was read ends in a zero byte if and only if its stated size is not zero |
| CustomClaims.EmptyNameAccepted | common/custom_claims.c:64-65 | an entry of sixteen zero bytes is accepted, with a name without terminator |
| CustomClaims.FillArray | common/custom_claims.c:85-140 | the loop equals reading the entries one after the other |
| CustomClaims.Deserialize | common/custom_claims.c:142-191 | equals the decoding, with the errors for short and missing buffers |
| CustomClaims.DecodeUndoesEncode | common/custom_claims.c:57-286 | deserializing a serialized array, with any bytes behind it, returns the claims |
| CustomClaims.EncodeUndoesDecode | common/custom_claims.c:57-191 | every accepted buffer begins with the encoding of what was read |
| Iov.Pack | syscall/iov.c:16-116 | for all vectors: filled with headers and data, refused, or writing past the allocation, with the exact condition of each |
| Iov.PackOutcomes | syscall/iov.c:61-113 | exactly when packing fills a buffer, is refused, or leaves its allocation |
| Iov.HeadersInside | syscall/iov.c:61-70 | the headers lie inside the allocation if and only if its size did not wrap |
| Iov.HeaderOutside | syscall/iov.c:61-89 | one segment of 2^64 - 8 bytes: eight bytes are allocated |
| Iov.PackedLayout | syscall/iov.c:72-113 | each segment's offset and length, eight bytes each, in its header, and its bytes at that offset |
| Iov.JudgeMeaning | syscall/iov.c:136-167 | when a header is skipped, copied from or refused, on the bytes of the buffer |
| Iov.BoundsMeanInside | syscall/iov.c:157-167 | the wrapping address test passes exactly for ranges inside the buffer |
| Iov.Sync | syscall/iov.c:118-182 | for any buffer, the loop equals the step-by-step judgement of the headers, in place |
| Iov.SyncedOk | syscall/iov.c:133-175 | as long as the buffer holds the headers none is read outside, and the steps succeed if and only if no header is refused |
| Iov.SyncedSegment | syscall/iov.c:133-175 | what each segment holds after any number of steps: the stretch of the buffer that its header names, if it and all headers before it are good, and its old bytes otherwise |
| Iov.OutsideIff | syscall/iov.c:133-148 | a header is read past the end if and only if the buffer is shorter than its headers and none of those it holds is refused |
| Iov.OutsideEmptyBuffer | syscall/iov.c:133-137 | an empty buffer and one empty segment: a header is read that is not there |
| Iov.SyncStaysInside | syscall/iov.c:133-175 | for any buffer contents a segment keeps its length and holds its old bytes or a stretch of the buffer |
| Iov.SyncDeliversData | syscall/iov.c:133-175 | if only the data area changed, synchronizing succeeds and the segments concatenate to that area |
| Iov.SyncUndoesPack | syscall/iov.c:61-175 | synchronizing with an untouched buffer changes nothing |
| Argv.Measure | common/argv.c:40-54 | the size of the flattened vector modulo 2^64, with the first 32 lengths kept |
| Argv.ArgvToBuffer | common/argv.c:17-88 | writes the flattened vector; the size reported is what a fill needs if and only if the total is below 2^64, and a copy leaves the buffer exactly when it is not and the buffer passes the test |
| Argv.TotalWraps | common/argv.c:53 | 2^24 pointers to one string of 2^40 - 1 characters: the total wraps to zero |
| Argv.BlockSize | common/argv.c:107-137 | the first pass: overflow, unterminated text, or the block's size |
| Argv.ExtractStrings | common/argv.c:143-171 | the second pass succeeds exactly for `argc` zero bytes and fills the pointers with the split |
| Argv.BufferToArgv | common/argv.c:90-183 | where sizes fit, succeeds exactly when the buffer is empty or ends in a zero byte and holds `argc` of them; then pointer i is string i and the last pointer is null |
| Argv.BufferUndoesArgv | common/argv.c:17-183 | splitting undoes flattening for any number of strings |
| Argv.ArgvUndoesBuffer | common/argv.c:107-171 | flattening undoes splitting on every terminated buffer |
| Kdf.SwapIsBigEndian | common/kdf.c:21-25 | the in-memory image of the swapped integer is its big-endian encoding |
| Kdf.FillKey | common/kdf.c:27-85 | byte j is byte j % 32 of the digest of the four-byte big-endian number j / 32 + 1 followed by the fixed data, as in section 5.1 of NIST SP 800-108 (2009); or fails, with the exact condition, and writes nothing |
| Kdf.DeriveKey | common/kdf.c:42-43 | refuses a missing key or output, and otherwise derives the same bytes |
| Kdf.DerivedCounterMode | common/kdf.c:59-78 | the stream of blocks is that, byte by byte |
| Kdf.DerivedAt | common/kdf.c:45-78 | each derived byte is the byte of its block that its index says |
| Kdf.ShorterIsPrefix | common/kdf.c:59-78 | for the same fixed data a shorter output is a prefix of a longer one |
| Kdf.CreateFixedData | common/kdf.c:87-159 | label, zero byte, context and bit length, each in its place, or the size errors |
| Kdf.LabelsCollide | common/kdf.c:116-147 | two different labels can share fixed data if and only if one begins with the other and a zero byte |
| Kdf.FixedDataBinds | common/kdf.c:116-147 | for labels without zero bytes, equal fixed data means equal label, context and size |
| Kdf.NulInLabelNotBound | common/kdf.c:129-143 | two different label and context pairs with the same fixed data |

## Left out

- EcallIds.Registry.GetGlobalId: more than 2^31 distinct names, where the 32-bit capacity would wrap to zero, and null names are not modelled.
- EcallIds.Registry.AssignIds: more than 2^31 distinct names are not modelled.
- EcallIds.Registry.FillIds: more than 2^31 distinct names are not modelled.
- EcallIds.Registry.RegisterEcalls: more than 2^31 distinct names are not modelled.
- EcallIds.Registry.GetEcallIds: more than 2^31 distinct names are not modelled.
- Verdict.VerifyQuote: certificate, signature and CRL operations are recorded results; a null platform pointer is not modelled.
- Verdict.ValidateQeIdentity: the reader of the QE identity document and the comparison with the report are recorded results.
- CustomClaims.Serialize: a NULL claim array is not modelled, only arrays of any length.
- Argv.BufferToArgv: looks for the end of the buffer before it looks at a character; the original does so in the other order.
- Iov.Sync: the buffer does not overlap the segments, nor they each other.
- TcbDocument.DocumentParsed: statuses and hex texts hold no quote and no backslash, years have four digits and, in version 2, advisory lists hold no closing bracket; the other texts that are accepted are in `TcbExact.AcceptedIff`.
- TcbInfo.ParseTcbInfoJson: after a refusal the original's platform and parsed fields hold what was read so far; the model gives them no meaning.
- EeidCodec.NtohEeid: the fields that a refused structure was filled with so far are not modelled.
- Verdict.VerifyRemoteEvidence: extracting claims is a recorded result, OK when none are asked for.
- SgxExtensions.ReadExtension: reads its lengths with the test on indices; where an address wraps around it refuses, and the original goes on with the wrapped pointer.
- VerdictWindows.AcceptedHeldIffNested: for overall windows whose ends are valid dates; `VerdictWindows.UnfoldedHeldIff` has no such condition.
- Where the original would write or read outside a buffer, the model stops and says so.
- Allocation always succeeds; freeing on failure paths is not modelled.
- Locks: every locked section is one step.
- Devices, host calls, the thread-local device and file status enter as arguments.
- SHA-256 and HMAC-SHA-256 are a log of the bytes hashed and a function parameter.
- `oe_kdf_derive_key`'s mode switch, `oe_fdtable_foreach`, `oe_dup2`, `oe_close`, `oe_select` and the EEID evidence codec are not part of this model.
- The remaining syscall layer (sockets, epoll, console, host calls), the debugger extensions and the libc wrappers are not part of this model; they dispatch to foreign code.
